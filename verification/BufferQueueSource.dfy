/**
 BufferQueueSource.cpp: a stream read only inside the front buffer of a queue.
 */
module BufferQueueSources {
  import opened Adts
  import opened BufferRings

  /** A buffer header: the client's bytes, the end-of-stream command, and how much was consumed. */
  datatype Item = Item(data: bytes, eos: bool, consumed: nat)

  /** What the source's fields stand for. */
  datatype Queue = Queue(items: seq<Item>, base: nat, eos: bool)

  /** Commands are read once, when reading from a buffer starts. */
  function Opened(it: Item): Item {
    if it.consumed == 0 then it.(eos := false) else it
  }

  predicate InFront(q: Queue, offset: nat, size: nat) {
    q.items != [] && q.base <= offset && offset + size <= q.base + |q.items[0].data|
  }

  /** The bytes a read delivers: all of them or none. */
  function ReadOut(q: Queue, offset: nat, size: nat): bytes {
    if q.eos || !InFront(q, offset, size) then []
    else q.items[0].data[offset - q.base..offset - q.base + size]
  }

  function ReadNext(q: Queue, offset: nat, size: nat): Queue {
    if q.eos || q.items == [] then q
    else
      var front := q.items[0];
      var eos := front.consumed == 0 && front.eos;
      if InFront(q, offset, size) && offset + size == q.base + |front.data|
      then Queue(q.items[1..], q.base + |front.data|, eos)
      else Queue(q.items[0 := Opened(front)], q.base, eos)
  }

  class BufferQueueSource {
    const queue: BufferRing<Item>
    /** The callback's event mask has the bit for processed buffers. */
    const tellsProcessed: bool
    /** mStreamToBqOffset: the stream offset of the front buffer's first byte. */
    var base: nat
    var eosReached: bool

    ghost predicate Valid()
      reads this, queue
    {
      queue.Valid()
    }

    ghost function State(): Queue
      requires Valid()
      reads this, queue, queue.slots
    {
      Queue(queue.Items(), base, eosReached)
    }

    constructor (numBuffers: nat, tellsProcessed: bool)
      ensures this.tellsProcessed == tellsProcessed
      ensures Valid() && State() == Queue([], 0, false) && queue.index == 0
      ensures fresh(queue) && fresh(queue.slots) && queue.slots.Length == numBuffers + 1
    {
      queue := new BufferRing(numBuffers, Item([], false, 0));
      base, eosReached, this.tellsProcessed := 0, false, tellsProcessed;
    }

    /**
     readAt.  The check on the offset is a precondition; a buffer is retired when a
     read ends at its last byte, and the client is then told if it asked to be.
     */
    method ReadAt(offset: nat, size: nat) returns (data: bytes, notify: bool)
      requires Valid()
      requires !eosReached && queue.count > 0 ==> base <= offset
      modifies `base, `eosReached, queue`front, queue`count, queue`index, queue.slots
      ensures Valid()
      ensures data == ReadOut(old(State()), offset, size)
      ensures State() == ReadNext(old(State()), offset, size)
      ensures queue.index == old(queue.index) + (|old(State()).items| - |State().items|)
      ensures notify <==>
                tellsProcessed && (|State().items| < |old(State()).items| || (eosReached && !old(eosReached)))
    {
      if eosReached {
        return [], false;
      }
      data, notify := [], false;
      if queue.count == 0 {
        return;
      }
      var front := queue.Front();
      if front.consumed == 0 {
        if front.eos {
          eosReached, notify := true, tellsProcessed;
        }
        front := front.(eos := false);
        queue.SetFront(front);
      }
      if offset + size <= base + |front.data| {
        data := front.data[offset - base..offset - base + size];
        if offset - base + size == |front.data| {
          queue.SetFront(front.(consumed := |front.data|));
          base := base + |front.data|;
          notify := tellsProcessed;
          queue.Retire();
        }
      }
    }
  }
}
