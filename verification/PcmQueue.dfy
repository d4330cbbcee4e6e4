/**
 Decoded audio through a buffer queue: AudioPlayer_to_android.cpp fills the
 buffers from the decoder, android_AudioToCbRenderer.cpp loops until a decoded
 block is gone, and the playback side takes bytes out of enqueued buffers.

 A queue slot holds the client's memory by value.
 */
module PcmQueues {
  import opened BufferRings
  import opened Sequences

  type bytes = seq<int>

  function Flat(list: seq<bytes>): bytes {
    if list == [] then [] else list[0] + Flat(list[1..])
  }

  lemma {:induction false} FlatAppend(a: seq<bytes>, b: seq<bytes>)
    ensures Flat(a + b) == Flat(a) + Flat(b)
    decreases |a|
  {
    if a == [] {
      assert a + b == b;
    } else {
      assert (a + b)[0] == a[0] && (a + b)[1..] == a[1..] + b;
      FlatAppend(a[1..], b);
      Assoc(a[0], Flat(a[1..]), Flat(b));
    }
  }

  lemma FlatOne(x: bytes)
    ensures Flat([x]) == x
  {
    assert [x][1..] == [];
    assert x + [] == x;
  }

  lemma OverwrittenIs(mem: bytes, at: nat, data: bytes)
    requires at + |data| <= |mem|
    ensures |Overwritten(mem, at, data)| == |mem|
    ensures Overwritten(mem, at, data)[..at + |data|] == mem[..at] + data
  {
  }

  function Lengths(list: seq<bytes>): seq<nat> {
    seq(|list|, i requires 0 <= i < |list| => |list[i]|)
  }

  // Filling buffers from the decoder

  class PcmSink {
    const queue: BufferRing<bytes>
    var sizeConsumed: nat
    /** Buffers handed back full, and the sizes of all buffers ever enqueued. */
    ghost var completed: seq<bytes>
    ghost var sizes: seq<nat>

    /** Buffers keep their sizes; one that has begun to fill is not full yet. */
    ghost predicate Valid()
      reads this, queue, queue.slots
    {
      && queue.Valid() && queue.index == |completed|
      && sizes == Lengths(completed) + Lengths(queue.Items())
      && (sizeConsumed == 0 || (queue.count > 0 && sizeConsumed < |queue.Items()[0]|))
    }

    /** All the bytes in buffers, in the order of the queue. */
    ghost function Placed(): bytes
      requires Valid()
      reads this, queue, queue.slots
    {
      Flat(completed) + if queue.count == 0 then [] else queue.Items()[0][..sizeConsumed]
    }

    constructor (numBuffers: nat)
      ensures Valid() && Placed() == [] && fresh(queue) && fresh(queue.slots) && queue.slots.Length == numBuffers + 1
    {
      queue := new BufferRing(numBuffers, []);
      sizeConsumed, completed, sizes := 0, [], [];
    }

    /** The client's step: a buffer of some size at the rear. */
    method Enqueue(mem: bytes) returns (ok: bool)
      requires Valid()
      modifies `sizes, queue`rear, queue`count, queue.slots
      ensures Valid() && ok == (old(queue.count) + 1 < queue.slots.Length) && Placed() == old(Placed())
      ensures sizes == if ok then old(sizes) + [|mem|] else old(sizes)
      ensures queue.count == if ok then old(queue.count) + 1 else old(queue.count)
    {
      ok := !queue.Full();
      if ok {
        ghost var was := queue.Items();
        queue.Enqueue(mem);
        sizes := sizes + [|mem|];
        assert Lengths(was + [mem]) == Lengths(was) + [|mem|];
      }
    }

    /**
     adecoder_writeToBufferQueue.  `safe` is the callback protector's answer.  What
     is taken is a prefix of the data, as long as it and the front buffer allow; a
     buffer that fills up is handed back.
     */
    method Write(data: bytes, safe: bool) returns (consumed: nat, callback: bool)
      requires Valid()
      modifies `sizeConsumed, `completed, queue`front, queue`count, queue`index, queue.slots
      ensures Valid() && consumed <= |data|
      ensures Placed() == old(Placed()) + data[..consumed]
      ensures consumed == if !safe || old(queue.count) == 0 then 0
                          else Min(|data|, |old(queue.Items())[0]| - old(sizeConsumed))
      ensures callback <==> safe && old(queue.count) > 0 && |data| >= |old(queue.Items())[0]| - old(sizeConsumed)
      ensures callback ==> queue.count == old(queue.count) - 1
                           && completed == old(completed) + [completed[|old(completed)|]]
                           && |completed[|old(completed)|]| == |old(queue.Items())[0]|
      ensures !callback ==> completed == old(completed) && queue.count == old(queue.count)
    {
      consumed, callback := 0, false;
      if !safe || queue.count == 0 {
        return;
      }
      var front := queue.Front();
      if sizeConsumed + |data| < |front| {
        FillPart(front, data);
        consumed := |data|;
        assert data[..consumed] == data;
      } else {
        consumed := |front| - sizeConsumed;
        FillRest(front, data[..consumed]);
        callback := true;
      }
    }

    /** All the data goes into the front buffer, which stays. */
    method FillPart(front: bytes, data: bytes)
      requires Valid() && queue.count > 0 && front == queue.Items()[0] && sizeConsumed + |data| < |front|
      modifies `sizeConsumed, queue.slots
      ensures Valid() && Placed() == old(Placed()) + data
    {
      PlacePart(completed, front, sizeConsumed, data);
      OverwrittenIs(front, sizeConsumed, data);
      queue.SetFront(Overwritten(front, sizeConsumed, data));
      LengthsSet(queue.Items(), old(queue.Items()));
      sizeConsumed := sizeConsumed + |data|;
    }

    /** The data fills the front buffer, which goes back to the client. */
    method FillRest(front: bytes, data: bytes)
      requires Valid() && queue.count > 0 && front == queue.Items()[0] && sizeConsumed + |data| == |front|
      modifies `sizeConsumed, `completed, queue`front, queue`count, queue`index
      ensures Valid() && Placed() == old(Placed()) + data
      ensures queue.count == old(queue.count) - 1 && |completed| == |old(completed)| + 1
      ensures completed == old(completed) + [completed[|old(completed)|]] && |completed[|old(completed)|]| == |front|
    {
      PlaceRest(completed, front, sizeConsumed, data);
      completed := completed + [Overwritten(front, sizeConsumed, data)];
      LengthsMove(old(completed), queue.Items(), completed);
      sizeConsumed := 0;
      queue.Retire();
      assert Flat(completed) + [] == Flat(completed);
      assert queue.Items() != [] ==> queue.Items()[0][..0] == [];
    }
  }

  lemma PlacePart(completed: seq<bytes>, front: bytes, at: nat, data: bytes)
    requires at + |data| <= |front|
    ensures Flat(completed) + Overwritten(front, at, data)[..at + |data|] == Flat(completed) + front[..at] + data
  {
    OverwrittenIs(front, at, data);
    Assoc(Flat(completed), front[..at], data);
  }

  lemma PlaceRest(completed: seq<bytes>, front: bytes, at: nat, data: bytes)
    requires at + |data| == |front|
    ensures Flat(completed + [Overwritten(front, at, data)]) == Flat(completed) + front[..at] + data
    ensures |Overwritten(front, at, data)| == |front|
  {
    var full := Overwritten(front, at, data);
    OverwrittenIs(front, at, data);
    assert full[..|full|] == full;
    FlatAppend(completed, [full]);
    FlatOne(full);
    Assoc(Flat(completed), front[..at], data);
  }

  lemma LengthsSet(now: seq<bytes>, was: seq<bytes>)
    requires was != [] && |now| == |was| && |now[0]| == |was[0]| && forall i :: 1 <= i < |was| ==> now[i] == was[i]
    ensures Lengths(now) == Lengths(was)
  {
  }

  lemma LengthsMove(completed: seq<bytes>, items: seq<bytes>, after: seq<bytes>)
    requires items != [] && |after| == |completed| + 1 && after[..|completed|] == completed
    requires |after[|completed|]| == |items[0]|
    ensures Lengths(after) + Lengths(items[1..]) == Lengths(completed) + Lengths(items)
  {
    assert Lengths(after) == Lengths(completed) + [|items[0]|] by {
      assert forall i :: 0 <= i < |completed| ==> after[i] == after[..|completed|][i];
    }
    assert Lengths(items) == [|items[0]|] + Lengths(items[1..]);
  }

  // The render loop

  /** What happens around one turn of the loop: buffers the client enqueues, and the protector's answer. */
  datatype Turn = Turn(buffers: seq<bytes>, safe: bool)

  datatype Why = Done | Refused | NoBuffer | EmptyBuffer

  method EnqueueAll(s: PcmSink, buffers: seq<bytes>)
    requires s.Valid()
    modifies s`sizes, s.queue`rear, s.queue`count, s.queue.slots
    ensures s.Valid() && s.Placed() == old(s.Placed()) && old(s.sizes) <= s.sizes
  {
    for i := 0 to |buffers|
      invariant s.Valid() && s.Placed() == old(s.Placed()) && old(s.sizes) <= s.sizes
    {
      var ok := s.Enqueue(buffers[i]);
    }
  }

  /**
   onRender on one decoded block, whatever the client does meanwhile.  It always
   ends; what went into buffers is a prefix of the block, and all of it unless the
   callback was refused, no buffer was left, or a buffer had no room at all.
   */
  method OnRender(s: PcmSink, block: bytes, playing: bool, env: seq<Turn>) returns (taken: nat, ghost why: Why)
    requires s.Valid()
    modifies s`sizes, s`sizeConsumed, s`completed, s.queue`front, s.queue`rear, s.queue`count, s.queue`index,
             s.queue.slots
    ensures s.Valid() && taken <= |block| && s.Placed() == old(s.Placed()) + block[..taken]
    ensures old(s.sizes) <= s.sizes && (!playing ==> taken == 0)
    ensures playing ==> (why == Done <==> taken == |block|)
    ensures why == NoBuffer ==> s.queue.count == 0
    ensures why == Refused ==> exists t :: t in env && !t.safe
    ensures why == EmptyBuffer ==> s.completed != [] && s.completed[|s.completed| - 1] == []
  {
    taken, why := 0, Done;
    if !playing {
      return;
    }
    var n := 0;
    while taken < |block|
      invariant s.Valid() && taken <= |block| && s.Placed() == old(s.Placed()) + block[..taken]
      invariant old(s.sizes) <= s.sizes && why == Done
      decreases |block| - taken
    {
      var turn := if n < |env| then env[n] else Turn([], true);
      var consumed;
      consumed, why := RenderTurn(s, block[taken..], turn);
      PrefixGrows(old(s.Placed()), block, taken, consumed);
      taken := taken + consumed;
      if consumed == 0 {
        break;
      }
      n := n + 1;
    }
  }

  /** One turn of the loop, with what happens around it. */
  method RenderTurn(s: PcmSink, rest: bytes, turn: Turn) returns (consumed: nat, ghost why: Why)
    requires s.Valid() && rest != []
    modifies s`sizes, s`sizeConsumed, s`completed, s.queue`front, s.queue`rear, s.queue`count, s.queue`index,
             s.queue.slots
    ensures s.Valid() && consumed <= |rest| && s.Placed() == old(s.Placed()) + rest[..consumed]
    ensures old(s.sizes) <= s.sizes && (why == Done <==> consumed > 0)
    ensures why == NoBuffer ==> s.queue.count == 0
    ensures why == Refused ==> !turn.safe
    ensures why == EmptyBuffer ==> s.completed != [] && s.completed[|s.completed| - 1] == []
  {
    EnqueueAll(s, turn.buffers);
    ghost var count := s.queue.count;
    var callback;
    consumed, callback := s.Write(rest, turn.safe);
    why := if consumed > 0 then Done else if !turn.safe then Refused else if count == 0 then NoBuffer else EmptyBuffer;
  }

  lemma PrefixGrows(placed: bytes, block: bytes, taken: nat, consumed: nat)
    requires taken + consumed <= |block|
    ensures placed + block[..taken] + block[taken..][..consumed] == placed + block[..taken + consumed]
  {
    assert block[..taken] + block[taken..][..consumed] == block[..taken + consumed];
  }

  /** What was taken of each block. */
  predicate Prefixes(parts: seq<bytes>, blocks: seq<bytes>) {
    |parts| == |blocks| && forall i :: 0 <= i < |parts| ==> parts[i] <= blocks[i]
  }

  /**
   Over any run of render calls the bytes in buffers are the consumed prefixes of
   the decoded blocks, one after the other.
   */
  method RenderAll(s: PcmSink, blocks: seq<bytes>, env: seq<seq<Turn>>) returns (ghost parts: seq<bytes>)
    requires s.Valid() && |env| == |blocks|
    modifies s`sizes, s`sizeConsumed, s`completed, s.queue`front, s.queue`rear, s.queue`count, s.queue`index,
             s.queue.slots
    ensures s.Valid() && Prefixes(parts, blocks) && s.Placed() == old(s.Placed()) + Flat(parts)
  {
    parts := [];
    assert old(s.Placed()) + [] == old(s.Placed());
    for i := 0 to |blocks|
      invariant s.Valid() && Prefixes(parts, blocks[..i]) && s.Placed() == old(s.Placed()) + Flat(parts)
    {
      var taken, why := OnRender(s, blocks[i], true, env[i]);
      PartsGrow(old(s.Placed()), parts, blocks[i][..taken]);
      parts := parts + [blocks[i][..taken]];
      assert blocks[..i + 1] == blocks[..i] + [blocks[i]];
    }
    assert blocks[..|blocks|] == blocks;
  }

  lemma PartsGrow(placed: bytes, parts: seq<bytes>, part: bytes)
    ensures placed + Flat(parts) + part == placed + Flat(parts + [part])
  {
    FlatAppend(parts, [part]);
    FlatOne(part);
    Assoc(placed, Flat(parts), part);
  }

  // The playback side

  /** A reading position inside the front buffer. */
  predicate InFront(items: seq<bytes>, at: nat) {
    at == 0 || (items != [] && at < |items[0]|)
  }

  /** The bytes from there on. */
  function Left(items: seq<bytes>, at: nat): bytes
    requires InFront(items, at)
  {
    if items == [] then [] else items[0][at..] + Flat(items[1..])
  }

  lemma LeftAppend(items: seq<bytes>, at: nat, mem: bytes)
    requires InFront(items, at)
    ensures InFront(items + [mem], at) && Left(items + [mem], at) == Left(items, at) + mem
  {
    FlatOne(mem);
    if items == [] {
      assert [mem][0][at..] == mem && [mem][1..] == [];
      assert items + [mem] == [mem];
    } else {
      assert (items + [mem])[1..] == items[1..] + [mem];
      FlatAppend(items[1..], [mem]);
      Assoc(items[0][at..], Flat(items[1..]), mem);
    }
  }

  lemma LeftPart(items: seq<bytes>, at: nat, size: nat)
    requires items != [] && at + size < |items[0]|
    ensures Left(items, at) == items[0][at..at + size] + Left(items, at + size)
  {
    assert items[0][at..] == items[0][at..at + size] + items[0][at + size..];
    Assoc(items[0][at..at + size], items[0][at + size..], Flat(items[1..]));
  }

  lemma PulledPart(pulled: bytes, items: seq<bytes>, at: nat, size: nat, data: bytes)
    requires items != [] && at + size < |items[0]| && data == items[0][at..at + size]
    ensures InFront(items, at + size) && pulled + Left(items, at) == (pulled + data) + Left(items, at + size)
  {
    LeftPart(items, at, size);
    Assoc(pulled, data, Left(items, at + size));
  }

  lemma LeftRest(items: seq<bytes>, at: nat)
    requires items != [] && InFront(items, at)
    ensures Left(items, at) == items[0][at..] + Left(items[1..], 0)
  {
    if items[1..] != [] {
      assert items[1..][0][0..] == items[1..][0];
    }
  }

  class PcmSource {
    const queue: BufferRing<bytes>
    var sizeConsumed: nat
    /** Every buffer enqueued, and every byte handed out. */
    ghost var fed: seq<bytes>
    ghost var pulled: bytes

    ghost predicate Valid()
      reads this, queue, queue.slots
    {
      && queue.Valid() && InFront(queue.Items(), sizeConsumed)
      && Flat(fed) == pulled + Left(queue.Items(), sizeConsumed)
    }

    constructor (numBuffers: nat)
      ensures Valid() && fed == [] && pulled == [] && fresh(queue) && fresh(queue.slots)
      ensures queue.slots.Length == numBuffers + 1
    {
      queue := new BufferRing(numBuffers, []);
      sizeConsumed, fed, pulled := 0, [], [];
    }

    method Enqueue(mem: bytes) returns (ok: bool)
      requires Valid()
      modifies `fed, queue`rear, queue`count, queue.slots
      ensures Valid() && ok == (old(queue.count) + 1 < queue.slots.Length)
      ensures fed == if ok then old(fed) + [mem] else old(fed)
    {
      ok := !queue.Full();
      if ok {
        LeftAppend(queue.Items(), sizeConsumed, mem);
        FlatAppend(fed, [mem]);
        FlatOne(mem);
        Assoc(pulled, Left(queue.Items(), sizeConsumed), mem);
        queue.Enqueue(mem);
        fed := fed + [mem];
      }
    }

    /** EVENT_MORE_DATA: at most `size` bytes, and never past the end of the front buffer. */
    method Pull(size: nat) returns (data: bytes, callback: bool)
      requires Valid()
      modifies `sizeConsumed, `pulled, queue`front, queue`count, queue`index
      ensures Valid() && pulled == old(pulled) + data && |data| <= size
      ensures |data| == if old(queue.count) == 0 then 0 else Min(size, |old(queue.Items())[0]| - old(sizeConsumed))
      ensures callback <==> queue.count < old(queue.count)
      ensures queue.index == old(queue.index) + (if callback then 1 else 0)
    {
      data, callback := [], false;
      if queue.count == 0 {
        return;
      }
      var front := queue.Front();
      if sizeConsumed + size < |front| {
        data := PullPart(front, size);
      } else {
        data := PullRest(front);
        callback := true;
      }
    }

    method PullPart(front: bytes, size: nat) returns (data: bytes)
      requires Valid() && queue.count > 0 && front == queue.Items()[0] && sizeConsumed + size < |front|
      modifies `sizeConsumed, `pulled
      ensures Valid() && pulled == old(pulled) + data && |data| == size
    {
      data := front[sizeConsumed..sizeConsumed + size];
      PulledPart(pulled, queue.Items(), sizeConsumed, size, data);
      sizeConsumed := sizeConsumed + size;
      pulled := pulled + data;
    }

    method PullRest(front: bytes) returns (data: bytes)
      requires Valid() && queue.count > 0 && front == queue.Items()[0]
      modifies `sizeConsumed, `pulled, queue`front, queue`count, queue`index
      ensures Valid() && pulled == old(pulled) + data && |data| == |front| - old(sizeConsumed)
      ensures queue.count == old(queue.count) - 1 && queue.index == old(queue.index) + 1
    {
      LeftRest(queue.Items(), sizeConsumed);
      data := front[sizeConsumed..];
      Assoc(pulled, data, Left(queue.Items()[1..], 0));
      sizeConsumed := 0;
      pulled := pulled + data;
      queue.Retire();
    }
  }

  datatype Event = Feed(mem: bytes) | Play(size: nat)

  /** Whatever the order of enqueues and pulls, what was played is a prefix of what was enqueued. */
  method Playback(s: PcmSource, script: seq<Event>) returns (played: bytes)
    requires s.Valid() && s.fed == [] && s.pulled == []
    modifies s`fed, s`pulled, s`sizeConsumed, s.queue`front, s.queue`rear, s.queue`count, s.queue`index, s.queue.slots
    ensures s.Valid() && played == s.pulled <= Flat(s.fed)
    ensures s.queue.count == 0 ==> played == Flat(s.fed)
  {
    played := [];
    for i := 0 to |script|
      invariant s.Valid() && played == s.pulled
    {
      match script[i]
      case Feed(mem) =>
        var ok := s.Enqueue(mem);
      case Play(size) =>
        var data, callback := s.Pull(size);
        played := played + data;
    }
  }
}
