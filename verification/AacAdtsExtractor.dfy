/**
 AacAdtsExtractor.cpp: the extractor that takes frames off a buffer queue whose
 buffers passed the boundary validator.
 */
module AacAdtsExtractors {
  import opened Adts
  import opened BufferRings
  import opened BufferQueueSources
  import opened Sequences

  // The stream a queue stands for

  /** What enqueueing lets through: validated data, or the end-of-stream command, which has none. */
  predicate Sound(it: Item) {
    it.consumed == 0 && if it.eos then it.data == [] else it.data != [] && Aligned(it.data)
  }

  predicate AllSound(items: seq<Item>) {
    forall k :: 0 <= k < |items| ==> Sound(items[k])
  }

  predicate NoEos(items: seq<Item>) {
    forall k :: 0 <= k < |items| ==> !items[k].eos
  }

  /** The payloads of all frames of all buffers in order, up to the end of the stream. */
  function Stream(items: seq<Item>): seq<bytes>
    requires AllSound(items)
  {
    if items == [] || items[0].eos then [] else DataPayloads(items[0].data) + Stream(items[1..])
  }

  lemma AllSoundAppend(a: seq<Item>, b: seq<Item>)
    requires AllSound(a) && AllSound(b)
    ensures AllSound(a + b)
  {
  }

  lemma StreamStep(items: seq<Item>, x: Item, rest: seq<Item>, payloads: seq<bytes>)
    requires items != [] && items[0] == x && items[1..] == rest && AllSound(items)
    requires !x.eos && payloads == DataPayloads(x.data)
    ensures AllSound(rest) && Stream(items) == payloads + Stream(rest)
  {
  }

  lemma {:induction false} StreamAppend(a: seq<Item>, b: seq<Item>)
    requires AllSound(a) && AllSound(b)
    ensures AllSound(a + b)
    ensures Stream(a + b) == Stream(a) + (if NoEos(a) then Stream(b) else [])
    decreases |a|
  {
    AllSoundAppend(a, b);
    if a == [] {
      assert a + b == b;
    } else if !a[0].eos {
      var x, rest, payloads := a[0], a[1..], DataPayloads(a[0].data);
      StreamStep(a, x, rest, payloads);
      RestAppend(a, b);
      StreamStep(a + b, x, rest + b, payloads);
      StreamAppend(rest, b);
      assert NoEos(a) <==> NoEos(rest);
      Assoc(payloads, Stream(rest), if NoEos(rest) then Stream(b) else []);
    }
  }

  /** The front buffer holds data. */
  predicate HasData(q: Queue) {
    !q.eos && q.items != [] && !q.items[0].eos
  }

  /** What is left of the front buffer at stream position `offset`. */
  function Rest(q: Queue, offset: nat): bytes
    requires HasData(q)
  {
    if q.base <= offset <= q.base + |q.items[0].data| then q.items[0].data[offset - q.base..] else []
  }

  /** The reading position is at a frame of the front buffer, or at the front of nothing. */
  predicate Ready(q: Queue, offset: nat) {
    q.eos ||
    (AllSound(q.items) && if HasData(q) then Rest(q, offset) != [] && Aligned(Rest(q, offset)) else offset == q.base)
  }

  /** The payloads still to come. */
  function Pending(q: Queue, offset: nat): seq<bytes>
    requires Ready(q, offset)
  {
    if HasData(q) then DataPayloads(Rest(q, offset)) + Stream(q.items[1..]) else []
  }

  /** The size of the next frame. */
  function NextSize(q: Queue, offset: nat): nat
    requires HasData(q)
  {
    FrameSizeAt(Rest(q, offset), 0)
  }

  /** The first frame of aligned data. */
  lemma FrontFrame(r: bytes, n: nat)
    requires r != [] && Aligned(r) && n == FrameSizeAt(r, 0)
    ensures 7 <= n <= |r| && Aligned(r[n..])
    ensures DataPayloads(r) == [r[HEADER_LENGTH..n]] + DataPayloads(r[n..])
  {
  }

  lemma RestRead(q: Queue, offset: nat, r: bytes, skip: nat, size: nat)
    requires HasData(q) && r == Rest(q, offset) && r != [] && skip + size <= |r|
    ensures ReadOut(q, offset + skip, size) == r[skip..skip + size]
  {
  }

  /** Asking for the frame size stays inside the front buffer and consumes nothing. */
  lemma HeadRead(q: Queue, offset: nat)
    requires Ready(q, offset) && HasData(q)
    ensures var h := ReadOut(q, offset, UP_TO_FRAMESIZE);
      |h| == UP_TO_FRAMESIZE && FrameSize(h) == NextSize(q, offset) && 7 <= NextSize(q, offset)
    ensures ReadNext(q, offset, UP_TO_FRAMESIZE) == q
  {
    var r := Rest(q, offset);
    RestRead(q, offset, r, 0, UP_TO_FRAMESIZE);
    assert Sound(q.items[0]);
  }

  /** With nothing pending a read delivers nothing, and nothing is lost. */
  lemma EmptyRead(q: Queue, offset: nat, size: nat)
    requires Ready(q, offset) && Pending(q, offset) == [] && size > 0
    ensures ReadOut(q, offset, size) == []
    ensures var q' := ReadNext(q, offset, size);
      Ready(q', offset) && Pending(q', offset) == [] && |q'.items| == |q.items| && q'.base == q.base
      && (q'.eos <==> q.eos || (q.items != [] && q.items[0].eos)) && (!q'.eos ==> q' == q)
  {
  }

  lemma AfterInnerFrame(q: Queue, offset: nat, n: nat, payload: bytes, next: bytes)
    requires Ready(q, offset) && HasData(q) && next == Rest(q, offset + n) && next != [] && Aligned(next)
    requires DataPayloads(Rest(q, offset)) == [payload] + DataPayloads(next)
    ensures Ready(q, offset + n) && Pending(q, offset) == [payload] + Pending(q, offset + n)
  {
    var later := Stream(q.items[1..]);
    Assoc([payload], DataPayloads(next), later);
  }

  lemma RestNext(q: Queue, offset: nat, r: bytes, n: nat)
    requires HasData(q) && r == Rest(q, offset) && n < |r|
    ensures Rest(q, offset + n) == r[n..]
  {
  }

  lemma AfterLastFrame(q: Queue, q': Queue, offset: nat, r: bytes, payload: bytes)
    requires Ready(q, offset) && HasData(q) && r == Rest(q, offset)
    requires q' == Queue(q.items[1..], q.base + |q.items[0].data|, false)
    requires DataPayloads(r) == [payload]
    ensures Ready(q', offset + |r|) && Pending(q, offset) == [payload] + Pending(q', offset + |r|)
  {
    if HasData(q') {
      assert Sound(q'.items[0]) && Rest(q', offset + |r|) == q'.items[0].data;
    }
  }

  /** What reading the next frame's payload leaves: the buffer is retired exactly at its last frame. */
  function AfterRead(q: Queue, offset: nat): Queue
    requires HasData(q)
  {
    if NextSize(q, offset) == |Rest(q, offset)| then Queue(q.items[1..], q.base + |q.items[0].data|, false) else q
  }

  /** The position after a frame. */
  lemma AfterFrame(q: Queue, q': Queue, offset: nat, r: bytes, n: nat) returns (payload: bytes)
    requires Ready(q, offset) && HasData(q) && r == Rest(q, offset) && n == NextSize(q, offset)
    requires q' == AfterRead(q, offset)
    ensures 7 <= n <= |r| && payload == r[HEADER_LENGTH..n]
    ensures Ready(q', offset + n) && Pending(q, offset) == [payload] + Pending(q', offset + n)
  {
    FrontFrame(r, n);
    payload := r[HEADER_LENGTH..n];
    var next := r[n..];
    if n == |r| {
      assert next == [];
      AfterLastFrame(q, q', offset, r, payload);
    } else {
      RestNext(q, offset, r, n);
      AfterInnerFrame(q, offset, n, payload, next);
    }
  }

  /** Reading the payload takes exactly that. */
  lemma BodyRead(q: Queue, offset: nat)
    requires Ready(q, offset) && HasData(q)
    ensures var r, n := Rest(q, offset), NextSize(q, offset);
      && 7 <= n <= |r|
      && ReadOut(q, offset + HEADER_LENGTH, n - HEADER_LENGTH) == r[HEADER_LENGTH..n]
      && ReadNext(q, offset + HEADER_LENGTH, n - HEADER_LENGTH) == AfterRead(q, offset)
  {
    var r, n := Rest(q, offset), NextSize(q, offset);
    FrontFrame(r, n);
    RestRead(q, offset, r, HEADER_LENGTH, n - HEADER_LENGTH);
    assert Sound(q.items[0]);
  }

  lemma EnqueueEmpty(q: Queue, x: Item, offset: nat)
    requires Ready(q, offset) && Sound(x) && !q.eos && q.items == []
    ensures var q' := q.(items := [x]); Ready(q', offset) && Pending(q', offset) == Stream([x])
  {
    if !x.eos {
      assert Rest(q.(items := [x]), offset) == x.data;
    }
  }

  lemma EnqueueBehind(q: Queue, q': Queue, x: Item, offset: nat)
    requires Ready(q, offset) && Sound(x) && !q.eos && q.items != [] && q' == q.(items := q.items + [x])
    ensures Ready(q', offset)
    ensures Pending(q', offset) == Pending(q, offset) + (if NoEos(q.items) then Stream([x]) else [])
  {
    var rest := q.items[1..];
    RestAppend(q.items, [x]);
    StreamAppend(rest, [x]);
    assert NoEos(q.items) <==> HasData(q) && NoEos(rest);
    if HasData(q) {
      SameRest(q, q', offset);
      Assoc(DataPayloads(Rest(q, offset)), Stream(rest), if NoEos(rest) then Stream([x]) else []);
    }
  }

  lemma SameRest(q: Queue, q': Queue, offset: nat)
    requires HasData(q) && HasData(q') && q'.items[0] == q.items[0] && q'.base == q.base
    ensures Rest(q', offset) == Rest(q, offset)
  {
  }

  /** A buffer put at the rear comes after everything pending. */
  lemma EnqueueGrows(q: Queue, q': Queue, x: Item, offset: nat)
    requires Ready(q, offset) && Sound(x) && q' == q.(items := q.items + [x])
    ensures Ready(q', offset)
    ensures Pending(q', offset) == Pending(q, offset) + (if !q.eos && NoEos(q.items) then Stream([x]) else [])
  {
    if !q.eos {
      if q.items == [] {
        assert q'.items == [x];
        EnqueueEmpty(q, x, offset);
      } else {
        EnqueueBehind(q, q', x, offset);
      }
    }
  }

  // History

  /** The buffers retired are the oldest ones, and the others are queued; only the last read can end the stream. */
  ghost predicate Queued(q: Queue, fed: seq<Item>, retired: seq<Item>) {
    && NoEos(retired) && |fed| == |retired| + |q.items|
    && if q.eos then !NoEos(fed) else fed == retired + q.items
  }

  /** What was delivered and what is pending make up the stream. */
  ghost predicate Accounted(q: Queue, offset: nat, fed: seq<Item>, delivered: seq<bytes>) {
    AllSound(fed) && Ready(q, offset) && Stream(fed) == delivered + Pending(q, offset)
  }

  lemma NoEosAppend(a: seq<Item>, b: seq<Item>)
    ensures NoEos(a + b) <==> NoEos(a) && NoEos(b)
  {
    if NoEos(a + b) {
      assert forall k :: 0 <= k < |a| ==> (a + b)[k] == a[k];
      assert forall k :: 0 <= k < |b| ==> (a + b)[|a| + k] == b[k];
    }
  }

  lemma QueuedEnqueue(q: Queue, q': Queue, fed: seq<Item>, retired: seq<Item>, x: Item)
    requires Queued(q, fed, retired) && q' == q.(items := q.items + [x])
    ensures Queued(q', fed + [x], retired)
    ensures NoEos(fed) <==> !q.eos && NoEos(q.items)
  {
    NoEosAppend(retired, q.items);
    NoEosAppend(fed, [x]);
    assert (retired + q.items) + [x] == retired + (q.items + [x]);
  }

  lemma AccountedEnqueue(q: Queue, q': Queue, offset: nat, fed: seq<Item>, delivered: seq<bytes>,
      x: Item)
    requires Accounted(q, offset, fed, delivered) && Sound(x) && q' == q.(items := q.items + [x])
    requires NoEos(fed) <==> !q.eos && NoEos(q.items)
    ensures Accounted(q', offset, fed + [x], delivered)
    ensures Stream(fed + [x]) == Stream(fed) + (if NoEos(fed) then Stream([x]) else [])
  {
    StreamAppend(fed, [x]);
    EnqueueGrows(q, q', x, offset);
    if NoEos(fed) {
      Assoc(delivered, Pending(q, offset), Stream([x]));
    }
  }

  lemma QueuedRead(q: Queue, q': Queue, offset: nat, fed: seq<Item>, retired: seq<Item>)
    requires HasData(q) && Queued(q, fed, retired) && q' == AfterRead(q, offset)
    ensures Queued(q', fed, RetiredAfter(q, offset, retired))
  {
    assert retired + q.items == (retired + [q.items[0]]) + q.items[1..];
  }

  /** The buffers retired once the next frame is taken. */
  function RetiredAfter(q: Queue, offset: nat, retired: seq<Item>): seq<Item>
    requires HasData(q)
  {
    if NextSize(q, offset) == |Rest(q, offset)| then retired + [q.items[0]] else retired
  }

  lemma AccountedRead(q: Queue, q': Queue, offset: nat, offset': nat, fed: seq<Item>,
      delivered: seq<bytes>, payload: bytes)
    requires Accounted(q, offset, fed, delivered) && Ready(q', offset')
    requires Pending(q, offset) == [payload] + Pending(q', offset')
    ensures Accounted(q', offset', fed, delivered + [payload])
  {
    Assoc(delivered, [payload], Pending(q', offset'));
  }

  lemma EndRead(q: Queue, offset: nat, size: nat, fed: seq<Item>, retired: seq<Item>,
      delivered: seq<bytes>)
    requires Accounted(q, offset, fed, delivered) && Queued(q, fed, retired) && !HasData(q) && size > 0
    ensures var q' := ReadNext(q, offset, size);
      Accounted(q', offset, fed, delivered) && Queued(q', fed, retired) && !HasData(q') && |q'.items| == |q.items|
    ensures Stream(fed) == delivered && ReadOut(q, offset, size) == []
  {
    EmptyRead(q, offset, size);
    if !q.eos && q.items != [] {
      assert fed[|retired|] == q.items[0];
    }
  }

  datatype Status = Ok | EndOfStream | IoError | NoBuffer

  /** getFrameSize: a read from the source, and the header's size field. */
  method GetFrameSize(source: BufferQueueSource, offset: nat) returns (frameSize: nat)
    requires source.Valid()
    requires !source.eosReached && source.queue.count > 0 ==> source.base <= offset
    modifies source`base, source`eosReached, source.queue`front, source.queue`count, source.queue`index,
             source.queue.slots
    ensures source.Valid() && source.State() == ReadNext(old(source.State()), offset, UP_TO_FRAMESIZE)
    ensures source.queue.index == old(source.queue.index) + (|old(source.State()).items| - |source.State().items|)
    ensures var h := ReadOut(old(source.State()), offset, UP_TO_FRAMESIZE);
      frameSize == if |h| == UP_TO_FRAMESIZE then FrameSize(h) else 0
  {
    var header, _ := source.ReadAt(offset, UP_TO_FRAMESIZE);
    if |header| != UP_TO_FRAMESIZE {
      return 0;
    }
    if !IsSync(header[0], header[1]) {
      return 0;
    }
    frameSize := SizeField(header[3], header[4], header[5]);
    if HeadSize(header[1]) > frameSize {
      return 0;
    }
  }

  /** The time of the k-th frame. */
  function Stamp(k: nat, duration: nat): nat {
    if k == 0 then 0 else Stamp(k - 1, duration) + duration
  }

  lemma {:induction false} StampIs(k: nat, duration: nat)
    ensures Stamp(k, duration) == k * duration
  {
    if k > 0 {
      StampIs(k - 1, duration);
      assert (k - 1) * duration + duration == k * duration;
    }
  }

  lemma FrameDelivered(q: Queue, q': Queue, offset: nat, r: bytes, n: nat, payload: bytes, fed: seq<Item>,
      delivered: seq<bytes>)
    requires HasData(q) && Accounted(q, offset, fed, delivered) && r == Rest(q, offset)
    requires q' == AfterRead(q, offset) && n == NextSize(q, offset) && HEADER_LENGTH <= n <= |r|
    requires payload == r[HEADER_LENGTH..n]
    ensures Accounted(q', offset + n, fed, delivered + [payload])
    ensures Pending(q, offset) == [payload] + Pending(q', offset + n)
  {
    var first := AfterFrame(q, q', offset, r, n);
    AccountedRead(q, q', offset, offset + n, fed, delivered, payload);
  }

  /** All the facts about taking the next frame. */
  lemma FrameTaken(q: Queue, q': Queue, offset: nat, r: bytes, n: nat, payload: bytes, fed: seq<Item>,
      retired: seq<Item>, delivered: seq<bytes>)
    requires HasData(q) && Accounted(q, offset, fed, delivered) && Queued(q, fed, retired) && r == Rest(q, offset)
    requires q' == AfterRead(q, offset) && n == NextSize(q, offset) && HEADER_LENGTH <= n <= |r|
    requires payload == r[HEADER_LENGTH..n]
    ensures Accounted(q', offset + n, fed, delivered + [payload])
    ensures Queued(q', fed, RetiredAfter(q, offset, retired))
    ensures Pending(q, offset) == [payload] + Pending(q', offset + n)
  {
    FrameDelivered(q, q', offset, r, n, payload, fed, delivered);
    QueuedRead(q, q', offset, fed, retired);
  }

  class AacAdtsSource {
    const source: BufferQueueSource
    const frameDurationUs: nat
    var offset: nat
    var currentTimeUs: nat
    /** Every buffer ever enqueued, every buffer retired, and every payload delivered. */
    ghost var fed: seq<Item>
    ghost var retired: seq<Item>
    ghost var delivered: seq<bytes>

    ghost predicate Valid()
      reads this, source, source.queue, source.queue.slots
    {
      && source.Valid() && source.queue.index == |retired| && currentTimeUs == Stamp(|delivered|, frameDurationUs)
      && Accounted(source.State(), offset, fed, delivered) && Queued(source.State(), fed, retired)
    }

    /** start: on a source from which nothing has been retired. */
    constructor (source: BufferQueueSource, frameDurationUs: nat)
      requires source.Valid() && source.base == 0 && source.queue.index == 0 && !source.eosReached
      requires AllSound(source.queue.Items())
      ensures Valid() && this.source == source && this.frameDurationUs == frameDurationUs
      ensures fed == source.queue.Items() && delivered == []
    {
      this.source, this.frameDurationUs := source, frameDurationUs;
      offset, currentTimeUs := 0, 0;
      fed, retired, delivered := source.queue.Items(), [], [];
      new;
      StartsReady(source.State());
    }

    /** The client's step: a sound buffer at the rear, when there is room. */
    method EnqueueItem(x: Item) returns (ok: bool)
      requires Valid() && Sound(x)
      modifies `fed, source.queue`rear, source.queue`count, source.queue.slots
      ensures Valid() && ok == (old(source.queue.count) + 1 < source.queue.slots.Length)
      ensures fed == if ok then old(fed) + [x] else old(fed)
      ensures AllSound(old(fed))
      ensures Stream(fed) == Stream(old(fed)) + (if ok && NoEos(old(fed)) then Stream([x]) else [])
    {
      ok := !source.queue.Full();
      if ok {
        ghost var q := source.State();
        source.queue.Enqueue(x);
        QueuedEnqueue(q, source.State(), fed, retired, x);
        AccountedEnqueue(q, source.State(), offset, fed, delivered, x);
        fed := fed + [x];
      }
    }

    /** Enqueueing a block of data: it must pass the boundary validator. */
    method EnqueueData(data: array<byte>, size: nat) returns (ok: bool)
      requires Valid() && size <= data.Length
      modifies `fed, source.queue`rear, source.queue`count, source.queue.slots
      ensures Valid()
      ensures ok <==> size > 0 && IsAdts(data[..size]) && old(source.queue.count) + 1 < source.queue.slots.Length
      ensures fed == if ok then old(fed) + [Item(data[..size], false, 0)] else old(fed)
    {
      var v := Validate(data, size);
      if v != Success {
        return false;
      }
      AlignedIff(data[..size]);
      ok := EnqueueItem(Item(data[..size], false, 0));
    }

    /** The two reads for a frame: its size, and its payload, once there is a buffer to put it in. */
    method TakeFrame(acquired: bool) returns (status: Status, frameSize: nat, data: bytes, ghost r: bytes)
      requires source.Valid() && Ready(source.State(), offset)
      modifies source`base, source`eosReached, source.queue`front, source.queue`count, source.queue`index,
               source.queue.slots
      ensures source.Valid()
      ensures source.queue.index == old(source.queue.index) + (|old(source.State()).items| - |source.State().items|)
      ensures HasData(old(source.State())) ==>
                && status == (if acquired then Ok else NoBuffer) && r == Rest(old(source.State()), offset)
                && frameSize == NextSize(old(source.State()), offset) && 7 <= frameSize <= |r|
                && (acquired ==> data == r[HEADER_LENGTH..frameSize])
                && source.State() == if acquired then AfterRead(old(source.State()), offset) else old(source.State())
      ensures !HasData(old(source.State())) ==>
                status == EndOfStream && source.State() == ReadNext(old(source.State()), offset, UP_TO_FRAMESIZE)
    {
      ghost var q := source.State();
      r := [];
      if HasData(q) {
        r := Rest(q, offset);
        HeadRead(q, offset);
        BodyRead(q, offset);
      } else {
        EmptyRead(q, offset, UP_TO_FRAMESIZE);
      }
      frameSize := GetFrameSize(source, offset);
      if frameSize == 0 {
        return EndOfStream, 0, [], r;
      }
      if !acquired {
        return NoBuffer, frameSize, [], r;
      }
      var payload, _ := source.ReadAt(offset + HEADER_LENGTH, frameSize - HEADER_LENGTH);
      data := payload;
      status := if |data| != frameSize - HEADER_LENGTH then IoError else Ok;
    }

    /** The end of read: stamp the payload and move on. */
    method Deliver(frameSize: nat, ghost data: bytes, ghost gone: seq<Item>, ghost made: seq<bytes>, ghost q: Queue)
      returns (time: nat)
      requires source.Valid() && source.queue.index == |gone| && currentTimeUs == Stamp(|delivered|, frameDurationUs)
      requires q == source.State() && made == delivered + [data]
      requires Accounted(q, offset + frameSize, fed, made) && Queued(q, fed, gone)
      modifies `offset, `currentTimeUs, `delivered, `retired
      ensures Valid() && time == Stamp(|old(delivered)|, frameDurationUs) && offset == old(offset) + frameSize
      ensures delivered == made && retired == gone
    {
      assert |made| == |delivered| + 1;
      time := currentTimeUs;
      retired, delivered := gone, made;
      offset := offset + frameSize;
      currentTimeUs := currentTimeUs + frameDurationUs;
      assert source.State() == q;
    }

    /**
     read: the next frame's payload while there is one.  The offset check in readAt
     never fires, no read straddles two buffers, and a buffer is retired exactly
     when its last frame is taken.  Without a buffer to put it in nothing is taken.
     */
    method Read(acquired: bool) returns (status: Status, payload: bytes, time: nat)
      requires Valid()
      modifies `offset, `currentTimeUs, `delivered, `retired, source`base, source`eosReached,
               source.queue`front, source.queue`count, source.queue`index, source.queue.slots
      ensures Valid()
      ensures status == if !HasData(old(source.State())) then EndOfStream else if acquired then Ok else NoBuffer
      ensures status == NoBuffer ==>
                && delivered == old(delivered) && retired == old(retired) && offset == old(offset)
                && source.State() == old(source.State())
      ensures status == Ok ==>
                && delivered == old(delivered) + [payload] && time == Stamp(|old(delivered)|, frameDurationUs)
                && old(Pending(source.State(), offset)) == [payload] + Pending(source.State(), offset)
                && retired == old(RetiredAfter(source.State(), offset, retired))
      ensures status == Ok ==>
                var r, n := old(Rest(source.State(), offset)), old(NextSize(source.State(), offset));
                7 <= n <= |r| && payload == r[7..n]
      ensures status == EndOfStream ==>
                && delivered == old(delivered) && retired == old(retired)
                && delivered == Stream(fed) && !HasData(source.State())
    {
      ghost var q := source.State();
      var frameSize, data;
      ghost var r;
      status, frameSize, data, r := TakeFrame(acquired);
      if status == NoBuffer {
        return status, [], 0;
      }
      if status != Ok {
        EndRead(q, offset, UP_TO_FRAMESIZE, fed, retired, delivered);
        return status, [], 0;
      }
      FrameTaken(q, source.State(), offset, r, frameSize, data, fed, retired, delivered);
      payload := data;
      time := Deliver(frameSize, data, RetiredAfter(q, offset, retired), delivered + [data], source.State());
    }
  }

  // Whole runs

  lemma FrontSplit(q: Queue, fed: seq<Item>, retired: seq<Item>, upTo: seq<Item>)
    requires HasData(q) && Queued(q, fed, retired) && AllSound(fed) && upTo == retired + [q.items[0]]
    ensures AllSound(upTo) && AllSound(q.items[1..]) && Stream(fed) == Stream(upTo) + Stream(q.items[1..])
  {
    assert fed == upTo + q.items[1..];
    SoundPrefix(upTo, q.items[1..]);
    StreamAppend(upTo, q.items[1..]);
    NoEosAppend(retired, [q.items[0]]);
  }

  /** A buffer still at the front has payloads still to come. */
  lemma FrontNotDone(q: Queue, offset: nat, fed: seq<Item>, retired: seq<Item>,
      delivered: seq<bytes>)
    requires Accounted(q, offset, fed, delivered) && Queued(q, fed, retired) && HasData(q)
    ensures AllSound(retired + [q.items[0]]) && |delivered| < |Stream(retired + [q.items[0]])|
  {
    FrontSplit(q, fed, retired, retired + [q.items[0]]);
    assert DataPayloads(Rest(q, offset)) != [];
  }

  lemma OnePayload(q: Queue, offset: nat, r: bytes, payload: bytes)
    requires Ready(q, offset) && HasData(q) && r == Rest(q, offset) && NextSize(q, offset) == |r|
    requires payload == r[HEADER_LENGTH..]
    ensures Pending(q, offset) == [payload] + Stream(q.items[1..])
  {
    FrontFrame(r, |r|);
    assert r[|r|..] == [] && r[HEADER_LENGTH..|r|] == payload;
    assert DataPayloads(r) == [payload];
  }

  /** The read that retires a buffer is the one that delivers its last payload. */
  lemma RetiredWhenDone(q: Queue, offset: nat, fed: seq<Item>, retired: seq<Item>,
      delivered: seq<bytes>, payload: bytes, done: seq<Item>)
    requires Accounted(q, offset, fed, delivered) && Queued(q, fed, retired) && HasData(q)
    requires NextSize(q, offset) == |Rest(q, offset)| && payload == Rest(q, offset)[HEADER_LENGTH..]
    requires done == RetiredAfter(q, offset, retired)
    ensures AllSound(done) && Stream(done) == delivered + [payload]
  {
    FrontSplit(q, fed, retired, done);
    OnePayload(q, offset, Rest(q, offset), payload);
    Assoc(delivered, [payload], Stream(q.items[1..]));
    SameTail(Stream(done), delivered + [payload], Stream(q.items[1..]));
  }

  lemma SoundPrefix(a: seq<Item>, b: seq<Item>)
    requires AllSound(a + b)
    ensures AllSound(a) && AllSound(b)
  {
    assert forall k :: 0 <= k < |a| ==> (a + b)[k] == a[k];
    assert forall k :: 0 <= k < |b| ==> (a + b)[|a| + k] == b[k];
  }

  lemma SameTail<T>(a: seq<T>, b: seq<T>, c: seq<T>)
    requires a + c == b + c
    ensures a == b
  {
    assert |a| == |b|;
    assert a == (a + c)[..|a|] == (b + c)[..|b|] == b;
  }

  /** Reads to the end deliver exactly the payloads of all frames of all buffers, in order. */
  method Drain(s: AacAdtsSource, ghost left: nat) returns (out: seq<bytes>)
    requires s.Valid() && left == |Pending(s.source.State(), s.offset)|
    modifies s`offset, s`currentTimeUs, s`delivered, s`retired, s.source`base, s.source`eosReached,
             s.source.queue`front, s.source.queue`count, s.source.queue`index, s.source.queue.slots
    ensures s.Valid() && s.delivered == old(s.delivered) + out && s.delivered == Stream(s.fed)
    decreases left
  {
    var status, payload, time := s.Read(true);
    if status == EndOfStream {
      return [];
    }
    var rest := Drain(s, left - 1);
    Assoc(old(s.delivered), [payload], rest);
    out := [payload] + rest;
  }

  datatype Event = Feed(x: Item) | Take(acquired: bool)

  /**
   Whatever the order of enqueues and reads, what is delivered is a prefix of the
   stream, and all of it when the reader last saw the end.
   */
  method Play(s: AacAdtsSource, script: seq<Event>) returns (last: Status)
    requires s.Valid() && forall e :: e in script && e.Feed? ==> Sound(e.x)
    modifies s`fed, s`offset, s`currentTimeUs, s`delivered, s`retired, s.source`base, s.source`eosReached,
             s.source.queue`front, s.source.queue`rear, s.source.queue`count, s.source.queue`index,
             s.source.queue.slots
    ensures s.Valid() && old(s.delivered) <= s.delivered <= Stream(s.fed) && old(s.fed) <= s.fed
    ensures last == EndOfStream ==> s.delivered == Stream(s.fed)
  {
    last := Ok;
    for i := 0 to |script|
      invariant s.Valid() && old(s.delivered) <= s.delivered && old(s.fed) <= s.fed
      invariant last == EndOfStream ==> s.delivered == Stream(s.fed)
    {
      match script[i]
      case Feed(x) =>
        var ok := s.EnqueueItem(x);
        last := Ok;
      case Take(acquired) =>
        var payload, time;
        last, payload, time := s.Read(acquired);
    }
  }

  // Opening the stream

  /** get_sample_rate */
  function SampleRate(sfIndex: nat): nat {
    var rates := [96000, 88200, 64000, 48000, 44100, 32000, 24000, 22050, 16000, 12000, 11025, 8000];
    if sfIndex < |rates| then rates[sfIndex] else 0
  }

  /** 1024 samples in microseconds, rounded up. */
  function FrameDuration(sampleRate: nat): nat
    requires sampleRate > 0
  {
    (1024 * 1000000 + (sampleRate - 1)) / sampleRate
  }

  lemma SampleRates(sfIndex: nat)
    ensures sfIndex == 0 ==> SampleRate(sfIndex) == 96000
    ensures sfIndex == 1 ==> SampleRate(sfIndex) == 88200
    ensures sfIndex == 2 ==> SampleRate(sfIndex) == 64000
    ensures sfIndex == 3 ==> SampleRate(sfIndex) == 48000
    ensures sfIndex == 4 ==> SampleRate(sfIndex) == 44100
    ensures sfIndex == 5 ==> SampleRate(sfIndex) == 32000
    ensures sfIndex == 6 ==> SampleRate(sfIndex) == 24000
    ensures sfIndex == 7 ==> SampleRate(sfIndex) == 22050
    ensures sfIndex == 8 ==> SampleRate(sfIndex) == 16000
    ensures sfIndex == 9 ==> SampleRate(sfIndex) == 12000
    ensures sfIndex == 10 ==> SampleRate(sfIndex) == 11025
    ensures sfIndex == 11 ==> SampleRate(sfIndex) == 8000
    ensures sfIndex > 11 ==> SampleRate(sfIndex) == 0
  {
  }

  /** The least number of microseconds in which 1024 samples are through. */
  predicate Lasts(d: nat, sampleRate: nat) {
    d * sampleRate >= 1024000000 > (d - 1) * sampleRate
  }

  lemma FrameDurationIs(sampleRate: nat, d: nat)
    requires sampleRate > 0 && d == FrameDuration(sampleRate)
    ensures Lasts(d, sampleRate)
  {
    var x := 1024000000 + (sampleRate - 1);
    assert x == x / sampleRate * sampleRate + x % sampleRate;
    assert (d - 1) * sampleRate == d * sampleRate - sampleRate;
  }

  /**
   The extractor's constructor: the sampling frequency index and the other header
   fields of the first frame.  On a queue that starts with data nothing is consumed.
   */
  method Open(source: BufferQueueSource) returns (ok: bool, profile: nat, channel: nat, frameDurationUs: nat)
    requires source.Valid() && Ready(source.State(), 0) && source.State().base == 0
    modifies source`base, source`eosReached, source.queue`front, source.queue`count, source.queue`index,
             source.queue.slots
    ensures source.Valid()
    ensures ok ==> HasData(old(source.State()))
    ensures HasData(old(source.State())) ==>
              var data := old(source.State()).items[0].data;
              && |data| >= 7 && source.State() == old(source.State()) && source.queue.index == old(source.queue.index)
              && (ok <==> SampleRate(data[2] / 4 % 16) != 0)
              && (ok ==> profile == data[2] / 64 % 4 && channel == data[2] % 2 * 4 + data[3] / 64
                         && Lasts(frameDurationUs, SampleRate(data[2] / 4 % 16)))
  {
    ghost var q := source.State();
    if HasData(q) {
      FrontFrame(Rest(q, 0), NextSize(q, 0));
      assert Rest(q, 0) == q.items[0].data;
      RestRead(q, 0, Rest(q, 0), 2, 2);
      assert Sound(q.items[0]);
    }
    var header, _ := source.ReadAt(2, 2);
    if |header| != 2 {
      return false, 0, 0, 0;
    }
    var h0: int, h1: int := header[0], header[1];
    profile := h0 / 64 % 4;
    var sr := SampleRate(h0 / 4 % 16);
    if sr == 0 {
      return false, profile, 0, 0;
    }
    channel := h0 % 2 * 4 + h1 / 64;
    frameDurationUs := FrameDuration(sr);
    FrameDurationIs(sr, frameDurationUs);
    ok := true;
  }

  lemma StartsReady(q: Queue)
    requires AllSound(q.items) && q.base == 0 && !q.eos
    ensures Accounted(q, 0, q.items, []) && Queued(q, q.items, [])
  {
    if HasData(q) {
      assert Sound(q.items[0]) && Rest(q, 0) == q.items[0].data;
    }
  }
}
