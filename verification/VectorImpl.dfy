/**
 VectorImpl.cpp: copy-on-write vectors over shared storage.

 Several vectors may point at one SharedBuffer.  A Universe is the ghost record
 of all vectors and of all buffers ever allocated; its Valid() is the
 reference-count discipline that every operation keeps.
 */
module Vectors {
  import opened SharedBuffers
  import opened Sequences

  const K_MIN_VECTOR_CAPACITY: nat := 4

  datatype Status = Index(i: nat) | NoMemory | BadIndex | BadValue

  /** The capacity _grow reallocates to. */
  function GrowCapacity(newSize: nat): nat {
    Max(K_MIN_VECTOR_CAPACITY, (newSize * 3 + 1) / 2)
  }

  /** The capacity _shrink reallocates to. */
  function ShrinkCapacity(newSize: nat): nat {
    Max(K_MIN_VECTOR_CAPACITY, newSize * 2)
  }

  /** Growing makes room for half as many items again, rounded up, and never fewer than four. */
  lemma GrowRule(n: nat)
    ensures n <= 2 ==> GrowCapacity(n) == 4
    ensures n >= 3 ==> 3 * n <= 2 * GrowCapacity(n) <= 3 * n + 1
  {
  }

  /** Shrinking leaves room for twice the items, and never fewer than four. */
  lemma ShrinkRule(n: nat)
    ensures n <= 2 ==> ShrinkCapacity(n) == 4
    ensures n >= 2 ==> ShrinkCapacity(n) == 2 * n
  {
  }

  function Inserted<T>(s: seq<T>, at: nat, items: seq<T>): seq<T> {
    if at <= |s| then s[..at] + items + s[at..] else s
  }

  function Removed<T>(s: seq<T>, at: nat, n: nat): seq<T> {
    if at + n <= |s| then s[..at] + s[at + n..] else s
  }

  /** The items before the place stay, those from it on move up. */
  lemma InsertedAt<T>(s: seq<T>, at: nat, items: seq<T>, k: nat)
    requires at <= |s| && k < |s| + |items|
    ensures |Inserted(s, at, items)| == |s| + |items|
    ensures Inserted(s, at, items)[k]
         == if k < at then s[k] else if k < at + |items| then items[k - at] else s[k - |items|]
  {
  }

  /** The items before the place stay, those past the removed ones move down. */
  lemma RemovedAt<T>(s: seq<T>, at: nat, n: nat, k: nat)
    requires at + n <= |s| && k < |s| - n
    ensures |Removed(s, at, n)| == |s| - n && Removed(s, at, n)[k] == if k < at then s[k] else s[k + n]
  {
  }

  /** Capacity after a push onto `size` items in `capacity` cells. */
  function PushCapacity(size: nat, capacity: nat): nat {
    if capacity < size + 1 then GrowCapacity(size + 1) else capacity
  }

  /** Cells a push copies at most. */
  function PushCost(size: nat, capacity: nat): nat {
    if capacity < size + 1 then capacity else 0
  }

  /** Capacity after a removal that leaves `newSize` items. */
  function PopCapacity(newSize: nat, capacity: nat): nat {
    if newSize * 3 < capacity then ShrinkCapacity(newSize) else capacity
  }

  /** Cells such a removal copies at most. */
  function PopCost(newSize: nat, capacity: nat): nat {
    if newSize * 3 >= capacity then 0
    else Max(newSize, ResizeCost(ShrinkCapacity(newSize), capacity))
  }

  /** What insertAt reports: no pointer comes back when nothing was asked of an empty vector without storage. */
  function InsertStatus(count: nat, hasStorage: bool, index: nat, amount: nat): Status {
    if index > count then BadIndex
    else if !hasStorage && amount == 0 then NoMemory
    else Index(index)
  }

  /** Cells editResize copies: none when the size stays. */
  function ResizeCost(newCapacity: nat, capacity: nat): nat {
    if newCapacity == capacity then 0 else Min(newCapacity, capacity)
  }

  lemma ResizeCostRule(newCapacity: nat, capacity: nat)
    ensures newCapacity == capacity ==> ResizeCost(newCapacity, capacity) == 0
    ensures newCapacity < capacity ==> ResizeCost(newCapacity, capacity) == newCapacity
    ensures newCapacity > capacity ==> ResizeCost(newCapacity, capacity) == capacity
  {
  }

  /** What a whole push or pop costs at most: the old cells when it grows, twice what is left when it shrinks. */
  lemma CostRules(size: nat, capacity: nat)
    requires size <= capacity
    ensures PushCost(size, capacity) == if size == capacity then size else 0
    ensures 3 * size >= capacity ==> PopCost(size, capacity) == 0
    ensures 3 * size < capacity && size >= 2 ==> PopCost(size, capacity) == 2 * size
    ensures 3 * size < capacity && size < 2 ==> PopCost(size, capacity) <= 4
  {
  }

  /** The cells before a gap stay, the cells after it are the old tail. */
  lemma GapSlices<T>(was: seq<T>, now: seq<T>, at: nat, gap: nat, count: nat)
    requires |was| == |now| && at <= count && count + gap <= |was|
    requires now[..at + gap] == was[..at + gap]
    requires now[at + gap..count + gap] == was[at..count]
    ensures now[..count + gap][..at] == was[..count][..at]
    ensures now[..count + gap][at + gap..] == was[..count][at..]
  {
    assert now[..count + gap][..at] == now[..at + gap][..at] == was[..at + gap][..at] == was[..count][..at];
  }

  /** Two pieces of `src` at their new places, read back. */
  lemma PieceSlices<T>(src: seq<T>, cells: seq<T>, keep: nat, from: nat, to: nat)
    requires keep <= from <= |src| && keep <= to && to + (|src| - from) <= |cells|
    requires cells[..keep] == src[..keep] && cells[to..to + (|src| - from)] == src[from..]
    ensures cells[..to + (|src| - from)][..keep] == src[..keep]
    ensures cells[..to + (|src| - from)][to..] == src[from..]
  {
  }

  /** The cells behind a gap moved down onto it. */
  lemma ClosedSlices<T>(was: seq<T>, now: seq<T>, at: nat, gap: nat, count: nat, left: seq<T>)
    requires |was| == |now| && at + gap <= count <= |was|
    requires now[..at] == was[..at] && now[at..count - gap] == was[at + gap..count]
    requires left == Removed(was[..count], at, gap)
    ensures now[..count - gap] == left
  {
    assert now[..count - gap] == now[..at] + now[at..count - gap];
    assert was[..count][at + gap..] == was[at + gap..count];
    assert was[..count][..at] == was[..at];
  }

  /** A gap in grown contents, filled. */
  lemma GapFilled<T>(was: seq<T>, grown: seq<T>, at: nat, items: seq<T>, filled: seq<T>)
    requires at <= |was| && |grown| == |was| + |items| && filled == Inserted(was, at, items)
    requires grown[..at] == was[..at] && grown[at + |items|..] == was[at..]
    ensures grown[..at] + items + grown[at + |items|..] == filled
  {
  }

  class Universe<T(0)> {
    ghost var vectors: set<Vector<T>>
    ghost var buffers: set<SharedBuffer<T>>

    ghost function Sharers(b: SharedBuffer<T>): set<Vector<T>>
      reads this`vectors, vectors`storage
    {
      set v | v in vectors && v.storage == b
    }

    /** The counts are exact and only live storage is pointed at. */
    ghost predicate Valid()
      reads this, vectors`storage, vectors`count, buffers
    {
      && (forall v :: v in vectors && v.storage == null ==> v.count == 0)
      && (forall v :: v in vectors && v.storage != null ==>
            v.storage in buffers && v.storage.live && v.count <= |v.storage.data|)
      && (forall b :: b in buffers ==> b.refs == |Sharers(b)| && (b.live <==> b.refs > 0))
    }

    /** Writing cells, or allocating, disturbs no count. */
    twostate lemma StillValid()
      requires old(Valid()) && vectors == old(vectors) && buffers == old(buffers)
      requires forall v :: v in vectors ==> v.storage == old(v.storage) && v.count == old(v.count)
      requires forall b :: b in buffers ==>
                 b.refs == old(b.refs) && b.live == old(b.live) && |b.data| == old(|b.data|)
      ensures Valid()
    {
      assert forall b :: b in buffers ==> Sharers(b) == old(Sharers(b));
    }

    /** One vector gave up its storage (or had none) and now owns the new buffer `sb` alone. */
    twostate lemma Repointed(v: Vector<T>, new sb: SharedBuffer<T>)
      requires old(Valid()) && v in old(vectors) && vectors == old(vectors)
      requires sb !in old(buffers) && buffers == old(buffers) + {sb}
      requires v.storage == sb && sb.live && sb.refs == 1 && v.count <= |sb.data|
      requires forall u :: u in vectors && u != v ==> u.storage == old(u.storage) && u.count == old(u.count)
      requires forall b :: b in old(buffers) ==> b.data == old(b.data)
      requires forall b :: b in old(buffers) && b != old(v.storage) ==> b.refs == old(b.refs) && b.live == old(b.live)
      requires var b := old(v.storage); b != null ==> b.refs == old(b.refs) - 1 && b.live == (b.refs > 0)
      ensures Valid()
      ensures forall u :: u in vectors && u != v ==> u.Contents() == old(u.Contents())
    {
      assert Sharers(sb) == {v};
      forall b | b in old(buffers)
        ensures b.refs == |Sharers(b)| && (b.live <==> b.refs > 0)
      {
        assert Sharers(b) == old(Sharers(b)) - {v};
        assert b == old(v.storage) ==> v in old(Sharers(b));
      }
      forall u | u in vectors && u != v && u.storage != null
        ensures u.storage.live
      {
        assert u in Sharers(u.storage);
      }
    }

    /** Counts adjusted along with one vector's storage stay exact. */
    twostate lemma CountsSwitched(v: Vector<T>)
      requires old(Valid()) && v in vectors && vectors == old(vectors) && buffers == old(buffers)
      requires forall u :: u in vectors && u != v ==> u.storage == old(u.storage)
      requires forall b :: b in buffers ==>
        b.refs == old(b.refs) - (if b == old(v.storage) then 1 else 0) + (if b == v.storage then 1 else 0)
      ensures forall b :: b in buffers ==> b.refs == |Sharers(b)|
    {
      forall b | b in buffers
        ensures b.refs == |Sharers(b)|
      {
        var rest := old(Sharers(b)) - {v};
        assert Sharers(b) == if b == v.storage then rest + {v} else rest;
        assert old(Sharers(b)) == if b == old(v.storage) then rest + {v} else rest;
      }
    }

    /** One vector let go of its storage and acquired another buffer of this universe, or none. */
    twostate lemma Switched(v: Vector<T>)
      requires old(Valid()) && v in vectors && vectors == old(vectors) && buffers == old(buffers)
      requires v.storage != null ==> v.storage in buffers && v.count <= |v.storage.data|
      requires v.storage == null ==> v.count == 0
      requires forall u :: u in vectors && u != v ==> u.storage == old(u.storage) && u.count == old(u.count)
      requires forall b :: b in buffers ==>
        && b.data == old(b.data) && b.live == (b.refs > 0)
        && b.refs == old(b.refs) - (if b == old(v.storage) then 1 else 0) + (if b == v.storage then 1 else 0)
      ensures Valid()
      ensures forall u :: u in vectors && u != v ==> u.Contents() == old(u.Contents())
    {
      CountsSwitched(v);
      forall u | u in vectors && u.storage != null
        ensures u.storage.live
      {
        assert u in Sharers(u.storage);
      }
    }

    /** A new vector joined the sharers of a buffer, or came without storage. */
    twostate lemma Joined(new v: Vector<T>)
      requires old(Valid()) && v !in old(vectors) && vectors == old(vectors) + {v} && buffers == old(buffers)
      requires v.storage != null ==> v.storage in buffers && v.storage.live && v.count <= |v.storage.data|
      requires v.storage == null ==> v.count == 0
      requires forall u :: u in old(vectors) ==> u.storage == old(u.storage) && u.count == old(u.count)
      requires forall b :: b in buffers ==> b.data == old(b.data) && b.live == old(b.live)
      requires forall b :: b in buffers ==> b.refs == old(b.refs) + (if b == v.storage then 1 else 0)
      ensures Valid()
      ensures forall u :: u in old(vectors) ==> u.Contents() == old(u.Contents())
    {
      forall b | b in buffers
        ensures b.refs == |Sharers(b)|
      {
        assert Sharers(b) == if b == v.storage then old(Sharers(b)) + {v} else old(Sharers(b));
      }
    }

    /** A buffer with count one has no second vector on it. */
    lemma SoleSharer(b: SharedBuffer<T>, v: Vector<T>)
      requires Valid() && b in buffers && b.refs == 1 && v in vectors && v.storage == b
      ensures forall u :: u in vectors && u != v ==> u.storage != b
    {
      assert |Sharers(b) - {v}| == 0;
      forall u | u in vectors && u.storage == b
        ensures u == v
      {
        assert u in Sharers(b) - {v} || u == v;
      }
    }
  }

  lemma SamePrefix<T>(a: seq<T>, b: seq<T>, n: nat, k: nat)
    requires k <= n <= |a| && n <= |b| && a[..n] == b[..n]
    ensures a[..k] == b[..k]
  {
    assert a[..k] == a[..n][..k];
  }

  class Vector<T(0)> {
    var storage: SharedBuffer?<T>
    var count: nat
    /** HAS_TRIVIAL_COPY and HAS_TRIVIAL_DTOR are both set. */
    const trivial: bool
    /** Cells copied by reallocations of this vector so far. */
    ghost var copied: nat

    constructor (trivial: bool, ghost w: Universe<T>)
      requires w.Valid()
      modifies w
      ensures w.Valid() && w.vectors == old(w.vectors) + {this} && w.buffers == old(w.buffers)
      ensures storage == null && count == 0 && this.trivial == trivial && copied == 0
    {
      storage, count, copied := null, 0, 0;
      this.trivial := trivial;
      new;
      w.vectors := w.vectors + {this};
      w.Joined(this);
    }

    function Contents(): seq<T>
      requires storage != null ==> count <= |storage.data|
      reads `storage, `count, storage
    {
      if storage == null then [] else storage.data[..count]
    }

    function Capacity(): nat
      reads `storage, storage
    {
      if storage == null then 0 else |storage.data|
    }

    /** No other vector on the same storage is longer than this one. */
    ghost predicate TailSafe(w: Universe<T>)
      reads this`storage, this`count, w`vectors, w.vectors`storage, w.vectors`count
    {
      forall u :: u in w.vectors && u != this && u.storage == storage && storage != null ==> u.count <= count
    }

    /** An insertion at the end that fits: _grow's branch that does not detach. */
    predicate InPlaceTail(index: nat, amount: nat)
      reads `storage, `count, storage
    {
      storage != null && index == count && count + amount <= Capacity()
    }

    /** release_storage: the pointer is left dangling for the caller to replace. */
    method ReleaseStorage()
      requires storage != null ==> storage.live && storage.refs >= 1
      modifies storage
      ensures storage != null ==>
        storage.refs == old(storage.refs) - 1 && storage.data == old(storage.data)
        && storage.live == (storage.refs > 0)
    {
      if storage != null {
        var prev := storage.Release(true);
        if prev == 1 {
          var _ := storage.Dealloc();
        }
      }
    }

    /** Release the current storage and point at a freshly allocated block instead. */
    method Attach(sb: SharedBuffer<T>, n: nat, ghost w: Universe<T>)
      requires w.Valid() && this in w.vectors
      requires sb !in w.buffers && sb.live && sb.refs == 1 && n <= |sb.data|
      modifies this, w, storage
      ensures w.Valid() && w.vectors == old(w.vectors) && w.buffers == old(w.buffers) + {sb}
      ensures storage == sb && count == n && sb.refs == 1 && sb.data == old(sb.data)
      ensures copied == old(copied)
      ensures forall u :: u in w.vectors && u != this ==> u.Contents() == old(u.Contents())
    {
      assert storage != null ==> this in w.Sharers(storage);
      ReleaseStorage();
      storage, count := sb, n;
      w.buffers := w.buffers + {sb};
      w.Repointed(this, sb);
    }

    /** editArrayImpl: detach from the sharers, keeping contents and capacity. */
    method EditArrayImpl(ghost w: Universe<T>)
      requires w.Valid() && this in w.vectors
      modifies this, w, storage
      ensures w.Valid() && w.vectors == old(w.vectors)
      ensures old(w.buffers) <= w.buffers && fresh(w.buffers - old(w.buffers))
      ensures (storage == null) == (old(storage) == null) && count == old(count)
      ensures storage != null ==> storage.refs == 1 && Capacity() == old(Capacity())
      ensures storage != null ==> storage == old(storage) || fresh(storage)
      ensures Contents() == old(Contents())
      ensures copied == old(copied) + (if old(storage) == null || old(storage.refs) == 1 then 0 else count)
      ensures forall u :: u in w.vectors && u != this ==> u.Contents() == old(u.Contents())
    {
      if storage != null {
        var mine := storage.AttemptEdit();
        if mine == null {
          var sb := new SharedBuffer<T>.Alloc(Capacity());
          sb.data := storage.data[..count] + sb.data[count..];
          copied := copied + count;
          w.StillValid();
          Attach(sb, count, w);
        }
      }
    }

    /** editResize on this vector's storage, and point at the result. */
    method ResizeStorage(newCapacity: nat, n: nat, ghost w: Universe<T>)
      requires w.Valid() && this in w.vectors && storage != null && n <= newCapacity
      modifies this, w, storage
      ensures w.Valid() && w.vectors == old(w.vectors)
      ensures old(w.buffers) <= w.buffers && fresh(w.buffers - old(w.buffers))
      ensures storage != null && storage.refs == 1 && Capacity() == newCapacity && count == n
      ensures storage == old(storage) || fresh(storage)
      ensures var m := Min(newCapacity, old(Capacity())); storage.data[..m] == old(storage.data)[..m]
      ensures copied == old(copied) + ResizeCost(newCapacity, old(Capacity()))
      ensures forall u :: u in w.vectors && u != this ==> u.Contents() == old(u.Contents())
    {
      if storage.OnlyOwner() {
        ResizeOwned(newCapacity, n, w);
      } else {
        ResizeShared(newCapacity, n, w);
      }
    }

    method ResizeOwned(newCapacity: nat, n: nat, ghost w: Universe<T>)
      requires w.Valid() && this in w.vectors && storage != null && n <= newCapacity && storage.refs == 1
      modifies this, storage
      ensures w.Valid()
      ensures storage == old(storage) && storage.refs == 1 && Capacity() == newCapacity && count == n
      ensures var m := Min(newCapacity, old(Capacity())); storage.data[..m] == old(storage.data)[..m]
      ensures copied == old(copied) + ResizeCost(newCapacity, old(Capacity()))
      ensures forall u :: u in w.vectors && u != this ==> u.Contents() == old(u.Contents())
    {
      w.SoleSharer(storage, this);
      copied := copied + ResizeCost(newCapacity, Capacity());
      var sb := storage.EditResize(newCapacity);
      storage, count := sb, n;
      assert forall b :: b in w.buffers ==> w.Sharers(b) == old(w.Sharers(b));
    }

    method ResizeShared(newCapacity: nat, n: nat, ghost w: Universe<T>)
      requires w.Valid() && this in w.vectors && storage != null && n <= newCapacity && storage.refs != 1
      modifies this, w, storage
      ensures w.Valid() && w.vectors == old(w.vectors)
      ensures old(w.buffers) <= w.buffers && fresh(w.buffers - old(w.buffers))
      ensures fresh(storage) && storage.refs == 1 && Capacity() == newCapacity && count == n
      ensures var m := Min(newCapacity, old(Capacity())); storage.data[..m] == old(storage.data)[..m]
      ensures copied == old(copied) + ResizeCost(newCapacity, old(Capacity()))
      ensures forall u :: u in w.vectors && u != this ==> u.Contents() == old(u.Contents())
    {
      assert this in w.Sharers(storage);
      copied := copied + ResizeCost(newCapacity, Capacity());
      var sb := storage.EditResize(newCapacity);
      storage, count := sb, n;
      w.buffers := w.buffers + {storage};
      w.Repointed(this, sb);
    }

    /** Store `items` into the cells from `at` on. */
    method Store(at: nat, items: seq<T>, ghost w: Universe<T>)
      requires w.Valid() && this in w.vectors && storage != null && at + |items| <= count
      modifies storage`data
      ensures w.Valid() && Capacity() == old(Capacity())
      ensures Contents() == old(Contents()[..at]) + items + old(Contents()[at + |items|..])
      ensures forall u :: u in w.vectors && u.storage != storage ==> u.Contents() == old(u.Contents())
      ensures forall u :: u in w.vectors && u.storage == storage ==>
                u.Contents() == Overwritten(old(u.Contents()), at, items)
    {
      storage.data := storage.data[..at] + items + storage.data[at + |items|..];
      w.StillValid();
    }

    /** memmove of `n` cells inside storage this vector owns alone. */
    method MoveItems(to: nat, from: nat, n: nat, ghost w: Universe<T>)
      requires w.Valid() && this in w.vectors && storage != null && storage.refs == 1
      requires to + n <= Capacity() && from + n <= Capacity()
      modifies storage`data
      ensures w.Valid() && Capacity() == old(Capacity())
      ensures storage.data[..to] == old(storage.data)[..to]
      ensures storage.data[to..to + n] == old(storage.data)[from..from + n]
      ensures storage.data[to + n..] == old(storage.data)[to + n..]
      ensures forall u :: u in w.vectors && u != this ==> u.Contents() == old(u.Contents())
    {
      w.SoleSharer(storage, this);
      storage.data := storage.data[..to] + storage.data[from..from + n] + storage.data[to + n..];
      w.StillValid();
    }

    /**
     A fresh block holding two pieces of `src`: its first `keep` items in place,
     and the items from `from` on at `to`.
     */
    static method CopyPieces(src: seq<T>, keep: nat, from: nat, to: nat, capacity: nat)
      returns (sb: SharedBuffer<T>)
      requires keep <= from <= |src| && keep <= to && to + (|src| - from) <= capacity
      ensures fresh(sb) && sb.live && sb.refs == 1 && |sb.data| == capacity
      ensures sb.data[..keep] == src[..keep]
      ensures sb.data[to..to + (|src| - from)] == src[from..]
    {
      sb := new SharedBuffer<T>.Alloc(capacity);
      if keep > 0 {
        sb.data := src[..keep] + sb.data[keep..];
      }
      if |src| > from {
        sb.data := sb.data[..to] + src[from..] + sb.data[to + (|src| - from)..];
      }
    }

    /** Reallocate by copying in two pieces. */
    method CopyAround(keep: nat, from: nat, to: nat, newCapacity: nat, ghost w: Universe<T>)
      requires w.Valid() && this in w.vectors && keep <= from <= count && keep <= to
      requires to + (count - from) <= newCapacity
      modifies this, w, storage
      ensures w.Valid() && w.vectors == old(w.vectors)
      ensures old(w.buffers) <= w.buffers && fresh(w.buffers - old(w.buffers))
      ensures storage != null && fresh(storage) && storage.refs == 1 && Capacity() == newCapacity
      ensures count == to + (old(count) - from)
      ensures Contents()[..keep] == old(Contents())[..keep]
      ensures Contents()[to..] == old(Contents())[from..]
      ensures copied == old(copied) + keep + (old(count) - from)
      ensures forall u :: u in w.vectors && u != this ==> u.Contents() == old(u.Contents())
    {
      var src := Contents();
      var sb := CopyPieces(src, keep, from, to, newCapacity);
      ghost var now := sb.data[..to + (|src| - from)];
      PieceSlices(src, sb.data, keep, from, to);
      copied := copied + keep + (count - from);
      Attach(sb, to + (count - from), w);
      assert Contents() == now;
    }

    /** Move the items from `where_` on up by `amount` cells. */
    method SlideTail(where_: nat, amount: nat, ghost w: Universe<T>)
      requires w.Valid() && this in w.vectors && where_ <= count && count + amount <= Capacity()
      requires storage != null && storage.refs == 1
      modifies `count, storage`data
      ensures w.Valid() && count == old(count) + amount && Capacity() == old(Capacity())
      ensures Contents()[..where_] == old(Contents())[..where_]
      ensures Contents()[where_ + amount..] == old(Contents())[where_..]
      ensures forall u :: u in w.vectors && u != this ==> u.Contents() == old(u.Contents())
    {
      ghost var cells := storage.data;
      MoveItems(where_ + amount, where_, count - where_, w);
      GapSlices(cells, storage.data, where_, amount, count);
      count := count + amount;
    }

    /** Slide the tail inside the present storage, detaching first if there is one. */
    method OpenGap(where_: nat, amount: nat, ghost w: Universe<T>)
      requires w.Valid() && this in w.vectors && where_ <= count && count + amount <= Capacity()
      modifies this, w, storage
      ensures w.Valid() && w.vectors == old(w.vectors)
      ensures old(w.buffers) <= w.buffers && fresh(w.buffers - old(w.buffers))
      ensures count == old(count) + amount && Capacity() == old(Capacity())
      ensures storage == old(storage) || fresh(storage)
      ensures Contents()[..where_] == old(Contents())[..where_]
      ensures storage != null ==> Contents()[where_ + amount..] == old(Contents())[where_..]
      ensures where_ == old(count) ==>
                storage == old(storage) && (storage != null ==> storage.refs == old(storage.refs))
      ensures where_ < old(count) ==> storage != null && storage.refs == 1
      ensures copied <= old(copied) + (if where_ < old(count) then old(count) else 0)
      ensures forall u :: u in w.vectors && u != this ==> u.Contents() == old(u.Contents())
    {
      if count - where_ > 0 {
        EditArrayImpl(w);
        SlideTail(where_, amount, w);
      } else {
        count := count + amount;
      }
    }

    /**
     _grow: open a gap of `amount` cells at `where_`.  False is the null pointer,
     which only a vector without storage and without request gets back.
     */
    method Grow(where_: nat, amount: nat, ghost w: Universe<T>) returns (ok: bool)
      requires w.Valid() && this in w.vectors && where_ <= count
      modifies this, w, storage
      ensures w.Valid() && w.vectors == old(w.vectors)
      ensures old(w.buffers) <= w.buffers && fresh(w.buffers - old(w.buffers))
      ensures ok <==> storage != null
      ensures !ok <==> old(storage) == null && amount == 0
      ensures count == old(count) + amount
      ensures storage == old(storage) || fresh(storage)
      ensures ok ==> Contents()[..where_] == old(Contents())[..where_]
      ensures ok ==> Contents()[where_ + amount..] == old(Contents())[where_..]
      ensures old(InPlaceTail(where_, amount)) ==> storage == old(storage) && storage.refs == old(storage.refs)
      ensures ok && !old(InPlaceTail(where_, amount)) ==> storage.refs == 1
      ensures Capacity() == if old(Capacity()) < count then GrowCapacity(count) else old(Capacity())
      ensures old(Capacity()) < count <= 2 ==> Capacity() == 4
      ensures old(Capacity()) < count && count >= 3 ==> 3 * count <= 2 * Capacity() <= 3 * count + 1
      ensures copied <= old(copied) +
                (if old(Capacity()) < count then old(Capacity()) else if where_ < old(count) then old(count) else 0)
      ensures forall u :: u in w.vectors && u != this ==> u.Contents() == old(u.Contents())
    {
      var newSize := count + amount;
      GrowRule(newSize);
      if Capacity() < newSize {
        var newCapacity := GrowCapacity(newSize);
        if storage != null && count == where_ && trivial {
          ghost var was := storage.data;
          ResizeStorage(newCapacity, newSize, w);
          SamePrefix(storage.data, was, |was|, where_);
          assert Contents()[..where_] == was[..where_];
        } else {
          CopyAround(where_, where_, where_ + amount, newCapacity, w);
        }
      } else {
        OpenGap(where_, amount, w);
      }
      return storage != null;
    }

    /** Copy `items` into the gap; sharers, if any are left, see it as an overwrite. */
    method FillGap(index: nat, items: seq<T>, ghost was: seq<T>, ghost filled: seq<T>, ghost w: Universe<T>)
      requires w.Valid() && this in w.vectors && storage != null && index <= |was| && count == |was| + |items|
      requires filled == Inserted(was, index, items)
      requires Contents()[..index] == was[..index] && Contents()[index + |items|..] == was[index..]
      modifies storage`data
      ensures w.Valid() && Capacity() == old(Capacity()) && Contents() == filled
      ensures forall u :: u in w.vectors && u != this ==>
                u.Contents() == if u.storage == storage && storage.refs != 1
                                then Overwritten(old(u.Contents()), index, items) else old(u.Contents())
      ensures storage.refs == 1 ==> forall u :: u in w.vectors && u != this ==> u.storage != storage
    {
      GapFilled(was, Contents(), index, items, filled);
      if storage.refs == 1 {
        w.SoleSharer(storage, this);
      }
      Store(index, items, w);
    }

    /** _grow, then copy `items` into the gap. */
    method GrowAndFill(index: nat, items: seq<T>, ghost w: Universe<T>) returns (r: Status)
      requires w.Valid() && this in w.vectors && index <= count
      modifies this, w, storage
      ensures w.Valid() && w.vectors == old(w.vectors)
      ensures old(w.buffers) <= w.buffers && fresh(w.buffers - old(w.buffers))
      ensures r == InsertStatus(old(count), old(storage) != null, index, |items|)
      ensures Contents() == Inserted(old(Contents()), index, items)
      ensures forall u :: u in w.vectors && u != this ==>
                u.Contents() == if old(InPlaceTail(index, |items|) && u.storage == storage)
                                then Overwritten(old(u.Contents()), old(count), items) else old(u.Contents())
      ensures old(TailSafe(w)) ==> TailSafe(w)
      ensures old(InPlaceTail(index, |items|)) ==> storage == old(storage)
      ensures storage == old(storage) || fresh(storage)
      ensures r.Index? && !old(InPlaceTail(index, |items|)) ==> storage.refs == 1
      ensures storage != old(storage) || old(storage != null && storage.refs == 1) ==> storage.refs == 1
      ensures index == old(count) ==>
        && Capacity() == (if old(Capacity()) < count then GrowCapacity(count) else old(Capacity()))
        && copied <= old(copied) + (if old(Capacity()) < count then old(Capacity()) else 0)
    {
      ghost var was, filled := Contents(), Inserted(Contents(), index, items);
      var ok := Grow(index, |items|, w);
      if !ok {
        return NoMemory;
      }
      FillGap(index, items, was, filled, w);
      return Index(index);
    }

    /**
     insertAt.  The receiver gets exactly the sequence insertion.  The other
     vectors keep their contents, except that the in-place tail append writes
     through into any sharer long enough to see the cells it fills.
     */
    method InsertAt(item: T, index: nat, numItems: nat, ghost w: Universe<T>) returns (r: Status)
      requires w.Valid() && this in w.vectors
      modifies this, w, storage
      ensures w.Valid() && w.vectors == old(w.vectors)
      ensures old(w.buffers) <= w.buffers && fresh(w.buffers - old(w.buffers))
      ensures r == InsertStatus(old(count), old(storage) != null, index, numItems)
      ensures r.BadIndex? <==> index > old(count)
      ensures r.NoMemory? <==> index <= old(count) && old(storage) == null && numItems == 0
      ensures r.Index? ==> r.i == index
      ensures var items := seq(numItems, _ => item);
        && Contents() == (if r.Index? then Inserted(old(Contents()), index, items) else old(Contents()))
        && forall u :: u in w.vectors && u != this ==>
             u.Contents() == if old(InPlaceTail(index, numItems) && u.storage == storage)
                             then Overwritten(old(u.Contents()), old(count), items) else old(u.Contents())
      ensures old(TailSafe(w)) ==>
        TailSafe(w) && forall u :: u in w.vectors && u != this ==> u.Contents() == old(u.Contents())
      ensures old(InPlaceTail(index, numItems)) ==> storage == old(storage)
      ensures storage == old(storage) || fresh(storage)
      ensures r.Index? && !old(InPlaceTail(index, numItems)) ==> storage.refs == 1
      ensures storage != old(storage) || old(storage != null && storage.refs == 1) ==> storage.refs == 1
      ensures index == old(count) ==>
        && Capacity() == (if old(Capacity()) < count then GrowCapacity(count) else old(Capacity()))
        && copied <= old(copied) + (if old(Capacity()) < count then old(Capacity()) else 0)
    {
      if index > count {
        return BadIndex;
      }
      r := GrowAndFill(index, seq(numItems, _ => item), w);
    }

    /** insertVectorAt another vector's items; memcpy forbids reading the cells being written. */
    method InsertVectorAt(vector: Vector<T>, index: nat, ghost w: Universe<T>) returns (r: Status)
      requires w.Valid() && this in w.vectors && vector in w.vectors && vector != this
      requires InPlaceTail(index, vector.count) && vector.storage == storage ==> vector.count <= count
      modifies this, w, storage
      ensures w.Valid() && w.vectors == old(w.vectors)
      ensures old(w.buffers) <= w.buffers && fresh(w.buffers - old(w.buffers))
      ensures storage == old(storage) || fresh(storage)
      ensures r.Index? && !old(InPlaceTail(index, vector.count)) ==> storage != null && storage.refs == 1
      ensures r == InsertStatus(old(count), old(storage) != null, index, old(vector.count))
      ensures r.BadIndex? <==> index > old(count)
      ensures r.NoMemory? <==> index <= old(count) && old(storage) == null && old(vector.count) == 0
      ensures Contents() == if r.Index? then Inserted(old(Contents()), index, old(vector.Contents()))
                            else old(Contents())
      ensures forall u :: u in w.vectors && u != this ==>
                u.Contents() == if old(InPlaceTail(index, vector.count) && u.storage == storage)
                                then Overwritten(old(u.Contents()), old(count), old(vector.Contents()))
                                else old(u.Contents())
      ensures old(TailSafe(w)) ==>
        TailSafe(w) && forall u :: u in w.vectors && u != this ==> u.Contents() == old(u.Contents())
    {
      if index > count {
        return BadIndex;
      }
      r := GrowAndFill(index, vector.Contents(), w);
    }

    /** push, which is add: insertAt at the end. */
    method Push(item: T, ghost w: Universe<T>)
      requires w.Valid() && this in w.vectors
      modifies this, w, storage
      ensures w.Valid() && w.vectors == old(w.vectors)
      ensures old(w.buffers) <= w.buffers && fresh(w.buffers - old(w.buffers))
      ensures Contents() == old(Contents()) + [item]
      ensures forall u :: u in w.vectors && u != this ==>
                u.Contents() == if old(InPlaceTail(count, 1) && u.storage == storage)
                                then Overwritten(old(u.Contents()), old(count), [item]) else old(u.Contents())
      ensures old(TailSafe(w)) ==>
        TailSafe(w) && forall u :: u in w.vectors && u != this ==> u.Contents() == old(u.Contents())
      ensures old(InPlaceTail(count, 1)) ==> storage == old(storage)
      ensures storage == old(storage) || fresh(storage)
      ensures old(storage == null || storage.refs == 1) ==> storage.refs == 1
      ensures count == old(count) + 1 && Capacity() == PushCapacity(old(count), old(Capacity()))
      ensures old(Capacity()) < count <= 2 ==> Capacity() == 4
      ensures old(Capacity()) < count && count >= 3 ==> 3 * count <= 2 * Capacity() <= 3 * count + 1
      ensures copied <= old(copied) + PushCost(old(count), old(Capacity()))
    {
      assert seq(1, _ => item) == [item];
      GrowRule(count + 1);
      var _ := InsertAt(item, count, 1, w);
    }

    /** _shrink: drop `amount` items at `where_`.  The storage is never shared afterwards. */
    method Shrink(where_: nat, amount: nat, ghost w: Universe<T>)
      requires w.Valid() && this in w.vectors && where_ + amount <= count
      modifies this, w, storage
      ensures w.Valid() && w.vectors == old(w.vectors)
      ensures old(w.buffers) <= w.buffers && fresh(w.buffers - old(w.buffers))
      ensures count == old(count) - amount
      ensures Contents() == Removed(old(Contents()), where_, amount)
      ensures (storage == null) == (old(storage) == null) && (storage != null ==> storage.refs == 1)
      ensures storage == old(storage) || fresh(storage)
      ensures old(storage) != null ==> Capacity() == PopCapacity(count, old(Capacity()))
      ensures old(Capacity()) > 3 * count && count <= 2 ==> Capacity() == 4
      ensures old(Capacity()) > 3 * count && count >= 2 ==> Capacity() == 2 * count
      ensures old(Capacity()) <= 3 * count ==> Capacity() == old(Capacity())
      ensures old(storage != null && storage.refs == 1) ==> copied <= old(copied) + PopCost(count, old(Capacity()))
      ensures forall u :: u in w.vectors && u != this ==> u.Contents() == old(u.Contents())
    {
      if storage == null {
        return;
      }
      var newSize := count - amount;
      if newSize * 3 < Capacity() {
        Reallocate(where_, amount, newSize, w);
      } else {
        EditArrayImpl(w);
        CloseGap(where_, amount, w);
      }
    }

    /** The branch of _shrink that reallocates. */
    method Reallocate(where_: nat, amount: nat, newSize: nat, ghost w: Universe<T>)
      requires w.Valid() && this in w.vectors && where_ + amount <= count && newSize == count - amount
      requires storage != null && newSize * 3 < Capacity()
      modifies this, w, storage
      ensures w.Valid() && w.vectors == old(w.vectors)
      ensures old(w.buffers) <= w.buffers && fresh(w.buffers - old(w.buffers))
      ensures count == newSize && Contents() == Removed(old(Contents()), where_, amount)
      ensures storage != null && storage.refs == 1 && (storage == old(storage) || fresh(storage))
      ensures Capacity() == ShrinkCapacity(newSize)
      ensures (newSize <= 2 ==> Capacity() == 4) && (newSize >= 2 ==> Capacity() == 2 * newSize)
      ensures copied <= old(copied) + PopCost(newSize, old(Capacity()))
      ensures forall u :: u in w.vectors && u != this ==> u.Contents() == old(u.Contents())
    {
      var newCapacity := ShrinkCapacity(newSize);
      ShrinkRule(newSize);
      if where_ == count - amount && trivial {
        ghost var was := storage.data;
        ResizeStorage(newCapacity, newSize, w);
        SamePrefix(storage.data, was, Min(newCapacity, |was|), newSize);
        assert was[..newSize + amount][..newSize] == was[..newSize];
      } else {
        CopyAround(where_, where_ + amount, where_, newCapacity, w);
        SplitAt(Contents(), where_);
      }
    }

    /** Move the items behind the gap down onto it. */
    method SlideDown(where_: nat, amount: nat, ghost left: seq<T>, ghost w: Universe<T>)
      requires w.Valid() && this in w.vectors && where_ + amount <= count
      requires storage != null && storage.refs == 1 && left == Removed(Contents(), where_, amount)
      modifies storage`data
      ensures w.Valid() && Capacity() == old(Capacity()) && storage.data[..count - amount] == left
      ensures forall u :: u in w.vectors && u != this ==> u.Contents() == old(u.Contents())
    {
      var s := count - (where_ + amount);
      ghost var cells := storage.data;
      if s > 0 {
        MoveItems(where_, where_ + amount, s, w);
      }
      ClosedSlices(cells, storage.data, where_, amount, count, left);
    }

    method CloseGap(where_: nat, amount: nat, ghost w: Universe<T>)
      requires w.Valid() && this in w.vectors && where_ + amount <= count
      requires storage != null && storage.refs == 1
      modifies `count, storage`data
      ensures w.Valid() && count == old(count) - amount && Capacity() == old(Capacity())
      ensures Contents() == Removed(old(Contents()), where_, amount)
      ensures forall u :: u in w.vectors && u != this ==> u.Contents() == old(u.Contents())
    {
      SlideDown(where_, amount, Removed(Contents(), where_, amount), w);
      count := count - amount;
    }

    method RemoveItemsAt(index: nat, amount: nat, ghost w: Universe<T>) returns (r: Status)
      requires w.Valid() && this in w.vectors
      modifies this, w, storage
      ensures w.Valid() && w.vectors == old(w.vectors)
      ensures old(w.buffers) <= w.buffers && fresh(w.buffers - old(w.buffers))
      ensures storage == old(storage) || fresh(storage)
      ensures r == (if index + amount <= old(count) then Index(index) else BadValue)
      ensures Contents() == if r.Index? then Removed(old(Contents()), index, amount) else old(Contents())
      ensures forall u :: u in w.vectors && u != this ==> u.Contents() == old(u.Contents())
      ensures r.Index? && storage != null ==> storage.refs == 1
      ensures old(TailSafe(w)) ==> TailSafe(w)
    {
      if index + amount > count {
        return BadValue;
      }
      Shrink(index, amount, w);
      if storage != null {
        w.SoleSharer(storage, this);
      }
      return Index(index);
    }

    method Pop(ghost w: Universe<T>)
      requires w.Valid() && this in w.vectors
      modifies this, w, storage
      ensures w.Valid() && w.vectors == old(w.vectors)
      ensures old(w.buffers) <= w.buffers && fresh(w.buffers - old(w.buffers))
      ensures old(count) == 0 ==>
        count == 0 && storage == old(storage) && Capacity() == old(Capacity()) && copied == old(copied)
      ensures old(count) > 0 ==>
        && Contents() == old(Contents())[..old(count) - 1]
        && storage != null && storage.refs == 1
        && count == old(count) - 1 && Capacity() == PopCapacity(count, old(Capacity()))
        && (old(storage.refs) == 1 ==> copied <= old(copied) + PopCost(count, old(Capacity())))
      ensures storage == old(storage) || fresh(storage)
      ensures old(storage != null && storage.refs == 1) ==> storage.refs == 1
      ensures forall u :: u in w.vectors && u != this ==> u.Contents() == old(u.Contents())
    {
      if count != 0 {
        Shrink(count - 1, 1, w);
      }
    }

    method Clear(ghost w: Universe<T>)
      requires w.Valid() && this in w.vectors
      modifies this, w, storage
      ensures w.Valid() && w.vectors == old(w.vectors)
      ensures old(w.buffers) <= w.buffers && fresh(w.buffers - old(w.buffers))
      ensures storage == old(storage) || fresh(storage)
      ensures Contents() == [] && (storage != null ==> storage.refs == 1)
      ensures forall u :: u in w.vectors && u != this ==> u.Contents() == old(u.Contents())
    {
      Shrink(0, count, w);
    }

    /** replaceAt detaches first, so the write stays private. */
    method ReplaceAt(item: T, index: nat, ghost w: Universe<T>) returns (r: Status)
      requires w.Valid() && this in w.vectors && index < count
      modifies this, w, storage
      ensures w.Valid() && w.vectors == old(w.vectors)
      ensures old(w.buffers) <= w.buffers && fresh(w.buffers - old(w.buffers))
      ensures storage == old(storage) || fresh(storage)
      ensures r == Index(index) && Contents() == old(Contents())[index := item] && storage != null && storage.refs == 1
      ensures forall u :: u in w.vectors && u != this ==> u.Contents() == old(u.Contents())
      ensures old(TailSafe(w)) ==> TailSafe(w)
    {
      EditArrayImpl(w);
      w.SoleSharer(storage, this);
      Store(index, [item], w);
      return Index(index);
    }

    /** setCapacity: always a private copy, unless the request is not above the size. */
    method SetCapacity(newCapacity: nat, ghost w: Universe<T>) returns (r: nat)
      requires w.Valid() && this in w.vectors
      modifies this, w, storage
      ensures w.Valid() && w.vectors == old(w.vectors)
      ensures old(w.buffers) <= w.buffers && fresh(w.buffers - old(w.buffers))
      ensures storage == old(storage) || fresh(storage)
      ensures newCapacity > old(count) ==> storage != null && storage.refs == 1
      ensures Contents() == old(Contents()) && r == Capacity()
      ensures Capacity() == if newCapacity <= old(count) then old(Capacity()) else newCapacity
      ensures forall u :: u in w.vectors && u != this ==> u.Contents() == old(u.Contents())
    {
      if newCapacity - count <= 0 {
        return Capacity();
      }
      CopyAround(0, 0, 0, newCapacity, w);
      return newCapacity;
    }

    /** The copy constructor shares the storage. */
    constructor Copy(rhs: Vector<T>, ghost w: Universe<T>)
      requires w.Valid() && rhs in w.vectors
      modifies w, rhs.storage
      ensures w.Valid() && w.vectors == old(w.vectors) + {this} && w.buffers == old(w.buffers)
      ensures storage == rhs.storage && count == rhs.count && Contents() == old(rhs.Contents())
      ensures Capacity() == old(rhs.Capacity())
      ensures forall u :: u in old(w.vectors) ==> u.Contents() == old(u.Contents())
    {
      storage, count, copied := rhs.storage, rhs.count, 0;
      trivial := rhs.trivial;
      new;
      if storage != null {
        storage.Acquire();
      }
      w.vectors := w.vectors + {this};
      w.Joined(this);
    }

    /** operator=: let go of the old storage and share the right-hand side's. */
    method Assign(rhs: Vector<T>, ghost w: Universe<T>)
      requires w.Valid() && this in w.vectors && rhs in w.vectors
      modifies this, storage, rhs.storage
      ensures w.Valid() && Contents() == old(rhs.Contents())
      ensures storage == if this == rhs then old(storage) else if rhs.count == 0 then null else rhs.storage
      ensures forall u :: u in w.vectors && u != this ==> u.Contents() == old(u.Contents())
    {
      if this != rhs {
        assert storage != null ==> this in w.Sharers(storage);
        assert rhs.storage != null ==> rhs in w.Sharers(rhs.storage);
        if storage != null && storage == rhs.storage {
          assert {this, rhs} <= w.Sharers(storage) && |{this, rhs}| == 2;
          SubsetSize({this, rhs}, w.Sharers(storage));
        }
        ReleaseStorage();
        if rhs.count != 0 {
          storage, count := rhs.storage, rhs.count;
          storage.Acquire();
        } else {
          storage, count := null, 0;
        }
        w.Switched(this);
      }
    }

    /** finish_vector. */
    method FinishVector(ghost w: Universe<T>)
      requires w.Valid() && this in w.vectors
      modifies this, storage
      ensures w.Valid() && storage == null && Contents() == []
      ensures forall u :: u in w.vectors && u != this ==> u.Contents() == old(u.Contents())
    {
      assert storage != null ==> this in w.Sharers(storage);
      ReleaseStorage();
      storage, count := null, 0;
      w.Switched(this);
    }
  }

  lemma SubsetSize<X>(a: set<X>, b: set<X>)
    requires a <= b
    ensures |a| <= |b|
  {
    assert b == a + (b - a);
  }

  /**
   The in-place tail append leaves a sharer alone for every possible item exactly
   when the sharer does not reach past the end of the receiver.
   */
  lemma WriteThroughInvisibleIff(s: seq<int>, at: nat)
    ensures (forall item: int :: Overwritten(s, at, [item]) == s) <==> |s| <= at
  {
    if |s| > at {
      assert Overwritten(s, at, [s[at] + 1])[at] != s[at];
    } else {
      forall item: int
        ensures Overwritten(s, at, [item]) == s
      {
        assert Overwritten(s, at, [item]) == s;
      }
    }
  }

  /** An overwrite with one item is not seen exactly by what does not reach it, or has that item there already. */
  lemma OverwrittenSameIff<T>(s: seq<T>, at: nat, x: T)
    ensures Overwritten(s, at, [x]) == s <==> (|s| > at ==> s[at] == x)
  {
    if |s| > at {
      assert Overwritten(s, at, [x])[at] == x;
    }
  }

  /** Vector u is on the storage of v and longer, with something else behind v's end. */
  ghost predicate Sees<T(0)>(u: Vector<T>, v: Vector<T>, item: T)
    requires u.storage != null ==> u.count <= |u.storage.data|
    reads u`storage, u`count, u.storage, v`storage, v`count
  {
    u != v && u.storage != null && u.storage == v.storage && u.count > v.count && u.Contents()[v.count] != item
  }

  /** A push leaves every other vector alone exactly when it does not stay in place, or no other vector sees the item. */
  method PushVisibleIff<T(0)>(v: Vector<T>, item: T, ghost w: Universe<T>)
    requires w.Valid() && v in w.vectors
    modifies v, w, v.storage
    ensures w.Valid() && w.vectors == old(w.vectors) && v.Contents() == old(v.Contents()) + [item]
    ensures (forall u :: u in w.vectors && u != v ==> u.Contents() == old(u.Contents()))
       <==> (old(v.InPlaceTail(v.count, 1)) ==> forall u :: u in w.vectors ==> !old(Sees(u, v, item)))
  {
    forall u | u in w.vectors
      ensures Overwritten(u.Contents(), v.count, [item]) == u.Contents()
         <==> (u.count > v.count ==> u.Contents()[v.count] == item)
    {
      OverwrittenSameIff(u.Contents(), v.count, item);
    }
    v.Push(item, w);
  }

  /**
   The condition is needed: of two equal vectors on one storage with room to
   spare, the first to append loses its item to the second.
   */
  method AppendToBoth<T(0)>(a: Vector<T>, b: Vector<T>, x: T, y: T, ghost w: Universe<T>)
    requires w.Valid() && a in w.vectors && b in w.vectors && a != b
    requires a.storage == b.storage && a.InPlaceTail(a.count, 1) && b.count == a.count
    modifies a, b, w, a.storage
    ensures w.Valid() && w.vectors == old(w.vectors)
    ensures a.Contents() == old(a.Contents()) + [y]
    ensures b.Contents() == old(b.Contents()) + [y]
  {
    ghost var was := a.Contents();
    b.Push(x, w);
    assert b.storage == old(b.storage);
    assert a.Contents() == Overwritten(was, |was|, [x]) == was;
    a.Push(y, w);
    assert b.Contents() == Overwritten(was + [x], |was|, [y]) == was + [y];
  }

  /** The same from nothing: an item pushed onto one vector turns up in another. */
  method WriteThroughRun() returns (first: seq<int>, second: seq<int>)
    ensures first == [1, 3] && second == [1, 3]
  {
    ghost var w := new Universe<int>;
    w.vectors, w.buffers := {}, {};
    var a := new Vector<int>(true, w);
    a.Push(1, w);
    var b := new Vector<int>.Copy(a, w);
    AppendToBoth(a, b, 2, 3, w);
    first, second := a.Contents(), b.Contents();
  }
}
