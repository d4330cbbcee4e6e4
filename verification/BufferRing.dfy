/**
 The circular array of buffer headers behind a buffer queue: one slot more than
 it has buffers, so that front and rear meet only when it is empty.
 */
module BufferRings {
  /** One step around a circle of n slots. */
  function Next(i: nat, n: nat): nat {
    if i + 1 == n then 0 else i + 1
  }

  /** Where the front is after k buffers. */
  function Place(k: nat, n: nat): (p: nat)
    requires n > 0
    ensures p < n
  {
    if k == 0 then 0 else Next(Place(k - 1, n), n)
  }

  lemma Multiple(n: nat, d: int)
    requires n > 0
    ensures d >= 1 ==> n * d >= n
    ensures d <= -1 ==> n * d <= 0 - n
  {
    if d >= 1 {
      assert n * d == n * (d - 1) + n;
    } else if d <= -1 {
      assert n * d == n * (d + 1) - n;
    }
  }

  /** Quotient and remainder are unique. */
  lemma RemainderIs(x: nat, n: nat, q: nat, r: nat, q': nat, r': nat)
    requires n > 0 && r < n && r' < n && x == n * q + r && x == n * q' + r'
    ensures r == r'
  {
    Multiple(n, q - q');
    assert n * (q - q') == n * q - n * q';
  }

  lemma NextMod(q: nat, r: nat, n: nat)
    requires r < n
    ensures (n * q + r) % n == r
  {
    var x := n * q + r;
    RemainderIs(x, n, q, r, x / n, x % n);
  }

  /** One more than a number with quotient q and remainder r. */
  lemma OneMore(k: nat, n: nat, q: nat, r: nat)
    requires r < n && k == n * q + r + 1
    ensures k % n == Next(r, n)
  {
    if r + 1 == n {
      assert n * (q + 1) == n * q + n;
      NextMod(q + 1, 0, n);
    } else {
      NextMod(q, r + 1, n);
    }
  }

  lemma NextRemainder(k: nat, n: nat)
    requires n > 0
    ensures (k + 1) % n == Next(k % n, n)
  {
    OneMore(k + 1, n, k / n, k % n);
  }

  lemma {:induction false} PlaceIsMod(k: nat, n: nat)
    requires n > 0
    ensures Place(k, n) == k % n
  {
    if k > 0 {
      PlaceIsMod(k - 1, n);
      NextRemainder(k - 1, n);
    }
  }

  function Wrapped(i: nat, n: nat): nat {
    if i < n then i else i - n
  }

  /** `count` slots from `front` on. */
  function Window<T>(slots: seq<T>, front: nat, count: nat): seq<T>
    requires front < |slots| && count <= |slots|
  {
    seq(count, i requires 0 <= i < count => slots[Wrapped(front + i, |slots|)])
  }

  lemma WindowAppend<T>(slots: seq<T>, front: nat, count: nat, x: T)
    requires front < |slots| && count < |slots|
    ensures Window(slots[Wrapped(front + count, |slots|) := x], front, count + 1) == Window(slots, front, count) + [x]
  {
    var after := slots[Wrapped(front + count, |slots|) := x];
    forall i | 0 <= i < count
      ensures Window(after, front, count + 1)[i] == Window(slots, front, count)[i]
    {
      assert Wrapped(front + i, |slots|) != Wrapped(front + count, |slots|);
    }
  }

  lemma WindowSet<T>(slots: seq<T>, front: nat, count: nat, x: T)
    requires front < |slots| && 0 < count < |slots|
    ensures Window(slots[front := x], front, count) == Window(slots, front, count)[0 := x]
    ensures Window(slots, front, count)[0] == slots[front]
  {
    var after := slots[front := x];
    assert Wrapped(front + 0, |slots|) == front;
    forall i | 1 <= i < count
      ensures Window(after, front, count)[i] == Window(slots, front, count)[i]
    {
      assert Wrapped(front + i, |slots|) != front;
    }
  }

  lemma WindowRest<T>(slots: seq<T>, front: nat, count: nat)
    requires front < |slots| && 0 < count < |slots|
    ensures Window(slots, Next(front, |slots|), count - 1) == Window(slots, front, count)[1..]
  {
    var next := Next(front, |slots|);
    forall i | 0 <= i < count - 1
      ensures Window(slots, next, count - 1)[i] == Window(slots, front, count)[1..][i]
    {
      assert Wrapped(next + i, |slots|) == Wrapped(front + (i + 1), |slots|);
    }
  }

  class BufferRing<T> {
    const slots: array<T>
    var front: nat
    var rear: nat
    var count: nat
    /** Buffers taken off the queue so far. */
    var index: nat

    ghost predicate Valid()
      reads this
    {
      && slots.Length > 0 && front == Place(index, slots.Length) && count < slots.Length
      && rear == Wrapped(front + count, slots.Length)
    }

    ghost function Items(): seq<T>
      requires Valid()
      reads this, slots
    {
      Window(slots[..], front, count)
    }

    constructor (numBuffers: nat, blank: T)
      ensures Valid() && Items() == [] && index == 0
      ensures fresh(slots) && slots.Length == numBuffers + 1
    {
      slots := new T[numBuffers + 1](_ => blank);
      front, rear, count, index := 0, 0, 0, 0;
    }

    predicate Full()
      reads this
    {
      count + 1 == slots.Length
    }

    method Front() returns (x: T)
      requires Valid() && count > 0
      ensures x == Items()[0]
    {
      WindowSet(slots[..], front, count, slots[front]);
      x := slots[front];
    }

    /** The client's step: a buffer at the rear, when one slot stays empty behind it. */
    method Enqueue(x: T)
      requires Valid() && count + 1 < slots.Length
      modifies `rear, `count, slots
      ensures Valid() && Items() == old(Items()) + [x]
    {
      WindowAppend(slots[..], front, count, x);
      slots[rear] := x;
      assert slots[..] == old(slots[..])[rear := x];
      rear := Next(rear, slots.Length);
      count := count + 1;
    }

    /** Overwrite the header at the front. */
    method SetFront(x: T)
      requires Valid() && count > 0
      modifies slots
      ensures Valid() && Items() == old(Items())[0 := x]
    {
      WindowSet(slots[..], front, count, x);
      slots[front] := x;
      assert slots[..] == old(slots[..])[front := x];
    }

    /** Take the front buffer off. */
    method Retire()
      requires Valid() && count > 0
      modifies `front, `count, `index
      ensures Valid() && Items() == old(Items())[1..] && index == old(index) + 1
    {
      WindowRest(slots[..], front, count);
      front := Next(front, slots.Length);
      count := count - 1;
      index := index + 1;
    }
  }
}
