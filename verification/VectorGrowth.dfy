/**
 The cost of growing by 3/2 and shrinking below 1/3 (VectorImpl.cpp), over whole
 runs of pushes and pops at the end.
 */
module VectorGrowth {
  import opened SharedBuffers
  import opened Vectors

  datatype Op<T> = Push(item: T) | Pop

  /** What one operation does to a plain sequence. */
  function After<T>(s: seq<T>, op: Op<T>): seq<T> {
    match op
    case Push(x) => s + [x]
    case Pop => if s == [] then s else s[..|s| - 1]
  }

  function Outcome<T>(s: seq<T>, ops: seq<Op<T>>): seq<T>
    decreases |ops|
  {
    if ops == [] then s else Outcome(After(s, ops[0]), ops[1..])
  }

  function SizeAfter<T>(op: Op<T>, size: nat): nat {
    if op.Push? then size + 1 else if size == 0 then 0 else size - 1
  }

  function CapacityAfter<T>(op: Op<T>, size: nat, capacity: nat): nat {
    if op.Push? then PushCapacity(size, capacity)
    else if size == 0 then capacity
    else PopCapacity(size - 1, capacity)
  }

  function Cost<T>(op: Op<T>, size: nat, capacity: nat): nat {
    if op.Push? then PushCost(size, capacity)
    else if size == 0 then 0
    else PopCost(size - 1, capacity)
  }

  /** Cells copied by a run that starts with `size` items in `capacity` cells. */
  function RunCost<T>(ops: seq<Op<T>>, size: nat, capacity: nat): nat {
    if ops == [] then 0
    else
      var op := ops[0];
      Cost(op, size, capacity) + RunCost(ops[1..], SizeAfter(op, size), CapacityAfter(op, size, capacity))
  }

  /** The shapes such runs pass through. */
  predicate Shape(size: nat, capacity: nat) {
    size <= capacity && (capacity == 0 || capacity >= K_MIN_VECTOR_CAPACITY)
  }

  function Potential(size: nat, capacity: nat): nat {
    if 3 * size >= 2 * capacity then 3 * size - 2 * capacity
    else if capacity >= 2 * size then capacity - 2 * size
    else 0
  }

  /** Every operation is paid for by six cells and the drop in potential. */
  lemma StepPays<T>(op: Op<T>, size: nat, capacity: nat)
    requires Shape(size, capacity)
    ensures Shape(SizeAfter(op, size), CapacityAfter(op, size, capacity))
    ensures Cost(op, size, capacity) + 2 * Potential(SizeAfter(op, size), CapacityAfter(op, size, capacity))
            <= 2 * Potential(size, capacity) + 6
  {
  }

  lemma {:induction false} RunPays<T>(ops: seq<Op<T>>, size: nat, capacity: nat)
    requires Shape(size, capacity)
    ensures RunCost(ops, size, capacity) <= 6 * |ops| + 2 * Potential(size, capacity)
  {
    if ops == [] {
    } else {
      StepPays(ops[0], size, capacity);
      RunPays(ops[1..], SizeAfter(ops[0], size), CapacityAfter(ops[0], size, capacity));
    }
  }

  /** One operation on a vector that owns its storage alone. */
  method Step<T(0)>(v: Vector<T>, op: Op<T>, ghost w: Universe<T>)
    requires w.Valid() && v in w.vectors && (v.storage != null ==> v.storage.refs == 1)
    modifies v, w, v.storage
    ensures w.Valid() && w.vectors == old(w.vectors)
    ensures v.storage == old(v.storage) || fresh(v.storage)
    ensures v.storage != null ==> v.storage.refs == 1
    ensures v.Contents() == After(old(v.Contents()), op)
    ensures v.count == SizeAfter(op, old(v.count)) && v.Capacity() == CapacityAfter(op, old(v.count), old(v.Capacity()))
    ensures v.copied <= old(v.copied) + Cost(op, old(v.count), old(v.Capacity()))
    ensures forall u :: u in w.vectors && u != v ==> u.Contents() == old(u.Contents())
  {
    if v.storage != null {
      w.SoleSharer(v.storage, v);
    }
    match op
    case Push(x) => v.Push(x, w);
    case Pop => v.Pop(w);
  }

  /**
   Starting empty, n pushes and pops copy at most 6n cells; meanwhile the vector
   behaves as the plain sequence and disturbs no other vector.
   */
  method Run<T(0)>(v: Vector<T>, ops: seq<Op<T>>, ghost w: Universe<T>)
    requires w.Valid() && v in w.vectors && v.storage == null
    modifies v, w
    ensures w.Valid() && w.vectors == old(w.vectors) && v.Contents() == Outcome([], ops)
    ensures v.copied <= old(v.copied) + 6 * |ops|
    ensures forall u :: u in w.vectors && u != v ==> u.Contents() == old(u.Contents())
  {
    for i := 0 to |ops|
      invariant w.Valid() && w.vectors == old(w.vectors)
      invariant v.storage != null ==> fresh(v.storage) && v.storage.refs == 1
      invariant Outcome(v.Contents(), ops[i..]) == Outcome([], ops)
      invariant v.copied + RunCost(ops[i..], v.count, v.Capacity()) <= old(v.copied) + RunCost(ops, 0, 0)
      invariant forall u :: u in w.vectors && u != v ==> u.Contents() == old(u.Contents())
    {
      assert ops[i..][1..] == ops[i + 1..];
      Step(v, ops[i], w);
    }
    RunPays(ops, 0, 0);
  }
}
