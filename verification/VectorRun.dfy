/**
 Whole runs over any number of vectors that may share storage (VectorImpl.cpp).
 */
module VectorRuns {
  import opened Sequences
  import opened SharedBuffers
  import opened Vectors

  /** An operation on one vector; Share and InsertFrom take another one. */
  datatype Op<T> = Push(item: T) | Insert(item: T, at: nat, n: nat) | Pop | Remove(at: nat, n: nat)
    | Replace(item: T, at: nat) | Clear | Reserve(capacity: nat) | Share(from: nat) | InsertFrom(from: nat, at: nat)

  datatype Call<T> = Call(i: nat, op: Op<T>)

  /** What an operation makes of a plain sequence, `others` being all of them. */
  function After<T>(s: seq<T>, op: Op<T>, others: seq<seq<T>>): seq<T> {
    match op
    case Push(x) => s + [x]
    case Insert(x, at, n) => Inserted(s, at, seq(n, _ => x))
    case Pop => if s == [] then s else s[..|s| - 1]
    case Remove(at, n) => Removed(s, at, n)
    case Replace(x, at) => if at < |s| then s[at := x] else s
    case Clear => []
    case Reserve(_) => s
    case Share(j) => if j < |others| then others[j] else s
    case InsertFrom(j, at) => if j < |others| then Inserted(s, at, others[j]) else s
  }

  /** Plain sequences, none of which ever shares anything. */
  function Plain<T>(all: seq<seq<T>>, c: Call<T>): seq<seq<T>> {
    if c.i < |all| then all[c.i := After(all[c.i], c.op, all)] else all
  }

  function Outcome<T>(all: seq<seq<T>>, calls: seq<Call<T>>): seq<seq<T>>
    decreases |calls|
  {
    if calls == [] then all else Outcome(Plain(all, calls[0]), calls[1..])
  }

  // Which vectors may share storage, told from the calls alone

  /** The operation leaves the vector with storage of its own. */
  predicate Detaches<T>(s: seq<T>, op: Op<T>) {
    match op
    case Insert(_, at, _) => at < |s|
    case InsertFrom(_, at) => at < |s|
    case Pop => s != []
    case Remove(at, n) => at + n <= |s|
    case Replace(_, at) => at < |s|
    case Clear => true
    case Reserve(n) => n > |s|
    case _ => false
  }

  predicate Appends<T>(s: seq<T>, op: Op<T>) {
    op.Push? || (op.Insert? && op.at == |s| && op.n > 0) || (op.InsertFrom? && op.at == |s|)
  }

  /** The other vector an operation takes; the vector itself is none. */
  predicate TakesOther<T>(c: Call<T>, n: nat) {
    match c.op
    case Share(j) => j < n
    case InsertFrom(j, _) => j < n
    case _ => true
  }

  /** Vectors that may share storage have the same group number; `clock` is a number not yet used. */
  function Regroup<T>(all: seq<seq<T>>, group: seq<nat>, clock: nat, c: Call<T>): seq<nat>
    requires |group| == |all|
  {
    if c.i >= |all| || !TakesOther(c, |all|) then group
    else if c.op.Share? then group[c.i := group[c.op.from]]
    else if Detaches(all[c.i], c.op) then group[c.i := clock]
    else group
  }

  /** Nothing is appended to a vector while one of its group is longer, nor a vector inserted into itself. */
  predicate Harmless<T>(all: seq<seq<T>>, group: seq<nat>, c: Call<T>)
    requires |group| == |all|
  {
    && (c.op.InsertFrom? ==> c.op.from != c.i)
    && (c.i < |all| && Appends(all[c.i], c.op) ==>
          forall j :: 0 <= j < |all| && group[j] == group[c.i] ==> |all[j]| <= |all[c.i]|)
  }

  predicate Gentle<T>(all: seq<seq<T>>, group: seq<nat>, clock: nat, calls: seq<Call<T>>)
    requires |group| == |all|
    decreases |calls|
  {
    calls == [] ||
    (Harmless(all, group, calls[0])
     && Gentle(Plain(all, calls[0]), Regroup(all, group, clock, calls[0]), clock + 1, calls[1..]))
  }

  // The vectors

  /** The vectors there are. */
  ghost predicate Group<T(0)>(vs: seq<Vector<T>>, w: Universe<T>)
    reads w, w.vectors, w.buffers
  {
    && w.Valid() && (forall i, j :: 0 <= i < j < |vs| ==> vs[i] != vs[j])
    && (forall i :: 0 <= i < |vs| ==> vs[i] in w.vectors)
  }

  ghost predicate AllOf<T(0)>(vs: seq<Vector<T>>, all: set<Vector<T>>) {
    forall v :: v in all ==> v in vs
  }

  /** The contents of the vectors, one after the other. */
  ghost predicate Are<T(0)>(vs: seq<Vector<T>>, all: seq<seq<T>>, w: Universe<T>)
    requires Group(vs, w)
    reads w, w.vectors, w.buffers
  {
    |all| == |vs| && forall i :: 0 <= i < |vs| ==> vs[i].Contents() == all[i]
  }

  ghost predicate Tied<T(0)>(vs: seq<Vector<T>>, group: seq<nat>, clock: nat)
    reads vs
  {
    && |group| == |vs| && (forall i :: 0 <= i < |group| ==> group[i] < clock)
    && forall i, j :: 0 <= i < |vs| && 0 <= j < |vs| && vs[i].storage != null && vs[i].storage == vs[j].storage ==>
         group[i] == group[j]
  }

  /** One operation on a vector of its own. */
  method Change<T(0)>(v: Vector<T>, op: Op<T>, ghost w: Universe<T>)
    requires w.Valid() && v in w.vectors && !op.Share? && !op.InsertFrom?
    requires Appends(v.Contents(), op) ==> v.TailSafe(w)
    modifies v, w, v.storage
    ensures w.Valid() && w.vectors == old(w.vectors)
    ensures old(w.buffers) <= w.buffers && fresh(w.buffers - old(w.buffers))
    ensures v.Contents() == After(old(v.Contents()), op, [])
    ensures forall u :: u in w.vectors && u != v ==> u.Contents() == old(u.Contents())
    ensures v.storage == old(v.storage) || fresh(v.storage)
    ensures Detaches(old(v.Contents()), op) && v.storage != null ==> v.storage.refs == 1
  {
    match op
    case Push(x) => v.Push(x, w);
    case Insert(x, at, n) => InsertItems(v, x, at, n, w);
    case Pop => v.Pop(w);
    case Remove(at, n) => var _ := v.RemoveItemsAt(at, n, w);
    case Replace(x, at) =>
      if at < v.count {
        var _ := v.ReplaceAt(x, at, w);
      }
    case Clear => v.Clear(w);
    case Reserve(n) => var _ := v.SetCapacity(n, w);
  }

  method InsertItems<T(0)>(v: Vector<T>, x: T, at: nat, n: nat, ghost w: Universe<T>)
    requires w.Valid() && v in w.vectors && (at == v.count && n > 0 ==> v.TailSafe(w))
    modifies v, w, v.storage
    ensures w.Valid() && w.vectors == old(w.vectors)
    ensures old(w.buffers) <= w.buffers && fresh(w.buffers - old(w.buffers))
    ensures v.Contents() == Inserted(old(v.Contents()), at, seq(n, _ => x))
    ensures forall u :: u in w.vectors && u != v ==> u.Contents() == old(u.Contents())
    ensures v.storage == old(v.storage) || fresh(v.storage)
    ensures at < old(v.count) ==> v.storage != null && v.storage.refs == 1
  {
    NoneInserted(v.Contents(), at);
    forall u | u in w.vectors && n == 0
      ensures Overwritten(u.Contents(), v.count, seq(n, _ => x)) == u.Contents()
    {
      NoneInserted(u.Contents(), v.count);
    }
    var _ := v.InsertAt(x, at, n, w);
  }

  lemma NoneInserted<T>(s: seq<T>, at: nat)
    ensures Inserted(s, at, []) == s && Overwritten(s, at, []) == s
  {
    if at <= |s| {
      assert s[..at] + [] + s[at..] == s;
    }
  }

  lemma HarmlessIsSafe<T(0)>(vs: seq<Vector<T>>, i: nat, all: seq<seq<T>>, group: seq<nat>, clock: nat, c: Call<T>,
      w: Universe<T>)
    requires Group(vs, w) && AllOf(vs, w.vectors) && Are(vs, all, w) && Tied(vs, group, clock)
    requires Harmless(all, group, c)
    requires c.i == i < |vs| && Appends(all[i], c.op)
    ensures vs[i].TailSafe(w)
  {
    forall u | u in w.vectors && u != vs[i] && u.storage == vs[i].storage && vs[i].storage != null
      ensures u.count <= vs[i].count
    {
      var j :| 0 <= j < |vs| && vs[j] == u;
      assert |all[j]| <= |all[i]|;
    }
  }

  /** Nothing but v changed: the groups stay right, and if v is alone on its storage it has a new one. */
  twostate lemma StillTied<T(0)>(vs: seq<Vector<T>>, new i: nat, new group: seq<nat>, new next: seq<nat>,
      new clock: nat, new alone: bool, new w: Universe<T>)
    requires i < |group| && next == if alone then group[i := clock] else group
    requires old(Tied(vs, group, clock)) && i < |vs| && Group(vs, w)
    requires forall j :: 0 <= j < |vs| && j != i ==> vs[j].storage == old(vs[j].storage)
    requires vs[i].storage == old(vs[i].storage) || fresh(vs[i].storage)
    requires alone && vs[i].storage != null ==> vs[i].storage.refs == 1
    ensures Tied(vs, next, clock + 1)
  {
    if alone && vs[i].storage != null {
      w.SoleSharer(vs[i].storage, vs[i]);
    }
  }

  /** operator= between two of the vectors. */
  method ShareStep<T(0)>(vs: seq<Vector<T>>, i: nat, j: nat, ghost all: seq<seq<T>>, ghost group: seq<nat>,
      ghost clock: nat, ghost w: Universe<T>)
    requires Group(vs, w) && Are(vs, all, w) && Tied(vs, group, clock) && i < |vs| && j < |vs|
    modifies vs[i], vs[i].storage, vs[j].storage
    ensures Group(vs, w) && Are(vs, all[i := all[j]], w) && Tied(vs, group[i := group[j]], clock + 1)
  {
    vs[i].Assign(vs[j], w);
    assert forall k :: 0 <= k < |vs| && k != i ==> vs[k].storage == old(vs[k].storage);
    assert i != j ==> vs[i].storage == null || vs[i].storage == vs[j].storage;
    assert i == j ==> group[i := group[j]] == group && vs[i].storage == old(vs[i].storage);
  }

  lemma AfterAlone<T>(s: seq<T>, op: Op<T>, all: seq<seq<T>>)
    requires !op.Share? && !op.InsertFrom?
    ensures After(s, op, all) == After(s, op, [])
  {
  }

  method ChangeStep<T(0)>(vs: seq<Vector<T>>, i: nat, op: Op<T>, ghost all: seq<seq<T>>, ghost group: seq<nat>,
      ghost clock: nat, ghost w: Universe<T>)
    requires Group(vs, w) && AllOf(vs, w.vectors) && Are(vs, all, w) && Tied(vs, group, clock)
    requires i < |vs| && !op.Share? && !op.InsertFrom? && Harmless(all, group, Call(i, op))
    modifies vs[i], w, vs[i].storage
    ensures Group(vs, w) && w.vectors == old(w.vectors)
    ensures old(w.buffers) <= w.buffers && fresh(w.buffers - old(w.buffers))
    ensures Are(vs, all[i := After(all[i], op, all)], w)
    ensures vs[i].storage == old(vs[i].storage) || fresh(vs[i].storage)
    ensures Detaches(all[i], op) && vs[i].storage != null ==> vs[i].storage.refs == 1
  {
    if Appends(vs[i].Contents(), op) {
      HarmlessIsSafe(vs, i, all, group, clock, Call(i, op), w);
    }
    AfterAlone(all[i], op, all);
    Change(vs[i], op, w);
  }

  /** insertVectorAt from another of the vectors. */
  method InsertStep<T(0)>(vs: seq<Vector<T>>, i: nat, j: nat, at: nat, ghost all: seq<seq<T>>, ghost group: seq<nat>,
      ghost clock: nat, ghost w: Universe<T>)
    requires Group(vs, w) && AllOf(vs, w.vectors) && Are(vs, all, w) && Tied(vs, group, clock)
    requires i < |vs| && j < |vs| && Harmless(all, group, Call(i, InsertFrom(j, at)))
    modifies vs[i], w, vs[i].storage
    ensures Group(vs, w) && w.vectors == old(w.vectors)
    ensures old(w.buffers) <= w.buffers && fresh(w.buffers - old(w.buffers))
    ensures Are(vs, all[i := Inserted(all[i], at, all[j])], w)
    ensures vs[i].storage == old(vs[i].storage) || fresh(vs[i].storage)
    ensures at < |all[i]| && vs[i].storage != null ==> vs[i].storage.refs == 1
  {
    NoneInserted(all[i], at);
    if at == vs[i].count {
      HarmlessIsSafe(vs, i, all, group, clock, Call(i, InsertFrom(j, at)), w);
    }
    var _ := vs[i].InsertVectorAt(vs[j], at, w);
  }

  lemma Later<T(0)>(vs: seq<Vector<T>>, group: seq<nat>, clock: nat)
    requires Tied(vs, group, clock)
    ensures Tied(vs, group, clock + 1)
  {
  }

  /** One call that is harmless: every vector is what a sequence of its own would be. */
  method Step<T(0)>(vs: seq<Vector<T>>, c: Call<T>, ghost all: seq<seq<T>>, ghost group: seq<nat>, ghost clock: nat,
      ghost w: Universe<T>)
    requires Group(vs, w) && AllOf(vs, w.vectors) && Are(vs, all, w) && Tied(vs, group, clock)
    requires Harmless(all, group, c)
    modifies w, w.vectors, w.buffers
    ensures Group(vs, w) && w.vectors == old(w.vectors)
    ensures old(w.buffers) <= w.buffers && fresh(w.buffers - old(w.buffers))
    ensures Are(vs, Plain(all, c), w) && Tied(vs, Regroup(all, group, clock, c), clock + 1)
  {
    assert c == Call(c.i, c.op);
    if c.i >= |vs| || !TakesOther(c, |vs|) {
      Later(vs, group, clock);
      assert Plain(all, c) == all;
    } else if c.op.Share? {
      ShareStep(vs, c.i, c.op.from, all, group, clock, w);
    } else {
      ghost var alone, next := Detaches(all[c.i], c.op), Regroup(all, group, clock, c);
      if c.op.InsertFrom? {
        InsertStep(vs, c.i, c.op.from, c.op.at, all, group, clock, w);
      } else {
        ChangeStep(vs, c.i, c.op, all, group, clock, w);
      }
      StillTied(vs, c.i, group, next, clock, alone, w);
    }
  }

  /**
   Any run of calls that is gentle, which the calls alone tell: however storage is
   shared meanwhile, every vector ends as a sequence of its own would.
   */
  method Run<T(0)>(vs: seq<Vector<T>>, calls: seq<Call<T>>, ghost all: seq<seq<T>>, ghost group: seq<nat>,
      ghost clock: nat, ghost w: Universe<T>)
    requires Group(vs, w) && AllOf(vs, w.vectors) && Are(vs, all, w) && Tied(vs, group, clock)
    requires Gentle(all, group, clock, calls)
    modifies w, w.vectors, w.buffers
    ensures Group(vs, w) && w.vectors == old(w.vectors)
    ensures old(w.buffers) <= w.buffers && fresh(w.buffers - old(w.buffers))
    ensures Are(vs, Outcome(all, calls), w)
    decreases |calls|
  {
    if calls != [] {
      var c := calls[0];
      Step(vs, c, all, group, clock, w);
      Run(vs, calls[1..], Plain(all, c), Regroup(all, group, clock, c), clock + 1, w);
    }
  }

  predicate Apart(group: seq<nat>) {
    forall i, j :: 0 <= i < j < |group| ==> group[i] != group[j]
  }

  /** Runs that never share are gentle, and so are runs that never append. */
  lemma {:induction false} UnsharedIsGentle<T>(all: seq<seq<T>>, group: seq<nat>, clock: nat, calls: seq<Call<T>>)
    requires |group| == |all| && Apart(group) && forall i :: 0 <= i < |group| ==> group[i] < clock
    requires forall k :: 0 <= k < |calls| ==>
               !calls[k].op.Share? && (calls[k].op.InsertFrom? ==> calls[k].op.from != calls[k].i)
    ensures Gentle(all, group, clock, calls)
    decreases |calls|
  {
    if calls != [] {
      UnsharedIsGentle(Plain(all, calls[0]), Regroup(all, group, clock, calls[0]), clock + 1, calls[1..]);
    }
  }

  lemma {:induction false} NoAppendIsGentle<T>(all: seq<seq<T>>, group: seq<nat>, clock: nat, calls: seq<Call<T>>)
    requires |group| == |all|
    requires forall k :: 0 <= k < |calls| ==>
               !calls[k].op.Push? && !calls[k].op.Insert? && !calls[k].op.InsertFrom?
    ensures Gentle(all, group, clock, calls)
    decreases |calls|
  {
    if calls != [] {
      NoAppendIsGentle(Plain(all, calls[0]), Regroup(all, group, clock, calls[0]), clock + 1, calls[1..]);
    }
  }

  /** Two vectors share, and both are appended to: that is not gentle. */
  lemma AppendingToBoth<T>(all: seq<seq<T>>, x: T, y: T, z: T)
    requires all == [[x], [x]]
    ensures !Gentle(all, [0, 0], 1, [Call(1, Push(y)), Call(0, Push(z))])
  {
    var first, second := Call(1, Op<T>.Push(y)), Call(0, Op<T>.Push(z));
    var now := Plain(all, first);
    assert now[0] == [x] && now[1] == [x] + [y] && |now| == 2;
    assert Regroup(all, [0, 0], 1, first) == [0, 0];
    assert [first, second][1..] == [second];
    assert [0, 0][1] == [0, 0][second.i] && |now[1]| > |now[0]|;
    assert !Harmless(now, [0, 0], second);
  }
}
