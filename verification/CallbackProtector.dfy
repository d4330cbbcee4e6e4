/**
 CallbackProtector.cpp: callbacks enter and leave under a lock; a destroyer forbids
 new ones and waits on a condition variable for those in progress.

 The class has the bodies that run under the lock.  The machine interleaves any
 number of threads that take the lock, run those bodies, broadcast, sleep and wake.
 */
module CallbackProtectors {
  /** mSafeToEnterCb and mCbCount. */
  datatype Fields = Fields(safe: bool, count: nat)

  function Entered(f: Fields): Fields {
    if f.safe then Fields(true, f.count + 1) else f
  }

  function Exited(f: Fields): Fields
    requires f.count > 0
  {
    Fields(f.safe, f.count - 1)
  }

  function Stopped(f: Fields): Fields {
    Fields(false, f.count)
  }

  class CallbackProtector {
    var safeToEnterCb: bool
    var cbCount: nat

    function State(): Fields
      reads this
    {
      Fields(safeToEnterCb, cbCount)
    }

    constructor ()
      ensures State() == Fields(true, 0)
    {
      safeToEnterCb, cbCount := true, 0;
    }

    method EnterCb() returns (ok: bool)
      modifies this
      ensures State() == Entered(old(State())) && ok == old(safeToEnterCb)
      ensures safeToEnterCb == old(safeToEnterCb) && cbCount == old(cbCount) + if ok then 1 else 0
    {
      if safeToEnterCb {
        cbCount := cbCount + 1;
      }
      return safeToEnterCb;
    }

    /** The check on the count is the precondition; the result says whether to broadcast. */
    method ExitCb() returns (broadcast: bool)
      requires cbCount > 0
      modifies this
      ensures State() == Exited(old(State())) && (broadcast <==> cbCount == 0 && !safeToEnterCb)
      ensures safeToEnterCb == old(safeToEnterCb) && cbCount == old(cbCount) - 1
    {
      cbCount := cbCount - 1;
      broadcast := false;
      if cbCount == 0 {
        if !safeToEnterCb {
          broadcast := true;
        }
      }
    }

    /** Both requests start so; the waiting one goes on to test the count. */
    method RequestCbExit()
      modifies this
      ensures State() == Stopped(old(State())) && !safeToEnterCb && cbCount == old(cbCount)
    {
      safeToEnterCb := false;
    }
  }

  // Threads

  datatype Call = Enter | Exit | Stop | StopAndWait | Recheck

  /** What a thread is doing; `Has`, `Notify` and `Leaving` hold the lock. */
  datatype Pc = Idle | Wants(call: Call) | Has(call: Call) | Notify | Leaving(waited: bool) | Asleep

  /** depth counts the callbacks the thread is in; waited says that a waiting request has returned. */
  datatype Thread = Thread(pc: Pc, depth: nat, waited: bool)

  datatype Machine = Machine(threads: seq<Thread>, locked: bool, f: Fields)

  datatype Action =
    | Begin(t: nat, call: Call)
    | Acquire(t: nat)
    | Body(t: nat)
    | Broadcast(t: nat)
    | Release(t: nat)
    | Wake(t: nat)

  predicate Holds(pc: Pc) {
    pc.Has? || pc.Notify? || pc.Leaving?
  }

  predicate Enabled(m: Machine, a: Action) {
    a.t < |m.threads| &&
    var th := m.threads[a.t];
    match a
    case Begin(_, call) => th.pc == Idle && call != Recheck && (call == Exit ==> th.depth > 0)
    case Acquire(_) => th.pc.Wants? && !m.locked
    case Body(_) => th.pc.Has?
    case Broadcast(_) => th.pc == Notify
    case Release(_) => th.pc.Leaving?
    case Wake(_) => th.pc == Asleep
  }

  function SetPc(m: Machine, t: nat, pc: Pc): Machine
    requires t < |m.threads|
  {
    m.(threads := m.threads[t := m.threads[t].(pc := pc)])
  }

  /** The waiting loop: sleep, which lets the lock go, while a callback is in progress. */
  function TestCount(m: Machine, t: nat, f: Fields): Machine
    requires t < |m.threads|
  {
    if f.count > 0 then SetPc(m, t, Asleep).(locked := false, f := f)
    else SetPc(m, t, Leaving(true)).(f := f)
  }

  /** The step under the lock.  An exit needs a callback in progress: see ExitChecked. */
  function DoBody(m: Machine, t: nat, call: Call): Machine
    requires t < |m.threads|
  {
    var th := m.threads[t];
    match call
    case Enter =>
      var th' := Thread(Leaving(false), if m.f.safe then th.depth + 1 else th.depth, th.waited);
      m.(threads := m.threads[t := th'], f := Entered(m.f))
    case Exit =>
      if m.f.count == 0 || th.depth == 0 then m
      else
        var f := Exited(m.f);
        var th' := Thread(if f.count == 0 && !f.safe then Notify else Leaving(false), th.depth - 1, th.waited);
        m.(threads := m.threads[t := th'], f := f)
    case Stop => SetPc(m, t, Leaving(false)).(f := Stopped(m.f))
    case StopAndWait => TestCount(m, t, Stopped(m.f))
    case Recheck => TestCount(m, t, m.f)
  }

  function Woken(th: Thread): Thread {
    if th.pc == Asleep then th.(pc := Wants(Recheck)) else th
  }

  function WakeAll(threads: seq<Thread>): seq<Thread> {
    seq(|threads|, i requires 0 <= i < |threads| => Woken(threads[i]))
  }

  function Do(m: Machine, a: Action): Machine
    requires Enabled(m, a)
  {
    var th := m.threads[a.t];
    match a
    case Begin(t, call) => SetPc(m, t, Wants(call))
    case Acquire(t) => SetPc(m, t, Has(th.pc.call)).(locked := true)
    case Body(t) => DoBody(m, t, th.pc.call)
    case Broadcast(t) => m.(threads := WakeAll(m.threads[t := th.(pc := Leaving(false))]))
    case Release(t) => m.(threads := m.threads[t := Thread(Idle, th.depth, th.waited || th.pc.waited)], locked := false)
    case Wake(t) => m.(threads := m.threads[t := Woken(th)])
  }

  // Invariants

  function InProgress(threads: seq<Thread>): nat {
    if threads == [] then 0 else threads[0].depth + InProgress(threads[1..])
  }

  lemma {:induction false} InProgressSet(threads: seq<Thread>, t: nat, th: Thread)
    requires t < |threads|
    ensures InProgress(threads[t := th]) == InProgress(threads) - threads[t].depth + th.depth
    decreases |threads|
  {
    if t > 0 {
      assert threads[t := th][1..] == threads[1..][t - 1 := th];
      InProgressSet(threads[1..], t - 1, th);
    } else {
      assert threads[t := th][1..] == threads[1..];
    }
  }

  lemma {:induction false} InProgressWake(threads: seq<Thread>)
    ensures InProgress(WakeAll(threads)) == InProgress(threads)
    decreases |threads|
  {
    if threads != [] {
      InProgressWake(threads[1..]);
      assert WakeAll(threads)[1..] == WakeAll(threads[1..]);
    }
  }

  lemma {:induction false} OneOfMany(threads: seq<Thread>, t: nat)
    requires t < |threads|
    ensures threads[t].depth <= InProgress(threads)
    decreases |threads|
  {
    if t > 0 {
      OneOfMany(threads[1..], t - 1);
    }
  }

  /** A waiting request has returned, or is about to. */
  predicate Done(th: Thread) {
    th.waited || th.pc == Leaving(true)
  }

  /** What each thread's program counter says about the shared fields. */
  predicate Fits(th: Thread, f: Fields) {
    && (Done(th) ==> !f.safe && f.count == 0)
    && (th.pc == Notify ==> !f.safe && f.count == 0)
    && (th.pc in {Asleep, Wants(Recheck), Has(Recheck)} ==> !f.safe)
    && (th.pc in {Wants(Exit), Has(Exit)} ==> th.depth > 0)
  }

  predicate AtMostOneHolds(threads: seq<Thread>) {
    forall i, j :: 0 <= i < |threads| && 0 <= j < |threads| && Holds(threads[i].pc) && Holds(threads[j].pc) ==> i == j
  }

  predicate SomeHolds(threads: seq<Thread>) {
    exists i :: 0 <= i < |threads| && Holds(threads[i].pc)
  }

  predicate SomeNotifies(threads: seq<Thread>) {
    exists i :: 0 <= i < |threads| && threads[i].pc == Notify
  }

  predicate Inv(m: Machine) {
    && m.f.count == InProgress(m.threads)
    && (forall i :: 0 <= i < |m.threads| ==> Fits(m.threads[i], m.f))
    && AtMostOneHolds(m.threads) && (m.locked <==> SomeHolds(m.threads))
    && (m.f.count == 0 && (exists i :: 0 <= i < |m.threads| && m.threads[i].pc == Asleep) ==> SomeNotifies(m.threads))
  }

  predicate Start(m: Machine) {
    && (forall i :: 0 <= i < |m.threads| ==> m.threads[i] == Thread(Idle, 0, false))
    && !m.locked && m.f == Fields(true, 0)
  }

  lemma {:induction false} NoneInProgress(threads: seq<Thread>)
    requires forall i :: 0 <= i < |threads| ==> threads[i] == Thread(Idle, 0, false)
    ensures InProgress(threads) == 0
    decreases |threads|
  {
    if threads != [] {
      NoneInProgress(threads[1..]);
    }
  }

  lemma StartInv(m: Machine)
    requires Start(m)
    ensures Inv(m)
  {
    NoneInProgress(m.threads);
  }

  predicate SomeSleeps(threads: seq<Thread>) {
    exists i :: 0 <= i < |threads| && threads[i].pc == Asleep
  }

  lemma LockKept(threads: seq<Thread>, locked: bool, t: nat, th: Thread, locked': bool)
    requires t < |threads| && AtMostOneHolds(threads) && (locked <==> SomeHolds(threads))
    requires Holds(th.pc) ==> Holds(threads[t].pc) || !locked
    requires locked' <==> Holds(th.pc) || (locked && !Holds(threads[t].pc))
    ensures AtMostOneHolds(threads[t := th]) && (locked' <==> SomeHolds(threads[t := th]))
  {
    var after := threads[t := th];
    assert forall i :: 0 <= i < |threads| && i != t ==> after[i] == threads[i];
    if Holds(th.pc) {
      assert Holds(after[t].pc);
    } else if locked' {
      var i :| 0 <= i < |threads| && Holds(threads[i].pc);
      assert Holds(after[i].pc);
    } else if locked {
      assert forall i :: 0 <= i < |threads| && i != t ==> !Holds(threads[i].pc);
    }
  }

  lemma NotifiesKept(threads: seq<Thread>, t: nat, th: Thread)
    requires t < |threads| && (SomeSleeps(threads) ==> SomeNotifies(threads))
    requires threads[t].pc != Notify && th.pc != Asleep
    ensures SomeSleeps(threads[t := th]) ==> SomeNotifies(threads[t := th])
  {
    var after := threads[t := th];
    if SomeSleeps(after) {
      var i :| 0 <= i < |after| && after[i].pc == Asleep;
      assert threads[i].pc == Asleep;
      var j :| 0 <= j < |threads| && threads[j].pc == Notify;
      assert after[j].pc == Notify;
    }
  }

  /** A step that changes one thread and, under the lock, the fields. */
  lemma OneThreadInv(m: Machine, m': Machine, t: nat, th: Thread)
    requires Inv(m) && t < |m.threads| && m'.threads == m.threads[t := th]
    requires m'.f.count == m.f.count - m.threads[t].depth + th.depth
    requires Fits(th, m'.f) && forall i :: 0 <= i < |m.threads| && i != t ==> Fits(m.threads[i], m'.f)
    requires Holds(th.pc) ==> Holds(m.threads[t].pc) || !m.locked
    requires m'.locked <==> Holds(th.pc) || (m.locked && !Holds(m.threads[t].pc))
    requires m'.f.count == 0 && SomeSleeps(m'.threads) ==> SomeNotifies(m'.threads)
    ensures Inv(m')
  {
    InProgressSet(m.threads, t, th);
    LockKept(m.threads, m.locked, t, th, m'.locked);
    assert forall i :: 0 <= i < |m.threads| ==> Fits(m'.threads[i], m'.f);
  }

  lemma BeginInv(m: Machine, t: nat, call: Call)
    requires Inv(m) && Enabled(m, Begin(t, call))
    ensures Inv(Do(m, Begin(t, call)))
  {
    var th := m.threads[t].(pc := Wants(call));
    NotifiesIfSleeps(m, t, th);
    OneThreadInv(m, Do(m, Begin(t, call)), t, th);
  }

  lemma NotifiesIfSleeps(m: Machine, t: nat, th: Thread)
    requires Inv(m) && t < |m.threads| && m.threads[t].pc != Notify && th.pc != Asleep
    ensures m.f.count == 0 && SomeSleeps(m.threads[t := th]) ==> SomeNotifies(m.threads[t := th])
  {
    if m.f.count == 0 {
      NotifiesKept(m.threads, t, th);
    }
  }

  lemma AcquireInv(m: Machine, t: nat)
    requires Inv(m) && Enabled(m, Acquire(t))
    ensures Inv(Do(m, Acquire(t)))
  {
    var th := m.threads[t].(pc := Has(m.threads[t].pc.call));
    NotifiesIfSleeps(m, t, th);
    OneThreadInv(m, Do(m, Acquire(t)), t, th);
  }

  lemma ReleaseInv(m: Machine, t: nat)
    requires Inv(m) && Enabled(m, Release(t))
    ensures Inv(Do(m, Release(t)))
  {
    var th := Thread(Idle, m.threads[t].depth, m.threads[t].waited || m.threads[t].pc.waited);
    NotifiesIfSleeps(m, t, th);
    OneThreadInv(m, Do(m, Release(t)), t, th);
  }

  lemma WakeInv(m: Machine, t: nat)
    requires Inv(m) && Enabled(m, Wake(t))
    ensures Inv(Do(m, Wake(t)))
  {
    var th := Woken(m.threads[t]);
    NotifiesIfSleeps(m, t, th);
    OneThreadInv(m, Do(m, Wake(t)), t, th);
  }

  lemma WakeAllInv(m: Machine)
    requires m.f.count == InProgress(m.threads) && AtMostOneHolds(m.threads) && (m.locked <==> SomeHolds(m.threads))
    requires forall i :: 0 <= i < |m.threads| ==> Fits(m.threads[i], m.f)
    ensures Inv(m.(threads := WakeAll(m.threads)))
  {
    var after := WakeAll(m.threads);
    InProgressWake(m.threads);
    assert forall i :: 0 <= i < |after| ==> Holds(after[i].pc) == Holds(m.threads[i].pc);
    if m.locked {
      var i :| 0 <= i < |m.threads| && Holds(m.threads[i].pc);
      assert Holds(after[i].pc);
    }
  }

  lemma BroadcastInv(m: Machine, t: nat)
    requires Inv(m) && Enabled(m, Broadcast(t))
    ensures Inv(Do(m, Broadcast(t)))
  {
    var th := m.threads[t].(pc := Leaving(false));
    var mid := m.(threads := m.threads[t := th]);
    InProgressSet(m.threads, t, th);
    assert Holds(m.threads[t].pc);
    LockKept(m.threads, m.locked, t, th, m.locked);
    assert forall i :: 0 <= i < |mid.threads| ==> Fits(mid.threads[i], mid.f);
    WakeAllInv(mid);
  }

  /** The check in exitCb never fires. */
  lemma ExitChecked(m: Machine, t: nat)
    requires Inv(m) && t < |m.threads| && m.threads[t].pc == Has(Exit)
    ensures m.f.count > 0 && m.threads[t].depth > 0
  {
    OneOfMany(m.threads, t);
    assert Fits(m.threads[t], m.f);
  }

  lemma EnterInv(m: Machine, t: nat)
    requires Inv(m) && t < |m.threads| && m.threads[t].pc == Has(Enter)
    ensures Inv(DoBody(m, t, Enter))
  {
    var m' := DoBody(m, t, Enter);
    assert Holds(m.threads[t].pc);
    NotifiesIfSleeps(m, t, m'.threads[t]);
    forall i | 0 <= i < |m.threads| && i != t
      ensures Fits(m.threads[i], m'.f)
    {
      assert Fits(m.threads[i], m.f);
    }
    OneThreadInv(m, m', t, m'.threads[t]);
  }

  lemma ExitInv(m: Machine, t: nat)
    requires Inv(m) && t < |m.threads| && m.threads[t].pc == Has(Exit)
    ensures Inv(DoBody(m, t, Exit))
  {
    ExitChecked(m, t);
    var m' := DoBody(m, t, Exit);
    var th := m'.threads[t];
    assert Holds(m.threads[t].pc) && m.locked;
    forall i | 0 <= i < |m.threads| && i != t
      ensures Fits(m.threads[i], m'.f)
    {
      assert Fits(m.threads[i], m.f);
    }
    if SomeSleeps(m'.threads) {
      var i :| 0 <= i < |m'.threads| && m'.threads[i].pc == Asleep;
      assert Fits(m.threads[i], m.f);
    }
    OneThreadInv(m, m', t, th);
  }

  lemma StopInv(m: Machine, t: nat, call: Call)
    requires Inv(m) && t < |m.threads| && m.threads[t].pc == Has(call) && call in {Stop, StopAndWait, Recheck}
    ensures Inv(DoBody(m, t, call))
  {
    var m' := DoBody(m, t, call);
    var th := m'.threads[t];
    assert Holds(m.threads[t].pc) && m.locked;
    assert Fits(m.threads[t], m.f);
    forall i | 0 <= i < |m.threads| && i != t
      ensures Fits(m.threads[i], m'.f)
    {
      assert Fits(m.threads[i], m.f);
    }
    if m.f.count == 0 {
      NotifiesIfSleeps(m, t, th);
    }
    OneThreadInv(m, m', t, th);
  }

  lemma BodyInv(m: Machine, t: nat)
    requires Inv(m) && Enabled(m, Body(t))
    ensures Inv(Do(m, Body(t)))
  {
    match m.threads[t].pc.call {
      case Enter => EnterInv(m, t);
      case Exit => ExitInv(m, t);
      case Stop => StopInv(m, t, Stop);
      case StopAndWait => StopInv(m, t, StopAndWait);
      case Recheck => StopInv(m, t, Recheck);
    }
  }

  lemma StepInv(m: Machine, a: Action)
    requires Inv(m) && Enabled(m, a)
    ensures Inv(Do(m, a))
  {
    match a {
      case Begin(t, call) => BeginInv(m, t, call);
      case Acquire(t) => AcquireInv(m, t);
      case Body(t) => BodyInv(m, t);
      case Broadcast(t) => BroadcastInv(m, t);
      case Release(t) => ReleaseInv(m, t);
      case Wake(t) => WakeInv(m, t);
    }
  }

  // Runs

  predicate Runs(m: Machine, schedule: seq<Action>)
    decreases |schedule|
  {
    schedule == [] || (Enabled(m, schedule[0]) && Runs(Do(m, schedule[0]), schedule[1..]))
  }

  function After(m: Machine, schedule: seq<Action>): Machine
    requires Runs(m, schedule)
    decreases |schedule|
  {
    if schedule == [] then m else After(Do(m, schedule[0]), schedule[1..])
  }

  lemma {:induction false} RunInv(m: Machine, schedule: seq<Action>)
    requires Inv(m) && Runs(m, schedule)
    ensures Inv(After(m, schedule))
    decreases |schedule|
  {
    if schedule != [] {
      StepInv(m, schedule[0]);
      RunInv(Do(m, schedule[0]), schedule[1..]);
    }
  }

  /** In every interleaving the counter is the number of callbacks in progress, and the check never fires. */
  lemma CounterIsExact(m: Machine, schedule: seq<Action>)
    requires Start(m) && Runs(m, schedule)
    ensures var n := After(m, schedule);
      && n.f.count == InProgress(n.threads)
      && forall t :: 0 <= t < |n.threads| && n.threads[t].pc == Has(Exit) ==> n.f.count > 0
  {
    StartInv(m);
    RunInv(m, schedule);
    var n := After(m, schedule);
    forall t | 0 <= t < |n.threads| && n.threads[t].pc == Has(Exit)
      ensures n.f.count > 0
    {
      ExitChecked(n, t);
    }
  }

  /** In every interleaving at most one thread runs under the lock, and only while that is taken. */
  lemma OneHolder(m: Machine, schedule: seq<Action>, t: nat, u: nat)
    requires Start(m) && Runs(m, schedule) && t < |m.threads| && u < |m.threads|
    ensures var n := After(m, schedule);
      && |n.threads| == |m.threads|
      && (n.threads[t].pc.Has? || n.threads[t].pc.Notify? || n.threads[t].pc.Leaving? ==>
            n.locked && (n.threads[u].pc.Has? || n.threads[u].pc.Notify? || n.threads[u].pc.Leaving? ==> t == u))
  {
    StartInv(m);
    RunInv(m, schedule);
    SameThreads(m, schedule);
    var n := After(m, schedule);
    assert Holds(n.threads[t].pc) ==> SomeHolds(n.threads);
  }

  lemma {:induction false} SameThreads(m: Machine, schedule: seq<Action>)
    requires Runs(m, schedule)
    ensures |After(m, schedule).threads| == |m.threads|
    decreases |schedule|
  {
    if schedule != [] {
      SameThreads(Do(m, schedule[0]), schedule[1..]);
    }
  }

  /** The step is the body of an exit request. */
  predicate Forbids(m: Machine, a: Action)
    requires Enabled(m, a)
  {
    a.Body? && m.threads[a.t].pc.call in {Stop, StopAndWait}
  }

  /** Some exit request got as far as its body. */
  predicate Requested(m: Machine, schedule: seq<Action>)
    requires Runs(m, schedule)
    decreases |schedule|
  {
    schedule != [] && (Forbids(m, schedule[0]) || Requested(Do(m, schedule[0]), schedule[1..]))
  }

  /** The protector stays open until somebody asks for an exit, and is closed from then on. */
  lemma {:induction false} OpenUntilRequested(m: Machine, schedule: seq<Action>)
    requires Runs(m, schedule)
    ensures After(m, schedule).f.safe <==> m.f.safe && !Requested(m, schedule)
    decreases |schedule|
  {
    if schedule != [] {
      OpenUntilRequested(Do(m, schedule[0]), schedule[1..]);
    }
  }

  /** What the body of each call does to the caller's callbacks, whatever happened before. */
  lemma BodyCounts(m: Machine, schedule: seq<Action>, t: nat)
    requires Start(m) && Runs(m, schedule) && Enabled(After(m, schedule), Body(t))
    ensures var n := After(m, schedule);
      var call, depth := n.threads[t].pc.call, Do(n, Body(t)).threads[t].depth;
      && (call == Enter ==> depth == n.threads[t].depth + if Requested(m, schedule) then 0 else 1)
      && (call == Exit ==> depth == n.threads[t].depth - 1)
      && (call in {Stop, StopAndWait, Recheck} ==> depth == n.threads[t].depth)
      && forall u :: 0 <= u < |n.threads| && u != t ==> Do(n, Body(t)).threads[u] == n.threads[u]
  {
    OpenUntilRequested(m, schedule);
    StartInv(m);
    RunInv(m, schedule);
    var n := After(m, schedule);
    if n.threads[t].pc.call == Exit {
      ExitChecked(n, t);
    }
  }

  /** A waiting request goes to sleep exactly while a callback is in progress. */
  lemma SleepsIff(m: Machine, schedule: seq<Action>, t: nat)
    requires Start(m) && Runs(m, schedule) && Enabled(After(m, schedule), Body(t))
    requires After(m, schedule).threads[t].pc.call in {StopAndWait, Recheck}
    ensures var n := After(m, schedule);
      Do(n, Body(t)).threads[t].pc == if InProgress(n.threads) > 0 then Asleep else Leaving(true)
  {
    StartInv(m);
    RunInv(m, schedule);
  }

  /** A call that meets nobody on its way. */
  function Alone(t: nat, call: Call): seq<Action> {
    [Begin(t, call), Acquire(t), Body(t), Release(t)]
  }

  lemma OneMore(m: Machine, a: Action, rest: seq<Action>, all: seq<Action>)
    requires Enabled(m, a) && Runs(Do(m, a), rest) && all == [a] + rest
    ensures Runs(m, all) && After(m, all) == After(Do(m, a), rest)
  {
    assert all[1..] == rest;
  }

  lemma RunsFour(m: Machine, a: Action, b: Action, c: Action, d: Action)
    requires Enabled(m, a) && Enabled(Do(m, a), b) && Enabled(Do(Do(m, a), b), c)
    requires Enabled(Do(Do(Do(m, a), b), c), d)
    ensures Runs(m, [a, b, c, d]) && After(m, [a, b, c, d]) == Do(Do(Do(Do(m, a), b), c), d)
  {
    var m1 := Do(m, a);
    var m2 := Do(m1, b);
    var m3 := Do(m2, c);
    OneMore(m3, d, [], [d]);
    OneMore(m2, c, [d], [c, d]);
    OneMore(m1, b, [c, d], [b, c, d]);
    OneMore(m, a, [b, c, d], [a, b, c, d]);
  }

  lemma SetAgain<T>(s: seq<T>, t: nat, x: T, y: T)
    requires t < |s|
    ensures s[t := x][t := y] == s[t := y]
  {
  }

  lemma AloneRuns(m: Machine, t: nat, call: Call, th: Thread, f: Fields)
    requires t < |m.threads| && m.threads[t].pc == Idle && !m.locked
    requires call in {Enter, Exit, Stop} && (call == Exit ==> m.threads[t].depth > 0)
    requires var inside := SetPc(m, t, Has(call)).(locked := true);
      DoBody(inside, t, call) == inside.(threads := inside.threads[t := th], f := f)
    requires th.pc == Leaving(false)
    ensures Runs(m, Alone(t, call))
    ensures After(m, Alone(t, call)) == Machine(m.threads[t := th.(pc := Idle)], false, f)
  {
    var m1 := Do(m, Begin(t, call));
    var m2 := Do(m1, Acquire(t));
    SetAgain(m.threads, t, m.threads[t].(pc := Wants(call)), m.threads[t].(pc := Has(call)));
    assert m2 == SetPc(m, t, Has(call)).(locked := true);
    var m3 := Do(m2, Body(t));
    SetAgain(m.threads, t, m.threads[t].(pc := Has(call)), th);
    SetAgain(m.threads, t, th, th.(pc := Idle));
    RunsFour(m, Begin(t, call), Acquire(t), Body(t), Release(t));
  }

  /** With the lock free a call to enter runs through, and counts exactly while the protector is open. */
  lemma EnterAlone(m: Machine, t: nat)
    requires t < |m.threads| && m.threads[t].pc == Idle && !m.locked
    ensures Runs(m, Alone(t, Enter))
    ensures var k := if m.f.safe then 1 else 0;
      After(m, Alone(t, Enter))
      == Machine(m.threads[t := m.threads[t].(depth := m.threads[t].depth + k)], false,
                 Fields(m.f.safe, m.f.count + k))
  {
    var th := Thread(Leaving(false), m.threads[t].depth + (if m.f.safe then 1 else 0), m.threads[t].waited);
    AloneRuns(m, t, Enter, th, Fields(m.f.safe, m.f.count + if m.f.safe then 1 else 0));
  }

  /** A call to leave gives back one callback, and does not wake anybody unless it was the last one awaited. */
  lemma ExitAlone(m: Machine, t: nat)
    requires t < |m.threads| && m.threads[t].pc == Idle && !m.locked && m.threads[t].depth > 0
    requires m.f.count > 1 || (m.f.count == 1 && m.f.safe)
    ensures Runs(m, Alone(t, Exit))
    ensures After(m, Alone(t, Exit))
         == Machine(m.threads[t := m.threads[t].(depth := m.threads[t].depth - 1)], false,
                    Fields(m.f.safe, m.f.count - 1))
  {
    var th := Thread(Leaving(false), m.threads[t].depth - 1, m.threads[t].waited);
    AloneRuns(m, t, Exit, th, Fields(m.f.safe, m.f.count - 1));
  }

  /** The last callback awaited wakes everybody asleep. */
  lemma LastExit(m: Machine, t: nat)
    requires t < |m.threads| && m.threads[t].pc == Has(Exit) && m.threads[t].depth > 0
    requires m.f == Fields(false, 1)
    ensures Runs(m, [Body(t), Broadcast(t)])
    ensures var n := After(m, [Body(t), Broadcast(t)]);
      && |n.threads| == |m.threads| && n.f == Fields(false, 0)
      && n.threads[t] == Thread(Leaving(false), m.threads[t].depth - 1, m.threads[t].waited)
      && forall u :: 0 <= u < |n.threads| && u != t && m.threads[u].pc == Asleep ==> n.threads[u].pc == Wants(Recheck)
  {
    var mid := Do(m, Body(t));
    assert mid.threads[t].pc == Notify && forall u :: 0 <= u < |m.threads| && u != t ==> mid.threads[u] == m.threads[u];
    OneMore(mid, Broadcast(t), [], [Broadcast(t)]);
    OneMore(m, Body(t), [Broadcast(t)], [Body(t), Broadcast(t)]);
  }

  lemma StopAlone(m: Machine, t: nat)
    requires t < |m.threads| && m.threads[t].pc == Idle && !m.locked
    ensures Runs(m, Alone(t, Stop))
    ensures After(m, Alone(t, Stop)) == Machine(m.threads, false, Fields(false, m.f.count))
  {
    var th := Thread(Leaving(false), m.threads[t].depth, m.threads[t].waited);
    AloneRuns(m, t, Stop, th, Fields(false, m.f.count));
    assert m.threads[t := m.threads[t]] == m.threads;
  }

  predicate SomeWaited(m: Machine) {
    exists t :: 0 <= t < |m.threads| && m.threads[t].waited
  }

  lemma WaitedStays(m: Machine, a: Action)
    requires Enabled(m, a) && SomeWaited(m)
    ensures SomeWaited(Do(m, a))
  {
    var t :| 0 <= t < |m.threads| && m.threads[t].waited;
    assert Do(m, a).threads[t].waited;
  }

  lemma {:induction false} WaitedForever(m: Machine, schedule: seq<Action>)
    requires Runs(m, schedule) && SomeWaited(m)
    ensures SomeWaited(After(m, schedule))
    decreases |schedule|
  {
    if schedule != [] {
      WaitedStays(m, schedule[0]);
      WaitedForever(Do(m, schedule[0]), schedule[1..]);
    }
  }

  /**
   Once a waiting exit request has returned, no callback is in progress and none
   can ever start, whatever the threads do from then on.
   */
  lemma QuietForever(m: Machine, before: seq<Action>, after: seq<Action>)
    requires Start(m) && Runs(m, before) && SomeWaited(After(m, before)) && Runs(After(m, before), after)
    ensures var n := After(After(m, before), after);
      !n.f.safe && n.f.count == 0 && forall t :: 0 <= t < |n.threads| ==> n.threads[t].depth == 0
  {
    StartInv(m);
    RunInv(m, before);
    RunInv(After(m, before), after);
    WaitedForever(After(m, before), after);
    var n := After(After(m, before), after);
    var w :| 0 <= w < |n.threads| && n.threads[w].waited;
    assert Fits(n.threads[w], n.f);
    forall t | 0 <= t < |n.threads|
      ensures n.threads[t].depth == 0
    {
      OneOfMany(n.threads, t);
    }
  }

  /** No wake-up is lost: with no callback left, whoever sleeps has a broadcast coming. */
  lemma NoLostWakeup(m: Machine, schedule: seq<Action>, t: nat)
    requires Start(m) && Runs(m, schedule) && t < |After(m, schedule).threads|
    requires After(m, schedule).threads[t].pc == Asleep && After(m, schedule).f.count == 0
    ensures var n := After(m, schedule);
      exists u :: 0 <= u < |n.threads| && Enabled(n, Broadcast(u))
                  && Do(n, Broadcast(u)).threads[t].pc == Wants(Recheck)
  {
    StartInv(m);
    RunInv(m, schedule);
    var n := After(m, schedule);
    var u :| 0 <= u < |n.threads| && n.threads[u].pc == Notify;
    assert Enabled(n, Broadcast(u)) && Do(n, Broadcast(u)).threads[t].pc == Wants(Recheck);
  }
}
