/**
 RegisterAllocator::RegisterFile (GGLAssembler.cpp): bit masks of the registers in
 use and of the registers ever used since reset.
 */
module RegisterFiles {
  import opened Words
  import opened ArmMachine
  import opened Sequences

  /** The order obtain looks for a free register in. */
  function Priority(): seq<nat> {
    [0, 1, 2, 3, 12, 14, 4, 5, 6, 7, 8, 9, 10, 11]
  }

  /** The first n of the priority list are all in use. */
  predicate Busy(used: word, n: nat)
    requires n <= |Priority()|
  {
    forall j :: 0 <= j < n ==> used[Priority()[j]]
  }

  /** None from the n-th of the priority list on is in use. */
  predicate FreeFrom(used: word, n: nat) {
    forall j :: n <= j < |Priority()| ==> !used[Priority()[j]]
  }

  // Runs of the allocator

  /** The registers in use, and those touched. */
  datatype Alloc = Alloc(regs: word, touched: word)

  /** obtain; recycle; and reserving again what was spilled before. */
  datatype Op = Take | Give(reg: nat) | Retake(mask: word)

  /** The place of the first free register among the first n of the list, n if there is none. */
  function FirstFree(used: word, n: nat): (k: nat)
    requires n <= |Priority()|
    ensures k <= n && Busy(used, k) && (k < n ==> !used[Priority()[k]])
  {
    if n == 0 then 0
    else
      var k := FirstFree(used, n - 1);
      if k == n - 1 && used[Priority()[n - 1]] then n else k
  }

  function Apply(a: Alloc, op: Op): Alloc {
    match op
    case Take =>
      var k := FirstFree(a.regs, |Priority()|);
      if k == |Priority()| then a
      else Alloc(Or(a.regs, Bit(Priority()[k])), Or(a.touched, Bit(Priority()[k])))
    case Give(reg) => Alloc(And(a.regs, Not(Bit(reg))), a.touched)
    case Retake(mask) => Alloc(Or(a.regs, mask), Or(a.touched, mask))
  }

  function After(a: Alloc, script: seq<Op>): Alloc
    decreases |script|
  {
    if script == [] then a else After(Apply(a, script[0]), script[1..])
  }

  /** Registers recycled exist, and those reserved again were handed out before. */
  predicate Sound(a: Alloc, script: seq<Op>)
    decreases |script|
  {
    script == [] || (Sane(a, script[0]) && Sound(Apply(a, script[0]), script[1..]))
  }

  predicate Sane(a: Alloc, op: Op) {
    match op
    case Take => true
    case Give(reg) => reg < 16
    case Retake(mask) => Subset(mask, a.touched)
  }

  /** How many of the first n registers of the list are in use. */
  function Held(used: word, n: nat): (h: nat)
    requires n <= |Priority()|
    ensures h <= n
  {
    if n == 0 then 0 else Held(used, n - 1) + if used[Priority()[n - 1]] then 1 else 0
  }

  /** The most registers of the list in use at once. */
  function Peak(a: Alloc, script: seq<Op>): nat
    decreases |script|
  {
    Max(Held(a.regs, |Priority()|), if script == [] then 0 else Peak(Apply(a, script[0]), script[1..]))
  }

  /** Some obtain finds no register. */
  predicate Starves(a: Alloc, script: seq<Op>)
    decreases |script|
  {
    script != [] && ((script[0] == Take && Busy(a.regs, |Priority()|)) || Starves(Apply(a, script[0]), script[1..]))
  }

  /** Of the list exactly the first n are touched. */
  predicate FirstTouched(touched: word, n: nat) {
    n <= |Priority()| && forall j :: 0 <= j < |Priority()| ==> (touched[Priority()[j]] <==> j < n)
  }

  predicate Ordered(a: Alloc, n: nat) {
    Subset(a.regs, a.touched) && FirstTouched(a.touched, n)
  }

  lemma {:induction false} HeldAll(used: word, n: nat)
    requires n <= |Priority()|
    ensures Held(used, n) == n <==> Busy(used, n)
  {
    if n > 0 {
      HeldAll(used, n - 1);
    }
  }

  lemma {:induction false} HeldNone(used: word, n: nat, m: nat)
    requires n <= m <= |Priority()| && FreeFrom(used, n)
    ensures Held(used, m) == Held(used, n)
    decreases m
  {
    if n < m {
      HeldNone(used, n, m - 1);
    }
  }

  lemma ListDistinct(j: nat, k: nat)
    requires j < |Priority()| && k < |Priority()| && j != k
    ensures Priority()[j] != Priority()[k]
  {
  }

  lemma {:induction false} HeldOneMore(used: word, k: nat, n: nat)
    requires n <= |Priority()| && k < |Priority()| && !used[Priority()[k]]
    ensures Held(Or(used, Bit(Priority()[k])), n) == Held(used, n) + if k < n then 1 else 0
  {
    if n > 0 {
      HeldOneMore(used, k, n - 1);
      if k != n - 1 {
        ListDistinct(k, n - 1);
      }
    }
  }

  /** No more registers are in use than were touched. */
  lemma HeldTouched(a: Alloc, n: nat)
    requires Ordered(a, n)
    ensures Held(a.regs, |Priority()|) <= n
  {
    HeldNone(a.regs, n, |Priority()|);
  }

  /** Whatever the step, what is touched of the list is as much as was ever held at once. */
  lemma StepOrdered(a: Alloc, op: Op, n: nat)
    requires Ordered(a, n) && Sane(a, op)
    ensures Ordered(Apply(a, op), Max(n, Held(Apply(a, op).regs, |Priority()|)))
    ensures Held(Apply(a, op).regs, |Priority()|) <= n ==> Apply(a, op).touched == a.touched
  {
    var b := Apply(a, op);
    if op == Take {
      TakeOrdered(a, b, FirstFree(a.regs, |Priority()|), n);
    } else {
      assert b.touched == a.touched;
      HeldTouched(b, n);
    }
  }

  lemma TakeOrdered(a: Alloc, b: Alloc, k: nat, n: nat)
    requires Ordered(a, n) && k <= |Priority()| && Busy(a.regs, k)
    requires if k == |Priority()| then b == a
             else !a.regs[Priority()[k]]
                  && b == Alloc(Or(a.regs, Bit(Priority()[k])), Or(a.touched, Bit(Priority()[k])))
    ensures Ordered(b, Max(n, Held(b.regs, |Priority()|)))
    ensures Held(b.regs, |Priority()|) <= n ==> b.touched == a.touched
  {
    HeldTouched(a, n);
    if k < n {
      if k < |Priority()| {
        assert b.touched == a.touched;
      }
      HeldTouched(b, n);
    } else if k < |Priority()| {
      TakeFirst(a, b, k, n);
    }
  }

  /** The first register never held before. */
  lemma TakeFirst(a: Alloc, b: Alloc, k: nat, n: nat)
    requires Ordered(a, n) && n <= k < |Priority()| && Busy(a.regs, k)
    requires !a.regs[Priority()[k]]
    requires b == Alloc(Or(a.regs, Bit(Priority()[k])), Or(a.touched, Bit(Priority()[k])))
    ensures Ordered(b, n + 1) && Held(b.regs, |Priority()|) == n + 1
  {
    assert !a.regs[Priority()[n]];
    HeldOneMore(a.regs, k, |Priority()|);
    HeldAll(a.regs, n);
    HeldNone(a.regs, n, |Priority()|);
    forall j | 0 <= j < |Priority()|
      ensures b.touched[Priority()[j]] <==> j < n + 1
    {
      if j != k {
        ListDistinct(j, k);
      }
    }
  }

  /**
   Because every register comes from the front of the list, a run touches as many
   of the list as it ever held at once, and always the first ones.
   */
  lemma {:induction false} TouchedIsPeak(a: Alloc, script: seq<Op>, n: nat)
    requires Ordered(a, n) && Sound(a, script)
    ensures Ordered(After(a, script), Max(n, Peak(a, script)))
    decreases |script|
  {
    HeldTouched(a, n);
    if script != [] {
      StepOrdered(a, script[0], n);
      var b := Apply(a, script[0]);
      TouchedIsPeak(b, script[1..], Max(n, Held(b.regs, |Priority()|)));
      PeakCovers(b, script[1..]);
    }
  }

  lemma PeakCovers(a: Alloc, script: seq<Op>)
    ensures Held(a.regs, |Priority()|) <= Peak(a, script)
  {
  }

  lemma {:induction false} TouchedStays(a: Alloc, script: seq<Op>, n: nat)
    requires Ordered(a, n) && Sound(a, script) && Peak(a, script) <= n
    ensures After(a, script).touched == a.touched
    decreases |script|
  {
    if script != [] {
      var b := Apply(a, script[0]);
      PeakCovers(b, script[1..]);
      StepOrdered(a, script[0], n);
      TouchedStays(b, script[1..], n);
    }
  }

  lemma MoreTouched(touched: word, n: nat, m: nat)
    requires n < m && FirstTouched(touched, n)
    ensures !FirstTouched(touched, m)
  {
    assert m <= |Priority()| ==> !touched[Priority()[n]];
  }

  /** A further run touches nothing new exactly when it never holds more registers at once than were touched. */
  lemma TouchedStaysIff(a: Alloc, script: seq<Op>, n: nat)
    requires Ordered(a, n) && Sound(a, script)
    ensures After(a, script).touched == a.touched <==> Peak(a, script) <= n
  {
    TouchedIsPeak(a, script, n);
    if Peak(a, script) <= n {
      TouchedStays(a, script, n);
    } else {
      MoreTouched(a.touched, n, Peak(a, script));
    }
  }

  // Scratch scopes

  /** What obtain returns: with none left, SP. */
  function Granted(a: Alloc): nat {
    var k := FirstFree(a.regs, |Priority()|);
    if k < |Priority()| then Priority()[k] else SP
  }

  /** The scratch registers of the calling convention come first, r14 before the others, r13 when nothing is left. */
  lemma GrantOrder(a: Alloc)
    ensures Granted(a)
         == if !a.regs[0] then 0 else if !a.regs[1] then 1 else if !a.regs[2] then 2 else if !a.regs[3] then 3
            else if !a.regs[12] then 12 else if !a.regs[14] then 14 else if !a.regs[4] then 4
            else if !a.regs[5] then 5 else if !a.regs[6] then 6 else if !a.regs[7] then 7 else if !a.regs[8] then 8
            else if !a.regs[9] then 9 else if !a.regs[10] then 10 else if !a.regs[11] then 11 else 13
  {
    var p, k := Priority(), FirstFree(a.regs, |Priority()|);
    assert p[0] == 0 && p[1] == 1 && p[2] == 2 && p[3] == 3 && p[4] == 12 && p[5] == 14 && p[6] == 4;
    assert p[7] == 5 && p[8] == 6 && p[9] == 7 && p[10] == 8 && p[11] == 9 && p[12] == 10 && p[13] == 11;
    assert forall j :: 0 <= j < k ==> a.regs[p[j]];
  }

  /** k registers obtained, and recycled at the end of the scope. */
  function Scope(a: Alloc, k: nat): seq<Op>
    decreases k
  {
    if k == 0 then [] else [Take] + Scope(Apply(a, Take), k - 1) + [Give(Granted(a))]
  }

  /** One scope after the other. */
  function Scopes(a: Alloc, sizes: seq<nat>): seq<Op>
    decreases |sizes|
  {
    if sizes == [] then []
    else Scope(a, sizes[0]) + Scopes(After(a, Scope(a, sizes[0])), sizes[1..])
  }

  lemma {:induction false} AfterBoth(a: Alloc, s: seq<Op>, t: seq<Op>)
    ensures After(a, s + t) == After(After(a, s), t)
    ensures Sound(a, s) && Sound(After(a, s), t) ==> Sound(a, s + t)
    ensures Peak(a, s + t) == Max(Peak(a, s), Peak(After(a, s), t))
    ensures Starves(a, s + t) == (Starves(a, s) || Starves(After(a, s), t))
    decreases |s|
  {
    if s == [] {
      assert s + t == t;
      PeakCovers(a, t);
    } else {
      assert (s + t)[1..] == s[1..] + t;
      AfterBoth(Apply(a, s[0]), s[1..], t);
    }
  }

  lemma TakeAndGive(a: Alloc, b: Alloc, c: Alloc)
    requires Held(a.regs, |Priority()|) < |Priority()|
    requires b == Apply(a, Take) && c.regs == b.regs
    ensures Held(b.regs, |Priority()|) == Held(a.regs, |Priority()|) + 1
    ensures Granted(a) < 16 && Apply(c, Give(Granted(a))) == Alloc(a.regs, c.touched)
  {
    var k := FirstFree(a.regs, |Priority()|);
    HeldAll(a.regs, |Priority()|);
    HeldOneMore(a.regs, k, |Priority()|);
    assert And(Or(a.regs, Bit(Priority()[k])), Not(Bit(Priority()[k]))) == a.regs;
  }

  lemma OneStep(a: Alloc, op: Op)
    requires Sane(a, op)
    ensures After(a, [op]) == Apply(a, op) && Sound(a, [op])
    ensures Peak(a, [op]) == Max(Held(a.regs, |Priority()|), Held(Apply(a, op).regs, |Priority()|))
    ensures Starves(a, [op]) == (op == Take && Busy(a.regs, |Priority()|))
  {
    assert [op][1..] == [];
  }

  /** k registers more are held, and touched as far as they go beyond what was ever held. */
  ghost predicate Took(a: Alloc, b: Alloc, k: nat) {
    && Held(b.regs, |Priority()|) == Held(a.regs, |Priority()|) + k
    && forall n {:trigger Ordered(a, n)} :: Ordered(a, n) ==> Ordered(b, Max(n, Held(b.regs, |Priority()|)))
  }

  lemma TakeTook(a: Alloc)
    ensures Busy(a.regs, |Priority()|) <==> Held(a.regs, |Priority()|) == |Priority()|
    ensures !Busy(a.regs, |Priority()|) ==> Took(a, Apply(a, Take), 1)
  {
    HeldAll(a.regs, |Priority()|);
    if !Busy(a.regs, |Priority()|) {
      TakeAndGive(a, Apply(a, Take), Apply(a, Take));
      forall n | Ordered(a, n)
        ensures Ordered(Apply(a, Take), Max(n, Held(Apply(a, Take).regs, |Priority()|)))
      {
        StepOrdered(a, Take, n);
      }
    }
  }

  lemma TookTook(a: Alloc, b: Alloc, c: Alloc, j: nat, k: nat)
    requires Took(a, b, j) && Took(b, c, k)
    ensures Took(a, c, j + k)
  {
    forall n | Ordered(a, n)
      ensures Ordered(c, Max(n, Held(c.regs, |Priority()|)))
    {
      assert Ordered(b, Max(n, Held(b.regs, |Priority()|)));
    }
  }

  /** A scope leaves the registers in use as they were, and holds k more in between. */
  lemma {:induction false} ScopePeak(a: Alloc, k: nat)
    requires Held(a.regs, |Priority()|) + k <= |Priority()|
    ensures Sound(a, Scope(a, k)) && After(a, Scope(a, k)).regs == a.regs
    ensures Peak(a, Scope(a, k)) == Held(a.regs, |Priority()|) + k
    decreases k
  {
    if k > 0 {
      var b := Apply(a, Take);
      var inner := Scope(b, k - 1);
      TakeAndGive(a, b, Alloc(b.regs, a.touched));
      ScopePeak(b, k - 1);
      var c := After(b, inner);
      TakeAndGive(a, b, c);
      OneStep(a, Take);
      AfterBoth(a, [Take], inner);
      OneStep(c, Give(Granted(a)));
      AfterBoth(a, [Take] + inner, [Give(Granted(a))]);
    }
  }

  /** Scopes of at most k registers hold at most k more. */
  lemma {:induction false} ScopesPeak(a: Alloc, sizes: seq<nat>, k: nat)
    requires Held(a.regs, |Priority()|) + k <= |Priority()| && forall i :: 0 <= i < |sizes| ==> sizes[i] <= k
    ensures Sound(a, Scopes(a, sizes)) && Peak(a, Scopes(a, sizes)) <= Held(a.regs, |Priority()|) + k
    decreases |sizes|
  {
    if sizes != [] {
      var first := Scope(a, sizes[0]);
      ScopePeak(a, sizes[0]);
      ScopesPeak(After(a, first), sizes[1..], k);
      AfterBoth(a, first, Scopes(After(a, first), sizes[1..]));
    }
  }

  lemma FirstFreeIs(used: word, n: nat, k: nat)
    requires k <= n <= |Priority()| && Busy(used, k) && (k < n ==> !used[Priority()[k]])
    ensures FirstFree(used, n) == k
  {
  }

  class RegisterFile {
    var regs: word
    var touched: word
    var outOfRegisters: bool
    /** Every register handed out since the last reset. */
    ghost var handed: set<nat>

    /** The touched mask is exactly what was handed out, and covers what is in use. */
    ghost predicate Valid()
      reads this
    {
      && Below(regs, 16) && Below(touched, 16)
      && (forall r :: 0 <= r < 32 && regs[r] ==> touched[r])
      && (forall r: nat :: r in handed <==> r < 32 && touched[r])
    }

    function State(): Alloc
      reads `regs, `touched
    {
      Alloc(regs, touched)
    }

    constructor ()
      ensures Valid() && handed == {SP, PC} && regs == touched && !outOfRegisters
    {
      regs, touched, outOfRegisters, handed := Zero(), Zero(), false, {};
      new;
      Reserve(SP);
      Reserve(PC);
    }

    method Reset()
      modifies this
      ensures Valid() && handed == {SP, PC} && regs == touched && !outOfRegisters
    {
      regs, touched, outOfRegisters, handed := Zero(), Zero(), false, {};
      Reserve(SP);
      Reserve(PC);
    }

    predicate IsUsed(reg: nat)
      requires reg < 16
      reads `regs
    {
      regs[reg]
    }

    /** reserve: a register in use is a fatal error. */
    method Reserve(reg: nat)
      requires Valid() && reg < 16 && !IsUsed(reg)
      modifies `regs, `touched, `handed
      ensures Valid() && handed == old(handed) + {reg}
      ensures regs == Or(old(regs), Bit(reg)) && touched == Or(old(touched), Bit(reg))
    {
      regs := Or(regs, Bit(reg));
      handed := handed + {reg};
      assert Or(touched, regs) == Or(touched, Bit(reg));
      touched := Or(touched, regs);
    }

    method ReserveSeveral(regMask: word)
      requires Valid() && Below(regMask, 16)
      modifies `regs, `touched, `handed
      ensures Valid() && handed == old(handed) + (set r | 0 <= r < 16 && regMask[r])
      ensures State() == Apply(old(State()), Retake(regMask))
    {
      regs := Or(regs, regMask);
      touched := Or(touched, regMask);
      handed := handed + (set r | 0 <= r < 16 && regMask[r]);
    }

    /**
     obtain: the first free register of the priority list.  With none left the
     status says so, and SP stands for a register that is never used.
     */
    method Obtain() returns (r: nat)
      requires Valid()
      modifies this
      ensures Valid() && old(handed) <= handed && State() == Apply(old(State()), Take)
      ensures outOfRegisters == (old(outOfRegisters) || Busy(old(regs), |Priority()|))
      ensures Busy(old(regs), |Priority()|) ==> r == SP && regs == old(regs) && handed == old(handed)
      ensures !Busy(old(regs), |Priority()|) ==>
                && (exists k :: 0 <= k < |Priority()| && Priority()[k] == r && Busy(old(regs), k))
                && r < 16 && r != SP && !old(regs)[r]
                && regs == Or(old(regs), Bit(r)) && handed == old(handed) + {r}
    {
      var list := Priority();
      var i := 0;
      while i < |list|
        invariant 0 <= i <= |list|
        invariant Busy(regs, i)
      {
        if !IsUsed(list[i]) {
          break;
        }
        i := i + 1;
      }
      FirstFreeIs(regs, |Priority()|, i);
      if i >= |list| {
        outOfRegisters := true;
        return SP;
      }
      r := list[i];
      Reserve(r);
    }

    /** recycle: the register is free again, but stays touched. */
    method Recycle(reg: nat)
      requires Valid() && reg < 16
      modifies `regs
      ensures Valid() && State() == Apply(old(State()), Give(reg))
    {
      regs := And(regs, Not(Bit(reg)));
    }
  }

  /** A run of the allocator. */
  method Allocate(file: RegisterFile, script: seq<Op>)
    requires file.Valid() && Sound(file.State(), script)
    modifies file
    ensures file.Valid() && file.State() == After(old(file.State()), script) && old(file.handed) <= file.handed
    ensures file.outOfRegisters == (old(file.outOfRegisters) || Starves(old(file.State()), script))
    decreases |script|
  {
    if script != [] {
      match script[0] {
        case Take =>
          var _ := file.Obtain();
        case Give(reg) =>
          file.Recycle(reg);
        case Retake(mask) =>
          file.ReserveSeveral(mask);
      }
      Allocate(file, script[1..]);
    }
  }
}
