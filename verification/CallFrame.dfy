/**
 Prolog and epilog of a generated routine (ARMAssembler.cpp), run on the machine:
 what STM saves, LDM of the same stack mode brings back.
 */
module CallFrames {
  import opened Words
  import opened ArmMachine
  import opened ARMAssemblers

  // Slots

  lemma {:induction false} CountBound(list: word, i: nat)
    requires i <= |list| && Below(list, 16)
    ensures Count(list, i) <= if i < 16 then 16 - i else 0
    decreases |list| - i
  {
    if i < |list| {
      CountBound(list, i + 1);
    }
  }

  lemma Past(x: nat, d: nat)
    requires x < P32 && 0 < d < P32
    ensures Wrap(x + d) != x && Wrap(Wrap(x + d) + 4) == Wrap(x + (d + 4))
  {
    WrapAgain(x + d, 4);
  }

  /** Storing past an address leaves it alone. */
  lemma {:induction false} StoreKeeps(list: word, i: nat, x: nat, d: nat, regs: RegFile, mem: map<nat, word>)
    requires i <= |regs| && x < P32 && 0 < d && d + 4 * Count(list, i) <= P32
    ensures Load(StoreAll(list, i, Wrap(x + d), regs, mem), x) == Load(mem, x)
    decreases |regs| - i
  {
    if i < |regs| {
      if list[i] {
        Past(x, d);
        StoreKeeps(list, i + 1, x, d + 4, regs, mem[Wrap(x + d) := regs[i]]);
      } else {
        StoreKeeps(list, i + 1, x, d, regs, mem);
      }
    }
  }

  /** Two memories agree on the slots of a block transfer. */
  predicate SameFrame(list: word, i: nat, a: nat, m: map<nat, word>, n: map<nat, word>)
    requires i <= |list|
    decreases |list| - i
  {
    i == |list| ||
    if list[i] then Load(m, a) == Load(n, a) && SameFrame(list, i + 1, Wrap(a + 4), m, n)
    else SameFrame(list, i + 1, a, m, n)
  }

  /** Loading what was stored: the listed registers come back, the others stay. */
  lemma {:induction false} LoadStored(list: word, i: nat, a: nat, regs: RegFile, mem: map<nat, word>,
      now: map<nat, word>, regs': RegFile)
    requires i <= |regs| && a < P32 && Below(list, 16)
    requires SameFrame(list, i, a, StoreAll(list, i, a, regs, mem), now)
    ensures var out := LoadAll(list, i, a, now, regs');
      forall r :: 0 <= r < 16 ==> out[r] == if r >= i && list[r] then regs[r] else regs'[r]
    decreases |regs| - i
  {
    if i < |regs| {
      if list[i] {
        CountBound(list, i + 1);
        StoreKeeps(list, i + 1, a, 4, regs, mem[a := regs[i]]);
        LoadStored(list, i + 1, Wrap(a + 4), regs, mem[a := regs[i]], now, regs'[i := regs[i]]);
      } else {
        LoadStored(list, i + 1, a, regs, mem, now, regs');
      }
    }
  }

  /** LDM with base `down` starts at `start` and moves the base to `back`. */
  predicate Reloads(m: Mode, down: nat, n: nat, start: nat, back: nat) {
    BlockStart(LdmBefore(m), LdmUp(m), down, n) == start && BlockEnd(LdmUp(m), down, n) == back
  }

  lemma Descending(m: Mode, base: nat, n: nat)
    requires base < P32 && n <= 16 && (m == ED || m == FD)
    ensures Reloads(m, BlockEnd(StmUp(m), base, n), n, BlockStart(StmBefore(m), StmUp(m), base, n), base)
  {
    WrapAgain(base - 4 * n, if m == ED then 4 else 0);
    WrapAgain(base - 4 * n, 4 * n);
  }

  lemma Ascending(m: Mode, base: nat, n: nat)
    requires base < P32 && n <= 16 && (m == EA || m == FA)
    ensures Reloads(m, BlockEnd(StmUp(m), base, n), n, BlockStart(StmBefore(m), StmUp(m), base, n), base)
  {
    WrapAgain(base + 4 * n, -4 * n);
    WrapAgain(base + 4 * n, -4 * n + 4);
  }

  /** STM leaves the base where LDM of the same mode starts from, and LDM puts it back. */
  lemma ModesMatch(m: Mode, base: nat, n: nat)
    requires base < P32 && n <= 16
    ensures var down := BlockEnd(StmUp(m), base, n);
      && BlockStart(LdmBefore(m), LdmUp(m), down, n) == BlockStart(StmBefore(m), StmUp(m), base, n)
      && BlockEnd(LdmUp(m), down, n) == base
  {
    if m == ED || m == FD {
      Descending(m, base, n);
    } else {
      Ascending(m, base, n);
    }
  }

  lemma RunBlock(load: bool, before: bool, up: bool, rn: nat, list: word, c: Cpu)
    requires rn < 16 && Below(list, 16)
    ensures var base, n := Unsigned(c.regs[rn]), Count(list, 0);
      Run([BlockWord(load, before, up, true, rn, list)], c)
      == if load then ExecLoad(before, up, true, rn, list, base, n, c)
         else ExecStore(before, up, true, rn, list, base, n, c)
  {
    DecodeBlock(load, before, up, true, rn, list);
    var w := BlockWord(load, before, up, true, rn, list);
    assert [w][1..] == [];
  }

  /** The words a store multiple writes, seen from the state before it. */
  predicate KeepsFrame(m: Mode, list: word, c: Cpu, c2: Cpu) {
    var c1 := Run([StmWord(m, SP, list)], c);
    && c2.regs[SP] == c1.regs[SP]
    && SameFrame(list, 0, BlockStart(StmBefore(m), StmUp(m), Unsigned(c.regs[SP]), Count(list, 0)), c1.mem, c2.mem)
  }

  lemma SpAfterStm(m: Mode, list: word, c: Cpu)
    requires Below(list, 16)
    ensures Unsigned(Run([StmWord(m, SP, list)], c).regs[SP])
         == BlockEnd(StmUp(m), Unsigned(c.regs[SP]), Count(list, 0))
  {
    RunBlock(false, StmBefore(m), StmUp(m), SP, list, c);
    UnsignedWord(BlockEnd(StmUp(m), Unsigned(c.regs[SP]), Count(list, 0)));
  }

  lemma RestAfterStm(m: Mode, list: word, c: Cpu)
    requires Below(list, 16)
    ensures var c1 := Run([StmWord(m, SP, list)], c);
      && c1.mem == StoreAll(list, 0, BlockStart(StmBefore(m), StmUp(m), Unsigned(c.regs[SP]), Count(list, 0)),
                            c.regs, c.mem)
      && forall r :: 0 <= r < 16 && r != SP ==> c1.regs[r] == c.regs[r]
  {
    RunBlock(false, StmBefore(m), StmUp(m), SP, list, c);
  }

  /** The register with k listed ones below it is stored 4 * k bytes up. */
  lemma {:induction false} StoredAt(list: word, i: nat, a: nat, k: nat, r: nat, regs: RegFile, mem: map<nat, word>)
    requires i <= r < 16 && list[r] && Below(list, 16) && a < P32 && k == Count(list, i) - Count(list, r)
    ensures Load(StoreAll(list, i, a, regs, mem), Wrap(a + 4 * k)) == regs[r]
    decreases |regs| - i
  {
    CountBound(list, i + 1);
    if i == r {
      StoreKeeps(list, i + 1, a, 4, regs, mem[a := regs[i]]);
    } else if list[i] {
      CountsDown(list, i + 1, r);
      StoredAt(list, i + 1, Wrap(a + 4), k - 1, r, regs, mem[a := regs[i]]);
      WrapAgain(a + 4, 4 * (k - 1));
    } else {
      StoredAt(list, i + 1, a, k, r, regs, mem);
    }
  }

  lemma {:induction false} CountsDown(list: word, i: nat, r: nat)
    requires i <= r <= |list|
    ensures Count(list, i) >= Count(list, r)
    decreases r - i
  {
    if i < r {
      CountsDown(list, i + 1, r);
    }
  }

  /**
   The first of n words on a stack: full stacks keep the base at the last word
   stored, empty ones at the next free word; descending ones grow down.
   */
  function FirstSlot(m: Mode, base: int, n: int): int {
    match m
    case ED => base - 4 * n + 4
    case FD => base - 4 * n
    case EA => base
    case FA => base + 4
  }

  lemma StartIs(m: Mode, base: nat, n: nat, k: int)
    ensures Wrap(BlockStart(StmBefore(m), StmUp(m), base, n) + k) == Wrap(FirstSlot(m, base, n) + k)
  {
    WrapAgain(FirstSlot(m, base, n), k);
  }

  lemma SlotAt(list: word, start: nat, first: int, k: nat, r: nat, c: Cpu, mem: map<nat, word>)
    requires Below(list, 16) && r < 16 && list[r] && k == Count(list, 0) - Count(list, r) && start < P32
    requires mem == StoreAll(list, 0, start, c.regs, c.mem) && Wrap(start + 4 * k) == Wrap(first + 4 * k)
    ensures Load(mem, Wrap(first + 4 * k)) == c.regs[r]
  {
    StoredAt(list, 0, start, k, r, c.regs, c.mem);
  }

  /** Where STM puts what: in each mode lower registers are at lower addresses. */
  lemma StackLayout(m: Mode, list: word, c: Cpu, c1: Cpu, base: nat, n: nat, r: nat, k: nat)
    requires Below(list, 16) && r < 16 && list[r] && n == Count(list, 0) && k == n - Count(list, r)
    requires c1 == Run([StmWord(m, SP, list)], c) && base == Unsigned(c.regs[SP])
    ensures Load(c1.mem, Wrap(FirstSlot(m, base, n) + 4 * k)) == c.regs[r]
  {
    var start := BlockStart(StmBefore(m), StmUp(m), base, n);
    RestAfterStm(m, list, c);
    StartIs(m, base, n, 4 * k);
    SlotAt(list, start, FirstSlot(m, base, n), k, r, c, c1.mem);
  }

  /** The base goes down by four bytes a register, or up. */
  lemma StackMoves(m: Mode, list: word, c: Cpu, base: nat, n: nat)
    requires Below(list, 16) && base == Unsigned(c.regs[SP]) && n == Count(list, 0)
    ensures Unsigned(Run([StmWord(m, SP, list)], c).regs[SP]) == Wrap(MovedBase(m, base, n))
  {
    SpAfterStm(m, list, c);
    EndIs(m, base, n);
  }

  function MovedBase(m: Mode, base: int, n: int): int {
    match m
    case ED => base - 4 * n
    case FD => base - 4 * n
    case EA => base + 4 * n
    case FA => base + 4 * n
  }

  lemma EndIs(m: Mode, base: nat, n: nat)
    ensures BlockEnd(StmUp(m), base, n) == Wrap(MovedBase(m, base, n))
  {
    var x := MovedBase(m, base, n);
    if StmUp(m) {
      assert x == base + 4 * n;
    } else {
      assert x == base - 4 * n;
    }
  }

  /**
   LDM undoes STM of the same mode, whatever happened in between, as long as the
   stack pointer and the saved words are as STM left them.
   */
  lemma PushPop(m: Mode, list: word, c: Cpu, c2: Cpu)
    requires Below(list, 16) && !list[SP] && KeepsFrame(m, list, c, c2)
    ensures var c3 := Run([LdmWord(m, SP, list)], c2);
      && c3.mem == c2.mem && c3.regs[SP] == c.regs[SP]
      && forall r :: 0 <= r < 16 && r != SP ==> c3.regs[r] == if list[r] then c.regs[r] else c2.regs[r]
  {
    var base, n := Unsigned(c.regs[SP]), Count(list, 0);
    UnsignedBound(c.regs[SP]);
    CountBound(list, 0);
    SpAfterStm(m, list, c);
    RestAfterStm(m, list, c);
    ModesMatch(m, base, n);
    RunBlock(true, LdmBefore(m), LdmUp(m), SP, list, c2);
    WordUnsigned(c.regs[SP]);
    LoadStored(list, 0, BlockStart(StmBefore(m), StmUp(m), base, n), c.regs, c.mem, c2.mem, c2.regs[SP := c.regs[SP]]);
  }

  // Routines

  /** What a routine body may do between the prolog for `touched` and an epilog. */
  predicate BodyKeeps(touched: word, c: Cpu, c2: Cpu) {
    var c1 := Run([PrologWord(touched)], c);
    && c2.regs[SP] == c1.regs[SP]
    && (And(touched, LSAVED()) != Zero() ==> KeepsFrame(FD, Saved(touched), c, c2))
    && forall r :: 0 <= r < 16 && LSAVED()[r] && !touched[r] ==> c2.regs[r] == c1.regs[r]
  }

  lemma RunNop(c: Cpu)
    ensures Run([Nop()], c) == c
  {
    DecodeReg(0);
    RunDp(MOV_OP, 0, 0, RegOp2(0), c);
    assert c.regs[0 := c.regs[0]] == c.regs;
  }

  lemma RunBx(c: Cpu)
    ensures Run([BxWord(LR)], c) == Cpu(c.regs[PC := c.regs[LR]], c.mem)
  {
    DecodeBx(LR);
    var w := BxWord(LR);
    assert [w][1..] == [];
  }

  lemma SavedIs(touched: word)
    ensures Below(Saved(touched), 16) && !Saved(touched)[SP] && Saved(touched)[LR]
    ensures forall r :: 0 <= r < 16 && r != LR ==> (Saved(touched)[r] <==> touched[r] && LSAVED()[r])
  {
  }

  lemma NothingSaved(touched: word, r: nat)
    requires And(touched, LSAVED()) == Zero() && r < 16 && LSAVED()[r]
    ensures !touched[r]
  {
    assert And(touched, LSAVED())[r] == Zero()[r];
  }

  lemma PushPopReturn(list: word, push: word, epilog: seq<word>, c: Cpu, c2: Cpu)
    requires push == StmWord(FD, SP, list) && epilog == [LdmWord(FD, SP, list), BxWord(LR)]
    requires Below(list, 16) && !list[SP] && list[LR] && KeepsFrame(FD, list, c, c2)
    ensures var c3 := Run(epilog, c2);
      && c3.regs[SP] == c.regs[SP] && c3.regs[PC] == c.regs[LR]
      && forall r :: 0 <= r < 16 && r != SP && r != PC ==> c3.regs[r] == if list[r] then c.regs[r] else c2.regs[r]
    ensures forall r :: 0 <= r < 16 && r != SP ==> Run([push], c).regs[r] == c.regs[r]
  {
    var pop := LdmWord(FD, SP, list);
    PushPop(FD, list, c, c2);
    RestAfterStm(FD, list, c);
    assert epilog == [pop] + [BxWord(LR)];
    RunAppend([pop], [BxWord(LR)], c2);
    RunBx(Run([pop], c2));
  }

  lemma SavingRoutine(touched: word)
    requires And(touched, LSAVED()) != Zero()
    ensures PrologWord(touched) == StmWord(FD, SP, Saved(touched))
    ensures EpilogWords(touched) == [LdmWord(FD, SP, Saved(touched)), BxWord(LR)]
    ensures Pushed(touched) == Count(Saved(touched), 0)
    ensures Below(Saved(touched), 16) && !Saved(touched)[SP]
  {
    SavedIs(touched);
  }

  /**
   A routine whose prolog was patched for the registers it touched returns to its
   caller with the stack pointer and every callee-saved register as on entry.
   */
  lemma RoutineReturns(touched: word, c: Cpu, c2: Cpu)
    requires BodyKeeps(touched, c, c2)
    ensures var c3 := Run(EpilogWords(touched), c2);
      && c3.regs[SP] == c.regs[SP] && c3.regs[PC] == c.regs[LR]
      && forall r :: 0 <= r < 16 && LSAVED()[r] ==> c3.regs[r] == c.regs[r]
  {
    if And(touched, LSAVED()) != Zero() {
      SavedIs(touched);
      SavingRoutine(touched);
      PushPopReturn(Saved(touched), PrologWord(touched), EpilogWords(touched), c, c2);
    } else {
      forall r | 0 <= r < 16 && LSAVED()[r]
        ensures !touched[r]
      {
        NothingSaved(touched, r);
      }
      RunNop(c);
      RunBx(c2);
    }
  }

  // A routine with two epilogs

  /** Words the prolog for `touched` pushes. */
  function Pushed(touched: word): nat {
    if And(touched, LSAVED()) != Zero() then Count(Saved(touched), 0) else 0
  }

  lemma {:induction false} CountSubset(a: word, b: word, i: nat)
    requires i <= |a| && Subset(a, b)
    ensures Count(a, i) <= Count(b, i)
    ensures Count(a, i) == Count(b, i) ==> forall r :: i <= r < |a| ==> a[r] == b[r]
    decreases |a| - i
  {
    if i < |a| {
      CountSubset(a, b, i + 1);
    }
  }

  lemma {:induction false} LoadAllKeeps(list: word, i: nat, a: nat, mem: map<nat, word>, regs: RegFile, r: nat)
    requires i <= |regs| && r < |regs| && !list[r]
    ensures LoadAll(list, i, a, mem, regs)[r] == regs[r]
    decreases |regs| - i
  {
    if i < |regs| {
      if list[i] {
        LoadAllKeeps(list, i + 1, Wrap(a + 4), mem, regs[i := Load(mem, a)], r);
      } else {
        LoadAllKeeps(list, i + 1, a, mem, regs, r);
      }
    }
  }

  /** Two masks for which prolog and epilog are the same words. */
  predicate SameSaves(a: word, b: word) {
    && (And(a, LSAVED()) == Zero() <==> And(b, LSAVED()) == Zero())
    && (And(a, LSAVED()) != Zero() ==> Saved(a) == Saved(b))
  }

  lemma SavedGrows(mine: word, last: word)
    requires Subset(mine, last)
    ensures Subset(Saved(mine), Saved(last))
    ensures And(last, LSAVED()) == Zero() ==> And(mine, LSAVED()) == Zero()
  {
    if And(last, LSAVED()) == Zero() {
      forall i | 0 <= i < 32
        ensures !And(mine, LSAVED())[i]
      {
        assert And(last, LSAVED())[i] == Zero()[i];
      }
    }
  }

  lemma SavedSame(mine: word, last: word)
    requires forall r :: 0 <= r < 16 ==> Saved(mine)[r] == Saved(last)[r]
    ensures Saved(mine) == Saved(last)
  {
    SavedIs(mine);
    SavedIs(last);
  }

  lemma PushedIff(last: word, mine: word)
    requires Subset(mine, last)
    ensures Pushed(mine) <= Pushed(last) <= 16
    ensures Pushed(mine) == Pushed(last) <==> SameSaves(mine, last)
  {
    SavedGrows(mine, last);
    CountSubset(Saved(mine), Saved(last), 0);
    CountBound(Saved(last), 0);
    SavedCount(mine);
    SavedCount(last);
    if Pushed(mine) == Pushed(last) && Pushed(last) > 0 {
      SavedSame(mine, last);
    }
  }

  /** Something is always pushed with a non-empty mask: lr at least. */
  lemma SavedCount(touched: word)
    ensures Pushed(touched) > 0 <==> And(touched, LSAVED()) != Zero()
  {
    SavedIs(touched);
    if Count(Saved(touched), 0) == 0 {
      CountZero(Saved(touched), 0, LR);
    }
  }

  lemma {:induction false} CountZero(list: word, i: nat, r: nat)
    requires i <= r < |list| && Count(list, i) == 0
    ensures !list[r]
    decreases |list| - i
  {
    if i < r {
      CountZero(list, i + 1, r);
    }
  }

  // Prolog and epilog as steps of the machine

  function AfterProlog(touched: word, c: Cpu): Cpu {
    if And(touched, LSAVED()) != Zero()
    then ExecStore(true, false, true, SP, Saved(touched), Unsigned(c.regs[SP]), Count(Saved(touched), 0), c)
    else c
  }

  function Leave(c: Cpu): Cpu {
    Cpu(c.regs[PC := c.regs[LR]], c.mem)
  }

  function AfterEpilog(touched: word, c: Cpu): Cpu {
    if And(touched, LSAVED()) != Zero()
    then Leave(ExecLoad(false, true, true, SP, Saved(touched), Unsigned(c.regs[SP]), Count(Saved(touched), 0), c))
    else Leave(c)
  }

  lemma PrologRuns(touched: word, c: Cpu)
    ensures Run([PrologWord(touched)], c) == AfterProlog(touched, c)
  {
    if And(touched, LSAVED()) != Zero() {
      SavingRoutine(touched);
      RunBlock(false, true, false, SP, Saved(touched), c);
    } else {
      RunNop(c);
    }
  }

  lemma RunPair(list: word, epilog: seq<word>, c: Cpu)
    requires Below(list, 16) && epilog == [LdmWord(FD, SP, list), BxWord(LR)]
    ensures Run(epilog, c) == Leave(ExecLoad(false, true, true, SP, list, Unsigned(c.regs[SP]), Count(list, 0), c))
  {
    var pop := LdmWord(FD, SP, list);
    RunBlock(true, false, true, SP, list, c);
    assert epilog == [pop] + [BxWord(LR)];
    RunAppend([pop], [BxWord(LR)], c);
    RunBx(Run([pop], c));
  }

  lemma EpilogRuns(touched: word, c: Cpu)
    ensures Run(EpilogWords(touched), c) == AfterEpilog(touched, c)
  {
    if And(touched, LSAVED()) != Zero() {
      SavingRoutine(touched);
      RunPair(Saved(touched), EpilogWords(touched), c);
    } else {
      RunBx(c);
    }
  }

  lemma SpDown(touched: word, c: Cpu)
    ensures Unsigned(AfterProlog(touched, c).regs[SP]) == Wrap(Unsigned(c.regs[SP]) - 4 * Pushed(touched))
  {
    UnsignedBound(c.regs[SP]);
    UnsignedWord(Wrap(Unsigned(c.regs[SP]) - 4 * Pushed(touched)));
  }

  lemma SpUp(touched: word, c: Cpu)
    ensures Unsigned(AfterEpilog(touched, c).regs[SP]) == Wrap(Unsigned(c.regs[SP]) + 4 * Pushed(touched))
  {
    UnsignedBound(c.regs[SP]);
    UnsignedWord(Wrap(Unsigned(c.regs[SP]) + 4 * Pushed(touched)));
    if And(touched, LSAVED()) != Zero() {
      SavedIs(touched);
      var list, base := Saved(touched), Unsigned(c.regs[SP]);
      var n := Count(list, 0);
      LoadAllKeeps(list, 0, BlockStart(false, true, base, n), c.mem, WriteBack(true, true, SP, base, n, c.regs), SP);
    }
  }

  /** Down by 4k, up by 4j: back where it started exactly when k == j. */
  lemma DownAndUp(base: nat, down: nat, up: nat, k: nat, j: nat)
    requires base < P32 && j <= k <= 16
    requires down == Wrap(base - 4 * k) && up == Wrap(down + 4 * j)
    ensures up == base <==> k == j
  {
    WrapAgain(base - 4 * k, 4 * j);
  }

  lemma SameWordIff(v: word, w: word)
    ensures v == w <==> Unsigned(v) == Unsigned(w)
  {
    WordUnsigned(v);
    WordUnsigned(w);
  }

  lemma SpRestoredIff(entry: word, pushed: word, left: word, k: nat, j: nat)
    requires j <= k <= 16
    requires Unsigned(pushed) == Wrap(Unsigned(entry) - 4 * k)
    requires Unsigned(left) == Wrap(Unsigned(pushed) + 4 * j)
    ensures left == entry <==> k == j
  {
    UnsignedBound(entry);
    DownAndUp(Unsigned(entry), Unsigned(pushed), Unsigned(left), k, j);
    SameWordIff(left, entry);
  }

  lemma SpIffSameSaves(last: word, mine: word, entry: word, pushed: word, left: word)
    requires Subset(mine, last)
    requires Unsigned(pushed) == Wrap(Unsigned(entry) - 4 * Pushed(last))
    requires Unsigned(left) == Wrap(Unsigned(pushed) + 4 * Pushed(mine))
    ensures left == entry <==> SameSaves(mine, last)
  {
    PushedIff(last, mine);
    SpRestoredIff(entry, pushed, left, Pushed(last), Pushed(mine));
  }

  /**
   The prolog is patched by the last epilog emitted.  An earlier epilog, whose
   mask can only be smaller, restores the stack pointer exactly when it saves the
   same registers.
   */
  lemma EarlierEpilogIff(last: word, mine: word, c: Cpu, c2: Cpu)
    requires Subset(mine, last) && c2.regs[SP] == Run([PrologWord(last)], c).regs[SP]
    ensures Run(EpilogWords(mine), c2).regs[SP] == c.regs[SP] <==> SameSaves(mine, last)
  {
    PrologRuns(last, c);
    EpilogRuns(mine, c2);
    EarlierEpilog(last, mine, c, c2);
  }

  lemma EarlierEpilog(last: word, mine: word, c: Cpu, c2: Cpu)
    requires Subset(mine, last) && c2.regs[SP] == AfterProlog(last, c).regs[SP]
    ensures AfterEpilog(mine, c2).regs[SP] == c.regs[SP] <==> SameSaves(mine, last)
  {
    SpDown(last, c);
    SpUp(mine, c2);
    SpIffSameSaves(last, mine, c.regs[SP], c2.regs[SP], AfterEpilog(mine, c2).regs[SP]);
  }
}
