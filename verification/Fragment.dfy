/**
 One fragment end to end (GGLAssembler.cpp, scanline_core, with load and store of
 load_store.cpp): the generated routine reads a 32-bit framebuffer pixel, runs the
 logic-op and masking stages, writes the result back, and returns.
 */
module Fragments {
  import opened Words
  import opened ArmMachine
  import opened ARMAssemblers
  import opened CallFrames
  import opened Epilogs
  import opened GGLAssemblers
  import opened PixelStages
  import opened RegisterFiles
  import opened Scanlines
  import opened Sequences

  // Memory beside the stack frame

  /** Address x is one of the words a block transfer touches. */
  predicate IsSlot(list: word, i: nat, a: nat, x: nat)
    requires i <= |list|
    decreases |list| - i
  {
    i < |list| && if list[i] then x == a || IsSlot(list, i + 1, Wrap(a + 4), x) else IsSlot(list, i + 1, a, x)
  }

  lemma {:induction false} StoreSkips(list: word, i: nat, a: nat, x: nat, regs: RegFile, mem: map<nat, word>)
    requires i <= |regs| && !IsSlot(list, i, a, x)
    ensures Load(StoreAll(list, i, a, regs, mem), x) == Load(mem, x)
    decreases |regs| - i
  {
    if i < |regs| {
      if list[i] {
        StoreSkips(list, i + 1, Wrap(a + 4), x, regs, mem[a := regs[i]]);
      } else {
        StoreSkips(list, i + 1, a, x, regs, mem);
      }
    }
  }

  /** Memories that agree on the slots agree on the frame. */
  lemma {:induction false} SlotsSame(list: word, i: nat, a: nat, m: map<nat, word>, n: map<nat, word>)
    requires i <= |list|
    requires forall x {:trigger IsSlot(list, i, a, x)} :: IsSlot(list, i, a, x) ==> Load(m, x) == Load(n, x)
    ensures SameFrame(list, i, a, m, n)
    decreases |list| - i
  {
    if i < |list| {
      var b := if list[i] then Wrap(a + 4) else a;
      assert list[i] ==> IsSlot(list, i, a, a);
      forall x | IsSlot(list, i + 1, b, x)
        ensures Load(m, x) == Load(n, x)
      {
        assert IsSlot(list, i, a, x);
      }
      SlotsSame(list, i + 1, b, m, n);
    }
  }

  /** The first address the prolog for `touched` stores to. */
  function FrameStart(touched: word, c: Cpu): nat {
    BlockStart(StmBefore(FD), StmUp(FD), Unsigned(c.regs[SP]), Count(Saved(touched), 0))
  }

  /** Address x belongs to the frame the prolog makes. */
  predicate InFrame(touched: word, c: Cpu, x: nat) {
    And(touched, LSAVED()) != Zero() && IsSlot(Saved(touched), 0, FrameStart(touched, c), x)
  }

  /** x is the k-th word from a on. */
  predicate IsWord(a: nat, k: nat, x: nat) {
    x == Wrap(a + 4 * k)
  }

  lemma {:induction false} SlotIsWord(list: word, i: nat, a: nat, x: nat) returns (k: nat)
    requires i <= |list| && a < P32 && IsSlot(list, i, a, x)
    ensures k < Count(list, i) && IsWord(a, k, x)
    decreases |list| - i
  {
    k := 0;
    if list[i] {
      if x != a {
        var j := SlotIsWord(list, i + 1, Wrap(a + 4), x);
        WrapAgain(a + 4, 4 * j);
        k := j + 1;
      }
    } else {
      k := SlotIsWord(list, i + 1, a, x);
    }
  }

  lemma {:induction false} WordIsSlot(list: word, i: nat, a: nat, x: nat, k: nat)
    requires i <= |list| && a < P32 && k < Count(list, i) && IsWord(a, k, x)
    ensures IsSlot(list, i, a, x)
    decreases |list| - i
  {
    if list[i] {
      if k > 0 {
        WrapAgain(a + 4, 4 * (k - 1));
        WordIsSlot(list, i + 1, Wrap(a + 4), x, k - 1);
      }
    } else {
      WordIsSlot(list, i + 1, a, x, k);
    }
  }

  /** The frame is as many words as registers are saved, up to the stack pointer on entry; without any there is none. */
  lemma InFrameIff(touched: word, c: Cpu, x: nat, n: nat, a: nat)
    requires n == Count(Saved(touched), 0) && a == Wrap(Unsigned(c.regs[SP]) - 4 * n)
    ensures InFrame(touched, c, x)
       <==> (exists r :: 0 <= r < 32 && touched[r] && LSAVED()[r]) && exists k: nat :: k < n && IsWord(a, k, x)
  {
    if IsSlot(Saved(touched), 0, a, x) {
      var k := SlotIsWord(Saved(touched), 0, a, x);
    }
    if k: nat :| k < n && IsWord(a, k, x) {
      WordIsSlot(Saved(touched), 0, a, x, k);
    }
    var s := And(touched, LSAVED());
    if s != Zero() {
      assert exists r :: 0 <= r < 32 && s[r];
    }
    assert forall r :: 0 <= r < 32 ==> s[r] == (touched[r] && LSAVED()[r]) && !Zero()[r];
  }

  /** The prolog changes SP and the frame, nothing else. */
  lemma PrologKeeps(touched: word, c: Cpu, x: nat)
    requires !InFrame(touched, c, x)
    ensures var c1 := Run([PrologWord(touched)], c);
      Load(c1.mem, x) == Load(c.mem, x) && forall r :: 0 <= r < 16 && r != SP ==> c1.regs[r] == c.regs[r]
  {
    PrologRuns(touched, c);
    if And(touched, LSAVED()) != Zero() {
      SavingRoutine(touched);
      RestAfterStm(FD, Saved(touched), c);
      StoreSkips(Saved(touched), 0, FrameStart(touched, c), x, c.regs, c.mem);
    }
  }

  lemma EpilogKeepsMemory(touched: word, c: Cpu)
    ensures Run(EpilogWords(touched), c).mem == c.mem
  {
    EpilogRuns(touched, c);
  }

  /** Writes beside the frame leave the frame as the prolog made it. */
  lemma FrameStands(touched: word, c: Cpu, c1: Cpu, c2: Cpu)
    requires And(touched, LSAVED()) != Zero() && c1 == Run([PrologWord(touched)], c) && c2.regs[SP] == c1.regs[SP]
    requires forall x :: InFrame(touched, c, x) ==> Load(c2.mem, x) == Load(c1.mem, x)
    ensures KeepsFrame(FD, Saved(touched), c, c2)
  {
    SavingRoutine(touched);
    var list, a := Saved(touched), FrameStart(touched, c);
    forall x | IsSlot(list, 0, a, x)
      ensures Load(c1.mem, x) == Load(c2.mem, x)
    {
      assert InFrame(touched, c, x);
    }
    SlotsSame(list, 0, a, c1.mem, c2.mem);
  }

  // The body

  /** What the body is to do: the pixel at the address in cb replaced, only p, d and cb changed. */
  ghost predicate Drawn(c1: Cpu, c4: Cpu, op: LogicOp, mask: word, masking: bool, p: nat, s: nat, d: nat, cb: nat)
    requires p < 16 && s < 16 && d < 16 && cb < 16
  {
    var a := Unsigned(c1.regs[cb]);
    && c4.mem == c1.mem[a := Wanted(op, mask, masking, c1.regs[s], Load(c1.mem, a))]
    && c4.regs[cb] == Word(Wrap(a + 4))
    && forall r :: 0 <= r < 16 && r != p && r != d && r != cb ==> c4.regs[r] == c1.regs[r]
  }

  lemma AllBits(x: word, y: word)
    requires SameLow(x, y, 32)
    ensures x == y
  {
  }

  predicate UsesDestination(op: LogicOp) {
    op != Clear && op != Copy && op != CopyInverted && op != Set
  }

  /** An op is taken to use the destination exactly when its result depends on that. */
  lemma UsesDestinationIff(op: LogicOp)
    ensures UsesDestination(op) <==> exists x, y, z :: Logic(op, x, y) != Logic(op, x, z)
  {
    var o, i := Zero(), Not(Zero());
    if UsesDestination(op) {
      assert Logic(op, o, o)[0] != Logic(op, o, i)[0] || Logic(op, i, o)[0] != Logic(op, i, i)[0];
      assert Logic(op, o, o) != Logic(op, o, i) || Logic(op, i, o) != Logic(op, i, i);
    }
  }

  lemma DestinationUnused(op: LogicOp, mask: word, x: word, y: word, z: word)
    requires !UsesDestination(op)
    ensures Wanted(op, mask, false, x, y) == Wanted(op, mask, false, x, z)
  {
    assert Logic(op, x, y) == Logic(op, x, z);
  }

  lemma SmallAddress(w: word)
    ensures Wrap(Unsigned(w) + 0) == Unsigned(w)
  {
    UnsignedBound(w);
  }

  /** A 32-bit load or store, with write-back or without. */
  function Access(load: bool, inc: bool, r: nat, cb: nat): Instr {
    if inc then Mem(load, false, r, cb, 4) else Mem(load, true, r, cb, 0)
  }

  /** The registers after the address register has moved on, or not. */
  function Moved(inc: bool, cb: nat, c: Cpu): RegFile
    requires cb < 16
  {
    if inc then c.regs[cb := Word(Wrap(Unsigned(c.regs[cb]) + 4))] else c.regs
  }

  lemma AccessExec(load: bool, inc: bool, r: nat, cb: nat, c: Cpu)
    requires r < 16 && cb < 16
    ensures var a, regs := Unsigned(c.regs[cb]), Moved(inc, cb, c);
      Exec(Access(load, inc, r, cb), c)
      == if load then Cpu(regs[r := Load(c.mem, a)], c.mem) else Cpu(regs, c.mem[a := c.regs[r]])
  {
    SmallAddress(c.regs[cb]);
  }

  lemma LoadRuns(w: word, inc: bool, d: nat, cb: nat, c: Cpu)
    requires d < 16 && cb < 16 && Decode(w) == Access(true, inc, d, cb)
    ensures Run([w], c) == Cpu(Moved(inc, cb, c)[d := Load(c.mem, Unsigned(c.regs[cb]))], c.mem)
  {
    RunOne(w, c);
    AccessExec(true, inc, d, cb, c);
  }

  lemma StoreRuns(w: word, inc: bool, p: nat, cb: nat, c: Cpu)
    requires p < 16 && cb < 16 && Decode(w) == Access(false, inc, p, cb)
    ensures Run([w], c) == Cpu(Moved(inc, cb, c), c.mem[Unsigned(c.regs[cb]) := c.regs[p]])
  {
    RunOne(w, c);
    AccessExec(false, inc, p, cb, c);
  }

  /** When scanline_core reads the framebuffer: for blending, masking, or the op. */
  predicate NeedsDestination(op: LogicOp, masking: bool, blending: bool) {
    blending || masking || UsesDestination(op)
  }

  /** The code in front of the stages: a load, if the destination matters. */
  ghost predicate Fetches(f: seq<word>, op: LogicOp, masking: bool, blending: bool, d: nat, cb: nat) {
    if NeedsDestination(op, masking, blending) then |f| == 1 && Decode(f[0]) == Access(true, false, d, cb) else f == []
  }

  /** Blending and masking find the framebuffer pixel in d, and so does an op that depends on it. */
  lemma FetchRuns(f: seq<word>, op: LogicOp, mask: word, masking: bool, blending: bool, s: nat, d: nat, cb: nat,
      c: Cpu, c2: Cpu)
    requires s < 16 && d < 16 && cb < 16 && s != d && cb != d
    requires Fetches(f, op, masking, blending, d, cb) && c2 == Run(f, c)
    ensures c2.mem == c.mem && forall r :: 0 <= r < 16 && r != d ==> c2.regs[r] == c.regs[r]
    ensures Wanted(op, mask, masking, c2.regs[s], c2.regs[d])
         == Wanted(op, mask, masking, c.regs[s], Load(c.mem, Unsigned(c.regs[cb])))
    ensures blending || masking || UsesDestination(op) ==> c2.regs[d] == Load(c.mem, Unsigned(c.regs[cb]))
  {
    if NeedsDestination(op, masking, blending) {
      assert f == [f[0]];
      LoadRuns(f[0], false, d, cb, c);
    } else {
      DestinationUnused(op, mask, c.regs[s], c.regs[d], Load(c.mem, Unsigned(c.regs[cb])));
    }
  }

  lemma StagesDraw(c1: Cpu, c2: Cpu, c3: Cpu, c4: Cpu, op: LogicOp, mask: word, masking: bool,
      p: nat, s: nat, d: nat, cb: nat)
    requires p < 16 && s < 16 && d < 16 && cb < 16 && cb != d && cb != p
    requires c2.mem == c1.mem && forall r :: 0 <= r < 16 && r != d ==> c2.regs[r] == c1.regs[r]
    requires Wanted(op, mask, masking, c2.regs[s], c2.regs[d])
          == Wanted(op, mask, masking, c1.regs[s], Load(c1.mem, Unsigned(c1.regs[cb])))
    requires Rendered(c2, c3, op, mask, masking, 32, p, s, d)
    requires c4 == Cpu(c3.regs[cb := Word(Wrap(Unsigned(c3.regs[cb]) + 4))],
                       c3.mem[Unsigned(c3.regs[cb]) := c3.regs[p]])
    ensures Drawn(c1, c4, op, mask, masking, p, s, d, cb)
  {
    AllBits(c3.regs[p], Wanted(op, mask, masking, c2.regs[s], c2.regs[d]));
  }

  /** Load, stages and store, run one after the other. */
  lemma BodyDraws(f: seq<word>, out: seq<word>, w: word, op: LogicOp, mask: word, masking: bool, blending: bool,
      p: nat, s: nat, d: nat, cb: nat, c: Cpu)
    requires p < 16 && s < 16 && d < 16 && cb < 16 && s != d && cb != d && cb != p
    requires Fetches(f, op, masking, blending, d, cb) && Decode(w) == Access(false, true, p, cb)
    requires Renders(out, op, mask, masking, 32, p, s, d) && Prepared(op, mask, masking, 32, c.regs[s])
    ensures Drawn(c, Run(f + out + [w], c), op, mask, masking, p, s, d, cb)
  {
    var c2 := Run(f, c);
    var c3 := Run(out, c2);
    var c4 := Run([w], c3);
    RunAppend(f, out, c);
    RunAppend(f + out, [w], c);
    FetchRuns(f, op, mask, masking, blending, s, d, cb, c, c2);
    StoreRuns(w, true, p, cb, c3);
    StagesDraw(c, c2, c3, c4, op, mask, masking, p, s, d, cb);
  }

  // The routine

  /** Code that leaves SP, the registers not handed out, and memory outside `area` alone. */
  ghost predicate Tame(touched: word, area: set<nat>, c1: Cpu, c2: Cpu) {
    && c2.regs[SP] == c1.regs[SP]
    && (forall r :: 0 <= r < 16 && !touched[r] ==> c2.regs[r] == c1.regs[r])
    && forall x: nat :: x !in area ==> Load(c2.mem, x) == Load(c1.mem, x)
  }

  /** Neither address a nor the area lies in the frame. */
  predicate Beside(touched: word, c: Cpu, area: set<nat>, a: nat) {
    !InFrame(touched, c, a) && forall x :: x in area ==> !InFrame(touched, c, x)
  }

  /**
   What a caller sees: its registers restored, the pixel replaced, and other memory
   but the frame as the code in front of the stages left it; outside the area that
   code may write, memory is compared with what the caller had on entry.
   */
  ghost predicate Finished(c: Cpu, c2: Cpu, e: Cpu, touched: word, area: set<nat>, op: LogicOp, mask: word, masking: bool,
      s: nat, cb: nat)
    requires s < 16 && cb < 16
  {
    var a := Unsigned(c2.regs[cb]);
    && Restored(c, e)
    && Load(e.mem, a) == Wanted(op, mask, masking, c2.regs[s], Load(c2.mem, a))
    && (a !in area ==> Load(e.mem, a) == Wanted(op, mask, masking, c2.regs[s], Load(c.mem, a)))
    && (forall x: nat :: x != a && !InFrame(touched, c, x) ==> Load(e.mem, x) == Load(c2.mem, x))
    && forall x: nat :: x != a && !InFrame(touched, c, x) && x !in area ==> Load(e.mem, x) == Load(c.mem, x)
  }

  /** The machine when the prolog and the code in front of the stages have run. */
  function Entered(touched: word, pre: seq<word>, c: Cpu): Cpu {
    Run(pre, Run([PrologWord(touched)], c))
  }

  /**
   On every machine state from which the code in front of the stages is tame and
   prepares the pixel, with the framebuffer address and the area it may write
   beside the frame.
   */
  ghost predicate Draws(code: seq<word>, pre: seq<word>, area: set<nat>, touched: word, op: LogicOp, mask: word,
      masking: bool, s: nat, cb: nat)
    requires s < 16 && cb < 16
  {
    forall c: Cpu {:trigger Run(code, c)} ::
      var c2 := Entered(touched, pre, c);
      Tame(touched, area, Run([PrologWord(touched)], c), c2) && Prepared(op, mask, masking, 32, c2.regs[s])
      && Beside(touched, c, area, Unsigned(c2.regs[cb])) ==>
        Finished(c, c2, Run(code, c), touched, area, op, mask, masking, s, cb)
  }

  lemma OthersKept(touched: word, handed: set<nat>, area: set<nat>, c1: Cpu, c2: Cpu, c4: Cpu, op: LogicOp, mask: word,
      masking: bool, p: nat, s: nat, d: nat, cb: nat)
    requires Names(touched, handed) && p in handed && d in handed && cb in handed && Apart(p, s, d, cb)
    requires Tame(touched, area, c1, c2) && Drawn(c2, c4, op, mask, masking, p, s, d, cb)
    ensures KeepsOthers(handed, c1, c4)
  {
    forall r | 0 <= r < 16 && r !in handed
      ensures c4.regs[r] == c1.regs[r]
    {
      assert !touched[r];
    }
  }

  lemma FrameKept(touched: word, area: set<nat>, c: Cpu, c1: Cpu, c2: Cpu, c4: Cpu, a: nat, v: word)
    requires c1 == Run([PrologWord(touched)], c) && Tame(touched, area, c1, c2) && Beside(touched, c, area, a)
    requires c4.regs[SP] == c2.regs[SP] && c4.mem == c2.mem[a := v] && And(touched, LSAVED()) != Zero()
    ensures KeepsFrame(FD, Saved(touched), c, c4)
  {
    forall x | InFrame(touched, c, x)
      ensures Load(c4.mem, x) == Load(c1.mem, x)
    {
      assert x !in area && x != a;
    }
    FrameStands(touched, c, c1, c4);
  }

  lemma RoutineRuns(touched: word, body: seq<word>, c: Cpu)
    ensures Run(RoutineCode(touched, body), c) == Run(EpilogWords(touched), Run(body, Run([PrologWord(touched)], c)))
    ensures Run(RoutineCode(touched, body), c).mem == Run(body, Run([PrologWord(touched)], c)).mem
  {
    var c1 := Run([PrologWord(touched)], c);
    RunAppend([PrologWord(touched)], body, c);
    RunAppend([PrologWord(touched)] + body, EpilogWords(touched), c);
    EpilogKeepsMemory(touched, Run(body, c1));
  }

  lemma FragmentRestores(touched: word, handed: set<nat>, area: set<nat>, code: seq<word>,
      op: LogicOp, mask: word, masking: bool, p: nat, s: nat, d: nat, cb: nat, c: Cpu, c1: Cpu, c2: Cpu, c4: Cpu)
    requires Names(touched, handed) && p in handed && d in handed && cb in handed && Apart(p, s, d, cb)
    requires c1 == Run([PrologWord(touched)], c) && c4 == Run(code, c1)
    requires Tame(touched, area, c1, c2) && Beside(touched, c, area, Unsigned(c2.regs[cb]))
    requires Drawn(c2, c4, op, mask, masking, p, s, d, cb)
    ensures Restored(c, Run(RoutineCode(touched, code), c))
  {
    var a := Unsigned(c2.regs[cb]);
    OthersKept(touched, handed, area, c1, c2, c4, op, mask, masking, p, s, d, cb);
    if And(touched, LSAVED()) != Zero() {
      FrameKept(touched, area, c, c1, c2, c4, a, Wanted(op, mask, masking, c2.regs[s], Load(c2.mem, a)));
    }
    RoutineRestores(touched, handed, code, c, c1, c4);
  }

  /** Outside the area and the frame the stages find memory as the caller left it. */
  lemma EntryMemory(touched: word, area: set<nat>, c: Cpu, c1: Cpu, c2: Cpu)
    requires c1 == Run([PrologWord(touched)], c) && Tame(touched, area, c1, c2)
    ensures forall x: nat :: x !in area && !InFrame(touched, c, x) ==> Load(c2.mem, x) == Load(c.mem, x)
  {
    forall x: nat | x !in area && !InFrame(touched, c, x)
      ensures Load(c2.mem, x) == Load(c.mem, x)
    {
      PrologKeeps(touched, c, x);
    }
  }

  lemma FragmentFinishes(touched: word, handed: set<nat>, area: set<nat>, pre: seq<word>, body: seq<word>,
      op: LogicOp, mask: word, masking: bool, p: nat, s: nat, d: nat, cb: nat, c: Cpu, c1: Cpu, c2: Cpu, c4: Cpu)
    requires Names(touched, handed) && p in handed && d in handed && cb in handed && Apart(p, s, d, cb)
    requires c1 == Run([PrologWord(touched)], c) && c2 == Run(pre, c1) && c4 == Run(body, c2)
    requires Tame(touched, area, c1, c2) && Beside(touched, c, area, Unsigned(c2.regs[cb]))
    requires Drawn(c2, c4, op, mask, masking, p, s, d, cb)
    ensures Finished(c, c2, Run(RoutineCode(touched, pre + body), c), touched, area, op, mask, masking, s, cb)
  {
    var code := pre + body;
    RunAppend(pre, body, c1);
    FragmentRestores(touched, handed, area, code, op, mask, masking, p, s, d, cb, c, c1, c2, c4);
    RoutineRuns(touched, code, c);
    EntryMemory(touched, area, c, c1, c2);
  }

  /** The registers of a fragment are apart from each other and from SP. */
  predicate Apart(p: nat, s: nat, d: nat, cb: nat) {
    p < 16 && s < 16 && d < 16 && cb < 16 && s != d && cb != d && cb != p
    && p != SP && d != SP && cb != SP && s != SP
  }

  lemma FragmentDraws(touched: word, handed: set<nat>, area: set<nat>, pre: seq<word>, f: seq<word>, out: seq<word>,
      w: word, op: LogicOp, mask: word, masking: bool, blending: bool, p: nat, s: nat, d: nat, cb: nat)
    requires Names(touched, handed) && p in handed && d in handed && cb in handed && Apart(p, s, d, cb)
    requires Fetches(f, op, masking, blending, d, cb) && Decode(w) == Access(false, true, p, cb)
    requires Renders(out, op, mask, masking, 32, p, s, d)
    ensures Draws(RoutineCode(touched, pre + (f + out + [w])), pre, area, touched, op, mask, masking, s, cb)
  {
    var body := f + out + [w];
    var code := RoutineCode(touched, pre + body);
    forall c: Cpu |
      var c2 := Entered(touched, pre, c);
      Tame(touched, area, Run([PrologWord(touched)], c), c2) && Prepared(op, mask, masking, 32, c2.regs[s])
      && Beside(touched, c, area, Unsigned(c2.regs[cb]))
      ensures Finished(c, Entered(touched, pre, c), Run(code, c), touched, area, op, mask, masking, s, cb)
    {
      var c2 := Entered(touched, pre, c);
      BodyDraws(f, out, w, op, mask, masking, blending, p, s, d, cb, c2);
      FragmentFinishes(touched, handed, area, pre, body, op, mask, masking, p, s, d, cb, c,
                       Run([PrologWord(touched)], c), c2, Run(body, c2));
    }
  }

  method EmitTransfer(asm: ARMAssembler, load: bool, before: bool, rd: nat, rn: nat, v: nat) returns (ghost w: word)
    requires asm.Valid() && rd < 16 && rn < 16 && v < 0x800
    modifies asm`code, asm`pc
    ensures asm.Valid() && asm.code == old(asm.code) + [w] && Decode(w) == Mem(load, before, rd, rn, v)
  {
    var offset := if before then Immed12Pre(v) else Immed12Post(v);
    w := MemWord(load, rd, rn, offset);
    DecodeTransfer(load, before, rd, rn, v, offset);
    asm.Transfer(load, rd, rn, offset);
  }

  /** How many registers the stages take: the pixel's, and the framebuffer pixel's if that is read. */
  function Needs(op: LogicOp, masking: bool, blending: bool): nat {
    if NeedsDestination(op, masking, blending) then 2 else 1
  }

  /** A register of its own for the framebuffer pixel, and the load, if the destination matters. */
  method FetchPixel(asm: ARMAssembler, file: RegisterFile, op: LogicOp, masking: bool, blending: bool, cb: nat)
    returns (d: nat, ghost f: seq<word>)
    requires asm.Valid() && file.Valid() && InUse(file, cb) && InUse(file, 0) && cb != 0
    modifies asm`code, asm`pc, file
    ensures asm.Valid() && asm.code == old(asm.code) + f && file.Valid()
    ensures Fetches(f, op, masking, blending, d, cb)
    ensures if blending || masking || UsesDestination(op) then |f| == 1 && Decode(f[0]) == Mem(true, true, d, cb, 0)
            else f == []
    ensures d < 16 && (file.outOfRegisters || InUse(file, d)) && old(file.handed) <= file.handed
    ensures file.outOfRegisters || (d != cb && d != SP && (d == 0 || d in file.handed))
    ensures var needed := NeedsDestination(op, masking, blending);
      && file.State() == (if needed then Apply(old(file.State()), Take) else old(file.State()))
      && file.outOfRegisters == (old(file.outOfRegisters) || (needed && Busy(old(file.regs), |Priority()|)))
  {
    if NeedsDestination(op, masking, blending) {
      d := file.Obtain();
      ghost var w := EmitTransfer(asm, true, true, d, cb, 0);
      f := [w];
    } else {
      d, f := 0, [];
    }
  }

  lemma StagesTaken(a: Alloc, b: Alloc, fetch: bool)
    requires b == if fetch then Apply(a, Take) else a
    ensures var k := if fetch then 2 else 1;
      if (fetch && Busy(a.regs, |Priority()|)) || Busy(b.regs, |Priority()|)
      then Held(a.regs, |Priority()|) + k > |Priority()|
      else Took(a, Apply(b, Take), k)
  {
    TakeTook(a);
    TakeTook(b);
    if fetch && !Busy(a.regs, |Priority()|) && !Busy(b.regs, |Priority()|) {
      TookTook(a, b, Apply(b, Take), 1, 1);
    }
  }

  /** Both registers, the framebuffer's and the pixel's. */
  method StageRegisters(asm: ARMAssembler, file: RegisterFile, op: LogicOp, masking: bool, blending: bool, cb: nat)
    returns (d: nat, s: nat, ghost f: seq<word>)
    requires asm.Valid() && file.Valid() && !file.outOfRegisters
    requires InUse(file, cb) && InUse(file, 0) && cb != 0 && cb != SP && 0 in file.handed
    modifies asm`code, asm`pc, file
    ensures asm.Valid() && asm.code == old(asm.code) + f && file.Valid() && old(file.handed) <= file.handed
    ensures Fetches(f, op, masking, blending, d, cb)
    ensures file.outOfRegisters <==> Held(old(file.regs), |Priority()|) + Needs(op, masking, blending) > |Priority()|
    ensures !file.outOfRegisters ==>
              && Took(old(file.State()), file.State(), Needs(op, masking, blending))
              && Apart(s, s, d, cb) && s in file.handed && d in file.handed && InUse(file, d)
  {
    ghost var was := file.State();
    d, f := FetchPixel(asm, file, op, masking, blending, cb);
    StagesTaken(was, file.State(), NeedsDestination(op, masking, blending));
    s := file.Obtain();
  }

  /** The body of the routine: fetch, stages, write back and step to the next pixel. */
  method FragmentBody(asm: ARMAssembler, file: RegisterFile, op: LogicOp, fmt: Format, masked: Channels, blending: bool,
      cb: nat)
    returns (ok: bool, ghost f: seq<word>, ghost out: seq<word>, ghost w: word,
             ghost p: nat, ghost s: nat, ghost d: nat)
    requires asm.Valid() && file.Valid() && !file.outOfRegisters && !AllMasked(fmt, masked) && FormatFits(fmt, 32)
    requires InUse(file, cb) && InUse(file, 0) && cb != 0 && cb != SP && 0 in file.handed
    modifies asm`code, asm`pc, file
    ensures asm.Valid() && file.Valid() && old(file.handed) <= file.handed
    ensures var k := Needs(op, AnyMasked(fmt, masked), blending);
      && (ok <==> Held(old(file.regs), |Priority()|) + k <= |Priority()|)
      && (ok ==> Took(old(file.State()), file.State(), k))
    ensures ok ==> asm.code == old(asm.code) + (f + out + [w])
    ensures ok ==> Apart(p, s, d, cb) && p in file.handed && d in file.handed
    ensures ok ==> Fetches(f, op, AnyMasked(fmt, masked), blending, d, cb) && Decode(w) == Access(false, true, p, cb)
    ensures ok ==> Renders(out, op, MaskOf(fmt, masked), AnyMasked(fmt, masked), 32, p, s, d)
  {
    ghost var start := asm.code;
    var fb, pixel, fetch := StageRegisters(asm, file, op, AnyMasked(fmt, masked), blending, cb);
    d, s, f := fb, pixel, fetch;
    if file.outOfRegisters {
      return false, [], [], Zero(), 0, 0, 0;
    }
    FormatMasksFit(fmt, 32, masked, MaskOf(fmt, masked));
    var own, _, code := BuildPixel(asm, file, op, fmt, 32, masked, Pixel(pixel, true), fb);
    out, p := code, own.reg;
    w := EmitTransfer(asm, false, false, own.reg, cb, 4);
    Assoc(start, f, out);
    Assoc(start, f + out, [w]);
    ok := true;
  }

  /** The body and the way out, and what a routine with `pre` in front of them draws. */
  method FragmentCode(asm: ARMAssembler, file: RegisterFile, pre: seq<word>, ghost area: set<nat>,
      op: LogicOp, fmt: Format, masked: Channels, blending: bool, cb: nat, ghost was: seq<word>)
    returns (ok: bool, ghost code: seq<word>, ghost s: nat)
    requires asm.Valid() && file.Valid() && !file.outOfRegisters && !AllMasked(fmt, masked) && FormatFits(fmt, 32)
    requires InUse(file, cb) && InUse(file, 0) && cb != 0 && cb != SP && 0 in file.handed && cb in file.handed
    requires asm.hasProlog && asm.prologPC == |was| && asm.code == was + [StmWord(FD, SP, LSAVED())] + pre
    modifies asm`code, asm`pc, file
    ensures s < 16
    ensures var k := Needs(op, AnyMasked(fmt, masked), blending);
      && (ok <==> Held(old(file.regs), |Priority()|) + k <= |Priority()|)
      && (ok ==> Took(old(file.State()), file.State(), k))
    ensures ok ==> asm.code == was + code
    ensures ok ==> Draws(code, pre, area, file.touched, op, MaskOf(fmt, masked), AnyMasked(fmt, masked), s, cb)
  {
    ghost var f, out, w, p, d, t;
    ok, f, out, w, p, t, d := FragmentBody(asm, file, op, fmt, masked, blending, cb);
    ghost var body := f + out + [w];
    code, s := RoutineCode(file.touched, pre + body), 0;
    asm.Epilog(file.touched);
    if ok {
      s := t;
      FragmentDraws(file.touched, file.handed, area, pre, f, out, w, op, MaskOf(fmt, masked), AnyMasked(fmt, masked),
                    blending, p, t, d, cb);
      PutTogether(was, old(asm.code), asm.code, pre, body, file.touched, asm.prologPC);
    }
  }

  /** The most registers of the list a fragment ever holds: what was set up, the framebuffer address, the stages. */
  function FragmentPeak(setup: seq<Op>, k: nat): nat {
    Max(Peak(Started(), setup), Held(After(Started(), setup).regs, |Priority()|) + 1 + k)
  }

  /** The frame is not empty exactly when more than five registers of the list were held at once. */
  lemma FragmentSaves(setup: seq<Op>, a: Alloc, mid: Alloc, end: Alloc, k: nat)
    requires Sound(Started(), setup) && a == After(Started(), setup) && Took(a, mid, 1) && Took(mid, end, k)
    ensures And(end.touched, LSAVED()) != Zero() <==> FragmentPeak(setup, k) > 5
  {
    var n := Peak(Started(), setup);
    StartedOrdered();
    StartedHolds(setup);
    TouchedIsPeak(Started(), setup, 1);
    TookTook(a, mid, end, 1, k);
    assert Ordered(a, n);
    NoneSavedIff(end.touched, FragmentPeak(setup, k));
  }

  /**
   The whole routine for one fragment of a 32-bit format in whole bytes.  `setup`
   is what was handed out before, `pre` the code in front of the stages.  It leaves
   the pixel in register s and the framebuffer address in cb.
   */
  method FragmentRoutine(asm: ARMAssembler, file: RegisterFile, setup: seq<Op>, pre: seq<word>, ghost area: set<nat>,
      op: LogicOp, fmt: Format, masked: Channels, blending: bool)
    returns (ok: bool, ghost code: seq<word>, ghost s: nat, ghost cb: nat)
    requires asm.Valid() && !AllMasked(fmt, masked) && FormatFits(fmt, 32)
    requires Sound(Started(), setup) && After(Started(), setup).regs[0]
    modifies asm, file
    ensures ok <==> !Starves(Started(), setup)
                    && FragmentPeak(setup, Needs(op, AnyMasked(fmt, masked), blending)) <= |Priority()|
    ensures ok ==> (And(file.touched, LSAVED()) != Zero()
                    <==> FragmentPeak(setup, Needs(op, AnyMasked(fmt, masked), blending)) > 5)
    ensures ok ==> asm.code == old(asm.code) + code && s < 16 && cb < 16
    ensures ok ==> Draws(code, pre, area, file.touched, op, MaskOf(fmt, masked), AnyMasked(fmt, masked), s, cb)
  {
    ghost var a, k := After(Started(), setup), Needs(op, AnyMasked(fmt, masked), blending);
    PeakWithin(Started(), setup);
    var cbPtr := FragmentStart(asm, file, setup, pre, a);
    cb := cbPtr;
    if file.outOfRegisters {
      return false, [], 0, cb;
    }
    ghost var mid := file.State();
    ok, code, s := FragmentCode(asm, file, pre, area, op, fmt, masked, blending, cbPtr, old(asm.code));
    if ok {
      FragmentSaves(setup, a, mid, file.State(), k);
    }
  }

  lemma PeakWithin(a: Alloc, setup: seq<Op>)
    ensures Peak(a, setup) <= |Priority()|
    decreases |setup|
  {
    if setup != [] {
      PeakWithin(Apply(a, setup[0]), setup[1..]);
    }
  }

  /** What is set up before the stages, and a register for the framebuffer address. */
  method StartRegisters(file: RegisterFile, setup: seq<Op>, ghost a: Alloc) returns (cb: nat)
    requires Sound(Started(), setup) && a == After(Started(), setup) && a.regs[0]
    modifies file
    ensures file.Valid() && 0 in file.handed
    ensures file.outOfRegisters <==> Starves(Started(), setup) || Held(a.regs, |Priority()|) + 1 > |Priority()|
    ensures !file.outOfRegisters ==>
              Took(a, file.State(), 1) && cb in file.handed && InUse(file, cb) && InUse(file, 0) && cb != 0 && cb != SP
  {
    StartFile(file);
    Allocate(file, setup);
    TakeTook(a);
    cb := file.Obtain();
  }

  method FragmentStart(asm: ARMAssembler, file: RegisterFile, setup: seq<Op>, pre: seq<word>, ghost a: Alloc)
    returns (cb: nat)
    requires asm.Valid() && Sound(Started(), setup) && a == After(Started(), setup) && a.regs[0]
    modifies asm, file
    ensures asm.Valid() && asm.hasProlog && asm.prologPC == |old(asm.code)|
    ensures asm.code == old(asm.code) + [StmWord(FD, SP, LSAVED())] + pre
    ensures file.Valid() && 0 in file.handed
    ensures file.outOfRegisters <==> Starves(Started(), setup) || Held(a.regs, |Priority()|) + 1 > |Priority()|
    ensures !file.outOfRegisters ==>
              Took(a, file.State(), 1) && cb in file.handed && InUse(file, cb) && InUse(file, 0) && cb != 0 && cb != SP
  {
    asm.Prolog();
    cb := StartRegisters(file, setup, a);
    EmitAll(asm, pre);
  }

  lemma PutTogether(before: seq<word>, start: seq<word>, end: seq<word>, pre: seq<word>, body: seq<word>,
      touched: word, at: nat)
    requires at == |before| && start == before + [StmWord(FD, SP, LSAVED())] + pre
    requires end == (start + body)[at := PrologWord(touched)] + EpilogWords(touched)
    ensures end == before + RoutineCode(touched, pre + body)
  {
    var first := before + [StmWord(FD, SP, LSAVED())];
    Assoc(first, pre, body);
    RoutineWords(before, first, end, pre + body, touched, at);
  }
}
