/**
 A routine with two epilogs (GGLAssembler.cpp, scanline_core): both take the mask
 of the registers touched when they are emitted, and the later one patches the
 prolog again.
 */
module Epilogs {
  import opened Words
  import opened ArmMachine
  import opened ARMAssemblers
  import opened CallFrames
  import opened RegisterFiles
  import opened Scanlines
  import opened Sequences

  /** The register file when scanline_core begins: SP, PC, and the context's R0. */
  function Started(): Alloc {
    var regs := Or(Or(Bit(SP), Bit(PC)), Bit(0));
    Alloc(regs, regs)
  }

  lemma StartedOrdered()
    ensures Ordered(Started(), 1)
  {
  }

  // Masks that save the same

  /** The first five registers of the list need no saving, the others do. */
  lemma NoneSavedIff(touched: word, n: nat)
    requires FirstTouched(touched, n)
    ensures And(touched, LSAVED()) == Zero() <==> n <= 5
  {
    if n <= 5 {
      forall i | 0 <= i < 32
        ensures !And(touched, LSAVED())[i]
      {
        if LSAVED()[i] {
          var j := if i == LR then 5 else i + 2;
          assert Priority()[j] == i;
        }
      }
    } else {
      assert touched[Priority()[5]] && And(touched, LSAVED())[LR];
    }
  }

  lemma SavesDiffer(a: word, b: word, n: nat, m: nat)
    requires FirstTouched(a, n) && FirstTouched(b, m) && n < m && m > 5
    ensures !SameSaves(a, b)
  {
    NoneSavedIff(a, n);
    NoneSavedIff(b, m);
    if n > 5 {
      var r := Priority()[n];
      assert LSAVED()[r] && r != LR;
      assert Saved(b)[r] && !Saved(a)[r];
    }
  }

  lemma {:induction false} TouchedGrows(a: Alloc, script: seq<Op>)
    ensures Subset(a.touched, After(a, script).touched)
    decreases |script|
  {
    if script != [] {
      TouchedGrows(Apply(a, script[0]), script[1..]);
    }
  }

  /**
   The masks before and after a run save the same registers exactly when it holds
   no more at once than were touched, or than need no saving.
   */
  lemma SameSavesIff(a: Alloc, script: seq<Op>, n: nat)
    requires Ordered(a, n) && Sound(a, script)
    ensures SameSaves(a.touched, After(a, script).touched) <==> Peak(a, script) <= Max(n, 5)
  {
    TouchedIsPeak(a, script, n);
    TouchedStaysIff(a, script, n);
    var m := Max(n, Peak(a, script));
    if n < m && m <= 5 {
      NoneSavedIff(a.touched, n);
      NoneSavedIff(After(a, script).touched, m);
    } else if n < m {
      SavesDiffer(a.touched, After(a, script).touched, n, m);
    }
  }

  // What an epilog does to a routine entered through the prolog

  /** After any body that keeps to the frame of the prolog for `last`, the epilog returns to the caller as it should. */
  ghost predicate Returns(epilog: seq<word>, last: word) {
    forall c, c2 {:trigger BodyKeeps(last, c, c2)} :: BodyKeeps(last, c, c2) ==> Restored(c, Run(epilog, c2))
  }

  lemma {:induction false} SameAsItself(list: word, i: nat, a: nat, m: map<nat, word>)
    requires i <= |list|
    ensures SameFrame(list, i, a, m, m)
    decreases |list| - i
  {
    if i < |list| {
      SameAsItself(list, i + 1, if list[i] then Wrap(a + 4) else a, m);
    }
  }

  lemma EmptyBodyKeeps(last: word, c: Cpu)
    ensures BodyKeeps(last, c, Run([PrologWord(last)], c))
  {
    var c1 := Run([PrologWord(last)], c);
    if And(last, LSAVED()) != Zero() {
      SavingRoutine(last);
      var list := Saved(last);
      SameAsItself(list, 0, BlockStart(StmBefore(FD), StmUp(FD), Unsigned(c.regs[SP]), Count(list, 0)), c1.mem);
    }
  }

  lemma ReturnsIff(mine: word, last: word)
    requires Subset(mine, last)
    ensures Returns(EpilogWords(mine), last) <==> SameSaves(mine, last)
  {
    if SameSaves(mine, last) {
      forall c, c2 | BodyKeeps(last, c, c2)
        ensures Restored(c, Run(EpilogWords(mine), c2))
      {
        RoutineReturns(last, c, c2);
      }
    } else {
      var c := Cpu(seq(16, _ => Zero()), map[]);
      var c2 := Run([PrologWord(last)], c);
      EmptyBodyKeeps(last, c);
      EarlierEpilogIff(last, mine, c, c2);
    }
  }

  /**
   The later epilog always fits the prolog.  The earlier one has the same mask
   exactly when no more registers are held at once between the two than were
   before, and returns as it should exactly then or when at most five are held.
   */
  lemma BothReturnIff(before: seq<Op>, between: seq<Op>)
    requires Sound(Started(), before) && Sound(After(Started(), before), between)
    ensures var first := After(Started(), before);
      var mine, last := first.touched, After(first, between).touched;
      && Returns(EpilogWords(last), last)
      && (mine == last <==> Peak(first, between) <= Peak(Started(), before))
      && (Returns(EpilogWords(mine), last) <==> Peak(first, between) <= Max(Peak(Started(), before), 5))
  {
    var first := After(Started(), before);
    var n := Peak(Started(), before);
    StartedOrdered();
    TouchedIsPeak(Started(), before, 1);
    StartedHolds(before);
    TouchedStaysIff(first, between, n);
    SameSavesIff(first, between, n);
    TouchedGrows(first, between);
    ReturnsIff(first.touched, After(first, between).touched);
    ReturnsIff(After(first, between).touched, After(first, between).touched);
  }

  lemma StartedHolds(script: seq<Op>)
    ensures 1 <= Peak(Started(), script)
  {
    ContextHeld(Started(), script);
  }

  lemma ContextHeld(a: Alloc, script: seq<Op>)
    requires a.regs[0] && FreeFrom(a.regs, 1)
    ensures 1 <= Peak(a, script)
  {
    PeakCovers(a, script);
    HeldNone(a.regs, 1, |Priority()|);
    HeldAll(a.regs, 1);
  }

  /**
   Between its epilogs scanline_core only opens scratch scopes.  When at some time
   before as many registers more were held as the widest of them takes, both
   epilogs have the same mask and return as they should.
   */
  lemma ScratchBetween(before: seq<Op>, sizes: seq<nat>, k: nat)
    requires Sound(Started(), before) && forall i :: 0 <= i < |sizes| ==> sizes[i] <= k
    requires Held(After(Started(), before).regs, |Priority()|) + k <= Peak(Started(), before)
    ensures var first := After(Started(), before);
      var last := After(first, Scopes(first, sizes)).touched;
      && Sound(first, Scopes(first, sizes)) && first.touched == last
      && Returns(EpilogWords(first.touched), last)
  {
    var first := After(Started(), before);
    var n := Peak(Started(), before);
    StartedOrdered();
    TouchedIsPeak(Started(), before, 1);
    StartedHolds(before);
    ScopesPeak(first, sizes, k);
    BothReturnIff(before, Scopes(first, sizes));
  }

  // The routine

  /** Code of stages that are not modelled. */
  method EmitAll(asm: ARMAssembler, words: seq<word>)
    requires asm.Valid()
    modifies asm`code, asm`pc
    ensures asm.Valid() && asm.code == old(asm.code) + words
  {
    for i := 0 to |words|
      invariant asm.Valid() && asm.code == old(asm.code) + words[..i]
    {
      asm.Emit(words[i]);
    }
    assert words[..|words|] == words;
  }

  /** The words of the routine: each epilog rewrites the one at `at`. */
  lemma Rewritten(was: seq<word>, p0: word, p1: word, p2: word, body: seq<word>, e1: seq<word>, rest: seq<word>, at: nat)
    requires at == |was|
    ensures ((was + [p0] + body)[at := p1] + e1 + rest)[at := p2] == was + [p2] + body + e1 + rest
  {
  }

  /**
   scanline_core's frame around its two ways out: what is emitted and handed out
   before the first epilog, and between it and the second.
   */
  method TwoEpilogs(asm: ARMAssembler, file: RegisterFile, before: seq<Op>, body: seq<word>,
      between: seq<Op>, rest: seq<word>) returns (ghost mine: word)
    requires asm.Valid() && Sound(Started(), before) && Sound(After(Started(), before), between)
    modifies asm, file
    ensures asm.code == old(asm.code) + [PrologWord(file.touched)] + body + EpilogWords(mine)
                        + rest + EpilogWords(file.touched)
    ensures Returns(EpilogWords(file.touched), file.touched)
    ensures mine == file.touched <==> Peak(After(Started(), before), between) <= Peak(Started(), before)
    ensures Returns(EpilogWords(mine), file.touched) <==>
              Peak(After(Started(), before), between) <= Max(Peak(Started(), before), 5)
  {
    StartFile(file);
    Allocate(file, before);
    mine := file.touched;
    FirstWayOut(asm, file, body);
    Allocate(file, between);
    EmitAll(asm, rest);
    asm.Epilog(file.touched);
    Rewritten(old(asm.code), StmWord(FD, SP, LSAVED()), PrologWord(mine), PrologWord(file.touched), body,
              EpilogWords(mine), rest, asm.prologPC);
    BothReturnIff(before, between);
  }

  method StartFile(file: RegisterFile)
    modifies file
    ensures file.Valid() && file.State() == Started() && 0 in file.handed && !file.outOfRegisters
  {
    file.Reset();
    file.Reserve(0);
    assert file.regs == Started().regs;
  }

  method FirstWayOut(asm: ARMAssembler, file: RegisterFile, body: seq<word>)
    requires asm.Valid()
    modifies asm
    ensures asm.Valid() && asm.hasProlog && asm.prologPC == |old(asm.code)|
    ensures asm.code == (old(asm.code) + [StmWord(FD, SP, LSAVED())] + body)[asm.prologPC := PrologWord(file.touched)]
                        + EpilogWords(file.touched)
  {
    asm.Prolog();
    EmitAll(asm, body);
    asm.Epilog(file.touched);
  }
}
