/**
 The frame of a generated routine (GGLAssembler.cpp, scanline and scanline_core):
 prolog and epilog around the registers the allocator handed out, and the retry loop.
 */
module Scanlines {
  import opened Words
  import opened ArmMachine
  import opened ARMAssemblers
  import opened CallFrames

  /** `touched` names exactly the registers handed out. */
  ghost predicate Names(touched: word, handed: set<nat>) {
    forall r: nat :: r in handed <==> r < 32 && touched[r]
  }

  /** From c1 to c2 the stack pointer and the registers not handed out stay. */
  predicate KeepsOthers(handed: set<nat>, c1: Cpu, c2: Cpu) {
    c2.regs[SP] == c1.regs[SP] && forall r :: 0 <= r < 16 && r !in handed ==> c2.regs[r] == c1.regs[r]
  }

  predicate Restored(c: Cpu, c3: Cpu) {
    c3.regs[SP] == c.regs[SP] && c3.regs[PC] == c.regs[LR]
    && forall r :: 0 <= r < 16 && LSAVED()[r] ==> c3.regs[r] == c.regs[r]
  }

  /** r4 to r11 and r14 as they were, r13 too, and execution goes on where r14 pointed. */
  lemma RestoredIff(c: Cpu, c3: Cpu)
    ensures Restored(c, c3)
       <==> && (forall r :: 4 <= r < 12 || r == 14 ==> c3.regs[r] == c.regs[r])
            && c3.regs[13] == c.regs[13] && c3.regs[15] == c.regs[14]
  {
    assert forall r :: 0 <= r < 16 ==> (LSAVED()[r] <==> 4 <= r < 12 || r == 14);
  }

  /**
   Whatever a body does to registers the allocator handed out, the routine around
   it returns with the stack pointer and the callee-saved registers as on entry.
   */
  lemma RoutineRestores(touched: word, handed: set<nat>, body: seq<word>, c: Cpu, c1: Cpu, c2: Cpu)
    requires Names(touched, handed)
    requires c1 == Run([PrologWord(touched)], c) && c2 == Run(body, c1) && KeepsOthers(handed, c1, c2)
    requires And(touched, LSAVED()) != Zero() ==> KeepsFrame(FD, Saved(touched), c, c2)
    ensures Restored(c, Run([PrologWord(touched)] + body + EpilogWords(touched), c))
  {
    RunAppend([PrologWord(touched)], body, c);
    RunAppend([PrologWord(touched)] + body, EpilogWords(touched), c);
    assert BodyKeeps(touched, c, c2);
    RoutineReturns(touched, c, c2);
  }

  /** The routine's code: the patched prolog, the body, and the epilog for the same mask. */
  function RoutineCode(touched: word, body: seq<word>): seq<word> {
    [PrologWord(touched)] + body + EpilogWords(touched)
  }

  lemma RoutineWords(before: seq<word>, start: seq<word>, end: seq<word>, body: seq<word>, touched: word, at: nat)
    requires |start| == |before| + 1 && before == start[..|before|] && at == |before|
    requires end == (start + body)[at := PrologWord(touched)] + EpilogWords(touched)
    ensures end == before + RoutineCode(touched, body)
  {
  }

  /**
   The retry loop of scanline over the levels at which generation is tried,
   `core` being the error of scanline_core at a level: the first level that works,
   going down, is the one whose code is kept.
   */
  method Scanline(optLevel: int, core: int -> int) returns (err: int, level: int)
    ensures optLevel < 0 ==> err == 0
    ensures optLevel >= 0 ==> (err == 0 <==> exists l :: 0 <= l <= optLevel && core(l) == 0)
    ensures optLevel >= 0 && err == 0 ==>
              0 <= level <= optLevel && core(level) == 0 && forall l :: level < l <= optLevel ==> core(l) != 0
    ensures optLevel >= 0 && err != 0 ==> err == core(0)
  {
    err, level := 0, optLevel;
    while level >= 0
      invariant level <= optLevel && level >= (if optLevel < 0 then optLevel else -1)
      invariant forall l :: level < l <= optLevel ==> core(l) != 0
      invariant err == 0 <==> level == optLevel
      invariant level < optLevel ==> err == core(level + 1)
    {
      err := core(level);
      if err == 0 {
        break;
      }
      level := level - 1;
    }
  }
}
