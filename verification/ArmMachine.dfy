/**
 A small ARM: sixteen registers, a word memory, and the instructions the code
 generator needs, decoded from their 32-bit encodings (ARM Architecture
 Reference Manual, sections A3.1, A4.1.5, A5.1 and A5.4).
 */
module ArmMachine {
  import opened Words

  const SP: nat := 13
  const LR: nat := 14
  const PC: nat := 15

  const AL: nat := 14

  // Data-processing opcodes
  const AND_OP: nat := 0
  const EOR_OP: nat := 1
  const ORR_OP: nat := 12
  const MOV_OP: nat := 13
  const BIC_OP: nat := 14
  const MVN_OP: nat := 15

  datatype Operand = Imm(v: word) | Reg(r: nat)

  datatype Instr =
    | Dp(opcode: nat, rd: nat, rn: nat, op: Operand)
    | Mem(load: bool, before: bool, rd: nat, rn: nat, disp: nat)
    | Block(load: bool, before: bool, up: bool, writeBack: bool, rn: nat, list: word)
    | Branch(cond: nat, link: bool, offset: int)
    | Bx(rm: nat)
    | Unknown

  // Numbers in words

  /** (v >> k) & 1 */
  function BitOf(v: nat, k: nat): bool
    decreases k
  {
    if v == 0 then false else if k == 0 then v % 2 == 1 else BitOf(v / 2, k - 1)
  }

  /** v << at */
  function Field(v: nat, at: nat): word {
    seq(32, i requires 0 <= i < 32 => i >= at && BitOf(v, i - at))
  }

  function B(b: bool): nat {
    if b then 1 else 0
  }

  /** (w >> at) & 0xF */
  function Nib(w: word, at: nat): nat
    requires at <= 28
  {
    B(w[at]) + 2 * B(w[at + 1]) + 4 * B(w[at + 2]) + 8 * B(w[at + 3])
  }

  lemma BitOfNibble(v: nat)
    requires v < 16
    ensures v == B(BitOf(v, 0)) + 2 * B(BitOf(v, 1)) + 4 * B(BitOf(v, 2)) + 8 * B(BitOf(v, 3))
  {
    assert BitOf(v, 1) == BitOf(v / 2, 0);
    assert BitOf(v, 2) == BitOf(v / 2, 1) == BitOf(v / 2 / 2, 0);
    assert BitOf(v, 3) == BitOf(v / 2, 2) == BitOf(v / 2 / 2, 1) == BitOf(v / 2 / 2 / 2, 0);
  }

  lemma {:induction false} BitOfHigh(v: nat, k: nat, n: nat)
    requires k >= n && v < Pow2(n)
    ensures !BitOf(v, k)
  {
    if n == 0 || v == 0 {
    } else {
      BitOfHigh(v / 2, k - 1, n - 1);
    }
  }

  function Pow2(n: nat): (p: nat)
    ensures p >= 1
  {
    if n == 0 then 1 else 2 * Pow2(n - 1)
  }

  lemma {:induction false} Pow2Add(m: nat, n: nat)
    ensures Pow2(m + n) == Pow2(m) * Pow2(n)
  {
    if m > 0 {
      Pow2Add(m - 1, n);
      assert 2 * (Pow2(m - 1) * Pow2(n)) == 2 * Pow2(m - 1) * Pow2(n);
    }
  }

  lemma Powers()
    ensures Pow2(4) == 16 && Pow2(23) == 0x80_0000 && Pow2(24) == 0x100_0000 && Pow2(32) == 0x1_0000_0000
  {
    assert Pow2(2) == 4;
    Pow2Add(4, 4);
    Pow2Add(8, 8);
    Pow2Add(16, 8);
    Pow2Add(16, 16);
    assert Pow2(24) == 2 * Pow2(23);
  }

  /** A four-bit field occupies its four places only, and reads back. */
  lemma FieldIs(v: nat, at: nat)
    requires v < 16 && at <= 28
    ensures Nib(Field(v, at), at) == v
    ensures Clear(Field(v, at), 0, at) && Clear(Field(v, at), at + 4, 32)
  {
    BitOfNibble(v);
    forall i | at + 4 <= i < 32
      ensures !Field(v, at)[i]
    {
      Powers();
      BitOfHigh(v, i - at, 4);
    }
  }

  /** No bit of `w` lies in lo..hi. */
  predicate Clear(w: word, lo: nat, hi: nat) {
    forall i :: lo <= i < hi && i < 32 ==> !w[i]
  }

  lemma NibOr(x: word, y: word, at: nat)
    requires at <= 28
    ensures Clear(y, at, at + 4) ==> Nib(Or(x, y), at) == Nib(x, at)
    ensures Clear(x, at, at + 4) ==> Nib(Or(x, y), at) == Nib(y, at)
  {
  }

  lemma ClearOr(x: word, y: word, lo: nat, hi: nat)
    requires Clear(x, lo, hi) && Clear(y, lo, hi)
    ensures Clear(Or(x, y), lo, hi)
  {
  }

  // Data processing

  /** The word dataProcessing emits, with S clear and condition AL. */
  function DpWord(opcode: nat, rd: nat, rn: nat, op2: word): word {
    Or(Or(Or(Or(Field(AL, 28), Field(opcode, 21)), Field(rn, 16)), Field(rd, 12)), op2)
  }

  /** A plain register as second operand. */
  function RegOp2(rm: nat): word {
    Field(rm, 0)
  }

  /** (1 << 25) | (rot << 8) | imm */
  function ImmOp2(rot: nat, imm: word): word {
    Or(Or(Bit(25), Field(rot, 8)), imm)
  }

  function DecodeOperand(w: word): Operand {
    if w[25] then Imm(Ror(And(w, Ones(8)), 2 * Nib(w, 8))) else Reg(Nib(w, 0))
  }

  function Decode(w: word): Instr {
    if w[27] && !w[26] && w[25] then Branch(Nib(w, 28), w[24], Signed24(Low24(w)))
    else if Nib(w, 28) != AL then Unknown
    else if w[26] then DecodeMem(w)
    else if !w[27] then DecodeDataProcessing(w)
    else if w[22] then Unknown
    else Block(w[20], w[24], w[23], w[21], Nib(w, 16), And(w, Ones(16)))
  }

  /** Word loads and stores with an immediate offset added, before the access or after it. */
  function DecodeMem(w: word): Instr {
    if w[27] || w[25] || !w[23] || w[22] || w[21] then Unknown
    else Mem(w[20], w[24], Nib(w, 12), Nib(w, 16), Low12(w))
  }

  function DecodeDataProcessing(w: word): Instr {
    if BxPattern(w) then Bx(Nib(w, 0))
    else if !w[20] && (w[25] || Clear(w, 4, 12)) then
      Dp(Nib(w, 21), Nib(w, 12), Nib(w, 16), DecodeOperand(w))
    else Unknown
  }

  /** Bits 27..4 of BX are 0001 0010 1111 1111 1111 0001. */
  predicate BxPattern(w: word) {
    Clear(w, 25, 28) && w[24] && !w[23] && !w[22] && w[21] && !w[20]
    && (forall i :: 8 <= i < 20 ==> w[i]) && !w[7] && !w[6] && !w[5] && w[4]
  }

  /** The number in bits lo..hi. */
  function NatOf(w: word, lo: nat, hi: nat): nat
    requires hi <= |w|
    decreases hi - lo, |w|
  {
    if lo >= hi then 0 else B(w[lo]) + 2 * NatOf(w, lo + 1, hi)
  }

  lemma {:induction false} NatOfBound(w: word, lo: nat, hi: nat)
    requires lo <= hi <= |w|
    ensures NatOf(w, lo, hi) < Pow2(hi - lo)
    decreases hi - lo
  {
    if lo < hi {
      NatOfBound(w, lo + 1, hi);
    }
  }

  /** The word as a number. */
  function Unsigned(w: word): nat {
    NatOf(w, 0, |w|)
  }

  function Low12(w: word): nat {
    NatOf(w, 0, |w| - 20)
  }

  /** The number in the lowest 24 bits. */
  function Low24(w: word): nat {
    NatOf(w, 0, |w| - 8)
  }

  /** The two's complement reading of 24 bits. */
  function Signed24(u: nat): int {
    if u < 0x80_0000 then u else u - 0x100_0000
  }

  /** The low 32 bits of a number. */
  function Word(v: nat): word {
    Field(v, 0)
  }

  function Halve(v: nat, n: nat): nat {
    if n == 0 then v else Halve(v, n - 1) / 2
  }

  lemma {:induction false} BitOfHalve(v: nat, n: nat, k: nat)
    ensures BitOf(Halve(v, n), k) == BitOf(v, n + k)
    decreases n
  {
    if n > 0 {
      BitOfHalve(v, n - 1, k + 1);
      assert BitOf(Halve(v, n - 1), k + 1) == BitOf(Halve(v, n - 1) / 2, k);
    }
  }

  lemma {:induction false} NatOfWordFrom(v: nat, lo: nat, hi: nat)
    requires lo <= hi <= 32 && Halve(v, lo) < Pow2(hi - lo)
    ensures NatOf(Word(v), lo, hi) == Halve(v, lo)
    decreases hi - lo
  {
    if lo < hi {
      BitOfHalve(v, lo, 0);
      assert Word(v)[lo] == BitOf(v, lo) == (Halve(v, lo) % 2 == 1);
      NatOfWordFrom(v, lo + 1, hi);
    }
  }

  /** Numbers that fit are read back from their words. */
  lemma UnsignedWord(v: nat)
    requires v < P32
    ensures Unsigned(Word(v)) == v
  {
    Powers();
    NatOfWordFrom(v, 0, |Word(v)|);
  }

  lemma Low24Word(u: nat)
    requires u < 0x100_0000
    ensures Low24(Word(u)) == u
  {
    Powers();
    NatOfWordFrom(u, 0, |Word(u)| - 8);
  }

  lemma UnsignedBound(w: word)
    ensures Unsigned(w) < P32
  {
    Powers();
    NatOfBound(w, 0, |w|);
  }

  lemma BitOfStep(b: bool, rest: nat, k: nat)
    ensures BitOf(B(b) + 2 * rest, k) == if k == 0 then b else BitOf(rest, k - 1)
  {
    assert (B(b) + 2 * rest) / 2 == rest && (B(b) + 2 * rest) % 2 == B(b);
  }

  lemma {:induction false} BitOfNatOf(w: word, lo: nat, hi: nat, k: nat)
    requires lo + k < hi <= |w|
    ensures BitOf(NatOf(w, lo, hi), k) == w[lo + k]
    decreases k
  {
    BitOfStep(w[lo], NatOf(w, lo + 1, hi), k);
    if k > 0 {
      BitOfNatOf(w, lo + 1, hi, k - 1);
    }
  }

  /** Words are the words of their numbers. */
  lemma WordUnsigned(w: word)
    ensures Word(Unsigned(w)) == w
  {
    forall i | 0 <= i < 32
      ensures Word(Unsigned(w))[i] == w[i]
    {
      BitOfNatOf(w, 0, |w|, i);
    }
  }

  lemma {:induction false} NatOfSame(x: word, y: word, lo: nat, hi: nat)
    requires hi <= |x| && forall i :: lo <= i < hi ==> x[i] == y[i]
    ensures NatOf(x, lo, hi) == NatOf(y, lo, hi)
    decreases hi - lo
  {
    if lo < hi {
      NatOfSame(x, y, lo + 1, hi);
    }
  }

  /** The fields of a data-processing word, read back. */
  lemma DpHead(opcode: nat, rd: nat, rn: nat)
    requires opcode < 16 && rd < 16 && rn < 16
    ensures var d := Or(Or(Or(Field(AL, 28), Field(opcode, 21)), Field(rn, 16)), Field(rd, 12));
      && Nib(d, 28) == AL && Nib(d, 21) == opcode && Nib(d, 16) == rn && Nib(d, 12) == rd
      && Clear(d, 25, 28) && Clear(d, 20, 21) && Clear(d, 0, 12)
  {
    FieldIs(AL, 28);
    FieldIs(opcode, 21);
    FieldIs(rn, 16);
    FieldIs(rd, 12);
    var a, o, n, r := Field(AL, 28), Field(opcode, 21), Field(rn, 16), Field(rd, 12);
    var b := Or(a, o);
    var c := Or(b, n);
    NibOr(a, o, 28);
    NibOr(a, o, 21);
    ClearOr(a, o, 0, 21);
    ClearOr(a, o, 25, 28);
    NibOr(b, n, 28);
    NibOr(b, n, 21);
    NibOr(b, n, 16);
    ClearOr(b, n, 0, 16);
    ClearOr(b, n, 20, 21);
    ClearOr(b, n, 25, 28);
    NibOr(c, r, 28);
    NibOr(c, r, 21);
    NibOr(c, r, 16);
    NibOr(c, r, 12);
    ClearOr(c, r, 0, 12);
    ClearOr(c, r, 20, 21);
    ClearOr(c, r, 25, 28);
  }

  lemma OperandThrough(d: word, op2: word)
    requires Clear(d, 0, 12) && Clear(d, 25, 26)
    ensures DecodeOperand(Or(d, op2)) == DecodeOperand(op2)
    ensures Clear(op2, 4, 12) ==> Clear(Or(d, op2), 4, 12)
  {
    NibOr(d, op2, 8);
    NibOr(d, op2, 0);
    assert And(Or(d, op2), Ones(8)) == And(op2, Ones(8));
  }

  lemma NotBx(w: word)
    requires Nib(w, 21) != 9
    ensures !BxPattern(w)
  {
  }

  /** A data-processing word decodes to the operation it was built for. */
  lemma DecodeDp(opcode: nat, rd: nat, rn: nat, op2: word)
    requires opcode < 16 && rd < 16 && rn < 16 && opcode != 9
    requires Clear(op2, 12, 25) && Clear(op2, 26, 32) && (op2[25] || Clear(op2, 4, 12))
    ensures Decode(DpWord(opcode, rd, rn, op2)) == Dp(opcode, rd, rn, DecodeOperand(op2))
  {
    DpHead(opcode, rd, rn);
    var d := Or(Or(Or(Field(AL, 28), Field(opcode, 21)), Field(rn, 16)), Field(rd, 12));
    NibOr(d, op2, 28);
    NibOr(d, op2, 21);
    NibOr(d, op2, 16);
    NibOr(d, op2, 12);
    ClearOr(d, op2, 26, 28);
    ClearOr(d, op2, 20, 21);
    OperandThrough(d, op2);
    NotBx(Or(d, op2));
  }

  lemma DecodeImm(r: nat, m: word)
    requires r < 16 && Below(m, 8)
    ensures DecodeOperand(ImmOp2(r, m)) == Imm(Ror(m, 2 * r))
    ensures Clear(ImmOp2(r, m), 12, 25) && Clear(ImmOp2(r, m), 26, 32) && ImmOp2(r, m)[25]
  {
    FieldIs(r, 8);
    var h := Or(Bit(25), Field(r, 8));
    NibOr(Bit(25), Field(r, 8), 8);
    NibOr(h, m, 8);
    assert And(Or(h, m), Ones(8)) == m;
  }

  lemma DecodeReg(rm: nat)
    requires rm < 16
    ensures DecodeOperand(RegOp2(rm)) == Reg(rm)
    ensures Clear(RegOp2(rm), 4, 32)
  {
    FieldIs(rm, 0);
  }

  // Execution

  type RegFile = r: seq<word> | |r| == 16 witness seq(16, _ => Zero())

  datatype Cpu = Cpu(regs: RegFile, mem: map<nat, word>)

  function Value(op: Operand, regs: RegFile): word {
    match op
    case Imm(v) => v
    case Reg(r) => if r < 16 then regs[r] else Zero()
  }

  function Alu(opcode: nat, a: word, b: word): word {
    if opcode == AND_OP then And(a, b)
    else if opcode == EOR_OP then Xor(a, b)
    else if opcode == ORR_OP then Or(a, b)
    else if opcode == MOV_OP then b
    else if opcode == BIC_OP then And(a, Not(b))
    else if opcode == MVN_OP then Not(b)
    else Zero()
  }

  function Load(mem: map<nat, word>, a: nat): word {
    if a in mem then mem[a] else Zero()
  }

  const P32: nat := 0x1_0000_0000

  /** Addresses are taken modulo 2^32. */
  function Wrap(x: int): (a: nat)
    ensures a < P32
    decreases if x < 0 then P32 - x else x
  {
    if x < 0 then Wrap(x + P32) else if x < P32 then x else Wrap(x - P32)
  }

  lemma {:induction false} WrapAgain(x: int, k: int)
    ensures Wrap(Wrap(x) + k) == Wrap(x + k)
    decreases if x < 0 then P32 - x else x
  {
    if x < 0 {
      WrapAgain(x + P32, k);
      WrapTurn(x + k);
    } else if x >= P32 {
      WrapAgain(x - P32, k);
      WrapTurn(x - P32 + k);
    }
  }

  lemma WrapTurn(x: int)
    ensures Wrap(x + P32) == Wrap(x)
  {
  }

  /** Registers of `list` from i on. */
  function Count(list: word, i: nat): nat
    requires i <= |list|
    decreases |list| - i
  {
    if i == |list| then 0 else B(list[i]) + Count(list, i + 1)
  }

  /** Store multiple: the lowest register goes to the lowest address. */
  function StoreAll(list: word, i: nat, a: nat, regs: RegFile, mem: map<nat, word>): map<nat, word>
    requires i <= |regs|
    decreases |regs| - i
  {
    if i == |regs| then mem
    else if list[i] then StoreAll(list, i + 1, Wrap(a + 4), regs, mem[a := regs[i]])
    else StoreAll(list, i + 1, a, regs, mem)
  }

  function LoadAll(list: word, i: nat, a: nat, mem: map<nat, word>, regs: RegFile): RegFile
    requires i <= |regs|
    decreases |regs| - i
  {
    if i == |regs| then regs
    else if list[i] then LoadAll(list, i + 1, Wrap(a + 4), mem, regs[i := Load(mem, a)])
    else LoadAll(list, i + 1, a, mem, regs)
  }

  /** First address of a block transfer of n words, by the P and U bits. */
  function BlockStart(before: bool, up: bool, base: nat, n: nat): nat {
    Wrap(if up then base + (if before then 4 else 0)
         else base - 4 * n + (if before then 0 else 4))
  }

  function BlockEnd(up: bool, base: nat, n: nat): nat {
    Wrap(if up then base + 4 * n else base - 4 * n)
  }

  function WriteBack(on: bool, up: bool, rn: nat, base: nat, n: nat, regs: RegFile): RegFile
    requires rn < 16
  {
    if on then regs[rn := Word(BlockEnd(up, base, n))] else regs
  }

  function ExecLoad(before: bool, up: bool, writeBack: bool, rn: nat, list: word, base: nat, n: nat, c: Cpu): Cpu
    requires rn < 16
  {
    Cpu(LoadAll(list, 0, BlockStart(before, up, base, n), c.mem, WriteBack(writeBack, up, rn, base, n, c.regs)), c.mem)
  }

  function ExecStore(before: bool, up: bool, writeBack: bool, rn: nat, list: word, base: nat, n: nat, c: Cpu): Cpu
    requires rn < 16
  {
    Cpu(WriteBack(writeBack, up, rn, base, n, c.regs),
        StoreAll(list, 0, BlockStart(before, up, base, n), c.regs, c.mem))
  }

  /** A word access at the base, or past it; the base moves on in the second form only. */
  function ExecMem(load: bool, before: bool, rd: nat, rn: nat, offset: nat, c: Cpu): Cpu
    requires rd < 16 && rn < 16
  {
    var base := Unsigned(c.regs[rn]);
    var a := if before then Wrap(base + offset) else base;
    var regs := if before then c.regs else c.regs[rn := Word(Wrap(base + offset))];
    if load then Cpu(regs[rd := Load(c.mem, a)], c.mem) else Cpu(regs, c.mem[a := c.regs[rd]])
  }

  function Exec(i: Instr, c: Cpu): Cpu {
    match i
    case Dp(opcode, rd, rn, op) =>
      if rd < 16 && rn < 16 then Cpu(c.regs[rd := Alu(opcode, c.regs[rn], Value(op, c.regs))], c.mem) else c
    case Block(load, before, up, writeBack, rn, list) =>
      if rn >= 16 then c
      else if load then ExecLoad(before, up, writeBack, rn, list, Unsigned(c.regs[rn]), Count(list, 0), c)
      else ExecStore(before, up, writeBack, rn, list, Unsigned(c.regs[rn]), Count(list, 0), c)
    case Mem(load, before, rd, rn, offset) =>
      if rd < 16 && rn < 16 then ExecMem(load, before, rd, rn, offset, c) else c
    case Bx(rm) => if rm < 16 then Cpu(c.regs[PC := c.regs[rm]], c.mem) else c
    case Branch(_, _, _) => c
    case Unknown => c
  }

  /** A stretch of code without branches. */
  function Run(code: seq<word>, c: Cpu): Cpu {
    if code == [] then c else Run(code[1..], Exec(Decode(code[0]), c))
  }

  lemma {:induction false} RunAppend(a: seq<word>, b: seq<word>, c: Cpu)
    ensures Run(a + b, c) == Run(b, Run(a, c))
    decreases |a|
  {
    if a == [] {
      assert a + b == b;
    } else {
      assert (a + b)[1..] == a[1..] + b;
      RunAppend(a[1..], b, Exec(Decode(a[0]), c));
    }
  }

  lemma RunOne(w: word, c: Cpu)
    ensures Run([w], c) == Exec(Decode(w), c)
  {
    assert [w][1..] == [];
  }

  /** One data-processing word, run. */
  lemma RunDp(opcode: nat, rd: nat, rn: nat, op2: word, c: Cpu)
    requires opcode < 16 && rd < 16 && rn < 16 && opcode != 9
    requires Clear(op2, 12, 25) && Clear(op2, 26, 32) && (op2[25] || Clear(op2, 4, 12))
    ensures Run([DpWord(opcode, rd, rn, op2)], c)
         == Cpu(c.regs[rd := Alu(opcode, c.regs[rn], Value(DecodeOperand(op2), c.regs))], c.mem)
  {
    DecodeDp(opcode, rd, rn, op2);
    var w := DpWord(opcode, rd, rn, op2);
    assert [w][1..] == [];
  }
}
