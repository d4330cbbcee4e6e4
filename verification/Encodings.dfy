/**
 The emitted words as numbers, from the encodings of the ARM Architecture
 Reference Manual (sections A3.3, A3.4, A3.11, A3.12 and A4.1.10).
 */
module Encodings {
  import opened Words
  import opened ArmMachine
  import opened ARMAssemblers
  import Pixels = PixelStages

  // Sums of fields

  /** No bit is set in both. */
  predicate Apart(x: word, y: word) {
    forall i :: 0 <= i < 32 && x[i] ==> !y[i]
  }

  lemma {:induction false} SumFrom(x: word, y: word, lo: nat)
    requires lo <= |x| && Apart(x, y)
    ensures NatOf(Or(x, y), lo, |x|) == NatOf(x, lo, |x|) + NatOf(y, lo, |x|)
    decreases |x| - lo
  {
    if lo < |x| {
      SumFrom(x, y, lo + 1);
    }
  }

  lemma Sum(x: word, y: word)
    requires Apart(x, y)
    ensures Unsigned(Or(x, y)) == Unsigned(x) + Unsigned(y)
  {
    SumFrom(x, y, 0);
  }

  lemma BitOfDouble(v: nat, k: nat)
    ensures BitOf(2 * v, k) == (k > 0 && BitOf(v, k - 1))
  {
    assert 2 * v / 2 == v && 2 * v % 2 == 0;
  }

  lemma {:induction false} BitOfShift(v: nat, at: nat, k: nat)
    ensures BitOf(v * Pow2(at), k) == (k >= at && BitOf(v, k - at))
    decreases at
  {
    if at > 0 {
      assert v * Pow2(at) == 2 * (v * Pow2(at - 1));
      BitOfDouble(v * Pow2(at - 1), k);
      if k > 0 {
        BitOfShift(v, at - 1, k - 1);
      }
    }
  }

  /** A field is its value times the power of two of its place. */
  lemma FieldNumber(v: nat, at: nat, n: nat)
    requires n == v * Pow2(at) < P32
    ensures Unsigned(Field(v, at)) == n
  {
    forall i | 0 <= i < 32
      ensures Field(v, at)[i] == Word(n)[i]
    {
      BitOfShift(v, at, i);
    }
    assert Field(v, at) == Word(n);
    UnsignedWord(n);
  }

  lemma Places()
    ensures Pow2(0) == 1 && Pow2(8) == 0x100 && Pow2(12) == 0x1000 && Pow2(16) == 0x1_0000
    ensures Pow2(20) == 0x10_0000 && Pow2(21) == 0x20_0000 && Pow2(23) == 0x80_0000 && Pow2(24) == 0x100_0000
    ensures Pow2(25) == 0x200_0000 && Pow2(26) == 0x400_0000 && Pow2(28) == 0x1000_0000
  {
    Powers();
    Pow2Add(4, 4);
    Pow2Add(8, 4);
    Pow2Add(8, 8);
    Pow2Add(16, 4);
    Pow2Add(20, 1);
    Pow2Add(24, 1);
    Pow2Add(24, 2);
    Pow2Add(24, 4);
    assert Pow2(1) == 2 && Pow2(2) == 4;
  }

  /** A four-bit field put where there is room for it. */
  lemma AddField(w: word, v: nat, at: nat, n: nat, r: word)
    requires v < 16 && at <= 28 && Clear(w, at, at + 4) && n == v * Pow2(at) < P32 && r == Or(w, Field(v, at))
    ensures Unsigned(r) == Unsigned(w) + n
    ensures forall i :: 0 <= i < 32 && !(at <= i < at + 4) ==> r[i] == w[i]
  {
    FieldIs(v, at);
    FieldNumber(v, at, n);
    Sum(w, Field(v, at));
  }

  /** A single bit put where there is room for it. */
  lemma AddBit(w: word, b: bool, at: nat, n: nat, r: word)
    requires at < 32 && !w[at] && n == B(b) * Pow2(at) < P32 && r == Or(w, Field(B(b), at))
    ensures Unsigned(r) == Unsigned(w) + n && forall i :: 0 <= i < 32 && i != at ==> r[i] == w[i]
  {
    FlagIs(b, at);
    FieldNumber(B(b), at, n);
    Sum(w, Field(B(b), at));
  }

  lemma FieldBit(at: nat)
    requires at < 32
    ensures Bit(at) == Field(B(true), at)
  {
    FlagIs(true, at);
  }

  // Literals, four bits at a time

  lemma FourMore(w: word, lo: nat)
    requires lo + 4 <= |w|
    ensures NatOf(w, lo, |w|) == Nib(w, lo) + 16 * NatOf(w, lo + 4, |w|)
  {
    assert NatOf(w, lo + 1, |w|) == B(w[lo + 1]) + 2 * NatOf(w, lo + 2, |w|);
    assert NatOf(w, lo + 2, |w|) == B(w[lo + 2]) + 2 * NatOf(w, lo + 3, |w|);
    assert NatOf(w, lo + 3, |w|) == B(w[lo + 3]) + 2 * NatOf(w, lo + 4, |w|);
  }

  lemma HighNibbles(w: word)
    ensures NatOf(w, 16, |w|)
         == Nib(w, 16) + 0x10 * Nib(w, 20) + 0x100 * Nib(w, 24) + 0x1000 * Nib(w, 28)
  {
    FourMore(w, 16);
    FourMore(w, 20);
    FourMore(w, 24);
    FourMore(w, 28);
    assert NatOf(w, 32, |w|) == 0;
  }

  lemma Nibbles(w: word)
    ensures Unsigned(w)
         == Nib(w, 0) + 0x10 * Nib(w, 4) + 0x100 * Nib(w, 8) + 0x1000 * Nib(w, 12) + 0x1_0000 * Nib(w, 16)
            + 0x10_0000 * Nib(w, 20) + 0x100_0000 * Nib(w, 24) + 0x1000_0000 * Nib(w, 28)
  {
    FourMore(w, 0);
    FourMore(w, 4);
    FourMore(w, 8);
    FourMore(w, 12);
    HighNibbles(w);
  }

  // Data processing

  lemma DpHeadNumber(opcode: nat, rd: nat, rn: nat, h: word)
    requires opcode < 16 && rd < 16 && rn < 16
    requires h == Or(Or(Or(Field(AL, 28), Field(opcode, 21)), Field(rn, 16)), Field(rd, 12))
    ensures Unsigned(h) == 0xE000_0000 + 0x20_0000 * opcode + 0x1_0000 * rn + 0x1000 * rd
    ensures Clear(h, 0, 12) && Clear(h, 25, 26)
  {
    Places();
    var a := Field(AL, 28);
    FieldIs(AL, 28);
    FieldNumber(AL, 28, 0xE000_0000);
    var b := Or(a, Field(opcode, 21));
    AddField(a, opcode, 21, 0x20_0000 * opcode, b);
    var c := Or(b, Field(rn, 16));
    AddField(b, rn, 16, 0x1_0000 * rn, c);
    AddField(c, rd, 12, 0x1000 * rd, h);
  }

  lemma DpNumber(opcode: nat, rd: nat, rn: nat, op2: word)
    requires opcode < 16 && rd < 16 && rn < 16 && Clear(op2, 12, 25) && Clear(op2, 26, 32)
    ensures Unsigned(DpWord(opcode, rd, rn, op2))
         == 0xE000_0000 + 0x20_0000 * opcode + 0x1_0000 * rn + 0x1000 * rd + Unsigned(op2)
  {
    var h := Or(Or(Or(Field(AL, 28), Field(opcode, 21)), Field(rn, 16)), Field(rd, 12));
    DpHeadNumber(opcode, rd, rn, h);
    Sum(h, op2);
  }

  /** The words of the instructions the code generator uses: AND, EOR, ORR, MOV, BIC and MVN, always executed. */
  lemma DpNumbers(rd: nat, rn: nat, op2: word)
    requires rd < 16 && rn < 16 && Clear(op2, 12, 25) && Clear(op2, 26, 32)
    ensures var rest := 0x1_0000 * rn + 0x1000 * rd + Unsigned(op2);
      && Unsigned(DpWord(AND_OP, rd, rn, op2)) == 0xE000_0000 + rest
      && Unsigned(DpWord(EOR_OP, rd, rn, op2)) == 0xE020_0000 + rest
      && Unsigned(DpWord(ORR_OP, rd, rn, op2)) == 0xE180_0000 + rest
      && Unsigned(DpWord(MOV_OP, rd, rn, op2)) == 0xE1A0_0000 + rest
      && Unsigned(DpWord(BIC_OP, rd, rn, op2)) == 0xE1C0_0000 + rest
      && Unsigned(DpWord(MVN_OP, rd, rn, op2)) == 0xE1E0_0000 + rest
  {
    DpNumber(AND_OP, rd, rn, op2);
    DpNumber(EOR_OP, rd, rn, op2);
    DpNumber(ORR_OP, rd, rn, op2);
    DpNumber(MOV_OP, rd, rn, op2);
    DpNumber(BIC_OP, rd, rn, op2);
    DpNumber(MVN_OP, rd, rn, op2);
  }

  lemma RegNumber(rm: nat)
    requires rm < 16
    ensures Unsigned(RegOp2(rm)) == rm && Clear(RegOp2(rm), 4, 32)
  {
    Places();
    FieldIs(rm, 0);
    FieldNumber(rm, 0, rm);
  }

  lemma ImmNumber(rot: nat, imm: word)
    requires rot < 16 && Below(imm, 8)
    ensures Unsigned(ImmOp2(rot, imm)) == 0x200_0000 + 0x100 * rot + Unsigned(imm)
    ensures Clear(ImmOp2(rot, imm), 12, 25) && Clear(ImmOp2(rot, imm), 26, 32)
  {
    Places();
    FieldBit(25);
    FieldNumber(1, 25, 0x200_0000);
    var h := Or(Bit(25), Field(rot, 8));
    FieldIs(rot, 8);
    AddField(Bit(25), rot, 8, 0x100 * rot, h);
    Sum(h, imm);
  }

  lemma OnesNumber()
    ensures Unsigned(Ones(8)) == 0xFF
  {
    Nibbles(Ones(8));
  }

  /** AND r1, r0, #0xFF */
  lemma AndLiteral()
    ensures Unsigned(DpWord(AND_OP, 1, 0, ImmOp2(0, Ones(8)))) == 0xE200_10FF
  {
    OnesNumber();
    ImmNumber(0, Ones(8));
    DpNumbers(1, 0, ImmOp2(0, Ones(8)));
  }

  /** MOV r0, r0 */
  lemma NopLiteral()
    ensures Unsigned(Nop()) == 0xE1A0_0000
  {
    RegNumber(0);
    DpNumbers(0, 0, RegOp2(0));
  }

  // Block transfers

  lemma BlockHeadNumber(load: bool, before: bool, up: bool, writeBack: bool, rn: nat, h: word)
    requires rn < 16
    requires h == Or(Or(Or(Or(Or(Or(Field(AL, 28), Field(4, 25)), Field(B(before), 24)), Field(B(up), 23)),
                           Field(B(load), 20)), Field(B(writeBack), 21)), Field(rn, 16))
    ensures Unsigned(h) == 0xE800_0000 + 0x100_0000 * B(before) + 0x80_0000 * B(up) + 0x20_0000 * B(writeBack)
                           + 0x10_0000 * B(load) + 0x1_0000 * rn
    ensures Clear(h, 0, 16)
  {
    Places();
    var a, b := Field(AL, 28), Or(Field(AL, 28), Field(4, 25));
    FieldIs(AL, 28);
    FourAt25();
    FieldNumber(AL, 28, 0xE000_0000);
    FieldNumber(4, 25, 0x800_0000);
    Sum(a, Field(4, 25));
    BlockBits(b, load, before, up, writeBack, rn, h);
  }

  lemma BlockBits(b: word, load: bool, before: bool, up: bool, writeBack: bool, rn: nat, h: word)
    requires rn < 16 && Clear(b, 0, 25)
    requires h == Or(Or(Or(Or(Or(b, Field(B(before), 24)), Field(B(up), 23)),
                           Field(B(load), 20)), Field(B(writeBack), 21)), Field(rn, 16))
    ensures Unsigned(h) == Unsigned(b) + 0x100_0000 * B(before) + 0x80_0000 * B(up) + 0x20_0000 * B(writeBack)
                           + 0x10_0000 * B(load) + 0x1_0000 * rn
    ensures Clear(h, 0, 16)
  {
    Places();
    var c := Or(b, Field(B(before), 24));
    AddBit(b, before, 24, 0x100_0000 * B(before), c);
    var d := Or(c, Field(B(up), 23));
    AddBit(c, up, 23, 0x80_0000 * B(up), d);
    var e := Or(d, Field(B(load), 20));
    AddBit(d, load, 20, 0x10_0000 * B(load), e);
    var f := Or(e, Field(B(writeBack), 21));
    AddBit(e, writeBack, 21, 0x20_0000 * B(writeBack), f);
    AddField(f, rn, 16, 0x1_0000 * rn, h);
  }

  lemma BlockNumber(load: bool, before: bool, up: bool, writeBack: bool, rn: nat, list: word)
    requires rn < 16 && Below(list, 16)
    ensures Unsigned(BlockWord(load, before, up, writeBack, rn, list))
         == 0xE800_0000 + 0x100_0000 * B(before) + 0x80_0000 * B(up) + 0x20_0000 * B(writeBack)
            + 0x10_0000 * B(load) + 0x1_0000 * rn + Unsigned(list)
  {
    var h := Or(Or(Or(Or(Or(Or(Field(AL, 28), Field(4, 25)), Field(B(before), 24)), Field(B(up), 23)),
                      Field(B(load), 20)), Field(B(writeBack), 21)), Field(rn, 16));
    BlockHeadNumber(load, before, up, writeBack, rn, h);
    Sum(h, list);
  }

  /** The four stack modes of STM and LDM, with write-back. */
  lemma StackNumbers(rn: nat, list: word)
    requires rn < 16 && Below(list, 16)
    ensures var rest := 0x1_0000 * rn + Unsigned(list);
      && Unsigned(StmWord(ED, rn, list)) == 0xE820_0000 + rest && Unsigned(LdmWord(ED, rn, list)) == 0xE9B0_0000 + rest
      && Unsigned(StmWord(FD, rn, list)) == 0xE920_0000 + rest && Unsigned(LdmWord(FD, rn, list)) == 0xE8B0_0000 + rest
      && Unsigned(StmWord(EA, rn, list)) == 0xE8A0_0000 + rest && Unsigned(LdmWord(EA, rn, list)) == 0xE930_0000 + rest
      && Unsigned(StmWord(FA, rn, list)) == 0xE9A0_0000 + rest && Unsigned(LdmWord(FA, rn, list)) == 0xE830_0000 + rest
  {
    StackNumber(ED, rn, list);
    StackNumber(FD, rn, list);
    StackNumber(EA, rn, list);
    StackNumber(FA, rn, list);
  }

  lemma StackNumber(m: Mode, rn: nat, list: word)
    requires rn < 16 && Below(list, 16)
    ensures Unsigned(StmWord(m, rn, list))
         == 0xE820_0000 + 0x100_0000 * B(m == FD || m == FA) + 0x80_0000 * B(m == EA || m == FA)
            + 0x1_0000 * rn + Unsigned(list)
    ensures Unsigned(LdmWord(m, rn, list))
         == 0xE830_0000 + 0x100_0000 * B(m == ED || m == EA) + 0x80_0000 * B(m == ED || m == FD)
            + 0x1_0000 * rn + Unsigned(list)
  {
    BlockNumber(false, StmBefore(m), StmUp(m), true, rn, list);
    BlockNumber(true, LdmBefore(m), LdmUp(m), true, rn, list);
  }

  // Branches, loads and stores

  lemma BxBitsNumber(w: word)
    requires w == BxBits()
    ensures Unsigned(w) == 0x12F_FF10
  {
    assert Nib(w, 0) == 0 && Nib(w, 4) == 1 && Nib(w, 8) == 15 && Nib(w, 12) == 15;
    assert Nib(w, 16) == 15 && Nib(w, 20) == 2 && Nib(w, 24) == 1 && Nib(w, 28) == 0;
    Nibbles(w);
  }

  lemma BxNumber(rn: nat)
    requires rn < 16
    ensures Unsigned(BxWord(rn)) == 0xE12F_FF10 + rn
  {
    Places();
    var h, b := Field(AL, 28), BxBits();
    var a := Or(h, b);
    FieldIs(AL, 28);
    FieldNumber(AL, 28, 0xE000_0000);
    BxBitsNumber(b);
    Sum(h, b);
    AddField(a, rn, 0, rn, Or(a, Field(rn, 0)));
  }

  /** BX goes on at the address in its register; r15 is the program counter. */
  lemma BxRuns(rn: nat, c: Cpu)
    requires rn < 16
    ensures Run([BxWord(rn)], c) == Cpu(c.regs[15 := c.regs[rn]], c.mem)
  {
    DecodeBx(rn);
    RunOne(BxWord(rn), c);
  }

  lemma BranchNumber(cc: nat, link: bool, pc: nat, target: nat)
    requires cc < 16
    ensures Unsigned(BranchWord(cc, link, pc, target))
         == 0x1000_0000 * cc + (if link then 0xB00_0000 else 0xA00_0000) + (target - pc - 2) % 0x100_0000
  {
    Places();
    var u := (target - (pc + 2)) % 0x100_0000;
    var k := if link then 0xB else 0xA;
    FieldIs(cc, 28);
    FieldNumber(cc, 28, 0x1000_0000 * cc);
    AddField(Field(cc, 28), k, 24, 0x100_0000 * k, BranchHead(cc, link));
    BranchHeadIs(cc, link);
    FieldOf24(u);
    UnsignedWord(u);
    Sum(BranchHead(cc, link), Word(u));
  }

  lemma MemNumber(load: bool, rd: nat, rn: nat, offset: word)
    requires rd < 16 && rn < 16 && Clear(offset, 12, 23) && Clear(offset, 25, 32)
    ensures Unsigned(MemWord(load, rd, rn, offset))
         == 0xE400_0000 + 0x10_0000 * B(load) + 0x1_0000 * rn + 0x1000 * rd + Unsigned(offset)
  {
    Places();
    var a := Field(AL, 28);
    FieldIs(AL, 28);
    FieldNumber(AL, 28, 0xE000_0000);
    FieldBit(26);
    var b := Or(a, Bit(26));
    AddBit(a, true, 26, 0x400_0000, b);
    var c := Or(b, Field(B(load), 20));
    AddBit(b, load, 20, 0x10_0000 * B(load), c);
    MemTail(c, rd, rn, offset);
  }

  lemma MemTail(c: word, rd: nat, rn: nat, offset: word)
    requires rd < 16 && rn < 16 && Clear(offset, 12, 23) && Clear(offset, 25, 32)
    requires Clear(c, 0, 20) && Clear(c, 21, 26)
    ensures Unsigned(Or(Or(Or(c, Field(rn, 16)), Field(rd, 12)), offset))
         == Unsigned(c) + 0x1_0000 * rn + 0x1000 * rd + Unsigned(offset)
  {
    Places();
    var d := Or(c, Field(rn, 16));
    AddField(c, rn, 16, 0x1_0000 * rn, d);
    var e := Or(d, Field(rd, 12));
    AddField(d, rd, 12, 0x1000 * rd, e);
    Sum(e, offset);
  }

  /** LDR rd, [rn, #v] and STR rd, [rn], #v, and the other two. */
  lemma TransferNumbers(rd: nat, rn: nat, v: nat)
    requires rd < 16 && rn < 16 && v < 0x800
    ensures var rest := 0x1_0000 * rn + 0x1000 * rd + v;
      && Unsigned(MemWord(true, rd, rn, Immed12Pre(v))) == 0xE590_0000 + rest
      && Unsigned(MemWord(true, rd, rn, Immed12Post(v))) == 0xE490_0000 + rest
      && Unsigned(MemWord(false, rd, rn, Immed12Pre(v))) == 0xE580_0000 + rest
      && Unsigned(MemWord(false, rd, rn, Immed12Post(v))) == 0xE480_0000 + rest
  {
    OffsetNumbers(v);
    MemNumber(true, rd, rn, Immed12Pre(v));
    MemNumber(true, rd, rn, Immed12Post(v));
    MemNumber(false, rd, rn, Immed12Pre(v));
    MemNumber(false, rd, rn, Immed12Post(v));
  }

  lemma OffsetNumbers(v: nat)
    requires v < 0x800
    ensures Unsigned(Immed12Pre(v)) == 0x180_0000 + v && Unsigned(Immed12Post(v)) == 0x80_0000 + v
    ensures Clear(Immed12Pre(v), 12, 23) && Clear(Immed12Pre(v), 25, 32)
    ensures Clear(Immed12Post(v), 12, 23) && Clear(Immed12Post(v), 25, 32)
  {
    Places();
    OffsetIs(v);
    UnsignedWord(v);
    var f := Field(v, 0);
    PostNumber(v, f);
    PreNumber(v, f);
  }

  lemma PostNumber(v: nat, f: word)
    requires f == Field(v, 0) && Unsigned(f) == v && Clear(f, 12, 32)
    ensures Unsigned(Immed12Post(v)) == 0x80_0000 + v
  {
    Places();
    FieldBit(23);
    FieldNumber(1, 23, 0x80_0000);
    Sum(Bit(23), f);
  }

  lemma PreNumber(v: nat, f: word)
    requires f == Field(v, 0) && Unsigned(f) == v && Clear(f, 12, 32)
    ensures Unsigned(Immed12Pre(v)) == 0x180_0000 + v
  {
    Places();
    var a, b := Bit(24), Bit(23);
    FieldBit(24);
    FieldBit(23);
    FieldNumber(1, 24, 0x100_0000);
    FieldNumber(1, 23, 0x80_0000);
    Sum(a, b);
    Sum(Or(a, b), f);
  }

  // Prolog and epilog

  lemma SavedNumber(w: word)
    requires w == LSAVED()
    ensures Unsigned(w) == 0x4FF0 && Below(w, 16)
  {
    assert Nib(w, 0) == 0 && Nib(w, 4) == 15 && Nib(w, 8) == 15 && Nib(w, 12) == 4;
    assert Nib(w, 16) == 0 && Nib(w, 20) == 0 && Nib(w, 24) == 0 && Nib(w, 28) == 0;
    Nibbles(w);
  }

  lemma SavesAll(w: word)
    requires w == LSAVED()
    ensures And(w, LSAVED()) != Zero() && Saved(w) == w
  {
    assert And(w, LSAVED())[4] && !Zero()[4];
  }

  /** The prolog and epilog of a routine that touches r4 to r11: they push and pop r4 to r11 and lr on r13. */
  lemma FrameLiterals(touched: word)
    requires touched == LSAVED()
    ensures Unsigned(PrologWord(touched)) == 0xE92D_4FF0
    ensures |EpilogWords(touched)| == 2
    ensures Unsigned(EpilogWords(touched)[0]) == 0xE8BD_4FF0 && Unsigned(EpilogWords(touched)[1]) == 0xE12F_FF1E
  {
    SavesAll(touched);
    SavedNumber(touched);
    StackNumbers(SP, touched);
    BxNumber(LR);
  }

  // Colour masks

  predicate WrittenBy(fmt: Pixels.Format, masked: Pixels.Channels, b: nat) {
    || (!masked[0] && Pixels.InComponent(fmt[0], b)) || (!masked[1] && Pixels.InComponent(fmt[1], b))
    || (!masked[2] && Pixels.InComponent(fmt[2], b)) || (!masked[3] && Pixels.InComponent(fmt[3], b))
  }

  lemma MaskIs(fmt: Pixels.Format, masked: Pixels.Channels, w: word)
    requires w == Pixels.MaskOf(fmt, masked)
    ensures forall b :: 0 <= b < 32 ==> w[b] == WrittenBy(fmt, masked, b)
  {
  }

  /** Four bytes, red lowest and alpha highest. */
  function Rgba8888(): Pixels.Format {
    [Pixels.Component(32, 24), Pixels.Component(8, 0), Pixels.Component(16, 8), Pixels.Component(24, 16)]
  }

  /** Five, six and five bits, blue lowest, and no alpha. */
  function Rgb565(): Pixels.Format {
    [Pixels.Component(0, 0), Pixels.Component(16, 11), Pixels.Component(11, 5), Pixels.Component(5, 0)]
  }

  lemma LowNumber(w: word)
    requires forall b :: 0 <= b < 32 ==> (w[b] <==> b < 24)
    ensures Unsigned(w) == 0xFF_FFFF
  {
    assert Nib(w, 0) == 15 && Nib(w, 4) == 15 && Nib(w, 8) == 15 && Nib(w, 12) == 15;
    assert Nib(w, 16) == 15 && Nib(w, 20) == 15 && Nib(w, 24) == 0 && Nib(w, 28) == 0;
    Nibbles(w);
  }

  lemma OuterNumber(w: word)
    requires forall b :: 0 <= b < 32 ==> (w[b] <==> b < 5 || 11 <= b < 16)
    ensures Unsigned(w) == 0xF81F
  {
    assert Nib(w, 0) == 15 && Nib(w, 4) == 1 && Nib(w, 8) == 8 && Nib(w, 12) == 15;
    assert Nib(w, 16) == 0 && Nib(w, 20) == 0 && Nib(w, 24) == 0 && Nib(w, 28) == 0;
    Nibbles(w);
  }

  /** Four bytes with alpha masked. */
  lemma Mask8888(w: word)
    requires w == Pixels.MaskOf(Rgba8888(), [true, false, false, false])
    ensures Unsigned(w) == 0xFF_FFFF
  {
    MaskIs(Rgba8888(), [true, false, false, false], w);
    LowNumber(w);
  }

  /** 5-6-5 with green masked. */
  lemma Mask565(w: word)
    requires w == Pixels.MaskOf(Rgb565(), [false, false, true, false])
    ensures Unsigned(w) == 0xF81F
  {
    MaskIs(Rgb565(), [false, false, true, false], w);
    OuterNumber(w);
  }
}
