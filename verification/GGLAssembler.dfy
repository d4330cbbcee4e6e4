/**
 GGLAssembler.cpp: AND with a constant, against the machine the emitted words run on.
 */
module GGLAssemblers {
  import opened Words
  import opened Immediates
  import opened ArmMachine
  import opened ARMAssemblers
  import opened MaskChunks
  import opened Sequences

  // AND with a constant, as arithmetic on words

  /** The bits of its operand that the code emitted for an AND with `mask` over `bits` bits keeps. */
  ghost function KeepMask(mask: word, bits: nat): word {
    var size := Ones(bits);
    var kept := And(mask, size);
    if kept == size then Ones(32)
    else if Encodable(kept) then kept
    else Not(BicMask(And(Not(kept), size)))
  }

  ghost function AndResult(x: word, mask: word, bits: nat): word {
    And(x, KeepMask(mask, bits))
  }

  /** The union of the BIC immediates for `mask`. */
  function BicMask(mask: word): word {
    Cleared(Ror(mask, FirstStop(mask, 0)), FirstStop(mask, 0))
  }

  /** The emitted sequence is right for this mask: see AndResultIff. */
  ghost predicate AndFits(mask: word, bits: nat) {
    var size := Ones(bits);
    var kept := And(mask, size);
    kept == size || Encodable(kept) || BicFits(And(Not(kept), size))
  }

  predicate BicFits(mask: word) {
    Fits(Ror(mask, FirstStop(mask, 0)), FirstStop(mask, 0))
  }

  lemma RolWindow(mask: word, y: word, r: nat)
    requires Window(y, mask, r)
    ensures Rol(y, r) == mask
  {
    forall j | 0 <= j < 32
      ensures Rol(y, r)[j] == mask[j]
    {
      RolBit(y, r, j);
    }
  }

  lemma RolRor(mask: word, r: nat)
    requires r < 32
    ensures Rol(Ror(mask, r), r) == mask
  {
    RorWindow(mask, r);
    RolWindow(mask, Ror(mask, r), r);
  }

  lemma BicMaskIff(mask: word)
    ensures BicFits(mask) ==> BicMask(mask) == mask
    ensures !BicFits(mask) ==> exists j :: 0 <= j < 32 && mask[j] && !BicMask(mask)[j]
  {
    var r := FirstStop(mask, 0);
    RolRor(mask, r);
    if BicFits(mask) {
      FittingChunksClearAll(Ror(mask, r), r);
    } else {
      var j := LostBit(Ror(mask, r), r);
    }
  }

  /** The low bits of the result are the AND for every operand exactly when no chunk is turned past 32. */
  lemma AndResultIff(mask: word, bits: nat)
    ensures (forall x: word :: And(AndResult(x, mask, bits), Ones(bits)) == And(And(x, mask), Ones(bits)))
       <==> AndFits(mask, bits)
  {
    var n := And(Not(And(mask, Ones(bits))), Ones(bits));
    BicMaskIff(n);
    if AndFits(mask, bits) {
      forall x: word
        ensures And(AndResult(x, mask, bits), Ones(bits)) == And(And(x, mask), Ones(bits))
      {
        AndResultRight(x, mask, bits);
      }
    } else {
      var j :| 0 <= j < 32 && n[j] && !BicMask(n)[j];
      var x := Ones(32);
      assert AndResult(x, mask, bits)[j] && !And(And(x, mask), Ones(bits))[j];
      assert And(AndResult(x, mask, bits), Ones(bits))[j];
    }
  }

  lemma AndResultRight(x: word, mask: word, bits: nat)
    requires AndFits(mask, bits)
    ensures And(AndResult(x, mask, bits), Ones(bits)) == And(And(x, mask), Ones(bits))
  {
    var kept := And(mask, Ones(bits));
    BicMaskIff(And(Not(kept), Ones(bits)));
    if kept == Ones(bits) {
      KeptAll(x, mask, bits);
    }
  }

  lemma KeptAll(x: word, mask: word, bits: nat)
    requires And(mask, Ones(bits)) == Ones(bits)
    ensures And(x, Ones(bits)) == And(And(x, mask), Ones(bits))
  {
    forall i | 0 <= i < 32
      ensures And(x, Ones(bits))[i] == And(And(x, mask), Ones(bits))[i]
    {
      assert And(mask, Ones(bits))[i] == Ones(bits)[i];
    }
  }

  /** All masks over at most 26 bits are fine. */
  lemma NarrowMasksFit(mask: word, bits: nat)
    requires bits <= 26
    ensures AndFits(mask, bits)
  {
    var kept := And(mask, Ones(bits));
    var n := And(Not(kept), Ones(bits));
    if n == Zero() {
      forall i | 0 <= i < 32
        ensures kept[i] == Ones(bits)[i]
      {
        assert n[i] == Zero()[i];
      }
      assert kept == Ones(bits);
    } else {
      SmallMasksFit(n);
    }
  }

  /** A word whose bytes are all-zero or all-one. */
  function ByteWord(b0: bool, b1: bool, b2: bool, b3: bool): word {
    seq(32, i requires 0 <= i < 32 => if i < 8 then b0 else if i < 16 then b1 else if i < 24 then b2 else b3)
  }

  lemma ByteTurn8(b0: bool, b1: bool, b2: bool, b3: bool)
    ensures Ror(ByteWord(b0, b1, b2, b3), 8) == ByteWord(b1, b2, b3, b0)
  {
    var w, v := ByteWord(b0, b1, b2, b3), ByteWord(b1, b2, b3, b0);
    forall i | 0 <= i < 32
      ensures Ror(w, 8)[i] == v[i]
    {
      assert (i + 8) % 32 == if i < 24 then i + 8 else i - 24;
    }
  }

  lemma ByteTurn(b0: bool, b1: bool, b2: bool, b3: bool)
    ensures Ror(ByteWord(b0, b1, b2, b3), 8) == ByteWord(b1, b2, b3, b0)
    ensures Ror(ByteWord(b0, b1, b2, b3), 16) == ByteWord(b2, b3, b0, b1)
    ensures Ror(ByteWord(b0, b1, b2, b3), 24) == ByteWord(b3, b0, b1, b2)
  {
    var w := ByteWord(b0, b1, b2, b3);
    ByteTurn8(b0, b1, b2, b3);
    ByteTurn8(b1, b2, b3, b0);
    ByteTurn8(b2, b3, b0, b1);
    RorRor(w, 8, 8);
    RorRor(w, 16, 8);
  }

  /** One byte set: an immediate. */
  lemma OneByte(b0: bool, b1: bool, b2: bool, b3: bool)
    requires B(b0) + B(b1) + B(b2) + B(b3) <= 1
    ensures Encodable(ByteWord(b0, b1, b2, b3))
  {
    var low := ByteWord(true, false, false, false);
    RorFull(low, 0);
    ByteTurn(true, false, false, false);
    RorFull(Zero(), 0);
    var w := ByteWord(b0, b1, b2, b3);
    assert b0 ==> w == low && IsEncoding(w, 0, low);
    assert b1 ==> w == ByteWord(false, true, false, false) && IsEncoding(w, 12, low);
    assert b2 ==> w == ByteWord(false, false, true, false) && IsEncoding(w, 8, low);
    assert b3 ==> w == ByteWord(false, false, false, true) && IsEncoding(w, 4, low);
    assert !b0 && !b1 && !b2 && !b3 ==> w == Zero() && IsEncoding(w, 0, Zero());
  }

  /** A byte word stops at a set byte with a clear one below it; the chunks then lie low enough. */
  lemma BytesFit(b0: bool, b1: bool, b2: bool, b3: bool, k: nat)
    requires k == 0 || k == 8 || k == 16 || k == 24
    requires var w := ByteWord(b0, b1, b2, b3);
      && !Blocked(w, k) && (forall t :: 0 <= t < k && t % 2 == 0 ==> Blocked(w, t))
      && (Below(Ror(w, k), 33 - k) || (k == 24 && Ror(w, k) == ByteWord(true, true, false, false)))
    ensures BicFits(ByteWord(b0, b1, b2, b3))
  {
    var w := ByteWord(b0, b1, b2, b3);
    FirstUnblocked(w, k);
    if Below(Ror(w, k), 33 - k) {
      LowMasksFit(Ror(w, k), k, 33 - k);
    } else {
      PairFits();
    }
  }

  lemma PairFits()
    ensures Fits(ByteWord(true, true, false, false), 24)
  {
    OnlyChunkFits(ByteWord(false, true, false, false), 8, 24);
    FirstChunkFits(ByteWord(true, true, false, false), ByteWord(false, true, false, false), 0, 24);
  }

  lemma FirstChunkFits(v: word, r: word, b: nat, rot: nat)
    requires b % 2 == 0 && b + rot <= 32 && b < 32 && v[b] && (forall i :: 0 <= i < b ==> !v[i])
    requires forall i :: 0 <= i < 32 ==> r[i] == (v[i] && i >= b + 8)
    requires Fits(r, rot)
    ensures Fits(v, rot)
  {
    assert Bottom(v) == b;
    forall i | 0 <= i < 32
      ensures Rest(v)[i] == r[i]
    {
      ChunkBits(v, i);
    }
    assert Rest(v) == r;
  }

  lemma OnlyChunkFits(v: word, b: nat, rot: nat)
    requires b % 2 == 0 && b + rot <= 32 && b < 32 && v[b]
    requires forall i :: 0 <= i < 32 && v[i] ==> b <= i < b + 8
    ensures Fits(v, rot)
  {
    FirstChunkFits(v, Zero(), b, rot);
  }

  /** Byte-granular masks of a 32-bit pixel. */
  lemma ByteMasksFit(b0: bool, b1: bool, b2: bool, b3: bool)
    ensures AndFits(ByteWord(b0, b1, b2, b3), 32)
  {
    var mask, size := ByteWord(b0, b1, b2, b3), Ones(32);
    var n := ByteWord(!b0, !b1, !b2, !b3);
    assert And(mask, size) == mask && And(Not(mask), size) == n;
    var kept := B(b0) + B(b1) + B(b2) + B(b3);
    if kept <= 1 {
      OneByte(b0, b1, b2, b3);
    } else if kept == 4 {
      assert mask == size;
    } else {
      GapsFit(!b0, !b1, !b2, !b3);
    }
  }

  lemma GapsFit(n0: bool, n1: bool, n2: bool, n3: bool)
    requires 1 <= B(n0) + B(n1) + B(n2) + B(n3) <= 2
    ensures BicFits(ByteWord(n0, n1, n2, n3))
  {
    if n0 && !n3 {
      RorFull(ByteWord(n0, n1, n2, n3), 0);
      BytesFit(n0, n1, n2, n3, 0);
    } else if n1 && !n0 {
      SecondGapFits(n2, n3);
    } else if n2 && !n1 {
      ThirdGapFits(n3);
    } else {
      TopGapsFit(n0, ByteWord(n0, n1, n2, n3));
    }
  }

  lemma SecondGapFits(n2: bool, n3: bool)
    requires B(n2) + B(n3) <= 1
    ensures BicFits(ByteWord(false, true, n2, n3))
  {
    var n := ByteWord(false, true, n2, n3);
    ByteTurn8(false, true, n2, n3);
    assert forall t :: 0 <= t < 8 ==> !n[t];
    BytesFit(false, true, n2, n3, 8);
  }

  lemma ThirdGapFits(n3: bool)
    ensures BicFits(ByteWord(false, false, true, n3))
  {
    var n := ByteWord(false, false, true, n3);
    ByteTurn(false, false, true, n3);
    assert forall t :: 0 <= t < 16 ==> !n[t];
    BytesFit(false, false, true, n3, 16);
  }

  /** The top byte, with or without the lowest. */
  lemma TopGapsFit(n0: bool, n: word)
    requires n == ByteWord(n0, false, false, true)
    ensures BicFits(n)
  {
    ByteTurn(n0, false, false, true);
    assert forall t :: 8 <= t < 24 ==> !n[t];
    assert forall t :: 0 <= t < 8 && n[t] ==> Turned(n, t, 31);
    BytesFit(n0, false, false, true, 24);
  }

  /** Not every 32-bit mask is fine: the third chunk of this one is turned by 40 places. */
  function UnluckyMask(): word {
    Not(UnluckyGaps())
  }

  /** 0x80100210 */
  function UnluckyGaps(): word {
    seq(32, i requires 0 <= i < 32 => i == 4 || i == 9 || i == 20 || i == 31)
  }

  lemma UnluckyMaskDoesNotFit(mask: word)
    requires mask == UnluckyMask()
    ensures !AndFits(mask, 32)
    ensures exists x: word :: And(AndResult(x, mask, 32), Ones(32)) != And(And(x, mask), Ones(32))
  {
    var n := And(Not(mask), Ones(32));
    assert And(mask, Ones(32)) == mask && n == UnluckyGaps();
    assert mask[0] && !mask[4] && Ones(32)[4];
    UnluckyNotEncodable(mask);
    UnluckyDoesNotFit(n);
    AndResultIff(mask, 32);
  }

  lemma UnluckyNotEncodable(mask: word)
    requires mask == UnluckyMask()
    ensures !Encodable(mask)
  {
    forall k | 0 <= k < 31 && k % 2 == 0
      ensures !Stops(Ror(mask, k))
    {
      BlockedIs(mask, k);
      assert Turned(mask, k, 26) || Turned(mask, k, 27);
    }
    assert NoStop(mask, 32);
    RorFull(mask, 0);
    assert mask[0] && mask[8];
    NotFound(mask, 0);
  }

  lemma UnluckyDoesNotFit(n: word)
    requires n == UnluckyGaps()
    ensures !BicFits(n)
  {
    assert Turned(n, 4, 27) && Turned(n, 8, 28);
    FirstUnblocked(n, 20);
    RorWindow(n, 20);
    LastChunkTooFar(Ror(n, 20));
  }

  lemma LastChunkTooFar(v: word)
    requires forall i :: 0 <= i < 32 ==> v[i] == (i == 0 || i == 11 || i == 16 || i == 21)
    ensures !Fits(v, 20)
  {
    assert Bottom(v) == 0;
    assert forall i :: 0 <= i < 32 ==> Rest(v)[i] == (i == 11 || i == 16 || i == 21);
    TooFarFromTen(Rest(v));
  }

  lemma TooFarFromTen(v: word)
    requires forall i :: 0 <= i < 32 ==> v[i] == (i == 11 || i == 16 || i == 21)
    ensures !Fits(v, 20)
  {
    assert v[11] && Bottom(v) == 10;
    assert forall i :: 0 <= i < 32 ==> Rest(v)[i] == (i == 21);
    assert Rest(v)[21] && Bottom(Rest(v)) == 20;
  }

  // The emitted code

  function SetReg(c: Cpu, d: nat, v: word): Cpu
    requires d < 16
  {
    Cpu(c.regs[d := v], c.mem)
  }

  /** Whatever the machine state, `code` puts the bits `keep` of register s into d and does nothing else. */
  ghost predicate Keeps(code: seq<word>, d: nat, s: nat, keep: word)
    requires d < 16 && s < 16
  {
    forall c: Cpu {:trigger Run(code, c)} :: Run(code, c) == SetReg(c, d, And(c.regs[s], keep))
  }

  /** imm: fatal for a word without encoding. */
  method ImmOperand(immediate: word) returns (op2: word)
    requires Encodable(immediate)
    ensures DecodeOperand(op2) == Imm(immediate)
    ensures Clear(op2, 12, 25) && Clear(op2, 26, 32) && op2[25]
  {
    var err, rot, imm := BuildImmediate(immediate);
    op2 := ImmOp2(rot, imm);
    DecodeImm(rot, imm);
  }

  /** One data-processing instruction, with what its word decodes to. */
  method EmitDp(asm: ARMAssembler, opcode: nat, rd: nat, rn: nat, op2: word) returns (ghost w: word)
    requires asm.Valid() && opcode < 16 && opcode != 9 && rd < 16 && rn < 16
    requires Clear(op2, 12, 25) && Clear(op2, 26, 32) && (op2[25] || Clear(op2, 4, 12))
    modifies asm`code, asm`pc
    ensures asm.Valid() && asm.code == old(asm.code) + [w]
    ensures Decode(w) == Dp(opcode, rd, rn, DecodeOperand(op2))
  {
    w := DpWord(opcode, rd, rn, op2);
    DecodeDp(opcode, rd, rn, op2);
    asm.DataProcessing(opcode, rd, rn, op2);
  }

  lemma DpKeeps(w: word, opcode: nat, d: nat, s: nat, op: Operand, keep: word)
    requires d < 16 && s < 16
    requires (opcode == AND_OP && op == Imm(keep)) || (opcode == BIC_OP && op.Imm? && keep == Not(op.v))
    requires Decode(w) == Dp(opcode, d, s, op)
    ensures Keeps([w], d, s, keep)
  {
    forall c: Cpu
      ensures Run([w], c) == SetReg(c, d, And(c.regs[s], keep))
    {
      RunOne(w, c);
    }
  }

  lemma MovKeeps(w: word, d: nat, s: nat)
    requires d < 16 && s < 16 && Decode(w) == Dp(MOV_OP, d, 0, Reg(s))
    ensures Keeps([w], d, s, Ones(32))
  {
    forall c: Cpu
      ensures Run([w], c) == SetReg(c, d, And(c.regs[s], Ones(32)))
    {
      RunOne(w, c);
      AndOnes(c.regs[s]);
    }
  }

  lemma AndZero(x: word, z: word)
    requires Below(z, 0)
    ensures And(x, z) == z
  {
  }

  lemma ZeroKeeps(w: word, d: nat, s: nat, z: word)
    requires d < 16 && s < 16 && Below(z, 0) && Decode(w) == Dp(MOV_OP, d, 0, Imm(z))
    ensures Keeps([w], d, s, z)
  {
    forall c: Cpu
      ensures Run([w], c) == SetReg(c, d, And(c.regs[s], z))
    {
      RunOne(w, c);
      AndZero(c.regs[s], z);
    }
  }

  lemma NothingKeeps(d: nat)
    requires d < 16
    ensures Keeps([], d, d, Ones(32))
  {
    forall c: Cpu
      ensures Run([], c) == SetReg(c, d, And(c.regs[d], Ones(32)))
    {
      assert And(c.regs[d], Ones(32)) == c.regs[d];
      assert c.regs[d := c.regs[d]] == c.regs;
    }
  }

  lemma TwoSteps(c: Cpu, c1: Cpu, c2: Cpu, d: nat, s: nat, j: word, k: word)
    requires d < 16 && s < 16
    requires c1 == SetReg(c, d, And(c.regs[s], j)) && c2 == SetReg(c1, d, And(c1.regs[d], k))
    ensures c2 == SetReg(c, d, And(c.regs[s], And(j, k)))
  {
    assert And(And(c.regs[s], j), k) == And(c.regs[s], And(j, k));
  }

  lemma RunTwo(a: seq<word>, b: seq<word>, c: Cpu, d: nat, s: nat, j: word, k: word)
    requires d < 16 && s < 16 && Keeps(a, d, s, j) && Keeps(b, d, d, k)
    ensures Run(a + b, c) == SetReg(c, d, And(c.regs[s], And(j, k)))
  {
    var c1 := Run(a, c);
    var c2 := Run(b, c1);
    RunAppend(a, b, c);
    TwoSteps(c, c1, c2, d, s, j, k);
  }

  /** A second step that works on d in place. */
  lemma KeepsThen(a: seq<word>, b: seq<word>, d: nat, s: nat, j: word, k: word)
    requires d < 16 && s < 16 && Keeps(a, d, s, j) && Keeps(b, d, d, k)
    ensures Keeps(a + b, d, s, And(j, k))
  {
    var both := a + b;
    forall c: Cpu
      ensures Run(both, c) == SetReg(c, d, And(c.regs[s], And(j, k)))
    {
      RunTwo(a, b, c, d, s, j, k);
    }
  }

  lemma ZeroEncodable()
    ensures Encodable(Zero())
  {
    RorFull(Zero(), 0);
    assert IsEncoding(Zero(), 0, Zero());
  }

  lemma RorZero(w: word, r: nat)
    requires r < 32 && Ror(w, r) == Zero()
    ensures w == Zero()
  {
    RolRor(w, r);
    forall j | 0 <= j < 32
      ensures w[j] == Zero()[j]
    {
      RolBit(Ror(w, r), r, j);
    }
  }

  lemma GapsNotEmpty(mask: word, bits: nat)
    requires And(Not(And(mask, Ones(bits))), Ones(bits)) == Zero()
    ensures And(mask, Ones(bits)) == Ones(bits)
  {
    forall i | 0 <= i < 32
      ensures And(mask, Ones(bits))[i] == Ones(bits)[i]
    {
      assert And(Not(And(mask, Ones(bits))), Ones(bits))[i] == Zero()[i];
    }
  }

  lemma SmallIsChunk(v: word)
    requires Below(v, 8) && Low2(v)
    ensures v != Zero() && Rest(v) == Zero() && Chunk(v) == v
  {
    assert v[0] != Zero()[0] || v[1] != Zero()[1];
    assert Bottom(v) == 0;
    assert Chunk(v) == v;
  }

  /** An encodable word is a single chunk, turned back to where it came from. */
  lemma OneChunk(w: word, v: word, rot: nat)
    requires Encodable(w) && w != Zero() && rot < 32 && rot % 2 == 0 && v == Ror(w, rot)
    requires Stops(v) || NoStop(w, 32)
    ensures v != Zero() && Rest(v) == Zero() && NewMask(v, rot) == w
  {
    var r: nat, m: word :| IsEncoding(w, r, m);
    var k := StopExists(w, r, m);
    StopIsSmall(w, r, m, rot);
    SmallIsChunk(v);
    NewMaskRotates(v, rot);
    RolRor(w, rot);
  }

  lemma AndOnes(x: word)
    ensures And(Ones(32), x) == x && And(x, Ones(32)) == x && And(x, Not(Zero())) == x
  {
  }

  /** The emitted steps so far, and one more on the register they left their result in. */
  lemma KeepNext(a: seq<word>, w: word, d: nat, s0: nat, s: nat, keep: word, k: word)
    requires d < 16 && s0 < 16 && s < 16 && Keeps([w], d, s, k)
    requires if a == [] then s == s0 && keep == Ones(32) else s == d && Keeps(a, d, s0, keep)
    ensures Keeps(a + [w], d, s0, And(keep, k))
  {
    if a == [] {
      AndOnes(k);
      assert a + [w] == [w];
    } else {
      KeepsThen(a, [w], d, s0, keep, k);
    }
  }

  lemma NotOr(x: word, a: word, b: word)
    ensures And(And(x, Not(a)), Not(b)) == And(x, Not(Or(a, b)))
  {
  }

  /** The lowest chunk's immediate, and the chunks that remain. */
  method TakeChunk(mask0: word, rot: nat) returns (mask: word, newMask: word)
    requires mask0 != Zero() && rot < 32 && rot % 2 == 0
    ensures mask == Rest(mask0) && newMask == NewMask(mask0, rot) && Encodable(newMask)
  {
    NewMaskEncodable(mask0, rot);
    var bitpos := FindBottom(mask0);
    var shift := rot + bitpos;
    var m := And(mask0, Shl(Ones(8), bitpos));
    mask := And(mask0, Not(m));
    m := Shr(m, bitpos);
    newMask := Or(Shl(m, shift), Shr(m, 32 - shift));
  }

  /** The bits an AND or a BIC with `newMask` keeps. */
  function ImmKeep(newMask: word, negative: bool): word {
    if negative then Not(newMask) else newMask
  }

  /** AND or BIC. */
  method EmitKeep(asm: ARMAssembler, d: nat, s: nat, newMask: word, negative: bool) returns (ghost w: word)
    requires asm.Valid() && d < 16 && s < 16 && Encodable(newMask)
    modifies asm`code, asm`pc
    ensures asm.Valid() && asm.code == old(asm.code) + [w]
    ensures Keeps([w], d, s, ImmKeep(newMask, negative))
  {
    var op2 := ImmOperand(newMask);
    if !negative {
      w := EmitDp(asm, AND_OP, d, s, op2);
      DpKeeps(w, AND_OP, d, s, Imm(newMask), newMask);
    } else {
      w := EmitDp(asm, BIC_OP, d, s, op2);
      DpKeeps(w, BIC_OP, d, s, Imm(newMask), Not(newMask));
    }
  }

  /** `keep` and the chunks still to come make up the whole result. */
  ghost predicate Pending(keep: word, mask: word, mask0: word, rot: nat, negative: bool) {
    if negative then And(keep, Not(Cleared(mask, rot))) == Not(Cleared(mask0, rot))
    else if mask == Zero() then keep == NewMask(mask0, rot)
    else mask == mask0 && keep == Ones(32)
  }

  lemma PendingNext(keep: word, mask: word, mask0: word, rot: nat, negative: bool)
    requires mask != Zero() && Pending(keep, mask, mask0, rot, negative)
    requires !negative ==> Rest(mask0) == Zero()
    ensures Pending(And(keep, ImmKeep(NewMask(mask, rot), negative)), Rest(mask), mask0, rot, negative)
  {
    RestIsHigher(mask);
    if negative {
      NotOr(keep, NewMask(mask, rot), Cleared(Rest(mask), rot));
    } else {
      AndOnes(NewMask(mask, rot));
    }
  }

  /** The emitting loop's state: what `out` keeps, the register it left that in, and the chunks to come. */
  ghost predicate Emitted(out: seq<word>, d: nat, s0: nat, s: nat, keep: word, mask: word, mask0: word, rot: nat,
      negative: bool)
    requires d < 16 && s0 < 16
  {
    && |out| + ChunkCount(mask) == ChunkCount(mask0) && Pending(keep, mask, mask0, rot, negative)
    && (if out == [] then s == s0 && mask == mask0 && keep == Ones(32) else s == d && Keeps(out, d, s0, keep))
  }

  lemma EmittedNext(out: seq<word>, w: word, d: nat, s0: nat, s: nat, keep: word, mask: word, rest: word, k: word,
      mask0: word, rot: nat, negative: bool)
    requires d < 16 && s0 < 16 && s < 16 && mask != Zero() && rest == Rest(mask)
    requires Emitted(out, d, s0, s, keep, mask, mask0, rot, negative)
    requires k == ImmKeep(NewMask(mask, rot), negative) && Keeps([w], d, s, k)
    requires !negative ==> Rest(mask0) == Zero()
    ensures Emitted(out + [w], d, s0, d, And(keep, k), rest, mask0, rot, negative)
    ensures 32 - Bottom(rest) < 32 - Bottom(mask)
  {
    RestIsHigher(mask);
    PendingNext(keep, mask, mask0, rot, negative);
    KeepNext(out, w, d, s0, s, keep, k);
  }

  lemma EmittedAll(out: seq<word>, d: nat, s0: nat, s: nat, keep: word, mask0: word, rot: nat, negative: bool)
    requires d < 16 && s0 < 16 && mask0 != Zero()
    requires Emitted(out, d, s0, s, keep, Zero(), mask0, rot, negative)
    ensures |out| == ChunkCount(mask0)
    ensures Keeps(out, d, s0, if negative then Not(Cleared(mask0, rot)) else NewMask(mask0, rot))
  {
    AndOnes(keep);
  }

  /** The emitting loop of build_and_immediate, one immediate a chunk. */
  method EmitChunks(asm: ARMAssembler, d: nat, s0: nat, mask0: word, rot: nat, negative: bool)
    returns (ghost out: seq<word>)
    requires asm.Valid() && d < 16 && s0 < 16 && mask0 != Zero() && rot < 32 && rot % 2 == 0
    requires !negative ==> Rest(mask0) == Zero()
    modifies asm`code, asm`pc
    ensures asm.Valid() && asm.code == old(asm.code) + out && |out| == ChunkCount(mask0)
    ensures Keeps(out, d, s0, if negative then Not(Cleared(mask0, rot)) else NewMask(mask0, rot))
  {
    out := [];
    var s, mask := s0, mask0;
    ghost var keep := Ones(32);
    AndOnes(Not(Cleared(mask0, rot)));
    while mask != Zero()
      invariant asm.Valid() && asm.code == old(asm.code) + out && s < 16
      invariant Emitted(out, d, s0, s, keep, mask, mask0, rot, negative)
      decreases 32 - Bottom(mask)
    {
      var rest, newMask := TakeChunk(mask, rot);
      ghost var w := EmitKeep(asm, d, s, newMask, negative);
      ghost var k := ImmKeep(newMask, negative);
      Assoc(old(asm.code), out, [w]);
      EmittedNext(out, w, d, s0, s, keep, mask, rest, k, mask0, rot, negative);
      out, keep, mask, s := out + [w], And(keep, k), rest, d;
    }
    EmittedAll(out, d, s0, s, keep, mask0, rot, negative);
  }

  /** MOV d, s unless they are the same. */
  method EmitMove(asm: ARMAssembler, d: nat, s: nat) returns (ghost out: seq<word>)
    requires asm.Valid() && d < 16 && s < 16
    modifies asm`code, asm`pc
    ensures asm.Valid() && asm.code == old(asm.code) + out && |out| <= 1
    ensures Keeps(out, d, s, Ones(32))
  {
    if d != s {
      DecodeReg(s);
      ghost var w := EmitDp(asm, MOV_OP, d, 0, RegOp2(s));
      MovKeeps(w, d, s);
      out := [w];
    } else {
      NothingKeeps(d);
      out := [];
    }
  }

  /** MOV d, #0 */
  method EmitZero(asm: ARMAssembler, d: nat, ghost s: nat) returns (ghost out: seq<word>)
    requires asm.Valid() && d < 16 && s < 16
    modifies asm`code, asm`pc
    ensures asm.Valid() && asm.code == old(asm.code) + out && |out| == 1
    ensures Keeps(out, d, s, Zero())
  {
    ZeroEncodable();
    var op2 := ImmOperand(Zero());
    ghost var w := EmitDp(asm, MOV_OP, d, 0, op2);
    ZeroKeeps(w, d, s, Zero());
    out := [w];
  }

  /**
   build_and_immediate.  At most four instructions; they touch d only and leave
   there the bits KeepMask selects from s.
   */
  method BuildAndImmediate(asm: ARMAssembler, d: nat, s: nat, mask0: word, bits: nat) returns (ghost out: seq<word>)
    requires asm.Valid() && d < 16 && s < 16
    modifies asm`code, asm`pc
    ensures asm.Valid() && asm.code == old(asm.code) + out && |out| <= 4
    ensures Keeps(out, d, s, KeepMask(mask0, bits))
  {
    var size := Ones(bits);
    var mask := And(mask0, size);
    if mask == size {
      out := EmitMove(asm, d, s);
      return;
    }
    ghost var kept := mask;
    var err, _, _ := BuildImmediate(mask);
    var negative := err != 0;
    if negative {
      mask := And(Not(mask), size);
    }
    ghost var wanted := mask;
    var rot: nat;
    mask, rot := Normalize(mask);
    if mask != Zero() {
      if !negative {
        RorOfZero(kept, rot);
        OneChunk(kept, mask, rot);
      }
      AtMostFour(mask);
      out := EmitChunks(asm, d, s, mask, rot, negative);
    } else {
      RorZero(wanted, rot);
      if negative {
        GapsNotEmpty(mask0, bits);
      }
      out := EmitZero(asm, d, s);
    }
  }

  lemma RorOfZero(w: word, r: nat)
    requires Ror(w, r) != Zero()
    ensures w != Zero()
  {
    assert w == Zero() ==> Ror(w, r) == Zero();
  }
}
