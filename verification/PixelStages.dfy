/**
 GGLAssembler.cpp: the logic-op stage and the colour-mask stage that follow the
 computation of a pixel.
 */
module PixelStages {
  import opened Words
  import opened Immediates
  import opened ArmMachine
  import opened ARMAssemblers
  import opened GGLAssemblers
  import opened RegisterFiles
  import opened Sequences

  datatype Pixel = Pixel(reg: nat, corruptible: bool)

  /** GGL_CLEAR to GGL_SET. */
  datatype LogicOp =
    | Clear | AndOp | AndReverse | Copy | AndInverted | Noop | XorOp | OrOp
    | Nor | Equiv | Invert | OrReverse | CopyInverted | OrInverted | Nand | Set

  // Logic operations (OpenGL 2.1 specification, section 4.1.10)

  /** The table of the specification, for one bit of source and destination. */
  predicate LogicBit(op: LogicOp, s: bool, d: bool) {
    match op
    case Clear => false
    case AndOp => s && d
    case AndReverse => s && !d
    case Copy => s
    case AndInverted => !s && d
    case Noop => d
    case XorOp => s != d
    case OrOp => s || d
    case Nor => !(s || d)
    case Equiv => s == d
    case Invert => !d
    case OrReverse => s || !d
    case CopyInverted => !s
    case OrInverted => !s || d
    case Nand => !(s && d)
    case Set => true
  }

  /** The op's number, counted from GL_CLEAR. */
  function Code(op: LogicOp): nat {
    match op
    case Clear => 0
    case AndOp => 1
    case AndReverse => 2
    case Copy => 3
    case AndInverted => 4
    case Noop => 5
    case XorOp => 6
    case OrOp => 7
    case Nor => 8
    case Equiv => 9
    case Invert => 10
    case OrReverse => 11
    case CopyInverted => 12
    case OrInverted => 13
    case Nand => 14
    case Set => 15
  }

  /** The number is the truth table, from its low bit on: both set, the source only, the destination only, none. */
  lemma CodeIsTable(op: LogicOp, s: bool, d: bool)
    ensures LogicBit(op, s, d)
       <==> Code(op) / (if s && d then 1 else if s then 2 else if d then 4 else 8) % 2 == 1
  {
  }

  function Logic(op: LogicOp, s: word, d: word): word {
    seq(32, i requires 0 <= i < 32 => LogicBit(op, s[i], d[i]))
  }

  /** `code` puts the logic op of registers s and d into p and does nothing else. */
  ghost predicate Computes(code: seq<word>, op: LogicOp, p: nat, s: nat, d: nat)
    requires p < 16 && s < 16 && d < 16
  {
    forall c: Cpu {:trigger Run(code, c)} :: Run(code, c) == SetReg(c, p, Logic(op, c.regs[s], c.regs[d]))
  }

  method EmitReg(asm: ARMAssembler, opcode: nat, rd: nat, rn: nat, rm: nat) returns (ghost w: word)
    requires asm.Valid() && opcode < 16 && opcode != 9 && rd < 16 && rn < 16 && rm < 16
    modifies asm`code, asm`pc
    ensures asm.Valid() && asm.code == old(asm.code) + [w] && Decode(w) == Dp(opcode, rd, rn, Reg(rm))
  {
    DecodeReg(rm);
    w := EmitDp(asm, opcode, rd, rn, RegOp2(rm));
  }

  method EmitImm(asm: ARMAssembler, opcode: nat, rd: nat, rn: nat, immediate: word) returns (ghost w: word)
    requires asm.Valid() && opcode < 16 && opcode != 9 && rd < 16 && rn < 16 && Encodable(immediate)
    modifies asm`code, asm`pc
    ensures asm.Valid() && asm.code == old(asm.code) + [w] && Decode(w) == Dp(opcode, rd, rn, Imm(immediate))
  {
    var op2 := ImmOperand(immediate);
    w := EmitDp(asm, opcode, rd, rn, op2);
  }

  /** What the instruction of a one-step operation, or the first of two, is. */
  predicate FirstStep(op: LogicOp, i: Instr, p: nat, s: nat, d: nat) {
    match op
    case Clear => i == Dp(MOV_OP, p, 0, Imm(Zero()))
    case AndOp | Nand => i == Dp(AND_OP, p, s, Reg(d))
    case AndReverse | OrInverted => i == Dp(BIC_OP, p, s, Reg(d))
    case Copy => false
    case AndInverted | OrReverse => i == Dp(BIC_OP, p, d, Reg(s))
    case Noop => i == Dp(MOV_OP, p, 0, Reg(d))
    case XorOp | Equiv => i == Dp(EOR_OP, p, s, Reg(d))
    case OrOp | Nor => i == Dp(ORR_OP, p, s, Reg(d))
    case Invert => i == Dp(MVN_OP, p, 0, Reg(d))
    case CopyInverted => i == Dp(MVN_OP, p, 0, Reg(s))
    case Set => i == Dp(MVN_OP, p, 0, Imm(Zero()))
  }

  predicate TwoStep(op: LogicOp) {
    op.Nor? || op.Equiv? || op.OrReverse? || op.OrInverted? || op.Nand?
  }

  lemma AluIsLogic(op: LogicOp, i: Instr, p: nat, s: nat, d: nat, c: Cpu)
    requires p < 16 && s < 16 && d < 16 && FirstStep(op, i, p, s, d)
    ensures !TwoStep(op) ==> Exec(i, c) == SetReg(c, p, Logic(op, c.regs[s], c.regs[d]))
    ensures TwoStep(op) ==> Exec(i, c) == SetReg(c, p, Not(Logic(op, c.regs[s], c.regs[d])))
  {
    var x, y := c.regs[s], c.regs[d];
    match op {
      case Clear => assert Zero() == Logic(op, x, y);
      case AndOp => assert And(x, y) == Logic(op, x, y);
      case Nand => assert And(x, y) == Not(Logic(op, x, y));
      case AndReverse => assert And(x, Not(y)) == Logic(op, x, y);
      case OrInverted => assert And(x, Not(y)) == Not(Logic(op, x, y));
      case AndInverted => assert And(y, Not(x)) == Logic(op, x, y);
      case OrReverse => assert And(y, Not(x)) == Not(Logic(op, x, y));
      case Noop => assert y == Logic(op, x, y);
      case XorOp => assert Xor(x, y) == Logic(op, x, y);
      case Equiv => assert Xor(x, y) == Not(Logic(op, x, y));
      case OrOp => assert Or(x, y) == Logic(op, x, y);
      case Nor => assert Or(x, y) == Not(Logic(op, x, y));
      case Invert => assert Not(y) == Logic(op, x, y);
      case CopyInverted => assert Not(x) == Logic(op, x, y);
      case Set => assert Not(Zero()) == Logic(op, x, y);
    }
  }

  lemma OneStepComputes(w: word, op: LogicOp, p: nat, s: nat, d: nat)
    requires p < 16 && s < 16 && d < 16 && FirstStep(op, Decode(w), p, s, d) && !TwoStep(op)
    ensures Computes([w], op, p, s, d)
  {
    forall c: Cpu
      ensures Run([w], c) == SetReg(c, p, Logic(op, c.regs[s], c.regs[d]))
    {
      RunOne(w, c);
      AluIsLogic(op, Decode(w), p, s, d, c);
    }
  }

  lemma InvertRuns(v: word, p: nat, x: word, c: Cpu)
    requires p < 16 && Decode(v) == Dp(MVN_OP, p, 0, Reg(p)) && c.regs[p] == Not(x)
    ensures Run([v], c) == SetReg(c, p, x)
  {
    RunOne(v, c);
    assert Not(Not(x)) == x;
  }

  lemma TwoStepComputes(w: word, v: word, op: LogicOp, p: nat, s: nat, d: nat)
    requires p < 16 && s < 16 && d < 16 && FirstStep(op, Decode(w), p, s, d) && TwoStep(op)
    requires Decode(v) == Dp(MVN_OP, p, 0, Reg(p))
    ensures Computes([w, v], op, p, s, d)
  {
    forall c: Cpu
      ensures Run([w, v], c) == SetReg(c, p, Logic(op, c.regs[s], c.regs[d]))
    {
      assert [w, v] == [w] + [v];
      RunAppend([w], [v], c);
      RunOne(w, c);
      AluIsLogic(op, Decode(w), p, s, d, c);
      InvertRuns(v, p, Logic(op, c.regs[s], c.regs[d]), Run([w], c));
    }
  }

  /** The switch of build_logic_op, up to the inversions. */
  method EmitFirst(asm: ARMAssembler, op: LogicOp, p: nat, s: nat, d: nat) returns (ghost w: word)
    requires asm.Valid() && p < 16 && s < 16 && d < 16 && op != Copy
    modifies asm`code, asm`pc
    ensures asm.Valid() && asm.code == old(asm.code) + [w] && FirstStep(op, Decode(w), p, s, d)
  {
    match op {
      case Clear => ZeroEncodable(); w := EmitImm(asm, MOV_OP, p, 0, Zero());
      case AndOp | Nand => w := EmitReg(asm, AND_OP, p, s, d);
      case AndReverse | OrInverted => w := EmitReg(asm, BIC_OP, p, s, d);
      case AndInverted | OrReverse => w := EmitReg(asm, BIC_OP, p, d, s);
      case Noop => w := EmitReg(asm, MOV_OP, p, 0, d);
      case XorOp | Equiv => w := EmitReg(asm, EOR_OP, p, s, d);
      case OrOp | Nor => w := EmitReg(asm, ORR_OP, p, s, d);
      case Invert => w := EmitReg(asm, MVN_OP, p, 0, d);
      case CopyInverted => w := EmitReg(asm, MVN_OP, p, 0, s);
      case Set => ZeroEncodable(); w := EmitImm(asm, MVN_OP, p, 0, Zero());
    }
  }

  method EmitLogicOp(asm: ARMAssembler, op: LogicOp, p: nat, s: nat, d: nat) returns (ghost out: seq<word>)
    requires asm.Valid() && p < 16 && s < 16 && d < 16 && op != Copy
    modifies asm`code, asm`pc
    ensures asm.Valid() && asm.code == old(asm.code) + out && |out| <= 2
    ensures Computes(out, op, p, s, d)
  {
    ghost var w := EmitFirst(asm, op, p, s, d);
    if TwoStep(op) {
      ghost var v := EmitReg(asm, MVN_OP, p, 0, p);
      TwoStepComputes(w, v, op, p, s, d);
      out := [w, v];
      assert [w] + [v] == out;
      Assoc(old(asm.code), [w], [v]);
    } else {
      OneStepComputes(w, op, p, s, d);
      out := [w];
    }
  }

  // The colour mask, as arithmetic on words

  /** A component's bits are l to h - 1; h is 0 for a component the format does not have. */
  datatype Component = Component(h: nat, l: nat)

  type Format = f: seq<Component> | |f| == 4 && forall k :: 0 <= k < |f| ==> f[k].l <= f[k].h <= 32
    witness seq(4, _ => Component(0, 0))

  type Channels = m: seq<bool> | |m| == 4 witness seq(4, _ => false)

  /** Bit b belongs to a component that is to be written. */
  predicate Written(fmt: Format, masked: Channels, n: nat, b: nat)
    requires n <= 4
  {
    exists k :: 0 <= k < n && !masked[k] && fmt[k].l <= b < fmt[k].h
  }

  /** The bits of all components to be written. */
  function MaskOf(fmt: Format, masked: Channels): word {
    seq(32, b requires 0 <= b < 32 => Written(fmt, masked, 4, b))
  }

  /** The bits of `mask` from the source, the others from the destination. */
  function Merged(mask: word, x: word, y: word): word {
    Or(And(x, mask), And(y, Not(mask)))
  }

  /** No bit of x lies outside the mask, among the lowest ones. */
  predicate Within(x: word, mask: word, bits: nat) {
    forall i :: 0 <= i < 32 && i < bits && x[i] ==> mask[i]
  }

  predicate SameLow(x: word, y: word, bits: nat) {
    forall i :: 0 <= i < 32 && i < bits ==> x[i] == y[i]
  }

  lemma LowBits(x: word, y: word, bits: nat)
    ensures SameLow(x, y, bits) <==> And(x, Ones(bits)) == And(y, Ones(bits))
  {
    if And(x, Ones(bits)) == And(y, Ones(bits)) {
      forall i | 0 <= i < 32 && i < bits
        ensures x[i] == y[i]
      {
        assert And(x, Ones(bits))[i] == And(y, Ones(bits))[i];
      }
    }
  }

  lemma FitKeeps(x: word, mask: word, bits: nat)
    requires AndFits(mask, bits)
    ensures SameLow(AndResult(x, mask, bits), And(x, mask), bits)
  {
    AndResultRight(x, mask, bits);
    LowBits(AndResult(x, mask, bits), And(x, mask), bits);
  }

  /** What build_masking computes from a source it has cleared, or left alone. */
  ghost function MaskedPixel(x: word, y: word, mask: word, bits: nat, cleared: bool): word {
    Or(if cleared then AndResult(x, mask, bits) else x, AndResult(y, Not(mask), bits))
  }

  lemma ClearedSourceRight(x: word, y: word, mask: word, bits: nat)
    requires AndFits(mask, bits) && AndFits(Not(mask), bits)
    ensures SameLow(MaskedPixel(x, y, mask, bits, true), Merged(mask, x, y), bits)
  {
    FitKeeps(x, mask, bits);
    FitKeeps(y, Not(mask), bits);
  }

  /** Leaving the source alone is right whatever the destination exactly when the source has no masked bit set. */
  lemma PlainSourceIff(x: word, mask: word, bits: nat)
    requires AndFits(Not(mask), bits)
    ensures (forall y: word :: SameLow(MaskedPixel(x, y, mask, bits, false), Merged(mask, x, y), bits))
       <==> Within(x, mask, bits)
  {
    forall y: word
      ensures SameLow(AndResult(y, Not(mask), bits), And(y, Not(mask)), bits)
    {
      FitKeeps(y, Not(mask), bits);
    }
    if forall y: word :: SameLow(MaskedPixel(x, y, mask, bits, false), Merged(mask, x, y), bits) {
      var m := MaskedPixel(x, Zero(), mask, bits, false);
      assert SameLow(m, Merged(mask, x, Zero()), bits);
      forall i | 0 <= i < 32 && i < bits && x[i]
        ensures mask[i]
      {
        assert m[i] == Merged(mask, x, Zero())[i];
      }
    }
  }

  lemma AliasedIff(r: word, y: word, mask: word, bits: nat)
    requires SameLow(r, And(y, Not(mask)), bits)
    ensures SameLow(r, Merged(mask, y, y), bits) <==> Within(y, Not(mask), bits)
  {
    forall i | 0 <= i < 32 && i < bits
      ensures r[i] == Merged(mask, y, y)[i] <==> (y[i] ==> Not(mask)[i])
    {
      assert r[i] == And(y, Not(mask))[i];
    }
    if Within(y, Not(mask), bits) {
      assert forall i :: 0 <= i < 32 && i < bits ==> (y[i] ==> Not(mask)[i]);
    }
  }

  /**
   With the framebuffer's own register as source the masking stage is right
   exactly when no bit is set that it should keep.
   */
  lemma AliasedSourceIff(y: word, mask: word, bits: nat)
    requires AndFits(Not(mask), bits)
    ensures SameLow(AndResult(y, Not(mask), bits), Merged(mask, y, y), bits)
       <==> Within(y, Not(mask), bits)
  {
    FitKeeps(y, Not(mask), bits);
    AliasedIff(AndResult(y, Not(mask), bits), y, mask, bits);
  }

  // The stages

  predicate InUse(file: RegisterFile, r: nat)
    reads file`regs
  {
    r < 16 && file.regs[r]
  }

  /** The pixel's own register if it may be overwritten, and a fresh one otherwise. */
  method OwnRegister(file: RegisterFile, pixel: Pixel, ghost d: nat) returns (own: Pixel)
    requires file.Valid() && pixel.reg < 16 && InUse(file, d) && d != SP && (pixel.corruptible ==> pixel.reg != d)
    modifies file
    ensures file.Valid() && own.corruptible && own.reg < 16 && own.reg != d && InUse(file, d)
    ensures pixel.corruptible ==>
              own == pixel && file.outOfRegisters == old(file.outOfRegisters) && file.State() == old(file.State())
    ensures old(file.handed) <= file.handed
    ensures file.outOfRegisters || own.reg == pixel.reg || (own.reg in file.handed && !old(file.regs)[own.reg])
    ensures forall r :: 0 <= r < 16 && old(file.regs)[r] ==> file.regs[r]
    ensures old(file.outOfRegisters) ==> file.outOfRegisters
  {
    own := pixel;
    if !pixel.corruptible {
      var r := file.Obtain();
      own := Pixel(r, true);
    }
  }

  ghost predicate LogicDone(a: seq<word>, op: LogicOp, p: nat, s: nat, d: nat)
    requires p < 16 && s < 16 && d < 16
  {
    if op == Copy then a == [] && p == s else Computes(a, op, p, s, d)
  }

  /** build_logic_op: the result is in the returned pixel's register. */
  method BuildLogicOp(asm: ARMAssembler, file: RegisterFile, op: LogicOp, pixel: Pixel, d: nat)
    returns (own: Pixel, ghost out: seq<word>)
    requires asm.Valid() && file.Valid() && pixel.reg < 16 && InUse(file, d) && d != SP
    requires pixel.corruptible ==> pixel.reg != d
    modifies asm`code, asm`pc, file
    ensures asm.Valid() && asm.code == old(asm.code) + out && file.Valid() && InUse(file, d)
    ensures own.reg < 16 && (own.corruptible ==> own.reg != d)
    ensures pixel.corruptible ==>
              own == pixel && file.outOfRegisters == old(file.outOfRegisters) && file.State() == old(file.State())
    ensures if op == Copy then own == pixel else own.corruptible
    ensures LogicDone(out, op, own.reg, pixel.reg, d)
    ensures old(file.handed) <= file.handed && (old(file.outOfRegisters) ==> file.outOfRegisters)
    ensures file.outOfRegisters || own.reg == pixel.reg || (own.reg in file.handed && !old(file.regs)[own.reg])
    ensures forall r :: 0 <= r < 16 && old(file.regs)[r] ==> file.regs[r]
  {
    if op == Copy {
      return pixel, [];
    }
    own := OwnRegister(file, pixel, d);
    out := EmitLogicOp(asm, op, own.reg, pixel.reg, d);
  }

  /** The mask of the components that are written. */
  method ChannelMask(fmt: Format, masked: Channels) returns (mask: word)
    ensures mask == MaskOf(fmt, masked)
  {
    mask := Zero();
    for i := 0 to 4
      invariant forall b :: 0 <= b < 32 ==> mask[b] == Written(fmt, masked, i, b)
    {
      var c := fmt[i];
      ghost var was := mask;
      if c.h != 0 && !masked[i] {
        mask := Or(mask, Shl(Ones(c.h - c.l), c.l));
      }
      forall b | 0 <= b < 32
        ensures mask[b] == Written(fmt, masked, i + 1, b)
      {
        assert mask[b] == (was[b] || (!masked[i] && fmt[i].l <= b < fmt[i].h));
        assert Written(fmt, masked, i, b) ==> Written(fmt, masked, i + 1, b);
      }
    }
  }

  /** `code` merges what it keeps of s with what it keeps of d into p, and leaves the latter in d. */
  ghost predicate Merges(code: seq<word>, p: nat, s: nat, d: nat, sKeep: word, dKeep: word)
    requires p < 16 && s < 16 && d < 16
  {
    forall c: Cpu {:trigger Run(code, c)} ::
      Run(code, c) == SetReg(SetReg(c, d, And(c.regs[d], dKeep)), p, Or(And(c.regs[s], sKeep), And(c.regs[d], dKeep)))
  }

  lemma MergePlain(b: seq<word>, w: word, p: nat, s: nat, d: nat, k: word)
    requires p < 16 && s < 16 && d < 16 && s != d && p != d
    requires Keeps(b, d, d, k) && Decode(w) == Dp(ORR_OP, p, s, Reg(d))
    ensures Merges(b + [w], p, s, d, Ones(32), k)
  {
    forall c: Cpu
      ensures Run(b + [w], c)
           == SetReg(SetReg(c, d, And(c.regs[d], k)), p, Or(And(c.regs[s], Ones(32)), And(c.regs[d], k)))
    {
      RunAppend(b, [w], c);
      RunOne(w, Run(b, c));
      AndOnes(c.regs[s]);
    }
  }

  lemma MergeAgain(c: Cpu, p: nat, d: nat, u: word, v: word, o: word)
    requires p < 16 && d < 16 && p != d
    ensures SetReg(SetReg(SetReg(c, p, u), d, v), p, o) == SetReg(SetReg(c, d, v), p, o)
  {
    assert c.regs[p := u][d := v][p := o] == c.regs[d := v][p := o];
  }

  lemma MergeCleared(a: seq<word>, b: seq<word>, p: nat, s: nat, d: nat, j: word, k: word)
    requires p < 16 && s < 16 && d < 16 && p != d
    requires Keeps(a, p, s, j) && Merges(b, p, p, d, Ones(32), k)
    ensures Merges(a + b, p, s, d, j, k)
  {
    forall c: Cpu
      ensures Run(a + b, c)
           == SetReg(SetReg(c, d, And(c.regs[d], k)), p, Or(And(c.regs[s], j), And(c.regs[d], k)))
    {
      RunAppend(a, b, c);
      var x, y := And(c.regs[s], j), And(c.regs[d], k);
      AndOnes(x);
      MergeAgain(c, p, d, x, y, Or(x, y));
    }
  }

  /** The last step when the source was the framebuffer register itself. */
  ghost predicate Aliases(code: seq<word>, p: nat, d: nat, dKeep: word)
    requires p < 16 && d < 16
  {
    forall c: Cpu {:trigger Run(code, c)} ::
      Run(code, c) == SetReg(SetReg(c, d, And(c.regs[d], dKeep)), p, And(c.regs[d], dKeep))
  }

  lemma AliasMoves(b: seq<word>, w: word, p: nat, d: nat, k: word)
    requires p < 16 && d < 16 && p != d
    requires Keeps(b, d, d, k) && Decode(w) == Dp(MOV_OP, p, 0, Reg(d))
    ensures Aliases(b + [w], p, d, k)
  {
    forall c: Cpu
      ensures Run(b + [w], c) == SetReg(SetReg(c, d, And(c.regs[d], k)), p, And(c.regs[d], k))
    {
      RunAppend(b, [w], c);
      RunOne(w, Run(b, c));
    }
  }

  /** A source that a logic op has filled in all its components is cleared first. */
  predicate ClearsSource(op: LogicOp) {
    op != Copy && op != Clear
  }

  ghost function SourceKeep(op: LogicOp, mask: word, bits: nat): word {
    if ClearsSource(op) then KeepMask(mask, bits) else Ones(32)
  }

  /**
   The end of build_masking: clear what is written in the destination, and merge.
   The case of one register for source, destination and result cannot arise, as
   the framebuffer pixel may not be overwritten.
   */
  method EmitMerge(asm: ARMAssembler, keep: word, bits: nat, p: nat, s: nat, d: nat) returns (ghost out: seq<word>)
    requires asm.Valid() && p < 16 && s < 16 && d < 16 && p != d
    modifies asm`code, asm`pc
    ensures asm.Valid() && asm.code == old(asm.code) + out
    ensures if s == d then Aliases(out, p, d, KeepMask(keep, bits))
            else Merges(out, p, s, d, Ones(32), KeepMask(keep, bits))
  {
    ghost var b := BuildAndImmediate(asm, d, d, keep, bits);
    ghost var w;
    if s == d {
      w := EmitReg(asm, MOV_OP, p, 0, d);
      AliasMoves(b, w, p, d, KeepMask(keep, bits));
    } else {
      w := EmitReg(asm, ORR_OP, p, s, d);
      MergePlain(b, w, p, s, d, KeepMask(keep, bits));
    }
    Assoc(old(asm.code), b, [w]);
    out := b + [w];
  }

  /** The masking stage's code for the source p1, when there is something to mask and when not. */
  ghost predicate MaskDone(b: seq<word>, op: LogicOp, mask: word, bits: nat, masking: bool, p: nat, p1: nat, d: nat)
    requires p1 < 16 && p < 16 && d < 16
  {
    if !masking then b == [] && p == p1
    else
      && p != d
      && if p1 != d || ClearsSource(op)
         then Merges(b, p, p1, d, SourceKeep(op, mask, bits), KeepMask(Not(mask), bits))
         else Aliases(b, p, d, KeepMask(Not(mask), bits))
  }

  /** The rest of build_masking, with the mask and the result's register known. */
  method EmitMasking(asm: ARMAssembler, op: LogicOp, mask: word, bits: nat, p: nat, s: nat, d: nat)
    returns (ghost out: seq<word>)
    requires asm.Valid() && p < 16 && s < 16 && d < 16 && p != d
    modifies asm`code, asm`pc
    ensures asm.Valid() && asm.code == old(asm.code) + out
    ensures s != d || ClearsSource(op) ==> Merges(out, p, s, d, SourceKeep(op, mask, bits), KeepMask(Not(mask), bits))
    ensures s == d && !ClearsSource(op) ==> Aliases(out, p, d, KeepMask(Not(mask), bits))
  {
    if op != Copy && op != Clear {
      ghost var a := BuildAndImmediate(asm, p, s, mask, bits);
      ghost var b := EmitMerge(asm, Not(mask), bits, p, p, d);
      MergeCleared(a, b, p, s, d, KeepMask(mask, bits), KeepMask(Not(mask), bits));
      Assoc(old(asm.code), a, b);
      out := a + b;
    } else {
      out := EmitMerge(asm, Not(mask), bits, p, s, d);
    }
  }

  predicate AnyMasked(fmt: Format, masked: Channels) {
    exists k :: 0 <= k < 4 && fmt[k].h != 0 && masked[k]
  }

  predicate AllMasked(fmt: Format, masked: Channels) {
    forall k :: 0 <= k < 4 && fmt[k].h != 0 ==> masked[k]
  }

  method BuildMasking(asm: ARMAssembler, file: RegisterFile, op: LogicOp, fmt: Format, bits: nat, masked: Channels,
      pixel: Pixel, d: nat) returns (own: Pixel, ghost mask: word, ghost out: seq<word>)
    requires asm.Valid() && file.Valid() && pixel.reg < 16 && InUse(file, d) && d != SP
    requires pixel.corruptible ==> pixel.reg != d
    modifies asm`code, asm`pc, file
    ensures asm.Valid() && asm.code == old(asm.code) + out && file.Valid() && InUse(file, d)
    ensures own.reg < 16 && mask == MaskOf(fmt, masked)
    ensures pixel.corruptible ==>
              own == pixel && file.outOfRegisters == old(file.outOfRegisters) && file.State() == old(file.State())
    ensures MaskDone(out, op, mask, bits, AnyMasked(fmt, masked) && !AllMasked(fmt, masked), own.reg, pixel.reg, d)
    ensures old(file.handed) <= file.handed && (old(file.outOfRegisters) ==> file.outOfRegisters)
    ensures file.outOfRegisters || own.reg == pixel.reg || (own.reg in file.handed && !old(file.regs)[own.reg])
    ensures forall r :: 0 <= r < 16 && old(file.regs)[r] ==> file.regs[r]
  {
    var m := ChannelMask(fmt, masked);
    mask := m;
    if !AnyMasked(fmt, masked) || AllMasked(fmt, masked) {
      return pixel, mask, [];
    }
    own := OwnRegister(file, pixel, d);
    out := EmitMasking(asm, op, m, bits, own.reg, pixel.reg, d);
  }

  // Both stages

  /** The pixel the two stages are to leave in the framebuffer. */
  function Wanted(op: LogicOp, mask: word, masking: bool, x: word, y: word): word {
    if masking then Merged(mask, Logic(op, x, y), y) else Logic(op, x, y)
  }

  predicate InComponent(f: Component, b: nat) {
    f.l <= b < f.h
  }

  /**
   The wanted pixel bit by bit, whether the masking stage is needed or not: the
   op in the components that are not masked, the destination in those that are.
   */
  lemma PixelBits(op: LogicOp, fmt: Format, masked: Channels, x: word, y: word, b: nat, w: word)
    requires b < 32 && w == Wanted(op, MaskOf(fmt, masked), AnyMasked(fmt, masked), x, y)
    ensures forall k :: 0 <= k < 4 && InComponent(fmt[k], b) && !masked[k] ==> w[b] == LogicBit(op, x[b], y[b])
    ensures (forall k :: 0 <= k < 4 && InComponent(fmt[k], b) ==> masked[k]) ==>
              (exists k :: 0 <= k < 4 && InComponent(fmt[k], b)) ==> w[b] == y[b]
  {
    assert forall k :: 0 <= k < 4 && InComponent(fmt[k], b) && masked[k] ==> fmt[k].h != 0 && AnyMasked(fmt, masked);
    assert (exists k :: 0 <= k < 4 && InComponent(fmt[k], b) && !masked[k]) ==> Written(fmt, masked, 4, b);
    assert Written(fmt, masked, 4, b) ==> exists k :: 0 <= k < 4 && InComponent(fmt[k], b) && !masked[k];
  }

  /** With every component masked nothing is written, so the stages are left out. */
  lemma AllMaskedIs(fmt: Format, masked: Channels)
    requires AllMasked(fmt, masked)
    ensures MaskOf(fmt, masked) == Zero()
  {
  }

  predicate OnlyChanges(c: Cpu, c': Cpu, p: nat, d: nat) {
    c'.mem == c.mem && forall r :: 0 <= r < 16 && r != p && r != d ==> c'.regs[r] == c.regs[r]
  }

  lemma LogicCopy(x: word, y: word)
    ensures Logic(Copy, x, y) == x && Logic(Clear, x, y) == Zero()
  {
  }

  /** What the masking stage leaves, seen from its own start. */
  lemma MaskStage(op: LogicOp, mask: word, bits: nat, x: word, y: word)
    requires AndFits(Not(mask), bits) && (ClearsSource(op) ==> AndFits(mask, bits))
    requires !ClearsSource(op) ==> Within(x, mask, bits)
    ensures SameLow(Or(And(x, SourceKeep(op, mask, bits)), And(y, KeepMask(Not(mask), bits))), Merged(mask, x, y), bits)
  {
    AndOnes(x);
    if ClearsSource(op) {
      ClearedSourceRight(x, y, mask, bits);
    } else {
      PlainSourceIff(x, mask, bits);
      assert SameLow(MaskedPixel(x, y, mask, bits, false), Merged(mask, x, y), bits);
    }
  }

  /** The state after both stages: the result in p, and nothing else but d disturbed. */
  ghost predicate Rendered(c: Cpu, c': Cpu, op: LogicOp, mask: word, masking: bool, bits: nat, p: nat, s: nat, d: nat)
    requires p < 16 && s < 16 && d < 16
  {
    OnlyChanges(c, c', p, d) && SameLow(c'.regs[p], Wanted(op, mask, masking, c.regs[s], c.regs[d]), bits)
  }

  /** A pixel computed component by component has no masked component set. */
  predicate Prepared(op: LogicOp, mask: word, masking: bool, bits: nat, x: word) {
    masking && op == Copy ==> Within(x, mask, bits)
  }

  ghost predicate Renders(code: seq<word>, op: LogicOp, mask: word, masking: bool, bits: nat, p: nat, s: nat, d: nat)
    requires p < 16 && s < 16 && d < 16
  {
    forall c: Cpu {:trigger Run(code, c)} ::
      Prepared(op, mask, masking, bits, c.regs[s]) ==> Rendered(c, Run(code, c), op, mask, masking, bits, p, s, d)
  }

  lemma LogicAlone(a: seq<word>, op: LogicOp, mask: word, bits: nat, p: nat, s: nat, d: nat)
    requires p < 16 && s < 16 && d < 16 && LogicDone(a, op, p, s, d)
    ensures Renders(a, op, mask, false, bits, p, s, d)
  {
    forall c: Cpu
      ensures Rendered(c, Run(a, c), op, mask, false, bits, p, s, d)
    {
      LogicCopy(c.regs[s], c.regs[d]);
    }
  }

  lemma StagesJoin(c: Cpu, c1: Cpu, c2: Cpu, op: LogicOp, mask: word, bits: nat, p1: nat, p: nat, s: nat, d: nat)
    requires p1 < 16 && p < 16 && s < 16 && d < 16 && p1 != d && p != d && (op != Copy ==> p == p1)
    requires AndFits(Not(mask), bits) && (ClearsSource(op) ==> AndFits(mask, bits))
    requires Prepared(op, mask, true, bits, c.regs[s])
    requires if op == Copy then c1 == c && p1 == s else c1 == SetReg(c, p1, Logic(op, c.regs[s], c.regs[d]))
    requires c2 == SetReg(SetReg(c1, d, And(c1.regs[d], KeepMask(Not(mask), bits))), p,
                     Or(And(c1.regs[p1], SourceKeep(op, mask, bits)), And(c1.regs[d], KeepMask(Not(mask), bits))))
    ensures Rendered(c, c2, op, mask, true, bits, p, s, d)
  {
    var x, y := c.regs[s], c.regs[d];
    LogicCopy(x, y);
    MaskStage(op, mask, bits, Logic(op, x, y), y);
  }

  lemma BothStages(a: seq<word>, b: seq<word>, op: LogicOp, mask: word, bits: nat, p1: nat, p: nat, s: nat, d: nat)
    requires p1 < 16 && p < 16 && s < 16 && d < 16 && p1 != d && p != d && (op != Copy ==> p == p1)
    requires AndFits(Not(mask), bits) && (ClearsSource(op) ==> AndFits(mask, bits))
    requires LogicDone(a, op, p1, s, d)
    requires Merges(b, p, p1, d, SourceKeep(op, mask, bits), KeepMask(Not(mask), bits))
    ensures Renders(a + b, op, mask, true, bits, p, s, d)
  {
    forall c: Cpu | Prepared(op, mask, true, bits, c.regs[s])
      ensures Rendered(c, Run(a + b, c), op, mask, true, bits, p, s, d)
    {
      RunAppend(a, b, c);
      StagesJoin(c, Run(a, c), Run(b, Run(a, c)), op, mask, bits, p1, p, s, d);
    }
  }

  /** Formats whose masks build_and_immediate handles: at most 26 bits, or 32 in whole bytes. */
  predicate FormatFits(fmt: Format, bits: nat) {
    bits <= 26 || (bits == 32 && forall k :: 0 <= k < |fmt| ==> fmt[k].l % 8 == 0 && fmt[k].h % 8 == 0)
  }

  lemma ByteOf(fmt: Format, masked: Channels, b: nat, c: nat)
    requires b < 32 && c < 32 && b / 8 == c / 8
    requires forall k :: 0 <= k < |fmt| ==> fmt[k].l % 8 == 0 && fmt[k].h % 8 == 0
    ensures Written(fmt, masked, 4, b) == Written(fmt, masked, 4, c)
  {
    forall k | 0 <= k < 4
      ensures fmt[k].l <= b < fmt[k].h <==> fmt[k].l <= c < fmt[k].h
    {
    }
  }

  lemma NotByteWord(b0: bool, b1: bool, b2: bool, b3: bool)
    ensures Not(ByteWord(b0, b1, b2, b3)) == ByteWord(!b0, !b1, !b2, !b3)
  {
  }

  lemma FormatMasksFit(fmt: Format, bits: nat, masked: Channels, mask: word)
    requires FormatFits(fmt, bits) && mask == MaskOf(fmt, masked)
    ensures AndFits(mask, bits) && AndFits(Not(mask), bits)
  {
    if bits <= 26 {
      NarrowMasksFit(mask, bits);
      NarrowMasksFit(Not(mask), bits);
    } else {
      var w := ByteWord(mask[0], mask[8], mask[16], mask[24]);
      forall b | 0 <= b < 32
        ensures mask[b] == w[b]
      {
        ByteOf(fmt, masked, b, if b < 8 then 0 else if b < 16 then 8 else if b < 24 then 16 else 24);
      }
      assert mask == w;
      ByteMasksFit(mask[0], mask[8], mask[16], mask[24]);
      NotByteWord(mask[0], mask[8], mask[16], mask[24]);
      ByteMasksFit(!mask[0], !mask[8], !mask[16], !mask[24]);
    }
  }

  lemma MergeOnes(b: seq<word>, p: nat, s: nat, d: nat, k: word, c: Cpu)
    requires p < 16 && s < 16 && d < 16 && Merges(b, p, s, d, Ones(32), k) && c.regs[s] == Ones(32)
    ensures Run(b, c).regs[p] == Ones(32)
  {
    var kept := Or(And(c.regs[s], Ones(32)), And(c.regs[d], k));
    assert Run(b, c).regs[p] == kept;
    assert kept == Ones(32);
  }

  lemma MergedOnes(mask: word, x: word, y: word)
    requires mask == Ones(24) && x == Ones(32) && y == Zero()
    ensures Wanted(Copy, mask, true, x, y) == Ones(24)
  {
    LogicCopy(x, y);
    assert Merged(mask, x, y) == Ones(24);
  }

  lemma AlphaMask(fmt: Format, masked: Channels, mask: word)
    requires fmt == [Component(32, 24), Component(8, 0), Component(16, 8), Component(24, 16)]
    requires masked == [true, false, false, false] && mask == MaskOf(fmt, masked)
    ensures mask == Ones(24)
  {
    forall b | 0 <= b < 32
      ensures mask[b] <==> b < 24
    {
      if b < 24 {
        var k := if b < 8 then 1 else if b < 16 then 2 else 3;
        assert !masked[k] && fmt[k].l <= b < fmt[k].h;
      }
    }
  }

  lemma AlphaFormat(fmt: Format, masked: Channels)
    requires fmt == [Component(32, 24), Component(8, 0), Component(16, 8), Component(24, 16)]
    requires masked == [true, false, false, false]
    ensures AnyMasked(fmt, masked) && !AllMasked(fmt, masked) && FormatFits(fmt, 32)
  {
    assert fmt[0].h != 0 && masked[0] && fmt[1].h != 0 && !masked[1];
  }

  /**
   A direct texture's texel comes with all its components.  With alpha masked and
   the op a copy, the code for 8888 writes the texel's alpha over the destination's.
   */
  lemma DirectTextureLeaks(fmt: Format, masked: Channels, mask: word, b: seq<word>, p: nat, s: nat, d: nat, c: Cpu)
    requires fmt == [Component(32, 24), Component(8, 0), Component(16, 8), Component(24, 16)]
    requires masked == [true, false, false, false] && mask == MaskOf(fmt, masked)
    requires p < 16 && s < 16 && d < 16 && s != d && p != d && MaskDone(b, Copy, mask, 32, true, p, s, d)
    requires c.regs[s] == Ones(32) && c.regs[d] == Zero()
    ensures AnyMasked(fmt, masked) && !AllMasked(fmt, masked) && FormatFits(fmt, 32)
    ensures Run(b, c).regs[p] == Ones(32)
    ensures Wanted(Copy, mask, true, c.regs[s], c.regs[d]) == Ones(24)
  {
    AlphaFormat(fmt, masked);
    AlphaMask(fmt, masked, mask);
    MergeOnes(b, p, s, d, KeepMask(Not(mask), 32), c);
    MergedOnes(mask, c.regs[s], c.regs[d]);
  }

  /** Whatever the pixel, the code writes no register but p and d, and no memory. */
  ghost predicate Touches(code: seq<word>, p: nat, d: nat) {
    forall c: Cpu {:trigger Run(code, c)} :: OnlyChanges(c, Run(code, c), p, d)
  }

  lemma LogicTouches(a: seq<word>, op: LogicOp, p: nat, s: nat, d: nat)
    requires p < 16 && s < 16 && d < 16 && LogicDone(a, op, p, s, d)
    ensures op == Copy ==> a == []
    ensures Touches(a, p, d)
  {
    forall c: Cpu
      ensures OnlyChanges(c, Run(a, c), p, d)
    {
    }
  }

  lemma MaskTouches(b: seq<word>, p: nat, s: nat, d: nat, j: word, k: word)
    requires p < 16 && s < 16 && d < 16 && (Merges(b, p, s, d, j, k) || Aliases(b, p, d, k))
    ensures Touches(b, p, d)
  {
    forall c: Cpu
      ensures OnlyChanges(c, Run(b, c), p, d)
    {
    }
  }

  lemma BothTouch(a: seq<word>, b: seq<word>, p: nat, d: nat)
    requires Touches(a, p, d) && Touches(b, p, d)
    ensures Touches(a + b, p, d)
  {
    forall c: Cpu
      ensures OnlyChanges(c, Run(a + b, c), p, d)
    {
      RunAppend(a, b, c);
      assert OnlyChanges(c, Run(a, c), p, d) && OnlyChanges(Run(a, c), Run(b, Run(a, c)), p, d);
    }
  }

  lemma StagesTouch(a: seq<word>, b: seq<word>, op: LogicOp, mask: word, bits: nat, masking: bool,
      p1: nat, p: nat, s: nat, d: nat)
    requires p1 < 16 && p < 16 && s < 16 && d < 16 && (op != Copy ==> p == p1)
    requires LogicDone(a, op, p1, s, d) && MaskDone(b, op, mask, bits, masking, p, p1, d)
    ensures Touches(a + b, p, d)
  {
    if !masking {
      LogicTouches(a, op, p, s, d);
      assert a + b == a;
    } else {
      MaskTouches(b, p, p1, d, SourceKeep(op, mask, bits), KeepMask(Not(mask), bits));
      if op == Copy {
        assert a + b == b;
      } else {
        LogicTouches(a, op, p, s, d);
        BothTouch(a, b, p, d);
      }
    }
  }

  lemma StagesRender(a: seq<word>, b: seq<word>, op: LogicOp, mask: word, bits: nat, masking: bool,
      p1: nat, p: nat, s: nat, d: nat)
    requires p1 < 16 && p < 16 && s < 16 && d < 16 && (op != Copy ==> p == p1 && p1 != d)
    requires LogicDone(a, op, p1, s, d) && MaskDone(b, op, mask, bits, masking, p, p1, d)
    ensures AndFits(mask, bits) && AndFits(Not(mask), bits) && (s != d || op != Copy) ==>
              Renders(a + b, op, mask, masking, bits, p, s, d)
    ensures s == d && op == Copy && masking ==> Aliases(a + b, p, d, KeepMask(Not(mask), bits))
  {
    assert a == [] ==> a + b == b;
    if AndFits(mask, bits) && AndFits(Not(mask), bits) && (s != d || op != Copy) {
      if masking {
        BothStages(a, b, op, mask, bits, p1, p, s, d);
      } else {
        LogicAlone(a, op, mask, bits, p, s, d);
        assert a + b == a;
      }
    }
  }

  /**
   The two stages as scanline_core runs them.  The code leaves the logic op of
   source and destination in the written components and the destination in the
   others, for the masks build_and_immediate handles.
   */
  method BuildPixel(asm: ARMAssembler, file: RegisterFile, op: LogicOp, fmt: Format, bits: nat, masked: Channels,
      pixel: Pixel, d: nat) returns (own: Pixel, ghost mask: word, ghost out: seq<word>)
    requires asm.Valid() && file.Valid() && pixel.reg < 16 && InUse(file, d) && d != SP
    requires pixel.corruptible ==> pixel.reg != d
    modifies asm`code, asm`pc, file
    ensures asm.Valid() && asm.code == old(asm.code) + out && file.Valid() && own.reg < 16
    ensures pixel.corruptible ==>
              own == pixel && file.outOfRegisters == old(file.outOfRegisters) && file.State() == old(file.State())
    ensures Touches(out, own.reg, d)
    ensures AllMasked(fmt, masked) ==> own == pixel && out == []
    ensures !AllMasked(fmt, masked) ==> mask == MaskOf(fmt, masked)
    ensures !AllMasked(fmt, masked) && AndFits(mask, bits) && AndFits(Not(mask), bits)
            && (pixel.reg != d || op != Copy) ==>
              Renders(out, op, mask, AnyMasked(fmt, masked), bits, own.reg, pixel.reg, d)
    ensures !AllMasked(fmt, masked) && pixel.reg == d && op == Copy && AnyMasked(fmt, masked) ==>
              Aliases(out, own.reg, d, KeepMask(Not(mask), bits))
    ensures old(file.handed) <= file.handed && (old(file.outOfRegisters) ==> file.outOfRegisters)
    ensures file.outOfRegisters || own.reg == pixel.reg || (own.reg in file.handed && !old(file.regs)[own.reg])
  {
    if AllMasked(fmt, masked) {
      LogicTouches([], Copy, pixel.reg, pixel.reg, d);
      return pixel, Zero(), [];
    }
    ghost var p1, a, b;
    own, mask, p1, a, b := BuildStages(asm, file, op, fmt, bits, masked, pixel, d);
    out := a + b;
    StagesTouch(a, b, op, mask, bits, AnyMasked(fmt, masked), p1, own.reg, pixel.reg, d);
    StagesRender(a, b, op, mask, bits, AnyMasked(fmt, masked), p1, own.reg, pixel.reg, d);
  }

  /** One stage after the other, with the register p1 in between. */
  method BuildStages(asm: ARMAssembler, file: RegisterFile, op: LogicOp, fmt: Format, bits: nat, masked: Channels,
      pixel: Pixel, d: nat)
    returns (own: Pixel, ghost mask: word, ghost p1: nat, ghost a: seq<word>, ghost b: seq<word>)
    requires asm.Valid() && file.Valid() && pixel.reg < 16 && InUse(file, d) && d != SP
    requires (pixel.corruptible ==> pixel.reg != d) && !AllMasked(fmt, masked)
    modifies asm`code, asm`pc, file
    ensures asm.Valid() && asm.code == old(asm.code) + (a + b) && file.Valid() && p1 < 16 && own.reg < 16
    ensures pixel.corruptible ==>
              own == pixel && file.outOfRegisters == old(file.outOfRegisters) && file.State() == old(file.State())
    ensures mask == MaskOf(fmt, masked) && (op != Copy ==> own.reg == p1 && p1 != d)
    ensures LogicDone(a, op, p1, pixel.reg, d) && MaskDone(b, op, mask, bits, AnyMasked(fmt, masked), own.reg, p1, d)
    ensures old(file.handed) <= file.handed && (old(file.outOfRegisters) ==> file.outOfRegisters)
    ensures file.outOfRegisters || own.reg == pixel.reg || (own.reg in file.handed && !old(file.regs)[own.reg])
  {
    var mid;
    mid, a := BuildLogicOp(asm, file, op, pixel, d);
    p1 := mid.reg;
    own, mask, b := BuildMasking(asm, file, op, fmt, bits, masked, mid, d);
    Assoc(old(asm.code), a, b);
  }
}
