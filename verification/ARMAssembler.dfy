/**
 ARMAssembler.cpp: the emitter, its labels, and the two words it goes back to
 patch, branches and the prolog.

 `code` is the assembly's buffer from base on and pc the emitting position; the
 buffer is assumed to be large enough.
 */
module ARMAssemblers {
  import opened Words
  import opened ArmMachine

  datatype BranchTarget = BranchTarget(lab: string, pc: nat)

  // Branches (section A4.1.5 of the ARM Architecture Reference Manual)

  /** (cc << 28) | (0xA << 24), or 0xB for BL */
  function BranchHead(cc: nat, link: bool): word {
    Or(Field(cc, 28), Field(if link then 0xB else 0xA, 24))
  }

  /** offset & 0xFFFFFF, the offset being a two's complement number */
  function OffsetField(offset: int): word {
    Word(offset % 0x100_0000)
  }

  /** The branch at index `pc` straight to index `target`; a branch reads PC two words ahead. */
  function BranchWord(cc: nat, link: bool, pc: nat, target: nat): word {
    Or(BranchHead(cc, link), OffsetField(target - (pc + 2)))
  }

  predicate InReach(pc: nat, target: nat) {
    -0x80_0000 <= target - (pc + 2) < 0x80_0000
  }

  lemma BranchHeadIs(cc: nat, link: bool)
    requires cc < 16
    ensures var h := BranchHead(cc, link);
      Nib(h, 28) == cc && h[27] && !h[26] && h[25] && h[24] == link && Clear(h, 0, 24)
  {
    var k := if link then 0xB else 0xA;
    FieldIs(cc, 28);
    FieldIs(k, 24);
    NibOr(Field(cc, 28), Field(k, 24), 28);
    NibOr(Field(cc, 28), Field(k, 24), 24);
    ClearOr(Field(cc, 28), Field(k, 24), 0, 24);
  }

  lemma FieldOf24(u: nat)
    requires u < 0x100_0000
    ensures Clear(Word(u), 24, 32) && Low24(Word(u)) == u
  {
    Powers();
    Low24Word(u);
    forall i | 24 <= i < 32
      ensures !Word(u)[i]
    {
      BitOfHigh(u, i, 24);
    }
  }

  lemma BranchFields(cc: nat, link: bool, f: word)
    requires cc < 16 && Clear(f, 24, 32)
    ensures var w := Or(BranchHead(cc, link), f);
      && Nib(w, 28) == cc && w[27] && !w[26] && w[25] && w[24] == link
      && Low24(w) == Low24(f)
  {
    var h := BranchHead(cc, link);
    BranchHeadIs(cc, link);
    NibOr(h, f, 28);
    NatOfSame(Or(h, f), f, 0, |f| - 8);
    assert f[24] == f[25] == f[26] == f[27] == false;
  }

  lemma DecodeBranch(w: word, cc: nat, link: bool, offset: int)
    requires w[27] && !w[26] && w[25] && Nib(w, 28) == cc && w[24] == link && Signed24(Low24(w)) == offset
    ensures Decode(w) == Branch(cc, link, offset)
  {
  }

  lemma DecodeBranchWord(cc: nat, link: bool, u: nat)
    requires cc < 16 && u < 0x100_0000
    ensures Decode(Or(BranchHead(cc, link), Word(u))) == Branch(cc, link, Signed24(u))
  {
    FieldOf24(u);
    BranchFields(cc, link, Word(u));
    DecodeBranch(Or(BranchHead(cc, link), Word(u)), cc, link, Signed24(u));
  }

  lemma Signed24Iff(offset: int)
    ensures Signed24(offset % 0x100_0000) == offset <==> -0x80_0000 <= offset < 0x80_0000
  {
  }

  /** Where the word at index `pc` branches to, if it is a branch. */
  function Destination(i: Instr, pc: nat): int {
    if i.Branch? then pc + 2 + i.offset else -1
  }

  lemma LandsAt(cc: nat, link: bool, pc: nat, u: nat)
    requires cc < 16 && u < 0x100_0000
    ensures var i := Decode(Or(BranchHead(cc, link), Word(u)));
      i.Branch? && i.cond == cc && i.link == link && Destination(i, pc) == pc + 2 + Signed24(u)
  {
    DecodeBranchWord(cc, link, u);
  }

  /** A branch lands on its target exactly when the distance fits 24 bits. */
  lemma BranchLandsIff(cc: nat, link: bool, pc: nat, target: nat)
    requires cc < 16
    ensures var i := Decode(BranchWord(cc, link, pc, target));
      i.Branch? && i.cond == cc && i.link == link && (Destination(i, pc) == target <==> InReach(pc, target))
  {
    LandsAt(cc, link, pc, (target - (pc + 2)) % 0x100_0000);
    Signed24Iff(target - (pc + 2));
  }

  // Block data transfers (section A5.4)

  /** The stack modes, ED FD EA FA, by their index in the tables of LDM and STM. */
  datatype Mode = ED | FD | EA | FA

  function StmBefore(m: Mode): bool { m.FD? || m.FA? }
  function StmUp(m: Mode): bool { m.EA? || m.FA? }
  function LdmBefore(m: Mode): bool { m.ED? || m.EA? }
  function LdmUp(m: Mode): bool { m.ED? || m.FD? }

  /** The word of LDM or STM with condition AL. */
  function BlockWord(load: bool, before: bool, up: bool, writeBack: bool, rn: nat, list: word): word {
    Or(Or(Or(Or(Or(Or(Or(Field(AL, 28), Field(4, 25)), Field(B(before), 24)), Field(B(up), 23)),
      Field(B(load), 20)), Field(B(writeBack), 21)), Field(rn, 16)), list)
  }

  function StmWord(m: Mode, rn: nat, list: word): word {
    BlockWord(false, StmBefore(m), StmUp(m), true, rn, list)
  }

  function LdmWord(m: Mode, rn: nat, list: word): word {
    BlockWord(true, LdmBefore(m), LdmUp(m), true, rn, list)
  }

  lemma FlagIs(x: bool, at: nat)
    requires at < 32
    ensures forall i :: 0 <= i < 32 ==> Field(B(x), at)[i] == (x && i == at)
  {
    forall i | 0 <= i < 32
      ensures Field(B(x), at)[i] == (x && i == at)
    {
      if i > at {
        assert Pow2(1) == 2;
        BitOfHigh(B(x), i - at, 1);
      } else if i == at {
        assert BitOf(B(x), 0) == x;
      }
    }
  }

  lemma FourAt25()
    ensures forall i :: 0 <= i < 32 ==> Field(4, 25)[i] == (i == 27)
  {
    FieldIs(4, 25);
    assert BitOf(4, 2) == BitOf(2, 1) == BitOf(1, 0);
    assert BitOf(4, 1) == BitOf(2, 0);
    assert Field(4, 25)[25] == BitOf(4, 0) && Field(4, 25)[26] == BitOf(4, 1) && Field(4, 25)[27] == BitOf(4, 2);
    assert BitOf(4, 3) == BitOf(2, 2) == BitOf(1, 1) == BitOf(0, 0);
    assert Field(4, 25)[28] == BitOf(4, 3);
  }

  lemma BlockFlags(load: bool, before: bool, up: bool, writeBack: bool)
    ensures var h := Or(Or(Or(Or(Or(Field(AL, 28), Field(4, 25)), Field(B(before), 24)), Field(B(up), 23)),
                        Field(B(load), 20)), Field(B(writeBack), 21));
      && h[27] && !h[26] && !h[25] && h[24] == before && h[23] == up && !h[22] && h[21] == writeBack && h[20] == load
      && Clear(h, 0, 20) && Nib(h, 28) == AL
  {
    FieldIs(AL, 28);
    FourAt25();
    FlagIs(before, 24);
    FlagIs(up, 23);
    FlagIs(load, 20);
    FlagIs(writeBack, 21);
  }

  lemma DecodeBlockIs(w: word, load: bool, before: bool, up: bool, writeBack: bool, rn: nat, list: word)
    requires Nib(w, 28) == AL && w[27] && !w[26] && !w[25] && !w[22]
    requires w[24] == before && w[23] == up && w[21] == writeBack && w[20] == load
    requires Nib(w, 16) == rn && And(w, Ones(16)) == list
    ensures Decode(w) == Block(load, before, up, writeBack, rn, list)
  {
  }

  lemma DecodeBlock(load: bool, before: bool, up: bool, writeBack: bool, rn: nat, list: word)
    requires rn < 16 && Below(list, 16)
    ensures Decode(BlockWord(load, before, up, writeBack, rn, list))
         == Block(load, before, up, writeBack, rn, list)
  {
    var h := Or(Or(Or(Or(Or(Field(AL, 28), Field(4, 25)), Field(B(before), 24)), Field(B(up), 23)),
                   Field(B(load), 20)), Field(B(writeBack), 21));
    BlockFlags(load, before, up, writeBack);
    BlockRest(h, rn, list);
    DecodeBlockIs(Or(Or(h, Field(rn, 16)), list), load, before, up, writeBack, rn, list);
  }

  lemma BlockRest(h: word, rn: nat, list: word)
    requires rn < 16 && Below(list, 16) && Clear(h, 0, 20)
    ensures var w := Or(Or(h, Field(rn, 16)), list);
      && Nib(w, 28) == Nib(h, 28) && Nib(w, 16) == rn && And(w, Ones(16)) == list
      && forall i :: 20 <= i < 32 ==> w[i] == h[i]
  {
    FieldIs(rn, 16);
    var r := Or(h, Field(rn, 16));
    NibOr(h, Field(rn, 16), 28);
    NibOr(h, Field(rn, 16), 16);
    NibOr(r, list, 28);
    NibOr(r, list, 16);
    assert And(Or(r, list), Ones(16)) == list;
  }

  // Word loads and stores (section A5.2)

  /** immed12_pre and immed12_post, of a number that is not negative. */
  function Immed12Pre(v: nat): word { Or(Or(Bit(24), Bit(23)), Field(v, 0)) }
  function Immed12Post(v: nat): word { Or(Bit(23), Field(v, 0)) }

  /** LDR and STR with condition AL. */
  function MemWord(load: bool, rd: nat, rn: nat, offset: word): word {
    Or(Or(Or(Or(Or(Field(AL, 28), Bit(26)), Field(B(load), 20)), Field(rn, 16)), Field(rd, 12)), offset)
  }

  lemma MemHeadIs(load: bool)
    ensures var h := Or(Or(Field(AL, 28), Bit(26)), Field(B(load), 20));
      && h[26] && Clear(h, 27, 28) && Clear(h, 21, 26) && h[20] == load && Clear(h, 0, 20) && Nib(h, 28) == AL
  {
    FieldIs(AL, 28);
    FlagIs(load, 20);
  }

  lemma OffsetIs(v: nat)
    requires v < 0x800
    ensures Clear(Field(v, 0), 12, 32) && Low12(Field(v, 0)) == v
  {
    assert Pow2(4) == 16;
    Pow2Add(4, 4);
    Pow2Add(8, 4);
    NatOfWordFrom(v, 0, |Word(v)| - 20);
    forall i | 12 <= i < 32
      ensures !Field(v, 0)[i]
    {
      BitOfHigh(v, i, 12);
    }
  }

  /** A four-bit field put where there is room for it. */
  lemma FieldOn(h: word, v: nat, at: nat, r: word)
    requires v < 16 && at <= 28 && Clear(h, at, at + 4) && r == Or(h, Field(v, at))
    ensures Nib(r, at) == v && forall i :: 0 <= i < 32 && !(at <= i < at + 4) ==> r[i] == h[i]
  {
    FieldIs(v, at);
    NibOr(h, Field(v, at), at);
  }

  lemma OffsetOn(b: word, offset: word, w: word)
    requires Clear(b, 0, 12) && Clear(offset, 12, 23) && w == Or(b, offset)
    ensures Low12(w) == Low12(offset) && forall i :: 12 <= i < 32 ==> w[i] == (b[i] || offset[i])
  {
    NatOfSame(w, offset, 0, |b| - 20);
  }

  lemma MemRest(h: word, rd: nat, rn: nat, offset: word, w: word)
    requires rd < 16 && rn < 16 && Clear(h, 0, 20) && Clear(offset, 12, 23) && Clear(offset, 25, 32)
    requires w == Or(Or(Or(h, Field(rn, 16)), Field(rd, 12)), offset)
    ensures Nib(w, 28) == Nib(h, 28) && Nib(w, 16) == rn && Nib(w, 12) == rd && Low12(w) == Low12(offset)
    ensures forall i :: 20 <= i < 28 ==> w[i] == (h[i] || offset[i])
  {
    var a := Or(h, Field(rn, 16));
    FieldOn(h, rn, 16, a);
    var b := Or(a, Field(rd, 12));
    FieldOn(a, rd, 12, b);
    OffsetOn(b, offset, w);
  }

  lemma DecodeMemIs(w: word, load: bool, before: bool, rd: nat, rn: nat, v: nat)
    requires Nib(w, 28) == AL && w[26] && !w[27] && !w[25] && w[24] == before && w[23] && !w[22] && !w[21]
    requires w[20] == load && Nib(w, 16) == rn && Nib(w, 12) == rd && Low12(w) == v
    ensures Decode(w) == Mem(load, before, rd, rn, v)
  {
  }

  /** The offset field: the number, the add bit, and the pre-index bit. */
  lemma OffsetBits(before: bool, v: nat, offset: word)
    requires v < 0x800 && offset == if before then Immed12Pre(v) else Immed12Post(v)
    ensures Clear(offset, 12, 23) && Clear(offset, 25, 32) && offset[23] && offset[24] == before && Low12(offset) == v
  {
    OffsetIs(v);
    NatOfSame(offset, Field(v, 0), 0, |offset| - 20);
  }

  lemma DecodeTransfer(load: bool, before: bool, rd: nat, rn: nat, v: nat, offset: word)
    requires rd < 16 && rn < 16 && v < 0x800 && offset == if before then Immed12Pre(v) else Immed12Post(v)
    ensures Decode(MemWord(load, rd, rn, offset)) == Mem(load, before, rd, rn, v)
  {
    MemHeadIs(load);
    OffsetBits(before, v, offset);
    DecodeFrom(Or(Or(Field(AL, 28), Bit(26)), Field(B(load), 20)), load, before, rd, rn, v, offset,
               MemWord(load, rd, rn, offset));
  }

  lemma DecodeFrom(h: word, load: bool, before: bool, rd: nat, rn: nat, v: nat, offset: word, w: word)
    requires rd < 16 && rn < 16 && w == Or(Or(Or(h, Field(rn, 16)), Field(rd, 12)), offset)
    requires h[26] && Clear(h, 27, 28) && Clear(h, 21, 26) && h[20] == load && Clear(h, 0, 20) && Nib(h, 28) == AL
    requires Clear(offset, 12, 23) && Clear(offset, 25, 32) && offset[23] && offset[24] == before && Low12(offset) == v
    ensures Decode(w) == Mem(load, before, rd, rn, v)
  {
    MemRest(h, rd, rn, offset, w);
    DecodeMemIs(w, load, before, rd, rn, v);
  }

  /** BX: (cc << 28) | 0x12FFF10 | Rn. */
  function BxWord(rn: nat): word {
    Or(Or(Field(AL, 28), BxBits()), Field(rn, 0))
  }

  /** 0x12FFF10 */
  function BxBits(): word {
    seq(32, i requires 0 <= i < 32 => i == 4 || 8 <= i < 20 || i == 21 || i == 24)
  }

  lemma BxIs(w: word, rn: nat)
    requires Nib(w, 28) == AL && Nib(w, 0) == rn && BxPattern(w)
    ensures Decode(w) == Bx(rn)
  {
  }

  lemma DecodeBx(rn: nat)
    requires rn < 16
    ensures Decode(BxWord(rn)) == Bx(rn)
  {
    FieldIs(AL, 28);
    FieldIs(rn, 0);
    var a := Or(Field(AL, 28), BxBits());
    NibOr(Field(AL, 28), BxBits(), 28);
    NibOr(a, Field(rn, 0), 28);
    NibOr(a, Field(rn, 0), 0);
    assert BxPattern(BxWord(rn));
    BxIs(BxWord(rn), rn);
  }

  // Prolog and epilog words

  /** r4 to r11 and lr; the header that defines the constant is not part of this model. */
  function LSAVED(): word {
    seq(32, i requires 0 <= i < 32 => 4 <= i < 12 || i == LR)
  }

  /** MOV r0, r0 */
  function Nop(): word {
    DpWord(MOV_OP, 0, 0, RegOp2(0))
  }

  /** The registers saved by a routine that touched `touched`. */
  function Saved(touched: word): word {
    Or(And(touched, LSAVED()), Bit(LR))
  }

  function PrologWord(touched: word): word {
    if And(touched, LSAVED()) != Zero() then StmWord(FD, SP, Saved(touched)) else Nop()
  }

  function EpilogWords(touched: word): seq<word> {
    if And(touched, LSAVED()) != Zero() then [LdmWord(FD, SP, Saved(touched)), BxWord(LR)] else [BxWord(LR)]
  }

  /** Each branch comes after the one before it. */
  predicate Increasing(targets: seq<BranchTarget>) {
    |targets| < 2 ||
    (targets[|targets| - 2].pc < targets[|targets| - 1].pc && Increasing(targets[..|targets| - 1]))
  }

  lemma {:induction false} LastIsHighest(targets: seq<BranchTarget>, j: nat)
    requires Increasing(targets) && j < |targets| - 1
    ensures targets[j].pc < targets[|targets| - 1].pc
    decreases |targets|
  {
    var rest := targets[..|targets| - 1];
    if j < |rest| - 1 {
      LastIsHighest(rest, j);
    }
  }

  /** What lies below the last branch of an increasing list is not that branch. */
  lemma {:induction false} PrefixBelow(targets: seq<BranchTarget>, n: nat)
    requires Increasing(targets) && n < |targets|
    ensures forall j :: 0 <= j < n ==> targets[j].pc < targets[n].pc
    decreases |targets|
  {
    if n < |targets| - 1 {
      var rest := targets[..|targets| - 1];
      PrefixBelow(rest, n);
      assert forall j :: 0 <= j < n ==> rest[j] == targets[j];
    } else {
      forall j | 0 <= j < n
        ensures targets[j].pc < targets[n].pc
      {
        LastIsHighest(targets, j);
      }
    }
  }

  /** None of the branches from `from` on stands at index i. */
  predicate NoBranch(targets: seq<BranchTarget>, from: nat, i: int) {
    forall k :: from <= k < |targets| ==> targets[k].pc != i
  }

  /** The word of a branch to a label is the word of a branch straight to the label's place. */
  predicate Direct(code: seq<word>, t: BranchTarget, i: (nat, bool), labels: map<string, nat>) {
    t.lab in labels && t.pc < |code| && code[t.pc] == BranchWord(i.0, i.1, t.pc, labels[t.lab])
  }

  /** `code` is `was` with the branches from `count` on made direct. */
  ghost predicate Linked(was: seq<word>, code: seq<word>, targets: seq<BranchTarget>, issued: seq<(nat, bool)>,
      labels: map<string, nat>, count: nat) {
    && |code| == |was| && |issued| == |targets|
    && (forall k :: count <= k < |targets| ==> Direct(code, targets[k], issued[k], labels))
    && (forall i :: 0 <= i < |code| && NoBranch(targets, count, i) ==> code[i] == was[i])
  }

  lemma {:induction false} LinkStep(was: seq<word>, code: seq<word>, targets: seq<BranchTarget>,
      issued: seq<(nat, bool)>, labels: map<string, nat>, count: nat, t: BranchTarget, w: word)
    requires Increasing(targets) && count < |targets| && t == targets[count] && t.lab in labels
    requires Linked(was, code, targets, issued, labels, count + 1)
    requires t.pc < |was| && was[t.pc] == BranchHead(issued[count].0, issued[count].1)
    requires w == Or(code[t.pc], OffsetField(labels[t.lab] - (t.pc + 2)))
    ensures Linked(was, code[t.pc := w], targets, issued, labels, count)
  {
    forall k | count < k < |targets|
      ensures targets[k].pc != t.pc
    {
      PrefixBelow(targets, k);
    }
    assert NoBranch(targets, count + 1, t.pc);
    var next := code[t.pc := w];
    forall k | count <= k < |targets|
      ensures Direct(next, targets[k], issued[k], labels)
    {
      assert k > count ==> Direct(code, targets[k], issued[k], labels);
    }
    forall i | 0 <= i < |next| && NoBranch(targets, count, i)
      ensures next[i] == was[i]
    {
      assert targets[count].pc != i;
      assert NoBranch(targets, count + 1, i);
    }
  }

  class ARMAssembler {
    /** The words from mBase on. */
    var code: seq<word>
    var pc: nat
    var prologPC: nat
    var labels: map<string, nat>
    var branchTargets: seq<BranchTarget>
    /** Condition and link bit of each branch target, and whether the prolog word exists. */
    ghost var issued: seq<(nat, bool)>
    ghost var hasProlog: bool

    /** Placeholders are untouched heads of distinct branches, none of them the prolog. */
    ghost predicate Valid()
      reads this
    {
      && pc == |code| && |issued| == |branchTargets|
      && (forall k :: 0 <= k < |branchTargets| ==>
            && branchTargets[k].pc < |code| && issued[k].0 < 16
            && code[branchTargets[k].pc] == BranchHead(issued[k].0, issued[k].1))
      && Increasing(branchTargets)
      && (hasProlog ==> prologPC < |code| && NoBranch(branchTargets, 0, prologPC))
    }

    constructor ()
      ensures Valid() && code == [] && labels == map[] && branchTargets == [] && !hasProlog
    {
      code, pc, prologPC, labels, branchTargets := [], 0, 0, map[], [];
      issued, hasProlog := [], false;
    }

    /** *mPC++ = w */
    method Emit(w: word)
      requires pc <= |code|
      modifies `code, `pc
      ensures pc == old(pc) + 1
      ensures old(pc) == |old(code)| ==> code == old(code) + [w]
      ensures old(pc) < |old(code)| ==> code == old(code)[old(pc) := w]
    {
      code := if pc < |code| then code[pc := w] else code + [w];
      pc := pc + 1;
    }

    method DataProcessing(opcode: nat, rd: nat, rn: nat, op2: word)
      requires Valid()
      modifies `code, `pc
      ensures Valid() && code == old(code) + [DpWord(opcode, rd, rn, op2)]
    {
      Emit(DpWord(opcode, rd, rn, op2));
    }

    /** LDR and STR. */
    method Transfer(load: bool, rd: nat, rn: nat, offset: word)
      requires Valid()
      modifies `code, `pc
      ensures Valid() && code == old(code) + [MemWord(load, rd, rn, offset)]
    {
      Emit(MemWord(load, rd, rn, offset));
    }

    /** KeyedVector::add: a label set twice keeps its last place. */
    method Label(name: string)
      requires Valid()
      modifies `labels
      ensures Valid() && labels == old(labels)[name := |code|]
    {
      labels := labels[name := pc];
    }

    /** B and BL to a label: a head whose offset generate fills in. */
    method BranchToLabel(cc: nat, link: bool, name: string)
      requires Valid() && cc < 16
      modifies `code, `pc, `branchTargets, `issued
      ensures Valid() && code == old(code) + [BranchHead(cc, link)]
      ensures branchTargets == old(branchTargets) + [BranchTarget(name, |old(code)|)]
      ensures issued == old(issued) + [(cc, link)]
    {
      branchTargets := branchTargets + [BranchTarget(name, pc)];
      issued := issued + [(cc, link)];
      OrZero(BranchHead(cc, link));
      Emit(Or(BranchHead(cc, link), Zero()));
    }

    /** B and BL straight to a place in the code. */
    method Branch(cc: nat, link: bool, target: nat)
      requires Valid() && cc < 16
      modifies `code, `pc
      ensures Valid() && code == old(code) + [BranchWord(cc, link, |old(code)|, target)]
    {
      var offset := target - (pc + 2);
      Emit(Or(BranchHead(cc, link), OffsetField(offset)));
    }

    /** A place holder, to be rewritten by every epilog. */
    method Prolog()
      requires Valid()
      modifies `code, `pc, `prologPC, `hasProlog
      ensures Valid() && hasProlog && prologPC == |old(code)|
      ensures code == old(code) + [StmWord(FD, SP, LSAVED())]
    {
      prologPC, hasProlog := pc, true;
      Emit(StmWord(FD, SP, LSAVED()));
    }

    /** Rewrite the prolog for the registers touched so far, and emit the matching return. */
    method Epilog(touched: word)
      requires Valid() && hasProlog
      modifies `code, `pc
      ensures Valid()
      ensures code == old(code)[prologPC := PrologWord(touched)] + EpilogWords(touched)
    {
      var saved := And(touched, LSAVED());
      var here := pc;
      pc := prologPC;
      if saved != Zero() {
        Emit(StmWord(FD, SP, Or(saved, Bit(LR))));
        pc := here;
        Emit(LdmWord(FD, SP, Or(saved, Bit(LR))));
      } else {
        Emit(Nop());
        pc := here;
      }
      Emit(BxWord(LR));
    }

    /**
     generate: afterwards every branch to a label is, bit for bit, the direct
     branch to the label's place, and no other word has changed.  An unknown
     label is fatal.
     */
    method Generate() returns (ok: bool)
      requires Valid()
      modifies `code
      ensures ok <==> forall t :: t in branchTargets ==> t.lab in labels
      ensures |code| == |old(code)|
      ensures ok ==> forall k :: 0 <= k < |branchTargets| ==> Direct(code, branchTargets[k], issued[k], labels)
      ensures ok ==> forall i :: 0 <= i < |code| && NoBranch(branchTargets, 0, i) ==> code[i] == old(code)[i]
    {
      var count := |branchTargets|;
      while count > 0
        invariant 0 <= count <= |branchTargets| && Linked(old(code), code, branchTargets, issued, labels, count)
      {
        count := count - 1;
        var bt := branchTargets[count];
        if bt.lab !in labels {
          return false;
        }
        var offset := labels[bt.lab] - (bt.pc + 2);
        var w := Or(code[bt.pc], OffsetField(offset));
        LinkStep(old(code), code, branchTargets, issued, labels, count, bt, w);
        code := code[bt.pc := w];
      }
      assert forall t :: t in branchTargets ==> t.lab in labels by {
        assert forall k :: 0 <= k < |branchTargets| ==> Direct(code, branchTargets[k], issued[k], labels);
      }
      return true;
    }
  }

  lemma OrZero(w: word)
    ensures Or(w, Zero()) == w
  {
  }
}
