/**
 bb2sym.cpp: basic blocks sorted by address, and each cut back to where the next
 one starts.
 */
module InnerBlocks {
  import opened Sequences

  /** Addresses are 32-bit. */
  const SPACE: nat := 0x1_0000_0000

  // Spans of code

  /** `count` instructions of `unit` bytes from `addr` on. */
  datatype Span = Span(addr: nat, count: nat, unit: nat)

  function Bytes(s: Span): nat {
    if s.unit == 2 then 2 * s.count else 4 * s.count
  }

  function End(s: Span): nat {
    s.addr + Bytes(s)
  }

  predicate WellFormed(s: Span) {
    (s.unit == 2 || s.unit == 4) && s.addr < SPACE
  }

  /** The block does not run past the top of the address space. */
  predicate NoWrap(s: Span) {
    End(s) < SPACE
  }

  /** How far x lies behind a, going round at the top. */
  function Offset(a: nat, x: nat): nat
    requires a < SPACE && x < SPACE
  {
    if x >= a then x - a else x - a + SPACE
  }

  /** Address x belongs to the block, which goes on at address 0 past the top. */
  predicate Covers(s: Span, x: nat) {
    s.addr < SPACE && x < SPACE && Offset(s.addr, x) < Bytes(s)
  }

  /** addr_end, in 32-bit arithmetic. */
  function End32(s: Span): nat {
    End(s) % SPACE
  }

  /** One turn of the loop. */
  function Cut(s: Span, next: nat): Span
    requires WellFormed(s) && s.addr <= next
  {
    if End32(s) > next then s.(count := if s.unit == 2 then (next - s.addr) / 2 else (next - s.addr) / 4) else s
  }

  predicate InOrder(list: seq<Span>) {
    forall i, j :: 0 <= i < j < |list| ==> list[i].addr <= list[j].addr
  }

  predicate AllWell(list: seq<Span>) {
    forall i :: 0 <= i < |list| ==> WellFormed(list[i])
  }

  predicate AllFit(list: seq<Span>) {
    forall i :: 0 <= i < |list| ==> NoWrap(list[i])
  }

  /** Every block but the last cut back to the next. */
  function Split(list: seq<Span>): (r: seq<Span>)
    requires AllWell(list) && InOrder(list)
    ensures |r| == |list|
  {
    seq(|list|, i requires 0 <= i < |list| => if i + 1 < |list| then Cut(list[i], list[i + 1].addr) else list[i])
  }

  /** The block reaches into the next one, but its end in 32 bits does not show it. */
  predicate Missed(s: Span, next: nat) {
    End(s) > next && End32(s) <= next
  }

  lemma CutEnds(s: Span, next: nat)
    requires WellFormed(s) && s.addr <= next
    ensures End(Cut(s, next)) <= next <==> !Missed(s, next)
    ensures Cut(s, next).addr == s.addr && Cut(s, next).count <= s.count
    ensures Missed(s, next) ==> Cut(s, next) == s && End(s) >= SPACE
  {
    assert End(s) >= End32(s);
    assert NoWrap(s) ==> End32(s) == End(s);
  }

  /** No block ever grows or moves. */
  lemma SplitNeverGrows(list: seq<Span>, i: nat)
    requires AllWell(list) && InOrder(list) && i < |list|
    ensures Split(list)[i].addr == list[i].addr && Split(list)[i].count <= list[i].count
    ensures i + 1 < |list| ==> (End(Split(list)[i]) <= list[i + 1].addr <==> !Missed(list[i], list[i + 1].addr))
  {
    if i + 1 < |list| {
      CutEnds(list[i], list[i + 1].addr);
    }
  }

  // Overlap

  /** No address belongs to two blocks. */
  ghost predicate Disjoint(list: seq<Span>) {
    forall i, j, x :: 0 <= i < j < |list| && Covers(list[i], x) ==> !Covers(list[j], x)
  }

  /** Two blocks that are not empty share an address exactly when one runs into the other, on whichever side. */
  lemma ShareIff(a: Span, b: Span)
    requires a.addr <= b.addr < SPACE && Bytes(a) > 0 && Bytes(b) > 0
    ensures (exists x :: Covers(a, x) && Covers(b, x)) <==> End(a) > b.addr || End(b) > a.addr + SPACE
  {
    if End(a) > b.addr {
      assert Covers(a, b.addr) && Covers(b, b.addr);
    } else if End(b) > a.addr + SPACE {
      assert Covers(a, a.addr) && Covers(b, a.addr);
    }
  }

  /** The cut leaves nothing of the block. */
  predicate Vanishes(list: seq<Span>, i: nat)
    requires AllWell(list) && InOrder(list) && i < |list|
  {
    list[i].count == 0
    || (i + 1 < |list| && End32(list[i]) > list[i + 1].addr && list[i + 1].addr - list[i].addr < list[i].unit)
  }

  /** The i-th block is not stopped at the one after it. */
  predicate Unstopped(list: seq<Span>, i: nat)
    requires i < |list|
  {
    i + 1 == |list| || Missed(list[i], list[i + 1].addr)
  }

  /** Block i does not wrap round unseen, nor block j so far that it runs into block i from below. */
  predicate PairStopped(list: seq<Span>, i: nat, j: nat)
    requires i < j < |list|
  {
    !Missed(list[i], list[i + 1].addr) && (Unstopped(list, j) ==> End(list[j]) <= list[i].addr + SPACE)
  }

  lemma NothingFits(d: nat)
    ensures (d / 2 == 0 <==> d < 2) && (d / 4 == 0 <==> d < 4)
  {
  }

  lemma EmptyEnd(s: Span)
    requires WellFormed(s) && s.count == 0
    ensures End32(s) == s.addr
  {
    assert End(s) == s.addr;
  }

  /** What is left when `d` bytes are before the next block. */
  lemma VanishesCut(s: Span, next: nat, d: nat)
    requires WellFormed(s) && s.addr <= next && d == next - s.addr && End32(s) > next
    ensures Bytes(Cut(s, next)) == 0 <==> d < s.unit
  {
    NothingFits(d);
    assert Cut(s, next).count == if s.unit == 2 then d / 2 else d / 4;
  }

  lemma VanishesWhen(s: Span, next: nat)
    requires WellFormed(s) && s.addr <= next
    ensures Bytes(Cut(s, next)) == 0 <==> s.count == 0 || (End32(s) > next && next - s.addr < s.unit)
  {
    if s.count == 0 {
      EmptyEnd(s);
    } else if End32(s) > next {
      VanishesCut(s, next, next - s.addr);
    }
  }

  lemma VanishesIff(list: seq<Span>, i: nat)
    requires AllWell(list) && InOrder(list) && i < |list|
    ensures Vanishes(list, i) <==> Bytes(Split(list)[i]) == 0
  {
    if i + 1 < |list| {
      VanishesWhen(list[i], list[i + 1].addr);
    }
  }

  lemma RunsInto(list: seq<Span>, i: nat, j: nat)
    requires AllWell(list) && InOrder(list) && i < j < |list|
    ensures End(Split(list)[i]) > list[j].addr <==> Missed(list[i], list[i + 1].addr)
  {
    CutEnds(list[i], list[i + 1].addr);
    assert list[i + 1].addr <= list[j].addr < SPACE;
  }

  lemma RunsRound(list: seq<Span>, j: nat, bound: nat)
    requires AllWell(list) && InOrder(list) && j < |list| && SPACE <= bound
    ensures End(Split(list)[j]) > bound <==> Unstopped(list, j) && End(list[j]) > bound
  {
    if j + 1 < |list| {
      CutEnds(list[j], list[j + 1].addr);
      assert list[j + 1].addr < SPACE;
    }
  }

  lemma PairIff(list: seq<Span>, i: nat, j: nat)
    requires AllWell(list) && InOrder(list) && i < j < |list| && !Vanishes(list, i) && !Vanishes(list, j)
    ensures (exists x :: Covers(Split(list)[i], x) && Covers(Split(list)[j], x)) <==> !PairStopped(list, i, j)
  {
    VanishesIff(list, i);
    VanishesIff(list, j);
    SplitNeverGrows(list, i);
    SplitNeverGrows(list, j);
    RunsInto(list, i, j);
    RunsRound(list, j, list[i].addr + SPACE);
    ShareIff(Split(list)[i], Split(list)[j]);
  }

  /**
   Afterwards no two blocks overlap exactly when, of those something is left of,
   none wraps round past the one after it, and the last does not wrap round into
   another one.
   */
  lemma SplitDisjointIff(list: seq<Span>)
    requires AllWell(list) && InOrder(list)
    ensures Disjoint(Split(list)) <==>
              forall i, j :: 0 <= i < j < |list| && !Vanishes(list, i) && !Vanishes(list, j) ==> PairStopped(list, i, j)
  {
    var r := Split(list);
    if Disjoint(r) {
      forall i, j | 0 <= i < j < |list| && !Vanishes(list, i) && !Vanishes(list, j)
        ensures PairStopped(list, i, j)
      {
        PairIff(list, i, j);
      }
    }
    if forall i, j :: 0 <= i < j < |list| && !Vanishes(list, i) && !Vanishes(list, j) ==> PairStopped(list, i, j) {
      forall i, j, x | 0 <= i < j < |list| && Covers(r[i], x)
        ensures !Covers(r[j], x)
      {
        VanishesIff(list, i);
        VanishesIff(list, j);
        if !Vanishes(list, j) {
          PairIff(list, i, j);
        }
      }
    }
  }

  /** In particular when none runs past the top of the address space. */
  lemma SplitDisjoint(list: seq<Span>)
    requires AllWell(list) && AllFit(list) && InOrder(list)
    ensures Disjoint(Split(list))
  {
    forall i, j | 0 <= i < j < |list|
      ensures PairStopped(list, i, j)
    {
      CutEnds(list[i], list[i + 1].addr);
    }
    SplitDisjointIff(list);
  }

  /** A last block that wraps round into the first overlaps it, though neither runs into the next one. */
  lemma LastWrapsToFirst(list: seq<Span>)
    requires list == [Span(0, 1, 4), Span(0xFFFF_FFFC, 2, 4)]
    ensures AllWell(list) && InOrder(list) && Split(list) == list && !Missed(list[0], list[1].addr)
    ensures !Disjoint(Split(list))
  {
    assert Split(list)[0] == list[0];
    assert Covers(list[0], 0) && Covers(list[1], 0);
  }

  // Coverage

  ghost predicate Covered(list: seq<Span>, x: nat) {
    exists i :: 0 <= i < |list| && Covers(list[i], x)
  }

  /** The end of the block's last instruction that is whole before `next`. */
  function WholeEnd(s: Span, next: nat): nat
    requires s.addr <= next
  {
    if End(s) <= next then End(s)
    else s.addr + if s.unit == 2 then 2 * ((next - s.addr) / 2) else 4 * ((next - s.addr) / 4)
  }

  /** As far as block j reaches between the k-th address and the next, whole instructions of the k-th block do. */
  predicate Reaches(list: seq<Span>, j: nat, k: nat)
    requires InOrder(list) && j <= k < |list|
  {
    End(list[j]) > list[k].addr ==>
      if k + 1 < |list| then Min(End(list[j]), list[k + 1].addr) <= WholeEnd(list[k], list[k + 1].addr)
      else End(list[j]) <= End(list[k])
  }

  lemma CoversPlain(s: Span, x: nat)
    requires NoWrap(s)
    ensures Covers(s, x) <==> s.addr <= x < End(s)
  {
  }

  lemma SplitFits(list: seq<Span>, i: nat)
    requires AllWell(list) && AllFit(list) && InOrder(list) && i < |list|
    ensures NoWrap(Split(list)[i]) && Split(list)[i].addr == list[i].addr
    ensures End(Split(list)[i]) <= End(list[i]) && (i + 1 < |list| ==> End(Split(list)[i]) <= list[i + 1].addr)
    ensures End(Split(list)[i]) == if i + 1 < |list| then WholeEnd(list[i], list[i + 1].addr) else End(list[i])
  {
    SplitNeverGrows(list, i);
    if i + 1 < |list| {
      CutEnds(list[i], list[i + 1].addr);
      CutWhole(list[i], list[i + 1].addr);
    }
  }

  lemma CutWhole(s: Span, next: nat)
    requires WellFormed(s) && NoWrap(s) && s.addr <= next
    ensures End(Cut(s, next)) == WholeEnd(s, next)
  {
    assert End32(s) == End(s);
  }

  /** The last block that starts at x or before. */
  lemma {:induction false} LastBefore(list: seq<Span>, j: nat, x: nat) returns (k: nat)
    requires j < |list| && list[j].addr <= x
    ensures j <= k < |list| && list[k].addr <= x && (k + 1 < |list| ==> list[k + 1].addr > x)
    decreases |list| - j
  {
    if j + 1 < |list| && list[j + 1].addr <= x {
      k := LastBefore(list, j + 1, x);
    } else {
      k := j;
    }
  }

  lemma ReachedStays(list: seq<Span>, x: nat)
    requires AllWell(list) && AllFit(list) && InOrder(list) && Covered(list, x)
    requires forall j, k :: 0 <= j <= k < |list| ==> Reaches(list, j, k)
    ensures Covered(Split(list), x)
  {
    var j :| 0 <= j < |list| && Covers(list[j], x);
    CoversPlain(list[j], x);
    var k := LastBefore(list, j, x);
    SplitFits(list, k);
    assert Reaches(list, j, k);
    CoversPlain(Split(list)[k], x);
  }

  lemma NothingGained(list: seq<Span>, x: nat)
    requires AllWell(list) && AllFit(list) && InOrder(list) && Covered(Split(list), x)
    ensures Covered(list, x)
  {
    var i :| 0 <= i < |list| && Covers(Split(list)[i], x);
    SplitFits(list, i);
    CoversPlain(Split(list)[i], x);
    CoversPlain(list[i], x);
  }

  /** Where the k-th block ends now no other one goes on before the next address. */
  lemma EndUncovered(list: seq<Span>, k: nat, x: nat)
    requires AllWell(list) && AllFit(list) && InOrder(list) && k < |list| && x == End(Split(list)[k])
    requires k + 1 < |list| ==> x < list[k + 1].addr
    ensures !Covered(Split(list), x)
  {
    SplitFits(list, k);
    forall i | 0 <= i < |list|
      ensures !Covers(Split(list)[i], x)
    {
      SplitFits(list, i);
      CoversPlain(Split(list)[i], x);
      assert i < k ==> list[i + 1].addr <= list[k].addr;
      assert i > k ==> list[k + 1].addr <= list[i].addr;
    }
  }

  lemma ReachesOf(list: seq<Span>, j: nat, k: nat)
    requires AllWell(list) && AllFit(list) && InOrder(list) && j <= k < |list|
    requires !Reaches(list, j, k)
    ensures exists x :: Covered(list, x) && !Covered(Split(list), x)
  {
    var x := End(Split(list)[k]);
    SplitFits(list, k);
    EndUncovered(list, k, x);
    assert list[j].addr <= list[k].addr;
    CoversPlain(list[j], x);
    assert Covered(list, x);
  }

  /** The same addresses stay covered exactly when each block reaches as far as any before it, up to the next. */
  lemma CoverageKeptIff(list: seq<Span>)
    requires AllWell(list) && AllFit(list) && InOrder(list)
    ensures (forall x :: Covered(Split(list), x) <==> Covered(list, x))
       <==> forall j, k :: 0 <= j <= k < |list| ==> Reaches(list, j, k)
  {
    if j, k :| 0 <= j <= k < |list| && !Reaches(list, j, k) {
      ReachesOf(list, j, k);
    } else {
      forall x
        ensures Covered(Split(list), x) <==> Covered(list, x)
      {
        if Covered(list, x) {
          ReachedStays(list, x);
        }
        if Covered(Split(list), x) {
          NothingGained(list, x);
        }
      }
    }
  }

  predicate Overlap(a: Span, b: Span) {
    a.addr < End(b) && b.addr < End(a)
  }

  /** Below the top of the address space that is sharing an address. */
  lemma OverlapIff(a: Span, b: Span)
    requires NoWrap(a) && NoWrap(b) && Bytes(a) > 0 && Bytes(b) > 0
    ensures Overlap(a, b) <==> exists x :: Covers(a, x) && Covers(b, x)
  {
    if a.addr <= b.addr {
      ShareIff(a, b);
    } else {
      ShareIff(b, a);
      if Overlap(a, b) {
        var x :| Covers(b, x) && Covers(a, x);
        assert Covers(a, x) && Covers(b, x);
      }
    }
  }

  /** Overlapping blocks are tails of one another, in the same mode. */
  predicate SharedTails(list: seq<Span>) {
    forall i, j :: 0 <= i < j < |list| && Overlap(list[i], list[j]) ==>
      list[i].unit == list[j].unit && End(list[i]) == End(list[j])
  }

  predicate Aligned(s: Span) {
    if s.unit == 2 then s.addr % 2 == 0 else s.addr % 4 == 0
  }

  predicate Regular(list: seq<Span>) {
    forall i :: 0 <= i < |list| ==> list[i].count > 0 && Aligned(list[i])
  }

  lemma WholeTwos(a: nat, b: nat)
    requires a <= b && a % 2 == 0 && b % 2 == 0
    ensures 2 * ((b - a) / 2) == b - a
  {
    assert b - a == 2 * (b / 2 - a / 2);
  }

  lemma WholeFours(a: nat, b: nat)
    requires a <= b && a % 4 == 0 && b % 4 == 0
    ensures 4 * ((b - a) / 4) == b - a
  {
    assert b - a == 4 * (b / 4 - a / 4);
  }

  /** Before an aligned next block all of an aligned block's instructions are whole. */
  lemma WholeExact(s: Span, t: Span)
    requires s.addr <= t.addr && Aligned(s) && Aligned(t) && (s.unit == t.unit || End(s) <= t.addr)
    ensures WholeEnd(s, t.addr) == Min(End(s), t.addr)
  {
    if End(s) > t.addr {
      if s.unit == 2 {
        WholeTwos(s.addr, t.addr);
      } else {
        WholeFours(s.addr, t.addr);
      }
    }
  }

  /** A cut through aligned code ends exactly at the next block. */
  lemma CutExact(s: Span, t: Span)
    requires WellFormed(s) && WellFormed(t) && NoWrap(s) && s.addr <= t.addr && Aligned(s) && Aligned(t)
    requires s.unit == t.unit || End(s) <= t.addr
    ensures End(Cut(s, t.addr)) == Min(End(s), t.addr)
  {
    CutWhole(s, t.addr);
    WholeExact(s, t);
  }

  lemma SharedEnds(list: seq<Span>, j: nat, k: nat)
    requires Regular(list) && SharedTails(list) && AllWell(list) && InOrder(list)
    requires j < k < |list| && End(list[j]) > list[k].addr
    ensures list[j].unit == list[k].unit && End(list[j]) == End(list[k])
  {
    assert Overlap(list[j], list[k]);
  }

  lemma CutAtNext(list: seq<Span>, k: nat)
    requires AllWell(list) && AllFit(list) && InOrder(list) && Regular(list) && SharedTails(list) && k + 1 < |list|
    ensures End(Split(list)[k]) == Min(End(list[k]), list[k + 1].addr)
  {
    var s, t := list[k], list[k + 1];
    assert Split(list)[k] == Cut(s, t.addr);
    if End(s) > t.addr {
      SharedEnds(list, k, k + 1);
    }
    CutExact(s, t);
  }

  lemma TailReaches(list: seq<Span>, j: nat, k: nat)
    requires AllWell(list) && AllFit(list) && InOrder(list) && Regular(list) && SharedTails(list) && j <= k < |list|
    ensures Reaches(list, j, k)
  {
    if j < k && End(list[j]) > list[k].addr {
      SharedEnds(list, j, k);
    }
    if k + 1 < |list| {
      CutAtNext(list, k);
      SplitFits(list, k);
    }
  }

  /** On regular blocks that overlap only in shared tails the same addresses stay covered. */
  lemma CoverageKept(list: seq<Span>)
    requires AllWell(list) && AllFit(list) && InOrder(list) && Regular(list) && SharedTails(list)
    ensures forall x :: Covered(Split(list), x) <==> Covered(list, x)
  {
    forall j, k | 0 <= j <= k < |list|
      ensures Reaches(list, j, k)
    {
      TailReaches(list, j, k);
    }
    CoverageKeptIff(list);
  }

  /** A block in the middle of another costs the enclosing one its tail. */
  lemma EnclosingTailLost(list: seq<Span>)
    requires list == [Span(0, 4, 4), Span(4, 1, 4)]
    ensures AllWell(list) && AllFit(list) && InOrder(list) && Regular(list) && !Reaches(list, 0, 1)
    ensures Covered(list, 12) && !Covered(Split(list), 12)
  {
    assert Covers(list[0], 12);
    assert Split(list)[0] == Span(0, 1, 4) && Split(list)[1] == list[1];
  }

  /** A block that runs past the top of the address space is not cut. */
  lemma WrappedBlockStays(list: seq<Span>)
    requires list == [Span(0xFFFF_FFF0, 8, 4), Span(0xFFFF_FFF4, 1, 4)]
    ensures AllWell(list) && InOrder(list) && !AllFit(list) && Split(list) == list && !Disjoint(Split(list))
  {
    assert End32(list[0]) == 0x10;
    assert !NoWrap(list[0]);
    assert Split(list)[0] == list[0] && Split(list)[1] == list[1];
    assert Covers(list[0], 0xFFFF_FFF4) && Covers(list[1], 0xFFFF_FFF4);
  }

  // The records

  class Block {
    const addr: nat
    const num: int
    const isThumb: bool
    var numInsns: nat
    var inner: Block?

    constructor (addr: nat, num: int, isThumb: bool, numInsns: nat)
      requires addr < SPACE
      ensures this.addr == addr && this.num == num && this.isThumb == isThumb && this.numInsns == numInsns
      ensures inner == null
    {
      this.addr, this.num, this.isThumb, this.numInsns, inner := addr, num, isThumb, numInsns, null;
    }

    function ToSpan(): Span
      reads this
    {
      Span(addr, numInsns, if isThumb then 2 else 4)
    }
  }

  /** cmp_inc_addr: by address, then by number. */
  predicate Before(a: Block, b: Block) {
    a.addr < b.addr || (a.addr == b.addr && a.num <= b.num)
  }

  predicate Sorted(list: seq<Block>) {
    forall i, j :: 0 <= i < j < |list| ==> Before(list[i], list[j])
  }

  function Spans(list: seq<Block>): seq<Span>
    reads list
  {
    seq(|list|, i requires 0 <= i < |list| reads list => list[i].ToSpan())
  }

  predicate NoneBefore(b: Block, list: seq<Block>) {
    forall i :: 0 <= i < |list| ==> Before(b, list[i])
  }

  lemma FirstIsFirst(list: seq<Block>, b: Block, rest: seq<Block>)
    requires Sorted(rest) && NoneBefore(b, rest) && list == [b] + rest
    ensures Sorted(list)
  {
  }

  /** Put a block into a sorted list. */
  function Insert(list: seq<Block>, b: Block): (r: seq<Block>)
    decreases |list|
  {
    if list == [] || Before(b, list[0]) then [b] + list else [list[0]] + Insert(list[1..], b)
  }

  lemma {:induction false} InsertKeeps(list: seq<Block>, b: Block, x: Block)
    requires NoneBefore(x, list) && Before(x, b)
    ensures NoneBefore(x, Insert(list, b))
    decreases |list|
  {
    if list != [] && !Before(b, list[0]) {
      InsertKeeps(list[1..], b, x);
    }
  }

  lemma SortedParts(list: seq<Block>, rest: seq<Block>)
    requires Sorted(list) && list != [] && rest == list[1..]
    ensures Sorted(rest) && NoneBefore(list[0], rest) && list == [list[0]] + rest
  {
  }

  lemma BeforeSorted(list: seq<Block>, b: Block)
    requires Sorted(list) && list != [] && Before(b, list[0])
    ensures Sorted([b] + list)
  {
    forall i | 0 <= i < |list|
      ensures Before(b, list[i])
    {
      assert i > 0 ==> Before(list[0], list[i]);
    }
    FirstIsFirst([b] + list, b, list);
  }

  lemma {:induction false} InsertSorts(list: seq<Block>, b: Block)
    requires Sorted(list)
    ensures Sorted(Insert(list, b)) && multiset(Insert(list, b)) == multiset(list) + multiset{b}
    decreases |list|
  {
    if list == [] {
    } else if Before(b, list[0]) {
      BeforeSorted(list, b);
    } else {
      var first, rest := list[0], list[1..];
      SortedParts(list, rest);
      InsertSorts(rest, b);
      InsertKeeps(rest, b, first);
      FirstIsFirst([first] + Insert(rest, b), first, Insert(rest, b));
    }
  }

  /** The sort, as its contract: same blocks, in order. */
  method Sort(blocks: seq<Block>) returns (sorted: seq<Block>)
    ensures Sorted(sorted) && multiset(sorted) == multiset(blocks)
    ensures forall i, j :: 0 <= i < j < |sorted| ==>
              sorted[i].addr < sorted[j].addr || (sorted[i].addr == sorted[j].addr && sorted[i].num <= sorted[j].num)
  {
    sorted := [];
    for i := 0 to |blocks|
      invariant Sorted(sorted) && multiset(sorted) == multiset(blocks[..i])
    {
      InsertSorts(sorted, blocks[i]);
      sorted := Insert(sorted, blocks[i]);
      assert blocks[..i + 1] == blocks[..i] + [blocks[i]];
    }
    assert blocks[..|blocks|] == blocks;
  }

  ghost predicate DistinctBlocks(list: seq<Block>) {
    forall i, j :: 0 <= i < j < |list| ==> list[i] != list[j]
  }

  /** The blocks in the order of their addresses, as spans. */
  lemma SortedSpans(list: seq<Block>)
    requires Sorted(list) && forall i :: 0 <= i < |list| ==> list[i].addr < SPACE
    ensures AllWell(Spans(list)) && InOrder(Spans(list))
  {
  }

  /** The loop's arithmetic: where the block ends in 32 bits, and what fits before `next`. */
  method CutCount(b: Block, next: nat) returns (cut: bool, count: nat)
    requires b.addr < SPACE && b.addr <= next
    ensures cut <==> End32(b.ToSpan()) > next
    ensures count == Cut(b.ToSpan(), next).count
  {
    var numBytes := if b.isThumb then b.numInsns * 2 else b.numInsns * 4;
    var addrEnd := (b.addr + numBytes) % SPACE;
    cut, count := false, b.numInsns;
    if addrEnd > next {
      var addrDiff := next - b.addr;
      cut, count := true, if b.isThumb then addrDiff / 2 else addrDiff / 4;
    }
  }

  /** What each block points to as inner: the next one if it ran into that. */
  function Inners(sorted: seq<Block>, spans: seq<Span>, was: seq<Block?>): (r: seq<Block?>)
    requires |spans| == |was| == |sorted|
  {
    seq(|sorted|, i requires 0 <= i < |sorted| =>
      if i + 1 < |sorted| && End32(spans[i]) > sorted[i + 1].addr then sorted[i + 1] else was[i])
  }

  function InnerOf(list: seq<Block>): seq<Block?>
    reads list
  {
    seq(|list|, i requires 0 <= i < |list| reads list => list[i].inner)
  }

  /** A block as it was, but for its count and its inner block. */
  predicate Is(b: Block, s: Span, inner: Block?)
    reads b
  {
    b.ToSpan() == s && b.inner == inner
  }

  method CutBlock(b: Block, next: Block)
    requires b.addr <= next.addr && b.addr < SPACE
    modifies b
    ensures Is(b, Cut(old(b.ToSpan()), next.addr), if End32(old(b.ToSpan())) > next.addr then next else old(b.inner))
  {
    var cut, count := CutCount(b, next.addr);
    if cut {
      b.inner := next;
      b.numInsns := count;
    }
  }

  /** What the loop is to do to the i-th block, given what the blocks were. */
  predicate Planned(sorted: seq<Block>, i: nat, s: Span, t: Block?, s': Span, t': Block?)
    requires i < |sorted|
  {
    if i + 1 == |sorted| then s' == s && t' == t
    else
      var next := sorted[i + 1];
      && WellFormed(s) && s.addr <= next.addr && s' == Cut(s, next.addr)
      && t' == if End32(s) > next.addr then next else t
  }

  /** The loop of assign_inner_blocks: a block that is cut points to the one it ran into. */
  method CutBlocks(sorted: seq<Block>, ghost s: seq<Span>, ghost t: seq<Block?>,
      ghost s': seq<Span>, ghost t': seq<Block?>)
    requires |s| == |t| == |s'| == |t'| == |sorted| && DistinctBlocks(sorted)
    requires forall i {:trigger s'[i]} :: 0 <= i < |sorted| ==> Planned(sorted, i, s[i], t[i], s'[i], t'[i])
    requires forall i {:trigger sorted[i]} :: 0 <= i < |sorted| ==> Is(sorted[i], s[i], t[i])
    modifies sorted
    ensures forall i {:trigger sorted[i]} :: 0 <= i < |sorted| ==> Is(sorted[i], s'[i], t'[i])
  {
    var ii := 0;
    while ii < |sorted| - 1
      invariant 0 <= ii && (|sorted| > 0 ==> ii <= |sorted| - 1)
      invariant forall i {:trigger sorted[i]} :: ii <= i < |sorted| ==> Is(sorted[i], s[i], t[i])
      invariant forall i {:trigger sorted[i]} :: 0 <= i < ii && i < |sorted| ==> Is(sorted[i], s'[i], t'[i])
    {
      assert Planned(sorted, ii, s[ii], t[ii], s'[ii], t'[ii]) && Is(sorted[ii], s[ii], t[ii]);
      CutBlock(sorted[ii], sorted[ii + 1]);
      ii := ii + 1;
    }
    assert forall i :: 0 <= i < |sorted| && i + 1 == |sorted| ==> Planned(sorted, i, s[i], t[i], s'[i], t'[i]);
  }

  lemma PlanIs(sorted: seq<Block>, s: seq<Span>, t: seq<Block?>)
    requires |s| == |t| == |sorted| && AllWell(s) && InOrder(s)
    requires forall i :: 0 <= i < |sorted| ==> s[i].addr == sorted[i].addr
    ensures forall i :: 0 <= i < |sorted| ==> Planned(sorted, i, s[i], t[i], Split(s)[i], Inners(sorted, s, t)[i])
  {
    forall i | 0 <= i < |sorted|
      ensures Planned(sorted, i, s[i], t[i], Split(s)[i], Inners(sorted, s, t)[i])
    {
      if i + 1 < |sorted| {
        assert s[i + 1].addr == sorted[i + 1].addr;
      }
    }
  }

  /**
   The record of a block that had `count` instructions and pointed to `inner`:
   Thumb instructions have two bytes and others four; if the end in 32 bits lies
   behind the next block, only what fits before that is left, and inner is that block.
   */
  predicate Treated(b: Block, next: Block, count: nat, inner: Block?)
    requires b.addr <= next.addr
    reads b
  {
    var end := (b.addr + (if b.isThumb then 2 * count else 4 * count)) % 0x1_0000_0000;
    if end > next.addr then
      b.inner == next && b.numInsns == if b.isThumb then (next.addr - b.addr) / 2 else (next.addr - b.addr) / 4
    else b.inner == inner && b.numInsns == count
  }

  /** Every block but the last, with the number of instructions and the inner block it had; the last stays as it was. */
  predicate AllTreated(sorted: seq<Block>, s: seq<Span>, t: seq<Block?>)
    requires |s| == |t| == |sorted| && Sorted(sorted)
    reads sorted
  {
    && (sorted != [] ==>
          var last := |sorted| - 1; sorted[last].numInsns == s[last].count && sorted[last].inner == t[last])
    && forall i {:trigger s[i]} :: 0 <= i < |sorted| - 1 ==>
         Before(sorted[i], sorted[i + 1]) && Treated(sorted[i], sorted[i + 1], s[i].count, t[i])
  }

  predicate Units(sorted: seq<Block>, s: seq<Span>)
    requires |s| == |sorted|
  {
    forall i :: 0 <= i < |s| ==> s[i].addr == sorted[i].addr && s[i].unit == if sorted[i].isThumb then 2 else 4
  }

  lemma TreatedIs(b: Block, next: Block, s: Span, s': Span, t: Block?, t': Block?)
    requires s.addr == b.addr <= next.addr && s.addr < SPACE && s.unit == (if b.isThumb then 2 else 4)
    requires s' == Cut(s, next.addr) && t' == (if End32(s) > next.addr then next else t) && Is(b, s', t')
    ensures Treated(b, next, s.count, t)
  {
  }

  lemma TreatedAll(sorted: seq<Block>, s: seq<Span>, t: seq<Block?>)
    requires |s| == |t| == |sorted| && Sorted(sorted) && Units(sorted, s) && AllWell(s) && InOrder(s)
    requires Spans(sorted) == Split(s) && InnerOf(sorted) == Inners(sorted, s, t)
    ensures AllTreated(sorted, s, t)
  {
    if sorted != [] {
      var last := |sorted| - 1;
      assert Spans(sorted)[last] == sorted[last].ToSpan() && InnerOf(sorted)[last] == sorted[last].inner;
    }
    forall i | 0 <= i < |sorted| - 1
      ensures Before(sorted[i], sorted[i + 1]) && Treated(sorted[i], sorted[i + 1], s[i].count, t[i])
    {
      assert Spans(sorted)[i] == sorted[i].ToSpan() && InnerOf(sorted)[i] == sorted[i].inner;
      assert s[i + 1].addr == sorted[i + 1].addr;
      TreatedIs(sorted[i], sorted[i + 1], s[i], Split(s)[i], t[i], Inners(sorted, s, t)[i]);
    }
  }

  /** assign_inner_blocks: the blocks come back in order, each what the cut makes of it. */
  method AssignInnerBlocks(blocks: seq<Block>) returns (sorted: seq<Block>, ghost s: seq<Span>, ghost t: seq<Block?>)
    requires DistinctBlocks(blocks) && forall i :: 0 <= i < |blocks| ==> blocks[i].addr < SPACE
    modifies blocks
    ensures Sorted(sorted) && multiset(sorted) == multiset(blocks) && |s| == |t| == |sorted|
    ensures forall i, k :: 0 <= i < |sorted| && 0 <= k < |blocks| && sorted[i] == blocks[k] ==>
              s[i] == old(blocks[k].ToSpan()) && s[i].count == old(blocks[k].numInsns) && t[i] == old(blocks[k].inner)
    ensures AllWell(s) && InOrder(s) && Spans(sorted) == Split(s) && InnerOf(sorted) == Inners(sorted, s, t)
    ensures AllTreated(sorted, s, t)
  {
    sorted := Sort(blocks);
    SameBlocks(blocks, sorted);
    s, t := Spans(sorted), InnerOf(sorted);
    SortedSpans(sorted);
    PlanIs(sorted, s, t);
    CutBlocks(sorted, s, t, Split(s), Inners(sorted, s, t));
    TreatedAll(sorted, s, t);
  }

  lemma SameBlocks(a: seq<Block>, b: seq<Block>)
    requires multiset(a) == multiset(b) && DistinctBlocks(a)
    ensures DistinctBlocks(b) && |a| == |b| && forall i :: 0 <= i < |b| ==> b[i] in a
  {
    forall i | 0 <= i < |b|
      ensures b[i] in a
    {
      assert b[i] in multiset(b);
    }
    assert |multiset(a)| == |a| && |multiset(b)| == |b|;
    forall i, j | 0 <= i < j < |b|
      ensures b[i] != b[j]
    {
      if b[i] == b[j] {
        TwiceIn(b, i, j);
        OnceIn(a, b[i]);
      }
    }
  }

  lemma TwiceIn(b: seq<Block>, i: nat, j: nat)
    requires i < j < |b| && b[i] == b[j]
    ensures multiset(b)[b[i]] >= 2
  {
    assert b == b[..j] + b[j..];
    assert b[i] in multiset(b[..j]) by {
      assert b[..j][i] == b[i];
    }
    assert b[j] in multiset(b[j..]) by {
      assert b[j..][0] == b[j];
    }
  }

  lemma {:induction false} OnceIn(a: seq<Block>, x: Block)
    requires DistinctBlocks(a)
    ensures multiset(a)[x] <= 1
    decreases |a|
  {
    if a != [] {
      var rest := a[..|a| - 1];
      assert a == rest + [a[|a| - 1]];
      OnceIn(rest, x);
      if x == a[|a| - 1] {
        assert forall i :: 0 <= i < |rest| ==> rest[i] != x;
        assert x !in rest;
        assert x !in multiset(rest);
      }
    }
  }
}
