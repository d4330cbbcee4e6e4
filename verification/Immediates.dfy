/**
 ARMAssemblerInterface.cpp: data-processing immediates, an 8-bit value rotated
 right by an even amount (ARM Architecture Reference Manual, section A5.1.3).
 */
module Immediates {
  import opened Words

  const EINVAL: int := 22

  /** w & 3 */
  predicate Low2(w: word) {
    w[0] || w[1]
  }

  /** w & 0xFC000000 */
  predicate Top6(w: word) {
    exists i :: 26 <= i < 32 && w[i]
  }

  predicate IsEncoding(w: word, r: nat, m: word) {
    r < 16 && Below(m, 8) && w == Ror(m, 2 * r)
  }

  ghost predicate Encodable(w: word) {
    exists r: nat, m: word :: IsEncoding(w, r, m)
  }

  predicate WithinByte(w: word, r: nat) {
    forall i :: 0 <= i < 32 && w[i] ==> (i + 2 * r) % 32 < 8
  }

  lemma TurnedFrom(j: nat, t: nat) returns (i: nat)
    requires j < 32 && t <= 32
    ensures i == (j + (32 - t)) % 32 && (i + t) % 32 == j
  {
    i := if j + (32 - t) < 32 then j + (32 - t) else j - t;
  }

  lemma ByteTurned(w: word, t: nat, m: word)
    requires t < 32 && m == Ror(w, 32 - t) && forall i :: 0 <= i < 32 && w[i] ==> (i + t) % 32 < 8
    ensures Below(m, 8)
  {
    forall j | 8 <= j < 32
      ensures !m[j]
    {
      var i := TurnedFrom(j, t);
    }
  }

  lemma ByteEncoded(w: word, r: nat, t: nat, m: word)
    requires r < 16 && t == 2 * r && m == Ror(w, 32 - t) && WithinByte(w, r)
    ensures IsEncoding(w, r, m)
  {
    ByteTurned(w, t, m);
    TurnRound(w, 32 - t, t, m);
  }

  lemma EncodedByte(w: word, r: nat, m: word)
    requires IsEncoding(w, r, m)
    ensures WithinByte(w, r)
  {
  }

  /** The bits that are set lie within eight neighbouring places, the first of them even, going round. */
  lemma EncodableIff(w: word)
    ensures Encodable(w) <==> exists r: nat :: r < 16 && WithinByte(w, r)
  {
    if r: nat, m: word :| IsEncoding(w, r, m) {
      EncodedByte(w, r, m);
    }
    if r: nat :| r < 16 && WithinByte(w, r) {
      ByteEncoded(w, r, 2 * r, Ror(w, 32 - 2 * r));
    }
  }

  /** One turn of the encoding loop, (w >> 2) | ((w & 3) << 30). */
  function Turn(w: word): word {
    Or(Shr(w, 2), Shl(And(w, Ones(2)), 30))
  }

  lemma TurnIsRor(w: word)
    ensures Turn(w) == Ror(w, 2)
  {
    forall i | 0 <= i < 32
      ensures Turn(w)[i] == Ror(w, 2)[i]
    {
      assert (i + 2) % 32 == if i < 30 then i + 2 else i - 30;
    }
  }

  /** The loop's exit test: a bit in the lowest pair, none in the top six. */
  predicate Stops(w: word) {
    Low2(w) && !Top6(w)
  }

  /** The first even turn, from k on, that brings `val` to a stop; 0 after a full round. */
  function FirstStop(val: word, k: nat): (r: nat)
    requires k % 2 == 0
    ensures r < 32 && r % 2 == 0
    decreases |val| - k
  {
    if k >= |val| then 0 else if Stops(Ror(val, k)) then k else FirstStop(val, k + 2)
  }

  lemma {:induction false} FirstStopIs(val: word, k: nat, r: nat)
    requires k <= r <= 32 && k % 2 == 0 && r % 2 == 0 && NoStop(val, r)
    requires r == 32 || Stops(Ror(val, r))
    ensures FirstStop(val, k) == if r == 32 then 0 else r
    decreases r - k
  {
    if k < r {
      FirstStopIs(val, k + 2, r);
    }
  }

  ghost predicate NoStop(val: word, n: nat) {
    forall k :: 0 <= k < n && k % 2 == 0 ==> !Stops(Ror(val, k))
  }

  lemma NoStopNext(val: word, n: nat)
    requires NoStop(val, n) && n % 2 == 0 && !Stops(Ror(val, n))
    ensures NoStop(val, n + 2)
  {
    assert forall k :: 0 <= k < n + 2 && k % 2 == 0 ==> k < n || k == n;
  }

  /**
   The rotation loop of buildImmediate, which normalize in GGLAssembler.cpp
   repeats: turn right in steps of two to the first stop, or come back round.
   */
  method Normalize(val: word) returns (v: word, rot: nat)
    ensures rot < 32 && rot % 2 == 0 && v == Ror(val, rot)
    ensures Stops(v) || (rot == 0 && v == val)
    ensures NoStop(val, if Stops(v) then rot else 32)
    ensures rot == FirstStop(val, 0)
  {
    v, rot := val, 0;
    RorFull(val, 0);
    while !Stops(v)
      invariant rot % 2 == 0 && 0 <= rot < 32 && v == Ror(val, rot)
      invariant NoStop(val, rot)
      decreases 32 - rot
    {
      TurnIsRor(v);
      RorRor(val, rot, 2);
      NoStopNext(val, rot);
      v := Turn(v);
      rot := rot + 2;
      if rot == 32 {
        RorFull(val, 32);
        rot := 0;
        break;
      }
    }
    FirstStopIs(val, 0, if Stops(v) then rot else 32);
  }

  // Completeness of the search

  ghost predicate Window(x: word, m: word, a: nat) {
    a < 32 && forall i :: 0 <= i < 32 ==> x[i] == m[if i + a < 32 then i + a else i + a - 32]
  }

  lemma RorWindow(m: word, n: nat)
    ensures Window(Ror(m, n), m, n % 32)
  {
    forall i | 0 <= i < 32
      ensures Ror(m, n)[i] == m[if i + n % 32 < 32 then i + n % 32 else i + n % 32 - 32]
    {
      ModAdd(n, i);
    }
  }

  lemma WindowStop(x: word, m: word, a: nat)
    requires Window(x, m, a) && a % 2 == 0 && Below(m, 8) && Stops(x)
    ensures Below(x, 8)
  {
    assert x[0] == m[a] && x[1] == m[a + 1];
    assert a < 8;
    assert forall i :: 8 <= i < 26 ==> !x[i];
  }

  /** Where the loop stops on an encodable word, the value fits eight bits. */
  lemma StopIsSmall(w: word, r: nat, m: word, k: nat)
    requires IsEncoding(w, r, m) && k % 2 == 0 && Stops(Ror(w, k))
    ensures Below(Ror(w, k), 8)
  {
    RorRor(m, 2 * r, k);
    RorWindow(m, 2 * r + k);
    EvenMod(r + k / 2);
    assert 2 * (r + k / 2) == 2 * r + k;
    WindowStop(Ror(w, k), m, (2 * r + k) % 32);
  }

  lemma WindowStops(x: word, m: word, a: nat)
    requires Window(x, m, a) && a < 8 && a % 2 == 0 && Below(m, 8)
    requires (m[a] || m[a + 1]) && forall i :: 0 <= i < a ==> !m[i]
    ensures Stops(x)
  {
    assert x[0] == m[a] && x[1] == m[a + 1];
  }

  /** The lowest occupied pair of an eight-bit value. */
  lemma LowestPair(m: word) returns (a: nat)
    requires Below(m, 8) && m != Zero()
    ensures a < 8 && a % 2 == 0 && (m[a] || m[a + 1]) && forall i :: 0 <= i < a ==> !m[i]
  {
    a := if m[0] || m[1] then 0 else if m[2] || m[3] then 2 else if m[4] || m[5] then 4 else 6;
    assert m == Zero() || exists i :: 0 <= i < 8 && m[i];
  }

  lemma ZeroTurned(w: word, n: nat)
    requires w == Ror(Zero(), n)
    ensures w == Zero()
  {
  }

  lemma LowMod(s: nat, a: nat)
    requires a < 32 && (s == a || s == a + 32)
    ensures s % 32 == a
  {
  }

  lemma EvenLess(a: nat, r: nat)
    requires a % 2 == 0 && r < 16
    ensures a >= 2 * r ==> (a - 2 * r) % 2 == 0
    ensures (a + 32 - 2 * r) % 2 == 0
  {
  }

  /** The even turn that brings place a under what a turn by 2r has put at the bottom. */
  lemma TurnTo(a: nat, r: nat) returns (k: nat)
    requires a < 8 && a % 2 == 0 && r < 16
    ensures k < 32 && k % 2 == 0 && (k + 2 * r) % 32 == a
  {
    k := if a >= 2 * r then a - 2 * r else a + 32 - 2 * r;
    EvenLess(a, r);
    LowMod(k + 2 * r, a);
  }

  /** On a non-zero encodable word the loop does stop, within one full turn. */
  lemma StopExists(w: word, r: nat, m: word) returns (k: nat)
    requires IsEncoding(w, r, m) && w != Zero()
    ensures k < 32 && k % 2 == 0 && Stops(Ror(w, k))
  {
    if m == Zero() {
      ZeroTurned(w, 2 * r);
    }
    var a := LowestPair(m);
    k := TurnTo(a, r);
    RorRor(m, 2 * r, k);
    RorWindow(m, k + 2 * r);
    WindowStops(Ror(w, k), m, a);
  }

  lemma EvenMod(h: nat)
    ensures (2 * h) % 32 % 2 == 0
  {
    var q := 2 * h / 32;
    assert 2 * h % 32 == 2 * (h - 16 * q);
  }

  /** Turning back what was turned: the check against a "bogus" encoding always passes. */
  lemma TurnBack(w: word, t: nat)
    requires t < 32 && t % 2 == 0
    ensures var r := (16 - t / 2) % 16;
      Ror(Ror(w, t), 2 * r) == w == Or(Shr(Ror(w, t), 2 * r), Shl(Ror(w, t), 32 - 2 * r))
  {
    var r := (16 - t / 2) % 16;
    assert t + 2 * r == if t == 0 then 0 else 32;
    TurnRound(w, t, 2 * r, Ror(w, t));
  }

  lemma TurnRound(w: word, t: nat, u: nat, v: word)
    requires u <= 32 && (t + u == 0 || t + u == 32) && v == Ror(w, t)
    ensures Ror(v, u) == w == Or(Shr(v, u), Shl(v, 32 - u))
  {
    RorRor(w, t, u);
    RorFull(w, t + u);
    RorIsShifts(v, u);
  }

  lemma NotFound(w: word, rot: nat)
    requires rot < 32 && rot % 2 == 0 && w != Zero() && !Below(Ror(w, rot), 8)
    requires Stops(Ror(w, rot)) || NoStop(w, 32)
    ensures !Encodable(w)
  {
    if r: nat, m: word :| IsEncoding(w, r, m) {
      var k := StopExists(w, r, m);
      StopIsSmall(w, r, m, rot);
    }
  }

  /**
   buildImmediate: error 0 exactly for the words that have an encoding, and then
   the fields are one; -1 is never returned.  The fields mean nothing otherwise.
   */
  method BuildImmediate(immediate: word) returns (err: int, rot: nat, imm: word)
    ensures err == 0 || err == -22
    ensures err == 0 <==> Encodable(immediate)
    ensures err == 0 ==> IsEncoding(immediate, rot, imm)
  {
    rot, imm := 0, immediate;
    RorFull(immediate, 0);
    if !Below(imm, 7) {
      assert immediate != Zero();
      imm, rot := Normalize(imm);
      if !Below(imm, 8) {
        NotFound(immediate, rot);
      }
    }
    TurnBack(immediate, rot);
    rot := (16 - rot / 2) % 16;
    if !Below(imm, 8) {
      return -EINVAL, rot, imm;
    }
    assert IsEncoding(immediate, rot, imm);
    if Or(Shr(imm, 2 * rot), Shl(imm, 32 - 2 * rot)) != immediate {
      return -1, rot, imm;
    }
    return 0, rot, imm;
  }
}
