/**
 How build_and_immediate (GGLAssembler.cpp) splits a mask into eight-bit chunks
 that fit data-processing immediates.
 */
module MaskChunks {
  import opened Words
  import opened Immediates

  /** find_bottom: the lowest even place with a bit in its pair; 32 if there is none. */
  function BottomFrom(val: word, i: nat): (b: nat)
    requires i % 2 == 0 && i <= 32 && forall j :: 0 <= j < i ==> !val[j]
    ensures i <= b <= 32 && b % 2 == 0
    ensures forall j :: 0 <= j < b ==> !val[j]
    ensures b < 32 ==> val[b] || val[b + 1]
    decreases |val| - i
  {
    if i >= |val| then i
    else if val[i] || val[i + 1] then i
    else BottomFrom(val, i + 2)
  }

  function Bottom(val: word): (b: nat)
    ensures b <= 32 && b % 2 == 0
    ensures forall j :: 0 <= j < b ==> !val[j]
    ensures b < 32 ==> val[b] || val[b + 1]
    ensures b == 32 <==> val == Zero()
  {
    var b := BottomFrom(val, 0);
    assert b == 32 ==> val == Zero();
    assert b < 32 ==> val[b] != Zero()[b] || val[b + 1] != Zero()[b + 1];
    b
  }

  /** mask & (0xff << bitpos) */
  function Chunk(mask: word): word {
    And(mask, Shl(Ones(8), Bottom(mask)))
  }

  function Rest(mask: word): word {
    And(mask, Not(Chunk(mask)))
  }

  /** The chunk brought down, and turned left by rot + bitpos with two shifts. */
  function NewMask(mask: word, rot: nat): word {
    Or(Shl(Shr(Chunk(mask), Bottom(mask)), rot + Bottom(mask)),
       Shr(Shr(Chunk(mask), Bottom(mask)), 32 - (rot + Bottom(mask))))
  }

  lemma ChunkBits(mask: word, i: nat)
    requires i < 32
    ensures Chunk(mask)[i] == (mask[i] && Bottom(mask) <= i < Bottom(mask) + 8)
    ensures Rest(mask)[i] == (mask[i] && i >= Bottom(mask) + 8)
  {
  }

  lemma RestIsHigher(mask: word)
    requires mask != Zero()
    ensures Bottom(Rest(mask)) >= Bottom(mask) + 8 || Rest(mask) == Zero()
    ensures 32 - Bottom(Rest(mask)) < 32 - Bottom(mask)
  {
    var b, r := Bottom(mask), Bottom(Rest(mask));
    if r < 32 {
      ChunkBits(mask, r);
      ChunkBits(mask, r + 1);
    }
  }

  /** (x << n) | (x >> (32 - n)) for amounts up to 32. */
  function Rol(x: word, n: nat): word
    requires n <= 32
  {
    Ror(x, 32 - n)
  }

  lemma RolBit(x: word, n: nat, j: nat)
    requires n <= 32 && j < 32
    ensures Rol(x, n)[j] == x[if j >= n then j - n else j + 32 - n]
  {
    if n == 0 {
      RorFull(x, 32);
    } else {
      assert (j + (32 - n)) % 32 == if j >= n then j - n else j + 32 - n;
    }
  }

  lemma RolOr(x: word, y: word, n: nat)
    requires n <= 32
    ensures Rol(Or(x, y), n) == Or(Rol(x, n), Rol(y, n))
  {
    forall j | 0 <= j < 32
      ensures Rol(Or(x, y), n)[j] == Or(Rol(x, n), Rol(y, n))[j]
    {
      RolBit(x, n, j);
      RolBit(y, n, j);
      RolBit(Or(x, y), n, j);
    }
  }

  /** Up to 32 places the two shifts rotate the chunk. */
  lemma NewMaskRotates(mask: word, rot: nat)
    requires mask != Zero() && rot + Bottom(mask) <= 32
    ensures NewMask(mask, rot) == Rol(Chunk(mask), rot)
  {
    forall j | 0 <= j < 32
      ensures NewMask(mask, rot)[j] == Rol(Chunk(mask), rot)[j]
    {
      RolBit(Chunk(mask), rot, j);
      ChunkBits(mask, if j >= rot then j - rot else j + 32 - rot);
    }
  }

  /** Past 32 places both shifts lose everything. */
  lemma NewMaskLost(mask: word, rot: nat)
    requires rot + Bottom(mask) > 32
    ensures NewMask(mask, rot) == Zero()
  {
  }

  /** Every chunk can be encoded as an immediate, so the fatal path of imm is never taken. */
  lemma NewMaskEncodable(mask: word, rot: nat)
    requires mask != Zero() && rot < 32 && rot % 2 == 0
    ensures Encodable(NewMask(mask, rot))
  {
    var b := Bottom(mask);
    var m := Shr(Chunk(mask), b);
    var shift := rot + b;
    if shift > 32 {
      NewMaskLost(mask, rot);
      RorFull(Zero(), 0);
      assert IsEncoding(Zero(), 0, Zero());
    } else {
      assert Below(m, 8);
      RorIsShifts(m, 32 - shift);
      assert NewMask(mask, rot) == Or(Shr(m, 32 - shift), Shl(m, shift));
      TurnedEncodable(m, (32 - shift) / 2);
      assert 2 * ((32 - shift) / 2) == 32 - shift;
    }
  }

  lemma TurnedEncodable(m: word, h: nat)
    requires Below(m, 8) && h <= 16
    ensures Encodable(Ror(m, 2 * h))
  {
    if h == 16 {
      RorFull(m, 32);
      RorFull(m, 0);
      assert IsEncoding(m, 0, m);
    } else {
      assert IsEncoding(Ror(m, 2 * h), h, m);
    }
  }

  /** Chunks of a mask. */
  function ChunkCount(mask: word): nat
    decreases 32 - Bottom(mask)
  {
    if mask == Zero() then 0 else
      RestIsHigher(mask);
      1 + ChunkCount(Rest(mask))
  }

  lemma {:induction false} AtMostFour(mask: word)
    ensures 8 * ChunkCount(mask) <= 39 - Bottom(mask)
    decreases 32 - Bottom(mask)
  {
    if mask != Zero() {
      RestIsHigher(mask);
      AtMostFour(Rest(mask));
    }
  }

  /** The union of all the immediates the chunks give. */
  function Cleared(mask: word, rot: nat): word
    decreases 32 - Bottom(mask)
  {
    if mask == Zero() then Zero() else
      RestIsHigher(mask);
      Or(NewMask(mask, rot), Cleared(Rest(mask), rot))
  }

  /** Every chunk is turned by at most 32 places. */
  predicate Fits(mask: word, rot: nat)
    decreases 32 - Bottom(mask)
  {
    mask == Zero() ||
    (RestIsHigher(mask);
     rot + Bottom(mask) <= 32 && Fits(Rest(mask), rot))
  }

  lemma ChunkAndRest(mask: word)
    ensures Or(Chunk(mask), Rest(mask)) == mask
  {
  }

  lemma {:induction false} FittingChunksClearAll(mask: word, rot: nat)
    requires rot <= 32 && Fits(mask, rot)
    ensures Cleared(mask, rot) == Rol(mask, rot)
    decreases 32 - Bottom(mask)
  {
    if mask == Zero() {
      forall j | 0 <= j < 32
        ensures Rol(mask, rot)[j] == Zero()[j]
      {
        RolBit(mask, rot, j);
      }
    } else {
      RestIsHigher(mask);
      NewMaskRotates(mask, rot);
      FittingChunksClearAll(Rest(mask), rot);
      RolOr(Chunk(mask), Rest(mask), rot);
      ChunkAndRest(mask);
    }
  }

  /** Nothing is cleared that the mask does not ask for. */
  lemma {:induction false} ClearedWithin(mask: word, rot: nat, j: nat)
    requires rot <= 32 && j < 32 && Cleared(mask, rot)[j]
    ensures Rol(mask, rot)[j]
    decreases 32 - Bottom(mask)
  {
    assert mask != Zero();
    RestIsHigher(mask);
    var i := if j >= rot then j - rot else j + 32 - rot;
    RolBit(mask, rot, j);
    ChunkBits(mask, i);
    if NewMask(mask, rot)[j] {
      if rot + Bottom(mask) > 32 {
        NewMaskLost(mask, rot);
      } else {
        NewMaskRotates(mask, rot);
        RolBit(Chunk(mask), rot, j);
      }
    } else {
      ClearedWithin(Rest(mask), rot, j);
      RolBit(Rest(mask), rot, j);
    }
  }

  /** A chunk turned too far is lost: some bit of the mask is not cleared. */
  lemma {:induction false} LostBit(mask: word, rot: nat) returns (j: nat)
    requires rot <= 32 && !Fits(mask, rot)
    ensures j < 32 && Rol(mask, rot)[j] && !Cleared(mask, rot)[j]
    decreases 32 - Bottom(mask)
  {
    RestIsHigher(mask);
    var b := Bottom(mask);
    if rot + b > 32 {
      var i := if mask[b] then b else b + 1;
      j := i + rot - 32;
      NewMaskLost(mask, rot);
      RolBit(mask, rot, j);
      ChunkBits(mask, i);
      if Cleared(Rest(mask), rot)[j] {
        ClearedWithin(Rest(mask), rot, j);
        RolBit(Rest(mask), rot, j);
      }
    } else {
      j := LostBit(Rest(mask), rot);
      var i := if j >= rot then j - rot else j + 32 - rot;
      NewMaskRotates(mask, rot);
      RolBit(mask, rot, j);
      RolBit(Chunk(mask), rot, j);
      RolBit(Rest(mask), rot, j);
      ChunkBits(mask, i);
    }
  }

  // Masks that fit

  lemma {:induction false} LowMasksFit(mask: word, rot: nat, n: nat)
    requires Below(mask, n) && rot + n <= 33
    ensures Fits(mask, rot)
    decreases 32 - Bottom(mask)
  {
    if mask != Zero() {
      RestIsHigher(mask);
      LowMasksFit(Rest(mask), rot, n);
    }
  }

  /** The bit that a right turn by k brings to place i. */
  predicate Turned(val: word, k: nat, i: nat)
    requires k < 32 && i < 32
  {
    val[if i + k < 32 then i + k else i + k - 32]
  }

  /** Why a turned word does not stop the loop: its low pair is empty, or a bit is in its top six. */
  predicate Blocked(val: word, k: nat)
    requires k < 31
  {
    (!val[k] && !val[k + 1])
    || Turned(val, k, 26) || Turned(val, k, 27) || Turned(val, k, 28)
    || Turned(val, k, 29) || Turned(val, k, 30) || Turned(val, k, 31)
  }

  lemma BlockedIs(val: word, k: nat)
    requires k < 31
    ensures Stops(Ror(val, k)) <==> !Blocked(val, k)
  {
    RorWindow(val, k);
    assert k % 32 == k;
    var x := Ror(val, k);
    assert forall i :: 0 <= i < 32 ==> x[i] == Turned(val, k, i);
    assert Low2(x) <==> val[k] || val[k + 1];
    assert Top6(x) <==> x[26] || x[27] || x[28] || x[29] || x[30] || x[31];
  }

  lemma FirstUnblocked(val: word, r: nat)
    requires r < 31 && r % 2 == 0 && !Blocked(val, r)
    requires forall k :: 0 <= k < r && k % 2 == 0 ==> Blocked(val, k)
    ensures FirstStop(val, 0) == r && Stops(Ror(val, r))
  {
    forall k | 0 <= k <= r && k % 2 == 0
      ensures Stops(Ror(val, k)) <==> !Blocked(val, k)
    {
      BlockedIs(val, k);
    }
    FirstStopIs(val, 0, r);
  }

  /** A low word turned down to its first bit stays low. */
  lemma TurnedDown(val: word, r: nat, n: nat)
    requires r < n <= 32 && Below(val, n) && forall i :: 0 <= i < r ==> !val[i]
    ensures Below(Ror(val, r), n - r)
  {
    RorWindow(val, r);
    assert r % 32 == r;
  }

  /** Every mask of at most 26 bits fits. */
  lemma SmallMasksFit(val: word)
    requires Below(val, 26) && val != Zero()
    ensures var r := FirstStop(val, 0); Fits(Ror(val, r), r)
  {
    var r := Bottom(val);
    FirstUnblocked(val, r);
    TurnedDown(val, r, 26);
    LowMasksFit(Ror(val, r), r, 26 - r);
  }

  /** find_bottom, on the non-zero masks it is called with. */
  method FindBottom(val: word) returns (i: nat)
    requires val != Zero()
    ensures i == Bottom(val)
  {
    i := 0;
    while i < 32 && !(val[i] || val[i + 1])
      invariant i <= 32 && i % 2 == 0 && forall j :: 0 <= j < i ==> !val[j]
    {
      i := i + 2;
    }
    var b := Bottom(val);
    assert b < 32;
    assert i <= b;
  }
}
