/**
 32-bit machine words as their bits, least significant first.
 */
module Words {
  type word = w: seq<bool> | |w| == 32 witness seq(32, _ => false)

  function Zero(): word {
    seq(32, i requires 0 <= i < 32 => false)
  }

  function And(x: word, y: word): word {
    seq(32, i requires 0 <= i < 32 => x[i] && y[i])
  }

  function Or(x: word, y: word): word {
    seq(32, i requires 0 <= i < 32 => x[i] || y[i])
  }

  function Xor(x: word, y: word): word {
    seq(32, i requires 0 <= i < 32 => x[i] != y[i])
  }

  function Not(x: word): word {
    seq(32, i requires 0 <= i < 32 => !x[i])
  }

  /** The n lowest bits: (1 << n) - 1. */
  function Ones(n: nat): word {
    seq(32, i requires 0 <= i < 32 => i < n)
  }

  /** 1 << n. */
  function Bit(n: nat): word {
    seq(32, i requires 0 <= i < 32 => i == n)
  }

  /**
   Logical shifts.  Amounts of 32 and more give zero, and so do negative ones,
   which an ARM register shift reads as a byte of at least 128.
   */
  function Shl(x: word, n: int): word {
    seq(32, i requires 0 <= i < 32 => n >= 0 && i >= n && x[i - n])
  }

  function Shr(x: word, n: int): word {
    seq(32, i requires 0 <= i < 32 => n >= 0 && i + n < 32 && x[i + n])
  }

  /** Rotation right, as the barrel shifter does it. */
  function Ror(x: word, n: nat): word {
    seq(32, i requires 0 <= i < 32 => x[(i + n) % 32])
  }

  /** No bit at place n or above: the number is below 1 << n. */
  predicate Below(x: word, n: nat) {
    forall i :: n <= i < 32 ==> !x[i]
  }

  /** Every bit of a is a bit of b. */
  predicate Subset(a: word, b: word) {
    forall i :: 0 <= i < 32 && a[i] ==> b[i]
  }

  lemma ModAdd(x: nat, a: nat)
    ensures (x % 32 + a) % 32 == (x + a) % 32
  {
    var q, p := x / 32, (x % 32 + a) / 32;
    assert x + a == 32 * (q + p) + (x % 32 + a) % 32;
  }

  lemma RorRor(x: word, a: nat, b: nat)
    ensures Ror(Ror(x, a), b) == Ror(x, a + b)
  {
    forall i | 0 <= i < 32
      ensures Ror(Ror(x, a), b)[i] == Ror(x, a + b)[i]
    {
      ModAdd(i + b, a);
    }
  }

  lemma RorFull(x: word, n: nat)
    requires n % 32 == 0
    ensures Ror(x, n) == x
  {
    forall i | 0 <= i < 32
      ensures Ror(x, n)[i] == x[i]
    {
      assert (i + n) % 32 == i;
    }
  }

  /** (x >> n) | (x << (32 - n)). */
  lemma RorIsShifts(x: word, n: nat)
    requires n <= 32
    ensures Or(Shr(x, n), Shl(x, 32 - n)) == Ror(x, n)
  {
    forall i | 0 <= i < 32
      ensures Or(Shr(x, n), Shl(x, 32 - n))[i] == Ror(x, n)[i]
    {
      assert (i + n) % 32 == if i + n < 32 then i + n else i + n - 32;
    }
  }
}
