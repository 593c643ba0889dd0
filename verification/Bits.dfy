/** Bitwise operators of C on unsigned words, defined bit by bit on naturals, and the
    arithmetic meaning of the mask and flag idioms used throughout the repository. */
module Bits {

  type Word32 = w: int | 0 <= w < 0x1_0000_0000

  function Pow2(n: nat): (r: nat)
    ensures r > 0
  {
    if n == 0 then 1 else 2 * Pow2(n - 1)
  }

  /** `x & y` */
  function And(x: nat, y: nat): nat {
    if x == 0 || y == 0 then 0
    else 2 * And(x / 2, y / 2) + (if x % 2 == 1 && y % 2 == 1 then 1 else 0)
  }

  /** `x | y` */
  function Or(x: nat, y: nat): nat {
    if x == 0 then y
    else if y == 0 then x
    else 2 * Or(x / 2, y / 2) + (if x % 2 == 1 || y % 2 == 1 then 1 else 0)
  }

  /** `x ^ y` */
  function Xor(x: nat, y: nat): nat {
    if x == 0 then y
    else if y == 0 then x
    else 2 * Xor(x / 2, y / 2) + (if x % 2 != y % 2 then 1 else 0)
  }

  /** `x << j`, before truncation to the word size */
  function Shl(x: nat, j: nat): nat {
    if j == 0 then x else 2 * Shl(x, j - 1)
  }

  /** `x >> j` */
  function Shr(x: nat, j: nat): nat {
    if j == 0 then x else Shr(x / 2, j - 1)
  }

  lemma {:induction false} Pow2Add(m: nat, n: nat)
    ensures Pow2(m + n) == Pow2(m) * Pow2(n)
  {
    if m == 0 {
    } else {
      Pow2Add(m - 1, n);
    }
  }

  lemma Pow2Values()
    ensures Pow2(1) == 2 && Pow2(2) == 4 && Pow2(3) == 8 && Pow2(8) == 0x100
    ensures Pow2(16) == 0x1_0000 && Pow2(23) == 0x80_0000 && Pow2(24) == 0x100_0000
    ensures Pow2(29) == 0x2000_0000 && Pow2(30) == 0x4000_0000
    ensures Pow2(31) == 0x8000_0000 && Pow2(32) == 0x1_0000_0000
  {
  }

  lemma {:induction false} Pow2Monotone(m: nat, n: nat)
    requires m <= n
    ensures Pow2(m) <= Pow2(n)
  {
    if m < n {
      Pow2Monotone(m, n - 1);
    }
  }

  /** A nonzero multiple of d is at least d in size. */
  lemma LargeMultiple(d: int, k: int)
    requires d > 0
    ensures k >= 1 ==> d * k >= d
    ensures k <= -1 ==> d * k <= -d
  {
  }

  /** Euclid's division is determined by its defining equation. */
  lemma DivModUnique(x: int, d: int, q: int, r: int)
    requires d > 0 && x == d * q + r && 0 <= r < d
    ensures x / d == q && x % d == r
  {
    var q', r' := x / d, x % d;
    assert x == d * q' + r';
    assert d * (q' - q) == d * q' - d * q;
    LargeMultiple(d, q' - q);
  }

  /** Dividing by 2p is halving and then dividing by p; the remainders fit together. */
  lemma HalfDiv(x: nat, p: nat)
    requires p > 0
    ensures x / (2 * p) == (x / 2) / p
    ensures x % (2 * p) == 2 * ((x / 2) % p) + x % 2
  {
    var q, r := (x / 2) / p, (x / 2) % p;
    assert x / 2 == p * q + r;
    assert x == 2 * (p * q + r) + x % 2;
    assert (2 * p) * q == 2 * (p * q);
    DivModUnique(x, 2 * p, q, 2 * r + x % 2);
  }

  /** Masking with k ones keeps the remainder modulo 2^k. */
  lemma {:induction false} MaskLow(x: nat, k: nat)
    ensures And(x, Pow2(k) - 1) == x % Pow2(k)
  {
    if k == 0 {
    } else {
      HalfDiv(x, Pow2(k - 1));
      MaskLow(x / 2, k - 1);
      assert (Pow2(k) - 1) / 2 == Pow2(k - 1) - 1;
    }
  }

  lemma {:induction false} ShlIsTimes(x: nat, j: nat)
    ensures Shl(x, j) == x * Pow2(j)
  {
    if j == 0 {
    } else {
      ShlIsTimes(x, j - 1);
      assert x * (2 * Pow2(j - 1)) == 2 * (x * Pow2(j - 1));
    }
  }

  lemma {:induction false} ShrIsDiv(x: nat, j: nat)
    ensures Shr(x, j) == x / Pow2(j)
  {
    if j == 0 {
    } else {
      ShrIsDiv(x / 2, j - 1);
      HalfDiv(x, Pow2(j - 1));
    }
  }

  lemma {:induction false} ShrTwice(x: nat, i: nat, j: nat)
    ensures Shr(x, i + j) == Shr(Shr(x, i), j)
  {
    if i > 0 {
      ShrTwice(x / 2, i - 1, j);
    }
  }

  /** A mask shifted up by j selects from the word shifted down by j. */
  lemma {:induction false} AndShifted(x: nat, y: nat, j: nat)
    ensures And(x, Shl(y, j)) == Shl(And(Shr(x, j), y), j)
  {
    if j == 0 {
    } else {
      AndShifted(x / 2, y, j - 1);
      AndEven(x, Shl(y, j - 1));
    }
  }

  /** Masking with k ones shifted up by j keeps exactly that field in place. */
  lemma MaskField(x: nat, j: nat, k: nat)
    ensures And(x, Shl(Pow2(k) - 1, j)) == (x / Pow2(j)) % Pow2(k) * Pow2(j)
  {
    AndShifted(x, Pow2(k) - 1, j);
    ShrIsDiv(x, j);
    MaskLow(x / Pow2(j), k);
    ShlIsTimes(And(x / Pow2(j), Pow2(k) - 1), j);
  }

  lemma AndEven(x: nat, y: nat)
    ensures And(x, 2 * y) == 2 * And(x / 2, y)
  {
  }

  lemma AndZero(x: nat)
    ensures And(x, 0) == 0 && And(0, x) == 0
  {
  }

  /** Setting bits below k in a word whose low k bits are clear is an addition. */
  lemma {:induction false} OrDisjoint(x: nat, y: nat, k: nat)
    requires x % Pow2(k) == 0 && y < Pow2(k)
    ensures Or(x, y) == x + y
  {
    if x == 0 || y == 0 {
    } else {
      HalfDiv(x, Pow2(k - 1));
      OrDisjoint(x / 2, y / 2, k - 1);
    }
  }
}
