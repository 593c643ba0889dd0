/** `rotate_left` of HW1. */
module Rotate {
  import opened Bits
  import opened BitCount

  /** C leaves a shift by the word size or more undefined. */
  type Amount = n: nat | n < 32

  /** Bit i of x */
  function BitAt(x: nat, i: nat): nat {
    Shr(x, i) % 2
  }

  function RotateLeft(x: Word32, n: Amount): (r: Word32)
    ensures r == Low(Shr(x, 32 - n), n) + Shl(Low(x, 32 - n), n)
  {
    RotateParts(x, n);
    Or(Shl(x, n) % 0x1_0000_0000, Shr(Shr(x, 32 - n - 1), 1))
  }

  // ---------------------------------------------------------------- words as two parts

  lemma LowIsMod(x: nat, k: nat)
    ensures Low(x, k) == x % Pow2(k)
  {
    LowIsMask(x, k);
    MaskLow(x, k);
  }

  lemma {:induction false} LowShifted(x: nat, n: nat, k: nat)
    ensures Low(Shl(x, n), n + k) == Shl(Low(x, k), n)
  {
    if n > 0 {
      LowShifted(x, n - 1, k);
      assert Shl(x, n) / 2 == Shl(x, n - 1);
      assert n + k - 1 == n - 1 + k;
    }
  }

  /** The two shifted copies do not overlap: the or of them puts the parts side by side. */
  lemma RotateParts(x: Word32, n: Amount)
    ensures Or(Shl(x, n) % 0x1_0000_0000, Shr(Shr(x, 32 - n - 1), 1))
         == Low(Shr(x, 32 - n), n) + Shl(Low(x, 32 - n), n) < 0x1_0000_0000
  {
    hide Or, Shl, Shr, Low, Pow2;
    var low, high := Low(x, 32 - n), Shr(x, 32 - n);
    Pow2Values();
    ShrTwice(x, 32 - n - 1, 1);
    LowIsMod(Shl(x, n), 32);
    LowShifted(x, n, 32 - n);
    ShrFits(x, 32 - n, n);
    LowWhole(high, n);
    JoinFits(high, low, n, 32 - n);
    ShlClearsLow(low, n);
    OrDisjoint(Shl(low, n), high, n);
  }

  lemma ShlClearsLow(x: nat, n: nat)
    ensures Shl(x, n) % Pow2(n) == 0
  {
    Pow2Positive(n);
    JoinParts(0, x, n);
    LowIsMod(Shl(x, n), n);
  }

  lemma Pow2Positive(n: nat)
    ensures 0 < Pow2(n)
  {
  }

  lemma {:induction false} BitOfJoin(lo: nat, hi: nat, k: nat, i: nat)
    requires lo < Pow2(k)
    ensures BitAt(lo + Shl(hi, k), i) == if i < k then BitAt(lo, i) else BitAt(hi, i - k)
  {
    if k > 0 {
      assert (lo + Shl(hi, k)) / 2 == lo / 2 + Shl(hi, k - 1);
      if i > 0 {
        BitOfJoin(lo / 2, hi, k - 1, i - 1);
      }
    }
  }

  lemma {:induction false} BitOfLow(x: nat, k: nat, i: nat)
    requires i < k
    ensures BitAt(Low(x, k), i) == BitAt(x, i)
  {
    assert Low(x, k) / 2 == Low(x / 2, k - 1);
    if i > 0 {
      BitOfLow(x / 2, k - 1, i - 1);
    }
  }

  // ---------------------------------------------------------------- what rotating means

  /** i + n places up, around the end of the word */
  function Around(i: Amount, n: Amount): Amount {
    if i + n < 32 then i + n else i + n - 32
  }

  /** Every bit moves up by n places, around the end of the word. */
  lemma RotateMovesBits(x: Word32, n: Amount, i: Amount)
    ensures BitAt(RotateLeft(x, n), Around(i, n)) == BitAt(x, i)
  {
    hide RotateLeft, Shl, Low, Pow2, Shr;
    var j := Around(i, n);
    var low, high := Low(x, 32 - n), Low(Shr(x, 32 - n), n);
    BitOfJoin(high, low, n, j);
    if i < 32 - n {
      BitOfLow(x, 32 - n, i);
    } else {
      BitOfLow(Shr(x, 32 - n), n, j);
      ShrTwice(x, 32 - n, j);
    }
  }

  lemma {:induction false} SameBits(x: nat, y: nat, k: nat)
    requires x < Pow2(k) && y < Pow2(k)
    requires forall i :: 0 <= i < k ==> BitAt(x, i) == BitAt(y, i)
    ensures x == y
  {
    if k > 0 {
      assert BitAt(x, 0) == x % 2 && BitAt(y, 0) == y % 2;
      forall i | 0 <= i < k - 1
        ensures BitAt(x / 2, i) == BitAt(y / 2, i)
      {
        assert BitAt(x, i + 1) == BitAt(y, i + 1);
      }
      SameBits(x / 2, y / 2, k - 1);
    }
  }

  /** Rotations compose, modulo the word size. */
  lemma RotationsCompose(x: Word32, m: Amount, n: Amount)
    ensures RotateLeft(RotateLeft(x, m), n) == RotateLeft(x, Around(m, n))
  {
    hide RotateLeft, BitAt, Pow2;
    Pow2Values();
    var twice, once := RotateLeft(RotateLeft(x, m), n), RotateLeft(x, Around(m, n));
    forall j: nat | j < 32
      ensures BitAt(twice, j) == BitAt(once, j)
    {
      var k := Around(m, n);
      var i: int := if j >= k then j - k else j + 32 - k;
      RotateMovesBits(x, m, i);
      RotateMovesBits(RotateLeft(x, m), n, Around(i, m));
      RotateMovesBits(x, k, i);
    }
    SameBits(twice, once, 32);
  }

  /** Rotating on by the remaining places gives the word back. */
  lemma RotateBack(x: Word32, n: Amount)
    requires n > 0
    ensures RotateLeft(x, 0) == x && RotateLeft(RotateLeft(x, n), 32 - n) == x
  {
    hide RotateLeft, BitAt, Pow2;
    Pow2Values();
    RotationsCompose(x, n, 32 - n);
    forall i | 0 <= i < 32
      ensures BitAt(RotateLeft(x, 0), i) == BitAt(x, i)
    {
      RotateMovesBits(x, 0, i);
    }
    SameBits(RotateLeft(x, 0), x, 32);
  }

  lemma {:induction false} OnesOfJoin(lo: nat, hi: nat, k: nat)
    requires lo < Pow2(k)
    ensures Ones(lo + Shl(hi, k)) == Ones(lo) + Ones(hi)
  {
    if k > 0 {
      assert (lo + Shl(hi, k)) / 2 == lo / 2 + Shl(hi, k - 1);
      OnesOfJoin(lo / 2, hi, k - 1);
    }
  }

  /** Rotating neither loses nor makes a one. */
  lemma RotateKeepsOnes(x: Word32, n: Amount)
    ensures Ones(RotateLeft(x, n)) == Ones(x)
  {
    hide RotateLeft, Shl, Shr, Low, Pow2, Ones;
    var low, high := Low(x, 32 - n), Shr(x, 32 - n);
    Pow2Values();
    ShrFits(x, 32 - n, n);
    LowWhole(high, n);
    OnesOfJoin(high, low, n);
    SplitParts(x, 32 - n);
    OnesOfJoin(low, high, 32 - n);
  }
}
