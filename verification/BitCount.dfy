/** `bitCount` of ASSN1/bits.c: a population count by adding neighbouring lanes in parallel. */
module BitCount {
  import opened Bits

  /** The number of ones in the binary representation */
  function Ones(x: nat): nat {
    if x == 0 then 0 else x % 2 + Ones(x / 2)
  }

  /** The k lowest bits of x */
  function Low(x: nat, k: nat): (r: nat)
    ensures r < Pow2(k)
  {
    if k == 0 then 0 else x % 2 + 2 * Low(x / 2, k - 1)
  }

  /** The sum of the n lowest lanes of w bits */
  function SumLanes(x: nat, w: nat, n: nat): nat
    decreases n
  {
    if n == 0 then 0 else Low(x, w) + SumLanes(Shr(x, w), w, n - 1)
  }

  /** Ones in the lower half of each of n lanes of 2w bits */
  function LaneMask(w: nat, n: nat): nat {
    if n == 0 then 0 else Pow2(w) - 1 + Shl(LaneMask(w, n - 1), 2 * w)
  }

  /** One stage: every lane of 2w bits receives the sum of its two halves. */
  function AddHalves(x: nat, w: nat, n: nat): nat {
    And(x, LaneMask(w, n)) + And(Shr(x, w), LaneMask(w, n))
  }

  // ---------------------------------------------------------------- words in two parts

  lemma {:induction false} JoinParts(lo: nat, hi: nat, k: nat)
    requires lo < Pow2(k)
    ensures Low(lo + Shl(hi, k), k) == lo && Shr(lo + Shl(hi, k), k) == hi
  {
    if k > 0 {
      JoinParts(lo / 2, hi, k - 1);
      assert (lo + Shl(hi, k)) / 2 == lo / 2 + Shl(hi, k - 1);
    }
  }

  lemma {:induction false} SplitParts(x: nat, k: nat)
    ensures x == Low(x, k) + Shl(Shr(x, k), k)
  {
    if k > 0 {
      SplitParts(x / 2, k - 1);
    }
  }

  lemma {:induction false} LowIsMask(x: nat, k: nat)
    ensures And(x, Pow2(k) - 1) == Low(x, k)
  {
    if k > 0 {
      LowIsMask(x / 2, k - 1);
      AndStep(x, Pow2(k) - 1);
      assert (Pow2(k) - 1) / 2 == Pow2(k - 1) - 1;
    } else {
      AndZero(x);
    }
  }

  lemma AndStep(x: nat, y: nat)
    ensures And(x, y) == 2 * And(x / 2, y / 2) + (if x % 2 == 1 && y % 2 == 1 then 1 else 0)
  {
  }

  /** Masks act on the two parts of a word separately. */
  lemma {:induction false} AndSplit(lo: nat, hi: nat, m: nat, n: nat, k: nat)
    requires lo < Pow2(k) && m < Pow2(k)
    ensures And(lo + Shl(hi, k), m + Shl(n, k)) == And(lo, m) + Shl(And(hi, n), k)
  {
    if k == 0 {
      AndZero(0);
    } else {
      AndSplit(lo / 2, hi, m / 2, n, k - 1);
      AndStep(lo + Shl(hi, k), m + Shl(n, k));
      AndStep(lo, m);
      assert (lo + Shl(hi, k)) / 2 == lo / 2 + Shl(hi, k - 1);
      assert (m + Shl(n, k)) / 2 == m / 2 + Shl(n, k - 1);
    }
  }

  lemma {:induction false} ShlAdd(x: nat, y: nat, k: nat)
    ensures Shl(x + y, k) == Shl(x, k) + Shl(y, k)
  {
    if k > 0 {
      ShlAdd(x, y, k - 1);
    }
  }

  lemma {:induction false} LowSplit(x: nat, i: nat, j: nat)
    ensures Low(x, i + j) == Low(x, i) + Shl(Low(Shr(x, i), j), i)
  {
    if i > 0 {
      LowSplit(x / 2, i - 1, j);
    }
  }

  // ---------------------------------------------------------------- one stage

  lemma MaskBits(w: nat)
    ensures Pow2(w) - 1 < Pow2(2 * w)
  {
    Pow2Monotone(w, 2 * w);
  }

  /** The lowest lane of a stage and the stage on the lanes above it */
  lemma StageSplit(x: nat, w: nat, n: nat)
    requires w > 0 && n > 0
    ensures var lane := Low(x, w) + Low(Shr(x, w), w);
            && AddHalves(x, w, n) == lane + Shl(AddHalves(Shr(x, 2 * w), w, n - 1), 2 * w)
            && lane < Pow2(2 * w)
  {
    var k, m, rest := 2 * w, Pow2(w) - 1, LaneMask(w, n - 1);
    MaskBits(w);
    PartAnd(x, w, k, rest);
    PartAnd(Shr(x, w), w, k, rest);
    ShrTwice(x, w, k);
    ShrTwice(x, k, w);
    ShlAdd(And(Shr(x, k), rest), And(Shr(Shr(x, k), w), rest), k);
    TwoHalvesFit(w);
  }

  lemma TwoHalvesFit(w: nat)
    requires w > 0
    ensures 2 * Pow2(w) <= Pow2(2 * w)
  {
  }

  lemma PartAnd(x: nat, w: nat, k: nat, rest: nat)
    requires k == 2 * w
    ensures And(x, Pow2(w) - 1 + Shl(rest, k)) == Low(x, w) + Shl(And(Shr(x, k), rest), k)
  {
    hide And, Shl, Low, Shr, Pow2;
    SplitParts(x, k);
    MaskBits(w);
    AndSplit(Low(x, k), Shr(x, k), Pow2(w) - 1, rest, k);
    LowIsMask(Low(x, k), w);
    LowSplit(x, w, w);
    JoinParts(Low(x, w), Low(Shr(x, w), w), w);
  }

  /** A stage keeps the sum: the wide lanes of its result add up to the narrow lanes before. */
  lemma {:induction false} StageKeepsSum(x: nat, w: nat, n: nat)
    requires w > 0
    ensures SumLanes(AddHalves(x, w, n), 2 * w, n) == SumLanes(x, w, 2 * n)
    decreases n
  {
    if n > 0 {
      var lane := Low(x, w) + Low(Shr(x, w), w);
      StageSplit(x, w, n);
      JoinParts(lane, AddHalves(Shr(x, 2 * w), w, n - 1), 2 * w);
      StageKeepsSum(Shr(x, 2 * w), w, n - 1);
      ShrTwice(x, w, w);
      assert SumLanes(x, w, 2 * n) == Low(x, w) + SumLanes(Shr(x, w), w, 2 * n - 1);
    }
  }

  /** The result of a stage has no bits beyond its lanes. */
  lemma {:induction false} StageFits(x: nat, w: nat, n: nat)
    requires w > 0
    ensures AddHalves(x, w, n) < Pow2(2 * w * n)
    decreases n
  {
    if n == 0 {
      AndZero(x);
      AndZero(Shr(x, w));
    } else {
      StageSplit(x, w, n);
      StageFits(Shr(x, 2 * w), w, n - 1);
      var hi := AddHalves(Shr(x, 2 * w), w, n - 1);
      JoinFits(Low(x, w) + Low(Shr(x, w), w), hi, 2 * w, 2 * w * (n - 1));
      assert 2 * w + 2 * w * (n - 1) == 2 * w * n;
    }
  }

  lemma {:induction false} JoinFits(lo: nat, hi: nat, k: nat, j: nat)
    requires lo < Pow2(k) && hi < Pow2(j)
    ensures lo + Shl(hi, k) < Pow2(k + j)
  {
    if k > 0 {
      JoinFits(lo / 2, hi, k - 1, j);
      assert Pow2(k + j) == 2 * Pow2(k - 1 + j);
    }
  }

  // ---------------------------------------------------------------- bitCount

  /** `x >> k` on an int fills in copies of the sign bit. */
  function Sar(x: Word32, k: nat): (r: nat)
    requires 1 <= k <= 31
  {
    Shr(x, k) + if x < 0x8000_0000 then 0 else Shl(Pow2(k) - 1, 32 - k)
  }

  /** A mask of fewer than j bits does not see what is added above bit j. */
  lemma MaskIgnoresHigh(y: nat, top: nat, m: nat, j: nat)
    requires y < Pow2(j) && m < Pow2(j)
    ensures And(y + Shl(top, j), m) == And(y, m)
  {
    AndSplit(y, top, m, 0, j);
    AndZero(top);
    ShlZero(j);
  }

  lemma {:induction false} ShlZero(j: nat)
    ensures Shl(0, j) == 0
  {
    if j > 0 {
      ShlZero(j - 1);
    }
  }

  lemma {:induction false} ShrFits(x: nat, k: nat, j: nat)
    requires x < Pow2(k + j)
    ensures Shr(x, k) < Pow2(j)
  {
    if k > 0 {
      assert Pow2(k + j) == 2 * Pow2(k - 1 + j);
      ShrFits(x / 2, k - 1, j);
    }
  }

  /** So the sign bits that `>>` fills in never reach the sum. */
  lemma SarUnderMask(x: Word32, k: nat, m: nat)
    requires 1 <= k <= 31 && m < Pow2(32 - k)
    ensures And(Sar(x, k), m) == And(Shr(x, k), m)
  {
    hide And, Shr, Shl, Pow2;
    Pow2Values();
    assert k + (32 - k) == 32;
    ShrFits(x, k, 32 - k);
    MaskIgnoresHigh(Shr(x, k), Pow2(k) - 1, m, 32 - k);
  }

  /** The sum over single bits is the number of ones. */
  lemma {:induction false} OnesAreLanes(x: nat, n: nat)
    requires x < Pow2(n)
    ensures SumLanes(x, 1, n) == Ones(x)
    decreases n
  {
    assert Low(x, 1) == x % 2;
    assert Shr(x, 1) == x / 2;
    if n > 0 {
      OnesAreLanes(x / 2, n - 1);
    }
  }

  // ---------------------------------------------------------------- the masks

  lemma XorStep(x: nat, y: nat)
    ensures Xor(x, y) == 2 * Xor(x / 2, y / 2) + (if x % 2 != y % 2 then 1 else 0)
  {
  }

  /** Exclusive or acts on the two parts of a word separately. */
  lemma {:induction false} XorSplit(lo: nat, hi: nat, m: nat, n: nat, k: nat)
    requires lo < Pow2(k) && m < Pow2(k)
    ensures Xor(lo + Shl(hi, k), m + Shl(n, k)) == Xor(lo, m) + Shl(Xor(hi, n), k)
  {
    hide Xor;
    if k == 0 {
      XorZero(0);
    } else {
      XorSplit(lo / 2, hi, m / 2, n, k - 1);
      XorStep(lo + Shl(hi, k), m + Shl(n, k));
      XorStep(lo, m);
      assert (lo + Shl(hi, k)) / 2 == lo / 2 + Shl(hi, k - 1);
      assert (m + Shl(n, k)) / 2 == m / 2 + Shl(n, k - 1);
    }
  }

  lemma {:induction false} XorSelf(x: nat)
    ensures Xor(x, x) == 0
  {
    if x > 0 {
      XorSelf(x / 2);
    }
  }

  lemma {:induction false} ShlTwice(x: nat, i: nat, j: nat)
    ensures Shl(Shl(x, j), i) == Shl(x, i + j)
  {
    if i > 0 {
      ShlTwice(x, i - 1, j);
    }
  }

  lemma XorZero(x: nat)
    ensures Xor(0, x) == x && Xor(x, 0) == x
  {
  }

  lemma RunSplit(w: nat)
    ensures Pow2(2 * w) - 1 == Pow2(w) - 1 + Shl(Pow2(w) - 1, w)
  {
    hide Shl, Pow2;
    ShlPow2(w, w);
    ShlOne(w);
    ShlAdd(Pow2(w) - 1, 1, w);
    assert w + w == 2 * w;
  }

  lemma {:induction false} ShlOne(j: nat)
    ensures Shl(1, j) == Pow2(j)
  {
    if j > 0 {
      ShlOne(j - 1);
    }
  }

  lemma {:induction false} ShlPow2(i: nat, j: nat)
    ensures Shl(Pow2(i), j) == Pow2(i + j)
  {
    if j > 0 {
      ShlPow2(i, j - 1);
    }
  }

  /** A run of 2w ones and the same run w places up differ in two runs of w ones. */
  lemma XorRuns(w: nat)
    ensures Xor(Shl(Pow2(2 * w) - 1, w), Pow2(2 * w) - 1) == Pow2(w) - 1 + Shl(Pow2(w) - 1, 2 * w)
  {
    hide Shl, Xor, Pow2;
    var run, long := Pow2(w) - 1, Pow2(2 * w) - 1;
    RunSplit(w);
    ShlZero(w);
    XorZero(run);
    XorSelf(run);
    XorSplit(0, long, run, run, w);
    XorSplit(run, run, run, 0, w);
    ShlTwice(run, w, w);
  }

  /** The lanes of a mask leave their upper halves clear, the topmost lane too. */
  lemma {:induction false} LaneMaskFits(w: nat, n: nat)
    requires n > 0
    ensures LaneMask(w, n) < Pow2(2 * w * n - w)
    decreases n
  {
    if n == 1 {
      ShlZero(2 * w);
    } else {
      LaneMaskFits(w, n - 1);
      MaskBits(w);
      JoinFits(Pow2(w) - 1, LaneMask(w, n - 1), 2 * w, 2 * w * (n - 1) - w);
      assert 2 * w + (2 * w * (n - 1) - w) == 2 * w * n - w;
    }
  }

  lemma LaneMaskPair(w: nat, n: nat)
    requires n > 0
    ensures LaneMask(w, 2 * n)
         == Pow2(w) - 1 + Shl(Pow2(w) - 1, 2 * w) + Shl(LaneMask(w, 2 * n - 2), 4 * w)
  {
    var rest := LaneMask(w, 2 * n - 2);
    assert LaneMask(w, 2 * n - 1) == Pow2(w) - 1 + Shl(rest, 2 * w);
    ShlAdd(Pow2(w) - 1, Shl(rest, 2 * w), 2 * w);
    ShlTwice(rest, 2 * w, 2 * w);
  }

  /** From the mask of n lanes to the mask of twice as many, half as wide */
  lemma {:induction false} FinerMask(w: nat, n: nat)
    ensures Xor(Shl(LaneMask(2 * w, n), w), LaneMask(2 * w, n)) == LaneMask(w, 2 * n)
    decreases n
  {
    hide Shl, Xor, Pow2;
    if n == 0 {
      ShlZero(w);
      XorZero(0);
    } else {
      var rest, long := LaneMask(2 * w, n - 1), Pow2(2 * w) - 1;
      FinerMask(w, n - 1);
      ShlAdd(long, Shl(rest, 4 * w), w);
      ShlTwice(rest, w, 4 * w);
      ShlTwice(rest, 4 * w, w);
      Pow2Monotone(2 * w, 4 * w);
      JoinFits(0, long, w, 2 * w);
      assert Shl(long, w) < Pow2(3 * w);
      Pow2Monotone(3 * w, 4 * w);
      XorSplit(Shl(long, w), Shl(rest, w), long, rest, 4 * w);
      XorRuns(w);
      LaneMaskPair(w, n);
    }
  }

  /** What one stage of `bitCount` computes: its mask is small enough to hide the filled-in
      sign bits, and the result is again a word. */
  lemma StageOfWord(x: Word32, w: nat, n: nat)
    requires 1 <= w && 2 * w * n == 32
    ensures w <= 31 && And(x, LaneMask(w, n)) + And(Sar(x, w), LaneMask(w, n)) == AddHalves(x, w, n)
    ensures AddHalves(x, w, n) < 0x1_0000_0000
  {
    assert n > 0;
    assert 2 * w * n >= 2 * w by { assert 2 * w * n == 2 * w + 2 * w * (n - 1); }
    LaneMaskFits(w, n);
    SarUnderMask(x, w, LaneMask(w, n));
    StageFits(x, w, n);
    Pow2Values();
  }

  lemma LowWhole(x: nat, k: nat)
    requires x < Pow2(k)
    ensures Low(x, k) == x
  {
  }

  /** The number of ones, for every 32-bit word: the lanes keep their sum through all stages. The
      ints of the source are words in two's complement; the first sum of a word with both top bits
      set reaches the sign bit. */
  method BitCount(x0: Word32) returns (r: Word32)
    ensures r == Ones(x0)
  {
    hide And, Shl, Shr, Low, Pow2, LaneMask, Xor, Ones, AddHalves, Sar, SumLanes;
    var mask16 := Xor(Shl(0xFF, 8), 0xFF);
    var mask08 := Xor(Shl(mask16, 8), mask16);
    var mask04 := Xor(Shl(mask08, 4), mask08);
    var mask02 := Xor(Shl(mask04, 2), mask04);
    var mask01 := Xor(Shl(mask02, 1), mask02);
    Masks();
    Pow2Values();
    OnesAreLanes(x0, 32);
    var x := x0;
    StageOfWord(x, 1, 16);
    StageKeepsSum(x, 1, 16);
    x := And(x, mask01) + And(Sar(x, 1), mask01);
    StageOfWord(x, 2, 8);
    StageKeepsSum(x, 2, 8);
    x := And(x, mask02) + And(Sar(x, 2), mask02);
    StageOfWord(x, 4, 4);
    StageKeepsSum(x, 4, 4);
    x := And(x, mask04) + And(Sar(x, 4), mask04);
    StageOfWord(x, 8, 2);
    StageKeepsSum(x, 8, 2);
    x := And(x, mask08) + And(Sar(x, 8), mask08);
    StageOfWord(x, 16, 1);
    StageKeepsSum(x, 16, 1);
    r := And(x, mask16) + And(Sar(x, 16), mask16);
    OneLane(r);
  }

  lemma OneLane(x: Word32)
    ensures SumLanes(x, 32, 1) == x
  {
    Pow2Values();
    LowWhole(x, 32);
  }

  /** The masks built from the constant 0xff are the lane masks, and no shift overflows. */
  lemma Masks()
    ensures Shl(0xFF, 8) < 0x8000_0000 && Xor(Shl(0xFF, 8), 0xFF) == LaneMask(16, 1)
    ensures Shl(LaneMask(16, 1), 8) < 0x8000_0000
         && Xor(Shl(LaneMask(16, 1), 8), LaneMask(16, 1)) == LaneMask(8, 2)
    ensures Shl(LaneMask(8, 2), 4) < 0x8000_0000
         && Xor(Shl(LaneMask(8, 2), 4), LaneMask(8, 2)) == LaneMask(4, 4)
    ensures Shl(LaneMask(4, 4), 2) < 0x8000_0000
         && Xor(Shl(LaneMask(4, 4), 2), LaneMask(4, 4)) == LaneMask(2, 8)
    ensures Shl(LaneMask(2, 8), 1) < 0x8000_0000
         && Xor(Shl(LaneMask(2, 8), 1), LaneMask(2, 8)) == LaneMask(1, 16)
  {
    hide And, Shl, Shr, Low, Xor, Pow2, LaneMask;
    FirstMask();
    FinerMask(8, 1);
    FinerMask(4, 2);
    FinerMask(2, 4);
    FinerMask(1, 8);
    ShiftedMaskFits(8, 1);
    ShiftedMaskFits(4, 2);
    ShiftedMaskFits(2, 4);
    ShiftedMaskFits(1, 8);
  }

  lemma FirstMask()
    ensures Shl(0xFF, 8) < 0x8000_0000 && Xor(Shl(0xFF, 8), 0xFF) == LaneMask(16, 1)
  {
    Pow2Values();
    ShlIsTimes(0xFF, 8);
    ShlZero(32);
    XorSplit(0, 0xFF, 0xFF, 0, 8);
    ShlZero(8);
  }

  lemma ShiftedMaskFits(w: nat, n: nat)
    requires 1 <= w && 4 * w * n == 32
    ensures Shl(LaneMask(2 * w, n), w) < 0x8000_0000
  {
    assert n > 0;
    LaneMaskFits(2 * w, n);
    JoinFits(0, LaneMask(2 * w, n), w, 32 - 2 * w);
    Pow2Monotone(32 - w, 31);
    Pow2Values();
  }
}
