/** The single-precision format of IEEE 754-2008, section 3.4, and rounding to nearest with
    ties to even, section 4.3.1.  Values are counted in units of 2^-149, the smallest positive
    subnormal, so every finite value is an integer. */
module Binary32 {
  import opened Bits

  const SIGN_BIT := 0x8000_0000

  function Sign(w: Word32): nat { w / 0x8000_0000 }

  function Expo(w: Word32): nat { w / 0x80_0000 % 0x100 }

  function Frac(w: Word32): nat { w % 0x80_0000 }

  predicate Finite(w: Word32) { Expo(w) != 0xFF }

  predicate IsNaN(w: Word32) { Expo(w) == 0xFF && Frac(w) != 0 }

  /** The significand as an integer, with the hidden bit of normal numbers */
  function Significand(w: Word32): nat {
    if Expo(w) == 0 then Frac(w) else 0x80_0000 + Frac(w)
  }

  /** The spacing of the numbers in w's binade is 2^Shift(w). */
  function Shift(w: Word32): nat {
    if Expo(w) == 0 then 0 else Expo(w) - 1
  }

  function Magnitude(w: Word32): nat {
    Shl(Significand(w), Shift(w))
  }

  function Value(w: Word32): int {
    var m: int := Magnitude(w);
    if Sign(w) == 0 then m else -m
  }

  function Abs(x: int): nat { if x < 0 then -x else x }

  /** No finite number lies closer to num / den than w, and if another one lies as close, w is
      the one with the even significand. */
  ghost predicate RoundsTo(w: Word32, num: int, den: int) {
    && Finite(w)
    && forall g: Word32 :: Finite(g) ==>
         && Abs(den * Value(w) - num) <= Abs(den * Value(g) - num)
         && (Abs(den * Value(w) - num) == Abs(den * Value(g) - num) && Value(g) != Value(w) ==> Frac(w) % 2 == 0)
  }

  lemma Fields(w: Word32)
    ensures w == 0x8000_0000 * Sign(w) + 0x80_0000 * Expo(w) + Frac(w)
    ensures Sign(w) <= 1 && Expo(w) <= 0xFF && Frac(w) < 0x80_0000
  {
  }

  /** A word is determined by its three fields. */
  lemma FromFields(sign: nat, expo: nat, frac: nat)
    requires sign <= 1 && expo <= 0xFF && frac < 0x80_0000
    ensures var w := 0x8000_0000 * sign + 0x80_0000 * expo + frac;
            w < 0x1_0000_0000 && Sign(w) == sign && Expo(w) == expo && Frac(w) == frac
  {
  }

  /** The masks of the bit functions select the fields. */
  lemma FieldMasks(w: Word32)
    ensures And(w, 0x8000_0000) == 0x8000_0000 * Sign(w)
    ensures And(w, 0x7F80_0000) == 0x80_0000 * Expo(w)
    ensures And(w, 0x007F_FFFF) == Frac(w)
  {
    Pow2Values();
    MaskField(w, 31, 1);
    MaskField(w, 23, 8);
    MaskLow(w, 23);
    ShlIsTimes(1, 31);
    ShlIsTimes(0xFF, 23);
    Fields(w);
    assert w / 0x8000_0000 % 2 == w / 0x8000_0000;
  }

  /** Every finite magnitude is a multiple of 2^k, or lies below the binade with spacing 2^k. */
  lemma GridOrBelow(g: Word32, k: nat)
    requires Finite(g)
    ensures Shift(g) >= k ==> Magnitude(g) == Pow2(k) * Shl(Significand(g), Shift(g) - k)
    ensures Shift(g) < k ==> Magnitude(g) < 0x80_0000 * Pow2(k)
  {
    Fields(g);
    if Shift(g) >= k {
      ShlSplit(Significand(g), k, Shift(g) - k);
    } else {
      BelowBinade(Significand(g), Shift(g), k);
    }
  }

  lemma ShlSplit(n: nat, i: nat, j: nat)
    ensures Shl(n, i + j) == Pow2(i) * Shl(n, j)
  {
    ShlIsTimes(n, i + j);
    ShlIsTimes(n, j);
    Pow2Add(i, j);
    var a, b := Pow2(i), Pow2(j);
    assert n * (a * b) == a * (n * b);
  }

  lemma BelowBinade(n: nat, i: nat, k: nat)
    requires n < 0x100_0000 && i < k
    ensures Shl(n, i) < 0x80_0000 * Pow2(k)
  {
  }

  lemma MulStrict(m: int, n: int, q: int)
    requires m < n && q > 0
    ensures m * q < n * q
  {
  }

  // ---------------------------------------------------------------- rounding on a grid

  /** n is num / (den * u) rounded to an integer, ties to even. */
  ghost predicate RoundedQuotient(n: int, num: int, den: int, u: int)
    requires den > 0 && u > 0
  {
    && 2 * Abs(den * (n * u) - num) <= den * u
    && (2 * Abs(den * (n * u) - num) == den * u ==> n % 2 == 0)
  }

  /** Of all multiples of u, n * u is nearest. */
  lemma NearestMultiple(n: int, num: int, den: int, u: int, m: int)
    requires den > 0 && u > 0 && RoundedQuotient(n, num, den, u)
    ensures Abs(den * (n * u) - num) <= Abs(den * (m * u) - num)
    ensures Abs(den * (n * u) - num) == Abs(den * (m * u) - num) && m != n ==> n % 2 == 0
  {
    if m != n {
      LargeMultiple(den * u, m - n) by { assert den * u > 0; }
      assert den * (m * u) - den * (n * u) == (den * u) * (m - n);
    }
  }

  /** So is it among all values that are multiples of u or lie below the binade of u. */
  lemma NearestValue(n: int, num: int, den: int, u: int, v: int)
    requires den > 0 && u > 0 && RoundedQuotient(n, num, den, u)
    requires v % u == 0 || (v < 0x80_0000 * u && num >= den * (0x80_0000 * u))
    ensures Abs(den * (n * u) - num) <= Abs(den * v - num)
    ensures Abs(den * (n * u) - num) == Abs(den * v - num) && v != n * u ==> n % 2 == 0
  {
    if v % u == 0 {
      var m := v / u;
      assert v == m * u;
      NearestMultiple(n, num, den, u, m);
    } else {
      NearestMultiple(n, num, den, u, 0x80_0000);
      MulStrict(v, 0x80_0000 * u, den);
    }
  }

  function Flip(w: Word32): (r: Word32) {
    if w < 0x8000_0000 then w + 0x8000_0000 else w - 0x8000_0000
  }

  lemma FlipNegates(w: Word32)
    ensures Sign(Flip(w)) == 1 - Sign(w) && Expo(Flip(w)) == Expo(w) && Frac(Flip(w)) == Frac(w)
    ensures Value(Flip(w)) == -Value(w)
  {
    Fields(w);
    FromFields(1 - Sign(w), Expo(w), Frac(w));
  }

  /** Rounding is symmetric in the sign. */
  lemma RoundsNegated(w: Word32, num: int, den: int)
    requires RoundsTo(w, num, den)
    ensures RoundsTo(Flip(w), -num, den)
  {
    FlipNegates(w);
    NegateProduct(den, Value(w));
    forall g: Word32 | Finite(g)
      ensures Abs(den * Value(Flip(w)) + num) <= Abs(den * Value(g) + num)
      ensures Abs(den * Value(Flip(w)) + num) == Abs(den * Value(g) + num) && Value(g) != Value(Flip(w)) ==>
                Frac(Flip(w)) % 2 == 0
    {
      FlipNegates(g);
      NegateProduct(den, Value(g));
      assert Finite(Flip(g));
    }
  }

  lemma NegateProduct(a: int, b: int)
    ensures a * -b == -(a * b)
  {
  }

  /** A non-negative w whose value is a correctly rounded multiple of the spacing 2^k rounds to
      nearest, provided the exact value does not lie below the binade of 2^k. */
  lemma RoundsOnGrid(w: Word32, num: int, den: int, n: nat, k: nat)
    requires Finite(w) && Sign(w) == 0 && Magnitude(w) == n * Pow2(k)
    requires den > 0 && RoundedQuotient(n, num, den, Pow2(k))
    requires k > 0 ==> num >= den * (0x80_0000 * Pow2(k))
    requires n % 2 == 0 ==> Frac(w) % 2 == 0
    ensures RoundsTo(w, num, den)
  {
    var u := Pow2(k);
    forall g: Word32 | Finite(g)
      ensures Abs(den * Value(w) - num) <= Abs(den * Value(g) - num)
      ensures Abs(den * Value(w) - num) == Abs(den * Value(g) - num) && Value(g) != Value(w) ==> Frac(w) % 2 == 0
    {
      OnGridOrBelow(g, k);
      NearestValue(n, num, den, u, Value(g));
    }
  }

  lemma OnGridOrBelow(g: Word32, k: nat)
    requires Finite(g)
    ensures Value(g) % Pow2(k) == 0 || (k > 0 && Value(g) < 0x80_0000 * Pow2(k))
  {
    var u := Pow2(k);
    GridOrBelow(g, k);
    if Shift(g) >= k {
      var m: int := Shl(Significand(g), Shift(g) - k);
      var q := if Sign(g) == 0 then m else -m;
      NegateProduct(u, m);
      assert Value(g) == u * q + 0;
      DivModUnique(Value(g), u, q, 0);
    }
  }

  /** A value that is met exactly is rounded correctly. */
  lemma ExactRounds(w: Word32, num: int, den: int)
    requires Finite(w) && den > 0 && den * Value(w) == num
    ensures RoundsTo(w, num, den)
  {
    forall g: Word32 | Finite(g) && den * Value(g) == num ensures Value(g) == Value(w) {
      SameProduct(den, Value(g), Value(w));
    }
  }

  lemma SameProduct(den: int, a: int, b: int)
    requires den > 0 && den * a == den * b
    ensures a == b
  {
  }

  // ---------------------------------------------------------------- rounding is a function

  /** The last number of a binade lies below the first of the next. */
  lemma BinadeEnds(e: nat, m: nat)
    requires m < 0x80_0000
    ensures Shl(if e == 0 then m else 0x80_0000 + m, if e == 0 then 0 else e - 1) < Shl(0x80_0000, e)
  {
    if e > 0 {
      ShlIsTimes(0x80_0000, e - 1);
      ShlIsTimes(0x100_0000, e - 1);
      ShlMonotone(0x80_0000 + m, 0x100_0000, e - 1);
    }
  }

  /** The next word up, among non-negative finite ones, is the next larger number. */
  lemma NextIsLarger(w: Word32)
    requires w + 1 < 0x7F80_0000
    ensures Finite(w) && Finite(w + 1) && Value(w) < Value(w + 1)
  {
    hide Shl, Sign, Expo, Frac;
    Fields(w);
    var e, m := Expo(w), Frac(w);
    if m + 1 < 0x80_0000 {
      FromFields(0, e, m + 1);
      ShlMonotone(Significand(w), Significand(w + 1), Shift(w));
    } else {
      FromFields(0, e + 1, 0);
      BinadeEnds(e, m);
    }
  }

  lemma {:induction false} ShlMonotone(m: nat, n: nat, k: nat)
    requires m < n
    ensures Shl(m, k) < Shl(n, k)
  {
    if k > 0 {
      ShlMonotone(m, n, k - 1);
    }
  }

  lemma {:induction false} LargerWord(v: Word32, w: Word32)
    requires v <= w < 0x7F80_0000
    ensures v == w || Value(v) < Value(w)
    decreases w - v
  {
    if v < w {
      NextIsLarger(v);
      LargerWord(v + 1, w);
    }
  }

  lemma NonNegative(w: Word32)
    requires Finite(w) && Value(w) > 0
    ensures Sign(w) == 0 && w < 0x7F80_0000
  {
    Fields(w);
  }

  /** Between two non-negative numbers with even significands lies another number. */
  lemma OddBetween(v: Word32, w: Word32) returns (g: Word32)
    requires Finite(v) && Finite(w) && 0 <= Value(v) < Value(w)
    requires Frac(v) % 2 == 0 && Frac(w) % 2 == 0
    ensures Finite(g) && Value(v) < Value(g) < Value(w)
  {
    Fields(v);
    Fields(w);
    NonNegative(w);
    var v' := if Value(v) == 0 then 0 else v;
    if Value(v) > 0 { NonNegative(v); }
    if w <= v' { LargerWord(w, v'); }
    g := v' + 1;
    NextIsLarger(v');
    LargerWord(g, w);
  }

  lemma NumberBetween(v: Word32, w: Word32) returns (g: Word32)
    requires Finite(v) && Finite(w) && Value(v) < Value(w)
    requires Frac(v) % 2 == 0 && Frac(w) % 2 == 0
    ensures Finite(g) && Value(v) < Value(g) < Value(w)
  {
    if Value(v) >= 0 {
      g := OddBetween(v, w);
    } else if Value(w) <= 0 {
      FlipNegates(v);
      FlipNegates(w);
      g := OddBetween(Flip(w), Flip(v));
      FlipNegates(g);
      g := Flip(g);
    } else {
      g := 0;
    }
  }

  /** Rounding to nearest, ties to even, determines the value. */
  lemma RoundingIsUnique(v: Word32, w: Word32, num: int, den: int)
    requires den > 0 && RoundsTo(v, num, den) && RoundsTo(w, num, den)
    ensures Value(v) == Value(w)
  {
    if Value(v) < Value(w) {
      NotBoth(v, w, num, den);
    } else if Value(w) < Value(v) {
      NotBoth(w, v, num, den);
    }
  }

  /** What RoundsTo says against one other number */
  lemma Against(w: Word32, g: Word32, num: int, den: int)
    requires RoundsTo(w, num, den) && Finite(g)
    ensures Abs(den * Value(w) - num) <= Abs(den * Value(g) - num)
    ensures Abs(den * Value(w) - num) == Abs(den * Value(g) - num) && Value(g) != Value(w) ==> Frac(w) % 2 == 0
  {
  }

  lemma ScaleKeepsOrder(den: int, a: int, b: int)
    requires den > 0 && a < b
    ensures den * a < den * b
  {
  }

  lemma NotBoth(v: Word32, w: Word32, num: int, den: int)
    requires den > 0 && RoundsTo(v, num, den) && RoundsTo(w, num, den)
    ensures Value(v) >= Value(w)
  {
    hide RoundsTo, Value, Frac, Finite;
    if Value(v) < Value(w) {
      BothFinite(v, w, num, den);
      Against(v, w, num, den);
      Against(w, v, num, den);
      var g := NumberBetween(v, w);
      Against(v, g, num, den);
      ScaleKeepsOrder(den, Value(v), Value(g));
      ScaleKeepsOrder(den, Value(g), Value(w));
    }
  }

  lemma BothFinite(v: Word32, w: Word32, num: int, den: int)
    requires RoundsTo(v, num, den) && RoundsTo(w, num, den)
    ensures Finite(v) && Finite(w)
  {
  }
}
