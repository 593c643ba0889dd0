/** The floating-point bit functions of ASSN1/bits.c and HW/HW1/20190084_HW1.c. */
module DataLab {
  import opened Bits
  import opened Binary32

  /** `float_twice` */
  function FloatTwice(uf: Word32): (r: Word32)
    ensures Expo(uf) == 0 ==> r == 0x8000_0000 * Sign(uf) + 2 * Frac(uf)
    ensures 1 <= Expo(uf) <= 0xFE ==> r == uf + 0x80_0000
    ensures Expo(uf) == 0xFF ==> r == uf
  {
    Fields(uf);
    FieldMasks(uf);
    DroppedSign(uf);
    Pow2Values();
    var exp := And(uf, 0x7F80_0000);
    if exp == 0x7F80_0000 then uf
    else if exp == 0 then
      OrDisjoint(And(uf, SIGN_BIT), Shl(uf, 1) % 0x1_0000_0000, 31);
      Or(And(uf, SIGN_BIT), Shl(uf, 1) % 0x1_0000_0000)
    else (uf + 0x80_0000) % 0x1_0000_0000
  }

  lemma DroppedSign(w: Word32)
    ensures Expo(w) == 0 ==> Shl(w, 1) % 0x1_0000_0000 == 2 * Frac(w)
    ensures (0x8000_0000 * Sign(w)) % 0x8000_0000 == 0
  {
  }

  /** `float_half` */
  function FloatHalf(f: Word32): (r: Word32)
    ensures Expo(f) == 0xFF ==> r == f
    ensures 2 <= Expo(f) <= 0xFE ==> r == f - 0x80_0000
    ensures Expo(f) <= 1 ==>
              var m := 0x80_0000 * Expo(f) + Frac(f);
              r == 0x8000_0000 * Sign(f) + m / 2 + (if m % 4 == 3 then 1 else 0)
  {
    Fields(f);
    FieldMasks(f);
    Pow2Values();
    var sign, expo, frac := And(f, SIGN_BIT), And(f, 0x7F80_0000), And(f, 0x007F_FFFF);
    if expo == 0x7F80_0000 then f
    else if expo > 0x80_0000 then f - 0x80_0000
    else
      HalfParts(f);
      var m := Shr(Or(expo, frac), 1) + (if And(f, 3) == 3 then 1 else 0);
      OrDisjoint(sign, m, 31);
      Or(sign, m)
  }

  lemma HalfParts(f: Word32)
    requires Expo(f) <= 1
    ensures var m := 0x80_0000 * Expo(f) + Frac(f);
            && Shr(Or(0x80_0000 * Expo(f), Frac(f)), 1) == m / 2 && m < 0x100_0000
            && And(f, 3) == m % 4
            && (0x8000_0000 * Sign(f)) % 0x8000_0000 == 0
  {
    Fields(f);
    Pow2Values();
    var m := 0x80_0000 * Expo(f) + Frac(f);
    OrDisjoint(0x80_0000 * Expo(f), Frac(f), 23);
    MaskLow(f, 2);
    DivModUnique(f, 4, 0x2000_0000 * Sign(f) + m / 4, m % 4);
  }

  // ---------------------------------------------------------------- doubling

  /** Below the top binade doubling is exact; in the top binade it yields infinity, as IEEE
      overflow does, only for a zero fraction. */
  lemma TwiceDoubles(f: Word32)
    requires Finite(f)
    ensures Sign(FloatTwice(f)) == Sign(f)
    ensures Expo(f) <= 0xFD ==> Finite(FloatTwice(f)) && Value(FloatTwice(f)) == 2 * Value(f)
    ensures Expo(f) == 0xFE ==> Expo(FloatTwice(f)) == 0xFF && Frac(FloatTwice(f)) == Frac(f)
  {
    Fields(f);
    var e, m := Expo(f), Frac(f);
    if e == 0 {
      if 2 * m < 0x80_0000 {
        FromFields(Sign(f), 0, 2 * m);
      } else {
        FromFields(Sign(f), 1, 2 * m - 0x80_0000);
      }
      assert Shl(2 * m, 0) == 2 * Shl(m, 0);
    } else {
      FromFields(Sign(f), e + 1, m);
      assert Shl(0x80_0000 + m, e) == 2 * Shl(0x80_0000 + m, e - 1);
    }
  }

  /** Twice f is the correctly rounded (here: exact or overflowed) double of f exactly when f
      is a NaN or an infinity, below the top binade, or a power of two in it. */
  lemma TwiceIsIeeeIff(f: Word32)
    ensures var r := FloatTwice(f);
            (if !Finite(f) then r == f
             else if Expo(f) == 0xFE then Expo(r) == 0xFF && Frac(r) == 0 && Sign(r) == Sign(f)
             else RoundsTo(r, 2 * Value(f), 1) && Sign(r) == Sign(f))
            <==> !(Expo(f) == 0xFE && Frac(f) != 0)
  {
    if Finite(f) {
      TwiceDoubles(f);
      if Expo(f) <= 0xFD { ExactRounds(FloatTwice(f), 2 * Value(f), 1); }
    }
  }

  // ---------------------------------------------------------------- halving

  /** Halving rounds to nearest, ties to even, and keeps the sign; infinities stay. */
  lemma HalfRounds(f: Word32)
    requires !IsNaN(f)
    ensures Sign(FloatHalf(f)) == Sign(f)
    ensures Finite(f) ==> RoundsTo(FloatHalf(f), Value(f), 2)
    ensures !Finite(f) ==> FloatHalf(f) == f
  {
    Fields(f);
    var e, m := Expo(f), Frac(f);
    if 2 <= e <= 0xFE {
      FromFields(Sign(f), e - 1, m);
      assert Shl(0x80_0000 + m, e - 1) == 2 * Shl(0x80_0000 + m, e - 2);
      ExactRounds(FloatHalf(f), Value(f), 2);
    } else if e <= 1 {
      HalfSmall(f);
    }
  }

  lemma SmallMagnitude(w: Word32)
    requires Expo(w) <= 1
    ensures Magnitude(w) == 0x80_0000 * Expo(w) + Frac(w)
  {
  }

  function HalfEven(m: nat): nat {
    m / 2 + (if m % 4 == 3 then 1 else 0)
  }

  /** Adding one when the low bits are 11 is rounding m / 2 to the nearest, ties to even. */
  lemma HalfEvenRounds(m: nat)
    ensures RoundedQuotient(HalfEven(m), m, 2, 1)
  {
  }

  lemma SmallWord(sign: nat, n: nat)
    requires sign <= 1 && n <= 0x80_0000
    ensures var w := 0x8000_0000 * sign + n;
            && w < 0x1_0000_0000 && Sign(w) == sign && Expo(w) <= 1 && Magnitude(w) == n
            && Frac(w) % 2 == n % 2
  {
  }

  lemma HalfSmall(f: Word32)
    requires Expo(f) <= 1
    ensures Sign(FloatHalf(f)) == Sign(f) && RoundsTo(FloatHalf(f), Value(f), 2)
  {
    hide RoundedQuotient, RoundsTo, And, Or, Shr;
    Fields(f);
    var m := 0x80_0000 * Expo(f) + Frac(f);
    var n := HalfEven(m);
    SmallWord(0, n);
    SmallWord(Sign(f), n);
    SmallMagnitude(f);
    HalfEvenRounds(m);
    RoundsOnGrid(n, m, 2, n, 0);
    if Sign(f) == 1 {
      RoundsNegated(n, m, 2);
    }
  }

  lemma TopBinadeBroken(f: Word32)
    requires Expo(f) == 0xFE
    ensures FloatHalf(FloatTwice(f)) != f
  {
    Fields(f);
    FromFields(Sign(f), 0xFF, Frac(f));
  }

  lemma NormalRestored(f: Word32)
    requires 1 <= Expo(f) <= 0xFD
    ensures FloatHalf(FloatTwice(f)) == f
  {
    Fields(f);
    FromFields(Sign(f), Expo(f) + 1, Frac(f));
  }

  lemma SubnormalRestored(f: Word32)
    requires Expo(f) == 0
    ensures FloatHalf(FloatTwice(f)) == f
  {
    Fields(f);
    var m := 2 * Frac(f);
    var e := if m < 0x80_0000 then 0 else 1;
    FromFields(Sign(f), e, m - 0x80_0000 * e);
    assert m % 4 != 3;
  }

  /** Halving undoes doubling exactly outside the top binade. */
  lemma HalfUndoesTwiceIff(f: Word32)
    ensures FloatHalf(FloatTwice(f)) == f <==> Expo(f) != 0xFE
  {
    Fields(f);
    if Expo(f) == 0 {
      SubnormalRestored(f);
    } else if Expo(f) <= 0xFD {
      NormalRestored(f);
    } else if Expo(f) == 0xFE {
      TopBinadeBroken(f);
    }
  }

  // ---------------------------------------------------------------- int to float

  /** The exact value x in units of 2^-149 */
  function Scaled(x: int): int { x * Pow2(149) }

  /** The 31 mantissa bits below the leading one of a, left-aligned */
  function Aligned(a: nat, exp: nat): nat
    requires exp <= 31
  {
    And(Shl(a, 31 - exp) % 0x1_0000_0000, 0x7FFF_FFFF)
  }

  lemma AlignedIs(a: nat, exp: nat)
    requires exp <= 30 && Pow2(exp) <= a < 2 * Pow2(exp)
    ensures a * Pow2(31 - exp) == 0x8000_0000 + Aligned(a, exp)
    ensures Aligned(a, exp) < 0x8000_0000
  {
    hide And, Shl;
    var s := Pow2(31 - exp);
    var y := a * s;
    Pow2Add(exp, 31 - exp);
    ShlIsTimes(a, 31 - exp);
    ScaleBounds(Pow2(exp), a, s);
    LowMask(y);
  }

  lemma LowMask(y: nat)
    requires Pow2(31) <= y < 2 * Pow2(31)
    ensures y == 0x8000_0000 + And(y % 0x1_0000_0000, 0x7FFF_FFFF)
    ensures And(y % 0x1_0000_0000, 0x7FFF_FFFF) < 0x8000_0000
  {
    hide And;
    Pow2Values();
    MaskLow(y, 31);
    assert y % 0x1_0000_0000 == y;
    DivModUnique(y, 0x8000_0000, 1, y - 0x8000_0000);
  }

  lemma ScaleBounds(p: nat, a: nat, s: nat)
    requires p <= a < 2 * p && s > 0
    ensures p * s <= a * s < 2 * (p * s)
  {
  }

  /** The rounding decision of `float_i2f` */
  predicate RoundsUp(exp: nat, round: nat, mantissa: nat) {
    exp > 23 && (round > 0x80 || (round == 0x80 && mantissa % 2 == 1))
  }

  /** With at most 24 significant bits nothing is cut off. */
  lemma NothingCutOff(a: nat, exp: nat)
    requires exp <= 23 && Pow2(exp) <= a < 2 * Pow2(exp)
    ensures Aligned(a, exp) % 0x100 == 0
  {
    AlignedIs(a, exp);
    var t := a * Pow2(23 - exp);
    EightMore(23 - exp);
    Regroup(a, Pow2(31 - exp), 1, Pow2(23 - exp));
    DivModUnique(Aligned(a, exp), 0x100, t - 0x80_0000, 0);
  }

  lemma EightMore(k: nat)
    ensures Pow2(8 + k) == 0x100 * Pow2(k)
  {
    Pow2Add(8, k);
    Pow2Values();
  }

  lemma Regroup(a: int, s: int, u: int, k: int)
    requires s * u == 0x100 * k
    ensures u * (a * s) == 0x100 * (a * k)
  {
  }

  /** 2^(exp+126), the spacing of the result, divides up the scaled value as the mantissa
      bits say. */
  lemma ScaledSplit(a: nat, exp: nat)
    requires exp <= 30 && Pow2(exp) <= a < 2 * Pow2(exp)
    ensures 0x100 * Scaled(a) == Pow2(exp + 126) * (0x8000_0000 + Aligned(a, exp))
  {
    AlignedIs(a, exp);
    Pow2Add(31 - exp, exp + 126);
    EightMore(149);
    Regroup(a, Pow2(31 - exp), Pow2(exp + 126), Pow2(149));
  }

  /** n mantissa units, rounded by the low byte, are within half a unit of the exact value. */
  lemma RoundedMantissa(a: nat, exp: nat)
    requires exp <= 30 && Pow2(exp) <= a < 2 * Pow2(exp)
    ensures var m := Aligned(a, exp);
            var n := 0x80_0000 + m / 0x100 + (if RoundsUp(exp, m % 0x100, m / 0x100) then 1 else 0);
            && RoundedQuotient(n, Scaled(a), 1, Pow2(exp + 126))
            && Scaled(a) >= 0x80_0000 * Pow2(exp + 126)
            && (m % 0x100 == 0 ==> Scaled(a) == n * Pow2(exp + 126))
  {
    ScaledSplit(a, exp);
    var m := Aligned(a, exp);
    var q, r, u := m / 0x100, m % 0x100, Pow2(exp + 126);
    var c := if RoundsUp(exp, r, q) then 1 else 0;
    if exp <= 23 { NothingCutOff(a, exp); }
    SplitProduct(u, q, r, c, Scaled(a));
  }

  lemma SplitProduct(u: nat, q: nat, r: nat, c: nat, t: int)
    requires u > 0 && r < 0x100 && c <= 1
    requires 0x100 * t == u * (0x8000_0000 + 0x100 * q + r)
    requires if c == 1 then r > 0x80 || (r == 0x80 && q % 2 == 1) else r < 0x80 || (r == 0x80 && q % 2 == 0)
    ensures RoundedQuotient(0x80_0000 + q + c, t, 1, u)
    ensures t >= 0x80_0000 * u
    ensures r == 0 ==> t == (0x80_0000 + q + c) * u
  {
    var n := 0x80_0000 + q + c;
    var d := r - 0x100 * c;
    assert 0x8000_0000 + 0x100 * q + r == 0x100 * n + d;
    Distribute(u, n, d);
    Distribute(u, 0x80_0000, 0x100 * q + r);
    if d >= 0 { MulMono(u, d, 0x80); } else { MulMono(u, -d, 0x80); }
    WithinHalf(t, n, u, d);
  }

  lemma Distribute(u: int, n: int, d: int)
    ensures u * (0x100 * n + d) == 0x100 * (n * u) + u * d
    ensures u > 0 && d >= 0 ==> u * d >= 0
  {
  }

  lemma WithinHalf(t: int, n: int, u: int, d: int)
    requires u > 0 && 0x100 * t == 0x100 * (n * u) + u * d
    requires -0x80 * u <= u * d <= 0x80 * u
    requires u * d == 0x80 * u || u * d == -0x80 * u ==> n % 2 == 0
    ensures RoundedQuotient(n, t, 1, u)
    ensures d == 0 ==> t == n * u
  {
  }

  lemma MulMono(u: int, d: int, b: int)
    requires u > 0 && 0 <= d <= b
    ensures 0 <= u * d <= u * b && u * -d == -(u * d)
    ensures u * d == u * b ==> d == b
  {
  }

  /** The word assembled from exponent and rounded mantissa; a mantissa that rounds up to 2^23
      carries into the exponent. */
  lemma Assembled(exp: nat, m: nat)
    requires exp <= 30 && m <= 0x80_0000
    ensures var w := 0x80_0000 * (exp + 127) + m;
            && w < 0x8000_0000 && Finite(w) && Sign(w) == 0
            && Magnitude(w) == (0x80_0000 + m) * Pow2(exp + 126)
            && Frac(w) % 2 == m % 2
  {
    var w := 0x80_0000 * (exp + 127) + m;
    if m < 0x80_0000 {
      FromFields(0, exp + 127, m);
      ShlIsTimes(0x80_0000 + m, exp + 126);
    } else {
      FromFields(0, exp + 128, 0);
      ShlIsTimes(0x80_0000, exp + 127);
      assert Pow2(exp + 127) == 2 * Pow2(exp + 126);
    }
  }

  /** The word for |x|, before the sign is added */
  function Unsigned(a: nat, exp: nat): int
    requires exp <= 30
  {
    var m := Aligned(a, exp);
    0x80_0000 * (exp + 127) + m / 0x100 + (if RoundsUp(exp, m % 0x100, m / 0x100) then 1 else 0)
  }

  lemma UnsignedRounds(a: nat, exp: nat)
    requires exp <= 30 && Pow2(exp) <= a < 2 * Pow2(exp)
    ensures var w := Unsigned(a, exp);
            && 0 <= w < 0x8000_0000 && Sign(w) == 0 && RoundsTo(w, Scaled(a), 1)
            && (a <= 0x100_0000 ==> Value(w) == Scaled(a))
  {
    AlignedIs(a, exp);
    RoundedMantissa(a, exp);
    var m := Aligned(a, exp);
    var up := if RoundsUp(exp, m % 0x100, m / 0x100) then 1 else 0;
    Assembled(exp, m / 0x100 + up);
    RoundsOnGrid(Unsigned(a, exp), Scaled(a), 1, 0x80_0000 + m / 0x100 + up, exp + 126);
    if a <= 0x100_0000 { SmallIsExact(a, exp); }
  }

  lemma SmallIsExact(a: nat, exp: nat)
    requires exp <= 30 && Pow2(exp) <= a < 2 * Pow2(exp) && a <= 0x100_0000
    ensures Aligned(a, exp) % 0x100 == 0
  {
    hide And, Shl;
    if exp <= 23 {
      NothingCutOff(a, exp);
    } else {
      AlignedIs(a, exp);
      LargestExact(a, exp);
    }
  }

  lemma LargestExact(a: nat, exp: nat)
    requires 24 <= exp <= 30 && Pow2(exp) <= a <= 0x100_0000
    ensures a * Pow2(31 - exp) == 0x8000_0000
  {
    Pow2Values();
    Pow2Monotone(24, exp);
    if exp > 24 { Pow2Monotone(25, exp); }
    Pow2Add(24, 7);
  }

  /** The exponent search of `float_i2f` ends at floor(log2 a). */
  method FindExponent(a: nat) returns (exp: nat)
    requires 0 < a < 0x8000_0000
    ensures exp <= 30 && Pow2(exp) <= a < 2 * Pow2(exp)
  {
    exp := 1;
    Pow2Values();
    ShrIsDiv(a, exp);
    while Shr(a, exp) != 0
      invariant 1 <= exp <= 31 && Pow2(exp - 1) <= a
      invariant Shr(a, exp) == a / Pow2(exp)
      decreases 31 - exp
    {
      QuotientPositive(a, exp);
      exp := exp + 1;
      ShrIsDiv(a, exp);
    }
    QuotientZero(a, exp);
    exp := exp - 1;
  }

  lemma QuotientPositive(a: nat, exp: nat)
    requires a / Pow2(exp) != 0 && a < 0x8000_0000
    ensures Pow2(exp) <= a && exp < 31
  {
    if a < Pow2(exp) {
      DivModUnique(a, Pow2(exp), 0, a);
    }
    if exp >= 31 {
      Pow2Monotone(31, exp);
      Pow2Values();
    }
  }

  lemma QuotientZero(a: nat, exp: nat)
    requires a / Pow2(exp) == 0
    ensures a < Pow2(exp)
  {
  }

  /** The mantissa bits of `float_i2f`, rounded */
  method FindMantissa(a: nat, exp: nat) returns (mantissa: nat)
    requires exp <= 30
    ensures 0x80_0000 * (exp + 127) + mantissa == Unsigned(a, exp)
  {
    hide Shl;
    mantissa := And(Shl(a, 31 - exp) % 0x1_0000_0000, 0x7FFF_FFFF);
    var round := And(mantissa, 0xFF);
    LowByte(mantissa);
    mantissa := Shr(mantissa, 8);
    MaskLow(mantissa, 1);
    if exp > 23 && (round > 0x80 || (round == 0x80 && And(mantissa, 1) != 0)) {
      mantissa := mantissa + 1;
    }
  }

  lemma LowByte(m: nat)
    ensures And(m, 0xFF) == m % 0x100 && Shr(m, 8) == m / 0x100
  {
    Pow2Values();
    MaskLow(m, 8);
    ShrIsDiv(m, 8);
  }

  /** `float_i2f`: the binary32 number nearest to x, ties to even. Shifts and sums of ints wrap in
      two's complement. */
  method FloatI2f(x: int) returns (r: Word32)
    requires -0x8000_0000 <= x < 0x8000_0000
    ensures RoundsTo(r, Scaled(x), 1)
    ensures Sign(r) == 1 <==> x < 0
    ensures Abs(x) <= 0x100_0000 ==> Value(r) == Scaled(x)
  {
    hide RoundsTo, Value, Scaled, Unsigned, Shl, Sign;
    var sign := if x < 0 then -0x8000_0000 else 0;
    if x == 0 {
      ZeroRounds();
      return 0;
    }
    if x == -0x8000_0000 {
      MinimumRounds();
      return 0xCF00_0000;
    }
    var a: nat := if sign != 0 then -x else x;
    var exp := FindExponent(a);
    var mantissa := FindMantissa(a, exp);
    ExponentField(exp);
    r := (sign + Shl(exp + 127, 23) + mantissa) % 0x1_0000_0000;
    SignedResult(a, exp, x, r);
  }

  lemma ExponentField(exp: nat)
    ensures Shl(exp + 127, 23) == 0x80_0000 * (exp + 127)
  {
    ShlIsTimes(exp + 127, 23);
    Pow2Values();
  }

  lemma ZeroRounds()
    ensures RoundsTo(0, Scaled(0), 1) && Sign(0) == 0 && Value(0) == Scaled(0)
  {
    ExactRounds(0, Scaled(0), 1);
  }

  /** Adding the sign of x in 32-bit arithmetic flips the sign bit. */
  lemma SignedResult(a: nat, exp: nat, x: int, r: int)
    requires exp <= 30 && Pow2(exp) <= a < 2 * Pow2(exp) && a > 0 && a == Abs(x)
    requires r == ((if x < 0 then -0x8000_0000 else 0) + Unsigned(a, exp)) % 0x1_0000_0000
    ensures 0 <= r < 0x1_0000_0000 && RoundsTo(r, Scaled(x), 1)
    ensures Sign(r) == 1 <==> x < 0
    ensures a <= 0x100_0000 ==> Value(r) == Scaled(x)
  {
    hide RoundsTo, Value, Scaled, Unsigned, Sign;
    UnsignedRounds(a, exp);
    var w: Word32 := Unsigned(a, exp);
    if x < 0 {
      assert r == Flip(w);
      FlipNegates(w);
      RoundsNegated(w, Scaled(a), 1);
      ScaledNegated(a, x);
    }
  }

  lemma ScaledNegated(a: int, x: int)
    requires x == -a
    ensures Scaled(x) == -Scaled(a)
  {
  }

  lemma NegativePower(w: Word32, k: nat)
    requires Sign(w) == 1 && Expo(w) == k + 1 && Frac(w) == 0
    ensures Value(w) == -(0x80_0000 * Pow2(k))
  {
    ShlIsTimes(0x80_0000, k);
  }

  lemma MinimumRounds()
    ensures RoundsTo(0xCF00_0000, Scaled(-0x8000_0000), 1)
    ensures Sign(0xCF00_0000) == 1
  {
    hide Pow2, Shl, RoundsTo, Value;
    FromFields(1, 158, 0);
    NegativePower(0xCF00_0000, 157);
    EightMore(149);
    MinimumScaled(Pow2(157), Pow2(149));
    ExactRounds(0xCF00_0000, Scaled(-0x8000_0000), 1);
  }

  lemma MinimumScaled(p: int, q: int)
    requires p == 0x100 * q
    ensures -(0x80_0000 * p) == -0x8000_0000 * q
  {
  }
}
