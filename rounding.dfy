/**
  Model of `DataPreprocessor.traditional_round`: rounding a scalar to a
  number of decimal places, exact halves going away from zero.

  Doubles are abstracted to exact reals tagged with NaN and the two
  infinities; the Python return value, which is an `int`, a `float` or a
  string sentinel depending on the input, becomes the tagged `Rounded`.
*/
module Rounding {

  /** A floating-point scalar: not-a-number, an infinity, or a finite value. */
  datatype Scalar = NaN | PosInf | NegInf | Finite(v: real)
  {
    /** Unary minus on a scalar (NaN stays NaN). */
    function Negated(): Scalar
    {
      match this
      case NaN => NaN
      case PosInf => NegInf
      case NegInf => PosInf
      case Finite(v) => Finite(-v)
    }
  }

  /** The three kinds of value `traditional_round` can return. */
  datatype Rounded = IntValue(i: int) | FloatValue(f: real) | Sentinel(text: string)
  {
    predicate IsNumber()
    {
      !Sentinel?
    }

    /** The numeric value of an `int` or `float` result. */
    function AsReal(): real
      requires IsNumber()
    {
      if IntValue? then i as real else f
    }

    /** Unary minus on a result, swapping the two infinity sentinels. */
    function Negated(): Rounded
    {
      match this
      case IntValue(i) => IntValue(-i)
      case FloatValue(f) => FloatValue(-f)
      case Sentinel(t) =>
        if t == PosInfText then Sentinel(NegInfText)
        else if t == NegInfText then Sentinel(PosInfText)
        else Sentinel(t)
    }
  }

  const PosInfText: string := "∞"
  const NegInfText: string := "-∞"

  function Abs(x: real): real
  {
    if x < 0.0 then -x else x
  }

  function Pow10(n: nat): (p: nat)
    ensures p >= 1
  {
    if n == 0 then 1 else 10 * Pow10(n - 1)
  }

  /** Python's `10 ** decimals`: an integer power, or for a negative exponent its reciprocal. */
  function Factor(decimals: int): (f: real)
    ensures f > 0.0
    ensures decimals == 0 ==> f == 1.0
  {
    if decimals >= 0 then Pow10(decimals) as real else 1.0 / (Pow10(-decimals) as real)
  }

  lemma TenthOfReciprocal(p: real)
    requires p > 0.0
    ensures 10.0 * (1.0 / (10.0 * p)) == 1.0 / p
  {
  }

  /** Each further decimal place multiplies the factor by ten, for negative
      `decimals` as well; with `Factor(0) == 1` this makes `Factor(d)` ten to
      the power d for every integer d. */
  lemma FactorStep(d: int)
    ensures Factor(d + 1) == 10.0 * Factor(d)
  {
    if d < 0 {
      assert Pow10(-d) == 10 * Pow10(-d - 1);
      TenthOfReciprocal(Pow10(-d - 1) as real);
    }
  }

  /** `np.floor`: the largest integer not above x. */
  function Floor(x: real): (r: int)
    ensures r as real <= x < r as real + 1.0
  {
    x.Floor
  }

  /** `np.ceil`: the least integer not below x. */
  function Ceil(x: real): (r: int)
    ensures r as real - 1.0 < x <= r as real
  {
    -((-x).Floor)
  }

  /** Python's `int(x)` on a float: truncation toward zero. */
  function TruncToInt(x: real): (r: int)
    ensures x >= 0.0 ==> r as real <= x < r as real + 1.0
    ensures x < 0.0 ==> r as real - 1.0 < x <= r as real
  {
    if x >= 0.0 then Floor(x) else Ceil(x)
  }

  /** `y` has no fractional part. */
  ghost predicate IsIntegral(y: real)
  {
    y.Floor as real == y
  }

  /** `y` is the integer nearest to `x`, a tie going to the one of larger magnitude. */
  ghost predicate RoundsTo(x: real, y: real)
  {
    IsIntegral(y) &&
    if x >= 0.0 then x - 0.5 < y <= x + 0.5 else x - 0.5 <= y < x + 0.5
  }

  /** The integer step of the source: `floor(x + 0.5)` for x >= 0, else `ceil(x - 0.5)`. */
  function RoundHalfAwayFromZero(x: real): (r: int)
    ensures RoundsTo(x, r as real)
  {
    if x >= 0.0 then Floor(x + 0.5) else Ceil(x - 0.5)
  }

  /** The model of `traditional_round(value, decimals)`. NaN and the
      infinities are answered before any arithmetic; a finite value is
      scaled by `10 ** decimals`, rounded half away from zero, scaled back,
      and made an `int` when `decimals` is 0. */
  function TraditionalRound(value: Scalar, decimals: int): (r: Rounded)
    ensures value.NaN? ==> r == IntValue(0)
    ensures value.PosInf? ==> r == Sentinel(PosInfText)
    ensures value.NegInf? ==> r == Sentinel(NegInfText)
    ensures value.Finite? ==> r.IsNumber() && (r.IntValue? <==> decimals == 0)
  {
    match value
    case NaN => IntValue(0)
    case PosInf => Sentinel(PosInfText)
    case NegInf => Sentinel(NegInfText)
    case Finite(v) => RoundScaled(v, Factor(decimals), decimals == 0)
  }

  /** Lines 21-32 with the factor `10 ** decimals` already computed: scale,
      round half away from zero, scale back, and convert with `int(...)`
      when `asInt` (that is, when `decimals == 0`). */
  function RoundScaled(v: real, factor: real, asInt: bool): (r: Rounded)
    requires factor > 0.0
    ensures r.IsNumber() && (r.IntValue? <==> asInt)
  {
    var result := RoundHalfAwayFromZero(v * factor) as real / factor;
    if asInt then IntValue(TruncToInt(result)) else FloatValue(result)
  }

  // ---------------------------------------------------------------------
  // Properties of the rounding rule
  // ---------------------------------------------------------------------

  /** At most one integer is the half-away-from-zero rounding of x. */
  lemma RoundsToUnique(x: real, y1: real, y2: real)
    requires RoundsTo(x, y1) && RoundsTo(x, y2)
    ensures y1 == y2
  {
    assert y1.Floor - y2.Floor < 1 && y2.Floor - y1.Floor < 1;
  }

  /** `RoundsTo` is odd: rounding -x gives minus the rounding of x. */
  lemma RoundsToNegated(x: real, y: real)
    requires RoundsTo(x, y)
    ensures RoundsTo(-x, -y)
  {
    assert (-y).Floor == -(y.Floor);
  }

  /** The integer step is odd-symmetric. */
  lemma RoundHalfAwayFromZeroOdd(x: real)
    ensures RoundHalfAwayFromZero(-x) == -RoundHalfAwayFromZero(x)
  {
    var k := RoundHalfAwayFromZero(x);
    RoundsToNegated(x, k as real);
    RoundsToUnique(-x, (-k) as real, RoundHalfAwayFromZero(-x) as real);
  }

  /** An integer is its own rounding. */
  lemma RoundHalfAwayFromZeroOfInteger(k: int)
    ensures RoundHalfAwayFromZero(k as real) == k
  {
    RoundsToUnique(k as real, k as real, RoundHalfAwayFromZero(k as real) as real);
  }

  /** The integer step never decreases as its argument grows. */
  lemma RoundHalfAwayFromZeroMonotone(x: real, y: real)
    requires x <= y
    ensures RoundHalfAwayFromZero(x) <= RoundHalfAwayFromZero(y)
  {
  }

  /** `int(...)` leaves an integral value unchanged. */
  lemma TruncToIntOfInteger(k: int)
    ensures TruncToInt(k as real) == k
  {
  }

  // The lemmas below about the scaled path take its result as a parameter
  // `r`, pinned by `r == RoundScaled(...)`. A caller passes the term it
  // reasons about (usually `TraditionalRound(Finite(v), decimals)`), so the
  // products in the conclusions match the caller's terms syntactically.

  /** The scaled path returns the rounded integer divided by the factor. */
  lemma RoundScaledValue(v: real, factor: real, asInt: bool, r: Rounded)
    requires factor > 0.0 && (asInt ==> factor == 1.0)
    requires r == RoundScaled(v, factor, asInt)
    ensures r.IsNumber() && r.IntValue? == asInt
    ensures r.AsReal() == RoundHalfAwayFromZero(v * factor) as real / factor
    ensures r.AsReal() * factor == RoundHalfAwayFromZero(v * factor) as real
  {
    var k := RoundHalfAwayFromZero(v * factor);
    var result := k as real / factor;
    if asInt {
      assert result == k as real;
      TruncToIntOfInteger(k);
      assert r == IntValue(k);
    } else {
      assert r == FloatValue(result);
    }
    QuotientTimesDivisor(r.AsReal(), k as real, factor);
  }

  lemma QuotientTimesDivisor(y: real, n: real, factor: real)
    requires factor > 0.0 && y == n / factor
    ensures y * factor == n
  {
  }

  /** Moves a rounding fact to a second name for the same real. */
  lemma RoundsToOfEqual(x: real, p: real, q: real)
    requires p == q && RoundsTo(x, p)
    ensures RoundsTo(x, q)
  {
  }

  /** The scaled path, multiplied back by the factor, is the rounding of
      the scaled input, and so lies within half a unit of the input. */
  lemma RoundScaledNearest(v: real, factor: real, asInt: bool, r: Rounded)
    requires factor > 0.0 && (asInt ==> factor == 1.0)
    requires r == RoundScaled(v, factor, asInt)
    ensures r.IsNumber() && RoundsTo(v * factor, r.AsReal() * factor)
    ensures Abs(r.AsReal() - v) <= 0.5 / factor
  {
    RoundScaledValue(v, factor, asInt, r);
    var k := RoundHalfAwayFromZero(v * factor);
    RoundsToOfEqual(v * factor, k as real, r.AsReal() * factor);
    NearBound(v, k as real, factor);
  }

  /** The result of the finite path, scaled by `10 ** decimals`, is the
      integer nearest to the scaled input, ties away from zero. At
      `decimals == 0` the factor is 1, so the `int` result is the rounding
      of the value itself. */
  lemma FiniteRoundsToNearest(v: real, decimals: int)
    ensures TraditionalRound(Finite(v), decimals).IsNumber()
    ensures RoundsTo(v * Factor(decimals), TraditionalRound(Finite(v), decimals).AsReal() * Factor(decimals))
  {
    RoundScaledNearest(v, Factor(decimals), decimals == 0, TraditionalRound(Finite(v), decimals));
  }

  lemma HalfUnitBound(d: real, factor: real)
    requires factor > 0.0 && -0.5 <= d * factor <= 0.5
    ensures Abs(d) <= 0.5 / factor
  {
    if d >= 0.0 {
      assert d == (d * factor) / factor;
    } else {
      assert -d == (-d * factor) / factor;
    }
  }

  /** An integer within 1/2 of the scaled input, scaled back, lies within half a unit of the input. */
  lemma NearBound(v: real, k: real, factor: real)
    requires factor > 0.0 && v * factor - 0.5 <= k <= v * factor + 0.5
    ensures Abs(k / factor - v) <= 0.5 / factor
  {
    assert (k / factor - v) * factor == k - v * factor;
    HalfUnitBound(k / factor - v, factor);
  }

  /** The value returned differs from the input by at most half a unit in the last requested place. */
  lemma RoundWithinHalfUnit(v: real, decimals: int)
    ensures TraditionalRound(Finite(v), decimals).IsNumber()
    ensures Abs(TraditionalRound(Finite(v), decimals).AsReal() - v) <= 0.5 / Factor(decimals)
  {
    RoundScaledNearest(v, Factor(decimals), decimals == 0, TraditionalRound(Finite(v), decimals));
  }

  lemma NegatedNumber(r: Rounded)
    requires r.IsNumber()
    ensures r.Negated().IsNumber() && r.Negated().IntValue? == r.IntValue?
    ensures r.Negated().AsReal() == -r.AsReal()
  {
  }

  lemma NegatedScale(v: real, k: real, factor: real)
    requires factor > 0.0
    ensures (-v) * factor == -(v * factor)
    ensures (-k) / factor == -(k / factor)
  {
  }

  lemma RoundScaledOdd(v: real, factor: real, asInt: bool, rn: Rounded, r: Rounded)
    requires factor > 0.0 && (asInt ==> factor == 1.0)
    requires rn == RoundScaled(-v, factor, asInt) && r == RoundScaled(v, factor, asInt)
    ensures rn == r.Negated()
  {
    var k := RoundHalfAwayFromZero(v * factor);
    NegatedScale(v, k as real, factor);
    RoundHalfAwayFromZeroOdd(v * factor);
    RoundScaledValue(v, factor, asInt, r);
    RoundScaledValue(-v, factor, asInt, rn);
    NegatedNumber(r);
    SameNumber(rn, r.Negated());
  }

  /** Rounding is odd-symmetric on every scalar: NaN stays 0, the two
      infinity sentinels swap, and a finite result changes sign. */
  lemma TraditionalRoundOdd(value: Scalar, decimals: int)
    ensures TraditionalRound(value.Negated(), decimals) == TraditionalRound(value, decimals).Negated()
  {
    if value.Finite? {
      RoundScaledOdd(value.v, Factor(decimals), decimals == 0,
                     TraditionalRound(value.Negated(), decimals), TraditionalRound(value, decimals));
    }
  }

  /** Rounding a point k / factor of the grid returns that point. */
  lemma RoundScaledOfGridPoint(k: int, factor: real, asInt: bool, y: real, r: Rounded)
    requires factor > 0.0 && (asInt ==> factor == 1.0)
    requires y == k as real / factor && r == RoundScaled(y, factor, asInt)
    ensures r.IsNumber() && r.IntValue? == asInt && r.AsReal() == y
  {
    QuotientTimesDivisor(y, k as real, factor);
    RoundHalfAwayFromZeroOfInteger(k);
    RoundScaledValue(y, factor, asInt, r);
  }

  lemma RoundScaledIdempotent(v: real, factor: real, asInt: bool, r: Rounded)
    requires factor > 0.0 && (asInt ==> factor == 1.0)
    requires r == RoundScaled(v, factor, asInt)
    ensures r.IsNumber() && RoundScaled(r.AsReal(), factor, asInt) == r
  {
    RoundScaledValue(v, factor, asInt, r);
    RoundScaledOfGridPoint(RoundHalfAwayFromZero(v * factor), factor, asInt, r.AsReal(),
                           RoundScaled(r.AsReal(), factor, asInt));
    SameNumber(RoundScaled(r.AsReal(), factor, asInt), r);
  }

  /** Two numeric results of the same kind and value are equal. */
  lemma SameNumber(a: Rounded, b: Rounded)
    requires a.IsNumber() && b.IsNumber() && a.IntValue? == b.IntValue? && a.AsReal() == b.AsReal()
    ensures a == b
  {
  }

  /** Rounding an already rounded value again changes nothing. */
  lemma TraditionalRoundIdempotent(v: real, decimals: int)
    ensures TraditionalRound(Finite(v), decimals).IsNumber()
    ensures TraditionalRound(Finite(TraditionalRound(Finite(v), decimals).AsReal()), decimals)
         == TraditionalRound(Finite(v), decimals)
  {
    RoundScaledIdempotent(v, Factor(decimals), decimals == 0, TraditionalRound(Finite(v), decimals));
  }

  lemma MultiplyMonotone(a: real, b: real, factor: real)
    requires a <= b && factor > 0.0
    ensures a * factor <= b * factor
  {
    assert b * factor - a * factor == (b - a) * factor;
  }

  lemma ScaledRoundMonotone(v: real, w: real, factor: real)
    requires v <= w && factor > 0.0
    ensures RoundHalfAwayFromZero(v * factor) <= RoundHalfAwayFromZero(w * factor)
  {
    assert v * factor <= w * factor by {
      MultiplyMonotone(v, w, factor);
    }
    RoundHalfAwayFromZeroMonotone(v * factor, w * factor);
  }

  lemma DivideMonotone(a: real, b: real, factor: real)
    requires a <= b && factor > 0.0
    ensures a / factor <= b / factor
  {
    assert b / factor - a / factor == (b - a) / factor;
  }

  lemma RoundScaledMonotone(v: real, w: real, factor: real, asInt: bool, rv: Rounded, rw: Rounded)
    requires v <= w
    requires factor > 0.0 && (asInt ==> factor == 1.0)
    requires rv == RoundScaled(v, factor, asInt) && rw == RoundScaled(w, factor, asInt)
    ensures rv.IsNumber() && rw.IsNumber() && rv.AsReal() <= rw.AsReal()
  {
    ScaledRoundMonotone(v, w, factor);
    RoundScaledValue(v, factor, asInt, rv);
    RoundScaledValue(w, factor, asInt, rw);
    DivideMonotone(RoundHalfAwayFromZero(v * factor) as real, RoundHalfAwayFromZero(w * factor) as real, factor);
  }

  /** Rounding is monotone on finite values. */
  lemma TraditionalRoundMonotone(v: real, w: real, decimals: int)
    requires v <= w
    ensures TraditionalRound(Finite(v), decimals).IsNumber() && TraditionalRound(Finite(w), decimals).IsNumber()
    ensures TraditionalRound(Finite(v), decimals).AsReal() <= TraditionalRound(Finite(w), decimals).AsReal()
  {
    RoundScaledMonotone(v, w, Factor(decimals), decimals == 0,
                        TraditionalRound(Finite(v), decimals), TraditionalRound(Finite(w), decimals));
  }

  /** Worked cases: halves go away from zero, NaN becomes 0, infinities become sentinels. */
  lemma TraditionalRoundExamples()
    ensures TraditionalRound(Finite(2.5), 0) == IntValue(3)
    ensures TraditionalRound(Finite(-2.5), 0) == IntValue(-3)
    ensures TraditionalRound(Finite(2.4), 0) == IntValue(2)
    ensures TraditionalRound(Finite(3.14159), 2) == FloatValue(3.14)
    ensures TraditionalRound(Finite(-0.125), 2) == FloatValue(-0.13)
    ensures TraditionalRound(Finite(1250.0), -2) == FloatValue(1300.0)
    ensures TraditionalRound(NaN, 3) == IntValue(0)
    ensures TraditionalRound(PosInf, 1) == Sentinel("∞")
    ensures TraditionalRound(NegInf, 0) == Sentinel("-∞")
  {
    assert Pow10(2) == 100;
  }
}
