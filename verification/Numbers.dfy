/**
 Numbers (FNode.swift, `LeafValue`): 64-bit integers and doubles are one type for ordering. The
 comparison looks at doubles first, which cannot tell large integers apart, and is exact all the same.

 Rounding an integer to a double is any function that section 4.3.1 of IEEE 754-2019 allows.
 */
module Numbers {
  import opened Options
  import opened Keys

  datatype Double = Finite(r: real) | Infinite(negative: bool) | NotANumber

  datatype Numeric = Whole(i: Int64) | Floating(d: Double)

  const INT64_MIN := -0x8000_0000_0000_0000
  const INT64_END := 0x8000_0000_0000_0000
  const MANTISSA := 0x20_0000_0000_0000

  /* ---------- the source's comparison ---------- */

  predicate DoubleLess(a: Double, b: Double) {
    match (a, b)
    case (Finite(x), Finite(y)) => x < y
    case (Finite(_), Infinite(negative)) => !negative
    case (Infinite(negative), Finite(_)) => negative
    case (Infinite(m), Infinite(n)) => m && !n
    case _ => false
  }

  predicate DoubleEqual(a: Double, b: Double) {
    a == b && a != NotANumber
  }

  function CompareDoubles(a: Double, b: Double): Comparison {
    if DoubleLess(a, b) then Ascending else if DoubleLess(b, a) then Descending else Same
  }

  function CompareWhole(a: int, b: int): Comparison {
    if a < b then Ascending else if b < a then Descending else Same
  }

  /** `Int64(exactly:)` */
  function Exactly(d: Double): Option<int> {
    if d.Finite? && d.r == d.r.Floor as real && INT64_MIN <= d.r.Floor < INT64_END then Some(d.r.Floor) else None
  }

  function ToDouble(i: Int64, round: real -> real): Double {
    Finite(round(i as int as real))
  }

  function CompareNumbers(l: Numeric, r: Numeric, round: real -> real): Comparison {
    match (l, r)
    case (Whole(i), Whole(j)) => CompareWhole(i as int, j as int)
    case (Whole(i), Floating(d)) => CompareWithDouble(i, d, round)
    case (Floating(d), Whole(i)) => Flip(CompareWithDouble(i, d, round))
    case (Floating(c), Floating(d)) => CompareDoubles(c, d)
  }

  function CompareWithDouble(i: Int64, d: Double, round: real -> real): Comparison {
    var result := CompareDoubles(ToDouble(i, round), d);
    if result != Same then result
    else
      match Exactly(d)
      case Some(j) => CompareWhole(i as int, j)
      case None => Ascending
  }

  /** `==` on numbers */
  predicate Equal(l: Numeric, r: Numeric) {
    match (l, r)
    case (Whole(i), Whole(j)) => i == j
    case (Whole(i), Floating(d)) => Exactly(d) == Some(i as int)
    case (Floating(d), Whole(i)) => Exactly(d) == Some(i as int)
    case (Floating(c), Floating(d)) => DoubleEqual(c, d)
  }

  /* ---------- doubles ---------- */

  function Power2(e: nat): (p: nat)
    ensures p > 0
  {
    if e == 0 then 1 else 2 * Power2(e - 1)
  }

  const LEAST_EXPONENT := -1074
  const GREATEST_EXPONENT := 971

  /** `x` is `m` times the `e`-th power of two. */
  predicate IsScaled(x: real, m: int, e: int) {
    && -MANTISSA < m < MANTISSA && LEAST_EXPONENT <= e <= GREATEST_EXPONENT
    && if e >= 0 then x == (m * Power2(e)) as real else x * Power2(-e) as real == m as real
  }

  /** The finite values of the 64-bit binary format. */
  ghost predicate IsBinary64(x: real) {
    exists m: int, e: int :: IsScaled(x, m, e)
  }

  ghost predicate ValidDouble(d: Double) {
    d.Finite? ==> IsBinary64(d.r)
  }

  ghost predicate ValidNumber(n: Numeric) {
    n.Floating? ==> ValidDouble(n.d)
  }

  ghost predicate InRange(x: real) {
    INT64_MIN as real <= x <= INT64_END as real
  }

  /** Rounding is monotone, yields doubles, and leaves doubles alone. */
  ghost predicate IsRounding(round: real -> real) {
    && (forall x: real, y: real :: x <= y ==> round(x) <= round(y))
    && (forall x: real :: InRange(x) ==> IsBinary64(round(x)))
    && (forall x: real :: IsBinary64(x) ==> round(x) == x)
  }

  lemma {:induction false} Power2Sum(a: nat, b: nat)
    ensures Power2(a + b) == Power2(a) * Power2(b)
  {
    if a > 0 {
      Power2Sum(a - 1, b);
      Regroup(Power2(a - 1), Power2(b));
    }
  }

  lemma Regroup(p: int, q: int)
    ensures 2 * (p * q) == (2 * p) * q
  {
  }

  lemma Power63()
    ensures Power2(63) == INT64_END
  {
    assert Power2(3) == 8;
    assert Power2(6) == 8 * Power2(3);
    assert Power2(9) == 8 * Power2(6) == 512;
    Power2Sum(9, 9);
    Power2Sum(18, 9);
    assert Power2(27) == 134217728;
    Power2Sum(27, 27);
    assert Power2(54) == 18014398509481984;
    Power2Sum(54, 9);
  }

  /** The bounds of the 64-bit integers are doubles. */
  lemma BoundsAreDoubles()
    ensures IsBinary64(INT64_MIN as real) && IsBinary64(INT64_END as real)
  {
    Power63();
    assert IsScaled(INT64_END as real, 1, 63);
    assert IsScaled(INT64_MIN as real, -1, 63);
  }

  /** Every integer of at most 53 bits is a double. */
  lemma SmallWholeIsDouble(n: int)
    requires -MANTISSA <= n <= MANTISSA
    ensures IsBinary64(n as real)
  {
    if n == MANTISSA || n == -MANTISSA {
      assert Power2(1) == 2;
      assert IsScaled(n as real, n / 2, 1);
    } else {
      assert IsScaled(n as real, n, 0);
    }
  }

  lemma ShrinksWhen(x: real, p: nat, m: int)
    requires p > 0 && x * p as real == m as real
    ensures x >= 0.0 ==> x <= m as real
    ensures x <= 0.0 ==> x >= m as real
  {
    if x >= 0.0 {
      assert x * (p - 1) as real >= 0.0;
    } else {
      assert x * (p - 1) as real <= 0.0;
    }
  }

  /** Every double of more than 53 bits is an integer. */
  lemma LargeDoubleIsWhole(x: real)
    requires IsBinary64(x) && (x >= MANTISSA as real || x <= -MANTISSA as real)
    ensures x == x.Floor as real
  {
    var m: int, e: int :| IsScaled(x, m, e);
    if e < 0 {
      FractionIsSmall(x, m, e);
    }
  }

  lemma FractionIsSmall(x: real, m: int, e: int)
    requires IsScaled(x, m, e) && e < 0
    ensures -MANTISSA as real < x < MANTISSA as real
  {
    ShrinksWhen(x, Power2(-e), m);
  }

  /** An integer rounds to an integral double; only the largest leave the 64-bit range, upwards. */
  lemma RoundedIsWhole(i: Int64, round: real -> real)
    requires IsRounding(round)
    ensures var x := round(i as int as real); x == x.Floor as real && INT64_MIN <= x.Floor <= INT64_END
  {
    var n := i as int;
    var x := round(n as real);
    BoundsAreDoubles();
    assert round(INT64_MIN as real) <= x <= round(INT64_END as real);
    if -MANTISSA <= n <= MANTISSA {
      SmallWholeIsDouble(n);
    } else {
      SmallWholeIsDouble(MANTISSA);
      SmallWholeIsDouble(-MANTISSA);
      assert n > MANTISSA ==> round(MANTISSA as real) <= x;
      assert n < -MANTISSA ==> x <= round(-MANTISSA as real);
      assert InRange(n as real);
      LargeDoubleIsWhole(x);
    }
  }

  /* ---------- there is such a rounding ---------- */

  /**
   A scale on which every double is an integer: `f` gives the position of a number on it, `g` the number at
   an integer position.
   */
  ghost predicate IsScale(f: real -> real, g: int -> real) {
    && (forall x: real, y: real :: x <= y <==> f(x) <= f(y))
    && (forall n: int :: f(g(n)) == n as real)
    && (forall x: real :: IsBinary64(x) ==> IsWhole(f(x)))
  }

  predicate IsWhole(y: real) {
    y == y.Floor as real
  }

  /** The greatest position up to `n` that holds a double. */
  ghost function Greatest(n: int, low: int, g: int -> real): (r: int)
    requires low <= n && IsBinary64(g(low))
    ensures low <= r <= n && IsBinary64(g(r)) && forall k :: r < k <= n ==> !IsBinary64(g(k))
    decreases n - low
  {
    if IsBinary64(g(n)) then n else Greatest(n - 1, low, g)
  }

  lemma LeastPosition(x: real, f: real -> real, g: int -> real)
    requires IsScale(f, g) && InRange(x)
    ensures var low := f(INT64_MIN as real).Floor; low <= f(x).Floor && g(low) == INT64_MIN as real && IsBinary64(g(low))
  {
    BoundsAreDoubles();
    var low := f(INT64_MIN as real).Floor;
    assert f(g(low)) == f(INT64_MIN as real);
    assert g(low) <= INT64_MIN as real <= g(low);
  }

  /** Rounding down, for the numbers in range. */
  ghost function RoundDown(x: real, f: real -> real, g: int -> real): real
    requires IsScale(f, g)
  {
    if InRange(x) then
      LeastPosition(x, f, g);
      g(Greatest(f(x).Floor, f(INT64_MIN as real).Floor, g))
    else x
  }

  lemma RoundDownIsDouble(x: real, f: real -> real, g: int -> real)
    requires IsScale(f, g) && InRange(x)
    ensures IsBinary64(RoundDown(x, f, g)) && INT64_MIN as real <= RoundDown(x, f, g) <= x
  {
    LeastPosition(x, f, g);
    var r := RoundDown(x, f, g);
    assert f(r) <= f(x);
    assert f(INT64_MIN as real) <= f(r);
  }

  lemma RoundDownFixes(x: real, f: real -> real, g: int -> real)
    requires IsScale(f, g) && IsBinary64(x)
    ensures RoundDown(x, f, g) == x
  {
    if InRange(x) {
      LeastPosition(x, f, g);
      var n := f(x).Floor;
      assert f(g(n)) == f(x);
      assert g(n) <= x <= g(n);
    }
  }

  lemma RoundDownMonotone(x: real, y: real, f: real -> real, g: int -> real)
    requires IsScale(f, g) && x <= y
    ensures RoundDown(x, f, g) <= RoundDown(y, f, g)
  {
    if InRange(x) && InRange(y) {
      LeastPosition(x, f, g);
      LeastPosition(y, f, g);
      assert f(x) <= f(y);
      assert f(RoundDown(x, f, g)) <= f(RoundDown(y, f, g));
    } else if InRange(x) {
      RoundDownIsDouble(x, f, g);
    } else if InRange(y) {
      RoundDownIsDouble(y, f, g);
    }
  }

  lemma RoundingOnScale(f: real -> real, g: int -> real)
    requires IsScale(f, g)
    ensures exists round: real -> real :: IsRounding(round)
  {
    var round := (x: real) => RoundDown(x, f, g);
    forall x: real, y: real | x <= y ensures round(x) <= round(y) {
      RoundDownMonotone(x, y, f, g);
    }
    forall x: real | InRange(x) ensures IsBinary64(round(x)) {
      RoundDownIsDouble(x, f, g);
    }
    forall x: real | IsBinary64(x) ensures round(x) == x {
      RoundDownFixes(x, f, g);
    }
    assert IsRounding(round);
  }

  /* the scale of the smallest double */

  /** The number of smallest doubles in a unit. */
  function UnitsPerOne(): nat {
    Power2(-LEAST_EXPONENT)
  }

  lemma UnitsInSteps(e: int)
    requires LEAST_EXPONENT <= e < 0
    ensures UnitsPerOne() == Power2(-e) * Power2(e - LEAST_EXPONENT)
  {
    Power2Sum(-e, e - LEAST_EXPONENT);
  }

  lemma DoubleIsMultiple(x: real, u: nat)
    requires IsBinary64(x) && u == UnitsPerOne()
    ensures IsWhole(x * u as real)
  {
    var m: int, e: int :| IsScaled(x, m, e);
    if e >= 0 {
      WholeTimes(x, m * Power2(e), u);
    } else {
      UnitsInSteps(e);
      PartTimes(x, m, Power2(-e), Power2(e - LEAST_EXPONENT), u);
    }
  }

  lemma WholeTimes(x: real, n: int, u: nat)
    requires x == n as real
    ensures IsWhole(x * u as real)
  {
    assert x * u as real == (n * u) as real;
  }

  lemma SplitFactor(x: real, p: nat, q: nat, u: nat)
    requires u == p * q
    ensures x * u as real == (x * p as real) * q as real
  {
    assert u as real == p as real * q as real;
  }

  lemma PartTimes(x: real, m: int, p: nat, q: nat, u: nat)
    requires x * p as real == m as real && u == p * q
    ensures IsWhole(x * u as real)
  {
    var y := x * u as real;
    SplitFactor(x, p, q, u);
    assert y == m as real * q as real == (m * q) as real;
  }

  lemma DivideMultiply(n: int, u: nat)
    requires u > 0
    ensures (n as real / u as real) * u as real == n as real
  {
  }

  lemma Scaled(x: real, y: real, u: nat)
    requires u > 0
    ensures x <= y <==> x * u as real <= y * u as real
  {
    if x <= y {
      assert (y - x) * u as real >= 0.0;
    } else {
      assert (x - y) * u as real > 0.0;
    }
  }

  function PositionOn(u: nat): real -> real {
    (x: real) => x * u as real
  }

  function NumberOn(u: nat): int -> real
    requires u > 0
  {
    (n: int) => n as real / u as real
  }

  lemma PositionsAreOrdered(u: nat, x: real, y: real)
    requires u > 0
    ensures x <= y <==> PositionOn(u)(x) <= PositionOn(u)(y)
  {
    Scaled(x, y, u);
  }

  lemma PositionOfNumber(u: nat, n: int)
    requires u > 0
    ensures PositionOn(u)(NumberOn(u)(n)) == n as real
  {
    DivideMultiply(n, u);
  }

  lemma DoublesHavePositions(u: nat, x: real)
    requires IsBinary64(x) && u == UnitsPerOne()
    ensures IsWhole(PositionOn(u)(x))
  {
    DoubleIsMultiple(x, u);
    assert PositionOn(u)(x) == x * u as real;
  }

  /** The assumptions about rounding can be met. */
  lemma RoundingExists()
    ensures exists round: real -> real :: IsRounding(round)
  {
    var u := UnitsPerOne();
    var f, g := PositionOn(u), NumberOn(u);
    forall x: real, y: real ensures x <= y <==> f(x) <= f(y) {
      PositionsAreOrdered(u, x, y);
    }
    forall n: int ensures f(g(n)) == n as real {
      PositionOfNumber(u, n);
    }
    forall x: real | IsBinary64(x) ensures IsWhole(f(x)) {
      DoublesHavePositions(u, x);
    }
    RoundingOnScale(f, g);
  }

  /* ---------- the comparison is exact ---------- */

  /** Smaller in value, infinities included. */
  predicate ValueLess(l: Numeric, r: Numeric) {
    match (l, r)
    case (Whole(i), Whole(j)) => i < j
    case (Whole(i), Floating(d)) => DoubleLess(Finite(i as int as real), d)
    case (Floating(d), Whole(i)) => DoubleLess(d, Finite(i as int as real))
    case (Floating(c), Floating(d)) => DoubleLess(c, d)
  }

  predicate IsNumber(n: Numeric) {
    n != Floating(NotANumber)
  }

  lemma WithDoubleIsExact(i: Int64, d: Double, round: real -> real)
    requires IsRounding(round) && ValidDouble(d) && d != NotANumber
    ensures CompareWithDouble(i, d, round) == CompareDoubles(Finite(i as int as real), d)
    ensures d.Finite? && i as int as real == d.r ==> Exactly(d) == Some(i as int)
  {
    if d.Finite? {
      var n := i as int as real;
      assert d.r <= n ==> round(d.r) <= round(n);
      assert n <= d.r ==> round(n) <= round(d.r);
      assert round(d.r) == d.r;
      RoundedIsWhole(i, round);
      if n == d.r {
        assert d.r.Floor == i as int;
      }
    }
  }

  /** Any mix of integers and doubles is compared by value. */
  lemma CompareNumbersIsExact(l: Numeric, r: Numeric, round: real -> real)
    requires IsRounding(round) && ValidNumber(l) && ValidNumber(r) && IsNumber(l) && IsNumber(r)
    ensures CompareNumbers(l, r, round) == Ascending <==> ValueLess(l, r)
    ensures CompareNumbers(l, r, round) == Descending <==> ValueLess(r, l)
    ensures CompareNumbers(l, r, round) == Same <==> Equal(l, r)
  {
    match (l, r) {
      case (Whole(i), Floating(d)) => WithDoubleIsExact(i, d, round);
      case (Floating(d), Whole(i)) => WithDoubleIsExact(i, d, round);
      case _ =>
    }
  }

  /** The comparison and `==` agree on exactly the pairs that are not two doubles with a NaN among them. */
  lemma SameMeansEqualExact(l: Numeric, r: Numeric, round: real -> real)
    requires IsRounding(round) && ValidNumber(l) && ValidNumber(r)
    ensures (CompareNumbers(l, r, round) == Same <==> Equal(l, r))
            <==> !(l.Floating? && r.Floating? && (!IsNumber(l) || !IsNumber(r)))
  {
    if IsNumber(l) && IsNumber(r) {
      CompareNumbersIsExact(l, r, round);
    }
  }

  function DoubleValue(n: Numeric, round: real -> real): Double {
    match n
    case Whole(i) => ToDouble(i, round)
    case Floating(d) => d
  }

  /** Equal numbers hash alike, as they have the same double. */
  lemma EqualHashAlike(l: Numeric, r: Numeric, round: real -> real)
    requires IsRounding(round) && ValidNumber(l) && ValidNumber(r) && Equal(l, r)
    ensures DoubleValue(l, round) == DoubleValue(r, round)
  {
  }
}
