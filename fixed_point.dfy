/** cosmwasm_std::Decimal: an unsigned fixed-point number with 18 fractional digits,
    held as a u128 count of 10^-18 units ("atomics"). There is no floating point anywhere:
    the value of `Decimal(a)` is a / 10^18. */
module FixedPoint {
  import opened Wrappers
  import opened Ints

  const DECIMAL_PLACES: nat := 18
  const DECIMAL_FRACTIONAL: nat := 1_000_000_000_000_000_000

  datatype Decimal = Decimal(atomics: Uint128)

  /** The decimal 0 and the decimal 1. */
  const ZERO: Decimal := Decimal(0)
  const ONE: Decimal := Decimal(DECIMAL_FRACTIONAL)

  datatype OverflowOperation = Mul | Sub
  datatype OverflowError = OverflowError(operation: OverflowOperation)
  datatype DecimalRangeExceeded = DecimalRangeExceeded

  function Pow10(n: nat): (r: nat)
    ensures r >= 1
  {
    if n == 0 then 1 else 10 * Pow10(n - 1)
  }

  lemma {:induction false} Pow10Add(a: nat, b: nat)
    ensures Pow10(a + b) == Pow10(a) * Pow10(b)
  {
    if a > 0 {
      Pow10Add(a - 1, b);
      assert Pow10(a + b) == 10 * Pow10(a - 1 + b);
    }
  }

  lemma Pow10Fractional()
    ensures Pow10(DECIMAL_PLACES) == DECIMAL_FRACTIONAL
  {
    assert Pow10(6) == 1_000_000;
    assert Pow10(12) == 1_000_000_000_000;
  }

  /** Multiplying both sides by the same factor keeps a non-strict order ... */
  lemma MulLe(a: nat, b: nat, p: nat)
    requires a <= b
    ensures a * p <= b * p
  {
    assert b * p == a * p + (b - a) * p;
  }

  /** ... and a positive factor keeps a strict one. */
  lemma MulLt(a: nat, b: nat, p: nat)
    requires a < b && p > 0
    ensures a * p < b * p
  {
    assert b * p == a * p + (b - a) * p;
    MulLe(1, b - a, p);
  }

  /** Integer division rounds down. */
  lemma DivBounds(x: nat, f: nat)
    requires f > 0
    ensures (x / f) * f <= x < (x / f + 1) * f
  {
    var q, r := x / f, x % f;
    assert x == q * f + r;
    assert (q + 1) * f == q * f + f;
  }

  /** The quotient is the only q with q * d <= x < (q + 1) * d. */
  lemma FloorUnique(x: nat, d: nat, q: nat)
    requires d > 0 && q * d <= x < (q + 1) * d
    ensures q == x / d
  {
    DivBounds(x, d);
    if q < x / d {
      MulLe(q + 1, x / d, d);
    } else if q > x / d {
      MulLe(x / d + 1, q, d);
    }
  }

  /** Scaling x up by f, where f * p == d: x * f lies within one p-step of x * d / p,
      and it stays within m exactly when x * d stays within m * p. */
  lemma ScaleUp(x: nat, f: nat, p: nat, d: nat, m: nat)
    requires f * p == d && p > 0
    ensures x * f * p <= x * d < (x * f + 1) * p
    ensures x * f <= m <==> x * d <= m * p
  {
    assert x * f * p == x * d;
    assert (x * f + 1) * p == x * f * p + p;
    if x * f <= m {
      MulLe(x * f, m, p);
    } else {
      MulLt(m, x * f, p);
    }
  }

  /** Dividing by a positive number never increases a natural number. */
  lemma DivLe(x: nat, f: nat)
    requires f > 0
    ensures x / f <= x
  {
    var q := x / f;
    DivBounds(x, f);
    MulLe(1, f, q);
  }

  /** Scaling x down by f, where p == f * d: x / f is x * d / p rounded down. */
  lemma ScaleDown(x: nat, f: nat, d: nat, p: nat)
    requires f > 0 && d > 0 && p == f * d
    ensures (x / f) * p <= x * d < (x / f + 1) * p
  {
    var q := x / f;
    DivBounds(x, f);
    MulLe(q * f, x, d);
    MulLt(x, (q + 1) * f, d);
    assert q * p == q * f * d;
    assert (q + 1) * p == (q + 1) * f * d;
  }

  /** x * d never exceeds m * p when x does not exceed m and d does not exceed p. */
  lemma MulLeBoth(x: nat, m: nat, d: nat, p: nat)
    requires x <= m && d <= p
    ensures x * d <= m * p
  {
    MulLe(d, p, x);
    MulLe(x, m, p);
  }

  lemma Pow10Split(places: nat)
    requires places >= DECIMAL_PLACES
    ensures Pow10(places) == Pow10(places - DECIMAL_PLACES) * DECIMAL_FRACTIONAL
  {
    Pow10Fractional();
    Pow10Add(places - DECIMAL_PLACES, DECIMAL_PLACES);
  }

  /** The Greater branch of from_atomics: atomics divided by 10^(places - 18) is
      atomics / 10^places rounded down, and it always fits. */
  lemma TruncatedBounds(atomics: Uint128, places: nat)
    requires places > DECIMAL_PLACES
    ensures var q := atomics / Pow10(places - DECIMAL_PLACES);
      && q <= atomics
      && q * Pow10(places) <= atomics * DECIMAL_FRACTIONAL < (q + 1) * Pow10(places)
    ensures atomics * DECIMAL_FRACTIONAL <= U128_MAX * Pow10(places)
  {
    var divisor, p := Pow10(places - DECIMAL_PLACES), Pow10(places);
    Pow10Split(places);
    DivLe(atomics, divisor);
    ScaleDown(atomics, divisor, DECIMAL_FRACTIONAL, p);
    MulLe(1, divisor, DECIMAL_FRACTIONAL);
    MulLeBoth(atomics, U128_MAX, DECIMAL_FRACTIONAL, p);
  }

  /** Uint128::checked_mul. */
  function Uint128CheckedMul(a: nat, b: nat): (r: Option<Uint128>)
    ensures r.Some? <==> a * b <= U128_MAX
    ensures r.Some? ==> r.value == a * b
  {
    var product := a * b;
    if product <= U128_MAX then Some(product) else None
  }

  /** Uint128 division, rounding down. */
  function Uint128Div(a: Uint128, b: nat): (q: Uint128)
    requires b > 0
    ensures q * b <= a < (q + 1) * b
  {
    var q: nat := a / b;
    DivBounds(a, b);
    MulLe(1, b, q);
    assert q <= a;
    q
  }

  /** Decimal::from_atomics: the decimal whose value is atomics / 10^places. */
  function FromAtomics(atomics: Uint128, places: Uint32): (r: Result<Decimal, DecimalRangeExceeded>)
    ensures places >= DECIMAL_PLACES ==> r.Ok?
  {
    if places < DECIMAL_PLACES then
      match Uint128CheckedMul(atomics, Pow10(DECIMAL_PLACES - places))
      case Some(scaled) => Ok(Decimal(scaled))
      case None => Err(DecimalRangeExceeded)
    else if places == DECIMAL_PLACES then
      Ok(Decimal(atomics))
    else
      Ok(Decimal(Uint128Div(atomics, Pow10(places - DECIMAL_PLACES))))
  }

  /** What from_atomics promises: atomics / 10^places rounded down to a multiple of 10^-18,
      or failure exactly when that value exceeds the largest Decimal. */
  ghost predicate FromAtomicsMeaning(atomics: Uint128, places: Uint32, r: Result<Decimal, DecimalRangeExceeded>) {
    && (r.Ok? ==> r.value.atomics * Pow10(places) <= atomics * DECIMAL_FRACTIONAL
                  < (r.value.atomics + 1) * Pow10(places))
    && (r.Err? <==> atomics * DECIMAL_FRACTIONAL > U128_MAX * Pow10(places))
  }

  lemma FromAtomicsScaledUp(atomics: Uint128, places: Uint32)
    requires places < DECIMAL_PLACES
    ensures FromAtomicsMeaning(atomics, places, FromAtomics(atomics, places))
  {
    var f, p := Pow10(DECIMAL_PLACES - places), Pow10(places);
    Pow10Fractional();
    Pow10Add(DECIMAL_PLACES - places, places);
    ScaleUp(atomics, f, p, DECIMAL_FRACTIONAL, U128_MAX);
  }

  lemma FromAtomicsExact(atomics: Uint128, places: Uint32)
    requires places == DECIMAL_PLACES
    ensures FromAtomicsMeaning(atomics, places, FromAtomics(atomics, places))
  {
    Pow10Fractional();
    ScaleUp(atomics, 1, DECIMAL_FRACTIONAL, DECIMAL_FRACTIONAL, U128_MAX);
  }

  lemma FromAtomicsTruncated(atomics: Uint128, places: Uint32)
    requires places > DECIMAL_PLACES
    ensures FromAtomicsMeaning(atomics, places, FromAtomics(atomics, places))
  {
    TruncatedBounds(atomics, places);
  }

  /** from_atomics yields atomics / 10^places rounded down to a multiple of 10^-18, and
      fails exactly when that value exceeds the largest Decimal, (2^128 - 1) / 10^18. */
  lemma FromAtomicsValue(atomics: Uint128, places: Uint32)
    ensures FromAtomicsMeaning(atomics, places, FromAtomics(atomics, places))
  {
    if places < DECIMAL_PLACES {
      FromAtomicsScaledUp(atomics, places);
    } else if places == DECIMAL_PLACES {
      FromAtomicsExact(atomics, places);
    } else {
      FromAtomicsTruncated(atomics, places);
    }
  }

  /** Decimal::checked_mul: the exact product a * b, rounded down to a multiple of 10^-18
      (the 256-bit product of the atomics divided by 10^18); fails when it does not fit
      in a u128. */
  function CheckedMul(a: Decimal, b: Decimal): (r: Result<Decimal, OverflowError>)
    ensures r.Ok? <==> a.atomics * b.atomics < (U128_MAX + 1) * DECIMAL_FRACTIONAL
    ensures r.Ok? ==> r.value.atomics * DECIMAL_FRACTIONAL <= a.atomics * b.atomics
                      < (r.value.atomics + 1) * DECIMAL_FRACTIONAL
    ensures r.Err? ==> r.error == OverflowError(Mul)
  {
    var product := a.atomics * b.atomics / DECIMAL_FRACTIONAL;
    if product <= U128_MAX then Ok(Decimal(product)) else Err(OverflowError(Mul))
  }

  /** Decimal::checked_sub: a - b, failing when b exceeds a. */
  function CheckedSub(a: Decimal, b: Decimal): (r: Result<Decimal, OverflowError>)
    ensures r.Ok? <==> b.atomics <= a.atomics
    ensures r.Ok? ==> r.value.atomics + b.atomics == a.atomics
    ensures r.Err? ==> r.error == OverflowError(Sub)
  {
    if b.atomics <= a.atomics then Ok(Decimal(a.atomics - b.atomics)) else Err(OverflowError(Sub))
  }

  /** Decimal::to_uint_floor: the largest integer not above the decimal. */
  function ToUintFloor(d: Decimal): (n: Uint128)
    ensures n * DECIMAL_FRACTIONAL <= d.atomics < (n + 1) * DECIMAL_FRACTIONAL
  {
    d.atomics / DECIMAL_FRACTIONAL
  }
}
