/** Fixed-width integers and the 18-digit fixed-point Decimal of the
    CosmWasm standard library, as the vault uses them.

    Arithmetic that overflows in the library panics, which aborts the whole
    contract call; here it yields `Err`, and callers propagate it. */
module Numerics {

  const UINT64_LIMIT: nat := 0x1_0000_0000_0000_0000
  const UINT128_LIMIT: nat := 0x1_0000_0000_0000_0000_0000_0000_0000_0000

  type Uint64 = x: nat | x < UINT64_LIMIT
  type Uint128 = x: nat | x < UINT128_LIMIT

  /** Why a library operation panicked. */
  datatype Error = Overflow | DivideByZero

  datatype Result<T> = Ok(value: T) | Err(error: Error)

  /** Outcome of a state-changing call that returns nothing. */
  datatype Outcome = Pass | Fail(error: Error)

  /** `Uint128 + Uint128`: the exact sum, or an abort when it leaves the range. */
  function CheckedAdd(a: Uint128, b: Uint128): (r: Result<Uint128>)
    ensures r.Ok? <==> a + b < UINT128_LIMIT
    ensures r.Ok? ==> r.value == a + b
    ensures r.Err? ==> r.error == Overflow
  {
    if a + b < UINT128_LIMIT then Ok(a + b) else Err(Overflow)
  }

  /** Number of atomics in one whole unit of a Decimal. */
  const DECIMAL_FRACTIONAL: nat := 1_000_000_000_000_000_000

  /** A non-negative fixed-point number: `atomics / 10^18`. */
  datatype Decimal = Decimal(atomics: Uint128)

  /** `Decimal::one()`. */
  const ONE: Decimal := Decimal(DECIMAL_FRACTIONAL)

  /** The truncated quotient of natural numbers lies between the two nearest
      multiples of the divisor. */
  lemma DivBounds(x: nat, d: nat)
    requires d > 0
    ensures (x / d) * d <= x < (x / d + 1) * d
  {
    var q, m := x / d, x % d;
    assert x == q * d + m;
    assert (q + 1) * d == q * d + d;
  }

  /** Multiplication by a natural number preserves the order. */
  lemma MulMono(a: nat, b: nat, c: nat)
    requires a <= b
    ensures a * c <= b * c
  {
    var k := b - a;
    assert b * c == a * c + k * c;
  }

  /** `Decimal::from_ratio(n, d)`: the largest Decimal whose value does not
      exceed `n / d`, computed with a full-width intermediate product; it
      aborts on a zero denominator and when that Decimal leaves the range. */
  function FromRatio(n: Uint128, d: Uint128): (r: Result<Decimal>)
    ensures d == 0 <==> r == Err(DivideByZero)
    ensures d > 0 ==> (r == Err(Overflow) <==> n * DECIMAL_FRACTIONAL >= UINT128_LIMIT * d)
    ensures r.Ok? ==> r.value.atomics * d <= n * DECIMAL_FRACTIONAL < (r.value.atomics + 1) * d
  {
    if d == 0 then Err(DivideByZero)
    else
      var q := n * DECIMAL_FRACTIONAL / d;
      DivBounds(n * DECIMAL_FRACTIONAL, d);
      if q < UINT128_LIMIT then
        MulMono(q + 1, UINT128_LIMIT, d);
        Ok(Decimal(q))
      else
        MulMono(UINT128_LIMIT, q, d);
        Err(Overflow)
  }

  /** A positive factor can be cancelled from both sides of an order. */
  lemma MulCancel(k: nat, a: nat, b: nat)
    requires k > 0
    ensures k * a <= k * b <==> a <= b
  {
    if a <= b {
      MulMono(a, b, k);
    } else {
      MulMono(b + 1, a, k);
    }
  }

  /** A truncated quotient is unique. */
  lemma FloorUnique(x: nat, d: nat, q1: nat, q2: nat)
    requires q1 * d <= x < (q1 + 1) * d
    requires q2 * d <= x < (q2 + 1) * d
    ensures q1 == q2
  {
    if q1 < q2 {
      MulMono(q1 + 1, q2, d);
    } else if q2 < q1 {
      MulMono(q2 + 1, q1, d);
    }
  }

  /** Cancelling a positive factor from a quotient's bounds. */
  lemma ScaledFloor(x: nat, d: nat, k: nat, q: nat)
    requires k > 0
    requires q * (k * d) <= k * x < (q + 1) * (k * d)
    ensures q * d <= x < (q + 1) * d
  {
    assert q * (k * d) == k * (q * d);
    assert (q + 1) * (k * d) == k * ((q + 1) * d);
    MulCancel(k, q * d, x);
    MulCancel(k, x + 1, (q + 1) * d);
  }

  /** Multiplication regroups. Z3 knows this; stating it as a lemma hands the
      regrouped products to the proof below as plain facts, which inline
      asserts of the same equalities do not do cheaply enough. */
  lemma MulAssoc(a: nat, b: nat, c: nat)
    ensures (a * b) * c == a * (b * c)
  {
  }

  /** `from_ratio(k * n, k * d) == from_ratio(n, d)` for any k > 0. */
  lemma FromRatioIsScaleInvariant(n: Uint128, d: Uint128, k: nat, kn: Uint128, kd: Uint128)
    requires k > 0
    requires kn == k * n && kd == k * d
    ensures FromRatio(kn, kd) == FromRatio(n, d)
  {
    if d > 0 {
      MulMono(1, k, d);
      NonzeroScaleInvariant(n, d, k, kn, kd);
    }
  }

  /** The case of a nonzero denominator. */
  lemma NonzeroScaleInvariant(n: Uint128, d: Uint128, k: nat, kn: Uint128, kd: Uint128)
    requires k > 0 && d > 0
    requires kn == k * n && kd == k * d
    ensures FromRatio(kn, kd) == FromRatio(n, d)
  {
    var x := n * DECIMAL_FRACTIONAL;
    var small, large := FromRatio(n, d), FromRatio(kn, kd);
    MulAssoc(k, n, DECIMAL_FRACTIONAL);
    MulAssoc(UINT128_LIMIT, k, d);
    assert UINT128_LIMIT * kd == k * (UINT128_LIMIT * d);
    MulCancel(k, UINT128_LIMIT * d, x);
    if small.Ok? {
      assert large.Ok?;
      ScaledFloor(x, d, k, large.value.atomics);
      FloorUnique(x, d, large.value.atomics, small.value.atomics);
    }
  }

  /** A larger numerator never gives a smaller ratio. */
  lemma FromRatioMonotone(n1: Uint128, n2: Uint128, d: Uint128)
    requires n1 <= n2
    requires FromRatio(n1, d).Ok? && FromRatio(n2, d).Ok?
    ensures FromRatio(n1, d).value.atomics <= FromRatio(n2, d).value.atomics
  {
    var q1, q2 := FromRatio(n1, d).value.atomics, FromRatio(n2, d).value.atomics;
    MulMono(n1, n2, DECIMAL_FRACTIONAL);
    if q1 > q2 {
      MulMono(q2 + 1, q1, d);
    }
  }

  /** A larger denominator never gives a larger ratio. */
  lemma FromRatioAntitone(n: Uint128, d1: Uint128, d2: Uint128)
    requires d1 <= d2
    requires FromRatio(n, d1).Ok? && FromRatio(n, d2).Ok?
    ensures FromRatio(n, d2).value.atomics <= FromRatio(n, d1).value.atomics
  {
    var q1, q2 := FromRatio(n, d1).value.atomics, FromRatio(n, d2).value.atomics;
    if q2 > q1 {
      MulMono(d1, d2, q2);
      assert q2 * d1 == d1 * q2 && q2 * d2 == d2 * q2;
      MulMono(q1 + 1, q2, d1);
    }
  }
}
