/** The numeric coercion `updateTimer` applies to an hours/minutes/seconds field:
    `Number(raw)`, then `isNaN` mapped to 0, then `Math.floor`, then a clamp to [0, hi]. */
module NumberInput {

  type Positive = n: int | n >= 1 witness 1

  /** A value `Number(raw)` can produce. Every finite double is a rational number,
      so a finite value is kept exactly as `numer / denom`. */
  datatype Numeric = NaN | PosInfinity | NegInfinity | Finite(numer: int, denom: Positive)

  /** An integer seen as a JavaScript number (what the stepper buttons pass). */
  function FromInt(n: int): Numeric
  {
    Finite(n, 1)
  }

  function Min(a: int, b: int): int { if a <= b then a else b }

  function Max(a: int, b: int): int { if a >= b then a else b }

  /** `Math.floor` of the finite value `numer / denom`: the greatest integer not above it. */
  function Floor(numer: int, denom: Positive): (r: int)
    ensures r * denom <= numer < r * denom + denom
  {
    numer / denom
  }

  lemma MulMono(a: int, b: int, q: Positive)
    requires a <= b
    ensures a * q <= b * q
  {
    assert b * q - a * q == (b - a) * q;
  }

  /** Where the floor of `numer / denom` lies relative to [0, hi]. */
  lemma FloorAgainstRange(numer: int, denom: Positive, hi: nat)
    ensures numer < 0 ==> Floor(numer, denom) < 0
    ensures (hi + 1) * denom <= numer ==> Floor(numer, denom) > hi
    ensures 0 <= numer < (hi + 1) * denom ==> 0 <= Floor(numer, denom) <= hi
  {
    var f := Floor(numer, denom);
    if f >= 0 { MulMono(0, f, denom); }
    if f <= hi { MulMono(f + 1, hi + 1, denom); }
    if f < 0 { MulMono(f + 1, 0, denom); }
    if f > hi { MulMono(hi + 1, f, denom); }
  }

  /** `Math.max(0, Math.min(hi, Math.floor(v)))` after `isNaN(v)` has replaced NaN by 0.
      The result is always in [0, hi]; NaN and negative input give 0; input above the
      range gives hi; input inside the range gives its floor. */
  function Coerce(v: Numeric, hi: nat): (r: int)
    ensures 0 <= r <= hi
    ensures v.NaN? || v.NegInfinity? ==> r == 0
    ensures v.PosInfinity? ==> r == hi
    ensures v.Finite? && v.numer < 0 ==> r == 0
    ensures v.Finite? && (hi + 1) * v.denom <= v.numer ==> r == hi
    ensures v.Finite? && 0 <= v.numer < (hi + 1) * v.denom ==> r * v.denom <= v.numer < r * v.denom + v.denom
  {
    var x := if v.NaN? then FromInt(0) else v;
    match x
    case PosInfinity => hi
    case NegInfinity => 0
    case Finite(p, q) =>
      var f := Floor(p, q);
      FloorAgainstRange(p, q, hi);
      Max(0, Min(hi, f))
  }

  /** Coercion leaves an integer that is already in range unchanged, so re-entering a
      displayed value does not alter the field. */
  lemma CoerceKeepsInRange(n: int, hi: nat)
    requires 0 <= n <= hi
    ensures Coerce(FromInt(n), hi) == n
  {
  }

  /** Coercion is idempotent: feeding its result back in gives the same value. */
  lemma CoerceIdempotent(v: Numeric, hi: nat)
    ensures Coerce(FromInt(Coerce(v, hi)), hi) == Coerce(v, hi)
  {
    CoerceKeepsInRange(Coerce(v, hi), hi);
  }
}
