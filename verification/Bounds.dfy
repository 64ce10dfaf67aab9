/**
 * Raw clock bounds and path distances.
 *
 * A raw bound packs a limit and a strictness bit into one integer: the odd number 2k+1 reads
 * "at most k" and the even number 2k reads "less than k".  The same integer used as a lower bound
 * reads as the complement of the upper bound.
 */
module Bounds {

  /** The raw bound that constrains nothing (and, negated, the absent lower bound). */
  const INF: int := 0x7FFF_FFFE

  /** Bounds a stored node may carry: the limit lies strictly between the two infinities. */
  predicate Finite(b: int) { -INF + 1 < b < INF }

  /** What callers may pass as a bound. */
  predicate RawBound(b: int) { b == -INF || b == INF || Finite(b) }

  function Limit(b: int): int { b / 2 }

  predicate IsStrict(b: int) { b % 2 == 0 }

  /** d meets the upper bound b. */
  predicate MeetsUpper(d: real, b: int)
  {
    b == INF || (if IsStrict(b) then d < Limit(b) as real else d <= Limit(b) as real)
  }

  /** d lies above the upper bound b, that is, meets b read as a lower bound. */
  predicate MeetsLower(d: real, b: int)
  {
    b == -INF || !MeetsUpper(d, b)
  }

  /** Negates the limit and flips the strictness bit; the shared part of bnd_l2u and bnd_u2l. */
  function Flip(b: int): (r: int)
    ensures Finite(b) ==> Finite(r)
  {
    -(b - b % 2) + (1 - b % 2)
  }

  /** A lower bound on x - y, as an upper bound on y - x. */
  function LowerToUpper(b: int): int { if b == -INF then INF else Flip(b) }

  /** An upper bound on x - y, as a lower bound on y - x. */
  function UpperToLower(b: int): int { if b == INF then -INF else Flip(b) }

  /** Turning a difference round turns its lower bound into an upper bound and back. */
  lemma {:induction false} LowerToUpperMeaning(d: real, b: int)
    requires b == -INF || Finite(b)
    ensures MeetsUpper(-d, LowerToUpper(b)) <==> MeetsLower(d, b)
    ensures UpperToLower(LowerToUpper(b)) == b
  {
  }

  lemma {:induction false} UpperToLowerMeaning(d: real, b: int)
    requires b == INF || Finite(b)
    ensures MeetsLower(-d, UpperToLower(b)) <==> MeetsUpper(d, b)
    ensures LowerToUpper(UpperToLower(b)) == b
  {
  }

  /** Turning a difference round reverses the order of bounds. */
  lemma {:induction false} FlipReverses(a: int, b: int)
    ensures a < b <==> Flip(b) < Flip(a)
  {
  }

  /** A larger raw bound is a weaker one. */
  lemma {:induction false} UpperMonotone(d: real, a: int, b: int)
    requires a <= b <= INF
    requires MeetsUpper(d, a)
    ensures MeetsUpper(d, b)
  {
    if b != INF && a != b {
      assert Limit(a) <= Limit(b);
      if Limit(a) == Limit(b) { assert IsStrict(a) && !IsStrict(b); }
    }
  }

  /** Every non-empty raw interval holds a real number, even one between consecutive integers. */
  function Inside(low: int, up: int): (t: real)
    requires low < up
    requires low == -INF || Finite(low)
    requires up == INF || Finite(up)
    ensures MeetsLower(t, low) && MeetsUpper(t, up)
  {
    if low == -INF then
      (if up == INF then 0.0 else Limit(up) as real - 1.0)
    else if IsStrict(low) then Limit(low) as real
    else Limit(low) as real + 0.5
  }

  /** Length of a path: the sum of its limits and the number of its strict edges. */
  datatype Distance = Distance(value: int, strictness: int)

  const ZERO := Distance(0, 0)

  function Add(d: Distance, b: int): Distance
  {
    Distance(d.value + Limit(b), d.strictness + (if IsStrict(b) then 1 else 0))
  }

  /** Smaller value first; on a tie the path with more strict edges is the shorter one. */
  predicate Less(a: Distance, b: Distance)
  {
    a.value < b.value || (a.value == b.value && a.strictness > b.strictness)
  }

  function Plus(a: Distance, b: Distance): Distance
  {
    Distance(a.value + b.value, a.strictness + b.strictness)
  }

  lemma {:induction false} Scaled(a: nat, b: nat, w: nat)
    requires a <= b
    ensures 0 <= a * w <= b * w
    ensures a < b ==> a * w + w <= b * w
  {
    if a < b {
      Scaled(a, b - 1, w);
      assert b * w == (b - 1) * w + w;
    }
  }
}
