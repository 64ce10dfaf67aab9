/**
 * Reading a diagram with the levels independent of one another: a real for every clock level, whatever the
 * others are.  Read like that, a diagram in normal form is determined by what it means.
 */
module Independence {
  import opened ConstraintGraph
  import opened Diagrams

  /** Every clock level gets two clocks of its own. */
  function Independent(L: Levels): (F: Levels)
    ensures |F| == |L| && forall i :: 0 <= i < |L| ==> F[i] == if L[i].ClockLevel? then ClockLevel(2 * i + 1, 2 * i) else BoolLevel
  {
    seq(|L|, i requires 0 <= i < |L| => if L[i].ClockLevel? then ClockLevel(2 * i + 1, 2 * i) else BoolLevel)
  }

  /** The normal form does not depend on which clocks a level tests. */
  lemma {:induction false} KindsOnly(L: Levels)
    ensures forall n: Node, min: nat :: NodeOk(Independent(L), n, min) <==> NodeOk(L, n, min)
  {
    forall n: Node, min: nat ensures NodeOk(Independent(L), n, min) <==> NodeOk(L, n, min) { KindsOnlyAt(L, n, min); }
  }

  lemma {:induction false} KindsOnlyAt(L: Levels, n: Node, min: nat)
    ensures NodeOk(Independent(L), n, min) <==> NodeOk(L, n, min)
    decreases n
  {
    match n
    case Terminal =>
    case BddNode(level, low, high) =>
      KindsOnlyAt(L, low.node, level + 1);
      KindsOnlyAt(L, high.node, level + 1);
    case CddNode(level, elems) =>
      forall k | 0 <= k < |elems| ensures NodeOk(Independent(L), elems[k].child.node, level + 1) <==> NodeOk(L, elems[k].child.node, level + 1) {
        KindsOnlyAt(L, elems[k].child.node, level + 1);
      }
  }

  /** The differences that clock values give to the levels. */
  function Spread(L: Levels, x: Clocks): (y: Clocks)
    ensures |y| == 2 * |L| && forall i :: 0 <= i < |L| ==> y[2 * i + 1] == DiffAt(L, i, x) && y[2 * i] == 0.0
  {
    seq(2 * |L|, i requires 0 <= i < 2 * |L| => if i % 2 == 1 then DiffAt(L, i / 2, x) else 0.0)
  }

  lemma {:induction false} SpreadDiff(L: Levels, x: Clocks, level: nat)
    ensures DiffAt(Independent(L), level, Spread(L, x)) == DiffAt(L, level, x)
  {
    if level < |L| { assert Spread(L, x)[2 * level + 1] == DiffAt(L, level, x); }
  }

  /** Clock values are a special case. */
  lemma {:induction false} ReadSpread(L: Levels, r: Ref, v: Valuation)
    ensures Eval(Independent(L), r, Valuation(Spread(L, v.clocks), v.truths)) == Eval(L, r, v)
    decreases r
  {
    match r.node
    case Terminal =>
    case BddNode(level, low, high) =>
      ReadSpread(L, low, v);
      ReadSpread(L, high, v);
    case CddNode(level, elems) =>
      SpreadDiff(L, v.clocks, level);
      var k := Pick(elems, DiffAt(L, level, v.clocks));
      if k < |elems| { ReadSpread(L, elems[k].child, v); }
  }
}
