/**
 * Constraint graphs as sets of clock vectors: what one more edge cuts away, and why a zone that
 * reaches both below and above a bound also reaches into the interval right above it.
 */
module Zones {
  import opened Bounds
  import opened ConstraintGraph
  import opened Diagrams
  import opened Reduction

  /** Every clock level compares two declared clocks, the later one first, and no two levels the same pair. */
  ghost predicate LevelsOk(L: Levels, dim: nat)
  {
    && (forall l :: 0 <= l < |L| && L[l].ClockLevel? ==> L[l].clock2 < L[l].clock1 < dim)
    && (forall a, b :: 0 <= a < b < |L| && L[a].ClockLevel? ==> L[a] != L[b])
  }

  ghost predicate Joined(rows: Rows, i: nat, j: nat)
    requires i < |rows|
  {
    exists k :: 0 <= k < |rows[i]| && rows[i][k].v == j
  }

  /** The graph has no edge yet between the clocks of any level from min on. */
  ghost predicate Free(L: Levels, rows: Rows, min: nat)
    requires LevelsOk(L, |rows|)
  {
    forall l :: min <= l < |L| && L[l].ClockLevel? ==>
      !Joined(rows, L[l].clock1, L[l].clock2) && !Joined(rows, L[l].clock2, L[l].clock1)
  }

  function WithEdge(rows: Rows, i: nat, j: nat, b: int): Rows
    requires i < |rows|
  {
    rows[i := rows[i] + [Edge(j, b)]]
  }

  lemma {:induction false} FreeAfterEdge(L: Levels, rows: Rows, level: nat, i: nat, j: nat, b: int)
    requires LevelsOk(L, |rows|) && level < |L| && L[level].ClockLevel? && Free(L, rows, level + 1)
    requires (i == L[level].clock1 && j == L[level].clock2) || (i == L[level].clock2 && j == L[level].clock1)
    ensures Free(L, WithEdge(rows, i, j, b), level + 1)
  {
    var rows' := WithEdge(rows, i, j, b);
    forall l | level + 1 <= l < |L| && L[l].ClockLevel?
      ensures !Joined(rows', L[l].clock1, L[l].clock2) && !Joined(rows', L[l].clock2, L[l].clock1)
    {
      assert L[level] != L[l];
      assert forall k :: 0 <= k < |rows'[L[l].clock1]| && k < |rows[L[l].clock1]| ==> rows'[L[l].clock1][k] == rows[L[l].clock1][k];
      assert forall k :: 0 <= k < |rows'[L[l].clock2]| && k < |rows[L[l].clock2]| ==> rows'[L[l].clock2][k] == rows[L[l].clock2][k];
    }
  }

  // ----- What an edge cuts away

  lemma {:induction false} EdgeSolutions(rows: Rows, i: nat, j: nat, b: int, x: Clocks)
    requires i < |rows|
    ensures x in Solutions(WithEdge(rows, i, j, b)) <==> x in Solutions(rows) && MeetsUpper(Diff(x, i, j), b)
  {
    var rows' := WithEdge(rows, i, j, b);
    if x in Solutions(rows') {
      assert rows'[i][|rows[i]|] == Edge(j, b);
      forall a, k | 0 <= a < |rows| && 0 <= k < |rows[a]| ensures MeetsUpper(Diff(x, a, rows[a][k].v), rows[a][k].value) {
        assert rows'[a][k] == rows[a][k];
      }
    }
  }

  /** An edge from clock1 to clock2 keeps what lies at or below the bound. */
  lemma {:induction false} UpperEdge(L: Levels, rows: Rows, level: nat, b: int)
    requires LevelsOk(L, |rows|) && level < |L| && L[level].ClockLevel?
    ensures Solutions(WithEdge(rows, L[level].clock1, L[level].clock2, b)) == Slice(L, level, Solutions(rows), -INF, b)
  {
    forall x: Clocks
      ensures x in Solutions(WithEdge(rows, L[level].clock1, L[level].clock2, b)) <==> x in Slice(L, level, Solutions(rows), -INF, b)
    {
      EdgeSolutions(rows, L[level].clock1, L[level].clock2, b, x);
    }
  }

  /** An edge from clock2 to clock1 with the turned bound keeps what lies above it. */
  lemma {:induction false} LowerEdge(L: Levels, rows: Rows, level: nat, low: int)
    requires LevelsOk(L, |rows|) && level < |L| && L[level].ClockLevel? && Finite(low)
    ensures Solutions(WithEdge(rows, L[level].clock2, L[level].clock1, LowerToUpper(low))) == Slice(L, level, Solutions(rows), low, INF)
    ensures LowerToUpper(low) < INF
  {
    forall x: Clocks
      ensures x in Solutions(WithEdge(rows, L[level].clock2, L[level].clock1, LowerToUpper(low))) <==> x in Slice(L, level, Solutions(rows), low, INF)
    {
      EdgeSolutions(rows, L[level].clock2, L[level].clock1, LowerToUpper(low), x);
      LowerToUpperMeaning(DiffAt(L, level, x), low);
      assert Diff(x, L[level].clock2, L[level].clock1) == -DiffAt(L, level, x);
    }
  }

  lemma {:induction false} SliceTwice(L: Levels, level: nat, Z: Zone, low: int, up: int)
    ensures Slice(L, level, Slice(L, level, Z, low, INF), -INF, up) == Slice(L, level, Z, low, up)
    ensures Slice(L, level, Z, -INF, INF) == Z
  {
  }

  lemma {:induction false} ConsistentIsNonempty(rows: Rows)
    ensures Consistent(rows) <==> Nonempty(Solutions(rows))
  {
    if Consistent(rows) {
      var x :| Satisfies(x, rows);
      assert x in Solutions(rows);
    }
    if Nonempty(Solutions(rows)) {
      var x :| x in Solutions(rows);
      assert Satisfies(x, rows);
    }
  }

  /** All clock vectors: the solutions of the empty graph. */
  ghost function AllClocks(dim: nat): Zone
  {
    iset x: Clocks | |x| == dim
  }

  lemma {:induction false} EmptyGraph(L: Levels, rows: Rows, dim: nat)
    requires rows == seq(dim, _ => []) && LevelsOk(L, dim)
    ensures Solutions(rows) == AllClocks(dim) && Consistent(rows) && Free(L, rows, 0) && Nonempty(AllClocks(dim))
  {
    forall x: Clocks ensures x in Solutions(rows) <==> x in AllClocks(dim) {
    }
    var x: Clocks := seq(dim, _ => 0.0);
    assert x in AllClocks(dim);
    ConsistentIsNonempty(rows);
  }

  /** What a reduction of r over all clock vectors owes its caller. */
  ghost predicate ReducedForm(L: Levels, dim: nat, r: Ref, m: Ref)
  {
    && Normal(L, m)
    && (forall v: Valuation :: |v.clocks| == dim ==> Eval(L, m, v) == Eval(L, r, v))
    && (m == FALSE <==> forall v: Valuation :: |v.clocks| == dim ==> !Eval(L, r, v))
    && (m == TRUE <==> forall v: Valuation :: |v.clocks| == dim ==> Eval(L, r, v))
    && Feasible(L, m.node, AllClocks(dim))
  }

  lemma {:induction false} ReduceForm(L: Levels, dim: nat, r: Ref)
    requires Normal(L, r) && LevelsOk(L, dim)
    ensures ReducedForm(L, dim, r, Reduce(L, r, AllClocks(dim)))
  {
    var Z := AllClocks(dim);
    EmptyGraph(L, seq(dim, _ => []), dim);
    ReduceOk(L, r, 0, Z);
    ReduceFeasible(L, r, 0, Z);
    forall v: Valuation | |v.clocks| == dim ensures Eval(L, Reduce(L, r, Z), v) == Eval(L, r, v) {
      ReduceMeaning(L, r, 0, Z, v);
    }
    ReducedFalse(L, r, Z);
    ReducedTrue(L, r, Z);
  }

  // ----- Convexity

  function Mix(x: Clocks, y: Clocks, t: real): Clocks
    requires |x| == |y|
  {
    seq(|x|, i requires 0 <= i < |x| => x[i] + t * (y[i] - x[i]))
  }

  lemma {:induction false} MixDiff(x: Clocks, y: Clocks, t: real, i: nat, j: nat)
    requires |x| == |y| && i < |x| && j < |x|
    ensures Diff(Mix(x, y, t), i, j) == Diff(x, i, j) + t * (Diff(y, i, j) - Diff(x, i, j))
  {
    var a, b := y[i] - x[i], y[j] - x[j];
    assert t * a - t * b == t * (a - b);
  }

  lemma {:induction false} MixMeets(p: real, a: real, t: real, b: int)
    requires 0.0 <= t <= 1.0 && MeetsUpper(p, b) && MeetsUpper(p + a, b)
    ensures MeetsUpper(p + t * a, b)
  {
    var m := Share(t, a);
    if a >= 0.0 { BetweenMeets(p, p + a, p + m, b); } else { BetweenMeets(p + a, p, p + m, b); }
  }

  lemma {:induction false} BetweenMeets(p: real, q: real, r: real, b: int)
    requires MeetsUpper(p, b) && MeetsUpper(q, b) && p <= r <= q
    ensures MeetsUpper(r, b)
  {
  }

  lemma {:induction false} Share(t: real, a: real) returns (m: real)
    requires 0.0 <= t <= 1.0
    ensures m == t * a
    ensures if 0.0 <= a then 0.0 <= m <= a else a <= m <= 0.0
  {
    m := t * a;
    if 0.0 <= a {
      Product(t, a);
      Product(1.0 - t, a);
      assert (1.0 - t) * a == a - m;
    } else {
      Product(t, -a);
      Product(1.0 - t, -a);
      assert t * -a == -m;
      assert (1.0 - t) * -a == -a + m;
    }
  }

  lemma {:induction false} Product(t: real, a: real)
    requires 0.0 <= t && 0.0 <= a
    ensures 0.0 <= t * a
  {
  }

  lemma {:induction false} MixSatisfies(rows: Rows, x: Clocks, y: Clocks, t: real)
    requires WellFormed(rows) && Satisfies(x, rows) && Satisfies(y, rows) && 0.0 <= t <= 1.0
    ensures Satisfies(Mix(x, y, t), rows)
  {
    forall i, k | 0 <= i < |rows| && 0 <= k < |rows[i]|
      ensures MeetsUpper(Diff(Mix(x, y, t), i, rows[i][k].v), rows[i][k].value)
    {
      var j, b := rows[i][k].v, rows[i][k].value;
      MixDiff(x, y, t, i, j);
      MixMeets(Diff(x, i, j), Diff(y, i, j) - Diff(x, i, j), t, b);
    }
  }

  /** Between two solutions there is one with any difference in between. */
  lemma {:induction false} Intermediate(rows: Rows, x: Clocks, y: Clocks, i: nat, j: nat, d: real) returns (z: Clocks)
    requires WellFormed(rows) && Satisfies(x, rows) && Satisfies(y, rows) && i < |rows| && j < |rows|
    requires Diff(x, i, j) < d < Diff(y, i, j)
    ensures Satisfies(z, rows) && Diff(z, i, j) == d
  {
    var a, b := d - Diff(x, i, j), Diff(y, i, j) - Diff(x, i, j);
    var t := a / b;
    Ratio(a, b);
    z := Mix(x, y, t);
    MixSatisfies(rows, x, y, t);
    MixDiff(x, y, t, i, j);
  }

  lemma {:induction false} Ratio(a: real, b: real)
    requires 0.0 < a < b
    ensures 0.0 <= a / b <= 1.0 && (a / b) * b == a
  {
  }

  lemma {:induction false} BelowIsLess(p: real, q: real, b: int)
    requires MeetsUpper(p, b) && !MeetsUpper(q, b)
    ensures p < q
  {
  }

  /**
   * Solutions on both sides of a bound leave none of the intervals right above it empty, so the
   * upper bound need not be checked together with the lower one.
   */
  lemma {:induction false} NextSliceNonempty(L: Levels, rows: Rows, level: nat, low: int, up: int)
    requires WellFormed(rows) && LevelsOk(L, |rows|) && level < |L| && L[level].ClockLevel?
    requires Finite(low) && low < up && (up == INF || Finite(up))
    requires Nonempty(Slice(L, level, Solutions(rows), -INF, low))
    requires Nonempty(Slice(L, level, Solutions(rows), low, INF))
    ensures Nonempty(Slice(L, level, Solutions(rows), low, up))
  {
    var x :| x in Slice(L, level, Solutions(rows), -INF, low);
    var y :| y in Slice(L, level, Solutions(rows), low, INF);
    if !MeetsUpper(DiffAt(L, level, y), up) {
      var t := Inside(low, up);
      BelowIsLess(DiffAt(L, level, x), t, low);
      BelowIsLess(t, DiffAt(L, level, y), up);
      var z := Intermediate(rows, x, y, L[level].clock1, L[level].clock2, t);
      assert z in Slice(L, level, Solutions(rows), low, up);
    } else {
      assert y in Slice(L, level, Solutions(rows), low, up);
    }
  }

  // ----- Skipping children that the graph rules out

  /** A child that can be selected leaves room below its upper bound and above its lower one. */
  lemma {:induction false} ChildLeavesRoom(L: Levels, level: nat, es: seq<Elem>, k: nat, Z: Zone, low: int, up: int)
    requires Cuts(es) && k < |es| && Nonempty(ChildZone(L, level, es, k, Z))
    requires low <= Lower(es, k) && es[k].bnd <= up <= INF && -INF <= low
    ensures Nonempty(Slice(L, level, Z, low, up))
  {
    var x :| x in ChildZone(L, level, es, k, Z);
    var d := DiffAt(L, level, x);
    UpperMonotone(d, es[k].bnd, up);
    if low != -INF && MeetsUpper(d, low) { UpperMonotone(d, low, Lower(es, k)); }
    Witnessed(x, Slice(L, level, Z, low, up));
  }

  /** If nothing lies at or below the bound of child k - 1, no earlier child is kept. */
  lemma {:induction false} SkipFront(L: Levels, n: Node, neg: bool, j: nat, k: nat, Z: Zone)
    requires n.CddNode? && Cuts(n.elems) && j <= k < |n.elems|
    requires k > 0 ==> !Nonempty(Slice(L, n.level, Z, -INF, n.elems[k - 1].bnd))
    ensures ReduceItems(L, n, neg, j, Z) == ReduceItems(L, n, neg, k, Z)
    decreases k - j
  {
    if j < k {
      SkipFront(L, n, neg, j + 1, k, Z);
      if Nonempty(ChildZone(L, n.level, n.elems, j, Z)) {
        ChildLeavesRoom(L, n.level, n.elems, j, Z, -INF, n.elems[k - 1].bnd);
      }
    }
  }

  /** The first child that can be selected is selected by its upper bound alone. */
  lemma {:induction false} FrontZone(L: Levels, level: nat, es: seq<Elem>, k: nat, Z: Zone)
    requires Cuts(es) && k < |es|
    requires k > 0 ==> !Nonempty(Slice(L, level, Z, -INF, es[k - 1].bnd))
    ensures Slice(L, level, Z, -INF, es[k].bnd) == ChildZone(L, level, es, k, Z)
  {
    forall x | x in Slice(L, level, Z, -INF, es[k].bnd) ensures MeetsLower(DiffAt(L, level, x), Lower(es, k)) {
      if k > 0 { Witnessed(x, Slice(L, level, Z, -INF, es[k - 1].bnd)); }
    }
  }

  /** If only the last child can be selected, the node reduces to that child's reduction. */
  lemma {:induction false} LastChildOnly(L: Levels, r: Ref, Z: Zone)
    requires r.node.CddNode? && ElemsOk(r.node.elems) && Nonempty(Z)
    requires !Nonempty(Slice(L, r.node.level, Z, -INF, r.node.elems[|r.node.elems| - 2].bnd))
    ensures Reduce(L, r, Z) == Reduce(L, NegCond(r.node.elems[|r.node.elems| - 1].child, r.neg), Z)
  {
    var k := |r.node.elems| - 1;
    FrontZone(L, r.node.level, r.node.elems, k, Z);
    SliceTwice(L, r.node.level, Z, -INF, INF);
    SkipFront(L, r.node, r.neg, 0, k, Z);
    var m := Reduce(L, NegCond(r.node.elems[k].child, r.neg), Z);
    assert ReduceItems(L, r.node, r.neg, k + 1, Z) == [];
    assert ReduceItems(L, r.node, r.neg, k, Z) == [Elem(m, INF)];
  }

  /** If nothing lies above the lower bound of child k, it and all later children are dropped. */
  lemma {:induction false} DropTail(L: Levels, n: Node, neg: bool, k: nat, j: nat, Z: Zone)
    requires n.CddNode? && Cuts(n.elems) && 0 < k <= j <= |n.elems|
    requires !Nonempty(Slice(L, n.level, Z, Lower(n.elems, k), INF))
    ensures ReduceItems(L, n, neg, j, Z) == []
    decreases |n.elems| - j
  {
    if j < |n.elems| {
      DropTail(L, n, neg, k, j + 1, Z);
      if Nonempty(ChildZone(L, n.level, n.elems, j, Z)) {
        ChildLeavesRoom(L, n.level, n.elems, j, Z, Lower(n.elems, k), INF);
      }
    }
  }

  // ----- The reduction loop over the children of one clock node

  /** `done` lists the children kept so far, and the rest of the kept ones is still to come. */
  ghost predicate KeptSoFar(L: Levels, r: Ref, k: nat, Z: Zone, done: seq<Elem>)
  {
    && r.node.CddNode? && 0 < k <= |r.node.elems|
    && done + ReduceItems(L, r.node, r.neg, k, Z) == ReduceItems(L, r.node, r.neg, 0, Z)
    && Nonempty(Slice(L, r.node.level, Z, -INF, r.node.elems[k - 1].bnd))
  }

  lemma {:induction false} KeptFirst(L: Levels, r: Ref, k: nat, Z: Zone, m: Ref)
    requires r.node.CddNode? && Cuts(r.node.elems) && k < |r.node.elems|
    requires k > 0 ==> !Nonempty(Slice(L, r.node.level, Z, -INF, r.node.elems[k - 1].bnd))
    requires Nonempty(ChildZone(L, r.node.level, r.node.elems, k, Z))
    requires m == Reduce(L, NegCond(r.node.elems[k].child, r.neg), ChildZone(L, r.node.level, r.node.elems, k, Z))
    ensures KeptSoFar(L, r, k + 1, Z, [Elem(m, r.node.elems[k].bnd)])
  {
    SkipFront(L, r.node, r.neg, 0, k, Z);
    ChildLeavesRoom(L, r.node.level, r.node.elems, k, Z, -INF, r.node.elems[k].bnd);
  }

  lemma {:induction false} KeptNext(L: Levels, r: Ref, k: nat, Z: Zone, done: seq<Elem>, n: Ref, done': seq<Elem>)
    requires KeptSoFar(L, r, k, Z, done) && Cuts(r.node.elems) && k < |r.node.elems|
    requires Nonempty(ChildZone(L, r.node.level, r.node.elems, k, Z))
    requires n == Reduce(L, NegCond(r.node.elems[k].child, r.neg), ChildZone(L, r.node.level, r.node.elems, k, Z))
    requires done' == done + [Elem(n, r.node.elems[k].bnd)]
    ensures KeptSoFar(L, r, k + 1, Z, done')
  {
    var item, rest := Elem(n, r.node.elems[k].bnd), ReduceItems(L, r.node, r.neg, k + 1, Z);
    assert ReduceItems(L, r.node, r.neg, k, Z) == [item] + rest;
    assert done + ([item] + rest) == done + [item] + rest;
    ChildLeavesRoom(L, r.node.level, r.node.elems, k, Z, -INF, r.node.elems[k].bnd);
  }

  /** What the loop holds of its children: the stack with its open piece, and whether anything changed. */
  ghost predicate Progress(r: Ref, k: nat, stack: seq<Elem>, m: Ref, mask: bool, done: seq<Elem>, modified: bool)
  {
    && r.node.CddNode? && 0 < k <= |r.node.elems|
    && StackOk(stack, m, mask, done) && done[|done| - 1].bnd == r.node.elems[k - 1].bnd
    && (!modified ==> done == Masked(r.node.elems, r.neg)[..k])
  }

  lemma {:induction false} ProgressFirst(r: Ref, k: nat, m: Ref, modified: bool)
    requires r.node.CddNode? && k < |r.node.elems|
    requires !modified ==> k == 0 && m == NegCond(r.node.elems[k].child, r.neg)
    ensures Progress(r, k + 1, [], m, m.neg, [Elem(m, r.node.elems[k].bnd)], modified)
  {
    StackFirst(m, r.node.elems[k].bnd);
  }

  lemma {:induction false} ProgressNext(r: Ref, k: nat, stack: seq<Elem>, m: Ref, mask: bool, done: seq<Elem>, modified: bool,
                                        n: Ref, stack': seq<Elem>, done': seq<Elem>, modified': bool)
    requires Progress(r, k, stack, m, mask, done, modified) && k < |r.node.elems|
    requires stack' == if m != n then stack + [Elem(NegCond(m, mask), r.node.elems[k - 1].bnd)] else stack
    requires done' == done + [Elem(n, r.node.elems[k].bnd)]
    requires modified' == (modified || n != NegCond(r.node.elems[k].child, r.neg))
    ensures Progress(r, k + 1, stack', n, mask, done', modified')
  {
    StackPush(stack, m, mask, done, r.node.elems[k - 1].bnd, n, r.node.elems[k].bnd);
    UnchangedNext(r.node.elems, r.neg, k, done, n);
  }

  lemma {:induction false} UnchangedNext(es: seq<Elem>, neg: bool, k: nat, done: seq<Elem>, n: Ref)
    requires k < |es|
    ensures done == Masked(es, neg)[..k] && n == NegCond(es[k].child, neg) ==>
      done + [Elem(n, es[k].bnd)] == Masked(es, neg)[..k + 1]
  {
    var ms := Masked(es, neg);
    assert ms[..k + 1] == ms[..k] + [ms[k]];
  }

  /** The invariant of the loop over the children of a clock node. */
  ghost predicate LoopOk(L: Levels, r: Ref, k: nat, Z: Zone, stack: seq<Elem>, m: Ref, mask: bool, done: seq<Elem>, modified: bool)
  {
    KeptSoFar(L, r, k, Z, done) && Progress(r, k, stack, m, mask, done, modified)
  }

  lemma {:induction false} LoopNext(L: Levels, r: Ref, k: nat, Z: Zone, stack: seq<Elem>, m: Ref, mask: bool, done: seq<Elem>, modified: bool,
                                    n: Ref, stack': seq<Elem>, done': seq<Elem>, modified': bool)
    requires LoopOk(L, r, k, Z, stack, m, mask, done, modified) && Cuts(r.node.elems) && k < |r.node.elems|
    requires Nonempty(ChildZone(L, r.node.level, r.node.elems, k, Z))
    requires n == Reduce(L, NegCond(r.node.elems[k].child, r.neg), ChildZone(L, r.node.level, r.node.elems, k, Z))
    requires stack' == if m != n then stack + [Elem(NegCond(m, mask), r.node.elems[k - 1].bnd)] else stack
    requires done' == done + [Elem(n, r.node.elems[k].bnd)]
    requires modified' == (modified || n != NegCond(r.node.elems[k].child, r.neg))
    ensures LoopOk(L, r, k + 1, Z, stack', n, mask, done', modified')
  {
    KeptNext(L, r, k, Z, done, n, done');
    ProgressNext(r, k, stack, m, mask, done, modified, n, stack', done', modified');
  }

  /** When every remaining child is dropped, closing the stack gives the reduced node. */
  lemma {:induction false} ProgressDone(L: Levels, r: Ref, k: nat, Z: Zone, stack: seq<Elem>, m: Ref, mask: bool, done: seq<Elem>, modified: bool)
    requires LoopOk(L, r, k, Z, stack, m, mask, done, modified) && ElemsOk(r.node.elems)
    requires ReduceItems(L, r.node, r.neg, k, Z) == []
    requires !modified ==> k == |r.node.elems|
    ensures NegCond(MakeNode(r.node.level, stack + [Elem(NegCond(m, mask), INF)]), mask) == Reduce(L, r, Z)
    ensures !modified ==> r == Reduce(L, r, Z)
  {
    assert done == ReduceItems(L, r.node, r.neg, 0, Z);
    StackDone(r.node.level, stack, m, mask, done);
    assert Reduce(L, r, Z) == MakeClock(r.node.level, Seal(Merge(done)));
    if !modified {
      assert done == Masked(r.node.elems, r.neg);
      RebuildNode(r);
    }
  }
}
