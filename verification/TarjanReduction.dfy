/**
 * cdd_reduce: the walk over a diagram that pushes the bounds of the path on an incremental
 * constraint graph and keeps only the children the graph still allows.
 */
module TarjanReduction {
  import opened Bounds
  import opened ConstraintGraph
  import opened Diagrams
  import opened Reduction
  import opened Zones
  import opened TarjanGraph

  /** The graph is usable below `min`: consistent, in order, and without edges for the levels to come. */
  ghost predicate Ready(L: Levels, graph: Tarjan, min: nat)
    reads graph.Repr()
  {
    graph.Valid() && LevelsOk(L, graph.dim) && Free(L, graph.rows, min)
  }

  /** Pushes x_i - x_j <= b. */
  method PushUpper(L: Levels, graph: Tarjan, level: nat, b: int)
    requires level < |L| && L[level].ClockLevel? && Ready(L, graph, level) && b < INF
    modifies graph.Repr()
    ensures Ready(L, graph, level + 1)
    ensures graph.rows == WithEdge(old(graph.rows), L[level].clock1, L[level].clock2, b)
    ensures Solutions(graph.rows) == Slice(L, level, old(Solutions(graph.rows)), -INF, b)
  {
    UpperEdge(L, graph.rows, level, b);
    FreeAfterEdge(L, graph.rows, level, L[level].clock1, L[level].clock2, b);
    graph.Push(L[level].clock1, L[level].clock2, b);
  }

  /** Adds an upper bound and asks whether anything is left. */
  method TryUpper(L: Levels, graph: Tarjan, level: nat, b: int) returns (ok: bool)
    requires level < |L| && L[level].ClockLevel? && Ready(L, graph, level) && b < INF
    modifies graph.Repr()
    ensures Ready(L, graph, level + 1)
    ensures graph.rows == WithEdge(old(graph.rows), L[level].clock1, L[level].clock2, b)
    ensures Solutions(graph.rows) == Slice(L, level, old(Solutions(graph.rows)), -INF, b)
    ensures ok <==> Nonempty(Solutions(graph.rows))
  {
    PushUpper(L, graph, level, b);
    ConsistentIsNonempty(graph.rows);
    ok := graph.CheckConsistent();
  }

  function BoundsOf(es: seq<Elem>): (bounds: seq<int>)
    ensures |bounds| == |es| && forall k :: 0 <= k < |es| ==> bounds[k] == es[k].bnd
  {
    seq(|es|, k requires 0 <= k < |es| => es[k].bnd)
  }

  /** Finds the first child whose upper bound the graph allows; stops early at the last child. */
  method FirstChild(L: Levels, level: nat, bounds: seq<int>, graph: Tarjan, ghost rows: Rows) returns (k: nat, modified: bool)
    requires level < |L| && L[level].ClockLevel? && |bounds| > 1 && bounds[|bounds| - 1] == INF
    requires forall i :: 0 <= i < |bounds| - 1 ==> Finite(bounds[i])
    requires Ready(L, graph, level) && graph.rows == rows && Consistent(rows)
    modifies graph.Repr()
    ensures k < |bounds| && (modified <==> k > 0)
    ensures k > 0 ==> !Nonempty(Slice(L, level, Solutions(rows), -INF, bounds[k - 1]))
    ensures k < |bounds| - 1 ==>
      && Ready(L, graph, level + 1) && Consistent(graph.rows)
      && graph.rows == WithEdge(rows, L[level].clock1, L[level].clock2, bounds[k])
      && Solutions(graph.rows) == Slice(L, level, Solutions(rows), -INF, bounds[k])
    ensures k == |bounds| - 1 ==> Ready(L, graph, level) && graph.rows == rows
  {
    k := 0;
    modified := false;
    var ok := TryUpper(L, graph, level, bounds[0]);
    while !ok
      invariant k < |bounds| - 1 && (modified <==> k > 0)
      invariant Ready(L, graph, level + 1) && (ok <==> Nonempty(Solutions(graph.rows)))
      invariant graph.rows == WithEdge(rows, L[level].clock1, L[level].clock2, bounds[k])
      invariant Solutions(graph.rows) == Slice(L, level, Solutions(rows), -INF, bounds[k])
      invariant k > 0 ==> !Nonempty(Slice(L, level, Solutions(rows), -INF, bounds[k - 1]))
      decreases |bounds| - k, !ok
    {
      modified := true;
      graph.Pop(L[level].clock1);
      assert graph.rows == rows;
      k := k + 1;
      if bounds[k] == INF {
        return;
      }
      ok := TryUpper(L, graph, level, bounds[k]);
    }
    ConsistentIsNonempty(graph.rows);
  }

  /** Pushes a lower bound and asks whether anything is left. */
  method TryLower(L: Levels, graph: Tarjan, level: nat, low: int) returns (ok: bool)
    requires level < |L| && L[level].ClockLevel? && Ready(L, graph, level) && Finite(low)
    modifies graph.Repr()
    ensures Ready(L, graph, level + 1)
    ensures graph.rows == WithEdge(old(graph.rows), L[level].clock2, L[level].clock1, LowerToUpper(low))
    ensures Solutions(graph.rows) == Slice(L, level, old(Solutions(graph.rows)), low, INF)
    ensures !Joined(graph.rows, L[level].clock1, L[level].clock2)
    ensures ok <==> Nonempty(Solutions(graph.rows))
  {
    LowerEdge(L, graph.rows, level, low);
    FreeAfterEdge(L, graph.rows, level, L[level].clock2, L[level].clock1, LowerToUpper(low));
    graph.Push(L[level].clock2, L[level].clock1, LowerToUpper(low));
    ConsistentIsNonempty(graph.rows);
    ok := graph.CheckConsistent();
  }

  /** Reduces a child below the upper bound of its piece, if it has one, without another check. */
  method ReduceBelow(L: Levels, child: Ref, graph: Tarjan, level: nat, up: int) returns (n: Ref)
    requires level < |L| && L[level].ClockLevel? && NodeOk(L, child.node, level + 1)
    requires Ready(L, graph, level + 1) && !Joined(graph.rows, L[level].clock1, L[level].clock2)
    requires (up == INF || Finite(up)) && Nonempty(Slice(L, level, Solutions(graph.rows), -INF, up))
    modifies graph.Repr()
    ensures Ready(L, graph, level + 1) && graph.rows == old(graph.rows)
    ensures n == Reduce(L, child, Slice(L, level, Solutions(graph.rows), -INF, up))
    decreases child.node, 6
  {
    ghost var rows := graph.rows;
    ConsistentIsNonempty(rows);
    if up < INF {
      UpperEdge(L, rows, level, up);
      FreeAfterEdge(L, rows, level, L[level].clock1, L[level].clock2, up);
      graph.Push(L[level].clock1, L[level].clock2, up);
      ConsistentIsNonempty(graph.rows);
      n := ReduceRec(L, child, graph, level + 1);
      graph.Pop(L[level].clock1);
      assert graph.rows == rows;
    } else {
      SliceTwice(L, level, Solutions(rows), -INF, up);
      n := ReduceRec(L, child, graph, level + 1);
    }
  }

  /**
   * Handles a child behind the first feasible one: pushes its lower bound, checks, and if the
   * graph allows it reduces the child below its upper bound.
   */
  method NextChild(L: Levels, r: Ref, graph: Tarjan, k: nat, ghost rows: Rows) returns (ok: bool, n: Ref)
    requires r.node.CddNode? && NodeOk(L, r.node, r.node.level) && 0 < k < |r.node.elems|
    requires Ready(L, graph, r.node.level) && graph.rows == rows
    requires Nonempty(Slice(L, r.node.level, Solutions(rows), -INF, Lower(r.node.elems, k)))
    modifies graph.Repr()
    ensures Ready(L, graph, r.node.level) && graph.rows == rows
    ensures ok <==> Nonempty(Slice(L, r.node.level, Solutions(rows), Lower(r.node.elems, k), INF))
    ensures ok ==> Nonempty(ChildZone(L, r.node.level, r.node.elems, k, Solutions(rows)))
    ensures ok ==> n == Reduce(L, NegCond(r.node.elems[k].child, r.neg), ChildZone(L, r.node.level, r.node.elems, k, Solutions(rows)))
    decreases r.node, 0
  {
    var level, elems := r.node.level, r.node.elems;
    var low, up := Lower(elems, k), elems[k].bnd;
    n := r;
    ok := TryLower(L, graph, level, low);
    if ok {
      NextSliceNonempty(L, rows, level, low, up);
      SliceTwice(L, level, Solutions(rows), low, up);
      n := ReduceBelow(L, NegCond(elems[k].child, r.neg), graph, level, up);
    }
    graph.Pop(L[level].clock2);
    assert graph.rows == rows;
  }

  /** Reduces child k if it is feasible, and puts the open piece on the stack if the child differs from it. */
  method KeepChild(L: Levels, r: Ref, graph: Tarjan, k: nat, stack: seq<Elem>, m: Ref, mask: bool, modified: bool, ghost done: seq<Elem>, ghost rows: Rows)
      returns (ok: bool, stack': seq<Elem>, m': Ref, modified': bool, ghost done': seq<Elem>)
    requires r.node.CddNode? && NodeOk(L, r.node, r.node.level) && k < |r.node.elems|
    requires Ready(L, graph, r.node.level) && graph.rows == rows
    requires LoopOk(L, r, k, Solutions(rows), stack, m, mask, done, modified)
    modifies graph.Repr()
    ensures Ready(L, graph, r.node.level) && graph.rows == rows
    ensures LoopOk(L, r, if ok then k + 1 else k, Solutions(rows), stack', m', mask, done', modified')
    ensures !ok ==> modified' && ReduceItems(L, r.node, r.neg, k, Solutions(rows)) == []
    decreases r.node, 1
  {
    var n;
    ok, n := NextChild(L, r, graph, k, rows);
    if ok {
      stack' := if m != n then stack + [Elem(NegCond(m, mask), r.node.elems[k - 1].bnd)] else stack;
      m', modified' := n, modified || n != NegCond(r.node.elems[k].child, r.neg);
      done' := done + [Elem(n, r.node.elems[k].bnd)];
      LoopNext(L, r, k, Solutions(rows), stack, m, mask, done, modified, n, stack', done', modified');
    } else {
      stack', m', modified', done' := stack, m, true, done;
      DropTail(L, r.node, r.neg, k, k, Solutions(rows));
    }
  }

  /** The loop over the children from k on; the kept children before k are on the stack or open. */
  method ReduceRest(L: Levels, r: Ref, graph: Tarjan, k0: nat, m0: Ref, modified0: bool, ghost rows: Rows) returns (res: Ref)
    requires r.node.CddNode? && NodeOk(L, r.node, r.node.level) && 0 < k0 <= |r.node.elems|
    requires Ready(L, graph, r.node.level) && graph.rows == rows
    requires LoopOk(L, r, k0, Solutions(rows), [], m0, m0.neg, [Elem(m0, r.node.elems[k0 - 1].bnd)], modified0)
    modifies graph.Repr()
    ensures Ready(L, graph, r.node.level) && graph.rows == rows
    ensures res == Reduce(L, r, Solutions(rows))
    decreases r.node, 2
  {
    var k, m, mask, modified := k0, m0, m0.neg, modified0;
    var stack: seq<Elem> := [];
    ghost var done := [Elem(m, r.node.elems[k - 1].bnd)];
    var ok := true;
    while ok && k < |r.node.elems|
      invariant Ready(L, graph, r.node.level) && graph.rows == rows
      invariant LoopOk(L, r, k, Solutions(rows), stack, m, mask, done, modified)
      invariant !ok ==> modified && ReduceItems(L, r.node, r.neg, k, Solutions(rows)) == []
      decreases ok, |r.node.elems| - k
    {
      ok, stack, m, modified, done := KeepChild(L, r, graph, k, stack, m, mask, modified, done, rows);
      k := if ok then k + 1 else k;
    }
    ProgressDone(L, r, k, Solutions(rows), stack, m, mask, done, modified);
    stack := stack + [Elem(NegCond(m, mask), INF)];
    res := if modified then NegCond(MakeNode(r.node.level, stack), mask) else r;
  }

  /** Reduces a clock node: finds its first feasible child, reduces it, and goes on from there. */
  method ReduceClock(L: Levels, r: Ref, graph: Tarjan) returns (m: Ref)
    requires r.node.CddNode? && NodeOk(L, r.node, r.node.level)
    requires Ready(L, graph, r.node.level) && Consistent(graph.rows)
    modifies graph.Repr()
    ensures Ready(L, graph, r.node.level) && graph.rows == old(graph.rows)
    ensures m == Reduce(L, r, Solutions(graph.rows))
    decreases r.node, 4
  {
    ghost var rows := graph.rows;
    var k, skipped := FirstChild(L, r.node.level, BoundsOf(r.node.elems), graph, rows);
    if k == |r.node.elems| - 1 {
      m := ReduceLast(L, r, graph);
    } else {
      m := ReduceFrom(L, r, graph, k, skipped, rows);
    }
  }

  /** When only the last child is left its reduction is the result. */
  method ReduceLast(L: Levels, r: Ref, graph: Tarjan) returns (m: Ref)
    requires r.node.CddNode? && NodeOk(L, r.node, r.node.level)
    requires Ready(L, graph, r.node.level) && Consistent(graph.rows)
    requires !Nonempty(Slice(L, r.node.level, Solutions(graph.rows), -INF, r.node.elems[|r.node.elems| - 2].bnd))
    modifies graph.Repr()
    ensures Ready(L, graph, r.node.level) && graph.rows == old(graph.rows)
    ensures m == Reduce(L, r, Solutions(graph.rows))
    decreases r.node, 3
  {
    ConsistentIsNonempty(graph.rows);
    LastChildOnly(L, r, Solutions(graph.rows));
    m := ReduceRec(L, NegCond(r.node.elems[|r.node.elems| - 1].child, r.neg), graph, r.node.level + 1);
  }

  /** Reduces the first feasible child and goes on from there. */
  method ReduceFrom(L: Levels, r: Ref, graph: Tarjan, k: nat, skipped: bool, ghost rows: Rows) returns (m: Ref)
    requires r.node.CddNode? && NodeOk(L, r.node, r.node.level) && k < |r.node.elems| - 1 && (skipped <==> k > 0)
    requires LevelsOk(L, |rows|) && Free(L, rows, r.node.level)
    requires k > 0 ==> !Nonempty(Slice(L, r.node.level, Solutions(rows), -INF, r.node.elems[k - 1].bnd))
    requires Ready(L, graph, r.node.level + 1) && Consistent(graph.rows)
    requires graph.rows == WithEdge(rows, L[r.node.level].clock1, L[r.node.level].clock2, r.node.elems[k].bnd)
    requires Solutions(graph.rows) == Slice(L, r.node.level, Solutions(rows), -INF, r.node.elems[k].bnd)
    modifies graph.Repr()
    ensures Ready(L, graph, r.node.level) && graph.rows == rows
    ensures m == Reduce(L, r, Solutions(rows))
    decreases r.node, 3
  {
    m := ReduceFirst(L, r, graph, k, rows);
    var modified := skipped || m != NegCond(r.node.elems[k].child, r.neg);
    KeptFirst(L, r, k, Solutions(rows), m);
    ProgressFirst(r, k, m, modified);
    m := ReduceRest(L, r, graph, k + 1, m, modified, rows);
  }

  /** Reduces the first feasible child, whose upper bound is on the graph, and takes the bound off. */
  method ReduceFirst(L: Levels, r: Ref, graph: Tarjan, k: nat, ghost rows: Rows) returns (m: Ref)
    requires r.node.CddNode? && NodeOk(L, r.node, r.node.level) && k < |r.node.elems| - 1
    requires LevelsOk(L, |rows|) && Free(L, rows, r.node.level)
    requires k > 0 ==> !Nonempty(Slice(L, r.node.level, Solutions(rows), -INF, r.node.elems[k - 1].bnd))
    requires Ready(L, graph, r.node.level + 1) && Consistent(graph.rows)
    requires graph.rows == WithEdge(rows, L[r.node.level].clock1, L[r.node.level].clock2, r.node.elems[k].bnd)
    requires Solutions(graph.rows) == Slice(L, r.node.level, Solutions(rows), -INF, r.node.elems[k].bnd)
    modifies graph.Repr()
    ensures Ready(L, graph, r.node.level) && graph.rows == rows
    ensures Nonempty(ChildZone(L, r.node.level, r.node.elems, k, Solutions(rows)))
    ensures m == Reduce(L, NegCond(r.node.elems[k].child, r.neg), ChildZone(L, r.node.level, r.node.elems, k, Solutions(rows)))
    decreases r.node, 0
  {
    var level, elems := r.node.level, r.node.elems;
    ConsistentIsNonempty(graph.rows);
    FrontZone(L, level, elems, k, Solutions(rows));
    m := ReduceRec(L, NegCond(elems[k].child, r.neg), graph, level + 1);
    graph.Pop(L[level].clock1);
    assert graph.rows == rows;
  }

  /** The diagram r, reduced under the constraints on the graph, which is left as it was. */
  method ReduceRec(L: Levels, r: Ref, graph: Tarjan, ghost min: nat) returns (m: Ref)
    requires NodeOk(L, r.node, min) && Ready(L, graph, min) && Consistent(graph.rows)
    modifies graph.Repr()
    ensures Ready(L, graph, min) && graph.rows == old(graph.rows)
    ensures m == Reduce(L, r, Solutions(graph.rows))
    decreases r.node, 5
  {
    match r.node
    case Terminal => m := r;
    case BddNode(level, low, high) =>
      var n := ReduceRec(L, NegCond(low, r.neg), graph, level + 1);
      m := ReduceRec(L, NegCond(high, r.neg), graph, level + 1);
      m := MakeBool(level, n, m);
    case CddNode(level, elems) =>
      m := ReduceClock(L, r, graph);
  }

  /** Brings a diagram into reduced form: constant if and only if it is empty or full. */
  method CddReduce(L: Levels, dim: nat, r: Ref) returns (m: Ref)
    requires dim > 0 && LevelsOk(L, dim) && Normal(L, r)
    ensures m == Reduce(L, r, AllClocks(dim))
    ensures ReducedForm(L, dim, r, m)
  {
    var graph := new Tarjan(dim);
    EmptyGraph(L, graph.rows, dim);
    m := ReduceRec(L, r, graph, 0);
    ReduceForm(L, dim, r);
  }
}
