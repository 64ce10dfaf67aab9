/**
 * cdd_bf_reduce: the reference reduction.  It follows the same plan as cdd_reduce on the plain
 * Bellman-Ford graph, always rebuilds the node, and pops in strict last-in first-out order.
 */
module BfReduction {
  import opened Bounds
  import opened ConstraintGraph
  import opened Diagrams
  import opened Reduction
  import opened Zones
  import opened BellmanFordGraph

  ghost predicate Ready(L: Levels, graph: BellmanFord, min: nat)
    reads graph.Repr()
  {
    graph.Valid() && LevelsOk(L, graph.dim) && Free(L, graph.Graph(), min)
  }

  /** The constraint that keeps what lies at or below b at a level. */
  function UpperArc(L: Levels, level: nat, b: int): Arc
    requires level < |L| && L[level].ClockLevel?
  {
    Arc(L[level].clock1, L[level].clock2, b)
  }

  /** The constraint that keeps what lies above low at a level. */
  function LowerArc(L: Levels, level: nat, low: int): Arc
    requires level < |L| && L[level].ClockLevel?
  {
    Arc(L[level].clock2, L[level].clock1, LowerToUpper(low))
  }

  method PushUpper(L: Levels, graph: BellmanFord, level: nat, b: int)
    requires level < |L| && L[level].ClockLevel? && Ready(L, graph, level) && b < INF
    modifies graph.Repr()
    ensures Ready(L, graph, level + 1)
    ensures graph.Stack() == old(graph.Stack()) + [UpperArc(L, level, b)]
    ensures Solutions(graph.Graph()) == Slice(L, level, old(Solutions(graph.Graph())), -INF, b)
  {
    UpperEdge(L, graph.Graph(), level, b);
    FreeAfterEdge(L, graph.Graph(), level, L[level].clock1, L[level].clock2, b);
    graph.Push(L[level].clock1, L[level].clock2, b);
  }

  method PushLower(L: Levels, graph: BellmanFord, level: nat, low: int)
    requires level < |L| && L[level].ClockLevel? && Ready(L, graph, level) && Finite(low)
    modifies graph.Repr()
    ensures Ready(L, graph, level + 1)
    ensures graph.Stack() == old(graph.Stack()) + [LowerArc(L, level, low)]
    ensures Solutions(graph.Graph()) == Slice(L, level, old(Solutions(graph.Graph())), low, INF)
    ensures !Joined(graph.Graph(), L[level].clock1, L[level].clock2)
  {
    LowerEdge(L, graph.Graph(), level, low);
    FreeAfterEdge(L, graph.Graph(), level, L[level].clock2, L[level].clock1, LowerToUpper(low));
    graph.Push(L[level].clock2, L[level].clock1, LowerToUpper(low));
  }

  /** Takes the newest constraint off again. */
  method PopTo(L: Levels, graph: BellmanFord, ghost stack: seq<Arc>, ghost top: Arc, ghost min: nat)
    requires graph.Valid() && graph.Stack() == stack + [top]
    requires LevelsOk(L, graph.dim) && Free(L, RowsOf(graph.dim, stack), min)
    modifies graph.Repr()
    ensures Ready(L, graph, min) && graph.Stack() == stack
  {
    graph.Pop();
  }

  /** On top of `stack` the graph holds the upper bound b at a level, and nothing else. */
  ghost predicate Capped(L: Levels, graph: BellmanFord, level: nat, b: int, stack: seq<Arc>)
    requires level < |L| && L[level].ClockLevel?
    reads graph.Repr()
  {
    && Ready(L, graph, level + 1)
    && graph.Stack() == stack + [UpperArc(L, level, b)]
    && Solutions(graph.Graph()) == Slice(L, level, Solutions(RowsOf(graph.dim, stack)), -INF, b)
  }

  /** Adds an upper bound and asks whether anything is left. */
  method TryUpper(L: Levels, graph: BellmanFord, level: nat, b: int) returns (ok: bool)
    requires level < |L| && L[level].ClockLevel? && Ready(L, graph, level) && Finite(b)
    modifies graph.Repr()
    ensures Capped(L, graph, level, b, old(graph.Stack()))
    ensures ok <==> Nonempty(Slice(L, level, Solutions(RowsOf(graph.dim, old(graph.Stack()))), -INF, b))
  {
    PushUpper(L, graph, level, b);
    ConsistentIsNonempty(graph.Graph());
    ok := graph.CheckConsistent();
  }

  /** Finds the first child whose upper bound the graph allows; stops early at the last child. */
  method FirstChild(L: Levels, r: Ref, graph: BellmanFord, ghost stack: seq<Arc>) returns (k: nat)
    requires r.node.CddNode? && NodeOk(L, r.node, r.node.level)
    requires Ready(L, graph, r.node.level) && graph.Stack() == stack
    modifies graph.Repr()
    ensures k < |r.node.elems|
    ensures k > 0 ==> !Nonempty(Slice(L, r.node.level, Solutions(RowsOf(graph.dim, stack)), -INF, r.node.elems[k - 1].bnd))
    ensures k < |r.node.elems| - 1 ==>
      && Capped(L, graph, r.node.level, r.node.elems[k].bnd, stack)
      && Nonempty(Slice(L, r.node.level, Solutions(RowsOf(graph.dim, stack)), -INF, r.node.elems[k].bnd))
    ensures k == |r.node.elems| - 1 ==> Ready(L, graph, r.node.level) && graph.Stack() == stack
  {
    var level, elems := r.node.level, r.node.elems;
    ghost var Z := Solutions(RowsOf(graph.dim, stack));
    k := 0;
    var ok := TryUpper(L, graph, level, elems[0].bnd);
    while !ok
      invariant k < |elems| - 1 && Capped(L, graph, level, elems[k].bnd, stack)
      invariant ok <==> Nonempty(Slice(L, level, Z, -INF, elems[k].bnd))
      invariant k > 0 ==> !Nonempty(Slice(L, level, Z, -INF, elems[k - 1].bnd))
      decreases |elems| - k, !ok
    {
      PopTo(L, graph, stack, UpperArc(L, level, elems[k].bnd), level);
      k := k + 1;
      if elems[k].bnd == INF {
        return;
      }
      assert k < |elems| - 1;
      ok := TryUpper(L, graph, level, elems[k].bnd);
    }
  }

  /** Replaces the newest constraint by a lower bound and asks whether anything is left. */
  method TryLower(L: Levels, graph: BellmanFord, level: nat, low: int, ghost stack: seq<Arc>, ghost top: Arc, ghost rows: Rows) returns (ok: bool)
    requires level < |L| && L[level].ClockLevel? && Finite(low)
    requires graph.Valid() && graph.Stack() == stack + [top]
    requires LevelsOk(L, graph.dim) && rows == RowsOf(graph.dim, stack) && Free(L, rows, level)
    modifies graph.Repr()
    ensures Ready(L, graph, level + 1) && graph.Stack() == stack + [LowerArc(L, level, low)]
    ensures Solutions(graph.Graph()) == Slice(L, level, Solutions(rows), low, INF)
    ensures !Joined(graph.Graph(), L[level].clock1, L[level].clock2)
    ensures ok <==> Nonempty(Slice(L, level, Solutions(rows), low, INF))
    ensures |rows| == graph.dim && WellFormed(rows)
  {
    PopTo(L, graph, stack, top, level);
    RowsHoldStack(graph.dim, stack);
    PushLower(L, graph, level, low);
    ConsistentIsNonempty(graph.Graph());
    ok := graph.CheckConsistent();
  }

  /**
   * Handles a child behind the first feasible one: replaces the newest constraint by the lower
   * bound of the child, checks, and if the graph allows it reduces the child below its upper bound.
   */
  method NextChild(L: Levels, r: Ref, graph: BellmanFord, k: nat, ghost stack: seq<Arc>, ghost top: Arc, ghost rows: Rows) returns (ok: bool, n: Ref)
    requires r.node.CddNode? && NodeOk(L, r.node, r.node.level) && 0 < k < |r.node.elems|
    requires graph.Valid() && graph.Stack() == stack + [top]
    requires LevelsOk(L, graph.dim) && rows == RowsOf(graph.dim, stack) && Free(L, rows, r.node.level)
    requires Nonempty(Slice(L, r.node.level, Solutions(rows), -INF, Lower(r.node.elems, k)))
    modifies graph.Repr()
    ensures graph.Valid() && graph.Stack() == stack + [LowerArc(L, r.node.level, Lower(r.node.elems, k))]
    ensures var Z := Solutions(rows);
            && (ok <==> Nonempty(Slice(L, r.node.level, Z, Lower(r.node.elems, k), INF)))
            && (ok ==> Nonempty(ChildZone(L, r.node.level, r.node.elems, k, Z)))
            && (ok ==> n == Reduce(L, NegCond(r.node.elems[k].child, r.neg), ChildZone(L, r.node.level, r.node.elems, k, Z)))
    decreases r.node, 1
  {
    n := r;
    ok := TryLower(L, graph, r.node.level, Lower(r.node.elems, k), stack, top, rows);
    if ok {
      n := ReducePiece(L, r, graph, k, rows);
    }
  }

  /** Reduces a child whose lower bound is the newest constraint. */
  method ReducePiece(L: Levels, r: Ref, graph: BellmanFord, k: nat, ghost rows: Rows) returns (n: Ref)
    requires r.node.CddNode? && NodeOk(L, r.node, r.node.level) && 0 < k < |r.node.elems|
    requires Ready(L, graph, r.node.level + 1) && |rows| == graph.dim && WellFormed(rows)
    requires Solutions(graph.Graph()) == Slice(L, r.node.level, Solutions(rows), Lower(r.node.elems, k), INF)
    requires !Joined(graph.Graph(), L[r.node.level].clock1, L[r.node.level].clock2)
    requires Nonempty(Slice(L, r.node.level, Solutions(rows), -INF, Lower(r.node.elems, k)))
    requires Nonempty(Slice(L, r.node.level, Solutions(rows), Lower(r.node.elems, k), INF))
    modifies graph.Repr()
    ensures Ready(L, graph, r.node.level + 1) && graph.Stack() == old(graph.Stack())
    ensures Nonempty(ChildZone(L, r.node.level, r.node.elems, k, Solutions(rows)))
    ensures n == Reduce(L, NegCond(r.node.elems[k].child, r.neg), ChildZone(L, r.node.level, r.node.elems, k, Solutions(rows)))
    decreases r.node, 0
  {
    NextZone(L, rows, r.node.level, Lower(r.node.elems, k), r.node.elems[k].bnd);
    n := ReduceBelow(L, NegCond(r.node.elems[k].child, r.neg), graph, r.node.level, r.node.elems[k].bnd);
  }

  /** Where the lower bound of a piece leaves room, so does the piece; it is the part below the upper bound. */
  lemma {:induction false} NextZone(L: Levels, rows: Rows, level: nat, low: int, up: int)
    requires level < |L| && L[level].ClockLevel? && LevelsOk(L, |rows|) && WellFormed(rows) && Finite(low) && (up == INF || Finite(up)) && low < up
    requires Nonempty(Slice(L, level, Solutions(rows), -INF, low)) && Nonempty(Slice(L, level, Solutions(rows), low, INF))
    ensures Nonempty(Slice(L, level, Solutions(rows), low, up))
    ensures Slice(L, level, Slice(L, level, Solutions(rows), low, INF), -INF, up) == Slice(L, level, Solutions(rows), low, up)
  {
    NextSliceNonempty(L, rows, level, low, up);
    SliceTwice(L, level, Solutions(rows), low, up);
  }

  /** Reduces a child below the upper bound of its piece, if it has one. */
  method ReduceBelow(L: Levels, child: Ref, graph: BellmanFord, level: nat, up: int) returns (n: Ref)
    requires level < |L| && L[level].ClockLevel? && NodeOk(L, child.node, level + 1)
    requires Ready(L, graph, level + 1) && !Joined(graph.Graph(), L[level].clock1, L[level].clock2)
    requires (up == INF || Finite(up)) && Nonempty(Slice(L, level, Solutions(graph.Graph()), -INF, up))
    modifies graph.Repr()
    ensures Ready(L, graph, level + 1) && graph.Stack() == old(graph.Stack())
    ensures n == Reduce(L, child, Slice(L, level, Solutions(graph.Graph()), -INF, up))
    decreases child.node, 7
  {
    ghost var stack, rows := graph.Stack(), graph.Graph();
    ConsistentIsNonempty(rows);
    if up < INF {
      UpperEdge(L, rows, level, up);
      FreeAfterEdge(L, rows, level, L[level].clock1, L[level].clock2, up);
      graph.Push(L[level].clock1, L[level].clock2, up);
      ConsistentIsNonempty(graph.Graph());
      n := ReduceRec(L, child, graph, level + 1);
      PopTo(L, graph, stack, UpperArc(L, level, up), level + 1);
    } else {
      SliceTwice(L, level, Solutions(rows), -INF, up);
      n := ReduceRec(L, child, graph, level + 1);
    }
  }

  /** Reduces child k if it is feasible, and puts the open piece on the stack if the child differs from it. */
  method KeepChild(L: Levels, r: Ref, graph: BellmanFord, k: nat, stack: seq<Elem>, m: Ref, mask: bool, ghost done: seq<Elem>,
                   ghost stack0: seq<Arc>, ghost top: Arc)
      returns (ok: bool, stack': seq<Elem>, m': Ref, ghost done': seq<Elem>)
    requires r.node.CddNode? && NodeOk(L, r.node, r.node.level) && 0 < k < |r.node.elems|
    requires graph.Valid() && graph.Stack() == stack0 + [top]
    requires LevelsOk(L, graph.dim) && Free(L, RowsOf(graph.dim, stack0), r.node.level)
    requires LoopOk(L, r, k, Solutions(RowsOf(graph.dim, stack0)), stack, m, mask, done, true)
    modifies graph.Repr()
    ensures graph.Valid() && graph.Stack() == stack0 + [LowerArc(L, r.node.level, Lower(r.node.elems, k))]
    ensures LoopOk(L, r, if ok then k + 1 else k, Solutions(RowsOf(graph.dim, stack0)), stack', m', mask, done', true)
    ensures !ok ==> ReduceItems(L, r.node, r.neg, k, Solutions(RowsOf(graph.dim, stack0))) == []
    decreases r.node, 2
  {
    ghost var Z := Solutions(RowsOf(graph.dim, stack0));
    var n;
    ok, n := NextChild(L, r, graph, k, stack0, top, RowsOf(graph.dim, stack0));
    if ok {
      stack' := if m != n then stack + [Elem(NegCond(m, mask), r.node.elems[k - 1].bnd)] else stack;
      m' := n;
      done' := done + [Elem(n, r.node.elems[k].bnd)];
      LoopNext(L, r, k, Z, stack, m, mask, done, true, n, stack', done', true);
    } else {
      stack', m', done' := stack, m, done;
      DropTail(L, r.node, r.neg, k, k, Z);
    }
  }

  /** The loop over the children from k on; the newest constraint is the bound tried last. */
  method ReduceRest(L: Levels, r: Ref, graph: BellmanFord, k0: nat, m0: Ref, ghost stack0: seq<Arc>, ghost top0: Arc) returns (m: Ref)
    requires r.node.CddNode? && NodeOk(L, r.node, r.node.level) && 0 < k0 <= |r.node.elems|
    requires graph.Valid() && graph.Stack() == stack0 + [top0]
    requires LevelsOk(L, graph.dim) && Free(L, RowsOf(graph.dim, stack0), r.node.level)
    requires LoopOk(L, r, k0, Solutions(RowsOf(graph.dim, stack0)), [], m0, m0.neg, [Elem(m0, r.node.elems[k0 - 1].bnd)], true)
    modifies graph.Repr()
    ensures Ready(L, graph, r.node.level) && graph.Stack() == stack0
    ensures m == Reduce(L, r, Solutions(RowsOf(graph.dim, stack0)))
    decreases r.node, 3
  {
    ghost var Z, top := Solutions(RowsOf(graph.dim, stack0)), top0;
    m := m0;
    var k, mask := k0, m.neg;
    var stack: seq<Elem> := [];
    ghost var done := [Elem(m, r.node.elems[k - 1].bnd)];
    var ok := true;
    while ok && k < |r.node.elems|
      invariant 0 < k <= |r.node.elems| && graph.Valid() && graph.Stack() == stack0 + [top]
      invariant LoopOk(L, r, k, Z, stack, m, mask, done, true)
      invariant !ok ==> ReduceItems(L, r.node, r.neg, k, Z) == []
      decreases ok, |r.node.elems| - k
    {
      ok, stack, m, done := KeepChild(L, r, graph, k, stack, m, mask, done, stack0, top);
      top := LowerArc(L, r.node.level, Lower(r.node.elems, k));
      k := if ok then k + 1 else k;
    }
    PopTo(L, graph, stack0, top, r.node.level);
    ProgressDone(L, r, k, Z, stack, m, mask, done, true);
    stack := stack + [Elem(NegCond(m, mask), INF)];
    m := NegCond(MakeNode(r.node.level, stack), mask);
  }

  /** Reduces a clock node: finds its first feasible child, reduces it, and goes on from there. */
  method ReduceClock(L: Levels, r: Ref, graph: BellmanFord) returns (m: Ref)
    requires r.node.CddNode? && NodeOk(L, r.node, r.node.level)
    requires Ready(L, graph, r.node.level) && Consistent(graph.Graph())
    modifies graph.Repr()
    ensures Ready(L, graph, r.node.level) && graph.Stack() == old(graph.Stack())
    ensures m == Reduce(L, r, Solutions(graph.Graph()))
    decreases r.node, 5
  {
    ghost var stack, rows := graph.Stack(), graph.Graph();
    var k := FirstChild(L, r, graph, stack);
    if k == |r.node.elems| - 1 {
      m := ReduceLast(L, r, graph, k);
    } else {
      m := ReduceFrom(L, r, graph, k, stack);
    }
  }

  /** Only the last child is feasible: it stands for the node. */
  method ReduceLast(L: Levels, r: Ref, graph: BellmanFord, k: nat) returns (m: Ref)
    requires r.node.CddNode? && NodeOk(L, r.node, r.node.level) && k == |r.node.elems| - 1
    requires Ready(L, graph, r.node.level) && Consistent(graph.Graph())
    requires !Nonempty(Slice(L, r.node.level, Solutions(graph.Graph()), -INF, r.node.elems[k - 1].bnd))
    modifies graph.Repr()
    ensures Ready(L, graph, r.node.level) && graph.Stack() == old(graph.Stack())
    ensures m == Reduce(L, r, Solutions(graph.Graph()))
    decreases r.node, 4
  {
    ConsistentIsNonempty(graph.Graph());
    LastChildOnly(L, r, Solutions(graph.Graph()));
    m := ReduceRec(L, NegCond(r.node.elems[k].child, r.neg), graph, r.node.level + 1);
  }

  /** Goes on from the first feasible child, whose upper bound is the newest constraint. */
  method ReduceFrom(L: Levels, r: Ref, graph: BellmanFord, k: nat, ghost stack: seq<Arc>) returns (m: Ref)
    requires r.node.CddNode? && NodeOk(L, r.node, r.node.level) && k < |r.node.elems| - 1
    requires LevelsOk(L, graph.dim) && Free(L, RowsOf(graph.dim, stack), r.node.level)
    requires k > 0 ==> !Nonempty(Slice(L, r.node.level, Solutions(RowsOf(graph.dim, stack)), -INF, r.node.elems[k - 1].bnd))
    requires Capped(L, graph, r.node.level, r.node.elems[k].bnd, stack)
    requires Nonempty(Slice(L, r.node.level, Solutions(RowsOf(graph.dim, stack)), -INF, r.node.elems[k].bnd))
    modifies graph.Repr()
    ensures Ready(L, graph, r.node.level) && graph.Stack() == stack
    ensures m == Reduce(L, r, Solutions(RowsOf(graph.dim, stack)))
    decreases r.node, 4
  {
    m := ReduceFirst(L, r, graph, k, stack);
    KeptFirst(L, r, k, Solutions(RowsOf(graph.dim, stack)), m);
    ProgressFirst(r, k, m, true);
    m := ReduceRest(L, r, graph, k + 1, m, stack, UpperArc(L, r.node.level, r.node.elems[k].bnd));
  }

  /** Reduces the first feasible child, whose upper bound is the newest constraint. */
  method ReduceFirst(L: Levels, r: Ref, graph: BellmanFord, k: nat, ghost stack: seq<Arc>) returns (m: Ref)
    requires r.node.CddNode? && NodeOk(L, r.node, r.node.level) && k < |r.node.elems| - 1
    requires k > 0 ==> !Nonempty(Slice(L, r.node.level, Solutions(RowsOf(graph.dim, stack)), -INF, r.node.elems[k - 1].bnd))
    requires Capped(L, graph, r.node.level, r.node.elems[k].bnd, stack)
    requires Nonempty(Slice(L, r.node.level, Solutions(RowsOf(graph.dim, stack)), -INF, r.node.elems[k].bnd))
    modifies graph.Repr()
    ensures Ready(L, graph, r.node.level + 1) && graph.Stack() == stack + [UpperArc(L, r.node.level, r.node.elems[k].bnd)]
    ensures Nonempty(ChildZone(L, r.node.level, r.node.elems, k, Solutions(RowsOf(graph.dim, stack))))
    ensures m == Reduce(L, NegCond(r.node.elems[k].child, r.neg), ChildZone(L, r.node.level, r.node.elems, k, Solutions(RowsOf(graph.dim, stack))))
    decreases r.node, 0
  {
    ConsistentIsNonempty(graph.Graph());
    FrontZone(L, r.node.level, r.node.elems, k, Solutions(RowsOf(graph.dim, stack)));
    m := ReduceRec(L, NegCond(r.node.elems[k].child, r.neg), graph, r.node.level + 1);
  }

  /** The diagram r, reduced under the constraints on the graph, which is left as it was. */
  method ReduceRec(L: Levels, r: Ref, graph: BellmanFord, ghost min: nat) returns (m: Ref)
    requires NodeOk(L, r.node, min) && Ready(L, graph, min) && Consistent(graph.Graph())
    modifies graph.Repr()
    ensures Ready(L, graph, min) && graph.Stack() == old(graph.Stack())
    ensures m == Reduce(L, r, Solutions(graph.Graph()))
    decreases r.node, 6
  {
    match r.node
    case Terminal => m := r;
    case BddNode(level, low, high) =>
      var n := ReduceRec(L, NegCond(low, r.neg), graph, level + 1);
      m := ReduceRec(L, NegCond(high, r.neg), graph, level + 1);
      m := MakeBool(level, n, m);
    case CddNode(level, elems) =>
      m := ReduceClock(L, r, graph);
  }

  /** The reference reduction computes the very same diagram as cdd_reduce. */
  method CddBfReduce(L: Levels, dim: nat, r: Ref) returns (m: Ref)
    requires dim > 0 && LevelsOk(L, dim) && Normal(L, r)
    ensures m == Reduce(L, r, AllClocks(dim))
    ensures ReducedForm(L, dim, r, m)
  {
    var graph := new BellmanFord(dim);
    EmptyGraph(L, graph.Graph(), dim);
    m := ReduceRec(L, r, graph, 0);
    ReduceForm(L, dim, r);
  }
}
