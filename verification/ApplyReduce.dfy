/**
 * cdd_apply_reduce: combines two diagrams and reduces the result on the way, pruning every path
 * the constraint graph rules out before it is explored.
 */
module ApplyReduction {
  import opened Bounds
  import opened ConstraintGraph
  import opened Diagrams
  import opened Reduction
  import opened Zones
  import opened Pieces
  import opened Apply
  import opened TarjanGraph
  import opened TarjanReduction

  /** In Z the diagram res is l combined with r, it is in normal form, all its paths are feasible, and it has no new bound. */
  ghost predicate Combined(L: Levels, Z: Zone, min: nat, res: Ref, op: Op, l: Ref, r: Ref)
  {
    NodeOk(L, res.node, min) && Feasible(L, res.node, Z) && DenotesIn(L, Z, res, op, l, r) && NoNewBounds(res, l, r)
  }

  // ----- Feasible pieces

  /** Every result can be reached by some clock vector between its bounds. */
  ghost predicate FeasibleAll(L: Levels, Z: Zone, level: nat, done: seq<Elem>)
  {
    done == [] ||
    var init := done[..|done| - 1];
    FeasibleAll(L, Z, level, init) && Feasible(L, done[|done| - 1].child.node, Slice(L, level, Z, Lower(done, |init|), done[|init|].bnd))
  }

  lemma {:induction false} FeasibleAppend(L: Levels, Z: Zone, level: nat, done: seq<Elem>, e: Elem)
    requires FeasibleAll(L, Z, level, done)
    requires Feasible(L, e.child.node, Slice(L, level, Z, if done == [] then -INF else done[|done| - 1].bnd, e.bnd))
    ensures FeasibleAll(L, Z, level, done + [e])
  {
    assert (done + [e])[..|done|] == done;
  }

  lemma {:induction false} FeasibleAt(L: Levels, Z: Zone, level: nat, done: seq<Elem>, t: nat)
    requires FeasibleAll(L, Z, level, done) && t < |done|
    ensures Feasible(L, done[t].child.node, Slice(L, level, Z, Lower(done, t), done[t].bnd))
  {
    if t < |done| - 1 { FeasibleAt(L, Z, level, done[..|done| - 1], t); }
  }

  /** A merged and sealed piece reaches at least as far as the piece its child came from. */
  lemma {:induction false} MergedFeasible(L: Levels, Z: Zone, level: nat, done: seq<Elem>)
    requires done != [] && Nonempty(Z) && Increasing(done) && FeasibleAll(L, Z, level, done)
    requires done[|done| - 1].bnd <= INF && forall k :: 0 <= k < |done| - 1 ==> Finite(done[k].bnd)
    ensures Feasible(L, MakeClock(level, Seal(Merge(done))).node, Z)
  {
    var es := Seal(Merge(done));
    forall q | 0 <= q < |es| ensures Feasible(L, es[q].child.node, ChildZone(L, level, es, q, Z)) {
      MergeIncreasing(done);
      var t := MergeOrigin(done, q);
      PieceWithin(L, Z, level, done, q, t);
      FeasibleAt(L, Z, level, done, t);
      FeasibleMonotone(L, es[q].child.node, Slice(L, level, Z, Lower(done, t), done[t].bnd), ChildZone(L, level, es, q, Z));
    }
    FeasiblePieces(L, level, es, Z);
  }

  lemma {:induction false} PieceWithin(L: Levels, Z: Zone, level: nat, done: seq<Elem>, q: nat, t: nat)
    requires done != [] && q < |Merge(done)| && t < |done| && Merge(done)[q] == done[t]
    requires q > 0 ==> t > 0 && Merge(done)[q - 1].bnd <= done[t - 1].bnd
    requires done[|done| - 1].bnd <= INF && forall k :: 0 <= k < |done| - 1 ==> Finite(done[k].bnd)
    ensures var es := Seal(Merge(done));
            q < |es| && es[q].child == done[t].child
            && Slice(L, level, Z, Lower(done, t), done[t].bnd) <= ChildZone(L, level, es, q, Z)
  {
    var es := Seal(Merge(done));
    forall x | x in Slice(L, level, Z, Lower(done, t), done[t].bnd) ensures x in ChildZone(L, level, es, q, Z) {
      var d := DiffAt(L, level, x);
      if q > 0 {
        assert Lower(es, q) == Merge(done)[q - 1].bnd;
        if MeetsUpper(d, Lower(es, q)) { UpperMonotone(d, Lower(es, q), Lower(done, t)); }
      }
    }
  }

  // ----- The loop over the pieces of both operands

  /** The results up to `up` are on the stack, the last one open; each is feasible, together they cover Z up to there. */
  ghost predicate Held(L: Levels, Z: Zone, level: nat, op: Op, l: Ref, r: Ref, up: int, stack: seq<Elem>, prev: Ref, mask: bool, done: seq<Elem>)
  {
    && StackOk(stack, prev, mask, done) && Covers(L, Z, level, op, l, r, done, up)
    && FeasibleAll(L, Z, level, done) && Nonempty(Slice(L, level, Z, -INF, up)) && -INF < up && Within(level, l, r, done)
  }

  lemma {:induction false} HeldFirst(L: Levels, Z: Zone, level: nat, op: Op, l: Ref, r: Ref, a: seq<Elem>, b: seq<Elem>,
                                     i: nat, j: nat, low: int, n: Ref)
    requires Operands(L, level, l, r, a, b) && Aligned(a, b, i, j, low)
    requires low == -INF || !Nonempty(Slice(L, level, Z, -INF, low))
    requires Combined(L, Slice(L, level, Z, -INF, Minimum(a[i].bnd, b[j].bnd)), level + 1, n, op, a[i].child, b[j].child)
    requires Nonempty(Slice(L, level, Z, -INF, Minimum(a[i].bnd, b[j].bnd)))
    ensures var up := Minimum(a[i].bnd, b[j].bnd);
            Held(L, Z, level, op, l, r, up, [], n, n.neg, [Elem(n, up)])
  {
    OperandsOk(L, level, l, r, a, b);
    AlignedNext(a, b, i, j, low);
    StackFirst(n, Minimum(a[i].bnd, b[j].bnd));
    CoversFirst(L, Z, level, op, l, r, a, b, i, j, low, n);
    assert [] + [Elem(n, Minimum(a[i].bnd, b[j].bnd))] == [Elem(n, Minimum(a[i].bnd, b[j].bnd))];
    FeasibleAppend(L, Z, level, [], Elem(n, Minimum(a[i].bnd, b[j].bnd)));
    WithinNext(level, l, r, a, b, i, j, [], n);
  }

  lemma {:induction false} HeldNext(L: Levels, Z: Zone, level: nat, op: Op, l: Ref, r: Ref, a: seq<Elem>, b: seq<Elem>,
                                    i: nat, j: nat, low: int, stack: seq<Elem>, prev: Ref, mask: bool, done: seq<Elem>, n: Ref, stack': seq<Elem>)
    requires Operands(L, level, l, r, a, b) && Aligned(a, b, i, j, low) && Finite(low)
    requires Held(L, Z, level, op, l, r, low, stack, prev, mask, done)
    requires Combined(L, Slice(L, level, Z, low, Minimum(a[i].bnd, b[j].bnd)), level + 1, n, op, a[i].child, b[j].child)
    requires stack' == if n != prev then stack + [Elem(NegCond(prev, mask), low)] else stack
    ensures var up := Minimum(a[i].bnd, b[j].bnd);
            Held(L, Z, level, op, l, r, up, stack', n, mask, done + [Elem(n, up)])
  {
    var up := Minimum(a[i].bnd, b[j].bnd);
    OperandsOk(L, level, l, r, a, b);
    AlignedNext(a, b, i, j, low);
    CoversNext(L, Z, level, op, l, r, a, b, i, j, low, done, n);
    StackPush(stack, prev, mask, done, low, n, up);
    FeasibleAppend(L, Z, level, done, Elem(n, up));
    SliceGrows(L, level, Z, low, up);
    WithinNext(level, l, r, a, b, i, j, done, n);
  }

  lemma {:induction false} SliceGrows(L: Levels, level: nat, Z: Zone, low: int, up: int)
    requires low <= up <= INF && Nonempty(Slice(L, level, Z, -INF, low))
    ensures Nonempty(Slice(L, level, Z, -INF, up))
  {
    var x :| x in Slice(L, level, Z, -INF, low);
    UpperMonotone(DiffAt(L, level, x), low, up);
    Witnessed(x, Slice(L, level, Z, -INF, up));
  }

  lemma {:induction false} HeldDone(L: Levels, Z: Zone, level: nat, op: Op, l: Ref, r: Ref, up: int, stack: seq<Elem>, prev: Ref, mask: bool, done: seq<Elem>)
    requires level < |L| && L[level].ClockLevel? && Held(L, Z, level, op, l, r, up, stack, prev, mask, done)
    requires up == INF || !Nonempty(Slice(L, level, Z, up, INF))
    ensures Combined(L, Z, level, NegCond(MakeNode(level, stack + [Elem(NegCond(prev, mask), INF)]), mask), op, l, r)
  {
    StackDone(level, stack, prev, mask, done);
    CoversDone(L, Z, level, op, l, r, done, up);
    var x :| x in Slice(L, level, Z, -INF, up);
    Witnessed(x, Z);
    MergedFeasible(L, Z, level, done);
    WithinDone(level, l, r, done);
  }

  /** When all other pairs of pieces lie below the zone, the operands act like their last children. */
  lemma {:induction false} LastPairOnly(L: Levels, Z: Zone, level: nat, op: Op, l: Ref, r: Ref, a: seq<Elem>, b: seq<Elem>,
                                        i: nat, j: nat, low: int, n: Ref)
    requires Operands(L, level, l, r, a, b) && Aligned(a, b, i, j, low) && Minimum(a[i].bnd, b[j].bnd) == INF
    requires low == -INF || !Nonempty(Slice(L, level, Z, -INF, low))
    requires Combined(L, Z, level + 1, n, op, a[i].child, b[j].child)
    ensures Combined(L, Z, level, n, op, l, r)
  {
    NodeOkWeaken(L, n.node, level, level + 1);
    forall x: nat, B: iset<int> | BoundsIn(l.node, x, B) && BoundsIn(r.node, x, B) ensures BoundsIn(n.node, x, B) {
      KidsWithin(l, level, x, B);
      KidsWithin(r, level, x, B);
    }
    forall v: Valuation | v.clocks in Z ensures Eval(L, n, v) == Combine(op, Eval(L, l, v), Eval(L, r, v)) {
      if low != -INF { Witnessed(v.clocks, Slice(L, level, Z, -INF, low)); }
      AlignedMeaning(L, level, l, r, a, b, i, j, low, INF, v);
    }
  }

  lemma {:induction false} BoolCombined(L: Levels, Z: Zone, level: nat, op: Op, l: Ref, r: Ref, low: Ref, high: Ref)
    requires NodeOk(L, l.node, level) && NodeOk(L, r.node, level) && level < |L| && L[level].BoolLevel?
    requires Combined(L, Z, level + 1, low, op, LowAt(l, level), LowAt(r, level))
    requires Combined(L, Z, level + 1, high, op, HighAt(l, level), HighAt(r, level))
    ensures Combined(L, Z, level, MakeBool(level, low, high), op, l, r)
  {
    BoolDenotes(L, Z, level, op, l, r, low, high);
    NoNewBool(level, l, r, low, high);
    MakeBoolOk(L, level, low, high);
  }

  // ----- The recursion

  /** Reduces one operand that stands for the whole result. */
  method ReduceOperand(ops: Operators, op: Op, l: Ref, r: Ref, only: Ref, graph: Tarjan, ghost min: nat) returns (res: Ref)
    requires Ready(ops.L, graph, min) && Consistent(graph.rows)
    requires NodeOk(ops.L, only.node, min) && Denotes(ops.L, only, op, l, r)
    modifies graph.Repr()
    ensures Ready(ops.L, graph, min) && graph.rows == old(graph.rows)
    ensures Combined(ops.L, Solutions(graph.rows), min, res, op, l, r)
  {
    ghost var Z := Solutions(graph.rows);
    ConsistentIsNonempty(graph.rows);
    DenotesReal(ops.L, only, op, l, r);
    res := ReduceRec(ops.L, only, graph, min);
    ReduceOk(ops.L, only, min, Z);
    ReduceFeasible(ops.L, only, min, Z);
    forall x: nat, B: iset<int> | BoundsIn(l.node, x, B) && BoundsIn(r.node, x, B) ensures BoundsIn(res.node, x, B) {
      ReduceBounds(ops.L, only, Z, x, B);
    }
    forall v: Valuation | v.clocks in Z
      ensures Eval(ops.L, res, v) == Combine(op, Eval(ops.L, l, v), Eval(ops.L, r, v))
    {
      ReduceMeaning(ops.L, only, min, Z, v);
      assert v.clocks in Everywhere();
    }
  }

  /** Combines and reduces under the constraints on the graph, which is left as it was. */
  method ApplyReduceRec(ops: Operators, op: Op, l0: Ref, r0: Ref, graph: Tarjan, ghost min: nat) returns (res: Ref)
    requires ops.Valid() && Ready(ops.L, graph, min) && Consistent(graph.rows)
    requires NodeOk(ops.L, l0.node, min) && NodeOk(ops.L, r0.node, min)
    modifies graph.Repr()
    ensures Ready(ops.L, graph, min) && graph.rows == old(graph.rows)
    ensures Combined(ops.L, Solutions(graph.rows), min, res, op, l0, r0)
    decreases |ops.L| - min, 2
  {
    ImmediateOk(ops.L, op, l0, r0, min);
    var quick := Immediate(op, l0, r0);
    if quick.Known? {
      res := ReduceOperand(ops, op, l0, r0, quick.res, graph, min);
      return;
    }
    var l, r := l0, r0;
    if ops.before(r, l) {
      l, r := r, l;
    }
    var slot := ops.hash(l, r, op) % ops.table.Length;
    var entry := ops.table[slot];
    if entry.Entry? && entry.a == l && entry.b == r && entry.c == op {
      assert Truthful(ops.L, ops.table[slot]);
      res := ReduceOperand(ops, op, l, r, entry.res, graph, min);
    } else {
      res := ApplyReduceNode(ops, op, l, r, graph, min);
    }
    if l != l0 { DenotesSwap(ops.L, Solutions(graph.rows), res, op, l0, r0); }
  }

  method ApplyReduceNode(ops: Operators, op: Op, l: Ref, r: Ref, graph: Tarjan, ghost min: nat) returns (res: Ref)
    requires ops.Valid() && Ready(ops.L, graph, min) && Consistent(graph.rows)
    requires NodeOk(ops.L, l.node, min) && NodeOk(ops.L, r.node, min)
    requires !l.node.Terminal? && !r.node.Terminal?
    modifies graph.Repr()
    ensures Ready(ops.L, graph, min) && graph.rows == old(graph.rows)
    ensures Combined(ops.L, Solutions(graph.rows), min, res, op, l, r)
    decreases |ops.L| - min, 1
  {
    var L, level := ops.L, Minimum(LevelOf(ops.L, l.node), LevelOf(ops.L, r.node));
    StartsAt(L, l.node, min, level);
    StartsAt(L, r.node, min, level);
    match L[level] {
      case ClockLevel(_, _) =>
        OperandsOk(L, level, l, r, Kids(l, level), Kids(r, level));
        res := ApplyReduceClock(ops, op, l, r, graph, level);
      case BoolLevel =>
        res := ApplyReduceBool(ops, op, l, r, graph, level);
    }
    NodeOkWeaken(L, res.node, min, level);
  }

  method ApplyReduceBool(ops: Operators, op: Op, l: Ref, r: Ref, graph: Tarjan, level: nat) returns (res: Ref)
    requires ops.Valid() && level < |ops.L| && ops.L[level].BoolLevel?
    requires Ready(ops.L, graph, level) && Consistent(graph.rows)
    requires NodeOk(ops.L, l.node, level) && NodeOk(ops.L, r.node, level)
    modifies graph.Repr()
    ensures Ready(ops.L, graph, level) && graph.rows == old(graph.rows)
    ensures Combined(ops.L, Solutions(graph.rows), level, res, op, l, r)
    decreases |ops.L| - level, 0
  {
    BoolChildren(ops.L, l, level);
    BoolChildren(ops.L, r, level);
    var n := ApplyReduceRec(ops, op, LowAt(l, level), LowAt(r, level), graph, level + 1);
    res := ApplyReduceRec(ops, op, HighAt(l, level), HighAt(r, level), graph, level + 1);
    BoolCombined(ops.L, Solutions(graph.rows), level, op, l, r, n, res);
    res := MakeBool(level, n, res);
  }

  /** Combines two children below an upper bound of their level, if there is one. */
  method ApplyBelow(ops: Operators, op: Op, l: Ref, r: Ref, graph: Tarjan, level: nat, up: int) returns (n: Ref)
    requires ops.Valid() && level < |ops.L| && ops.L[level].ClockLevel?
    requires NodeOk(ops.L, l.node, level + 1) && NodeOk(ops.L, r.node, level + 1)
    requires Ready(ops.L, graph, level + 1) && !Joined(graph.rows, ops.L[level].clock1, ops.L[level].clock2)
    requires (up == INF || Finite(up)) && Nonempty(Slice(ops.L, level, Solutions(graph.rows), -INF, up))
    modifies graph.Repr()
    ensures Ready(ops.L, graph, level + 1) && graph.rows == old(graph.rows)
    ensures Combined(ops.L, Slice(ops.L, level, Solutions(graph.rows), -INF, up), level + 1, n, op, l, r)
    decreases |ops.L| - level - 1, 3
  {
    ghost var rows := graph.rows;
    ConsistentIsNonempty(rows);
    if up < INF {
      UpperEdge(ops.L, rows, level, up);
      FreeAfterEdge(ops.L, rows, level, ops.L[level].clock1, ops.L[level].clock2, up);
      graph.Push(ops.L[level].clock1, ops.L[level].clock2, up);
      ConsistentIsNonempty(graph.rows);
      n := ApplyReduceRec(ops, op, l, r, graph, level + 1);
      graph.Pop(ops.L[level].clock1);
      assert graph.rows == rows;
    } else {
      SliceTwice(ops.L, level, Solutions(rows), -INF, up);
      n := ApplyReduceRec(ops, op, l, r, graph, level + 1);
    }
  }

  /**
   * Skips the pairs of pieces that lie wholly below the zone.  Stops with the upper bound of the
   * first other pair on the graph, or at the last pair with the graph as it was.
   */
  method FirstPieces(L: Levels, level: nat, lp: seq<Elem>, rp: seq<Elem>, graph: Tarjan, ghost rows: Rows)
      returns (i: nat, j: nat, bnd: int, ghost low: int)
    requires level < |L| && L[level].ClockLevel? && Ready(L, graph, level) && graph.rows == rows
    requires Cuts(lp) && Cuts(rp) && (|lp| > 1 || |rp| > 1)
    modifies graph.Repr()
    ensures Aligned(lp, rp, i, j, low) && bnd == Minimum(lp[i].bnd, rp[j].bnd) && (bnd == INF || Finite(bnd))
    ensures low == -INF || (Finite(low) && !Nonempty(Slice(L, level, Solutions(rows), -INF, low)))
    ensures bnd < INF ==> Capped(L, graph, level, bnd, rows)
    ensures bnd == INF ==> Ready(L, graph, level) && graph.rows == rows
  {
    i, j, low := 0, 0, -INF;
    AlignedStart(lp, rp);
    AlignedNext(lp, rp, i, j, low);
    bnd := Minimum(lp[i].bnd, rp[j].bnd);
    assert bnd < INF by {
      if |lp| > 1 { assert lp[0].bnd < lp[|lp| - 1].bnd; } else { assert rp[0].bnd < rp[|rp| - 1].bnd; }
    }
    var ok := TryUpper(L, graph, level, bnd);
    while !ok
      invariant Aligned(lp, rp, i, j, low) && bnd == Minimum(lp[i].bnd, rp[j].bnd) && low < bnd && Finite(bnd)
      invariant low == -INF || (Finite(low) && !Nonempty(Slice(L, level, Solutions(rows), -INF, low)))
      invariant Ready(L, graph, level + 1)
      invariant graph.rows == WithEdge(rows, L[level].clock1, L[level].clock2, bnd)
      invariant Solutions(graph.rows) == Slice(L, level, Solutions(rows), -INF, bnd)
      invariant ok <==> Nonempty(Solutions(graph.rows))
      decreases INF - bnd, !ok
    {
      graph.Pop(L[level].clock1);
      assert graph.rows == rows;
      AlignedNext(lp, rp, i, j, low);
      i, j, low := if lp[i].bnd == bnd then i + 1 else i, if rp[j].bnd == bnd then j + 1 else j, bnd;
      AlignedNext(lp, rp, i, j, low);
      bnd := Minimum(lp[i].bnd, rp[j].bnd);
      if bnd == INF {
        return;
      }
      ok := TryUpper(L, graph, level, bnd);
    }
  }

  /**
   * Combines the pair of pieces between low and up.  The lower bound is on the graph, the upper
   * one is pushed without another check; both are gone afterwards.
   */
  method NextPiece(ops: Operators, op: Op, l: Ref, r: Ref, graph: Tarjan, level: nat, low: int, up: int, ghost rows: Rows) returns (n: Ref)
    requires ops.Valid() && level < |ops.L| && ops.L[level].ClockLevel?
    requires NodeOk(ops.L, l.node, level + 1) && NodeOk(ops.L, r.node, level + 1)
    requires Finite(low) && low < up && (up == INF || Finite(up))
    requires |rows| == graph.dim && WellFormed(rows) && LevelsOk(ops.L, |rows|) && Free(ops.L, rows, level)
    requires Nonempty(Slice(ops.L, level, Solutions(rows), -INF, low))
    requires Lowered(ops.L, graph, level, low, rows) && Nonempty(Solutions(graph.rows))
    modifies graph.Repr()
    ensures Lowered(ops.L, graph, level, low, rows)
    ensures Combined(ops.L, Slice(ops.L, level, Solutions(rows), low, up), level + 1, n, op, l, r)
    decreases |ops.L| - level - 1, 4
  {
    NextSliceNonempty(ops.L, rows, level, low, up);
    SliceTwice(ops.L, level, Solutions(rows), low, up);
    n := ApplyBelow(ops, op, l, r, graph, level, up);
  }

  /** On top of `rows` the graph holds the lower bound low at a level, and nothing else. */
  ghost predicate Lowered(L: Levels, graph: Tarjan, level: nat, low: int, rows: Rows)
    requires level < |L| && L[level].ClockLevel?
    reads graph.Repr()
  {
    && Ready(L, graph, level + 1) && |rows| == graph.dim
    && graph.rows == WithEdge(rows, L[level].clock2, L[level].clock1, LowerToUpper(low))
    && Solutions(graph.rows) == Slice(L, level, Solutions(rows), low, INF)
    && !Joined(graph.rows, L[level].clock1, L[level].clock2)
  }

  /** Takes the lower bound off again. */
  method PopLower(L: Levels, graph: Tarjan, level: nat, ghost low: int, ghost rows: Rows)
    requires level < |L| && L[level].ClockLevel? && Lowered(L, graph, level, low, rows)
    requires LevelsOk(L, |rows|) && Free(L, rows, level)
    modifies graph.Repr()
    ensures Ready(L, graph, level) && graph.rows == rows
  {
    graph.Pop(L[level].clock2);
    assert graph.rows == rows;
  }

  /**
   * Handles the pair of pieces right above `lower`: pushes the lower bound, checks, and if the
   * graph allows it combines the pair and puts the open piece on the stack if the result differs.
   */
  method NextPair(ops: Operators, op: Op, l: Ref, r: Ref, graph: Tarjan, level: nat, lp: seq<Elem>, rp: seq<Elem>, i: nat, j: nat, lower: int,
                  stack: seq<Elem>, prev: Ref, mask: bool, ghost done: seq<Elem>, ghost rows: Rows)
      returns (ok: bool, stack': seq<Elem>, prev': Ref, ghost done': seq<Elem>)
    requires ops.Valid() && Operands(ops.L, level, l, r, lp, rp) && Aligned(lp, rp, i, j, lower) && Finite(lower)
    requires Ready(ops.L, graph, level) && graph.rows == rows
    requires Held(ops.L, Solutions(rows), level, op, l, r, lower, stack, prev, mask, done)
    modifies graph.Repr()
    ensures Ready(ops.L, graph, level) && graph.rows == rows
    ensures Held(ops.L, Solutions(rows), level, op, l, r, if ok then Minimum(lp[i].bnd, rp[j].bnd) else lower, stack', prev', mask, done')
    ensures !ok ==> !Nonempty(Slice(ops.L, level, Solutions(rows), lower, INF))
    decreases |ops.L| - level - 1, 6
  {
    var n := prev;
    ok, n := TryPair(ops, op, l, r, graph, level, lp, rp, i, j, lower, rows);
    stack', prev', done' := stack, prev, done;
    if ok {
      prev' := n;
      stack' := if prev' != prev then stack + [Elem(NegCond(prev, mask), lower)] else stack;
      done' := done + [Elem(prev', Minimum(lp[i].bnd, rp[j].bnd))];
      HeldNext(ops.L, Solutions(rows), level, op, l, r, lp, rp, i, j, lower, stack, prev, mask, done, prev', stack');
    }
  }

  /** Pushes the lower bound of a pair, and combines the pair if anything is left. */
  method TryPair(ops: Operators, op: Op, ghost l: Ref, ghost r: Ref, graph: Tarjan, level: nat, lp: seq<Elem>, rp: seq<Elem>, i: nat, j: nat,
                 lower: int, ghost rows: Rows) returns (ok: bool, n: Ref)
    requires ops.Valid() && Operands(ops.L, level, l, r, lp, rp) && Aligned(lp, rp, i, j, lower) && Finite(lower)
    requires Ready(ops.L, graph, level) && graph.rows == rows && Nonempty(Slice(ops.L, level, Solutions(rows), -INF, lower))
    modifies graph.Repr()
    ensures Ready(ops.L, graph, level) && graph.rows == rows
    ensures !ok ==> !Nonempty(Slice(ops.L, level, Solutions(rows), lower, INF))
    ensures ok ==> Combined(ops.L, Slice(ops.L, level, Solutions(rows), lower, Minimum(lp[i].bnd, rp[j].bnd)), level + 1, n, op, lp[i].child, rp[j].child)
    decreases |ops.L| - level - 1, 5
  {
    ok := TryLower(ops.L, graph, level, lower);
    n := FALSE;
    if ok {
      PairOk(ops.L, level, l, r, lp, rp, i, j, lower);
      n := NextPiece(ops, op, lp[i].child, rp[j].child, graph, level, lower, Minimum(lp[i].bnd, rp[j].bnd), rows);
    }
    PopLower(ops.L, graph, level, lower, rows);
  }

  /** One pair, and the step to the next if there is one. */
  method CombineStep(ops: Operators, op: Op, l: Ref, r: Ref, graph: Tarjan, level: nat, lp: seq<Elem>, rp: seq<Elem>, i: nat, j: nat, lower: int,
                     stack: seq<Elem>, prev: Ref, mask: bool, ghost done: seq<Elem>, ghost rows: Rows)
      returns (more: bool, i': nat, j': nat, lower': int, stack': seq<Elem>, prev': Ref, ghost done': seq<Elem>)
    requires ops.Valid() && Operands(ops.L, level, l, r, lp, rp) && Aligned(lp, rp, i, j, lower) && Finite(lower)
    requires Ready(ops.L, graph, level) && graph.rows == rows
    requires Held(ops.L, Solutions(rows), level, op, l, r, lower, stack, prev, mask, done)
    modifies graph.Repr()
    ensures Ready(ops.L, graph, level) && graph.rows == rows
    ensures Held(ops.L, Solutions(rows), level, op, l, r, lower', stack', prev', mask, done')
    ensures more ==> Aligned(lp, rp, i', j', lower') && Finite(lower') && lower < lower' < INF
    ensures !more ==> lower' == INF || !Nonempty(Slice(ops.L, level, Solutions(rows), lower', INF))
    decreases |ops.L| - level - 1, 7
  {
    var ok;
    i', j', lower' := i, j, lower;
    ok, stack', prev', done' := NextPair(ops, op, l, r, graph, level, lp, rp, i, j, lower, stack, prev, mask, done, rows);
    PairOk(ops.L, level, l, r, lp, rp, i, j, lower);
    if ok {
      lower' := Minimum(lp[i].bnd, rp[j].bnd);
      if lower' < INF {
        i', j' := if lp[i].bnd == lower' then i + 1 else i, if rp[j].bnd == lower' then j + 1 else j;
      }
    }
    more := ok && lower' < INF;
  }

  /** The loop over the pairs of pieces behind the first feasible one. */
  method CombineRest(ops: Operators, op: Op, l: Ref, r: Ref, graph: Tarjan, level: nat, lp: seq<Elem>, rp: seq<Elem>,
                     i0: nat, j0: nat, lower0: int, first: Ref, ghost rows: Rows) returns (res: Ref)
    requires ops.Valid() && Operands(ops.L, level, l, r, lp, rp) && Aligned(lp, rp, i0, j0, lower0) && Finite(lower0)
    requires Ready(ops.L, graph, level) && graph.rows == rows
    requires Held(ops.L, Solutions(rows), level, op, l, r, lower0, [], first, first.neg, [Elem(first, lower0)])
    modifies graph.Repr()
    ensures Ready(ops.L, graph, level) && graph.rows == rows
    ensures Combined(ops.L, Solutions(rows), level, res, op, l, r)
    decreases |ops.L| - level - 1, 8
  {
    var i: nat, j: nat, lower, prev, mask := i0, j0, lower0, first, first.neg;
    var stack: seq<Elem> := [];
    ghost var done := [Elem(first, lower)];
    var more := true;
    while more
      invariant Ready(ops.L, graph, level) && graph.rows == rows
      invariant Held(ops.L, Solutions(rows), level, op, l, r, lower, stack, prev, mask, done)
      invariant more ==> Aligned(lp, rp, i, j, lower) && Finite(lower)
      invariant !more ==> lower == INF || !Nonempty(Slice(ops.L, level, Solutions(rows), lower, INF))
      decreases more, INF - lower
    {
      more, i, j, lower, stack, prev, done :=
        CombineStep(ops, op, l, r, graph, level, lp, rp, i, j, lower, stack, prev, mask, done, rows);
    }
    HeldDone(ops.L, Solutions(rows), level, op, l, r, lower, stack, prev, mask, done);
    stack := stack + [Elem(NegCond(prev, mask), INF)];
    res := NegCond(MakeNode(level, stack), mask);
  }

  /** On top of `rows` the graph holds the upper bound b at a level, and some clock vector is left. */
  ghost predicate Capped(L: Levels, graph: Tarjan, level: nat, b: int, rows: Rows)
    requires level < |L| && L[level].ClockLevel?
    reads graph.Repr()
  {
    && Ready(L, graph, level + 1) && |rows| == graph.dim
    && graph.rows == WithEdge(rows, L[level].clock1, L[level].clock2, b)
    && Solutions(graph.rows) == Slice(L, level, Solutions(rows), -INF, b)
    && Nonempty(Solutions(graph.rows))
  }

  /** Combines the first feasible pair, whose upper bound is on the graph, and takes the bound off. */
  method FirstPair(ops: Operators, op: Op, l: Ref, r: Ref, graph: Tarjan, level: nat, b: int, ghost rows: Rows) returns (n: Ref)
    requires ops.Valid() && level < |ops.L| && ops.L[level].ClockLevel?
    requires NodeOk(ops.L, l.node, level + 1) && NodeOk(ops.L, r.node, level + 1)
    requires Capped(ops.L, graph, level, b, rows) && WellFormed(rows) && Free(ops.L, rows, level)
    modifies graph.Repr()
    ensures Ready(ops.L, graph, level) && graph.rows == rows
    ensures Combined(ops.L, Slice(ops.L, level, Solutions(rows), -INF, b), level + 1, n, op, l, r)
    decreases |ops.L| - level - 1, 4
  {
    ConsistentIsNonempty(graph.rows);
    n := ApplyReduceRec(ops, op, l, r, graph, level + 1);
    graph.Pop(ops.L[level].clock1);
    assert graph.rows == rows;
  }

  /** Combines the first feasible pair and then the rest. */
  method CombineFrom(ops: Operators, op: Op, l: Ref, r: Ref, graph: Tarjan, level: nat, lp: seq<Elem>, rp: seq<Elem>,
                     i: nat, j: nat, ghost low: int, ghost rows: Rows) returns (res: Ref)
    requires ops.Valid() && Operands(ops.L, level, l, r, lp, rp) && Aligned(lp, rp, i, j, low)
    requires low == -INF || !Nonempty(Slice(ops.L, level, Solutions(rows), -INF, low))
    requires Minimum(lp[i].bnd, rp[j].bnd) < INF && WellFormed(rows)
    requires Capped(ops.L, graph, level, Minimum(lp[i].bnd, rp[j].bnd), rows) && Free(ops.L, rows, level)
    modifies graph.Repr()
    ensures Ready(ops.L, graph, level) && graph.rows == rows
    ensures Combined(ops.L, Solutions(rows), level, res, op, l, r)
    decreases |ops.L| - level - 1, 9
  {
    PairOk(ops.L, level, l, r, lp, rp, i, j, low);
    var bnd := Minimum(lp[i].bnd, rp[j].bnd);
    var first := FirstPair(ops, op, lp[i].child, rp[j].child, graph, level, bnd, rows);
    HeldFirst(ops.L, Solutions(rows), level, op, l, r, lp, rp, i, j, low, first);
    var i', j' := if lp[i].bnd == bnd then i + 1 else i, if rp[j].bnd == bnd then j + 1 else j;
    res := CombineRest(ops, op, l, r, graph, level, lp, rp, i', j', bnd, first, rows);
  }

  /** All pairs but the last lie below the zone: the last children stand for the operands. */
  method LastPair(ops: Operators, op: Op, l: Ref, r: Ref, graph: Tarjan, level: nat, lp: seq<Elem>, rp: seq<Elem>,
                  i: nat, j: nat, ghost low: int) returns (res: Ref)
    requires ops.Valid() && Operands(ops.L, level, l, r, lp, rp) && Aligned(lp, rp, i, j, low)
    requires low == -INF || !Nonempty(Slice(ops.L, level, Solutions(graph.rows), -INF, low))
    requires Minimum(lp[i].bnd, rp[j].bnd) == INF && Ready(ops.L, graph, level) && Consistent(graph.rows)
    modifies graph.Repr()
    ensures Ready(ops.L, graph, level) && graph.rows == old(graph.rows)
    ensures Combined(ops.L, Solutions(graph.rows), level, res, op, l, r)
    decreases |ops.L| - level - 1, 7
  {
    PairOk(ops.L, level, l, r, lp, rp, i, j, low);
    res := ApplyReduceRec(ops, op, lp[i].child, rp[j].child, graph, level + 1);
    LastPairOnly(ops.L, Solutions(graph.rows), level, op, l, r, lp, rp, i, j, low, res);
  }

  /** Combines the pairs from the first feasible one on. */
  method CombinePieces(ops: Operators, op: Op, l: Ref, r: Ref, graph: Tarjan, level: nat, lp: seq<Elem>, rp: seq<Elem>,
                       i: nat, j: nat, ghost low: int, ghost rows: Rows) returns (res: Ref)
    requires ops.Valid() && Operands(ops.L, level, l, r, lp, rp) && Aligned(lp, rp, i, j, low)
    requires low == -INF || !Nonempty(Slice(ops.L, level, Solutions(rows), -INF, low))
    requires WellFormed(rows) && Consistent(rows)
    requires if Minimum(lp[i].bnd, rp[j].bnd) == INF then Ready(ops.L, graph, level) && graph.rows == rows
             else Minimum(lp[i].bnd, rp[j].bnd) < INF && Capped(ops.L, graph, level, Minimum(lp[i].bnd, rp[j].bnd), rows) && Free(ops.L, rows, level)
    modifies graph.Repr()
    ensures Ready(ops.L, graph, level) && graph.rows == rows
    ensures Combined(ops.L, Solutions(rows), level, res, op, l, r)
    decreases |ops.L| - level - 1, 10
  {
    if Minimum(lp[i].bnd, rp[j].bnd) == INF {
      res := LastPair(ops, op, l, r, graph, level, lp, rp, i, j, low);
    } else {
      res := CombineFrom(ops, op, l, r, graph, level, lp, rp, i, j, low, rows);
    }
  }

  method ApplyReduceClock(ops: Operators, op: Op, l: Ref, r: Ref, graph: Tarjan, level: nat) returns (res: Ref)
    requires ops.Valid() && Operands(ops.L, level, l, r, Kids(l, level), Kids(r, level))
    requires |Kids(l, level)| > 1 || |Kids(r, level)| > 1
    requires Ready(ops.L, graph, level) && Consistent(graph.rows)
    modifies graph.Repr()
    ensures Ready(ops.L, graph, level) && graph.rows == old(graph.rows)
    ensures Combined(ops.L, Solutions(graph.rows), level, res, op, l, r)
    decreases |ops.L| - level, 0
  {
    ghost var rows := graph.rows;
    var lp, rp := Kids(l, level), Kids(r, level);
    OperandsOk(ops.L, level, l, r, lp, rp);
    var i, j, bnd;
    ghost var low;
    i, j, bnd, low := FirstPieces(ops.L, level, lp, rp, graph, rows);
    res := CombinePieces(ops, op, l, r, graph, level, lp, rp, i, j, low, rows);
  }

  /** With only feasible paths, the combination is a constant diagram exactly when it is constant. */
  lemma {:induction false} ConstantCombination(L: Levels, dim: nat, res: Ref, op: Op, l: Ref, r: Ref)
    requires Combined(L, AllClocks(dim), 0, res, op, l, r) && Nonempty(AllClocks(dim))
    ensures res == FALSE <==> forall v: Valuation :: |v.clocks| == dim ==> !Combine(op, Eval(L, l, v), Eval(L, r, v))
    ensures res == TRUE <==> forall v: Valuation :: |v.clocks| == dim ==> Combine(op, Eval(L, l, v), Eval(L, r, v))
  {
    if res != FALSE { var v := TakesValue(L, res, 0, AllClocks(dim), true); }
    if res != TRUE { var v := TakesValue(L, res, 0, AllClocks(dim), false); }
  }

  /** The combination of two diagrams, with no infeasible path. */
  method CddApplyReduce(ops: Operators, dim: nat, op: Op, l: Ref, r: Ref) returns (res: Ref)
    requires ops.Valid() && dim > 0 && LevelsOk(ops.L, dim) && Normal(ops.L, l) && Normal(ops.L, r)
    ensures Normal(ops.L, res) && Feasible(ops.L, res.node, AllClocks(dim)) && NoNewBounds(res, l, r)
    ensures forall v: Valuation :: |v.clocks| == dim ==>
      Eval(ops.L, res, v) == Combine(op, Eval(ops.L, l, v), Eval(ops.L, r, v))
    ensures res == FALSE <==> forall v: Valuation :: |v.clocks| == dim ==> !Combine(op, Eval(ops.L, l, v), Eval(ops.L, r, v))
    ensures res == TRUE <==> forall v: Valuation :: |v.clocks| == dim ==> Combine(op, Eval(ops.L, l, v), Eval(ops.L, r, v))
  {
    var graph := new Tarjan(dim);
    EmptyGraph(ops.L, graph.rows, dim);
    res := ApplyReduceRec(ops, op, l, r, graph, 0);
    ConstantCombination(ops.L, dim, res, op, l, r);
  }
}
