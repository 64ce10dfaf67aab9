/**
 * Walking two lists of pieces in step: the common refinement that cdd_apply and cdd_apply_reduce
 * build, and what the node over it means.
 */
module Pieces {
  import opened Bounds
  import opened ConstraintGraph
  import opened Diagrams
  import opened Independence
  import opened Reduction

  datatype Op = And | Xor

  function Combine(op: Op, x: bool, y: bool): bool
  {
    match op
    case And => x && y
    case Xor => x != y
  }

  /** On every valuation with clocks in Z, res is l combined with r. */
  ghost predicate DenotesIn(L: Levels, Z: Zone, res: Ref, op: Op, l: Ref, r: Ref)
  {
    forall v: Valuation :: v.clocks in Z ==> Eval(L, res, v) == Combine(op, Eval(L, l, v), Eval(L, r, v))
  }

  ghost function Everywhere(): Zone { iset x: Clocks | |x| >= 0 }

  /**
   * Whatever differences the levels are given, res is l combined with r; and no bound appears in it that neither
   * of them has.
   */
  ghost predicate Denotes(L: Levels, res: Ref, op: Op, l: Ref, r: Ref)
  {
    DenotesIn(Independent(L), Everywhere(), res, op, l, r) && NoNewBounds(res, l, r)
  }

  /** In particular for the differences that clock values give. */
  lemma {:induction false} DenotesReal(L: Levels, res: Ref, op: Op, l: Ref, r: Ref)
    requires Denotes(L, res, op, l, r)
    ensures DenotesIn(L, Everywhere(), res, op, l, r)
  {
    forall v: Valuation ensures Eval(L, res, v) == Combine(op, Eval(L, l, v), Eval(L, r, v)) {
      var w := Valuation(Spread(L, v.clocks), v.truths);
      ReadSpread(L, res, v);
      ReadSpread(L, l, v);
      ReadSpread(L, r, v);
      assert w.clocks in Everywhere();
    }
  }

  // ----- The bounds of a diagram

  /** Every finite bound in nodes of a level is one of B. */
  ghost predicate BoundsIn(n: Node, level: nat, B: iset<int>)
    decreases n
  {
    match n
    case Terminal => true
    case BddNode(_, low, high) => BoundsIn(low.node, level, B) && BoundsIn(high.node, level, B)
    case CddNode(at, elems) => forall k :: 0 <= k < |elems| ==> BoundIn(elems[k].bnd, at, level, B) && BoundsIn(elems[k].child.node, level, B)
  }

  ghost predicate BoundIn(b: int, at: nat, level: nat, B: iset<int>)
  {
    at == level ==> b == INF || b in B
  }

  ghost predicate NoNewBounds(res: Ref, l: Ref, r: Ref)
  {
    forall level: nat, B: iset<int> :: BoundsIn(l.node, level, B) && BoundsIn(r.node, level, B) ==> BoundsIn(res.node, level, B)
  }

  ghost predicate PiecesWithin(es: seq<Elem>, at: nat, level: nat, B: iset<int>)
  {
    forall k :: 0 <= k < |es| ==> BoundIn(es[k].bnd, at, level, B) && BoundsIn(es[k].child.node, level, B)
  }

  /** The results at a level have no bound that neither operand has. */
  ghost predicate Within(level: nat, l: Ref, r: Ref, done: seq<Elem>)
  {
    forall x: nat, B: iset<int> :: BoundsIn(l.node, x, B) && BoundsIn(r.node, x, B) ==> PiecesWithin(done, level, x, B)
  }

  lemma {:induction false} WithinNext(level: nat, l: Ref, r: Ref, a: seq<Elem>, b: seq<Elem>, i: nat, j: nat, done: seq<Elem>, n: Ref)
    requires a == Kids(l, level) && b == Kids(r, level) && i < |a| && j < |b|
    requires Within(level, l, r, done) && NoNewBounds(n, a[i].child, b[j].child)
    ensures Within(level, l, r, done + [Elem(n, Minimum(a[i].bnd, b[j].bnd))])
  {
    forall x: nat, B: iset<int> | BoundsIn(l.node, x, B) && BoundsIn(r.node, x, B)
      ensures PiecesWithin(done + [Elem(n, Minimum(a[i].bnd, b[j].bnd))], level, x, B)
    {
      KidsWithin(l, level, x, B);
      KidsWithin(r, level, x, B);
      assert PiecesWithin(done, level, x, B);
    }
  }

  lemma {:induction false} KidsWithin(r: Ref, level: nat, x: nat, B: iset<int>)
    requires BoundsIn(r.node, x, B)
    ensures PiecesWithin(Kids(r, level), level, x, B)
  {
  }

  lemma {:induction false} WithinDone(level: nat, l: Ref, r: Ref, done: seq<Elem>)
    requires done != [] && Within(level, l, r, done)
    ensures NoNewBounds(MakeClock(level, Seal(Merge(done))), l, r)
  {
    var es := Seal(Merge(done));
    forall x: nat, B: iset<int> | BoundsIn(l.node, x, B) && BoundsIn(r.node, x, B)
      ensures BoundsIn(MakeClock(level, es).node, x, B)
    {
      MergeShape(done);
      assert forall k :: 0 <= k < |Merge(done)| ==> Merge(done)[k] in done;
      assert PiecesWithin(Merge(done), level, x, B);
      MadeWithin(level, es, x, B);
    }
  }

  lemma {:induction false} MadeWithin(level: nat, es: seq<Elem>, x: nat, B: iset<int>)
    requires es != [] && PiecesWithin(es, level, x, B)
    ensures BoundsIn(MakeClock(level, es).node, x, B)
  {
    var ms := Masked(es, es[0].child.neg);
    assert PiecesWithin(ms, level, x, B);
  }

  /** Reduction adds no bound. */
  lemma {:induction false} ReduceBounds(L: Levels, r: Ref, Z: Zone, x: nat, B: iset<int>)
    requires BoundsIn(r.node, x, B)
    ensures BoundsIn(Reduce(L, r, Z).node, x, B)
    decreases r.node, 1, 0
  {
    match r.node
    case Terminal =>
    case BddNode(level, low, high) =>
      ReduceBounds(L, NegCond(low, r.neg), Z, x, B);
      ReduceBounds(L, NegCond(high, r.neg), Z, x, B);
    case CddNode(level, elems) =>
      var items := ReduceItems(L, r.node, r.neg, 0, Z);
      ItemsBounds(L, r.node, r.neg, 0, Z, x, B);
      if items != [] {
        MergeShape(items);
        assert forall k :: 0 <= k < |Merge(items)| ==> Merge(items)[k] in items;
        assert PiecesWithin(Merge(items), level, x, B);
        MadeWithin(level, Seal(Merge(items)), x, B);
      }
  }

  lemma {:induction false} ItemsBounds(L: Levels, n: Node, neg: bool, k: nat, Z: Zone, x: nat, B: iset<int>)
    requires n.CddNode? && k <= |n.elems| && BoundsIn(n, x, B)
    ensures PiecesWithin(ReduceItems(L, n, neg, k, Z), n.level, x, B)
    decreases n, 0, |n.elems| - k
  {
    if k < |n.elems| {
      ItemsBounds(L, n, neg, k + 1, Z, x, B);
      ReduceBounds(L, NegCond(n.elems[k].child, neg), ChildZone(L, n.level, n.elems, k, Z), x, B);
    }
  }

  /** Nodes of a level cannot lie below it. */
  lemma {:induction false} NoneBelow(L: Levels, n: Node, min: nat, level: nat, B: iset<int>)
    requires NodeOk(L, n, min) && level < min
    ensures BoundsIn(n, level, B)
    decreases n
  {
    match n
    case Terminal =>
    case BddNode(l, low, high) =>
      NoneBelow(L, low.node, l + 1, level, B);
      NoneBelow(L, high.node, l + 1, level, B);
    case CddNode(l, elems) =>
      forall k | 0 <= k < |elems| ensures BoundsIn(elems[k].child.node, level, B) {
        NoneBelow(L, elems[k].child.node, l + 1, level, B);
      }
  }

  function Minimum(a: int, b: int): int { if a < b then a else b }

  /** The children of l and r at a level, as both operations see them. */
  ghost predicate Operands(L: Levels, level: nat, l: Ref, r: Ref, a: seq<Elem>, b: seq<Elem>)
  {
    && level < |L| && L[level].ClockLevel?
    && NodeOk(L, l.node, level) && NodeOk(L, r.node, level)
    && a == Kids(l, level) && b == Kids(r, level)
  }

  lemma {:induction false} OperandsOk(L: Levels, level: nat, l: Ref, r: Ref, a: seq<Elem>, b: seq<Elem>)
    requires Operands(L, level, l, r, a, b)
    ensures Cuts(a) && Cuts(b)
    ensures forall k :: 0 <= k < |a| ==> NodeOk(L, a[k].child.node, level + 1)
    ensures forall k :: 0 <= k < |b| ==> NodeOk(L, b[k].child.node, level + 1)
  {
    KidsFacts(L, l, level);
    KidsFacts(L, r, level);
  }

  /** Pieces i and j are the ones right above the bound `low`. */
  ghost predicate Aligned(a: seq<Elem>, b: seq<Elem>, i: nat, j: nat, low: int)
  {
    && i < |a| && j < |b|
    && Lower(a, i) <= low < a[i].bnd && Lower(b, j) <= low < b[j].bnd
    && -INF <= low
  }

  /** The next pair of pieces above the bound up, where the first of the two ended. */
  lemma {:induction false} AlignedNext(a: seq<Elem>, b: seq<Elem>, i: nat, j: nat, low: int)
    requires Cuts(a) && Cuts(b) && Aligned(a, b, i, j, low)
    ensures var up := Minimum(a[i].bnd, b[j].bnd);
            && low < up <= INF && (up < INF ==> Finite(up))
            && (up < INF ==> Aligned(a, b, if a[i].bnd == up then i + 1 else i, if b[j].bnd == up then j + 1 else j, up))
  {
    var up := Minimum(a[i].bnd, b[j].bnd);
    if a[i].bnd == up && up < INF { assert a[i].bnd < a[i + 1].bnd; }
    if b[j].bnd == up && up < INF { assert b[j].bnd < b[j + 1].bnd; }
  }

  lemma {:induction false} AlignedStart(a: seq<Elem>, b: seq<Elem>)
    requires Cuts(a) && Cuts(b)
    ensures Aligned(a, b, 0, 0, -INF)
  {
  }

  /** Between low and the end of the shorter piece, both operands act like their current children. */
  lemma {:induction false} AlignedMeaning(L: Levels, level: nat, l: Ref, r: Ref, a: seq<Elem>, b: seq<Elem>, i: nat, j: nat, low: int, up: int, v: Valuation)
    requires Operands(L, level, l, r, a, b) && Aligned(a, b, i, j, low)
    requires up <= Minimum(a[i].bnd, b[j].bnd)
    requires MeetsLower(DiffAt(L, level, v.clocks), low) && MeetsUpper(DiffAt(L, level, v.clocks), up)
    ensures Eval(L, l, v) == Eval(L, a[i].child, v) && Eval(L, r, v) == Eval(L, b[j].child, v)
  {
    OperandsOk(L, level, l, r, a, b);
    PieceMeaning(L, level, l, a, i, low, up, v);
    PieceMeaning(L, level, r, b, j, low, up, v);
  }

  lemma {:induction false} PieceMeaning(L: Levels, level: nat, r: Ref, es: seq<Elem>, k: nat, low: int, up: int, v: Valuation)
    requires NodeOk(L, r.node, level) && es == Kids(r, level) && Cuts(es) && k < |es|
    requires -INF <= Lower(es, k) <= low && up <= es[k].bnd
    requires MeetsLower(DiffAt(L, level, v.clocks), low) && MeetsUpper(DiffAt(L, level, v.clocks), up)
    ensures Eval(L, r, v) == Eval(L, es[k].child, v)
  {
    var d := DiffAt(L, level, v.clocks);
    KidsMeaning(L, r, level, v);
    PickIsPiece(es, d);
    UpperMonotone(d, up, es[k].bnd);
    if Lower(es, k) != -INF && MeetsUpper(d, Lower(es, k)) { UpperMonotone(d, Lower(es, k), low); }
    assert InPiece(es, k, d);
  }

  // ----- The list of results

  /** Finished pieces below a bound: bounds increase, and children belong below the level. */
  ghost predicate InOrder(L: Levels, level: nat, done: seq<Elem>, up: int)
  {
    && done != [] && done[|done| - 1].bnd == up <= INF && Increasing(done)
    && (forall k :: 0 <= k < |done| - 1 ==> Finite(done[k].bnd))
    && (forall k :: 0 <= k < |done| ==> NodeOk(L, done[k].child.node, level + 1))
  }

  lemma {:induction false} InOrderNext(L: Levels, level: nat, done: seq<Elem>, low: int, e: Elem)
    requires InOrder(L, level, done, low) && Finite(low) && low < e.bnd <= INF && NodeOk(L, e.child.node, level + 1)
    ensures InOrder(L, level, done + [e], e.bnd)
  {
  }

  /** The results so far cover everything in Z up to the bound `up`. */
  ghost predicate Covers(L: Levels, Z: Zone, level: nat, op: Op, l: Ref, r: Ref, done: seq<Elem>, up: int)
  {
    && InOrder(L, level, done, up)
    && (forall v: Valuation :: v.clocks in Z && MeetsUpper(DiffAt(L, level, v.clocks), up) ==> Agrees(L, level, op, l, r, done, v))
  }

  ghost predicate Agrees(L: Levels, level: nat, op: Op, l: Ref, r: Ref, done: seq<Elem>, v: Valuation)
  {
    var d := DiffAt(L, level, v.clocks);
    Pick(done, d) < |done| && EvalAt(L, done, d, v) == Combine(op, Eval(L, l, v), Eval(L, r, v))
  }

  lemma {:induction false} CoversFirst(L: Levels, Z: Zone, level: nat, op: Op, l: Ref, r: Ref, a: seq<Elem>, b: seq<Elem>,
                                       i: nat, j: nat, low: int, n: Ref)
    requires Operands(L, level, l, r, a, b) && Aligned(a, b, i, j, low)
    requires !Nonempty(Slice(L, level, Z, -INF, low)) || low == -INF
    requires NodeOk(L, n.node, level + 1)
    requires DenotesIn(L, Slice(L, level, Z, low, Minimum(a[i].bnd, b[j].bnd)), n, op, a[i].child, b[j].child)
    ensures Covers(L, Z, level, op, l, r, [Elem(n, Minimum(a[i].bnd, b[j].bnd))], Minimum(a[i].bnd, b[j].bnd))
  {
    OperandsOk(L, level, l, r, a, b);
    var up := Minimum(a[i].bnd, b[j].bnd);
    forall v: Valuation | v.clocks in Z && MeetsUpper(DiffAt(L, level, v.clocks), up)
      ensures Agrees(L, level, op, l, r, [Elem(n, up)], v)
    {
      if low != -INF && MeetsUpper(DiffAt(L, level, v.clocks), low) {
        Witnessed(v.clocks, Slice(L, level, Z, -INF, low));
      }
      assert v.clocks in Slice(L, level, Z, low, up);
      AlignedMeaning(L, level, l, r, a, b, i, j, low, up, v);
    }
  }

  lemma {:induction false} CoversNext(L: Levels, Z: Zone, level: nat, op: Op, l: Ref, r: Ref, a: seq<Elem>, b: seq<Elem>,
                                      i: nat, j: nat, low: int, done: seq<Elem>, n: Ref)
    requires Operands(L, level, l, r, a, b) && Aligned(a, b, i, j, low) && Finite(low)
    requires Covers(L, Z, level, op, l, r, done, low)
    requires NodeOk(L, n.node, level + 1)
    requires DenotesIn(L, Slice(L, level, Z, low, Minimum(a[i].bnd, b[j].bnd)), n, op, a[i].child, b[j].child)
    ensures Covers(L, Z, level, op, l, r, done + [Elem(n, Minimum(a[i].bnd, b[j].bnd))], Minimum(a[i].bnd, b[j].bnd))
  {
    OperandsOk(L, level, l, r, a, b);
    AlignedNext(a, b, i, j, low);
    var up := Minimum(a[i].bnd, b[j].bnd);
    InOrderNext(L, level, done, low, Elem(n, up));
    forall v: Valuation | v.clocks in Z && MeetsUpper(DiffAt(L, level, v.clocks), up)
      ensures Agrees(L, level, op, l, r, done + [Elem(n, up)], v)
    {
      AgreesNext(L, Z, level, op, l, r, a, b, i, j, low, done, n, v);
    }
  }

  lemma {:induction false} AgreesNext(L: Levels, Z: Zone, level: nat, op: Op, l: Ref, r: Ref, a: seq<Elem>, b: seq<Elem>,
                                      i: nat, j: nat, low: int, done: seq<Elem>, n: Ref, v: Valuation)
    requires Operands(L, level, l, r, a, b) && Aligned(a, b, i, j, low) && Finite(low)
    requires Covers(L, Z, level, op, l, r, done, low)
    requires DenotesIn(L, Slice(L, level, Z, low, Minimum(a[i].bnd, b[j].bnd)), n, op, a[i].child, b[j].child)
    requires v.clocks in Z && MeetsUpper(DiffAt(L, level, v.clocks), Minimum(a[i].bnd, b[j].bnd))
    ensures Agrees(L, level, op, l, r, done + [Elem(n, Minimum(a[i].bnd, b[j].bnd))], v)
  {
    var up := Minimum(a[i].bnd, b[j].bnd);
    var d, e := DiffAt(L, level, v.clocks), Elem(n, up);
    AppendMeaning(L, done, e, d, v);
    if MeetsUpper(d, low) {
      assert Agrees(L, level, op, l, r, done, v);
    } else {
      OperandsOk(L, level, l, r, a, b);
      assert v.clocks in Slice(L, level, Z, low, up);
      AlignedMeaning(L, level, l, r, a, b, i, j, low, up, v);
      PickAbove(done, d);
    }
  }

  lemma {:induction false} PickAbove(es: seq<Elem>, d: real)
    requires es != [] && Increasing(es) && es[|es| - 1].bnd <= INF && !MeetsUpper(d, es[|es| - 1].bnd)
    ensures Pick(es, d) == |es|
  {
    PickFromFacts(es, d, 0);
    var p := Pick(es, d);
    if p < |es| { UpperMonotone(d, es[p].bnd, es[|es| - 1].bnd); }
  }

  /** Once everything in Z is covered, the node over the results denotes the combination in Z. */
  lemma {:induction false} CoversDone(L: Levels, Z: Zone, level: nat, op: Op, l: Ref, r: Ref, done: seq<Elem>, up: int)
    requires level < |L| && L[level].ClockLevel?
    requires Covers(L, Z, level, op, l, r, done, up)
    requires up == INF || !Nonempty(Slice(L, level, Z, up, INF))
    ensures NodeOk(L, MakeClock(level, Seal(Merge(done))).node, level)
    ensures DenotesIn(L, Z, MakeClock(level, Seal(Merge(done))), op, l, r)
  {
    MergedOk(L, level, done);
    forall v: Valuation | v.clocks in Z
      ensures Eval(L, MakeClock(level, Seal(Merge(done))), v) == Combine(op, Eval(L, l, v), Eval(L, r, v))
    {
      var d := DiffAt(L, level, v.clocks);
      if !MeetsUpper(d, up) {
        Witnessed(v.clocks, Slice(L, level, Z, up, INF));
      }
      assert Agrees(L, level, op, l, r, done, v);
      MergedMeaning(L, level, done, v);
    }
  }

  // ----- The loop over both lists

  /** Pieces i and j have been combined up to bnd; the results are on the stack, the last one open. */
  ghost predicate Zip(L: Levels, Z: Zone, level: nat, op: Op, l: Ref, r: Ref, a: seq<Elem>, b: seq<Elem>,
                      i: nat, j: nat, low: int, bnd: int, stack: seq<Elem>, prev: Ref, mask: bool, done: seq<Elem>)
  {
    && Aligned(a, b, i, j, low) && bnd == Minimum(a[i].bnd, b[j].bnd) && (bnd < INF ==> Finite(bnd))
    && StackOk(stack, prev, mask, done) && Covers(L, Z, level, op, l, r, done, bnd) && Within(level, l, r, done)
  }

  lemma {:induction false} ZipFirst(L: Levels, Z: Zone, level: nat, op: Op, l: Ref, r: Ref, a: seq<Elem>, b: seq<Elem>,
                                    i: nat, j: nat, low: int, n: Ref)
    requires Operands(L, level, l, r, a, b)
    requires Aligned(a, b, i, j, low) || (i == 0 && j == 0 && low == -INF)
    requires !Nonempty(Slice(L, level, Z, -INF, low)) || low == -INF
    requires NodeOk(L, n.node, level + 1)
    requires i < |a| && j < |b| && DenotesIn(L, Slice(L, level, Z, low, Minimum(a[i].bnd, b[j].bnd)), n, op, a[i].child, b[j].child)
    requires NoNewBounds(n, a[i].child, b[j].child)
    ensures Zip(L, Z, level, op, l, r, a, b, i, j, low, Minimum(a[i].bnd, b[j].bnd), [], n, n.neg, [Elem(n, Minimum(a[i].bnd, b[j].bnd))])
  {
    OperandsOk(L, level, l, r, a, b);
    AlignedStart(a, b);
    AlignedNext(a, b, i, j, low);
    StackFirst(n, Minimum(a[i].bnd, b[j].bnd));
    CoversFirst(L, Z, level, op, l, r, a, b, i, j, low, n);
    WithinNext(level, l, r, a, b, i, j, [], n);
    assert [] + [Elem(n, Minimum(a[i].bnd, b[j].bnd))] == [Elem(n, Minimum(a[i].bnd, b[j].bnd))];
  }

  lemma {:induction false} ZipNext(L: Levels, Z: Zone, level: nat, op: Op, l: Ref, r: Ref, a: seq<Elem>, b: seq<Elem>,
                                   i: nat, j: nat, low: int, stack: seq<Elem>, prev: Ref, mask: bool, done: seq<Elem>, n: Ref, stack': seq<Elem>)
    requires Operands(L, level, l, r, a, b) && Aligned(a, b, i, j, low) && Finite(low)
    requires StackOk(stack, prev, mask, done) && Covers(L, Z, level, op, l, r, done, low) && Within(level, l, r, done)
    requires NodeOk(L, n.node, level + 1)
    requires DenotesIn(L, Slice(L, level, Z, low, Minimum(a[i].bnd, b[j].bnd)), n, op, a[i].child, b[j].child)
    requires NoNewBounds(n, a[i].child, b[j].child)
    requires stack' == if n != prev then stack + [Elem(NegCond(prev, mask), low)] else stack
    ensures var up := Minimum(a[i].bnd, b[j].bnd);
            Zip(L, Z, level, op, l, r, a, b, i, j, low, up, stack', n, mask, done + [Elem(n, up)])
  {
    OperandsOk(L, level, l, r, a, b);
    AlignedNext(a, b, i, j, low);
    CoversNext(L, Z, level, op, l, r, a, b, i, j, low, done, n);
    StackPush(stack, prev, mask, done, low, n, Minimum(a[i].bnd, b[j].bnd));
    WithinNext(level, l, r, a, b, i, j, done, n);
  }

  lemma {:induction false} ZipDone(L: Levels, Z: Zone, level: nat, op: Op, l: Ref, r: Ref, a: seq<Elem>, b: seq<Elem>,
                                   i: nat, j: nat, low: int, bnd: int, stack: seq<Elem>, prev: Ref, mask: bool, done: seq<Elem>)
    requires Operands(L, level, l, r, a, b)
    requires Zip(L, Z, level, op, l, r, a, b, i, j, low, bnd, stack, prev, mask, done)
    requires bnd == INF || !Nonempty(Slice(L, level, Z, bnd, INF))
    ensures var res := NegCond(MakeNode(level, stack + [Elem(NegCond(prev, mask), INF)]), mask);
            && NodeOk(L, res.node, level) && DenotesIn(L, Z, res, op, l, r) && NoNewBounds(res, l, r)
            && res == MakeClock(level, Seal(Merge(done)))
  {
    StackDone(level, stack, prev, mask, done);
    CoversDone(L, Z, level, op, l, r, done, bnd);
    WithinDone(level, l, r, done);
  }

  /** Stepping over the pieces that end at bnd. */
  lemma {:induction false} ZipAdvance(L: Levels, Z: Zone, level: nat, op: Op, l: Ref, r: Ref, a: seq<Elem>, b: seq<Elem>,
                                      i: nat, j: nat, low: int, bnd: int, stack: seq<Elem>, prev: Ref, mask: bool, done: seq<Elem>)
    requires Operands(L, level, l, r, a, b) && bnd < INF
    requires Zip(L, Z, level, op, l, r, a, b, i, j, low, bnd, stack, prev, mask, done)
    ensures var i', j' := if a[i].bnd == bnd then i + 1 else i, if b[j].bnd == bnd then j + 1 else j;
            && Aligned(a, b, i', j', bnd) && bnd < Minimum(a[i'].bnd, b[j'].bnd)
            && NodeOk(L, a[i'].child.node, level + 1) && NodeOk(L, b[j'].child.node, level + 1)
  {
    OperandsOk(L, level, l, r, a, b);
    AlignedNext(a, b, i, j, low);
    AlignedNext(a, b, if a[i].bnd == bnd then i + 1 else i, if b[j].bnd == bnd then j + 1 else j, bnd);
  }

  /** The pair of pieces above low: their children are in order, and they end above low. */
  lemma {:induction false} PairOk(L: Levels, level: nat, l: Ref, r: Ref, a: seq<Elem>, b: seq<Elem>, i: nat, j: nat, low: int)
    requires Operands(L, level, l, r, a, b) && Aligned(a, b, i, j, low)
    ensures NodeOk(L, a[i].child.node, level + 1) && NodeOk(L, b[j].child.node, level + 1)
    ensures var up := Minimum(a[i].bnd, b[j].bnd);
            && low < up <= INF && (up < INF ==> Finite(up))
            && (up < INF ==> Aligned(a, b, if a[i].bnd == up then i + 1 else i, if b[j].bnd == up then j + 1 else j, up))
  {
    OperandsOk(L, level, l, r, a, b);
    AlignedNext(a, b, i, j, low);
  }
}
