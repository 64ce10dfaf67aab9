/**
 * Reduction of a diagram inside a set of clock vectors: what it computes, what it means, and why
 * the result is constant exactly when the diagram is empty or full there.
 */
module Reduction {
  import opened Bounds
  import opened ConstraintGraph
  import opened Diagrams

  type Zone = iset<Clocks>

  ghost predicate Nonempty(Z: Zone)
  {
    exists x :: x in Z
  }

  lemma {:induction false} Witnessed(x: Clocks, Z: Zone)
    ensures x in Z ==> Nonempty(Z)
  {
  }

  /** The part of Z where the difference of a level lies between two bounds. */
  ghost function Slice(L: Levels, level: nat, Z: Zone, low: int, up: int): Zone
  {
    iset x: Clocks | x in Z && MeetsLower(DiffAt(L, level, x), low) && MeetsUpper(DiffAt(L, level, x), up)
  }

  /** The part of Z in which child k of a clock node is selected. */
  ghost function ChildZone(L: Levels, level: nat, es: seq<Elem>, k: nat, Z: Zone): Zone
    requires k < |es|
  {
    Slice(L, level, Z, Lower(es, k), es[k].bnd)
  }

  /** The reduced children of a clock node, from child k on, leaving out those that are never selected in Z. */
  ghost function ReduceItems(L: Levels, n: Node, neg: bool, k: nat, Z: Zone): (items: seq<Elem>)
    requires n.CddNode? && k <= |n.elems|
    decreases n, 0, |n.elems| - k
  {
    if k == |n.elems| then []
    else
      var Zk := ChildZone(L, n.level, n.elems, k, Z);
      var rest := ReduceItems(L, n, neg, k + 1, Z);
      if Nonempty(Zk) then [Elem(Reduce(L, NegCond(n.elems[k].child, neg), Zk), n.elems[k].bnd)] + rest
      else rest
  }

  /** The diagram r reduced inside Z. */
  ghost function Reduce(L: Levels, r: Ref, Z: Zone): Ref
    decreases r.node, 1, 0
  {
    match r.node
    case Terminal => r
    case BddNode(level, low, high) =>
      MakeBool(level, Reduce(L, NegCond(low, r.neg), Z), Reduce(L, NegCond(high, r.neg), Z))
    case CddNode(level, elems) =>
      var items := ReduceItems(L, r.node, r.neg, 0, Z);
      if items == [] then r else MakeClock(level, Seal(Merge(items)))
  }

  /** Every path of the diagram can be taken by some clock vector of Z. */
  ghost predicate Feasible(L: Levels, n: Node, Z: Zone)
    decreases n
  {
    Nonempty(Z) &&
    match n
    case Terminal => true
    case BddNode(level, low, high) => Feasible(L, low.node, Z) && Feasible(L, high.node, Z)
    case CddNode(level, elems) =>
      forall k :: 0 <= k < |elems| ==> Feasible(L, elems[k].child.node, ChildZone(L, level, elems, k, Z))
  }

  // ----- The children kept by reduction

  /** Each item stems from a child that is selected somewhere in Z; together they cover Z. */
  lemma {:induction false} ItemsShape(L: Levels, n: Node, neg: bool, k: nat, Z: Zone)
    requires n.CddNode? && Cuts(n.elems) && k <= |n.elems|
    ensures var items := ReduceItems(L, n, neg, k, Z);
            && Increasing(items)
            && (forall t :: 0 <= t < |items| ==> k < |n.elems| && Lower(n.elems, k) < items[t].bnd <= INF)
            && (forall t :: 0 <= t < |items| - 1 ==> Finite(items[t].bnd))
    decreases |n.elems| - k
  {
    if k < |n.elems| {
      ItemsShape(L, n, neg, k + 1, Z);
      assert Lower(n.elems, k) < n.elems[k].bnd;
      var rest := ReduceItems(L, n, neg, k + 1, Z);
      if rest != [] { assert Lower(n.elems, k + 1) < rest[0].bnd; }
    }
  }

  lemma {:induction false} ItemOrigin(L: Levels, n: Node, neg: bool, k: nat, Z: Zone, t: nat) returns (j: nat, i: nat)
    requires n.CddNode? && k <= |n.elems| && t < |ReduceItems(L, n, neg, k, Z)|
    ensures k <= j < |n.elems| && Nonempty(ChildZone(L, n.level, n.elems, j, Z))
    ensures ReduceItems(L, n, neg, k, Z)[t]
         == Elem(Reduce(L, NegCond(n.elems[j].child, neg), ChildZone(L, n.level, n.elems, j, Z)), n.elems[j].bnd)
    ensures t > 0 ==> k <= i < j && ReduceItems(L, n, neg, k, Z)[t - 1].bnd == n.elems[i].bnd
    decreases |n.elems| - k
  {
    var Zk := ChildZone(L, n.level, n.elems, k, Z);
    if !Nonempty(Zk) {
      j, i := ItemOrigin(L, n, neg, k + 1, Z, t);
    } else if t == 0 {
      j, i := k, k;
    } else {
      j, i := ItemOrigin(L, n, neg, k + 1, Z, t - 1);
      i := if t == 1 then k else i;
    }
  }

  /** In Z the items select the reduced version of the child that the node itself selects. */
  lemma {:induction false} ItemsMeaning(L: Levels, n: Node, neg: bool, k: nat, Z: Zone, p: nat, v: Valuation)
    requires n.CddNode? && Cuts(n.elems) && k <= p < |n.elems|
    requires v.clocks in ChildZone(L, n.level, n.elems, p, Z)
    ensures var items, d := ReduceItems(L, n, neg, k, Z), DiffAt(L, n.level, v.clocks);
            && Pick(items, d) < |items|
            && EvalAt(L, items, d, v) == Eval(L, Reduce(L, NegCond(n.elems[p].child, neg), ChildZone(L, n.level, n.elems, p, Z)), v)
    decreases p - k
  {
    var d := DiffAt(L, n.level, v.clocks);
    var Zk := ChildZone(L, n.level, n.elems, k, Z);
    if k < p {
      ItemsMeaning(L, n, neg, k + 1, Z, p, v);
      if Nonempty(Zk) {
        var e := Elem(Reduce(L, NegCond(n.elems[k].child, neg), Zk), n.elems[k].bnd);
        PickPrepend(e, ReduceItems(L, n, neg, k + 1, Z), d);
        if MeetsUpper(d, e.bnd) { UpperMonotone(d, e.bnd, n.elems[p - 1].bnd); }
      }
    }
  }

  lemma {:induction false} PickPrepend(e: Elem, es: seq<Elem>, d: real)
    ensures Pick([e] + es, d) == if MeetsUpper(d, e.bnd) then 0 else 1 + Pick(es, d)
  {
    PickShift(e, es, d, 0);
  }

  lemma {:induction false} PickShift(e: Elem, es: seq<Elem>, d: real, k: nat)
    requires k <= |es|
    ensures PickFrom([e] + es, d, k + 1) == 1 + PickFrom(es, d, k)
    decreases |es| - k
  {
    if k < |es| { PickShift(e, es, d, k + 1); }
  }

  // ----- Meaning is preserved

  /** On every clock vector of Z a diagram and its reduction agree. */
  lemma {:induction false} ReduceMeaning(L: Levels, r: Ref, min: nat, Z: Zone, v: Valuation)
    requires NodeOk(L, r.node, min) && v.clocks in Z
    ensures Eval(L, Reduce(L, r, Z), v) == Eval(L, r, v)
    decreases r.node
  {
    match r.node
    case Terminal =>
    case BddNode(level, low, high) =>
      ReduceMeaning(L, NegCond(low, r.neg), level + 1, Z, v);
      ReduceMeaning(L, NegCond(high, r.neg), level + 1, Z, v);
      EvalNeg(L, low, r.neg, v);
      EvalNeg(L, high, r.neg, v);
      MakeBoolMeaning(L, level, Reduce(L, NegCond(low, r.neg), Z), Reduce(L, NegCond(high, r.neg), Z), v);
    case CddNode(level, elems) =>
      var d := DiffAt(L, level, v.clocks);
      var p := Pick(elems, d);
      PickIsPiece(elems, d);
      ItemsMeaning(L, r.node, r.neg, 0, Z, p, v);
      ReduceMeaning(L, NegCond(elems[p].child, r.neg), level + 1, ChildZone(L, level, elems, p, Z), v);
      EvalNeg(L, elems[p].child, r.neg, v);
      ItemsShape(L, r.node, r.neg, 0, Z);
      MergedMeaning(L, level, ReduceItems(L, r.node, r.neg, 0, Z), v);
  }

  // ----- Normal form is preserved

  lemma {:induction false} ItemsNonempty(L: Levels, n: Node, neg: bool, Z: Zone)
    requires n.CddNode? && Cuts(n.elems) && Nonempty(Z)
    ensures ReduceItems(L, n, neg, 0, Z) != []
  {
    var x :| x in Z;
    var v := Valuation(x, {});
    PickIsPiece(n.elems, DiffAt(L, n.level, x));
    ItemsMeaning(L, n, neg, 0, Z, Pick(n.elems, DiffAt(L, n.level, x)), v);
  }

  lemma {:induction false} ReduceOk(L: Levels, r: Ref, min: nat, Z: Zone)
    requires NodeOk(L, r.node, min) && Nonempty(Z)
    ensures NodeOk(L, Reduce(L, r, Z).node, min)
    decreases r.node, 1, 0
  {
    match r.node
    case Terminal =>
    case BddNode(level, low, high) =>
      ReduceOk(L, NegCond(low, r.neg), level + 1, Z);
      ReduceOk(L, NegCond(high, r.neg), level + 1, Z);
      MakeBoolOk(L, level, Reduce(L, NegCond(low, r.neg), Z), Reduce(L, NegCond(high, r.neg), Z));
      NodeOkWeaken(L, Reduce(L, r, Z).node, min, level);
    case CddNode(level, elems) =>
      ItemsNonempty(L, r.node, r.neg, Z);
      ItemsShape(L, r.node, r.neg, 0, Z);
      ItemsOk(L, r.node, r.neg, min, 0, Z);
      MergedOk(L, level, ReduceItems(L, r.node, r.neg, 0, Z));
      NodeOkWeaken(L, Reduce(L, r, Z).node, min, level);
  }

  ghost predicate ItemsBelow(L: Levels, items: seq<Elem>, level: nat)
  {
    forall t :: 0 <= t < |items| ==> NodeOk(L, items[t].child.node, level)
  }

  lemma {:induction false} OneMoreBelow(L: Levels, e: Elem, rest: seq<Elem>, level: nat)
    requires NodeOk(L, e.child.node, level) && ItemsBelow(L, rest, level)
    ensures ItemsBelow(L, [e] + rest, level)
  {
  }

  lemma {:induction false} ItemsOk(L: Levels, n: Node, neg: bool, min: nat, k: nat, Z: Zone)
    requires n.CddNode? && NodeOk(L, n, min) && k <= |n.elems|
    ensures ItemsBelow(L, ReduceItems(L, n, neg, k, Z), n.level + 1)
    decreases n, 0, |n.elems| - k
  {
    if k < |n.elems| {
      ItemsOk(L, n, neg, min, k + 1, Z);
      var child, Zk := NegCond(n.elems[k].child, neg), ChildZone(L, n.level, n.elems, k, Z);
      if Nonempty(Zk) {
        ReduceOk(L, child, n.level + 1, Zk);
        OneMoreBelow(L, Elem(Reduce(L, child, Zk), n.elems[k].bnd), ReduceItems(L, n, neg, k + 1, Z), n.level + 1);
      }
    }
  }

  // ----- Only feasible paths are left

  lemma {:induction false} FeasibleMonotone(L: Levels, n: Node, A: Zone, B: Zone)
    requires Feasible(L, n, A) && A <= B
    ensures Feasible(L, n, B)
    decreases n
  {
    var x :| x in A;
    assert x in B;
    match n
    case Terminal =>
    case BddNode(level, low, high) =>
      FeasibleMonotone(L, low.node, A, B);
      FeasibleMonotone(L, high.node, A, B);
    case CddNode(level, elems) =>
      forall k | 0 <= k < |elems| ensures Feasible(L, elems[k].child.node, ChildZone(L, level, elems, k, B)) {
        FeasibleMonotone(L, elems[k].child.node, ChildZone(L, level, elems, k, A), ChildZone(L, level, elems, k, B));
      }
  }

  /** Every merged piece ends where some original piece does, and reaches at least as far down. */
  lemma {:induction false} MergeOrigin(es: seq<Elem>, q: nat) returns (t: nat)
    requires Increasing(es) && q < |Merge(es)|
    ensures t < |es| && Merge(es)[q] == es[t]
    ensures q > 0 ==> t > 0 && Merge(es)[q - 1].bnd <= es[t - 1].bnd
  {
    if q == |Merge(es)| - 1 {
      t := |es| - 1;
      if q > 0 { MergeBelowLast(es, q - 1); }
    } else {
      var init := es[..|es| - 1];
      assert Merge(es)[..q + 1] == Merge(init)[..q + 1];
      assert Merge(es)[q] == Merge(init)[q] && (q > 0 ==> Merge(es)[q - 1] == Merge(init)[q - 1]);
      t := MergeOrigin(init, q);
    }
  }

  /** All merged pieces but the last end at or below the last but one original piece. */
  lemma {:induction false} MergeBelowLast(es: seq<Elem>, q: nat)
    requires Increasing(es) && q + 1 < |Merge(es)|
    ensures |es| > 1 && Merge(es)[q].bnd <= es[|es| - 2].bnd
  {
    var init := es[..|es| - 1];
    var m := Merge(init);
    MergeIncreasing(init);
    assert Merge(es)[q] == m[q];
    assert m[|m| - 1] == es[|es| - 2];
    assert q < |m| - 1 ==> m[q].bnd < m[|m| - 1].bnd;
  }

  /** A sealed, merged piece covers the part of Z from which its child was obtained. */
  lemma {:induction false} PieceCoversOrigin(L: Levels, n: Node, neg: bool, Z: Zone, q: nat) returns (j: nat)
    requires n.CddNode? && Cuts(n.elems) && ReduceItems(L, n, neg, 0, Z) != []
    requires q < |Merge(ReduceItems(L, n, neg, 0, Z))|
    ensures j < |n.elems| && Nonempty(ChildZone(L, n.level, n.elems, j, Z))
    ensures var es := Seal(Merge(ReduceItems(L, n, neg, 0, Z)));
            && q < |es| && es[q].child == Reduce(L, NegCond(n.elems[j].child, neg), ChildZone(L, n.level, n.elems, j, Z))
            && ChildZone(L, n.level, n.elems, j, Z) <= ChildZone(L, n.level, es, q, Z)
  {
    var items := ReduceItems(L, n, neg, 0, Z);
    ItemsShape(L, n, neg, 0, Z);
    var t := MergeOrigin(items, q);
    var i;
    j, i := ItemOrigin(L, n, neg, 0, Z, t);
    var es := Seal(Merge(items));
    SealedPiece(Merge(items), q);
    if q > 0 { BoundsIncrease(n.elems, i, j - 1); }
    SliceWidens(L, n.level, Z, Lower(n.elems, j), n.elems[j].bnd, Lower(es, q), es[q].bnd);
  }

  /** Sealing only moves the last bound. */
  lemma {:induction false} SealedPiece(m: seq<Elem>, q: nat)
    requires q < |m|
    ensures q < |Seal(m)| == |m| && Seal(m)[q].child == m[q].child
    ensures Seal(m)[q].bnd == (if q == |m| - 1 then INF else m[q].bnd)
    ensures Lower(Seal(m), q) == if q == 0 then -INF else m[q - 1].bnd
  {
  }

  lemma {:induction false} BoundsIncrease(es: seq<Elem>, a: nat, b: nat)
    requires Cuts(es) && a <= b < |es| - 1
    ensures es[a].bnd <= es[b].bnd && Finite(es[b].bnd)
  {
  }

  /** Wider bounds leave more. */
  lemma {:induction false} SliceWidens(L: Levels, level: nat, Z: Zone, low: int, up: int, low': int, up': int)
    requires low' == -INF || (low' <= low < INF && low != -INF)
    requires up <= up' <= INF
    ensures Slice(L, level, Z, low, up) <= Slice(L, level, Z, low', up')
  {
    forall x | x in Slice(L, level, Z, low, up) ensures x in Slice(L, level, Z, low', up') {
      var d := DiffAt(L, level, x);
      UpperMonotone(d, up, up');
      if low' != -INF && MeetsUpper(d, low') { UpperMonotone(d, low', low); }
    }
  }

  /** Every path of a reduced diagram is feasible in Z. */
  lemma {:induction false} ReduceFeasible(L: Levels, r: Ref, min: nat, Z: Zone)
    requires NodeOk(L, r.node, min) && Nonempty(Z)
    ensures Feasible(L, Reduce(L, r, Z).node, Z)
    decreases r.node, 1
  {
    match r.node
    case Terminal =>
    case BddNode(level, low, high) =>
      ReduceFeasible(L, NegCond(low, r.neg), level + 1, Z);
      ReduceFeasible(L, NegCond(high, r.neg), level + 1, Z);
    case CddNode(level, elems) =>
      ChildrenFeasible(L, r, Z);
      ClockFeasible(L, r, Z);
  }

  lemma {:induction false} ChildrenFeasible(L: Levels, r: Ref, Z: Zone)
    requires r.node.CddNode? && NodeOk(L, r.node, r.node.level)
    ensures forall j :: 0 <= j < |r.node.elems| && Nonempty(ChildZone(L, r.node.level, r.node.elems, j, Z)) ==>
      Feasible(L, Reduce(L, NegCond(r.node.elems[j].child, r.neg), ChildZone(L, r.node.level, r.node.elems, j, Z)).node,
               ChildZone(L, r.node.level, r.node.elems, j, Z))
    decreases r.node, 0
  {
    var level, elems := r.node.level, r.node.elems;
    forall j | 0 <= j < |elems| && Nonempty(ChildZone(L, level, elems, j, Z))
      ensures Feasible(L, Reduce(L, NegCond(elems[j].child, r.neg), ChildZone(L, level, elems, j, Z)).node, ChildZone(L, level, elems, j, Z))
    {
      ReduceFeasible(L, NegCond(elems[j].child, r.neg), level + 1, ChildZone(L, level, elems, j, Z));
    }
  }

  lemma {:induction false} ClockFeasible(L: Levels, r: Ref, Z: Zone)
    requires r.node.CddNode? && Cuts(r.node.elems) && Nonempty(Z)
    requires forall j :: 0 <= j < |r.node.elems| && Nonempty(ChildZone(L, r.node.level, r.node.elems, j, Z)) ==>
      Feasible(L, Reduce(L, NegCond(r.node.elems[j].child, r.neg), ChildZone(L, r.node.level, r.node.elems, j, Z)).node,
               ChildZone(L, r.node.level, r.node.elems, j, Z))
    ensures Feasible(L, Reduce(L, r, Z).node, Z)
  {
    ItemsNonempty(L, r.node, r.neg, Z);
    var es := Seal(Merge(ReduceItems(L, r.node, r.neg, 0, Z)));
    forall q | 0 <= q < |es| ensures Feasible(L, es[q].child.node, ChildZone(L, r.node.level, es, q, Z)) {
      var j := PieceCoversOrigin(L, r.node, r.neg, Z, q);
      FeasibleMonotone(L, es[q].child.node, ChildZone(L, r.node.level, r.node.elems, j, Z), ChildZone(L, r.node.level, es, q, Z));
    }
    FeasiblePieces(L, r.node.level, es, Z);
  }

  lemma {:induction false} FeasiblePieces(L: Levels, level: nat, es: seq<Elem>, Z: Zone)
    requires es != [] && Nonempty(Z)
    requires forall q :: 0 <= q < |es| ==> Feasible(L, es[q].child.node, ChildZone(L, level, es, q, Z))
    ensures Feasible(L, MakeClock(level, es).node, Z)
  {
    var ms := Masked(es, es[0].child.neg);
    forall q | 0 <= q < |ms| ensures Feasible(L, ms[q].child.node, ChildZone(L, level, ms, q, Z)) {
      assert ChildZone(L, level, ms, q, Z) == ChildZone(L, level, es, q, Z);
    }
    if |es| == 1 { FeasibleMonotone(L, es[0].child.node, ChildZone(L, level, es, 0, Z), Z); }
  }

  // ----- Constant exactly when empty or full

  /** A normal diagram with only feasible paths that is not the other constant takes the value b in Z. */
  lemma {:induction false} TakesValue(L: Levels, r: Ref, min: nat, Z: Zone, b: bool) returns (v: Valuation)
    requires NodeOk(L, r.node, min) && Feasible(L, r.node, Z)
    requires r != (if b then FALSE else TRUE)
    ensures v.clocks in Z && Eval(L, r, v) == b
    decreases r.node, 1
  {
    match r.node
    case Terminal =>
      var x :| x in Z;
      v := Valuation(x, {});
    case BddNode(level, low, high) =>
      v := TakesValueBelow(L, r, min, Z, b);
    case CddNode(level, elems) =>
      var k := if elems[0].child == (if b != r.neg then FALSE else TRUE) then 1 else 0;
      v := TakesValueIn(L, r, min, Z, k, b);
  }

  lemma {:induction false} TakesValueBelow(L: Levels, r: Ref, min: nat, Z: Zone, b: bool) returns (v: Valuation)
    requires r.node.BddNode? && NodeOk(L, r.node, min) && Feasible(L, r.node, Z)
    ensures v.clocks in Z && Eval(L, r, v) == b
    decreases r.node, 0
  {
    var level, low, high := r.node.level, r.node.low, r.node.high;
    var up := low == (if b != r.neg then FALSE else TRUE);
    var child := if up then high else low;
    var w := TakesValue(L, child, level + 1, Z, b != r.neg);
    v := Valuation(w.clocks, if up then w.truths + {level} else w.truths - {level});
    EvalIgnoresAbove(L, child, level + 1, v.clocks, v.truths, w.truths);
    assert EvalNode(L, r.node, v) == Eval(L, child, v);
  }

  lemma {:induction false} TakesValueIn(L: Levels, r: Ref, min: nat, Z: Zone, k: nat, b: bool) returns (v: Valuation)
    requires r.node.CddNode? && NodeOk(L, r.node, min) && Feasible(L, r.node, Z)
    requires k == if r.node.elems[0].child == (if b != r.neg then FALSE else TRUE) then 1 else 0
    ensures v.clocks in Z && Eval(L, r, v) == b
    decreases r.node, 0
  {
    var level, elems := r.node.level, r.node.elems;
    assert elems[0].child != elems[0 + 1].child;
    v := TakesValue(L, elems[k].child, level + 1, ChildZone(L, level, elems, k, Z), b != r.neg);
    var d := DiffAt(L, level, v.clocks);
    PickIsPiece(elems, d);
    assert InPiece(elems, k, d);
    assert EvalNode(L, r.node, v) == Eval(L, elems[k].child, v);
  }

  /** The reduced form of r is the constant false exactly when r holds nowhere in Z. */
  lemma {:induction false} ReducedFalse(L: Levels, r: Ref, Z: Zone)
    requires Normal(L, r) && Nonempty(Z)
    ensures Reduce(L, r, Z) == FALSE <==> forall v: Valuation :: v.clocks in Z ==> !Eval(L, r, v)
  {
    if Reduce(L, r, Z) == FALSE {
      forall v: Valuation | v.clocks in Z ensures !Eval(L, r, v) { ReduceMeaning(L, r, 0, Z, v); }
    } else {
      ReduceOk(L, r, 0, Z);
      ReduceFeasible(L, r, 0, Z);
      var v := TakesValue(L, Reduce(L, r, Z), 0, Z, true);
      ReduceMeaning(L, r, 0, Z, v);
    }
  }

  /** The reduced form of r is the constant true exactly when r holds everywhere in Z. */
  lemma {:induction false} ReducedTrue(L: Levels, r: Ref, Z: Zone)
    requires Normal(L, r) && Nonempty(Z)
    ensures Reduce(L, r, Z) == TRUE <==> forall v: Valuation :: v.clocks in Z ==> Eval(L, r, v)
  {
    if Reduce(L, r, Z) == TRUE {
      forall v: Valuation | v.clocks in Z ensures Eval(L, r, v) { ReduceMeaning(L, r, 0, Z, v); }
    } else {
      ReduceOk(L, r, 0, Z);
      ReduceFeasible(L, r, 0, Z);
      var v := TakesValue(L, Reduce(L, r, Z), 0, Z, false);
      ReduceMeaning(L, r, 0, Z, v);
    }
  }

  // ----- Reducing again changes nothing

  lemma {:induction false} MergeDistinct(es: seq<Elem>)
    requires Distinct(es)
    ensures Merge(es) == es
  {
    if |es| > 1 {
      MergeDistinct(es[..|es| - 1]);
      assert es[|es| - 2].child != es[|es| - 2 + 1].child;
    }
  }

  /** Rebuilding a clock node from its own children gives the node itself. */
  lemma {:induction false} RebuildNode(r: Ref)
    requires r.node.CddNode? && ElemsOk(r.node.elems)
    ensures MakeClock(r.node.level, Seal(Merge(Masked(r.node.elems, r.neg)))) == r
  {
    var es := r.node.elems;
    var ms := Masked(es, r.neg);
    forall k | 0 <= k < |ms| - 1 ensures ms[k].child != ms[k + 1].child {
      assert es[k].child != es[k + 1].child;
    }
    MergeDistinct(ms);
    assert Seal(ms) == ms by { assert ms[|ms| - 1].bnd == INF; }
    MaskedTwice(es, r.neg);
    assert ms[0].child.neg == r.neg;
  }

  lemma {:induction false} MaskedTwice(es: seq<Elem>, mask: bool)
    ensures Masked(Masked(es, mask), mask) == es
  {
    var ms := Masked(Masked(es, mask), mask);
    forall k | 0 <= k < |es| ensures ms[k] == es[k] {
      assert NegCond(NegCond(es[k].child, mask), mask) == es[k].child;
    }
  }

  /** A diagram whose paths are all feasible is its own reduction. */
  lemma {:induction false} ReduceFixed(L: Levels, r: Ref, min: nat, Z: Zone)
    requires NodeOk(L, r.node, min) && Feasible(L, r.node, Z)
    ensures Reduce(L, r, Z) == r
    decreases r.node, 1
  {
    match r.node
    case Terminal =>
    case BddNode(level, low, high) =>
      ReduceFixed(L, NegCond(low, r.neg), level + 1, Z);
      ReduceFixed(L, NegCond(high, r.neg), level + 1, Z);
    case CddNode(level, elems) =>
      KidsFixed(L, r, Z);
      ClockFixed(L, r, Z);
  }

  lemma {:induction false} KidsFixed(L: Levels, r: Ref, Z: Zone)
    requires r.node.CddNode? && NodeOk(L, r.node, r.node.level) && Feasible(L, r.node, Z)
    ensures forall j :: 0 <= j < |r.node.elems| ==> Kept(L, r.node, r.neg, j, Z)
    decreases r.node, 0
  {
    forall j | 0 <= j < |r.node.elems| ensures Kept(L, r.node, r.neg, j, Z) {
      ReduceFixed(L, NegCond(r.node.elems[j].child, r.neg), r.node.level + 1, ChildZone(L, r.node.level, r.node.elems, j, Z));
    }
  }

  lemma {:induction false} ClockFixed(L: Levels, r: Ref, Z: Zone)
    requires r.node.CddNode? && ElemsOk(r.node.elems)
    requires forall j :: 0 <= j < |r.node.elems| ==> Kept(L, r.node, r.neg, j, Z)
    ensures Reduce(L, r, Z) == r
  {
    ItemsFixed(L, r.node, r.neg, 0, Z);
    assert ReduceItems(L, r.node, r.neg, 0, Z) == Masked(r.node.elems, r.neg);
    RebuildNode(r);
  }

  /** Child k is selected somewhere in Z and is its own reduction there. */
  ghost predicate Kept(L: Levels, n: Node, neg: bool, k: nat, Z: Zone)
    requires n.CddNode? && k < |n.elems|
  {
    && Nonempty(ChildZone(L, n.level, n.elems, k, Z))
    && Reduce(L, NegCond(n.elems[k].child, neg), ChildZone(L, n.level, n.elems, k, Z)) == NegCond(n.elems[k].child, neg)
  }

  lemma {:induction false} ItemsFixed(L: Levels, n: Node, neg: bool, k: nat, Z: Zone)
    requires n.CddNode? && k <= |n.elems|
    requires forall j :: 0 <= j < |n.elems| ==> Kept(L, n, neg, j, Z)
    ensures ReduceItems(L, n, neg, k, Z) == Masked(n.elems, neg)[k..]
    decreases |n.elems| - k
  {
    if k < |n.elems| {
      ItemsFixed(L, n, neg, k + 1, Z);
      ItemKept(L, n, neg, k, Z);
    }
  }

  lemma {:induction false} ItemKept(L: Levels, n: Node, neg: bool, k: nat, Z: Zone)
    requires n.CddNode? && k < |n.elems| && Kept(L, n, neg, k, Z)
    requires ReduceItems(L, n, neg, k + 1, Z) == Masked(n.elems, neg)[k + 1..]
    ensures ReduceItems(L, n, neg, k, Z) == Masked(n.elems, neg)[k..]
  {
    var ms := Masked(n.elems, neg);
    assert ms[k..] == [ms[k]] + ms[k + 1..];
  }

  /** Reduction is idempotent. */
  lemma {:induction false} ReduceTwice(L: Levels, r: Ref, Z: Zone)
    requires Normal(L, r) && Nonempty(Z)
    ensures Reduce(L, Reduce(L, r, Z), Z) == Reduce(L, r, Z)
  {
    ReduceOk(L, r, 0, Z);
    ReduceFeasible(L, r, 0, Z);
    ReduceFixed(L, Reduce(L, r, Z), 0, Z);
  }
}
