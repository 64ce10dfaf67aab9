/**
 * Two diagrams in normal form that mean the same, the levels being independent of one another, are the same diagram.
 */
module Canonicity {
  import opened Bounds
  import opened ConstraintGraph
  import opened Diagrams
  import opened Independence
  import opened Pieces
  import opened Apply

  /** The diagrams agree, whatever differences the clock levels are given. */
  ghost predicate SameFreely(L: Levels, a: Ref, b: Ref)
  {
    forall v: Valuation :: Eval(Independent(L), a, v) == Eval(Independent(L), b, v)
  }

  // ----- Boolean levels

  lemma {:induction false} BranchesSame(L: Levels, a: Ref, b: Ref, level: nat)
    requires NodeOk(L, a.node, level) && NodeOk(L, b.node, level) && level < |L| && L[level].BoolLevel? && SameFreely(L, a, b)
    ensures SameFreely(L, LowAt(a, level), LowAt(b, level)) && SameFreely(L, HighAt(a, level), HighAt(b, level))
    ensures NodeOk(L, LowAt(a, level).node, level + 1) && NodeOk(L, HighAt(a, level).node, level + 1)
    ensures NodeOk(L, LowAt(b, level).node, level + 1) && NodeOk(L, HighAt(b, level).node, level + 1)
  {
    var F := Independent(L);
    KindsOnly(L);
    BoolChildren(L, a, level);
    BoolChildren(L, b, level);
    BoolChildren(F, a, level);
    BoolChildren(F, b, level);
    forall v: Valuation
      ensures Eval(F, LowAt(a, level), v) == Eval(F, LowAt(b, level), v) && Eval(F, HighAt(a, level), v) == Eval(F, HighAt(b, level), v)
    {
      var off, on := v.truths - {level}, v.truths + {level};
      EvalIgnoresAbove(F, LowAt(a, level), level + 1, v.clocks, v.truths, off);
      EvalIgnoresAbove(F, LowAt(b, level), level + 1, v.clocks, v.truths, off);
      EvalIgnoresAbove(F, HighAt(a, level), level + 1, v.clocks, v.truths, on);
      EvalIgnoresAbove(F, HighAt(b, level), level + 1, v.clocks, v.truths, on);
      assert Eval(F, a, Valuation(v.clocks, off)) == Eval(F, b, Valuation(v.clocks, off));
      assert Eval(F, a, Valuation(v.clocks, on)) == Eval(F, b, Valuation(v.clocks, on));
    }
  }

  /** A boolean node is determined by its branches. */
  lemma {:induction false} FromBranches(L: Levels, a: Ref, b: Ref, level: nat)
    requires NodeOk(L, a.node, level) && NodeOk(L, b.node, level) && level < |L| && L[level].BoolLevel?
    requires LowAt(a, level) == LowAt(b, level) && HighAt(a, level) == HighAt(b, level)
    ensures a == b
  {
  }

  // ----- Clock levels

  /** The difference of one level replaced. */
  function Put(L: Levels, x: Clocks, level: nat, d: real): (y: Clocks)
    requires level < |L|
    ensures |y| == 2 * |L| && y[2 * level + 1] == d && y[2 * level] == 0.0
    ensures forall i :: 0 <= i < |y| && i != 2 * level && i != 2 * level + 1 ==> y[i] == if i < |x| then x[i] else 0.0
  {
    seq(2 * |L|, i requires 0 <= i < 2 * |L| => if i == 2 * level + 1 then d else if i == 2 * level then 0.0 else if i < |x| then x[i] else 0.0)
  }

  /** What lies below a level does not look at it. */
  lemma {:induction false} PutBelow(L: Levels, r: Ref, level: nat, v: Valuation, d: real)
    requires level < |L| && NodeOk(L, r.node, level + 1)
    ensures Eval(Independent(L), r, Valuation(Put(L, v.clocks, level, d), v.truths)) == Eval(Independent(L), r, v)
    decreases r
  {
    match r.node
    case Terminal =>
    case BddNode(at, low, high) =>
      NodeOkWeaken(L, low.node, level + 1, at + 1);
      NodeOkWeaken(L, high.node, level + 1, at + 1);
      PutBelow(L, low, level, v, d);
      PutBelow(L, high, level, v, d);
    case CddNode(at, elems) =>
      var y := Put(L, v.clocks, level, d);
      assert y[2 * at + 1] == (if 2 * at + 1 < |v.clocks| then v.clocks[2 * at + 1] else 0.0);
      assert y[2 * at] == (if 2 * at < |v.clocks| then v.clocks[2 * at] else 0.0);
      assert DiffAt(Independent(L), at, y) == DiffAt(Independent(L), at, v.clocks);
      var k := Pick(elems, DiffAt(Independent(L), at, y));
      if k < |elems| {
        NodeOkWeaken(L, elems[k].child.node, level + 1, at + 1);
        PutBelow(L, elems[k].child, level, v, d);
      }
  }

  /** At every difference both diagrams have children that mean the same. */
  lemma {:induction false} PiecesSame(L: Levels, a: Ref, b: Ref, level: nat, d: real)
    requires NodeOk(L, a.node, level) && NodeOk(L, b.node, level) && level < |L| && L[level].ClockLevel? && SameFreely(L, a, b)
    ensures var es, fs := Kids(a, level), Kids(b, level);
            && Cuts(es) && Cuts(fs) && Pick(es, d) < |es| && Pick(fs, d) < |fs|
            && NodeOk(L, es[Pick(es, d)].child.node, level + 1) && NodeOk(L, fs[Pick(fs, d)].child.node, level + 1)
            && SameFreely(L, es[Pick(es, d)].child, fs[Pick(fs, d)].child)
  {
    var F, es, fs := Independent(L), Kids(a, level), Kids(b, level);
    KindsOnly(L);
    KidsFacts(L, a, level);
    KidsFacts(L, b, level);
    PickIsPiece(es, d);
    PickIsPiece(fs, d);
    var c, e := es[Pick(es, d)].child, fs[Pick(fs, d)].child;
    forall v: Valuation ensures Eval(F, c, v) == Eval(F, e, v) {
      var w := Valuation(Put(L, v.clocks, level, d), v.truths);
      PutBelow(L, c, level, v, d);
      PutBelow(L, e, level, v, d);
      KidsMeaning(F, a, level, w);
      KidsMeaning(F, b, level, w);
      assert DiffAt(F, level, w.clocks) == d;
      assert Eval(F, a, w) == Eval(F, b, w);
    }
  }

  /** At every difference the same child is picked. */
  ghost predicate PickSame(es: seq<Elem>, fs: seq<Elem>)
  {
    forall d: real :: Pick(es, d) < |es| && Pick(fs, d) < |fs| && es[Pick(es, d)].child == fs[Pick(fs, d)].child
  }

  /** Two lists of pieces that pick the same, and have no bound between equal children, are the same list. */
  lemma {:induction false} SameList(es: seq<Elem>, fs: seq<Elem>)
    requires Cuts(es) && Cuts(fs) && Distinct(es) && Distinct(fs) && PickSame(es, fs)
    ensures es == fs
  {
    SameUpTo(es, fs, |es| - 1);
    SameUpTo(fs, es, |fs| - 1);
  }

  lemma {:induction false} SameUpTo(es: seq<Elem>, fs: seq<Elem>, k: nat)
    requires Cuts(es) && Cuts(fs) && Distinct(es) && Distinct(fs) && PickSame(es, fs) && k < |es|
    ensures k < |fs| && forall j :: 0 <= j <= k ==> es[j] == fs[j]
  {
    if k > 0 { SameUpTo(es, fs, k - 1); }
    assert Lower(es, k) == Lower(fs, k);
    NotShorter(es, fs, k);
    NotShorter(fs, es, k);
  }

  lemma {:induction false} NotShorter(es: seq<Elem>, fs: seq<Elem>, k: nat)
    requires Cuts(es) && Cuts(fs) && Distinct(es) && (PickSame(es, fs) || PickSame(fs, es)) && k < |es| && k < |fs| && Lower(es, k) == Lower(fs, k)
    ensures es[k].bnd >= fs[k].bnd
    ensures es[k].bnd == fs[k].bnd ==> es[k].child == fs[k].child
  {
    var low := Lower(es, k);
    BothPick(es, fs, k, k, low, if es[k].bnd < fs[k].bnd then es[k].bnd else fs[k].bnd);
    if es[k].bnd < fs[k].bnd {
      BothPick(es, fs, k + 1, k, es[k].bnd, if es[k + 1].bnd < fs[k].bnd then es[k + 1].bnd else fs[k].bnd);
    }
  }

  /** Two pieces with a common part have the same child. */
  lemma {:induction false} BothPick(es: seq<Elem>, fs: seq<Elem>, i: nat, j: nat, low: int, up: int)
    requires Cuts(es) && Cuts(fs) && (PickSame(es, fs) || PickSame(fs, es)) && i < |es| && j < |fs|
    requires Lower(es, i) <= low < up <= es[i].bnd && Lower(fs, j) <= low && up <= fs[j].bnd
    requires (low == -INF || Finite(low)) && (up == INF || Finite(up))
    ensures es[i].child == fs[j].child
  {
    var t := Inside(low, up);
    InsidePicks(es, i, low, up, t);
    InsidePicks(fs, j, low, up, t);
  }

  lemma {:induction false} InsidePicks(es: seq<Elem>, i: nat, low: int, up: int, t: real)
    requires Cuts(es) && i < |es| && Lower(es, i) <= low && up <= es[i].bnd && MeetsLower(t, low) && MeetsUpper(t, up)
    ensures Pick(es, t) == i
  {
    UpperMonotone(t, up, es[i].bnd);
    if i > 0 && MeetsUpper(t, Lower(es, i)) { UpperMonotone(t, Lower(es, i), low); }
    PickIsPiece(es, t);
    assert InPiece(es, i, t);
  }

  lemma {:induction false} KidsDistinct(L: Levels, r: Ref, level: nat)
    requires NodeOk(L, r.node, level)
    ensures Distinct(Kids(r, level))
  {
  }

  /** A clock node is determined by its pieces. */
  lemma {:induction false} FromPieces(L: Levels, a: Ref, b: Ref, level: nat)
    requires NodeOk(L, a.node, level) && NodeOk(L, b.node, level) && Kids(a, level) == Kids(b, level)
    ensures a == b
  {
    if a.node.CddNode? && a.node.level == level {
      var es, fs := Masked(a.node.elems, a.neg), Masked(b.node.elems, b.neg);
      assert es[0].child.neg == a.neg && fs[0].child.neg == b.neg;
      forall k | 0 <= k < |es| ensures a.node.elems[k] == b.node.elems[k] { assert es[k] == fs[k]; }
    }
  }

  // ----- All levels

  /** The normal form is canonical. */
  lemma {:induction false} Canonical(L: Levels, a: Ref, b: Ref, min: nat)
    requires NodeOk(L, a.node, min) && NodeOk(L, b.node, min)
    ensures SameFreely(L, a, b) <==> a == b
    decreases if min <= |L| then |L| - min + 1 else 0
  {
    var level := Minimum(LevelOf(L, a.node), LevelOf(L, b.node));
    StartsAt(L, a.node, min, level);
    StartsAt(L, b.node, min, level);
    if !SameFreely(L, a, b) {
    } else if level == |L| {
      var v := Valuation([], {});
      assert Eval(Independent(L), a, v) == Eval(Independent(L), b, v);
    } else if L[level].BoolLevel? {
      BranchesSame(L, a, b, level);
      Canonical(L, LowAt(a, level), LowAt(b, level), level + 1);
      Canonical(L, HighAt(a, level), HighAt(b, level), level + 1);
      FromBranches(L, a, b, level);
    } else {
      var es, fs := Kids(a, level), Kids(b, level);
      forall d: real ensures Pick(es, d) < |es| && Pick(fs, d) < |fs| && es[Pick(es, d)].child == fs[Pick(fs, d)].child {
        PiecesSame(L, a, b, level, d);
        Canonical(L, es[Pick(es, d)].child, fs[Pick(fs, d)].child, level + 1);
      }
      PiecesSame(L, a, b, level, 0.0);
      KidsDistinct(L, a, level);
      KidsDistinct(L, b, level);
      SameList(es, fs);
      FromPieces(L, a, b, level);
    }
  }

  /** An operation has one result in normal form, however it comes about. */
  lemma {:induction false} OnlyResult(L: Levels, op: Op, l: Ref, r: Ref, x: Ref, y: Ref, min: nat)
    requires NodeOk(L, x.node, min) && NodeOk(L, y.node, min) && Denotes(L, x, op, l, r) && Denotes(L, y, op, l, r)
    ensures x == y
  {
    forall v: Valuation ensures Eval(Independent(L), x, v) == Eval(Independent(L), y, v) { assert v.clocks in Everywhere(); }
    Canonical(L, x, y, min);
  }

  /** So the order in which operands are combined does not show in the result. */
  lemma {:induction false} Associative(L: Levels, op: Op, a: Ref, b: Ref, c: Ref, ab: Ref, bc: Ref, x: Ref, y: Ref, min: nat)
    requires NodeOk(L, x.node, min) && NodeOk(L, y.node, min)
    requires Denotes(L, ab, op, a, b) && Denotes(L, x, op, ab, c) && Denotes(L, bc, op, b, c) && Denotes(L, y, op, a, bc)
    ensures x == y
  {
    forall v: Valuation ensures Eval(Independent(L), x, v) == Eval(Independent(L), y, v) { assert v.clocks in Everywhere(); }
    Canonical(L, x, y, min);
  }
}
