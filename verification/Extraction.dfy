/**
 * Difference-bound matrices as diagrams, and taking a diagram apart zone by zone.
 *
 * The matrix library is not part of this model.  What it returns is a parameter, described by the
 * set of clock values it stands for.
 */
module Extraction {
  import opened Bounds
  import opened ConstraintGraph
  import opened Diagrams
  import opened Apply
  import opened Operations
  import opened Declarations

  type Matrix = seq<seq<int>>

  /** Which bounds of a matrix are needed: the others follow from them. */
  type Selection = seq<seq<bool>>

  ghost predicate Square<T>(m: seq<seq<T>>, dim: nat)
  {
    |m| == dim && forall i :: 0 <= i < dim ==> |m[i]| == dim
  }

  predicate Selected(keep: Selection, i: nat, j: nat)
  {
    i < |keep| && j < |keep[i]| && keep[i][j]
  }

  /** The bound on clock i minus clock j, if it is selected. */
  ghost predicate BoundHolds(dbm: Matrix, keep: Selection, i: nat, j: nat, x: Clocks)
    requires Square(dbm, |dbm|)
  {
    i < |dbm| && j < |dbm| && Selected(keep, i, j) ==> MeetsUpper(Diff(x, i, j), dbm[i][j])
  }

  /** The values that meet every selected bound. */
  ghost predicate MeetsSelected(dbm: Matrix, keep: Selection, x: Clocks)
    requires Square(dbm, |dbm|)
  {
    forall i, j :: 0 <= i < |dbm| && 0 <= j < |dbm| && i != j ==> BoundHolds(dbm, keep, i, j, x)
  }

  /** Selected bounds are finite, and two that meet leave room between them. */
  ghost predicate MatrixOk(dbm: Matrix, keep: Selection, dim: nat)
  {
    && Square(dbm, dim) && Square(keep, dim)
    && (forall i, j :: 0 <= i < dim && 0 <= j < dim && i != j && keep[i][j] ==> Finite(dbm[i][j]))
    && (forall i, j :: 0 <= i < dim && 0 <= j < dim && i != j && keep[i][j] && keep[j][i] ==> UpperToLower(dbm[j][i]) < dbm[i][j])
  }

  // ----- From a matrix to a diagram

  /** The bounds that the matrix puts on the pair of a level, both ways. */
  ghost predicate LevelHolds(L: Levels, dbm: Matrix, keep: Selection, l: nat, x: Clocks)
    requires Square(dbm, |dbm|) && l < |L|
  {
    L[l].ClockLevel? ==> BoundHolds(dbm, keep, L[l].clock1, L[l].clock2, x) && BoundHolds(dbm, keep, L[l].clock2, L[l].clock1, x)
  }

  ghost predicate LevelsHold(L: Levels, dbm: Matrix, keep: Selection, k: nat, x: Clocks)
    requires Square(dbm, |dbm|)
  {
    forall l :: k <= l < |L| ==> LevelHolds(L, dbm, keep, l, x)
  }

  /** The node that puts the bounds of one pair on top of c. */
  function Bounded(level: nat, c: Ref, lo: bool, low: int, hi: bool, up: int): Ref
    requires lo || hi
  {
    if lo then
      MakeNode(level, [Elem(FALSE, low)] + (if hi then [Elem(c, up), Elem(FALSE, INF)] else [Elem(c, INF)]))
    else
      NegCond(MakeNode(level, [Elem(Ref(false, c.node), up), Elem(NegCond(FALSE, c.neg), INF)]), c.neg)
  }

  lemma {:induction false} BoundedOk(L: Levels, level: nat, c: Ref, lo: bool, low: int, hi: bool, up: int)
    requires level < |L| && L[level].ClockLevel? && NodeOk(L, c.node, level + 1) && c != FALSE
    requires (lo || hi) && (lo ==> Finite(low)) && (hi ==> Finite(up)) && (lo && hi ==> low < up)
    ensures Bounded(level, c, lo, low, hi, up) != FALSE
    ensures NodeOk(L, Bounded(level, c, lo, low, hi, up).node, level)
  {
    var es := Bounded(level, c, lo, low, hi, up).node.elems;
    assert ElemsOk(es);
  }

  lemma {:induction false} BoundedMeaning(L: Levels, level: nat, c: Ref, lo: bool, low: int, hi: bool, up: int, v: Valuation)
    requires level < |L| && L[level].ClockLevel? && NodeOk(L, c.node, level + 1) && c != FALSE
    requires (lo || hi) && (lo ==> Finite(low)) && (hi ==> Finite(up)) && (lo && hi ==> low < up)
    ensures var d := DiffAt(L, level, v.clocks);
            Eval(L, Bounded(level, c, lo, low, hi, up), v)
            <==> Eval(L, c, v) && (lo ==> MeetsLower(d, low)) && (hi ==> MeetsUpper(d, up))
  {
    BoundedOk(L, level, c, lo, low, hi, up);
    var r, d := Bounded(level, c, lo, low, hi, up), DiffAt(L, level, v.clocks);
    var es := r.node.elems;
    PickIsPiece(es, d);
    var p := Pick(es, d);
    assert EvalNode(L, r.node, v) == Eval(L, es[p].child, v);
    if lo && hi && MeetsUpper(d, low) { UpperMonotone(d, low, up); }
  }

  /** The conjunction of the selected bounds of a matrix, built from the last level up. */
  method FromDbm(L: Levels, dbm: Matrix, keep: Selection, dim: nat) returns (c: Ref)
    requires MatrixOk(dbm, keep, dim) && forall l :: 0 <= l < |L| && L[l].ClockLevel? ==> L[l].clock2 < L[l].clock1
    ensures Normal(L, c) && c != FALSE
    ensures forall v: Valuation :: Eval(L, c, v) <==> LevelsHold(L, dbm, keep, 0, v.clocks)
  {
    c := TRUE;
    var k: nat := |L|;
    while k > 0
      invariant k <= |L| && NodeOk(L, c.node, k) && c != FALSE
      invariant forall v: Valuation :: Eval(L, c, v) <==> LevelsHold(L, dbm, keep, k, v.clocks)
    {
      ghost var c0 := c;
      k := k - 1;
      var lo, hi := false, false;
      if L[k].ClockLevel? && L[k].clock1 < dim && L[k].clock2 < dim {
        var i, j := L[k].clock1, L[k].clock2;
        lo, hi := keep[j][i], keep[i][j];
        if lo || hi {
          c := Bounded(k, c, lo, UpperToLower(dbm[j][i]), hi, dbm[i][j]);
          BoundedOk(L, k, c0, lo, UpperToLower(dbm[j][i]), hi, dbm[i][j]);
        }
      }
      NodeOkWeaken(L, c.node, k, if lo || hi then k else k + 1);
      forall v: Valuation ensures Eval(L, c, v) <==> LevelsHold(L, dbm, keep, k, v.clocks) {
        LevelMeaning(L, dbm, keep, dim, k, c0, c, v);
      }
    }
  }

  /** One level adds the bounds of its pair. */
  lemma {:induction false} LevelMeaning(L: Levels, dbm: Matrix, keep: Selection, dim: nat, k: nat, c0: Ref, c: Ref, v: Valuation)
    requires MatrixOk(dbm, keep, dim) && k < |L| && (L[k].ClockLevel? ==> L[k].clock2 < L[k].clock1)
    requires NodeOk(L, c0.node, k + 1) && c0 != FALSE
    requires Eval(L, c0, v) <==> LevelsHold(L, dbm, keep, k + 1, v.clocks)
    requires if L[k].ClockLevel? && L[k].clock1 < dim && L[k].clock2 < dim then
               var i, j := L[k].clock1, L[k].clock2;
               if keep[j][i] || keep[i][j] then c == Bounded(k, c0, keep[j][i], UpperToLower(dbm[j][i]), keep[i][j], dbm[i][j])
               else c == c0
             else c == c0
    ensures Eval(L, c, v) <==> LevelsHold(L, dbm, keep, k, v.clocks)
  {
    if L[k].ClockLevel? && L[k].clock1 < dim && L[k].clock2 < dim {
      var i, j := L[k].clock1, L[k].clock2;
      if keep[j][i] || keep[i][j] {
        BoundedMeaning(L, k, c0, keep[j][i], UpperToLower(dbm[j][i]), keep[i][j], dbm[i][j], v);
      }
      if keep[j][i] { UpperToLowerMeaning(-DiffAt(L, k, v.clocks), dbm[j][i]); }
    }
    assert Eval(L, c, v) <==> Eval(L, c0, v) && LevelHolds(L, dbm, keep, k, v.clocks);
  }

  /** With a level for every pair of clocks no selected bound is lost. */
  lemma {:induction false} LevelsAreMatrix(L: Levels, diff2level: seq<nat>, clocknum: nat, dbm: Matrix, keep: Selection, x: Clocks)
    requires Declared(L, diff2level, clocknum) && Square(dbm, |dbm|) && |dbm| <= clocknum
    ensures LevelsHold(L, dbm, keep, 0, x) <==> MeetsSelected(dbm, keep, x)
  {
    if LevelsHold(L, dbm, keep, 0, x) {
      forall i, j | 0 <= i < |dbm| && 0 <= j < |dbm| && i != j ensures BoundHolds(dbm, keep, i, j, x) {
        assert LevelKnown(L, diff2level, Larger(i, j), Smaller(i, j));
        assert LevelHolds(L, dbm, keep, diff2level[Difference(Larger(i, j), Smaller(i, j))], x);
      }
    }
  }

  // ----- Taking the first zone of a diagram

  /** The first child that is not false. */
  function FirstKid(r: Ref): nat
    requires r.node.CddNode?
  {
    if |r.node.elems| > 1 && NegCond(r.node.elems[0].child, r.neg) == FALSE then 1 else 0
  }

  /** The clocks follow the chosen path: the first non-false child of every clock node. */
  ghost predicate OnPath(L: Levels, r: Ref, x: Clocks)
    decreases r.node
  {
    r.node.CddNode? && FirstKid(r) < |r.node.elems| ==>
      InPiece(r.node.elems, FirstKid(r), DiffAt(L, r.node.level, x)) && OnPath(L, NegCond(r.node.elems[FirstKid(r)].child, r.neg), x)
  }

  /** Where the chosen path ends: at a boolean node, or at true. */
  function Bottom(r: Ref): Ref
    decreases r.node
  {
    if r.node.CddNode? && FirstKid(r) < |r.node.elems| then Bottom(NegCond(r.node.elems[FirstKid(r)].child, r.neg)) else r
  }

  ghost predicate NonNegative(x: Clocks, dim: nat)
  {
    forall i :: 0 <= i < dim ==> Diff(x, i, 0) >= 0.0
  }

  /** The zone that is taken out: the chosen path, with every clock at or above the reference clock. */
  ghost predicate InZone(L: Levels, r: Ref, dim: nat, x: Clocks)
  {
    NonNegative(x, dim) && OnPath(L, r, x)
  }

  function Piece(r: Ref, k: nat): Ref
    requires r.node.CddNode? && k < |r.node.elems|
  {
    NegCond(r.node.elems[k].child, r.neg)
  }

  /** Child k is not false, and all children before it are. */
  ghost predicate IsFirst(r: Ref, k: nat)
  {
    && r.node.CddNode? && k < |r.node.elems| && Piece(r, k) != FALSE
    && forall j :: 0 <= j < k ==> Piece(r, j) == FALSE
  }

  /** There are at most two neighbours without a change from false to something else, so the first or the second child will do. */
  lemma {:induction false} FirstKidOk(L: Levels, r: Ref, min: nat)
    requires NodeOk(L, r.node, min) && r.node.CddNode?
    ensures IsFirst(r, FirstKid(r))
    ensures NodeOk(L, r.node.elems[FirstKid(r)].child.node, r.node.level + 1)
  {
  }

  /** The chosen path never ends in false, and in its zone the diagram agrees with its end. */
  lemma {:induction false} BottomAgrees(L: Levels, r: Ref, min: nat)
    requires NodeOk(L, r.node, min) && r != FALSE
    ensures Bottom(r) != FALSE && NodeOk(L, Bottom(r).node, min) && !Bottom(r).node.CddNode?
    ensures forall v: Valuation :: OnPath(L, r, v.clocks) ==> Eval(L, r, v) == Eval(L, Bottom(r), v)
    decreases r.node
  {
    if r.node.CddNode? {
      FirstKidOk(L, r, min);
      var k := FirstKid(r);
      var next := NegCond(r.node.elems[k].child, r.neg);
      BottomAgrees(L, next, r.node.level + 1);
      NodeOkWeaken(L, Bottom(r).node, min, r.node.level + 1);
      forall v: Valuation | OnPath(L, r, v.clocks) ensures Eval(L, r, v) == Eval(L, Bottom(r), v) {
        PickIsPiece(r.node.elems, DiffAt(L, r.node.level, v.clocks));
        EvalNeg(L, r.node.elems[k].child, r.neg, v);
      }
    }
  }

  // ----- The walk, node by node

  /** The nodes met from the root down to the end, and the pieces taken at all of them but the last. */
  datatype Walk = Walk(nodes: seq<Ref>, pieces: seq<nat>)

  /** From r down, at every clock node into the first piece that is not false. */
  ghost predicate Follows(w: Walk, r: Ref)
  {
    && |w.nodes| == |w.pieces| + 1 && w.nodes[0] == r
    && forall i :: 0 <= i < |w.pieces| ==> IsFirst(w.nodes[i], w.pieces[i]) && w.nodes[i + 1] == Piece(w.nodes[i], w.pieces[i])
  }

  /** The walk has come to its end: a boolean node, or true. */
  ghost predicate Walked(w: Walk, r: Ref, bottom: Ref)
  {
    Follows(w, r) && w.nodes[|w.pieces|] == bottom && bottom != FALSE && !bottom.node.CddNode?
  }

  ghost predicate InStep(L: Levels, w: Walk, i: nat, x: Clocks)
  {
    && i < |w.pieces| && i < |w.nodes| && w.nodes[i].node.CddNode? && w.pieces[i] < |w.nodes[i].node.elems|
    && InPiece(w.nodes[i].node.elems, w.pieces[i], DiffAt(L, w.nodes[i].node.level, x))
  }

  /** The clocks are in the taken piece of each of the first n nodes. */
  ghost predicate WithinWalk(L: Levels, w: Walk, n: nat, x: Clocks)
  {
    forall i :: 0 <= i < n ==> InStep(L, w, i, x)
  }

  /** In the pieces taken at the first n nodes, and below the one that is taken next. */
  ghost predicate BesideWalk(L: Levels, w: Walk, n: nat, x: Clocks)
  {
    && WithinWalk(L, w, n, x)
    && n < |w.pieces| && n < |w.nodes| && w.nodes[n].node.CddNode? && w.pieces[n] < |w.nodes[n].node.elems|
    && !MeetsLower(DiffAt(L, w.nodes[n].node.level, x), Lower(w.nodes[n].node.elems, w.pieces[n]))
  }

  lemma {:induction false} WalkOk(L: Levels, r: Ref, w: Walk, n: nat)
    requires Normal(L, r) && Follows(w, r) && n <= |w.pieces|
    ensures NodeOk(L, w.nodes[n].node, n)
  {
    if n > 0 {
      WalkOk(L, r, w, n - 1);
      assert IsFirst(w.nodes[n - 1], w.pieces[n - 1]);
      NodeOkWeaken(L, w.nodes[n].node, n, w.nodes[n - 1].node.level + 1);
    }
  }

  /** Within the pieces taken so far the diagram is the node that has been reached. */
  lemma {:induction false} WalkAgrees(L: Levels, r: Ref, w: Walk, n: nat, v: Valuation)
    requires Normal(L, r) && Follows(w, r) && n <= |w.pieces| && WithinWalk(L, w, n, v.clocks)
    ensures Eval(L, w.nodes[n], v) == Eval(L, r, v)
  {
    if n > 0 {
      var node, k := w.nodes[n - 1], w.pieces[n - 1];
      WalkAgrees(L, r, w, n - 1, v);
      WalkOk(L, r, w, n - 1);
      assert InStep(L, w, n - 1, v.clocks);
      PickIsPiece(node.node.elems, DiffAt(L, node.node.level, v.clocks));
      EvalNeg(L, node.node.elems[k].child, node.neg, v);
    }
  }

  /** Nothing of the diagram comes before the zone: beside the walk, below a piece that it takes, the diagram is false. */
  lemma {:induction false} NothingBefore(L: Levels, r: Ref, w: Walk, n: nat, v: Valuation)
    requires Normal(L, r) && Follows(w, r) && BesideWalk(L, w, n, v.clocks)
    ensures !Eval(L, r, v)
  {
    WalkAgrees(L, r, w, n, v);
    WalkOk(L, r, w, n);
    var node, k := w.nodes[n], w.pieces[n];
    var d := DiffAt(L, node.node.level, v.clocks);
    PickIsPiece(node.node.elems, d);
    var j := Pick(node.node.elems, d);
    PickFromFacts(node.node.elems, d, 0);
    assert j < k && Piece(node, j) == FALSE;
    EvalNeg(L, node.node.elems[j].child, node.neg, v);
  }

  /** There is only one walk, and it is the chosen path. */
  lemma {:induction false} WalkIsPath(L: Levels, r: Ref, w: Walk, n: nat, x: Clocks)
    requires Normal(L, r) && Follows(w, r) && n <= |w.pieces|
    ensures Bottom(w.nodes[n]) == Bottom(r)
    ensures OnPath(L, r, x) <==> WithinWalk(L, w, n, x) && OnPath(L, w.nodes[n], x)
  {
    if n > 0 {
      WalkIsPath(L, r, w, n - 1, x);
      WalkOk(L, r, w, n - 1);
      FirstKidOk(L, w.nodes[n - 1], n - 1);
      assert IsFirst(w.nodes[n - 1], w.pieces[n - 1]);
      assert WithinWalk(L, w, n, x) <==> WithinWalk(L, w, n - 1, x) && InStep(L, w, n - 1, x);
    }
  }

  /** One constraint that the walk hands to the matrix library: clock i minus clock j is at most bnd. */
  datatype Constraint = Constraint(i: nat, j: nat, bnd: int)

  ghost predicate MeetsAll(cs: seq<Constraint>, x: Clocks)
  {
    forall k :: 0 <= k < |cs| ==> MeetsUpper(Diff(x, cs[k].i, cs[k].j), cs[k].bnd)
  }

  lemma {:induction false} MeetsMore(cs: seq<Constraint>, c: Constraint, x: Clocks)
    ensures MeetsAll(cs + [c], x) <==> MeetsAll(cs, x) && MeetsUpper(Diff(x, c.i, c.j), c.bnd)
  {
    if MeetsAll(cs + [c], x) {
      forall k | 0 <= k < |cs| ensures MeetsUpper(Diff(x, cs[k].i, cs[k].j), cs[k].bnd) {
        assert (cs + [c])[k] == cs[k];
      }
      assert (cs + [c])[|cs|] == c;
    }
  }

  /** Walks down, at every clock node into the first piece that is not false, and collects the bounds. */
  method WalkDown(L: Levels, r: Ref) returns (cs: seq<Constraint>, bottom: Ref, ghost w: Walk)
    requires Normal(L, r) && r != FALSE
    ensures Walked(w, r, bottom) && bottom == Bottom(r)
    ensures forall x: Clocks :: MeetsAll(cs, x) <==> WithinWalk(L, w, |w.pieces|, x)
    ensures forall x: Clocks :: MeetsAll(cs, x) <==> OnPath(L, r, x)
  {
    cs, bottom, w := [], r, Walk([r], []);
    while bottom.node.CddNode?
      invariant NodeOk(L, bottom.node, |w.pieces|) && bottom != FALSE && Follows(w, r) && w.nodes[|w.pieces|] == bottom
      invariant forall x: Clocks :: MeetsAll(cs, x) <==> WithinWalk(L, w, |w.pieces|, x)
      decreases bottom.node
    {
      FirstKidOk(L, bottom, |w.pieces|);
      var info, k := L[bottom.node.level], FirstKid(bottom);
      var low, up := Lower(bottom.node.elems, k), bottom.node.elems[k].bnd;
      ghost var was, before, last := cs, w, bottom;
      cs := cs + [Constraint(info.clock2, info.clock1, LowerToUpper(low))];
      cs := cs + [Constraint(info.clock1, info.clock2, up)];
      bottom := Piece(bottom, k);
      w := Walk(w.nodes + [bottom], w.pieces + [k]);
      NodeOkWeaken(L, bottom.node, |w.pieces|, last.node.level + 1);
      forall x: Clocks ensures MeetsAll(cs, x) <==> WithinWalk(L, w, |w.pieces|, x) {
        MeetsBoth(was, info.clock1, info.clock2, low, up, x);
        WithinNext(L, before, k, bottom, x);
      }
    }
    PathWalked(L, r, w, bottom);
  }

  lemma {:induction false} MeetsBoth(cs: seq<Constraint>, i: nat, j: nat, low: int, up: int, x: Clocks)
    requires low == -INF || Finite(low)
    ensures MeetsAll(cs + [Constraint(j, i, LowerToUpper(low))] + [Constraint(i, j, up)], x)
            <==> MeetsAll(cs, x) && MeetsLower(Diff(x, i, j), low) && MeetsUpper(Diff(x, i, j), up)
  {
    MeetsMore(cs, Constraint(j, i, LowerToUpper(low)), x);
    MeetsMore(cs + [Constraint(j, i, LowerToUpper(low))], Constraint(i, j, up), x);
    LowerToUpperMeaning(Diff(x, i, j), low);
    assert Diff(x, j, i) == -Diff(x, i, j);
  }

  lemma {:induction false} WithinNext(L: Levels, w: Walk, k: nat, next: Ref, x: Clocks)
    requires |w.nodes| == |w.pieces| + 1 && w.nodes[|w.pieces|].node.CddNode? && k < |w.nodes[|w.pieces|].node.elems|
    ensures var last := w.nodes[|w.pieces|];
            WithinWalk(L, Walk(w.nodes + [next], w.pieces + [k]), |w.pieces| + 1, x)
            <==> WithinWalk(L, w, |w.pieces|, x) && InPiece(last.node.elems, k, DiffAt(L, last.node.level, x))
  {
    var n, w' := |w.pieces|, Walk(w.nodes + [next], w.pieces + [k]);
    assert forall i :: 0 <= i < n ==> w'.nodes[i] == w.nodes[i] && w'.pieces[i] == w.pieces[i];
    assert forall i :: 0 <= i < n ==> (InStep(L, w', i, x) <==> InStep(L, w, i, x));
    if WithinWalk(L, w', n + 1, x) {
      assert InStep(L, w', n, x);
      forall i | 0 <= i < n ensures InStep(L, w, i, x) { assert InStep(L, w', i, x); }
    }
  }

  lemma {:induction false} PathWalked(L: Levels, r: Ref, w: Walk, bottom: Ref)
    requires Normal(L, r) && Walked(w, r, bottom)
    ensures bottom == Bottom(r) && forall x: Clocks :: OnPath(L, r, x) <==> WithinWalk(L, w, |w.pieces|, x)
  {
    forall x: Clocks ensures bottom == Bottom(r) && (OnPath(L, r, x) <==> WithinWalk(L, w, |w.pieces|, x)) {
      WalkIsPath(L, r, w, |w.pieces|, x);
    }
    WalkIsPath(L, r, w, |w.pieces|, []);
  }

  /** The boolean part below the first zone. */
  method ExtractBdd(L: Levels, r: Ref) returns (bottom: Ref, ghost w: Walk)
    requires Normal(L, r) && r != FALSE
    ensures Walked(w, r, bottom) && Normal(L, bottom)
    ensures forall v: Valuation :: OnPath(L, r, v.clocks) ==> Eval(L, r, v) == Eval(L, bottom, v)
  {
    BottomAgrees(L, r, 0);
    bottom, w := r, Walk([r], []);
    while bottom.node.CddNode?
      invariant NodeOk(L, bottom.node, |w.pieces|) && bottom != FALSE && Follows(w, r) && w.nodes[|w.pieces|] == bottom
      decreases bottom.node
    {
      FirstKidOk(L, bottom, |w.pieces|);
      ghost var last := bottom;
      var k := FirstKid(bottom);
      bottom := Piece(bottom, k);
      w := Walk(w.nodes + [bottom], w.pieces + [k]);
      NodeOkWeaken(L, bottom.node, |w.pieces|, last.node.level + 1);
    }
    if bottom.node.Terminal? {
      bottom := TRUE;
    }
    PathWalked(L, r, w, bottom);
  }

  /**
   * Splits the first zone off a diagram.  The matrix is what the matrix library makes of
   * the bounds on the chosen path and of all clocks being at or above the reference clock.
   */
  method ExtractDbm(ops: Operators, diff2level: seq<nat>, clocknum: nat, r: Ref, dbm: Matrix, keep: Selection, dim: nat)
    returns (cs: seq<Constraint>, rest: Ref, ghost w: Walk)
    requires ops.Valid() && Declared(ops.L, diff2level, clocknum) && dim <= clocknum
    requires Normal(ops.L, r) && r != FALSE
    requires MatrixOk(dbm, keep, dim)
    requires forall x: Clocks :: MeetsSelected(dbm, keep, x) <==> InZone(ops.L, r, dim, x)
    modifies ops.table
    ensures ops.Valid() && Normal(ops.L, rest)
    ensures Walked(w, r, Bottom(r)) && forall x: Clocks :: MeetsAll(cs, x) <==> WithinWalk(ops.L, w, |w.pieces|, x)
    ensures forall x: Clocks :: MeetsAll(cs, x) <==> OnPath(ops.L, r, x)
    ensures forall v: Valuation, n: nat :: BesideWalk(ops.L, w, n, v.clocks) ==> !Eval(ops.L, r, v)
    ensures forall v: Valuation :: Eval(ops.L, rest, v) <==> Eval(ops.L, r, v) && !InZone(ops.L, r, dim, v.clocks)
    ensures forall v: Valuation ::
              Eval(ops.L, r, v) <==> (InZone(ops.L, r, dim, v.clocks) && Eval(ops.L, Bottom(r), v)) || Eval(ops.L, rest, v)
  {
    var bottom;
    cs, bottom, w := WalkDown(ops.L, r);
    BottomAgrees(ops.L, r, 0);
    forall v: Valuation, n: nat | BesideWalk(ops.L, w, n, v.clocks) ensures !Eval(ops.L, r, v) {
      NothingBefore(ops.L, r, w, n, v);
    }
    var zone := FromDbm(ops.L, dbm, keep, dim);
    rest := And(ops, r, Neg(zone), 0);
    forall v: Valuation ensures Eval(ops.L, rest, v) <==> Eval(ops.L, r, v) && !InZone(ops.L, r, dim, v.clocks) {
      LevelsAreMatrix(ops.L, diff2level, clocknum, dbm, keep, v.clocks);
      EvalNeg(ops.L, zone, true, v);
    }
  }

  // ----- Extraction makes progress

  /** A boolean diagram other than false is true for some choice of the booleans from its level on. */
  lemma {:induction false} BooleanWitness(L: Levels, r: Ref, min: nat, x: Clocks) returns (t: set<nat>)
    requires NodeOk(L, r.node, min) && IsBdd(r.node) && r != FALSE
    ensures Eval(L, r, Valuation(x, t))
    decreases r.node
  {
    if r.node.Terminal? {
      t := {};
    } else {
      var level := r.node.level;
      BoolChildren(L, r, level);
      var low, high := LowAt(r, level), HighAt(r, level);
      if low != FALSE {
        t := BooleanWitness(L, low, level + 1, x);
        EvalIgnoresAbove(L, low, level + 1, x, t, t - {level});
        t := t - {level};
      } else {
        t := BooleanWitness(L, high, level + 1, x);
        EvalIgnoresAbove(L, high, level + 1, x, t, t + {level});
        t := t + {level};
      }
    }
  }

  /** A zone that is not empty takes something out of the diagram, so repeated extraction goes on shrinking it. */
  lemma {:induction false} ExtractionShrinks(L: Levels, r: Ref, dim: nat, x: Clocks) returns (v: Valuation)
    requires Normal(L, r) && r != FALSE && InZone(L, r, dim, x)
    requires IsBdd(Bottom(r).node)
    ensures v.clocks == x && Eval(L, r, v) && InZone(L, r, dim, v.clocks)
  {
    BottomAgrees(L, r, 0);
    var b := Bottom(r);
    if b.node.Terminal? {
      v := Valuation(x, {});
    } else {
      StartsAt(L, b.node, 0, b.node.level);
      var t := BooleanWitness(L, b, b.node.level, x);
      v := Valuation(x, t);
    }
  }
}
