/**
 * Operations built from cdd_apply: conditional, intervals, equivalence, and the reduction that
 * merges neighbouring intervals whenever that changes nothing.
 */
module Operations {
  import opened Bounds
  import opened Diagrams
  import opened Independence
  import opened Zones
  import opened Pieces
  import opened Apply
  import opened TarjanReduction

  // ----- Boolean connectives

  method And(ops: Operators, l: Ref, r: Ref, min: nat) returns (res: Ref)
    requires ops.Valid() && NodeOk(ops.L, l.node, min) && NodeOk(ops.L, r.node, min)
    modifies ops.table
    ensures ops.Valid() && NodeOk(ops.L, res.node, min) && NoNewBounds(res, l, r)
    ensures forall v: Valuation :: Eval(ops.L, res, v) == (Eval(ops.L, l, v) && Eval(ops.L, r, v))
    ensures Denotes(ops.L, res, Op.And, l, r)
  {
    res := ops.ApplyRec(Op.And, l, r, min);
    DenotesAll(ops.L, res, Op.And, l, r);
  }

  method Or(ops: Operators, l: Ref, r: Ref, min: nat) returns (res: Ref)
    requires ops.Valid() && NodeOk(ops.L, l.node, min) && NodeOk(ops.L, r.node, min)
    modifies ops.table
    ensures ops.Valid() && NodeOk(ops.L, res.node, min) && NoNewBounds(res, l, r)
    ensures forall v: Valuation :: Eval(ops.L, res, v) == (Eval(ops.L, l, v) || Eval(ops.L, r, v))
    ensures FreelyOr(ops.L, res, l, r)
  {
    var n := And(ops, Neg(l), Neg(r), min);
    res := Neg(n);
    assert NoNewBounds(n, l, r) by { SameBounds(n, l, r); }
    forall v: Valuation ensures Eval(ops.L, res, v) == (Eval(ops.L, l, v) || Eval(ops.L, r, v)) {
      EvalNeg(ops.L, l, true, v);
      EvalNeg(ops.L, r, true, v);
      EvalNeg(ops.L, n, true, v);
    }
    FreeOr(ops.L, n, l, r);
  }

  /** The union of two diagrams, whatever differences the levels are given. */
  ghost predicate FreelyOr(L: Levels, res: Ref, l: Ref, r: Ref)
  {
    forall v: Valuation :: Eval(Independent(L), res, v) == (Eval(Independent(L), l, v) || Eval(Independent(L), r, v))
  }

  ghost predicate FreelyIte(L: Levels, res: Ref, f: Ref, g: Ref, h: Ref)
  {
    forall v: Valuation :: Eval(Independent(L), res, v) == if Eval(Independent(L), f, v) then Eval(Independent(L), g, v) else Eval(Independent(L), h, v)
  }

  lemma {:induction false} FreeOr(L: Levels, n: Ref, l: Ref, r: Ref)
    requires Denotes(L, n, Op.And, Neg(l), Neg(r))
    ensures FreelyOr(L, Neg(n), l, r)
  {
    var F := Independent(L);
    forall v: Valuation ensures Eval(F, Neg(n), v) == (Eval(F, l, v) || Eval(F, r, v)) {
      assert v.clocks in Everywhere();
      EvalNeg(F, l, true, v);
      EvalNeg(F, r, true, v);
      EvalNeg(F, n, true, v);
    }
  }

  lemma {:induction false} FreeIte(L: Levels, res: Ref, f: Ref, g: Ref, h: Ref, g': Ref, h': Ref)
    requires Denotes(L, g', Op.And, f, g) && Denotes(L, h', Op.And, Neg(f), h) && FreelyOr(L, res, g', h')
    ensures FreelyIte(L, res, f, g, h)
  {
    var F := Independent(L);
    forall v: Valuation ensures Eval(F, res, v) == if Eval(F, f, v) then Eval(F, g, v) else Eval(F, h, v) {
      assert v.clocks in Everywhere();
      EvalNeg(F, f, true, v);
    }
  }

  /** Negation touches no bound. */
  lemma {:induction false} SameBounds(n: Ref, l: Ref, r: Ref)
    requires NoNewBounds(n, Neg(l), Neg(r))
    ensures NoNewBounds(n, l, r) && NoNewBounds(Neg(n), l, r)
  {
    forall x: nat, B: iset<int> | BoundsIn(l.node, x, B) && BoundsIn(r.node, x, B) ensures BoundsIn(n.node, x, B) {
      assert BoundsIn(Neg(l).node, x, B) && BoundsIn(Neg(r).node, x, B);
    }
  }

  /** If f then g else h. */
  method Ite(ops: Operators, f: Ref, g: Ref, h: Ref, min: nat) returns (res: Ref)
    requires ops.Valid() && NodeOk(ops.L, f.node, min) && NodeOk(ops.L, g.node, min) && NodeOk(ops.L, h.node, min)
    modifies ops.table
    ensures ops.Valid() && NodeOk(ops.L, res.node, min)
    ensures forall v: Valuation :: Eval(ops.L, res, v) == if Eval(ops.L, f, v) then Eval(ops.L, g, v) else Eval(ops.L, h, v)
    ensures FreelyIte(ops.L, res, f, g, h)
  {
    var g', h';
    g' := And(ops, f, g, min);
    h' := And(ops, Neg(f), h, min);
    res := Or(ops, g', h', min);
    forall v: Valuation ensures Eval(ops.L, Neg(f), v) == !Eval(ops.L, f, v) {
      EvalNeg(ops.L, f, true, v);
    }
    FreeIte(ops.L, res, f, g, h, g', h');
  }

  lemma {:induction false} DenotesAll(L: Levels, res: Ref, op: Op, l: Ref, r: Ref)
    requires Denotes(L, res, op, l, r)
    ensures forall v: Valuation :: Eval(L, res, v) == Combine(op, Eval(L, l, v), Eval(L, r, v))
  {
    DenotesReal(L, res, op, l, r);
    forall v: Valuation ensures Eval(L, res, v) == Combine(op, Eval(L, l, v), Eval(L, r, v)) {
      assert v.clocks in Everywhere();
    }
  }

  // ----- Literals

  /** The boolean variable at a level. */
  function BddVar(level: nat): Ref { MakeBool(level, FALSE, TRUE) }

  lemma {:induction false} BddVarMeaning(L: Levels, level: nat)
    requires level < |L| && L[level].BoolLevel?
    ensures NodeOk(L, BddVar(level).node, level)
    ensures forall v: Valuation :: Eval(L, BddVar(level), v) <==> level in v.truths
  {
    forall v: Valuation ensures Eval(L, BddVar(level), v) <==> level in v.truths {
      MakeBoolMeaning(L, level, FALSE, TRUE, v);
    }
  }

  /** The difference of a level lies above low and at or below up. */
  function IntervalFromLevel(level: nat, low: int, up: int): Ref
  {
    if low > -INF then
      MakeNode(level, [Elem(FALSE, low), Elem(TRUE, up)] + (if up < INF then [Elem(FALSE, INF)] else []))
    else
      Neg(MakeNode(level, [Elem(FALSE, up), Elem(TRUE, INF)]))
  }

  /** An interval that is empty, or has no end on either side, becomes a malformed node. */
  predicate ProperInterval(low: int, up: int) { low < up && !(low == -INF && up == INF) }

  lemma {:induction false} IntervalMeaning(L: Levels, level: nat, low: int, up: int)
    requires level < |L| && L[level].ClockLevel? && RawBound(low) && RawBound(up)
    ensures NodeOk(L, IntervalFromLevel(level, low, up).node, level) <==> ProperInterval(low, up)
    ensures ProperInterval(low, up) ==>
              forall v: Valuation ::
                Eval(L, IntervalFromLevel(level, low, up), v)
                <==> MeetsLower(DiffAt(L, level, v.clocks), low) && MeetsUpper(DiffAt(L, level, v.clocks), up)
  {
    if ProperInterval(low, up) {
      forall v: Valuation
        ensures Eval(L, IntervalFromLevel(level, low, up), v)
          <==> MeetsLower(DiffAt(L, level, v.clocks), low) && MeetsUpper(DiffAt(L, level, v.clocks), up)
      {
        IntervalAt(L, level, low, up, v);
      }
      IntervalAt(L, level, low, up, Valuation([], {}));
    } else {
      ImproperMalformed(level, low, up);
    }
  }

  lemma {:induction false} ImproperMalformed(level: nat, low: int, up: int)
    requires RawBound(low) && RawBound(up) && !ProperInterval(low, up)
    ensures IntervalFromLevel(level, low, up).node.CddNode? && !Cuts(IntervalFromLevel(level, low, up).node.elems)
  {
    var es := IntervalFromLevel(level, low, up).node.elems;
    assert !Finite(es[0].bnd) || es[1].bnd <= es[0].bnd;
  }

  lemma {:induction false} IntervalAt(L: Levels, level: nat, low: int, up: int, v: Valuation)
    requires level < |L| && L[level].ClockLevel? && RawBound(low) && RawBound(up) && ProperInterval(low, up)
    ensures NodeOk(L, IntervalFromLevel(level, low, up).node, level)
    ensures Eval(L, IntervalFromLevel(level, low, up), v)
      <==> MeetsLower(DiffAt(L, level, v.clocks), low) && MeetsUpper(DiffAt(L, level, v.clocks), up)
  {
    var r, d := IntervalFromLevel(level, low, up), DiffAt(L, level, v.clocks);
    var es := r.node.elems;
    assert ElemsOk(es);
    PickIsPiece(es, d);
    var p := Pick(es, d);
    assert EvalNode(L, r.node, v) == Eval(L, es[p].child, v);
    EvalNeg(L, es[p].child, false, v);
    if low != -INF && up != INF && MeetsUpper(d, low) { UpperMonotone(d, low, up); }
  }

  /** Every bound of res is one of c, or an end of the interval at the level. */
  ghost predicate BoundsWith(res: Ref, c: Ref, level: nat, low: int, up: int)
  {
    forall x: nat, B: iset<int> :: BoundsIn(c.node, x, B) && EndsIn(low, up, level, x, B) ==> BoundsIn(res.node, x, B)
  }

  ghost predicate EndsIn(low: int, up: int, at: nat, level: nat, B: iset<int>)
  {
    at == level ==> (low == -INF || low in B) && (up == INF || up in B)
  }

  lemma {:induction false} IntervalBounds(level: nat, low: int, up: int, x: nat, B: iset<int>)
    requires EndsIn(low, up, level, x, B)
    ensures BoundsIn(IntervalFromLevel(level, low, up).node, x, B)
  {
  }

  /** c restricted to an interval, whatever differences the levels are given. */
  ghost predicate FreelyBound(L: Levels, res: Ref, c: Ref, level: nat, low: int, up: int)
  {
    forall v: Valuation :: Eval(Independent(L), res, v) == (Eval(Independent(L), c, v) && InSpan(L, level, low, up, v))
  }

  ghost predicate InSpan(L: Levels, level: nat, low: int, up: int, v: Valuation)
  {
    MeetsLower(DiffAt(Independent(L), level, v.clocks), low) && MeetsUpper(DiffAt(Independent(L), level, v.clocks), up)
  }

  lemma {:induction false} FreeBound(L: Levels, res: Ref, c: Ref, level: nat, low: int, up: int)
    requires level < |L| && L[level].ClockLevel? && RawBound(low) && RawBound(up) && ProperInterval(low, up)
    requires Denotes(L, res, Op.And, c, IntervalFromLevel(level, low, up))
    ensures FreelyBound(L, res, c, level, low, up)
  {
    IntervalMeaning(Independent(L), level, low, up);
    forall v: Valuation ensures Eval(Independent(L), res, v) == (Eval(Independent(L), c, v) && InSpan(L, level, low, up, v)) {
      assert v.clocks in Everywhere();
    }
  }

  /** Restricts c to an interval of the difference of a level. */
  method AddBound(ops: Operators, c: Ref, level: nat, low: int, up: int) returns (res: Ref)
    requires ops.Valid() && level < |ops.L| && ops.L[level].ClockLevel? && NodeOk(ops.L, c.node, level)
    requires (low == -INF || Finite(low)) && (up == INF || Finite(up)) && low < up
    modifies ops.table
    ensures ops.Valid() && NodeOk(ops.L, res.node, level) && BoundsWith(res, c, level, low, up)
    ensures forall v: Valuation ::
              Eval(ops.L, res, v) == (Eval(ops.L, c, v) && MeetsLower(DiffAt(ops.L, level, v.clocks), low) && MeetsUpper(DiffAt(ops.L, level, v.clocks), up))
    ensures FreelyBound(ops.L, res, c, level, low, up)
  {
    if low == -INF && up == INF {
      return c;
    }
    IntervalMeaning(ops.L, level, low, up);
    res := And(ops, c, IntervalFromLevel(level, low, up), level);
    FreeBound(ops.L, res, c, level, low, up);
    forall x: nat, B: iset<int> | BoundsIn(c.node, x, B) && EndsIn(low, up, level, x, B) ensures BoundsIn(res.node, x, B) {
      IntervalBounds(level, low, up, x, B);
    }
  }

  // ----- Equivalence

  ghost predicate Equivalent(L: Levels, dim: nat, c: Ref, d: Ref)
  {
    forall v: Valuation :: |v.clocks| == dim ==> Eval(L, c, v) == Eval(L, d, v)
  }

  /** Decides whether two diagrams agree on all valuations, by reducing their exclusive-or. */
  method Equiv(ops: Operators, dim: nat, c: Ref, d: Ref) returns (same: bool)
    requires ops.Valid() && dim > 0 && LevelsOk(ops.L, dim) && Normal(ops.L, c) && Normal(ops.L, d)
    modifies ops.table
    ensures ops.Valid()
    ensures same <==> Equivalent(ops.L, dim, c, d)
  {
    var x := ops.ApplyRec(Xor, c, d, 0);
    DenotesAll(ops.L, x, Xor, c, d);
    var m := CddReduce(ops.L, dim, x);
    same := m == FALSE;
  }

  // ----- Merging neighbouring intervals

  /** On (low, up] the diagram c agrees with r. */
  ghost predicate AgreesOn(L: Levels, dim: nat, level: nat, c: Ref, r: Ref, low: int, up: int)
  {
    forall v: Valuation :: |v.clocks| == dim && MeetsLower(DiffAt(L, level, v.clocks), low) && MeetsUpper(DiffAt(L, level, v.clocks), up)
      ==> Eval(L, c, v) == Eval(L, r, v)
  }

  /** The diagram c is r restricted to what lies at or below low. */
  ghost predicate IsLowerPart(L: Levels, dim: nat, level: nat, c: Ref, r: Ref, low: int)
  {
    forall v: Valuation :: |v.clocks| == dim ==>
      Eval(L, c, v) == (!MeetsLower(DiffAt(L, level, v.clocks), low) && Eval(L, r, v))
  }

  /** Taking both intervals as one adds nothing to either: in each of them the diagram of the other is contained in its own. */
  ghost predicate Joinable(L: Levels, dim: nat, level: nat, prev: Ref, next: Ref, low: int, mid: int, up: int)
  {
    forall v: Valuation :: |v.clocks| == dim && MeetsLower(DiffAt(L, level, v.clocks), low) && MeetsUpper(DiffAt(L, level, v.clocks), up) ==>
      if MeetsUpper(DiffAt(L, level, v.clocks), mid) then Eval(L, next, v) ==> Eval(L, prev, v)
      else Eval(L, prev, v) ==> Eval(L, next, v)
  }

  /** Decides whether two neighbouring intervals, taken apart and taken as one, denote the same set. */
  method CanJoin(ops: Operators, dim: nat, level: nat, prev: Ref, next: Ref, low: int, mid: int, up: int) returns (same: bool, union: Ref)
    requires ops.Valid() && dim > 0 && LevelsOk(ops.L, dim) && level < |ops.L| && ops.L[level].ClockLevel?
    requires NodeOk(ops.L, prev.node, level + 1) && NodeOk(ops.L, next.node, level + 1)
    requires (low == -INF || Finite(low)) && Finite(mid) && (up == INF || Finite(up)) && low < mid < up
    modifies ops.table
    ensures ops.Valid() && NodeOk(ops.L, union.node, level + 1) && NoNewBounds(union, prev, next)
    ensures same <==> Joinable(ops.L, dim, level, prev, next, low, mid, up)
    ensures forall v: Valuation :: Eval(ops.L, union, v) == (Eval(ops.L, prev, v) || Eval(ops.L, next, v))
    ensures FreelyOr(ops.L, union, prev, next)
  {
    NodeOkWeaken(ops.L, prev.node, level, level + 1);
    NodeOkWeaken(ops.L, next.node, level, level + 1);
    var tmp1 := AddBound(ops, prev, level, low, mid);
    var tmp2 := AddBound(ops, next, level, mid, up);
    var split := Or(ops, tmp1, tmp2, level);
    union := Or(ops, prev, next, level + 1);
    NodeOkWeaken(ops.L, union.node, level, level + 1);
    var join := AddBound(ops, union, level, low, up);
    NodeOkWeaken(ops.L, split.node, 0, level);
    NodeOkWeaken(ops.L, join.node, 0, level);
    same := Equiv(ops, dim, split, join);
    JoinMeaning(ops.L, dim, level, prev, next, split, join, low, mid, up);
  }

  lemma {:induction false} JoinMeaning(L: Levels, dim: nat, level: nat, prev: Ref, next: Ref, split: Ref, join: Ref, low: int, mid: int, up: int)
    requires (low == -INF || Finite(low)) && Finite(mid) && (up == INF || Finite(up)) && low < mid < up
    requires forall v: Valuation ::
               Eval(L, split, v) == (
               (Eval(L, prev, v) && MeetsLower(DiffAt(L, level, v.clocks), low) && MeetsUpper(DiffAt(L, level, v.clocks), mid))
               || (Eval(L, next, v) && MeetsLower(DiffAt(L, level, v.clocks), mid) && MeetsUpper(DiffAt(L, level, v.clocks), up)))
    requires forall v: Valuation ::
               Eval(L, join, v) == (
               (Eval(L, prev, v) || Eval(L, next, v)) && MeetsLower(DiffAt(L, level, v.clocks), low) && MeetsUpper(DiffAt(L, level, v.clocks), up))
    ensures Equivalent(L, dim, split, join) <==> Joinable(L, dim, level, prev, next, low, mid, up)
  {
    forall v: Valuation
      ensures Eval(L, split, v) == Eval(L, join, v) <==>
              (MeetsLower(DiffAt(L, level, v.clocks), low) && MeetsUpper(DiffAt(L, level, v.clocks), up) ==>
              if MeetsUpper(DiffAt(L, level, v.clocks), mid) then Eval(L, next, v) ==> Eval(L, prev, v)
              else Eval(L, prev, v) ==> Eval(L, next, v))
    {
      var d := DiffAt(L, level, v.clocks);
      if MeetsUpper(d, mid) { UpperMonotone(d, mid, up); }
      if low != -INF && MeetsUpper(d, low) { UpperMonotone(d, low, mid); }
    }
  }

  /** A joined interval serves on both parts. */
  lemma {:induction false} JoinAgrees(L: Levels, dim: nat, level: nat, prev: Ref, next: Ref, union: Ref, r: Ref, low: int, mid: int, up: int)
    requires Joinable(L, dim, level, prev, next, low, mid, up)
    requires (low == -INF || Finite(low)) && Finite(mid) && (up == INF || Finite(up)) && low < mid < up
    requires forall v: Valuation :: Eval(L, union, v) == (Eval(L, prev, v) || Eval(L, next, v))
    requires AgreesOn(L, dim, level, prev, r, low, mid) && AgreesOn(L, dim, level, next, r, mid, up)
    ensures AgreesOn(L, dim, level, union, r, low, up)
  {
  }

  // ----- What is merged

  /** One of the children s to k of r holds at v. */
  ghost predicate SomeChild(L: Levels, r: Ref, s: nat, k: nat, v: Valuation)
    requires r.node.CddNode? && k <= |r.node.elems|
  {
    exists j :: s <= j < k && Eval(L, NegCond(r.node.elems[j].child, r.neg), v)
  }

  /** Child k can be joined to the children from s on that have been joined already. */
  ghost predicate RunJoins(L: Levels, dim: nat, r: Ref, s: nat, k: nat)
    requires r.node.CddNode? && s < k < |r.node.elems|
  {
    var level, elems, next := r.node.level, r.node.elems, NegCond(r.node.elems[k].child, r.neg);
    forall v: Valuation ::
      |v.clocks| == dim && MeetsLower(DiffAt(L, level, v.clocks), Lower(elems, s)) && MeetsUpper(DiffAt(L, level, v.clocks), elems[k].bnd) ==>
        if MeetsUpper(DiffAt(L, level, v.clocks), elems[k - 1].bnd) then Eval(L, next, v) ==> SomeChild(L, r, s, k, v)
        else SomeChild(L, r, s, k, v) ==> Eval(L, next, v)
  }

  /** The bounds that stay when the children from k on are joined, one by one, to a run that starts at s. */
  ghost function KeptFrom(L: Levels, dim: nat, r: Ref, s: nat, k: nat): iset<int>
    requires r.node.CddNode? && s < k <= |r.node.elems|
    decreases |r.node.elems| - k
  {
    if k == |r.node.elems| then iset{}
    else if RunJoins(L, dim, r, s, k) then KeptFrom(L, dim, r, s, k + 1)
    else iset{r.node.elems[k - 1].bnd} + KeptFrom(L, dim, r, k, k + 1)
  }

  /** Children s to k of a node taken as one, and what that is reduced to. */
  datatype Part = Part(s: nat, k: nat, union: Ref, reduced: Ref)

  /** The children from s to k can be joined one by one, and the one behind them cannot. */
  ghost predicate IsRun(L: Levels, dim: nat, r: Ref, s: nat, k: nat)
  {
    && r.node.CddNode? && s < k <= |r.node.elems|
    && (forall j :: s < j < k ==> RunJoins(L, dim, r, s, j))
    && (k < |r.node.elems| ==> !RunJoins(L, dim, r, s, k))
  }

  /**
   * The union of a run, whatever differences the levels are given: it has no bound that r does not have, and it is
   * the child itself if the run has no other.
   */
  ghost predicate IsUnion(L: Levels, r: Ref, s: nat, k: nat, union: Ref)
  {
    && r.node.CddNode? && s < k <= |r.node.elems|
    && (forall v: Valuation :: Eval(Independent(L), union, v) <==> SomeChild(Independent(L), r, s, k, v))
    && NoNewBounds(union, r, r) && (k == s + 1 ==> union == NegCond(r.node.elems[s].child, r.neg))
  }

  /** The parts are the runs of the first n children, one after another, each of them reduced in its turn. */
  ghost predicate PartsOf(L: Levels, dim: nat, r: Ref, parts: seq<Part>, n: nat)
    decreases Depth(L, r.node), 0, |parts|
  {
    if parts == [] then n == 0
    else
      var p := parts[|parts| - 1];
      && PartsOf(L, dim, r, parts[..|parts| - 1], p.s) && p.k == n
      && IsRun(L, dim, r, p.s, n) && IsUnion(L, r, p.s, n, p.union)
      && r.node.CddNode? && NodeOk(L, p.union.node, r.node.level + 1) && NodeOk(L, p.reduced.node, r.node.level + 1)
      && Depth(L, p.union.node) < Depth(L, r.node) && Tidy(L, dim, p.union, p.reduced) && Equivalent(L, dim, p.reduced, p.union)
  }

  ghost predicate PartsIn(parts: seq<Part>, x: nat, B: iset<int>)
  {
    forall i :: 0 <= i < |parts| ==> BoundsIn(parts[i].reduced.node, x, B)
  }

  /** Below the level every bound of res is a bound of one of the reduced parts. */
  ghost predicate BoundsOfParts(res: Ref, level: nat, parts: seq<Part>)
  {
    forall x: nat, B: iset<int> :: x > level && PartsIn(parts, x, B) ==> BoundsIn(res.node, x, B)
  }

  /** The clocks are in the interval of a part, and the reduced part holds. */
  ghost predicate PartHolds(L: Levels, r: Ref, p: Part, v: Valuation)
  {
    && r.node.CddNode? && p.s < p.k <= |r.node.elems|
    && InSpan(L, r.node.level, Lower(r.node.elems, p.s), r.node.elems[p.k - 1].bnd, v) && Eval(Independent(L), p.reduced, v)
  }

  /** The result is the reduced parts, each in its interval, whatever differences the levels are given. */
  ghost predicate Assembled(L: Levels, r: Ref, res: Ref, parts: seq<Part>)
  {
    forall v: Valuation :: Eval(Independent(L), res, v) <==> exists i :: 0 <= i < |parts| && PartHolds(L, r, parts[i], v)
  }

  /** One more part added to the result. */
  ghost predicate FreelyAdded(L: Levels, res: Ref, res0: Ref, c: Ref, level: nat, low: int, up: int)
  {
    forall v: Valuation :: Eval(Independent(L), res, v) <==> Eval(Independent(L), res0, v) || (Eval(Independent(L), c, v) && InSpan(L, level, low, up, v))
  }

  lemma {:induction false} AssembledMore(L: Levels, r: Ref, res: Ref, parts: seq<Part>, p: Part, res': Ref)
    requires Assembled(L, r, res, parts) && r.node.CddNode? && p.s < p.k <= |r.node.elems|
    requires FreelyAdded(L, res', res, p.reduced, r.node.level, Lower(r.node.elems, p.s), r.node.elems[p.k - 1].bnd)
    ensures Assembled(L, r, res', parts + [p])
  {
    var parts' := parts + [p];
    forall v: Valuation ensures Eval(Independent(L), res', v) <==> exists i :: 0 <= i < |parts'| && PartHolds(L, r, parts'[i], v) {
      assert parts'[|parts|] == p;
      assert forall i :: 0 <= i < |parts| ==> parts'[i] == parts[i];
      assert Eval(Independent(L), res', v) <==> Eval(Independent(L), res, v) || PartHolds(L, r, p, v);
      if exists i :: 0 <= i < |parts| && PartHolds(L, r, parts[i], v) {
        var i :| 0 <= i < |parts| && PartHolds(L, r, parts[i], v);
        assert PartHolds(L, r, parts'[i], v);
      }
    }
  }

  /** Levels that are left below the top of a node. */
  function Depth(L: Levels, n: Node): nat
  {
    if n.Terminal? || n.level >= |L| then 0 else |L| - n.level
  }

  /**
   * No clock node has a bound between intervals that can be joined, and so all the way down: the intervals that
   * are left are tidy in their turn.
   */
  ghost predicate Tidy(L: Levels, dim: nat, r: Ref, res: Ref)
    decreases Depth(L, r.node), 1, 0
  {
    match r.node
    case Terminal => res == r
    case BddNode(level, low, high) =>
      && Depth(L, low.node) < Depth(L, r.node) && Depth(L, high.node) < Depth(L, r.node)
      && exists low', high' ::
           && Tidy(L, dim, NegCond(low, r.neg), low') && Tidy(L, dim, NegCond(high, r.neg), high')
           && NodeOk(L, low'.node, level + 1) && NodeOk(L, high'.node, level + 1) && res == MakeBool(level, low', high')
    case CddNode(level, elems) =>
      && elems != [] && BoundsIn(res.node, level, KeptFrom(L, dim, r, 0, 1))
      && exists parts: seq<Part> :: PartsOf(L, dim, r, parts, |elems|) && BoundsOfParts(res, level, parts) && Assembled(L, r, res, parts)
  }

  lemma {:induction false} DepthBelow(L: Levels, n: Node, level: nat)
    requires NodeOk(L, n, level + 1) && level < |L|
    ensures Depth(L, n) < |L| - level
  {
  }

  lemma {:induction false} RunJoinable(L: Levels, dim: nat, r: Ref, s: nat, k: nat, prev: Ref)
    requires r.node.CddNode? && s < k < |r.node.elems|
    requires forall v: Valuation :: Eval(L, prev, v) <==> SomeChild(L, r, s, k, v)
    ensures var elems := r.node.elems;
            RunJoins(L, dim, r, s, k)
            <==> Joinable(L, dim, r.node.level, prev, NegCond(elems[k].child, r.neg), Lower(elems, s), elems[k - 1].bnd, elems[k].bnd)
  {
  }

  lemma {:induction false} SomeChildNext(L: Levels, r: Ref, s: nat, k: nat, v: Valuation)
    requires r.node.CddNode? && s <= k < |r.node.elems|
    ensures SomeChild(L, r, s, k + 1, v) <==> SomeChild(L, r, s, k, v) || Eval(L, NegCond(r.node.elems[k].child, r.neg), v)
    ensures !SomeChild(L, r, k, k, v)
  {
  }

  /** Every bound of res is one of res0 or c, or an end of the interval at the level. */
  ghost predicate PartBounds(res: Ref, res0: Ref, c: Ref, level: nat, low: int, up: int)
  {
    forall x: nat, B: iset<int> :: BoundsIn(res0.node, x, B) && BoundsIn(c.node, x, B) && EndsIn(low, up, level, x, B) ==> BoundsIn(res.node, x, B)
  }

  /** Adds the restriction of c to (low, up] to the part of r that has been built already. */
  method AddPart(ops: Operators, dim: nat, level: nat, res0: Ref, c: Ref, ghost r: Ref, low: int, up: int) returns (res: Ref)
    requires ops.Valid() && level < |ops.L| && ops.L[level].ClockLevel?
    requires NodeOk(ops.L, res0.node, level) && NodeOk(ops.L, c.node, level)
    requires (low == -INF || Finite(low)) && (up == INF || Finite(up)) && low < up
    requires IsLowerPart(ops.L, dim, level, res0, r, low) && AgreesOn(ops.L, dim, level, c, r, low, up)
    modifies ops.table
    ensures ops.Valid() && NodeOk(ops.L, res.node, level) && PartBounds(res, res0, c, level, low, up) && FreelyAdded(ops.L, res, res0, c, level, low, up)
    ensures forall v: Valuation :: |v.clocks| == dim ==>
      Eval(ops.L, res, v) == (MeetsUpper(DiffAt(ops.L, level, v.clocks), up) && Eval(ops.L, r, v))
  {
    var part := AddBound(ops, c, level, low, up);
    res := Or(ops, res0, part, level);
    FreePart(ops.L, res, res0, part, c, level, low, up);
    forall v: Valuation | |v.clocks| == dim
      ensures Eval(ops.L, res, v) == (MeetsUpper(DiffAt(ops.L, level, v.clocks), up) && Eval(ops.L, r, v))
    {
      var d := DiffAt(ops.L, level, v.clocks);
      if low != -INF && MeetsUpper(d, low) { UpperMonotone(d, low, up); }
    }
  }

  lemma {:induction false} FreePart(L: Levels, res: Ref, res0: Ref, part: Ref, c: Ref, level: nat, low: int, up: int)
    requires FreelyOr(L, res, res0, part) && FreelyBound(L, part, c, level, low, up)
    ensures FreelyAdded(L, res, res0, c, level, low, up)
  {
  }

  /** Merges neighbouring intervals of clock nodes where split and join are equivalent. */
  method Reduce2Rec(ops: Operators, dim: nat, r: Ref, min: nat) returns (res: Ref)
    requires ops.Valid() && dim > 0 && LevelsOk(ops.L, dim) && NodeOk(ops.L, r.node, min)
    modifies ops.table
    ensures ops.Valid() && NodeOk(ops.L, res.node, min) && Equivalent(ops.L, dim, res, r)
    ensures Tidy(ops.L, dim, r, res) && NoNewBounds(res, r, r)
    decreases |ops.L| - min, 1
  {
    match r.node
    case Terminal => res := r;
    case BddNode(level, low, high) =>
      res := Reduce2Bool(ops, dim, r);
      NodeOkWeaken(ops.L, res.node, min, level);
    case CddNode(level, elems) =>
      res := Reduce2Clock(ops, dim, r);
      NodeOkWeaken(ops.L, res.node, min, level);
  }

  method Reduce2Bool(ops: Operators, dim: nat, r: Ref) returns (res: Ref)
    requires ops.Valid() && dim > 0 && LevelsOk(ops.L, dim) && r.node.BddNode? && NodeOk(ops.L, r.node, r.node.level)
    modifies ops.table
    ensures ops.Valid() && NodeOk(ops.L, res.node, r.node.level) && Equivalent(ops.L, dim, res, r)
    ensures Tidy(ops.L, dim, r, res) && NoNewBounds(res, r, r)
    decreases |ops.L| - r.node.level, 0
  {
    var level := r.node.level;
    BoolChildren(ops.L, r, level);
    var tmp1 := Reduce2Rec(ops, dim, NegCond(r.node.low, r.neg), level + 1);
    var tmp2 := Reduce2Rec(ops, dim, NegCond(r.node.high, r.neg), level + 1);
    res := MakeBool(level, tmp1, tmp2);
    MakeBoolOk(ops.L, level, tmp1, tmp2);
    forall v: Valuation | |v.clocks| == dim ensures Eval(ops.L, res, v) == Eval(ops.L, r, v) {
      MakeBoolMeaning(ops.L, level, tmp1, tmp2, v);
    }
    NoNewBool(level, r, r, tmp1, tmp2);
    TidyBool(ops.L, dim, r, tmp1, tmp2);
  }

  lemma {:induction false} TidyBool(L: Levels, dim: nat, r: Ref, low: Ref, high: Ref)
    requires r.node.BddNode? && NodeOk(L, r.node, r.node.level)
    requires Tidy(L, dim, NegCond(r.node.low, r.neg), low) && Tidy(L, dim, NegCond(r.node.high, r.neg), high)
    requires NodeOk(L, low.node, r.node.level + 1) && NodeOk(L, high.node, r.node.level + 1)
    ensures Tidy(L, dim, r, MakeBool(r.node.level, low, high))
  {
    DepthBelow(L, r.node.low.node, r.node.level);
    DepthBelow(L, r.node.high.node, r.node.level);
  }

  /** Children s to k of r have been joined, those before s are part of the result. */
  ghost predicate Joining(L: Levels, dim: nat, r: Ref, s: nat, k: nat, res: Ref, prev: Ref, kept: iset<int>)
  {
    && r.node.CddNode? && s < k <= |r.node.elems|
    && NodeOk(L, res.node, r.node.level) && NodeOk(L, prev.node, r.node.level + 1)
    && IsLowerPart(L, dim, r.node.level, res, r, Lower(r.node.elems, s))
    && AgreesOn(L, dim, r.node.level, prev, r, Lower(r.node.elems, s), r.node.elems[k - 1].bnd)
    && (forall v: Valuation :: Eval(L, prev, v) <==> SomeChild(L, r, s, k, v))
    && kept + KeptFrom(L, dim, r, s, k) == KeptFrom(L, dim, r, 0, 1) && (s == 0 || Lower(r.node.elems, s) in kept)
    && BoundsIn(res.node, r.node.level, kept) && NoNewBounds(res, r, r) && NoNewBounds(prev, r, r)
  }

  /** The parts that are finished, behind them the run that is open: it stands in prev. */
  ghost predicate Parting(L: Levels, dim: nat, r: Ref, s: nat, k: nat, res: Ref, prev: Ref, parts: seq<Part>)
  {
    && r.node.CddNode? && s < k <= |r.node.elems|
    && PartsOf(L, dim, r, parts, s) && BoundsOfParts(res, r.node.level, parts) && Assembled(L, r, res, parts)
    && (forall j :: s < j < k ==> RunJoins(L, dim, r, s, j)) && IsUnion(L, r, s, k, prev)
  }

  ghost predicate Parted(L: Levels, dim: nat, r: Ref, s: nat, k: nat, res: Ref, prev: Ref)
  {
    exists parts :: Parting(L, dim, r, s, k, res, prev, parts)
  }

  lemma {:induction false} PartedStart(L: Levels, dim: nat, r: Ref)
    requires r.node.CddNode? && NodeOk(L, r.node, r.node.level)
    ensures Parted(L, dim, r, 0, 1, FALSE, NegCond(r.node.elems[0].child, r.neg))
  {
    FirstOfRun(L, r, 0);
    NothingYet(L, r);
    assert Parting(L, dim, r, 0, 1, FALSE, NegCond(r.node.elems[0].child, r.neg), []);
  }

  lemma {:induction false} NothingYet(L: Levels, r: Ref)
    ensures Assembled(L, r, FALSE, [])
  {
  }

  lemma {:induction false} FirstOfRun(L: Levels, r: Ref, k: nat)
    requires r.node.CddNode? && k < |r.node.elems|
    ensures IsUnion(L, r, k, k + 1, NegCond(r.node.elems[k].child, r.neg))
  {
    var F := Independent(L);
    forall v: Valuation ensures Eval(F, NegCond(r.node.elems[k].child, r.neg), v) <==> SomeChild(F, r, k, k + 1, v) {
      SomeChildNext(F, r, k, k, v);
    }
  }

  /** One more child joins the run. */
  lemma {:induction false} PartedMore(L: Levels, dim: nat, r: Ref, s: nat, k: nat, res: Ref, prev: Ref, union: Ref)
    requires Parted(L, dim, r, s, k, res, prev) && s < k < |r.node.elems| && RunJoins(L, dim, r, s, k)
    requires FreelyOr(L, union, prev, NegCond(r.node.elems[k].child, r.neg)) && NoNewBounds(union, r, r)
    ensures Parted(L, dim, r, s, k + 1, res, union)
  {
    var parts :| Parting(L, dim, r, s, k, res, prev, parts);
    PartingMore(L, dim, r, s, k, res, prev, parts, union);
  }

  lemma {:induction false} PartingMore(L: Levels, dim: nat, r: Ref, s: nat, k: nat, res: Ref, prev: Ref, parts: seq<Part>, union: Ref)
    requires Parting(L, dim, r, s, k, res, prev, parts) && k < |r.node.elems| && RunJoins(L, dim, r, s, k)
    requires FreelyOr(L, union, prev, NegCond(r.node.elems[k].child, r.neg)) && NoNewBounds(union, r, r)
    ensures Parting(L, dim, r, s, k + 1, res, union, parts)
  {
    var F := Independent(L);
    forall v: Valuation ensures Eval(F, union, v) <==> SomeChild(F, r, s, k + 1, v) {
      SomeChildNext(F, r, s, k, v);
    }
  }

  /** A run ends, and the next one starts. */
  lemma {:induction false} PartedNext(L: Levels, dim: nat, r: Ref, s: nat, k: nat, res: Ref, prev: Ref, tmp: Ref, res': Ref)
    requires Parted(L, dim, r, s, k, res, prev) && NodeOk(L, r.node, r.node.level) && NodeOk(L, prev.node, r.node.level + 1)
    requires s < k < |r.node.elems| && !RunJoins(L, dim, r, s, k)
    requires Tidy(L, dim, prev, tmp) && NodeOk(L, tmp.node, r.node.level + 1) && Equivalent(L, dim, tmp, prev)
    requires PartBounds(res', res, tmp, r.node.level, Lower(r.node.elems, s), r.node.elems[k - 1].bnd)
    requires FreelyAdded(L, res', res, tmp, r.node.level, Lower(r.node.elems, s), r.node.elems[k - 1].bnd)
    ensures Parted(L, dim, r, k, k + 1, res', NegCond(r.node.elems[k].child, r.neg))
  {
    var parts :| Parting(L, dim, r, s, k, res, prev, parts);
    PartDone(L, dim, r, s, k, res, prev, parts, tmp, res');
    FirstOfRun(L, r, k);
    assert Parting(L, dim, r, k, k + 1, res', NegCond(r.node.elems[k].child, r.neg), parts + [Part(s, k, prev, tmp)]);
  }

  lemma {:induction false} TidyClock(L: Levels, dim: nat, r: Ref, res: Ref, parts: seq<Part>)
    requires r.node.CddNode? && r.node.elems != [] && BoundsIn(res.node, r.node.level, KeptFrom(L, dim, r, 0, 1))
    requires PartsOf(L, dim, r, parts, |r.node.elems|) && BoundsOfParts(res, r.node.level, parts) && Assembled(L, r, res, parts)
    ensures Tidy(L, dim, r, res)
  {
  }

  /** The last run ends. */
  lemma {:induction false} PartedDone(L: Levels, dim: nat, r: Ref, s: nat, res: Ref, prev: Ref, tmp: Ref, res': Ref)
    requires r.node.CddNode? && NodeOk(L, r.node, r.node.level) && NodeOk(L, prev.node, r.node.level + 1)
    requires Parted(L, dim, r, s, |r.node.elems|, res, prev) && s < |r.node.elems|
    requires Tidy(L, dim, prev, tmp) && NodeOk(L, tmp.node, r.node.level + 1) && Equivalent(L, dim, tmp, prev) && PartBounds(res', res, tmp, r.node.level, Lower(r.node.elems, s), INF)
    requires FreelyAdded(L, res', res, tmp, r.node.level, Lower(r.node.elems, s), INF)
    requires BoundsIn(res'.node, r.node.level, KeptFrom(L, dim, r, 0, 1))
    ensures Tidy(L, dim, r, res')
  {
    var n := |r.node.elems|;
    assert r.node.elems[n - 1].bnd == INF;
    var parts :| Parting(L, dim, r, s, n, res, prev, parts);
    PartDone(L, dim, r, s, n, res, prev, parts, tmp, res');
    TidyClock(L, dim, r, res', parts + [Part(s, n, prev, tmp)]);
  }

  /** The run has come to its end, and is reduced and added to the result. */
  lemma {:induction false} PartDone(L: Levels, dim: nat, r: Ref, s: nat, k: nat, res: Ref, prev: Ref, parts: seq<Part>, tmp: Ref, res': Ref)
    requires Parting(L, dim, r, s, k, res, prev, parts) && NodeOk(L, r.node, r.node.level) && NodeOk(L, prev.node, r.node.level + 1)
    requires k < |r.node.elems| ==> !RunJoins(L, dim, r, s, k)
    requires Tidy(L, dim, prev, tmp) && NodeOk(L, tmp.node, r.node.level + 1) && Equivalent(L, dim, tmp, prev)
    requires PartBounds(res', res, tmp, r.node.level, Lower(r.node.elems, s), r.node.elems[k - 1].bnd)
    requires FreelyAdded(L, res', res, tmp, r.node.level, Lower(r.node.elems, s), r.node.elems[k - 1].bnd)
    ensures var parts' := parts + [Part(s, k, prev, tmp)];
            PartsOf(L, dim, r, parts', k) && BoundsOfParts(res', r.node.level, parts') && Assembled(L, r, res', parts')
  {
    DepthBelow(L, prev.node, r.node.level);
    assert (parts + [Part(s, k, prev, tmp)])[..|parts|] == parts;
    AssembledMore(L, r, res, parts, Part(s, k, prev, tmp), res');
    PartBoundsMore(res, res', r.node.level, Lower(r.node.elems, s), r.node.elems[k - 1].bnd, parts, Part(s, k, prev, tmp));
  }

  lemma {:induction false} PartBoundsMore(res: Ref, res': Ref, level: nat, low: int, up: int, parts: seq<Part>, p: Part)
    requires BoundsOfParts(res, level, parts) && PartBounds(res', res, p.reduced, level, low, up)
    ensures BoundsOfParts(res', level, parts + [p])
  {
    var parts' := parts + [p];
    forall x: nat, B: iset<int> | x > level && PartsIn(parts', x, B) ensures BoundsIn(res'.node, x, B) {
      assert parts'[|parts|] == p;
      forall i | 0 <= i < |parts| ensures BoundsIn(parts[i].reduced.node, x, B) { assert parts'[i] == parts[i]; }
      assert PartsIn(parts, x, B);
      assert EndsIn(low, up, level, x, B);
    }
  }

  method Reduce2Clock(ops: Operators, dim: nat, r: Ref) returns (res: Ref)
    requires ops.Valid() && dim > 0 && LevelsOk(ops.L, dim) && r.node.CddNode? && NodeOk(ops.L, r.node, r.node.level)
    modifies ops.table
    ensures ops.Valid() && NodeOk(ops.L, res.node, r.node.level) && Equivalent(ops.L, dim, res, r)
    ensures Tidy(ops.L, dim, r, res) && NoNewBounds(res, r, r)
    decreases |ops.L| - r.node.level - 1, 5
  {
    var level, elems := r.node.level, r.node.elems;
    res := FALSE;
    var low, prev := -INF, NegCond(elems[0].child, r.neg);
    ghost var s: nat, kept: iset<int> := 0, iset{};
    JoiningStart(ops.L, dim, r);
    PartedStart(ops.L, dim, r);
    var k := 1;
    while k < |elems|
      invariant ops.Valid() && k <= |elems| && Joining(ops.L, dim, r, s, k, res, prev, kept) && low == Lower(elems, s)
      invariant Parted(ops.L, dim, r, s, k, res, prev)
    {
      res, prev, low, s, kept := JoinNext(ops, dim, r, k, res, prev, low, s, kept);
      k := k + 1;
    }
    res := LastRun(ops, dim, r, res, prev, low, s, kept);
  }

  /** All children have been met: the open run becomes the last part. */
  method LastRun(ops: Operators, dim: nat, r: Ref, res: Ref, prev: Ref, low: int, ghost s: nat, ghost kept: iset<int>) returns (whole: Ref)
    requires ops.Valid() && dim > 0 && LevelsOk(ops.L, dim) && r.node.CddNode? && NodeOk(ops.L, r.node, r.node.level)
    requires Joining(ops.L, dim, r, s, |r.node.elems|, res, prev, kept) && low == Lower(r.node.elems, s)
    requires Parted(ops.L, dim, r, s, |r.node.elems|, res, prev)
    modifies ops.table
    ensures ops.Valid() && NodeOk(ops.L, whole.node, r.node.level) && Equivalent(ops.L, dim, whole, r)
    ensures Tidy(ops.L, dim, r, whole) && NoNewBounds(whole, r, r)
    decreases |ops.L| - r.node.level - 1, 3
  {
    ghost var tmp;
    whole, tmp := ReducePart(ops, dim, r.node.level, res, prev, r, low, INF);
    JoiningDone(ops.L, dim, r, s, res, prev, kept, whole);
    PartedDone(ops.L, dim, r, s, res, prev, tmp, whole);
  }

  /** The ends of a run and of the child behind it are bounds, in order. */
  lemma {:induction false} RunEnds(L: Levels, r: Ref, s: nat, k: nat)
    requires r.node.CddNode? && NodeOk(L, r.node, r.node.level) && s < k < |r.node.elems|
    ensures var low, mid, up := Lower(r.node.elems, s), r.node.elems[k - 1].bnd, r.node.elems[k].bnd;
            (low == -INF || Finite(low)) && Finite(mid) && (up == INF || Finite(up)) && low < mid < up
    ensures NodeOk(L, r.node.elems[k].child.node, r.node.level + 1)
  {
  }

  /** One more child: it joins the run, or the run becomes part of the result and a new one starts. */
  method JoinNext(ops: Operators, dim: nat, r: Ref, k: nat, res: Ref, prev: Ref, low: int, ghost s: nat, ghost kept: iset<int>)
    returns (res': Ref, prev': Ref, low': int, ghost s': nat, ghost kept': iset<int>)
    requires ops.Valid() && dim > 0 && LevelsOk(ops.L, dim) && r.node.CddNode? && NodeOk(ops.L, r.node, r.node.level)
    requires k < |r.node.elems| && Joining(ops.L, dim, r, s, k, res, prev, kept) && low == Lower(r.node.elems, s)
    requires Parted(ops.L, dim, r, s, k, res, prev)
    modifies ops.table
    ensures ops.Valid() && Joining(ops.L, dim, r, s', k + 1, res', prev', kept') && low' == Lower(r.node.elems, s')
    ensures Parted(ops.L, dim, r, s', k + 1, res', prev')
    decreases |ops.L| - r.node.level - 1, 4
  {
    var level, elems := r.node.level, r.node.elems;
    var mid, up := elems[k - 1].bnd, elems[k].bnd;
    var child := NegCond(elems[k].child, r.neg);
    res', prev', low', s', kept' := res, prev, low, s, kept;
    RunEnds(ops.L, r, s, k);
    var same, union := CanJoin(ops, dim, level, prev, child, low, mid, up);
    RunJoinable(ops.L, dim, r, s, k, prev);
    if same {
      JoiningMore(ops.L, dim, r, s, k, res, prev, kept, union);
      PartedMore(ops.L, dim, r, s, k, res, prev, union);
      prev' := union;
    } else {
      res' := EndRun(ops, dim, r, k, res, prev, low, s, kept);
      prev', low', s', kept' := child, mid, k, kept + iset{mid};
    }
  }

  /** The run before child k becomes part of the result. */
  method EndRun(ops: Operators, dim: nat, r: Ref, k: nat, res: Ref, prev: Ref, low: int, ghost s: nat, ghost kept: iset<int>) returns (res': Ref)
    requires ops.Valid() && dim > 0 && LevelsOk(ops.L, dim) && r.node.CddNode? && NodeOk(ops.L, r.node, r.node.level)
    requires k < |r.node.elems| && Joining(ops.L, dim, r, s, k, res, prev, kept) && low == Lower(r.node.elems, s)
    requires Parted(ops.L, dim, r, s, k, res, prev) && !RunJoins(ops.L, dim, r, s, k)
    modifies ops.table
    ensures ops.Valid() && Joining(ops.L, dim, r, k, k + 1, res', NegCond(r.node.elems[k].child, r.neg), kept + iset{r.node.elems[k - 1].bnd})
    ensures Parted(ops.L, dim, r, k, k + 1, res', NegCond(r.node.elems[k].child, r.neg))
    decreases |ops.L| - r.node.level - 1, 3
  {
    ghost var tmp;
    res', tmp := ReducePart(ops, dim, r.node.level, res, prev, r, low, r.node.elems[k - 1].bnd);
    RunJoinable(ops.L, dim, r, s, k, prev);
    JoiningNext(ops.L, dim, r, s, k, res, prev, kept, res');
    PartedNext(ops.L, dim, r, s, k, res, prev, tmp, res');
  }

  lemma {:induction false} JoiningStart(L: Levels, dim: nat, r: Ref)
    requires r.node.CddNode? && NodeOk(L, r.node, r.node.level)
    ensures Joining(L, dim, r, 0, 1, FALSE, NegCond(r.node.elems[0].child, r.neg), iset{})
  {
    ChildAgrees(L, dim, r, 0);
    forall v: Valuation ensures Eval(L, NegCond(r.node.elems[0].child, r.neg), v) <==> SomeChild(L, r, 0, 1, v) {
      SomeChildNext(L, r, 0, 0, v);
    }
  }

  lemma {:induction false} JoiningMore(L: Levels, dim: nat, r: Ref, s: nat, k: nat, res: Ref, prev: Ref, kept: iset<int>, union: Ref)
    requires Joining(L, dim, r, s, k, res, prev, kept) && k < |r.node.elems| && NodeOk(L, r.node, r.node.level)
    requires var elems := r.node.elems;
             && NoNewBounds(union, prev, NegCond(elems[k].child, r.neg)) && NodeOk(L, union.node, r.node.level + 1)
             && Joinable(L, dim, r.node.level, prev, NegCond(elems[k].child, r.neg), Lower(elems, s), elems[k - 1].bnd, elems[k].bnd)
             && forall v: Valuation :: Eval(L, union, v) == (Eval(L, prev, v) || Eval(L, NegCond(elems[k].child, r.neg), v))
    ensures Joining(L, dim, r, s, k + 1, res, union, kept)
  {
    var level, elems, child := r.node.level, r.node.elems, NegCond(r.node.elems[k].child, r.neg);
    ChildAgrees(L, dim, r, k);
    RunJoinable(L, dim, r, s, k, prev);
    JoinAgrees(L, dim, level, prev, child, union, r, Lower(elems, s), elems[k - 1].bnd, elems[k].bnd);
    forall v: Valuation ensures Eval(L, union, v) <==> SomeChild(L, r, s, k + 1, v) {
      SomeChildNext(L, r, s, k, v);
    }
    forall x: nat, B: iset<int> | BoundsIn(r.node, x, B) ensures BoundsIn(union.node, x, B) {
      assert BoundsIn(prev.node, x, B) && BoundsIn(child.node, x, B);
    }
  }

  lemma {:induction false} JoiningNext(L: Levels, dim: nat, r: Ref, s: nat, k: nat, res: Ref, prev: Ref, kept: iset<int>, part: Ref)
    requires Joining(L, dim, r, s, k, res, prev, kept) && k < |r.node.elems| && NodeOk(L, r.node, r.node.level)
    requires var elems := r.node.elems;
             && !Joinable(L, dim, r.node.level, prev, NegCond(elems[k].child, r.neg), Lower(elems, s), elems[k - 1].bnd, elems[k].bnd)
             && NodeOk(L, part.node, r.node.level) && IsLowerPart(L, dim, r.node.level, part, r, elems[k - 1].bnd)
             && PartBounds(part, res, prev, r.node.level, Lower(elems, s), elems[k - 1].bnd)
    ensures Joining(L, dim, r, k, k + 1, part, NegCond(r.node.elems[k].child, r.neg), kept + iset{r.node.elems[k - 1].bnd})
  {
    var elems := r.node.elems;
    var kept' := kept + iset{elems[k - 1].bnd};
    ChildAgrees(L, dim, r, k);
    RunJoinable(L, dim, r, s, k, prev);
    assert kept' + KeptFrom(L, dim, r, k, k + 1) == kept + KeptFrom(L, dim, r, s, k);
    forall v: Valuation ensures Eval(L, NegCond(elems[k].child, r.neg), v) <==> SomeChild(L, r, k, k + 1, v) {
      SomeChildNext(L, r, k, k, v);
    }
    PartKept(L, dim, r, s, k, res, prev, kept, part, kept');
  }

  /** The bounds of a new part are kept bounds, and bounds of r. */
  lemma {:induction false} PartKept(L: Levels, dim: nat, r: Ref, s: nat, k: nat, res: Ref, prev: Ref, kept: iset<int>, part: Ref, kept': iset<int>)
    requires Joining(L, dim, r, s, k, res, prev, kept) && NodeOk(L, r.node, r.node.level)
    requires PartBounds(part, res, prev, r.node.level, Lower(r.node.elems, s), r.node.elems[k - 1].bnd)
    requires kept <= kept' && (r.node.elems[k - 1].bnd == INF || r.node.elems[k - 1].bnd in kept')
    ensures BoundsIn(part.node, r.node.level, kept') && NoNewBounds(part, r, r)
  {
    var level, elems := r.node.level, r.node.elems;
    NoneBelow(L, prev.node, level + 1, level, kept');
    MoreBounds(res.node, level, kept, kept');
    assert EndsIn(Lower(elems, s), elems[k - 1].bnd, level, level, kept');
    forall x: nat, B: iset<int> | BoundsIn(r.node, x, B) ensures BoundsIn(part.node, x, B) {
      assert BoundsIn(res.node, x, B) && BoundsIn(prev.node, x, B);
      assert s > 0 ==> BoundIn(elems[s - 1].bnd, level, x, B);
      assert EndsIn(Lower(elems, s), elems[k - 1].bnd, level, x, B);
    }
  }

  lemma {:induction false} MoreBounds(n: Node, level: nat, B: iset<int>, C: iset<int>)
    requires BoundsIn(n, level, B) && B <= C
    ensures BoundsIn(n, level, C)
    decreases n
  {
    match n
    case Terminal =>
    case BddNode(_, low, high) =>
      MoreBounds(low.node, level, B, C);
      MoreBounds(high.node, level, B, C);
    case CddNode(_, elems) =>
      forall k | 0 <= k < |elems| ensures BoundsIn(elems[k].child.node, level, C) {
        MoreBounds(elems[k].child.node, level, B, C);
      }
  }

  lemma {:induction false} JoiningDone(L: Levels, dim: nat, r: Ref, s: nat, res: Ref, prev: Ref, kept: iset<int>, whole: Ref)
    requires r.node.CddNode? && Joining(L, dim, r, s, |r.node.elems|, res, prev, kept) && NodeOk(L, r.node, r.node.level)
    requires PartBounds(whole, res, prev, r.node.level, Lower(r.node.elems, s), INF)
    ensures BoundsIn(whole.node, r.node.level, KeptFrom(L, dim, r, 0, 1)) && NoNewBounds(whole, r, r)
  {
    PartKept(L, dim, r, s, |r.node.elems|, res, prev, kept, whole, kept);
    assert kept == KeptFrom(L, dim, r, 0, 1);
  }

  /** Reduces the piece (low, up] further and adds it to the result. */
  method ReducePart(ops: Operators, dim: nat, level: nat, res0: Ref, prev: Ref, ghost r: Ref, low: int, up: int) returns (res: Ref, ghost reduced: Ref)
    requires ops.Valid() && dim > 0 && LevelsOk(ops.L, dim) && level < |ops.L| && ops.L[level].ClockLevel?
    requires NodeOk(ops.L, res0.node, level) && NodeOk(ops.L, prev.node, level + 1)
    requires (low == -INF || Finite(low)) && (up == INF || Finite(up)) && low < up
    requires IsLowerPart(ops.L, dim, level, res0, r, low) && AgreesOn(ops.L, dim, level, prev, r, low, up)
    modifies ops.table
    ensures ops.Valid() && NodeOk(ops.L, res.node, level) && PartBounds(res, res0, prev, level, low, up)
    ensures Tidy(ops.L, dim, prev, reduced) && NodeOk(ops.L, reduced.node, level + 1) && Equivalent(ops.L, dim, reduced, prev) && PartBounds(res, res0, reduced, level, low, up)
    ensures FreelyAdded(ops.L, res, res0, reduced, level, low, up)
    ensures forall v: Valuation :: |v.clocks| == dim ==>
      Eval(ops.L, res, v) == (MeetsUpper(DiffAt(ops.L, level, v.clocks), up) && Eval(ops.L, r, v))
    decreases |ops.L| - level - 1, 2
  {
    var tmp := Reduce2Rec(ops, dim, prev, level + 1);
    reduced := tmp;
    NodeOkWeaken(ops.L, tmp.node, level, level + 1);
    res := AddPart(ops, dim, level, res0, tmp, r, low, up);
    forall x: nat, B: iset<int> | BoundsIn(res0.node, x, B) && BoundsIn(prev.node, x, B) && EndsIn(low, up, level, x, B)
      ensures BoundsIn(res.node, x, B)
    {
      assert BoundsIn(tmp.node, x, B);
    }
  }

  /** In its own interval a child agrees with the node. */
  lemma {:induction false} ChildAgrees(L: Levels, dim: nat, r: Ref, k: nat)
    requires r.node.CddNode? && NodeOk(L, r.node, r.node.level) && k < |r.node.elems|
    ensures AgreesOn(L, dim, r.node.level, NegCond(r.node.elems[k].child, r.neg), r, Lower(r.node.elems, k), r.node.elems[k].bnd)
  {
    var level, elems := r.node.level, r.node.elems;
    forall v: Valuation | |v.clocks| == dim && InPiece(elems, k, DiffAt(L, level, v.clocks))
      ensures Eval(L, NegCond(elems[k].child, r.neg), v) == Eval(L, r, v)
    {
      PickIsPiece(elems, DiffAt(L, level, v.clocks));
      EvalNeg(L, elems[k].child, r.neg, v);
    }
  }

  /** The diagram with neighbouring intervals merged: it denotes the same set, and of the bounds only those stay that separate something. */
  method CddReduce2(ops: Operators, dim: nat, r: Ref) returns (res: Ref)
    requires ops.Valid() && dim > 0 && LevelsOk(ops.L, dim) && Normal(ops.L, r)
    modifies ops.table
    ensures ops.Valid() && Normal(ops.L, res) && Equivalent(ops.L, dim, res, r)
    ensures Tidy(ops.L, dim, r, res) && NoNewBounds(res, r, r)
  {
    res := Reduce2Rec(ops, dim, r, 0);
  }
}
