/**
 * Declaring clocks and booleans, and the literals on a pair of clocks.
 */
module Declarations {
  import opened Bounds
  import opened ConstraintGraph
  import opened Diagrams
  import opened Zones
  import opened Operations

  /** Pairs of different clocks among the first n. */
  function DifferenceCount(n: nat): nat { n * (n - 1) / 2 }

  /** The number of the pair of clocks c and d, where d < c. */
  function Difference(c: nat, d: nat): nat { DifferenceCount(c) + d }

  lemma {:induction false} DifferenceCountNext(n: nat)
    ensures DifferenceCount(n + 1) == DifferenceCount(n) + n
  {
    assert (n + 1) * n == n * (n - 1) + 2 * n;
  }

  /** Pairs with a smaller first clock come first. */
  lemma {:induction false} DifferenceBelow(c: nat, d: nat, n: nat)
    requires d < c <= n
    ensures Difference(c, d) < DifferenceCount(n + 1)
    ensures c < n ==> Difference(c, d) < DifferenceCount(n)
    decreases n - c
  {
    DifferenceCountNext(n);
    if c < n { DifferenceBelow(c, d, n - 1); }
  }

  /** No two pairs share a number. */
  lemma {:induction false} DifferenceInjective(c: nat, d: nat, e: nat, f: nat)
    requires d < c && f < e
    ensures Difference(c, d) == Difference(e, f) <==> c == e && d == f
  {
    if c < e {
      DifferenceBelow(c, d, e);
    } else if e < c {
      DifferenceBelow(e, f, c);
    }
  }

  /** The numbers go up without a gap: from (1, 0), along the second clock, and on to the next first clock. */
  lemma {:induction false} DifferenceNext(c: nat, d: nat)
    requires d < c
    ensures Difference(1, 0) == 0
    ensures Difference(c, d) + 1 == if d + 1 < c then Difference(c, d + 1) else Difference(c + 1, 0)
  {
    DifferenceCountNext(c);
  }

  /** A clock paired with itself would take the number of another pair. */
  lemma {:induction false} SameClockNumber(i: nat)
    ensures Difference(i, i) == Difference(i + 1, 0)
  {
    DifferenceCountNext(i);
  }

  /** Every pair of different clocks has exactly one level, found through its number. */
  ghost predicate Declared(L: Levels, diff2level: seq<nat>, dim: nat)
  {
    && LevelsOk(L, dim)
    && DeclaredUpTo(L, diff2level, dim, 0)
  }

  /** All pairs below clock n, and the first m pairs of clock n itself, have a level. */
  ghost predicate DeclaredUpTo(L: Levels, diff2level: seq<nat>, n: nat, m: nat)
  {
    && |diff2level| == DifferenceCount(n) + m
    && forall i, j :: 0 <= j < i <= n && (i < n || j < m) ==> LevelKnown(L, diff2level, i, j)
  }

  ghost predicate LevelKnown(L: Levels, diff2level: seq<nat>, i: nat, j: nat)
  {
    Difference(i, j) < |diff2level| && diff2level[Difference(i, j)] < |L| && L[diff2level[Difference(i, j)]] == ClockLevel(i, j)
  }

  /**
   * From level `offset` on stand the pairs of the clocks from `from` on, in the order of their numbers: by the
   * first clock, and then by the second.
   */
  ghost predicate PairsFrom(L: Levels, offset: nat, from: nat, dim: nat)
  {
    forall i: nat, j: nat :: j < i && from <= i < dim ==>
      0 <= offset + Difference(i, j) - DifferenceCount(from) < |L| && L[offset + Difference(i, j) - DifferenceCount(from)] == ClockLevel(i, j)
  }

  /** The pairs of one more clock come right behind those that are there. */
  lemma {:induction false} PairsFurther(L: Levels, L': Levels, offset: nat, from: nat, dim: nat)
    requires PairsFrom(L, offset, from, dim) && L <= L' && from <= dim && |L| == offset + DifferenceCount(dim) - DifferenceCount(from)
    requires |L'| == |L| + dim && forall j :: 0 <= j < dim ==> L'[|L| + j] == ClockLevel(dim, j)
    ensures PairsFrom(L', offset, from, dim + 1)
  {
    forall i: nat, j: nat | j < i && from <= i < dim + 1
      ensures 0 <= offset + Difference(i, j) - DifferenceCount(from) < |L'|
      ensures L'[offset + Difference(i, j) - DifferenceCount(from)] == ClockLevel(i, j)
    {
    }
  }

  /** The declared levels, kept in the order in which they were declared. */
  class Declaration {
    var levelinfo: Levels
    var diff2level: seq<nat>
    var clocknum: nat

    ghost predicate Valid()
      reads this
    {
      Declared(levelinfo, diff2level, clocknum)
    }

    constructor ()
      ensures Valid() && levelinfo == [] && clocknum == 0
    {
      levelinfo, diff2level, clocknum := [], [], 0;
      new;
      NothingDeclared(levelinfo, diff2level, clocknum);
    }

    /** Adds n clocks, with a level for every new pair below all levels declared so far. */
    method AddClocks(n: nat)
      requires Valid()
      modifies this
      ensures Valid()
      ensures clocknum == old(clocknum) + n && old(levelinfo) <= levelinfo
      ensures |levelinfo| == |old(levelinfo)| + DifferenceCount(clocknum) - DifferenceCount(old(clocknum))
      ensures PairsFrom(levelinfo, |old(levelinfo)|, old(clocknum), clocknum)
    {
      var end := clocknum + n;
      while clocknum < end
        invariant old(clocknum) <= clocknum <= end && Valid() && old(levelinfo) <= levelinfo
        invariant |levelinfo| == |old(levelinfo)| + DifferenceCount(clocknum) - DifferenceCount(old(clocknum))
        invariant PairsFrom(levelinfo, |old(levelinfo)|, old(clocknum), clocknum)
      {
        DifferenceCountNext(clocknum);
        ghost var was, from := levelinfo, clocknum;
        AddPairs();
        PairsFurther(was, levelinfo, |old(levelinfo)|, old(clocknum), from);
      }
    }

    /** Declares the next clock and its pair with every clock before it. */
    method AddPairs()
      requires Valid()
      modifies this
      ensures Valid() && clocknum == old(clocknum) + 1 && old(levelinfo) <= levelinfo
      ensures |levelinfo| == |old(levelinfo)| + old(clocknum)
      ensures forall j :: 0 <= j < old(clocknum) ==> levelinfo[|old(levelinfo)| + j] == ClockLevel(old(clocknum), j)
    {
      var i, j := clocknum, 0;
      while j < i
        invariant j <= i == clocknum && old(levelinfo) <= levelinfo && |levelinfo| == |old(levelinfo)| + j
        invariant forall l :: |old(levelinfo)| <= l < |levelinfo| ==> levelinfo[l] == ClockLevel(i, l - |old(levelinfo)|)
        invariant DeclaredUpTo(levelinfo, diff2level, i, j)
      {
        AddPairOk(levelinfo, diff2level, i, j);
        diff2level := diff2level + [|levelinfo|];
        levelinfo := levelinfo + [ClockLevel(i, j)];
        j := j + 1;
      }
      clocknum := i + 1;
      DifferenceCountNext(i);
      assert DeclaredUpTo(levelinfo, diff2level, clocknum, 0);
      assert forall l :: 0 <= l < |old(levelinfo)| ==> levelinfo[l] == old(levelinfo)[l];
    }

    /** Adds n booleans below all levels declared so far; returns the first of their levels. */
    method AddBool(n: nat) returns (offset: nat)
      requires Valid()
      modifies this`levelinfo
      ensures Valid() && offset == |old(levelinfo)|
      ensures levelinfo == old(levelinfo) + seq(n, _ => BoolLevel)
    {
      offset := |levelinfo|;
      var k := n;
      while k > 0
        invariant 0 <= k <= n && levelinfo == old(levelinfo) + seq(n - k, _ => BoolLevel)
      {
        levelinfo := levelinfo + [BoolLevel];
        k := k - 1;
      }
      AddBoolOk(old(levelinfo), diff2level, clocknum, n);
    }
  }

  lemma {:induction false} NothingDeclared(L: Levels, diff2level: seq<nat>, dim: nat)
    requires |L| == 0 && |diff2level| == 0 && dim == 0
    ensures Declared(L, diff2level, dim)
  {
    assert DifferenceCount(0) == 0;
  }

  lemma {:induction false} AddPairOk(L: Levels, diff2level: seq<nat>, i: nat, j: nat)
    requires DeclaredUpTo(L, diff2level, i, j) && j < i
    ensures DeclaredUpTo(L + [ClockLevel(i, j)], diff2level + [|L|], i, j + 1)
  {
    var L', d' := L + [ClockLevel(i, j)], diff2level + [|L|];
    forall a, b | 0 <= b < a <= i && (a < i || b < j + 1) ensures LevelKnown(L', d', a, b) {
      if a != i || b != j {
        assert LevelKnown(L, diff2level, a, b);
      }
    }
  }

  lemma {:induction false} AddBoolOk(L: Levels, diff2level: seq<nat>, dim: nat, n: nat)
    requires Declared(L, diff2level, dim)
    ensures Declared(L + seq(n, _ => BoolLevel), diff2level, dim)
  {
    var L' := L + seq(n, _ => BoolLevel);
    forall i, j | 0 <= j < i <= dim && (i < dim || j < 0) ensures LevelKnown(L', diff2level, i, j) {
      assert LevelKnown(L, diff2level, i, j);
    }
  }

  // ----- Literals on a pair of clocks

  function Larger(i: nat, j: nat): nat { if i > j then i else j }

  function Smaller(i: nat, j: nat): nat { if i > j then j else i }

  /** The number of the pair, as it is looked up, lies inside the table. */
  predicate InTable(diff2level: seq<nat>, i: nat, j: nat)
  {
    Difference(Larger(i, j), Smaller(i, j)) < |diff2level|
  }

  /** The difference that a literal on clocks i and j tests: for a clock paired with itself, that of another pair. */
  function ReadDiff(x: Clocks, i: nat, j: nat): real
  {
    if i == j then Diff(x, 0, i + 1) else Diff(x, i, j)
  }

  /** The level that is looked up is that of the pair, or that of the pair that a clock paired with itself stands for. */
  lemma {:induction false} LevelFound(L: Levels, diff2level: seq<nat>, dim: nat, i: nat, j: nat)
    requires Declared(L, diff2level, dim) && i < dim && j < dim
    ensures InTable(diff2level, i, j) <==> i != j || i + 1 < dim
    ensures InTable(diff2level, i, j) ==>
              var level := diff2level[Difference(Larger(i, j), Smaller(i, j))];
              level < |L| && L[level].ClockLevel?
              && forall x: Clocks :: DiffAt(L, level, x) == if i > j then ReadDiff(x, i, j) else -ReadDiff(x, i, j)
  {
    if i == j {
      SameClockNumber(i);
      if i + 1 < dim { assert LevelKnown(L, diff2level, i + 1, 0); }
    } else {
      assert LevelKnown(L, diff2level, Larger(i, j), Smaller(i, j));
    }
  }

  /** The difference of clocks i and j lies in (low, high]; a pair in the wrong order is turned round. */
  function Interval(diff2level: seq<nat>, i: nat, j: nat, low: int, high: int): Ref
    requires InTable(diff2level, i, j)
  {
    if i > j then IntervalFromLevel(diff2level[Difference(i, j)], low, high)
    else IntervalFromLevel(diff2level[Difference(j, i)], UpperToLower(high), LowerToUpper(low))
  }

  /** The diagram holds where the difference of clocks i and j lies in (low, high]. */
  ghost predicate IntervalRight(L: Levels, dim: nat, r: Ref, i: nat, j: nat, low: int, high: int)
  {
    forall v: Valuation :: |v.clocks| == dim ==>
      (Eval(L, r, v) <==> MeetsLower(Diff(v.clocks, i, j), low) && MeetsUpper(Diff(v.clocks, i, j), high))
  }

  /** A proper interval on two different clocks is right; on a clock and itself it is wrong, or looked up outside the table. */
  lemma {:induction false} IntervalOk(L: Levels, diff2level: seq<nat>, dim: nat, i: nat, j: nat, low: int, high: int)
    requires Declared(L, diff2level, dim) && i < dim && j < dim && RawBound(low) && RawBound(high)
    ensures InTable(diff2level, i, j) <==> i != j || i + 1 < dim
    ensures InTable(diff2level, i, j) ==> (Normal(L, Interval(diff2level, i, j, low, high)) <==> ProperInterval(low, high))
    ensures InTable(diff2level, i, j) && ProperInterval(low, high) ==>
              forall v: Valuation :: Eval(L, Interval(diff2level, i, j, low, high), v)
                                     <==> MeetsLower(ReadDiff(v.clocks, i, j), low) && MeetsUpper(ReadDiff(v.clocks, i, j), high)
    ensures InTable(diff2level, i, j) && ProperInterval(low, high) ==>
              (IntervalRight(L, dim, Interval(diff2level, i, j, low, high), i, j, low, high) <==> i != j)
  {
    LevelFound(L, diff2level, dim, i, j);
    if InTable(diff2level, i, j) {
      if ProperInterval(low, high) {
        IntervalProper(L, diff2level, dim, i, j, low, high);
        if i == j { SelfIntervalWrong(L, dim, Interval(diff2level, i, j, low, high), i, low, high); }
      } else if i > j {
        ImproperMalformed(diff2level[Difference(i, j)], low, high);
      } else {
        TurnedMalformed(diff2level[Difference(j, i)], low, high);
      }
    }
  }

  /** Some real is told apart from 0 by a proper interval. */
  lemma {:induction false} ToldFromZero(low: int, high: int) returns (t: real)
    requires RawBound(low) && RawBound(high) && ProperInterval(low, high)
    ensures (MeetsLower(t, low) && MeetsUpper(t, high)) != (MeetsLower(0.0, low) && MeetsUpper(0.0, high))
  {
    if !(MeetsLower(0.0, low) && MeetsUpper(0.0, high)) {
      t := Inside(low, high);
    } else if high != INF {
      t := Limit(high) as real + 1.0;
    } else {
      t := Limit(low) as real - 1.0;
    }
  }

  /** Clock 0 at t, all others at 0. */
  function Spike(dim: nat, t: real): Clocks { seq(dim, k => if k == 0 then t else 0.0) }

  lemma {:induction false} SpikeDiff(dim: nat, t: real, i: nat)
    requires i + 1 < dim
    ensures |Spike(dim, t)| == dim && Diff(Spike(dim, t), i, i) == 0.0 && ReadDiff(Spike(dim, t), i, i) == t
  {
  }

  lemma {:induction false} SelfIntervalWrong(L: Levels, dim: nat, r: Ref, i: nat, low: int, high: int)
    requires i + 1 < dim && RawBound(low) && RawBound(high) && ProperInterval(low, high)
    requires forall v: Valuation :: Eval(L, r, v) <==> MeetsLower(ReadDiff(v.clocks, i, i), low) && MeetsUpper(ReadDiff(v.clocks, i, i), high)
    ensures !IntervalRight(L, dim, r, i, i, low, high)
  {
    var t := ToldFromZero(low, high);
    var v := Valuation(Spike(dim, t), {});
    SpikeDiff(dim, t, i);
    assert Eval(L, r, v) <==> MeetsLower(t, low) && MeetsUpper(t, high);
  }

  lemma {:induction false} TurnedMalformed(level: nat, low: int, high: int)
    requires RawBound(low) && RawBound(high) && !ProperInterval(low, high)
    ensures var r := IntervalFromLevel(level, UpperToLower(high), LowerToUpper(low));
            r.node.CddNode? && !Cuts(r.node.elems)
  {
    FlipReverses(low, high);
    var es := IntervalFromLevel(level, UpperToLower(high), LowerToUpper(low)).node.elems;
    assert !Finite(es[0].bnd) || es[1].bnd <= es[0].bnd;
  }

  lemma {:induction false} IntervalProper(L: Levels, diff2level: seq<nat>, dim: nat, i: nat, j: nat, low: int, high: int)
    requires Declared(L, diff2level, dim) && i < dim && j < dim && InTable(diff2level, i, j)
    requires RawBound(low) && RawBound(high) && ProperInterval(low, high)
    ensures Normal(L, Interval(diff2level, i, j, low, high))
    ensures forall v: Valuation :: Eval(L, Interval(diff2level, i, j, low, high), v)
                                   <==> MeetsLower(ReadDiff(v.clocks, i, j), low) && MeetsUpper(ReadDiff(v.clocks, i, j), high)
  {
    LevelFound(L, diff2level, dim, i, j);
    var level := diff2level[Difference(Larger(i, j), Smaller(i, j))];
    var res := Interval(diff2level, i, j, low, high);
    if i > j {
      IntervalMeaning(L, level, low, high);
    } else {
      TurnedOrder(low, high);
      IntervalMeaning(L, level, UpperToLower(high), LowerToUpper(low));
      forall v: Valuation
        ensures Eval(L, res, v) <==> MeetsLower(ReadDiff(v.clocks, i, j), low) && MeetsUpper(ReadDiff(v.clocks, i, j), high)
      {
        LowerToUpperMeaning(ReadDiff(v.clocks, i, j), low);
        UpperToLowerMeaning(ReadDiff(v.clocks, i, j), high);
      }
    }
    NodeOkWeaken(L, res.node, 0, level);
  }

  /** Turning an interval round keeps it an interval. */
  lemma {:induction false} TurnedOrder(low: int, high: int)
    requires (low == -INF || Finite(low)) && (high == INF || Finite(high)) && low < high
    ensures UpperToLower(high) < LowerToUpper(low)
    ensures UpperToLower(high) == -INF <==> high == INF
    ensures LowerToUpper(low) == INF <==> low == -INF
    ensures UpperToLower(high) == -INF || Finite(UpperToLower(high))
    ensures LowerToUpper(low) == INF || Finite(LowerToUpper(low))
  {
    FlipReverses(low, high);
  }

  function UpperFromLevel(level: nat, bnd: int): Ref
  {
    if bnd == INF then TRUE
    else if bnd == -INF then FALSE
    else Neg(MakeNode(level, [Elem(FALSE, bnd), Elem(TRUE, INF)]))
  }

  /** The difference of clocks i and j is at most bnd. */
  function Upper(diff2level: seq<nat>, i: nat, j: nat, bnd: int): Ref
    requires InTable(diff2level, i, j)
  {
    if i > j then UpperFromLevel(diff2level[Difference(i, j)], bnd)
    else Neg(UpperFromLevel(diff2level[Difference(j, i)], UpperToLower(bnd)))
  }

  ghost predicate UpperRight(L: Levels, dim: nat, r: Ref, i: nat, j: nat, bnd: int)
  {
    forall v: Valuation :: |v.clocks| == dim ==> (Eval(L, r, v) <==> bnd != -INF && MeetsUpper(Diff(v.clocks, i, j), bnd))
  }

  /**
   * The bound that nothing meets is the one bound that goes wrong on two different clocks: turned round it
   * is no bound any more, and the node built from it is malformed.  A clock paired with itself goes wrong
   * with every bound but the infinite one.
   */
  lemma {:induction false} UpperOk(L: Levels, diff2level: seq<nat>, dim: nat, i: nat, j: nat, bnd: int)
    requires Declared(L, diff2level, dim) && i < dim && j < dim && RawBound(bnd)
    ensures InTable(diff2level, i, j) <==> i != j || i + 1 < dim
    ensures InTable(diff2level, i, j) ==> (Normal(L, Upper(diff2level, i, j, bnd)) <==> i > j || bnd != -INF)
    ensures InTable(diff2level, i, j) && (i > j || bnd != -INF) ==>
              forall v: Valuation :: Eval(L, Upper(diff2level, i, j, bnd), v) <==> bnd != -INF && MeetsUpper(ReadDiff(v.clocks, i, j), bnd)
    ensures InTable(diff2level, i, j) && (i > j || bnd != -INF) ==>
              (UpperRight(L, dim, Upper(diff2level, i, j, bnd), i, j, bnd) <==> i != j || bnd == INF)
  {
    LevelFound(L, diff2level, dim, i, j);
    if InTable(diff2level, i, j) {
      var level := diff2level[Difference(Larger(i, j), Smaller(i, j))];
      var res := Upper(diff2level, i, j, bnd);
      if Finite(bnd) {
        UpperFinite(L, diff2level, dim, i, j, bnd);
        if i == j { SelfIntervalWrong(L, dim, res, i, -INF, bnd); }
      } else if i <= j && bnd == -INF {
        var es := res.node.elems;
        assert es[0].bnd > INF;
      }
    }
  }

  lemma {:induction false} UpperFinite(L: Levels, diff2level: seq<nat>, dim: nat, i: nat, j: nat, bnd: int)
    requires Declared(L, diff2level, dim) && i < dim && j < dim && InTable(diff2level, i, j) && Finite(bnd)
    ensures Normal(L, Upper(diff2level, i, j, bnd))
    ensures forall v: Valuation :: Eval(L, Upper(diff2level, i, j, bnd), v) <==> MeetsUpper(ReadDiff(v.clocks, i, j), bnd)
  {
    LevelFound(L, diff2level, dim, i, j);
    var level := diff2level[Difference(Larger(i, j), Smaller(i, j))];
    var res := Upper(diff2level, i, j, bnd);
    forall v: Valuation ensures Eval(L, res, v) <==> MeetsUpper(ReadDiff(v.clocks, i, j), bnd) {
      if i > j {
        IntervalAt(L, level, -INF, bnd, v);
      } else {
        UpperToLowerMeaning(ReadDiff(v.clocks, i, j), bnd);
        IntervalAt(L, level, -INF, UpperToLower(bnd), v);
        EvalNeg(L, UpperFromLevel(level, UpperToLower(bnd)), true, v);
      }
    }
    IntervalMeaning(L, level, -INF, if i > j then bnd else UpperToLower(bnd));
    NodeOkWeaken(L, res.node, 0, level);
  }
}
