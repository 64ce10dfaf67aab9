/**
 * Decision diagrams over clock differences and booleans, as values.
 *
 * A reference carries the negation bit.  Two references are equal exactly when they are the same
 * pointer in a store that never holds two nodes with the same contents.
 */
module Diagrams {
  import opened Bounds
  import opened ConstraintGraph

  /** What a level tests: a boolean, or the difference of clock1 and clock2. */
  datatype LevelInfo = BoolLevel | ClockLevel(clock1: nat, clock2: nat)

  type Levels = seq<LevelInfo>

  datatype Ref = Ref(neg: bool, node: Node)

  datatype Elem = Elem(child: Ref, bnd: int)

  datatype Node =
    | Terminal
    | BddNode(level: nat, low: Ref, high: Ref)
    | CddNode(level: nat, elems: seq<Elem>)

  const FALSE := Ref(false, Terminal)
  const TRUE := Ref(true, Terminal)

  function Neg(r: Ref): Ref { Ref(!r.neg, r.node) }

  function NegCond(r: Ref, mask: bool): Ref { Ref(r.neg != mask, r.node) }

  function LevelOf(L: Levels, n: Node): nat
  {
    if n.Terminal? then |L| else n.level
  }

  // ----- Meaning

  /** A value for every clock, and the set of the boolean levels that are true. */
  datatype Valuation = Valuation(clocks: Clocks, truths: set<nat>)

  function DiffAt(L: Levels, level: nat, x: Clocks): real
  {
    if level < |L| && L[level].ClockLevel? then Diff(x, L[level].clock1, L[level].clock2) else 0.0
  }

  /** The first element from k on whose upper bound d meets. */
  function PickFrom(es: seq<Elem>, d: real, k: nat): (p: nat)
    requires k <= |es|
    ensures k <= p <= |es|
    decreases |es| - k
  {
    if k == |es| || MeetsUpper(d, es[k].bnd) then k else PickFrom(es, d, k + 1)
  }

  function Pick(es: seq<Elem>, d: real): nat { PickFrom(es, d, 0) }

  function Eval(L: Levels, r: Ref, v: Valuation): bool
    decreases r
  {
    r.neg != EvalNode(L, r.node, v)
  }

  function EvalNode(L: Levels, n: Node, v: Valuation): bool
    decreases n
  {
    match n
    case Terminal => false
    case BddNode(level, low, high) => if level in v.truths then Eval(L, high, v) else Eval(L, low, v)
    case CddNode(level, elems) =>
      var k := Pick(elems, DiffAt(L, level, v.clocks));
      k < |elems| && Eval(L, elems[k].child, v)
  }

  lemma {:induction false} EvalNeg(L: Levels, r: Ref, mask: bool, v: Valuation)
    ensures Eval(L, NegCond(r, mask), v) == (Eval(L, r, v) != mask)
    ensures Eval(L, Neg(r), v) == !Eval(L, r, v)
    ensures !Eval(L, FALSE, v) && Eval(L, TRUE, v)
  {
  }

  // ----- Bounds that cut the real line into pieces

  /** Strictly increasing bounds, the last of which is infinite. */
  ghost predicate Cuts(es: seq<Elem>)
  {
    && es != []
    && es[|es| - 1].bnd == INF
    && (forall k :: 0 <= k < |es| - 1 ==> Finite(es[k].bnd))
    && (forall a, b :: 0 <= a < b < |es| ==> es[a].bnd < es[b].bnd)
  }

  function Lower(es: seq<Elem>, k: nat): int
    requires k <= |es|
  {
    if k == 0 then -INF else es[k - 1].bnd
  }

  predicate InPiece(es: seq<Elem>, k: nat, d: real)
    requires k < |es|
  {
    MeetsLower(d, Lower(es, k)) && MeetsUpper(d, es[k].bnd)
  }

  lemma {:induction false} PickFromFacts(es: seq<Elem>, d: real, k: nat)
    requires k <= |es|
    ensures forall j :: k <= j < PickFrom(es, d, k) ==> !MeetsUpper(d, es[j].bnd)
    ensures PickFrom(es, d, k) < |es| ==> MeetsUpper(d, es[PickFrom(es, d, k)].bnd)
    decreases |es| - k
  {
    if k < |es| && !MeetsUpper(d, es[k].bnd) { PickFromFacts(es, d, k + 1); }
  }

  /** Every real lies in exactly one piece, the one that is picked. */
  lemma {:induction false} PickIsPiece(es: seq<Elem>, d: real)
    requires Cuts(es)
    ensures Pick(es, d) < |es| && InPiece(es, Pick(es, d), d)
    ensures forall k :: 0 <= k < |es| && InPiece(es, k, d) ==> k == Pick(es, d)
  {
    PickFromFacts(es, d, 0);
    var p := Pick(es, d);
    forall k | 0 <= k < |es| && InPiece(es, k, d) ensures k == p {
      if p < k {
        UpperMonotone(d, es[p].bnd, es[k - 1].bnd);
      }
    }
  }

  /** The element list read as a function of the difference d. */
  function EvalAt(L: Levels, es: seq<Elem>, d: real, v: Valuation): bool
  {
    var k := Pick(es, d);
    k < |es| && Eval(L, es[k].child, v)
  }

  // ----- Normal form

  ghost predicate ElemsOk(es: seq<Elem>)
  {
    && Cuts(es) && |es| >= 2
    && !es[0].child.neg
    && forall k :: 0 <= k < |es| - 1 ==> es[k].child != es[k + 1].child
  }

  /** Levels are declared, fit the kind of node and increase downwards from min; nodes are reduced. */
  ghost predicate NodeOk(L: Levels, n: Node, min: nat)
    decreases n
  {
    match n
    case Terminal => true
    case BddNode(level, low, high) =>
      && min <= level < |L| && L[level].BoolLevel?
      && !low.neg && low != high
      && NodeOk(L, low.node, level + 1) && NodeOk(L, high.node, level + 1)
    case CddNode(level, elems) =>
      && min <= level < |L| && L[level].ClockLevel?
      && ElemsOk(elems)
      && forall k :: 0 <= k < |elems| ==> NodeOk(L, elems[k].child.node, level + 1)
  }

  /** No clock is tested. */
  ghost predicate IsBdd(n: Node)
    decreases n
  {
    match n
    case Terminal => true
    case BddNode(_, low, high) => IsBdd(low.node) && IsBdd(high.node)
    case CddNode(_, _) => false
  }

  ghost predicate Normal(L: Levels, r: Ref) { NodeOk(L, r.node, 0) }

  lemma {:induction false} NodeOkWeaken(L: Levels, n: Node, a: nat, b: nat)
    requires a <= b && NodeOk(L, n, b)
    ensures NodeOk(L, n, a)
  {
  }

  /** A diagram whose levels all lie at or below min does not look at the booleans above. */
  lemma {:induction false} EvalIgnoresAbove(L: Levels, r: Ref, min: nat, x: Clocks, s: set<nat>, t: set<nat>)
    requires NodeOk(L, r.node, min)
    requires forall l :: min <= l ==> (l in s <==> l in t)
    ensures Eval(L, r, Valuation(x, s)) == Eval(L, r, Valuation(x, t))
    decreases r
  {
    match r.node
    case Terminal =>
    case BddNode(level, low, high) =>
      EvalIgnoresAbove(L, low, level + 1, x, s, t);
      EvalIgnoresAbove(L, high, level + 1, x, s, t);
    case CddNode(level, elems) =>
      var k := Pick(elems, DiffAt(L, level, x));
      if k < |elems| { EvalIgnoresAbove(L, elems[k].child, level + 1, x, s, t); }
  }

  // ----- Building nodes

  /** cdd_make_bdd_node: no redundant node, and the first child is never negated. */
  function MakeBool(level: nat, low: Ref, high: Ref): Ref
  {
    if low == high then low
    else Ref(low.neg, BddNode(level, Ref(false, low.node), NegCond(high, low.neg)))
  }

  lemma {:induction false} MakeBoolMeaning(L: Levels, level: nat, low: Ref, high: Ref, v: Valuation)
    ensures Eval(L, MakeBool(level, low, high), v) == if level in v.truths then Eval(L, high, v) else Eval(L, low, v)
  {
    EvalNeg(L, high, low.neg, v);
    EvalNeg(L, low, low.neg, v);
    var n := BddNode(level, Ref(false, low.node), NegCond(high, low.neg));
    assert EvalNode(L, n, v) == if level in v.truths then Eval(L, n.high, v) else Eval(L, n.low, v);
  }

  lemma {:induction false} MakeBoolOk(L: Levels, level: nat, low: Ref, high: Ref)
    requires level < |L| && L[level].BoolLevel?
    requires NodeOk(L, low.node, level + 1) && NodeOk(L, high.node, level + 1)
    ensures NodeOk(L, MakeBool(level, low, high).node, level)
  {
    if low == high { NodeOkWeaken(L, low.node, level, level + 1); }
  }

  /** Joins neighbouring pieces with equal children. */
  function Merge(es: seq<Elem>): (m: seq<Elem>)
    ensures |m| <= |es|
    ensures es != [] ==> m != [] && m[|m| - 1] == es[|es| - 1]
  {
    if |es| <= 1 then es
    else
      var m := Merge(es[..|es| - 1]);
      var last := es[|es| - 1];
      if m[|m| - 1].child == last.child then m[..|m| - 1] + [last] else m + [last]
  }

  /** The last piece reaches to infinity, whatever was left out above it. */
  function Seal(es: seq<Elem>): seq<Elem>
  {
    if es == [] then [] else es[..|es| - 1] + [Elem(es[|es| - 1].child, INF)]
  }

  function Masked(es: seq<Elem>, mask: bool): (m: seq<Elem>)
    ensures |m| == |es|
    ensures forall k :: 0 <= k < |es| ==> m[k] == Elem(NegCond(es[k].child, mask), es[k].bnd)
  {
    seq(|es|, k requires 0 <= k < |es| => Elem(NegCond(es[k].child, mask), es[k].bnd))
  }

  /** cdd_make_cdd_node: a single child stands for itself. */
  function MakeNode(level: nat, es: seq<Elem>): Ref
    requires es != []
  {
    if |es| == 1 then es[0].child else Ref(false, CddNode(level, es))
  }

  /** Builds a clock node over pieces, pushing the negation bit out of the first child. */
  function MakeClock(level: nat, es: seq<Elem>): Ref
    requires es != []
  {
    var mask := es[0].child.neg;
    NegCond(MakeNode(level, Masked(es, mask)), mask)
  }

  ghost predicate Distinct(es: seq<Elem>)
  {
    forall k :: 0 <= k < |es| - 1 ==> es[k].child != es[k + 1].child
  }

  /** Merging leaves no equal neighbours, and keeps every bound that separates different children. */
  lemma {:induction false} MergeShape(es: seq<Elem>)
    ensures Distinct(Merge(es))
    ensures forall e :: e in Merge(es) ==> e in es
    ensures es != [] ==> Merge(es)[0].child == es[0].child
  {
    if |es| > 1 { MergeShape(es[..|es| - 1]); }
  }

  ghost predicate Increasing(es: seq<Elem>)
  {
    forall a, b :: 0 <= a < b < |es| ==> es[a].bnd < es[b].bnd
  }

  lemma {:induction false} MergeIncreasing(es: seq<Elem>)
    requires Increasing(es)
    ensures Increasing(Merge(es))
  {
    if |es| > 1 {
      var init := es[..|es| - 1];
      MergeIncreasing(init);
      MergeShape(init);
      var m, last := Merge(init), es[|es| - 1];
      forall a | 0 <= a < |m| ensures m[a].bnd < last.bnd {
        assert m[a] in init;
      }
    }
  }

  /** Merging does not change which child a difference selects. */
  lemma {:induction false} MergeMeaning(L: Levels, es: seq<Elem>, d: real, v: Valuation)
    requires Increasing(es) && forall k :: 0 <= k < |es| ==> es[k].bnd <= INF
    ensures EvalAt(L, Merge(es), d, v) == EvalAt(L, es, d, v)
    ensures Pick(Merge(es), d) < |Merge(es)| <==> Pick(es, d) < |es|
  {
    if |es| > 1 {
      var init, last := es[..|es| - 1], es[|es| - 1];
      MergeMeaning(L, init, d, v);
      assert init + [last] == es;
      AppendMeaning(L, init, last, d, v);
      MergeStep(L, init, last, d, v);
    }
  }

  /** Merging in one more piece acts like appending it. */
  lemma {:induction false} MergeStep(L: Levels, init: seq<Elem>, last: Elem, d: real, v: Valuation)
    requires init != [] && last.bnd <= INF && forall k :: 0 <= k < |init| ==> init[k].bnd < last.bnd
    ensures var m, m' := Merge(init), Merge(init + [last]);
            && EvalAt(L, m', d, v) == (if Pick(m, d) < |m| then EvalAt(L, m, d, v) else MeetsUpper(d, last.bnd) && Eval(L, last.child, v))
            && (Pick(m', d) < |m'| <==> Pick(m, d) < |m| || MeetsUpper(d, last.bnd))
  {
    assert (init + [last])[..|init|] == init;
    var m := Merge(init);
    MergeShape(init);
    var end := m[|m| - 1];
    assert end in init;
    if end.child == last.child {
      ReplaceLast(L, m, last, d, v);
    } else {
      AppendMeaning(L, m, last, d, v);
    }
  }

  /** A new last piece only matters where no earlier bound is met. */
  lemma {:induction false} AppendMeaning(L: Levels, es: seq<Elem>, e: Elem, d: real, v: Valuation)
    ensures EvalAt(L, es + [e], d, v)
         == if Pick(es, d) < |es| then EvalAt(L, es, d, v) else MeetsUpper(d, e.bnd) && Eval(L, e.child, v)
    ensures Pick(es + [e], d) < |es| + 1 <==> Pick(es, d) < |es| || MeetsUpper(d, e.bnd)
  {
    PickAppend(es, e, d);
  }

  /** Moving the last bound up acts like adding a piece with the same child. */
  lemma {:induction false} ReplaceLast(L: Levels, m: seq<Elem>, e: Elem, d: real, v: Valuation)
    requires m != [] && m[|m| - 1].child == e.child && m[|m| - 1].bnd <= e.bnd <= INF
    ensures var m' := m[..|m| - 1] + [e];
            && EvalAt(L, m', d, v) == (if Pick(m, d) < |m| then EvalAt(L, m, d, v) else MeetsUpper(d, e.bnd) && Eval(L, e.child, v))
            && (Pick(m', d) < |m'| <==> Pick(m, d) < |m| || MeetsUpper(d, e.bnd))
  {
    var front, end := m[..|m| - 1], m[|m| - 1];
    assert front + [end] == m;
    AppendMeaning(L, front, end, d, v);
    AppendMeaning(L, front, e, d, v);
    if MeetsUpper(d, end.bnd) { UpperMonotone(d, end.bnd, e.bnd); }
  }

  lemma {:induction false} PickAppend(es: seq<Elem>, e: Elem, d: real)
    ensures Pick(es + [e], d) == if Pick(es, d) < |es| then Pick(es, d)
                                 else if MeetsUpper(d, e.bnd) then |es| else |es| + 1
  {
    PickFromAppend(es, e, d, 0);
  }

  lemma {:induction false} PickFromAppend(es: seq<Elem>, e: Elem, d: real, k: nat)
    requires k <= |es|
    ensures PickFrom(es + [e], d, k) == if PickFrom(es, d, k) < |es| then PickFrom(es, d, k)
                                        else if MeetsUpper(d, e.bnd) then |es| else |es| + 1
    decreases |es| - k
  {
    if k < |es| { PickFromAppend(es, e, d, k + 1); }
  }

  lemma {:induction false} MaskedMeaning(L: Levels, es: seq<Elem>, mask: bool, d: real, v: Valuation)
    requires Pick(es, d) < |es|
    ensures EvalAt(L, Masked(es, mask), d, v) == (EvalAt(L, es, d, v) != mask)
    ensures Pick(Masked(es, mask), d) == Pick(es, d)
  {
    MaskedPick(es, mask, d, 0);
    EvalNeg(L, es[Pick(es, d)].child, mask, v);
  }

  lemma {:induction false} MaskedPick(es: seq<Elem>, mask: bool, d: real, k: nat)
    requires k <= |es|
    ensures PickFrom(Masked(es, mask), d, k) == PickFrom(es, d, k)
    decreases |es| - k
  {
    if k < |es| { MaskedPick(es, mask, d, k + 1); }
  }

  lemma {:induction false} MakeClockMeaning(L: Levels, level: nat, es: seq<Elem>, v: Valuation)
    requires Cuts(es)
    ensures Eval(L, MakeClock(level, es), v) == EvalAt(L, es, DiffAt(L, level, v.clocks), v)
  {
    var d, mask := DiffAt(L, level, v.clocks), es[0].child.neg;
    PickIsPiece(es, d);
    MaskedMeaning(L, es, mask, d, v);
    EvalNeg(L, MakeNode(level, Masked(es, mask)), mask, v);
    if |es| == 1 {
      EvalNeg(L, es[0].child, mask, v);
    } else {
      assert EvalNode(L, CddNode(level, Masked(es, mask)), v) == EvalAt(L, Masked(es, mask), d, v);
    }
  }

  lemma {:induction false} MakeClockOk(L: Levels, level: nat, es: seq<Elem>)
    requires Cuts(es) && Distinct(es)
    requires level < |L| && L[level].ClockLevel?
    requires forall k :: 0 <= k < |es| ==> NodeOk(L, es[k].child.node, level + 1)
    ensures NodeOk(L, MakeClock(level, es).node, level)
  {
    if |es| == 1 { NodeOkWeaken(L, es[0].child.node, level, level + 1); }
  }

  /** Merging and sealing pieces with increasing finite bounds gives proper cuts. */
  lemma {:induction false} SealedCuts(es: seq<Elem>)
    requires es != [] && Increasing(es)
    requires forall k :: 0 <= k < |es| - 1 ==> Finite(es[k].bnd)
    ensures Cuts(Seal(Merge(es))) && Distinct(Seal(Merge(es)))
    ensures forall e :: e in Seal(Merge(es)) ==> exists k :: 0 <= k < |es| && es[k].child == e.child
  {
    MergeShape(es);
    MergeIncreasing(es);
    var m := Merge(es);
    forall k | 0 <= k < |m| - 1 ensures Finite(m[k].bnd) {
      assert m[k] in es;
      var j :| 0 <= j < |es| && es[j] == m[k];
      assert m[k].bnd < m[|m| - 1].bnd;
    }
    SealShape(m);
    forall e | e in Seal(m) ensures exists k :: 0 <= k < |es| && es[k].child == e.child {
      var i :| 0 <= i < |m| && m[i].child == e.child;
      assert m[i] in es;
    }
  }

  lemma {:induction false} SealShape(m: seq<Elem>)
    requires m != [] && Increasing(m) && Distinct(m)
    requires forall k :: 0 <= k < |m| - 1 ==> Finite(m[k].bnd)
    ensures Cuts(Seal(m)) && Distinct(Seal(m))
    ensures forall e :: e in Seal(m) ==> exists i :: 0 <= i < |m| && m[i].child == e.child
  {
    var s := Seal(m);
    forall k | 0 <= k < |s| ensures s[k].child == m[k].child && (k < |m| - 1 ==> s[k] == m[k]) {
    }
  }

  /** The node built from merged pieces is in normal form. */
  lemma {:induction false} MergedOk(L: Levels, level: nat, es: seq<Elem>)
    requires es != [] && Increasing(es)
    requires forall k :: 0 <= k < |es| - 1 ==> Finite(es[k].bnd)
    requires level < |L| && L[level].ClockLevel?
    requires forall k :: 0 <= k < |es| ==> NodeOk(L, es[k].child.node, level + 1)
    ensures NodeOk(L, MakeClock(level, Seal(Merge(es))).node, level)
  {
    SealedCuts(es);
    var m := Seal(Merge(es));
    forall k | 0 <= k < |m| ensures NodeOk(L, m[k].child.node, level + 1) {
      assert m[k] in m;
    }
    MakeClockOk(L, level, m);
  }

  /** The node built from merged pieces means what the pieces mean. */
  lemma {:induction false} MergedMeaning(L: Levels, level: nat, es: seq<Elem>, v: Valuation)
    requires es != [] && Increasing(es) && es[|es| - 1].bnd <= INF
    requires forall k :: 0 <= k < |es| - 1 ==> Finite(es[k].bnd)
    requires Pick(es, DiffAt(L, level, v.clocks)) < |es|
    ensures Eval(L, MakeClock(level, Seal(Merge(es))), v) == EvalAt(L, es, DiffAt(L, level, v.clocks), v)
  {
    var d, m := DiffAt(L, level, v.clocks), Merge(es);
    MergeMeaning(L, es, d, v);
    ReplaceLast(L, m, Elem(m[|m| - 1].child, INF), d, v);
    SealedCuts(es);
    MakeClockMeaning(L, level, Seal(m), v);
  }

  // ----- Building a clock node on the reference stack

  /**
   * The stack holds the finished pieces of a clock node, with the negation bit of the first child
   * pushed out; `prev` is the child of the piece still open; `done` lists every piece seen so far.
   */
  ghost predicate StackOk(stack: seq<Elem>, prev: Ref, mask: bool, done: seq<Elem>)
  {
    && done != [] && mask == done[0].child.neg
    && var m := Merge(done);
    stack == Masked(m[..|m| - 1], mask) && m[|m| - 1].child == prev
  }

  /** The next piece joins the open one if the child is the same, and else closes it at `low`. */
  lemma {:induction false} StackPush(stack: seq<Elem>, prev: Ref, mask: bool, done: seq<Elem>, low: int, next: Ref, up: int)
    requires StackOk(stack, prev, mask, done) && done[|done| - 1].bnd == low
    ensures var stack' := if next != prev then stack + [Elem(NegCond(prev, mask), low)] else stack;
            StackOk(stack', next, mask, done + [Elem(next, up)])
  {
    var done', e := done + [Elem(next, up)], Elem(next, up);
    assert done'[..|done'| - 1] == done;
    var m := Merge(done);
    assert m[..|m| - 1] + [m[|m| - 1]] == m;
    if next != prev {
      assert (m + [e])[..|m|] == m;
      assert Masked(m, mask) == Masked(m[..|m| - 1], mask) + [Elem(NegCond(prev, mask), low)];
    } else {
      assert (m[..|m| - 1] + [e])[..|m| - 1] == m[..|m| - 1];
    }
  }

  lemma {:induction false} StackFirst(first: Ref, up: int)
    ensures StackOk([], first, first.neg, [Elem(first, up)])
  {
  }

  /** Closing the last piece at infinity gives the node over all pieces. */
  lemma {:induction false} StackDone(level: nat, stack: seq<Elem>, prev: Ref, mask: bool, done: seq<Elem>)
    requires StackOk(stack, prev, mask, done)
    ensures NegCond(MakeNode(level, stack + [Elem(NegCond(prev, mask), INF)]), mask) == MakeClock(level, Seal(Merge(done)))
  {
    MergeShape(done);
    var s := Seal(Merge(done));
    assert stack + [Elem(NegCond(prev, mask), INF)] == Masked(s, mask);
    assert s[0].child == Merge(done)[0].child;
  }

  // ----- Children at a level

  /** The pieces of r at a level at or above its own; a diagram that starts lower is one piece. */
  function Kids(r: Ref, level: nat): seq<Elem>
  {
    if r.node.CddNode? && r.node.level == level then Masked(r.node.elems, r.neg) else [Elem(r, INF)]
  }

  lemma {:induction false} MaskedCuts(es: seq<Elem>, mask: bool)
    requires Cuts(es)
    ensures Cuts(Masked(es, mask))
  {
  }

  lemma {:induction false} KidsFacts(L: Levels, r: Ref, level: nat)
    requires NodeOk(L, r.node, level)
    requires r.node.BddNode? ==> r.node.level > level
    ensures Cuts(Kids(r, level))
    ensures forall k :: 0 <= k < |Kids(r, level)| ==> NodeOk(L, Kids(r, level)[k].child.node, level + 1)
  {
    if r.node.CddNode? && r.node.level == level { MaskedCuts(r.node.elems, r.neg); }
  }

  lemma {:induction false} KidsMeaning(L: Levels, r: Ref, level: nat, v: Valuation)
    requires NodeOk(L, r.node, level)
    ensures EvalAt(L, Kids(r, level), DiffAt(L, level, v.clocks), v) == Eval(L, r, v)
  {
    var d := DiffAt(L, level, v.clocks);
    if r.node.CddNode? && r.node.level == level {
      PickIsPiece(r.node.elems, d);
      MaskedMeaning(L, r.node.elems, r.neg, d, v);
      assert EvalNode(L, r.node, v) == EvalAt(L, r.node.elems, d, v);
    }
  }
}
