/**
 * Renaming clocks and booleans: what the code makes of a diagram, and when that is the substitution.
 */
module Renamings {
  import opened Sequences
  import opened Bounds
  import opened ConstraintGraph
  import opened Diagrams
  import opened Zones
  import opened Operations
  import opened Declarations

  /** New levels for the boolean levels, and new numbers for the clocks. */
  datatype Renaming = Renaming(levels: seq<nat>, clocks: seq<nat>)

  /** The valuation of the old names that a valuation of the new names gives. */
  function Renamed(m: Renaming, v: Valuation): Valuation
  {
    Valuation(
      seq(|m.clocks|, i requires 0 <= i < |m.clocks| => if m.clocks[i] < |v.clocks| then v.clocks[m.clocks[i]] else 0.0),
      set l | 0 <= l < |m.levels| && m.levels[l] in v.truths)
  }

  /** The renaming has names for the two clocks of a level. */
  predicate ClocksNamed(L: Levels, m: Renaming, level: nat)
  {
    level < |L| && L[level].ClockLevel? && L[level].clock1 < |m.clocks| && L[level].clock2 < |m.clocks|
  }

  /** Boolean levels of the diagram go to boolean levels, and the pairs of its clock levels are looked up inside the table. */
  ghost predicate CanRename(L: Levels, dim: nat, m: Renaming, n: Node)
    decreases n
  {
    match n
    case Terminal => true
    case BddNode(level, low, high) =>
      && level < |m.levels| && m.levels[level] < |L| && L[m.levels[level]].BoolLevel?
      && CanRename(L, dim, m, low.node) && CanRename(L, dim, m, high.node)
    case CddNode(level, elems) =>
      && ClocksNamed(L, m, level) && m.clocks[L[level].clock1] < dim && m.clocks[L[level].clock2] < dim
      && (m.clocks[L[level].clock1] != m.clocks[L[level].clock2] || m.clocks[L[level].clock1] + 1 < dim)
      && forall k :: 0 <= k < |elems| ==> CanRename(L, dim, m, elems[k].child.node)
  }

  /** No clock level of the diagram gets the same new clock twice. */
  ghost predicate Separates(L: Levels, m: Renaming, n: Node)
    decreases n
  {
    match n
    case Terminal => true
    case BddNode(_, low, high) => Separates(L, m, low.node) && Separates(L, m, high.node)
    case CddNode(level, elems) =>
      && ClocksNamed(L, m, level) && m.clocks[L[level].clock1] != m.clocks[L[level].clock2]
      && forall k :: 0 <= k < |elems| ==> Separates(L, m, elems[k].child.node)
  }

  // ----- What the code makes of a renaming

  /** The difference that a clock level is renamed to. */
  function ReadAt(L: Levels, m: Renaming, level: nat, x: Clocks): real
  {
    if ClocksNamed(L, m, level) then
      ReadDiff(x, m.clocks[L[level].clock1], m.clocks[L[level].clock2])
    else 0.0
  }

  /** The diagram, every boolean level read through the renaming, every clock level as its renamed difference. */
  function EvalRead(L: Levels, m: Renaming, r: Ref, v: Valuation): bool
    decreases r
  {
    r.neg != EvalReadNode(L, m, r.node, v)
  }

  function EvalReadNode(L: Levels, m: Renaming, n: Node, v: Valuation): bool
    decreases n
  {
    match n
    case Terminal => false
    case BddNode(level, low, high) =>
      if level < |m.levels| && m.levels[level] in v.truths then EvalRead(L, m, high, v) else EvalRead(L, m, low, v)
    case CddNode(level, elems) =>
      var k := Pick(elems, ReadAt(L, m, level, v.clocks));
      k < |elems| && EvalRead(L, m, elems[k].child, v)
  }

  lemma {:induction false} EvalReadNeg(L: Levels, m: Renaming, r: Ref, mask: bool, v: Valuation)
    ensures EvalRead(L, m, NegCond(r, mask), v) == (EvalRead(L, m, r, v) != mask)
  {
  }

  lemma {:induction false} RenamedDiff(m: Renaming, v: Valuation, i: nat, j: nat)
    requires i < |m.clocks| && j < |m.clocks|
    ensures Diff(Renamed(m, v).clocks, i, j) == Diff(v.clocks, m.clocks[i], m.clocks[j])
  {
  }

  /** Where no level gets one clock twice, that is the diagram at the renamed valuation. */
  lemma {:induction false} ReadIsRenamed(L: Levels, m: Renaming, r: Ref, v: Valuation)
    requires Separates(L, m, r.node)
    ensures EvalRead(L, m, r, v) == Eval(L, r, Renamed(m, v))
    decreases r
  {
    match r.node
    case Terminal =>
    case BddNode(level, low, high) =>
      ReadIsRenamed(L, m, low, v);
      ReadIsRenamed(L, m, high, v);
    case CddNode(level, elems) =>
      RenamedDiff(m, v, L[level].clock1, L[level].clock2);
      var k := Pick(elems, ReadAt(L, m, level, v.clocks));
      if k < |elems| { ReadIsRenamed(L, m, elems[k].child, v); }
  }

  /** The renaming of r is found inside the table, and is r at the renamed valuation. */
  ghost predicate RenamesRight(L: Levels, dim: nat, m: Renaming, r: Ref)
  {
    && CanRename(L, dim, m, r.node)
    && forall v: Valuation :: |v.clocks| == dim ==> EvalRead(L, m, r, v) == Eval(L, r, Renamed(m, v))
  }

  /** Boolean levels go to boolean levels, clocks to clocks. */
  ghost predicate RenamingOk(L: Levels, dim: nat, m: Renaming)
  {
    && |m.levels| == |L| && |m.clocks| == dim && (forall i :: 0 <= i < dim ==> m.clocks[i] < dim)
    && forall l :: 0 <= l < |L| && L[l].BoolLevel? ==> m.levels[l] < |L| && L[m.levels[l]].BoolLevel?
  }

  /** A renaming is right for every diagram if and only if it keeps different clocks apart. */
  lemma {:induction false} RenamingRight(L: Levels, diff2level: seq<nat>, dim: nat, m: Renaming)
    requires Declared(L, diff2level, dim) && RenamingOk(L, dim, m)
    ensures (forall r: Ref :: Normal(L, r) ==> RenamesRight(L, dim, m, r)) <==> NoRepeat(m.clocks)
  {
    if NoRepeat(m.clocks) {
      forall level: nat ensures LevelApart(L, dim, m, level) {
        if level < |L| && L[level].ClockLevel? { PairApart(L, dim, m, level); }
      }
      forall r: Ref | Normal(L, r) ensures RenamesRight(L, dim, m, r) {
        KeptApart(L, dim, m, r.node, 0);
        forall v: Valuation ensures EvalRead(L, m, r, v) == Eval(L, r, Renamed(m, v)) { ReadIsRenamed(L, m, r, v); }
      }
    } else {
      var d, c :| 0 <= d < c < dim && m.clocks[d] == m.clocks[c];
      assert LevelKnown(L, diff2level, c, d);
      MergedWrong(L, dim, m, diff2level[Difference(c, d)]);
    }
  }

  lemma {:induction false} PairApart(L: Levels, dim: nat, m: Renaming, level: nat)
    requires LevelsOk(L, dim) && RenamingOk(L, dim, m) && level < |L| && L[level].ClockLevel?
    ensures ClocksNamed(L, m, level) && m.clocks[L[level].clock1] < dim && m.clocks[L[level].clock2] < dim
    ensures NoRepeat(m.clocks) ==> m.clocks[L[level].clock1] != m.clocks[L[level].clock2]
  {
    assert L[level].clock2 < L[level].clock1 < dim;
  }

  /** A level is renamed to a boolean level, or to two different clocks. */
  ghost predicate LevelApart(L: Levels, dim: nat, m: Renaming, level: nat)
  {
    level < |L| ==>
      match L[level]
      case BoolLevel => level < |m.levels| && m.levels[level] < |L| && L[m.levels[level]].BoolLevel?
      case ClockLevel(c, d) => c < |m.clocks| && d < |m.clocks| && m.clocks[c] < dim && m.clocks[d] < dim && m.clocks[c] != m.clocks[d]
  }

  /** A renaming that keeps different clocks apart separates every level, and finds its pair inside the table. */
  lemma {:induction false} KeptApart(L: Levels, dim: nat, m: Renaming, n: Node, min: nat)
    requires NodeOk(L, n, min) && forall level: nat :: LevelApart(L, dim, m, level)
    ensures CanRename(L, dim, m, n) && Separates(L, m, n)
    decreases n
  {
    match n
    case Terminal =>
    case BddNode(level, low, high) =>
      KeptApart(L, dim, m, low.node, level + 1);
      KeptApart(L, dim, m, high.node, level + 1);
      assert LevelApart(L, dim, m, level);
    case CddNode(level, elems) =>
      assert LevelApart(L, dim, m, level);
      forall k | 0 <= k < |elems| ensures CanRename(L, dim, m, elems[k].child.node) && Separates(L, m, elems[k].child.node) {
        KeptApart(L, dim, m, elems[k].child.node, level + 1);
      }
  }

  lemma {:induction false} ReadAtMost(L: Levels, m: Renaming, level: nat, v: Valuation)
    ensures EvalRead(L, m, IntervalFromLevel(level, -INF, 1), v) == MeetsUpper(ReadAt(L, m, level, v.clocks), 1)
  {
    var es, d := [Elem(FALSE, 1), Elem(TRUE, INF)], ReadAt(L, m, level, v.clocks);
    assert IntervalFromLevel(level, -INF, 1) == Ref(true, CddNode(level, es));
    assert PickFrom(es, d, 1) == 1;
    assert Pick(es, d) == if MeetsUpper(d, 1) then 0 else 1;
    assert !EvalRead(L, m, FALSE, v) && EvalRead(L, m, TRUE, v);
  }

  /** The diagram "at most 0" on a pair that becomes one clock is renamed to the wrong diagram, or outside the table. */
  lemma {:induction false} MergedWrong(L: Levels, dim: nat, m: Renaming, level: nat)
    requires LevelsOk(L, dim) && RenamingOk(L, dim, m) && level < |L| && L[level].ClockLevel?
    requires m.clocks[L[level].clock1] == m.clocks[L[level].clock2]
    ensures Normal(L, IntervalFromLevel(level, -INF, 1)) && !RenamesRight(L, dim, m, IntervalFromLevel(level, -INF, 1))
  {
    var r := IntervalFromLevel(level, -INF, 1);
    IntervalMeaning(L, level, -INF, 1);
    NodeOkWeaken(L, r.node, 0, level);
    PairApart(L, dim, m, level);
    var i := m.clocks[L[level].clock1];
    if i + 1 < dim {
      var v := Valuation(Spike(dim, 1.0), {});
      SpikeDiff(dim, 1.0, i);
      RenamedDiff(m, v, L[level].clock1, L[level].clock2);
      assert !MeetsUpper(ReadAt(L, m, level, v.clocks), 1);
      ReadAtMost(L, m, level, v);
      IntervalAt(L, level, -INF, 1, Renamed(m, v));
    }
  }

  /** The result holds where the original does, read through the renaming. */
  ghost predicate Replaced(L: Levels, res: Ref, r: Ref, m: Renaming)
  {
    forall v: Valuation :: Eval(L, res, v) == EvalRead(L, m, r, v)
  }

  // ----- Piece by piece

  /** The pieces below k, read as a diagram of their own through the renaming, hold at v. */
  ghost predicate PrefixRead(L: Levels, m: Renaming, r: Ref, k: nat, v: Valuation)
    requires r.node.CddNode? && k <= |r.node.elems|
  {
    var p := Pick(r.node.elems, ReadAt(L, m, r.node.level, v.clocks));
    p < k && EvalRead(L, m, NegCond(r.node.elems[p].child, r.neg), v)
  }

  ghost predicate ReplacedPrefix(L: Levels, r: Ref, m: Renaming, res: Ref, k: nat)
    requires r.node.CddNode? && k <= |r.node.elems|
  {
    forall v: Valuation :: Eval(L, res, v) <==> PrefixRead(L, m, r, k, v)
  }

  lemma {:induction false} ReadPicked(L: Levels, m: Renaming, r: Ref, v: Valuation)
    requires r.node.CddNode? && NodeOk(L, r.node, r.node.level)
    ensures EvalRead(L, m, r, v) <==> PrefixRead(L, m, r, |r.node.elems|, v)
  {
    var d := ReadAt(L, m, r.node.level, v.clocks);
    PickIsPiece(r.node.elems, d);
    EvalReadNeg(L, m, r.node.elems[Pick(r.node.elems, d)].child, r.neg, v);
  }

  /** With the renamed interval and the renamed child the renamed pieces reach one further. */
  lemma {:induction false} PieceReplaced(L: Levels, r: Ref, m: Renaming, k: nat, res0: Ref, tmp1: Ref, tmp2: Ref, res: Ref)
    requires r.node.CddNode? && NodeOk(L, r.node, r.node.level) && k < |r.node.elems|
    requires forall v: Valuation :: Eval(L, tmp1, v) <==> InPiece(r.node.elems, k, ReadAt(L, m, r.node.level, v.clocks))
    requires Replaced(L, tmp2, NegCond(r.node.elems[k].child, r.neg), m) && ReplacedPrefix(L, r, m, res0, k)
    requires forall v: Valuation :: Eval(L, res, v) == (Eval(L, res0, v) || (Eval(L, tmp1, v) && Eval(L, tmp2, v)))
    ensures ReplacedPrefix(L, r, m, res, k + 1)
  {
    forall v: Valuation ensures Eval(L, res, v) <==> PrefixRead(L, m, r, k + 1, v) {
      PrefixNext(L, m, r, k, v);
      assert Eval(L, res0, v) <==> PrefixRead(L, m, r, k, v);
      assert Eval(L, tmp2, v) == EvalRead(L, m, NegCond(r.node.elems[k].child, r.neg), v);
    }
  }

  lemma {:induction false} PrefixNext(L: Levels, m: Renaming, r: Ref, k: nat, v: Valuation)
    requires r.node.CddNode? && NodeOk(L, r.node, r.node.level) && k < |r.node.elems|
    ensures PrefixRead(L, m, r, k + 1, v) <==>
            PrefixRead(L, m, r, k, v)
            || (InPiece(r.node.elems, k, ReadAt(L, m, r.node.level, v.clocks)) && EvalRead(L, m, NegCond(r.node.elems[k].child, r.neg), v))
  {
    PickIsPiece(r.node.elems, ReadAt(L, m, r.node.level, v.clocks));
  }
}
