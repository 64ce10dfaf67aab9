/**
 * Existential quantification of booleans, and renaming of clocks and booleans.
 *
 * Both walk a diagram with a cache of their own.  The caches are never cleared between calls: an
 * entry counts only when it carries the number of the current call.
 */
module Quantify {
  import opened Bounds
  import opened ConstraintGraph
  import opened Diagrams
  import opened Independence
  import opened Pieces
  import opened Apply
  import opened Operations
  import opened Declarations
  import opened Renamings

  // ----- Meaning of quantification

  ghost predicate SameOutside(s: set<nat>, t: set<nat>, levels: seq<nat>)
  {
    forall l: nat :: l !in levels ==> (l in s <==> l in t)
  }

  /** The booleans t differ from those of v in the listed levels at most, and make r true. */
  ghost predicate Chosen(L: Levels, r: Ref, levels: seq<nat>, v: Valuation, t: set<nat>)
  {
    SameOutside(v.truths, t, levels) && Eval(L, r, Valuation(v.clocks, t))
  }

  ghost predicate Some(L: Levels, r: Ref, levels: seq<nat>, v: Valuation)
  {
    exists t: set<nat> :: Chosen(L, r, levels, v, t)
  }

  ghost predicate Quantified(L: Levels, res: Ref, r: Ref, levels: seq<nat>)
  {
    forall v: Valuation :: Eval(L, res, v) <==> Some(L, r, levels, v)
  }

  /** A boolean level that is not listed keeps its value. */
  lemma {:induction false} SomeKept(L: Levels, r: Ref, level: nat, levels: seq<nat>, v: Valuation)
    requires NodeOk(L, r.node, level) && level < |L| && L[level].BoolLevel? && level !in levels
    ensures Some(L, r, levels, v) <==> Some(L, if level in v.truths then HighAt(r, level) else LowAt(r, level), levels, v)
  {
    BoolChildren(L, r, level);
    var part := if level in v.truths then HighAt(r, level) else LowAt(r, level);
    forall t: set<nat> | SameOutside(v.truths, t, levels)
      ensures Chosen(L, r, levels, v, t) <==> Chosen(L, part, levels, v, t)
    {
      assert level in v.truths <==> level in t;
    }
  }

  lemma {:induction false} SomeFreed(L: Levels, r: Ref, level: nat, levels: seq<nat>, v: Valuation)
    requires NodeOk(L, r.node, level) && level < |L| && L[level].BoolLevel? && level in levels
    ensures Some(L, r, levels, v) <==> Some(L, LowAt(r, level), levels, v) || Some(L, HighAt(r, level), levels, v)
  {
    BoolChildren(L, r, level);
    if Some(L, r, levels, v) {
      var t :| Chosen(L, r, levels, v, t);
      assert Chosen(L, if level in t then HighAt(r, level) else LowAt(r, level), levels, v, t);
    }
    if Some(L, LowAt(r, level), levels, v) {
      var t :| Chosen(L, LowAt(r, level), levels, v, t);
      EvalIgnoresAbove(L, LowAt(r, level), level + 1, v.clocks, t, t - {level});
      assert Chosen(L, r, levels, v, t - {level});
    }
    if Some(L, HighAt(r, level), levels, v) {
      var t :| Chosen(L, HighAt(r, level), levels, v, t);
      EvalIgnoresAbove(L, HighAt(r, level), level + 1, v.clocks, t, t + {level});
      assert Chosen(L, r, levels, v, t + {level});
    }
  }

  /** At a clock node the choice is made below the piece that the clocks select. */
  lemma {:induction false} SomeInPiece(L: Levels, r: Ref, levels: seq<nat>, v: Valuation)
    requires r.node.CddNode? && NodeOk(L, r.node, r.node.level)
    ensures var p := Pick(r.node.elems, DiffAt(L, r.node.level, v.clocks));
            p < |r.node.elems| && (Some(L, r, levels, v) <==> Some(L, NegCond(r.node.elems[p].child, r.neg), levels, v))
  {
    var d := DiffAt(L, r.node.level, v.clocks);
    var p := Pick(r.node.elems, d);
    PickIsPiece(r.node.elems, d);
    var part := NegCond(r.node.elems[p].child, r.neg);
    forall t: set<nat> ensures Chosen(L, r, levels, v, t) <==> Chosen(L, part, levels, v, t) {
      var u := Valuation(v.clocks, t);
      EvalNeg(L, r.node.elems[p].child, r.neg, u);
      assert EvalNode(L, r.node, u) == Eval(L, r.node.elems[p].child, u);
    }
  }

  lemma {:induction false} SomeTerminal(L: Levels, r: Ref, levels: seq<nat>)
    requires r.node.Terminal?
    ensures Quantified(L, r, r, levels)
  {
    forall v: Valuation ensures Eval(L, r, v) <==> Some(L, r, levels, v) {
      if Eval(L, r, v) { assert Chosen(L, r, levels, v, v.truths); }
      forall t: set<nat> | Chosen(L, r, levels, v, t) ensures Eval(L, r, v) {
        assert Eval(L, r, Valuation(v.clocks, t)) == r.neg;
      }
    }
  }

  /** Quantified whatever differences the levels are given means quantified for all clock values. */
  lemma {:induction false} QuantifiedReal(L: Levels, res: Ref, r: Ref, levels: seq<nat>)
    requires Quantified(Independent(L), res, r, levels)
    ensures Quantified(L, res, r, levels)
  {
    var F := Independent(L);
    forall v: Valuation ensures Eval(L, res, v) <==> Some(L, r, levels, v) {
      var w := Valuation(Spread(L, v.clocks), v.truths);
      ReadSpread(L, res, v);
      forall t: set<nat> ensures Chosen(F, r, levels, w, t) <==> Chosen(L, r, levels, v, t) {
        ReadSpread(L, r, Valuation(v.clocks, t));
      }
      assert Eval(F, res, w) <==> Some(F, r, levels, w);
      if Some(F, r, levels, w) {
        var t :| Chosen(F, r, levels, w, t);
        assert Chosen(L, r, levels, v, t);
      }
      if Some(L, r, levels, v) {
        var t :| Chosen(L, r, levels, v, t);
        assert Chosen(F, r, levels, w, t);
      }
    }
  }

  /** With one more piece the prefix reaches one further. */
  lemma {:induction false} SomePrefixNext(L: Levels, r: Ref, levels: seq<nat>, k: nat, tmp2: Ref, tmp3: Ref, res0: Ref, res: Ref)
    requires r.node.CddNode? && NodeOk(L, r.node, r.node.level) && k < |r.node.elems|
    requires Quantified(Independent(L), tmp2, NegCond(r.node.elems[k].child, r.neg), levels) && ExistPrefix(Independent(L), r, levels, res0, k)
    requires Denotes(L, tmp3, Op.And, IntervalFromLevel(r.node.level, Lower(r.node.elems, k), r.node.elems[k].bnd), tmp2) && FreelyOr(L, res, res0, tmp3)
    ensures ExistPrefix(Independent(L), r, levels, res, k + 1)
  {
    var F, level, elems := Independent(L), r.node.level, r.node.elems;
    IntervalMeaning(F, level, Lower(elems, k), elems[k].bnd);
    forall v: Valuation ensures Eval(F, res, v) <==> PrefixSome(F, r, levels, k + 1, v) {
      assert v.clocks in Everywhere();
      PickIsPiece(elems, DiffAt(F, level, v.clocks));
      assert Eval(F, tmp3, v) <==> InPiece(elems, k, DiffAt(F, level, v.clocks)) && Some(F, NegCond(elems[k].child, r.neg), levels, v);
    }
  }

  // ----- Both walks

  datatype ResultEntry = NoResult | Result(a: Ref, c: nat, res: Ref)

  ghost predicate KeepsLevels(L: Levels, r: Ref, res: Ref)
  {
    forall min :: NodeOk(L, r.node, min) ==> NodeOk(L, res.node, min)
  }

  ghost predicate QuantTruth(L: Levels, e: ResultEntry, opid: nat, levels: seq<nat>)
  {
    e.Result? && e.c == opid ==> Quantified(Independent(L), e.res, e.a, levels) && KeepsLevels(L, e.a, e.res)
  }

  ghost predicate ReplaceTruth(L: Levels, e: ResultEntry, opid: nat, m: Renaming)
  {
    e.Result? && e.c == opid ==> Replaced(L, e.res, e.a, m) && Normal(L, e.res)
  }

  ghost predicate NotFuture(e: ResultEntry, opid: nat)
  {
    e.Result? ==> e.c <= opid
  }

  method Listed(levels: seq<nat>, level: nat) returns (b: bool)
    ensures b <==> level in levels
  {
    b := false;
    var i := 0;
    while i < |levels| && !b
      invariant i <= |levels|
      invariant b <==> level in levels[..i]
    {
      b := levels[i] == level;
      assert levels[..i + 1] == levels[..i] + [levels[i]];
      i := i + 1;
    }
    if !b { assert levels[..i] == levels; }
  }

  class Transformer {
    const ops: Operators
    const diff2level: seq<nat>
    const dim: nat
    const quantcache: array<ResultEntry>
    const replacecache: array<ResultEntry>
    const hash: Ref -> nat
    /** The number of the current call. */
    var opid: nat

    ghost predicate Valid()
      reads this, ops, ops.table, quantcache, replacecache
    {
      && ops.Valid() && Declared(ops.L, diff2level, dim)
      && quantcache != replacecache && quantcache.Length > 0 && replacecache.Length > 0
      && (forall k :: 0 <= k < quantcache.Length ==> NotFuture(quantcache[k], opid))
      && (forall k :: 0 <= k < replacecache.Length ==> NotFuture(replacecache[k], opid))
    }

    ghost predicate Quantifying(levels: seq<nat>)
      reads this, ops, ops.table, quantcache, replacecache
    {
      Valid() && forall k :: 0 <= k < quantcache.Length ==> QuantTruth(ops.L, quantcache[k], opid, levels)
    }

    ghost predicate Replacing(m: Renaming)
      reads this, ops, ops.table, quantcache, replacecache
    {
      Valid() && forall k :: 0 <= k < replacecache.Length ==> ReplaceTruth(ops.L, replacecache[k], opid, m)
    }

    constructor (ops: Operators, diff2level: seq<nat>, dim: nat, size: nat, hash: Ref -> nat)
      requires ops.Valid() && Declared(ops.L, diff2level, dim) && size > 0
      ensures Valid() && this.ops == ops && fresh(quantcache) && fresh(replacecache)
    {
      this.ops := ops;
      this.diff2level := diff2level;
      this.dim := dim;
      this.hash := hash;
      opid := 0;
      quantcache := new ResultEntry[size](_ => NoResult);
      replacecache := new ResultEntry[size](_ => NoResult);
    }

    // ----- Quantification

    /** Holds where some choice for the listed boolean levels makes r hold. */
    method CddExist(r: Ref, levels: seq<nat>) returns (res: Ref)
      requires Valid() && Normal(ops.L, r)
      modifies this, ops.table, quantcache
      ensures Valid() && Normal(ops.L, res) && Quantified(ops.L, res, r, levels) && Quantified(Independent(ops.L), res, r, levels)
    {
      opid := opid + 1;
      assert Quantifying(levels) by {
        forall k | 0 <= k < quantcache.Length ensures QuantTruth(ops.L, quantcache[k], opid, levels) {
          assert old(NotFuture(quantcache[k], opid));
        }
      }
      res := ExistRec(r, levels, 0);
      QuantifiedReal(ops.L, res, r, levels);
    }

    method ExistRec(r: Ref, levels: seq<nat>, ghost min: nat) returns (res: Ref)
      requires Quantifying(levels) && NodeOk(ops.L, r.node, min)
      modifies ops.table, quantcache
      ensures Quantifying(levels)
      ensures NodeOk(ops.L, res.node, min) && Quantified(Independent(ops.L), res, r, levels)
      ensures !r.node.Terminal? ==> quantcache[hash(r) % quantcache.Length] == Result(r, opid, res)
      decreases r.node, 2
    {
      if r.node.Terminal? {
        SomeTerminal(Independent(ops.L), r, levels);
        return r;
      }
      var slot := hash(r) % quantcache.Length;
      var entry := quantcache[slot];
      if entry.Result? && entry.a == r && entry.c == opid {
        assert QuantTruth(ops.L, quantcache[slot], opid, levels);
        return entry.res;
      }
      StartsAt(ops.L, r.node, min, r.node.level);
      res := ExistNode(r, levels);
      assert KeepsLevels(ops.L, r, res) by {
        forall m | NodeOk(ops.L, r.node, m) ensures NodeOk(ops.L, res.node, m) {
          NodeOkWeaken(ops.L, res.node, m, r.node.level);
        }
      }
      quantcache[slot] := Result(r, opid, res);
    }

    method ExistNode(r: Ref, levels: seq<nat>) returns (res: Ref)
      requires Quantifying(levels) && !r.node.Terminal? && NodeOk(ops.L, r.node, r.node.level)
      modifies ops.table, quantcache
      ensures Quantifying(levels)
      ensures NodeOk(ops.L, res.node, r.node.level) && Quantified(Independent(ops.L), res, r, levels)
      decreases r.node, 1
    {
      var level := r.node.level;
      if r.node.CddNode? {
        res := ExistClock(r, levels);
        return;
      }
      BoolChildren(ops.L, r, level);
      var tmp1 := ExistRec(NegCond(r.node.low, r.neg), levels, level + 1);
      var tmp2 := ExistRec(NegCond(r.node.high, r.neg), levels, level + 1);
      res := ExistBool(r, levels, tmp1, tmp2);
    }

    /** Joins the quantified children: a listed level disappears. */
    method ExistBool(r: Ref, levels: seq<nat>, tmp1: Ref, tmp2: Ref) returns (res: Ref)
      requires Quantifying(levels) && r.node.BddNode? && NodeOk(ops.L, r.node, r.node.level)
      requires NodeOk(ops.L, tmp1.node, r.node.level + 1) && Quantified(Independent(ops.L), tmp1, NegCond(r.node.low, r.neg), levels)
      requires NodeOk(ops.L, tmp2.node, r.node.level + 1) && Quantified(Independent(ops.L), tmp2, NegCond(r.node.high, r.neg), levels)
      modifies ops.table
      ensures Quantifying(levels)
      ensures NodeOk(ops.L, res.node, r.node.level) && Quantified(Independent(ops.L), res, r, levels)
    {
      ghost var F := Independent(ops.L);
      KindsOnly(ops.L);
      var level := r.node.level;
      NodeOkWeaken(ops.L, tmp1.node, level, level + 1);
      NodeOkWeaken(ops.L, tmp2.node, level, level + 1);
      var affected := Listed(levels, level);
      if affected {
        res := Or(ops, tmp1, tmp2, level);
        forall v: Valuation ensures Eval(F, res, v) <==> Some(F, r, levels, v) {
          SomeFreed(F, r, level, levels, v);
        }
      } else {
        BddVarMeaning(F, level);
        res := Ite(ops, BddVar(level), tmp2, tmp1, level);
        forall v: Valuation ensures Eval(F, res, v) <==> Some(F, r, levels, v) {
          SomeKept(F, r, level, levels, v);
        }
      }
    }

    method ExistClock(r: Ref, levels: seq<nat>) returns (res: Ref)
      requires Quantifying(levels) && r.node.CddNode? && NodeOk(ops.L, r.node, r.node.level)
      modifies ops.table, quantcache
      ensures Quantifying(levels)
      ensures NodeOk(ops.L, res.node, r.node.level) && Quantified(Independent(ops.L), res, r, levels)
      decreases r.node, 0
    {
      var level, elems := r.node.level, r.node.elems;
      res := FALSE;
      var k, low := 0, -INF;
      while k < |elems|
        invariant k <= |elems| && low == Lower(elems, k) && Quantifying(levels)
        invariant NodeOk(ops.L, res.node, level) && ExistPrefix(Independent(ops.L), r, levels, res, k)
      {
        var tmp2 := ExistRec(NegCond(elems[k].child, r.neg), levels, level + 1);
        res := ExistPiece(r, levels, res, k, low, tmp2);
        low := elems[k].bnd;
        k := k + 1;
      }
      KindsOnly(ops.L);
      forall v: Valuation ensures Eval(Independent(ops.L), res, v) <==> Some(Independent(ops.L), r, levels, v) {
        SomeInPiece(Independent(ops.L), r, levels, v);
      }
    }

    method ExistPiece(r: Ref, levels: seq<nat>, res0: Ref, k: nat, low: int, tmp2: Ref) returns (res: Ref)
      requires Quantifying(levels) && r.node.CddNode? && NodeOk(ops.L, r.node, r.node.level)
      requires k < |r.node.elems| && low == Lower(r.node.elems, k)
      requires NodeOk(ops.L, tmp2.node, r.node.level + 1) && Quantified(Independent(ops.L), tmp2, NegCond(r.node.elems[k].child, r.neg), levels)
      requires NodeOk(ops.L, res0.node, r.node.level) && ExistPrefix(Independent(ops.L), r, levels, res0, k)
      modifies ops.table
      ensures Quantifying(levels)
      ensures NodeOk(ops.L, res.node, r.node.level) && ExistPrefix(Independent(ops.L), r, levels, res, k + 1)
    {
      var level, elems := r.node.level, r.node.elems;
      IntervalMeaning(ops.L, level, low, elems[k].bnd);
      NodeOkWeaken(ops.L, tmp2.node, level, level + 1);
      var tmp3 := Operations.And(ops, IntervalFromLevel(level, low, elems[k].bnd), tmp2, level);
      res := Or(ops, res0, tmp3, level);
      SomePrefixNext(ops.L, r, levels, k, tmp2, tmp3, res0, res);
    }

    // ----- Renaming

    /** The diagram with its clocks and booleans renamed. */
    method CddReplace(r: Ref, m: Renaming) returns (res: Ref)
      requires Valid() && Normal(ops.L, r) && CanRename(ops.L, dim, m, r.node)
      modifies this, ops.table, replacecache
      ensures Valid() && Normal(ops.L, res) && Replaced(ops.L, res, r, m)
      ensures Separates(ops.L, m, r.node) ==> forall v: Valuation :: Eval(ops.L, res, v) == Eval(ops.L, r, Renamed(m, v))
    {
      opid := opid + 1;
      assert Replacing(m) by {
        forall k | 0 <= k < replacecache.Length ensures ReplaceTruth(ops.L, replacecache[k], opid, m) {
          assert old(NotFuture(replacecache[k], opid));
        }
      }
      res := ReplaceRec(r, m, 0);
      forall v: Valuation | Separates(ops.L, m, r.node) ensures Eval(ops.L, res, v) == Eval(ops.L, r, Renamed(m, v)) {
        ReadIsRenamed(ops.L, m, r, v);
      }
    }

    method ReplaceRec(r: Ref, m: Renaming, ghost min: nat) returns (res: Ref)
      requires Replacing(m) && NodeOk(ops.L, r.node, min) && CanRename(ops.L, dim, m, r.node)
      modifies ops.table, replacecache
      ensures Replacing(m)
      ensures Normal(ops.L, res) && Replaced(ops.L, res, r, m)
      ensures !r.node.Terminal? ==> replacecache[hash(r) % replacecache.Length] == Result(r, opid, res)
      decreases r.node, 2
    {
      if r.node.Terminal? {
        return r;
      }
      var slot := hash(r) % replacecache.Length;
      var entry := replacecache[slot];
      if entry.Result? && entry.a == r && entry.c == opid {
        assert ReplaceTruth(ops.L, replacecache[slot], opid, m);
        return entry.res;
      }
      StartsAt(ops.L, r.node, min, r.node.level);
      if r.node.CddNode? {
        res := ReplaceClock(r, m);
      } else {
        res := ReplaceBool(r, m);
      }
      replacecache[slot] := Result(r, opid, res);
    }

    method ReplaceBool(r: Ref, m: Renaming) returns (res: Ref)
      requires Replacing(m) && CanRename(ops.L, dim, m, r.node)
      requires r.node.BddNode? && NodeOk(ops.L, r.node, r.node.level)
      modifies ops.table, replacecache
      ensures Replacing(m)
      ensures Normal(ops.L, res) && Replaced(ops.L, res, r, m)
      decreases r.node, 1
    {
      var level := r.node.level;
      BoolChildren(ops.L, r, level);
      var tmp2 := ReplaceRec(NegCond(r.node.low, r.neg), m, level + 1);
      var tmp3 := ReplaceRec(NegCond(r.node.high, r.neg), m, level + 1);
      var tmp1 := BddVar(m.levels[level]);
      BddVarMeaning(ops.L, m.levels[level]);
      NodeOkWeaken(ops.L, tmp1.node, 0, m.levels[level]);
      res := Ite(ops, tmp1, tmp3, tmp2, 0);
      forall v: Valuation ensures Eval(ops.L, res, v) == EvalRead(ops.L, m, r, v) {
        EvalReadNeg(ops.L, m, r.node.low, r.neg, v);
        EvalReadNeg(ops.L, m, r.node.high, r.neg, v);
      }
    }

    method ReplaceClock(r: Ref, m: Renaming) returns (res: Ref)
      requires Replacing(m) && CanRename(ops.L, dim, m, r.node)
      requires r.node.CddNode? && NodeOk(ops.L, r.node, r.node.level)
      modifies ops.table, replacecache
      ensures Replacing(m)
      ensures Normal(ops.L, res) && Replaced(ops.L, res, r, m)
      decreases r.node, 1
    {
      var level, elems := r.node.level, r.node.elems;
      res := FALSE;
      var k, low := 0, -INF;
      while k < |elems|
        invariant k <= |elems| && low == Lower(elems, k) && Replacing(m)
        invariant Normal(ops.L, res) && ReplacedPrefix(ops.L, r, m, res, k)
      {
        var tmp2 := ReplaceRec(NegCond(elems[k].child, r.neg), m, level + 1);
        res := ReplacePiece(r, m, res, k, low, tmp2);
        low := elems[k].bnd;
        k := k + 1;
      }
      forall v: Valuation ensures Eval(ops.L, res, v) == EvalRead(ops.L, m, r, v) {
        ReadPicked(ops.L, m, r, v);
      }
    }

    method ReplacePiece(r: Ref, m: Renaming, res0: Ref, k: nat, low: int, tmp2: Ref) returns (res: Ref)
      requires Replacing(m) && CanRename(ops.L, dim, m, r.node)
      requires r.node.CddNode? && NodeOk(ops.L, r.node, r.node.level)
      requires k < |r.node.elems| && low == Lower(r.node.elems, k)
      requires Normal(ops.L, tmp2) && Replaced(ops.L, tmp2, NegCond(r.node.elems[k].child, r.neg), m)
      requires Normal(ops.L, res0) && ReplacedPrefix(ops.L, r, m, res0, k)
      modifies ops.table
      ensures Replacing(m)
      ensures Normal(ops.L, res) && ReplacedPrefix(ops.L, r, m, res, k + 1)
    {
      var level, elems := r.node.level, r.node.elems;
      var c1, c2 := ops.L[level].clock1, ops.L[level].clock2;
      IntervalOk(ops.L, diff2level, dim, m.clocks[c1], m.clocks[c2], low, elems[k].bnd);
      var tmp1 := Interval(diff2level, m.clocks[c1], m.clocks[c2], low, elems[k].bnd);
      var tmp3 := Operations.And(ops, tmp1, tmp2, 0);
      res := Or(ops, res0, tmp3, 0);
      PieceReplaced(ops.L, r, m, k, res0, tmp1, tmp2, res);
    }
  }

  /** The pieces below k, read as a diagram of their own, hold at v for some choice of the listed levels. */
  ghost predicate PrefixSome(L: Levels, r: Ref, levels: seq<nat>, k: nat, v: Valuation)
    requires r.node.CddNode? && k <= |r.node.elems|
  {
    var p := Pick(r.node.elems, DiffAt(L, r.node.level, v.clocks));
    p < k && Some(L, NegCond(r.node.elems[p].child, r.neg), levels, v)
  }

  ghost predicate ExistPrefix(L: Levels, r: Ref, levels: seq<nat>, res: Ref, k: nat)
    requires r.node.CddNode? && k <= |r.node.elems|
  {
    forall v: Valuation :: Eval(L, res, v) <==> PrefixSome(L, r, levels, k, v)
  }
}
