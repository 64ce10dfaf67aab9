/**
 * What cdd_reduce2 computes is determined: there is one tidy diagram in normal form.
 */
module Tidiness {
  import opened Diagrams
  import opened Independence
  import opened Operations
  import opened Canonicity

  /** What a part is by itself. */
  ghost predicate GoodPart(L: Levels, dim: nat, r: Ref, p: Part)
  {
    && IsRun(L, dim, r, p.s, p.k) && IsUnion(L, r, p.s, p.k, p.union)
    && r.node.CddNode? && NodeOk(L, p.union.node, r.node.level + 1) && NodeOk(L, p.reduced.node, r.node.level + 1)
    && Depth(L, p.union.node) < Depth(L, r.node) && Tidy(L, dim, p.union, p.reduced)
  }

  /** Part i starts where the part before it ends. */
  lemma {:induction false} PartAt(L: Levels, dim: nat, r: Ref, parts: seq<Part>, n: nat, i: nat)
    requires PartsOf(L, dim, r, parts, n) && i < |parts|
    ensures parts[i].s == (if i == 0 then 0 else parts[i - 1].k) && GoodPart(L, dim, r, parts[i])
    ensures i == |parts| - 1 ==> parts[i].k == n
  {
    if i < |parts| - 1 {
      var front := parts[..|parts| - 1];
      PartAt(L, dim, r, front, parts[|parts| - 1].s, i);
      assert front[i] == parts[i] && (i > 0 ==> front[i - 1] == parts[i - 1]);
    } else if i > 0 {
      var front := parts[..|parts| - 1];
      PartAt(L, dim, r, front, parts[i].s, i - 1);
      assert front[i - 1] == parts[i - 1];
    }
  }

  /** A run ends at the first child that does not join it. */
  lemma {:induction false} RunEndsOnce(L: Levels, dim: nat, r: Ref, s: nat, k: nat, m: nat)
    requires IsRun(L, dim, r, s, k) && IsRun(L, dim, r, s, m)
    ensures k == m
  {
  }

  lemma {:induction false} SameUnion(L: Levels, r: Ref, s: nat, k: nat, a: Ref, b: Ref)
    requires IsUnion(L, r, s, k, a) && IsUnion(L, r, s, k, b)
    requires NodeOk(L, a.node, r.node.level + 1) && NodeOk(L, b.node, r.node.level + 1)
    ensures a == b
  {
    forall v: Valuation ensures Eval(Independent(L), a, v) == Eval(Independent(L), b, v) {
      assert Eval(Independent(L), a, v) <==> SomeChild(Independent(L), r, s, k, v);
    }
    Canonical(L, a, b, r.node.level + 1);
  }

  /** The runs are the same, so their unions are, and so is what those are reduced to. */
  lemma {:induction false} SameParts(L: Levels, dim: nat, r: Ref, xs: seq<Part>, ys: seq<Part>, n: nat, i: nat)
    requires PartsOf(L, dim, r, xs, n) && PartsOf(L, dim, r, ys, n) && i < |xs| && i < |ys|
    ensures xs[i] == ys[i]
    decreases Depth(L, r.node), 1, i
  {
    PartAt(L, dim, r, xs, n, i);
    PartAt(L, dim, r, ys, n, i);
    if i > 0 { SameParts(L, dim, r, xs, ys, n, i - 1); }
    SamePart(L, dim, r, xs[i], ys[i]);
  }

  lemma {:induction false} SamePart(L: Levels, dim: nat, r: Ref, x: Part, y: Part)
    requires GoodPart(L, dim, r, x) && GoodPart(L, dim, r, y) && x.s == y.s
    ensures x == y
    decreases Depth(L, r.node), 0, 0
  {
    RunEndsOnce(L, dim, r, x.s, x.k, y.k);
    SameUnion(L, r, x.s, x.k, x.union, y.union);
    TidyOnce(L, dim, x.union, x.reduced, y.reduced, r.node.level + 1);
  }

  lemma {:induction false} AllParts(L: Levels, dim: nat, r: Ref, xs: seq<Part>, ys: seq<Part>, n: nat)
    requires PartsOf(L, dim, r, xs, n) && PartsOf(L, dim, r, ys, n) && r.node.CddNode? && n == |r.node.elems|
    ensures xs == ys
    decreases Depth(L, r.node), 2, 0
  {
    var m := if |xs| < |ys| then |xs| else |ys|;
    forall i | 0 <= i < m ensures xs[i] == ys[i] { SameParts(L, dim, r, xs, ys, n, i); }
    if |xs| < |ys| { NoneBehind(L, dim, r, xs, ys, n); }
    if |ys| < |xs| { NoneBehind(L, dim, r, ys, xs, n); }
  }

  lemma {:induction false} NoneBehind(L: Levels, dim: nat, r: Ref, xs: seq<Part>, ys: seq<Part>, n: nat)
    requires PartsOf(L, dim, r, xs, n) && PartsOf(L, dim, r, ys, n) && r.node.CddNode? && n == |r.node.elems|
    requires forall i :: 0 <= i < |xs| && i < |ys| ==> xs[i] == ys[i]
    ensures |xs| >= |ys|
  {
    if |xs| < |ys| {
      if xs != [] { PartAt(L, dim, r, xs, n, |xs| - 1); }
      PartAt(L, dim, r, ys, n, |xs|);
    }
  }

  lemma {:induction false} BranchesOnce(L: Levels, dim: nat, r: Ref, a: Ref, b: Ref, c: Ref, d: Ref)
    requires r.node.BddNode? && NodeOk(L, r.node, r.node.level)
    requires Tidy(L, dim, NegCond(r.node.low, r.neg), a) && Tidy(L, dim, NegCond(r.node.high, r.neg), b)
    requires Tidy(L, dim, NegCond(r.node.low, r.neg), c) && Tidy(L, dim, NegCond(r.node.high, r.neg), d)
    requires NodeOk(L, a.node, r.node.level + 1) && NodeOk(L, b.node, r.node.level + 1)
    requires NodeOk(L, c.node, r.node.level + 1) && NodeOk(L, d.node, r.node.level + 1)
    ensures a == c && b == d
    decreases Depth(L, r.node), 1, 0
  {
    var level := r.node.level;
    DepthBelow(L, r.node.low.node, level);
    DepthBelow(L, r.node.high.node, level);
    TidyOnce(L, dim, NegCond(r.node.low, r.neg), a, c, level + 1);
    TidyOnce(L, dim, NegCond(r.node.high, r.neg), b, d, level + 1);
  }

  lemma {:induction false} AssembledOnce(L: Levels, r: Ref, x: Ref, y: Ref, parts: seq<Part>, min: nat)
    requires Assembled(L, r, x, parts) && Assembled(L, r, y, parts) && NodeOk(L, x.node, min) && NodeOk(L, y.node, min)
    ensures x == y
  {
    Canonical(L, x, y, min);
  }

  lemma {:induction false} TidyBranches(L: Levels, dim: nat, r: Ref, x: Ref) returns (a: Ref, b: Ref)
    requires r.node.BddNode? && Tidy(L, dim, r, x)
    ensures Tidy(L, dim, NegCond(r.node.low, r.neg), a) && Tidy(L, dim, NegCond(r.node.high, r.neg), b)
    ensures NodeOk(L, a.node, r.node.level + 1) && NodeOk(L, b.node, r.node.level + 1) && x == MakeBool(r.node.level, a, b)
  {
    a, b :| Tidy(L, dim, NegCond(r.node.low, r.neg), a) && Tidy(L, dim, NegCond(r.node.high, r.neg), b)
            && NodeOk(L, a.node, r.node.level + 1) && NodeOk(L, b.node, r.node.level + 1) && x == MakeBool(r.node.level, a, b);
  }

  lemma {:induction false} TidyParts(L: Levels, dim: nat, r: Ref, x: Ref) returns (parts: seq<Part>)
    requires r.node.CddNode? && Tidy(L, dim, r, x)
    ensures PartsOf(L, dim, r, parts, |r.node.elems|) && Assembled(L, r, x, parts)
  {
    parts :| PartsOf(L, dim, r, parts, |r.node.elems|) && BoundsOfParts(x, r.node.level, parts) && Assembled(L, r, x, parts);
  }

  /** Every diagram has one tidy form. */
  lemma {:induction false} TidyOnce(L: Levels, dim: nat, r: Ref, x: Ref, y: Ref, min: nat)
    requires NodeOk(L, r.node, min) && NodeOk(L, x.node, min) && NodeOk(L, y.node, min) && Tidy(L, dim, r, x) && Tidy(L, dim, r, y)
    ensures x == y
    decreases Depth(L, r.node), 3, 0
  {
    if r.node.BddNode? {
      var a, b := TidyBranches(L, dim, r, x);
      var c, d := TidyBranches(L, dim, r, y);
      BranchesOnce(L, dim, r, a, b, c, d);
    } else if r.node.CddNode? {
      var xs := TidyParts(L, dim, r, x);
      var ys := TidyParts(L, dim, r, y);
      AllParts(L, dim, r, xs, ys, |r.node.elems|);
      AssembledOnce(L, r, x, y, xs, min);
    }
  }
}
