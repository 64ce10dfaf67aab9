/**
 * Reduction never makes a diagram have more paths.
 */
module Paths {
  import opened Diagrams
  import opened Reduction

  /** The number of paths from a node to the terminal. */
  function PathCount(n: Node): nat
    decreases n, 0
  {
    match n
    case Terminal => 1
    case BddNode(_, low, high) => PathCount(low.node) + PathCount(high.node)
    case CddNode(_, elems) => PathsUpTo(n, |elems|)
  }

  /** The number of paths through the first k children. */
  function PathsUpTo(n: Node, k: nat): nat
    requires n.CddNode? && k <= |n.elems|
    decreases n, 0, k
  {
    if k == 0 then 0 else PathsUpTo(n, k - 1) + PathCount(n.elems[k - 1].child.node)
  }

  function PathsOf(es: seq<Elem>): nat
  {
    if es == [] then 0 else PathsOf(es[..|es| - 1]) + PathCount(es[|es| - 1].child.node)
  }

  lemma {:induction false} PathsOfNode(level: nat, es: seq<Elem>, k: nat)
    requires k <= |es|
    ensures PathsUpTo(CddNode(level, es), k) == PathsOf(es[..k])
  {
    if k > 0 {
      PathsOfNode(level, es, k - 1);
      assert es[..k][..k - 1] == es[..k - 1];
    }
  }

  lemma {:induction false} PathsOfMasked(es: seq<Elem>, mask: bool)
    ensures PathsOf(Masked(es, mask)) == PathsOf(es)
  {
    if es != [] {
      PathsOfMasked(es[..|es| - 1], mask);
      assert Masked(es, mask)[..|es| - 1] == Masked(es[..|es| - 1], mask);
    }
  }

  lemma {:induction false} PathsOfSealed(es: seq<Elem>)
    ensures PathsOf(Seal(es)) == PathsOf(es)
  {
    if es != [] { assert Seal(es)[..|es| - 1] == es[..|es| - 1]; }
  }

  lemma {:induction false} PathsOfLast(front: seq<Elem>, last: Elem)
    ensures PathsOf(front + [last]) == PathsOf(front) + PathCount(last.child.node)
  {
    assert (front + [last])[..|front|] == front;
  }

  /** Joining neighbours with the same child drops the paths of one of them. */
  lemma {:induction false} PathsOfMerged(es: seq<Elem>)
    ensures PathsOf(Merge(es)) <= PathsOf(es)
  {
    if |es| > 1 {
      var last, m := es[|es| - 1], Merge(es[..|es| - 1]);
      PathsOfMerged(es[..|es| - 1]);
      if m[|m| - 1].child == last.child {
        PathsOfLast(m[..|m| - 1], last);
      } else {
        PathsOfLast(m, last);
      }
    }
  }

  lemma {:induction false} PathsOfClock(level: nat, es: seq<Elem>)
    requires es != []
    ensures PathCount(MakeClock(level, es).node) == PathsOf(es)
  {
    var mask := es[0].child.neg;
    var ms := Masked(es, mask);
    PathsOfMasked(es, mask);
    if |es| == 1 {
      assert ms[..0] == [];
    } else {
      PathsOfNode(level, ms, |ms|);
      assert ms[..|ms|] == ms;
    }
  }

  lemma {:induction false} PathsOfPair(a: Elem, rest: seq<Elem>)
    ensures PathsOf([a] + rest) == PathCount(a.child.node) + PathsOf(rest)
  {
    var es := [a] + rest;
    if rest == [] {
      assert es[..0] == [];
    } else {
      assert es[..|es| - 1] == [a] + rest[..|rest| - 1];
      PathsOfPair(a, rest[..|rest| - 1]);
    }
  }

  /** The paths through the children from k on. */
  lemma {:induction false} ItemsPaths(L: Levels, n: Node, neg: bool, k: nat, Z: Zone)
    requires n.CddNode? && k <= |n.elems|
    ensures PathsOf(ReduceItems(L, n, neg, k, Z)) + PathsUpTo(n, k) <= PathCount(n)
    decreases n, 0, |n.elems| - k
  {
    if k < |n.elems| {
      ItemsPaths(L, n, neg, k + 1, Z);
      var Zk := ChildZone(L, n.level, n.elems, k, Z);
      if Nonempty(Zk) {
        FewerPaths(L, NegCond(n.elems[k].child, neg), Zk);
        PathsOfPair(Elem(Reduce(L, NegCond(n.elems[k].child, neg), Zk), n.elems[k].bnd), ReduceItems(L, n, neg, k + 1, Z));
      }
    }
  }

  /** A reduced diagram has at most as many paths as the diagram it was made from. */
  lemma {:induction false} FewerPaths(L: Levels, r: Ref, Z: Zone)
    ensures PathCount(Reduce(L, r, Z).node) <= PathCount(r.node)
    decreases r.node, 1, 0
  {
    match r.node
    case Terminal =>
    case BddNode(level, low, high) =>
      FewerPaths(L, NegCond(low, r.neg), Z);
      FewerPaths(L, NegCond(high, r.neg), Z);
    case CddNode(level, elems) =>
      ItemsPaths(L, r.node, r.neg, 0, Z);
      var items := ReduceItems(L, r.node, r.neg, 0, Z);
      if items != [] {
        PathsOfMerged(items);
        PathsOfSealed(Merge(items));
        PathsOfClock(level, Seal(Merge(items)));
      }
  }
}
