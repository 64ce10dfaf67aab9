/**
 * Nodes of the store: their contents, their children, and the order in which a chain keeps them.
 *
 * A node is known by its address.  Addresses are numbered, so that comparing pointers is comparing
 * numbers; the terminal node and the node that ends every chain come first.
 */
module Nodes {
  import opened Diagrams

  type Id = nat

  const TERMINAL: Id := 0
  const SENTINEL: Id := 1

  /** A pointer to a node, with the negation bit. */
  datatype Handle = Handle(neg: bool, id: Id)

  const CDDFALSE := Handle(false, TERMINAL)
  const CDDTRUE := Handle(true, TERMINAL)

  function NegHandle(h: Handle, mask: bool): Handle { Handle(h.neg != mask, h.id) }

  datatype Kid = Kid(child: Handle, bnd: int)

  /** What a node holds; a free node, the terminal and the sentinel hold nothing. */
  datatype Body =
    | Nothing
    | Bool(level: nat, low: Handle, high: Handle)
    | Clock(level: nat, elems: seq<Kid>)

  function KidIds(es: seq<Kid>): (ids: seq<Id>)
    ensures |ids| == |es|
    ensures forall k :: 0 <= k < |es| ==> ids[k] == es[k].child.id
  {
    seq(|es|, k requires 0 <= k < |es| => es[k].child.id)
  }

  function Children(b: Body): seq<Id>
  {
    match b
    case Nothing => []
    case Bool(_, low, high) => [low.id, high.id]
    case Clock(_, elems) => KidIds(elems)
  }

  /** A node manager looks after the boolean nodes, or after the clock nodes of one arity. */
  function ManagerOf(b: Body): nat
  {
    if b.Clock? then |b.elems| else 0
  }

  /** A manager keeps one table for every level. */
  datatype TableId = TableId(manager: nat, level: nat)

  function TableOf(b: Body): TableId
    requires !b.Nothing?
  {
    TableId(ManagerOf(b), b.level)
  }

  ghost predicate BodyOk(b: Body)
  {
    b.Clock? ==> |b.elems| >= 2
  }

  // ----- Keys

  function Address(h: Handle): int { 2 * (h.id + 1) + (if h.neg then 1 else 0) }

  function ElemWords(es: seq<Kid>): (w: seq<int>)
    ensures |w| == 2 * |es|
  {
    if es == [] then [] else [Address(es[0].child), es[0].bnd] + ElemWords(es[1..])
  }

  /** The words by which a node is found again; nothing is below every key. */
  function Words(b: Body): seq<int>
  {
    match b
    case Nothing => []
    case Bool(_, low, high) => [Address(low), Address(high)]
    case Clock(_, elems) => ElemWords(elems)
  }

  lemma {:induction false} AddressInjective(a: Handle, b: Handle)
    requires Address(a) == Address(b)
    ensures a == b
  {
  }

  lemma {:induction false} ElemWordsInjective(a: seq<Kid>, b: seq<Kid>)
    requires ElemWords(a) == ElemWords(b)
    ensures a == b
  {
    assert |a| == |b|;
    if a != [] {
      var x, y := ElemWords(a), ElemWords(b);
      assert x[0] == y[0] && x[1] == y[1] && x[2..] == y[2..];
      assert x[2..] == ElemWords(a[1..]) && y[2..] == ElemWords(b[1..]);
      AddressInjective(a[0].child, b[0].child);
      ElemWordsInjective(a[1..], b[1..]);
      assert a == [a[0]] + a[1..] && b == [b[0]] + b[1..];
    }
  }

  /** In one table the key tells everything. */
  lemma {:induction false} KeyDetermines(a: Body, b: Body)
    requires !a.Nothing? && !b.Nothing? && BodyOk(a) && BodyOk(b) && TableOf(a) == TableOf(b) && Words(a) == Words(b)
    ensures a == b
  {
    if a.Bool? {
      assert Words(a)[0] == Words(b)[0] && Words(a)[1] == Words(b)[1];
      AddressInjective(a.low, b.low);
      AddressInjective(a.high, b.high);
    } else {
      ElemWordsInjective(a.elems, b.elems);
    }
  }

  /** Words are compared one by one, the first difference decides. */
  predicate LexLess(a: seq<int>, b: seq<int>)
  {
    b != [] && (a == [] || a[0] < b[0] || (a[0] == b[0] && LexLess(a[1..], b[1..])))
  }

  lemma {:induction false} LexTotal(a: seq<int>, b: seq<int>)
    ensures a == b || LexLess(a, b) || LexLess(b, a)
  {
    if a != [] && b != [] && a[0] == b[0] {
      LexTotal(a[1..], b[1..]);
      assert a == [a[0]] + a[1..] && b == [b[0]] + b[1..];
    }
  }

  lemma {:induction false} LexAsymmetric(a: seq<int>, b: seq<int>)
    requires LexLess(a, b)
    ensures a != b && !LexLess(b, a)
  {
    if a != [] && a[0] == b[0] { LexAsymmetric(a[1..], b[1..]); }
  }

  lemma {:induction false} LexTransitive(a: seq<int>, b: seq<int>, c: seq<int>)
    requires LexLess(a, b) && LexLess(b, c)
    ensures LexLess(a, c)
  {
    if a != [] && a[0] == b[0] == c[0] { LexTransitive(a[1..], b[1..], c[1..]); }
  }

  // ----- The diagram a node stands for

  function KidElems(es: seq<Kid>, shape: seq<Node>): (r: seq<Elem>)
    requires forall k :: 0 <= k < |es| ==> es[k].child.id < |shape|
    ensures |r| == |es|
    ensures forall k :: 0 <= k < |es| ==> r[k] == Elem(Ref(es[k].child.neg, shape[es[k].child.id]), es[k].bnd)
  {
    seq(|es|, k requires 0 <= k < |es| => Elem(Ref(es[k].child.neg, shape[es[k].child.id]), es[k].bnd))
  }

  ghost predicate IdsInRange(ids: seq<Id>, n: nat)
  {
    forall k :: 0 <= k < |ids| ==> ids[k] < n && ids[k] != SENTINEL
  }

  lemma {:induction false} IdsInRangeSum(a: seq<Id>, b: seq<Id>, n: nat)
    ensures IdsInRange(a + b, n) <==> IdsInRange(a, n) && IdsInRange(b, n)
  {
    assert forall k :: 0 <= k < |a| ==> (a + b)[k] == a[k];
    assert forall k :: 0 <= k < |b| ==> (a + b)[|a| + k] == b[k];
  }

  ghost predicate InRange(b: Body, n: nat) { IdsInRange(Children(b), n) }

  /** The diagram with these contents, given the diagrams of the children. */
  function NodeWith(b: Body, shape: seq<Node>): Node
    requires InRange(b, |shape|)
  {
    match b
    case Nothing => Terminal
    case Bool(level, low, high) =>
      assert Children(b)[0] == low.id && Children(b)[1] == high.id;
      BddNode(level, Ref(low.neg, shape[low.id]), Ref(high.neg, shape[high.id]))
    case Clock(level, elems) =>
      assert forall k :: 0 <= k < |elems| ==> Children(b)[k] == elems[k].child.id;
      CddNode(level, KidElems(elems, shape))
  }
}
