/**
 * Nodes that stand for a diagram, and the counts that keep them standing.
 */
module Wholes {
  import opened Diagrams
  import opened Nodes
  import opened UniqueTable
  import opened References

  // ----- Nodes that stand for a diagram

  /**
   * A node is whole when everything below it is still there.  `shape` is then the diagram it stands
   * for.  A dead node stops being whole when a sweep takes one of its children.
   */
  ghost predicate NodeWhole(body: seq<Body>, whole: seq<bool>, shape: seq<Node>, id: Id)
    requires |whole| == |shape| == |body| && id < |body|
  {
    && SENTINEL < id && !body[id].Nothing? && BodyOk(body[id]) && InRange(body[id], |body|)
    && (forall c :: c in Children(body[id]) ==> whole[c])
    && shape[id] == NodeWith(body[id], shape)
  }

  ghost predicate WholeOk(body: seq<Body>, whole: seq<bool>, shape: seq<Node>, holding: seq<bool>)
  {
    && |whole| == |shape| == |holding| == |body| > SENTINEL
    && whole[TERMINAL] && shape[TERMINAL].Terminal? && !whole[SENTINEL]
    && (forall id {:trigger NodeWhole(body, whole, shape, id)} ::
          0 <= id < |body| && whole[id] ==> id == TERMINAL || NodeWhole(body, whole, shape, id))
    && (forall id :: 0 <= id < |body| && holding[id] ==> whole[id])
  }

  /** Different whole nodes stand for different diagrams, so comparing addresses is comparing diagrams. */
  lemma {:induction false} ShapesDiffer(h: Heap, hash: seq<int> -> nat, whole: seq<bool>, shape: seq<Node>, holding: seq<bool>, a: Id, b: Id)
    requires HeapOk(h, hash) && WholeOk(h.body, whole, shape, holding)
    requires a < |h.body| && b < |h.body| && whole[a] && whole[b] && shape[a] == shape[b]
    ensures a == b
    decreases shape[a]
  {
    if a != TERMINAL { assert NodeWhole(h.body, whole, shape, a); }
    if b != TERMINAL { assert NodeWhole(h.body, whole, shape, b); }
    if a != TERMINAL && b != TERMINAL {
      SameContents(h, hash, whole, shape, holding, a, b);
      NoDuplicates(h, hash, a, b);
    }
  }

  lemma {:induction false} SameContents(h: Heap, hash: seq<int> -> nat, whole: seq<bool>, shape: seq<Node>, holding: seq<bool>, a: Id, b: Id)
    requires HeapOk(h, hash) && WholeOk(h.body, whole, shape, holding) && a < |h.body| && b < |h.body|
    requires NodeWhole(h.body, whole, shape, a) && NodeWhole(h.body, whole, shape, b) && shape[a] == shape[b]
    ensures h.body[a] == h.body[b]
    decreases shape[a], 0
  {
    var x, y := h.body[a], h.body[b];
    if x.Bool? {
      assert Children(x) == [x.low.id, x.high.id] && Children(y) == [y.low.id, y.high.id];
      assert x.low.id in Children(x) && x.high.id in Children(x) && y.low.id in Children(y) && y.high.id in Children(y);
      ShapesDiffer(h, hash, whole, shape, holding, x.low.id, y.low.id);
      ShapesDiffer(h, hash, whole, shape, holding, x.high.id, y.high.id);
    } else {
      var es, fs := KidElems(x.elems, shape), KidElems(y.elems, shape);
      assert es == fs;
      forall k | 0 <= k < |x.elems| ensures x.elems[k] == y.elems[k] {
        assert Children(x)[k] == x.elems[k].child.id && Children(y)[k] == y.elems[k].child.id;
        assert es[k] == fs[k] && es[k].child.node == shape[x.elems[k].child.id];
        assert shape[a].elems[k].child.node == shape[x.elems[k].child.id];
        ShapesDiffer(h, hash, whole, shape, holding, x.elems[k].child.id, y.elems[k].child.id);
      }
    }
  }

  /** A node that gets its contents, or gets them back, stands for the diagram over its children. */
  lemma {:induction false} BecomesWhole(body: seq<Body>, whole: seq<bool>, shape: seq<Node>, holding: seq<bool>, id: Id, b: Body)
    requires WholeOk(body, whole, shape, holding) && SENTINEL < id < |body|
    requires !b.Nothing? && BodyOk(b) && InRange(b, |body|) && forall c :: c in Children(b) ==> whole[c] && c != id
    requires whole[id] ==> body[id] == b
    ensures WholeOk(body[id := b], whole[id := true], shape[id := NodeWith(b, shape)], holding)
    ensures whole[id] ==> shape[id] == NodeWith(b, shape)
  {
    var body', whole', shape' := body[id := b], whole[id := true], shape[id := NodeWith(b, shape)];
    if whole[id] {
      assert NodeWhole(body, whole, shape, id);
      assert body' == body && whole' == whole && shape' == shape;
    } else {
      SameNode(b, shape, shape');
      forall x | 0 <= x < |body| && whole'[x] && x != TERMINAL && x != id ensures NodeWhole(body', whole', shape', x) {
        assert NodeWhole(body, whole, shape, x);
        SameNode(body[x], shape, shape');
      }
    }
  }

  lemma {:induction false} SameNode(b: Body, shape: seq<Node>, shape': seq<Node>)
    requires InRange(b, |shape|) && InRange(b, |shape'|)
    requires forall c :: c in Children(b) && c < |shape| && c < |shape'| ==> shape'[c] == shape[c]
    ensures NodeWith(b, shape') == NodeWith(b, shape)
  {
    match b
    case Nothing =>
    case Bool(_, low, high) =>
      assert Children(b)[0] == low.id && Children(b)[1] == high.id;
    case Clock(_, elems) =>
      assert forall k :: 0 <= k < |elems| ==> Children(b)[k] == elems[k].child.id && elems[k].child.id in Children(b);
      assert KidElems(elems, shape') == KidElems(elems, shape);
  }

  // ----- Work still to be done

  ghost predicate WorkOk(whole: seq<bool>, todo: seq<Id>)
  {
    forall x :: x in todo ==> SENTINEL < x < |whole| && whole[x]
  }

  /** Nodes with references are still there, have references, and stand for the same diagrams. */
  ghost predicate Kept(ref: seq<nat>, shape: seq<Node>, body: seq<Body>, ref': seq<nat>, shape': seq<Node>, body': seq<Body>)
  {
    forall id :: 0 <= id < |ref| && id < |shape| && id < |body| && ref[id] > 0 ==>
      && id < |ref'| && id < |shape'| && id < |body'|
      && ref'[id] > 0 && shape'[id] == shape[id] && body'[id] == body[id]
  }

  lemma {:induction false} KeptOn(ref: seq<nat>, shape: seq<Node>, body: seq<Body>, ref1: seq<nat>, shape1: seq<Node>, body1: seq<Body>,
                                  ref2: seq<nat>, shape2: seq<Node>, body2: seq<Body>)
    requires Kept(ref, shape, body, ref1, shape1, body1) && Kept(ref1, shape1, body1, ref2, shape2, body2)
    ensures Kept(ref, shape, body, ref2, shape2, body2)
  {
  }

  ghost predicate NotFewer(a: seq<nat>, b: seq<nat>)
  {
    |a| == |b| && forall x :: 0 <= x < |a| ==> a[x] <= b[x]
  }

  ghost predicate Counting(ref: seq<nat>, body: seq<Body>, holding: seq<bool>, whole: seq<bool>, shape: seq<Node>,
                           ext: multiset<Id>, pend: seq<Id>, todo: seq<Id>)
  {
    CountsOk(ref, body, holding, ext, pend, todo) && WholeOk(body, whole, shape, holding)
  }

  lemma {:induction false} RelaxTodo(ref: seq<nat>, body: seq<Body>, holding: seq<bool>, ext: multiset<Id>, todo: seq<Id>)
    requires CountsOk(ref, body, holding, ext, [], [])
    ensures CountsOk(ref, body, holding, ext, [], todo)
  {
  }

  /** No node has started to hold its children. */
  ghost predicate NoMoreHold(holding: seq<bool>, holding': seq<bool>)
  {
    |holding| == |holding'| && forall id :: 0 <= id < |holding| && holding'[id] ==> holding[id]
  }

  lemma {:induction false} StillWhole(body: seq<Body>, whole: seq<bool>, shape: seq<Node>, holding: seq<bool>, holding': seq<bool>)
    requires WholeOk(body, whole, shape, holding) && NoMoreHold(holding, holding')
    ensures WholeOk(body, whole, shape, holding')
  {
  }

  // ----- Heights

  function Height(n: Node): nat
    decreases n, 0
  {
    match n
    case Terminal => 0
    case BddNode(_, low, high) => 1 + Taller(Height(low.node), Height(high.node))
    case CddNode(_, elems) => 1 + HeightUpTo(n, |elems|)
  }

  function Taller(a: nat, b: nat): nat { if a < b then b else a }

  function HeightUpTo(n: Node, k: nat): nat
    requires n.CddNode? && k <= |n.elems|
    decreases n, 0, k
  {
    if k == 0 then 0 else Taller(HeightUpTo(n, k - 1), Height(n.elems[k - 1].child.node))
  }

  lemma {:induction false} HeightAbove(n: Node, k: nat, j: nat)
    requires n.CddNode? && j < k <= |n.elems|
    ensures Height(n.elems[j].child.node) <= HeightUpTo(n, k)
  {
    if j < k - 1 { HeightAbove(n, k - 1, j); }
  }

  lemma {:induction false} ChildLower(body: seq<Body>, whole: seq<bool>, shape: seq<Node>, id: Id, c: Id)
    requires |whole| == |shape| == |body| && id < |body| && NodeWhole(body, whole, shape, id) && c in Children(body[id])
    ensures c < |body| && Height(shape[c]) < Height(shape[id])
  {
    var b := body[id];
    var k :| 0 <= k < |Children(b)| && Children(b)[k] == c;
    if b.Bool? {
      assert Children(b) == [b.low.id, b.high.id];
      assert Children(b)[0] == b.low.id && Children(b)[1] == b.high.id;
      assert shape[id].low.node == shape[b.low.id] && shape[id].high.node == shape[b.high.id];
    } else {
      assert Children(b)[k] == b.elems[k].child.id;
      assert shape[id].elems[k].child.node == shape[b.elems[k].child.id];
      HeightAbove(shape[id], |shape[id].elems|, k);
    }
  }
}
