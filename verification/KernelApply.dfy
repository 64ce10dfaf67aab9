/**
 * cdd_apply on the node store: recursion over counted nodes, with garbage collections in between.
 */
module KernelApply {
  import opened Bounds
  import opened Diagrams
  import opened Independence
  import opened Pieces
  import opened Apply
  import opened Nodes
  import opened Tallies
  import opened Wholes
  import opened Kernels
  import opened Roots

  // ----- Pointers within reach

  ghost predicate InReach(k: Kernel, h: Handle)
    reads k, k.store
  {
    Rooted(k.store.body, k.ext, h.id)
  }

  /** The diagram behind a pointer, in a given view. */
  ghost function DiagramIn(v: View, h: Handle): Ref
  {
    if h.id < |v.shape| then Ref(h.neg, v.shape[h.id]) else FALSE
  }

  lemma {:induction false} ReachLive(k: Kernel, h: Handle)
    requires k.Valid() && InReach(k, h)
    ensures k.LiveHandle(h) && k.Denoted(h) == DiagramIn(ViewOf(k), h)
  {
    RootedLives(k, h.id);
  }

  lemma {:induction false} SameDiagram(a: View, b: View, h: Handle)
    requires Follows(a, b) && Rooted(a.body, a.ext, h.id)
    ensures DiagramIn(b, h) == DiagramIn(a, h)
  {
    assert SameNodeIn(a, b, h.id);
  }

  // ----- The kernel's operations, as a caller sees them

  /** The work of one call: the references are back to what they were, and everything within reach is as before. */
  ghost predicate Undisturbed(a: View, b: View)
  {
    b.ext == a.ext && Follows(a, b)
  }

  method TakeRef(k: Kernel, h: Handle)
    requires k.Valid() && k.LiveHandle(h)
    modifies k`ref, k`ext
    ensures k.Valid() && k.ext == old(k.ext) + multiset{h.id} && k.LiveHandle(h)
    ensures Follows(old(ViewOf(k)), ViewOf(k)) && InReach(k, h) && DiagramIn(ViewOf(k), h) == old(k.Denoted(h))
    ensures Lossless(old(k.Books()), [h.id], k.Books(), [])
  {
    ghost var ref, holding, lost, a, books := k.ref, k.holding, k.lost, ViewOf(k), k.Books();
    k.BooksInOrder();
    k.AddRef(h);
    k.BooksInOrder();
    TookSettled(books, k.Books(), h.id);
    KeepsFollows(ref, holding, lost, a, ViewOf(k));
    HeldRooted(k.store.body, k.ext, h.id);
  }

  /** Gives a reference back; the node itself stays alive for the moment. */
  method DropRef(k: Kernel, h: Handle, res: Handle)
    requires k.Valid() && h.id in k.ext && k.LiveHandle(res) && k.IsOrHas(res, h.id)
    modifies k`ref, k`ext
    ensures k.Valid() && k.ext == old(k.ext) - multiset{h.id}
    ensures ViewOf(k).body == old(ViewOf(k).body) && ViewOf(k).shape == old(ViewOf(k).shape)
    ensures k.LiveHandle(res) && Lossless(old(k.Books()), [res.id], k.Books(), [res.id])
  {
    ghost var books := k.Books();
    k.BooksInOrder();
    k.Deref(h);
    k.BooksInOrder();
    GaveSettled(books, k.Books(), h.id, res.id);
  }

  method BddNodeOver(k: Kernel, level: nat, low: Handle, high: Handle) returns (h: Handle)
    requires k.Valid() && k.LiveHandle(low) && k.LiveHandle(high)
    modifies k`made, k`ref, k`cache, k`holding, k`whole, k`shape, k`lost, k.store
    ensures k.Valid() && k.LiveHandle(h) && Undisturbed(old(ViewOf(k)), ViewOf(k))
    ensures k.Denoted(h) == MakeBool(level, old(k.Denoted(low)), old(k.Denoted(high)))
    ensures Lossless(old(k.Books()), [low.id, high.id], k.Books(), [h.id]) && k.IsOrHas(h, low.id)
  {
    ghost var ref, holding, lost, a := k.ref, k.holding, k.lost, ViewOf(k);
    h := k.MakeBddNode(level, low, high);
    KeepsFollows(ref, holding, lost, a, ViewOf(k));
  }

  method CddNodeOver(k: Kernel, level: nat, elems: seq<Kid>) returns (h: Handle)
    requires k.Valid() && elems != [] && forall i :: 0 <= i < |elems| ==> k.LiveHandle(elems[i].child)
    modifies k`made, k`ref, k`cache, k`holding, k`whole, k`shape, k`lost, k.store
    ensures k.Valid() && k.LiveHandle(h) && Undisturbed(old(ViewOf(k)), ViewOf(k))
    ensures forall i :: 0 <= i < |elems| ==> elems[i].child.id < |old(k.shape)|
    ensures k.Denoted(h) == MakeNode(level, KidElems(elems, old(k.shape)))
    ensures Lossless(old(k.Books()), KidIds(elems), k.Books(), [h.id]) && forall i :: 0 <= i < |elems| ==> k.IsOrHas(h, elems[i].child.id)
  {
    ghost var ref, holding, lost, a := k.ref, k.holding, k.lost, ViewOf(k);
    h := k.MakeCddNode(level, elems);
    KeepsFollows(ref, holding, lost, a, ViewOf(k));
  }

  /** A hit on a node that has references changes nothing. */
  lemma {:induction false} HitSettled(k: Kernel, books: Tally, found: bool, res: Handle)
    requires k.Valid() && BooksOk(books) && BooksOk(k.Books()) && books.body == k.store.body && books.ext == k.ext && |books.ref| == |k.ref|
    requires found ==> k.LiveHandle(res) && res.id < |books.ref| && (books.ref[res.id] > 0 ==> k.ref == books.ref && k.holding == books.holding && k.lost == books.lost)
    requires !found ==> k.ref == books.ref && k.holding == books.holding && k.lost == books.lost
    ensures Lossless(books, [], k.Books(), [])
  {
  }

  method LookUp(k: Kernel, l: Handle, r: Handle, op: Op) returns (found: bool, res: Handle)
    requires k.Valid() && InReach(k, l) && InReach(k, r)
    modifies k`ref, k`holding, k`lost
    ensures k.Valid() && ViewOf(k) == old(ViewOf(k)) && Lossless(old(k.Books()), [], k.Books(), [])
    ensures var e := k.cache[k.SlotOf(l, r, op)]; found <==> e.Used? && e == Used(l, r, op, e.res)
    ensures found ==> k.cache[k.SlotOf(l, r, op)] == Used(l, r, op, res)
    ensures found ==> k.LiveHandle(res)
                      && Truthful(k.L, Entry(DiagramIn(ViewOf(k), l), DiagramIn(ViewOf(k), r), op, k.Denoted(res)))
  {
    ReachLive(k, l);
    ReachLive(k, r);
    ghost var seen, books := [], k.Books();
    k.BooksInOrder();
    found, res, seen := k.CacheLookup(l, r, op);
    k.BooksInOrder();
    HitSettled(k, books, found, res);
    ReachLive(k, l);
    ReachLive(k, r);
  }

  method Record(k: Kernel, l: Handle, r: Handle, op: Op, res: Handle)
    requires k.Valid() && InReach(k, l) && InReach(k, r) && k.LiveHandle(res)
    requires Truthful(k.L, Entry(DiagramIn(ViewOf(k), l), DiagramIn(ViewOf(k), r), op, k.Denoted(res)))
    modifies k`cache
    ensures k.Valid() && ViewOf(k) == old(ViewOf(k)) && k.LiveHandle(res) && k.Books() == old(k.Books())
    ensures k.cache[k.SlotOf(l, r, op)] == Used(l, r, op, res)
  {
    ReachLive(k, l);
    ReachLive(k, r);
    k.CacheStore(l, r, op, res);
  }

  // ----- The cases that need no recursion

  datatype QuickResult = Direct(res: Handle) | Recurse

  function Quick(op: Op, l: Handle, r: Handle): QuickResult
  {
    match op
    case And =>
      if l == r || r == CDDTRUE then Direct(l)
      else if l == CDDFALSE || r == CDDFALSE || l == NegHandle(r, true) then Direct(CDDFALSE)
      else if l == CDDTRUE then Direct(r)
      else Recurse
    case Xor =>
      if l == r then Direct(CDDFALSE)
      else if l == NegHandle(r, true) then Direct(CDDTRUE)
      else if l == CDDFALSE then Direct(r)
      else if r == CDDFALSE then Direct(l)
      else if l == CDDTRUE then Direct(NegHandle(r, true))
      else if r == CDDTRUE then Direct(NegHandle(l, true))
      else Recurse
  }

  /** Looking at the pointers decides what looking at the diagrams would. */
  lemma {:induction false} QuickOk(k: Kernel, op: Op, l: Handle, r: Handle)
    requires k.Valid() && InReach(k, l) && InReach(k, r)
    ensures var v := ViewOf(k);
            var quick := Immediate(op, DiagramIn(v, l), DiagramIn(v, r));
            && (Quick(op, l, r).Direct? <==> quick.Known?)
            && (quick.Known? ==> k.LiveHandle(Quick(op, l, r).res) && k.Denoted(Quick(op, l, r).res) == quick.res)
  {
    ReachLive(k, l);
    ReachLive(k, r);
    k.HandlesDiffer(l, r);
    k.HandlesDiffer(l, NegHandle(r, true));
    k.HandlesDiffer(l, CDDFALSE);
    k.HandlesDiffer(l, CDDTRUE);
    k.HandlesDiffer(r, CDDFALSE);
    k.HandlesDiffer(r, CDDTRUE);
  }

  // ----- Children

  function LevelIn(L: Levels, body: seq<Body>, h: Handle): nat
    requires h.id < |body|
  {
    if body[h.id].Nothing? then |L| else body[h.id].level
  }

  /** The contents of a node within reach are the top of its diagram. */
  lemma {:induction false} TopOf(k: Kernel, h: Handle)
    requires k.Valid() && InReach(k, h)
    ensures h.id < |k.store.body| && h.id < |k.shape| && InRange(k.store.body[h.id], |k.shape|)
    ensures k.shape[h.id] == NodeWith(k.store.body[h.id], k.shape)
    ensures LevelIn(k.L, k.store.body, h) == LevelOf(k.L, k.shape[h.id])
  {
    ReachLive(k, h);
    if h.id != TERMINAL { assert NodeWhole(k.store.body, k.whole, k.shape, h.id); }
  }

  function LowIn(body: seq<Body>, h: Handle, level: nat): Handle
    requires h.id < |body|
  {
    if body[h.id].Bool? && body[h.id].level == level then NegHandle(body[h.id].low, h.neg) else h
  }

  function HighIn(body: seq<Body>, h: Handle, level: nat): Handle
    requires h.id < |body|
  {
    if body[h.id].Bool? && body[h.id].level == level then NegHandle(body[h.id].high, h.neg) else h
  }

  lemma {:induction false} BranchesIn(k: Kernel, h: Handle, level: nat)
    requires k.Valid() && InReach(k, h)
    ensures h.id < |k.store.body|
    ensures var v := ViewOf(k);
            && InReach(k, LowIn(k.store.body, h, level)) && DiagramIn(v, LowIn(k.store.body, h, level)) == LowAt(DiagramIn(v, h), level)
            && InReach(k, HighIn(k.store.body, h, level)) && DiagramIn(v, HighIn(k.store.body, h, level)) == HighAt(DiagramIn(v, h), level)
  {
    TopOf(k, h);
    var b := k.store.body[h.id];
    if b.Bool? && b.level == level {
      assert Children(b)[0] == b.low.id && Children(b)[1] == b.high.id;
      ChildRooted(k.store.body, k.ext, h.id, b.low.id);
      ChildRooted(k.store.body, k.ext, h.id, b.high.id);
    }
  }

  function MaskedKids(es: seq<Kid>, mask: bool): (r: seq<Kid>)
    ensures |r| == |es| && forall i :: 0 <= i < |es| ==> r[i] == Kid(NegHandle(es[i].child, mask), es[i].bnd)
  {
    seq(|es|, i requires 0 <= i < |es| => Kid(NegHandle(es[i].child, mask), es[i].bnd))
  }

  /** The pieces of a pointer at a level; one that starts lower is pushed as a single piece. */
  function KidsIn(body: seq<Body>, h: Handle, level: nat): seq<Kid>
    requires h.id < |body|
  {
    if body[h.id].Clock? && body[h.id].level == level then MaskedKids(body[h.id].elems, h.neg) else [Kid(h, INF)]
  }

  ghost predicate ElemsIn(v: View, kids: seq<Kid>, elems: seq<Elem>)
  {
    |kids| == |elems| && forall i :: 0 <= i < |kids| ==> elems[i] == Elem(DiagramIn(v, kids[i].child), kids[i].bnd)
  }

  ghost predicate AllInReach(v: View, kids: seq<Kid>)
  {
    forall i :: 0 <= i < |kids| ==> Rooted(v.body, v.ext, kids[i].child.id)
  }

  lemma {:induction false} PiecesIn(k: Kernel, h: Handle, level: nat)
    requires k.Valid() && InReach(k, h)
    ensures h.id < |k.store.body|
    ensures var kids := KidsIn(k.store.body, h, level);
            AllInReach(ViewOf(k), kids) && ElemsIn(ViewOf(k), kids, Kids(DiagramIn(ViewOf(k), h), level))
  {
    TopOf(k, h);
    var b := k.store.body[h.id];
    if b.Clock? && b.level == level {
      forall i | 0 <= i < |b.elems| ensures Rooted(k.store.body, k.ext, b.elems[i].child.id) {
        assert Children(b)[i] == b.elems[i].child.id;
        ChildRooted(k.store.body, k.ext, h.id, b.elems[i].child.id);
      }
      forall i | 0 <= i < |b.elems|
        ensures k.shape[h.id].elems[i] == Elem(DiagramIn(ViewOf(k), b.elems[i].child), b.elems[i].bnd)
      {
        assert Children(b)[i] == b.elems[i].child.id;
      }
    }
  }

  /** Pieces within reach stay within reach and stay the same. */
  lemma {:induction false} PiecesStay(a: View, b: View, kids: seq<Kid>, elems: seq<Elem>)
    requires Follows(a, b) && a.ext <= b.ext && AllInReach(a, kids) && ElemsIn(a, kids, elems)
    ensures AllInReach(b, kids) && ElemsIn(b, kids, elems)
  {
    forall i | 0 <= i < |kids|
      ensures Rooted(b.body, b.ext, kids[i].child.id) && elems[i] == Elem(DiagramIn(b, kids[i].child), kids[i].bnd)
    {
      SameDiagram(a, b, kids[i].child);
      StillRooted(a, b, kids[i].child.id);
    }
  }

  // ----- References taken on the way

  ghost function AddAll(m: multiset<Id>, ids: seq<Id>): multiset<Id>
  {
    if ids == [] then m else AddAll(m, ids[..|ids| - 1]) + multiset{ids[|ids| - 1]}
  }

  lemma {:induction false} AddAllMore(m: multiset<Id>, ids: seq<Id>, id: Id)
    ensures AddAll(m, ids + [id]) == AddAll(m, ids) + multiset{id}
  {
    assert (ids + [id])[..|ids|] == ids;
  }

  lemma {:induction false} AddAllFirst(m: multiset<Id>, id: Id, ids: seq<Id>)
    ensures AddAll(m, [id] + ids) == AddAll(m, ids) + multiset{id}
  {
    if ids == [] {
      assert [id] + ids == [] + [id];
      AddAllMore(m, [], id);
    } else {
      var front, last := ids[..|ids| - 1], ids[|ids| - 1];
      assert [id] + ids == ([id] + front) + [last];
      AddAllMore(m, [id] + front, last);
      AddAllFirst(m, id, front);
    }
  }

  lemma {:induction false} AddAllHas(m: multiset<Id>, ids: seq<Id>)
    ensures m <= AddAll(m, ids) && forall i :: 0 <= i < |ids| ==> ids[i] in AddAll(m, ids)
  {
    if ids != [] { AddAllHas(m, ids[..|ids| - 1]); }
  }

  /**
   * Since the view `a` references have been taken for the children on the stack and for `prev`, and for
   * nothing else; `elems` and `top` are the diagrams they stand for.
   */
  ghost predicate Holding(a: View, v: View, stack: seq<Kid>, prev: Handle, elems: seq<Elem>, top: Ref)
  {
    && Follows(a, v) && v.ext == AddAll(a.ext, KidIds(stack) + [prev.id])
    && ElemsIn(v, stack, elems) && DiagramIn(v, prev) == top
  }

  lemma {:induction false} HoldingRooted(a: View, v: View, stack: seq<Kid>, prev: Handle, elems: seq<Elem>, top: Ref)
    requires Holding(a, v, stack, prev, elems, top)
    ensures a.ext <= v.ext && AllInReach(v, stack) && Rooted(v.body, v.ext, prev.id)
  {
    var ids := KidIds(stack) + [prev.id];
    AddAllHas(a.ext, ids);
    forall i | 0 <= i < |stack| ensures Rooted(v.body, v.ext, stack[i].child.id) {
      assert ids[i] == stack[i].child.id;
      HeldRooted(v.body, v.ext, ids[i]);
    }
    assert ids[|stack|] == prev.id;
    HeldRooted(v.body, v.ext, prev.id);
  }

  lemma {:induction false} HoldingStays(a: View, v: View, w: View, stack: seq<Kid>, prev: Handle, elems: seq<Elem>, top: Ref)
    requires Holding(a, v, stack, prev, elems, top) && Undisturbed(v, w)
    ensures Holding(a, w, stack, prev, elems, top)
  {
    HoldingRooted(a, v, stack, prev, elems, top);
    FollowsOn(a, v, w);
    PiecesStay(v, w, stack, elems);
    SameDiagram(v, w, prev);
  }

  lemma {:induction false} HoldingMore(a: View, v: View, w: View, stack: seq<Kid>, prev: Handle, elems: seq<Elem>, top: Ref,
                                       n: Handle, next: Ref, mask: bool, bnd: int)
    requires Holding(a, v, stack, prev, elems, top)
    requires Follows(v, w) && w.ext == v.ext + multiset{n.id} && DiagramIn(w, n) == next
    ensures Holding(a, w, stack + [Kid(NegHandle(prev, mask), bnd)], n, elems + [Elem(NegCond(top, mask), bnd)], next)
  {
    HoldingRooted(a, v, stack, prev, elems, top);
    FollowsOn(a, v, w);
    PiecesStay(v, w, stack, elems);
    SameDiagram(v, w, prev);
    var stack' := stack + [Kid(NegHandle(prev, mask), bnd)];
    AddAllMore(a.ext, KidIds(stack) + [prev.id], n.id);
    assert KidIds(stack') + [n.id] == KidIds(stack) + [prev.id] + [n.id];
  }

  lemma {:induction false} FollowsItself(k: Kernel)
    requires k.Valid()
    ensures Follows(ViewOf(k), ViewOf(k))
  {
    KeepsFollows(k.ref, k.holding, k.lost, ViewOf(k), ViewOf(k));
  }

  /** Closes the open piece if the next one differs, and counts the new child. */
  method Extend(k: Kernel, ghost a: View, stack: seq<Kid>, prev: Handle, ghost elems: seq<Elem>, ghost top: Ref, n: Handle, mask: bool, bnd: int)
    returns (stack': seq<Kid>, ghost elems': seq<Elem>)
    requires k.Valid() && Holding(a, ViewOf(k), stack, prev, elems, top) && k.LiveHandle(n)
    modifies k`ref, k`ext
    ensures k.Valid() && Follows(old(ViewOf(k)), ViewOf(k)) && old(k.ext) <= k.ext
    ensures Holding(a, ViewOf(k), stack', n, elems', old(k.Denoted(n)))
    ensures elems' == if old(k.Denoted(n)) != top then elems + [Elem(NegCond(top, mask), bnd)] else elems
    ensures Lossless(old(k.Books()), [n.id], k.Books(), [])
    ensures stack' == if n != prev then stack + [Kid(NegHandle(prev, mask), bnd)] else stack
  {
    stack' := stack;
    elems' := elems;
    HoldingRooted(a, ViewOf(k), stack, prev, elems, top);
    ReachLive(k, prev);
    RootedLives(k, prev.id);
    k.HandlesDiffer(n, prev);
    if n != prev {
      ghost var v, next := ViewOf(k), k.Denoted(n);
      TakeRef(k, n);
      stack' := stack + [Kid(NegHandle(prev, mask), bnd)];
      elems' := elems + [Elem(NegCond(top, mask), bnd)];
      HoldingMore(a, v, ViewOf(k), stack, prev, elems, top, n, next, mask, bnd);
    } else {
      FollowsItself(k);
    }
  }

  /** Gives the references on the stack back. */
  method DropAll(k: Kernel, stack: seq<Kid>, res: Handle, ghost base: multiset<Id>)
    requires k.Valid() && k.LiveHandle(res) && k.ext == AddAll(base, KidIds(stack))
    requires forall i :: 0 <= i < |stack| ==> k.IsOrHas(res, stack[i].child.id)
    modifies k`ref, k`ext
    ensures k.Valid() && k.ext == base && k.LiveHandle(res) && Lossless(old(k.Books()), [res.id], k.Books(), [res.id])
    ensures ViewOf(k).body == old(ViewOf(k).body) && ViewOf(k).shape == old(ViewOf(k).shape)
  {
    var i := 0;
    ghost var rest := KidIds(stack);
    while i < |stack|
      invariant i <= |stack| && k.Valid() && k.LiveHandle(res) && k.ext == AddAll(base, rest) && rest == KidIds(stack)[i..]
      invariant ViewOf(k).body == old(ViewOf(k).body) && ViewOf(k).shape == old(ViewOf(k).shape)
      invariant Lossless(old(k.Books()), [res.id], k.Books(), [res.id])
    {
      ghost var books := k.Books();
      DropFirst(k, stack[i].child, res, base, rest);
      LosslessOn(old(k.Books()), [res.id], books, [res.id], k.Books(), [res.id]);
      rest := rest[1..];
      i := i + 1;
    }
  }

  method DropFirst(k: Kernel, first: Handle, res: Handle, ghost base: multiset<Id>, ghost ids: seq<Id>)
    requires k.Valid() && k.LiveHandle(res) && ids != [] && ids[0] == first.id && k.ext == AddAll(base, ids) && k.IsOrHas(res, first.id)
    modifies k`ref, k`ext
    ensures k.Valid() && k.LiveHandle(res) && k.ext == AddAll(base, ids[1..]) && Lossless(old(k.Books()), [res.id], k.Books(), [res.id])
    ensures ViewOf(k).body == old(ViewOf(k).body) && ViewOf(k).shape == old(ViewOf(k).shape)
  {
    assert ids == [first.id] + ids[1..];
    AddAllFirst(base, first.id, ids[1..]);
    DropRef(k, first, res);
  }

  lemma {:induction false} StackLives(k: Kernel, a: View, stack: seq<Kid>, prev: Handle, elems: seq<Elem>, top: Ref, mask: bool)
    requires k.Valid() && Holding(a, ViewOf(k), stack, prev, elems, top)
    ensures var all := stack + [Kid(NegHandle(prev, mask), INF)];
            && (forall i :: 0 <= i < |all| ==> k.LiveHandle(all[i].child) && all[i].child.id < |k.shape|)
            && KidElems(all, k.shape) == elems + [Elem(NegCond(top, mask), INF)]
            && KidIds(all) == KidIds(stack) + [prev.id]
  {
    var all := stack + [Kid(NegHandle(prev, mask), INF)];
    HoldingRooted(a, ViewOf(k), stack, prev, elems, top);
    forall i | 0 <= i < |all| ensures k.LiveHandle(all[i].child) {
      ReachLive(k, if i < |stack| then stack[i].child else prev);
    }
  }

  /** Makes the node over the stack. */
  method NodeOverStack(k: Kernel, ghost a: View, level: nat, all: seq<Kid>, ghost pieces: seq<Elem>) returns (h: Handle)
    requires k.Valid() && all != [] && Follows(a, ViewOf(k)) && a.ext <= k.ext
    requires forall i :: 0 <= i < |all| ==> k.LiveHandle(all[i].child) && all[i].child.id < |k.shape|
    requires KidElems(all, k.shape) == pieces
    modifies k`made, k`ref, k`cache, k`holding, k`whole, k`shape, k`ext, k`lost, k.store
    ensures k.Valid() && k.LiveHandle(h) && Follows(a, ViewOf(k)) && k.ext == old(k.ext) && k.Denoted(h) == MakeNode(level, pieces)
    ensures Lossless(old(k.Books()), [], k.Books(), [h.id]) && forall i :: 0 <= i < |all| ==> k.IsOrHas(h, all[i].child.id)
  {
    ghost var v, books := ViewOf(k), k.Books();
    h := CddNodeOver(k, level, all);
    FollowsOn(a, v, ViewOf(k));
    Looser(books, [], KidIds(all));
    LosslessOn(books, [], books, KidIds(all), k.Books(), [h.id]);
  }

  /** Makes the node over the stack and gives the references back. */
  method Finish(k: Kernel, ghost a: View, level: nat, stack: seq<Kid>, prev: Handle, ghost elems: seq<Elem>, ghost top: Ref, mask: bool)
    returns (res: Handle)
    requires k.Valid() && Holding(a, ViewOf(k), stack, prev, elems, top)
    modifies k`made, k`ref, k`cache, k`holding, k`whole, k`shape, k`ext, k`lost, k.store
    ensures k.Valid() && Undisturbed(a, ViewOf(k)) && k.LiveHandle(res)
    ensures k.Denoted(res) == NegCond(MakeNode(level, elems + [Elem(NegCond(top, mask), INF)]), mask)
    ensures Lossless(old(k.Books()), [], k.Books(), [res.id])
  {
    var all := stack + [Kid(NegHandle(prev, mask), INF)];
    ghost var books := k.Books();
    StackLives(k, a, stack, prev, elems, top, mask);
    HoldingRooted(a, ViewOf(k), stack, prev, elems, top);
    var h := NodeOverStack(k, a, level, all, elems + [Elem(NegCond(top, mask), INF)]);
    ghost var made := k.Books();
    DropAll(k, all, h, a.ext);
    LosslessOn(books, [], made, [h.id], k.Books(), [h.id]);
    res := NegHandle(h, mask);
  }

  // ----- The recursion

  /** The conjunction or exclusive-or of two diagrams in the store. */
  method ApplyRec(k: Kernel, op: Op, l0: Handle, r0: Handle, ghost min: nat) returns (res: Handle)
    requires k.Valid() && InReach(k, l0) && InReach(k, r0)
    requires NodeOk(k.L, DiagramIn(ViewOf(k), l0).node, min) && NodeOk(k.L, DiagramIn(ViewOf(k), r0).node, min)
    modifies k`made, k`ref, k`cache, k`holding, k`whole, k`shape, k`ext, k`lost, k.store
    ensures k.Valid() && Undisturbed(old(ViewOf(k)), ViewOf(k)) && k.LiveHandle(res)
    ensures NodeOk(k.L, k.Denoted(res).node, min)
    ensures Denotes(k.L, k.Denoted(res), op, old(DiagramIn(ViewOf(k), l0)), old(DiagramIn(ViewOf(k), r0)))
    ensures Lossless(old(k.Books()), [], k.Books(), [res.id])
    decreases |k.L| - min, 3
  {
    ghost var dl, dr := DiagramIn(ViewOf(k), l0), DiagramIn(ViewOf(k), r0);
    QuickOk(k, op, l0, r0);
    ImmediateOk(k.L, op, dl, dr, min);
    FollowsItself(k);
    var quick := Quick(op, l0, r0);
    if quick.Direct? {
      Looser(k.Books(), [], [quick.res.id]);
      return quick.res;
    }
    if Address(r0) < Address(l0) {
      res := ApplyCached(k, op, r0, l0, min);
      DenotesSwap(Independent(k.L), Everywhere(), k.Denoted(res), op, dl, dr);
      NoNewSwap(k.Denoted(res), dl, dr);
    } else {
      res := ApplyCached(k, op, l0, r0, min);
    }
  }

  /** Looks the operation up, and records it if it was not there. */
  method ApplyCached(k: Kernel, op: Op, l: Handle, r: Handle, ghost min: nat) returns (res: Handle)
    requires k.Valid() && InReach(k, l) && InReach(k, r)
    requires NodeOk(k.L, DiagramIn(ViewOf(k), l).node, min) && NodeOk(k.L, DiagramIn(ViewOf(k), r).node, min)
    requires !DiagramIn(ViewOf(k), l).node.Terminal? && !DiagramIn(ViewOf(k), r).node.Terminal?
    modifies k`made, k`ref, k`cache, k`holding, k`whole, k`shape, k`ext, k`lost, k.store
    ensures k.Valid() && Undisturbed(old(ViewOf(k)), ViewOf(k)) && k.LiveHandle(res)
    ensures NodeOk(k.L, k.Denoted(res).node, min)
    ensures Denotes(k.L, k.Denoted(res), op, old(DiagramIn(ViewOf(k), l)), old(DiagramIn(ViewOf(k), r)))
    ensures k.cache[k.SlotOf(l, r, op)] == Used(l, r, op, res)
    ensures Lossless(old(k.Books()), [], k.Books(), [res.id])
    decreases |k.L| - min, 2
  {
    FollowsItself(k);
    ghost var a := ViewOf(k);
    var found;
    ghost var books := k.Books();
    found, res := LookUp(k, l, r, op);
    ghost var before := k.Books();
    Looser(before, [], [res.id]);
    LosslessOn(books, [], before, [], before, [res.id]);
    if !found {
      res := ApplyNode(k, op, l, r, min);
      SameDiagram(a, ViewOf(k), l);
      SameDiagram(a, ViewOf(k), r);
      StillRooted(a, ViewOf(k), l.id);
      StillRooted(a, ViewOf(k), r.id);
      Record(k, l, r, op, res);
      LosslessOn(books, [], before, [], k.Books(), [res.id]);
    }
  }

  /** The recursion at the upper of the two levels. */
  method ApplyNode(k: Kernel, op: Op, l: Handle, r: Handle, ghost min: nat) returns (res: Handle)
    requires k.Valid() && InReach(k, l) && InReach(k, r)
    requires NodeOk(k.L, DiagramIn(ViewOf(k), l).node, min) && NodeOk(k.L, DiagramIn(ViewOf(k), r).node, min)
    requires !DiagramIn(ViewOf(k), l).node.Terminal? && !DiagramIn(ViewOf(k), r).node.Terminal?
    modifies k`made, k`ref, k`cache, k`holding, k`whole, k`shape, k`ext, k`lost, k.store
    ensures k.Valid() && Undisturbed(old(ViewOf(k)), ViewOf(k)) && k.LiveHandle(res)
    ensures forall m :: NodeOk(k.L, old(DiagramIn(ViewOf(k), l)).node, m) && NodeOk(k.L, old(DiagramIn(ViewOf(k), r)).node, m)
                        ==> NodeOk(k.L, k.Denoted(res).node, m)
    ensures Denotes(k.L, k.Denoted(res), op, old(DiagramIn(ViewOf(k), l)), old(DiagramIn(ViewOf(k), r)))
    ensures Lossless(old(k.Books()), [], k.Books(), [res.id])
    decreases |k.L| - min, 1
  {
    ghost var dl, dr := DiagramIn(ViewOf(k), l), DiagramIn(ViewOf(k), r);
    TopOf(k, l);
    TopOf(k, r);
    var level := Minimum(LevelIn(k.L, k.store.body, l), LevelIn(k.L, k.store.body, r));
    StartsAt(k.L, dl.node, min, level);
    StartsAt(k.L, dr.node, min, level);
    if k.L[level].ClockLevel? {
      res := ApplyClock(k, op, l, r, level);
    } else {
      res := ApplyBool(k, op, l, r, level);
    }
    forall m | NodeOk(k.L, dl.node, m) && NodeOk(k.L, dr.node, m) ensures NodeOk(k.L, k.Denoted(res).node, m) {
      NodeOkWeaken(k.L, k.Denoted(res).node, m, level);
    }
  }

  method ApplyBool(k: Kernel, op: Op, l: Handle, r: Handle, level: nat) returns (res: Handle)
    requires k.Valid() && InReach(k, l) && InReach(k, r) && level < |k.L| && k.L[level].BoolLevel?
    requires NodeOk(k.L, DiagramIn(ViewOf(k), l).node, level) && NodeOk(k.L, DiagramIn(ViewOf(k), r).node, level)
    modifies k`made, k`ref, k`cache, k`holding, k`whole, k`shape, k`ext, k`lost, k.store
    ensures k.Valid() && Undisturbed(old(ViewOf(k)), ViewOf(k)) && k.LiveHandle(res)
    ensures NodeOk(k.L, k.Denoted(res).node, level)
    ensures Denotes(k.L, k.Denoted(res), op, old(DiagramIn(ViewOf(k), l)), old(DiagramIn(ViewOf(k), r)))
    ensures Lossless(old(k.Books()), [], k.Books(), [res.id])
    decreases |k.L| - level, 0
  {
    ghost var a, dl, dr := ViewOf(k), DiagramIn(ViewOf(k), l), DiagramIn(ViewOf(k), r);
    BranchesIn(k, l, level);
    BranchesIn(k, r, level);
    BoolChildren(k.L, dl, level);
    BoolChildren(k.L, dr, level);
    var lh, rh := HighIn(k.store.body, l, level), HighIn(k.store.body, r, level);
    ghost var books := k.Books();
    var n := ApplyRec(k, op, LowIn(k.store.body, l, level), LowIn(k.store.body, r, level), level + 1);
    ghost var dn, dh := k.Denoted(n), FALSE;
    ghost var before := k.Books();
    res, dh := ApplyHigh(k, a, op, lh, rh, n, level);
    LosslessOn(books, [], before, [n.id], k.Books(), [res.id]);
    KindsOnly(k.L);
    BoolDenotes(Independent(k.L), Everywhere(), level, op, dl, dr, dn, dh);
    NoNewBool(level, dl, dr, dn, dh);
    MakeBoolOk(k.L, level, dn, dh);
  }

  /** The true children, with a reference on the result for the false ones meanwhile. */
  method ApplyHigh(k: Kernel, ghost a: View, op: Op, lh: Handle, rh: Handle, n: Handle, level: nat) returns (res: Handle, ghost dh: Ref)
    requires k.Valid() && Undisturbed(a, ViewOf(k)) && k.LiveHandle(n) && level < |k.L|
    requires Rooted(a.body, a.ext, lh.id) && Rooted(a.body, a.ext, rh.id)
    requires NodeOk(k.L, DiagramIn(a, lh).node, level + 1) && NodeOk(k.L, DiagramIn(a, rh).node, level + 1)
    modifies k`made, k`ref, k`cache, k`holding, k`whole, k`shape, k`ext, k`lost, k.store
    ensures k.Valid() && Undisturbed(a, ViewOf(k)) && k.LiveHandle(res)
    ensures k.Denoted(res) == MakeBool(level, old(k.Denoted(n)), dh)
    ensures NodeOk(k.L, dh.node, level + 1) && Denotes(k.L, dh, op, DiagramIn(a, lh), DiagramIn(a, rh))
    ensures Lossless(old(k.Books()), [n.id], k.Books(), [res.id])
    decreases |k.L| - level - 1, 4
  {
    ghost var v := ViewOf(k);
    ghost var books := k.Books();
    TakeRef(k, n);
    ghost var taken := k.Books();
    FollowsOn(a, v, ViewOf(k));
    StillWithin(a, ViewOf(k), lh);
    StillWithin(a, ViewOf(k), rh);
    ghost var w := ViewOf(k);
    var h := ApplyRec(k, op, lh, rh, level + 1);
    dh := k.Denoted(h);
    SameDiagram(w, ViewOf(k), n);
    FollowsOn(a, w, ViewOf(k));
    ghost var joining := k.Books();
    res := JoinBool(k, a, level, n, h);
    LosslessOn(books, [n.id], taken, [], joining, [h.id]);
    LosslessOn(books, [n.id], joining, [h.id], k.Books(), [res.id]);
  }

  lemma {:induction false} StillWithin(a: View, b: View, h: Handle)
    requires Follows(a, b) && a.ext <= b.ext && Rooted(a.body, a.ext, h.id)
    ensures Rooted(b.body, b.ext, h.id) && DiagramIn(b, h) == DiagramIn(a, h)
  {
    SameDiagram(a, b, h);
    StillRooted(a, b, h.id);
  }

  /** Makes the boolean node and gives the reference on its first child back. */
  method JoinBool(k: Kernel, ghost a: View, level: nat, n: Handle, h: Handle) returns (res: Handle)
    requires k.Valid() && Follows(a, ViewOf(k)) && k.ext == a.ext + multiset{n.id} && k.LiveHandle(h)
    modifies k`made, k`ref, k`cache, k`holding, k`whole, k`shape, k`ext, k`lost, k.store
    ensures k.Valid() && Undisturbed(a, ViewOf(k)) && k.LiveHandle(res)
    ensures k.Denoted(res) == MakeBool(level, old(DiagramIn(ViewOf(k), n)), old(k.Denoted(h)))
    ensures Lossless(old(k.Books()), [h.id], k.Books(), [res.id])
  {
    ghost var v, books := ViewOf(k), k.Books();
    HeldRooted(k.store.body, k.ext, n.id);
    ReachLive(k, n);
    res := BddNodeOver(k, level, n, h);
    FollowsOn(a, v, ViewOf(k));
    ghost var made := k.Books();
    DropRef(k, n, res);
    Looser(books, [h.id], [n.id, h.id]);
    LosslessOn(books, [h.id], books, [n.id, h.id], made, [res.id]);
    LosslessOn(books, [h.id], made, [res.id], k.Books(), [res.id]);
  }

  /** Both lists of pieces are within reach and stand for the given pieces. */
  ghost predicate BothIn(v: View, lp: seq<Kid>, rp: seq<Kid>, ls: seq<Elem>, rs: seq<Elem>)
  {
    AllInReach(v, lp) && ElemsIn(v, lp, ls) && AllInReach(v, rp) && ElemsIn(v, rp, rs)
  }

  /** The first pair of pieces. */
  method FirstPair(k: Kernel, ghost a: View, op: Op, level: nat, lp: seq<Kid>, rp: seq<Kid>, ghost ls: seq<Elem>, ghost rs: seq<Elem>)
    returns (prev: Handle, ghost top: Ref)
    requires k.Valid() && a == ViewOf(k) && BothIn(a, lp, rp, ls, rs) && lp != [] && rp != [] && level < |k.L|
    requires NodeOk(k.L, ls[0].child.node, level + 1) && NodeOk(k.L, rs[0].child.node, level + 1)
    modifies k`made, k`ref, k`cache, k`holding, k`whole, k`shape, k`ext, k`lost, k.store
    ensures k.Valid() && BothIn(ViewOf(k), lp, rp, ls, rs) && Holding(a, ViewOf(k), [], prev, [], top) && prev.neg == top.neg
    ensures NodeOk(k.L, top.node, level + 1) && Denotes(k.L, top, op, ls[0].child, rs[0].child)
    ensures Lossless(old(k.Books()), [], k.Books(), [])
    decreases |k.L| - level - 1, 4
  {
    ghost var books := k.Books();
    prev := ApplyRec(k, op, lp[0].child, rp[0].child, level + 1);
    top := k.Denoted(prev);
    ghost var v := ViewOf(k);
    ghost var before := k.Books();
    TakeRef(k, prev);
    LosslessOn(books, [], before, [prev.id], k.Books(), []);
    FirstHolding(a, v, ViewOf(k), prev, top, lp, rp, ls, rs);
  }

  lemma {:induction false} FirstHolding(a: View, v: View, w: View, prev: Handle, top: Ref, lp: seq<Kid>, rp: seq<Kid>, ls: seq<Elem>, rs: seq<Elem>)
    requires BothIn(a, lp, rp, ls, rs) && Undisturbed(a, v) && Follows(v, w)
    requires w.ext == v.ext + multiset{prev.id} && DiagramIn(w, prev) == top
    ensures BothIn(w, lp, rp, ls, rs) && Holding(a, w, [], prev, [], top)
  {
    FollowsOn(a, v, w);
    AddAllMore(a.ext, [], prev.id);
    assert KidIds([]) + [prev.id] == [] + [prev.id];
    PiecesStay(a, w, lp, ls);
    PiecesStay(a, w, rp, rs);
  }

  /** The next pair of pieces. */
  method NextPair(k: Kernel, ghost a: View, op: Op, level: nat, lpi: Handle, rpj: Handle, stack: seq<Kid>, prev: Handle,
                  ghost elems: seq<Elem>, ghost top: Ref, mask: bool, low: int)
    returns (stack': seq<Kid>, n: Handle, ghost elems': seq<Elem>, ghost next: Ref)
    requires k.Valid() && Holding(a, ViewOf(k), stack, prev, elems, top) && level < |k.L| && InReach(k, lpi) && InReach(k, rpj)
    requires NodeOk(k.L, DiagramIn(ViewOf(k), lpi).node, level + 1) && NodeOk(k.L, DiagramIn(ViewOf(k), rpj).node, level + 1)
    modifies k`made, k`ref, k`cache, k`holding, k`whole, k`shape, k`ext, k`lost, k.store
    ensures k.Valid() && Follows(old(ViewOf(k)), ViewOf(k)) && old(k.ext) <= k.ext && Holding(a, ViewOf(k), stack', n, elems', next)
    ensures elems' == if next != top then elems + [Elem(NegCond(top, mask), low)] else elems
    ensures NodeOk(k.L, next.node, level + 1)
    ensures Denotes(k.L, next, op, old(DiagramIn(ViewOf(k), lpi)), old(DiagramIn(ViewOf(k), rpj)))
    ensures Lossless(old(k.Books()), [], k.Books(), [])
    decreases |k.L| - level - 1, 4
  {
    ghost var v := ViewOf(k);
    ghost var books := k.Books();
    n := ApplyRec(k, op, lpi, rpj, level + 1);
    next := k.Denoted(n);
    HoldingStays(a, v, ViewOf(k), stack, prev, elems, top);
    ghost var w := ViewOf(k);
    ghost var before := k.Books();
    stack', elems' := Extend(k, a, stack, prev, elems, top, n, mask, low);
    FollowsOn(v, w, ViewOf(k));
    LosslessOn(books, [], before, [n.id], k.Books(), []);
  }

  /** Walks the pieces of both operands in step. */
  method ApplyClock(k: Kernel, op: Op, l: Handle, r: Handle, level: nat) returns (res: Handle)
    requires k.Valid() && InReach(k, l) && InReach(k, r) && level < |k.L| && k.L[level].ClockLevel?
    requires NodeOk(k.L, DiagramIn(ViewOf(k), l).node, level) && NodeOk(k.L, DiagramIn(ViewOf(k), r).node, level)
    modifies k`made, k`ref, k`cache, k`holding, k`whole, k`shape, k`ext, k`lost, k.store
    ensures k.Valid() && Undisturbed(old(ViewOf(k)), ViewOf(k)) && k.LiveHandle(res)
    ensures NodeOk(k.L, k.Denoted(res).node, level)
    ensures Denotes(k.L, k.Denoted(res), op, old(DiagramIn(ViewOf(k), l)), old(DiagramIn(ViewOf(k), r)))
    ensures Lossless(old(k.Books()), [], k.Books(), [res.id])
    decreases |k.L| - level, 0
  {
    ghost var F := Independent(k.L);
    KindsOnly(k.L);
    ghost var a, dl, dr := ViewOf(k), DiagramIn(ViewOf(k), l), DiagramIn(ViewOf(k), r);
    PiecesIn(k, l, level);
    PiecesIn(k, r, level);
    var lp, rp := KidsIn(k.store.body, l, level), KidsIn(k.store.body, r, level);
    ghost var ls, rs := Kids(dl, level), Kids(dr, level);
    OperandsOk(F, level, dl, dr, ls, rs);
    var prev;
    ghost var top;
    ghost var books := k.Books();
    prev, top := FirstPair(k, a, op, level, lp, rp, ls, rs);
    ZipFirst(F, Everywhere(), level, op, dl, dr, ls, rs, 0, 0, -INF, top);
    ghost var before := k.Books();
    res := ApplyRest(k, a, op, level, lp, rp, prev, dl, dr, top);
    LosslessOn(books, [], before, [], k.Books(), [res.id]);
  }

  /** On to the next pair of pieces, from bnd on. */
  method ZipStep(k: Kernel, ghost a: View, op: Op, level: nat, lp: seq<Kid>, rp: seq<Kid>, i: nat, j: nat, bnd: int, stack: seq<Kid>, prev: Handle,
                 mask: bool, ghost dl: Ref, ghost dr: Ref, ghost low: int, ghost elems: seq<Elem>, ghost top: Ref, ghost done: seq<Elem>)
    returns (i': nat, j': nat, bnd': int, stack': seq<Kid>, prev': Handle, ghost elems': seq<Elem>, ghost top': Ref, ghost done': seq<Elem>)
    requires k.Valid() && level < |k.L| && Operands(Independent(k.L), level, dl, dr, Kids(dl, level), Kids(dr, level)) && bnd < INF
    requires BothIn(ViewOf(k), lp, rp, Kids(dl, level), Kids(dr, level)) && Holding(a, ViewOf(k), stack, prev, elems, top)
    requires Zip(Independent(k.L), Everywhere(), level, op, dl, dr, Kids(dl, level), Kids(dr, level), i, j, low, bnd, elems, top, mask, done)
    modifies k`made, k`ref, k`cache, k`holding, k`whole, k`shape, k`ext, k`lost, k.store
    ensures k.Valid() && BothIn(ViewOf(k), lp, rp, Kids(dl, level), Kids(dr, level)) && Holding(a, ViewOf(k), stack', prev', elems', top')
    ensures Zip(Independent(k.L), Everywhere(), level, op, dl, dr, Kids(dl, level), Kids(dr, level), i', j', bnd, bnd', elems', top', mask, done') && bnd < bnd'
    ensures Lossless(old(k.Books()), [], k.Books(), [])
    decreases |k.L| - level - 1, 5
  {
    ghost var F := Independent(k.L);
    KindsOnly(k.L);
    ghost var ls, rs, v := Kids(dl, level), Kids(dr, level), ViewOf(k);
    ZipAdvance(F, Everywhere(), level, op, dl, dr, ls, rs, i, j, low, bnd, elems, top, mask, done);
    i', j' := if lp[i].bnd == bnd then i + 1 else i, if rp[j].bnd == bnd then j + 1 else j;
    bnd' := Minimum(lp[i'].bnd, rp[j'].bnd);
    stack', prev', elems', top' := NextPair(k, a, op, level, lp[i'].child, rp[j'].child, stack, prev, elems, top, mask, bnd);
    PiecesStay(v, ViewOf(k), lp, ls);
    PiecesStay(v, ViewOf(k), rp, rs);
    ZipNext(F, Everywhere(), level, op, dl, dr, ls, rs, i', j', bnd, elems, top, mask, done, top', elems');
    done' := done + [Elem(top', bnd')];
  }

  /** The pieces after the first. */
  method ApplyRest(k: Kernel, ghost a: View, op: Op, level: nat, lp: seq<Kid>, rp: seq<Kid>, prev0: Handle, ghost dl: Ref, ghost dr: Ref, ghost top0: Ref)
    returns (res: Handle)
    requires k.Valid() && level < |k.L| && Operands(Independent(k.L), level, dl, dr, Kids(dl, level), Kids(dr, level))
    requires BothIn(ViewOf(k), lp, rp, Kids(dl, level), Kids(dr, level)) && lp != [] && rp != []
    requires Holding(a, ViewOf(k), [], prev0, [], top0) && prev0.neg == top0.neg
    requires Zip(Independent(k.L), Everywhere(), level, op, dl, dr, Kids(dl, level), Kids(dr, level), 0, 0, -INF, Minimum(lp[0].bnd, rp[0].bnd),
                 [], top0, prev0.neg, [Elem(top0, Minimum(lp[0].bnd, rp[0].bnd))])
    modifies k`made, k`ref, k`cache, k`holding, k`whole, k`shape, k`ext, k`lost, k.store
    ensures k.Valid() && Undisturbed(a, ViewOf(k)) && k.LiveHandle(res)
    ensures NodeOk(k.L, k.Denoted(res).node, level) && Denotes(k.L, k.Denoted(res), op, dl, dr)
    ensures Lossless(old(k.Books()), [], k.Books(), [res.id])
    decreases |k.L| - level - 1, 6
  {
    ghost var F := Independent(k.L);
    KindsOnly(k.L);
    ghost var ls, rs := Kids(dl, level), Kids(dr, level);
    var i: nat, j: nat, stack: seq<Kid>, prev, mask := 0, 0, [], prev0, prev0.neg;
    var bnd := Minimum(lp[0].bnd, rp[0].bnd);
    ghost var elems: seq<Elem>, top, low, done := [], top0, -INF, [Elem(top0, bnd)];
    ghost var books := k.Books();
    while bnd < INF
      invariant k.Valid() && BothIn(ViewOf(k), lp, rp, ls, rs) && Holding(a, ViewOf(k), stack, prev, elems, top)
      invariant Zip(F, Everywhere(), level, op, dl, dr, ls, rs, i, j, low, bnd, elems, top, mask, done)
      invariant Lossless(books, [], k.Books(), [])
      decreases INF - bnd
    {
      ghost var sofar := k.Books();
      ghost var was := bnd;
      i, j, bnd, stack, prev, elems, top, done := ZipStep(k, a, op, level, lp, rp, i, j, bnd, stack, prev, mask, dl, dr, low, elems, top, done);
      low := was;
      LosslessOn(books, [], sofar, [], k.Books(), []);
    }
    ZipDone(F, Everywhere(), level, op, dl, dr, ls, rs, i, j, low, bnd, elems, top, mask, done);
    ghost var zipped := k.Books();
    res := Finish(k, a, level, stack, prev, elems, top, mask);
    LosslessOn(books, [], zipped, [], k.Books(), [res.id]);
  }
}
