/**
 * The node kernel: creation, reference counts, resurrection, garbage collection, and the operation
 * cache that names nodes by their addresses.
 */
module Kernels {
  import opened Diagrams
  import opened Pieces
  import opened Apply
  import opened Nodes
  import opened Chains
  import opened UniqueTable
  import opened NodeStores
  import opened References
  import opened Wholes
  import opened Releases
  import opened Revivals
  import opened Tallies

  // ----- Sweeping

  /** Who holds its children after a sweep. */
  function StillThere(flags: seq<bool>, body: seq<Body>): (r: seq<bool>)
    requires |flags| == |body|
    ensures |r| == |flags| && forall id :: 0 <= id < |r| ==> r[id] == (flags[id] && !body[id].Nothing?)
  {
    seq(|flags|, id requires 0 <= id < |flags| => flags[id] && !body[id].Nothing?)
  }

  function WholeAfter(holding: seq<bool>): (r: seq<bool>)
    ensures |r| == |holding| && forall id :: 0 <= id < |r| ==> r[id] == (id == TERMINAL || holding[id])
  {
    seq(|holding|, id requires 0 <= id < |holding| => id == TERMINAL || holding[id])
  }

  /** A sweep loses the references that the nodes it frees hold. */
  ghost function LostBy(body: seq<Body>, holding: seq<bool>, body': seq<Body>): multiset<Id>
    requires |body| == |holding| == |body'|
  {
    LostEdges(body, holding, body', |body|)
  }

  lemma {:induction false} SweptCounts(ref: seq<nat>, body: seq<Body>, body': seq<Body>, holding: seq<bool>, ext: multiset<Id>, pend: seq<Id>, m: nat)
    requires CountsOk(ref, body, holding, ext, pend, []) && OnlyDead(body, body', ref, m)
    ensures CountsOk(ref, body', StillThere(holding, body'), ext + LostBy(body, holding, body'), pend, [])
  {
    LostInRange(body, holding, body', |body|);
    SweptExact(ref, body, body', holding, ext, pend, m);
  }

  lemma {:induction false} SweptExact(ref: seq<nat>, body: seq<Body>, body': seq<Body>, holding: seq<bool>, ext: multiset<Id>, pend: seq<Id>, m: nat)
    requires |ref| == |body| == |holding| && Exact(ref, body, holding, ext, pend) && OnlyDead(body, body', ref, m)
    ensures Exact(ref, body', StillThere(holding, body'), ext + LostBy(body, holding, body'), pend)
  {
    var holding', ext' := StillThere(holding, body'), ext + LostBy(body, holding, body');
    forall x | 0 <= x < |ref| ensures ExactAt(ref, body', holding', ext', pend, x) {
      assert ExactAt(ref, body, holding, ext, pend, x);
      EdgesLost(body, holding, body', holding', |body|, x);
    }
  }

  /** After a sweep the nodes that hold their children are whole: none of those children can have gone. */
  lemma {:induction false} SweptWhole(ref: seq<nat>, body: seq<Body>, body': seq<Body>, holding: seq<bool>, whole: seq<bool>, shape: seq<Node>,
                                      ext: multiset<Id>, pend: seq<Id>, m: nat)
    requires CountsOk(ref, body, holding, ext, pend, []) && OnlyDead(body, body', ref, m) && WholeOk(body, whole, shape, holding)
    ensures var holding' := StillThere(holding, body');
            WholeOk(body', WholeAfter(holding'), shape, holding')
  {
    var holding' := StillThere(holding, body');
    forall id | 0 <= id < |body| && holding'[id] ensures NodeWhole(body', WholeAfter(holding'), shape, id) {
      assert NodeWhole(body, whole, shape, id);
      forall c | c in Children(body[id]) ensures WholeAfter(holding')[c] {
        ChildLives(ref, body, holding, ext, pend, id, c);
      }
    }
  }

  // ----- The operation cache

  /** A cache slot names its operands and its result by address. */
  datatype Slot = Free | Used(a: Handle, b: Handle, c: Op, res: Handle)

  /** The diagram behind a pointer. */
  function RefOf(h: Handle, shape: seq<Node>): Ref
    requires h.id < |shape|
  {
    Ref(h.neg, shape[h.id])
  }

  /** The nodes an entry names are there, and its result is the operation applied to its operands. */
  ghost predicate SlotOk(L: Levels, whole: seq<bool>, shape: seq<Node>, e: Slot)
    requires |whole| == |shape|
  {
    e.Used? ==>
      && e.a.id < |whole| && e.b.id < |whole| && e.res.id < |whole|
      && whole[e.a.id] && whole[e.b.id] && whole[e.res.id]
      && Truthful(L, Entry(RefOf(e.a, shape), RefOf(e.b, shape), e.c, RefOf(e.res, shape)))
  }

  ghost predicate CacheOk(L: Levels, whole: seq<bool>, shape: seq<Node>, cache: seq<Slot>)
    requires |whole| == |shape|
  {
    forall k :: 0 <= k < |cache| ==> SlotOk(L, whole, shape, cache[k])
  }

  predicate NamesDead(ref: seq<nat>, e: Slot)
    requires e.Used? ==> e.a.id < |ref| && e.b.id < |ref| && e.res.id < |ref|
  {
    e.Used? && (ref[e.a.id] == 0 || ref[e.res.id] == 0 || ref[e.b.id] == 0)
  }

  /** What flushing leaves: the entries all of whose nodes have references. */
  ghost predicate Flushed(ref: seq<nat>, before: seq<Slot>, after: seq<Slot>, n: nat)
    requires n <= |before|
  {
    && |after| == |before|
    && (forall k :: 0 <= k < n ==> after[k] == before[k])
    && (forall k :: n <= k < |before| && before[k].Used? ==>
          before[k].a.id < |ref| && before[k].b.id < |ref| && before[k].res.id < |ref|
          && after[k] == if NamesDead(ref, before[k]) then Free else before[k])
    && (forall k :: n <= k < |before| && before[k].Free? ==> after[k].Free?)
  }

  /** A whole node that keeps what is below it is worth as much to an entry as before. */
  ghost predicate SameFor(whole: seq<bool>, shape: seq<Node>, whole': seq<bool>, shape': seq<Node>, id: Id)
  {
    id < |whole| == |shape| && whole[id] ==> id < |whole'| == |shape'| && whole'[id] && shape'[id] == shape[id]
  }

  lemma {:induction false} CacheStays(L: Levels, whole: seq<bool>, shape: seq<Node>, whole': seq<bool>, shape': seq<Node>, cache: seq<Slot>)
    requires |whole| == |shape| && |whole'| == |shape'| && CacheOk(L, whole, shape, cache)
    requires forall id :: SameFor(whole, shape, whole', shape', id)
    ensures CacheOk(L, whole', shape', cache)
  {
    forall k | 0 <= k < |cache| ensures SlotOk(L, whole', shape', cache[k]) {
      assert SlotOk(L, whole, shape, cache[k]);
      if cache[k].Used? {
        assert SameFor(whole, shape, whole', shape', cache[k].a.id);
        assert SameFor(whole, shape, whole', shape', cache[k].b.id);
        assert SameFor(whole, shape, whole', shape', cache[k].res.id);
      }
    }
  }

  /** After flushing, a sweep takes no node that the cache names. */
  lemma {:induction false} CacheSurvives(L: Levels, ref: seq<nat>, body: seq<Body>, body': seq<Body>, holding: seq<bool>, whole: seq<bool>,
                                         shape: seq<Node>, ext: multiset<Id>, pend: seq<Id>, m: nat, before: seq<Slot>, cache: seq<Slot>)
    requires CountsOk(ref, body, holding, ext, pend, []) && OnlyDead(body, body', ref, m) && WholeOk(body, whole, shape, holding)
    requires CacheOk(L, whole, shape, before) && Flushed(ref, before, cache, 0)
    ensures CacheOk(L, WholeAfter(StillThere(holding, body')), shape, cache)
  {
    var whole' := WholeAfter(StillThere(holding, body'));
    forall k | 0 <= k < |cache| ensures SlotOk(L, whole', shape, cache[k]) {
      assert SlotOk(L, whole, shape, before[k]);
      if cache[k].Used? {
        assert cache[k] == before[k] && !NamesDead(ref, before[k]);
        ReferencedStays(ref, body, body', holding, ext, pend, m, cache[k].a.id);
        ReferencedStays(ref, body, body', holding, ext, pend, m, cache[k].b.id);
        ReferencedStays(ref, body, body', holding, ext, pend, m, cache[k].res.id);
      }
    }
  }

  lemma {:induction false} ReferencedStays(ref: seq<nat>, body: seq<Body>, body': seq<Body>, holding: seq<bool>, ext: multiset<Id>, pend: seq<Id>, m: nat, id: Id)
    requires CountsOk(ref, body, holding, ext, pend, []) && OnlyDead(body, body', ref, m) && id < |ref| && ref[id] > 0 && id != SENTINEL
    ensures body'[id] == body[id] && WholeAfter(StillThere(holding, body'))[id]
  {
  }

  /** Flushing and sweeping together keep counts, whole nodes and cache in order. */
  lemma {:induction false} Collected(L: Levels, ref: seq<nat>, body: seq<Body>, body': seq<Body>, holding: seq<bool>, whole: seq<bool>, shape: seq<Node>,
                                     ext: multiset<Id>, lost: multiset<Id>, pend: seq<Id>, m: nat, before: seq<Slot>, cache: seq<Slot>)
    requires Counting(ref, body, holding, whole, shape, ext + lost, pend, []) && OnlyDead(body, body', ref, m)
    requires CacheOk(L, whole, shape, before) && Flushed(ref, before, cache, 0)
    ensures var holding' := StillThere(holding, body');
            && Counting(ref, body', holding', WholeAfter(holding'), shape, ext + (lost + LostBy(body, holding, body')), pend, [])
            && CacheOk(L, WholeAfter(holding'), shape, cache)
  {
    SweptCounts(ref, body, body', holding, ext + lost, pend, m);
    SweptWhole(ref, body, body', holding, whole, shape, ext + lost, pend, m);
    CacheSurvives(L, ref, body, body', holding, whole, shape, ext + lost, pend, m, before, cache);
    assert ext + (lost + LostBy(body, holding, body')) == ext + lost + LostBy(body, holding, body');
  }

  lemma {:induction false} NothingDied(ref: seq<nat>, body: seq<Body>, holding: seq<bool>, body': seq<Body>, m: nat)
    requires |body| == |holding| && HoldersOk(body, holding) && OnlyDead(body, body', ref, m)
    ensures NoneDead(ref, body, []) ==> body' == body && LostBy(body, holding, body') == multiset{}
  {
    if NoneDead(ref, body, []) {
      assert body' == body;
      NothingFreed(body, holding, body', |body|);
    }
  }

  // ----- Flushing

  /** Clears the entries that name a node without references, from the last slot to the first. */
  method FlushCache(ref: seq<nat>, cache0: seq<Slot>) returns (cache: seq<Slot>)
    requires forall k :: 0 <= k < |cache0| && cache0[k].Used? ==> cache0[k].a.id < |ref| && cache0[k].b.id < |ref| && cache0[k].res.id < |ref|
    ensures Flushed(ref, cache0, cache, 0)
  {
    cache := cache0;
    var n := |cache|;
    while n > 0
      invariant 0 <= n <= |cache0| && Flushed(ref, cache0, cache, n)
    {
      n := n - 1;
      if NamesDead(ref, cache[n]) {
        cache := cache[n := Free];
      }
    }
  }

  // ----- New nodes

  function Longer<T>(s: seq<T>, n: nat, x: T): seq<T> { s + seq(n, _ => x) }

  /** New memory holds no nodes yet. */
  lemma {:induction false} GrownCounting(ref: seq<nat>, body: seq<Body>, holding: seq<bool>, whole: seq<bool>, shape: seq<Node>,
                                         ext: multiset<Id>, pend: seq<Id>, n: nat)
    requires Counting(ref, body, holding, whole, shape, ext, pend, [])
    ensures Counting(Longer(ref, n, 0), Longer(body, n, Nothing), Longer(holding, n, false), Longer(whole, n, false), Longer(shape, n, Terminal),
                     ext, pend, [])
  {
    GrownCounts(ref, body, holding, ext, pend, n);
    var body', whole', shape' := Longer(body, n, Nothing), Longer(whole, n, false), Longer(shape, n, Terminal);
    forall id | 0 <= id < |body| && whole'[id] && id != TERMINAL ensures NodeWhole(body', whole', shape', id) {
      assert NodeWhole(body, whole, shape, id);
      LongerNode(body[id], shape, n);
    }
  }

  lemma {:induction false} GrownCache(L: Levels, whole: seq<bool>, shape: seq<Node>, cache: seq<Slot>, n: nat)
    requires |whole| == |shape| && CacheOk(L, whole, shape, cache)
    ensures CacheOk(L, Longer(whole, n, false), Longer(shape, n, Terminal), cache)
  {
    var whole', shape' := Longer(whole, n, false), Longer(shape, n, Terminal);
    assert forall id :: SameFor(whole, shape, whole', shape', id);
    CacheStays(L, whole, shape, whole', shape', cache);
  }

  lemma {:induction false} LongerNode(b: Body, shape: seq<Node>, n: nat)
    requires InRange(b, |shape|)
    ensures InRange(b, |shape| + n) && NodeWith(b, Longer(shape, n, Terminal)) == NodeWith(b, shape)
  {
    match b
    case Nothing =>
    case Bool(_, low, high) =>
      assert Children(b)[0] == low.id && Children(b)[1] == high.id;
    case Clock(_, elems) =>
      assert forall k :: 0 <= k < |elems| ==> Children(b)[k] == elems[k].child.id;
      assert KidElems(elems, Longer(shape, n, Terminal)) == KidElems(elems, shape);
  }

  lemma {:induction false} GrownCounts(ref: seq<nat>, body: seq<Body>, holding: seq<bool>, ext: multiset<Id>, pend: seq<Id>, n: nat)
    requires CountsOk(ref, body, holding, ext, pend, [])
    ensures CountsOk(Longer(ref, n, 0), Longer(body, n, Nothing), Longer(holding, n, false), ext, pend, [])
  {
    GrownExact(ref, body, holding, ext, pend, n);
  }

  lemma {:induction false} GrownExact(ref: seq<nat>, body: seq<Body>, holding: seq<bool>, ext: multiset<Id>, pend: seq<Id>, n: nat)
    requires |ref| == |body| && HoldersOk(body, holding) && ClaimsInRange(ext, pend, |body|) && Exact(ref, body, holding, ext, pend)
    ensures Exact(Longer(ref, n, 0), Longer(body, n, Nothing), Longer(holding, n, false), ext, pend)
  {
    var ref', body', holding' := Longer(ref, n, 0), Longer(body, n, Nothing), Longer(holding, n, false);
    forall x: Id | x < |ref'| ensures ExactAt(ref', body', holding', ext, pend, x) {
      if x < |ref| { assert ExactAt(ref, body, holding, ext, pend, x); }
      EdgesGrown(body, holding, body', holding', |body'|, x);
      if x >= |ref| {
        TimesIn(pend, x);
        EdgesElsewhere(body, holding, |body|, x);
      }
    }
  }

  /** No edge leads to a node that does not exist yet. */
  lemma {:induction false} EdgesElsewhere(body: seq<Body>, holding: seq<bool>, n: nat, id: Id)
    requires |body| == |holding| && HoldersOk(body, holding) && n <= |body| && id >= |body|
    ensures EdgeClaims(body, holding, n, id) == 0
  {
    if n > 0 {
      EdgesElsewhere(body, holding, n - 1, id);
      TimesIn(Children(body[n - 1]), id);
    }
  }

  /** The new node takes over the claims on its children, and stands for the diagram over them. */
  lemma {:induction false} InstalledOk(L: Levels, ref: seq<nat>, body: seq<Body>, holding: seq<bool>, whole: seq<bool>, shape: seq<Node>,
                                       ext: multiset<Id>, cache: seq<Slot>, id: Id, b: Body)
    requires |whole| == |shape| && CacheOk(L, whole, shape, cache)
    requires Counting(ref, body, holding, whole, shape, ext, Children(b), []) && SENTINEL < id < |body| && body[id].Nothing?
    requires !b.Nothing? && BodyOk(b) && InRange(b, |body|)
    ensures Counting(ref[id := 0], body[id := b], holding[id := true], whole[id := true], shape[id := NodeWith(b, shape)], ext, [], [])
    ensures CacheOk(L, whole[id := true], shape[id := NodeWith(b, shape)], cache)
    ensures ref[id] == 0
  {
    assert ref[id := 0] == ref;
    assert whole[id] ==> NodeWhole(body, whole, shape, id);
    forall c | c in Children(b) ensures whole[c] && c != id {
      ClaimedLives(ref, body, holding, ext, Children(b), c);
    }
    KidsHeld(ref, body, holding, ext, id, b);
    BecomesWhole(body, whole, shape, holding, id, b);
    InstalledCache(L, whole, shape, cache, id, NodeWith(b, shape));
  }

  lemma {:induction false} InstalledCache(L: Levels, whole: seq<bool>, shape: seq<Node>, cache: seq<Slot>, id: Id, n: Node)
    requires |whole| == |shape| && CacheOk(L, whole, shape, cache) && id < |whole| && !whole[id]
    ensures CacheOk(L, whole[id := true], shape[id := n], cache)
  {
    var whole', shape' := whole[id := true], shape[id := n];
    assert forall x :: SameFor(whole, shape, whole', shape', x);
    CacheStays(L, whole, shape, whole', shape', cache);
  }

  /** A diagram is larger than its parts, so no whole node is its own child. */
  lemma {:induction false} NotOwnChild(body: seq<Body>, whole: seq<bool>, shape: seq<Node>, id: Id)
    requires |whole| == |shape| == |body| && id < |body| && NodeWhole(body, whole, shape, id)
    ensures id !in Children(body[id])
  {
    var b := body[id];
    if b.Bool? {
      assert Children(b) == [b.low.id, b.high.id];
      assert Children(b)[0] == b.low.id && Children(b)[1] == b.high.id;
      assert shape[id].low.node == shape[b.low.id] && shape[id].high.node == shape[b.high.id];
      assert shape[id].low.node < shape[id].low < shape[id] && shape[id].high.node < shape[id].high < shape[id];
    } else {
      forall k | 0 <= k < |Children(b)| ensures Children(b)[k] != id {
        assert Children(b)[k] == b.elems[k].child.id;
        assert shape[id].elems[k].child.node == shape[b.elems[k].child.id];
      }
    }
  }

  lemma {:induction false} LiveKids(body: seq<Body>, holding: seq<bool>, whole: seq<bool>, shape: seq<Node>, id: Id)
    requires WholeOk(body, whole, shape, holding) && id < |body|
    requires forall k :: 0 <= k < |Children(body[id])| ==>
               var c := Children(body[id])[k]; c < |holding| && (c == TERMINAL || holding[c]) && c != SENTINEL
    requires id != TERMINAL
    ensures forall c :: c in Children(body[id]) ==> c < |whole| && whole[c] && c != id
  {
    if whole[id] { NotOwnChild(body, whole, shape, id); }
    forall c | c in Children(body[id]) ensures c < |whole| && whole[c] && c != id {
      var k :| 0 <= k < |Children(body[id])| && Children(body[id])[k] == c;
    }
  }

  lemma {:induction false} RestoredOk(L: Levels, ref: seq<nat>, body: seq<Body>, holding: seq<bool>, whole: seq<bool>, shape: seq<Node>,
                                      ext: multiset<Id>, cache: seq<Slot>, id: Id)
    requires Counting(ref, body, holding, whole, shape, ext, [], []) && CacheOk(L, whole, shape, cache)
    requires SENTINEL < id < |body| && !body[id].Nothing? && BodyOk(body[id]) && InRange(body[id], |body|)
    requires forall c :: c in Children(body[id]) ==> c < |whole| && whole[c] && c != id
    ensures var whole', shape' := whole[id := true], shape[id := NodeWith(body[id], shape)];
            && Counting(ref, body, holding, whole', shape', ext, [], []) && CacheOk(L, whole', shape', cache)
            && (whole[id] ==> shape' == shape)
  {
    var whole', shape' := whole[id := true], shape[id := NodeWith(body[id], shape)];
    BecomesWhole(body, whole, shape, holding, id, body[id]);
    assert body[id := body[id]] == body;
    assert forall x :: SameFor(whole, shape, whole', shape', x);
    CacheStays(L, whole, shape, whole', shape', cache);
  }

  method RefChildren(ref0: seq<nat>, ids: seq<Id>) returns (ref: seq<nat>)
    requires forall k :: 0 <= k < |ids| ==> ids[k] < |ref0|
    ensures ref == Bumped(ref0, ids)
  {
    ref := ref0;
    var i := 0;
    while i < |ids|
      invariant i <= |ids| && ref == Bumped(ref0, ids[..i])
    {
      assert ids[..i + 1][..i] == ids[..i];
      ref := ref[ids[i] := SatInc(ref[ids[i]])];
      i := i + 1;
    }
    assert ids[..i] == ids;
  }

  /** The outcomes of the tests on statistics: whether to sweep and which levels, how much memory to add, whether to rehash. */
  datatype Policy = Policy(collect: bool, due: set<nat>, chunk: nat, grow: bool)

  /** What making room comes to: a sweep if the statistics ask for one, and new memory if that, or no sweep at all, has freed nothing. */
  ghost predicate RoomMade(body0: seq<Body>, body: seq<Body>, ref: seq<nat>, m: nat, policy: Policy, levels: nat)
  {
    && (policy.collect ==> CleanLevels(body, ref, m, policy.due, levels))
    && (|body| == |body0| ==> policy.collect)
    && (|body| != |body0| ==> body == Longer(body0, policy.chunk + 1, Nothing))
  }

  lemma {:induction false} GrownClean(body: seq<Body>, ref: seq<nat>, m: nat, due: set<nat>, levels: nat, n: nat)
    requires |ref| == |body|
    ensures CleanLevels(body, ref, m, due, levels) ==> CleanLevels(Longer(body, n, Nothing), Longer(ref, n, 0), m, due, levels)
  {
    if CleanLevels(body, ref, m, due, levels) {
      forall level | level in due && level < levels ensures Clean(Longer(body, n, Nothing), Longer(ref, n, 0), TableId(m, level)) {
        assert Clean(body, ref, TableId(m, level));
      }
    }
  }

  class Kernel {
    const L: Levels
    const store: NodeStore
    /** Spreads operations over the cache. */
    const spread: (Handle, Handle, Op) -> nat
    /** What the statistics say, whenever a node is made. */
    const decide: nat -> Policy
    var made: nat
    var ref: seq<nat>
    var cache: seq<Slot>
    ghost var holding: seq<bool>
    ghost var whole: seq<bool>
    ghost var shape: seq<Node>
    /** The references that callers hold. */
    ghost var ext: multiset<Id>
    /** The references that are counted and that no one will ever give back. */
    ghost var lost: multiset<Id>

    ghost predicate Valid()
      reads this, store
    {
      ValidWith([])
    }

    /** The same while a node is being made that has counted its children already. */
    ghost predicate ValidWith(pend: seq<Id>)
      reads this, store
    {
      && store.Valid()
      && Counting(ref, store.body, holding, whole, shape, ext + lost, pend, [])
      && CacheOk(L, whole, shape, cache) && cache != []
    }

    /** A node that is not dead. */
    ghost predicate Live(id: Id)
      reads this
    {
      id < |holding| && id < |shape| && (id == TERMINAL || holding[id])
    }

    /** Nodes with references are still there and stand for the same diagrams. */
    twostate predicate Keeps()
      reads this, store
    {
      Kept(old(ref), old(shape), old(store.body), ref, shape, store.body)
    }

    constructor (L: Levels, size: nat, hash: seq<int> -> nat, spread: (Handle, Handle, Op) -> nat, decide: nat -> Policy)
      requires size > 0
      ensures Valid() && fresh(store) && this.L == L && ext == multiset{} && lost == multiset{}
    {
      this.L := L;
      this.spread := spread;
      this.decide := decide;
      made := 0;
      store := new NodeStore(hash);
      ref := [MAXREF, 0];
      cache := seq(size, _ => Free);
      holding, whole, shape := [false, false], [true, false], [Terminal, Terminal];
      ext, lost := multiset{}, multiset{};
      new;
      NothingYet();
    }

    lemma {:induction false} NothingYet()
      requires store.Valid() && store.body == [Nothing, Nothing] && ref == [MAXREF, 0] && ext == multiset{} && lost == multiset{}
      requires holding == [false, false] && whole == [true, false] && shape == [Terminal, Terminal]
      ensures Counting(ref, store.body, holding, whole, shape, ext + lost, [], [])
    {
      forall id: Id | id < 2 ensures EdgeClaims(store.body, holding, 2, id) == 0 {
        assert EdgeClaims(store.body, holding, 1, id) == EdgeClaims(store.body, holding, 0, id) == 0;
      }
    }

    // ----- References

    method AddRef(h: Handle)
      requires Valid() && Live(h.id)
      modifies this`ref, this`ext
      ensures Valid() && ext == old(ext) + multiset{h.id}
      ensures ref == old(ref)[h.id := SatInc(old(ref)[h.id])] && Keeps()
    {
      TakenOk(ref, store.body, holding, ext + lost, h.id);
      assert ext + multiset{h.id} + lost == ext + lost + multiset{h.id};
      ref := ref[h.id := SatInc(ref[h.id])];
      ext := ext + multiset{h.id};
    }

    /** Gives a reference back without letting go of the children. */
    method Deref(h: Handle)
      requires Valid() && h.id in ext
      modifies this`ref, this`ext
      ensures Valid() && ext == old(ext) - multiset{h.id}
      ensures h.id < |old(ref)| && old(ref)[h.id] > 0 && ref == old(ref)[h.id := SatDec(old(ref)[h.id])]
    {
      GivenBackOk(ref, store.body, holding, ext + lost, h.id);
      assert ext - multiset{h.id} + lost == ext + lost - multiset{h.id};
      ref := ref[h.id := SatDec(ref[h.id])];
      ext := ext - multiset{h.id};
    }

    /** Gives a reference back; nodes that lose their last one release their children.  No release is ever one too many. */
    method RecDeref(h: Handle) returns (ok: bool)
      requires Valid() && h.id in ext
      modifies this`ref, this`ext, this`holding
      ensures Valid() && ext == old(ext) - multiset{h.id} && ok
      ensures LetGo(old(ref), old(holding), ref, holding)
      ensures h.id < |ref| && old(ref)[h.id] > 0 && OneRelease(old(ref), old(holding), ref, holding, h.id, [])
    {
      ghost var was, claims := holding, ext + lost;
      ClaimPending(ref, store.body, holding, claims, h.id);
      assert ext - multiset{h.id} + lost == claims - multiset{h.id};
      ext := ext - multiset{h.id};
      ref, holding, ok := ReleaseAll(ref, store.body, holding, ext + lost, h.id);
      StillWhole(store.body, whole, shape, was, holding);
    }

    /** The node came back: the nodes `seen` have counted their children, and what they counted again is lost. */
    twostate predicate BroughtBack(id: Id, new seen: seq<Id>)
      reads this, store
    {
      var s := Snapshot(old(ref), store.body, old(holding));
      Revived(s, ref, holding, id, seen) && lost == old(lost) + LostAgain(s, seen)
    }

    /**
     * Brings a dead node back: it and every node reached from it through nodes without references count their
     * children.  A node that held its children all the time counts them once too often, and those references
     * are lost.
     */
    method Reclaim(id: Id) returns (ghost seen: seq<Id>)
      requires Valid() && SENTINEL < id < |whole| && whole[id]
      modifies this`ref, this`holding, this`lost
      ensures Valid() && Keeps() && holding[id] && BroughtBack(id, seen)
    {
      assert WorkOk(whole, [id]);
      var ref';
      ghost var holding';
      ref', holding', seen := ReviveAll(ref, store.body, holding, whole, shape, ext, lost, id);
      ghost var more := LostAgain(Snapshot(ref, store.body, holding), seen);
      Seen(Snapshot(ref, store.body, holding), ref', holding', id, seen);
      NoneFalls(Snapshot(ref, store.body, holding), ref', seen);
      Recount(ref', holding', lost + more);
    }

    method Recount(ref': seq<nat>, ghost holding': seq<bool>, ghost lost': multiset<Id>)
      requires store.Valid() && CacheOkNow() && Counting(ref', store.body, holding', whole, shape, ext + lost', [], [])
      modifies this`ref, this`holding, this`lost
      ensures Valid() && ref == ref' && holding == holding' && lost == lost'
    {
      ref, holding, lost := ref', holding', lost';
    }

    ghost predicate CacheOkNow()
      reads this
    {
      |whole| == |shape| && CacheOk(L, whole, shape, cache) && cache != []
    }

    /** Nodes that hold their children have some. */
    lemma {:induction false} HoldersHaveChildren(seen: seq<Id>)
      requires Valid() && forall x :: x in seen ==> x < |holding| && holding[x]
      ensures forall x :: x in seen && x < |store.body| ==> Children(store.body[x]) != []
    {
      forall x | x in seen && x < |store.body| ensures Children(store.body[x]) != [] {
        assert NodeWhole(store.body, whole, shape, x);
      }
    }

    /**
     * Bringing a node back loses references if a node that it reaches held its children, and only then, unless
     * a boolean node that it reaches has one dead node for both of its children.
     */
    lemma {:induction false} LosesExactly(s: Snapshot, lost0: multiset<Id>, id: Id, seen: seq<Id>)
      requires Valid() && s.body == store.body && Revived(s, ref, holding, id, seen) && lost == lost0 + LostAgain(s, seen)
      ensures HolderReached(s, id) ==> lost != lost0
      ensures lost != lost0 ==> HolderReached(s, id) || PairReached(s, id)
    {
      Seen(s, ref, holding, id, seen);
      HoldersHaveChildren(seen);
      LossExactly(s, ref, holding, id, seen);
      assert lost == lost0 <==> LostAgain(s, seen) == multiset{};
    }

    // ----- Garbage collection

    /** Flushes the cache and sweeps one manager.  Whatever has references stays. */
    method Collect(m: nat, due: set<nat>, ghost pend: seq<Id>)
      requires ValidWith(pend)
      modifies this`cache, this`holding, this`whole, this`lost, store
      ensures ValidWith(pend) && Keeps() && store.tables.Keys == old(store.tables).Keys
      ensures OnlyDead(old(store.body), store.body, ref, m) && CleanLevels(store.body, ref, m, due, |L|)
      ensures Flushed(ref, old(cache), cache, 0)
      ensures |old(store.body)| == |old(holding)| == |store.body| && lost == old(lost) + LostBy(old(store.body), old(holding), store.body)
      ensures Returned(old(store.body), old(store.free), store.body, store.free, m)
      ensures Spares([], [])
    {
      assert forall k :: 0 <= k < |cache| ==> SlotOk(L, whole, shape, cache[k]);
      ghost var body0, cache0 := store.body, cache;
      cache := FlushCache(ref, cache);
      store.Sweep(m, ref, |L|, due);
      Collected(L, ref, body0, store.body, holding, whole, shape, ext, lost, pend, m, cache0, cache);
      NothingDied(ref, body0, holding, store.body, m);
      Settle(StillThere(holding, store.body), lost + LostBy(body0, holding, store.body), pend);
    }

    ghost method Settle(holding': seq<bool>, lost': multiset<Id>, pend: seq<Id>)
      requires store.Valid() && cache != [] && Counting(ref, store.body, holding', WholeAfter(holding'), shape, ext + lost', pend, [])
      requires CacheOk(L, WholeAfter(holding'), shape, cache)
      modifies this`holding, this`whole, this`lost
      ensures ValidWith(pend) && holding == holding' && whole == WholeAfter(holding') && lost == lost'
    {
      holding, whole, lost := holding', WholeAfter(holding'), lost';
    }

    // ----- Creating nodes

    /** If no node was dead, apart from some, none is now, apart from others, and nothing has been lost. */
    twostate predicate Spares(new but: seq<Id>, new but': seq<Id>)
      reads this, store
    {
      NoneDead(old(ref), old(store.body), but) ==> NoneDead(ref, store.body, but') && lost == old(lost)
    }

    /** Nothing has been put into the store. */
    twostate predicate NoNewNodes()
      reads this, store
    {
      forall id :: 0 <= id < |store.body| && !store.body[id].Nothing? ==> id < |old(store.body)| && store.body[id] == old(store.body)[id]
    }

    method Grow(m: nat, n: nat, ghost pend: seq<Id>)
      requires ValidWith(pend) && n > 0
      modifies this`ref, this`holding, this`whole, this`shape, store
      ensures ValidWith(pend) && Keeps() && NoNewNodes() && FreeList(store.free, m) != [] && store.tables.Keys == old(store.tables).Keys
      ensures |old(shape)| <= |shape| && forall id :: 0 <= id < |old(shape)| ==> shape[id] == old(shape)[id]
      ensures old(ref) <= ref && Spares([], []) && store.body == Longer(old(store.body), n, Nothing) && ref == Longer(old(ref), n, 0)
      ensures forall b: Body, at: Place :: old(store.IsPlaceFor(b, at)) ==> store.IsPlaceFor(b, at)
    {
      GrownCounting(ref, store.body, holding, whole, shape, ext + lost, pend, n);
      GrownCache(L, whole, shape, cache, n);
      store.AddChunk(m, n);
      ref := Longer(ref, n, 0);
      holding, whole, shape := Longer(holding, n, false), Longer(whole, n, false), Longer(shape, n, Terminal);
    }

    /** A free node; if there is none, one manager is swept or gets more memory. */
    method Alloc(m: nat, policy: Policy, ghost pend: seq<Id>) returns (id: Id, collected: bool)
      requires ValidWith(pend)
      modifies this`ref, this`cache, this`holding, this`whole, this`shape, this`lost, store
      ensures ValidWith(pend) && Keeps() && NoNewNodes() && store.tables.Keys == old(store.tables).Keys
      ensures old(lost) <= lost && (!collected ==> lost == old(lost)) && old(ref) <= ref && Spares([], [])
      ensures collected <==> policy.collect && old(FreeList(store.free, m)) == []
      ensures if old(FreeList(store.free, m)) == [] then RoomMade(old(store.body), store.body, ref, m, policy, |L|)
              else store.body == old(store.body) && ref == old(ref)
      ensures SENTINEL < id < |store.body| && store.body[id].Nothing? && store.owner[id] == m
      ensures forall k :: k in store.free ==> id !in store.free[k]
      ensures !collected ==> forall b: Body, at: Place :: old(store.IsPlaceFor(b, at)) ==> store.IsPlaceFor(b, at)
    {
      collected := false;
      if FreeList(store.free, m) == [] {
        collected := MakeRoom(m, policy, pend);
      }
      id := store.TakeFree(m);
    }

    method MakeRoom(m: nat, policy: Policy, ghost pend: seq<Id>) returns (collected: bool)
      requires ValidWith(pend) && FreeList(store.free, m) == []
      modifies this`ref, this`cache, this`holding, this`whole, this`shape, this`lost, store
      ensures ValidWith(pend) && Keeps() && NoNewNodes() && store.tables.Keys == old(store.tables).Keys
      ensures old(lost) <= lost && (!collected ==> lost == old(lost)) && old(ref) <= ref && Spares([], []) && FreeList(store.free, m) != []
      ensures collected == policy.collect && RoomMade(old(store.body), store.body, ref, m, policy, |L|)
      ensures !collected ==> forall b: Body, at: Place :: old(store.IsPlaceFor(b, at)) ==> store.IsPlaceFor(b, at)
    {
      collected := policy.collect;
      if policy.collect {
        SweepOrGrow(m, policy, pend);
      } else {
        Grow(m, policy.chunk + 1, pend);
      }
    }

    /** Sweeps one manager, and if that has freed nothing gets more memory after all. */
    method SweepOrGrow(m: nat, policy: Policy, ghost pend: seq<Id>)
      requires ValidWith(pend) && FreeList(store.free, m) == [] && policy.collect
      modifies this`ref, this`cache, this`holding, this`whole, this`shape, this`lost, store
      ensures ValidWith(pend) && Keeps() && NoNewNodes() && store.tables.Keys == old(store.tables).Keys
      ensures old(lost) <= lost && old(ref) <= ref && Spares([], []) && FreeList(store.free, m) != []
      ensures RoomMade(old(store.body), store.body, ref, m, policy, |L|)
    {
      Collect(m, policy.due, pend);
      if FreeList(store.free, m) == [] {
        ghost var body, was := store.body, ref;
        Grow(m, policy.chunk + 1, pend);
        GrownClean(body, was, m, policy.due, |L|, policy.chunk + 1);
      }
    }

    /** All children are there and not dead. */
    ghost predicate KidsLive(b: Body)
      reads this
    {
      forall k :: 0 <= k < |Children(b)| ==> Live(Children(b)[k]) && Children(b)[k] != SENTINEL
    }

    /** Whole nodes are still there and stand for the same diagrams. */
    twostate predicate KeepsWhole()
      reads this
    {
      forall id :: 0 <= id < |old(whole)| && id < |old(shape)| && old(whole)[id] ==>
        id < |whole| && id < |shape| && whole[id] && shape[id] == old(shape)[id]
    }

    /** A node with these contents exists already; if it was dead it comes back. */
    method Resurrect(id: Id, b: Body) returns (ghost seen: seq<Id>)
      requires Valid() && id < |store.body| && !b.Nothing? && store.body[id] == b && BodyOk(b) && KidsLive(b)
      modifies this`ref, this`holding, this`whole, this`shape, this`lost
      ensures Valid() && Keeps() && KeepsWhole() && id < |holding| && holding[id]
      ensures InRange(b, |old(shape)|) && id < |shape| && shape[id] == NodeWith(b, old(shape))
      ensures FoundAgain(id, seen) && CostsExactly(id, b)
    {
      KidsReady(id, b);
      KidsCounted(b);
      Restore(id, b);
      seen := RecoverFound(id, b);
    }

    /** Brings a node back if it is dead, and tells what that costs. */
    method RecoverFound(id: Id, b: Body) returns (ghost seen: seq<Id>)
      requires Valid() && SENTINEL < id < |whole| && whole[id] && id < |store.body| && store.body[id] == b
      requires CountsInRange(ref) && forall c :: c in Children(b) ==> c < |ref| == |holding| && (c == TERMINAL || holding[c])
      modifies this`ref, this`holding, this`lost
      ensures Valid() && Keeps() && holding[id] && FoundAgain(id, seen) && CostsExactly(id, b)
    {
      ghost var s, lost0 := Snapshot(ref, store.body, holding), lost;
      seen := Recover(id);
      if s.ref[id] == 0 { Cost(s, lost0, id, b, seen); }
    }

    /** Brings a node back if it is dead. */
    method Recover(id: Id) returns (ghost seen: seq<Id>)
      requires Valid() && SENTINEL < id < |whole| && whole[id]
      modifies this`ref, this`holding, this`lost
      ensures Valid() && Keeps() && holding[id] && FoundAgain(id, seen)
    {
      seen := [];
      if ref[id] == 0 {
        seen := Reclaim(id);
      }
    }

    /** What finding a node changes: nothing if it has references, otherwise it is brought back. */
    twostate predicate FoundAgain(id: Id, new seen: seq<Id>)
      reads this, store
    {
      id < |old(ref)| && if old(ref)[id] > 0 then seen == [] && ref == old(ref) && holding == old(holding) && lost == old(lost) else BroughtBack(id, seen)
    }

    /** Nothing is lost if the node had references, or had let go of its children and all of them have references. */
    twostate predicate CostsExactly(id: Id, new b: Body)
      reads this
    {
      old(lost) <= lost && id < |old(ref)| && id < |old(holding)|
      && (lost == old(lost) <==> old(ref)[id] > 0 || (!old(holding)[id] && forall c :: c in Children(b) ==> c < |old(ref)| && old(ref)[c] > 0))
    }

    lemma {:induction false} Cost(s: Snapshot, lost0: multiset<Id>, id: Id, b: Body, seen: seq<Id>)
      requires Valid() && s.body == store.body && id < |s.body| && s.body[id] == b && CountsInRange(s.ref)
      requires Revived(s, ref, holding, id, seen) && lost == lost0 + LostAgain(s, seen)
      requires forall c :: c in Children(b) ==> c < |s.ref| && (c == TERMINAL || s.holding[c])
      ensures lost == lost0 <==> !s.holding[id] && forall c :: c in Children(b) ==> c < |s.ref| && s.ref[c] > 0
    {
      NoLossExactly(s, ref, holding, id, seen);
      Seen(s, ref, holding, id, seen);
      HoldersHaveChildren(seen);
      NothingLost(s, seen);
      assert lost == lost0 <==> LostAgain(s, seen) == multiset{};
    }

    lemma {:induction false} KidsCounted(b: Body)
      requires Valid() && KidsLive(b)
      ensures CountsInRange(ref) && forall c :: c in Children(b) ==> c < |ref| == |holding| && (c == TERMINAL || holding[c])
    {
      forall c | c in Children(b) ensures c < |ref| && (c == TERMINAL || holding[c]) {
        var k :| 0 <= k < |Children(b)| && Children(b)[k] == c;
      }
    }

    lemma {:induction false} KidsReady(id: Id, b: Body)
      requires Valid() && id < |store.body| && !b.Nothing? && store.body[id] == b && KidsLive(b)
      ensures SENTINEL < id && InRange(b, |shape|)
      ensures forall c :: c in Children(b) ==> c < |whole| && whole[c] && c != id
    {
      LiveKids(store.body, holding, whole, shape, id);
    }

    /** The contents of a node say what it stands for, whatever has happened to it meanwhile. */
    ghost method Restore(id: Id, b: Body)
      requires Valid() && SENTINEL < id < |store.body| && !b.Nothing? && store.body[id] == b && BodyOk(b) && InRange(b, |shape|)
      requires forall c :: c in Children(b) ==> c < |whole| && whole[c] && c != id
      modifies this`whole, this`shape
      ensures Valid() && KeepsWhole() && Keeps() && id < |whole| && whole[id] && id < |shape|
      ensures InRange(b, |old(shape)|) && shape[id] == NodeWith(b, old(shape))
    {
      RestoredOk(L, ref, store.body, holding, whole, shape, ext + lost, cache, id);
      whole, shape := whole[id := true], shape[id := NodeWith(b, shape)];
    }

    lemma {:induction false} KidsInRange(b: Body)
      requires Valid() && KidsLive(b)
      ensures InRange(b, |shape|) && InRange(b, |ref|) && InRange(b, |store.body|)
    {
    }

    /** Counts the children of a node that is about to be made, so that a sweep will not take them. */
    method HoldChildren(b: Body)
      requires Valid() && KidsLive(b)
      modifies this`ref
      ensures ValidWith(Children(b)) && InRange(b, |old(ref)|) && ref == Bumped(old(ref), Children(b))
      ensures NotFewer(old(ref), ref) && forall c :: c in Children(b) ==> c < |ref| && ref[c] > 0
      ensures NoneDead(old(ref), store.body, Children(b)) ==> NoneDead(ref, store.body, [])
    {
      KidsInRange(b);
      KidsTaken(ref, store.body, holding, ext + lost, Children(b));
      BumpedCovers(ref, Children(b));
      ref := RefChildren(ref, Children(b));
      forall c | c in Children(b) ensures c < |ref| && ref[c] > 0 {
        TimesIn(Children(b), c);
      }
    }

    /** The new node is in its chain; its edges now claim the children. */
    method Install(id: Id, b: Body, bucket: nat, p: Link, ghost at: Place)
      requires ValidWith(Children(b)) && InRange(b, |shape|) && store.CanInsert(id, b, bucket, p, at)
      modifies this`ref, this`holding, this`whole, this`shape, store
      ensures id < |holding| && id < |shape| && id < |store.body| && id < |ref| && id < |old(shape)| && id < |old(store.body)|
      ensures Valid() && Keeps() && holding[id] && ref[id] == 0 && ref == old(ref) && shape == old(shape)[id := NodeWith(b, old(shape))]
      ensures store.body == old(store.body)[id := b] && TableOf(b) in store.tables && Spares([], [id])
      ensures TableOf(b) in old(store.tables) && store.tables[TableOf(b)].shift == old(store.tables)[TableOf(b)].shift
    {
      ghost var body', n := store.body[id := b], NodeWith(b, shape);
      InstalledOk(L, ref, store.body, holding, whole, shape, ext + lost, cache, id, b);
      store.Insert(id, b, bucket, p, at);
      assert store.body == body';
      ref := ref[id := 0];
      Adopt(id, n);
    }

    ghost method Adopt(id: Id, n: Node)
      requires store.Valid() && cache != [] && id < |holding| == |whole| == |shape|
      requires Counting(ref, store.body, holding[id := true], whole[id := true], shape[id := n], ext + lost, [], [])
      requires CacheOk(L, whole[id := true], shape[id := n], cache)
      modifies this`holding, this`whole, this`shape
      ensures Valid() && holding == old(holding)[id := true] && whole == old(whole)[id := true] && shape == old(shape)[id := n]
    {
      holding, whole, shape := holding[id := true], whole[id := true], shape[id := n];
    }

    /** What the statistics say this time. */
    method Decide() returns (policy: Policy)
      requires Valid()
      modifies this`made
      ensures Valid()
    {
      policy := decide(made);
      made := made + 1;
    }

    /** Every node that was there is counted once for each time it is a child. */
    twostate predicate NewlyCounted(new b: Body)
      reads this
    {
      InRange(b, |old(ref)|) && Bumped(old(ref), Children(b)) <= ref
    }

    /** Counts the children and finds memory for the node. */
    method Prepare(b: Body, bucket0: nat, p0: Link, ghost at0: Place, policy: Policy) returns (id: Id, bucket: nat, p: Link, ghost at: Place)
      requires Valid() && !b.Nothing? && BodyOk(b) && KidsLive(b)
      requires store.IsPlaceFor(b, at0) && at0.bucket == bucket0 && at0.link == p0
      requires forall x :: 0 <= x < |store.body| ==> store.body[x] != b
      modifies this`ref, this`cache, this`holding, this`whole, this`shape, this`lost, store
      ensures ValidWith(Children(b)) && Keeps() && InRange(b, |old(shape)|) && InRange(b, |shape|)
      ensures NodeWith(b, shape) == NodeWith(b, old(shape)) && store.CanInsert(id, b, bucket, p, at) && old(lost) <= lost && NewlyCounted(b)
      ensures Spares(Children(b), [])
    {
      HoldChildren(b);
      id, bucket, p, at := AllocFor(b, bucket0, p0, at0, policy);
    }

    /** The same, for a node over children that a sweep will not take. */
    method AllocFor(b: Body, bucket0: nat, p0: Link, ghost at0: Place, policy: Policy) returns (id: Id, bucket: nat, p: Link, ghost at: Place)
      requires ValidWith(Children(b)) && !b.Nothing? && BodyOk(b) && InRange(b, |shape|)
      requires forall c :: c in Children(b) ==> c < |ref| && ref[c] > 0
      requires store.IsPlaceFor(b, at0) && at0.bucket == bucket0 && at0.link == p0
      requires forall x :: 0 <= x < |store.body| ==> store.body[x] != b
      modifies this`ref, this`cache, this`holding, this`whole, this`shape, this`lost, store
      ensures ValidWith(Children(b)) && Keeps() && InRange(b, |shape|) && NodeWith(b, shape) == NodeWith(b, old(shape))
      ensures store.CanInsert(id, b, bucket, p, at) && old(lost) <= lost && old(ref) <= ref && Spares([], [])
    {
      id, bucket, p, at := AllocPlace(b, bucket0, p0, at0, policy);
      SameNode(b, old(shape), shape);
    }

    /** Memory for a node, and its place in its chain: the old one, unless a sweep has changed the chain. */
    method AllocPlace(b: Body, bucket0: nat, p0: Link, ghost at0: Place, policy: Policy) returns (id: Id, bucket: nat, p: Link, ghost at: Place)
      requires ValidWith(Children(b)) && !b.Nothing? && BodyOk(b)
      requires store.IsPlaceFor(b, at0) && at0.bucket == bucket0 && at0.link == p0
      requires forall x :: 0 <= x < |store.body| ==> store.body[x] != b
      modifies this`ref, this`cache, this`holding, this`whole, this`shape, this`lost, store
      ensures ValidWith(Children(b)) && Keeps() && store.CanInsert(id, b, bucket, p, at) && old(lost) <= lost && old(ref) <= ref
      ensures Spares([], [])
    {
      var collected;
      id, collected := Alloc(ManagerOf(b), policy, Children(b));
      bucket, p, at := store.PlaceNow(id, b, collected, bucket0, p0, at0);
    }

    /** The shift of a table of twice the size. */
    function NextShift(shift: nat): nat { if shift > 0 then shift - 1 else 0 }

    /** Doubles the table of a node. */
    method Double(b: Body)
      requires Valid() && !b.Nothing? && TableOf(b) in store.tables
      modifies store
      ensures Valid() && store.body == old(store.body) && TableOf(b) in store.tables
      ensures store.tables[TableOf(b)].shift == NextShift(old(store.tables)[TableOf(b)].shift)
    {
      store.Rehash(TableOf(b));
    }

    /** Puts the node into its place, and doubles the table afterwards if it has become too full. */
    method PutIn(id: Id, b: Body, bucket: nat, p: Link, ghost at: Place, grow: bool)
      requires ValidWith(Children(b)) && InRange(b, |shape|) && store.CanInsert(id, b, bucket, p, at)
      modifies this`ref, this`holding, this`whole, this`shape, store
      ensures SENTINEL < id < |holding| && id < |shape| && id < |store.body| && id < |ref| && id < |old(shape)|
      ensures Valid() && Keeps() && holding[id] && store.body[id] == b && ref[id] == 0
      ensures ref == old(ref) && shape == old(shape)[id := NodeWith(b, old(shape))] && Spares([], [id])
      ensures TableOf(b) in old(store.tables) && TableOf(b) in store.tables
      ensures store.tables[TableOf(b)].shift == if grow then NextShift(old(store.tables)[TableOf(b)].shift) else old(store.tables)[TableOf(b)].shift
    {
      Install(id, b, bucket, p, at);
      if grow {
        Double(b);
      }
    }

    /** Makes a node with contents that no node has. */
    method MakeAbsent(b: Body, bucket0: nat, p0: Link, ghost at0: Place, policy: Policy) returns (id: Id)
      requires Valid() && !b.Nothing? && BodyOk(b) && KidsLive(b)
      requires store.IsPlaceFor(b, at0) && at0.bucket == bucket0 && at0.link == p0
      requires forall x :: 0 <= x < |store.body| ==> store.body[x] != b
      modifies this`ref, this`cache, this`holding, this`whole, this`shape, this`lost, store
      ensures SENTINEL < id < |holding| && id < |shape| && id < |store.body| && id < |ref|
      ensures Valid() && Keeps() && holding[id] && store.body[id] == b && ref[id] == 0 && old(lost) <= lost
      ensures InRange(b, |old(shape)|) && shape[id] == NodeWith(b, old(shape)) && NewlyCounted(b) && Spares(Children(b), [id])
    {
      var bucket, p;
      ghost var at;
      ghost var ref0, shape0, body0 := ref, shape, store.body;
      id, bucket, p, at := Prepare(b, bucket0, p0, at0, policy);
      ghost var ref1, shape1, body1 := ref, shape, store.body;
      PutIn(id, b, bucket, p, at, policy.grow);
      KeptOn(ref0, shape0, body0, ref1, shape1, body1, ref, shape, store.body);
    }

    // ----- Nothing lost

    ghost function Books(): Tally
      reads this, store
    {
      Tally(ref, store.body, holding, ext, lost)
    }

    lemma {:induction false} BooksInOrder()
      requires Valid()
      ensures BooksOk(Books())
    {
    }

    lemma {:induction false} KidsApart(b: Body)
      requires Valid() && !b.Nothing? && KidsLive(b)
      ensures forall x: Id :: x < |store.body| && store.body[x] == b ==> x !in Children(b)
      ensures Hold(Books(), Children(b))
    {
      forall x: Id | x < |store.body| && store.body[x] == b ensures x !in Children(b) { KidsReady(x, b); }
      KidsCounted(b);
    }

    /** The node exists already; finding it loses nothing, if its children are the only nodes that may be dead. */
    method FoundBooked(id: Id, b: Body) returns (ghost seen: seq<Id>)
      requires Valid() && id < |store.body| && !b.Nothing? && store.body[id] == b && BodyOk(b) && KidsLive(b)
      modifies this`ref, this`holding, this`whole, this`shape, this`lost
      ensures Valid() && Keeps() && SENTINEL < id < |holding| && holding[id]
      ensures InRange(b, |old(shape)|) && id < |shape| && shape[id] == NodeWith(b, old(shape))
      ensures FoundAgain(id, seen) && CostsExactly(id, b) && Lossless(old(Books()), Children(b), Books(), [id])
    {
      ghost var a := Books();
      KidsApart(b);
      BooksInOrder();
      seen := Resurrect(id, b);
      BooksInOrder();
      FoundSettled(a, Children(b), Books(), id);
    }

    /** The node is new; making it loses nothing either. */
    method MadeBooked(b: Body, bucket: nat, p: Link, ghost at: Place) returns (id: Id)
      requires Valid() && !b.Nothing? && BodyOk(b) && KidsLive(b)
      requires store.IsPlaceFor(b, at) && at.bucket == bucket && at.link == p
      requires forall x :: 0 <= x < |store.body| ==> store.body[x] != b
      modifies this`made, this`ref, this`cache, this`holding, this`whole, this`shape, this`lost, store
      ensures SENTINEL < id < |holding| && id < |shape| && id < |store.body| && id < |ref|
      ensures Valid() && Keeps() && holding[id] && store.body[id] == b && ref[id] == 0 && old(lost) <= lost
      ensures InRange(b, |old(shape)|) && shape[id] == NodeWith(b, old(shape)) && NewlyCounted(b) && Lossless(old(Books()), Children(b), Books(), [id])
    {
      ghost var a := Books();
      KidsApart(b);
      BooksInOrder();
      var policy := Decide();
      id := MakeAbsent(b, bucket, p, at, policy);
      BooksInOrder();
      MadeSettled(a, Books(), id, Children(b));
    }

    /** The node with the given contents: the one that exists, or else a new one. */
    method MakeBody(b: Body) returns (id: Id, ghost seen: seq<Id>)
      requires Valid() && !b.Nothing? && BodyOk(b) && KidsLive(b)
      modifies this`made, this`ref, this`cache, this`holding, this`whole, this`shape, this`lost, store
      ensures Valid() && Keeps() && SENTINEL < id < |holding| && holding[id] && old(lost) <= lost
      ensures InRange(b, |old(shape)|) && id < |shape| && shape[id] == NodeWith(b, old(shape))
      ensures id < |store.body| && store.body[id] == b
      ensures if exists x :: 0 <= x < |old(store.body)| && old(store.body)[x] == b
              then store.body == old(store.body) && FoundAgain(id, seen) && CostsExactly(id, b)
              else ref[id] == 0 && NewlyCounted(b)
      ensures Lossless(old(Books()), Children(b), Books(), [id])
    {
      var bucket, p;
      ghost var at;
      id, bucket, p, at := store.Lookup(b);
      seen := [];
      if id != SENTINEL {
        seen := FoundBooked(id, b);
      } else {
        id := MadeBooked(b, bucket, p, at);
      }
    }

    // ----- Nodes as diagrams

    /** A pointer whose target is there and not dead. */
    ghost predicate LiveHandle(h: Handle)
      reads this
    {
      Live(h.id) && h.id != SENTINEL
    }

    ghost function Denoted(h: Handle): Ref
      reads this
      requires h.id < |shape|
    {
      RefOf(h, shape)
    }

    /** Comparing live pointers is comparing diagrams. */
    lemma {:induction false} HandlesDiffer(a: Handle, b: Handle)
      requires Valid() && LiveHandle(a) && LiveHandle(b)
      ensures a == b <==> Denoted(a) == Denoted(b)
    {
      if Denoted(a) == Denoted(b) {
        ShapesDiffer(store.TheHeap(), store.hash, whole, shape, holding, a.id, b.id);
      }
    }

    /** The node itself, or one of its children. */
    ghost predicate IsOrHas(h: Handle, id: Id)
      reads this, store
    {
      id == h.id || (h.id < |store.body| && h.id < |holding| && holding[h.id] && id in Children(store.body[h.id]))
    }

    /** The boolean node over two children: cdd_make_bdd_node. */
    method MakeBddNode(level: nat, low: Handle, high: Handle) returns (h: Handle)
      requires Valid() && LiveHandle(low) && LiveHandle(high)
      modifies this`made, this`ref, this`cache, this`holding, this`whole, this`shape, this`lost, store
      ensures Valid() && Keeps() && LiveHandle(h)
      ensures Denoted(h) == MakeBool(level, old(Denoted(low)), old(Denoted(high)))
      ensures Lossless(old(Books()), [low.id, high.id], Books(), [h.id]) && IsOrHas(h, low.id) && IsOrHas(h, high.id)
    {
      HandlesDiffer(low, high);
      if low == high {
        assert NoneDead(ref, store.body, [low.id, high.id]) ==> NoneDead(ref, store.body, [low.id]);
        return low;
      }
      var mask := low.neg;
      var b := Bool(level, Handle(false, low.id), NegHandle(high, mask));
      assert Children(b)[0] == low.id && Children(b)[1] == high.id;
      var id;
      ghost var seen;
      id, seen := MakeBody(b);
      h := Handle(mask, id);
    }

    /** The clock node over pieces: cdd_make_cdd_node. */
    method MakeCddNode(level: nat, elems: seq<Kid>) returns (h: Handle)
      requires Valid() && elems != []
      requires forall k :: 0 <= k < |elems| ==> LiveHandle(elems[k].child)
      modifies this`made, this`ref, this`cache, this`holding, this`whole, this`shape, this`lost, store
      ensures Valid() && Keeps() && LiveHandle(h)
      ensures forall k :: 0 <= k < |elems| ==> elems[k].child.id < |old(shape)|
      ensures Denoted(h) == MakeNode(level, KidElems(elems, old(shape)))
      ensures Lossless(old(Books()), KidIds(elems), Books(), [h.id]) && forall k :: 0 <= k < |elems| ==> IsOrHas(h, elems[k].child.id)
    {
      if |elems| == 1 {
        assert KidIds(elems) == [elems[0].child.id];
        return elems[0].child;
      }
      var b := Clock(level, elems);
      assert forall k :: 0 <= k < |Children(b)| ==> Children(b)[k] == elems[k].child.id;
      var id;
      ghost var seen;
      id, seen := MakeBody(b);
      h := Handle(false, id);
    }

    // ----- The operation cache

    function SlotOf(a: Handle, b: Handle, c: Op): nat
      reads this
      requires cache != []
      ensures SlotOf(a, b, c) < |cache|
    {
      spread(a, b, c) % |cache|
    }

    /** A recorded result, brought back if it was dead. */
    method CacheLookup(l: Handle, r: Handle, op: Op) returns (found: bool, res: Handle, ghost seen: seq<Id>)
      requires Valid() && LiveHandle(l) && LiveHandle(r)
      modifies this`ref, this`holding, this`lost
      ensures Valid() && Keeps()
      ensures found <==> cache[SlotOf(l, r, op)].Used? && cache[SlotOf(l, r, op)] == Used(l, r, op, cache[SlotOf(l, r, op)].res)
      ensures found ==> cache[SlotOf(l, r, op)].Used? && res == cache[SlotOf(l, r, op)].res && FoundAgain(res.id, seen)
      ensures found ==> LiveHandle(res) && Truthful(L, Entry(Denoted(l), Denoted(r), op, Denoted(res)))
      ensures !found ==> ref == old(ref) && holding == old(holding) && lost == old(lost)
    {
      seen := [];
      var e := cache[SlotOf(l, r, op)];
      assert SlotOk(L, whole, shape, e);
      found := e.Used? && e.a == l && e.b == r && e.c == op;
      if found {
        res := e.res;
        if ref[res.id] == 0 {
          seen := Reclaim(res.id);
        }
      } else {
        res := CDDFALSE;
      }
    }

    /** Records a result, in the place of whatever was recorded there. */
    method CacheStore(l: Handle, r: Handle, op: Op, res: Handle)
      requires Valid() && LiveHandle(l) && LiveHandle(r) && LiveHandle(res)
      requires Truthful(L, Entry(Denoted(l), Denoted(r), op, Denoted(res)))
      modifies this`cache
      ensures Valid() && cache == old(cache)[old(SlotOf(l, r, op)) := Used(l, r, op, res)]
    {
      cache := cache[SlotOf(l, r, op) := Used(l, r, op, res)];
    }

    // ----- Where counts go wrong

    /** A node made twice without a reference in between: the counts of its children are above the claims on them. */
    method MakeTwice(b: Body) returns (id: Id)
      requires Valid() && !b.Nothing? && BodyOk(b) && KidsLive(b)
      requires forall x :: 0 <= x < |store.body| ==> store.body[x] != b
      modifies this`made, this`ref, this`cache, this`holding, this`whole, this`shape, this`lost, store
      ensures Valid() && id < |store.body| && store.body[id] == b && old(lost) + Bag(Children(b)) <= lost
      ensures forall c :: c in Children(b) ==> c < |ref| && TooHigh(c)
    {
      ghost var seen;
      id, seen := MakeBody(b);
      id := MakeAgain(b, id);
      LostKids(b);
    }

    /** A node that is made again while it has no references, but holds its children. */
    method MakeAgain(b: Body, ghost first: Id) returns (id: Id)
      requires Valid() && !b.Nothing? && BodyOk(b) && first < |store.body| && store.body[first] == b
      requires first < |holding| && holding[first] && first < |ref| && ref[first] == 0
      modifies this`made, this`ref, this`cache, this`holding, this`whole, this`shape, this`lost, store
      ensures Valid() && id < |store.body| && store.body[id] == b && old(lost) + Bag(Children(b)) <= lost
    {
      KidsOfHolder(first);
      ghost var s, seen := Snapshot(ref, store.body, holding), [];
      id, seen := MakeBody(b);
      NoDuplicates(store.TheHeap(), store.hash, first, id);
      CountsAgain(s, ref, holding, id, seen);
    }

    lemma {:induction false} LostKids(b: Body)
      requires Valid() && Bag(Children(b)) <= lost
      ensures forall c :: c in Children(b) ==> c < |ref| && TooHigh(c)
    {
      BagTimes(Children(b));
      forall c | c in Children(b) ensures c < |ref| && TooHigh(c) {
        TimesIn(Children(b), c);
        assert c in ext + lost;
        LostIsTooHigh(c);
      }
    }

    /** More is counted than callers and edges claim, unless the count has reached its ceiling. */
    ghost predicate TooHigh(c: Id)
      reads this, store
    {
      c < |ref| && |store.body| == |holding| && (ref[c] == MAXREF || ref[c] > ext[c] + EdgeClaims(store.body, holding, |store.body|, c))
    }

    /** Below the ceiling counts are too high exactly where references were lost, and exact everywhere else. */
    lemma {:induction false} LostIsTooHigh(c: Id)
      requires Valid() && c < |ref|
      ensures TooHigh(c) <==> ref[c] == MAXREF || lost[c] > 0
      ensures |store.body| == |holding|
      ensures ref[c] != MAXREF && lost[c] == 0 ==> ref[c] == ext[c] + EdgeClaims(store.body, holding, |store.body|, c)
    {
      assert ExactAt(ref, store.body, holding, ext + lost, [], c);
    }

    lemma {:induction false} KidsOfHolder(id: Id)
      requires Valid() && id < |holding| && holding[id]
      ensures KidsLive(store.body[id])
    {
      assert NodeWhole(store.body, whole, shape, id);
      forall k | 0 <= k < |Children(store.body[id])| ensures Live(Children(store.body[id])[k]) {
        ChildLives(ref, store.body, holding, ext + lost, [], id, Children(store.body[id])[k]);
      }
    }
  }
}
