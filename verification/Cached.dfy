/**
 * What cdd_apply_reduce does with a cached result: bring it back if it was dead, take a reference, reduce it,
 * give the reference back, and return a node that may be the result itself or a part of it.
 */
module CachedResults {
  import opened Diagrams
  import opened Pieces
  import opened Apply
  import opened Nodes
  import opened References
  import opened Wholes
  import opened Releases
  import opened Revivals
  import opened Kernels

  // ----- What is inside a diagram

  /** From `id` down to x; `path` are the nodes above x. */
  ghost predicate Descends(body: seq<Body>, id: Id, path: seq<Id>, x: Id)
    decreases |path|
  {
    if path == [] then x == id
    else
      var p := path[|path| - 1];
      p < |body| && x in Children(body[p]) && Descends(body, id, path[..|path| - 1], p)
  }

  ghost predicate Inside(body: seq<Body>, id: Id, x: Id)
  {
    exists path :: Descends(body, id, path, x)
  }

  /** Everything inside a node with references has references. */
  lemma {:induction false} InsideLives(s: Snapshot, claims: multiset<Id>, id: Id, path: seq<Id>, x: Id)
    requires CountsOk(s.ref, s.body, s.holding, claims, [], []) && s.body[TERMINAL].Nothing?
    requires id < |s.ref| && id != SENTINEL && s.ref[id] > 0 && Descends(s.body, id, path, x)
    ensures x < |s.ref| && s.ref[x] > 0 && (x == TERMINAL || s.holding[x]) && x != SENTINEL
    decreases |path|
  {
    if path != [] {
      var p := path[|path| - 1];
      InsideLives(s, claims, id, path[..|path| - 1], p);
      ChildLives(s.ref, s.body, s.holding, claims, [], p, x);
      var k :| 0 <= k < |Children(s.body[p])| && Children(s.body[p])[k] == x;
    }
  }

  /** What is inside a dead node has references, or is reached through nodes without any. */
  lemma {:induction false} InsideReached(s: Snapshot, claims: multiset<Id>, whole: seq<bool>, shape: seq<Node>, id: Id, path: seq<Id>, x: Id)
    requires CountsOk(s.ref, s.body, s.holding, claims, [], []) && WholeOk(s.body, whole, shape, s.holding) && s.body[TERMINAL].Nothing?
    requires SENTINEL < id < |s.ref| && whole[id] && s.ref[id] == 0 && Descends(s.body, id, path, x)
    ensures x < |s.ref| && x != SENTINEL && whole[x] && (s.ref[x] > 0 || Reached(s, id, x))
    decreases |path|
  {
    if path == [] {
      ReachedFirst(s, id);
    } else {
      var p := path[|path| - 1];
      InsideReached(s, claims, whole, shape, id, path[..|path| - 1], p);
      assert p != TERMINAL && NodeWhole(s.body, whole, shape, p);
      var k :| 0 <= k < |Children(s.body[p])| && Children(s.body[p])[k] == x;
      if s.ref[x] == 0 {
        if s.ref[p] > 0 { ChildLives(s.ref, s.body, s.holding, claims, [], p, x); }
        ReachedNext(s, id, p, x);
      }
    }
  }

  // ----- Brought back, referenced, released

  /** The dead node `id` was brought back, got a reference, and lost it again: from s to t. */
  ghost predicate GivenBack(s: Snapshot, t: Snapshot, ext: multiset<Id>, lost: multiset<Id>, whole: seq<bool>, shape: seq<Node>, id: Id,
                            seen: seq<Id>, ref: seq<nat>, holding: seq<bool>)
  {
    && id < |s.ref| && s.ref[id] == 0 && t.body == s.body
    && Counting(s.ref, s.body, s.holding, whole, shape, ext + lost, [], [])
    && Revived(s, ref, holding, id, seen)
    && LetGo(ref[id := SatInc(ref[id])], holding, t.ref, t.holding) && t.ref[id] == 0
    && Counting(t.ref, t.body, t.holding, whole, shape, ext + (lost + LostAgain(s, seen)), [], [])
  }

  /** A claimed node has references. */
  lemma {:induction false} ClaimedHas(s: Snapshot, claims: multiset<Id>, m: Id)
    requires CountsOk(s.ref, s.body, s.holding, claims, [], []) && m < |s.ref|
    ensures s.ref[m] == 0 ==> claims[m] == 0 && EdgeClaims(s.body, s.holding, |s.body|, m) == 0
    ensures claims[m] > 0 || EdgeClaims(s.body, s.holding, |s.body|, m) > 0 ==> s.ref[m] > 0
    ensures s.ref[m] > 0 && s.ref[m] != MAXREF ==> claims[m] > 0 || EdgeClaims(s.body, s.holding, |s.body|, m) > 0
  {
    assert ExactAt(s.ref, s.body, s.holding, claims, [], m);
  }

  lemma {:induction false} EdgeFrom(body: seq<Body>, holding: seq<bool>, n: nat, m: Id) returns (p: Id)
    requires |body| == |holding| && n <= |body| && EdgeClaims(body, holding, n, m) > 0
    ensures p < n && holding[p] && m in Children(body[p])
  {
    if ClaimsFrom(body[n - 1], holding[n - 1], m) > 0 {
      p := n - 1;
      TimesIn(Children(body[p]), m);
    } else {
      p := EdgeFrom(body, holding, n - 1, m);
    }
  }

  lemma {:induction false} EdgeTo(body: seq<Body>, holding: seq<bool>, p: Id, m: Id)
    requires |body| == |holding| && p < |body| && holding[p] && m in Children(body[p])
    ensures EdgeClaims(body, holding, |body|, m) > 0
  {
    EdgesContain(body, holding, p, |body|, m);
    TimesIn(Children(body[p]), m);
  }

  function Highest(shape: seq<Node>): nat
  {
    if shape == [] then 0 else Taller(Highest(shape[..|shape| - 1]), Height(shape[|shape| - 1]))
  }

  lemma {:induction false} NotHigher(shape: seq<Node>, x: Id)
    requires x < |shape|
    ensures Height(shape[x]) <= Highest(shape)
  {
    if x < |shape| - 1 { NotHigher(shape[..|shape| - 1], x); }
  }

  /** Counts rose for nodes that were reached, and for no others that were dead. */
  lemma {:induction false} RisenReached(s: Snapshot, ref: seq<nat>, holding: seq<bool>, id: Id, seen: seq<Id>, p: Id)
    requires Revived(s, ref, holding, id, seen) && p < |ref| && s.ref[p] == 0 && ref[p] > 0
    ensures p in seen
  {
    CountedBy(s.body, seen, p);
    var q :| q in seen && q < |s.body| && p in Children(s.body[q]);
    ReachedNext(s, id, q, p);
  }

  /** A node with references keeps some. */
  lemma {:induction false} KeepsSome(s: Snapshot, t: Snapshot, ext: multiset<Id>, lost: multiset<Id>, whole: seq<bool>, shape: seq<Node>, id: Id,
                                     seen: seq<Id>, ref: seq<nat>, holding: seq<bool>, m: Id)
    requires GivenBack(s, t, ext, lost, whole, shape, id, seen, ref, holding) && m < |s.ref| && s.ref[m] > 0
    ensures t.ref[m] > 0
    decreases Highest(shape) - (if m < |shape| then Height(shape[m]) else 0)
  {
    if s.ref[m] != MAXREF {
      ClaimedHas(s, ext + lost, m);
      ClaimedHas(t, ext + (lost + LostAgain(s, seen)), m);
      if EdgeClaims(s.body, s.holding, |s.body|, m) > 0 {
        var p := EdgeFrom(s.body, s.holding, |s.body|, m);
        assert NodeWhole(s.body, whole, shape, p);
        ChildLower(s.body, whole, shape, p, m);
        NotHigher(shape, p);
        if t.holding[p] {
          EdgeTo(t.body, t.holding, p, m);
        } else {
          if s.ref[p] > 0 { KeepsSome(s, t, ext, lost, whole, shape, id, seen, ref, holding, p); }
          LetGoCounted(s, t, ref, holding, id, seen, p);
          LostChild(s, seen, p, m);
        }
      }
    }
  }

  /** A node without references that held its children and let go has counted them again. */
  lemma {:induction false} LetGoCounted(s: Snapshot, t: Snapshot, ref: seq<nat>, holding: seq<bool>, id: Id, seen: seq<Id>, p: Id)
    requires Revived(s, ref, holding, id, seen) && p < |s.ref| && s.holding[p] && s.ref[p] == 0
    requires LetGo(ref[id := SatInc(ref[id])], holding, t.ref, t.holding) && !t.holding[p]
    ensures p in Again(s, seen)
  {
    if p != id { RisenReached(s, ref, holding, id, seen, p); } else { ReachedFirst(s, id); }
    AgainIn(s, seen, p);
  }

  lemma {:induction false} LostChild(s: Snapshot, seen: seq<Id>, p: Id, m: Id)
    requires InBody(|s.body|, seen) && p in Again(s, seen) && p < |s.body| && m in Children(s.body[p])
    ensures LostAgain(s, seen)[m] > 0
  {
    AgainInBody(s, seen);
    BagAllHas(s.body, Again(s, seen), p);
    BagTimes(Children(s.body[p]));
    TimesIn(Children(s.body[p]), m);
    assert Bag(Children(s.body[p]))[m] > 0;
  }

  lemma {:induction false} LostFrom(body: seq<Body>, again: seq<Id>, m: Id) returns (p: Id)
    requires InBody(|body|, again) && m in BagAll(body, again)
    ensures p in again && p < |body| && m in Children(body[p])
  {
    var front, last := again[..|again| - 1], again[|again| - 1];
    assert again == front + [last];
    if m in Bag(Children(body[last])) {
      p := last;
      BagTimes(Children(body[last]));
      TimesIn(Children(body[last]), m);
    } else {
      p := LostFrom(body, front, m);
    }
  }

  /** Without a node that is counted twice, and without a count that reaches the ceiling, a dead node is dead again. */
  lemma {:induction false} GainsNone(s: Snapshot, t: Snapshot, ext: multiset<Id>, lost: multiset<Id>, whole: seq<bool>, shape: seq<Node>, id: Id,
                                     seen: seq<Id>, ref: seq<nat>, holding: seq<bool>, m: Id)
    requires GivenBack(s, t, ext, lost, whole, shape, id, seen, ref, holding) && m < |s.ref| && s.ref[m] == 0
    requires (forall x: Id :: Times(seen, x) <= 1) && forall x :: 0 <= x < |t.ref| && s.ref[x] == 0 ==> t.ref[x] != MAXREF
    ensures t.ref[m] == 0
    decreases Highest(shape) - (if m < |shape| then Height(shape[m]) else 0)
  {
    ClaimedHas(s, ext + lost, m);
    ClaimedHas(t, ext + (lost + LostAgain(s, seen)), m);
    if t.ref[m] > 0 && LostAgain(s, seen)[m] > 0 {
      AgainInBody(s, seen);
      var q := LostFrom(s.body, Again(s, seen), m);
      AgainIn(s, seen, q);
      EdgeTo(s.body, s.holding, q, m);
    }
    if t.ref[m] > 0 && EdgeClaims(t.body, t.holding, |t.body|, m) > 0 {
      var p := EdgeFrom(t.body, t.holding, |t.body|, m);
      if s.holding[p] { EdgeTo(s.body, s.holding, p, m); }
      NewHolder(s, t, ref, holding, id, seen, p);
      assert NodeWhole(t.body, whole, shape, p);
      ChildLower(t.body, whole, shape, p, m);
      NotHigher(shape, p);
      GainsNone(s, t, ext, lost, whole, shape, id, seen, ref, holding, p);
    }
  }

  /** Who has come to hold its children, and still does, had no references and has some now. */
  lemma {:induction false} NewHolder(s: Snapshot, t: Snapshot, ref: seq<nat>, holding: seq<bool>, id: Id, seen: seq<Id>, p: Id)
    requires Revived(s, ref, holding, id, seen) && p < |s.ref| && !s.holding[p] && s.ref[id] == 0
    requires LetGo(ref[id := SatInc(ref[id])], holding, t.ref, t.holding) && t.holding[p] && t.ref[id] == 0
    ensures s.ref[p] == 0 && t.ref[p] > 0
  {
    assert p in seen && Reached(s, id, p);
    var path :| Leads(s, id, path, p);
    assert p == id || ref[p] > 0;
  }

  // ----- Counts that could reach the ceiling

  ghost function DeadFlags(ref: seq<nat>): (flags: seq<bool>)
    ensures |flags| == |ref| && forall x :: 0 <= x < |ref| ==> (flags[x] <==> ref[x] == 0)
  {
    seq(|ref|, x requires 0 <= x < |ref| => ref[x] == 0)
  }

  ghost function MemberFlags(n: nat, ids: seq<Id>): (flags: seq<bool>)
    ensures |flags| == n && forall x: Id :: x < n ==> (flags[x] <==> x in ids)
  {
    seq(n, x requires 0 <= x < n => x in ids)
  }

  /** Some dead node is a child of so many dead nodes, counted with multiplicity, that its count could reach the ceiling. */
  ghost predicate Crowded(s: Snapshot)
  {
    |s.ref| == |s.body| && exists m: Id :: m < |s.ref| && s.ref[m] == 0 && EdgeClaims(s.body, DeadFlags(s.ref), |s.body|, m) >= MAXREF
  }

  lemma {:induction false} EdgesMonotone(body: seq<Body>, a: seq<bool>, b: seq<bool>, n: nat, m: Id)
    requires |a| == |b| == |body| && n <= |body| && forall k :: 0 <= k < |body| && a[k] ==> b[k]
    ensures EdgeClaims(body, a, n, m) <= EdgeClaims(body, b, n, m)
  {
    if n > 0 { EdgesMonotone(body, a, b, n - 1, m); }
  }

  lemma {:induction false} NoEdges(body: seq<Body>, flags: seq<bool>, n: nat, m: Id)
    requires |flags| == |body| && n <= |body| && forall k :: 0 <= k < |body| ==> !flags[k]
    ensures EdgeClaims(body, flags, n, m) == 0
  {
    if n > 0 { NoEdges(body, flags, n - 1, m); }
  }

  /** Nodes that are counted once each count no more than their edges. */
  lemma {:induction false} GainedIsEdges(body: seq<Body>, seen: seq<Id>, m: Id)
    requires InBody(|body|, seen) && forall x: Id :: Times(seen, x) <= 1
    ensures Gained(body, seen, m) == EdgeClaims(body, MemberFlags(|body|, seen), |body|, m)
  {
    var flags := MemberFlags(|body|, seen);
    if seen == [] {
      NoEdges(body, flags, |body|, m);
    } else {
      var front, last := seen[..|seen| - 1], seen[|seen| - 1];
      assert seen == front + [last];
      TimesPush(front, last);
      TimesIn(front, last);
      var flags0 := MemberFlags(|body|, front);
      forall x: Id ensures Times(front, x) <= 1 { assert Times(seen, x) <= 1; }
      GainedIsEdges(body, front, m);
      EdgesChange(body, flags0, body, flags, last, |body|, m);
    }
  }

  lemma {:induction false} StaysUncrowded(s: Snapshot, t: Snapshot, ref: seq<nat>, holding: seq<bool>, id: Id, seen: seq<Id>, m: Id)
    requires Revived(s, ref, holding, id, seen) && !Crowded(s) && (forall x: Id :: Times(seen, x) <= 1) && s.ref[id] == 0
    requires LetGo(ref[id := SatInc(ref[id])], holding, t.ref, t.holding) && t.ref[id] == 0
    requires m < |s.ref| && s.ref[m] == 0
    ensures t.ref[m] != MAXREF
  {
    if m != id {
      var members, dead := MemberFlags(|s.body|, seen), DeadFlags(s.ref);
      forall k | 0 <= k < |s.body| && members[k] ensures dead[k] {
        var path :| Leads(s, id, path, k);
      }
      GainedIsEdges(s.body, seen, m);
      EdgesMonotone(s.body, members, dead, |s.body|, m);
      assert ref[m] == AtMost(s.ref[m] + Gained(s.body, seen, m));
    }
  }

  /** Brought back and released, the nodes with references are the same as before. */
  lemma {:induction false} SameAlive(s: Snapshot, t: Snapshot, ext: multiset<Id>, lost: multiset<Id>, whole: seq<bool>, shape: seq<Node>, id: Id,
                                     seen: seq<Id>, ref: seq<nat>, holding: seq<bool>)
    requires GivenBack(s, t, ext, lost, whole, shape, id, seen, ref, holding)
    ensures forall m :: 0 <= m < |s.ref| && s.ref[m] > 0 ==> t.ref[m] > 0
    ensures !PairReached(s, id) && !Crowded(s) ==> forall m :: 0 <= m < |s.ref| ==> (t.ref[m] > 0 <==> s.ref[m] > 0)
  {
    forall m | 0 <= m < |s.ref| && s.ref[m] > 0 ensures t.ref[m] > 0 {
      KeepsSome(s, t, ext, lost, whole, shape, id, seen, ref, holding, m);
    }
    if !PairReached(s, id) && !Crowded(s) {
      forall x: Id ensures Times(seen, x) <= 1 {
        TimesIn(seen, x);
        if x in seen && Paired(s.body, seen, x) { PairIsReached(s, ref, holding, id, seen, x); }
      }
      forall m | 0 <= m < |t.ref| && s.ref[m] == 0 ensures t.ref[m] != MAXREF {
        StaysUncrowded(s, t, ref, holding, id, seen, m);
      }
      forall m | 0 <= m < |s.ref| && s.ref[m] == 0 ensures t.ref[m] == 0 {
        GainsNone(s, t, ext, lost, whole, shape, id, seen, ref, holding, m);
      }
    }
  }

  // ----- The cached branch

  /** A reference taken and given back again: a node that had none is dead afterwards. */
  method TakeAndGive(k: Kernel, h: Handle) returns (ok: bool)
    requires k.Valid() && k.LiveHandle(h) && h.id != TERMINAL
    modifies k`ref, k`holding, k`ext
    ensures k.Valid() && k.ext == old(k.ext) && ok && h.id < |k.ref| == |old(k.ref)|
    ensures LetGo(old(k.ref)[h.id := SatInc(old(k.ref)[h.id])], old(k.holding), k.ref, k.holding)
    ensures if old(k.ref)[h.id] == 0 then k.ref[h.id] == 0
            else k.ref[h.id] > 0 && k.ref == old(k.ref)[h.id := k.ref[h.id]] && k.holding == old(k.holding)
  {
    k.AddRef(h);
    ok := k.RecDeref(h);
    assert old(k.ext) + multiset{h.id} - multiset{h.id} == old(k.ext);
  }

  ghost function Now(k: Kernel): Snapshot
    reads k, k.store
  {
    Snapshot(k.ref, k.store.body, k.holding)
  }

  /** A part of a node that is dead again is alive exactly if it has references. */
  lemma {:induction false} PartAlive(s: Snapshot, t: Snapshot, ext: multiset<Id>, lost: multiset<Id>, whole: seq<bool>, shape: seq<Node>, id: Id,
                                     seen: seq<Id>, ref: seq<nat>, holding: seq<bool>, path: seq<Id>, m: Id)
    requires GivenBack(s, t, ext, lost, whole, shape, id, seen, ref, holding) && s.body[TERMINAL].Nothing?
    requires SENTINEL < id && whole[id] && Descends(s.body, id, path, m)
    ensures m < |t.ref| && (t.ref[m] > 0 <==> m == TERMINAL || t.holding[m])
  {
    InsideReached(s, ext + lost, whole, shape, id, path, m);
    if t.ref[m] == 0 {
      if s.ref[m] > 0 { KeepsSome(s, t, ext, lost, whole, shape, id, seen, ref, holding, m); }
      assert m in seen && (m == id || ref[m] > 0);
    }
  }

  /**
   * The cached result is brought back if it was dead, referenced, and released.  What had references keeps some.
   * If the result had some, every part of it is alive.  If it had none, and no node that it reaches is counted
   * twice or could be counted up to the ceiling, a part of it is alive exactly if it had references before.
   */
  method ReturnCached(k: Kernel, h: Handle) returns (ok: bool)
    requires k.Valid() && SENTINEL < h.id < |k.whole| && k.whole[h.id]
    modifies k`ref, k`holding, k`ext, k`lost
    ensures k.Valid() && k.ext == old(k.ext) && ok && h.id < |k.ref| == |old(k.ref)|
    ensures forall m :: 0 <= m < |k.ref| && old(k.ref)[m] > 0 ==> k.ref[m] > 0
    ensures old(k.ref)[h.id] > 0 ==> forall m: Id :: Inside(k.store.body, h.id, m) ==> k.Live(m)
    ensures old(k.ref)[h.id] == 0 && !old(PairReached(Now(k), h.id)) && !old(Crowded(Now(k))) ==>
              forall m: Id :: Inside(k.store.body, h.id, m) ==> m < |k.ref| && (k.Live(m) <==> old(k.ref)[m] > 0)
    ensures old(k.ref)[h.id] == 0 ==> k.ref[h.id] == 0 && !k.Live(h.id)
  {
    ghost var s, lost0 := Now(k), k.lost;
    ghost var seen := k.Recover(h.id);
    ghost var ref, holding := k.ref, k.holding;
    ok := TakeAndGive(k, h);
    ghost var t := Now(k);
    if s.ref[h.id] > 0 {
      AllAlive(k, h.id);
    } else {
      Returned(k, s, t, lost0, h.id, seen, ref, holding);
    }
  }

  lemma {:induction false} AllAlive(k: Kernel, id: Id)
    requires k.Valid() && SENTINEL < id < |k.ref| && k.ref[id] > 0
    ensures forall m: Id :: Inside(k.store.body, id, m) ==> k.Live(m)
  {
    forall m: Id | Inside(k.store.body, id, m) ensures k.Live(m) {
      var path :| Descends(k.store.body, id, path, m);
      InsideLives(Now(k), k.ext + k.lost, id, path, m);
    }
  }

  lemma {:induction false} Returned(k: Kernel, s: Snapshot, t: Snapshot, lost0: multiset<Id>, id: Id, seen: seq<Id>, ref: seq<nat>, holding: seq<bool>)
    requires k.Valid() && t == Now(k) && GivenBack(s, t, k.ext, lost0, k.whole, k.shape, id, seen, ref, holding)
    requires SENTINEL < id && k.whole[id]
    ensures forall m :: 0 <= m < |s.ref| && s.ref[m] > 0 ==> t.ref[m] > 0
    ensures !PairReached(s, id) && !Crowded(s) ==>
              forall m: Id :: Inside(s.body, id, m) ==> m < |s.ref| && (k.Live(m) <==> s.ref[m] > 0)
    ensures !k.Live(id)
  {
    SameAlive(s, t, k.ext, lost0, k.whole, k.shape, id, seen, ref, holding);
    assert Descends(s.body, id, [], id);
    PartAlive(s, t, k.ext, lost0, k.whole, k.shape, id, seen, ref, holding, [], id);
    forall m: Id | Inside(s.body, id, m) ensures m < |s.ref| && (k.Live(m) <==> t.ref[m] > 0) {
      var path :| Descends(s.body, id, path, m);
      PartAlive(s, t, k.ext, lost0, k.whole, k.shape, id, seen, ref, holding, path, m);
    }
  }

  // ----- The input on which it goes wrong

  /** A new result is recorded while a caller refers to it, and then released. */
  method RecordAndRelease(k: Kernel, l: Handle, r: Handle, op: Op, h: Handle) returns (ok: bool)
    requires k.Valid() && k.LiveHandle(l) && k.LiveHandle(r) && k.LiveHandle(h) && h.id != TERMINAL && h.id < |k.ref| && k.ref[h.id] == 0
    requires Truthful(k.L, Entry(k.Denoted(l), k.Denoted(r), op, k.Denoted(h))) && l.id in k.ext && r.id in k.ext
    modifies k`ref, k`holding, k`ext, k`cache
    ensures k.Valid() && k.ext == old(k.ext) && ok && h.id < |k.ref| && k.ref[h.id] == 0
    ensures k.LiveHandle(l) && k.LiveHandle(r) && k.cache[k.SlotOf(l, r, op)] == Used(l, r, op, h)
  {
    k.CacheStore(l, r, op, h);
    ok := TakeAndGive(k, h);
    ClaimedLives(k.ref, k.store.body, k.holding, k.ext + k.lost, [], l.id);
    ClaimedLives(k.ref, k.store.body, k.holding, k.ext + k.lost, [], r.id);
  }

  /** The same operation again: the result is found in the cache, and returned dead. */
  method FetchAndReturn(k: Kernel, l: Handle, r: Handle, op: Op, h: Handle) returns (res: Handle, ok: bool)
    requires k.Valid() && k.LiveHandle(l) && k.LiveHandle(r) && k.cache[k.SlotOf(l, r, op)] == Used(l, r, op, h)
    requires SENTINEL < h.id < |k.ref| && k.ref[h.id] == 0
    modifies k`ref, k`holding, k`ext, k`lost
    ensures k.Valid() && k.ext == old(k.ext) && res == h && ok && h.id < |k.ref| && k.ref[h.id] == 0 && !k.Live(h.id)
  {
    var found;
    ghost var seen;
    found, res, seen := k.CacheLookup(l, r, op);
    ok := TakeAndGive(k, res);
  }

  lemma {:induction false} DeadReferenced(s: Snapshot, claims: multiset<Id>, id: Id)
    requires SENTINEL < id < |s.ref| && id < |s.holding| && !s.holding[id]
    ensures !CountsOk(s.ref[id := 1], s.body, s.holding, claims + multiset{id}, [], [])
  {
    assert s.ref[id := 1][id] > 0;
  }

  /** A new node that is the result of an operation on two diagrams that a caller refers to. */
  method MakeResult(k: Kernel, l: Handle, r: Handle, op: Op, b: Body) returns (h: Handle)
    requires k.Valid() && k.LiveHandle(l) && k.LiveHandle(r) && l.id in k.ext && r.id in k.ext
    requires !b.Nothing? && BodyOk(b) && k.KidsLive(b) && forall x :: 0 <= x < |k.store.body| ==> k.store.body[x] != b
    requires InRange(b, |k.shape|) && Truthful(k.L, Entry(k.Denoted(l), k.Denoted(r), op, Ref(false, NodeWith(b, k.shape))))
    modifies k`made, k`ref, k`cache, k`holding, k`whole, k`shape, k`lost, k.store
    ensures k.Valid() && k.LiveHandle(l) && k.LiveHandle(r) && k.LiveHandle(h) && h.id != TERMINAL
    ensures h.id < |k.ref| && k.ref[h.id] == 0 && h.id < |k.store.body| && k.store.body[h.id] == b
    ensures Truthful(k.L, Entry(k.Denoted(l), k.Denoted(r), op, k.Denoted(h)))
  {
    ClaimedLives(k.ref, k.store.body, k.holding, k.ext + k.lost, [], l.id);
    ClaimedLives(k.ref, k.store.body, k.holding, k.ext + k.lost, [], r.id);
    var id;
    ghost var seen;
    id, seen := k.MakeBody(b);
    h := Handle(false, id);
    ClaimedLives(k.ref, k.store.body, k.holding, k.ext + k.lost, [], l.id);
    ClaimedLives(k.ref, k.store.body, k.holding, k.ext + k.lost, [], r.id);
  }

  /** So the reference that the caller takes next leaves a referenced node that does not hold its children. */
  method ReturnedDead(k: Kernel, l: Handle, r: Handle, op: Op, b: Body) returns (res: Handle, ok: bool)
    requires k.Valid() && k.LiveHandle(l) && k.LiveHandle(r) && l.id in k.ext && r.id in k.ext
    requires !b.Nothing? && BodyOk(b) && k.KidsLive(b) && forall x :: 0 <= x < |k.store.body| ==> k.store.body[x] != b
    requires InRange(b, |k.shape|) && Truthful(k.L, Entry(k.Denoted(l), k.Denoted(r), op, Ref(false, NodeWith(b, k.shape))))
    modifies k`made, k`ref, k`cache, k`holding, k`whole, k`shape, k`ext, k`lost, k.store
    ensures k.Valid() && k.ext == old(k.ext) && res.id < |k.store.body| && k.store.body[res.id] == b && res.id < |k.ref|
    ensures !k.Live(res.id) && !CountsOk(k.ref[res.id := 1], k.store.body, k.holding, k.ext + k.lost + multiset{res.id}, [], [])
  {
    var h := MakeResult(k, l, r, op, b);
    ok := RecordAndRelease(k, l, r, op, h);
    res, ok := FetchAndReturn(k, l, r, op, h);
    DeadReferenced(Now(k), k.ext + k.lost, res.id);
  }
}
