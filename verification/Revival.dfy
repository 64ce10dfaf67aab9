/**
 * Bringing a dead node back: it and the dead nodes below it count their children again.
 */
module Revivals {
  import opened Diagrams
  import opened Nodes
  import opened References
  import opened Wholes

  lemma {:induction false} WorkNext(body: seq<Body>, holding: seq<bool>, whole: seq<bool>, shape: seq<Node>, rest: seq<Id>, node: Id)
    requires WholeOk(body, whole, shape, holding) && WorkOk(whole, rest + [node])
    ensures node < |body| && NodeWhole(body, whole, shape, node) && whole[node] && WorkOk(whole, rest)
  {
    assert node in rest + [node];
    forall x | x in rest ensures SENTINEL < x < |whole| && whole[x] {
      assert x in rest + [node];
    }
  }

  /** One node of the work list counts its children and is done; children that had no references join the list. */
  lemma {:induction false} CountedOk(ref: seq<nat>, body: seq<Body>, holding: seq<bool>, whole: seq<bool>, shape: seq<Node>, ext: multiset<Id>,
                                     rest: seq<Id>, node: Id, found: seq<Id>)
    requires Counting(ref, body, holding, whole, shape, ext, [], rest + [node])
    requires node < |body| && NodeWhole(body, whole, shape, node) && whole[node] && WorkOk(whole, rest)
    requires Pushed(ref, Children(body[node]), found)
    ensures Counting(Bumped(ref, Children(body[node])), body, holding[node := true], whole, shape, ext + Excess(body, holding, node), [], rest + found)
    ensures WorkOk(whole, rest + found) && NotFewer(ref, Bumped(ref, Children(body[node])))
  {
    HoldingOk(ref, body, holding, ext, rest + [node], node, rest + found);
    BumpedCovers(ref, Children(body[node]));
    FoundWork(ref, whole, Children(body[node]), rest, found);
  }

  lemma {:induction false} FoundWork(ref: seq<nat>, whole: seq<bool>, kids: seq<Id>, rest: seq<Id>, found: seq<Id>)
    requires |whole| == |ref| && CountsInRange(ref) && IdsInRange(kids, |ref|) && (forall c :: c in kids && c < |whole| ==> whole[c])
    requires WorkOk(whole, rest) && Pushed(ref, kids, found)
    ensures WorkOk(whole, rest + found)
  {
    forall x | x in rest + found ensures SENTINEL < x < |whole| && whole[x] {
      if x in found {
        var k :| 0 <= k < |kids| && kids[k] == x;
      }
    }
  }

  method CountChildren(ref: seq<nat>, b: Body) returns (ref': seq<nat>, found: seq<Id>)
    requires !b.Nothing? && InRange(b, |ref|)
    ensures ref' == Bumped(ref, Children(b)) && Pushed(ref, Children(b), found) && PushedOnce(b, found)
    ensures 2 * Zeros(ref') + |found| <= 2 * Zeros(ref)
  {
    match b
    case Bool(_, low, high) =>
      assert Children(b)[0] == low.id && Children(b)[1] == high.id;
      ref', found := CountBool(ref, low.id, high.id);
    case Clock(_, elems) =>
      ref', found := CountClock(ref, KidIds(elems));
  }

  lemma {:induction false} BagSize(ids: seq<Id>)
    ensures |Bag(ids)| == |ids|
  {
    if ids != [] { BagSize(ids[..|ids| - 1]); }
  }

  // ----- What there is to count again

  /** Counts, contents, and who holds its children, before a node is brought back. */
  datatype Snapshot = Snapshot(ref: seq<nat>, body: seq<Body>, holding: seq<bool>)

  /** From `id` down to x, through nodes without references; `path` are the nodes above x. */
  ghost predicate Leads(s: Snapshot, id: Id, path: seq<Id>, x: Id)
    decreases |path|
  {
    if path == [] then x == id
    else
      var p := path[|path| - 1];
      x < |s.ref| && s.ref[x] == 0 && p < |s.body| && x in Children(s.body[p]) && Leads(s, id, path[..|path| - 1], p)
  }

  ghost predicate Reached(s: Snapshot, id: Id, x: Id)
  {
    exists path :: Leads(s, id, path, x)
  }

  lemma {:induction false} ReachedFirst(s: Snapshot, id: Id)
    ensures Reached(s, id, id)
  {
    assert Leads(s, id, [], id);
  }

  lemma {:induction false} ReachedNext(s: Snapshot, id: Id, p: Id, c: Id)
    requires Reached(s, id, p) && p < |s.body| && c in Children(s.body[p]) && c < |s.ref| && s.ref[c] == 0
    ensures Reached(s, id, c)
  {
    var path :| Leads(s, id, path, p);
    assert (path + [p])[..|path|] == path;
    assert Leads(s, id, path + [p], c);
  }

  ghost predicate AllReached(s: Snapshot, id: Id, ids: seq<Id>)
  {
    forall x :: x in ids ==> Reached(s, id, x)
  }

  /** Nothing below `id` is missed: the dead children of what has been counted are counted or waiting. */
  ghost predicate Closed(s: Snapshot, id: Id, seen: seq<Id>, top: seq<Id>)
  {
    && (id in seen || id in top)
    && forall x, c :: x in seen && x < |s.body| && c in Children(s.body[x]) && c < |s.ref| && s.ref[c] == 0 ==> c in seen || c in top
  }

  lemma {:induction false} ReachedSeen(s: Snapshot, id: Id, seen: seq<Id>, path: seq<Id>, x: Id)
    requires Closed(s, id, seen, []) && Leads(s, id, path, x)
    ensures x in seen
    decreases |path|
  {
    if path != [] { ReachedSeen(s, id, seen, path[..|path| - 1], path[|path| - 1]); }
  }

  // ----- Who counts twice

  /** A node holds its children if it did before, or has counted them since. */
  ghost predicate Held(s: Snapshot, seen: seq<Id>, x: Id)
  {
    (x < |s.holding| && s.holding[x]) || x in seen
  }

  ghost predicate HoldsNow(s: Snapshot, holding: seq<bool>, seen: seq<Id>)
  {
    forall x: Id :: x < |holding| ==> (holding[x] <==> Held(s, seen, x))
  }

  /** Those of the nodes `seen` that counted their children although they held them. */
  ghost function Again(s: Snapshot, seen: seq<Id>): (again: seq<Id>)
    ensures forall x :: x in again ==> x in seen
  {
    if seen == [] then []
    else
      var front, last := seen[..|seen| - 1], seen[|seen| - 1];
      assert seen == front + [last];
      if Held(s, front, last) then Again(s, front) + [last] else Again(s, front)
  }

  /** They are the nodes that held them before, and those that were counted more than once. */
  lemma {:induction false} AgainIn(s: Snapshot, seen: seq<Id>, x: Id)
    ensures x in Again(s, seen) <==> x in seen && ((x < |s.holding| && s.holding[x]) || Times(seen, x) > 1)
  {
    if seen != [] {
      var front, last := seen[..|seen| - 1], seen[|seen| - 1];
      assert seen == front + [last];
      AgainIn(s, front, x);
      TimesIn(front, x);
    }
  }

  ghost predicate InBody(n: nat, ids: seq<Id>)
  {
    forall k :: 0 <= k < |ids| ==> ids[k] < n
  }

  lemma {:induction false} AgainInBody(s: Snapshot, seen: seq<Id>)
    requires InBody(|s.body|, seen)
    ensures InBody(|s.body|, Again(s, seen))
  {
    forall k | 0 <= k < |Again(s, seen)| ensures Again(s, seen)[k] < |s.body| {
      assert Again(s, seen)[k] in seen;
    }
  }

  /** The references that are counted for good when the nodes `seen` count their children. */
  ghost function LostAgain(s: Snapshot, seen: seq<Id>): multiset<Id>
    requires InBody(|s.body|, seen)
  {
    AgainInBody(s, seen);
    BagAll(s.body, Again(s, seen))
  }

  lemma {:induction false} LostNext(s: Snapshot, holding: seq<bool>, seen: seq<Id>, node: Id)
    requires InBody(|s.body|, seen) && node < |s.body| == |holding| && HoldsNow(s, holding, seen)
    ensures InBody(|s.body|, seen + [node])
    ensures LostAgain(s, seen + [node]) == LostAgain(s, seen) + Excess(s.body, holding, node)
  {
    assert (seen + [node])[..|seen|] == seen;
    AgainInBody(s, seen);
    if holding[node] { BagAllMore(s.body, Again(s, seen), node); }
  }

  /** A boolean node among `seen` has this node for both of its children. */
  ghost predicate Paired(body: seq<Body>, seen: seq<Id>, x: Id)
  {
    exists p :: p in seen && p < |body| && body[p].Bool? && Children(body[p]) == [x, x]
  }

  /** A node is counted once, unless it is both children of a boolean node; the first one is. */
  ghost predicate Once(body: seq<Body>, id: Id, seen: seq<Id>, top: seq<Id>)
  {
    && Times(seen, id) + Times(top, id) == 1
    && forall x: Id :: Times(seen, x) + Times(top, x) <= 1 || Paired(body, seen, x)
  }

  lemma {:induction false} OnceNext(body: seq<Body>, id: Id, seen: seq<Id>, rest: seq<Id>, node: Id, found: seq<Id>)
    requires Once(body, id, seen, rest + [node]) && node < |body| && PushedOnce(body[node], found) && id !in found
    requires forall x :: x in found ==> x !in seen && x !in rest + [node]
    ensures Once(body, id, seen + [node], rest + found)
  {
    TimesPush(rest, node);
    TimesPush(seen, node);
    TimesIn(found, id);
    TimesSum(rest, found, id);
    forall x: Id ensures Times(seen + [node], x) + Times(rest + found, x) <= 1 || Paired(body, seen + [node], x) {
      TimesSum(rest, found, x);
      TimesIn(found, x);
      TimesIn(seen, x);
      TimesIn(rest + [node], x);
      if Paired(body, seen, x) {
        var p :| p in seen && p < |body| && body[p].Bool? && Children(body[p]) == [x, x];
        assert p in seen + [node];
      } else if Times(found, x) > 1 {
        assert node in seen + [node];
      }
    }
  }

  // ----- The counts

  /** How often the nodes `seen` have x as a child. */
  ghost function Gained(body: seq<Body>, seen: seq<Id>, x: Id): nat
  {
    if seen == [] then 0
    else
      var last := seen[|seen| - 1];
      Gained(body, seen[..|seen| - 1], x) + if last < |body| then Times(Children(body[last]), x) else 0
  }

  lemma {:induction false} GainedNext(body: seq<Body>, seen: seq<Id>, node: Id, x: Id)
    requires node < |body|
    ensures Gained(body, seen + [node], x) == Gained(body, seen, x) + Times(Children(body[node]), x)
  {
    assert (seen + [node])[..|seen|] == seen;
  }

  /** Every count has grown by the references that the nodes `seen` have counted, up to the ceiling. */
  ghost predicate Recounted(s: Snapshot, ref: seq<nat>, seen: seq<Id>)
  {
    && |ref| == |s.ref| && InBody(|s.body|, seen)
    && forall x: Id :: x < |ref| ==> ref[x] == AtMost(s.ref[x] + Gained(s.body, seen, x))
  }

  lemma {:induction false} RecountedNext(s: Snapshot, ref: seq<nat>, seen: seq<Id>, node: Id)
    requires Recounted(s, ref, seen) && node < |s.body| && CountsInRange(ref) && InRange(s.body[node], |ref|)
    ensures Recounted(s, Bumped(ref, Children(s.body[node])), seen + [node])
  {
    var kids := Children(s.body[node]);
    BumpedCovers(ref, kids);
    forall x: Id | x < |ref| ensures Bumped(ref, kids)[x] == AtMost(s.ref[x] + Gained(s.body, seen + [node], x)) {
      GainedNext(s.body, seen, node, x);
    }
  }

  lemma {:induction false} NothingCounted(s: Snapshot)
    requires CountsInRange(s.ref)
    ensures Recounted(s, s.ref, [])
  {
  }

  /** What has been counted was counted by a parent. */
  lemma {:induction false} CountedBy(body: seq<Body>, seen: seq<Id>, x: Id)
    requires InBody(|body|, seen) && Gained(body, seen, x) > 0
    ensures exists p :: p in seen && p < |body| && x in Children(body[p])
  {
    var front, last := seen[..|seen| - 1], seen[|seen| - 1];
    assert seen == front + [last];
    if Times(Children(body[last]), x) > 0 {
      TimesIn(Children(body[last]), x);
      assert last in seen;
    } else {
      CountedBy(body, front, x);
      var p :| p in front && p < |body| && x in Children(body[p]);
      assert p in seen;
    }
  }

  /** And every child of what was seen has been counted. */
  lemma {:induction false} ChildrenCounted(body: seq<Body>, seen: seq<Id>, p: Id, x: Id)
    requires p in seen && p < |body| && x in Children(body[p])
    ensures Gained(body, seen, x) > 0
  {
    var front, last := seen[..|seen| - 1], seen[|seen| - 1];
    assert seen == front + [last];
    if p == last { TimesIn(Children(body[last]), x); } else { ChildrenCounted(body, front, p, x); }
  }

  /** Nodes that have come up have references, apart from the first. */
  ghost predicate Referenced(ref: seq<nat>, id: Id, ids: seq<Id>)
  {
    forall x :: x in ids ==> x == id || (x < |ref| && ref[x] > 0)
  }

  /** Work to do lies strictly below the node that comes back. */
  ghost predicate Below(shape: seq<Node>, id: Id, top: seq<Id>)
  {
    top == [id] || forall x :: x in top ==> id < |shape| && x < |shape| && Height(shape[x]) < Height(shape[id])
  }

  lemma {:induction false} StaysBelow(body: seq<Body>, whole: seq<bool>, shape: seq<Node>, ref: seq<nat>, id: Id, rest: seq<Id>, node: Id, found: seq<Id>)
    requires |whole| == |shape| == |body| && id < |body| && node < |body| && NodeWhole(body, whole, shape, node)
    requires Below(shape, id, rest + [node]) && Pushed(ref, Children(body[node]), found)
    ensures Below(shape, id, rest + found) && id !in rest && id !in Children(body[node]) && node !in Children(body[node])
    ensures node == id ==> rest == []
  {
    assert node in rest + [node];
    assert rest + [node] == [id] ==> rest == [] && node == id by { OnlyEntry(id, rest, node); }
    assert forall x :: x in rest ==> x in rest + [node];
    forall c | c in Children(body[node]) ensures c < |shape| && Height(shape[c]) < Height(shape[node]) {
      ChildLower(body, whole, shape, node, c);
    }
  }

  // ----- The walk

  /** The nodes `seen` have counted their children, the nodes `top` are still to do so. */
  ghost predicate Walking(s: Snapshot, ref: seq<nat>, holding: seq<bool>, shape: seq<Node>, id: Id, top: seq<Id>, seen: seq<Id>)
  {
    && id < |s.ref| == |s.body| == |s.holding| == |ref| == |holding| == |shape|
    && Recounted(s, ref, seen) && HoldsNow(s, holding, seen) && ref[id] == s.ref[id]
    && AllReached(s, id, seen) && AllReached(s, id, top) && Closed(s, id, seen, top)
    && Below(shape, id, top) && Once(s.body, id, seen, top) && Referenced(ref, id, seen) && Referenced(ref, id, top)
  }

  ghost predicate ReviveOk(s: Snapshot, ref: seq<nat>, holding: seq<bool>, whole: seq<bool>, shape: seq<Node>,
                           ext: multiset<Id>, id: Id, top: seq<Id>, seen: seq<Id>)
  {
    && Walking(s, ref, holding, shape, id, top, seen)
    && Counting(ref, s.body, holding, whole, shape, ext + LostAgain(s, seen), [], top) && WorkOk(whole, top)
  }

  /**
   * What bringing a node back comes to: exactly the nodes reached count their children, once each unless a
   * boolean node has one of them twice.
   */
  ghost predicate Revived(s: Snapshot, ref: seq<nat>, holding: seq<bool>, id: Id, seen: seq<Id>)
  {
    && id < |s.ref| == |s.body| == |s.holding| == |ref| == |holding|
    && (forall x :: x in seen <==> Reached(s, id, x))
    && (forall x: Id :: Times(seen, x) <= 1 || Paired(s.body, seen, x)) && Times(seen, id) == 1
    && Recounted(s, ref, seen) && HoldsNow(s, holding, seen) && ref[id] == s.ref[id] && Referenced(ref, id, seen)
  }

  /** Brings a node back: it and every dead node below it count their children again. */
  method ReviveAll(ref0: seq<nat>, body: seq<Body>, ghost holding0: seq<bool>, ghost whole: seq<bool>, ghost shape: seq<Node>,
                   ghost ext: multiset<Id>, ghost lost: multiset<Id>, id: Id)
    returns (ref: seq<nat>, ghost holding: seq<bool>, ghost seen: seq<Id>)
    requires Counting(ref0, body, holding0, whole, shape, ext + lost, [], []) && WorkOk(whole, [id])
    ensures Revived(Snapshot(ref0, body, holding0), ref, holding, id, seen)
    ensures id < |ref| == |ref0| && ref[id] == ref0[id]
    ensures forall x: Id :: x < |ref| ==> ref0[x] <= ref[x] && (x != id && Reached(Snapshot(ref0, body, holding0), id, x) ==> ref[x] > 0)
    ensures Counting(ref, body, holding, whole, shape, ext + (lost + LostAgain(Snapshot(ref0, body, holding0), seen)), [], [])
  {
    ghost var s := Snapshot(ref0, body, holding0);
    ref, holding, seen := ref0, holding0, [];
    var top := [id];
    ReviveStart(s, whole, shape, ext + lost, id);
    while top != []
      invariant ReviveOk(s, ref, holding, whole, shape, ext + lost, id, top, seen)
      decreases 2 * Zeros(ref) + |top|
    {
      var node := top[|top| - 1];
      NextToRevive(s, ref, holding, whole, shape, ext + lost, id, top, seen);
      top := top[..|top| - 1];
      var found;
      ref, holding, found := ReviveNode(s, ref, body, holding, whole, shape, ext + lost, id, top, node, seen);
      top, seen := top + found, seen + [node];
    }
    ReviveDone(s, ref, holding, whole, shape, ext + lost, id, seen);
    NoneFalls(s, ref, seen);
    assert ext + (lost + LostAgain(s, seen)) == ext + lost + LostAgain(s, seen);
  }

  method ReviveNode(ghost s: Snapshot, ref: seq<nat>, body: seq<Body>, ghost holding: seq<bool>, ghost whole: seq<bool>, ghost shape: seq<Node>,
                    ghost ext: multiset<Id>, ghost id: Id, ghost rest: seq<Id>, node: Id, ghost seen: seq<Id>)
    returns (ref': seq<nat>, ghost holding': seq<bool>, found: seq<Id>)
    requires body == s.body && ReviveOk(s, ref, holding, whole, shape, ext, id, rest + [node], seen)
    requires node < |body| && !body[node].Nothing? && InRange(body[node], |ref|)
    ensures ReviveOk(s, ref', holding', whole, shape, ext, id, rest + found, seen + [node])
    ensures 2 * Zeros(ref') + |found| <= 2 * Zeros(ref)
  {
    ref', found := CountChildren(ref, body[node]);
    ReviveOn(s, ref, holding, whole, shape, ext, id, rest, node, found, seen);
    holding' := holding[node := true];
  }

  lemma {:induction false} ReviveStart(s: Snapshot, whole: seq<bool>, shape: seq<Node>, ext: multiset<Id>, id: Id)
    requires Counting(s.ref, s.body, s.holding, whole, shape, ext, [], []) && WorkOk(whole, [id])
    ensures ReviveOk(s, s.ref, s.holding, whole, shape, ext, id, [id], [])
  {
    assert id in [id];
    TimesPush([], id);
    assert [] + [id] == [id];
    ReachedFirst(s, id);
    NothingCounted(s);
    assert ext + LostAgain(s, []) == ext;
    RelaxTodo(s.ref, s.body, s.holding, ext, [id]);
  }

  lemma {:induction false} NextToRevive(s: Snapshot, ref: seq<nat>, holding: seq<bool>, whole: seq<bool>, shape: seq<Node>,
                                        ext: multiset<Id>, id: Id, top: seq<Id>, seen: seq<Id>)
    requires ReviveOk(s, ref, holding, whole, shape, ext, id, top, seen) && top != []
    ensures top == top[..|top| - 1] + [top[|top| - 1]]
    ensures top[|top| - 1] < |s.body| && !s.body[top[|top| - 1]].Nothing? && InRange(s.body[top[|top| - 1]], |ref|)
  {
    var rest, node := top[..|top| - 1], top[|top| - 1];
    assert top == rest + [node];
    WorkNext(s.body, holding, whole, shape, rest, node);
  }

  lemma {:induction false} ReviveOn(s: Snapshot, ref: seq<nat>, holding: seq<bool>, whole: seq<bool>, shape: seq<Node>,
                                    ext: multiset<Id>, id: Id, rest: seq<Id>, node: Id, found: seq<Id>, seen: seq<Id>)
    requires ReviveOk(s, ref, holding, whole, shape, ext, id, rest + [node], seen)
    requires node < |s.body| && InRange(s.body[node], |ref|) && Pushed(ref, Children(s.body[node]), found) && PushedOnce(s.body[node], found)
    ensures ReviveOk(s, Bumped(ref, Children(s.body[node])), holding[node := true], whole, shape, ext, id, rest + found, seen + [node])
  {
    var claims := ext + LostAgain(s, seen);
    WorkNext(s.body, holding, whole, shape, rest, node);
    LostNext(s, holding, seen, node);
    assert claims + Excess(s.body, holding, node) == ext + LostAgain(s, seen + [node]);
    CountedOk(ref, s.body, holding, whole, shape, claims, rest, node, found);
    StaysBelow(s.body, whole, shape, ref, id, rest, node, found);
    WalkOn(s, ref, holding, shape, id, rest, node, found, seen);
  }

  /** One more node has counted its children; those that had no references wait in turn. */
  lemma {:induction false} WalkOn(s: Snapshot, ref: seq<nat>, holding: seq<bool>, shape: seq<Node>, id: Id, rest: seq<Id>, node: Id,
                                  found: seq<Id>, seen: seq<Id>)
    requires Walking(s, ref, holding, shape, id, rest + [node], seen) && CountsInRange(ref)
    requires node < |s.body| && InRange(s.body[node], |ref|) && Pushed(ref, Children(s.body[node]), found) && PushedOnce(s.body[node], found)
    requires Below(shape, id, rest + found) && id !in Children(s.body[node])
    ensures Walking(s, Bumped(ref, Children(s.body[node])), holding[node := true], shape, id, rest + found, seen + [node])
  {
    var kids := Children(s.body[node]);
    RecountedNext(s, ref, seen, node);
    BumpedCovers(ref, kids);
    TimesIn(kids, id);
    ReachNext(s, ref, id, rest, node, found, seen);
    CloseNext(s, ref, id, rest, node, found, seen);
    NewlyFound(ref, id, rest, node, kids, found, seen);
    OnceNext(s.body, id, seen, rest, node, found);
    ReferencedNext(ref, id, rest, node, kids, found, seen);
  }

  lemma {:induction false} NewlyFound(ref: seq<nat>, id: Id, rest: seq<Id>, node: Id, kids: seq<Id>, found: seq<Id>, seen: seq<Id>)
    requires Pushed(ref, kids, found) && id !in kids && Referenced(ref, id, seen) && Referenced(ref, id, rest + [node])
    ensures id !in found && forall x :: x in found ==> x !in seen && x !in rest + [node]
  {
  }

  lemma {:induction false} ReachNext(s: Snapshot, ref: seq<nat>, id: Id, rest: seq<Id>, node: Id, found: seq<Id>, seen: seq<Id>)
    requires Recounted(s, ref, seen) && AllReached(s, id, seen) && AllReached(s, id, rest + [node])
    requires node < |s.body| && Pushed(ref, Children(s.body[node]), found)
    ensures AllReached(s, id, seen + [node]) && AllReached(s, id, rest + found)
  {
    assert node in rest + [node];
    forall x | x in rest + found ensures Reached(s, id, x) {
      if x in rest { assert x in rest + [node]; } else { ReachedNext(s, id, node, x); }
    }
  }

  lemma {:induction false} CloseNext(s: Snapshot, ref: seq<nat>, id: Id, rest: seq<Id>, node: Id, found: seq<Id>, seen: seq<Id>)
    requires Recounted(s, ref, seen) && Closed(s, id, seen, rest + [node])
    requires node < |s.body| && Pushed(ref, Children(s.body[node]), found)
    ensures Closed(s, id, seen + [node], rest + found)
  {
    forall x, c | x in seen + [node] && x < |s.body| && c in Children(s.body[x]) && c < |s.ref| && s.ref[c] == 0
      ensures c in seen + [node] || c in rest + found
    {
      if x !in seen && ref[c] > 0 {
        CountedBy(s.body, seen, c);
        var p :| p in seen && p < |s.body| && c in Children(s.body[p]);
        assert c in seen || c in rest + [node];
      }
    }
  }

  lemma {:induction false} ReferencedNext(ref: seq<nat>, id: Id, rest: seq<Id>, node: Id, kids: seq<Id>, found: seq<Id>, seen: seq<Id>)
    requires Pushed(ref, kids, found) && (forall k :: 0 <= k < |kids| ==> kids[k] < |ref|) && CountsInRange(ref)
    requires Referenced(ref, id, seen) && Referenced(ref, id, rest + [node])
    ensures Referenced(Bumped(ref, kids), id, seen + [node]) && Referenced(Bumped(ref, kids), id, rest + found)
  {
    BumpedCovers(ref, kids);
    assert node in rest + [node];
    forall x | x in rest + found ensures x == id || (x < |ref| && Bumped(ref, kids)[x] > 0) {
      if x in rest { assert x in rest + [node]; } else { TimesIn(kids, x); }
    }
  }

  lemma {:induction false} ReviveDone(s: Snapshot, ref: seq<nat>, holding: seq<bool>, whole: seq<bool>, shape: seq<Node>,
                                      ext: multiset<Id>, id: Id, seen: seq<Id>)
    requires ReviveOk(s, ref, holding, whole, shape, ext, id, [], seen)
    ensures Revived(s, ref, holding, id, seen) && Counting(ref, s.body, holding, whole, shape, ext + LostAgain(s, seen), [], [])
  {
    forall x | Reached(s, id, x) ensures x in seen {
      var path :| Leads(s, id, path, x);
      ReachedSeen(s, id, seen, path, x);
    }
  }

  // ----- What is lost

  /** Every node reached that held its children counts them again; no other does unless it came up twice. */
  lemma {:induction false} AgainExact(s: Snapshot, ref: seq<nat>, holding: seq<bool>, id: Id, seen: seq<Id>, x: Id)
    requires Revived(s, ref, holding, id, seen)
    ensures Reached(s, id, x) && x < |s.holding| && s.holding[x] ==> x in Again(s, seen)
    ensures x in Again(s, seen) ==> Reached(s, id, x) && ((x < |s.holding| && s.holding[x]) || Paired(s.body, seen, x))
  {
    AgainIn(s, seen, x);
  }

  /** Nothing is lost exactly when no node counts again. */
  lemma {:induction false} NothingLost(s: Snapshot, seen: seq<Id>)
    requires InBody(|s.body|, seen) && forall x :: x in seen && x < |s.body| ==> Children(s.body[x]) != []
    ensures LostAgain(s, seen) == multiset{} <==> Again(s, seen) == []
  {
    var again := Again(s, seen);
    if again != [] {
      var x := again[|again| - 1];
      assert x in again && x in seen;
      BagSize(Children(s.body[x]));
      assert |Bag(Children(s.body[x]))| > 0;
    }
  }

  /** A node over children with references is the only one that counts. */
  lemma {:induction false} OnlyFirst(s: Snapshot, id: Id, path: seq<Id>, x: Id)
    requires id < |s.body| && forall c :: c in Children(s.body[id]) && c < |s.ref| ==> s.ref[c] > 0
    requires Leads(s, id, path, x)
    ensures path == [] && x == id
    decreases |path|
  {
    if path != [] { OnlyFirst(s, id, path[..|path| - 1], path[|path| - 1]); }
  }

  /**
   * A dead node whose children are alive comes back without a loss if and only if it had let go of them and
   * each of them has references: a living child without references holds its own children, and counts them again.
   */
  lemma {:induction false} NoLossExactly(s: Snapshot, ref: seq<nat>, holding: seq<bool>, id: Id, seen: seq<Id>)
    requires Revived(s, ref, holding, id, seen) && CountsInRange(s.ref)
    requires forall c :: c in Children(s.body[id]) ==> c < |s.ref| && (c == TERMINAL || s.holding[c])
    ensures Again(s, seen) == [] <==> !s.holding[id] && forall c :: c in Children(s.body[id]) ==> c < |s.ref| && s.ref[c] > 0
  {
    var again := Again(s, seen);
    ReachedFirst(s, id);
    AgainExact(s, ref, holding, id, seen, id);
    forall c | c in Children(s.body[id]) && s.ref[c] == 0 ensures c in again {
      ReachedNext(s, id, id, c);
      AgainExact(s, ref, holding, id, seen, c);
    }
    if again != [] && forall c :: c in Children(s.body[id]) ==> s.ref[c] > 0 {
      var x := again[0];
      assert x in again;
      AgainIn(s, seen, x);
      var path :| Leads(s, id, path, x);
      OnlyFirst(s, id, path, x);
      assert s.holding[id];
    }
  }

  /** The nodes counted hold their children, the first among them. */
  lemma {:induction false} Seen(s: Snapshot, ref: seq<nat>, holding: seq<bool>, id: Id, seen: seq<Id>)
    requires Revived(s, ref, holding, id, seen)
    ensures id in seen && holding[id] && NoMoreHold(holding, s.holding)
    ensures forall x :: x in seen ==> x < |holding| && holding[x]
  {
    ReachedFirst(s, id);
  }

  /** No count falls. */
  lemma {:induction false} NoneFalls(s: Snapshot, ref: seq<nat>, seen: seq<Id>)
    requires Recounted(s, ref, seen) && CountsInRange(s.ref)
    ensures NotFewer(s.ref, ref)
  {
    forall x: Id | x < |s.ref| ensures s.ref[x] <= ref[x] {
      assert ref[x] == AtMost(s.ref[x] + Gained(s.body, seen, x));
    }
  }

  /** A node reached holds its children. */
  ghost predicate HolderReached(s: Snapshot, id: Id)
  {
    exists x: Id :: x < |s.holding| && s.holding[x] && Reached(s, id, x)
  }

  /** A boolean node reached has one node, reached as well, for both of its children. */
  ghost predicate PairReached(s: Snapshot, id: Id)
  {
    exists p: Id, x: Id :: Reached(s, id, p) && Reached(s, id, x) && p < |s.body| && s.body[p].Bool? && Children(s.body[p]) == [x, x]
  }

  lemma {:induction false} PairIsReached(s: Snapshot, ref: seq<nat>, holding: seq<bool>, id: Id, seen: seq<Id>, x: Id)
    requires Revived(s, ref, holding, id, seen) && x in seen && Paired(s.body, seen, x)
    ensures PairReached(s, id)
  {
    var p :| p in seen && p < |s.body| && s.body[p].Bool? && Children(s.body[p]) == [x, x];
    assert Reached(s, id, p) && Reached(s, id, x);
  }

  lemma {:induction false} LossExactly(s: Snapshot, ref: seq<nat>, holding: seq<bool>, id: Id, seen: seq<Id>)
    requires Revived(s, ref, holding, id, seen) && forall x :: x in seen && x < |s.body| ==> Children(s.body[x]) != []
    ensures HolderReached(s, id) ==> LostAgain(s, seen) != multiset{}
    ensures LostAgain(s, seen) != multiset{} ==> HolderReached(s, id) || PairReached(s, id)
  {
    NothingLost(s, seen);
    if HolderReached(s, id) {
      var x: Id :| x < |s.holding| && s.holding[x] && Reached(s, id, x);
      AgainExact(s, ref, holding, id, seen, x);
    }
    if Again(s, seen) != [] {
      var x := Again(s, seen)[0];
      assert x in Again(s, seen) && x in seen;
      AgainExact(s, ref, holding, id, seen, x);
      if Paired(s.body, seen, x) { PairIsReached(s, ref, holding, id, seen, x); }
    }
  }

  lemma {:induction false} CountsAgain(s: Snapshot, ref: seq<nat>, holding: seq<bool>, id: Id, seen: seq<Id>)
    requires Revived(s, ref, holding, id, seen) && s.holding[id]
    ensures Bag(Children(s.body[id])) <= LostAgain(s, seen)
  {
    ReachedFirst(s, id);
    AgainExact(s, ref, holding, id, seen, id);
    AgainInBody(s, seen);
    BagAllHas(s.body, Again(s, seen), id);
  }
}
