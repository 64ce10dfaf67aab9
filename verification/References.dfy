/**
 * Saturating reference counts and what they promise.
 *
 * A node holds its children when its creation, or its last return from the dead, has counted them
 * and no release has taken that back.  Claims on a node are the references of callers and one for
 * every edge from a node that holds its children.
 */
module References {
  import opened Nodes

  const MAXREF: nat := 0x3FF

  function SatInc(r: nat): nat { if r != MAXREF then r + 1 else r }

  function SatDec(r: nat): nat
    requires r > 0
  {
    if r != MAXREF then r - 1 else r
  }

  function AtMost(n: nat): nat { if n < MAXREF then n else MAXREF }

  // ----- Claims

  /** How often a node is on a list. */
  ghost function Times(ids: seq<Id>, id: Id): nat
  {
    if ids == [] then 0 else Times(ids[..|ids| - 1], id) + (if ids[|ids| - 1] == id then 1 else 0)
  }

  lemma {:induction false} TimesSum(a: seq<Id>, b: seq<Id>, id: Id)
    ensures Times(a + b, id) == Times(a, id) + Times(b, id)
  {
    if b == [] {
      assert a + b == a;
    } else {
      assert (a + b)[..|a + b| - 1] == a + b[..|b| - 1];
      TimesSum(a, b[..|b| - 1], id);
    }
  }

  lemma {:induction false} TimesPush(rest: seq<Id>, x: Id)
    ensures forall id :: Times(rest + [x], id) == Times(rest, id) + (if id == x then 1 else 0)
  {
    assert (rest + [x])[..|rest|] == rest;
  }

  lemma {:induction false} OnlyEntry(id: Id, rest: seq<Id>, node: Id)
    ensures rest + [node] == [id] <==> rest == [] && node == id
    ensures rest + [node] != []
  {
    if rest + [node] == [id] { assert (rest + [node])[|rest|] == node; }
  }

  /** A list as a multiset. */
  ghost function Bag(ids: seq<Id>): multiset<Id>
  {
    if ids == [] then multiset{} else Bag(ids[..|ids| - 1]) + multiset{ids[|ids| - 1]}
  }

  lemma {:induction false} BagTimes(ids: seq<Id>)
    ensures forall id: Id :: Bag(ids)[id] == Times(ids, id)
  {
    if ids != [] { BagTimes(ids[..|ids| - 1]); }
  }

  lemma {:induction false} TimesIn(ids: seq<Id>, id: Id)
    ensures id in ids <==> Times(ids, id) > 0
  {
    if ids != [] {
      TimesIn(ids[..|ids| - 1], id);
      assert ids == ids[..|ids| - 1] + [ids[|ids| - 1]];
    }
  }

  /** How often a node is a child of this one, if this one holds its children. */
  ghost function ClaimsFrom(b: Body, holds: bool, id: Id): nat
  {
    if holds then Times(Children(b), id) else 0
  }

  /** The claims on a node from the first n nodes. */
  ghost function EdgeClaims(body: seq<Body>, holding: seq<bool>, n: nat, id: Id): nat
    requires |body| == |holding| && n <= |body|
  {
    if n == 0 then 0 else EdgeClaims(body, holding, n - 1, id) + ClaimsFrom(body[n - 1], holding[n - 1], id)
  }

  /** What changes at one node changes the claims by the edges of that node. */
  lemma {:induction false} EdgesChange(body: seq<Body>, holding: seq<bool>, body': seq<Body>, holding': seq<bool>, p: Id, n: nat, id: Id)
    requires |body| == |holding| == |body'| == |holding'| && n <= |body| && p < |body|
    requires forall k :: 0 <= k < |body| && k != p ==> body'[k] == body[k] && holding'[k] == holding[k]
    ensures EdgeClaims(body', holding', n, id) - EdgeClaims(body, holding, n, id)
         == if p < n then ClaimsFrom(body'[p], holding'[p], id) - ClaimsFrom(body[p], holding[p], id) else 0
  {
    if n > 0 { EdgesChange(body, holding, body', holding', p, n - 1, id); }
  }

  lemma {:induction false} EdgesContain(body: seq<Body>, holding: seq<bool>, p: Id, n: nat, id: Id)
    requires |body| == |holding| && p < n <= |body| && holding[p]
    ensures Times(Children(body[p]), id) <= EdgeClaims(body, holding, n, id)
  {
    if p < n - 1 { EdgesContain(body, holding, p, n - 1, id); }
  }

  /** The claims of nodes that are given back while they hold their children. */
  ghost function LostEdges(body: seq<Body>, holding: seq<bool>, body': seq<Body>, n: nat): multiset<Id>
    requires |body| == |holding| == |body'| && n <= |body|
  {
    if n == 0 then multiset{}
    else LostEdges(body, holding, body', n - 1) + (if holding[n - 1] && body'[n - 1].Nothing? then Bag(Children(body[n - 1])) else multiset{})
  }

  /** The claims that such nodes made are made by no one afterwards. */
  lemma {:induction false} EdgesLost(body: seq<Body>, holding: seq<bool>, body': seq<Body>, holding': seq<bool>, n: nat, id: Id)
    requires |body| == |holding| == |body'| == |holding'| && n <= |body|
    requires forall k :: 0 <= k < |body| ==> holding'[k] == (holding[k] && !body'[k].Nothing?)
    requires forall k :: 0 <= k < |body| && !body'[k].Nothing? ==> body'[k] == body[k]
    ensures EdgeClaims(body, holding, n, id) == EdgeClaims(body', holding', n, id) + LostEdges(body, holding, body', n)[id]
  {
    if n > 0 {
      EdgesLost(body, holding, body', holding', n - 1, id);
      BagTimes(Children(body[n - 1]));
      var here := if holding[n - 1] && body'[n - 1].Nothing? then Bag(Children(body[n - 1])) else multiset{};
      assert LostEdges(body, holding, body', n)[id] == LostEdges(body, holding, body', n - 1)[id] + here[id];
      assert here[id] + ClaimsFrom(body'[n - 1], holding'[n - 1], id) == ClaimsFrom(body[n - 1], holding[n - 1], id);
    }
  }

  lemma {:induction false} LostInRange(body: seq<Body>, holding: seq<bool>, body': seq<Body>, n: nat)
    requires |body| == |holding| == |body'| && n <= |body| && HoldersOk(body, holding)
    ensures forall x :: x in LostEdges(body, holding, body', n) ==> x < |body| && x != SENTINEL
  {
    if n > 0 {
      LostInRange(body, holding, body', n - 1);
      var here := if holding[n - 1] && body'[n - 1].Nothing? then Bag(Children(body[n - 1])) else multiset{};
      if holding[n - 1] && body'[n - 1].Nothing? {
        ExcessInRange(body, holding, n - 1);
        assert here == Excess(body, holding, n - 1);
      }
      assert forall x :: x in here ==> x < |body| && x != SENTINEL;
      assert LostEdges(body, holding, body', n) == LostEdges(body, holding, body', n - 1) + here;
    }
  }

  /** New nodes that hold nothing claim nothing. */
  lemma {:induction false} EdgesGrown(body: seq<Body>, holding: seq<bool>, body': seq<Body>, holding': seq<bool>, n: nat, id: Id)
    requires |body| == |holding| && |body'| == |holding'| && |body| <= n <= |body'|
    requires forall k :: 0 <= k < |body| ==> body'[k] == body[k] && holding'[k] == holding[k]
    requires forall k :: |body| <= k < |body'| ==> !holding'[k]
    ensures EdgeClaims(body', holding', n, id) == EdgeClaims(body, holding, |body|, id)
  {
    if n > |body| {
      EdgesGrown(body, holding, body', holding', n - 1, id);
    } else {
      EdgesSame(body, holding, body', holding', n, id);
    }
  }

  lemma {:induction false} EdgesSame(body: seq<Body>, holding: seq<bool>, body': seq<Body>, holding': seq<bool>, n: nat, id: Id)
    requires |body| == |holding| && |body'| == |holding'| && n <= |body| <= |body'|
    requires forall k :: 0 <= k < n ==> body'[k] == body[k] && holding'[k] == holding[k]
    ensures EdgeClaims(body', holding', n, id) == EdgeClaims(body, holding, n, id)
  {
    if n > 0 { EdgesSame(body, holding, body', holding', n - 1, id); }
  }

  // ----- What the counts promise

  /** Every count that has not reached the ceiling is exactly the number of claims on its node. */
  ghost predicate Exact(ref: seq<nat>, body: seq<Body>, holding: seq<bool>, ext: multiset<Id>, pend: seq<Id>)
    requires |ref| == |body| == |holding|
  {
    forall id :: 0 <= id < |ref| ==> ExactAt(ref, body, holding, ext, pend, id)
  }

  ghost predicate ExactAt(ref: seq<nat>, body: seq<Body>, holding: seq<bool>, ext: multiset<Id>, pend: seq<Id>, id: Id)
    requires id < |ref| == |body| == |holding|
  {
    ref[id] == MAXREF || ref[id] == Claims(body, holding, ext, pend, id)
  }

  /** So no count is below the smaller of its ceiling and the claims. */
  lemma {:induction false} NeverTooLow(ref: seq<nat>, body: seq<Body>, holding: seq<bool>, ext: multiset<Id>, pend: seq<Id>, todo: seq<Id>, id: Id)
    requires CountsOk(ref, body, holding, ext, pend, todo) && id < |ref|
    ensures AtMost(Claims(body, holding, ext, pend, id)) <= ref[id] <= MAXREF
  {
    assert ExactAt(ref, body, holding, ext, pend, id);
  }

  /** Who claims a node: callers, claims in transit, and the edges that are held. */
  ghost function Claims(body: seq<Body>, holding: seq<bool>, ext: multiset<Id>, pend: seq<Id>, id: Id): nat
    requires |body| == |holding|
  {
    ext[id] + Times(pend, id) + EdgeClaims(body, holding, |body|, id)
  }

  ghost predicate CountsInRange(ref: seq<nat>)
  {
    |ref| > SENTINEL && ref[TERMINAL] == MAXREF && forall id :: 0 <= id < |ref| ==> ref[id] <= MAXREF
  }

  /** Only nodes hold children; their children exist. */
  ghost predicate HoldersOk(body: seq<Body>, holding: seq<bool>)
  {
    |holding| == |body| && forall id :: 0 <= id < |body| && holding[id] ==> SENTINEL < id && !body[id].Nothing? && InRange(body[id], |body|)
  }

  /** Every node with references holds its children, except those on a list of work still to do. */
  ghost predicate ReferencedHold(ref: seq<nat>, holding: seq<bool>, todo: seq<Id>)
  {
    |ref| == |holding| && forall id :: SENTINEL < id < |ref| && ref[id] > 0 ==> holding[id] || id in todo
  }

  ghost predicate ClaimsInRange(ext: multiset<Id>, pend: seq<Id>, n: nat)
  {
    && (forall id :: id in ext ==> id < n && id != SENTINEL)
    && IdsInRange(pend, n)
  }

  /** Callers claim what is in `ext`; `pend` are claims in transit; `todo` is what still has to count its children. */
  ghost predicate CountsOk(ref: seq<nat>, body: seq<Body>, holding: seq<bool>, ext: multiset<Id>, pend: seq<Id>, todo: seq<Id>)
  {
    && |ref| == |body| && CountsInRange(ref) && HoldersOk(body, holding) && ReferencedHold(ref, holding, todo)
    && ClaimsInRange(ext, pend, |body|) && Exact(ref, body, holding, ext, pend)
  }

  /** A claimed node has references and, if there is no work to do, holds its children. */
  lemma {:induction false} ClaimedLives(ref: seq<nat>, body: seq<Body>, holding: seq<bool>, ext: multiset<Id>, pend: seq<Id>, id: Id)
    requires CountsOk(ref, body, holding, ext, pend, []) && (id in ext || id in pend)
    ensures id < |ref| && ref[id] > 0 && (id == TERMINAL || holding[id])
  {
    TimesIn(pend, id);
    assert id < |body|;
    assert ExactAt(ref, body, holding, ext, pend, id);
  }

  /** The children of a node that holds them have references. */
  lemma {:induction false} ChildCounted(ref: seq<nat>, body: seq<Body>, holding: seq<bool>, ext: multiset<Id>, pend: seq<Id>, todo: seq<Id>, id: Id, c: Id)
    requires CountsOk(ref, body, holding, ext, pend, todo) && id < |body| && holding[id] && c in Children(body[id])
    ensures c < |ref| && ref[c] > 0
  {
    EdgesContain(body, holding, id, |body|, c);
    TimesIn(Children(body[id]), c);
    assert c < |body|;
    assert ExactAt(ref, body, holding, ext, pend, c);
  }

  /** So do the children of a node that holds them. */
  lemma {:induction false} ChildLives(ref: seq<nat>, body: seq<Body>, holding: seq<bool>, ext: multiset<Id>, pend: seq<Id>, id: Id, c: Id)
    requires CountsOk(ref, body, holding, ext, pend, []) && id < |body| && holding[id] && c in Children(body[id])
    ensures c < |ref| && ref[c] > 0 && (c == TERMINAL || holding[c])
  {
    ChildCounted(ref, body, holding, ext, pend, [], id, c);
  }

  // ----- Taking and giving back references

  lemma {:induction false} TakenOk(ref: seq<nat>, body: seq<Body>, holding: seq<bool>, ext: multiset<Id>, id: Id)
    requires CountsOk(ref, body, holding, ext, [], []) && id < |ref| && (id == TERMINAL || holding[id])
    ensures CountsOk(ref[id := SatInc(ref[id])], body, holding, ext + multiset{id}, [], [])
  {
    var ref', ext' := ref[id := SatInc(ref[id])], ext + multiset{id};
    forall x: Id | x < |ref| ensures ExactAt(ref', body, holding, ext', [], x) {
      assert ExactAt(ref, body, holding, ext, [], x);
    }
  }

  lemma {:induction false} GivenBackOk(ref: seq<nat>, body: seq<Body>, holding: seq<bool>, ext: multiset<Id>, id: Id)
    requires CountsOk(ref, body, holding, ext, [], []) && id in ext
    ensures id < |ref| && ref[id] > 0
    ensures CountsOk(ref[id := SatDec(ref[id])], body, holding, ext - multiset{id}, [], [])
  {
    ClaimedLives(ref, body, holding, ext, [], id);
    var ref', ext' := ref[id := SatDec(ref[id])], ext - multiset{id};
    forall x: Id | x < |ref| ensures ExactAt(ref', body, holding, ext', [], x) {
      assert ExactAt(ref, body, holding, ext, [], x);
    }
  }

  /** A claim of a caller becomes a release still to be made. */
  lemma {:induction false} ClaimPending(ref: seq<nat>, body: seq<Body>, holding: seq<bool>, ext: multiset<Id>, id: Id)
    requires CountsOk(ref, body, holding, ext, [], []) && id in ext
    ensures CountsOk(ref, body, holding, ext - multiset{id}, [id], [])
  {
    TimesPush([], id);
    assert [] + [id] == [id];
    forall x: Id | x < |ref| ensures ExactAt(ref, body, holding, ext - multiset{id}, [id], x) {
      assert ExactAt(ref, body, holding, ext, [], x);
    }
  }

  lemma {:induction false} ReleasedOk(ref: seq<nat>, body: seq<Body>, holding: seq<bool>, ext: multiset<Id>, rest: seq<Id>, id: Id)
    requires CountsOk(ref, body, holding, ext, rest + [id], [])
    ensures id < |ref| && ref[id] > 0
    ensures CountsOk(ref[id := SatDec(ref[id])], body, holding, ext, rest, [])
  {
    assert id in rest + [id];
    IdsInRangeSum(rest, [id], |body|);
    ClaimedLives(ref, body, holding, ext, rest + [id], id);
    TimesPush(rest, id);
    var ref' := ref[id := SatDec(ref[id])];
    forall x: Id | x < |ref| ensures ExactAt(ref', body, holding, ext, rest, x) {
      assert ExactAt(ref, body, holding, ext, rest + [id], x);
    }
  }

  /** When the last reference goes, the claims on the children become releases still to be made. */
  lemma {:induction false} LastReferenceOk(ref: seq<nat>, body: seq<Body>, holding: seq<bool>, ext: multiset<Id>, rest: seq<Id>, id: Id)
    requires CountsOk(ref, body, holding, ext, rest, []) && id < |ref| && ref[id] == 0 && SENTINEL < id && holding[id]
    ensures CountsOk(ref, body, holding[id := false], ext, rest + Children(body[id]), [])
  {
    LastReferenceExact(ref, body, holding, ext, rest, id);
    IdsInRangeSum(rest, Children(body[id]), |body|);
  }

  lemma {:induction false} LastReferenceExact(ref: seq<nat>, body: seq<Body>, holding: seq<bool>, ext: multiset<Id>, rest: seq<Id>, id: Id)
    requires |ref| == |body| == |holding| && Exact(ref, body, holding, ext, rest) && id < |ref| && holding[id]
    ensures Exact(ref, body, holding[id := false], ext, rest + Children(body[id]))
  {
    var holding', pend := holding[id := false], rest + Children(body[id]);
    forall x: Id | x < |ref| ensures ExactAt(ref, body, holding', ext, pend, x) {
      assert ExactAt(ref, body, holding, ext, rest, x);
      EdgesChange(body, holding, body, holding[id := false], id, |body|, x);
      TimesSum(rest, Children(body[id]), x);
    }
  }

  // ----- Counting all children of a node

  /** The counts after one more reference to every node of a list. */
  function Bumped(ref: seq<nat>, ids: seq<Id>): (r: seq<nat>)
    requires forall k :: 0 <= k < |ids| ==> ids[k] < |ref|
    ensures |r| == |ref|
  {
    if ids == [] then ref
    else
      var r := Bumped(ref, ids[..|ids| - 1]);
      r[ids[|ids| - 1] := SatInc(r[ids[|ids| - 1]])]
  }

  /** Every node of the list gains as many references as it has places in the list. */
  lemma {:induction false} BumpedCovers(ref: seq<nat>, ids: seq<Id>)
    requires forall k :: 0 <= k < |ids| ==> ids[k] < |ref|
    requires CountsInRange(ref)
    ensures CountsInRange(Bumped(ref, ids))
    ensures forall id :: 0 <= id < |ref| ==> Bumped(ref, ids)[id] == AtMost(ref[id] + Times(ids, id))
  {
    if ids != [] {
      var front, last := ids[..|ids| - 1], ids[|ids| - 1];
      assert ids == front + [last];
      BumpedCovers(ref, front);
    }
  }

  /** What is counted for good when a node that holds its children counts them again. */
  ghost function Excess(body: seq<Body>, holding: seq<bool>, id: Id): multiset<Id>
    requires id < |body| == |holding|
  {
    if holding[id] then Bag(Children(body[id])) else multiset{}
  }

  /** A node that counts its children holds them; if it did already, those counts are not claimed by anyone. */
  lemma {:induction false} HoldingOk(ref: seq<nat>, body: seq<Body>, holding: seq<bool>, ext: multiset<Id>, todo: seq<Id>, id: Id, todo': seq<Id>)
    requires CountsOk(ref, body, holding, ext, [], todo)
    requires SENTINEL < id < |body| && !body[id].Nothing? && InRange(body[id], |body|)
    requires forall x :: x in todo ==> x == id || x in todo'
    requires forall x :: x in Children(body[id]) && ref[x] == 0 ==> x in todo'
    ensures CountsOk(Bumped(ref, Children(body[id])), body, holding[id := true], ext + Excess(body, holding, id), [], todo')
  {
    var kids := Children(body[id]);
    BumpedCovers(ref, kids);
    forall x: Id | x < |ref| ensures x in kids <==> Times(kids, x) > 0 {
      TimesIn(kids, x);
    }
    HoldingExact(ref, body, holding, ext, id);
    ExcessInRange(body, holding, id);
  }

  lemma {:induction false} ExcessInRange(body: seq<Body>, holding: seq<bool>, id: Id)
    requires id < |body| == |holding| && InRange(body[id], |body|)
    ensures forall x :: x in Excess(body, holding, id) ==> x < |body| && x != SENTINEL
  {
    BagTimes(Children(body[id]));
    forall x | x in Excess(body, holding, id) ensures x < |body| && x != SENTINEL {
      TimesIn(Children(body[id]), x);
    }
  }

  lemma {:induction false} HoldingExact(ref: seq<nat>, body: seq<Body>, holding: seq<bool>, ext: multiset<Id>, id: Id)
    requires |ref| == |body| == |holding| && CountsInRange(ref) && Exact(ref, body, holding, ext, [])
    requires id < |body| && InRange(body[id], |body|)
    ensures Exact(Bumped(ref, Children(body[id])), body, holding[id := true], ext + Excess(body, holding, id), [])
  {
    var kids := Children(body[id]);
    BumpedCovers(ref, kids);
    BagTimes(kids);
    var ref', holding', ext' := Bumped(ref, kids), holding[id := true], ext + Excess(body, holding, id);
    forall x: Id | x < |ref| ensures ExactAt(ref', body, holding', ext', [], x) {
      assert ExactAt(ref, body, holding, ext, [], x);
      EdgesChange(body, holding, body, holding', id, |body|, x);
    }
  }

  /** References taken for the children of a node still to be made. */
  lemma {:induction false} KidsTaken(ref: seq<nat>, body: seq<Body>, holding: seq<bool>, ext: multiset<Id>, kids: seq<Id>)
    requires CountsOk(ref, body, holding, ext, [], [])
    requires forall k :: 0 <= k < |kids| ==> kids[k] < |ref| && (kids[k] == TERMINAL || holding[kids[k]])
    ensures CountsOk(Bumped(ref, kids), body, holding, ext, kids, [])
  {
    BumpedCovers(ref, kids);
    forall x: Id | x < |ref| ensures x in kids <==> Times(kids, x) > 0 {
      TimesIn(kids, x);
    }
    forall x: Id | x < |ref| ensures ExactAt(Bumped(ref, kids), body, holding, ext, kids, x) {
      assert ExactAt(ref, body, holding, ext, [], x);
    }
  }

  /** Once the node is there its edges take over the claims on the children. */
  lemma {:induction false} KidsHeld(ref: seq<nat>, body: seq<Body>, holding: seq<bool>, ext: multiset<Id>, id: Id, b: Body)
    requires CountsOk(ref, body, holding, ext, Children(b), []) && SENTINEL < id < |body| && body[id].Nothing?
    requires !b.Nothing? && InRange(b, |body|)
    ensures CountsOk(ref, body[id := b], holding[id := true], ext, [], [])
  {
    assert !holding[id];
    var body', holding' := body[id := b], holding[id := true];
    forall x: Id | x < |ref| ensures ExactAt(ref, body', holding', ext, [], x) {
      assert ExactAt(ref, body, holding, ext, Children(b), x);
      EdgesChange(body, holding, body[id := b], holding[id := true], id, |body|, x);
    }
  }

  /** What is counted for good by nodes that count their children again. */
  ghost function BagAll(body: seq<Body>, again: seq<Id>): multiset<Id>
    requires forall k :: 0 <= k < |again| ==> again[k] < |body|
  {
    if again == [] then multiset{} else BagAll(body, again[..|again| - 1]) + Bag(Children(body[again[|again| - 1]]))
  }

  lemma {:induction false} BagAllMore(body: seq<Body>, again: seq<Id>, id: Id)
    requires id < |body| && forall k :: 0 <= k < |again| ==> again[k] < |body|
    ensures BagAll(body, again + [id]) == BagAll(body, again) + Bag(Children(body[id]))
  {
    assert (again + [id])[..|again|] == again;
  }

  lemma {:induction false} BagAllHas(body: seq<Body>, again: seq<Id>, id: Id)
    requires (forall k :: 0 <= k < |again| ==> again[k] < |body|) && id in again && id < |body|
    ensures Bag(Children(body[id])) <= BagAll(body, again)
  {
    var front, last := again[..|again| - 1], again[|again| - 1];
    assert again == front + [last];
    if id != last { BagAllHas(body, front, id); }
  }

  // ----- Measures

  ghost function Zeros(ref: seq<nat>): nat
  {
    if ref == [] then 0 else Zeros(ref[..|ref| - 1]) + (if ref[|ref| - 1] == 0 then 1 else 0)
  }

  ghost function Holders(holding: seq<bool>): nat
  {
    if holding == [] then 0 else Holders(holding[..|holding| - 1]) + (if holding[|holding| - 1] then 1 else 0)
  }

  lemma {:induction false} ZerosChange(ref: seq<nat>, id: Id, r: nat)
    requires id < |ref|
    ensures Zeros(ref[id := r]) == Zeros(ref) - (if ref[id] == 0 then 1 else 0) + (if r == 0 then 1 else 0)
  {
    var n := |ref| - 1;
    if id < n {
      ZerosChange(ref[..n], id, r);
      assert ref[id := r][..n] == ref[..n][id := r];
    } else {
      assert ref[id := r][..n] == ref[..n];
    }
  }

  lemma {:induction false} HoldersChange(holding: seq<bool>, id: Id, h: bool)
    requires id < |holding|
    ensures Holders(holding[id := h]) == Holders(holding) - (if holding[id] then 1 else 0) + (if h then 1 else 0)
  {
    var n := |holding| - 1;
    if id < n {
      HoldersChange(holding[..n], id, h);
      assert holding[id := h][..n] == holding[..n][id := h];
    } else {
      assert holding[id := h][..n] == holding[..n];
    }
  }

  // ----- Counting the children of a node that comes back

  /** Children that had no references are pushed, for their own children to be counted too. */
  ghost predicate Pushed(ref: seq<nat>, ids: seq<Id>, found: seq<Id>)
  {
    && (forall x :: x in found ==> x in ids && x < |ref| && ref[x] == 0)
    && (forall x :: x in ids && x < |ref| && ref[x] == 0 ==> x in found)
  }

  /** Only the two children of a boolean node that are one node can be pushed twice. */
  ghost predicate PushedOnce(b: Body, found: seq<Id>)
  {
    forall x: Id {:trigger Times(found, x)} :: Times(found, x) <= 1 || (b.Bool? && Children(b) == [x, x])
  }

  /** The two children of a boolean node are looked at before either is counted, so one may be pushed twice. */
  method CountBool(ref0: seq<nat>, low: Id, high: Id) returns (ref: seq<nat>, found: seq<Id>)
    requires low < |ref0| && high < |ref0|
    ensures ref == Bumped(ref0, [low, high]) && Pushed(ref0, [low, high], found)
    ensures forall x: Id {:trigger Times(found, x)} :: Times(found, x) <= 1 || [low, high] == [x, x]
    ensures 2 * Zeros(ref) + |found| <= 2 * Zeros(ref0)
  {
    ref, found := ref0, [];
    if ref[low] == 0 {
      found := found + [low];
    }
    if ref[high] == 0 {
      found := found + [high];
    }
    PairTimes(low, high);
    ZerosChange(ref, low, SatInc(ref[low]));
    ref := ref[low := SatInc(ref[low])];
    ZerosChange(ref, high, SatInc(ref[high]));
    ref := ref[high := SatInc(ref[high])];
    BumpedPair(ref0, low, high);
  }

  lemma {:induction false} BumpedPair(ref: seq<nat>, low: Id, high: Id)
    requires low < |ref| && high < |ref|
    ensures var r := ref[low := SatInc(ref[low])];
            Bumped(ref, [low, high]) == r[high := SatInc(r[high])]
  {
    assert [low, high][..1] == [low] && [low][..0] == [];
    assert Bumped(ref, [low]) == ref[low := SatInc(ref[low])];
  }

  lemma {:induction false} PairTimes(low: Id, high: Id)
    ensures forall x: Id :: Times([], x) == 0 && Times([low], x) <= 1 && Times([high], x) <= 1
    ensures forall x: Id :: Times([low, high], x) <= 1 || low == high == x
    ensures [] + [low] == [low] && [] + [high] == [high] && [low] + [high] == [low, high]
  {
    assert [] + [low] == [low] && [] + [high] == [high] && [low] + [high] == [low, high];
    TimesPush([], low);
    TimesPush([], high);
    TimesPush([low], high);
  }

  /** The children of a clock node are looked at and counted one by one. */
  method CountClock(ref0: seq<nat>, ids: seq<Id>) returns (ref: seq<nat>, found: seq<Id>)
    requires forall k :: 0 <= k < |ids| ==> ids[k] < |ref0|
    ensures ref == Bumped(ref0, ids) && Pushed(ref0, ids, found) && forall x: Id :: Times(found, x) <= 1
    ensures 2 * Zeros(ref) + |found| <= 2 * Zeros(ref0)
  {
    ref, found := ref0, [];
    ghost var done: seq<Id> := [];
    var i := 0;
    while i < |ids|
      invariant i <= |ids| && done == ids[..i] && |ref| == |ref0|
      invariant ref == Bumped(ref0, done) && Pushed(ref0, done, found) && forall x: Id :: Times(found, x) <= 1
      invariant forall x :: 0 <= x < |ref| ==> (ref[x] == 0 <==> ref0[x] == 0 && x !in done)
      invariant 2 * Zeros(ref) + |found| <= 2 * Zeros(ref0)
    {
      var id := ids[i];
      ZerosChange(ref, id, SatInc(ref[id]));
      if ref[id] == 0 {
        TimesPush(found, id);
        TimesIn(found, id);
        found := found + [id];
      }
      ref := ref[id := SatInc(ref[id])];
      assert (done + [id])[..i] == done;
      done := done + [id];
      i := i + 1;
    }
    assert done == ids;
  }
}
