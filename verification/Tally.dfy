/**
 * When nothing is lost: every node is referred to, and every count is what callers and edges account for.
 */
module Tallies {
  import opened Nodes
  import opened References

  /** The counts, and what there is to account for them. */
  datatype Tally = Tally(ref: seq<nat>, body: seq<Body>, holding: seq<bool>, ext: multiset<Id>, lost: multiset<Id>)

  /** Counts are exact, lost references included. */
  ghost predicate Balanced(t: Tally)
  {
    CountsOk(t.ref, t.body, t.holding, t.ext + t.lost, [], [])
  }

  /** Every node has references, apart from those on a list. */
  ghost predicate NoneDead(ref: seq<nat>, body: seq<Body>, but: seq<Id>)
  {
    |ref| == |body| && forall x: Id :: x < |body| && !body[x].Nothing? && x !in but ==> ref[x] > 0
  }

  function Present(body: seq<Body>): (flags: seq<bool>)
    ensures |flags| == |body| && forall x :: 0 <= x < |body| ==> (flags[x] <==> !body[x].Nothing?)
  {
    seq(|body|, x requires 0 <= x < |body| => !body[x].Nothing?)
  }

  /** A count below the ceiling is exactly the references of callers and the edges of all nodes in the store. */
  ghost predicate Accounted(t: Tally, c: Id)
    requires c < |t.ref|
  {
    t.ref[c] == MAXREF || t.ref[c] == t.ext[c] + EdgeClaims(t.body, Present(t.body), |t.body|, c)
  }

  /** No node is dead, apart from those on the list, and no count is too high. */
  ghost predicate Settled(t: Tally, but: seq<Id>)
  {
    NoneDead(t.ref, t.body, but) && forall c: Id :: c < |t.ref| ==> Accounted(t, c)
  }

  /** From a settled state to a settled state, without a loss. */
  ghost predicate Lossless(a: Tally, but: seq<Id>, b: Tally, but': seq<Id>)
  {
    Settled(a, but) ==> Settled(b, but') && b.lost == a.lost
  }

  lemma {:induction false} LosslessOn(a: Tally, x: seq<Id>, b: Tally, y: seq<Id>, c: Tally, z: seq<Id>)
    requires Lossless(a, x, b, y) && Lossless(b, y, c, z)
    ensures Lossless(a, x, c, z)
  {
  }

  /** A longer list says less. */
  lemma {:induction false} Looser(t: Tally, but: seq<Id>, but': seq<Id>)
    requires forall x :: x in but ==> x in but'
    ensures Lossless(t, but, t, but')
  {
  }

  lemma {:induction false} EdgesFlags(body: seq<Body>, a: seq<bool>, b: seq<bool>, n: nat, c: Id)
    requires |a| == |b| == |body| && n <= |body| && forall k :: 0 <= k < |body| ==> a[k] == b[k]
    ensures EdgeClaims(body, a, n, c) == EdgeClaims(body, b, n, c)
  {
    if n > 0 { EdgesFlags(body, a, b, n - 1, c); }
  }

  /** If those that wait for a reference hold their children, so do all nodes. */
  lemma {:induction false} AllHold(t: Tally, but: seq<Id>)
    requires Balanced(t) && NoneDead(t.ref, t.body, but) && t.body[TERMINAL].Nothing? && t.body[SENTINEL].Nothing?
    requires forall x :: x in but && x < |t.body| && !t.body[x].Nothing? ==> t.holding[x]
    ensures forall c: Id :: c < |t.ref| ==> EdgeClaims(t.body, t.holding, |t.body|, c) == EdgeClaims(t.body, Present(t.body), |t.body|, c)
  {
    forall c: Id | c < |t.ref| ensures EdgeClaims(t.body, t.holding, |t.body|, c) == EdgeClaims(t.body, Present(t.body), |t.body|, c) {
      forall k | 0 <= k < |t.body| ensures t.holding[k] == Present(t.body)[k] {
        if !t.body[k].Nothing? && k !in but { assert t.ref[k] > 0; }
      }
      EdgesFlags(t.body, t.holding, Present(t.body), |t.body|, c);
    }
  }

  /** Those on the list hold their children. */
  ghost predicate Hold(t: Tally, but: seq<Id>)
  {
    |t.holding| == |t.body| && forall x: Id :: x in but && x < |t.body| && !t.body[x].Nothing? ==> t.holding[x]
  }

  ghost predicate BooksOk(t: Tally)
  {
    Balanced(t) && t.body[TERMINAL].Nothing? && t.body[SENTINEL].Nothing?
  }

  ghost predicate StayAtCeiling(ref: seq<nat>, ref': seq<nat>)
  {
    |ref| <= |ref'| && forall c: Id :: c < |ref| && ref[c] == MAXREF ==> ref'[c] == MAXREF
  }

  /** Where nothing dies, nothing is lost, and counts at the ceiling stay there, all counts stay accounted for. */
  lemma {:induction false} StaysSettled(a: Tally, but: seq<Id>, b: Tally, but': seq<Id>)
    requires BooksOk(a) && BooksOk(b) && Hold(a, but) && Hold(b, but') && StayAtCeiling(a.ref, b.ref)
    requires Settled(a, but) ==> NoneDead(b.ref, b.body, but') && b.lost == a.lost
    ensures Lossless(a, but, b, but')
  {
    if Settled(a, but) {
      AllHold(a, but);
      AllHold(b, but');
      forall c: Id | c < |b.ref| ensures Accounted(b, c) {
        assert ExactAt(b.ref, b.body, b.holding, b.ext + b.lost, [], c);
        if c < |a.ref| {
          assert Accounted(a, c) && ExactAt(a.ref, a.body, a.holding, a.ext + a.lost, [], c);
        } else {
          assert c !in a.ext + a.lost;
        }
      }
    }
  }

  /** A reference taken. */
  lemma {:induction false} TookSettled(a: Tally, b: Tally, id: Id)
    requires BooksOk(a) && BooksOk(b) && id < |a.ref| && Hold(a, [id])
    requires b == a.(ref := a.ref[id := SatInc(a.ref[id])], ext := a.ext + multiset{id})
    ensures Lossless(a, [id], b, [])
  {
    StaysSettled(a, [id], b, []);
  }

  /** A reference given back, to a node that has a parent or is on the list. */
  lemma {:induction false} GaveSettled(a: Tally, b: Tally, id: Id, p: Id)
    requires BooksOk(a) && BooksOk(b) && id < |a.ref| && a.ref[id] > 0 && Hold(a, [p])
    requires b == a.(ref := a.ref[id := SatDec(a.ref[id])], ext := a.ext - multiset{id})
    requires id == p || (p < |a.body| && a.holding[p] && id in Children(a.body[p]))
    ensures Lossless(a, [p], b, [p])
  {
    if id != p { ChildCounted(b.ref, b.body, b.holding, b.ext + b.lost, [], [], p, id); }
    StaysSettled(a, [p], b, [p]);
  }

  /** A reference given back that was not the last one. */
  lemma {:induction false} GaveOneOfMore(a: Tally, b: Tally, id: Id, but: seq<Id>)
    requires BooksOk(a) && BooksOk(b) && id < |a.ref| && a.ref[id] > 0 && SatDec(a.ref[id]) > 0 && Hold(a, but)
    requires b == a.(ref := a.ref[id := SatDec(a.ref[id])], ext := a.ext - multiset{id})
    ensures Lossless(a, but, b, but)
  {
    StaysSettled(a, but, b, but);
  }

  /** A node is found that has references, so nothing changes. */
  lemma {:induction false} FoundSettled(a: Tally, but: seq<Id>, b: Tally, id: Id)
    requires BooksOk(a) && BooksOk(b) && Hold(a, but) && Hold(b, [id]) && id < |a.body| && !a.body[id].Nothing? && id !in but
    requires b.body == a.body && b.ext == a.ext && |b.ref| == |a.ref|
    requires a.ref[id] > 0 ==> b.ref == a.ref && b.holding == a.holding && b.lost == a.lost
    requires forall c :: c in but && c < |a.body| && !a.body[c].Nothing? ==> c in Children(a.body[id])
    ensures Lossless(a, but, b, [id])
  {
    if Settled(a, but) {
      assert a.ref[id] > 0 && a.holding[id];
      forall x: Id | x < |b.body| && !b.body[x].Nothing? && x != id ensures b.ref[x] > 0 {
        if x in but { ChildCounted(a.ref, a.body, a.holding, a.ext + a.lost, [], [], id, x); }
      }
      StaysSettled(a, but, b, [id]);
    }
  }

  /** A node is made: its children have references afterwards, and all other counts are no lower than before. */
  lemma {:induction false} MadeSettled(a: Tally, b: Tally, id: Id, kids: seq<Id>)
    requires BooksOk(a) && BooksOk(b) && Hold(a, kids) && id < |b.body| && b.holding[id] && Children(b.body[id]) == kids
    requires (forall k :: 0 <= k < |kids| ==> kids[k] < |a.ref|) && Bumped(a.ref, kids) <= b.ref
    requires NoneDead(a.ref, a.body, kids) ==> NoneDead(b.ref, b.body, [id]) && b.lost == a.lost
    ensures Lossless(a, kids, b, [id])
  {
    BumpedCovers(a.ref, kids);
    forall x: Id | x < |a.ref| ensures a.ref[x] <= b.ref[x] <= MAXREF {
      assert b.ref[x] == Bumped(a.ref, kids)[x];
    }
    StaysSettled(a, kids, b, [id]);
  }

  /** A sweep of a store without dead nodes frees nothing. */
  lemma {:induction false} NothingFreed(body: seq<Body>, holding: seq<bool>, body': seq<Body>, n: nat)
    requires |body| == |holding| == |body'| && n <= |body| && body' == body && HoldersOk(body, holding)
    ensures LostEdges(body, holding, body', n) == multiset{}
  {
    if n > 0 { NothingFreed(body, holding, body', n - 1); }
  }
}
