/**
 * What callers can rely on: everything that can be reached from a node they hold a reference to.
 */
module Roots {
  import opened Diagrams
  import opened Nodes
  import opened References
  import opened Kernels

  /** A path of edges from a node that a caller refers to. */
  ghost predicate IsPath(body: seq<Body>, ext: multiset<Id>, path: seq<Id>)
  {
    && path != [] && path[0] in ext
    && forall k :: 0 <= k < |path| - 1 ==> path[k] < |body| && path[k + 1] in Children(body[path[k]])
  }

  ghost predicate LeadsHere(body: seq<Body>, ext: multiset<Id>, path: seq<Id>, id: Id)
  {
    IsPath(body, ext, path) && path[|path| - 1] == id
  }

  ghost predicate Rooted(body: seq<Body>, ext: multiset<Id>, id: Id)
  {
    id == TERMINAL || exists path :: LeadsHere(body, ext, path, id)
  }

  lemma {:induction false} PathPrefix(body: seq<Body>, ext: multiset<Id>, path: seq<Id>, n: nat)
    requires IsPath(body, ext, path) && 0 < n <= |path|
    ensures LeadsHere(body, ext, path[..n], path[n - 1])
  {
  }

  /** Every node on a path from a referenced node has references and holds its children. */
  lemma {:induction false} PathLives(ref: seq<nat>, body: seq<Body>, holding: seq<bool>, ext: multiset<Id>, claims: multiset<Id>, pend: seq<Id>, path: seq<Id>,
                                     n: nat)
    requires CountsOk(ref, body, holding, claims, pend, []) && ext <= claims && body[TERMINAL].Nothing? && IsPath(body, ext, path) && n < |path|
    ensures path[n] < |ref| && ref[path[n]] > 0 && path[n] != SENTINEL && (path[n] == TERMINAL || holding[path[n]])
  {
    if n == 0 {
      ClaimedLives(ref, body, holding, claims, pend, path[0]);
    } else {
      PathLives(ref, body, holding, ext, claims, pend, path, n - 1);
      var p, c := path[n - 1], path[n];
      assert c in Children(body[p]);
      ChildLives(ref, body, holding, claims, pend, p, c);
      var k :| 0 <= k < |Children(body[p])| && Children(body[p])[k] == c;
    }
  }

  // ----- What stays over time

  /** What there is to see of a kernel for a caller. */
  datatype View = View(body: seq<Body>, shape: seq<Node>, ext: multiset<Id>)

  ghost function ViewOf(k: Kernel): View
    reads k, k.store
  {
    View(k.store.body, k.shape, k.ext)
  }

  /** A node that was within reach has the same contents and stands for the same diagram. */
  ghost predicate SameNodeIn(a: View, b: View, id: Id)
  {
    && id < |a.body| && id < |b.body| && b.body[id] == a.body[id]
    && id < |a.shape| && id < |b.shape| && b.shape[id] == a.shape[id]
  }

  /** Everything within reach is as before. */
  ghost predicate Follows(a: View, b: View)
  {
    forall id :: Rooted(a.body, a.ext, id) ==> SameNodeIn(a, b, id)
  }

  /** What was within reach still is, as long as no reference has been given back. */
  lemma {:induction false} StillRooted(a: View, b: View, id: Id)
    requires Follows(a, b) && a.ext <= b.ext && Rooted(a.body, a.ext, id)
    ensures Rooted(b.body, b.ext, id)
  {
    if id != TERMINAL {
      var path :| LeadsHere(a.body, a.ext, path, id);
      forall k | 0 <= k < |path| - 1 ensures path[k] < |b.body| && path[k + 1] in Children(b.body[path[k]]) {
        PathPrefix(a.body, a.ext, path, k + 1);
        assert Rooted(a.body, a.ext, path[k]);
        assert SameNodeIn(a, b, path[k]);
      }
      assert LeadsHere(b.body, b.ext, path, id);
    }
  }

  lemma {:induction false} FollowsOn(a: View, b: View, c: View)
    requires Follows(a, b) && a.ext <= b.ext && Follows(b, c)
    ensures Follows(a, c)
  {
    forall id | Rooted(a.body, a.ext, id) ensures SameNodeIn(a, c, id) {
      assert SameNodeIn(a, b, id);
      StillRooted(a, b, id);
      assert SameNodeIn(b, c, id);
    }
  }

  /** Nodes within reach have references; so whatever keeps nodes with references keeps them. */
  lemma {:induction false} RootedLives(k: Kernel, id: Id)
    requires k.Valid() && Rooted(k.store.body, k.ext, id)
    ensures id < |k.ref| && k.ref[id] > 0 && id != SENTINEL && k.Live(id)
  {
    if id != TERMINAL {
      var path :| LeadsHere(k.store.body, k.ext, path, id);
      PathLives(k.ref, k.store.body, k.holding, k.ext, k.ext + k.lost, [], path, |path| - 1);
    }
  }

  /** Whatever keeps nodes with references keeps everything within reach. */
  lemma {:induction false} KeepsFollows(ref: seq<nat>, holding: seq<bool>, lost: multiset<Id>, a: View, b: View)
    requires CountsOk(ref, a.body, holding, a.ext + lost, [], []) && a.body[TERMINAL].Nothing?
    requires forall id :: 0 <= id < |ref| && ref[id] > 0 ==> SameNodeIn(a, b, id)
    ensures Follows(a, b)
  {
    forall id | Rooted(a.body, a.ext, id) ensures SameNodeIn(a, b, id) {
      if id != TERMINAL {
        var path :| LeadsHere(a.body, a.ext, path, id);
        PathLives(ref, a.body, holding, a.ext, a.ext + lost, [], path, |path| - 1);
      }
    }
  }

  /** A garbage collection leaves everything within reach of a caller as it is. */
  method CollectGarbage(k: Kernel, m: nat, due: set<nat>)
    requires k.Valid()
    modifies k`cache, k`holding, k`whole, k`lost, k.store
    ensures k.Valid() && k.ext == old(k.ext)
    ensures Follows(old(ViewOf(k)), ViewOf(k))
  {
    ghost var ref, holding, lost, a := k.ref, k.holding, k.lost, ViewOf(k);
    k.Collect(m, due, []);
    KeepsFollows(ref, holding, lost, a, ViewOf(k));
  }

  /** An edge leads from a node within reach to another one. */
  lemma {:induction false} ChildRooted(body: seq<Body>, ext: multiset<Id>, id: Id, c: Id)
    requires Rooted(body, ext, id) && id < |body| && c in Children(body[id]) && body[TERMINAL].Nothing?
    ensures Rooted(body, ext, c)
  {
    var path :| LeadsHere(body, ext, path, id);
    assert LeadsHere(body, ext, path + [c], c);
  }

  lemma {:induction false} HeldRooted(body: seq<Body>, ext: multiset<Id>, id: Id)
    requires id in ext
    ensures Rooted(body, ext, id)
  {
    assert LeadsHere(body, ext, [id], id);
  }
}
