/**
 * The forest of shortest paths that one consistency check grows, and its encoding as preorder
 * lists with a depth per vertex.
 *
 * The forest is described by the parent of every vertex and the set of its ancestors.  The lists
 * keep no parents; `pos` gives every vertex a place on the real line so that lists run upwards.
 */
module SpanningTree {
  import opened Links
  import opened Sequences

  datatype Parent = Root | Child(p: nat, bound: int)

  /** `path[x]` runs from the root of x's tree down to the parent of x. */
  datatype Tree = Tree(par: seq<Parent>, path: seq<seq<nat>>, pos: seq<real>)

  ghost predicate TreeOk(t: Tree, n: nat)
  {
    && |t.par| == |t.path| == |t.pos| == n
    && (forall x :: 0 <= x < n && t.par[x].Root? ==> t.path[x] == [])
    && (forall x :: 0 <= x < n && t.par[x].Child? ==> t.par[x].p < n && t.path[x] == t.path[t.par[x].p] + [t.par[x].p])
    && (forall x, k :: 0 <= x < n && 0 <= k < |t.path[x]| ==> t.path[x][k] < n && t.path[t.path[x][k]] == t.path[x][..k])
  }

  /** y is a proper ancestor of x. */
  ghost predicate Above(t: Tree, y: nat, x: nat)
  {
    && y < |t.path| && x < |t.path|
    && |t.path[y]| < |t.path[x]| && t.path[x][|t.path[y]|] == y
  }

  ghost predicate AtOrAbove(t: Tree, y: nat, x: nat)
  {
    y == x || Above(t, y, x)
  }

  /** The ancestors of a child are its parent and the parent's ancestors. */
  lemma {:induction false} AboveChild(t: Tree, n: nat, a: nat, x: nat)
    requires TreeOk(t, n) && x < n && a < n && t.par[x].Child?
    ensures |t.path[x]| == |t.path[t.par[x].p]| + 1
    ensures Above(t, a, x) <==> AtOrAbove(t, a, t.par[x].p)
  {
    var p := t.par[x].p;
    assert t.path[x] == t.path[p] + [p];
    if |t.path[a]| == |t.path[p]| && Above(t, a, x) { assert a == p; }
  }

  lemma {:induction false} AboveTransitive(t: Tree, n: nat, a: nat, b: nat, c: nat)
    requires TreeOk(t, n) && a < n && b < n && c < n && AtOrAbove(t, a, b) && AtOrAbove(t, b, c)
    ensures AtOrAbove(t, a, c)
  {
    if a != b && b != c { assert t.path[b] == t.path[c][..|t.path[b]|]; }
  }

  /** Two vertices on one path to the root lie above each other, the less deep one first. */
  lemma {:induction false} OnePath(t: Tree, n: nat, a: nat, b: nat, x: nat)
    requires TreeOk(t, n) && x < n && a < n && b < n && AtOrAbove(t, a, x) && AtOrAbove(t, b, x)
    ensures if |t.path[a]| < |t.path[b]| then Above(t, a, b) else AtOrAbove(t, b, a)
  {
    if a != x { assert t.path[a] == t.path[x][..|t.path[a]|]; }
    if b != x { assert t.path[b] == t.path[x][..|t.path[b]|]; }
  }

  /** Vertices strictly below root. */
  ghost function Below(t: Tree, root: nat): set<nat>
  {
    set x | 0 <= x < |t.path| && Above(t, root, x)
  }

  ghost function Singletons(n: nat): (t: Tree)
    ensures TreeOk(t, n)
  {
    Tree(seq(n, _ => Root), seq(n, _ => []), seq(n, _ => 0.0))
  }

  lemma {:induction false} PathNoRepeat(t: Tree, n: nat, x: nat)
    requires TreeOk(t, n) && x < n
    ensures NoRepeat(t.path[x] + [x])
    ensures forall k :: 0 <= k < |t.path[x]| ==> t.path[x][k] < n
  {
    var q := t.path[x] + [x];
    forall a, b | 0 <= a < b < |q| ensures q[a] != q[b] {
      assert |t.path[q[a]]| == a;
      assert |t.path[q[b]]| == b;
    }
  }

  /** No vertex is deeper than there are other vertices. */
  lemma {:induction false} DepthBound(t: Tree, n: nat, x: nat)
    requires TreeOk(t, n) && x < n
    ensures |t.path[x]| < n
  {
    PathNoRepeat(t, n, x);
    NoRepeatShort(t.path[x] + [x], n);
  }

  // ----- Cutting a subtree apart and hanging a vertex elsewhere

  /** Every vertex below root becomes a tree of its own. */
  ghost function Detached(t: Tree, root: nat): (r: Tree)
    requires |t.par| == |t.path| == |t.pos|
  {
    Tree(seq(|t.par|, x requires 0 <= x < |t.par| => if Above(t, root, x) then Root else t.par[x]),
         seq(|t.par|, x requires 0 <= x < |t.par| => if Above(t, root, x) then [] else t.path[x]),
         t.pos)
  }

  lemma {:induction false} DetachedOk(t: Tree, n: nat, root: nat)
    requires TreeOk(t, n) && root < n
    ensures TreeOk(Detached(t, root), n)
    ensures forall x :: 0 <= x < n ==> !Above(Detached(t, root), root, x)
    ensures Detached(t, root).path[root] == t.path[root] && Detached(t, root).par[root] == t.par[root]
  {
  }

  ghost function Attached(t: Tree, u: nat, v: nat, bound: int, place: real): Tree
    requires |t.par| == |t.path| == |t.pos| && u < |t.par| && v < |t.par|
  {
    Tree(t.par[v := Child(u, bound)], t.path[v := t.path[u] + [u]], t.pos[v := place])
  }

  lemma {:induction false} AttachedOk(t: Tree, n: nat, u: nat, v: nat, bound: int, place: real)
    requires TreeOk(t, n) && u < n && v < n && u != v
    requires forall x :: 0 <= x < n ==> !Above(t, v, x)
    ensures TreeOk(Attached(t, u, v, bound, place), n)
  {
    var r := Attached(t, u, v, bound, place);
    forall x | 0 <= x < n && r.par[x].Child?
      ensures r.par[x].p < n && r.path[x] == r.path[r.par[x].p] + [r.par[x].p]
    {
      if x != v { assert !Above(t, v, x); }
    }
    forall x, k | 0 <= x < n && 0 <= k < |r.path[x]|
      ensures r.path[x][k] < n && r.path[r.path[x][k]] == r.path[x][..k]
    {
      assert !Above(t, v, x) && !Above(t, v, u);
      if x == v {
        if k < |t.path[u]| {
          assert t.path[u][k] == r.path[v][k];
          assert r.path[v][..k] == t.path[u][..k];
        } else {
          assert r.path[v][..k] == t.path[u];
        }
      }
    }
  }

  // ----- Preorder lists

  /**
   * Following `next` from a vertex lists its tree in preorder: each vertex is a child of the one
   * before it or of an ancestor of that one.
   */
  ghost predicate Preorder(t: Tree, n: nat, links: seq<Link>, depth: seq<nat>)
    requires TreeOk(t, n)
  {
    && |links| == |depth| == n + 1
    && depth[n] == 0
    && (forall x :: 0 <= x < n ==> depth[x] == |t.path[x]|)
    && (forall x :: 0 <= x < n ==> NextOk(t, n, links, x))
    && (forall x :: 0 <= x < n ==> PrevOk(t, n, links, x))
  }

  ghost predicate NextOk(t: Tree, n: nat, links: seq<Link>, x: nat)
    requires TreeOk(t, n) && |links| == n + 1 && x < n
  {
    var y := links[x].next;
    y == n || (y < n && links[y].prev == x && Follows(t, n, x, y))
  }

  /** In preorder y may come right after x. */
  ghost predicate Follows(t: Tree, n: nat, x: nat, y: nat)
    requires TreeOk(t, n) && x < n && y < n
  {
    t.par[y].Child? && (t.par[y].p == x || Above(t, t.par[y].p, x)) && t.pos[x] < t.pos[y]
  }

  ghost predicate PrevOk(t: Tree, n: nat, links: seq<Link>, x: nat)
    requires TreeOk(t, n) && |links| == n + 1 && x < n
  {
    if t.par[x].Child? then links[x].prev < n && links[links[x].prev].next == x
    else links[x].prev == n
  }

  /** Outside the subtree cut apart, the order of vertices is as before. */
  lemma {:induction false} DetachedFollows(t: Tree, n: nat, root: nat, x: nat, y: nat)
    requires TreeOk(t, n) && root < n && x < n && y < n && Follows(t, n, x, y)
    requires !Above(t, root, x) && !Above(t, root, y)
    requires TreeOk(Detached(t, root), n)
    ensures Follows(Detached(t, root), n, x, y)
  {
    var p := t.par[y].p;
    if p != x { assert !Above(t, root, p); }
  }

  /** Hanging the childless v under u does not disturb the order of other vertices. */
  lemma {:induction false} AttachedFollows(t: Tree, n: nat, u: nat, v: nat, bound: int, place: real, x: nat, y: nat)
    requires TreeOk(t, n) && u < n && v < n && x < n && y < n && x != v && y != v && Follows(t, n, x, y)
    requires !Above(t, v, x)
    requires TreeOk(Attached(t, u, v, bound, place), n)
    ensures Follows(Attached(t, u, v, bound, place), n, x, y)
  {
    var p := t.par[y].p;
    if p != x { assert p != v; }
  }

  lemma {:induction false} AttachedFollowed(t: Tree, n: nat, u: nat, v: nat, bound: int, place: real, y: nat)
    requires TreeOk(t, n) && u < n && v < n && u != v && y < n && y != v && Follows(t, n, u, y)
    requires !Above(t, v, u) && place < t.pos[y]
    requires TreeOk(Attached(t, u, v, bound, place), n)
    ensures Follows(Attached(t, u, v, bound, place), n, v, y)
  {
    var p := t.par[y].p;
    if p != u { assert p != v; }
  }

  /** How far the disassembly of root's subtree has come: `visited` is a front part of its list. */
  ghost predicate Walked(t: Tree, n: nat, links: seq<Link>, root: nat, visited: set<nat>, last: nat)
    requires TreeOk(t, n) && |links| == n + 1 && root < n
  {
    && last < n && (last == root || last in visited)
    && (forall x :: x in visited ==> x < n && Above(t, root, x))
    && (forall x :: x in visited ==> links[x].prev == root || links[x].prev in visited)
    && (forall x :: x in visited && x != last ==> links[x].next in visited)
    && (root != last ==> links[root].next in visited)
    && (forall x :: x in visited ==> t.pos[x] <= t.pos[last])
    && t.pos[root] <= t.pos[last]
  }

  /** The next vertex deeper than root is again below root and was not seen before. */
  lemma {:induction false} WalkOn(t: Tree, n: nat, links: seq<Link>, depth: seq<nat>, root: nat, visited: set<nat>, last: nat)
    requires TreeOk(t, n) && Preorder(t, n, links, depth) && root < n
    requires Walked(t, n, links, root, visited, last)
    requires links[last].next < n && |t.path[links[last].next]| > |t.path[root]|
    ensures var c := links[last].next;
            Above(t, root, c) && c !in visited && c != root && Walked(t, n, links, root, visited + {c}, c)
  {
    var c := links[last].next;
    assert NextOk(t, n, links, last) && NextOk(t, n, links, c);
    AboveChild(t, n, root, c);
    OnePath(t, n, root, t.par[c].p, last);
  }

  /** What follows the walked part of a list has not been walked yet. */
  lemma {:induction false} NextUnvisited(t: Tree, n: nat, links: seq<Link>, root: nat, visited: set<nat>, last: nat)
    requires TreeOk(t, n) && |links| == n + 1 && root < n
    requires Walked(t, n, links, root, visited, last) && NextOk(t, n, links, last)
    ensures links[last].next !in visited
  {
  }

  /** One more vertex c of the subtree is cut off. */
  lemma {:induction false} CutOne(t: Tree, n: nat, links: seq<Link>, depth: seq<nat>, root: nat, visited: set<nat>, last: nat, c: nat)
    requires TreeOk(t, n) && Preorder(t, n, links, depth) && root < n
    requires Walked(t, n, links, root, visited, last)
    requires c == links[last].next <= n && ResetDepth(depth, visited)[c] > depth[root]
    requires c !in visited
    ensures c < n && c in Below(t, root) && Walked(t, n, links, root, visited + {c}, c)
    ensures Reset(links, n, visited)[c] == links[c] && links[c].next <= n && links[c].next !in visited + {c}
    ensures Reset(links, n, visited + {c}) == Reset(links, n, visited)[c := Link(n, n)]
    ensures ResetDepth(depth, visited + {c}) == ResetDepth(depth, visited)[c := 0]
  {
    WalkOn(t, n, links, depth, root, visited, last);
    assert NextOk(t, n, links, c);
    NextUnvisited(t, n, links, root, visited + {c}, c);
  }

  lemma {:induction false} FirstOk(t: Tree, n: nat, links: seq<Link>, depth: seq<nat>, root: nat)
    requires TreeOk(t, n) && Preorder(t, n, links, depth) && root < n
    ensures links[root].next <= n && Walked(t, n, links, root, {}, root)
    ensures Reset(links, n, {}) == links && ResetDepth(depth, {}) == depth
  {
    assert NextOk(t, n, links, root);
  }

  /** When the walk stops at a vertex no deeper than root, it has met everything below root. */
  lemma {:induction false} WalkDone(t: Tree, n: nat, links: seq<Link>, depth: seq<nat>, root: nat, visited: set<nat>, last: nat)
    requires TreeOk(t, n) && Preorder(t, n, links, depth) && root < n
    requires Walked(t, n, links, root, visited, last)
    requires links[last].next <= n && ResetDepth(depth, visited)[links[last].next] <= depth[root]
    ensures visited == Below(t, root)
  {
    assert NextOk(t, n, links, last);
    NextUnvisited(t, n, links, root, visited, last);
    forall x | x in Below(t, root) ensures x in visited {
      Met(t, n, links, depth, root, visited, last, x);
    }
  }

  ghost function Before(t: Tree, x: nat): set<nat>
    requires x < |t.pos|
  {
    set y | 0 <= y < |t.pos| && t.pos[y] < t.pos[x]
  }

  lemma {:induction false} Met(t: Tree, n: nat, links: seq<Link>, depth: seq<nat>, root: nat, visited: set<nat>, last: nat, x: nat)
    requires TreeOk(t, n) && Preorder(t, n, links, depth) && root < n
    requires Walked(t, n, links, root, visited, last)
    requires links[last].next < n ==> |t.path[links[last].next]| <= |t.path[root]|
    requires x < n && Above(t, root, x)
    ensures x in visited
    decreases Before(t, x)
  {
    PrecededBelow(t, n, links, root, x);
    var z := links[x].prev;
    assert z in Before(t, x) && z !in Before(t, z);
    if z != root { Met(t, n, links, depth, root, visited, last, z); }
  }

  /** Whatever precedes a vertex below root in its list is root or again below root. */
  lemma {:induction false} PrecededBelow(t: Tree, n: nat, links: seq<Link>, root: nat, x: nat)
    requires TreeOk(t, n) && |links| == n + 1 && root < n && x < n && Above(t, root, x)
    requires forall y :: 0 <= y < n ==> NextOk(t, n, links, y) && PrevOk(t, n, links, y)
    ensures t.par[x].Child?
    ensures var z := links[x].prev;
            z < n && links[z].next == x && t.pos[z] < t.pos[x] && (z == root || z in Below(t, root))
  {
    assert PrevOk(t, n, links, x);
    var z, p := links[x].prev, t.par[x].p;
    assert NextOk(t, n, links, z);
    AboveChild(t, n, root, x);
    AboveTransitive(t, n, root, p, z);
  }

  /** Links after the disassembly of root's subtree: visited cells are reset, root skips them. */
  ghost function Spliced(links: seq<Link>, n: nat, root: nat, visited: set<nat>, current: nat): seq<Link>
    requires |links| == n + 1 && root < n && current <= n
  {
    var reset := Reset(links, n, visited);
    var skipped := reset[root := reset[root].(next := current)];
    skipped[current := skipped[current].(prev := root)]
  }

  ghost function Reset(links: seq<Link>, n: nat, visited: set<nat>): (r: seq<Link>)
    ensures |r| == |links|
  {
    seq(|links|, x requires 0 <= x < |links| => if x in visited then Link(n, n) else links[x])
  }

  ghost function ResetDepth(depth: seq<nat>, visited: set<nat>): (r: seq<nat>)
    ensures |r| == |depth|
  {
    seq(|depth|, x requires 0 <= x < |depth| => if x in visited then 0 else depth[x])
  }

  lemma {:induction false} SplicedOk(t: Tree, n: nat, links: seq<Link>, depth: seq<nat>, root: nat, visited: set<nat>, last: nat)
    requires TreeOk(t, n) && Preorder(t, n, links, depth) && root < n
    requires Walked(t, n, links, root, visited, last)
    requires visited == Below(t, root) && links[last].next <= n
    ensures TreeOk(Detached(t, root), n)
    ensures Preorder(Detached(t, root), n, Spliced(links, n, root, visited, links[last].next), ResetDepth(depth, visited))
  {
    DetachedOk(t, n, root);
    var r := Detached(t, root);
    var links' := Spliced(links, n, root, visited, links[last].next);
    forall x | 0 <= x < n ensures NextOk(r, n, links', x) && PrevOk(r, n, links', x) {
      SplicedNext(t, n, links, root, visited, last, x);
      SplicedPrev(t, n, links, root, visited, last, x);
    }
  }

  lemma {:induction false} SplicedNext(t: Tree, n: nat, links: seq<Link>, root: nat, visited: set<nat>, last: nat, x: nat)
    requires TreeOk(t, n) && |links| == n + 1 && root < n && x < n
    requires forall y :: 0 <= y < n ==> NextOk(t, n, links, y) && PrevOk(t, n, links, y)
    requires Walked(t, n, links, root, visited, last)
    requires visited == Below(t, root) && links[last].next <= n
    requires TreeOk(Detached(t, root), n)
    ensures NextOk(Detached(t, root), n, Spliced(links, n, root, visited, links[last].next), x)
  {
    var current := links[last].next;
    var links' := Spliced(links, n, root, visited, current);
    assert NextOk(t, n, links, last) && NextOk(t, n, links, x);
    var y := links'[x].next;
    if x == root {
      if current < n {
        FollowsRoot(t, n, links, root, visited, last);
        DetachedFollows(t, n, root, root, current);
      }
    } else if x !in visited && y < n {
      assert y == links[x].next;
      assert y !in visited;
      assert links'[y].prev == x by { assert y != current; }
      assert Follows(Detached(t, root), n, x, y) by { DetachedFollows(t, n, root, x, y); }
    }
  }

  /** The vertex behind root's subtree hangs under an ancestor of root. */
  lemma {:induction false} FollowsRoot(t: Tree, n: nat, links: seq<Link>, root: nat, visited: set<nat>, last: nat)
    requires TreeOk(t, n) && |links| == n + 1 && root < n
    requires Walked(t, n, links, root, visited, last)
    requires visited == Below(t, root) && links[last].next < n && NextOk(t, n, links, last)
    ensures var c := links[last].next;
            c !in visited && c != root && !Above(t, root, c) && Follows(t, n, root, c)
  {
    var c := links[last].next;
    AboveChild(t, n, root, c);
    OnePath(t, n, root, t.par[c].p, last);
    assert c !in visited && !Above(t, root, c);
  }

  lemma {:induction false} SplicedPrev(t: Tree, n: nat, links: seq<Link>, root: nat, visited: set<nat>, last: nat, x: nat)
    requires TreeOk(t, n) && |links| == n + 1 && root < n && x < n && last < n
    requires NextOk(t, n, links, last) && PrevOk(t, n, links, x)
    requires Walked(t, n, links, root, visited, last)
    requires visited == Below(t, root) && links[last].next <= n
    requires TreeOk(Detached(t, root), n)
    ensures PrevOk(Detached(t, root), n, Spliced(links, n, root, visited, links[last].next), x)
  {
    var current := links[last].next;
    NextUnvisited(t, n, links, root, visited, last);
    SplicedCells(links, n, root, visited, current, x);
    if x !in visited && t.par[x].Child? {
      var z := links[x].prev;
      SplicedCells(links, n, root, visited, current, z);
      assert z in visited || z == root ==> z == last;
    }
  }

  lemma {:induction false} SplicedCells(links: seq<Link>, n: nat, root: nat, visited: set<nat>, current: nat, x: nat)
    requires |links| == n + 1 && root < n && current <= n && x < n
    requires root !in visited && current !in visited && current != root
    ensures Spliced(links, n, root, visited, current)[x].next
         == if x == root then current else if x in visited then n else links[x].next
    ensures Spliced(links, n, root, visited, current)[x].prev
         == if x == current then root else if x in visited then n else links[x].prev
  {
  }

  /** Links after moving the childless vertex v under u. */
  ghost function Relinked(links: seq<Link>, u: nat, v: nat): seq<Link>
    requires u < |links| && v < |links| && links[v].next < |links| && links[v].prev < |links|
    requires Removed(links, v)[u].next < |links|
  {
    Inserted(Removed(links, v), u, v)
  }

  /** A place for a new vertex right after u. */
  ghost function PlaceAfter(t: Tree, n: nat, links: seq<Link>, u: nat): real
    requires |t.pos| == n && |links| == n + 1 && u < n && links[u].next <= n
  {
    var s := links[u].next;
    if s == n then t.pos[u] + 1.0 else (t.pos[u] + t.pos[s]) / 2.0
  }

  /** The neighbours of a childless vertex fit together once it is gone. */
  lemma {:induction false} Neighbours(t: Tree, n: nat, links: seq<Link>, v: nat)
    requires TreeOk(t, n) && |links| == n + 1 && v < n
    requires forall y :: 0 <= y < n ==> NextOk(t, n, links, y) && PrevOk(t, n, links, y)
    requires forall x :: 0 <= x < n ==> !Above(t, v, x)
    ensures var y, z := links[v].next, links[v].prev;
            && y <= n && z <= n && y != v && z != v
            && (z < n ==> links[z].next == v)
            && (y < n ==> z < n && links[y].prev == v && t.par[y].Child? && t.pos[z] < t.pos[y]
                          && (t.par[y].p == z || Above(t, t.par[y].p, z)))
  {
    assert NextOk(t, n, links, v) && PrevOk(t, n, links, v);
    var y, z := links[v].next, links[v].prev;
    if z < n { assert NextOk(t, n, links, z); }
    if y < n {
      var p := t.par[y].p;
      assert !Above(t, v, y);
      AboveChild(t, n, v, y);
      assert Above(t, p, v);
      AboveChild(t, n, p, v);
      AboveTransitive(t, n, p, t.par[v].p, z);
    }
  }

  /** Taking a childless vertex out of its list leaves the lists of the others in preorder. */
  lemma {:induction false} UnlinkedOk(t: Tree, n: nat, links: seq<Link>, v: nat, x: nat)
    requires TreeOk(t, n) && |links| == n + 1 && v < n && x < n && x != v
    requires forall y :: 0 <= y < n ==> NextOk(t, n, links, y) && PrevOk(t, n, links, y)
    requires forall x :: 0 <= x < n ==> !Above(t, v, x)
    ensures links[v].next <= n && links[v].prev <= n
    ensures NextOk(t, n, Removed(links, v), x) && Removed(links, v)[x].next != v
    ensures PrevOk(t, n, Removed(links, v), x) && Removed(links, v)[x].prev != v
  {
    Neighbours(t, n, links, v);
    assert NextOk(t, n, links, x) && PrevOk(t, n, links, x);
  }

  lemma {:induction false} RelinkedOk(t: Tree, n: nat, links: seq<Link>, depth: seq<nat>, u: nat, v: nat, bound: int)
    requires TreeOk(t, n) && Preorder(t, n, links, depth)
    requires u < n && v < n && u != v && forall x :: 0 <= x < n ==> !Above(t, v, x)
    ensures links[v].next <= n && links[v].prev <= n && Removed(links, v)[u].next <= n
    ensures var t' := Attached(t, u, v, bound, PlaceAfter(t, n, Removed(links, v), u));
            TreeOk(t', n) && Preorder(t', n, Relinked(links, u, v), depth[v := depth[u] + 1])
  {
    UnlinkedOk(t, n, links, v, u);
    var mid := Removed(links, v);
    var place := PlaceAfter(t, n, mid, u);
    AttachedOk(t, n, u, v, bound, place);
    var t' := Attached(t, u, v, bound, place);
    forall x | 0 <= x < n ensures NextOk(t', n, Inserted(mid, u, v), x) && PrevOk(t', n, Inserted(mid, u, v), x) {
      if x != v { UnlinkedOk(t, n, links, v, x); }
      InsertedNext(t, n, mid, u, v, bound, x);
      InsertedPrev(t, n, mid, u, v, bound, x);
    }
  }

  /** Hanging v under u right behind u keeps every list in preorder. */
  lemma {:induction false} InsertedNext(t: Tree, n: nat, mid: seq<Link>, u: nat, v: nat, bound: int, x: nat)
    requires TreeOk(t, n) && |mid| == n + 1 && u < n && v < n && u != v && x < n
    requires !Above(t, v, u) && !Above(t, v, x)
    requires NextOk(t, n, mid, u) && mid[u].next != v
    requires x != v ==> NextOk(t, n, mid, x) && mid[x].next != v
    requires TreeOk(Attached(t, u, v, bound, PlaceAfter(t, n, mid, u)), n)
    ensures NextOk(Attached(t, u, v, bound, PlaceAfter(t, n, mid, u)), n, Inserted(mid, u, v), x)
  {
    var s, place := mid[u].next, PlaceAfter(t, n, mid, u);
    InsertedCells(mid, n, u, v, x);
    if x == v {
      if s < n {
        AttachedFollowed(t, n, u, v, bound, place, s);
        InsertedCells(mid, n, u, v, s);
      }
    } else if x == u {
      InsertedCells(mid, n, u, v, v);
    } else {
      var y := mid[x].next;
      if y < n {
        AttachedFollows(t, n, u, v, bound, place, x, y);
        InsertedCells(mid, n, u, v, y);
      }
    }
  }

  lemma {:induction false} InsertedCells(mid: seq<Link>, n: nat, u: nat, v: nat, x: nat)
    requires |mid| == n + 1 && u < n && v < n && u != v && x < n
    requires mid[u].next <= n && mid[u].next != v
    ensures Inserted(mid, u, v)[x].next == if x == u then v else if x == v then mid[u].next else mid[x].next
    ensures mid[u].next != u ==>
      Inserted(mid, u, v)[x].prev == if x == v then u else if x == mid[u].next then v else mid[x].prev
  {
  }

  lemma {:induction false} InsertedPrev(t: Tree, n: nat, mid: seq<Link>, u: nat, v: nat, bound: int, x: nat)
    requires TreeOk(t, n) && |mid| == n + 1 && u < n && v < n && u != v && x < n
    requires NextOk(t, n, mid, u) && mid[u].next != v
    requires x != v ==> PrevOk(t, n, mid, x) && mid[x].prev != v
    requires TreeOk(Attached(t, u, v, bound, PlaceAfter(t, n, mid, u)), n)
    ensures PrevOk(Attached(t, u, v, bound, PlaceAfter(t, n, mid, u)), n, Inserted(mid, u, v), x)
  {
    var s := mid[u].next;
    var links' := Inserted(mid, u, v);
    assert links'[v] == Link(s, u) && links'[u].next == v;
    if x != v && x != s && t.par[x].Child? {
      assert links'[x].prev == mid[x].prev;
      assert mid[x].prev != u;
    }
  }
}
