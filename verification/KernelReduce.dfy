/**
 * cdd_reduce on the node store: the walk with the constraint graph over counted nodes, with garbage
 * collections in between.
 */
module KernelReduction {
  import opened Bounds
  import opened ConstraintGraph
  import opened Diagrams
  import opened Reduction
  import opened Zones
  import opened TarjanGraph
  import opened TarjanReduction
  import opened Apply
  import opened Nodes
  import opened Tallies
  import opened Kernels
  import opened Roots
  import opened KernelApply

  /** The graph shares no memory with the node store. */
  ghost predicate Apart(k: Kernel, graph: Tarjan)
  {
    k !in graph.Repr() && k.store !in graph.Repr()
  }

  function KidBounds(kids: seq<Kid>): (bounds: seq<int>)
    ensures |bounds| == |kids| && forall i :: 0 <= i < |kids| ==> bounds[i] == kids[i].bnd
  {
    seq(|kids|, i requires 0 <= i < |kids| => kids[i].bnd)
  }

  /** The pieces are those of a clock node, each of them within reach. */
  ghost predicate ClockPieces(L: Levels, v: View, kids: seq<Kid>, d: Ref, level: nat)
  {
    && d.node.CddNode? && d.node.level == level < |L| && NodeOk(L, d.node, level)
    && AllInReach(v, kids) && ElemsIn(v, kids, Masked(d.node.elems, d.neg))
  }

  lemma {:induction false} ClockPiecesStay(L: Levels, v: View, w: View, kids: seq<Kid>, d: Ref, level: nat)
    requires ClockPieces(L, v, kids, d, level) && Follows(v, w) && v.ext <= w.ext
    ensures ClockPieces(L, w, kids, d, level)
  {
    PiecesStay(v, w, kids, Masked(d.node.elems, d.neg));
  }

  /** A piece, as the walk over values sees it. */
  lemma {:induction false} PieceOf(L: Levels, v: View, kids: seq<Kid>, d: Ref, level: nat, i: nat)
    requires ClockPieces(L, v, kids, d, level) && i < |kids|
    ensures |kids| == |d.node.elems| > 1 && kids[i].bnd == d.node.elems[i].bnd
    ensures Rooted(v.body, v.ext, kids[i].child.id) && DiagramIn(v, kids[i].child) == NegCond(d.node.elems[i].child, d.neg)
    ensures NodeOk(L, d.node.elems[i].child.node, level + 1)
  {
  }

  /** Takes an edge off the graph again; the node store does not notice. */
  method TakeOff(k: Kernel, graph: Tarjan, ghost min: nat, i: nat, ghost j: nat, ghost b: int, ghost rows: Rows)
    requires k.Valid() && Apart(k, graph) && Ready(k.L, graph, |k.L|)
    requires LevelsOk(k.L, |rows|) && Zones.Free(k.L, rows, min) && i < |rows| && graph.rows == WithEdge(rows, i, j, b)
    modifies graph.Repr()
    ensures k.Valid() && ViewOf(k) == old(ViewOf(k)) && k.Books() == old(k.Books())
    ensures Ready(k.L, graph, min) && graph.rows == rows
  {
    graph.Pop(i);
    assert graph.rows == rows;
  }

  /** TakeRef, with a graph at work. */
  method TakeBeside(k: Kernel, h: Handle, ghost graph: Tarjan, ghost min: nat)
    requires k.Valid() && k.LiveHandle(h) && Apart(k, graph) && Ready(k.L, graph, min)
    modifies k`ref, k`ext
    ensures k.Valid() && k.ext == old(k.ext) + multiset{h.id} && k.LiveHandle(h)
    ensures Follows(old(ViewOf(k)), ViewOf(k)) && InReach(k, h) && DiagramIn(ViewOf(k), h) == old(k.Denoted(h))
    ensures Ready(k.L, graph, min) && graph.rows == old(graph.rows)
    ensures Lossless(old(k.Books()), [h.id], k.Books(), [])
  {
    TakeRef(k, h);
  }

  /** Extend, with a graph at work. */
  method ExtendBeside(k: Kernel, ghost a: View, stack: seq<Kid>, prev: Handle, ghost elems: seq<Elem>, ghost top: Ref, n: Handle, mask: bool, bnd: int,
                      ghost graph: Tarjan, ghost min: nat)
    returns (stack': seq<Kid>, ghost elems': seq<Elem>)
    requires k.Valid() && Holding(a, ViewOf(k), stack, prev, elems, top) && k.LiveHandle(n) && Apart(k, graph) && Ready(k.L, graph, min)
    modifies k`ref, k`ext
    ensures k.Valid() && Follows(old(ViewOf(k)), ViewOf(k)) && old(k.ext) <= k.ext
    ensures Holding(a, ViewOf(k), stack', n, elems', old(k.Denoted(n)))
    ensures elems' == if old(k.Denoted(n)) != top then elems + [Elem(NegCond(top, mask), bnd)] else elems
    ensures Ready(k.L, graph, min) && graph.rows == old(graph.rows)
    ensures Lossless(old(k.Books()), [n.id], k.Books(), [])
    ensures stack' == if n != prev then stack + [Kid(NegHandle(prev, mask), bnd)] else stack
  {
    stack', elems' := Extend(k, a, stack, prev, elems, top, n, mask, bnd);
  }

  /** The pieces are children of the node. */
  ghost predicate KidsOf(a: View, h: Handle, kids: seq<Kid>)
  {
    h.id < |a.body| && forall i :: 0 <= i < |kids| ==> kids[i].child.id in Children(a.body[h.id])
  }

  /** Only children of the node are on the stack. */
  ghost predicate OnlyKids(a: View, h: Handle, stack: seq<Kid>, prev: Handle)
  {
    KidsOf(a, h, stack) && prev.id in Children(a.body[h.id])
  }

  lemma {:induction false} KidsAreChildren(k: Kernel, h: Handle, level: nat)
    requires h.id < |k.store.body| && k.store.body[h.id].Clock? && k.store.body[h.id].level == level
    ensures KidsOf(ViewOf(k), h, KidsIn(k.store.body, h, level))
  {
    var b := k.store.body[h.id];
    forall i | 0 <= i < |b.elems| ensures b.elems[i].child.id in Children(b) { assert Children(b)[i] == b.elems[i].child.id; }
  }

  /** Comparing pointers tells whether a piece has changed. */
  lemma {:induction false} SamePiece(k: Kernel, kids: seq<Kid>, d: Ref, level: nat, i: nat, n: Handle)
    requires k.Valid() && ClockPieces(k.L, ViewOf(k), kids, d, level) && i < |kids| && k.LiveHandle(n)
    ensures |kids| == |d.node.elems|
    ensures n == kids[i].child <==> k.Denoted(n) == NegCond(d.node.elems[i].child, d.neg)
  {
    PieceOf(k.L, ViewOf(k), kids, d, level, i);
    ReachLive(k, kids[i].child);
    k.HandlesDiffer(n, kids[i].child);
  }

  lemma {:induction false} StillOnlyKids(a: View, h: Handle, kids: seq<Kid>, j: nat, stack: seq<Kid>, prev: Handle, mask: bool, bnd: int)
    requires KidsOf(a, h, kids) && j < |kids| && OnlyKids(a, h, stack, prev)
    ensures OnlyKids(a, h, stack + [Kid(NegHandle(prev, mask), bnd)], kids[j].child) && OnlyKids(a, h, stack, kids[j].child)
  {
  }

  // ----- The recursion

  /** The diagram behind h, reduced under the constraints on the graph, which is left as it was. */
  method ReduceRec(k: Kernel, h: Handle, graph: Tarjan, ghost min: nat) returns (res: Handle)
    requires k.Valid() && InReach(k, h) && NodeOk(k.L, DiagramIn(ViewOf(k), h).node, min)
    requires Apart(k, graph) && Ready(k.L, graph, min) && Consistent(graph.rows)
    modifies graph.Repr(), k`made, k`ref, k`cache, k`holding, k`whole, k`shape, k`ext, k`lost, k.store
    ensures k.Valid() && Undisturbed(old(ViewOf(k)), ViewOf(k)) && k.LiveHandle(res)
    ensures Ready(k.L, graph, min) && graph.rows == old(graph.rows)
    ensures k.Denoted(res) == Reduce(k.L, old(DiagramIn(ViewOf(k), h)), Solutions(graph.rows))
    ensures Lossless(old(k.Books()), [], k.Books(), [res.id])
    decreases |k.L| - min, 3
  {
    TopOf(k, h);
    ReachLive(k, h);
    FollowsItself(k);
    ghost var d := DiagramIn(ViewOf(k), h);
    if k.store.body[h.id].Nothing? {
      Looser(k.Books(), [], [h.id]);
      return h;
    }
    var level := k.store.body[h.id].level;
    StartsAt(k.L, d.node, min, level);
    if k.store.body[h.id].Bool? {
      res := ReduceBool(k, h, graph, level);
    } else {
      res := ReduceClock(k, h, graph, level);
    }
  }

  method ReduceBool(k: Kernel, h: Handle, graph: Tarjan, level: nat) returns (res: Handle)
    requires k.Valid() && InReach(k, h) && NodeOk(k.L, DiagramIn(ViewOf(k), h).node, level)
    requires DiagramIn(ViewOf(k), h).node.BddNode? && DiagramIn(ViewOf(k), h).node.level == level
    requires Apart(k, graph) && Ready(k.L, graph, level) && Consistent(graph.rows)
    modifies graph.Repr(), k`made, k`ref, k`cache, k`holding, k`whole, k`shape, k`ext, k`lost, k.store
    ensures k.Valid() && Undisturbed(old(ViewOf(k)), ViewOf(k)) && k.LiveHandle(res)
    ensures Ready(k.L, graph, level) && graph.rows == old(graph.rows)
    ensures k.Denoted(res) == Reduce(k.L, old(DiagramIn(ViewOf(k), h)), Solutions(graph.rows))
    ensures Lossless(old(k.Books()), [], k.Books(), [res.id])
    decreases |k.L| - level, 2
  {
    ghost var a, d := ViewOf(k), DiagramIn(ViewOf(k), h);
    BranchesIn(k, h, level);
    BoolChildren(k.L, d, level);
    var high := HighIn(k.store.body, h, level);
    ghost var books := k.Books();
    var n := ReduceRec(k, LowIn(k.store.body, h, level), graph, level + 1);
    ghost var before := k.Books();
    res := ReduceHigh(k, a, high, n, graph, level);
    LosslessOn(books, [], before, [n.id], k.Books(), [res.id]);
  }

  /** The true child, with a reference on the result for the false one meanwhile. */
  method ReduceHigh(k: Kernel, ghost a: View, high: Handle, n: Handle, graph: Tarjan, level: nat) returns (res: Handle)
    requires k.Valid() && Undisturbed(a, ViewOf(k)) && k.LiveHandle(n) && level < |k.L|
    requires Rooted(a.body, a.ext, high.id) && NodeOk(k.L, DiagramIn(a, high).node, level + 1)
    requires Apart(k, graph) && Ready(k.L, graph, level + 1) && Consistent(graph.rows)
    modifies graph.Repr(), k`made, k`ref, k`cache, k`holding, k`whole, k`shape, k`ext, k`lost, k.store
    ensures k.Valid() && Undisturbed(a, ViewOf(k)) && k.LiveHandle(res)
    ensures Ready(k.L, graph, level + 1) && graph.rows == old(graph.rows)
    ensures k.Denoted(res) == MakeBool(level, old(k.Denoted(n)), Reduce(k.L, DiagramIn(a, high), Solutions(graph.rows)))
    ensures Lossless(old(k.Books()), [n.id], k.Books(), [res.id])
    decreases |k.L| - level - 1, 4
  {
    ghost var v := ViewOf(k);
    ghost var books := k.Books();
    TakeRef(k, n);
    ghost var taken := k.Books();
    FollowsOn(a, v, ViewOf(k));
    StillWithin(a, ViewOf(k), high);
    ghost var w := ViewOf(k);
    var m := ReduceRec(k, high, graph, level + 1);
    SameDiagram(w, ViewOf(k), n);
    FollowsOn(a, w, ViewOf(k));
    ghost var joining := k.Books();
    res := JoinBool(k, a, level, n, m);
    LosslessOn(books, [n.id], taken, [], joining, [m.id]);
    LosslessOn(books, [n.id], joining, [m.id], k.Books(), [res.id]);
  }

  method ReduceClock(k: Kernel, h: Handle, graph: Tarjan, level: nat) returns (res: Handle)
    requires k.Valid() && InReach(k, h) && NodeOk(k.L, DiagramIn(ViewOf(k), h).node, level)
    requires DiagramIn(ViewOf(k), h).node.CddNode? && DiagramIn(ViewOf(k), h).node.level == level
    requires Apart(k, graph) && Ready(k.L, graph, level) && Consistent(graph.rows)
    modifies graph.Repr(), k`made, k`ref, k`cache, k`holding, k`whole, k`shape, k`ext, k`lost, k.store
    ensures k.Valid() && Undisturbed(old(ViewOf(k)), ViewOf(k)) && k.LiveHandle(res)
    ensures Ready(k.L, graph, level) && graph.rows == old(graph.rows)
    ensures k.Denoted(res) == Reduce(k.L, old(DiagramIn(ViewOf(k), h)), Solutions(graph.rows))
    ensures Lossless(old(k.Books()), [], k.Books(), [res.id])
    decreases |k.L| - level, 2
  {
    ghost var d, rows := DiagramIn(ViewOf(k), h), graph.rows;
    PiecesIn(k, h, level);
    var kids := KidsIn(k.store.body, h, level);
    assert ClockPieces(k.L, ViewOf(k), kids, d, level);
    KidsAreChildren(k, h, level);
    PieceOf(k.L, ViewOf(k), kids, d, level, 0);
    var i, skipped := FirstChild(k.L, level, KidBounds(kids), graph, rows);
    if i == |kids| - 1 {
      res := ReduceLast(k, kids, d, graph, level);
    } else {
      res := ReduceFrom(k, h, kids, d, i, skipped, graph, level, rows);
    }
  }

  method ReduceLast(k: Kernel, kids: seq<Kid>, ghost d: Ref, graph: Tarjan, level: nat) returns (res: Handle)
    requires k.Valid() && ClockPieces(k.L, ViewOf(k), kids, d, level)
    requires Apart(k, graph) && Ready(k.L, graph, level) && Consistent(graph.rows) && |kids| > 1
    requires !Nonempty(Slice(k.L, level, Solutions(graph.rows), -INF, kids[|kids| - 2].bnd))
    modifies graph.Repr(), k`made, k`ref, k`cache, k`holding, k`whole, k`shape, k`ext, k`lost, k.store
    ensures k.Valid() && Undisturbed(old(ViewOf(k)), ViewOf(k)) && k.LiveHandle(res)
    ensures Ready(k.L, graph, level) && graph.rows == old(graph.rows)
    ensures k.Denoted(res) == Reduce(k.L, d, Solutions(graph.rows))
    ensures Lossless(old(k.Books()), [], k.Books(), [res.id])
    decreases |k.L| - level, 1
  {
    ConsistentIsNonempty(graph.rows);
    PieceOf(k.L, ViewOf(k), kids, d, level, |kids| - 2);
    PieceOf(k.L, ViewOf(k), kids, d, level, |kids| - 1);
    LastChildOnly(k.L, d, Solutions(graph.rows));
    res := ReduceRec(k, kids[|kids| - 1].child, graph, level + 1);
  }

  /** On top of `rows` the graph holds the upper bound of the first feasible piece. */
  ghost predicate FirstHeld(L: Levels, graph: Tarjan, level: nat, es: seq<Elem>, i: nat, rows: Rows)
    requires level < |L| && L[level].ClockLevel? && i < |es|
    reads graph.Repr()
  {
    && LevelsOk(L, |rows|) && Zones.Free(L, rows, level)
    && (i > 0 ==> !Nonempty(Slice(L, level, Solutions(rows), -INF, es[i - 1].bnd)))
    && Ready(L, graph, level + 1) && Consistent(graph.rows)
    && graph.rows == WithEdge(rows, L[level].clock1, L[level].clock2, es[i].bnd)
    && Solutions(graph.rows) == Slice(L, level, Solutions(rows), -INF, es[i].bnd)
  }

  /** Reduces the first feasible piece and goes on from there. */
  method ReduceFrom(k: Kernel, h: Handle, kids: seq<Kid>, ghost d: Ref, i: nat, skipped: bool, graph: Tarjan, level: nat, ghost rows: Rows)
    returns (res: Handle)
    requires k.Valid() && InReach(k, h) && DiagramIn(ViewOf(k), h) == d && ClockPieces(k.L, ViewOf(k), kids, d, level)
    requires KidsOf(ViewOf(k), h, kids)
    requires Apart(k, graph) && i < |kids| - 1 && (skipped <==> i > 0) && k.L[level].ClockLevel? && FirstHeld(k.L, graph, level, d.node.elems, i, rows)
    modifies graph.Repr(), k`made, k`ref, k`cache, k`holding, k`whole, k`shape, k`ext, k`lost, k.store
    ensures k.Valid() && Undisturbed(old(ViewOf(k)), ViewOf(k)) && k.LiveHandle(res)
    ensures Ready(k.L, graph, level) && graph.rows == rows
    ensures k.Denoted(res) == Reduce(k.L, d, Solutions(rows))
    ensures Lossless(old(k.Books()), [], k.Books(), [res.id])
    decreases |k.L| - level, 1
  {
    ghost var a, books := ViewOf(k), k.Books();
    var prev, modified;
    ghost var top;
    prev, modified, top := ReduceFirst(k, kids, d, i, skipped, graph, level, rows);
    KeptFirst(k.L, d, i, Solutions(rows), top);
    ProgressFirst(d, i, top, modified);
    ghost var before := k.Books();
    res := ReduceRest(k, a, h, kids, d, i + 1, prev, top, modified, graph, level, rows);
    LosslessOn(books, [], before, [], k.Books(), [res.id]);
  }

  /** Reduces the first feasible piece, takes its bound off the graph, and a reference on the result. */
  method ReduceFirst(k: Kernel, kids: seq<Kid>, ghost d: Ref, i: nat, skipped: bool, graph: Tarjan, level: nat, ghost rows: Rows)
    returns (prev: Handle, modified: bool, ghost top: Ref)
    requires k.Valid() && ClockPieces(k.L, ViewOf(k), kids, d, level)
    requires Apart(k, graph) && i < |kids| - 1 && k.L[level].ClockLevel? && FirstHeld(k.L, graph, level, d.node.elems, i, rows)
    modifies graph.Repr(), k`made, k`ref, k`cache, k`holding, k`whole, k`shape, k`ext, k`lost, k.store
    ensures k.Valid() && Holding(old(ViewOf(k)), ViewOf(k), [], prev, [], top) && prev.neg == top.neg
    ensures Ready(k.L, graph, level) && graph.rows == rows && ClockPieces(k.L, ViewOf(k), kids, d, level)
    ensures Nonempty(ChildZone(k.L, level, d.node.elems, i, Solutions(rows)))
    ensures top == Reduce(k.L, NegCond(d.node.elems[i].child, d.neg), ChildZone(k.L, level, d.node.elems, i, Solutions(rows)))
    ensures modified <==> skipped || top != NegCond(d.node.elems[i].child, d.neg)
    ensures (!modified ==> prev == kids[i].child) && Lossless(old(k.Books()), [], k.Books(), [])
    decreases |k.L| - level - 1, 4
  {
    ghost var a, books := ViewOf(k), k.Books();
    PieceOf(k.L, a, kids, d, level, i);
    ConsistentIsNonempty(graph.rows);
    FrontZone(k.L, level, d.node.elems, i, Solutions(rows));
    prev := ReduceRec(k, kids[i].child, graph, level + 1);
    top := k.Denoted(prev);
    ghost var before := k.Books();
    modified := HoldFirst(k, a, kids, d, i, skipped, prev, graph, level);
    LosslessOn(books, [], before, [prev.id], k.Books(), []);
    TakeOff(k, graph, level, k.L[level].clock1, k.L[level].clock2, d.node.elems[i].bnd, rows);
  }

  /** Compares the result with the piece, and takes a reference on it. */
  method HoldFirst(k: Kernel, ghost a: View, kids: seq<Kid>, ghost d: Ref, i: nat, skipped: bool, prev: Handle, ghost graph: Tarjan, level: nat) returns (modified: bool)
    requires k.Valid() && Undisturbed(a, ViewOf(k)) && ClockPieces(k.L, a, kids, d, level) && i < |kids| && k.LiveHandle(prev)
    requires Apart(k, graph) && Ready(k.L, graph, level + 1)
    modifies k`ref, k`ext
    ensures k.Valid() && Holding(a, ViewOf(k), [], prev, [], old(k.Denoted(prev))) && ClockPieces(k.L, ViewOf(k), kids, d, level)
    ensures Ready(k.L, graph, level + 1) && graph.rows == old(graph.rows)
    ensures modified <==> skipped || old(k.Denoted(prev)) != NegCond(d.node.elems[i].child, d.neg)
    ensures (!modified ==> prev == kids[i].child) && Lossless(old(k.Books()), [prev.id], k.Books(), [])
  {
    ghost var v, top := ViewOf(k), k.Denoted(prev);
    ClockPiecesStay(k.L, a, v, kids, d, level);
    SamePiece(k, kids, d, level, i, prev);
    modified := skipped || prev != kids[i].child;
    TakeBeside(k, prev, graph, level + 1);
    ClockPiecesStay(k.L, v, ViewOf(k), kids, d, level);
    FirstHeldUp(a, v, ViewOf(k), prev, top);
  }

  lemma {:induction false} FirstHeldUp(a: View, v: View, w: View, prev: Handle, top: Ref)
    requires Undisturbed(a, v) && Follows(v, w) && w.ext == v.ext + multiset{prev.id} && DiagramIn(w, prev) == top
    ensures Holding(a, w, [], prev, [], top)
  {
    FollowsOn(a, v, w);
    AddAllMore(a.ext, [], prev.id);
    assert KidIds([]) + [prev.id] == [] + [prev.id];
  }

  /** A piece behind the first feasible one: its lower bound, one check, and the reduction under its upper bound. */
  method NextPiece(k: Kernel, kids: seq<Kid>, ghost d: Ref, j: nat, graph: Tarjan, level: nat, ghost rows: Rows) returns (ok: bool, n: Handle)
    requires k.Valid() && ClockPieces(k.L, ViewOf(k), kids, d, level) && 0 < j < |kids|
    requires Apart(k, graph) && Ready(k.L, graph, level) && graph.rows == rows
    requires Nonempty(Slice(k.L, level, Solutions(rows), -INF, Lower(d.node.elems, j)))
    modifies graph.Repr(), k`made, k`ref, k`cache, k`holding, k`whole, k`shape, k`ext, k`lost, k.store
    ensures k.Valid() && Undisturbed(old(ViewOf(k)), ViewOf(k)) && (ok ==> k.LiveHandle(n))
    ensures Ready(k.L, graph, level) && graph.rows == rows
    ensures ok <==> Nonempty(Slice(k.L, level, Solutions(rows), Lower(d.node.elems, j), INF))
    ensures ok ==> Nonempty(ChildZone(k.L, level, d.node.elems, j, Solutions(rows)))
    ensures ok ==> k.Denoted(n) == Reduce(k.L, NegCond(d.node.elems[j].child, d.neg), ChildZone(k.L, level, d.node.elems, j, Solutions(rows)))
    ensures Lossless(old(k.Books()), [], k.Books(), if ok then [n.id] else [])
    decreases |k.L| - level - 1, 5
  {
    PieceOf(k.L, ViewOf(k), kids, d, level, j - 1);
    PieceOf(k.L, ViewOf(k), kids, d, level, j);
    FollowsItself(k);
    var low, up := kids[j - 1].bnd, kids[j].bnd;
    n := CDDFALSE;
    ok := TryLower(k.L, graph, level, low);
    if ok {
      NextSliceNonempty(k.L, rows, level, low, up);
      SliceTwice(k.L, level, Solutions(rows), low, up);
      n := ReduceBelow(k, kids[j].child, graph, level, up);
    }
    TakeOff(k, graph, level, k.L[level].clock2, k.L[level].clock1, LowerToUpper(low), rows);
  }

  /** Reduces a child below the upper bound of its piece, if it has one, without another check. */
  method ReduceBelow(k: Kernel, child: Handle, graph: Tarjan, level: nat, up: int) returns (n: Handle)
    requires k.Valid() && InReach(k, child) && NodeOk(k.L, DiagramIn(ViewOf(k), child).node, level + 1)
    requires level < |k.L| && k.L[level].ClockLevel? && Apart(k, graph)
    requires Ready(k.L, graph, level + 1) && !Joined(graph.rows, k.L[level].clock1, k.L[level].clock2)
    requires (up == INF || Finite(up)) && Nonempty(Slice(k.L, level, Solutions(graph.rows), -INF, up))
    modifies graph.Repr(), k`made, k`ref, k`cache, k`holding, k`whole, k`shape, k`ext, k`lost, k.store
    ensures k.Valid() && Undisturbed(old(ViewOf(k)), ViewOf(k)) && k.LiveHandle(n)
    ensures Ready(k.L, graph, level + 1) && graph.rows == old(graph.rows)
    ensures k.Denoted(n) == Reduce(k.L, old(DiagramIn(ViewOf(k), child)), Slice(k.L, level, Solutions(graph.rows), -INF, up))
    ensures Lossless(old(k.Books()), [], k.Books(), [n.id])
    decreases |k.L| - level - 1, 4
  {
    ghost var rows := graph.rows;
    ConsistentIsNonempty(rows);
    if up < INF {
      UpperEdge(k.L, rows, level, up);
      FreeAfterEdge(k.L, rows, level, k.L[level].clock1, k.L[level].clock2, up);
      graph.Push(k.L[level].clock1, k.L[level].clock2, up);
      ConsistentIsNonempty(graph.rows);
      n := ReduceRec(k, child, graph, level + 1);
      TakeOff(k, graph, level + 1, k.L[level].clock1, k.L[level].clock2, up, rows);
    } else {
      SliceTwice(k.L, level, Solutions(rows), -INF, up);
      n := ReduceRec(k, child, graph, level + 1);
    }
  }

  /** One more piece: reduced and put on the stack, if it is feasible. */
  method KeepPiece(k: Kernel, ghost a: View, ghost h: Handle, kids: seq<Kid>, ghost d: Ref, j: nat, stack: seq<Kid>, prev: Handle, modified: bool, mask: bool,
                   ghost elems: seq<Elem>, ghost top: Ref, ghost done: seq<Elem>, graph: Tarjan, level: nat, ghost rows: Rows)
    returns (ok: bool, stack': seq<Kid>, prev': Handle, modified': bool, ghost elems': seq<Elem>, ghost top': Ref, ghost done': seq<Elem>)
    requires k.Valid() && ClockPieces(k.L, ViewOf(k), kids, d, level) && j < |kids|
    requires KidsOf(a, h, kids) && (!modified ==> OnlyKids(a, h, stack, prev))
    requires Holding(a, ViewOf(k), stack, prev, elems, top) && LoopOk(k.L, d, j, Solutions(rows), elems, top, mask, done, modified)
    requires Apart(k, graph) && Ready(k.L, graph, level) && graph.rows == rows
    modifies graph.Repr(), k`made, k`ref, k`cache, k`holding, k`whole, k`shape, k`ext, k`lost, k.store
    ensures k.Valid() && ClockPieces(k.L, ViewOf(k), kids, d, level) && Holding(a, ViewOf(k), stack', prev', elems', top')
    ensures Ready(k.L, graph, level) && graph.rows == rows
    ensures LoopOk(k.L, d, if ok then j + 1 else j, Solutions(rows), elems', top', mask, done', modified')
    ensures !ok ==> modified' && ReduceItems(k.L, d.node, d.neg, j, Solutions(rows)) == []
    ensures (!modified' ==> OnlyKids(a, h, stack', prev')) && Lossless(old(k.Books()), [], k.Books(), [])
    decreases |k.L| - level - 1, 6
  {
    ghost var v, books := ViewOf(k), k.Books();
    var n;
    ok, n := NextPiece(k, kids, d, j, graph, level, rows);
    HoldingStays(a, v, ViewOf(k), stack, prev, elems, top);
    ClockPiecesStay(k.L, v, ViewOf(k), kids, d, level);
    if ok {
      ghost var before := k.Books();
      stack', modified', elems', top' := PushPiece(k, a, h, kids, d, j, stack, prev, modified, mask, elems, top, n, graph, level);
      LosslessOn(books, [], before, [n.id], k.Books(), []);
      prev', done' := n, done + [Elem(top', d.node.elems[j].bnd)];
      LoopNext(k.L, d, j, Solutions(rows), elems, top, mask, done, modified, top', elems', done', modified');
    } else {
      stack', prev', modified', elems', top', done' := stack, prev, true, elems, top, done;
      DropTail(k.L, d.node, d.neg, j, j, Solutions(rows));
    }
  }

  method PushPiece(k: Kernel, ghost a: View, ghost h: Handle, kids: seq<Kid>, ghost d: Ref, j: nat, stack: seq<Kid>, prev: Handle, modified: bool, mask: bool,
                   ghost elems: seq<Elem>, ghost top: Ref, n: Handle, ghost graph: Tarjan, level: nat)
    returns (stack': seq<Kid>, modified': bool, ghost elems': seq<Elem>, ghost top': Ref)
    requires k.Valid() && ClockPieces(k.L, ViewOf(k), kids, d, level) && 0 < j < |kids| && k.LiveHandle(n)
    requires KidsOf(a, h, kids) && (!modified ==> OnlyKids(a, h, stack, prev))
    requires Holding(a, ViewOf(k), stack, prev, elems, top) && Apart(k, graph) && Ready(k.L, graph, level)
    modifies k`ref, k`ext
    ensures Ready(k.L, graph, level) && graph.rows == old(graph.rows)
    ensures k.Valid() && ClockPieces(k.L, ViewOf(k), kids, d, level) && Holding(a, ViewOf(k), stack', n, elems', top')
    ensures top' == old(k.Denoted(n)) && (modified' <==> modified || top' != NegCond(d.node.elems[j].child, d.neg))
    ensures elems' == if top != top' then elems + [Elem(NegCond(top, mask), d.node.elems[j - 1].bnd)] else elems
    ensures (!modified' ==> OnlyKids(a, h, stack', n)) && Lossless(old(k.Books()), [n.id], k.Books(), [])
  {
    ghost var v := ViewOf(k);
    PieceOf(k.L, v, kids, d, level, j - 1);
    SamePiece(k, kids, d, level, j, n);
    modified' := modified || n != kids[j].child;
    top' := k.Denoted(n);
    stack', elems' := ExtendBeside(k, a, stack, prev, elems, top, n, mask, kids[j - 1].bnd, graph, level);
    ClockPiecesStay(k.L, v, ViewOf(k), kids, d, level);
    if !modified' { StillOnlyKids(a, h, kids, j, stack, prev, mask, kids[j - 1].bnd); }
  }

  /** The loop over the remaining pieces; the node itself if nothing has changed. */
  method ReduceRest(k: Kernel, ghost a: View, h: Handle, kids: seq<Kid>, ghost d: Ref, j0: nat, prev0: Handle, ghost top0: Ref, modified0: bool,
                    graph: Tarjan, level: nat, ghost rows: Rows) returns (res: Handle)
    requires k.Valid() && ClockPieces(k.L, ViewOf(k), kids, d, level) && 0 < j0 <= |kids|
    requires Rooted(a.body, a.ext, h.id) && DiagramIn(a, h) == d
    requires KidsOf(a, h, kids) && (!modified0 ==> OnlyKids(a, h, [], prev0))
    requires Holding(a, ViewOf(k), [], prev0, [], top0) && prev0.neg == top0.neg
    requires LoopOk(k.L, d, j0, Solutions(rows), [], top0, top0.neg, [Elem(top0, d.node.elems[j0 - 1].bnd)], modified0)
    requires Apart(k, graph) && Ready(k.L, graph, level) && graph.rows == rows
    modifies graph.Repr(), k`made, k`ref, k`cache, k`holding, k`whole, k`shape, k`ext, k`lost, k.store
    ensures k.Valid() && Undisturbed(a, ViewOf(k)) && k.LiveHandle(res)
    ensures Ready(k.L, graph, level) && graph.rows == rows
    ensures k.Denoted(res) == Reduce(k.L, d, Solutions(rows))
    ensures Lossless(old(k.Books()), [], k.Books(), [res.id])
    decreases |k.L| - level - 1, 7
  {
    var j, stack: seq<Kid>, prev, modified, mask := j0, [], prev0, modified0, prev0.neg;
    ghost var elems: seq<Elem>, top, done := [], top0, [Elem(top0, d.node.elems[j0 - 1].bnd)];
    ghost var books := k.Books();
    var ok := true;
    while ok && j < |kids|
      invariant k.Valid() && ClockPieces(k.L, ViewOf(k), kids, d, level) && Holding(a, ViewOf(k), stack, prev, elems, top)
      invariant Ready(k.L, graph, level) && graph.rows == rows
      invariant (!modified ==> OnlyKids(a, h, stack, prev)) && Lossless(books, [], k.Books(), [])
      invariant LoopOk(k.L, d, j, Solutions(rows), elems, top, mask, done, modified)
      invariant !ok ==> modified && ReduceItems(k.L, d.node, d.neg, j, Solutions(rows)) == []
      decreases ok, |kids| - j
    {
      ghost var sofar := k.Books();
      ok, stack, prev, modified, elems, top, done :=
        KeepPiece(k, a, h, kids, d, j, stack, prev, modified, mask, elems, top, done, graph, level, rows);
      LosslessOn(books, [], sofar, [], k.Books(), []);
      j := if ok then j + 1 else j;
    }
    ProgressDone(k.L, d, j, Solutions(rows), elems, top, mask, done, modified);
    ghost var before := k.Books();
    res := Rebuild(k, a, h, stack, prev, elems, top, mask, modified, graph, level);
    LosslessOn(books, [], before, [], k.Books(), [res.id]);
  }

  /** The node over the stack if anything has changed, and the node itself otherwise. */
  method Rebuild(k: Kernel, ghost a: View, h: Handle, stack: seq<Kid>, prev: Handle, ghost elems: seq<Elem>, ghost top: Ref, mask: bool,
                 modified: bool, ghost graph: Tarjan, level: nat) returns (res: Handle)
    requires k.Valid() && Holding(a, ViewOf(k), stack, prev, elems, top) && Rooted(a.body, a.ext, h.id)
    requires Apart(k, graph) && Ready(k.L, graph, level)
    requires !modified ==> OnlyKids(a, h, stack, prev)
    modifies k`made, k`ref, k`cache, k`holding, k`whole, k`shape, k`ext, k`lost, k.store
    ensures k.Valid() && Undisturbed(a, ViewOf(k)) && k.LiveHandle(res)
    ensures k.Denoted(res) == if modified then NegCond(MakeNode(level, elems + [Elem(NegCond(top, mask), INF)]), mask) else DiagramIn(a, h)
    ensures Ready(k.L, graph, level) && graph.rows == old(graph.rows)
    ensures Lossless(old(k.Books()), [], k.Books(), [res.id])
  {
    if modified {
      res := Finish(k, a, level, stack, prev, elems, top, mask);
    } else {
      res := KeepNode(k, a, h, stack, prev, elems, top, mask);
    }
  }

  /** Nothing has changed: the references on the stack are given back, and the node stands for itself. */
  method KeepNode(k: Kernel, ghost a: View, h: Handle, stack: seq<Kid>, prev: Handle, ghost elems: seq<Elem>, ghost top: Ref, mask: bool)
    returns (res: Handle)
    requires k.Valid() && Holding(a, ViewOf(k), stack, prev, elems, top) && Rooted(a.body, a.ext, h.id)
    requires OnlyKids(a, h, stack, prev)
    modifies k`ref, k`ext
    ensures k.Valid() && Undisturbed(a, ViewOf(k)) && k.LiveHandle(res) && k.Denoted(res) == DiagramIn(a, h)
    ensures Lossless(old(k.Books()), [], k.Books(), [res.id])
  {
    var all := stack + [Kid(NegHandle(prev, mask), INF)];
    HoldingRooted(a, ViewOf(k), stack, prev, elems, top);
    StillWithin(a, ViewOf(k), h);
    ReachLive(k, h);
    assert KidIds(all) == KidIds(stack) + [prev.id];
    assert SameNodeIn(a, ViewOf(k), h.id);
    ghost var books := k.Books();
    Looser(books, [], [h.id]);
    DropAll(k, all, h, a.ext);
    LosslessOn(books, [], books, [h.id], k.Books(), [h.id]);
    res := h;
  }

  // ----- The cached result of cdd_apply_reduce

  /** Brings a cached result back if it is dead, and refers to it. */
  method HoldCached(k: Kernel, h: Handle)
    requires k.Valid() && SENTINEL < h.id < |k.whole| && k.whole[h.id]
    modifies k`ref, k`holding, k`lost, k`ext
    ensures k.Valid() && k.ext == old(k.ext) + multiset{h.id} && InReach(k, h)
    ensures Follows(old(ViewOf(k)), ViewOf(k)) && DiagramIn(ViewOf(k), h) == old(DiagramIn(ViewOf(k), h))
    ensures Lossless(old(k.Books()), [], k.Books(), [])
  {
    ghost var a := ViewOf(k);
    FollowsItself(k);
    RecoverBooked(k, h);
    ghost var v, books := ViewOf(k), k.Books();
    TakeRef(k, h);
    FollowsOn(a, v, ViewOf(k));
    Looser(books, [], [h.id]);
  }

  method RecoverBooked(k: Kernel, h: Handle)
    requires k.Valid() && SENTINEL < h.id < |k.whole| && k.whole[h.id]
    modifies k`ref, k`holding, k`lost
    ensures k.Valid() && k.LiveHandle(h) && ViewOf(k) == old(ViewOf(k)) && Lossless(old(k.Books()), [], k.Books(), [])
  {
    ghost var books := k.Books();
    k.BooksInOrder();
    ghost var seen := k.Recover(h.id);
    k.BooksInOrder();
    HitSettled(k, books, true, h);
  }

  /** Gives the reference back.  Nodes that let go are those that lose their last reference. */
  method GiveBack(k: Kernel, ghost a: View, h: Handle, res: Handle) returns (ok: bool)
    requires k.Valid() && Follows(a, ViewOf(k)) && k.ext == a.ext + multiset{h.id} && k.LiveHandle(res)
    modifies k`ref, k`holding, k`ext
    ensures k.Valid() && ok && Undisturbed(a, ViewOf(k)) && DiagramIn(ViewOf(k), res) == old(k.Denoted(res))
    ensures h.id < |k.ref| && (k.ref[h.id] > 0 ==> k.LiveHandle(res))
    ensures h.id != TERMINAL && k.ref[h.id] == 0 ==> !k.LiveHandle(h)
    ensures Rooted(a.body, a.ext, h.id) ==> k.ref[h.id] > 0 && Lossless(old(k.Books()), [res.id], k.Books(), [res.id])
  {
    ghost var books, v := k.Books(), ViewOf(k);
    k.BooksInOrder();
    ok := k.RecDeref(h);
    k.BooksInOrder();
    assert a.ext + multiset{h.id} - multiset{h.id} == a.ext;
    if Rooted(a.body, a.ext, h.id) {
      StillRooted(a, ViewOf(k), h.id);
      RootedLives(k, h.id);
      GaveOneOfMore(books, k.Books(), h.id, [res.id]);
    }
  }

  /**
   * The cached branch with the reduction in it: the result stands for the reduced form.  It is alive if the cached
   * result still has references, so always if the caller can reach that; it is dead if it is the cached result
   * and that has none.
   */
  method ReduceCached(k: Kernel, h: Handle, graph: Tarjan, ghost min: nat) returns (res: Handle, ok: bool)
    requires k.Valid() && SENTINEL < h.id < |k.whole| && k.whole[h.id] && NodeOk(k.L, DiagramIn(ViewOf(k), h).node, min)
    requires Apart(k, graph) && Ready(k.L, graph, min) && Consistent(graph.rows)
    modifies graph.Repr(), k`made, k`ref, k`cache, k`holding, k`whole, k`shape, k`ext, k`lost, k.store
    ensures k.Valid() && ok && Undisturbed(old(ViewOf(k)), ViewOf(k))
    ensures Ready(k.L, graph, min) && graph.rows == old(graph.rows)
    ensures DiagramIn(ViewOf(k), res) == Reduce(k.L, old(DiagramIn(ViewOf(k), h)), Solutions(graph.rows))
    ensures h.id < |k.ref| && (k.ref[h.id] > 0 ==> k.LiveHandle(res)) && (old(InReach(k, h)) ==> k.LiveHandle(res))
    ensures k.ref[h.id] == 0 && res.id == h.id ==> !k.LiveHandle(res)
    ensures old(InReach(k, h)) ==> Lossless(old(k.Books()), [], k.Books(), [res.id])
  {
    ghost var a, books := ViewOf(k), k.Books();
    HoldCached(k, h);
    ghost var v, held := ViewOf(k), k.Books();
    res := ReduceRec(k, h, graph, min);
    FollowsOn(a, v, ViewOf(k));
    ghost var reduced := k.Books();
    ok := GiveBack(k, a, h, res);
    LosslessOn(books, [], held, [], reduced, [res.id]);
  }

  /**
   * cdd_reduce: the result is alive and stands for the reduced form; the references of the caller are as
   * before, and so is everything within reach.
   */
  method CddReduce(k: Kernel, dim: nat, h: Handle) returns (res: Handle)
    requires k.Valid() && InReach(k, h) && Normal(k.L, DiagramIn(ViewOf(k), h)) && dim > 0 && LevelsOk(k.L, dim)
    modifies k`made, k`ref, k`cache, k`holding, k`whole, k`shape, k`ext, k`lost, k.store
    ensures k.Valid() && Undisturbed(old(ViewOf(k)), ViewOf(k)) && k.LiveHandle(res)
    ensures ReducedForm(k.L, dim, old(DiagramIn(ViewOf(k), h)), k.Denoted(res))
    ensures Lossless(old(k.Books()), [], k.Books(), [res.id])
    ensures res == CDDFALSE <==> forall v: Valuation :: |v.clocks| == dim ==> !Eval(k.L, old(DiagramIn(ViewOf(k), h)), v)
    ensures res == CDDTRUE <==> forall v: Valuation :: |v.clocks| == dim ==> Eval(k.L, old(DiagramIn(ViewOf(k), h)), v)
  {
    ghost var d := DiagramIn(ViewOf(k), h);
    var graph := new Tarjan(dim);
    EmptyGraph(k.L, graph.rows, dim);
    res := ReduceRec(k, h, graph, 0);
    ReduceForm(k.L, dim, d);
    k.HandlesDiffer(res, CDDFALSE);
    k.HandlesDiffer(res, CDDTRUE);
  }
}
