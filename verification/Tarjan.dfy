/**
 * The incremental consistency check: Bellman-Ford with a first-in first-out queue and subtree
 * disassembly.  Distances and queue survive from one check to the next, across pushes and pops.
 */
module TarjanGraph {
  import opened Bounds
  import opened ConstraintGraph
  import opened Links
  import opened Sequences
  import opened SpanningTree
  import opened ShortestPaths

  /** Where edge k of vertex i is stored: every vertex owns dim - 1 consecutive places. */
  function Slot(dim: nat, i: nat, k: nat): int { i * dim - i + k }

  lemma {:induction false} SlotRange(dim: nat, i: nat, k: nat)
    requires i < dim && k < dim - 1
    ensures 0 <= Slot(dim, i, k) < dim * (dim - 1)
  {
    assert Slot(dim, i, k) == i * (dim - 1) + k;
    Scaled(i, dim - 1, dim - 1);
    assert dim * (dim - 1) == (dim - 1) * (dim - 1) + (dim - 1);
  }

  /** The places of different vertices never overlap. */
  lemma {:induction false} SlotInjective(dim: nat, i: nat, k: nat, j: nat, m: nat)
    requires i < dim && j < dim && k < dim - 1 && m < dim - 1
    requires Slot(dim, i, k) == Slot(dim, j, m)
    ensures i == j && k == m
  {
    assert Slot(dim, i, k) == i * (dim - 1) + k;
    assert Slot(dim, j, m) == j * (dim - 1) + m;
    if i < j { Scaled(i, j, dim - 1); } else if j < i { Scaled(j, i, dim - 1); }
  }

  /** A vertex has at most one edge to each other vertex, so its places suffice. */
  lemma {:induction false} RowFits(rows: Rows, i: nat)
    requires WellFormed(rows) && i < |rows|
    ensures |rows[i]| <= |rows| - 1
  {
    var q := seq(|rows[i]|, k requires 0 <= k < |rows[i]| => rows[i][k].v) + [i];
    NoRepeatShort(q, |rows|);
  }

  /** Some edge of u can improve a distance. */
  ghost predicate Improving(dist: seq<Distance>, rows: Rows, u: nat)
  {
    |dist| == |rows| && WellFormed(rows) && u < |rows| && exists k :: 0 <= k < |rows[u]| && Violated(dist, rows, u, k)
  }

  /** The queue holds the sources of all edges that can improve a distance, in order, and no other vertex. */
  ghost predicate OnlySources(queue: seq<nat>, dist: seq<Distance>, rows: Rows, n: nat)
  {
    && (forall x: nat :: x in queue <==> x < n && Improving(dist, rows, x))
    && forall a, b :: 0 <= a < b < |queue| ==> queue[a] < queue[b]
  }

  lemma {:induction false} SourcesNext(queue: seq<nat>, dist: seq<Distance>, rows: Rows, u: nat)
    requires OnlySources(queue, dist, rows, u)
    ensures u !in queue && OnlySources(if Improving(dist, rows, u) then queue + [u] else queue, dist, rows, u + 1)
  {
    forall a | 0 <= a < |queue| ensures queue[a] < u { assert queue[a] in queue; }
  }

  lemma {:induction false} SourcesComplete(queue: seq<nat>, dist: seq<Distance>, rows: Rows)
    requires |dist| == |rows| && WellFormed(rows) && OnlySources(queue, dist, rows, |rows|)
    ensures Complete({}, rows, dist, set x | x in queue, |rows|, 0)
  {
    forall w, m | 0 <= w < |rows| && 0 <= m < |rows[w]| && Violated(dist, rows, w, m) ensures w in queue {
      assert Improving(dist, rows, w);
    }
  }

  class Tarjan {
    const dim: nat
    const count: array<nat>
    const dist: array<Distance>
    const edges: array<Edge>
    const fifo: array<Link>
    const queued: array<bool>

    /** The graph as a value: the outgoing edges of every vertex, oldest first. */
    ghost var rows: Rows
    /** Vertices waiting to be scanned, in order. */
    ghost var queue: seq<nat>

    ghost function Repr(): set<object> { {this, count, dist, edges, fifo, queued} }

    /** The arrays hold the graph `rows`. */
    ghost predicate Stores()
      reads this, count, edges
    {
      && dim > 0 && |rows| == dim && WellFormed(rows)
      && count.Length == dist.Length == queued.Length == dim
      && edges.Length == dim * (dim - 1) && fifo.Length == dim + 1
      && (forall i :: 0 <= i < dim ==> count[i] == |rows[i]| <= dim - 1)
      && (forall i, k :: 0 <= i < dim && 0 <= k < |rows[i]| ==>
            0 <= Slot(dim, i, k) < edges.Length && edges[Slot(dim, i, k)] == rows[i][k])
    }

    /** The linked list and the bit set agree with `queue`. */
    ghost predicate QueueOk()
      reads this, fifo, queued
    {
      && queued.Length == dim
      && Represents(fifo[..], dim, queue)
      && (forall x :: 0 <= x < dim ==> (queued[x] <==> x in queue))
    }

    ghost function Waiting(): set<nat>
      reads this
    {
      set x | x in queue
    }

    /** Between calls every edge that could improve a distance leaves a queued vertex. */
    ghost predicate Valid()
      reads Repr()
    {
      Stores() && QueueOk() && Complete({}, rows, dist[..], Waiting(), dim, 0)
    }

    constructor (dim: nat)
      requires dim > 0
      ensures Valid() && this.dim == dim && rows == seq(dim, _ => [])
      ensures fresh(Repr())
    {
      this.dim := dim;
      count := new nat[dim](_ => 0);
      dist := new Distance[dim](_ => ZERO);
      edges := new Edge[dim * (dim - 1)](_ => Edge(0, 0));
      fifo := new Link[dim + 1](_ => Link(dim, dim));
      queued := new bool[dim](_ => false);
      rows := seq(dim, _ => []);
      queue := [];
    }

    method Enqueue(x: nat)
      requires QueueOk() && x < dim && !queued[x]
      modifies fifo, queued, this`queue
      ensures QueueOk() && queue == old(queue) + [x]
    {
      InsertAtTail(fifo[..], dim, queue, x);
      queued[x] := true;
      Insert(fifo, fifo[dim].prev, x);
      queue := queue + [x];
    }

    method Dequeue(x: nat)
      requires QueueOk() && x < dim && queued[x]
      modifies fifo, queued, this`queue
      ensures QueueOk() && x !in queue && Waiting() == old(Waiting()) - {x} && |queue| < old(|queue|)
      ensures old(queue) != [] && (old(queue)[0] == x ==> queue == old(queue)[1..])
    {
      ghost var i :| 0 <= i < |queue| && queue[i] == x;
      RemoveFromMiddle(fifo[..], dim, queue, i);
      queued[x] := false;
      Remove(fifo, x);
      queue := queue[..i] + queue[i + 1..];
    }

    /** Adds an edge, and queues its source if the edge improves the known distance of its target. */
    method Push(i: nat, j: nat, value: int)
      requires Valid() && i < dim && j < dim && i != j && value < INF
      requires forall k :: 0 <= k < |rows[i]| ==> rows[i][k].v != j
      modifies Repr()
      ensures Valid() && rows == old(rows)[i := old(rows)[i] + [Edge(j, value)]] && dist[..] == old(dist[..])
      ensures queue == if i !in old(queue) && Less(Add(old(dist[i]), value), old(dist[j])) then old(queue) + [i] else old(queue)
    {
      ghost var was := rows;
      StoreEdge(i, j, value);
      if !queued[i] && Less(Add(dist[i], value), dist[j]) {
        Enqueue(i);
      }
      forall w, m | 0 <= w < |rows| && 0 <= m < |rows[w]| && Violated(dist[..], rows, w, m) ensures w in Waiting() {
        if m < |was[w]| { assert Violated(dist[..], was, w, m); }
      }
    }

    /** Writes an edge to the next free place of its source. */
    method StoreEdge(i: nat, j: nat, value: int)
      requires Stores() && i < dim && j < dim && i != j && value < INF
      requires forall k :: 0 <= k < |rows[i]| ==> rows[i][k].v != j
      modifies this`rows, count, edges
      ensures Stores() && rows == old(rows)[i := old(rows)[i] + [Edge(j, value)]]
    {
      rows := rows[i := rows[i] + [Edge(j, value)]];
      RowFits(rows, i);
      var k := count[i];
      count[i] := k + 1;
      SlotRange(dim, i, k);
      edges[Slot(dim, i, k)] := Edge(j, value);
      forall a, m | 0 <= a < dim && 0 <= m < |rows[a]|
        ensures 0 <= Slot(dim, a, m) < edges.Length && edges[Slot(dim, a, m)] == rows[a][m]
      {
        SlotRange(dim, a, m);
        if Slot(dim, a, m) == Slot(dim, i, k) { SlotInjective(dim, a, m, i, k); }
      }
    }

    /** Drops the edge of i that was added last. */
    method Pop(i: nat)
      requires Valid() && i < dim && |rows[i]| > 0
      modifies Repr()
      ensures Valid() && rows == old(rows)[i := old(rows)[i][..|old(rows)[i]| - 1]] && dist[..] == old(dist[..]) && queue == old(queue)
    {
      ghost var was := rows;
      count[i] := count[i] - 1;
      rows := rows[i := rows[i][..|rows[i]| - 1]];
      forall w, m | 0 <= w < |rows| && 0 <= m < |rows[w]| && Violated(dist[..], rows, w, m) ensures w in Waiting() {
        assert Violated(dist[..], was, w, m);
      }
    }

    /** Looks for an edge of u that can improve a distance. */
    method FindImproving(u: nat) returns (found: bool)
      requires Stores() && u < dim
      ensures found <==> Improving(dist[..], rows, u)
    {
      found := false;
      var k := 0;
      while k < count[u]
        invariant k <= |rows[u]|
        invariant forall m :: 0 <= m < k ==> !Violated(dist[..], rows, u, m)
      {
        var edge := edges[Slot(dim, u, k)];
        assert edge == rows[u][k];
        if Less(Add(dist[u], edge.value), dist[edge.v]) {
          assert Violated(dist[..], rows, u, k);
          return true;
        }
        k := k + 1;
      }
    }

    /** Rebuilds the queue from scratch: the sources of all edges that can improve a distance. */
    method PopulateQueue()
      requires Stores()
      modifies fifo, queued, this`queue
      ensures Valid() && rows == old(rows) && OnlySources(queue, dist[..], rows, dim)
    {
      for i := 0 to dim
        invariant forall x :: 0 <= x < i ==> !queued[x]
      {
        queued[i] := false;
      }
      fifo[dim] := Link(dim, dim);
      queue := [];
      ghost var d := dist[..];
      for u := 0 to dim
        invariant Stores() && rows == old(rows) && QueueOk() && dist[..] == d && OnlySources(queue, d, rows, u)
      {
        var found := FindImproving(u);
        SourcesNext(queue, d, rows, u);
        if found {
          Enqueue(u);
        }
      }
      SourcesComplete(queue, d, rows);
    }

    /** Makes x a tree of its own and takes it off the queue; returns what followed it in preorder. */
    method CutOff(x: nat, preorder: array<Link>, depth: array<nat>) returns (next: nat)
      requires QueueOk() && preorder != fifo && preorder.Length == depth.Length == dim + 1 && x < dim
      modifies preorder, depth, fifo, queued, this`queue
      ensures next == old(preorder[x].next)
      ensures QueueOk() && Waiting() == old(Waiting()) - {x}
      ensures preorder[..] == old(preorder[..])[x := Link(dim, dim)]
      ensures depth[..] == old(depth[..])[x := 0]
    {
      if queued[x] {
        Dequeue(x);
      }
      next := preorder[x].next;
      preorder[x] := Link(dim, dim);
      depth[x] := 0;
    }

    /** The walk of Disassemble: cuts off every vertex listed below root until it meets node or leaves the subtree. */
    method CutSubtree(root: nat, node: nat, preorder: array<Link>, depth: array<nat>, ghost tree: Tree)
        returns (found: bool, current: nat, ghost last: nat)
      requires QueueOk() && TreeOk(tree, dim) && preorder != fifo
      requires preorder.Length == depth.Length == dim + 1 && Preorder(tree, dim, preorder[..], depth[..])
      requires root < dim && node < dim && root != node
      modifies preorder, depth, fifo, queued, this`queue
      ensures rows == old(rows)
      ensures found <==> Above(tree, root, node)
      ensures !found ==> Walked(tree, dim, old(preorder[..]), root, Below(tree, root), last)
      ensures !found ==> current == old(preorder[..])[last].next <= dim
      ensures !found ==> QueueOk() && Waiting() == old(Waiting()) - Below(tree, root)
      ensures !found ==> preorder[..] == Reset(old(preorder[..]), dim, Below(tree, root))
      ensures !found ==> depth[..] == ResetDepth(old(depth[..]), Below(tree, root))
    {
      ghost var links0, depth0 := preorder[..], depth[..];
      ghost var visited: set<nat> := {};
      last := root;
      FirstOk(tree, dim, links0, depth0, root);
      var rootDepth := depth[root];
      current := preorder[root].next;
      while depth[current] > rootDepth
        invariant rows == old(rows)
        invariant QueueOk() && Waiting() == old(Waiting()) - visited
        invariant Walked(tree, dim, links0, root, visited, last)
        invariant current == links0[last].next <= dim
        invariant current !in visited && node !in visited
        invariant preorder[..] == Reset(links0, dim, visited)
        invariant depth[..] == ResetDepth(depth0, visited)
        decreases Below(tree, root) - visited
      {
        CutOne(tree, dim, links0, depth0, root, visited, last, current);
        if current == node {
          found := true;
          return;
        }
        visited, last := visited + {current}, current;
        current := CutOff(current, preorder, depth);
      }
      WalkDone(tree, dim, links0, depth0, root, visited, last);
      found := false;
    }

    /**
     * Cuts the subtree of root apart and takes its vertices off the queue, unless node is found in
     * it; then the tree is left half cut apart.
     */
    method Disassemble(root: nat, node: nat, preorder: array<Link>, depth: array<nat>, ghost tree: Tree) returns (found: bool)
      requires QueueOk() && TreeOk(tree, dim) && preorder != fifo
      requires preorder.Length == depth.Length == dim + 1 && Preorder(tree, dim, preorder[..], depth[..])
      requires root < dim && node < dim && root != node
      modifies preorder, depth, fifo, queued, this`queue
      ensures rows == old(rows)
      ensures found <==> Above(tree, root, node)
      ensures !found ==> QueueOk() && Waiting() == old(Waiting()) - Below(tree, root)
      ensures !found ==> TreeOk(Detached(tree, root), dim)
      ensures !found ==> Preorder(Detached(tree, root), dim, preorder[..], depth[..])
    {
      ghost var links0, depth0 := preorder[..], depth[..];
      var current;
      ghost var last;
      found, current, last := CutSubtree(root, node, preorder, depth, tree);
      if !found {
        SplicedOk(tree, dim, links0, depth0, root, Below(tree, root), last);
        preorder[root] := preorder[root].(next := current);
        preorder[current] := preorder[current].(prev := root);
        assert preorder[..] == Spliced(links0, dim, root, Below(tree, root), current);
      }
    }

    /** Makes the childless vertex child a child of parent. */
    method LinkChild(parent: nat, child: nat, bound: int, preorder: array<Link>, depth: array<nat>, ghost tree: Tree)
        returns (ghost place: real)
      requires TreeOk(tree, dim) && preorder.Length == depth.Length == dim + 1
      requires Preorder(tree, dim, preorder[..], depth[..])
      requires parent < dim && child < dim && parent != child && forall x :: 0 <= x < dim ==> !Above(tree, child, x)
      modifies preorder, depth
      ensures TreeOk(Attached(tree, parent, child, bound, place), dim)
      ensures Preorder(Attached(tree, parent, child, bound, place), dim, preorder[..], depth[..])
    {
      RelinkedOk(tree, dim, preorder[..], depth[..], parent, child, bound);
      place := PlaceAfter(tree, dim, Removed(preorder[..], child), parent);
      ghost var links, depths := preorder[..], depth[..];
      Remove(preorder, child);
      depth[child] := depth[parent] + 1;
      Insert(preorder, parent, child);
      assert preorder[..] == Relinked(links, parent, child);
      assert depth[..] == depths[child := depths[parent] + 1];
    }

    /** Sets v's distance, cuts v's subtree apart, hangs v under u and queues v; reports if u is below v. */
    method Improve(u: nat, v: nat, b: int, preorder: array<Link>, depth: array<nat>, ghost tree: Tree)
        returns (cycle: bool, ghost place: real)
      requires QueueOk() && TreeOk(tree, dim) && preorder != fifo && dist.Length == dim
      requires preorder.Length == depth.Length == dim + 1 && Preorder(tree, dim, preorder[..], depth[..])
      requires u < dim && v < dim && u != v
      modifies dist, fifo, queued, this`queue, preorder, depth
      ensures rows == old(rows)
      ensures dist[..] == old(dist[..])[v := Add(old(dist[u]), b)]
      ensures cycle <==> Above(tree, v, u)
      ensures !cycle ==> QueueOk() && Waiting() == old(Waiting()) - Below(tree, v) + {v}
      ensures !cycle ==> TreeOk(Attached(Detached(tree, v), u, v, b, place), dim)
      ensures !cycle ==> Preorder(Attached(Detached(tree, v), u, v, b, place), dim, preorder[..], depth[..])
    {
      dist[v] := Add(dist[u], b);
      cycle := Disassemble(v, u, preorder, depth, tree);
      place := 0.0;
      if !cycle {
        DetachedOk(tree, dim, v);
        place := LinkChild(u, v, b, preorder, depth, Detached(tree, v));
        if !queued[v] {
          Enqueue(v);
        }
      }
    }

    /** Everything that holds between two edges of a scan. */
    ghost predicate Running(run: Run, preorder: array<Link>, depth: array<nat>, size: nat)
      reads Repr(), preorder, depth
    {
      && Stores() && QueueOk()
      && RunOk(run, rows, dist[..], Waiting())
      && preorder != fifo && depth != count
      && Preorder(run.tree, dim, preorder[..], depth[..])
      && Bounded(run, dist[..], size) && EdgesBounded(rows, size)
    }

    /** Follows edge k of u, which improves its target. */
    method Relax(u: nat, k: nat, preorder: array<Link>, depth: array<nat>, ghost run: Run, ghost size: nat)
        returns (cycle: bool, ghost run': Run)
      requires Running(run, preorder, depth, size)
      requires u < dim && k < |rows[u]| && Violated(dist[..], rows, u, k)
      requires u !in run.removed && u !in queue
      requires Complete(run.removed, rows, dist[..], Waiting(), u, k)
      modifies dist, fifo, queued, this`queue, preorder, depth
      ensures rows == old(rows) && Stores()
      ensures cycle ==> HasInconsistentCycle(rows)
      ensures !cycle ==> Running(run', preorder, depth, size) && u !in run'.removed && u !in queue
      ensures !cycle ==> Complete(run'.removed, rows, dist[..], Waiting(), u, k + 1)
      ensures !cycle ==> 0 <= Energy(dist[..], size, dim) < Energy(old(dist[..]), size, dim)
    {
      ghost var dist0, waiting0 := dist[..], Waiting();
      var edge := edges[Slot(dim, u, k)];
      var v, b := edge.v, edge.value;
      assert edge == rows[u][k] && HasEdge(rows, u, v, b);
      ghost var place;
      cycle, place := Improve(u, v, b, preorder, depth, run.tree);
      run' := run;
      if cycle {
        AncestorImprovedIsCycle(run, rows, dist0, waiting0, u, v, b);
      } else {
        run' := Relaxed(run, u, v, b, place);
        RelaxationStep(run, rows, dist0, waiting0, u, k, place, size);
      }
    }

    /** Scans every edge of u, which has just left the queue. */
    method Scan(u: nat, preorder: array<Link>, depth: array<nat>, ghost run: Run, ghost size: nat)
        returns (cycle: bool, ghost run': Run)
      requires Running(run, preorder, depth, size)
      requires u < dim && u !in run.removed && u !in queue
      requires Complete(run.removed, rows, dist[..], Waiting(), u, 0)
      modifies dist, fifo, queued, this`queue, preorder, depth
      ensures rows == old(rows) && Stores()
      ensures cycle ==> HasInconsistentCycle(rows)
      ensures !cycle ==> Running(run', preorder, depth, size)
      ensures !cycle ==> Complete(run'.removed, rows, dist[..], Waiting(), dim, 0)
      ensures !cycle ==> (0 <= Energy(dist[..], size, dim) < Energy(old(dist[..]), size, dim)
                          || (dist[..] == old(dist[..]) && queue == old(queue)))
    {
      run' := run;
      cycle := false;
      var k := 0;
      while k < count[u]
        invariant rows == old(rows) && k <= |rows[u]|
        invariant Running(run', preorder, depth, size) && u !in run'.removed && u !in queue
        invariant Complete(run'.removed, rows, dist[..], Waiting(), u, k)
        invariant 0 <= Energy(dist[..], size, dim) < Energy(old(dist[..]), size, dim)
               || (dist[..] == old(dist[..]) && queue == old(queue))
      {
        var edge := edges[Slot(dim, u, k)];
        assert edge == rows[u][k];
        if Less(Add(dist[u], edge.value), dist[edge.v]) {
          cycle, run' := Relax(u, k, preorder, depth, run', size);
          if cycle {
            return;
          }
        } else {
          assert !Violated(dist[..], rows, u, k);
          ScannedOver(run'.removed, rows, dist[..], Waiting(), u, k);
        }
        k := k + 1;
      }
    }

    /** The vertex that has waited longest. */
    method TakeFirst() returns (u: nat)
      requires QueueOk() && queue != []
      modifies fifo, queued, this`queue
      ensures QueueOk() && u == old(queue)[0] && queue == old(queue)[1..] && u !in queue && Waiting() == old(Waiting()) - {u}
    {
      FirstQueued(fifo[..], dim, queue);
      u := fifo[dim].next;
      Dequeue(u);
    }

    /** Takes the first vertex off the queue and scans it. */
    method ScanFirst(preorder: array<Link>, depth: array<nat>, ghost run: Run, ghost size: nat)
        returns (cycle: bool, ghost run': Run)
      requires Running(run, preorder, depth, size) && queue != []
      requires Complete(run.removed, rows, dist[..], Waiting(), dim, 0)
      modifies dist, fifo, queued, this`queue, preorder, depth
      ensures rows == old(rows) && Stores()
      ensures cycle ==> HasInconsistentCycle(rows)
      ensures !cycle ==> Running(run', preorder, depth, size)
      ensures !cycle ==> Complete(run'.removed, rows, dist[..], Waiting(), dim, 0)
      ensures 0 <= old(Energy(dist[..], size, dim))
      ensures !cycle ==> (0 <= Energy(dist[..], size, dim) < old(Energy(dist[..], size, dim))
                          || (dist[..] == old(dist[..]) && |queue| < old(|queue|)))
    {
      BoundedInRange(run, rows, dist[..], Waiting(), size);
      DequeuedOk(run, rows, dist[..], Waiting(), queue[0]);
      var u := TakeFirst();
      cycle, run' := Scan(u, preorder, depth, run, size);
    }

    /** Scans queued vertices until the queue is empty or an inconsistent cycle turns up. */
    method Settle() returns (cycle: bool)
      requires Valid()
      modifies dist, fifo, queued, this`queue
      ensures rows == old(rows) && Stores()
      ensures cycle ==> HasInconsistentCycle(rows)
      ensures !cycle ==> Valid() && Consistent(rows) && !HasInconsistentCycle(rows) && queue == []
    {
      var depth := new nat[dim + 1](_ => 0);
      var preorder := new Link[dim + 1](_ => Link(dim, dim));
      ghost var size := RangeExists(dist[..], rows);
      ghost var run := FreshRun(dist[..]);
      FreshRunOk(rows, dist[..], Waiting());
      FirstQueued(fifo[..], dim, queue);
      while fifo[dim].next != dim
        invariant rows == old(rows)
        invariant Running(run, preorder, depth, size)
        invariant Complete(run.removed, rows, dist[..], Waiting(), dim, 0)
        invariant fifo[dim].next == dim <==> queue == []
        decreases Energy(dist[..], size, dim), |queue|
      {
        cycle, run := ScanFirst(preorder, depth, run, size);
        if cycle {
          return;
        }
        FirstQueued(fifo[..], dim, queue);
      }
      EmptyQueueIsConsistent(run, rows, dist[..], Waiting());
      EmptyQueueIsStable(run, rows, dist[..], dim, 0);
      cycle := false;
    }

    /**
     * Decides whether some real clock valuation meets every constraint of the graph, whatever
     * distances earlier checks have left behind.
     */
    method CheckConsistent() returns (consistent: bool)
      requires Valid()
      modifies dist, fifo, queued, this`queue
      ensures Valid() && rows == old(rows)
      ensures consistent <==> Consistent(rows)
      ensures consistent <==> !HasInconsistentCycle(rows)
      ensures if consistent then queue == [] else OnlySources(queue, dist[..], rows, dim)
    {
      var cycle := Settle();
      if cycle {
        PopulateQueue();
        CycleRefutes(rows);
      }
      consistent := !cycle;
    }
  }
}
