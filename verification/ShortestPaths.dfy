/**
 * What one run of the incremental shortest-path check keeps true while it relaxes edges, cuts
 * subtrees apart and drops their vertices from the queue.
 */
module ShortestPaths {
  import opened Bounds
  import opened ConstraintGraph
  import opened SpanningTree

  /**
   * Proof state of a run.  `start` holds the distances the run began with.  `removed` holds the
   * vertices that a disassembly took out of the tree and the queue and that have not been improved
   * since; each remembers in `back` the edge it hung on, and `rank` grows towards older edges.
   */
  datatype Run = Run(start: seq<Distance>, tree: Tree, removed: set<nat>, back: seq<Parent>, rank: seq<int>, clock: int)

  ghost predicate RunOk(run: Run, rows: Rows, dist: seq<Distance>, queued: set<nat>)
  {
    var n := |rows|;
    && |dist| == |run.start| == |run.back| == |run.rank| == n
    && WellFormed(rows)
    && TreeOk(run.tree, n)
    && (forall x :: 0 <= x < n ==> VertexOk(run, rows, dist, x))
    && (forall x :: x in run.removed ==> x < n && x !in queued && RemovedOk(run, rows, dist, x))
  }

  /** Tree edges are tight, and untouched roots still have the distance they started with. */
  ghost predicate VertexOk(run: Run, rows: Rows, dist: seq<Distance>, x: nat)
    requires |dist| == |run.start| == |rows| && TreeOk(run.tree, |rows|) && x < |rows|
  {
    match run.tree.par[x]
    case Root => x in run.removed || dist[x] == run.start[x]
    case Child(p, b) => x !in run.removed && p !in run.removed && HasEdge(rows, p, x, b) && dist[x] == Add(dist[p], b)
  }

  /** A removed vertex can still be improved through its old edge, or that edge starts at another one. */
  ghost predicate RemovedOk(run: Run, rows: Rows, dist: seq<Distance>, x: nat)
    requires |dist| == |run.back| == |run.rank| == |rows| && x < |rows|
  {
    && run.back[x].Child?
    && var p, b := run.back[x].p, run.back[x].bound;
    && p < |rows| && HasEdge(rows, p, x, b)
    && !Less(dist[x], Add(dist[p], b))
    && (if p in run.removed then run.rank[x] < run.rank[p] else Less(Add(dist[p], b), dist[x]))
    && run.rank[x] <= run.clock
  }

  /** Every edge that can still improve a distance leaves a queued or removed vertex, or is still to be scanned. */
  ghost predicate Complete(removed: set<nat>, rows: Rows, dist: seq<Distance>, queued: set<nat>, u: nat, k: nat)
    requires |dist| == |rows| && WellFormed(rows)
  {
    forall w, m :: 0 <= w < |rows| && 0 <= m < |rows[w]| && Violated(dist, rows, w, m) ==>
      w in queued || w in removed || (w == u && k <= m)
  }

  lemma {:induction false} ScannedOver(removed: set<nat>, rows: Rows, dist: seq<Distance>, queued: set<nat>, u: nat, k: nat)
    requires |dist| == |rows| && WellFormed(rows) && u < |rows| && k < |rows[u]|
    requires Complete(removed, rows, dist, queued, u, k) && !Violated(dist, rows, u, k)
    ensures Complete(removed, rows, dist, queued, u, k + 1)
  {
  }

  ghost function FreshRun(dist: seq<Distance>): Run
  {
    var n := |dist|;
    Run(dist, Singletons(n), {}, seq(n, _ => Root), seq(n, _ => 0), 0)
  }

  lemma {:induction false} FreshRunOk(rows: Rows, dist: seq<Distance>, queued: set<nat>)
    requires |dist| == |rows| && WellFormed(rows)
    ensures RunOk(FreshRun(dist), rows, dist, queued)
  {
  }

  /** Taking u off the queue to scan it leaves all its edges to be looked at. */
  lemma {:induction false} DequeuedOk(run: Run, rows: Rows, dist: seq<Distance>, queued: set<nat>, u: nat)
    requires RunOk(run, rows, dist, queued) && Complete(run.removed, rows, dist, queued, |rows|, 0) && u in queued
    ensures RunOk(run, rows, dist, queued - {u}) && Complete(run.removed, rows, dist, queued - {u}, u, 0)
    ensures u !in run.removed
  {
  }

  // ----- One relaxation

  /** The run after edge (u, v, b) has improved v, v's subtree has been cut apart and v hangs under u. */
  ghost function Relaxed(run: Run, u: nat, v: nat, b: int, place: real): Run
    requires |run.tree.par| == |run.tree.path| == |run.tree.pos| == |run.back| == |run.rank|
    requires u < |run.tree.par| && v < |run.tree.par|
  {
    var n := |run.tree.par|;
    var below := Below(run.tree, v);
    Run(run.start,
        Attached(Detached(run.tree, v), u, v, b, place),
        run.removed - {v} + below,
        seq(n, x requires 0 <= x < n => if x in below then run.tree.par[x] else run.back[x]),
        seq(n, x requires 0 <= x < n => if x in below then run.clock + n + 1 - |run.tree.path[x]| else run.rank[x]),
        run.clock + n + 1)
  }

  lemma {:induction false} RelaxedVertex(run: Run, rows: Rows, dist: seq<Distance>, queued: set<nat>, u: nat, v: nat, b: int, place: real, x: nat)
    requires RunOk(run, rows, dist, queued)
    requires u < |rows| && v < |rows| && u != v && HasEdge(rows, u, v, b) && x < |rows|
    requires Less(Add(dist[u], b), dist[v])
    requires u !in run.removed && !Above(run.tree, v, u)
    requires TreeOk(Relaxed(run, u, v, b, place).tree, |rows|)
    ensures VertexOk(Relaxed(run, u, v, b, place), rows, dist[v := Add(dist[u], b)], x)
  {
    assert VertexOk(run, rows, dist, x);
    if x != v && run.tree.par[x].Child? && !Above(run.tree, v, x) {
      var p := run.tree.par[x].p;
      assert run.tree.path[x] == run.tree.path[p] + [p];
      assert p != v && !Above(run.tree, v, p);
    }
  }

  lemma {:induction false} RelaxedRemoved(run: Run, rows: Rows, dist: seq<Distance>, queued: set<nat>, u: nat, v: nat, b: int, place: real, x: nat)
    requires RunOk(run, rows, dist, queued)
    requires u < |rows| && v < |rows| && u != v && HasEdge(rows, u, v, b)
    requires Less(Add(dist[u], b), dist[v])
    requires x in Relaxed(run, u, v, b, place).removed
    ensures x < |rows| && RemovedOk(Relaxed(run, u, v, b, place), rows, dist[v := Add(dist[u], b)], x)
  {
    var n := |rows|;
    if x in Below(run.tree, v) {
      assert VertexOk(run, rows, dist, x);
      DepthBound(run.tree, n, x);
      var p := run.tree.par[x].p;
      assert run.tree.path[x] == run.tree.path[p] + [p];
      assert p == v || p in Below(run.tree, v);
    } else {
      assert RemovedOk(run, rows, dist, x);
      var p := run.back[x].p;
      if p in Below(run.tree, v) { DepthBound(run.tree, n, p); }
    }
  }

  /** A relaxation that finds no cycle keeps the run in order; the scan moves on by one edge. */
  lemma {:induction false} RelaxedOk(run: Run, rows: Rows, dist: seq<Distance>, queued: set<nat>, u: nat, k: nat, place: real)
    requires RunOk(run, rows, dist, queued)
    requires u < |rows| && k < |rows[u]| && Violated(dist, rows, u, k)
    requires u !in run.removed && u !in queued && !Above(run.tree, rows[u][k].v, u)
    requires Complete(run.removed, rows, dist, queued, u, k)
    requires TreeOk(Relaxed(run, u, rows[u][k].v, rows[u][k].value, place).tree, |rows|)
    ensures var v, b := rows[u][k].v, rows[u][k].value;
            var run' := Relaxed(run, u, v, b, place);
            var dist' := dist[v := Add(dist[u], b)];
            var queued' := queued - Below(run.tree, v) + {v};
            && RunOk(run', rows, dist', queued')
            && Complete(run'.removed, rows, dist', queued', u, k + 1)
            && u !in run'.removed && u !in queued'
  {
    var v, b := rows[u][k].v, rows[u][k].value;
    assert rows[u][k] == Edge(v, b) && HasEdge(rows, u, v, b);
    var run', dist' := Relaxed(run, u, v, b, place), dist[v := Add(dist[u], b)];
    forall x | 0 <= x < |rows| ensures VertexOk(run', rows, dist', x) {
      RelaxedVertex(run, rows, dist, queued, u, v, b, place, x);
    }
    forall x | x in run'.removed
      ensures x < |rows| && x !in queued - Below(run.tree, v) + {v}
      ensures RemovedOk(run', rows, dist', x)
    {
      RelaxedRemoved(run, rows, dist, queued, u, v, b, place, x);
    }
    RelaxedComplete(run, rows, dist, queued, u, k);
  }

  lemma {:induction false} RelaxedComplete(run: Run, rows: Rows, dist: seq<Distance>, queued: set<nat>, u: nat, k: nat)
    requires |dist| == |rows| && WellFormed(rows)
    requires u < |rows| && k < |rows[u]| && Violated(dist, rows, u, k)
    requires Complete(run.removed, rows, dist, queued, u, k)
    ensures var v, b := rows[u][k].v, rows[u][k].value;
            Complete(run.removed - {v} + Below(run.tree, v), rows, dist[v := Add(dist[u], b)], queued - Below(run.tree, v) + {v}, u, k + 1)
  {
    var v, b := rows[u][k].v, rows[u][k].value;
    var dist' := dist[v := Add(dist[u], b)];
    forall w, m | 0 <= w < |rows| && 0 <= m < |rows[w]| && Violated(dist', rows, w, m) && w != v
      ensures Violated(dist, rows, w, m) && !(w == u && m == k)
    {
    }
  }

  // ----- What stopping means

  lemma {:induction false} HighestRank(rank: seq<int>, s: set<nat>) returns (m: nat)
    requires s != {} && forall x :: x in s ==> x < |rank|
    ensures m in s && forall x :: x in s ==> rank[x] <= rank[m]
    decreases |s|
  {
    var a :| a in s;
    if s == {a} {
      m := a;
    } else {
      m := HighestRank(rank, s - {a});
      if rank[m] < rank[a] { m := a; }
    }
  }

  /** The vertex removed last can still be improved from a vertex that has not been removed. */
  lemma {:induction false} LastRemoved(run: Run, rows: Rows, dist: seq<Distance>, queued: set<nat>, x: nat) returns (p: nat, m: nat)
    requires RunOk(run, rows, dist, queued)
    requires x in run.removed && forall y :: y in run.removed ==> run.rank[y] <= run.rank[x]
    ensures p < |rows| && p !in run.removed && m < |rows[p]| && Violated(dist, rows, p, m)
  {
    assert RemovedOk(run, rows, dist, x);
    p := run.back[x].p;
    m :| 0 <= m < |rows[p]| && rows[p][m] == Edge(x, run.back[x].bound);
  }

  /** With an empty queue nothing is left over: every removed vertex has been improved again. */
  lemma {:induction false} EmptyQueueIsStable(run: Run, rows: Rows, dist: seq<Distance>, u: nat, k: nat)
    requires RunOk(run, rows, dist, {}) && Complete(run.removed, rows, dist, {}, u, k)
    requires u < |rows| ==> |rows[u]| <= k
    ensures Stable(dist, rows)
  {
    if run.removed != {} {
      var x := HighestRank(run.rank, run.removed);
      var p, m := LastRemoved(run, rows, dist, {}, x);
    }
  }

  /** Once the queue has run empty the constraints have a solution. */
  lemma {:induction false} EmptyQueueIsConsistent(run: Run, rows: Rows, dist: seq<Distance>, queued: set<nat>)
    requires RunOk(run, rows, dist, queued) && Complete(run.removed, rows, dist, queued, |rows|, 0) && queued == {}
    ensures Consistent(rows) && !HasInconsistentCycle(rows)
  {
    EmptyQueueIsStable(run, rows, dist, |rows|, 0);
    StableGivesSolution(dist, rows);
    if HasInconsistentCycle(rows) { CycleRefutes(rows); }
  }

  /** The tree path from an ancestor down to a vertex is a walk of the graph with the same length. */
  lemma {:induction false} TreePath(run: Run, rows: Rows, dist: seq<Distance>, queued: set<nat>, v: nat, u: nat) returns (walk: seq<Step>)
    requires RunOk(run, rows, dist, queued) && Above(run.tree, v, u)
    ensures walk != [] && walk[0].from == v && IsWalk(rows, walk, u)
    ensures dist[u] == Plus(dist[v], Length(walk))
    decreases |run.tree.path[u]|
  {
    assert VertexOk(run, rows, dist, u);
    var p, b := run.tree.par[u].p, run.tree.par[u].bound;
    assert run.tree.path[u] == run.tree.path[p] + [p];
    if p == v {
      walk := [];
    } else {
      walk := TreePath(run, rows, dist, queued, v, p);
    }
    WalkExtend(rows, walk, p, b, u);
    walk := walk + [Step(p, b)];
  }

  /** Improving an ancestor of the scanned vertex closes an inconsistent cycle. */
  lemma {:induction false} AncestorImprovedIsCycle(run: Run, rows: Rows, dist: seq<Distance>, queued: set<nat>, u: nat, v: nat, b: int)
    requires RunOk(run, rows, dist, queued) && Above(run.tree, v, u)
    requires HasEdge(rows, u, v, b) && Less(Add(dist[u], b), dist[v])
    ensures HasInconsistentCycle(rows)
  {
    var walk := TreePath(run, rows, dist, queued, v, u);
    WalkExtend(rows, walk, u, b, v);
    assert IsInconsistentCycle(rows, walk + [Step(u, b)]);
  }

  // ----- Why a run ends

  /** No distance of the run leaves the range spanned by the starting distances and `depth` edges. */
  ghost predicate InRange(d: Distance, size: nat, depth: nat)
  {
    0 <= d.value + size + depth * size && 0 <= d.strictness + size && d.strictness <= size + depth
  }

  ghost predicate Bounded(run: Run, dist: seq<Distance>, size: nat)
    requires |run.tree.path| == |dist|
  {
    forall x :: 0 <= x < |dist| ==>
      InRange(dist[x], size, if x in run.removed then |dist| else |run.tree.path[x]|)
  }

  ghost predicate EdgesBounded(rows: Rows, size: nat)
  {
    forall u, k :: 0 <= u < |rows| && 0 <= k < |rows[u]| ==> 0 <= Limit(rows[u][k].value) + size
  }

  lemma {:induction false} DeeperInRange(d: Distance, size: nat, a: nat, b: nat)
    requires InRange(d, size, a) && a <= b
    ensures InRange(d, size, b)
  {
    assert b * size == a * size + (b - a) * size;
  }

  lemma {:induction false} StepInRange(d: Distance, size: nat, depth: nat, b: int)
    requires InRange(d, size, depth) && 0 <= Limit(b) + size
    ensures InRange(Add(d, b), size, depth + 1)
  {
    assert (depth + 1) * size == depth * size + size;
  }

  lemma {:induction false} RelaxedBounded(run: Run, rows: Rows, dist: seq<Distance>, queued: set<nat>, u: nat, k: nat, place: real, size: nat)
    requires RunOk(run, rows, dist, queued) && Bounded(run, dist, size) && EdgesBounded(rows, size)
    requires u < |rows| && k < |rows[u]| && u !in run.removed && !Above(run.tree, rows[u][k].v, u)
    ensures var v, b := rows[u][k].v, rows[u][k].value;
            Bounded(Relaxed(run, u, v, b, place), dist[v := Add(dist[u], b)], size)
  {
    var n, v, b := |rows|, rows[u][k].v, rows[u][k].value;
    var run', dist' := Relaxed(run, u, v, b, place), dist[v := Add(dist[u], b)];
    forall x | 0 <= x < n
      ensures InRange(dist'[x], size, if x in run'.removed then n else |run'.tree.path[x]|)
    {
      assert InRange(dist[x], size, if x in run.removed then n else |run.tree.path[x]|);
      DepthBound(run.tree, n, x);
      if x == v {
        assert InRange(dist[u], size, |run.tree.path[u]|);
        StepInRange(dist[u], size, |run.tree.path[u]|, b);
      } else if x in Below(run.tree, v) {
        if x !in run.removed { DeeperInRange(dist[x], size, |run.tree.path[x]|, n); }
      }
    }
  }

  /** Turns a distance in range into a natural number, keeping the order. */
  ghost function Potential(d: Distance, size: nat, n: nat): int
  {
    (d.value + size + n * size) * (2 * size + n + 1) + (size + n - d.strictness)
  }

  lemma {:induction false} PotentialFalls(d': Distance, d: Distance, size: nat, n: nat)
    requires InRange(d', size, n) && InRange(d, size, n) && Less(d', d)
    ensures 0 <= Potential(d', size, n) < Potential(d, size, n)
  {
    var w := 2 * size + n + 1;
    var a', a := d'.value + size + n * size, d.value + size + n * size;
    Scaled(a', a, w);
    var m', m := a' * w, a * w;
    assert Potential(d', size, n) == m' + (size + n - d'.strictness);
    assert Potential(d, size, n) == m + (size + n - d.strictness);
  }

  ghost function Energy(dist: seq<Distance>, size: nat, n: nat): int
  {
    if dist == [] then 0 else Energy(dist[..|dist| - 1], size, n) + Potential(dist[|dist| - 1], size, n)
  }

  lemma {:induction false} EnergyUpdate(dist: seq<Distance>, v: nat, d: Distance, size: nat, n: nat)
    requires v < |dist|
    ensures Energy(dist[v := d], size, n) == Energy(dist, size, n) - Potential(dist[v], size, n) + Potential(d, size, n)
  {
    var init := dist[..|dist| - 1];
    if v == |dist| - 1 {
      assert dist[v := d][..|dist| - 1] == init;
    } else {
      assert dist[v := d][..|dist| - 1] == init[v := d];
      EnergyUpdate(init, v, d, size, n);
    }
  }

  lemma {:induction false} EnergyNonNegative(dist: seq<Distance>, size: nat, n: nat)
    requires forall x :: 0 <= x < |dist| ==> InRange(dist[x], size, n)
    ensures 0 <= Energy(dist, size, n)
  {
    if dist != [] {
      EnergyNonNegative(dist[..|dist| - 1], size, n);
      var d := dist[|dist| - 1];
      assert 0 <= (d.value + size + n * size) * (2 * size + n + 1);
    }
  }

  lemma {:induction false} BoundedInRange(run: Run, rows: Rows, dist: seq<Distance>, queued: set<nat>, size: nat)
    requires RunOk(run, rows, dist, queued) && Bounded(run, dist, size)
    ensures forall x :: 0 <= x < |dist| ==> InRange(dist[x], size, |dist|)
    ensures 0 <= Energy(dist, size, |dist|)
  {
    forall x | 0 <= x < |dist| ensures InRange(dist[x], size, |dist|) {
      DepthBound(run.tree, |rows|, x);
      if x !in run.removed { DeeperInRange(dist[x], size, |run.tree.path[x]|, |dist|); }
    }
    EnergyNonNegative(dist, size, |dist|);
  }

  /** Each relaxation spends energy, and energy never becomes negative: a run relaxes finitely often. */
  lemma {:induction false} RelaxationSpendsEnergy(run: Run, rows: Rows, dist: seq<Distance>, queued: set<nat>, queued': set<nat>, u: nat, k: nat, place: real, size: nat)
    requires RunOk(run, rows, dist, queued) && Bounded(run, dist, size) && EdgesBounded(rows, size)
    requires u < |rows| && k < |rows[u]| && u !in run.removed && !Above(run.tree, rows[u][k].v, u)
    requires Violated(dist, rows, u, k)
    requires RunOk(Relaxed(run, u, rows[u][k].v, rows[u][k].value, place), rows, dist[rows[u][k].v := Add(dist[u], rows[u][k].value)], queued')
    ensures var v, b := rows[u][k].v, rows[u][k].value;
            var dist' := dist[v := Add(dist[u], b)];
            && Bounded(Relaxed(run, u, v, b, place), dist', size)
            && 0 <= Energy(dist', size, |dist|) < Energy(dist, size, |dist|)
  {
    var v, b := rows[u][k].v, rows[u][k].value;
    var run', dist' := Relaxed(run, u, v, b, place), dist[v := Add(dist[u], b)];
    RelaxedBounded(run, rows, dist, queued, u, k, place, size);
    BoundedInRange(run, rows, dist, queued, size);
    BoundedInRange(run', rows, dist', queued', size);
    assert InRange(dist'[v], size, |dist|);
    PotentialFalls(dist'[v], dist[v], size, |dist|);
    EnergyUpdate(dist, v, dist'[v], size, |dist|);
  }

  /** One relaxation without a cycle: the run stays in order, the scan moves on, energy is spent. */
  lemma {:induction false} RelaxationStep(run: Run, rows: Rows, dist: seq<Distance>, queued: set<nat>, u: nat, k: nat, place: real, size: nat)
    requires RunOk(run, rows, dist, queued) && Bounded(run, dist, size) && EdgesBounded(rows, size)
    requires u < |rows| && k < |rows[u]| && Violated(dist, rows, u, k)
    requires u !in run.removed && u !in queued && !Above(run.tree, rows[u][k].v, u)
    requires Complete(run.removed, rows, dist, queued, u, k)
    requires TreeOk(Relaxed(run, u, rows[u][k].v, rows[u][k].value, place).tree, |rows|)
    ensures var v, b := rows[u][k].v, rows[u][k].value;
            var run' := Relaxed(run, u, v, b, place);
            var dist' := dist[v := Add(dist[u], b)];
            var queued' := queued - Below(run.tree, v) + {v};
            && RunOk(run', rows, dist', queued') && Bounded(run', dist', size)
            && Complete(run'.removed, rows, dist', queued', u, k + 1)
            && u !in run'.removed && u !in queued'
            && 0 <= Energy(dist', size, |dist|) < Energy(dist, size, |dist|)
  {
    RelaxedOk(run, rows, dist, queued, u, k, place);
    RelaxationSpendsEnergy(run, rows, dist, queued, queued - Below(run.tree, rows[u][k].v) + {rows[u][k].v}, u, k, place, size);
  }

  /** Some size covers every starting distance and every edge. */
  lemma {:induction false} RangeExists(dist: seq<Distance>, rows: Rows) returns (size: nat)
    ensures EdgesBounded(rows, size)
    ensures forall x :: 0 <= x < |dist| ==> InRange(dist[x], size, 0)
  {
    size := 0;
    for i := 0 to |dist|
      invariant forall x :: 0 <= x < i ==> InRange(dist[x], size, 0)
    {
      var d := dist[i];
      size := Max(size, Max(-d.value, Max(-d.strictness, d.strictness)));
    }
    for u := 0 to |rows|
      invariant forall x :: 0 <= x < |dist| ==> InRange(dist[x], size, 0)
      invariant forall w, k :: 0 <= w < u && 0 <= k < |rows[w]| ==> 0 <= Limit(rows[w][k].value) + size
    {
      for k := 0 to |rows[u]|
        invariant forall x :: 0 <= x < |dist| ==> InRange(dist[x], size, 0)
        invariant forall w, k :: 0 <= w < u && 0 <= k < |rows[w]| ==> 0 <= Limit(rows[w][k].value) + size
        invariant forall m :: 0 <= m < k ==> 0 <= Limit(rows[u][m].value) + size
      {
        size := Max(size, -Limit(rows[u][k].value));
      }
    }
  }

  function Max(a: int, b: int): int { if a < b then b else a }
}
