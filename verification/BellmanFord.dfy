/**
 * The reference consistency check: plain Bellman-Ford over a stack of constraints, with at most
 * one pass per clock, starting from whatever distances the last check left behind.
 */
module BellmanFordGraph {
  import opened Bounds
  import opened ConstraintGraph
  import opened Sequences

  /** x_i - x_j is bounded by value. */
  datatype Arc = Arc(i: nat, j: nat, value: int)

  /** The graph a stack of constraints denotes. */
  function RowsOf(dim: nat, stack: seq<Arc>): (rows: Rows)
    ensures |rows| == dim
  {
    if stack == [] then seq(dim, _ => [])
    else
      var rows := RowsOf(dim, stack[..|stack| - 1]);
      var arc := stack[|stack| - 1];
      if arc.i < dim then rows[arc.i := rows[arc.i] + [Edge(arc.j, arc.value)]] else rows
  }

  /** No constraint is between the clocks of this one, in this order. */
  ghost predicate NewPair(stack: seq<Arc>, arc: Arc)
  {
    forall m :: 0 <= m < |stack| ==> stack[m].i != arc.i || stack[m].j != arc.j
  }

  /** Every constraint was between a new pair of clocks when it was pushed. */
  ghost predicate PairsDiffer(stack: seq<Arc>)
  {
    stack == [] || (PairsDiffer(stack[..|stack| - 1]) && NewPair(stack[..|stack| - 1], stack[|stack| - 1]))
  }

  ghost predicate StackOk(dim: nat, stack: seq<Arc>)
  {
    && (forall m :: 0 <= m < |stack| ==> stack[m].i < dim && stack[m].j < dim && stack[m].i != stack[m].j && stack[m].value < INF)
    && PairsDiffer(stack)
  }

  lemma {:induction false} RowsHoldStack(dim: nat, stack: seq<Arc>)
    requires StackOk(dim, stack)
    ensures forall i, j, b :: HasEdge(RowsOf(dim, stack), i, j, b) <==> Arc(i, j, b) in stack
    ensures WellFormed(RowsOf(dim, stack))
  {
    if stack != [] {
      var init: seq<Arc>, arc: Arc := stack[..|stack| - 1], stack[|stack| - 1];
      RowsHoldStack(dim, init);
      assert stack == init + [arc];
      AppendArc(RowsOf(dim, init), init, arc);
    }
  }

  lemma {:induction false} AppendArc(rows: Rows, stack: seq<Arc>, arc: Arc)
    requires WellFormed(rows) && arc.i < |rows| && arc.j < |rows| && arc.i != arc.j && arc.value < INF
    requires forall i, j, b :: HasEdge(rows, i, j, b) <==> Arc(i, j, b) in stack
    requires forall m :: 0 <= m < |stack| ==> stack[m].i != arc.i || stack[m].j != arc.j
    ensures var rows' := rows[arc.i := rows[arc.i] + [Edge(arc.j, arc.value)]];
            && WellFormed(rows')
            && forall i, j, b :: HasEdge(rows', i, j, b) <==> Arc(i, j, b) in stack + [arc]
  {
    forall k | 0 <= k < |rows[arc.i]| ensures rows[arc.i][k].v != arc.j {
      var e: Edge := rows[arc.i][k];
      assert HasEdge(rows, arc.i, e.v, e.value);
      assert Arc(arc.i, e.v, e.value) in stack;
    }
    var rows' := rows[arc.i := rows[arc.i] + [Edge(arc.j, arc.value)]];
    forall i, j, b ensures HasEdge(rows', i, j, b) <==> Arc(i, j, b) in stack + [arc] {
      assert HasEdge(rows', i, j, b) <==> HasEdge(rows, i, j, b) || Arc(i, j, b) == arc;
    }
  }

  ghost predicate Loose(dist: seq<Distance>, arc: Arc)
    requires arc.i < |dist| && arc.j < |dist|
  {
    Less(Add(dist[arc.i], arc.value), dist[arc.j])
  }

  lemma {:induction false} StableStack(dim: nat, stack: seq<Arc>, dist: seq<Distance>)
    requires StackOk(dim, stack) && |dist| == dim
    requires forall m :: 0 <= m < |stack| ==> !Loose(dist, stack[m])
    ensures WellFormed(RowsOf(dim, stack)) && Stable(dist, RowsOf(dim, stack))
  {
    RowsHoldStack(dim, stack);
    var rows := RowsOf(dim, stack);
    forall u, k | 0 <= u < |rows| && 0 <= k < |rows[u]| ensures !Violated(dist, rows, u, k) {
      assert HasEdge(rows, u, rows[u][k].v, rows[u][k].value);
      var m :| 0 <= m < |stack| && stack[m] == Arc(u, rows[u][k].v, rows[u][k].value);
    }
  }

  lemma {:induction false} StableStackConsistent(dim: nat, stack: seq<Arc>, dist: seq<Distance>)
    requires StackOk(dim, stack) && |dist| == dim
    requires forall m :: 0 <= m < |stack| ==> !Loose(dist, stack[m])
    ensures Satisfies(Witness(dist), RowsOf(dim, stack)) && Consistent(RowsOf(dim, stack))
    ensures !HasInconsistentCycle(RowsOf(dim, stack))
  {
    StableStack(dim, stack, dist);
    StableGivesSolution(dist, RowsOf(dim, stack));
    if HasInconsistentCycle(RowsOf(dim, stack)) { CycleRefutes(RowsOf(dim, stack)); }
  }

  // ----- How each distance came about

  /** The current distance of a vertex: a starting distance and the walk that was added to it. */
  datatype Trail = Trail(start: Distance, walk: seq<Step>)

  function Stop(walk: seq<Step>, end: nat, k: nat): nat
  {
    if k < |walk| then walk[k].from else end
  }

  ghost predicate TrailOk(trail: Trail, rows: Rows, dist: seq<Distance>, v: nat)
    requires |dist| == |rows| && v < |rows|
  {
    var walk := trail.walk;
    && IsWalk(rows, walk, v)
    && dist[v] == Plus(trail.start, Length(walk))
    && (forall k :: 0 <= k <= |walk| ==>
          Stop(walk, v, k) < |rows| && !Less(Plus(trail.start, Length(walk[..k])), dist[Stop(walk, v, k)]))
    && (forall a, b :: 0 <= a < b <= |walk| ==> Stop(walk, v, a) != Stop(walk, v, b))
  }

  ghost function FreshTrails(dist: seq<Distance>): seq<Trail>
  {
    seq(|dist|, x requires 0 <= x < |dist| => Trail(dist[x], []))
  }

  ghost predicate TrailsOk(trails: seq<Trail>, rows: Rows, dist: seq<Distance>)
  {
    |trails| == |dist| == |rows| && forall v :: 0 <= v < |rows| ==> TrailOk(trails[v], rows, dist, v)
  }

  /** Pass p has dealt with the first e constraints: whatever is loose now hangs on a long walk. */
  ghost predicate PassOk(trails: seq<Trail>, stack: seq<Arc>, dist: seq<Distance>, p: nat, e: nat)
  {
    && |trails| == |dist| && StackOk(|dist|, stack)
    && forall m :: 0 <= m < |stack| && Loose(dist, stack[m]) ==>
         |trails[stack[m].i].walk| >= (if m < e then p else p - 1)
  }

  lemma {:induction false} SplitWalk(rows: Rows, front: seq<Step>, back: seq<Step>, end: nat)
    requires IsWalk(rows, front + back, end)
    ensures IsWalk(rows, back, end)
    ensures Length(front + back) == Plus(Length(front), Length(back))
    decreases |back|
  {
    var walk := front + back;
    if back == [] {
      assert walk == front;
      PlusZero(Length(front));
    } else {
      var init := back[..|back| - 1];
      assert walk[..|walk| - 1] == front + init && walk[|walk| - 1] == back[|back| - 1];
      SplitWalk(rows, front, init, back[|back| - 1].from);
      AddAfterPlus(Length(front), Length(init), back[|back| - 1].bound);
      assert Length(back) == Add(Length(init), back[|back| - 1].bound);
      assert Length(walk) == Plus(Length(front), Length(back));
    }
  }

  lemma {:induction false} PlusZero(a: Distance)
    ensures Plus(a, ZERO) == a
  {
  }

  lemma {:induction false} AddAfterPlus(a: Distance, b: Distance, bound: int)
    ensures Add(Plus(a, b), bound) == Plus(a, Add(b, bound))
  {
  }

  /** Returning to a vertex of the trail with a smaller distance closes an inconsistent cycle. */
  lemma {:induction false} RevisitIsCycle(trail: Trail, rows: Rows, dist: seq<Distance>, u: nat, v: nat, b: int, k: nat)
    requires |dist| == |rows| && u < |rows| && v < |rows| && TrailOk(trail, rows, dist, u)
    requires HasEdge(rows, u, v, b) && Less(Add(dist[u], b), dist[v])
    requires k <= |trail.walk| && Stop(trail.walk, u, k) == v
    ensures HasInconsistentCycle(rows)
  {
    var walk := trail.walk[k..];
    assert trail.walk == trail.walk[..k] + walk;
    SplitWalk(rows, trail.walk[..k], walk, u);
    WalkExtend(rows, walk, u, b, v);
    assert IsInconsistentCycle(rows, walk + [Step(u, b)]);
  }

  /** Relaxing without revisiting a vertex extends the trail of the source. */
  lemma {:induction false} ExtendTrail(trail: Trail, rows: Rows, dist: seq<Distance>, u: nat, v: nat, b: int)
    requires |dist| == |rows| && u < |rows| && v < |rows| && u != v && TrailOk(trail, rows, dist, u)
    requires HasEdge(rows, u, v, b) && Less(Add(dist[u], b), dist[v])
    requires forall k :: 0 <= k <= |trail.walk| ==> Stop(trail.walk, u, k) != v
    ensures TrailOk(Trail(trail.start, trail.walk + [Step(u, b)]), rows, dist[v := Add(dist[u], b)], v)
  {
    WalkExtend(rows, trail.walk, u, b, v);
    var walk, walk', dist' := trail.walk, trail.walk + [Step(u, b)], dist[v := Add(dist[u], b)];
    forall k | 0 <= k <= |walk'|
      ensures Stop(walk', v, k) < |rows| && !Less(Plus(trail.start, Length(walk'[..k])), dist'[Stop(walk', v, k)])
      ensures k <= |walk| ==> Stop(walk', v, k) == Stop(walk, u, k)
    {
      if k <= |walk| {
        assert walk'[..k] == walk[..k];
        if k == |walk| { assert walk[..k] == walk; }
      } else {
        assert walk'[..k] == walk';
      }
    }
  }

  lemma {:induction false} FreshTrailsOk(dim: nat, stack: seq<Arc>, dist: seq<Distance>)
    requires |dist| == dim && StackOk(dim, stack)
    ensures TrailsOk(FreshTrails(dist), RowsOf(dim, stack), dist)
    ensures PassOk(FreshTrails(dist), stack, dist, 1, 0)
  {
  }

  /** One constraint of a pass: the invariants survive, or the graph is inconsistent. */
  lemma {:induction false} RelaxArc(trails: seq<Trail>, stack: seq<Arc>, dist: seq<Distance>, p: nat, e: nat) returns (trails': seq<Trail>)
    requires 0 < p && e < |stack| && StackOk(|dist|, stack) && Loose(dist, stack[e])
    requires TrailsOk(trails, RowsOf(|dist|, stack), dist) && PassOk(trails, stack, dist, p, e)
    ensures var dist' := dist[stack[e].j := Add(dist[stack[e].i], stack[e].value)];
            HasInconsistentCycle(RowsOf(|dist|, stack))
            || (TrailsOk(trails', RowsOf(|dist|, stack), dist') && PassOk(trails', stack, dist', p, e + 1))
  {
    var rows := RowsOf(|dist|, stack);
    RowsHoldStack(|dist|, stack);
    var u, v, b := stack[e].i, stack[e].j, stack[e].value;
    assert HasEdge(rows, u, v, b) by { assert stack[e] == Arc(u, v, b); }
    var trail := trails[u];
    var longer := Trail(trail.start, trail.walk + [Step(u, b)]);
    trails' := trails[v := longer];
    if k :| 0 <= k <= |trail.walk| && Stop(trail.walk, u, k) == v {
      RevisitIsCycle(trail, rows, dist, u, v, b, k);
    } else {
      ExtendTrail(trail, rows, dist, u, v, b);
      OthersKeepTrails(trails, rows, dist, v, Add(dist[u], b), longer);
      PassOn(trails, stack, dist, p, e, longer);
    }
  }

  lemma {:induction false} PassOn(trails: seq<Trail>, stack: seq<Arc>, dist: seq<Distance>, p: nat, e: nat, longer: Trail)
    requires 0 < p && e < |stack| && StackOk(|dist|, stack) && Loose(dist, stack[e])
    requires PassOk(trails, stack, dist, p, e)
    requires |longer.walk| == |trails[stack[e].i].walk| + 1
    ensures PassOk(trails[stack[e].j := longer], stack, dist[stack[e].j := Add(dist[stack[e].i], stack[e].value)], p, e + 1)
  {
    var v := stack[e].j;
    var dist' := dist[v := Add(dist[stack[e].i], stack[e].value)];
    forall m | 0 <= m < |stack| && Loose(dist', stack[m]) && stack[m].i != v
      ensures Loose(dist, stack[m]) && m != e
    {
    }
  }

  lemma {:induction false} OthersKeepTrails(trails: seq<Trail>, rows: Rows, dist: seq<Distance>, v: nat, d: Distance, longer: Trail)
    requires TrailsOk(trails, rows, dist) && v < |rows| && Less(d, dist[v])
    requires TrailOk(longer, rows, dist[v := d], v)
    ensures TrailsOk(trails[v := longer], rows, dist[v := d])
  {
    forall w | 0 <= w < |rows| && w != v ensures TrailOk(trails[w], rows, dist[v := d], w) {
      OthersKeepTrail(trails[w], rows, dist, v, d, w);
    }
  }

  lemma {:induction false} OthersKeepTrail(trail: Trail, rows: Rows, dist: seq<Distance>, v: nat, d: Distance, w: nat)
    requires |dist| == |rows| && w < |rows| && v < |rows| && v != w && TrailOk(trail, rows, dist, w)
    requires Less(d, dist[v])
    ensures TrailOk(trail, rows, dist[v := d], w)
  {
    assert Length(trail.walk[..|trail.walk|]) == Length(trail.walk) by { assert trail.walk[..|trail.walk|] == trail.walk; }
    forall k | 0 <= k <= |trail.walk|
      ensures !Less(Plus(trail.start, Length(trail.walk[..k])), dist[v := d][Stop(trail.walk, w, k)])
    {
      assert !Less(Plus(trail.start, Length(trail.walk[..k])), dist[Stop(trail.walk, w, k)]);
    }
  }

  /** After as many passes as there are vertices no trail is long enough for anything to be loose. */
  lemma {:induction false} AllPassesDone(trails: seq<Trail>, stack: seq<Arc>, dist: seq<Distance>, m: nat)
    requires StackOk(|dist|, stack) && m < |stack|
    requires TrailsOk(trails, RowsOf(|dist|, stack), dist)
    requires PassOk(trails, stack, dist, |dist|, |stack|)
    ensures !Loose(dist, stack[m])
  {
    var u := stack[m].i;
    TrailShort(trails[u], RowsOf(|dist|, stack), dist, u);
  }

  lemma {:induction false} TrailShort(trail: Trail, rows: Rows, dist: seq<Distance>, v: nat)
    requires |dist| == |rows| && v < |rows| && TrailOk(trail, rows, dist, v)
    ensures |trail.walk| < |rows|
  {
    var walk := trail.walk;
    NoRepeatShort(seq(|walk| + 1, k requires 0 <= k <= |walk| => Stop(walk, v, k)), |rows|);
  }

  class BellmanFord {
    const dim: nat
    var count: nat
    const dist: array<Distance>
    const edges: array<Arc>

    ghost function Repr(): set<object> { {this, dist, edges} }

    /** The constraints pushed and not yet popped. */
    function Stack(): seq<Arc>
      requires count <= edges.Length
      reads this, edges
    {
      edges[..count]
    }

    ghost predicate Valid()
      reads Repr()
    {
      && dim > 0 && dist.Length == dim && edges.Length == dim * dim
      && count <= edges.Length && StackOk(dim, Stack())
    }

    /** The graph as a value. */
    ghost function Graph(): Rows
      requires Valid()
      reads Repr()
    {
      RowsOf(dim, Stack())
    }

    constructor (dim: nat)
      requires dim > 0
      ensures Valid() && this.dim == dim && Graph() == seq(dim, _ => []) && Stack() == []
      ensures fresh(Repr())
    {
      this.dim := dim;
      count := 0;
      dist := new Distance[dim](_ => ZERO);
      edges := new Arc[dim * dim](_ => Arc(0, 0, 0));
    }

    /** Adds a constraint between two clocks that none constrains in that order yet. */
    method Push(i: nat, j: nat, value: int)
      requires Valid() && i < dim && j < dim && i != j && value < INF
      requires forall k :: 0 <= k < |Graph()[i]| ==> Graph()[i][k].v != j
      modifies this`count, edges
      ensures Valid() && Stack() == old(Stack()) + [Arc(i, j, value)]
      ensures Graph() == old(Graph())[i := old(Graph())[i] + [Edge(j, value)]]
    {
      ghost var stack := Stack();
      assert Graph() == RowsOf(dim, stack);
      FreshArc(dim, stack, i, j);
      assert (stack + [Arc(i, j, value)])[..|stack|] == stack;
      StackFits(dim, stack + [Arc(i, j, value)]);
      edges[count] := Arc(i, j, value);
      count := count + 1;
      assert Stack() == stack + [Arc(i, j, value)];
      assert Stack()[..count - 1] == stack;
    }

    /** Drops the constraint pushed last. */
    method Pop()
      requires Valid() && count > 0
      modifies this`count
      ensures Valid() && Stack() == old(Stack())[..old(count) - 1]
    {
      assert Stack()[..count - 1] == edges[..count - 1];
      count := count - 1;
    }

    /** One pass over all constraints; tells whether it improved anything. */
    method Pass(ghost p: nat, ghost trails: seq<Trail>) returns (found: bool, ghost trails': seq<Trail>)
      requires Valid() && 0 < p
      requires HasInconsistentCycle(Graph())
               || (TrailsOk(trails, Graph(), dist[..]) && PassOk(trails, Stack(), dist[..], p, 0))
      modifies dist
      ensures !found ==> forall m :: 0 <= m < count ==> !Loose(dist[..], Stack()[m])
      ensures HasInconsistentCycle(Graph())
              || (TrailsOk(trails', Graph(), dist[..]) && PassOk(trails', Stack(), dist[..], p, count))
    {
      found := false;
      trails' := trails;
      for e := 0 to count
        invariant !found ==> forall m :: 0 <= m < e ==> !Loose(dist[..], Stack()[m])
        invariant HasInconsistentCycle(Graph())
                  || (TrailsOk(trails', Graph(), dist[..]) && PassOk(trails', Stack(), dist[..], p, e))
      {
        assert edges[e] == Stack()[e];
        var sum := Add(dist[edges[e].i], edges[e].value);
        if Less(sum, dist[edges[e].j]) {
          ghost var was := dist[..];
          if !HasInconsistentCycle(Graph()) {
            trails' := RelaxArc(trails', Stack(), was, p, e);
          }
          dist[edges[e].j] := sum;
          assert dist[..] == was[Stack()[e].j := Add(was[Stack()[e].i], Stack()[e].value)];
          found := true;
        } else {
          assert !Loose(dist[..], Stack()[e]);
        }
      }
    }

    /** Relaxes until a pass changes nothing, but makes at most dim passes. */
    method AllPasses() returns (found: bool, ghost trails: seq<Trail>)
      requires Valid()
      modifies dist
      ensures !found ==> forall m :: 0 <= m < count ==> !Loose(dist[..], Stack()[m])
      ensures found ==> (HasInconsistentCycle(Graph())
              || (TrailsOk(trails, Graph(), dist[..]) && PassOk(trails, Stack(), dist[..], dim, count)))
    {
      trails := FreshTrails(dist[..]);
      FreshTrailsOk(dim, Stack(), dist[..]);
      var v := dim;
      ghost var p := 1;
      found, trails := Pass(p, trails);
      v := v - 1;
      while v != 0 && found
        invariant p == dim - v && 0 <= v < dim
        invariant !found ==> forall m :: 0 <= m < count ==> !Loose(dist[..], Stack()[m])
        invariant HasInconsistentCycle(Graph())
                  || (TrailsOk(trails, Graph(), dist[..]) && PassOk(trails, Stack(), dist[..], p, count))
        decreases v
      {
        p := p + 1;
        found, trails := Pass(p, trails);
        v := v - 1;
      }
    }

    /**
     * Decides whether some real clock valuation meets every constraint on the stack, whatever the
     * distances were before.
     */
    method CheckConsistent() returns (consistent: bool)
      requires Valid()
      modifies dist
      ensures Valid() && Stack() == old(Stack())
      ensures consistent <==> Consistent(Graph())
      ensures consistent <==> !HasInconsistentCycle(Graph())
      ensures consistent ==> Satisfies(Witness(dist[..]), Graph())
    {
      var found;
      ghost var trails;
      found, trails := AllPasses();
      consistent := true;
      if found {
        for e := 0 to count
          invariant forall m :: 0 <= m < e ==> !Loose(dist[..], Stack()[m])
        {
          assert edges[e] == Stack()[e];
          if Less(Add(dist[edges[e].i], edges[e].value), dist[edges[e].j]) {
            if !HasInconsistentCycle(Graph()) { AllPassesDone(trails, Stack(), dist[..], e); }
            RowsHoldStack(dim, Stack());
            CycleRefutes(Graph());
            return false;
          }
        }
      }
      StableStackConsistent(dim, Stack(), dist[..]);
    }
  }

  lemma {:induction false} FreshArc(dim: nat, stack: seq<Arc>, i: nat, j: nat)
    requires StackOk(dim, stack) && i < dim
    requires forall k :: 0 <= k < |RowsOf(dim, stack)[i]| ==> RowsOf(dim, stack)[i][k].v != j
    ensures forall m :: 0 <= m < |stack| ==> stack[m].i != i || stack[m].j != j
  {
    RowsHoldStack(dim, stack);
    forall m | 0 <= m < |stack| && stack[m].i == i ensures stack[m].j != j {
      assert HasEdge(RowsOf(dim, stack), i, stack[m].j, stack[m].value);
    }
  }

  lemma {:induction false} NoPairTwice(stack: seq<Arc>)
    requires PairsDiffer(stack)
    ensures forall a, b :: 0 <= a < b < |stack| ==> stack[a].i != stack[b].i || stack[a].j != stack[b].j
  {
    if stack != [] { NoPairTwice(stack[..|stack| - 1]); }
  }

  /** No ordered pair of clocks occurs twice, so dim * dim places suffice. */
  lemma {:induction false} StackFits(dim: nat, stack: seq<Arc>)
    requires forall m :: 0 <= m < |stack| ==> stack[m].i < dim && stack[m].j < dim
    requires PairsDiffer(stack)
    ensures |stack| <= dim * dim
  {
    NoPairTwice(stack);
    var q := seq(|stack|, m requires 0 <= m < |stack| => stack[m].i * dim + stack[m].j);
    forall m | 0 <= m < |q| ensures 0 <= q[m] < dim * dim {
      PairCode(dim, stack[m].i, stack[m].j, stack[m].i, stack[m].j);
    }
    forall a, b | 0 <= a < b < |q| ensures q[a] != q[b] {
      PairCode(dim, stack[a].i, stack[a].j, stack[b].i, stack[b].j);
    }
    NoRepeatShort(q, dim * dim);
  }

  lemma {:induction false} PairCode(dim: nat, i: nat, j: nat, a: nat, b: nat)
    requires i < dim && j < dim && a < dim && b < dim
    ensures 0 <= i * dim + j < dim * dim
    ensures i * dim + j == a * dim + b ==> i == a && j == b
  {
    Scaled(i, dim, dim);
    if i < a {
      Scaled(i, a, dim);
    } else if a < i {
      Scaled(a, i, dim);
    }
  }
}
