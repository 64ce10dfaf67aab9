/**
 * Difference constraints, the graphs they form, and what consistency means.
 *
 * Vertices are clocks; an edge from i to j with bound b stands for x_i - x_j <= b (or < b).
 */
module ConstraintGraph {
  import opened Bounds

  datatype Edge = Edge(v: nat, value: int)

  /** Outgoing edges of every vertex, oldest first. */
  type Rows = seq<seq<Edge>>

  type Clocks = seq<real>

  function Diff(x: Clocks, i: nat, j: nat): real
  {
    (if i < |x| then x[i] else 0.0) - (if j < |x| then x[j] else 0.0)
  }

  ghost predicate Satisfies(x: Clocks, rows: Rows)
  {
    && |x| == |rows|
    && forall i, k :: 0 <= i < |rows| && 0 <= k < |rows[i]| ==>
         MeetsUpper(Diff(x, i, rows[i][k].v), rows[i][k].value)
  }

  /** All real clock vectors that meet every constraint of the graph. */
  ghost function Solutions(rows: Rows): iset<Clocks>
  {
    iset x: Clocks | Satisfies(x, rows)
  }

  ghost predicate Consistent(rows: Rows)
  {
    exists x :: Satisfies(x, rows)
  }

  /** Every edge ends in another vertex and is finite, and no ordered pair is joined twice. */
  ghost predicate WellFormed(rows: Rows)
  {
    && (forall i, k :: 0 <= i < |rows| && 0 <= k < |rows[i]| ==>
          rows[i][k].v < |rows| && rows[i][k].v != i && rows[i][k].value < INF)
    && (forall i, k, m :: 0 <= i < |rows| && 0 <= k < m < |rows[i]| ==> rows[i][k].v != rows[i][m].v)
  }

  /** Edge k of vertex u would shorten the known distance of its target. */
  ghost predicate Violated(dist: seq<Distance>, rows: Rows, u: nat, k: nat)
    requires |dist| == |rows| && WellFormed(rows)
    requires u < |rows| && k < |rows[u]|
  {
    Less(Add(dist[u], rows[u][k].value), dist[rows[u][k].v])
  }

  ghost predicate Stable(dist: seq<Distance>, rows: Rows)
    requires |dist| == |rows| && WellFormed(rows)
  {
    forall u, k :: 0 <= u < |rows| && 0 <= k < |rows[u]| ==> !Violated(dist, rows, u, k)
  }

  // ----- Walks and inconsistent cycles

  /** A walk is the list of the vertices it leaves, each with the bound of the edge it takes. */
  datatype Step = Step(from: nat, bound: int)

  ghost predicate HasEdge(rows: Rows, u: nat, v: nat, b: int)
  {
    u < |rows| && Edge(v, b) in rows[u]
  }

  ghost predicate IsWalk(rows: Rows, walk: seq<Step>, end: nat)
  {
    walk == [] ||
    var last := walk[|walk| - 1];
    HasEdge(rows, last.from, end, last.bound) && IsWalk(rows, walk[..|walk| - 1], last.from)
  }

  function Length(walk: seq<Step>): Distance
  {
    if walk == [] then ZERO else Add(Length(walk[..|walk| - 1]), walk[|walk| - 1].bound)
  }

  /** A closed walk whose bounds add up to less than zero, or to zero with a strict edge on it. */
  ghost predicate IsInconsistentCycle(rows: Rows, walk: seq<Step>)
  {
    && walk != []
    && IsWalk(rows, walk, walk[0].from)
    && Less(Length(walk), ZERO)
  }

  ghost predicate HasInconsistentCycle(rows: Rows)
  {
    exists walk :: IsInconsistentCycle(rows, walk)
  }

  lemma {:induction false} WalkExtend(rows: Rows, walk: seq<Step>, mid: nat, b: int, end: nat)
    requires IsWalk(rows, walk, mid) && HasEdge(rows, mid, end, b)
    ensures IsWalk(rows, walk + [Step(mid, b)], end)
    ensures Length(walk + [Step(mid, b)]) == Add(Length(walk), b)
  {
    var w := walk + [Step(mid, b)];
    assert w[..|w| - 1] == walk;
  }

  /** In a solution the two ends of a walk are no further apart than the walk is long. */
  lemma {:induction false} WalkBoundsDifference(rows: Rows, x: Clocks, walk: seq<Step>, end: nat)
    requires WellFormed(rows) && Satisfies(x, rows)
    requires walk != [] && IsWalk(rows, walk, end)
    ensures Diff(x, walk[0].from, end) <= Length(walk).value as real
    ensures Length(walk).strictness > 0 ==> Diff(x, walk[0].from, end) < Length(walk).value as real
    ensures Length(walk).strictness >= 0
  {
    var last := walk[|walk| - 1];
    var init := walk[..|walk| - 1];
    var k :| 0 <= k < |rows[last.from]| && rows[last.from][k] == Edge(end, last.bound);
    assert MeetsUpper(Diff(x, last.from, rows[last.from][k].v), rows[last.from][k].value);
    if init != [] {
      WalkBoundsDifference(rows, x, init, last.from);
      assert init[0] == walk[0];
    } else {
      assert walk[0] == last;
    }
  }

  /** Soundness of refusing: a graph with an inconsistent cycle has no solution. */
  lemma {:induction false} CycleRefutes(rows: Rows)
    requires WellFormed(rows) && HasInconsistentCycle(rows)
    ensures !Consistent(rows)
  {
    if Consistent(rows) {
      var x :| Satisfies(x, rows);
      var walk: seq<Step> :| IsInconsistentCycle(rows, walk);
      WalkBoundsDifference(rows, x, walk, walk[0].from);
    }
  }

  // ----- From stable distances to a real solution

  function MaxAbsStrictness(dist: seq<Distance>): (m: nat)
    ensures forall k :: 0 <= k < |dist| ==> -(m as int) <= dist[k].strictness <= m
  {
    if dist == [] then 0
    else
      var m := MaxAbsStrictness(dist[..|dist| - 1]);
      var s := dist[|dist| - 1].strictness;
      assert forall k :: 0 <= k < |dist| - 1 ==> dist[k] == dist[..|dist| - 1][k];
      if s > m then s else if -s > m then -s else m
  }

  /** The step is small enough that no two strictness counts move a clock by a whole unit. */
  function StepSize(dist: seq<Distance>): (eps: real)
    ensures eps > 0.0 && eps * (2 * MaxAbsStrictness(dist) + 1) as real == 1.0
  {
    1.0 / (2 * MaxAbsStrictness(dist) + 1) as real
  }

  /** Each clock sits at minus its distance, moved up by a small step per strict edge. */
  function Witness(dist: seq<Distance>): (x: Clocks)
    ensures |x| == |dist|
  {
    var eps := StepSize(dist);
    seq(|dist|, i requires 0 <= i < |dist| => eps * dist[i].strictness as real - dist[i].value as real)
  }

  /** The move of a clock pair is below one unit and has the sign of their strictness difference. */
  lemma {:induction false} SmallStep(eps: real, d: real, a: real) returns (move: real)
    requires eps > 0.0 && eps * d == 1.0
    requires -d < a < d
    ensures move == eps * a && -1.0 < move < 1.0
    ensures a <= 0.0 ==> move <= 0.0
    ensures a < 0.0 ==> move < 0.0
  {
    move := eps * a;
    Positive(eps, d - a);
    Positive(eps, d + a);
    if a < 0.0 { Positive(eps, -a); }
  }

  lemma {:induction false} Positive(e: real, a: real)
    requires e > 0.0 && a > 0.0
    ensures e * a > 0.0
  {
  }

  lemma {:induction false} WitnessDiff(dist: seq<Distance>, u: nat, v: nat) returns (move: real)
    requires u < |dist| && v < |dist|
    ensures Diff(Witness(dist), u, v) == (dist[v].value - dist[u].value) as real + move
    ensures -1.0 < move < 1.0
    ensures dist[u].strictness <= dist[v].strictness ==> move <= 0.0
    ensures dist[u].strictness < dist[v].strictness ==> move < 0.0
  {
    var eps, s, t := StepSize(dist), dist[u].strictness as real, dist[v].strictness as real;
    var d := (2 * MaxAbsStrictness(dist) + 1) as real;
    assert -d < s - t < d;
    move := SmallStep(eps, d, s - t);
    Distribute(eps, s, t);
    WitnessAt(dist, u);
    WitnessAt(dist, v);
  }

  lemma {:induction false} WitnessAt(dist: seq<Distance>, u: nat)
    requires u < |dist|
    ensures Witness(dist)[u] == StepSize(dist) * dist[u].strictness as real - dist[u].value as real
  {
  }

  lemma {:induction false} Distribute(e: real, s: real, t: real)
    ensures e * (s - t) == e * s - e * t
  {
  }

  lemma {:induction false} MeetsAfterMove(delta: real, du: Distance, dv: Distance, move: real, b: int)
    requires !Less(Add(du, b), dv)
    requires delta == (dv.value - du.value) as real + move
    requires -1.0 < move < 1.0
    requires du.strictness <= dv.strictness ==> move <= 0.0
    requires du.strictness < dv.strictness ==> move < 0.0
    ensures MeetsUpper(delta, b)
  {
  }

  /** Soundness of accepting: stable distances yield a solution over the reals. */
  lemma {:induction false} StableGivesSolution(dist: seq<Distance>, rows: Rows)
    requires |dist| == |rows| && WellFormed(rows) && Stable(dist, rows)
    ensures Satisfies(Witness(dist), rows)
    ensures Consistent(rows)
  {
    forall u, k | 0 <= u < |rows| && 0 <= k < |rows[u]|
      ensures MeetsUpper(Diff(Witness(dist), u, rows[u][k].v), rows[u][k].value)
    {
      assert !Violated(dist, rows, u, k);
      var v := rows[u][k].v;
      var move := WitnessDiff(dist, u, v);
      MeetsAfterMove(Diff(Witness(dist), u, v), dist[u], dist[v], move, rows[u][k].value);
    }
  }
}
