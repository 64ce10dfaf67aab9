/**
 * Listing a boolean diagram as a matrix of traces: one row for every path to true.
 */
module TraceMatrix {
  import opened Diagrams
  import opened Extraction

  /** Marks a column that a row does not use. */
  const DEFAULT: int := -1

  // ----- The matrix

  /** The rows that are not to be ignored, in order. */
  function Kept(rows: seq<seq<int>>, ignored: seq<bool>): (r: seq<seq<int>>)
    requires |rows| == |ignored|
    ensures |r| <= |rows|
  {
    if rows == [] then []
    else
      var front := Kept(rows[..|rows| - 1], ignored[..|rows| - 1]);
      if ignored[|rows| - 1] then front else front + [rows[|rows| - 1]]
  }

  function Padded(row: seq<int>, c: nat): int { if c < |row| then row[c] else DEFAULT }

  function Place(i: nat, c: nat, cols: nat): nat { i * cols + c }

  lemma {:induction false} PlaceRange(i: nat, c: nat, cols: nat, rows: nat)
    requires c < cols && i < rows
    ensures Place(i, c, cols) < cols * rows
    ensures Place(i, c, cols) < (i + 1) * cols
    ensures forall k: nat, d: nat :: k < i && d < cols ==> Place(k, d, cols) < i * cols
  {
    assert (i + 1) * cols <= rows * cols;
    forall k: nat, d: nat | k < i && d < cols ensures Place(k, d, cols) < i * cols {
      assert (k + 1) * cols <= i * cols;
    }
  }

  /** A matrix with a fixed number of columns that grows row by row; the last row is the current one. */
  class DynamicMatrix {
    const num_cols: nat
    var matrix: seq<seq<int>>
    var ignored: seq<bool>

    ghost predicate Valid()
      reads this
    {
      |matrix| == |ignored| && forall i :: 0 <= i < |matrix| ==> |matrix[i]| <= num_cols
    }

    constructor (num_cols: nat)
      ensures Valid() && this.num_cols == num_cols && matrix == [[]] && ignored == [false]
    {
      this.num_cols := num_cols;
      matrix := [[]];
      ignored := [false];
    }

    method AddValueToRow(value: int)
      requires Valid() && matrix != [] && |matrix[|matrix| - 1]| < num_cols
      modifies this`matrix
      ensures Valid() && matrix == old(matrix[..|matrix| - 1] + [matrix[|matrix| - 1] + [value]])
    {
      matrix := matrix[|matrix| - 1 := matrix[|matrix| - 1] + [value]];
    }

    /** Starts a row with the first entries of the current one, up to and including a column. */
    method NextRow(copy_to_column: int)
      requires Valid() && matrix != [] && -1 <= copy_to_column < |matrix[|matrix| - 1]|
      modifies this
      ensures Valid() && ignored == old(ignored) + [false]
      ensures matrix == old(matrix + [matrix[|matrix| - 1][..copy_to_column + 1]])
    {
      matrix := matrix + [matrix[|matrix| - 1][..copy_to_column + 1]];
      ignored := ignored + [false];
    }

    method IgnoreCurrentRow()
      requires Valid() && matrix != []
      modifies this`ignored
      ensures Valid() && ignored == old(ignored[..|matrix| - 1] + [true])
    {
      ignored := ignored[|ignored| - 1 := true];
    }

    /** Moves the rows that stay to the front and cuts off the rest. */
    method DeleteIgnoredRows()
      requires Valid()
      modifies this`matrix
      ensures matrix == old(Kept(matrix, ignored))
    {
      var i, end := 0, 0;
      while i < |matrix|
        invariant 0 <= end <= i <= |matrix| == |ignored|
        invariant matrix[..end] == old(Kept(matrix[..i], ignored[..i]))
        invariant |matrix| == |old(matrix)| && forall k :: i <= k < |matrix| ==> matrix[k] == old(matrix)[k]
      {
        assert old(matrix)[..i + 1][..i] == old(matrix)[..i] && ignored[..i + 1][..i] == ignored[..i];
        ghost var front := matrix[..end];
        if !ignored[i] {
          matrix := matrix[end := matrix[i]];
          end := end + 1;
          assert matrix[..end] == front + [old(matrix)[i]];
        }
        i := i + 1;
      }
      assert old(matrix)[..i] == old(matrix) && ignored[..i] == ignored;
      matrix := matrix[..end];
    }

    /** The rows one after another, each padded to the full number of columns. */
    method GetArray() returns (a: array<int>)
      requires forall i :: 0 <= i < |matrix| ==> |matrix[i]| <= num_cols
      ensures fresh(a) && a.Length == num_cols * |matrix|
      ensures forall i: nat, c: nat :: i < |matrix| && c < num_cols ==>
                Place(i, c, num_cols) < a.Length && a[Place(i, c, num_cols)] == Padded(matrix[i], c)
    {
      a := new int[num_cols * |matrix|](_ => DEFAULT);
      var i := 0;
      while i < |matrix|
        invariant i <= |matrix|
        invariant forall k: nat, d: nat :: k < i && d < num_cols ==>
                    Place(k, d, num_cols) < a.Length && a[Place(k, d, num_cols)] == Padded(matrix[k], d)
      {
        FillRow(a, i);
        i := i + 1;
      }
    }

    method FillRow(a: array<int>, i: nat)
      requires i < |matrix| && |matrix[i]| <= num_cols && a.Length == num_cols * |matrix|
      modifies a
      ensures forall c: nat :: c < num_cols ==>
                Place(i, c, num_cols) < a.Length && a[Place(i, c, num_cols)] == Padded(matrix[i], c)
      ensures forall k: nat, d: nat :: k < i && d < num_cols && Place(k, d, num_cols) < a.Length ==>
                a[Place(k, d, num_cols)] == old(a[Place(k, d, num_cols)])
    {
      var c := 0;
      while c < num_cols
        invariant c <= num_cols
        invariant forall d: nat :: d < c ==> Place(i, d, num_cols) < a.Length && a[Place(i, d, num_cols)] == Padded(matrix[i], d)
        invariant forall k: nat, d: nat :: k < i && d < num_cols && Place(k, d, num_cols) < a.Length ==>
                    a[Place(k, d, num_cols)] == old(a[Place(k, d, num_cols)])
      {
        PlaceRange(i, c, num_cols, |matrix|);
        a[Place(i, c, num_cols)] := Padded(matrix[i], c);
        c := c + 1;
      }
    }
  }

  // ----- The traces of a diagram

  /** A path through the diagram: the levels it meets, the value it takes at each, and whether it ends in false. */
  datatype Trace = Trace(vars: seq<int>, values: seq<int>, ignored: bool)

  /** All paths below a node, each preceded by the path that led to it; true children come first. */
  ghost function Traces(r: Ref, negated: bool, vars: seq<int>, values: seq<int>): (ts: seq<Trace>)
    ensures ts != []
    decreases r.node
  {
    if r.node.BddNode? then
      Traces(r.node.high, negated != r.neg, vars + [r.node.level], values + [1])
      + Traces(r.node.low, negated != r.neg, vars + [r.node.level], values + [0])
    else [Trace(vars, values, r.neg == negated)]
  }

  ghost function Vars(ts: seq<Trace>): (rows: seq<seq<int>>)
    ensures |rows| == |ts|
  {
    seq(|ts|, i requires 0 <= i < |ts| => ts[i].vars)
  }

  ghost function Values(ts: seq<Trace>): (rows: seq<seq<int>>)
    ensures |rows| == |ts|
  {
    seq(|ts|, i requires 0 <= i < |ts| => ts[i].values)
  }

  ghost function Ignored(ts: seq<Trace>): (flags: seq<bool>)
    ensures |flags| == |ts|
  {
    seq(|ts|, i requires 0 <= i < |ts| => ts[i].ignored)
  }

  /** Every trace keeps the path it started with, and names one value for every level. */
  lemma {:induction false} TracesExtend(r: Ref, negated: bool, vars: seq<int>, values: seq<int>)
    requires |vars| == |values|
    ensures forall t :: t in Traces(r, negated, vars, values) ==> vars <= t.vars && values <= t.values && |t.vars| == |t.values|
    decreases r.node
  {
    if r.node.BddNode? {
      TracesExtend(r.node.high, negated != r.neg, vars + [r.node.level], values + [1]);
      TracesExtend(r.node.low, negated != r.neg, vars + [r.node.level], values + [0]);
    }
  }

  /** The booleans take the values that a row names. */
  ghost predicate Matches(vars: seq<int>, values: seq<int>, v: Valuation)
    requires |vars| == |values|
  {
    forall c :: 0 <= c < |vars| ==> (vars[c] in v.truths <==> values[c] == 1)
  }

  lemma {:induction false} MatchesMore(vars: seq<int>, values: seq<int>, level: nat, b: int, v: Valuation)
    requires |vars| == |values|
    ensures Matches(vars + [level], values + [b], v) <==> Matches(vars, values, v) && (level in v.truths <==> b == 1)
  {
    var vars', values' := vars + [level], values + [b];
    assert vars'[|vars|] == level && values'[|vars|] == b;
    assert forall c :: 0 <= c < |vars| ==> vars'[c] == vars[c] && values'[c] == values[c];
  }

  ghost predicate TraceMatches(t: Trace, v: Valuation)
  {
    |t.vars| == |t.values| && Matches(t.vars, t.values, v)
  }

  ghost predicate SomeFits(ts: seq<Trace>, v: Valuation)
  {
    exists t :: t in ts && TraceMatches(t, v)
  }

  /** No valuation fits two traces. */
  ghost predicate Apart(ts: seq<Trace>, v: Valuation)
  {
    forall k, m :: 0 <= k < m < |ts| ==> !TraceMatches(ts[k], v) || !TraceMatches(ts[m], v)
  }

  /** A trace that fits has kept to the path, and ends in true exactly where the diagram holds. */
  ghost predicate Tells(ts: seq<Trace>, onPath: bool, holds: bool, v: Valuation)
  {
    forall t :: t in ts && TraceMatches(t, v) ==> onPath && (t.ignored <==> !holds)
  }

  lemma {:induction false} JoinedApart(highs: seq<Trace>, lows: seq<Trace>, v: Valuation)
    requires Apart(highs, v) && Apart(lows, v) && (!SomeFits(highs, v) || !SomeFits(lows, v))
    ensures Apart(highs + lows, v)
  {
    var ts := highs + lows;
    forall k, m | 0 <= k < m < |ts| ensures !TraceMatches(ts[k], v) || !TraceMatches(ts[m], v) {
      if k < |highs| <= m {
        assert ts[k] in highs && ts[m] in lows;
      } else if |highs| <= k {
        assert ts[k] == lows[k - |highs|] && ts[m] == lows[m - |highs|];
      }
    }
  }

  /** The traces that start with a path split the valuations on that path; the one that fits tells the truth. */
  lemma {:induction false} TracesSplit(L: Levels, r: Ref, negated: bool, vars: seq<int>, values: seq<int>, v: Valuation)
    requires IsBdd(r.node) && |vars| == |values|
    ensures var ts := Traces(r, negated, vars, values);
            && Tells(ts, Matches(vars, values, v), Eval(L, r, v) != negated, v)
            && (Matches(vars, values, v) ==> SomeFits(ts, v))
            && Apart(ts, v)
    decreases r.node
  {
    if r.node.BddNode? {
      var level, neg := r.node.level, negated != r.neg;
      var highs := Traces(r.node.high, neg, vars + [level], values + [1]);
      var lows := Traces(r.node.low, neg, vars + [level], values + [0]);
      TracesSplit(L, r.node.high, neg, vars + [level], values + [1], v);
      TracesSplit(L, r.node.low, neg, vars + [level], values + [0], v);
      MatchesMore(vars, values, level, 1, v);
      MatchesMore(vars, values, level, 0, v);
      JoinedApart(highs, lows, v);
      if Matches(vars, values, v) {
        var t :| t in (if level in v.truths then highs else lows) && TraceMatches(t, v);
        assert t in highs + lows;
      }
    } else {
      var t := Trace(vars, values, r.neg == negated);
      assert t in Traces(r, negated, vars, values);
      assert TraceMatches(t, v) <==> Matches(vars, values, v);
    }
  }

  // ----- The order of the rows

  /** From column `from` on the row follows a path from r down to true. */
  ghost predicate PathToTrue(r: Ref, vars: seq<int>, values: seq<int>, from: nat)
    decreases r.node
  {
    if r.node.BddNode? then
      && from < |vars| == |values| && vars[from] == r.node.level
      && ((values[from] == 1 && PathToTrue(NegCond(r.node.high, r.neg), vars, values, from + 1))
          || (values[from] == 0 && PathToTrue(NegCond(r.node.low, r.neg), vars, values, from + 1)))
    else r == TRUE && from == |vars| == |values|
  }

  /** Where two rows part for the first time they name the same variable, which is true in the first row and false in the second. */
  ghost predicate Precedes(vars: seq<int>, values: seq<int>, vars': seq<int>, values': seq<int>)
  {
    exists c: nat ::
      && c < |vars| && c < |values| && c < |vars'| && c < |values'|
      && vars[..c] == vars'[..c] && values[..c] == values'[..c]
      && vars[c] == vars'[c] && values[c] == 1 && values'[c] == 0
  }

  ghost predicate InOrder(ts: seq<Trace>)
  {
    forall k, m :: 0 <= k < m < |ts| ==> Precedes(ts[k].vars, ts[k].values, ts[m].vars, ts[m].values)
  }

  /** A trace that is kept is a path to true. */
  lemma {:induction false} TracesArePaths(r: Ref, negated: bool, vars: seq<int>, values: seq<int>, t: Trace)
    requires IsBdd(r.node) && |vars| == |values| && t in Traces(r, negated, vars, values) && !t.ignored
    ensures PathToTrue(NegCond(r, negated), t.vars, t.values, |vars|)
    decreases r.node
  {
    if r.node.BddNode? {
      var level, neg := r.node.level, negated != r.neg;
      TracesExtend(r.node.high, neg, vars + [level], values + [1]);
      TracesExtend(r.node.low, neg, vars + [level], values + [0]);
      if t in Traces(r.node.high, neg, vars + [level], values + [1]) {
        TracesArePaths(r.node.high, neg, vars + [level], values + [1], t);
        assert t.vars[|vars|] == (vars + [level])[|vars|] && t.values[|vars|] == (values + [1])[|vars|];
      } else {
        TracesArePaths(r.node.low, neg, vars + [level], values + [0], t);
        assert t.vars[|vars|] == (vars + [level])[|vars|] && t.values[|vars|] == (values + [0])[|vars|];
      }
    }
  }

  /** The levels of a path are boolean levels, and they increase. */
  lemma {:induction false} PathIncreases(L: Levels, r: Ref, vars: seq<int>, values: seq<int>, from: nat, min: nat)
    requires NodeOk(L, r.node, min) && IsBdd(r.node) && PathToTrue(r, vars, values, from)
    ensures forall c :: from <= c < |vars| ==> min <= vars[c] < |L| && L[vars[c]].BoolLevel? && values[c] in {0, 1}
    ensures forall c, d :: from <= c < d < |vars| ==> vars[c] < vars[d]
    decreases r.node
  {
    if r.node.BddNode? {
      if values[from] == 1 {
        PathIncreases(L, NegCond(r.node.high, r.neg), vars, values, from + 1, r.node.level + 1);
      } else {
        PathIncreases(L, NegCond(r.node.low, r.neg), vars, values, from + 1, r.node.level + 1);
      }
    }
  }

  lemma {:induction false} Branching(vars: seq<int>, values: seq<int>, level: int, t: Trace, u: Trace)
    requires |vars| == |values| && vars + [level] <= t.vars && values + [1] <= t.values && vars + [level] <= u.vars && values + [0] <= u.values
    ensures Precedes(t.vars, t.values, u.vars, u.values)
  {
    var c := |vars|;
    assert t.vars[c] == (vars + [level])[c] && u.vars[c] == (vars + [level])[c];
    assert t.values[c] == (values + [1])[c] && u.values[c] == (values + [0])[c];
    assert t.vars[..c] == (vars + [level])[..c] == u.vars[..c];
    assert t.values[..c] == (values + [1])[..c] == (values + [0])[..c] == u.values[..c];
  }

  /** True comes before false. */
  lemma {:induction false} TracesInOrder(r: Ref, negated: bool, vars: seq<int>, values: seq<int>)
    requires |vars| == |values|
    ensures InOrder(Traces(r, negated, vars, values))
    decreases r.node
  {
    if r.node.BddNode? {
      var level, neg := r.node.level, negated != r.neg;
      var highs := Traces(r.node.high, neg, vars + [level], values + [1]);
      var lows := Traces(r.node.low, neg, vars + [level], values + [0]);
      TracesInOrder(r.node.high, neg, vars + [level], values + [1]);
      TracesInOrder(r.node.low, neg, vars + [level], values + [0]);
      TracesExtend(r.node.high, neg, vars + [level], values + [1]);
      TracesExtend(r.node.low, neg, vars + [level], values + [0]);
      forall t, u | t in highs && u in lows ensures Precedes(t.vars, t.values, u.vars, u.values) {
        Branching(vars, values, level, t, u);
      }
      BothInOrder(highs, lows);
    }
  }

  lemma {:induction false} BothInOrder(ts: seq<Trace>, us: seq<Trace>)
    requires InOrder(ts) && InOrder(us)
    requires forall t, u :: t in ts && u in us ==> Precedes(t.vars, t.values, u.vars, u.values)
    ensures InOrder(ts + us)
  {
    var both := ts + us;
    forall k, m | 0 <= k < m < |both| ensures Precedes(both[k].vars, both[k].values, both[m].vars, both[m].values) {
      if k < |ts| <= m {
        assert both[k] in ts && both[m] in us;
      } else if |ts| <= k {
        assert both[k] == us[k - |ts|] && both[m] == us[m - |ts|];
      }
    }
  }

  /** Dropping traces keeps the order of those that are left. */
  lemma {:induction false} KeptInOrder(ts: seq<Trace>)
    requires InOrder(ts)
    ensures InOrder(KeptTraces(ts))
  {
    if ts != [] {
      var front, last := ts[..|ts| - 1], ts[|ts| - 1];
      assert InOrder(front);
      KeptInOrder(front);
      if !last.ignored {
        forall t | t in KeptTraces(front) ensures Precedes(t.vars, t.values, last.vars, last.values) {
          var i :| 0 <= i < |front| && front[i] == t;
          assert ts[i] == t;
        }
        BothInOrder(KeptTraces(front), [last]);
      }
    }
  }

  // ----- Filling the matrices

  /** Boolean levels among the first k. */
  function CountBools(L: Levels, k: nat): nat
    requires k <= |L|
  {
    if k == 0 then 0 else CountBools(L, k - 1) + (if L[k - 1].BoolLevel? then 1 else 0)
  }

  lemma {:induction false} CountBoolsGrows(L: Levels, k: nat, n: nat)
    requires k <= n <= |L|
    ensures CountBools(L, k) <= CountBools(L, n)
  {
    if k < n { CountBoolsGrows(L, k, n - 1); }
  }

  function Rest(rows: seq<seq<int>>): seq<seq<int>>
    requires rows != []
  {
    rows[..|rows| - 1]
  }

  function Last(rows: seq<seq<int>>): seq<int>
    requires rows != []
  {
    rows[|rows| - 1]
  }

  /** Both matrices stand at the same fresh row, with the path of length `step` in it. */
  ghost predicate AtStep(varsMatrix: DynamicMatrix, valuesMatrix: DynamicMatrix, step: nat)
    reads varsMatrix, valuesMatrix
  {
    && varsMatrix != valuesMatrix && varsMatrix.Valid() && valuesMatrix.Valid()
    && varsMatrix.num_cols == valuesMatrix.num_cols
    && varsMatrix.matrix != [] && |varsMatrix.matrix| == |valuesMatrix.matrix|
    && |Last(varsMatrix.matrix)| == |Last(valuesMatrix.matrix)| == step
    && !varsMatrix.ignored[|varsMatrix.ignored| - 1] && varsMatrix.ignored == valuesMatrix.ignored
  }

  /** The current row has been replaced by the rows of the given traces. */
  twostate predicate Filled(varsMatrix: DynamicMatrix, valuesMatrix: DynamicMatrix, ts: seq<Trace>)
    requires |old(varsMatrix.matrix)| == |old(varsMatrix.ignored)| > 0 && |old(valuesMatrix.matrix)| == |old(valuesMatrix.ignored)| > 0
    reads varsMatrix, valuesMatrix
  {
    && varsMatrix.Valid() && valuesMatrix.Valid()
    && varsMatrix.matrix == old(Rest(varsMatrix.matrix)) + Vars(ts)
    && valuesMatrix.matrix == old(Rest(valuesMatrix.matrix)) + Values(ts)
    && varsMatrix.ignored == old(varsMatrix.ignored[..|varsMatrix.ignored| - 1]) + Ignored(ts)
    && valuesMatrix.ignored == varsMatrix.ignored
  }

  /** Extends the current rows by one level, with the value of its true child. */
  method TakeHigh(varsMatrix: DynamicMatrix, valuesMatrix: DynamicMatrix, ghost step: nat, level: nat)
    requires AtStep(varsMatrix, valuesMatrix, step) && step < varsMatrix.num_cols
    modifies varsMatrix, valuesMatrix
    ensures AtStep(varsMatrix, valuesMatrix, step + 1)
    ensures varsMatrix.ignored == old(varsMatrix.ignored) && valuesMatrix.ignored == old(valuesMatrix.ignored)
    ensures Rest(varsMatrix.matrix) == old(Rest(varsMatrix.matrix)) && Rest(valuesMatrix.matrix) == old(Rest(valuesMatrix.matrix))
    ensures Last(varsMatrix.matrix) == old(Last(varsMatrix.matrix)) + [level]
    ensures Last(valuesMatrix.matrix) == old(Last(valuesMatrix.matrix)) + [1]
  {
    varsMatrix.AddValueToRow(level);
    valuesMatrix.AddValueToRow(1);
  }

  /** Starts rows for the false child by copying the path out of whatever row came last. */
  method TakeLow(varsMatrix: DynamicMatrix, valuesMatrix: DynamicMatrix, step: nat, ghost vars: seq<int>, ghost values: seq<int>)
    requires varsMatrix != valuesMatrix && varsMatrix.Valid() && valuesMatrix.Valid() && varsMatrix.num_cols == valuesMatrix.num_cols
    requires varsMatrix.matrix != [] && |varsMatrix.matrix| == |valuesMatrix.matrix| && varsMatrix.ignored == valuesMatrix.ignored
    requires |vars| == step + 1 && vars <= Last(varsMatrix.matrix)
    requires |values| == step && values <= Last(valuesMatrix.matrix)
    modifies varsMatrix, valuesMatrix
    ensures AtStep(varsMatrix, valuesMatrix, step + 1)
    ensures varsMatrix.matrix == old(varsMatrix.matrix) + [vars]
    ensures valuesMatrix.matrix == old(valuesMatrix.matrix) + [values + [0]]
    ensures varsMatrix.ignored == old(varsMatrix.ignored) + [false] && valuesMatrix.ignored == varsMatrix.ignored
  {
    varsMatrix.NextRow(step);
    valuesMatrix.NextRow(step - 1);
    assert Last(old(varsMatrix.matrix))[..step + 1] == vars && Last(old(valuesMatrix.matrix))[..step] == values;
    TakenRows(old(valuesMatrix.matrix), values);
    valuesMatrix.AddValueToRow(0);
  }

  /** At a terminal the current row ends: it stays when the path leads to true. */
  method EndRow(r: Ref, varsMatrix: DynamicMatrix, valuesMatrix: DynamicMatrix, negated: bool)
    requires r.node.Terminal? && exists step :: AtStep(varsMatrix, valuesMatrix, step)
    modifies varsMatrix`ignored, valuesMatrix`ignored
    ensures Filled(varsMatrix, valuesMatrix, Traces(r, negated, old(Last(varsMatrix.matrix)), old(Last(valuesMatrix.matrix))))
  {
    if (r == TRUE && negated) || (r == FALSE && !negated) {
      varsMatrix.IgnoreCurrentRow();
      valuesMatrix.IgnoreCurrentRow();
    }
  }

  /** Depth-first walk: the current row is continued by the true child, a copy of its start by the false child. */
  method ToMatrixRec(L: Levels, r: Ref, varsMatrix: DynamicMatrix, valuesMatrix: DynamicMatrix, step: nat, negated: bool, ghost min: nat)
    requires NodeOk(L, r.node, min) && IsBdd(r.node) && min <= |L|
    requires AtStep(varsMatrix, valuesMatrix, step)
    requires step <= CountBools(L, min) && varsMatrix.num_cols == CountBools(L, |L|)
    modifies varsMatrix, valuesMatrix
    ensures Filled(varsMatrix, valuesMatrix, Traces(r, negated, old(Last(varsMatrix.matrix)), old(Last(valuesMatrix.matrix))))
    decreases r.node, 1
  {
    if r.node.Terminal? {
      EndRow(r, varsMatrix, valuesMatrix, negated);
      return;
    }
    ghost var vars, values := Last(varsMatrix.matrix), Last(valuesMatrix.matrix);
    ghost var restVars, restValues, restIgnored := Rest(varsMatrix.matrix), Rest(valuesMatrix.matrix), varsMatrix.ignored[..|varsMatrix.ignored| - 1];
    var level := r.node.level;
    CountBoolsGrows(L, min, level);
    HighBranch(L, r, varsMatrix, valuesMatrix, step, negated);
    ghost var highs := Traces(r.node.high, negated != r.neg, vars + [level], values + [1]);
    TracesExtend(r.node.high, negated != r.neg, vars + [level], values + [1]);
    assert highs[|highs| - 1] in highs;
    TakeLow(varsMatrix, valuesMatrix, step, vars + [level], values);
    TakenRows(restVars + Vars(highs), vars + [level]);
    TakenRows(restValues + Values(highs), values + [0]);
    ToMatrixRec(L, r.node.low, varsMatrix, valuesMatrix, step + 1, negated != r.neg, level + 1);
    JoinedTraces(highs, Traces(r.node.low, negated != r.neg, vars + [level], values + [0]), restVars, restValues, restIgnored);
  }

  method HighBranch(L: Levels, r: Ref, varsMatrix: DynamicMatrix, valuesMatrix: DynamicMatrix, step: nat, negated: bool)
    requires r.node.BddNode? && NodeOk(L, r.node, r.node.level) && IsBdd(r.node)
    requires AtStep(varsMatrix, valuesMatrix, step)
    requires step <= CountBools(L, r.node.level) && varsMatrix.num_cols == CountBools(L, |L|)
    modifies varsMatrix, valuesMatrix
    ensures Filled(varsMatrix, valuesMatrix, Traces(r.node.high, negated != r.neg, old(Last(varsMatrix.matrix)) + [r.node.level],
                                                    old(Last(valuesMatrix.matrix)) + [1]))
    decreases r.node, 0
  {
    CountBoolsGrows(L, r.node.level + 1, |L|);
    TakeHigh(varsMatrix, valuesMatrix, step, r.node.level);
    ToMatrixRec(L, r.node.high, varsMatrix, valuesMatrix, step + 1, negated != r.neg, r.node.level + 1);
  }

  lemma {:induction false} TakenRows(rows: seq<seq<int>>, row: seq<int>)
    ensures Rest(rows + [row]) == rows && Last(rows + [row]) == row
  {
  }

  lemma {:induction false} JoinedTraces(highs: seq<Trace>, lows: seq<Trace>, restVars: seq<seq<int>>, restValues: seq<seq<int>>, restIgnored: seq<bool>)
    ensures restVars + Vars(highs) + Vars(lows) == restVars + Vars(highs + lows)
    ensures restValues + Values(highs) + Values(lows) == restValues + Values(highs + lows)
    ensures restIgnored + Ignored(highs) + Ignored(lows) == restIgnored + Ignored(highs + lows)
  {
  }

  // ----- The finished arrays

  ghost function KeptTraces(ts: seq<Trace>): (kept: seq<Trace>)
    ensures forall t :: t in kept <==> t in ts && !t.ignored
  {
    if ts == [] then []
    else
      var front, last := KeptTraces(ts[..|ts| - 1]), ts[|ts| - 1];
      assert ts == ts[..|ts| - 1] + [last];
      if last.ignored then front else front + [last]
  }

  lemma {:induction false} KeptMore(rows: seq<seq<int>>, ignored: seq<bool>, row: seq<int>, skip: bool)
    requires |rows| == |ignored|
    ensures Kept(rows + [row], ignored + [skip]) == if skip then Kept(rows, ignored) else Kept(rows, ignored) + [row]
  {
    assert (rows + [row])[..|rows|] == rows && (ignored + [skip])[..|rows|] == ignored;
  }

  lemma {:induction false} MoreTraces(ts: seq<Trace>, t: Trace)
    ensures Vars(ts + [t]) == Vars(ts) + [t.vars] && Values(ts + [t]) == Values(ts) + [t.values]
    ensures Ignored(ts + [t]) == Ignored(ts) + [t.ignored]
  {
  }

  /** Deleting the marked rows leaves the rows of the traces that end in true. */
  lemma {:induction false} KeptRows(ts: seq<Trace>)
    ensures Kept(Vars(ts), Ignored(ts)) == Vars(KeptTraces(ts))
    ensures Kept(Values(ts), Ignored(ts)) == Values(KeptTraces(ts))
  {
    if ts != [] {
      var front, last := ts[..|ts| - 1], ts[|ts| - 1];
      assert ts == front + [last];
      KeptRows(front);
      MoreTraces(front, last);
      MoreTraces(KeptTraces(front), last);
      KeptMore(Vars(front), Ignored(front), last.vars, last.ignored);
      KeptMore(Values(front), Ignored(front), last.values, last.ignored);
    }
  }

  /** Dropping traces keeps those that are left apart. */
  lemma {:induction false} KeptApart(ts: seq<Trace>, v: Valuation)
    requires Apart(ts, v)
    ensures Apart(KeptTraces(ts), v)
  {
    if ts != [] {
      var front, last := ts[..|ts| - 1], ts[|ts| - 1];
      KeptApart(front, v);
      forall t | t in front && TraceMatches(t, v) ensures !TraceMatches(last, v) {
        var i :| 0 <= i < |front| && front[i] == t;
        assert ts[i] == t;
      }
      if !last.ignored {
        JoinedApart(KeptTraces(front), [last], v);
      }
    }
  }

  /** The booleans take the values that row i of the arrays names; unused columns say nothing. */
  ghost predicate RowMatches(vars: seq<int>, values: seq<int>, numBools: nat, i: nat, v: Valuation)
  {
    forall c: nat :: c < numBools && Place(i, c, numBools) < |vars| == |values| && vars[Place(i, c, numBools)] != DEFAULT ==>
      (vars[Place(i, c, numBools)] in v.truths <==> values[Place(i, c, numBools)] == 1)
  }

  /** The entries of the arrays are the entries of the traces, padded. */
  ghost predicate Tabulates(vars: seq<int>, values: seq<int>, numBools: nat, ts: seq<Trace>)
  {
    forall i: nat, c: nat :: i < |ts| && c < numBools ==>
      Place(i, c, numBools) < |vars| == |values|
      && vars[Place(i, c, numBools)] == Padded(ts[i].vars, c) && values[Place(i, c, numBools)] == Padded(ts[i].values, c)
  }

  /** The level that a trace names is a level, so it is never taken for an unused column. */
  lemma {:induction false} TraceLevels(r: Ref, negated: bool, vars: seq<int>, values: seq<int>)
    requires forall c :: 0 <= c < |vars| ==> vars[c] >= 0
    ensures forall t :: t in Traces(r, negated, vars, values) ==> forall c :: 0 <= c < |t.vars| ==> t.vars[c] >= 0
    decreases r.node
  {
    if r.node.BddNode? {
      TraceLevels(r.node.high, negated != r.neg, vars + [r.node.level], values + [1]);
      TraceLevels(r.node.low, negated != r.neg, vars + [r.node.level], values + [0]);
    }
  }

  lemma {:induction false} RowIsTrace(vars: seq<int>, values: seq<int>, numBools: nat, ts: seq<Trace>, i: nat, v: Valuation)
    requires Tabulates(vars, values, numBools, ts) && i < |ts|
    requires |ts[i].vars| == |ts[i].values| <= numBools && forall c :: 0 <= c < |ts[i].vars| ==> ts[i].vars[c] >= 0
    ensures RowMatches(vars, values, numBools, i, v) <==> TraceMatches(ts[i], v)
  {
    var t := ts[i];
    forall c: nat | c < numBools
      ensures Place(i, c, numBools) < |vars| == |values|
      ensures vars[Place(i, c, numBools)] == Padded(t.vars, c) && values[Place(i, c, numBools)] == Padded(t.values, c)
    {
    }
    if RowMatches(vars, values, numBools, i, v) {
      forall c | 0 <= c < |t.vars| ensures t.vars[c] in v.truths <==> t.values[c] == 1 {
        assert vars[Place(i, c, numBools)] == Padded(t.vars, c);
      }
    }
  }

  /** The rows are disjoint cubes, and together they are the set of the diagram. */
  ghost predicate CubesOf(L: Levels, r: Ref, vars: seq<int>, values: seq<int>, numBools: nat, numTraces: nat)
  {
    forall v: Valuation ::
      && (Eval(L, r, v) <==> exists i: nat :: i < numTraces && RowMatches(vars, values, numBools, i, v))
      && (forall i: nat, j: nat :: i < j < numTraces ==> !RowMatches(vars, values, numBools, i, v) || !RowMatches(vars, values, numBools, j, v))
  }

  lemma {:induction false} TracesAreCubes(L: Levels, r: Ref, vars: seq<int>, values: seq<int>, numBools: nat)
    requires IsBdd(r.node)
    requires var ts := KeptTraces(Traces(r, false, [], []));
             Tabulates(vars, values, numBools, ts) && forall t :: t in ts ==> |t.vars| <= numBools
    ensures CubesOf(L, r, vars, values, numBools, |KeptTraces(Traces(r, false, [], []))|)
  {
    var ts := Traces(r, false, [], []);
    var kept := KeptTraces(ts);
    TracesExtend(r, false, [], []);
    TraceLevels(r, false, [], []);
    forall v: Valuation
      ensures Eval(L, r, v) <==> exists i: nat :: i < |kept| && RowMatches(vars, values, numBools, i, v)
      ensures forall i: nat, j: nat :: i < j < |kept| ==> !RowMatches(vars, values, numBools, i, v) || !RowMatches(vars, values, numBools, j, v)
    {
      TracesSplit(L, r, false, [], [], v);
      KeptApart(ts, v);
      forall i: nat | i < |kept| ensures RowMatches(vars, values, numBools, i, v) <==> TraceMatches(kept[i], v) {
        assert kept[i] in ts;
        RowIsTrace(vars, values, numBools, kept, i, v);
      }
      if SomeFits(kept, v) {
        var t :| t in kept && TraceMatches(t, v);
        var i :| 0 <= i < |kept| && kept[i] == t;
        assert RowMatches(vars, values, numBools, i, v);
      }
      FittingTrace(ts, Eval(L, r, v), v);
    }
  }

  /** The diagram holds exactly where a trace that is kept fits. */
  lemma {:induction false} FittingTrace(ts: seq<Trace>, holds: bool, v: Valuation)
    requires Tells(ts, true, holds, v) && SomeFits(ts, v)
    ensures holds <==> SomeFits(KeptTraces(ts), v)
  {
    var t :| t in ts && TraceMatches(t, v);
    assert holds ==> t in KeptTraces(ts);
  }

  /** A row of the arrays: variables and values, and minus one in every column behind them. */
  ghost predicate RowIs(vars: seq<int>, values: seq<int>, numBools: nat, i: nat, t: Trace)
  {
    && |t.vars| == |t.values| <= numBools
    && forall c: nat :: c < numBools ==>
         && Place(i, c, numBools) < |vars| == |values|
         && vars[Place(i, c, numBools)] == (if c < |t.vars| then t.vars[c] else -1)
         && values[Place(i, c, numBools)] == (if c < |t.values| then t.values[c] else -1)
  }

  /** The row names boolean levels in increasing order, on a path of r to true. */
  ghost predicate GoodRow(L: Levels, r: Ref, t: Trace)
  {
    && PathToTrue(r, t.vars, t.values, 0)
    && (forall c :: 0 <= c < |t.vars| ==> 0 <= t.vars[c] < |L| && L[t.vars[c]].BoolLevel?)
    && forall c, d :: 0 <= c < d < |t.vars| ==> t.vars[c] < t.vars[d]
  }

  /** The rows are paths to true, in depth-first order with true before false. */
  ghost predicate Listing(L: Levels, r: Ref, vars: seq<int>, values: seq<int>, numBools: nat, numTraces: nat)
  {
    exists rows: seq<Trace> :: |rows| == numTraces && InOrder(rows)
      && forall i: nat :: i < numTraces ==> RowIs(vars, values, numBools, i, rows[i]) && GoodRow(L, r, rows[i])
  }

  lemma {:induction false} TracesAreListed(L: Levels, r: Ref, vars: seq<int>, values: seq<int>, numBools: nat)
    requires Normal(L, r) && IsBdd(r.node)
    requires var ts := KeptTraces(Traces(r, false, [], []));
             Tabulates(vars, values, numBools, ts) && forall t :: t in ts ==> |t.vars| <= numBools
    ensures Listing(L, r, vars, values, numBools, |KeptTraces(Traces(r, false, [], []))|)
  {
    var ts := KeptTraces(Traces(r, false, [], []));
    TracesInOrder(r, false, [], []);
    KeptInOrder(Traces(r, false, [], []));
    TracesExtend(r, false, [], []);
    forall i: nat | i < |ts| ensures RowIs(vars, values, numBools, i, ts[i]) && GoodRow(L, r, ts[i]) {
      assert ts[i] in ts;
      TracesArePaths(r, false, [], [], ts[i]);
      PathIncreases(L, r, ts[i].vars, ts[i].values, 0, 0);
    }
  }

  lemma {:induction false} NothingToList(L: Levels, r: Ref, vars: seq<int>, values: seq<int>, numBools: nat)
    ensures Listing(L, r, vars, values, numBools, 0)
  {
    var rows: seq<Trace> := [];
    assert |rows| == 0 && InOrder(rows);
  }

  /** Walks the diagram from two empty matrices. */
  method FillMatrices(L: Levels, r: Ref, varsMatrix: DynamicMatrix, valuesMatrix: DynamicMatrix)
    requires Normal(L, r) && IsBdd(r.node)
    requires AtStep(varsMatrix, valuesMatrix, 0) && varsMatrix.matrix == [[]] && varsMatrix.num_cols == CountBools(L, |L|)
    modifies varsMatrix, valuesMatrix
    ensures varsMatrix.Valid() && valuesMatrix.Valid()
    ensures var ts := Traces(r, false, [], []);
            varsMatrix.matrix == Vars(ts) && valuesMatrix.matrix == Values(ts) && varsMatrix.ignored == valuesMatrix.ignored == Ignored(ts)
    ensures var ts := Traces(r, false, [], []);
            forall i :: 0 <= i < |ts| ==> |Vars(ts)[i]| <= varsMatrix.num_cols && |Values(ts)[i]| <= varsMatrix.num_cols
  {
    assert Last(varsMatrix.matrix) == [] && Last(valuesMatrix.matrix) == [];
    ToMatrixRec(L, r, varsMatrix, valuesMatrix, 0, false, 0);
  }

  /** The rows that stay are as short as all the rows were. */
  lemma {:induction false} KeptShort(ts: seq<Trace>, cols: nat)
    requires forall i :: 0 <= i < |ts| ==> |Vars(ts)[i]| <= cols && |Values(ts)[i]| <= cols
    ensures forall i :: 0 <= i < |KeptTraces(ts)| ==> |Vars(KeptTraces(ts))[i]| <= cols && |Values(KeptTraces(ts))[i]| <= cols
  {
    forall i | 0 <= i < |KeptTraces(ts)|
      ensures |Vars(KeptTraces(ts))[i]| <= cols && |Values(KeptTraces(ts))[i]| <= cols
    {
      assert KeptTraces(ts)[i] in ts;
      var k :| 0 <= k < |ts| && ts[k] == KeptTraces(ts)[i];
      assert |Vars(ts)[k]| <= cols && |Values(ts)[k]| <= cols;
    }
  }

  /** A diagram other than a terminal has a row that stays, and no row of it is empty. */
  lemma {:induction false} RowsStay(L: Levels, r: Ref)
    requires Normal(L, r) && r.node.BddNode? && IsBdd(r.node)
    ensures KeptTraces(Traces(r, false, [], [])) != []
    ensures forall t :: t in Traces(r, false, [], []) ==> t.vars != [] && t.vars[0] == r.node.level
  {
    var ts := Traces(r, false, [], []);
    TracesExtend(r.node.high, false != r.neg, [] + [r.node.level], [] + [1]);
    TracesExtend(r.node.low, false != r.neg, [] + [r.node.level], [] + [0]);
    var t := BooleanWitness(L, r, 0, []);
    var v := Valuation([], t);
    TracesSplit(L, r, false, [], [], v);
    FittingTrace(ts, Eval(L, r, v), v);
  }

  /** The arrays of a diagram have a first entry unless it is false, or true without any variable declared. */
  predicate HasEntry(L: Levels, r: Ref)
  {
    r.node.BddNode? || (r == TRUE && CountBools(L, |L|) > 0)
  }

  /**
   * Lists a boolean diagram as disjoint rows over its variables.  The diagram true has one row without
   * variables, which is taken for none, so it gets the list of the diagram false.  Without a first entry
   * (`ok` false) the code would read beyond the end of an array.
   */
  method CddBddToArray(L: Levels, r: Ref) returns (ok: bool, vars: array<int>, values: array<int>, numBools: nat, numTraces: nat)
    requires Normal(L, r) && IsBdd(r.node)
    ensures numBools == CountBools(L, |L|) && vars.Length == values.Length
    ensures ok <==> HasEntry(L, r)
    ensures ok && r == TRUE ==> numTraces == 0
    ensures ok && r != TRUE ==> numTraces > 0 && vars.Length == numBools * numTraces
    ensures ok ==> (CubesOf(L, r, vars[..], values[..], numBools, numTraces) <==> r != TRUE)
    ensures ok ==> Listing(L, r, vars[..], values[..], numBools, numTraces)
  {
    numBools := CountBools(L, |L|);
    vars, values, numTraces := BuildArrays(L, r, numBools);
    EntryOrNone(L, r);
    ok := vars.Length > 0;
    if ok {
      FirstEntry(L, r, vars[..], values[..], numBools);
      if vars[0] == DEFAULT {
        numTraces := 0;
        NothingListed(L, vars[..], values[..], numBools);
        NothingToList(L, r, vars[..], values[..], numBools);
      }
    }
  }

  method BuildArrays(L: Levels, r: Ref, numBools: nat) returns (vars: array<int>, values: array<int>, traces: nat)
    requires Normal(L, r) && IsBdd(r.node) && numBools == CountBools(L, |L|)
    ensures traces == |KeptTraces(Traces(r, false, [], []))| && vars.Length == values.Length == numBools * traces
    ensures Tabulates(vars[..], values[..], numBools, KeptTraces(Traces(r, false, [], [])))
    ensures forall t :: t in KeptTraces(Traces(r, false, [], [])) ==> |t.vars| <= numBools
    ensures CubesOf(L, r, vars[..], values[..], numBools, traces) && Listing(L, r, vars[..], values[..], numBools, traces)
  {
    var varsMatrix := new DynamicMatrix(numBools);
    var valuesMatrix := new DynamicMatrix(numBools);
    ghost var ts := Traces(r, false, [], []);
    FillMatrices(L, r, varsMatrix, valuesMatrix);
    varsMatrix.DeleteIgnoredRows();
    valuesMatrix.DeleteIgnoredRows();
    ghost var kept := KeptTraces(ts);
    KeptRows(ts);
    KeptShort(ts, numBools);
    vars := varsMatrix.GetArray();
    values := valuesMatrix.GetArray();
    traces := |varsMatrix.matrix|;
    RowsTabulate(varsMatrix.matrix, valuesMatrix.matrix, vars[..], values[..], numBools, kept);
    TracesAreCubes(L, r, vars[..], values[..], numBools);
    TracesAreListed(L, r, vars[..], values[..], numBools);
  }

  lemma {:induction false} RowsTabulate(rows: seq<seq<int>>, cells: seq<seq<int>>, vars: seq<int>, values: seq<int>, numBools: nat, ts: seq<Trace>)
    requires rows == Vars(ts) && cells == Values(ts) && |vars| == |values|
    requires forall i: nat, c: nat :: i < |rows| && c < numBools ==>
               Place(i, c, numBools) < |vars| && vars[Place(i, c, numBools)] == Padded(rows[i], c)
    requires forall i: nat, c: nat :: i < |cells| && c < numBools ==>
               Place(i, c, numBools) < |values| && values[Place(i, c, numBools)] == Padded(cells[i], c)
    requires forall i :: 0 <= i < |ts| ==> |rows[i]| <= numBools
    ensures Tabulates(vars, values, numBools, ts) && forall t :: t in ts ==> |t.vars| <= numBools
  {
    forall i: nat, c: nat | i < |ts| && c < numBools
      ensures Place(i, c, numBools) < |vars| == |values|
      ensures vars[Place(i, c, numBools)] == Padded(ts[i].vars, c) && values[Place(i, c, numBools)] == Padded(ts[i].values, c)
    {
      assert rows[i] == ts[i].vars && cells[i] == ts[i].values;
    }
    forall t | t in ts ensures |t.vars| <= numBools {
      var i :| 0 <= i < |ts| && ts[i] == t;
      assert |rows[i]| <= numBools;
    }
  }

  /** The arrays have as many entries as the matrix has columns and rows that stay; one is there exactly if `HasEntry`. */
  lemma {:induction false} EntryOrNone(L: Levels, r: Ref)
    requires Normal(L, r) && IsBdd(r.node)
    ensures CountBools(L, |L|) * |KeptTraces(Traces(r, false, [], []))| > 0 <==> HasEntry(L, r)
  {
    if r.node.BddNode? {
      RowsStay(L, r);
      CountBoolsGrows(L, r.node.level + 1, |L|);
      ProductPositive(CountBools(L, |L|), |KeptTraces(Traces(r, false, [], []))|);
    } else {
      TerminalRows(r);
    }
  }

  lemma {:induction false} ProductPositive(a: nat, b: nat)
    requires a > 0 && b > 0
    ensures a * b > 0
  {
  }

  lemma {:induction false} TerminalRows(r: Ref)
    requires r.node.Terminal?
    ensures |KeptTraces(Traces(r, false, [], []))| == if r == TRUE then 1 else 0
  {
    var ts := Traces(r, false, [], []);
    assert ts == [Trace([], [], !r.neg)] && ts[..0] == [];
    assert KeptTraces([]) == [];
  }

  /** No rows stand for the empty set. */
  lemma {:induction false} NothingListed(L: Levels, vars: seq<int>, values: seq<int>, numBools: nat)
    ensures !CubesOf(L, TRUE, vars, values, numBools, 0)
  {
    assert Eval(L, TRUE, Valuation([], {}));
  }

  /** The first entry of the arrays is the level of the root, if there is one. */
  lemma {:induction false} FirstEntry(L: Levels, r: Ref, vars: seq<int>, values: seq<int>, numBools: nat)
    requires Normal(L, r) && IsBdd(r.node) && HasEntry(L, r) && numBools == CountBools(L, |L|)
    requires var ts := KeptTraces(Traces(r, false, [], []));
             Tabulates(vars, values, numBools, ts) && forall t :: t in ts ==> |t.vars| <= numBools
    ensures vars != [] && KeptTraces(Traces(r, false, [], [])) != []
    ensures vars[0] == DEFAULT <==> r == TRUE
  {
    var ts := KeptTraces(Traces(r, false, [], []));
    if r == TRUE {
      assert Traces(r, false, [], []) == [Trace([], [], false)];
      assert [Trace([], [], false)][..0] == [];
    } else {
      RowsStay(L, r);
    }
    assert ts[0] in ts;
    assert Place(0, 0, numBools) == 0;
    assert vars[Place(0, 0, numBools)] == Padded(ts[0].vars, 0);
  }
}
