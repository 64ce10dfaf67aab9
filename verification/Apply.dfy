/**
 * cdd_apply with its operation cache, and the operations that are built from it.
 */
module Apply {
  import opened Bounds
  import opened Diagrams
  import opened Independence
  import opened Reduction
  import opened Pieces

  /** A slot of the direct-mapped operation cache: an operation and its result. */
  datatype CacheEntry = Empty | Entry(a: Ref, b: Ref, c: Op, res: Ref)

  /** The recorded result is a diagram in normal form that denotes the recorded operation. */
  ghost predicate Truthful(L: Levels, e: CacheEntry)
  {
    e.Entry? ==> Denotes(L, e.res, e.c, e.a, e.b)
                 && forall min :: NodeOk(L, e.a.node, min) && NodeOk(L, e.b.node, min) ==> NodeOk(L, e.res.node, min)
  }

  /** The cases that need no recursion. */
  datatype Shortcut = Known(res: Ref) | Unknown

  function Immediate(op: Op, l: Ref, r: Ref): Shortcut
  {
    match op
    case And =>
      if l == r || r == TRUE then Known(l)
      else if l == FALSE || r == FALSE || l == Neg(r) then Known(FALSE)
      else if l == TRUE then Known(r)
      else Unknown
    case Xor =>
      if l == r then Known(FALSE)
      else if l == Neg(r) then Known(TRUE)
      else if l == FALSE then Known(r)
      else if r == FALSE then Known(l)
      else if l == TRUE then Known(Neg(r))
      else if r == TRUE then Known(Neg(l))
      else Unknown
  }

  lemma {:induction false} ImmediateOk(L: Levels, op: Op, l: Ref, r: Ref, min: nat)
    requires NodeOk(L, l.node, min) && NodeOk(L, r.node, min)
    ensures Immediate(op, l, r).Known? ==> NodeOk(L, Immediate(op, l, r).res.node, min) && Denotes(L, Immediate(op, l, r).res, op, l, r)
    ensures Immediate(op, l, r).Unknown? ==> !l.node.Terminal? && !r.node.Terminal?
  {
    forall v: Valuation | Immediate(op, l, r).Known?
      ensures Eval(Independent(L), Immediate(op, l, r).res, v) == Combine(op, Eval(Independent(L), l, v), Eval(Independent(L), r, v))
    {
      EvalNeg(Independent(L), l, false, v);
      EvalNeg(Independent(L), r, false, v);
    }
    assert l.node.Terminal? ==> l == FALSE || l == TRUE;
    assert r.node.Terminal? ==> r == FALSE || r == TRUE;
  }

  lemma {:induction false} DenotesSwap(L: Levels, Z: Zone, res: Ref, op: Op, l: Ref, r: Ref)
    requires DenotesIn(L, Z, res, op, r, l)
    ensures DenotesIn(L, Z, res, op, l, r)
  {
  }

  lemma {:induction false} NoNewSwap(res: Ref, l: Ref, r: Ref)
    requires NoNewBounds(res, r, l)
    ensures NoNewBounds(res, l, r)
  {
  }

  lemma {:induction false} NoNewBool(level: nat, l: Ref, r: Ref, low: Ref, high: Ref)
    requires NoNewBounds(low, LowAt(l, level), LowAt(r, level)) && NoNewBounds(high, HighAt(l, level), HighAt(r, level))
    ensures NoNewBounds(MakeBool(level, low, high), l, r)
  {
    forall x: nat, B: iset<int> | BoundsIn(l.node, x, B) && BoundsIn(r.node, x, B)
      ensures BoundsIn(MakeBool(level, low, high).node, x, B)
    {
      assert BoundsIn(LowAt(l, level).node, x, B) && BoundsIn(LowAt(r, level).node, x, B);
      assert BoundsIn(HighAt(l, level).node, x, B) && BoundsIn(HighAt(r, level).node, x, B);
    }
  }

  /** The children of a diagram at a boolean level. */
  function LowAt(r: Ref, level: nat): Ref
  {
    if r.node.BddNode? && r.node.level == level then NegCond(r.node.low, r.neg) else r
  }

  function HighAt(r: Ref, level: nat): Ref
  {
    if r.node.BddNode? && r.node.level == level then NegCond(r.node.high, r.neg) else r
  }

  lemma {:induction false} BoolChildren(L: Levels, r: Ref, level: nat)
    requires NodeOk(L, r.node, level) && level < |L| && L[level].BoolLevel?
    ensures NodeOk(L, LowAt(r, level).node, level + 1) && NodeOk(L, HighAt(r, level).node, level + 1)
    ensures forall v: Valuation :: Eval(L, r, v) == if level in v.truths then Eval(L, HighAt(r, level), v) else Eval(L, LowAt(r, level), v)
  {
    if r.node.BddNode? && r.node.level == level {
      forall v: Valuation
        ensures Eval(L, r, v) == if level in v.truths then Eval(L, HighAt(r, level), v) else Eval(L, LowAt(r, level), v)
      {
        EvalNeg(L, r.node.low, r.neg, v);
        EvalNeg(L, r.node.high, r.neg, v);
      }
    }
  }

  lemma {:induction false} BoolDenotes(L: Levels, Z: Zone, level: nat, op: Op, l: Ref, r: Ref, low: Ref, high: Ref)
    requires NodeOk(L, l.node, level) && NodeOk(L, r.node, level) && level < |L| && L[level].BoolLevel?
    requires DenotesIn(L, Z, low, op, LowAt(l, level), LowAt(r, level))
    requires DenotesIn(L, Z, high, op, HighAt(l, level), HighAt(r, level))
    ensures DenotesIn(L, Z, MakeBool(level, low, high), op, l, r)
  {
    BoolChildren(L, l, level);
    BoolChildren(L, r, level);
    forall v: Valuation | v.clocks in Z
      ensures Eval(L, MakeBool(level, low, high), v) == Combine(op, Eval(L, l, v), Eval(L, r, v))
    {
      MakeBoolMeaning(L, level, low, high, v);
    }
  }

  lemma {:induction false} StartsAt(L: Levels, n: Node, min: nat, level: nat)
    requires NodeOk(L, n, min) && level <= LevelOf(L, n)
    ensures NodeOk(L, n, level)
    ensures !n.Terminal? ==> min <= LevelOf(L, n) < |L| && (L[LevelOf(L, n)].ClockLevel? <==> n.CddNode?)
  {
  }

  /** The operation cache and everything an operation needs to know. */
  class Operators {
    const L: Levels
    const table: array<CacheEntry>
    /** Spreads operations over the table. */
    const hash: (Ref, Ref, Op) -> nat
    /** The order of addresses, by which operands are sorted before the lookup. */
    const before: (Ref, Ref) -> bool

    ghost predicate Valid()
      reads this, table
    {
      table.Length > 0 && forall k :: 0 <= k < table.Length ==> Truthful(L, table[k])
    }

    /** The operation is in the cache. */
    predicate Recorded(op: Op, l: Ref, r: Ref, res: Ref)
      reads table
    {
      table.Length > 0 && table[hash(l, r, op) % table.Length] == Entry(l, r, op, res)
    }

    constructor (L: Levels, size: nat, hash: (Ref, Ref, Op) -> nat, before: (Ref, Ref) -> bool)
      requires size > 0
      ensures Valid() && this.L == L && fresh(table)
    {
      this.L := L;
      this.hash := hash;
      this.before := before;
      table := new CacheEntry[size](_ => Empty);
    }

    /** The conjunction or exclusive-or of two diagrams, again in normal form. */
    method ApplyRec(op: Op, l0: Ref, r0: Ref, min: nat) returns (res: Ref)
      requires Valid() && NodeOk(L, l0.node, min) && NodeOk(L, r0.node, min)
      modifies table
      ensures Valid()
      ensures NodeOk(L, res.node, min) && Denotes(L, res, op, l0, r0)
      ensures Immediate(op, l0, r0).Unknown? ==> Recorded(op, if before(r0, l0) then r0 else l0, if before(r0, l0) then l0 else r0, res)
      decreases |L| - min, 2
    {
      ImmediateOk(L, op, l0, r0, min);
      var quick := Immediate(op, l0, r0);
      if quick.Known? {
        return quick.res;
      }
      var l, r := l0, r0;
      if before(r, l) {
        l, r := r, l;
      }
      var slot := hash(l, r, op) % table.Length;
      var entry := table[slot];
      if entry.Entry? && entry.a == l && entry.b == r && entry.c == op {
        assert Truthful(L, table[slot]);
        res := entry.res;
      } else {
        res := ApplyNode(op, l, r, min);
        table[slot] := Entry(l, r, op, res);
      }
      if l != l0 {
        DenotesSwap(Independent(L), Everywhere(), res, op, l0, r0);
        NoNewSwap(res, l0, r0);
      }
    }

    /** The recursion at the upper of the two levels. */
    method ApplyNode(op: Op, l: Ref, r: Ref, ghost min: nat) returns (res: Ref)
      requires Valid() && NodeOk(L, l.node, min) && NodeOk(L, r.node, min)
      requires !l.node.Terminal? && !r.node.Terminal?
      modifies table
      ensures Valid()
      ensures forall m :: NodeOk(L, l.node, m) && NodeOk(L, r.node, m) ==> NodeOk(L, res.node, m)
      ensures Denotes(L, res, op, l, r)
      decreases |L| - min, 1
    {
      var level := Minimum(LevelOf(L, l.node), LevelOf(L, r.node));
      StartsAt(L, l.node, min, level);
      StartsAt(L, r.node, min, level);
      match L[level] {
        case ClockLevel(_, _) =>
          res := ApplyClock(op, l, r, level);
        case BoolLevel =>
          res := ApplyBool(op, l, r, level);
      }
      forall m | NodeOk(L, l.node, m) && NodeOk(L, r.node, m) ensures NodeOk(L, res.node, m) {
        NodeOkWeaken(L, res.node, m, level);
      }
    }

    method ApplyBool(op: Op, l: Ref, r: Ref, level: nat) returns (res: Ref)
      requires Valid() && level < |L| && L[level].BoolLevel?
      requires NodeOk(L, l.node, level) && NodeOk(L, r.node, level)
      modifies table
      ensures Valid()
      ensures NodeOk(L, res.node, level) && Denotes(L, res, op, l, r)
      decreases |L| - level, 0
    {
      BoolChildren(L, l, level);
      BoolChildren(L, r, level);
      var n := ApplyRec(op, LowAt(l, level), LowAt(r, level), level + 1);
      res := ApplyRec(op, HighAt(l, level), HighAt(r, level), level + 1);
      KindsOnly(L);
      BoolDenotes(Independent(L), Everywhere(), level, op, l, r, n, res);
      NoNewBool(level, l, r, n, res);
      MakeBoolOk(L, level, n, res);
      res := MakeBool(level, n, res);
    }

    /** Walks the pieces of both operands in step and joins equal neighbours on the stack. */
    method ApplyClock(op: Op, l: Ref, r: Ref, level: nat) returns (res: Ref)
      requires Valid() && level < |L| && L[level].ClockLevel?
      requires NodeOk(L, l.node, level) && NodeOk(L, r.node, level)
      modifies table
      ensures Valid()
      ensures NodeOk(L, res.node, level) && Denotes(L, res, op, l, r)
      decreases |L| - level, 0
    {
      ghost var F := Independent(L);
      KindsOnly(L);
      var lp, rp := Kids(l, level), Kids(r, level);
      OperandsOk(F, level, l, r, lp, rp);
      var prev := ApplyRec(op, lp[0].child, rp[0].child, level + 1);
      ZipFirst(F, Everywhere(), level, op, l, r, lp, rp, 0, 0, -INF, prev);
      res := ApplyRest(op, l, r, level, lp, rp, prev);
    }

    /** The pieces after the first. */
    method ApplyRest(op: Op, ghost l: Ref, ghost r: Ref, level: nat, lp: seq<Elem>, rp: seq<Elem>, first: Ref) returns (res: Ref)
      requires Valid() && Operands(Independent(L), level, l, r, lp, rp) && lp != [] && rp != []
      requires Zip(Independent(L), Everywhere(), level, op, l, r, lp, rp, 0, 0, -INF, Minimum(lp[0].bnd, rp[0].bnd), [], first, first.neg,
                   [Elem(first, Minimum(lp[0].bnd, rp[0].bnd))])
      modifies table
      ensures Valid()
      ensures NodeOk(L, res.node, level) && Denotes(L, res, op, l, r)
      decreases |L| - level - 1, 3
    {
      ghost var F := Independent(L);
      KindsOnly(L);
      var i: nat, j: nat, prev, mask := 0, 0, first, first.neg;
      var bnd := Minimum(lp[0].bnd, rp[0].bnd);
      var stack: seq<Elem> := [];
      ghost var low, done := -INF, [Elem(prev, bnd)];
      while bnd < INF
        invariant Valid()
        invariant Zip(F, Everywhere(), level, op, l, r, lp, rp, i, j, low, bnd, stack, prev, mask, done)
        decreases INF - bnd
      {
        ZipAdvance(F, Everywhere(), level, op, l, r, lp, rp, i, j, low, bnd, stack, prev, mask, done);
        low := bnd;
        i, j := if lp[i].bnd == bnd then i + 1 else i, if rp[j].bnd == bnd then j + 1 else j;
        var n := ApplyRec(op, lp[i].child, rp[j].child, level + 1);
        ghost var stackWas, was := stack, prev;
        if n != prev {
          stack := stack + [Elem(NegCond(prev, mask), bnd)];
          prev := n;
        }
        bnd := Minimum(lp[i].bnd, rp[j].bnd);
        ZipNext(F, Everywhere(), level, op, l, r, lp, rp, i, j, low, stackWas, was, mask, done, n, stack);
        done := done + [Elem(n, bnd)];
      }
      ZipDone(F, Everywhere(), level, op, l, r, lp, rp, i, j, low, bnd, stack, prev, mask, done);
      stack := stack + [Elem(NegCond(prev, mask), INF)];
      res := NegCond(MakeNode(level, stack), mask);
    }
  }
}
