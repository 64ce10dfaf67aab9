/**
 * Doubly linked lists of vertices kept in an array: cell x holds the neighbours of vertex x, and
 * the last cell closes the list into a ring.
 */
module Links {
  import opened Sequences

  datatype Link = Link(next: nat, prev: nat)

  function Inserted(list: seq<Link>, pos: nat, element: nat): (r: seq<Link>)
    requires pos < |list| && element < |list| && list[pos].next < |list|
    ensures |r| == |list|
  {
    var succ := list[pos].next;
    var linked := list[succ := list[succ].(prev := element)][element := Link(succ, pos)];
    linked[pos := linked[pos].(next := element)]
  }

  function Removed(list: seq<Link>, pos: nat): (r: seq<Link>)
    requires pos < |list| && list[pos].next < |list| && list[pos].prev < |list|
    ensures |r| == |list|
  {
    var next, prev := list[pos].next, list[pos].prev;
    var skipped := list[prev := list[prev].(next := next)];
    skipped[next := skipped[next].(prev := prev)]
  }

  /** Inserts element after pos. */
  method Insert(list: array<Link>, pos: nat, element: nat)
    requires pos < list.Length && element < list.Length && list[pos].next < list.Length
    modifies list
    ensures list[..] == Inserted(old(list[..]), pos, element)
  {
    var succ := list[pos].next;
    list[succ] := list[succ].(prev := element);
    list[element] := list[element].(next := succ);
    list[element] := list[element].(prev := pos);
    list[pos] := list[pos].(next := element);
  }

  /** Takes pos out of the list; its own cell keeps its old links. */
  method Remove(list: array<Link>, pos: nat)
    requires pos < list.Length && list[pos].next < list.Length && list[pos].prev < list.Length
    modifies list
    ensures list[..] == Removed(old(list[..]), pos)
  {
    var next := list[pos].next;
    var prev := list[pos].prev;
    list[prev] := list[prev].(next := next);
    list[next] := list[next].(prev := prev);
  }

  /** The k-th stop on the ring that starts and ends at the closing cell n. */
  function At(n: nat, q: seq<nat>, k: int): nat
  {
    if 1 <= k <= |q| then q[k - 1] else n
  }

  /** The ring through cell n lists exactly the vertices of q, in order. */
  ghost predicate Represents(list: seq<Link>, n: nat, q: seq<nat>)
  {
    && |list| == n + 1
    && NoRepeat(q)
    && (forall k :: 0 <= k < |q| ==> q[k] < n)
    && (forall k {:trigger At(n, q, k)} :: 0 <= k <= |q| ==>
          list[At(n, q, k)].next == At(n, q, k + 1) && list[At(n, q, k + 1)].prev == At(n, q, k))
  }

  lemma {:induction false} InsertAtTail(list: seq<Link>, n: nat, q: seq<nat>, x: nat)
    requires Represents(list, n, q) && x < n && x !in q
    ensures list[n].prev <= n && list[list[n].prev].next == n
    ensures Represents(Inserted(list, list[n].prev, x), n, q + [x])
  {
    var tail := At(n, q, |q|);
    assert At(n, q, |q| + 1) == n;
    assert list[n].prev == tail && list[tail].next == n;
    var list', q' := Inserted(list, tail, x), q + [x];
    forall k {:trigger At(n, q', k)} | 0 <= k <= |q'|
      ensures list'[At(n, q', k)].next == At(n, q', k + 1) && list'[At(n, q', k + 1)].prev == At(n, q', k)
    {
      if k < |q| {
        assert At(n, q', k) == At(n, q, k) && At(n, q', k + 1) == At(n, q, k + 1);
        assert At(n, q, k) != tail;
        assert At(n, q, k + 1) != n;
      } else if k == |q| {
        assert At(n, q', k) == tail && At(n, q', k + 1) == x;
      }
    }
  }

  lemma {:induction false} RemoveFromMiddle(list: seq<Link>, n: nat, q: seq<nat>, i: nat)
    requires Represents(list, n, q) && i < |q|
    ensures list[q[i]].next <= n && list[q[i]].prev <= n
    ensures Represents(Removed(list, q[i]), n, q[..i] + q[i + 1..])
    ensures q[i] !in q[..i] + q[i + 1..]
    ensures forall x :: x in q <==> x in q[..i] + q[i + 1..] || x == q[i]
  {
    var q' := q[..i] + q[i + 1..];
    WithoutOne(q, i);
    assert At(n, q, i + 1) == q[i];
    assert list[At(n, q, i)].next == q[i];
    forall k {:trigger At(n, q', k)} | 0 <= k <= |q'|
      ensures var list' := Removed(list, q[i]);
              list'[At(n, q', k)].next == At(n, q', k + 1) && list'[At(n, q', k + 1)].prev == At(n, q', k)
    {
      StopAfterRemoval(n, q, i, k);
      StopAfterRemoval(n, q, i, k + 1);
      RingAfterRemoval(list, n, q, i, if k <= i then k else k + 1);
    }
  }

  /** Cells other than the neighbours of the removed vertex keep their links. */
  lemma {:induction false} RingAfterRemoval(list: seq<Link>, n: nat, q: seq<nat>, i: nat, j: nat)
    requires Represents(list, n, q) && i < |q| && j <= |q| && j != i + 1
    ensures At(n, q, i + 1) == q[i] && list[q[i]].next <= n && list[q[i]].prev <= n
    ensures Removed(list, q[i])[At(n, q, j)].next == At(n, q, if j == i then i + 2 else j + 1)
    ensures Removed(list, q[i])[At(n, q, if j == i then i + 2 else j + 1)].prev == At(n, q, j)
  {
    assert list[At(n, q, i)].next == At(n, q, i + 1) && list[At(n, q, i + 1)].prev == At(n, q, i);
    assert list[At(n, q, i + 1)].next == At(n, q, i + 2);
    assert list[At(n, q, j)].next == At(n, q, j + 1) && list[At(n, q, j + 1)].prev == At(n, q, j);
    if j != i {
      assert At(n, q, j) != At(n, q, i);
      assert At(n, q, j + 1) != At(n, q, i + 2);
    }
  }

  lemma {:induction false} StopAfterRemoval(n: nat, q: seq<nat>, i: nat, k: nat)
    requires i < |q| && k <= |q|
    ensures At(n, q[..i] + q[i + 1..], k) == if k <= i then At(n, q, k) else At(n, q, k + 1)
  {
  }

  /** The closing cell points at the first vertex, or at itself when there is none. */
  lemma {:induction false} FirstQueued(list: seq<Link>, n: nat, q: seq<nat>)
    requires Represents(list, n, q)
    ensures if q == [] then list[n].next == n else list[n].next == q[0] < n
  {
    assert At(n, q, 0) == n;
    assert list[At(n, q, 0)].next == At(n, q, 1);
  }
}
