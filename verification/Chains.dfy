/**
 * Hash chains: nodes linked through their `next` fields, strictly falling by key.
 */
module Chains {
  import opened Nodes
  import opened Sequences

  /** The nodes of a chain, from the head to the sentinel. */
  ghost predicate Linked(next: seq<Id>, head: Id, chain: seq<Id>)
    decreases |chain|
  {
    if chain == [] then head == SENTINEL
    else head == chain[0] && head != SENTINEL && head < |next| && Linked(next, next[head], chain[1..])
  }

  /** Keys fall strictly along the chain. */
  ghost predicate Descending(body: seq<Body>, chain: seq<Id>)
  {
    && (forall i :: 0 <= i < |chain| ==> chain[i] < |body|)
    && (forall i, j :: 0 <= i < j < |chain| ==> LexLess(Words(body[chain[j]]), Words(body[chain[i]])))
  }

  lemma {:induction false} LinkedFrame(next: seq<Id>, next': seq<Id>, head: Id, chain: seq<Id>)
    requires Linked(next, head, chain) && |next| <= |next'|
    requires forall id :: id in chain && id < |next| ==> next'[id] == next[id]
    ensures Linked(next', head, chain)
    decreases |chain|
  {
    if chain != [] { LinkedFrame(next, next', next[head], chain[1..]); }
  }

  /** Where two chains meet. */
  lemma {:induction false} LinkedJoin(next: seq<Id>, head: Id, a: seq<Id>, mid: Id, b: seq<Id>)
    requires Linked(next, mid, b)
    requires LinkedTo(next, head, a, mid)
    ensures Linked(next, head, a + b)
    decreases |a|
  {
    if a == [] {
      assert a + b == b;
    } else {
      LinkedJoin(next, next[head], a[1..], mid, b);
      assert (a + b)[1..] == a[1..] + b;
    }
  }

  /** A piece of a chain, from `head` up to but not including `end`. */
  ghost predicate LinkedTo(next: seq<Id>, head: Id, piece: seq<Id>, end: Id)
    decreases |piece|
  {
    if piece == [] then head == end
    else head == piece[0] && head != SENTINEL && head < |next| && LinkedTo(next, next[head], piece[1..], end)
  }

  lemma {:induction false} LinkedSplit(next: seq<Id>, head: Id, a: seq<Id>, b: seq<Id>) returns (mid: Id)
    requires Linked(next, head, a + b)
    ensures LinkedTo(next, head, a, mid) && Linked(next, mid, b)
    decreases |a|
  {
    if a == [] {
      assert a + b == b;
      mid := head;
    } else {
      assert (a + b)[1..] == a[1..] + b;
      mid := LinkedSplit(next, next[head], a[1..], b);
    }
  }

  lemma {:induction false} LinkedToFrame(next: seq<Id>, next': seq<Id>, head: Id, piece: seq<Id>, end: Id)
    requires LinkedTo(next, head, piece, end) && |next| <= |next'|
    requires forall id :: id in piece && id < |next| ==> next'[id] == next[id]
    ensures LinkedTo(next', head, piece, end)
    decreases |piece|
  {
    if piece != [] { LinkedToFrame(next, next', next[head], piece[1..], end); }
  }

  /** Redirecting the last node of a piece redirects its end. */
  lemma {:induction false} LinkedToRedirect(next: seq<Id>, head: Id, piece: seq<Id>, end: Id, end': Id)
    requires piece != [] && LinkedTo(next, head, piece, end) && NoRepeat(piece)
    ensures piece[|piece| - 1] < |next|
    ensures LinkedTo(next[piece[|piece| - 1] := end'], head, piece, end')
    decreases |piece|
  {
    var last := piece[|piece| - 1];
    if |piece| > 1 {
      LinkedToRedirect(next, next[head], piece[1..], end, end');
      assert piece[1..][|piece| - 2] == last;
      assert piece[0] != last;
    }
  }

  lemma {:induction false} DescendingNoRepeat(body: seq<Body>, chain: seq<Id>)
    requires Descending(body, chain)
    ensures NoRepeat(chain)
  {
    forall i, j | 0 <= i < j < |chain| ensures chain[i] != chain[j] {
      LexAsymmetric(Words(body[chain[j]]), Words(body[chain[i]]));
    }
  }

  /** A field that holds a pointer into the chain: the bucket itself, or the `next` of a node. */
  datatype Link = Head | Next(id: Id)

  function Follow(next: seq<Id>, head: Id, p: Link): Id
    requires p.Next? ==> p.id < |next|
  {
    if p.Head? then head else next[p.id]
  }

  /** p is the field that leads out of the piece. */
  ghost predicate LeadsOut(piece: seq<Id>, p: Link)
  {
    p == if piece == [] then Head else Next(piece[|piece| - 1])
  }

  /** Only the fields of these nodes have changed. */
  ghost predicate Unchanged(next0: seq<Id>, next: seq<Id>, nodes: seq<Id>)
  {
    |next| == |next0| && forall id :: 0 <= id < |next| && id !in nodes ==> next[id] == next0[id]
  }

  lemma {:induction false} UnchangedMore(next0: seq<Id>, was: seq<Id>, next: seq<Id>, some: seq<Id>, nodes: seq<Id>)
    requires Unchanged(next0, was, nodes) && Unchanged(was, next, some) && forall id :: id in some ==> id in nodes
    ensures Unchanged(next0, next, nodes)
  {
  }

  // ----- Finding a place

  ghost predicate AllLarger(body: seq<Body>, ids: seq<Id>, words: seq<int>)
  {
    forall id :: id in ids ==> id < |body| && LexLess(words, Words(body[id]))
  }

  /** The keys before the place are larger; those from the place on are not. */
  ghost predicate IsPlace(body: seq<Body>, before: seq<Id>, after: seq<Id>, words: seq<int>)
  {
    && AllLarger(body, before, words)
    && (forall id :: id in after ==> id < |body| && !LexLess(words, Words(body[id])))
  }

  lemma {:induction false} DescendingSplit(body: seq<Body>, a: seq<Id>, b: seq<Id>)
    ensures Descending(body, a + b)
            <==> (Descending(body, a) && Descending(body, b)
                  && forall x, y :: x in a && y in b ==> LexLess(Words(body[y]), Words(body[x])))
  {
    var s := a + b;
    assert forall i :: 0 <= i < |a| ==> s[i] == a[i];
    assert forall j :: 0 <= j < |b| ==> s[|a| + j] == b[j];
    if Descending(body, a) && Descending(body, b) && forall x, y :: x in a && y in b ==> LexLess(Words(body[y]), Words(body[x])) {
      forall i, j | 0 <= i < j < |s| ensures LexLess(Words(body[s[j]]), Words(body[s[i]])) {
        if i < |a| <= j {
          assert s[i] in a && s[j] in b;
        } else if |a| <= i {
          assert s[i] == b[i - |a|] && s[j] == b[j - |a|];
        }
      }
    }
  }

  ghost predicate InBody(body: seq<Body>, ids: seq<Id>)
  {
    forall i :: 0 <= i < |ids| ==> ids[i] < |body|
  }

  /** Follows the chain past all larger keys. */
  method FindPlace(next: seq<Id>, body: seq<Body>, head: Id, words: seq<int>, ghost chain: seq<Id>)
    returns (p: Link, ghost before: seq<Id>, ghost after: seq<Id>)
    requires Linked(next, head, chain) && InBody(body, chain)
    requires SENTINEL < |body| && body[SENTINEL].Nothing?
    ensures chain == before + after && AllLarger(body, before, words) && LeadsOut(before, p)
    ensures after != [] ==> after[0] < |body| && !LexLess(words, Words(body[after[0]]))
    ensures p.Next? ==> p.id < |next|
    ensures Follow(next, head, p) == if after != [] then after[0] else SENTINEL
  {
    p, before, after := Head, [], chain;
    var node: Id := head;
    while LexLess(words, Words(body[node]))
      invariant chain == before + after && InBody(body, after) && Linked(next, node, after) && node < |body|
      invariant LeadsOut(before, p) && (p.Next? ==> p.id < |next|) && Follow(next, head, p) == node
      invariant AllLarger(body, before, words)
      decreases |after|
    {
      assert before + after == (before + [after[0]]) + after[1..];
      p := Next(node);
      node := next[node];
      before, after := before + [after[0]], after[1..];
      assert node == if after == [] then SENTINEL else after[0];
    }
  }

  /** Past the first key that is not larger none is. */
  lemma {:induction false} NoneLarger(body: seq<Body>, before: seq<Id>, after: seq<Id>, words: seq<int>)
    requires Descending(body, before + after) && AllLarger(body, before, words)
    requires after != [] ==> after[0] < |body| && !LexLess(words, Words(body[after[0]]))
    ensures IsPlace(body, before, after, words)
  {
    DescendingSplit(body, before, after);
    forall id | id in after ensures id < |body| && !LexLess(words, Words(body[id])) {
      var i :| 0 <= i < |after| && after[i] == id;
      if i > 0 && LexLess(words, Words(body[id])) {
        LexTransitive(words, Words(body[id]), Words(body[after[0]]));
      }
    }
  }

  /** A key that is in the chain at all is at its place. */
  lemma {:induction false} FoundAtPlace(body: seq<Body>, before: seq<Id>, after: seq<Id>, words: seq<int>, id: Id)
    requires Descending(body, before + after) && IsPlace(body, before, after, words)
    requires id in before + after && Words(body[id]) == words
    ensures after != [] && after[0] == id
  {
    NotLess(words);
    DescendingSplit(body, before, after);
    assert after[0] in after && after == [after[0]] + after[1..];
    DescendingSplit(body, [after[0]], after[1..]);
  }

  lemma {:induction false} NotLess(a: seq<int>)
    ensures !LexLess(a, a)
  {
    if LexLess(a, a) { LexAsymmetric(a, a); }
  }

  /** A new key put at its place keeps the chain in order. */
  lemma {:induction false} InsertDescending(body: seq<Body>, before: seq<Id>, after: seq<Id>, id: Id)
    requires id < |body| && Descending(body, before + after) && IsPlace(body, before, after, Words(body[id]))
    requires forall x :: x in after ==> Words(body[x]) != Words(body[id])
    ensures Descending(body, before + [id] + after)
  {
    DescendingSplit(body, before, after);
    forall x | x in after ensures LexLess(Words(body[x]), Words(body[id])) {
      LexTotal(Words(body[x]), Words(body[id]));
    }
    DescendingSplit(body, [id], after);
    DescendingSplit(body, before, [id] + after);
    assert before + [id] + after == before + ([id] + after);
  }

  // ----- Linking a node in

  /** Links a node in at a place found before. */
  method InsertAt(next0: seq<Id>, head0: Id, p: Link, node: Id, ghost before: seq<Id>, ghost after: seq<Id>) returns (next: seq<Id>, head: Id)
    requires Linked(next0, head0, before + after) && NoRepeat(before + after) && LeadsOut(before, p)
    requires node < |next0| && node != SENTINEL && node !in before + after
    ensures |next| == |next0| && Linked(next, head, before + [node] + after)
    ensures Unchanged(next0, next, before + [node])
  {
    next, head := next0, head0;
    ghost var mid := LinkedSplit(next, head, before, after);
    LeadsTo(next, head, before, mid, p);
    SplitNoRepeat(before, after);
    next := next[node := Follow(next, head, p)];
    LinkedFrame(next0, next, mid, after);
    LinkedToFrame(next0, next, head, before, mid);
    assert Linked(next, node, [node] + after) by { assert ([node] + after)[1..] == after; }
    if p.Head? {
      head := node;
    } else {
      LinkedToRedirect(next, head, before, mid, node);
      RedirectBehind(next, node, [node] + after, p.id, node);
      next := next[p.id := node];
    }
    LinkedJoin(next, head, before, node, [node] + after);
    assert before + [node] + after == before + ([node] + after);
  }

  lemma {:induction false} SplitNoRepeat(a: seq<Id>, b: seq<Id>)
    requires NoRepeat(a + b)
    ensures NoRepeat(a) && NoRepeat(b) && forall id :: id in a ==> id !in b
  {
    var s := a + b;
    assert forall i :: 0 <= i < |a| ==> s[i] == a[i];
    assert forall j :: 0 <= j < |b| ==> s[|a| + j] == b[j];
  }

  lemma {:induction false} RedirectBehind(next: seq<Id>, head: Id, chain: seq<Id>, id: Id, to: Id)
    requires Linked(next, head, chain) && id < |next| && id !in chain
    ensures Linked(next[id := to], head, chain)
  {
    LinkedFrame(next, next[id := to], head, chain);
  }

  lemma {:induction false} LeadsTo(next: seq<Id>, head: Id, piece: seq<Id>, end: Id, p: Link)
    requires LinkedTo(next, head, piece, end) && LeadsOut(piece, p)
    ensures p.Next? ==> p.id < |next| && p.id in piece
    ensures Follow(next, head, p) == end
    decreases |piece|
  {
    if |piece| > 1 {
      assert piece[1..][|piece| - 2] == piece[|piece| - 1];
      LeadsTo(next, next[head], piece[1..], end, p);
    }
  }

  lemma {:induction false} ExtendPiece(next: seq<Id>, head: Id, piece: seq<Id>, node: Id)
    requires LinkedTo(next, head, piece, node) && node < |next| && node != SENTINEL
    ensures LinkedTo(next, head, piece + [node], next[node])
    decreases |piece|
  {
    if piece != [] {
      ExtendPiece(next, next[head], piece[1..], node);
      assert (piece + [node])[1..] == piece[1..] + [node];
    }
  }

  /** Appends a node behind a piece that ends in the field p. */
  method Append(next0: seq<Id>, head0: Id, p: Link, node: Id, ghost piece: seq<Id>, ghost end0: Id)
    returns (next: seq<Id>, head: Id, q: Link)
    requires LinkedTo(next0, head0, piece, end0) && NoRepeat(piece) && LeadsOut(piece, p)
    requires node < |next0| && node != SENTINEL && node !in piece
    ensures |next| == |next0| && LeadsOut(piece + [node], q)
    ensures LinkedTo(next, head, piece + [node], next[node])
    ensures Unchanged(next0, next, piece)
  {
    next, head := next0, head0;
    if p.Head? {
      head := node;
    } else {
      LinkedToRedirect(next, head, piece, end0, node);
      next := next[p.id := node];
    }
    ExtendPiece(next, head, piece, node);
    q := Next(node);
  }

  /** Moves the first node of the rest behind a piece; another piece stays as it is. */
  method Move(next0: seq<Id>, head0: Id, p: Link, node: Id, ghost piece: seq<Id>, ghost end0: Id,
              ghost rest: seq<Id>, ghost other: seq<Id>, ghost other_head: Id, ghost other_end: Id)
    returns (next: seq<Id>, head: Id, q: Link)
    requires LinkedTo(next0, head0, piece, end0) && NoRepeat(piece) && LeadsOut(piece, p)
    requires Linked(next0, node, [node] + rest) && node !in piece
    requires LinkedTo(next0, other_head, other, other_end)
    requires forall id :: id in piece ==> id !in rest && id !in other
    ensures |next| == |next0| && LeadsOut(piece + [node], q)
    ensures LinkedTo(next, head, piece + [node], next[node]) && Linked(next, next[node], rest)
    ensures LinkedTo(next, other_head, other, other_end)
    ensures Unchanged(next0, next, piece)
  {
    assert ([node] + rest)[1..] == rest;
    next, head, q := Append(next0, head0, p, node, piece, end0);
    LinkedFrame(next0, next, next0[node], rest);
    LinkedToFrame(next0, next, other_head, other, other_end);
  }

  /** Ends a piece at the sentinel. */
  method Close(next0: seq<Id>, head0: Id, p: Link, ghost piece: seq<Id>, ghost end0: Id) returns (next: seq<Id>, head: Id)
    requires LinkedTo(next0, head0, piece, end0) && NoRepeat(piece) && LeadsOut(piece, p)
    ensures |next| == |next0| && Linked(next, head, piece)
    ensures Unchanged(next0, next, piece)
  {
    next, head := next0, head0;
    if p.Head? {
      head := SENTINEL;
    } else {
      LinkedToRedirect(next, head, piece, end0, SENTINEL);
      next := next[p.id := SENTINEL];
    }
    LinkedJoin(next, head, piece, SENTINEL, []);
    assert piece + [] == piece;
  }

  // ----- Sweeping

  predicate HasRefs(ref: seq<nat>, id: Id) { id < |ref| && ref[id] != 0 }

  /** The nodes of a chain that have references, in order. */
  function Alive(ref: seq<nat>, chain: seq<Id>): seq<Id>
  {
    if chain == [] then []
    else
      var front, last := Alive(ref, chain[..|chain| - 1]), chain[|chain| - 1];
      if HasRefs(ref, last) then front + [last] else front
  }

  /** The others, last one first. */
  function Dead(ref: seq<nat>, chain: seq<Id>): seq<Id>
  {
    if chain == [] then []
    else
      var front, last := Dead(ref, chain[..|chain| - 1]), chain[|chain| - 1];
      if HasRefs(ref, last) then front else [last] + front
  }

  lemma {:induction false} AliveOrDead(ref: seq<nat>, chain: seq<Id>)
    ensures forall id :: id in Alive(ref, chain) <==> id in chain && HasRefs(ref, id)
    ensures forall id :: id in Dead(ref, chain) <==> id in chain && !HasRefs(ref, id)
  {
    if chain != [] {
      var front, last := chain[..|chain| - 1], chain[|chain| - 1];
      AliveOrDead(ref, front);
      assert chain == front + [last];
    }
  }

  lemma {:induction false} AliveNoRepeat(ref: seq<nat>, chain: seq<Id>)
    requires NoRepeat(chain)
    ensures NoRepeat(Alive(ref, chain)) && NoRepeat(Dead(ref, chain))
  {
    if chain != [] {
      AliveNoRepeat(ref, chain[..|chain| - 1]);
      AliveOrDead(ref, chain[..|chain| - 1]);
    }
  }

  /** One step along the chain: the node that comes next is none of those before or after it. */
  lemma {:induction false} ChainStep(done: seq<Id>, rest: seq<Id>)
    requires NoRepeat(done + rest) && rest != []
    ensures done + rest == (done + [rest[0]]) + rest[1..] && rest == [rest[0]] + rest[1..]
    ensures (done + [rest[0]])[..|done|] == done && NoRepeat(done)
    ensures forall id :: id in done ==> id != rest[0] && id !in rest[1..]
    ensures rest[0] !in rest[1..] && rest[0] in done + rest && forall id :: id in done ==> id in done + rest
  {
    var chain := done + rest;
    assert forall i :: 0 <= i < |done| ==> chain[i] == done[i];
    assert forall i :: 0 <= i < |rest| ==> chain[|done| + i] == rest[i];
  }

  lemma {:induction false} SweepStep(ref: seq<nat>, done: seq<Id>, rest: seq<Id>)
    requires NoRepeat(done + rest) && rest != []
    ensures done + rest == (done + [rest[0]]) + rest[1..] && rest == [rest[0]] + rest[1..]
    ensures NoRepeat(Alive(ref, done))
    ensures forall id :: id in Alive(ref, done) ==> id in done + rest && id != rest[0] && id !in rest[1..]
    ensures Alive(ref, done + [rest[0]]) == if HasRefs(ref, rest[0]) then Alive(ref, done) + [rest[0]] else Alive(ref, done)
    ensures Dead(ref, done + [rest[0]]) == if HasRefs(ref, rest[0]) then Dead(ref, done) else [rest[0]] + Dead(ref, done)
  {
    ChainStep(done, rest);
    AliveOrDead(ref, done);
    AliveNoRepeat(ref, done);
  }

  /** Unlinks the nodes without references, in one pass over the chain. */
  method SweepChain(next0: seq<Id>, head0: Id, ref: seq<nat>, ghost chain: seq<Id>) returns (next: seq<Id>, head: Id, freed: seq<Id>)
    requires Linked(next0, head0, chain) && NoRepeat(chain) && |ref| == |next0|
    ensures |next| == |next0| && Linked(next, head, Alive(ref, chain))
    ensures Unchanged(next0, next, chain)
    ensures freed == Dead(ref, chain)
  {
    next, head, freed := next0, head0, [];
    var p: Link, node: Id := Head, head0;
    ghost var done: seq<Id>, rest: seq<Id>, end: Id := [], chain, head0;
    while node != SENTINEL
      invariant chain == done + rest && |next| == |next0| && Linked(next, node, rest)
      invariant freed == Dead(ref, done)
      invariant LeadsOut(Alive(ref, done), p) && LinkedTo(next, head, Alive(ref, done), end)
      invariant Unchanged(next0, next, chain)
      decreases |rest|
    {
      SweepStep(ref, done, rest);
      var nxt := next[node];
      if ref[node] == 0 {
        freed := [node] + freed;
      } else {
        ghost var was := next;
        next, head, p := Move(next, head, p, node, Alive(ref, done), end, rest[1..], [], SENTINEL, SENTINEL);
        end := next[node];
        UnchangedMore(next0, was, next, Alive(ref, done), chain);
      }
      node := nxt;
      done, rest := done + [rest[0]], rest[1..];
    }
    assert chain == done;
    AliveNoRepeat(ref, chain);
    AliveOrDead(ref, chain);
    next, head := Close(next, head, p, Alive(ref, chain), end);
  }

  // ----- Splitting a chain in two

  /** The nodes of a chain on one of the two sides, in order. */
  function Picked(chain: seq<Id>, odd: Id -> bool, which: bool): seq<Id>
  {
    if chain == [] then []
    else
      var front, last := Picked(chain[..|chain| - 1], odd, which), chain[|chain| - 1];
      if odd(last) == which then front + [last] else front
  }

  lemma {:induction false} PickedIff(chain: seq<Id>, odd: Id -> bool, which: bool)
    ensures forall id :: id in Picked(chain, odd, which) <==> id in chain && odd(id) == which
  {
    if chain != [] {
      var front, last := chain[..|chain| - 1], chain[|chain| - 1];
      PickedIff(front, odd, which);
      assert chain == front + [last];
    }
  }

  lemma {:induction false} PickedNoRepeat(chain: seq<Id>, odd: Id -> bool, which: bool)
    requires NoRepeat(chain)
    ensures NoRepeat(Picked(chain, odd, which))
  {
    if chain != [] {
      PickedNoRepeat(chain[..|chain| - 1], odd, which);
      PickedIff(chain[..|chain| - 1], odd, which);
    }
  }

  lemma {:induction false} PickedStep(odd: Id -> bool, which: bool, done: seq<Id>, rest: seq<Id>)
    requires NoRepeat(done + rest) && rest != []
    ensures done + rest == (done + [rest[0]]) + rest[1..] && rest == [rest[0]] + rest[1..]
    ensures NoRepeat(Picked(done, odd, which))
    ensures forall id :: id in Picked(done, odd, which) ==> odd(id) == which && id in done + rest && id != rest[0] && id !in rest[1..]
    ensures Picked(done + [rest[0]], odd, which) == if odd(rest[0]) == which then Picked(done, odd, which) + [rest[0]] else Picked(done, odd, which)
  {
    ChainStep(done, rest);
    PickedIff(done, odd, which);
    PickedNoRepeat(done, odd, which);
  }

  /** Deals the nodes of a chain out to two chains, keeping their order. */
  method SplitChain(next0: seq<Id>, head0: Id, odd: Id -> bool, ghost chain: seq<Id>) returns (next: seq<Id>, even_head: Id, odd_head: Id)
    requires Linked(next0, head0, chain) && NoRepeat(chain)
    ensures |next| == |next0|
    ensures Linked(next, even_head, Picked(chain, odd, false)) && Linked(next, odd_head, Picked(chain, odd, true))
    ensures Unchanged(next0, next, chain)
  {
    next, even_head, odd_head := next0, head0, head0;
    var p: Link, q: Link, node: Id := Head, Head, head0;
    ghost var done: seq<Id>, rest: seq<Id>, end_even: Id, end_odd: Id := [], chain, head0, head0;
    while node != SENTINEL
      invariant chain == done + rest && |next| == |next0| && Linked(next, node, rest)
      invariant LinkedTo(next, even_head, Picked(done, odd, false), end_even) && LeadsOut(Picked(done, odd, false), p)
      invariant LinkedTo(next, odd_head, Picked(done, odd, true), end_odd) && LeadsOut(Picked(done, odd, true), q)
      invariant Unchanged(next0, next, chain)
      decreases |rest|
    {
      PickedStep(odd, false, done, rest);
      PickedStep(odd, true, done, rest);
      ghost var evens, odds, was := Picked(done, odd, false), Picked(done, odd, true), next;
      if odd(node) {
        next, odd_head, q := Move(next, odd_head, q, node, odds, end_odd, rest[1..], evens, even_head, end_even);
        end_odd := next[node];
        UnchangedMore(next0, was, next, odds, chain);
      } else {
        next, even_head, p := Move(next, even_head, p, node, evens, end_even, rest[1..], odds, odd_head, end_odd);
        end_even := next[node];
        UnchangedMore(next0, was, next, evens, chain);
      }
      node := next[node];
      done, rest := done + [rest[0]], rest[1..];
    }
    assert chain == done;
    next, even_head, odd_head := CloseBoth(next, even_head, p, end_even, odd_head, q, end_odd, odd, chain);
  }

  method CloseBoth(next0: seq<Id>, even0: Id, p: Link, ghost end_even: Id, odd0: Id, q: Link, ghost end_odd: Id, ghost odd: Id -> bool, ghost chain: seq<Id>)
    returns (next: seq<Id>, even_head: Id, odd_head: Id)
    requires NoRepeat(chain)
    requires LinkedTo(next0, even0, Picked(chain, odd, false), end_even) && LeadsOut(Picked(chain, odd, false), p)
    requires LinkedTo(next0, odd0, Picked(chain, odd, true), end_odd) && LeadsOut(Picked(chain, odd, true), q)
    ensures |next| == |next0|
    ensures Linked(next, even_head, Picked(chain, odd, false)) && Linked(next, odd_head, Picked(chain, odd, true))
    ensures Unchanged(next0, next, chain)
  {
    ghost var evens, odds := Picked(chain, odd, false), Picked(chain, odd, true);
    PickedNoRepeat(chain, odd, false);
    PickedNoRepeat(chain, odd, true);
    PickedIff(chain, odd, false);
    PickedIff(chain, odd, true);
    next, even_head := Close(next0, even0, p, evens, end_even);
    LinkedToFrame(next0, next, odd0, odds, end_odd);
    ghost var was := next;
    next, odd_head := Close(next, odd0, q, odds, end_odd);
    LinkedFrame(was, next, even_head, evens);
  }

  // ----- Both keep the order

  lemma {:induction false} AliveDescending(body: seq<Body>, ref: seq<nat>, chain: seq<Id>)
    requires Descending(body, chain)
    ensures Descending(body, Alive(ref, chain))
  {
    if chain != [] {
      var front, last := chain[..|chain| - 1], chain[|chain| - 1];
      assert chain == front + [last];
      DescendingSplit(body, front, [last]);
      AliveDescending(body, ref, front);
      AliveOrDead(ref, front);
      DescendingSplit(body, Alive(ref, front), [last]);
    }
  }

  lemma {:induction false} PickedDescending(body: seq<Body>, chain: seq<Id>, odd: Id -> bool, which: bool)
    requires Descending(body, chain)
    ensures Descending(body, Picked(chain, odd, which))
  {
    if chain != [] {
      var front, last := chain[..|chain| - 1], chain[|chain| - 1];
      assert chain == front + [last];
      DescendingSplit(body, front, [last]);
      PickedDescending(body, front, odd, which);
      PickedIff(front, odd, which);
      DescendingSplit(body, Picked(front, odd, which), [last]);
    }
  }
}
