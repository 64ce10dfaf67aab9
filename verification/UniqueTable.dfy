/**
 * The unique tables: every node in the chain that its key selects, no key twice.
 */
module UniqueTable {
  import opened Nodes
  import opened Chains

  // ----- Buckets

  function Pow2(n: nat): (p: nat)
    ensures p > 0
  {
    if n == 0 then 1 else 2 * Pow2(n - 1)
  }

  /** The chain heads of one table, and by how many bits hash values are shifted to select one. */
  datatype Table = Table(shift: nat, hash: seq<Id>)

  /** Hash values have this many bits. */
  const BITS: nat := 32

  /** x shifted to the right. */
  function Shifted(x: nat, bits: nat): nat
  {
    if bits == 0 then x else Shifted(x, bits - 1) / 2
  }

  /** The top bits of the hash value of a key. */
  function BucketOf(hash: seq<int> -> nat, words: seq<int>, shift: nat): nat
  {
    Shifted(hash(words) % 0x1_0000_0000, shift)
  }

  lemma {:induction false} ShiftedBound(x: nat, n: nat, bits: nat)
    requires x < Pow2(n) && bits <= n
    ensures Shifted(x, bits) < Pow2(n - bits)
  {
    if bits > 0 { ShiftedBound(x, n, bits - 1); }
  }

  lemma {:induction false} Pow2Sum(a: nat, b: nat)
    ensures Pow2(a + b) == Pow2(a) * Pow2(b)
  {
    if a > 0 { Pow2Sum(a - 1, b); }
  }

  lemma {:induction false} BucketInRange(hash: seq<int> -> nat, words: seq<int>, shift: nat)
    requires shift <= BITS
    ensures BucketOf(hash, words, shift) < Pow2(BITS - shift)
  {
    assert Pow2(2) == 4;
    Pow2Sum(2, 2);
    Pow2Sum(4, 4);
    Pow2Sum(8, 8);
    Pow2Sum(16, 16);
    ShiftedBound(hash(words) % 0x1_0000_0000, BITS, shift);
  }

  /** With one bit less to shift, bucket i is dealt out to buckets 2i and 2i + 1. */
  lemma {:induction false} BucketSplits(hash: seq<int> -> nat, words: seq<int>, shift: nat)
    requires shift > 0
    ensures BucketOf(hash, words, shift - 1) == 2 * BucketOf(hash, words, shift) + BucketOf(hash, words, shift - 1) % 2
  {
  }

  // ----- Chains in their buckets

  ghost predicate Belongs(body: seq<Body>, hash: seq<int> -> nat, t: TableId, shift: nat, b: nat, id: Id)
  {
    && SENTINEL < id < |body| && !body[id].Nothing? && BodyOk(body[id])
    && TableOf(body[id]) == t && BucketOf(hash, Words(body[id]), shift) == b
  }

  ghost predicate BucketOk(next: seq<Id>, body: seq<Body>, hash: seq<int> -> nat, t: TableId, shift: nat, b: nat, head: Id, chain: seq<Id>)
  {
    && Linked(next, head, chain) && Descending(body, chain)
    && forall id :: id in chain ==> Belongs(body, hash, t, shift, b, id)
  }

  lemma {:induction false} BucketFrame(next: seq<Id>, next': seq<Id>, body: seq<Body>, body': seq<Body>, hash: seq<int> -> nat,
                                       t: TableId, shift: nat, b: nat, head: Id, chain: seq<Id>)
    requires BucketOk(next, body, hash, t, shift, b, head, chain)
    requires |next| <= |next'| && |body| <= |body'| && |next| == |body|
    requires forall id :: id in chain && id < |body| ==> next'[id] == next[id] && body'[id] == body[id]
    ensures BucketOk(next', body', hash, t, shift, b, head, chain)
  {
    LinkedFrame(next, next', head, chain);
  }

  ghost predicate TableOk(next: seq<Id>, body: seq<Body>, hash: seq<int> -> nat, t: TableId, table: Table, chains: seq<seq<Id>>)
  {
    && table.shift <= BITS && |table.hash| == |chains| == Pow2(BITS - table.shift)
    && forall b :: 0 <= b < |chains| ==> BucketOk(next, body, hash, t, table.shift, b, table.hash[b], chains[b])
  }

  ghost predicate InChain(body: seq<Body>, hash: seq<int> -> nat, table: Table, chains: seq<seq<Id>>, id: Id)
    requires id < |body|
  {
    var b := BucketOf(hash, Words(body[id]), table.shift);
    b < |chains| && id in chains[b]
  }

  /** A place for a key in a table, as found by walking the chain. */
  datatype Place = Place(bucket: nat, link: Link, before: seq<Id>, after: seq<Id>)

  ghost predicate PlaceOk(body: seq<Body>, hash: seq<int> -> nat, table: Table, chains: seq<seq<Id>>, words: seq<int>, at: Place)
  {
    && at.bucket == BucketOf(hash, words, table.shift) < |chains|
    && chains[at.bucket] == at.before + at.after
    && IsPlace(body, at.before, at.after, words) && LeadsOut(at.before, at.link)
  }

  // ----- All tables

  /** The nodes with all tables that lead to them; `chains` spells out the linked lists. */
  datatype Heap = Heap(next: seq<Id>, body: seq<Body>, tables: map<TableId, Table>, chains: map<TableId, seq<seq<Id>>>)

  ghost predicate Filed(h: Heap, hash: seq<int> -> nat, id: Id)
    requires id < |h.body| && h.tables.Keys == h.chains.Keys
  {
    && BodyOk(h.body[id])
    && (h.body[id].Nothing? ||
        var t := TableOf(h.body[id]);
        t in h.tables && InChain(h.body, hash, h.tables[t], h.chains[t], id))
  }

  /** Chains lie in the buckets of their keys, and every node is in its chain. */
  ghost predicate HeapOk(h: Heap, hash: seq<int> -> nat)
  {
    && |h.next| == |h.body| > SENTINEL && h.body[TERMINAL].Nothing? && h.body[SENTINEL].Nothing?
    && h.tables.Keys == h.chains.Keys
    && (forall t :: t in h.tables ==> TableOk(h.next, h.body, hash, t, h.tables[t], h.chains[t]))
    && (forall id :: 0 <= id < |h.body| ==> Filed(h, hash, id))
  }

  /** No two nodes have the same contents. */
  lemma {:induction false} NoDuplicates(h: Heap, hash: seq<int> -> nat, a: Id, b: Id)
    requires HeapOk(h, hash) && a < |h.body| && b < |h.body| && !h.body[a].Nothing? && h.body[a] == h.body[b]
    ensures a == b
  {
    assert Filed(h, hash, a) && Filed(h, hash, b);
    var t := TableOf(h.body[a]);
    var k := BucketOf(hash, Words(h.body[a]), h.tables[t].shift);
    assert BucketOk(h.next, h.body, hash, t, h.tables[t].shift, k, h.tables[t].hash[k], h.chains[t][k]);
    SameKeyInChain(h.body, h.chains[t][k], a, b);
  }

  lemma {:induction false} DistinctKeys(body: seq<Body>, chain: seq<Id>)
    requires Descending(body, chain)
    ensures forall i, j :: 0 <= i < j < |chain| ==> Words(body[chain[i]]) != Words(body[chain[j]])
  {
    forall i, j | 0 <= i < j < |chain| ensures Words(body[chain[i]]) != Words(body[chain[j]]) {
      LexAsymmetric(Words(body[chain[j]]), Words(body[chain[i]]));
    }
  }

  lemma {:induction false} SameKeyInChain(body: seq<Body>, chain: seq<Id>, a: Id, b: Id)
    requires Descending(body, chain) && a in chain && b in chain && Words(body[a]) == Words(body[b])
    ensures a == b
  {
    DistinctKeys(body, chain);
    var i :| 0 <= i < |chain| && chain[i] == a;
    var j :| 0 <= j < |chain| && chain[j] == b;
  }

  /** A key whose place in its chain is not taken by it is not in the table at all. */
  lemma {:induction false} FoundOrAbsent(h: Heap, hash: seq<int> -> nat, b: Body, at: Place, id: Id)
    requires HeapOk(h, hash) && !b.Nothing? && TableOf(b) in h.tables
    requires PlaceOk(h.body, hash, h.tables[TableOf(b)], h.chains[TableOf(b)], Words(b), at)
    requires id < |h.body| && h.body[id] == b
    ensures at.after != [] && at.after[0] == id
  {
    assert Filed(h, hash, id);
    var t := TableOf(b);
    assert BucketOk(h.next, h.body, hash, t, h.tables[t].shift, at.bucket, h.tables[t].hash[at.bucket], h.chains[t][at.bucket]);
    FoundAtPlace(h.body, at.before, at.after, Words(b), id);
  }

  function Relinked(h: Heap, t: TableId, b: nat, next: seq<Id>, body: seq<Body>, head: Id, chain: seq<Id>): Heap
    requires t in h.tables && t in h.chains && b < |h.tables[t].hash| == |h.chains[t]|
  {
    Heap(next, body, h.tables[t := h.tables[t].(hash := h.tables[t].hash[b := head])], h.chains[t := h.chains[t][b := chain]])
  }

  /** Work on one bucket leaves everything in order, if it stays with the nodes of the bucket and free nodes. */
  ghost predicate WorkedOn(h: Heap, t: TableId, b: nat, next: seq<Id>, body: seq<Body>, chain: seq<Id>, touched: seq<Id>)
    requires |h.next| == |h.body| && t in h.chains && b < |h.chains[t]|
  {
    && |next| == |body| == |h.body|
    && (forall id :: 0 <= id < |body| && id !in touched ==> next[id] == h.next[id] && body[id] == h.body[id])
    && (forall id :: id in touched ==> SENTINEL < id < |body| && (h.body[id].Nothing? || id in h.chains[t][b]))
    && (forall id :: id in touched ==> body[id].Nothing? || id in chain)
    && (forall id :: id in h.chains[t][b] ==> id in touched)
  }

  lemma {:induction false} OtherBucketStays(h: Heap, hash: seq<int> -> nat, t: TableId, b: nat, next: seq<Id>, body: seq<Body>, chain: seq<Id>,
                                            touched: seq<Id>, u: TableId, c: nat)
    requires HeapOk(h, hash) && t in h.tables && b < |h.chains[t]| && WorkedOn(h, t, b, next, body, chain, touched)
    requires u in h.tables && c < |h.chains[u]| && (u != t || c != b)
    ensures BucketOk(next, body, hash, u, h.tables[u].shift, c, h.tables[u].hash[c], h.chains[u][c])
  {
    assert BucketOk(h.next, h.body, hash, t, h.tables[t].shift, b, h.tables[t].hash[b], h.chains[t][b]);
    assert BucketOk(h.next, h.body, hash, u, h.tables[u].shift, c, h.tables[u].hash[c], h.chains[u][c]);
    forall id | id in h.chains[u][c] ensures id !in touched {
      assert Belongs(h.body, hash, u, h.tables[u].shift, c, id);
      assert id in h.chains[t][b] ==> Belongs(h.body, hash, t, h.tables[t].shift, b, id);
    }
    BucketFrame(h.next, next, h.body, body, hash, u, h.tables[u].shift, c, h.tables[u].hash[c], h.chains[u][c]);
  }

  lemma {:induction false} RelinkedOk(h: Heap, hash: seq<int> -> nat, t: TableId, b: nat, next: seq<Id>, body: seq<Body>, head: Id, chain: seq<Id>,
                                      touched: seq<Id>)
    requires HeapOk(h, hash) && t in h.tables && b < |h.chains[t]| && WorkedOn(h, t, b, next, body, chain, touched)
    requires BucketOk(next, body, hash, t, h.tables[t].shift, b, head, chain)
    ensures HeapOk(Relinked(h, t, b, next, body, head, chain), hash)
  {
    var h' := Relinked(h, t, b, next, body, head, chain);
    forall u | u in h'.tables ensures TableOk(next, body, hash, u, h'.tables[u], h'.chains[u]) {
      assert TableOk(h.next, h.body, hash, u, h.tables[u], h.chains[u]);
      forall c | 0 <= c < |h'.chains[u]|
        ensures BucketOk(next, body, hash, u, h'.tables[u].shift, c, h'.tables[u].hash[c], h'.chains[u][c])
      {
        if u != t || c != b { OtherBucketStays(h, hash, t, b, next, body, chain, touched, u, c); }
      }
    }
    forall id | 0 <= id < |body| ensures Filed(h', hash, id) {
      assert Filed(h, hash, id);
      if id in touched && !body[id].Nothing? { assert Belongs(body, hash, t, h.tables[t].shift, b, id); }
    }
    assert TERMINAL !in touched && SENTINEL !in touched;
  }

  // ----- The three kinds of work on a bucket

  /** The contents after some nodes have been given back. */
  function Cleared(body: seq<Body>, dead: seq<Id>): (r: seq<Body>)
    ensures |r| == |body|
    ensures forall id :: 0 <= id < |body| ==> r[id] == if id in dead then Nothing else body[id]
  {
    seq(|body|, id requires 0 <= id < |body| => if id in dead then Nothing else body[id])
  }

  lemma {:induction false} SweptOk(h: Heap, hash: seq<int> -> nat, t: TableId, b: nat, ref: seq<nat>, next: seq<Id>, head: Id)
    requires HeapOk(h, hash) && t in h.tables && b < |h.chains[t]|
    requires Unchanged(h.next, next, h.chains[t][b]) && Linked(next, head, Alive(ref, h.chains[t][b]))
    ensures var chain := h.chains[t][b];
            HeapOk(Relinked(h, t, b, next, Cleared(h.body, Dead(ref, chain)), head, Alive(ref, chain)), hash)
  {
    var chain := h.chains[t][b];
    var body := Cleared(h.body, Dead(ref, chain));
    assert BucketOk(h.next, h.body, hash, t, h.tables[t].shift, b, h.tables[t].hash[b], chain);
    AliveOrDead(ref, chain);
    AliveDescending(h.body, ref, chain);
    forall id | id in Alive(ref, chain) ensures Belongs(body, hash, t, h.tables[t].shift, b, id) {
      assert Belongs(h.body, hash, t, h.tables[t].shift, b, id);
    }
    SameOrder(h.body, body, Alive(ref, chain));
    forall id | id in chain ensures SENTINEL < id < |body| {
      assert Belongs(h.body, hash, t, h.tables[t].shift, b, id);
    }
    RelinkedOk(h, hash, t, b, next, body, head, Alive(ref, chain), chain);
  }

  lemma {:induction false} SameOrder(body: seq<Body>, body': seq<Body>, chain: seq<Id>)
    requires Descending(body, chain) && |body| <= |body'|
    requires forall id :: id in chain && id < |body| ==> body'[id] == body[id]
    ensures Descending(body', chain)
  {
  }

  lemma {:induction false} InsertedOk(h: Heap, hash: seq<int> -> nat, b: Body, at: Place, node: Id, next: seq<Id>, head: Id)
    requires HeapOk(h, hash) && !b.Nothing? && BodyOk(b) && TableOf(b) in h.tables
    requires PlaceOk(h.body, hash, h.tables[TableOf(b)], h.chains[TableOf(b)], Words(b), at)
    requires forall id :: 0 <= id < |h.body| ==> h.body[id] != b
    requires SENTINEL < node < |h.body| && h.body[node].Nothing?
    requires Unchanged(h.next, next, at.before + [node]) && Linked(next, head, at.before + [node] + at.after)
    ensures HeapOk(Relinked(h, TableOf(b), at.bucket, next, h.body[node := b], head, at.before + [node] + at.after), hash)
  {
    var t, chain, chain' := TableOf(b), at.before + at.after, at.before + [node] + at.after;
    var shift, body := h.tables[t].shift, h.body[node := b];
    assert BucketOk(h.next, h.body, hash, t, shift, at.bucket, h.tables[t].hash[at.bucket], chain);
    InsertedInOrder(h.body, hash, shift, b, at, node);
    forall id | id in chain ensures SENTINEL < id < |body| {
      assert Belongs(h.body, hash, t, shift, at.bucket, id);
    }
    InsertedWork(h, t, at.bucket, next, b, at.before, at.after, node);
    RelinkedOk(h, hash, t, at.bucket, next, body, head, chain', chain');
  }

  /** Only the new node and the end of the part before it have changed. */
  lemma {:induction false} InsertedWork(h: Heap, t: TableId, k: nat, next: seq<Id>, b: Body, before: seq<Id>, after: seq<Id>, node: Id)
    requires |h.next| == |h.body| && t in h.chains && k < |h.chains[t]| && h.chains[t][k] == before + after
    requires SENTINEL < node < |h.body| && h.body[node].Nothing? && Unchanged(h.next, next, before + [node])
    requires forall id :: id in before + after ==> SENTINEL < id < |h.body|
    ensures var chain := before + [node] + after;
            WorkedOn(h, t, k, next, h.body[node := b], chain, chain)
  {
    var chain := before + [node] + after;
    forall id ensures id in chain <==> id == node || id in before + after {
      assert id in chain <==> id in before || id in [node] || id in after;
    }
    forall id | id in before + [node] ensures id in chain { }
  }

  lemma {:induction false} InsertedInOrder(body: seq<Body>, hash: seq<int> -> nat, shift: nat, b: Body, at: Place, node: Id)
    requires !b.Nothing? && BodyOk(b) && SENTINEL < node < |body| && body[node].Nothing?
    requires forall id :: id in at.before + at.after ==> Belongs(body, hash, TableOf(b), shift, at.bucket, id)
    requires Descending(body, at.before + at.after) && IsPlace(body, at.before, at.after, Words(b))
    requires at.bucket == BucketOf(hash, Words(b), shift) && forall id :: 0 <= id < |body| ==> body[id] != b
    ensures var chain' := at.before + [node] + at.after;
            && Descending(body[node := b], chain')
            && (forall id :: id in chain' ==> Belongs(body[node := b], hash, TableOf(b), shift, at.bucket, id))
            && (forall id :: id in chain' <==> id == node || id in at.before + at.after)
  {
    var chain, body' := at.before + at.after, body[node := b];
    forall id | id in chain ensures id != node && body'[id] == body[id] && Words(body[id]) != Words(b) {
      assert Belongs(body, hash, TableOf(b), shift, at.bucket, id);
      if Words(body[id]) == Words(b) { KeyDetermines(body[id], b); }
    }
    SameOrder(body, body', chain);
    assert forall id :: id in at.before ==> id in chain;
    assert forall id :: id in at.after ==> id in chain;
    InsertDescending(body', at.before, at.after, node);
  }

  // ----- New tables, new memory

  function EmptyTable(): (t: Table)
    ensures t.shift == 24 && |t.hash| == 256
  {
    Table(24, seq(256, _ => SENTINEL))
  }

  lemma {:induction false} NewTableOk(h: Heap, hash: seq<int> -> nat, t: TableId)
    requires HeapOk(h, hash) && t !in h.tables
    ensures HeapOk(Heap(h.next, h.body, h.tables[t := EmptyTable()], h.chains[t := seq(256, _ => [])]), hash)
  {
    var h' := Heap(h.next, h.body, h.tables[t := EmptyTable()], h.chains[t := seq(256, _ => [])]);
    Pow2Sum(4, 4);
    assert Pow2(4) == 16;
    forall id | 0 <= id < |h.body| ensures Filed(h', hash, id) {
      assert Filed(h, hash, id);
    }
    forall u | u in h'.tables ensures TableOk(h'.next, h'.body, hash, u, h'.tables[u], h'.chains[u]) {
      if u != t { assert TableOk(h.next, h.body, hash, u, h.tables[u], h.chains[u]); }
    }
  }

  lemma {:induction false} GrownOk(h: Heap, hash: seq<int> -> nat, n: nat)
    requires HeapOk(h, hash)
    ensures HeapOk(Heap(h.next + seq(n, _ => SENTINEL), h.body + seq(n, _ => Nothing), h.tables, h.chains), hash)
  {
    var h' := Heap(h.next + seq(n, _ => SENTINEL), h.body + seq(n, _ => Nothing), h.tables, h.chains);
    forall u | u in h.tables ensures TableOk(h'.next, h'.body, hash, u, h.tables[u], h.chains[u]) {
      assert TableOk(h.next, h.body, hash, u, h.tables[u], h.chains[u]);
      forall c | 0 <= c < |h.chains[u]|
        ensures BucketOk(h'.next, h'.body, hash, u, h.tables[u].shift, c, h.tables[u].hash[c], h.chains[u][c])
      {
        BucketFrame(h.next, h'.next, h.body, h'.body, hash, u, h.tables[u].shift, c, h.tables[u].hash[c], h.chains[u][c]);
      }
    }
    forall id | 0 <= id < |h'.body| ensures Filed(h', hash, id) {
      if id < |h.body| { assert Filed(h, hash, id); }
    }
  }

  // ----- Rehashing

  /** The bit by which the nodes of a bucket are dealt out. */
  function LastBit(body: seq<Body>, hash: seq<int> -> nat, shift: nat): Id -> bool
  {
    (id: Id) => id < |body| && BucketOf(hash, Words(body[id]), shift) % 2 == 1
  }

  /** Chain b has been dealt out to chains 2b and 2b + 1. */
  ghost predicate DealtOut(chains: seq<seq<Id>>, odd: Id -> bool, dealt: seq<seq<Id>>, b: nat)
  {
    && b < |chains| && 2 * b + 1 < |dealt|
    && dealt[2 * b] == Picked(chains[b], odd, false) && dealt[2 * b + 1] == Picked(chains[b], odd, true)
  }

  /** The first i chains have been dealt out. */
  ghost predicate DealtUpTo(chains: seq<seq<Id>>, odd: Id -> bool, dealt: seq<seq<Id>>, i: nat)
  {
    |dealt| == 2 * i && forall b :: 0 <= b < i ==> DealtOut(chains, odd, dealt, b)
  }

  lemma {:induction false} DealtBucketOk(next0: seq<Id>, body: seq<Body>, hash: seq<int> -> nat, t: TableId, shift: nat, b: nat, head0: Id,
                                         chain: seq<Id>, next: seq<Id>, head: Id, which: bool)
    requires shift > 0 && BucketOk(next0, body, hash, t, shift, b, head0, chain)
    requires Linked(next, head, Picked(chain, LastBit(body, hash, shift - 1), which))
    ensures BucketOk(next, body, hash, t, shift - 1, 2 * b + (if which then 1 else 0), head, Picked(chain, LastBit(body, hash, shift - 1), which))
  {
    var odd := LastBit(body, hash, shift - 1);
    PickedIff(chain, odd, which);
    PickedDescending(body, chain, odd, which);
    forall id | id in Picked(chain, odd, which)
      ensures Belongs(body, hash, t, shift - 1, 2 * b + (if which then 1 else 0), id)
    {
      assert Belongs(body, hash, t, shift, b, id);
      BucketSplits(hash, Words(body[id]), shift);
    }
  }

  /** Buckets from i on are as before. */
  ghost predicate StillOld(next: seq<Id>, body: seq<Body>, hash: seq<int> -> nat, t: TableId, table: Table, chains: seq<seq<Id>>, i: nat)
    requires |table.hash| == |chains|
  {
    forall b :: i <= b < |chains| ==> BucketOk(next, body, hash, t, table.shift, b, table.hash[b], chains[b])
  }

  /** The new buckets filled so far. */
  ghost predicate NowDealt(next: seq<Id>, body: seq<Body>, hash: seq<int> -> nat, t: TableId, shift: nat, dealt: seq<seq<Id>>, heads: seq<Id>)
  {
    |heads| == |dealt| && forall c :: 0 <= c < |heads| ==> BucketOk(next, body, hash, t, shift, c, heads[c], dealt[c])
  }

  lemma {:induction false} OldStep(next: seq<Id>, next': seq<Id>, body: seq<Body>, hash: seq<int> -> nat, t: TableId, table: Table,
                                   chains: seq<seq<Id>>, i: nat)
    requires |table.hash| == |chains| && |next| == |body| && i < |chains|
    requires StillOld(next, body, hash, t, table, chains, i) && Unchanged(next, next', chains[i])
    ensures StillOld(next', body, hash, t, table, chains, i + 1)
  {
    forall b | i + 1 <= b < |chains| ensures BucketOk(next', body, hash, t, table.shift, b, table.hash[b], chains[b]) {
      OtherOldBucket(next, next', body, hash, t, table, chains, i, b);
    }
  }

  /** Work on one old bucket leaves the new ones below it alone. */
  lemma {:induction false} NewStep(next: seq<Id>, next': seq<Id>, body: seq<Body>, hash: seq<int> -> nat, t: TableId, shift: nat,
                                   chain: seq<Id>, dealt: seq<seq<Id>>, heads: seq<Id>, i: nat)
    requires shift > 0 && |next| == |body| && |heads| == 2 * i
    requires NowDealt(next, body, hash, t, shift - 1, dealt, heads) && Unchanged(next, next', chain)
    requires forall id :: id in chain ==> Belongs(body, hash, t, shift, i, id)
    ensures NowDealt(next', body, hash, t, shift - 1, dealt, heads)
  {
    forall c | 0 <= c < |heads| ensures BucketOk(next', body, hash, t, shift - 1, c, heads[c], dealt[c]) {
      OtherNewBucket(next, next', body, hash, t, shift, chain, i, heads[c], c, dealt[c]);
    }
  }

  /** One more new bucket. */
  lemma {:induction false} DealtMore(next0: seq<Id>, next: seq<Id>, body: seq<Body>, hash: seq<int> -> nat, t: TableId, shift: nat, b: nat, head0: Id,
                                     chain: seq<Id>, dealt: seq<seq<Id>>, heads: seq<Id>, head: Id, which: bool)
    requires shift > 0 && BucketOk(next0, body, hash, t, shift, b, head0, chain)
    requires NowDealt(next, body, hash, t, shift - 1, dealt, heads) && |heads| == 2 * b + (if which then 1 else 0)
    requires Linked(next, head, Picked(chain, LastBit(body, hash, shift - 1), which))
    ensures NowDealt(next, body, hash, t, shift - 1, dealt + [Picked(chain, LastBit(body, hash, shift - 1), which)], heads + [head])
  {
    var piece := Picked(chain, LastBit(body, hash, shift - 1), which);
    DealtBucketOk(next0, body, hash, t, shift, b, head0, chain, next, head, which);
    forall c | 0 <= c < |heads| + 1 ensures BucketOk(next, body, hash, t, shift - 1, c, (heads + [head])[c], (dealt + [piece])[c]) {
      if c < |heads| { assert BucketOk(next, body, hash, t, shift - 1, c, heads[c], dealt[c]); }
    }
  }

  lemma {:induction false} DealtOutMore(chains: seq<seq<Id>>, odd: Id -> bool, dealt: seq<seq<Id>>, i: nat)
    requires i < |chains| && DealtUpTo(chains, odd, dealt, i)
    ensures var dealt' := dealt + [Picked(chains[i], odd, false)] + [Picked(chains[i], odd, true)];
            DealtUpTo(chains, odd, dealt', i + 1)
  {
    var dealt' := dealt + [Picked(chains[i], odd, false)] + [Picked(chains[i], odd, true)];
    forall b | 0 <= b < i + 1 ensures DealtOut(chains, odd, dealt', b) {
      if b < i { assert DealtOut(chains, odd, dealt, b); }
    }
  }

  lemma {:induction false} OtherOldBucket(next: seq<Id>, next': seq<Id>, body: seq<Body>, hash: seq<int> -> nat, t: TableId, table: Table,
                                          chains: seq<seq<Id>>, i: nat, b: nat)
    requires |next| == |body| && |table.hash| == |chains| && i < b < |chains| && Unchanged(next, next', chains[i])
    requires BucketOk(next, body, hash, t, table.shift, i, table.hash[i], chains[i])
    requires BucketOk(next, body, hash, t, table.shift, b, table.hash[b], chains[b])
    ensures BucketOk(next', body, hash, t, table.shift, b, table.hash[b], chains[b])
  {
    forall id | id in chains[b] ensures id !in chains[i] {
      assert Belongs(body, hash, t, table.shift, b, id);
      assert id in chains[i] ==> Belongs(body, hash, t, table.shift, i, id);
    }
    BucketFrame(next, next', body, body, hash, t, table.shift, b, table.hash[b], chains[b]);
  }

  lemma {:induction false} OtherNewBucket(next: seq<Id>, next': seq<Id>, body: seq<Body>, hash: seq<int> -> nat, t: TableId, shift: nat,
                                          old_chain: seq<Id>, i: nat, head: Id, c: nat, new_chain: seq<Id>)
    requires |next| == |body| && shift > 0 && c < 2 * i && Unchanged(next, next', old_chain)
    requires forall id :: id in old_chain ==> Belongs(body, hash, t, shift, i, id)
    requires BucketOk(next, body, hash, t, shift - 1, c, head, new_chain)
    ensures BucketOk(next', body, hash, t, shift - 1, c, head, new_chain)
  {
    forall id | id in new_chain ensures id !in old_chain {
      assert Belongs(body, hash, t, shift - 1, c, id);
      BucketSplits(hash, Words(body[id]), shift);
    }
    BucketFrame(next, next', body, body, hash, t, shift - 1, c, head, new_chain);
  }

  /** Only nodes of the table have been linked anew. */
  ghost predicate OnlyTable(next0: seq<Id>, next: seq<Id>, body: seq<Body>, t: TableId)
    requires |next0| == |body|
  {
    |next| == |next0| && forall id :: 0 <= id < |next| && next[id] != next0[id] ==> !body[id].Nothing? && TableOf(body[id]) == t
  }

  lemma {:induction false} OnlyTableMore(next0: seq<Id>, was: seq<Id>, next: seq<Id>, body: seq<Body>, hash: seq<int> -> nat, t: TableId, shift: nat,
                                         b: nat, chain: seq<Id>)
    requires |next0| == |body| && OnlyTable(next0, was, body, t) && Unchanged(was, next, chain)
    requires forall id :: id in chain ==> Belongs(body, hash, t, shift, b, id)
    ensures OnlyTable(next0, next, body, t)
  {
  }

  /** The first i buckets have been dealt out. */
  ghost predicate Dealing(next0: seq<Id>, next: seq<Id>, body: seq<Body>, hash: seq<int> -> nat, t: TableId, table: Table, chains: seq<seq<Id>>,
                          heads: seq<Id>, dealt: seq<seq<Id>>, i: nat)
  {
    && |next0| == |next| == |body| && |table.hash| == |chains| && i <= |chains| && table.shift > 0 && |heads| == |dealt| == 2 * i
    && StillOld(next, body, hash, t, table, chains, i)
    && NowDealt(next, body, hash, t, table.shift - 1, dealt, heads)
    && DealtUpTo(chains, LastBit(body, hash, table.shift - 1), dealt, i)
    && OnlyTable(next0, next, body, t)
  }

  lemma {:induction false} DealingStep(next0: seq<Id>, was: seq<Id>, next: seq<Id>, body: seq<Body>, hash: seq<int> -> nat, t: TableId, table: Table,
                                       chains: seq<seq<Id>>, heads: seq<Id>, dealt: seq<seq<Id>>, i: nat, even_head: Id, odd_head: Id)
    requires Dealing(next0, was, body, hash, t, table, chains, heads, dealt, i) && i < |chains| && Unchanged(was, next, chains[i])
    requires Linked(next, even_head, Picked(chains[i], LastBit(body, hash, table.shift - 1), false))
    requires Linked(next, odd_head, Picked(chains[i], LastBit(body, hash, table.shift - 1), true))
    ensures var odd := LastBit(body, hash, table.shift - 1);
            Dealing(next0, next, body, hash, t, table, chains, heads + [even_head] + [odd_head],
                    dealt + [Picked(chains[i], odd, false)] + [Picked(chains[i], odd, true)], i + 1)
  {
    var odd, chain, shift := LastBit(body, hash, table.shift - 1), chains[i], table.shift;
    assert BucketOk(was, body, hash, t, shift, i, table.hash[i], chain);
    OldStep(was, next, body, hash, t, table, chains, i);
    NewStep(was, next, body, hash, t, shift, chain, dealt, heads, i);
    DealtMore(was, next, body, hash, t, shift, i, table.hash[i], chain, dealt, heads, even_head, false);
    DealtMore(was, next, body, hash, t, shift, i, table.hash[i], chain, dealt + [Picked(chain, odd, false)], heads + [even_head], odd_head, true);
    OnlyTableMore(next0, was, next, body, hash, t, shift, i, chain);
    DealtOutMore(chains, odd, dealt, i);
  }

  /** Deals every bucket out to two; nodes of other tables are not touched. */
  method RehashTable(next0: seq<Id>, body: seq<Body>, hash: seq<int> -> nat, ghost t: TableId, table: Table, ghost chains: seq<seq<Id>>)
    returns (next: seq<Id>, table': Table, ghost dealt: seq<seq<Id>>)
    requires TableOk(next0, body, hash, t, table, chains) && table.shift > 0 && |next0| == |body|
    ensures table'.shift == table.shift - 1 && TableOk(next, body, hash, t, table', dealt)
    ensures DealtUpTo(chains, LastBit(body, hash, table'.shift), dealt, |chains|)
    ensures OnlyTable(next0, next, body, t)
  {
    next := next0;
    var heads: seq<Id> := [];
    dealt := [];
    ghost var odd := LastBit(body, hash, table.shift - 1);
    var i: nat := 0;
    while i < |table.hash|
      invariant Dealing(next0, next, body, hash, t, table, chains, heads, dealt, i)
    {
      ghost var was := next;
      assert BucketOk(next, body, hash, t, table.shift, i, table.hash[i], chains[i]);
      DescendingNoRepeat(body, chains[i]);
      var even_head, odd_head;
      next, even_head, odd_head := SplitChain(next, table.hash[i], LastBit(body, hash, table.shift - 1), chains[i]);
      DealingStep(next0, was, next, body, hash, t, table, chains, heads, dealt, i, even_head, odd_head);
      heads := heads + [even_head] + [odd_head];
      dealt := dealt + [Picked(chains[i], odd, false)] + [Picked(chains[i], odd, true)];
      i := i + 1;
    }
    table' := Table(table.shift - 1, heads);
  }

  lemma {:induction false} RehashedOk(h: Heap, hash: seq<int> -> nat, t: TableId, next: seq<Id>, table: Table, dealt: seq<seq<Id>>)
    requires HeapOk(h, hash) && t in h.tables && h.tables[t].shift > 0 && table.shift == h.tables[t].shift - 1
    requires TableOk(next, h.body, hash, t, table, dealt) && DealtUpTo(h.chains[t], LastBit(h.body, hash, table.shift), dealt, |h.chains[t]|)
    requires OnlyTable(h.next, next, h.body, t)
    ensures HeapOk(Heap(next, h.body, h.tables[t := table], h.chains[t := dealt]), hash)
  {
    var h' := Heap(next, h.body, h.tables[t := table], h.chains[t := dealt]);
    forall u | u in h'.tables ensures TableOk(next, h.body, hash, u, h'.tables[u], h'.chains[u]) {
      if u != t {
        assert TableOk(h.next, h.body, hash, u, h.tables[u], h.chains[u]);
        forall c | 0 <= c < |h.chains[u]|
          ensures BucketOk(next, h.body, hash, u, h.tables[u].shift, c, h.tables[u].hash[c], h.chains[u][c])
        {
          assert BucketOk(h.next, h.body, hash, u, h.tables[u].shift, c, h.tables[u].hash[c], h.chains[u][c]);
          assert forall id :: id in h.chains[u][c] ==> Belongs(h.body, hash, u, h.tables[u].shift, c, id);
          BucketFrame(h.next, next, h.body, h.body, hash, u, h.tables[u].shift, c, h.tables[u].hash[c], h.chains[u][c]);
        }
      }
    }
    forall id | 0 <= id < |h.body| ensures Filed(h', hash, id) {
      assert Filed(h, hash, id);
      if !h.body[id].Nothing? && TableOf(h.body[id]) == t { DealtHolds(h, hash, t, table.shift, dealt, id); }
    }
  }

  /** A node of the table is in the new chain that its key selects. */
  lemma {:induction false} DealtHolds(h: Heap, hash: seq<int> -> nat, t: TableId, shift: nat, dealt: seq<seq<Id>>, id: Id)
    requires HeapOk(h, hash) && t in h.tables && h.tables[t].shift == shift + 1
    requires DealtUpTo(h.chains[t], LastBit(h.body, hash, shift), dealt, |h.chains[t]|)
    requires id < |h.body| && !h.body[id].Nothing? && TableOf(h.body[id]) == t
    ensures var c := BucketOf(hash, Words(h.body[id]), shift);
            c < |dealt| && id in dealt[c]
  {
    assert Filed(h, hash, id);
    var words := Words(h.body[id]);
    BucketSplits(hash, words, shift + 1);
    var b, c := BucketOf(hash, words, shift + 1), BucketOf(hash, words, shift);
    assert DealtOut(h.chains[t], LastBit(h.body, hash, shift), dealt, b);
    PickedIff(h.chains[t][b], LastBit(h.body, hash, shift), c % 2 == 1);
  }
}
