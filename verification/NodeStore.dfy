/**
 * The memory of the nodes: allocation, lookup, sweeping and rehashing.
 */
module NodeStores {
  import opened Nodes
  import opened Chains
  import opened Sequences
  import opened UniqueTable

  /** A free list holds unused nodes of its manager, each of them once. */
  ghost predicate FreeListOk(body: seq<Body>, owner: seq<nat>, m: nat, list: seq<Id>)
    requires |owner| == |body|
  {
    NoRepeat(list) && forall id :: id in list ==> SENTINEL < id < |body| && body[id].Nothing? && owner[id] == m
  }

  ghost predicate FreeOk(body: seq<Body>, owner: seq<nat>, free: map<nat, seq<Id>>)
    requires |owner| == |body|
  {
    forall m :: m in free ==> FreeListOk(body, owner, m, free[m])
  }

  ghost predicate Owned(body: seq<Body>, owner: seq<nat>)
    requires |owner| == |body|
  {
    forall id :: 0 <= id < |body| && !body[id].Nothing? ==> owner[id] == ManagerOf(body[id])
  }

  function FreeList(free: map<nat, seq<Id>>, m: nat): seq<Id>
  {
    if m in free then free[m] else []
  }

  /** The addresses of n nodes from `first` on. */
  function Upwards(first: Id, n: nat): (ids: seq<Id>)
    ensures |ids| == n && forall k :: 0 <= k < n ==> ids[k] == first + k
  {
    seq(n, k requires k >= 0 => first + k)
  }

  lemma {:induction false} FreeGrown(body: seq<Body>, owner: seq<nat>, free: map<nat, seq<Id>>, m: nat, n: nat)
    requires |owner| == |body| > SENTINEL && FreeOk(body, owner, free)
    ensures var ids := Upwards(|body|, n);
            FreeOk(body + seq(n, _ => Nothing), owner + seq(n, _ => m), free[m := ids + FreeList(free, m)])
  {
    var ids := Upwards(|body|, n);
    var body', owner', list := body + seq(n, _ => Nothing), owner + seq(n, _ => m), FreeList(free, m);
    assert FreeListOk(body, owner, m, list);
    forall i, j | 0 <= i < j < |ids + list| ensures (ids + list)[i] != (ids + list)[j] {
      if j >= n {
        assert (ids + list)[j] in list;
        if i >= n { assert list[i - n] != list[j - n]; }
      }
    }
    forall id | id in ids + list ensures SENTINEL < id < |body'| && body'[id].Nothing? && owner'[id] == m {
      if id in ids {
        var k :| 0 <= k < n && ids[k] == id;
      }
    }
    assert FreeListOk(body', owner', m, ids + list);
    forall k | k in free && k != m ensures FreeListOk(body', owner', k, free[k]) {
      assert FreeListOk(body, owner, k, free[k]);
    }
  }

  lemma {:induction false} FreeTaken(body: seq<Body>, owner: seq<nat>, free: map<nat, seq<Id>>, m: nat)
    requires |owner| == |body| && FreeOk(body, owner, free) && FreeList(free, m) != []
    ensures var id, free' := free[m][0], free[m := free[m][1..]];
            && FreeOk(body, owner, free')
            && SENTINEL < id < |body| && body[id].Nothing? && owner[id] == m
            && forall k :: k in free' ==> id !in free'[k]
  {
    var id, rest := free[m][0], free[m][1..];
    var free' := free[m := rest];
    assert FreeListOk(body, owner, m, free[m]) && id in free[m];
    assert forall i :: 0 <= i < |rest| ==> rest[i] == free[m][i + 1];
    assert id !in rest && FreeListOk(body, owner, m, rest);
    forall k | k in free' ensures id !in free'[k] && FreeListOk(body, owner, k, free'[k]) {
      if k != m { assert FreeListOk(body, owner, k, free[k]); }
    }
  }

  /** Free lists only care that their nodes stay unused. */
  lemma {:induction false} FreeAfter(body: seq<Body>, body': seq<Body>, owner: seq<nat>, free: map<nat, seq<Id>>)
    requires |owner| == |body| == |body'| && FreeOk(body, owner, free)
    requires forall k, id :: k in free && id in free[k] && id < |body| ==> body'[id].Nothing?
    ensures FreeOk(body', owner, free)
  {
    forall k | k in free ensures FreeListOk(body', owner, k, free[k]) {
      assert FreeListOk(body, owner, k, free[k]);
    }
  }

  /** Nodes that have just been given back join the free list. */
  lemma {:induction false} FreeReturned(body: seq<Body>, owner: seq<nat>, free: map<nat, seq<Id>>, m: nat, freed: seq<Id>)
    requires |owner| == |body| && FreeOk(body, owner, free) && NoRepeat(freed)
    requires forall id :: id in freed ==> SENTINEL < id < |body| && !body[id].Nothing? && owner[id] == m
    ensures FreeOk(Cleared(body, freed), owner, free[m := freed + FreeList(free, m)])
  {
    var body', list := Cleared(body, freed), FreeList(free, m);
    assert FreeListOk(body, owner, m, list);
    forall i, j | 0 <= i < j < |freed + list| ensures (freed + list)[i] != (freed + list)[j] {
      if i < |freed| <= j {
        assert (freed + list)[i] in freed && (freed + list)[j] in list;
      } else if |freed| <= i {
        assert list[i - |freed|] != list[j - |freed|];
      }
    }
    assert FreeListOk(body', owner, m, freed + list);
    forall k | k in free && k != m ensures FreeListOk(body', owner, k, free[k]) {
      assert FreeListOk(body, owner, k, free[k]);
    }
  }

  /** Sweeping has only given back nodes of the manager without references. */
  ghost predicate OnlyDead(body0: seq<Body>, body: seq<Body>, ref: seq<nat>, m: nat)
  {
    && |body| == |body0|
    && forall id :: 0 <= id < |body| && body[id] != body0[id] ==>
         body[id].Nothing? && !HasRefs(ref, id) && !body0[id].Nothing? && ManagerOf(body0[id]) == m
  }

  /** The nodes given back are on the free list of the manager, with those that were on it before; other free lists stay. */
  ghost predicate Returned(body0: seq<Body>, free0: map<nat, seq<Id>>, body: seq<Body>, free: map<nat, seq<Id>>, m: nat)
  {
    && |body| == |body0|
    && (forall k :: k != m ==> FreeList(free, k) == FreeList(free0, k))
    && forall id: Id :: id in FreeList(free, m) <==> id in FreeList(free0, m) || (id < |body| && body[id] != body0[id])
  }

  lemma {:induction false} ReturnedMore(body0: seq<Body>, free0: map<nat, seq<Id>>, was: seq<Body>, free1: map<nat, seq<Id>>,
                                        body: seq<Body>, free: map<nat, seq<Id>>, ref: seq<nat>, m: nat)
    requires Returned(body0, free0, was, free1, m) && Returned(was, free1, body, free, m)
    requires OnlyDead(body0, was, ref, m) && OnlyDead(was, body, ref, m)
    ensures Returned(body0, free0, body, free, m) && OnlyDead(body0, body, ref, m)
  {
  }

  /** Every node that is not in use is on the free list of its manager. */
  ghost predicate NoLeak(body: seq<Body>, owner: seq<nat>, free: map<nat, seq<Id>>)
    requires |owner| == |body|
  {
    forall id :: SENTINEL < id < |body| && body[id].Nothing? ==> id in FreeList(free, owner[id])
  }

  /** Sweeping leaks no memory. */
  lemma {:induction false} SweepLeaksNothing(body0: seq<Body>, free0: map<nat, seq<Id>>, body: seq<Body>, free: map<nat, seq<Id>>,
                                             owner: seq<nat>, ref: seq<nat>, m: nat)
    requires |owner| == |body0| && Owned(body0, owner) && NoLeak(body0, owner, free0)
    requires OnlyDead(body0, body, ref, m) && Returned(body0, free0, body, free, m)
    ensures NoLeak(body, owner, free)
  {
    forall id | SENTINEL < id < |body| && body[id].Nothing? ensures id in FreeList(free, owner[id]) {
      if body[id] == body0[id] { assert id in FreeList(free0, owner[id]); }
    }
  }

  lemma {:induction false} ReturnedNow(body: seq<Body>, free: map<nat, seq<Id>>, m: nat, freed: seq<Id>)
    requires forall id :: id in freed ==> id < |body| && !body[id].Nothing?
    ensures Returned(body, free, Cleared(body, freed), free[m := freed + FreeList(free, m)], m)
  {
  }

  /** No node without references is left in the first buckets of a table. */
  ghost predicate CleanUpTo(body: seq<Body>, hash: seq<int> -> nat, ref: seq<nat>, t: TableId, shift: nat, j: nat)
  {
    forall id :: 0 <= id < |body| && !body[id].Nothing? && TableOf(body[id]) == t && BucketOf(hash, Words(body[id]), shift) < j
                 ==> HasRefs(ref, id)
  }

  /** The first buckets of a table have been swept. */
  ghost predicate SweptUpTo(body0: seq<Body>, free0: map<nat, seq<Id>>, body: seq<Body>, free: map<nat, seq<Id>>,
                            hash: seq<int> -> nat, ref: seq<nat>, t: TableId, shift: nat, j: nat)
  {
    OnlyDead(body0, body, ref, t.manager) && Returned(body0, free0, body, free, t.manager) && CleanUpTo(body, hash, ref, t, shift, j)
  }

  /** No node without references is left in a table. */
  ghost predicate Clean(body: seq<Body>, ref: seq<nat>, t: TableId)
  {
    forall id :: 0 <= id < |body| && !body[id].Nothing? && TableOf(body[id]) == t ==> HasRefs(ref, id)
  }

  /** No node without references is left in the tables of a manager that are due, up to a level. */
  ghost predicate CleanLevels(body: seq<Body>, ref: seq<nat>, m: nat, due: set<nat>, levels: nat)
  {
    forall level :: level in due && level < levels ==> Clean(body, ref, TableId(m, level))
  }

  lemma {:induction false} CleanMore(was: seq<Body>, body: seq<Body>, ref: seq<nat>, m: nat, due: set<nat>, i: nat)
    requires OnlyDead(was, body, ref, m) && CleanLevels(was, ref, m, due, i)
    requires i in due ==> Clean(body, ref, TableId(m, i))
    ensures CleanLevels(body, ref, m, due, i + 1)
  {
    forall level | level in due && level < i + 1 ensures Clean(body, ref, TableId(m, level)) {
      if level < i { assert Clean(was, ref, TableId(m, level)); }
    }
  }

  class NodeStore {
    const hash: seq<int> -> nat
    /** The fields of every node: the link to the next in its chain, its contents, and the manager it belongs to. */
    var next: seq<Id>
    var body: seq<Body>
    var owner: seq<nat>
    /** The tables and free lists of the managers. */
    var tables: map<TableId, Table>
    var free: map<nat, seq<Id>>
    ghost var chains: map<TableId, seq<seq<Id>>>

    ghost function TheHeap(): Heap
      reads this
    {
      Heap(next, body, tables, chains)
    }

    ghost predicate Valid()
      reads this
    {
      HeapOk(TheHeap(), hash) && |owner| == |body| && Owned(body, owner) && FreeOk(body, owner, free)
    }

    constructor (hash: seq<int> -> nat)
      ensures Valid() && body == [Nothing, Nothing] && this.hash == hash
    {
      this.hash := hash;
      next, body, owner := [SENTINEL, SENTINEL], [Nothing, Nothing], [0, 0];
      tables, free, chains := map[], map[], map[];
    }

    ghost predicate IsPlaceFor(b: Body, at: Place)
      reads this
      requires Valid()
    {
      && !b.Nothing? && TableOf(b) in tables
      && PlaceOk(body, hash, tables[TableOf(b)], chains[TableOf(b)], Words(b), at)
    }

    method EnsureTable(t: TableId)
      requires Valid()
      modifies this`tables, this`chains
      ensures Valid() && t in tables && forall u :: u in old(tables) ==> u in tables && tables[u] == old(tables)[u]
      ensures tables.Keys == old(tables).Keys + {t}
      ensures t !in old(tables) ==> tables[t].shift == 24 && |tables[t].hash| == 256
    {
      if t !in tables {
        NewTableOk(TheHeap(), hash, t);
        tables := tables[t := EmptyTable()];
        chains := chains[t := seq(256, _ => [])];
      }
    }

    /** Looks contents up; returns the node that has them, or the sentinel, and where to put them. */
    method Find(b: Body) returns (id: Id, bucket: nat, p: Link, ghost at: Place)
      requires Valid() && !b.Nothing? && BodyOk(b) && TableOf(b) in tables
      ensures IsPlaceFor(b, at) && at.bucket == bucket && at.link == p
      ensures id == SENTINEL || (id < |body| && body[id] == b)
      ensures id == SENTINEL ==> forall x :: 0 <= x < |body| ==> body[x] != b
    {
      var t := TableOf(b);
      bucket := BucketOf(hash, Words(b), tables[t].shift);
      BucketInRange(hash, Words(b), tables[t].shift);
      ghost var before, after;
      assert BucketOk(next, body, hash, t, tables[t].shift, bucket, tables[t].hash[bucket], chains[t][bucket]);
      p, before, after := FindPlace(next, body, tables[t].hash[bucket], Words(b), chains[t][bucket]);
      NoneLarger(body, before, after, Words(b));
      at := Place(bucket, p, before, after);
      id := Follow(next, tables[t].hash[bucket], p);
      FoundHere(b, at, id);
      if Words(body[id]) != Words(b) {
        id := SENTINEL;
      }
    }

    /** Looks contents up, in a table that is set up if it is not there yet. */
    method Lookup(b: Body) returns (id: Id, bucket: nat, p: Link, ghost at: Place)
      requires Valid() && !b.Nothing? && BodyOk(b)
      modifies this`tables, this`chains
      ensures Valid() && IsPlaceFor(b, at) && at.bucket == bucket && at.link == p
      ensures id == SENTINEL || (id < |body| && body[id] == b)
      ensures id == SENTINEL ==> forall x :: 0 <= x < |body| ==> body[x] != b
    {
      EnsureTable(TableOf(b));
      id, bucket, p, at := Find(b);
    }

    lemma {:induction false} FoundHere(b: Body, at: Place, id: Id)
      requires Valid() && !b.Nothing? && BodyOk(b) && TableOf(b) in tables && IsPlaceFor(b, at)
      requires id == if at.after != [] then at.after[0] else SENTINEL
      ensures id < |body| && (Words(body[id]) == Words(b) <==> body[id] == b)
      ensures body[id] != b ==> forall x :: 0 <= x < |body| ==> body[x] != b
    {
      var t := TableOf(b);
      assert BucketOk(next, body, hash, t, tables[t].shift, at.bucket, tables[t].hash[at.bucket], chains[t][at.bucket]);
      if at.after != [] {
        assert id in chains[t][at.bucket] && Belongs(body, hash, t, tables[t].shift, at.bucket, id);
        if Words(body[id]) == Words(b) { KeyDetermines(body[id], b); }
      }
      forall x | 0 <= x < |body| && body[x] == b ensures body[id] == b {
        FoundOrAbsent(TheHeap(), hash, b, at, x);
      }
    }

    /** Adds memory for n more nodes. */
    method AddChunk(m: nat, n: nat)
      requires Valid() && n > 0
      modifies this`next, this`body, this`owner, this`free
      ensures Valid() && body == old(body) + seq(n, _ => Nothing) && FreeList(free, m) != []
      ensures FreeList(free, m) == Upwards(|old(body)|, n) + FreeList(old(free), m) && forall k :: k != m ==> FreeList(free, k) == FreeList(old(free), k)
      ensures forall b: Body, at: Place :: old(IsPlaceFor(b, at)) ==> IsPlaceFor(b, at)
    {
      GrownOk(TheHeap(), hash, n);
      FreeGrown(body, owner, free, m, n);
      var first := |body|;
      next := next + seq(n, _ => SENTINEL);
      body := body + seq(n, _ => Nothing);
      owner := owner + seq(n, _ => m);
      free := free[m := Upwards(first, n) + FreeList(free, m)];
    }

    /** Takes a node off the free list of a manager. */
    method TakeFree(m: nat) returns (id: Id)
      requires Valid() && FreeList(free, m) != []
      modifies this`free
      ensures Valid() && SENTINEL < id < |body| && body[id].Nothing? && owner[id] == m
      ensures FreeList(old(free), m) == [id] + FreeList(free, m) && forall k :: k != m ==> FreeList(free, k) == FreeList(old(free), k)
      ensures forall k :: k in free ==> id !in free[k]
    {
      FreeTaken(body, owner, free, m);
      id := free[m][0];
      free := free[m := free[m][1..]];
    }

    /** No node has these contents, their place is known, and the node to hold them is not in use. */
    ghost predicate CanInsert(id: Id, b: Body, bucket: nat, p: Link, at: Place)
      reads this
      requires Valid()
    {
      && BodyOk(b) && IsPlaceFor(b, at) && at.bucket == bucket && at.link == p
      && (forall x :: 0 <= x < |body| ==> body[x] != b)
      && SENTINEL < id < |body| && body[id].Nothing? && owner[id] == ManagerOf(b)
      && forall k :: k in free ==> id !in free[k]
    }

    /** The place of contents found before, or after a sweep the one they have now. */
    method PlaceNow(ghost id: Id, b: Body, swept: bool, bucket0: nat, p0: Link, ghost at0: Place) returns (bucket: nat, p: Link, ghost at: Place)
      requires Valid() && !b.Nothing? && BodyOk(b) && TableOf(b) in tables && forall x :: 0 <= x < |body| ==> body[x] != b
      requires SENTINEL < id < |body| && body[id].Nothing? && owner[id] == ManagerOf(b) && forall k :: k in free ==> id !in free[k]
      requires !swept ==> IsPlaceFor(b, at0) && at0.bucket == bucket0 && at0.link == p0
      ensures CanInsert(id, b, bucket, p, at)
    {
      bucket, p, at := bucket0, p0, at0;
      if swept {
        var found;
        found, bucket, p, at := Find(b);
      }
    }

    /** Links a node with new contents into its chain. */
    method Insert(id: Id, b: Body, bucket: nat, p: Link, ghost at: Place)
      requires Valid() && CanInsert(id, b, bucket, p, at)
      modifies this`next, this`body, this`tables, this`chains
      ensures Valid() && body == old(body)[id := b] && TableOf(b) in tables
      ensures TableOf(b) in old(tables) && tables[TableOf(b)].shift == old(tables)[TableOf(b)].shift
    {
      var t := TableOf(b);
      BucketFits(b, at, id);
      var next', head := InsertAt(next, tables[t].hash[bucket], p, id, at.before, at.after);
      Inserted(b, at, id, next', head);
      next := next';
      body := body[id := b];
      tables := tables[t := tables[t].(hash := tables[t].hash[bucket := head])];
      chains := chains[t := chains[t][bucket := at.before + [id] + at.after]];
    }

    lemma {:induction false} Inserted(b: Body, at: Place, id: Id, next': seq<Id>, head: Id)
      requires Valid() && !b.Nothing? && BodyOk(b) && IsPlaceFor(b, at)
      requires forall x :: 0 <= x < |body| ==> body[x] != b
      requires SENTINEL < id < |body| && body[id].Nothing? && owner[id] == ManagerOf(b)
      requires forall k :: k in free ==> id !in free[k]
      requires Unchanged(next, next', at.before + [id]) && Linked(next', head, at.before + [id] + at.after)
      ensures HeapOk(Relinked(TheHeap(), TableOf(b), at.bucket, next', body[id := b], head, at.before + [id] + at.after), hash)
      ensures Owned(body[id := b], owner) && FreeOk(body[id := b], owner, free)
    {
      InsertedOk(TheHeap(), hash, b, at, id, next', head);
      FreeAfter(body, body[id := b], owner, free);
    }

    lemma {:induction false} BucketFits(b: Body, at: Place, id: Id)
      requires Valid() && IsPlaceFor(b, at) && id < |body| && body[id].Nothing?
      ensures TableOf(b) in tables && TableOf(b) in chains && at.bucket < |tables[TableOf(b)].hash| == |chains[TableOf(b)]|
      ensures var t := TableOf(b);
              Linked(next, tables[t].hash[at.bucket], at.before + at.after) && NoRepeat(at.before + at.after) && id !in at.before + at.after
    {
      var t := TableOf(b);
      var chain := chains[t][at.bucket];
      assert BucketOk(next, body, hash, t, tables[t].shift, at.bucket, tables[t].hash[at.bucket], chain);
      DescendingNoRepeat(body, chain);
      assert id in chain ==> Belongs(body, hash, t, tables[t].shift, at.bucket, id);
    }

    /** Sweeps one bucket: nodes without references go back to the free list. */
    method SweepBucket(t: TableId, j: nat, ref: seq<nat>)
      requires Valid() && t in tables && j < |tables[t].hash| && |ref| == |body|
      modifies this`next, this`body, this`tables, this`free, this`chains
      ensures Valid() && tables.Keys == old(tables).Keys && tables[t].shift == old(tables)[t].shift
      ensures |tables[t].hash| == |old(tables)[t].hash|
      ensures body == Cleared(old(body), Dead(ref, old(chains[t][j])))
      ensures free == old(free)[t.manager := Dead(ref, old(chains[t][j])) + FreeList(old(free), t.manager)]
    {
      ghost var chain := chains[t][j];
      assert BucketOk(next, body, hash, t, tables[t].shift, j, tables[t].hash[j], chain);
      DescendingNoRepeat(body, chain);
      var next', head, freed := SweepChain(next, tables[t].hash[j], ref, chain);
      BucketSwept(t, j, ref, next', head);
      next := next';
      body := Cleared(body, freed);
      tables := tables[t := tables[t].(hash := tables[t].hash[j := head])];
      free := free[t.manager := freed + FreeList(free, t.manager)];
      chains := chains[t := chains[t][j := Alive(ref, chain)]];
    }

    lemma {:induction false} BucketSwept(t: TableId, j: nat, ref: seq<nat>, next': seq<Id>, head: Id)
      requires Valid() && t in tables && j < |tables[t].hash| && |ref| == |body|
      requires Unchanged(next, next', chains[t][j]) && Linked(next', head, Alive(ref, chains[t][j]))
      ensures var chain := chains[t][j];
              var freed := Dead(ref, chain);
              && HeapOk(Relinked(TheHeap(), t, j, next', Cleared(body, freed), head, Alive(ref, chain)), hash)
              && Owned(Cleared(body, freed), owner)
              && FreeOk(Cleared(body, freed), owner, free[t.manager := freed + FreeList(free, t.manager)])
    {
      var chain := chains[t][j];
      var freed := Dead(ref, chain);
      assert BucketOk(next, body, hash, t, tables[t].shift, j, tables[t].hash[j], chain);
      DescendingNoRepeat(body, chain);
      SweptOk(TheHeap(), hash, t, j, ref, next', head);
      AliveNoRepeat(ref, chain);
      AliveOrDead(ref, chain);
      assert forall id :: id in freed ==> Belongs(body, hash, t, tables[t].shift, j, id);
      FreeReturned(body, owner, free, t.manager, freed);
    }

    /** Sweeps one table. */
    method SweepTable(t: TableId, ref: seq<nat>)
      requires Valid() && t in tables && |ref| == |body|
      modifies this`next, this`body, this`tables, this`free, this`chains
      ensures Valid() && tables.Keys == old(tables).Keys
      ensures OnlyDead(old(body), body, ref, t.manager) && Clean(body, ref, t)
      ensures Returned(old(body), old(free), body, free, t.manager)
    {
      ghost var body0, free0, shift, n := body, free, tables[t].shift, |tables[t].hash|;
      var j := 0;
      while j < |tables[t].hash|
        invariant Valid() && tables.Keys == old(tables).Keys && tables[t].shift == shift && j <= n == |tables[t].hash|
        invariant SweptUpTo(body0, free0, body, free, hash, ref, t, shift, j)
        decreases n - j
      {
        SweptFurther(body0, free0, ref, t, j);
        SweepBucket(t, j, ref);
        j := j + 1;
      }
      AllClean(ref, t);
    }

    lemma {:induction false} AllClean(ref: seq<nat>, t: TableId)
      requires Valid() && t in tables && CleanUpTo(body, hash, ref, t, tables[t].shift, |tables[t].hash|)
      ensures Clean(body, ref, t)
    {
      forall id | 0 <= id < |body| && !body[id].Nothing? && TableOf(body[id]) == t ensures HasRefs(ref, id) {
        assert Filed(TheHeap(), hash, id);
      }
    }

    lemma {:induction false} SweptFurther(body0: seq<Body>, free0: map<nat, seq<Id>>, ref: seq<nat>, t: TableId, j: nat)
      requires Valid() && t in tables && j < |tables[t].hash| && |ref| == |body|
      requires SweptUpTo(body0, free0, body, free, hash, ref, t, tables[t].shift, j)
      ensures var freed := Dead(ref, chains[t][j]);
              SweptUpTo(body0, free0, Cleared(body, freed), free[t.manager := freed + FreeList(free, t.manager)], hash, ref, t, tables[t].shift, j + 1)
    {
      var chain := chains[t][j];
      var freed := Dead(ref, chain);
      AliveOrDead(ref, chain);
      assert BucketOk(next, body, hash, t, tables[t].shift, j, tables[t].hash[j], chain);
      forall id | 0 <= id < |body| && !body[id].Nothing? && id !in freed && TableOf(body[id]) == t
                  && BucketOf(hash, Words(body[id]), tables[t].shift) == j
        ensures HasRefs(ref, id)
      {
        assert Filed(TheHeap(), hash, id);
      }
      assert forall id :: id in freed ==> Belongs(body, hash, t, tables[t].shift, j, id);
      ReturnedNow(body, free, t.manager, freed);
      ReturnedMore(body0, free0, body, free, Cleared(body, freed), free[t.manager := freed + FreeList(free, t.manager)], ref, t.manager);
    }

    /** Sweeps the tables of one manager, level by level; only those that are due. */
    method Sweep(m: nat, ref: seq<nat>, levelcnt: nat, due: set<nat>)
      requires Valid() && |ref| == |body|
      modifies this`next, this`body, this`tables, this`free, this`chains
      ensures Valid() && tables.Keys == old(tables).Keys
      ensures OnlyDead(old(body), body, ref, m) && CleanLevels(body, ref, m, due, levelcnt)
      ensures Returned(old(body), old(free), body, free, m)
    {
      var i := 0;
      while i < levelcnt
        invariant i <= levelcnt && Valid() && tables.Keys == old(tables).Keys
        invariant OnlyDead(old(body), body, ref, m) && CleanLevels(body, ref, m, due, i)
        invariant Returned(old(body), old(free), body, free, m)
      {
        ghost var was, free1 := body, free;
        if TableId(m, i) in tables && i in due {
          SweepTable(TableId(m, i), ref);
          ReturnedMore(old(body), old(free), was, free1, body, free, ref, m);
        } else if i in due {
          NothingThere(TableId(m, i), ref);
        }
        CleanMore(was, body, ref, m, due, i);
        i := i + 1;
      }
    }

    lemma {:induction false} NothingThere(t: TableId, ref: seq<nat>)
      requires Valid() && t !in tables
      ensures Clean(body, ref, t)
    {
      forall id | 0 <= id < |body| && !body[id].Nothing? ensures TableOf(body[id]) in tables {
        assert Filed(TheHeap(), hash, id);
      }
    }

    /** Doubles a table. */
    method Rehash(t: TableId)
      requires Valid() && t in tables
      modifies this`next, this`tables, this`chains
      ensures Valid() && tables.Keys == old(tables).Keys && forall u :: u in tables && u != t ==> tables[u] == old(tables)[u]
      ensures tables[t].shift == if old(tables)[t].shift > 0 then old(tables)[t].shift - 1 else 0
    {
      if tables[t].shift > 0 {
        var next', table;
        ghost var dealt;
        next', table, dealt := RehashTable(next, body, hash, t, tables[t], chains[t]);
        RehashedOk(TheHeap(), hash, t, next', table, dealt);
        next := next';
        tables := tables[t := table];
        chains := chains[t := dealt];
      }
    }
  }
}
