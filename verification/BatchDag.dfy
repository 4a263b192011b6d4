/** The mempool's batch graph, and the log that is compacted and read back. */
module BatchDag {
  import opened Types

  datatype Batch = Batch(id: Hash, author: Bytes, parents: seq<Hash>, txs: seq<Bytes>, metadata: Bytes)

  type Batches = map<Hash, Batch>

  datatype DagError = DuplicateBatch | UnknownParent | AppendFailed

  // ---------------------------------------------------------------------------- the graph

  /** The child is a batch that names the parent. */
  predicate Names(batches: Batches, child: Hash, parent: Hash) {
    child in batches && parent in batches[child].parents
  }

  /** Batches are stored under their ids, and their parents were there before them. */
  ghost predicate Ordered(batches: Batches, rank: map<Hash, nat>) {
    (forall id | id in batches :: batches[id].id == id && id in rank) &&
    forall id, p | Names(batches, id, p) :: p in batches && p in rank && rank[p] < rank[id]
  }

  /** The tips are the batches that no batch names. */
  ghost predicate TipsAre(batches: Batches, tips: set<Hash>) {
    forall id :: id in tips <==> id in batches && forall c :: !Names(batches, c, id)
  }

  ghost predicate ChildrenAre(batches: Batches, children: map<Hash, set<Hash>>) {
    (forall p, c :: p in children && c in children[p] <==> Names(batches, c, p)) &&
    forall p | p in children :: exists c :: c in children[p]
  }

  /** A path from a batch to one of its ancestors. */
  ghost predicate IsPath(batches: Batches, path: seq<Hash>) {
    |path| > 0 && forall i | 0 <= i < |path| - 1 :: Names(batches, path[i], path[i + 1])
  }

  /** The graph has no cycles. */
  lemma {:induction false} Acyclic(batches: Batches, rank: map<Hash, nat>, path: seq<Hash>)
    requires Ordered(batches, rank) && IsPath(batches, path) && |path| > 1
    ensures path[0] in rank && path[|path| - 1] in rank && rank[path[|path| - 1]] < rank[path[0]]
  {
    assert Names(batches, path[0], path[1]);
    if |path| > 2 {
      var rest := path[1..];
      forall i | 0 <= i < |rest| - 1 ensures Names(batches, rest[i], rest[i + 1]) {
        assert Names(batches, path[i + 1], path[i + 2]);
      }
      Acyclic(batches, rank, rest);
    }
  }

  lemma TipsUnique(batches: Batches, a: set<Hash>, b: set<Hash>)
    requires TipsAre(batches, a) && TipsAre(batches, b)
    ensures a == b
  {
    forall id ensures id in a <==> id in b {}
  }

  lemma ChildrenUnique(batches: Batches, a: map<Hash, set<Hash>>, b: map<Hash, set<Hash>>)
    requires ChildrenAre(batches, a) && ChildrenAre(batches, b)
    ensures a == b
  {
    hide Names;
    forall p | p in a ensures p in b {
      var c :| c in a[p];
      assert Names(batches, c, p);
    }
    forall p | p in b ensures p in a {
      var c :| c in b[p];
      assert Names(batches, c, p);
    }
    forall p | p in a ensures a[p] == b[p] {
      forall c ensures c in a[p] <==> c in b[p] { assert c in a[p] <==> Names(batches, c, p); }
    }
  }

  class Dag {
    const hashBatch: Batch -> Hash
    var batches: Batches
    var children: map<Hash, set<Hash>>
    var tips: set<Hash>
    /** The add-batch events of the attached log. */
    var log: seq<Batch>
    ghost var rank: map<Hash, nat>

    ghost predicate Valid()
      reads this
    {
      Graph() && Emission(batches, log) && EmittedAre(log, batches.Keys)
    }

    ghost predicate Graph()
      reads this
    {
      Ordered(batches, rank) && TipsAre(batches, tips) && ChildrenAre(batches, children) &&
      ZeroHash !in batches && forall batch :: hashBatch(batch) != ZeroHash
    }

    constructor (hashBatch: Batch -> Hash)
      requires forall batch :: hashBatch(batch) != ZeroHash
      ensures Valid() && batches == map[] && log == [] && this.hashBatch == hashBatch
    {
      this.hashBatch := hashBatch;
      batches, children, tips, log, rank := map[], map[], {}, [], map[];
      NothingEmitted(map[]);
    }

    function Identified(batch: Batch): (identified: Batch)
      ensures identified == batch.(id := identified.id)
      ensures identified.id == if batch.id != ZeroHash then batch.id else hashBatch(batch)
    {
      if batch.id == ZeroHash then batch.(id := hashBatch(batch)) else batch
    }

    /** A batch is added, and logged first, if it is new and all its parents are known. */
    method AddBatch(received: Batch, logged: bool) returns (err: Option<DagError>)
      requires Valid()
      modifies this
      ensures Valid()
      ensures var batch := Identified(received);
        (err.None? <==> batch.id !in old(batches) && logged && forall p | p in batch.parents :: p in old(batches)) &&
        (err == Some(DuplicateBatch) <==> batch.id in old(batches)) &&
        (err == Some(UnknownParent) <==> batch.id !in old(batches) && exists p :: p in batch.parents && p !in old(batches)) &&
        (err == Some(AppendFailed) <==>
          batch.id !in old(batches) && !logged && forall p | p in batch.parents :: p in old(batches)) &&
        batches == (if err.None? then old(batches)[batch.id := batch] else old(batches)) &&
        log == (if err.None? then old(log) + [batch] else old(log))
    {
      hide TipsAre, ChildrenAre, Ordered, Emission, EmittedAre;
      var batch := Identified(received);
      if batch.id in batches { return Some(DuplicateBatch); }
      for i := 0 to |batch.parents|
        invariant forall j | 0 <= j < i :: batch.parents[j] in batches
      {
        if batch.parents[i] !in batches {
          assert batch.parents[i] in batch.parents;
          return Some(UnknownParent);
        }
      }
      if !logged { return Some(AppendFailed); }
      log := log + [batch];
      AddBatchUnchecked(batch);
      EmitMore(old(batches), old(log), batch);
      return None;
    }

    method AddBatchUnchecked(batch: Batch)
      requires Graph() && batch.id !in batches && batch.id != ZeroHash && forall p | p in batch.parents :: p in batches
      modifies this`batches, this`children, this`tips, this`rank
      ensures Graph() && batches == old(batches)[batch.id := batch]
    {
      hide TipsAre, ChildrenAre, Ordered, TipsAfter, ChildrenAfter, Names;
      rank := RankAfter(batches, rank, batch.id);
      NewRank(batches, old(rank), batch);
      batches := batches[batch.id := batch];
      tips := tips + {batch.id};
      TipsStart(old(batches), old(tips), batch);
      ChildrenStart(old(batches), old(children), batch);
      for i := 0 to |batch.parents|
        modifies this`children, this`tips
        invariant batches == old(batches)[batch.id := batch]
        invariant TipsAfter(old(batches), batch, batch.parents[..i], tips)
        invariant ChildrenAfter(old(batches), batch, batch.parents[..i], children)
      {
        var parent := batch.parents[i];
        TipsStep(old(batches), batch, i, tips);
        tips := tips - {parent};
        ghost var before := children;
        children := children[parent := ChildrenOf(children, parent) + {batch.id}];
        ChildrenStep(old(batches), batch, i, before, children);
      }
      assert batch.parents[..|batch.parents|] == batch.parents;
      ParentsKnown(old(batches), old(rank));
      TipsFinished(old(batches), batch, tips);
      ChildrenFinished(old(batches), batch, children);
    }
  }

  // ----------------------------------------------------------------------------- one batch more

  ghost function RankAfter(batches: Batches, rank: map<Hash, nat>, id: Hash): map<Hash, nat> {
    rank[id := Above(rank, rank.Keys)]
  }

  /** A number above the ranks of some batches. */
  ghost function Above(rank: map<Hash, nat>, ids: set<Hash>): (r: nat)
    requires ids <= rank.Keys
    ensures forall id | id in ids :: rank[id] < r
    decreases |ids|
  {
    if ids == {} then 0
    else
      var id :| id in ids;
      var rest := Above(rank, ids - {id});
      if rank[id] < rest then rest else rank[id] + 1
  }

  lemma NewRank(batches: Batches, rank: map<Hash, nat>, batch: Batch)
    requires Ordered(batches, rank) && batch.id !in batches && forall p | p in batch.parents :: p in batches
    ensures Ordered(batches[batch.id := batch], RankAfter(batches, rank, batch.id))
  {
    var more, next := batches[batch.id := batch], RankAfter(batches, rank, batch.id);
    forall id, p | Names(more, id, p) ensures p in more && p in next && next[p] < next[id] {
      if id != batch.id { assert Names(batches, id, p); }
    }
  }

  /** The tips once some parents of the new batch have been taken out. */
  ghost predicate TipsAfter(batches: Batches, batch: Batch, parents: seq<Hash>, tips: set<Hash>) {
    forall id :: id in tips <==> (id == batch.id || (id in batches && forall c :: !Names(batches, c, id))) && id !in parents
  }

  ghost predicate ChildrenAfter(batches: Batches, batch: Batch, parents: seq<Hash>, children: map<Hash, set<Hash>>) {
    (forall p, c :: p in children && c in children[p] <==> Names(batches, c, p) || (c == batch.id && p in parents)) &&
    forall p | p in children :: exists c :: c in children[p]
  }

  lemma TipsStart(batches: Batches, tips: set<Hash>, batch: Batch)
    requires TipsAre(batches, tips)
    ensures TipsAfter(batches, batch, batch.parents[..0], tips + {batch.id})
  {}

  lemma TipsStep(batches: Batches, batch: Batch, i: nat, tips: set<Hash>)
    requires i < |batch.parents| && TipsAfter(batches, batch, batch.parents[..i], tips)
    ensures TipsAfter(batches, batch, batch.parents[..i + 1], tips - {batch.parents[i]})
  {
    assert batch.parents[..i + 1] == batch.parents[..i] + [batch.parents[i]];
  }

  lemma ChildrenStart(batches: Batches, children: map<Hash, set<Hash>>, batch: Batch)
    requires ChildrenAre(batches, children)
    ensures ChildrenAfter(batches, batch, batch.parents[..0], children)
  {
    forall p, c ensures p in children && c in children[p] <==> Names(batches, c, p) || (c == batch.id && p in batch.parents[..0]) {
      assert p !in batch.parents[..0];
    }
  }

  function ChildrenOf(children: map<Hash, set<Hash>>, parent: Hash): set<Hash> {
    if parent in children then children[parent] else {}
  }

  lemma ChildrenStep(batches: Batches, batch: Batch, i: nat, children: map<Hash, set<Hash>>, next: map<Hash, set<Hash>>)
    requires i < |batch.parents| && ChildrenAfter(batches, batch, batch.parents[..i], children)
    requires next == children[batch.parents[i] := ChildrenOf(children, batch.parents[i]) + {batch.id}]
    ensures ChildrenAfter(batches, batch, batch.parents[..i + 1], next)
  {
    var parent, parents := batch.parents[i], batch.parents[..i + 1];
    assert parents == batch.parents[..i] + [parent];
    forall p, c ensures p in next && c in next[p] <==> Names(batches, c, p) || (c == batch.id && p in parents) {
      assert p in children && c in children[p] <==> Names(batches, c, p) || (c == batch.id && p in batch.parents[..i]);
    }
    forall p | p in next ensures exists c :: c in next[p] {
      if p == parent { assert batch.id in next[p]; } else { assert p in children; }
    }
    assert ChildrenAfter(batches, batch, parents, next);
  }

  lemma NamesMore(batches: Batches, batch: Batch, c: Hash, p: Hash)
    requires batch.id !in batches
    ensures Names(batches[batch.id := batch], c, p) <==> Names(batches, c, p) || (c == batch.id && p in batch.parents)
  {}

  lemma TipsFinished(batches: Batches, batch: Batch, tips: set<Hash>)
    requires batch.id !in batches && forall p | p in batch.parents :: p in batches
    requires forall id, p | Names(batches, id, p) :: p in batches
    requires TipsAfter(batches, batch, batch.parents, tips)
    ensures TipsAre(batches[batch.id := batch], tips)
  {
    hide Names;
    var more := batches[batch.id := batch];
    forall id ensures id in tips <==> id in more && forall c :: !Names(more, c, id) {
      forall c ensures Names(more, c, id) <==> Names(batches, c, id) || (c == batch.id && id in batch.parents) {
        NamesMore(batches, batch, c, id);
      }
      assert id in batch.parents ==> Names(more, batch.id, id);
      if forall c :: !Names(more, c, id) {
        forall c ensures !Names(batches, c, id) { assert !Names(more, c, id); }
      }
    }
  }

  lemma ChildrenFinished(batches: Batches, batch: Batch, children: map<Hash, set<Hash>>)
    requires batch.id !in batches && ChildrenAfter(batches, batch, batch.parents, children)
    ensures ChildrenAre(batches[batch.id := batch], children)
  {
    hide Names;
    var more := batches[batch.id := batch];
    forall p, c ensures p in children && c in children[p] <==> Names(more, c, p) { NamesMore(batches, batch, c, p); }
  }

  lemma ParentsKnown(batches: Batches, rank: map<Hash, nat>)
    requires Ordered(batches, rank)
    ensures forall id, p | Names(batches, id, p) :: p in batches
  {}

  // ---------------------------------------------------------------------- compaction and replay

  /** The id stands at one of the first n places of the list. */
  ghost predicate Before(list: seq<Batch>, n: nat, id: Hash)
    requires n <= |list|
  {
    exists j :: 0 <= j < n && list[j].id == id
  }

  /** The list holds batches of the graph, each once and after its parents. */
  ghost predicate Emission(batches: Batches, list: seq<Batch>) {
    (forall i | 0 <= i < |list| :: list[i].id in batches && batches[list[i].id] == list[i]) &&
    (forall i, j | 0 <= i < j < |list| :: list[i].id != list[j].id) &&
    (forall i, p | 0 <= i < |list| && p in list[i].parents :: Before(list, i, p))
  }

  ghost predicate EmittedAre(list: seq<Batch>, emitted: set<Hash>) {
    forall id :: id in emitted <==> Before(list, |list|, id)
  }

  lemma EmitOne(batches: Batches, list: seq<Batch>, emitted: set<Hash>, id: Hash)
    requires Emission(batches, list) && EmittedAre(list, emitted) && id !in emitted && id in batches && batches[id].id == id
    requires forall p | p in batches[id].parents :: p in emitted
    ensures Emission(batches, list + [batches[id]]) && EmittedAre(list + [batches[id]], emitted + {id})
  {
    var more := list + [batches[id]];
    forall i, p | 0 <= i < |more| && p in more[i].parents ensures Before(more, i, p) {
      if i < |list| {
        assert Before(list, i, p);
        var j :| 0 <= j < i && list[j].id == p;
        assert more[j].id == p;
      } else {
        assert Before(list, |list|, p);
        var j :| 0 <= j < |list| && list[j].id == p;
        assert more[j].id == p;
      }
    }
    forall i | 0 <= i < |list| ensures list[i].id != id { assert Before(list, |list|, list[i].id); }
    forall x ensures x in emitted + {id} <==> Before(more, |more|, x) {
      if x in emitted {
        var j :| 0 <= j < |list| && list[j].id == x;
        assert more[j].id == x;
      }
      assert more[|list|].id == id;
      if Before(more, |more|, x) {
        var j :| 0 <= j < |more| && more[j].id == x;
        if j < |list| { assert list[j].id == x; }
      }
    }
  }

  lemma EmitMore(batches: Batches, list: seq<Batch>, batch: Batch)
    requires Emission(batches, list) && EmittedAre(list, batches.Keys) && batch.id !in batches
    requires forall p | p in batch.parents :: p in batches
    ensures var more := batches[batch.id := batch]; Emission(more, list + [batch]) && EmittedAre(list + [batch], more.Keys)
  {
    hide EmittedAre;
    var more := batches[batch.id := batch];
    assert Emission(more, list);
    EmitOne(more, list, batches.Keys, batch.id);
    assert more.Keys == batches.Keys + {batch.id};
  }

  /** Writes a batch after the ancestors that have not been written yet. The graph has no cycles, so this ends. */
  method EmitBatch(batches: Batches, ghost rank: map<Hash, nat>, id: Hash, emitted: set<Hash>, list: seq<Batch>)
    returns (emitted': set<Hash>, list': seq<Batch>)
    requires Ordered(batches, rank) && Emission(batches, list) && EmittedAre(list, emitted) && emitted <= batches.Keys
    ensures Emission(batches, list') && EmittedAre(list', emitted') && emitted <= emitted' <= batches.Keys
    ensures id in batches ==> id in emitted'
    ensures forall x | x in emitted' && x !in emitted :: x in rank && id in rank && rank[x] <= rank[id]
    decreases if id in rank then rank[id] + 1 else 0
  {
    hide Emission, EmittedAre;
    emitted', list' := emitted, list;
    if id in emitted { return; }
    if id !in batches { return; }
    var batch := batches[id];
    for i := 0 to |batch.parents|
      invariant Emission(batches, list') && EmittedAre(list', emitted') && emitted <= emitted' <= batches.Keys
      invariant forall j | 0 <= j < i :: batch.parents[j] in emitted'
      invariant forall x | x in emitted' && x !in emitted :: x in rank && rank[x] < rank[id]
    {
      assert Names(batches, id, batch.parents[i]);
      emitted', list' := EmitBatch(batches, rank, batch.parents[i], emitted', list');
    }
    EmitOne(batches, list', emitted', id);
    emitted', list' := emitted' + {id}, list' + [batch];
  }

  /** Whatever the log held, the compacted one holds every batch once and after its parents, in whatever order
      the batches are visited. */
  method Compact(dag: Dag)
    requires dag.Graph()
    modifies dag`log
    ensures dag.Valid()
  {
    hide Emission, EmittedAre, TipsAre, ChildrenAre, Ordered;
    var emitted: set<Hash> := {};
    var list: seq<Batch> := [];
    NothingEmitted(dag.batches);
    var rest := dag.batches.Keys;
    while rest != {}
      invariant rest <= dag.batches.Keys && dag.batches.Keys - rest <= emitted <= dag.batches.Keys
      invariant Emission(dag.batches, list) && EmittedAre(list, emitted)
      decreases |rest|
    {
      var id :| id in rest;
      rest := rest - {id};
      emitted, list := EmitBatch(dag.batches, dag.rank, id, emitted, list);
    }
    assert emitted == dag.batches.Keys;
    dag.log := list;
  }

  lemma NothingEmitted(batches: Batches)
    ensures Emission(batches, []) && EmittedAre([], {})
  {
    forall id ensures id in {} <==> Before([], 0, id) {}
  }

  /** The batches of the first n places of a list. */
  ghost predicate Holds(batches: Batches, list: seq<Batch>, n: nat)
    requires n <= |list|
  {
    (forall i | 0 <= i < n :: list[i].id in batches && batches[list[i].id] == list[i]) &&
    forall id | id in batches :: Before(list, n, id)
  }

  /** Reading a log back: a batch that is already there is skipped, any other error stops. */
  method OpenDurableDag(hashBatch: Batch -> Hash, log: seq<Batch>) returns (ok: bool, dag: Dag)
    requires forall batch :: hashBatch(batch) != ZeroHash
    ensures dag.Valid() && fresh(dag)
    ensures forall batches | Emission(batches, log) && ZeroHash !in batches :: ok && Holds(dag.batches, log, |log|)
  {
    hide TipsAre, ChildrenAre, Ordered, Emission, EmittedAre, Holds;
    dag := new Dag(hashBatch);
    NothingHeld(log);
    for i := 0 to |log|
      invariant dag.Valid() && fresh(dag) && dag.hashBatch == hashBatch
      invariant forall batches | Emission(batches, log) && ZeroHash !in batches :: Holds(dag.batches, log, i)
    {
      ghost var before := dag.batches;
      var err := dag.AddBatch(log[i], true);
      forall batches | Emission(batches, log) && ZeroHash !in batches
        ensures err.None? && Holds(dag.batches, log, i + 1)
      {
        NextFits(batches, before, log, i);
        assert dag.Identified(log[i]) == log[i];
      }
      if err.Some? && err != Some(DuplicateBatch) {
        return false, dag;
      }
    }
    return true, dag;
  }

  lemma NothingHeld(list: seq<Batch>)
    ensures Holds(map[], list, 0)
  {}

  lemma NextFits(batches: Batches, held: Batches, list: seq<Batch>, i: nat)
    requires Emission(batches, list) && ZeroHash !in batches && i < |list| && Holds(held, list, i)
    ensures list[i].id != ZeroHash && list[i].id !in held && forall p | p in list[i].parents :: p in held
    ensures Holds(held[list[i].id := list[i]], list, i + 1)
  {
    var id := list[i].id;
    assert !Before(list, i, id);
    forall p | p in list[i].parents ensures p in held { assert Before(list, i, p); }
    var more := held[id := list[i]];
    forall x | x in more ensures Before(list, i + 1, x) {
      if x == id {
        assert list[i].id == x;
      } else {
        assert Before(list, i, x);
        var j :| 0 <= j < i && list[j].id == x;
        assert 0 <= j < i + 1 && list[j].id == x;
      }
    }
  }

  lemma SameBatches(batches: Batches, held: Batches, list: seq<Batch>)
    requires Emission(batches, list) && EmittedAre(list, batches.Keys) && Holds(held, list, |list|)
    ensures held == batches
  {
    forall id ensures id in held <==> id in batches {
      if id in held { assert Before(list, |list|, id); }
      if id in batches { assert Before(list, |list|, id); }
    }
    forall id | id in batches ensures held[id] == batches[id] {
      assert Before(list, |list|, id);
      var j :| 0 <= j < |list| && list[j].id == id;
    }
  }

  /** Reading the log back, compacted or not, rebuilds the same batches, children and tips. */
  method Reopen(dag: Dag) returns (ok: bool, reopened: Dag)
    requires dag.Valid()
    ensures ok && reopened.Valid() && reopened.batches == dag.batches
    ensures reopened.children == dag.children && reopened.tips == dag.tips
  {
    hide TipsAre, ChildrenAre, Ordered, Emission, Holds, EmittedAre;
    ok, reopened := OpenDurableDag(dag.hashBatch, dag.log);
    SameBatches(dag.batches, reopened.batches, dag.log);
    TipsUnique(dag.batches, dag.tips, reopened.tips);
    ChildrenUnique(dag.batches, dag.children, reopened.children);
  }
}
