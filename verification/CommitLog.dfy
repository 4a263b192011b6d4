/** The commit log: decisions sorted by height, with an index that refuses a second block at a height. */
module CommitLog {
  import opened Types
  import opened Sorting
  import opened BlockTrees

  predicate DecisionLeq(a: CommitDecision, b: CommitDecision) {
    a.committedHeight <= b.committedHeight
  }

  predicate Increasing(committed: seq<CommitDecision>) {
    forall i, j | 0 <= i < j < |committed| :: committed[i].committedHeight < committed[j].committedHeight
  }

  ghost predicate HashesDiffer(committed: seq<CommitDecision>) {
    forall i, j | 0 <= i < j < |committed| :: committed[i].committedBlockHash != committed[j].committedBlockHash
  }

  ghost predicate LogsHash(committed: seq<CommitDecision>, hash: Hash) {
    exists d :: d in committed && d.committedBlockHash == hash
  }

  ghost predicate LogsHeight(committed: seq<CommitDecision>, height: nat) {
    exists d :: d in committed && d.committedHeight == height
  }

  /** Heights strictly increase, hashes differ, and both indexes hold exactly the logged decisions. */
  ghost predicate ValidLog(committed: seq<CommitDecision>, committedSet: set<Hash>, byHeight: map<nat, Hash>) {
    Increasing(committed) && HashesDiffer(committed) &&
    (forall hash :: hash in committedSet <==> LogsHash(committed, hash)) &&
    (forall h: nat :: h in byHeight <==> LogsHeight(committed, h)) &&
    (forall d | d in committed :: d.committedHeight in byHeight && byHeight[d.committedHeight] == d.committedBlockHash)
  }

  /** The last finalized block is that of the highest decision. */
  function LastFinalized(committed: seq<CommitDecision>): Hash {
    if |committed| == 0 then ZeroHash else committed[|committed| - 1].committedBlockHash
  }

  ghost predicate AllHaveDescendants(committed: seq<CommitDecision>, blocks: Blocks) {
    forall i | 0 <= i < |committed| ::
      HasTwoDescendants(blocks, committed[i].committedBlockHash, committed[i].committedHeight)
  }

  lemma DescendantsKept(committed: seq<CommitDecision>, before: Blocks, after: Blocks)
    requires AllHaveDescendants(committed, before) && Grows(before, after)
    ensures AllHaveDescendants(committed, after)
  {
    hide HasTwoDescendants, Grows;
    forall i | 0 <= i < |committed|
      ensures HasTwoDescendants(after, committed[i].committedBlockHash, committed[i].committedHeight)
    {
      GrowthKeepsDescendants(before, after, committed[i].committedBlockHash, committed[i].committedHeight);
    }
  }

  lemma DecisionOrder()
    ensures TotalOrder(DecisionLeq)
  {}

  /** A decision at a new height and for a new block takes its place in the log. */
  lemma Logged(committed: seq<CommitDecision>, committedSet: set<Hash>, byHeight: map<nat, Hash>, d: CommitDecision)
    requires ValidLog(committed, committedSet, byHeight)
    requires d.committedBlockHash !in committedSet && d.committedHeight !in byHeight
    ensures var next := Sort(committed + [d], DecisionLeq);
      ValidLog(next, committedSet + {d.committedBlockHash}, byHeight[d.committedHeight := d.committedBlockHash]) &&
      |next| == |committed| + 1 && forall x :: x in next <==> x in committed || x == d
  {
    hide Sort;
    var all := committed + [d];
    var next := Sort(all, DecisionLeq);
    DecisionOrder();
    SortSpec(all, DecisionLeq);
    forall i | 0 <= i < |committed| ensures committed[i].committedHeight != d.committedHeight && committed[i].committedBlockHash != d.committedBlockHash {
      assert committed[i] in committed;
      assert LogsHash(committed, committed[i].committedBlockHash);
    }
    assert HeightsDiffer(all) && HashesDiffer(all);
    assert Distinct(all) by { forall i, j | 0 <= i < j < |all| ensures all[i] != all[j] {} }
    SameMultiset(all, next);
    forall x ensures x in next <==> x in committed || x == d { assert x in all <==> x in committed || x == d; }
    Rearranged(all, next);
    LogIndexes(committed, committedSet, byHeight, d, next);
  }

  ghost predicate HeightsDiffer(committed: seq<CommitDecision>) {
    forall i, j | 0 <= i < j < |committed| :: committed[i].committedHeight != committed[j].committedHeight
  }

  lemma Rearranged(all: seq<CommitDecision>, next: seq<CommitDecision>)
    requires HeightsDiffer(all) && HashesDiffer(all) && Distinct(next) && Sorted(next, DecisionLeq)
    requires forall x :: x in all <==> x in next
    ensures Increasing(next) && HashesDiffer(next)
  {
    forall i, j | 0 <= i < j < |next|
      ensures next[i].committedHeight < next[j].committedHeight && next[i].committedBlockHash != next[j].committedBlockHash
    {
      assert next[i] in all && next[j] in all && next[i] != next[j];
      var a :| 0 <= a < |all| && all[a] == next[i];
      var b :| 0 <= b < |all| && all[b] == next[j];
      assert DecisionLeq(next[i], next[j]);
    }
  }

  lemma LogIndexes(committed: seq<CommitDecision>, committedSet: set<Hash>, byHeight: map<nat, Hash>, d: CommitDecision,
                   next: seq<CommitDecision>)
    requires ValidLog(committed, committedSet, byHeight) && Increasing(next) && HashesDiffer(next)
    requires d.committedBlockHash !in committedSet && d.committedHeight !in byHeight
    requires forall x :: x in next <==> x in committed || x == d
    ensures ValidLog(next, committedSet + {d.committedBlockHash}, byHeight[d.committedHeight := d.committedBlockHash])
  {
    var moreSet, moreHeights := committedSet + {d.committedBlockHash}, byHeight[d.committedHeight := d.committedBlockHash];
    assert d in next;
    forall hash ensures hash in moreSet <==> LogsHash(next, hash) {
      if hash in committedSet {
        var x :| x in committed && x.committedBlockHash == hash;
        assert x in next;
      }
      if LogsHash(next, hash) {
        var x :| x in next && x.committedBlockHash == hash;
        assert x in committed ==> LogsHash(committed, hash);
      }
    }
    forall h: nat ensures h in moreHeights <==> LogsHeight(next, h) {
      if h in byHeight {
        var x :| x in committed && x.committedHeight == h;
        assert x in next;
      }
      if LogsHeight(next, h) {
        var x :| x in next && x.committedHeight == h;
        assert x in committed ==> LogsHeight(committed, h);
      }
    }
  }
}
