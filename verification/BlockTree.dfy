/** The tree of proposed blocks and the order in which they extend each other. */
module BlockTrees {
  import opened Types
  import opened Certificates

  datatype Block = Block(header: Header, txs: seq<Bytes>)

  function TxRoot(txs: seq<Bytes>): Hash {
    if |txs| == 0 then ZeroHash else TxRootHash(txs)
  }

  function HashBlock(block: Block): Hash {
    HeaderHash(if block.header.txRoot == ZeroHash then block.header.(txRoot := TxRoot(block.txs)) else block.header)
  }

  datatype BlockNode = BlockNode(block: Block, hash: Hash, parentHash: Hash, justifyQC: QuorumCert, quorumCert: QuorumCert)

  type Blocks = map<Hash, BlockNode>

  /** Every node is stored under the hash of its block and names its parent. */
  ghost predicate IsTree(blocks: Blocks) {
    forall h | h in blocks ::
      blocks[h].hash == h == HashBlock(blocks[h].block) && blocks[h].parentHash == blocks[h].block.header.previousBlockHash
  }

  predicate IsBetterQC(candidate: QuorumCert, current: QuorumCert) {
    if candidate.height != current.height then candidate.height > current.height else candidate.round > current.round
  }

  /** a is of a greater height than b, or of the same height and no smaller round. */
  ghost predicate NotBelow(a: QuorumCert, b: QuorumCert) {
    a.height > b.height || (a.height == b.height && a.round >= b.round)
  }

  // ------------------------------------------------------------------------------ ancestry

  /** How many block hashes are nested in a hash. */
  ghost function Depth(hash: Hash): nat {
    if hash.HeaderHash? then 1 + Depth(hash.header.previousBlockHash) else 0
  }

  lemma ParentIsShallower(blocks: Blocks, h: Hash)
    requires IsTree(blocks) && h in blocks
    ensures h != ZeroHash && Depth(blocks[h].parentHash) + 1 == Depth(h)
  {}

  /** Walking from a hash to its parents leads to the ancestor. */
  ghost predicate Reaches(blocks: Blocks, from: Hash, ancestor: Hash)
    requires IsTree(blocks)
    decreases Depth(from)
  {
    from != ZeroHash &&
    (from == ancestor ||
     (from in blocks && (ParentIsShallower(blocks, from); Reaches(blocks, blocks[from].parentHash, ancestor))))
  }

  /** The descendant extends the ancestor, or is the same block. */
  ghost predicate ExtendsIn(blocks: Blocks, descendant: Hash, ancestor: Hash)
    requires IsTree(blocks)
  {
    descendant != ZeroHash && ancestor != ZeroHash && Reaches(blocks, descendant, ancestor)
  }

  lemma {:induction false} ReachesDown(blocks: Blocks, from: Hash, ancestor: Hash)
    requires IsTree(blocks) && Reaches(blocks, from, ancestor)
    ensures from == ancestor || Depth(ancestor) < Depth(from)
    decreases Depth(from)
  {
    if from != ancestor {
      ParentIsShallower(blocks, from);
      ReachesDown(blocks, blocks[from].parentHash, ancestor);
    }
  }

  lemma {:induction false} ReachesTransitive(blocks: Blocks, a: Hash, b: Hash, c: Hash)
    requires IsTree(blocks) && Reaches(blocks, a, b) && Reaches(blocks, b, c)
    ensures Reaches(blocks, a, c)
    decreases Depth(a)
  {
    if a != b {
      ParentIsShallower(blocks, a);
      ReachesTransitive(blocks, blocks[a].parentHash, b, c);
    }
  }

  lemma {:induction false} ReachesBoth(blocks: Blocks, from: Hash, a: Hash, b: Hash)
    requires IsTree(blocks) && Reaches(blocks, from, a) && Reaches(blocks, from, b)
    ensures Reaches(blocks, a, b) || Reaches(blocks, b, a)
    decreases Depth(from)
  {
    if from != a && from != b {
      ParentIsShallower(blocks, from);
      ReachesBoth(blocks, blocks[from].parentHash, a, b);
    }
  }

  /** Extending is a partial order on block hashes, and the ancestors of one block form a chain. */
  lemma ExtendsIsPartialOrder(blocks: Blocks, a: Hash, b: Hash, c: Hash)
    requires IsTree(blocks)
    ensures a != ZeroHash ==> ExtendsIn(blocks, a, a)
    ensures ExtendsIn(blocks, a, b) && ExtendsIn(blocks, b, a) ==> a == b
    ensures ExtendsIn(blocks, a, b) && ExtendsIn(blocks, b, c) ==> ExtendsIn(blocks, a, c)
    ensures ExtendsIn(blocks, a, b) && ExtendsIn(blocks, a, c) ==> ExtendsIn(blocks, b, c) || ExtendsIn(blocks, c, b)
  {
    if ExtendsIn(blocks, a, b) && ExtendsIn(blocks, b, a) {
      ReachesDown(blocks, a, b);
      ReachesDown(blocks, b, a);
    }
    if ExtendsIn(blocks, a, b) && ExtendsIn(blocks, b, c) { ReachesTransitive(blocks, a, b, c); }
    if ExtendsIn(blocks, a, b) && ExtendsIn(blocks, a, c) { ReachesBoth(blocks, a, b, c); }
  }

  /** Nodes are added or replaced by nodes of the same header, never removed. */
  ghost predicate Grows(before: Blocks, after: Blocks) {
    forall h | h in before :: h in after && after[h].parentHash == before[h].parentHash &&
                              after[h].block.header.height == before[h].block.header.height
  }

  lemma TreesGrow(before: Blocks, after: Blocks)
    requires IsTree(before) && IsTree(after) && before.Keys <= after.Keys
    ensures Grows(before, after)
  {
    forall h | h in before
      ensures h in after && after[h].parentHash == before[h].parentHash &&
              after[h].block.header.height == before[h].block.header.height
    {
      SameHash(before[h].block, after[h].block);
    }
  }

  /** A block hash fixes the header, up to a transaction root that was left blank. */
  lemma SameHash(a: Block, b: Block)
    requires HashBlock(a) == HashBlock(b)
    ensures a.header.(txRoot := ZeroHash) == b.header.(txRoot := ZeroHash)
  {
    var x := if a.header.txRoot == ZeroHash then a.header.(txRoot := TxRoot(a.txs)) else a.header;
    var y := if b.header.txRoot == ZeroHash then b.header.(txRoot := TxRoot(b.txs)) else b.header;
    assert x == y;
  }

  /** Among blocks whose transaction root is blank or right, the hash fixes the transactions too. */
  lemma SameTransactions(a: Block, b: Block)
    requires HashBlock(a) == HashBlock(b)
    requires a.header.txRoot == ZeroHash || a.header.txRoot == TxRoot(a.txs)
    requires b.header.txRoot == ZeroHash || b.header.txRoot == TxRoot(b.txs)
    ensures a.txs == b.txs
  {
    RootFixesTransactions(a.txs, b.txs);
  }

  lemma RootFixesTransactions(a: seq<Bytes>, b: seq<Bytes>)
    ensures TxRoot(a) == TxRoot(b) <==> a == b
    ensures TxRoot(a) == ZeroHash <==> a == []
  {}

  /** Growth keeps every ancestry. */
  lemma {:induction false} GrowthKeepsAncestry(before: Blocks, after: Blocks, from: Hash, ancestor: Hash)
    requires IsTree(before) && IsTree(after) && Grows(before, after) && Reaches(before, from, ancestor)
    ensures Reaches(after, from, ancestor)
    decreases Depth(from)
  {
    if from != ancestor {
      ParentIsShallower(before, from);
      GrowthKeepsAncestry(before, after, before[from].parentHash, ancestor);
    }
  }

  // ------------------------------------------------------------------------ the commit rule

  datatype CommitCandidate = CommitCandidate(
    blockHeight: Uint64, blockHash: Hash, parentHeight: Uint64, parentHash: Hash,
    grandparentHeight: Uint64, grandparentHash: Hash, blockQC: QuorumCert, parentQC: QuorumCert)

  datatype CommitDecision = CommitDecision(committedHeight: Uint64, committedBlockHash: Hash, commitQC: QuorumCert)

  function CandidateFor(blocks: Blocks, blockHash: Hash): Option<CommitCandidate> {
    if blockHash !in blocks || blocks[blockHash].justifyQC.height == 0 then None
    else
      var node := blocks[blockHash];
      if node.justifyQC.blockHash !in blocks || blocks[node.justifyQC.blockHash].justifyQC.height == 0 then None
      else
        var parent := blocks[node.justifyQC.blockHash];
        Some(CommitCandidate(
          node.block.header.height, node.hash, parent.block.header.height, parent.hash,
          parent.justifyQC.height, parent.justifyQC.blockHash, node.justifyQC, parent.justifyQC))
  }

  /** 64-bit successor. */
  function Next(height: Uint64): Uint64 {
    (height + 1) % (MAX_UINT64 + 1)
  }

  function Decide(c: CommitCandidate): Option<CommitDecision> {
    if c.blockHash == ZeroHash || c.parentHash == ZeroHash || c.grandparentHash == ZeroHash then None
    else if c.blockQC.blockHash != c.parentHash then None
    else if c.parentQC.blockHash != c.grandparentHash then None
    else if c.blockHeight == 0 || c.parentHeight == 0 || c.grandparentHeight == 0 || c.blockQC.height == 0 || c.parentQC.height == 0
      then None
    else if c.blockHeight != Next(c.parentHeight) || c.parentHeight != Next(c.grandparentHeight) ||
            c.blockQC.height != c.parentHeight || c.parentQC.height != c.grandparentHeight then None
    else Some(CommitDecision(c.grandparentHeight, c.grandparentHash, c.parentQC))
  }

  /** b3 is justified by a certificate for b2, and b2 by the certificate qc for b1, at three heights in a row from n on. */
  ghost predicate ThreeChain(blocks: Blocks, b3: Hash, n: nat, b1: Hash, qc: QuorumCert) {
    b3 in blocks && blocks[b3].justifyQC.blockHash in blocks &&
    var b2 := blocks[b3].justifyQC.blockHash;
    blocks[b3].block.header.height == n + 2 && blocks[b3].justifyQC.height == n + 1 &&
    blocks[b2].block.header.height == n + 1 && blocks[b2].justifyQC == qc &&
    qc.height == n > 0 && qc.blockHash == b1 != ZeroHash
  }

  /** The rule decides on b1 exactly for such chains, with the certificate that b2 carries for it. */
  lemma DecisionExactly(blocks: Blocks, b3: Hash, d: CommitDecision)
    requires IsTree(blocks)
    ensures CandidateFor(blocks, b3).Some? && Decide(CandidateFor(blocks, b3).value) == Some(d) <==>
      ThreeChain(blocks, b3, d.committedHeight, d.committedBlockHash, d.commitQC)
  {
    hide HashBlock;
    if b3 in blocks {
      ParentIsShallower(blocks, b3);
      if blocks[b3].justifyQC.blockHash in blocks { ParentIsShallower(blocks, blocks[b3].justifyQC.blockHash); }
    }
  }

  /** A certificate that justifies a block is one for its parent. */
  ghost predicate JustifyLinked(blocks: Blocks) {
    forall h | h in blocks && blocks[h].justifyQC.height > 0 :: blocks[h].justifyQC.blockHash == blocks[h].parentHash
  }

  /** child is a block of the tree whose previous block is the parent. */
  predicate IsChild(blocks: Blocks, child: Hash, parent: Hash) {
    child in blocks && blocks[child].parentHash == parent
  }

  /** Two blocks in a row were built on the hash, at the next two heights. */
  ghost predicate HasTwoDescendants(blocks: Blocks, hash: Hash, height: nat) {
    exists child, grandchild :: IsChild(blocks, child, hash) && IsChild(blocks, grandchild, child) &&
      blocks[child].block.header.height == height + 1 && blocks[grandchild].block.header.height == height + 2
  }

  /** Whatever the rule decides on has two descendants in the tree. */
  lemma DecisionHasDescendants(blocks: Blocks, blockHash: Hash, decision: CommitDecision)
    requires IsTree(blocks) && JustifyLinked(blocks)
    requires CandidateFor(blocks, blockHash).Some? && Decide(CandidateFor(blocks, blockHash).value) == Some(decision)
    ensures decision.committedBlockHash != ZeroHash && decision.committedHeight > 0
    ensures decision.commitQC.blockHash == decision.committedBlockHash && decision.commitQC.height == decision.committedHeight
    ensures HasTwoDescendants(blocks, decision.committedBlockHash, decision.committedHeight)
  {
    var node := blocks[blockHash];
    var parent := blocks[node.justifyQC.blockHash];
    assert IsChild(blocks, parent.hash, decision.committedBlockHash) && IsChild(blocks, blockHash, parent.hash);
  }

  lemma GrowthKeepsDescendants(before: Blocks, after: Blocks, hash: Hash, height: nat)
    requires Grows(before, after) && HasTwoDescendants(before, hash, height)
    ensures HasTwoDescendants(after, hash, height)
  {
    var child, grandchild :| IsChild(before, child, hash) && IsChild(before, grandchild, child) &&
      before[child].block.header.height == height + 1 && before[grandchild].block.header.height == height + 2;
    assert IsChild(after, child, hash) && IsChild(after, grandchild, child);
  }

  // ------------------------------------------------------------------------------- the tree

  datatype TreeError = InvalidBlockCert | BlockNotFound

  class BlockTree {
    var blocks: Blocks
    var highQC: QuorumCert

    ghost predicate Valid()
      reads this`blocks
    {
      IsTree(blocks) && JustifyLinked(blocks)
    }

    constructor ()
      ensures Valid() && blocks == map[] && highQC == NO_CERT
    {
      blocks, highQC := map[], NO_CERT;
    }

    /** The block is in the tree afterwards; a certificate it already had is kept. */
    method Insert(block: Block, blockHash: Hash, justifyQC: QuorumCert)
      requires Valid() && blockHash == HashBlock(block)
      requires justifyQC.height > 0 ==> justifyQC.blockHash == block.header.previousBlockHash
      modifies this
      ensures Valid() && Grows(old(blocks), blocks)
      ensures blocks == old(blocks)[blockHash := BlockNode(block, blockHash, block.header.previousBlockHash, justifyQC,
                if blockHash in old(blocks) then old(blocks)[blockHash].quorumCert else NO_CERT)]
      ensures highQC == Better(justifyQC, old(highQC))
    {
      hide HashBlock;
      var quorumCert := if blockHash in blocks then blocks[blockHash].quorumCert else NO_CERT;
      blocks := blocks[blockHash := BlockNode(block, blockHash, block.header.previousBlockHash, justifyQC, quorumCert)];
      TreesGrow(old(blocks), blocks);
      ObserveQuorumCert(justifyQC);
    }

    /** A certificate is stored only at the block and height it is for. */
    method SetQuorumCert(qc: QuorumCert) returns (err: Option<TreeError>)
      requires Valid()
      modifies this
      ensures Valid() && Grows(old(blocks), blocks)
      ensures err.None? <==> qc.height > 0 && qc.blockHash in old(blocks) &&
                             old(blocks)[qc.blockHash].block.header.height == qc.height
      ensures err == Some(BlockNotFound) <==> qc.height > 0 && qc.blockHash != ZeroHash && qc.blockHash !in old(blocks)
      ensures err.None? ==> blocks == old(blocks)[qc.blockHash := old(blocks)[qc.blockHash].(quorumCert := qc)] &&
                            highQC == Better(qc, old(highQC))
      ensures err.Some? ==> blocks == old(blocks) && highQC == old(highQC)
    {
      hide HashBlock;
      NoZeroBlock();
      if qc.height == 0 || qc.blockHash == ZeroHash { return Some(InvalidBlockCert); }
      if qc.blockHash !in blocks { return Some(BlockNotFound); }
      if blocks[qc.blockHash].block.header.height != qc.height { return Some(InvalidBlockCert); }
      blocks := blocks[qc.blockHash := blocks[qc.blockHash].(quorumCert := qc)];
      TreesGrow(old(blocks), blocks);
      ObserveQuorumCert(qc);
      return None;
    }

    lemma NoZeroBlock()
      requires Valid()
      ensures ZeroHash !in blocks
    {
      if ZeroHash in blocks { ParentIsShallower(blocks, ZeroHash); }
    }

    method ObserveQuorumCert(qc: QuorumCert)
      modifies this`highQC
      ensures highQC == Better(qc, old(highQC))
    {
      if qc.height == 0 || qc.blockHash == ZeroHash { return; }
      if IsBetterQC(qc, highQC) { highQC := qc; }
    }

    /** Terminates and decides ancestry. */
    method Extends(descendant: Hash, ancestor: Hash) returns (extends_: bool)
      requires Valid()
      ensures extends_ <==> ExtendsIn(blocks, descendant, ancestor)
    {
      hide HashBlock;
      if descendant == ZeroHash || ancestor == ZeroHash { return false; }
      var current := descendant;
      while current != ZeroHash
        invariant Reaches(blocks, current, ancestor) == Reaches(blocks, descendant, ancestor)
        decreases Depth(current)
      {
        if current == ancestor { return true; }
        if current !in blocks { return false; }
        ParentIsShallower(blocks, current);
        current := blocks[current].parentHash;
      }
      return false;
    }
  }

  /** The certificate that is kept when another one is observed. */
  function Better(qc: QuorumCert, current: QuorumCert): (kept: QuorumCert)
    ensures NotBelow(kept, current) && (kept == qc || kept == current)
    ensures qc.height > 0 && qc.blockHash != ZeroHash ==> NotBelow(kept, qc)
    ensures kept != current ==> qc.height > 0 && qc.blockHash != ZeroHash && !NotBelow(current, qc)
  {
    if qc.height > 0 && qc.blockHash != ZeroHash && IsBetterQC(qc, current) then qc else current
  }
}
