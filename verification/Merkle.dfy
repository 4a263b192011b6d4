/** The Merkle tree over chunks: roots, inclusion paths, and samples checked against a root. */
module Merkle {
  import opened Types
  import opened Chunks
  import opened Sorting

  datatype Sibling = Sibling(hash: Hash, left: bool)

  datatype ChunkProof = ChunkProof(
    commitment: Hash,
    chunkSize: nat,
    chunkCount: nat,
    index: nat,
    data: Bytes,
    path: seq<Sibling>)

  datatype SampleRequest = SampleRequest(commitment: Hash, height: nat, chunkCount: nat, indices: seq<nat>)

  datatype SampleReport = SampleReport(
    commitment: Hash,
    height: nat,
    chunkCount: nat,
    requested: nat,
    verified: nat,
    coverageBPS: nat,
    verifiedIndices: seq<nat>)

  datatype ProofError = InvalidChunkProof | InvalidSampleSet | InsufficientChunks

  // ------------------------------------------------------------------------- roots

  function Leaf(chunk: Chunk): Hash {
    LeafHash(chunk.index, chunk.data)
  }

  function Leaves(chunks: seq<Chunk>): (leaves: seq<Hash>)
    ensures |leaves| == |chunks|
  {
    seq(|chunks|, i requires 0 <= i < |chunks| => Leaf(chunks[i]))
  }

  function Half(n: nat): nat {
    (n + 1) / 2
  }

  /** The parent at position i; a last node without a neighbour is paired with itself. */
  function Parent(level: seq<Hash>, i: nat): Hash
    requires 2 * i < |level|
  {
    NodeHash(level[2 * i], if 2 * i + 1 < |level| then level[2 * i + 1] else level[2 * i])
  }

  function NextLevel(level: seq<Hash>): (next: seq<Hash>)
    ensures |next| == Half(|level|)
  {
    seq(Half(|level|), i requires 0 <= i < Half(|level|) => Parent(level, i))
  }

  function Root(level: seq<Hash>): Hash
    decreases |level|
  {
    if |level| == 0 then ZeroHash
    else if |level| == 1 then level[0]
    else Root(NextLevel(level))
  }

  function Path(level: seq<Hash>, index: nat): seq<Sibling>
    requires index < |level|
    decreases |level|
  {
    if |level| == 1 then [] else [SiblingOf(level, index)] + Path(NextLevel(level), index / 2)
  }

  lemma PathStep(level: seq<Hash>, index: nat)
    requires index < |level|
    ensures |level| == 1 ==> Path(level, index) == []
    ensures |level| > 1 ==> Path(level, index) == [SiblingOf(level, index)] + Path(NextLevel(level), index / 2)
  {}

  /** The neighbour of a node, or the node itself when it has none. */
  function SiblingOf(level: seq<Hash>, index: nat): Sibling
    requires index < |level|
  {
    var mate := if index % 2 == 0 then index + 1 else index - 1;
    var sibling := if mate >= |level| then index else mate;
    Sibling(level[sibling], sibling < index)
  }

  /** The hash reached by climbing a path. */
  function Climb(hash: Hash, path: seq<Sibling>): Hash
    decreases |path|
  {
    if |path| == 0 then hash
    else
      var up := if path[0].left then NodeHash(path[0].hash, hash) else NodeHash(hash, path[0].hash);
      Climb(up, path[1..])
  }

  predicate Accepts(proof: ChunkProof) {
    proof.chunkSize > 0 && proof.chunkCount > 0 && proof.index < proof.chunkCount &&
    |proof.data| <= proof.chunkSize &&
    Climb(Leaf(Chunk(proof.index, proof.data)), proof.path) == proof.commitment
  }

  // ------------------------------------------------------------------ the tree from the top

  /** How many nodes there are so many levels above the leaves. */
  ghost function Width(leaves: nat, height: nat): nat {
    if height == 0 then leaves else (Width(leaves, height - 1) + 1) / 2
  }

  /** A node has the two nodes below it, or the last one twice. */
  ghost function NodeAt(leaves: seq<Hash>, height: nat, i: nat): Hash
    requires i < Width(|leaves|, height)
  {
    if height == 0 then leaves[i]
    else
      var below := Width(|leaves|, height - 1);
      NodeHash(NodeAt(leaves, height - 1, 2 * i), NodeAt(leaves, height - 1, if 2 * i + 1 < below then 2 * i + 1 else below - 1))
  }

  lemma {:induction false} RootOfLevel(leaves: seq<Hash>, level: seq<Hash>, height: nat, top: nat)
    requires |level| == Width(|leaves|, height) && forall i | 0 <= i < |level| :: level[i] == NodeAt(leaves, height, i)
    requires height <= top && Width(|leaves|, top) == 1 && forall h | height <= h < top :: Width(|leaves|, h) > 1
    ensures Root(level) == NodeAt(leaves, top, 0)
    decreases top - height
  {
    if height < top {
      assert |level| > 1;
      var next := NextLevel(level);
      assert |next| == Width(|leaves|, height + 1);
      forall i | 0 <= i < |next| ensures next[i] == NodeAt(leaves, height + 1, i) { assert next[i] == Parent(level, i); }
      RootOfLevel(leaves, next, height + 1, top);
    }
  }

  /** The root is the one node of the first level that has only one. */
  lemma RootIsTop(leaves: seq<Hash>, top: nat)
    requires Width(|leaves|, top) == 1 && forall h | 0 <= h < top :: Width(|leaves|, h) > 1
    ensures Root(leaves) == NodeAt(leaves, top, 0)
  {
    RootOfLevel(leaves, leaves, 0, top);
  }

  /** Climbing the path built for a leaf reaches the root. */
  lemma {:induction false} PathReachesRoot(level: seq<Hash>, index: nat)
    requires index < |level|
    ensures Climb(level[index], Path(level, index)) == Root(level)
    decreases |level|
  {
    if |level| > 1 {
      var path := Path(level, index);
      PathReachesRoot(NextLevel(level), index / 2);
      assert path[1..] == Path(NextLevel(level), index / 2);
      assert NextLevel(level)[index / 2] == Parent(level, index / 2);
    }
  }

  predicate Within(hash: Hash, root: Hash) {
    hash == root || (root.NodeHash? && (Within(hash, root.left) || Within(hash, root.right)))
  }

  lemma {:induction false} WithinTransitive(a: Hash, b: Hash, c: Hash)
    requires Within(a, b) && Within(b, c)
    ensures Within(a, c)
    decreases c
  {
    if b != c {
      if Within(b, c.left) { WithinTransitive(a, b, c.left); } else { WithinTransitive(a, b, c.right); }
    }
  }

  lemma {:induction false} ClimbKeepsStart(hash: Hash, path: seq<Sibling>)
    ensures Within(hash, Climb(hash, path))
    decreases |path|
  {
    if |path| > 0 {
      var up := if path[0].left then NodeHash(path[0].hash, hash) else NodeHash(hash, path[0].hash);
      ClimbKeepsStart(up, path[1..]);
      assert Within(hash, up);
      WithinTransitive(hash, up, Climb(up, path[1..]));
    }
  }

  /** A leaf inside the root is inside one of the hashes the root was built from. */
  lemma {:induction false} LeafOfRoot(leaf: Hash, level: seq<Hash>) returns (i: nat)
    requires leaf.LeafHash? && Within(leaf, Root(level))
    ensures i < |level| && Within(leaf, level[i])
    decreases |level|
  {
    if |level| <= 1 {
      i := 0;
    } else {
      var k := LeafOfRoot(leaf, NextLevel(level));
      var parent := Parent(level, k);
      assert NextLevel(level)[k] == parent;
      i := if Within(leaf, parent.left) || 2 * k + 1 >= |level| then 2 * k else 2 * k + 1;
    }
  }

  /** Whatever its path, a proof accepted against the root of a chunk list carries a chunk of that list. */
  lemma AcceptedProofIsGenuine(chunks: seq<Chunk>, proof: ChunkProof)
    requires Accepts(proof) && proof.commitment == Root(Leaves(chunks))
    ensures Chunk(proof.index, proof.data) in chunks
  {
    var leaf := Leaf(Chunk(proof.index, proof.data));
    ClimbKeepsStart(leaf, proof.path);
    var i := LeafOfRoot(leaf, Leaves(chunks));
    assert Leaves(chunks)[i] == Leaf(chunks[i]);
    assert chunks[i] == Chunk(proof.index, proof.data);
  }

  method HashLevel(level: seq<Hash>) returns (next: seq<Hash>)
    ensures next == NextLevel(level)
  {
    next := [];
    var index := 0;
    while index < |level|
      invariant index % 2 == 0 && 0 <= index <= |level| + 1
      invariant |next| == index / 2 && next == NextLevel(level)[..index / 2]
    {
      var left := level[index];
      var right := left;
      if index + 1 < |level| { right := level[index + 1]; }
      assert NodeHash(left, right) == Parent(level, index / 2);
      next := next + [NodeHash(left, right)];
      index := index + 2;
    }
  }

  method MerkleRoot(leaves: seq<Hash>) returns (root: Hash)
    ensures root == Root(leaves)
  {
    if |leaves| == 0 { return ZeroHash; }
    var level := leaves;
    while |level| > 1
      invariant |level| > 0 && Root(level) == Root(leaves)
      decreases |level|
    {
      level := HashLevel(level);
    }
    root := level[0];
  }

  method MerklePath(leaves: seq<Hash>, target: nat) returns (path: seq<Sibling>)
    requires target < |leaves|
    ensures path == Path(leaves, target)
  {
    hide Path, NextLevel;
    path := [];
    var index: nat := target;
    var level := leaves;
    assert path + Path(level, index) == Path(level, index);
    while |level| > 1
      invariant index < |level|
      invariant path + Path(level, index) == Path(leaves, target)
      decreases |level|
    {
      var siblingIndex := if index % 2 == 0 then index + 1 else index - 1;
      if siblingIndex >= |level| { siblingIndex := index; }
      PathStep(level, index);
      path := path + [Sibling(level[siblingIndex], siblingIndex < index)];
      level := HashLevel(level);
      index := index / 2;
    }
    PathStep(level, index);
  }

  method VerifyChunkProof(proof: ChunkProof) returns (ok: bool)
    ensures ok <==> Accepts(proof)
  {
    if proof.chunkSize == 0 || proof.chunkCount == 0 || proof.index >= proof.chunkCount || |proof.data| > proof.chunkSize {
      return false;
    }
    var hash := Leaf(Chunk(proof.index, proof.data));
    ghost var start := hash;
    for k := 0 to |proof.path|
      invariant Climb(start, proof.path) == Climb(hash, proof.path[k..])
    {
      var sibling := proof.path[k];
      assert proof.path[k..][1..] == proof.path[k + 1..];
      if sibling.left {
        hash := NodeHash(sibling.hash, hash);
      } else {
        hash := NodeHash(hash, sibling.hash);
      }
    }
    ok := hash == proof.commitment;
  }

  // ------------------------------------------------------------------ building proofs

  predicate IndexLeq(a: Chunk, b: Chunk) {
    a.index <= b.index
  }

  /** Chunk number i stands at position i. */
  predicate Indexed(chunks: seq<Chunk>) {
    forall i | 0 <= i < |chunks| :: chunks[i].index == i
  }

  predicate Short(chunks: seq<Chunk>, chunkSize: nat) {
    forall i | 0 <= i < |chunks| :: |chunks[i].data| <= chunkSize
  }

  lemma {:induction false} IncreasingIndices(chunks: seq<Chunk>, k: nat)
    requires k < |chunks|
    requires forall i | 0 < i < |chunks| :: chunks[i - 1].index < chunks[i].index
    ensures chunks[k].index >= k
    ensures chunks[|chunks| - 1].index - chunks[k].index >= |chunks| - 1 - k
    decreases |chunks| - k
  {
    Below(chunks, k);
    if k + 1 < |chunks| { IncreasingIndices(chunks, k + 1); }
  }

  lemma {:induction false} Below(chunks: seq<Chunk>, k: nat)
    requires k < |chunks|
    requires forall i | 0 < i < |chunks| :: chunks[i - 1].index < chunks[i].index
    ensures chunks[k].index >= k
  {
    if k > 0 { Below(chunks, k - 1); }
  }

  /** Distinct indices below the length of a sorted list are exactly the positions. */
  lemma IncreasingIsIndexed(chunks: seq<Chunk>)
    requires forall i | 0 < i < |chunks| :: chunks[i - 1].index < chunks[i].index
    requires forall i | 0 <= i < |chunks| :: chunks[i].index < |chunks|
    ensures Indexed(chunks)
  {
    forall i | 0 <= i < |chunks| ensures chunks[i].index == i {
      IncreasingIndices(chunks, i);
    }
  }

  /** The position of `index` in a sorted list, or -1 when the list is not the chunks 0 .. n-1 or holds a long chunk. */
  method FindTarget(ordered: seq<Chunk>, chunkSize: nat, index: nat) returns (targetPosition: int)
    requires Sorted(ordered, IndexLeq) && index < |ordered|
    ensures targetPosition >= 0 <==> Short(ordered, chunkSize) && Indexed(ordered)
    ensures targetPosition >= 0 ==> targetPosition == index
  {
    targetPosition := -1;
    for position := 0 to |ordered|
      invariant forall i | 0 <= i < position :: ordered[i].index < |ordered| && |ordered[i].data| <= chunkSize
      invariant forall i | 0 < i < position :: ordered[i - 1].index < ordered[i].index
      invariant -1 <= targetPosition < position
      invariant targetPosition >= 0 ==> ordered[targetPosition].index == index
      invariant targetPosition < 0 ==> forall i | 0 <= i < position :: ordered[i].index != index
    {
      if ordered[position].index >= |ordered| || |ordered[position].data| > chunkSize {
        return -1;
      }
      if position > 0 && ordered[position - 1].index == ordered[position].index {
        return -1;
      }
      assert position > 0 ==> IndexLeq(ordered[position - 1], ordered[position]);
      if ordered[position].index == index { targetPosition := position; }
    }
    IncreasingIsIndexed(ordered);
    assert ordered[index].index == index;
  }

  /** The proof for one chunk of a list given in any order. */
  method BuildChunkProof(chunks: seq<Chunk>, chunkSize: nat, index: nat) returns (r: Result<ChunkProof, ProofError>)
    ensures r.Ok? <==> index < |chunks| && Short(chunks, chunkSize) && Indexed(Sort(chunks, IndexLeq))
    ensures r.Err? ==> r.error == InvalidChunkProof
    ensures r.Ok? ==> r.value.commitment == Root(Leaves(Sort(chunks, IndexLeq)))
    ensures r.Ok? ==> r.value.index == index && Chunk(index, r.value.data) in chunks
    ensures r.Ok? ==> r.value.chunkSize == chunkSize && r.value.chunkCount == |chunks|
    ensures r.Ok? && chunkSize > 0 ==> Accepts(r.value)
  {
    hide Sort;
    if index >= |chunks| { return Err(InvalidChunkProof); }
    var ordered := Sort(chunks, IndexLeq);
    SortSpec(chunks, IndexLeq);
    SortedShort(chunks, ordered, chunkSize);
    var targetPosition := FindTarget(ordered, chunkSize, index);
    if targetPosition < 0 { return Err(InvalidChunkProof); }
    var leaves := Leaves(ordered);
    var path := MerklePath(leaves, targetPosition);
    var root := MerkleRoot(leaves);
    PathReachesRoot(leaves, targetPosition);
    assert ordered[index] in multiset(ordered);
    r := Ok(ChunkProof(root, chunkSize, |ordered|, index, ordered[targetPosition].data, path));
  }

  lemma SortedShort(chunks: seq<Chunk>, ordered: seq<Chunk>, chunkSize: nat)
    requires multiset(chunks) == multiset(ordered)
    ensures Short(chunks, chunkSize) <==> Short(ordered, chunkSize)
  {
    if Short(chunks, chunkSize) {
      forall i | 0 <= i < |ordered| ensures |ordered[i].data| <= chunkSize {
        assert ordered[i] in multiset(chunks);
      }
    } else {
      var i :| 0 <= i < |chunks| && |chunks[i].data| > chunkSize;
      assert chunks[i] in multiset(ordered);
    }
  }

  // ------------------------------------------------------------------------- samples

  predicate NatLeq(a: nat, b: nat) {
    a <= b
  }

  function Indices(proofs: seq<ChunkProof>): (indices: seq<nat>)
    ensures |indices| == |proofs|
  {
    seq(|proofs|, i requires 0 <= i < |proofs| => proofs[i].index)
  }

  predicate ValidRequest(request: SampleRequest) {
    request.commitment != ZeroHash && request.height > 0 && request.chunkCount > 0 && |request.indices| > 0 &&
    (forall i | 0 <= i < |request.indices| :: request.indices[i] < request.chunkCount) &&
    Distinct(request.indices)
  }

  predicate Matches(request: SampleRequest, proof: ChunkProof) {
    proof.commitment == request.commitment && proof.chunkCount == request.chunkCount &&
    proof.index in request.indices && Accepts(proof)
  }

  predicate AllMatch(request: SampleRequest, proofs: seq<ChunkProof>) {
    (forall i | 0 <= i < |proofs| :: Matches(request, proofs[i])) && Distinct(Indices(proofs))
  }

  lemma SameSize(a: set<nat>, b: set<nat>)
    requires a <= b && |a| == |b|
    ensures a == b
  {
    assert |b - a| == 0;
    assert b == a + (b - a);
  }

  method SortedElements(elements: set<nat>) returns (indices: seq<nat>)
    ensures Sorted(indices, NatLeq) && multiset(indices) == multiset(elements)
  {
    var listed: seq<nat> := [];
    var rest := elements;
    while rest != {}
      invariant multiset(listed) + multiset(rest) == multiset(elements)
      decreases |rest|
    {
      var x :| x in rest;
      rest := rest - {x};
      listed := listed + [x];
    }
    SortSpec(listed, NatLeq);
    indices := Sort(listed, NatLeq);
  }

  method RequestedIndices(request: SampleRequest) returns (r: Option<set<nat>>)
    ensures r.Some? <==> ValidRequest(request)
    ensures r.Some? ==> r.value == Elements(request.indices)
  {
    if request.commitment == ZeroHash || request.height == 0 || request.chunkCount == 0 || |request.indices| == 0 {
      return None;
    }
    var requested: set<nat> := {};
    for k := 0 to |request.indices|
      invariant forall i | 0 <= i < k :: request.indices[i] < request.chunkCount
      invariant Distinct(request.indices[..k])
      invariant requested == Elements(request.indices[..k])
    {
      var index := request.indices[k];
      if index >= request.chunkCount { return None; }
      assert request.indices[..k + 1] == request.indices[..k] + [index];
      if index in requested {
        var i :| 0 <= i < k && request.indices[..k][i] == index;
        assert request.indices[i] == request.indices[k];
        return None;
      }
      assert Distinct(request.indices[..k + 1]);
      assert Elements(request.indices[..k + 1]) == requested + {index};
      requested := requested + {index};
    }
    assert request.indices[..|request.indices|] == request.indices;
    r := Some(requested);
  }

  lemma ElementsAppend(s: seq<nat>, x: nat)
    ensures Elements(s + [x]) == Elements(s) + {x}
  {
    var t := s + [x];
    assert t[|s|] == x && forall i | 0 <= i < |s| :: t[i] == s[i];
  }

  lemma OneMoreMatch(request: SampleRequest, proofs: seq<ChunkProof>, k: nat)
    requires k < |proofs| && AllMatch(request, proofs[..k])
    ensures Elements(Indices(proofs[..k + 1])) == Elements(Indices(proofs[..k])) + {proofs[k].index}
    ensures Matches(request, proofs[k]) && proofs[k].index !in Elements(Indices(proofs[..k]))
            ==> AllMatch(request, proofs[..k + 1])
    ensures proofs[k].index in Elements(Indices(proofs[..k])) ==> !AllMatch(request, proofs)
  {
    hide Matches;
    var before, after, all := Indices(proofs[..k]), Indices(proofs[..k + 1]), Indices(proofs);
    assert after == before + [proofs[k].index];
    ElementsAppend(before, proofs[k].index);
    if proofs[k].index in Elements(before) {
      var i :| 0 <= i < k && before[i] == proofs[k].index;
      assert all[i] == before[i] && all[k] == proofs[k].index;
      assert !Distinct(all);
    } else if Matches(request, proofs[k]) {
      forall i, j | 0 <= i < j < |after| ensures after[i] != after[j] {
        if j == k { assert before[i] in Elements(before); }
      }
    }
  }

  /** The indices of proofs that all match the request; otherwise the first failure. */
  method MatchedIndices(request: SampleRequest, proofs: seq<ChunkProof>, requested: set<nat>)
    returns (r: Result<set<nat>, ProofError>)
    requires ValidRequest(request) && requested == Elements(request.indices)
    ensures r.Ok? <==> AllMatch(request, proofs)
    ensures r.Ok? ==> r.value == Elements(Indices(proofs))
    ensures r.Err? ==> r.error != InsufficientChunks
  {
    hide AllMatch, Indices, Accepts;
    var verified: set<nat> := {};
    NothingMatched(request, proofs);
    for k := 0 to |proofs|
      invariant AllMatch(request, proofs[..k]) && verified == Elements(Indices(proofs[..k]))
    {
      var proof := proofs[k];
      OneMoreMatch(request, proofs, k);
      if proof.commitment != request.commitment || proof.chunkCount != request.chunkCount || proof.index >= request.chunkCount {
        NotAllMatch(request, proofs, k);
        return Err(InvalidSampleSet);
      }
      if proof.index !in requested {
        NotAllMatch(request, proofs, k);
        return Err(InvalidSampleSet);
      }
      if proof.index in verified { return Err(InvalidSampleSet); }
      var valid := VerifyChunkProof(proof);
      if !valid {
        NotAllMatch(request, proofs, k);
        return Err(InvalidChunkProof);
      }
      verified := verified + {proof.index};
    }
    assert proofs[..|proofs|] == proofs;
    r := Ok(verified);
  }

  lemma NothingMatched(request: SampleRequest, proofs: seq<ChunkProof>)
    ensures AllMatch(request, proofs[..0]) && Elements(Indices(proofs[..0])) == {}
  {}

  lemma MatchedCount(request: SampleRequest, proofs: seq<ChunkProof>)
    requires ValidRequest(request) && AllMatch(request, proofs)
    ensures Elements(Indices(proofs)) <= Elements(request.indices)
    ensures |Elements(Indices(proofs))| == |proofs| && |Elements(request.indices)| == |request.indices|
  {
    hide Accepts;
    DistinctMultiset(request.indices);
    DistinctMultiset(Indices(proofs));
    forall i | 0 <= i < |proofs| ensures Indices(proofs)[i] in Elements(request.indices) {
      assert Matches(request, proofs[i]);
    }
  }

  lemma SortedOnce(indices: seq<nat>, sorted: seq<nat>)
    requires Distinct(indices) && Sorted(sorted, NatLeq) && multiset(sorted) == multiset(Elements(indices))
    ensures sorted == Sort(indices, NatLeq) && |sorted| == |indices|
  {
    DistinctMultiset(indices);
    SortSpec(indices, NatLeq);
    SortedUnique(sorted, Sort(indices, NatLeq), NatLeq);
  }

  method VerifySamples(request: SampleRequest, proofs: seq<ChunkProof>) returns (r: Result<SampleReport, ProofError>)
    ensures r.Ok? <==> ValidRequest(request) && AllMatch(request, proofs) && |proofs| == |request.indices|
    ensures r == Err(InsufficientChunks) <==>
            ValidRequest(request) && AllMatch(request, proofs) && |proofs| != |request.indices|
    ensures r.Ok? ==> r.value == SampleReport(
      request.commitment, request.height, request.chunkCount, |proofs|, |proofs|,
      |proofs| * 10000 / request.chunkCount, Sort(request.indices, NatLeq))
  {
    hide AllMatch, Sort, Sorted, Elements, Distinct;
    var wanted := RequestedIndices(request);
    if wanted.None? { return Err(InvalidSampleSet); }
    var requested := wanted.value;
    var matched := MatchedIndices(request, proofs, requested);
    if matched.Err? { return Err(matched.error); }
    var verified := matched.value;
    MatchedCount(request, proofs);
    if |verified| != |requested| { return Err(InsufficientChunks); }
    SameSize(verified, requested);
    var indices := SortedElements(verified);
    SortedOnce(request.indices, indices);
    r := Ok(SampleReport(request.commitment, request.height, request.chunkCount,
                         |request.indices|, |indices|, |indices| * 10000 / request.chunkCount, indices));
  }

  lemma NotAllMatch(request: SampleRequest, proofs: seq<ChunkProof>, k: nat)
    requires k < |proofs| && !Matches(request, proofs[k])
    ensures !AllMatch(request, proofs)
  {}

  /** A sample report accepted against the root of a chunk list covers every requested index with that list's data. */
  lemma SamplesAreGenuine(chunks: seq<Chunk>, request: SampleRequest, proofs: seq<ChunkProof>, k: nat)
    returns (p: nat)
    requires Indexed(chunks) && request.commitment == Root(Leaves(chunks))
    requires ValidRequest(request) && AllMatch(request, proofs) && |proofs| == |request.indices|
    requires k in request.indices
    ensures p < |proofs| && proofs[p].index == k && k < |chunks| && proofs[p].data == chunks[k].data
  {
    hide Accepts, Root, Leaves;
    MatchedCount(request, proofs);
    SameSize(Elements(Indices(proofs)), Elements(request.indices));
    assert k in Elements(Indices(proofs));
    p :| 0 <= p < |proofs| && Indices(proofs)[p] == k;
    assert Matches(request, proofs[p]);
    AcceptedProofIsGenuine(chunks, proofs[p]);
  }
}
