/** Committing to transactions and recovering them from any sufficient set of chunks. */
module Availability {
  import opened Types
  import opened Chunks
  import opened Erasure
  import opened Matrix
  import opened Sorting
  import opened Merkle
  import GF256
  import TxCodec
  import Vandermonde

  const MAX_SHARDS: nat := 255

  datatype Proof = Proof(
    commitment: Hash,
    txCount: nat,
    totalBytes: nat,
    encodedSize: nat,
    chunkSize: nat,
    chunkCount: nat,
    dataShards: nat,
    parityShards: nat,
    parityCount: nat)

  datatype Failure =
    | InvalidDataShards
    | InvalidParityShards
    | InvalidSize
    | InvalidProof
    | TooManyMissing
    | TooFewChunks
    | CommitmentMismatch
    | InvalidEncoding

  // ---------------------------------------------------------------------- commitments

  lemma {:induction false} SortedIsFixed(chunks: seq<Chunk>)
    requires Indexed(chunks) || Sorted(chunks, IndexLeq)
    ensures Sort(chunks, IndexLeq) == chunks
  {
    if |chunks| > 0 {
      assert Sorted(chunks, IndexLeq);
      SortedIsFixed(chunks[1..]);
      assert chunks == [chunks[0]] + chunks[1..];
    }
  }

  method ChunkRoot(chunks: seq<Chunk>) returns (root: Hash)
    ensures root == Root(Leaves(Sort(chunks, IndexLeq)))
  {
    root := MerkleRoot(Leaves(Sort(chunks, IndexLeq)));
  }

  /** Two lists of the same length with the same root are the same list. */
  lemma {:induction false} RootInjective(a: seq<Hash>, b: seq<Hash>)
    requires |a| == |b| && Root(a) == Root(b)
    ensures a == b
    decreases |a|
  {
    if |a| > 1 {
      RootInjective(NextLevel(a), NextLevel(b));
      forall i | 0 <= i < |a| ensures a[i] == b[i] {
        assert NextLevel(a)[i / 2] == NextLevel(b)[i / 2];
      }
    }
  }

  lemma LeavesInjective(a: seq<Chunk>, b: seq<Chunk>)
    requires Leaves(a) == Leaves(b)
    ensures a == b
  {
    forall i | 0 <= i < |a| ensures a[i] == b[i] {
      assert Leaves(a)[i] == Leaves(b)[i];
    }
  }

  function TotalBytes(txs: seq<Bytes>): nat {
    if |txs| == 0 then 0 else TotalBytes(txs[..|txs| - 1]) + |txs[|txs| - 1]|
  }

  function GroupCount(chunkCount: nat, dataShards: nat): nat {
    if chunkCount == 0 || dataShards == 0 then 0 else (chunkCount + dataShards - 1) / dataShards
  }

  function ProofOf(txs: seq<Bytes>, chunkSize: nat, dataShards: nat, parityShards: nat): Proof
    requires chunkSize > 0
  {
    var encoded := TxCodec.Encode(txs);
    var chunks := Split(encoded, chunkSize);
    Proof(Root(Leaves(chunks)), |txs|, TotalBytes(txs), |encoded|, chunkSize, |chunks|,
          dataShards, parityShards, GroupCount(|chunks|, dataShards) * parityShards)
  }

  /** The proof commits to `encoded`. */
  ghost predicate ProofFor(proof: Proof, encoded: Bytes) {
    0 < proof.dataShards <= MAX_SHARDS && 0 < proof.parityShards <= MAX_SHARDS && proof.chunkSize > 0 &&
    |encoded| > 0 && proof.encodedSize == |encoded| &&
    proof.chunkCount == Count(|encoded|, proof.chunkSize) &&
    proof.parityCount == GroupCount(proof.chunkCount, proof.dataShards) * proof.parityShards &&
    proof.commitment == Root(Leaves(Split(encoded, proof.chunkSize)))
  }

  method BuildProof(txs: seq<Bytes>, chunkSize: nat, dataShards: nat, parityShards: nat) returns (r: Result<Proof, Failure>)
    ensures r.Ok? <==> 0 < dataShards <= MAX_SHARDS && 0 < parityShards <= MAX_SHARDS && 0 < chunkSize <= MAX_INT
    ensures r.Ok? ==> r.value == ProofOf(txs, chunkSize, dataShards, parityShards) && ProofFor(r.value, TxCodec.Encode(txs))
    ensures dataShards == 0 || dataShards > MAX_SHARDS ==> r == Err(InvalidDataShards)
  {
    hide Sort, Root, Leaves;
    if dataShards == 0 || dataShards > MAX_SHARDS { return Err(InvalidDataShards); }
    if parityShards == 0 || parityShards > MAX_SHARDS { return Err(InvalidParityShards); }
    var totalBytes := 0;
    for i := 0 to |txs|
      invariant totalBytes == TotalBytes(txs[..i])
    {
      assert txs[..i + 1][..i] == txs[..i];
      totalBytes := totalBytes + |txs[i]|;
    }
    assert txs[..|txs|] == txs;
    var encoded := TxCodec.EncodeTransactions(txs);
    var split := SplitChunks(encoded, chunkSize);
    if split.Err? { return Err(InvalidSize); }
    var chunks := split.value;
    SortedIsFixed(chunks);
    var root := ChunkRoot(chunks);
    r := Ok(Proof(root, |txs|, totalBytes, |encoded|, chunkSize, |chunks|, dataShards, parityShards,
                  GroupCount(|chunks|, dataShards) * parityShards));
  }

  // --------------------------------------------------------------------------- parity

  function GroupEnd(chunkCount: nat, dataShards: nat, group: nat): nat {
    Min(group * dataShards + dataShards, chunkCount)
  }

  lemma GroupBounds(chunkCount: nat, dataShards: nat, group: nat)
    requires group < GroupCount(chunkCount, dataShards)
    ensures group * dataShards < GroupEnd(chunkCount, dataShards, group) <= chunkCount
    ensures group == GroupCount(chunkCount, dataShards) - 1 ==> GroupEnd(chunkCount, dataShards, group) == chunkCount
    ensures group < GroupCount(chunkCount, dataShards) - 1 ==>
            GroupEnd(chunkCount, dataShards, group) == (group + 1) * dataShards
  {
    var groups := GroupCount(chunkCount, dataShards);
    CountBounds(chunkCount, dataShards);
    assert Count(chunkCount, dataShards) == groups;
    assert (group + 1) * dataShards == group * dataShards + dataShards;
    ProductMonotone(group, groups - 1, dataShards);
    if group < groups - 1 { ProductMonotone(group + 1, groups - 1, dataShards); }
    assert (groups - 1) * dataShards + dataShards == groups * dataShards;
  }

  /** The padded chunks of one group. */
  function GroupVectors(chunks: seq<Chunk>, size: nat, start: nat, end: nat): (r: seq<Bytes>)
    requires start <= end <= |chunks|
    ensures |r| == end - start && Uniform(r, size)
  {
    var r := seq(end - start, i requires 0 <= i < end - start => Padded(chunks[start + i].data, size));
    assert forall i | 0 <= i < end - start :: r[i] == Padded(chunks[start + i].data, size);
    r
  }

  function ParityChunk(chunks: seq<Chunk>, size: nat, dataShards: nat, parityShards: nat, index: nat): (chunk: Chunk)
    requires parityShards > 0 && index / parityShards < GroupCount(|chunks|, dataShards)
    ensures chunk.index == index && |chunk.data| == size
  {
    var group := index / parityShards;
    GroupBounds(|chunks|, dataShards, group);
    var vectors := GroupVectors(chunks, size, group * dataShards, GroupEnd(|chunks|, dataShards, group));
    Chunk(index, ParityOf(vectors, size, index % parityShards))
  }

  lemma IndexOf(group: nat, shard: nat, parityShards: nat)
    requires shard < parityShards
    ensures (group * parityShards + shard) / parityShards == group
    ensures (group * parityShards + shard) % parityShards == shard
  {
    var index := group * parityShards + shard;
    var q, r := index / parityShards, index % parityShards;
    assert index == q * parityShards + r;
    if q < group {
      ProductMonotone(q + 1, group, parityShards);
    } else if q > group {
      ProductMonotone(group + 1, q, parityShards);
    }
  }

  method ParityBuffer(chunks: seq<Chunk>, size: nat, start: nat, end: nat, shard: nat) returns (data: Bytes)
    requires start <= end <= |chunks|
    ensures data == ParityOf(GroupVectors(chunks, size, start, end), size, shard)
  {
    hide AddScaled, Padded, GF256.Pow, Point;
    ghost var vectors := GroupVectors(chunks, size, start, end);
    var x := Point(shard);
    var buffer := new Byte[size](_ => 0);
    assert buffer[..] == Zeros(size);
    for index := start to end
      invariant buffer[..] == Combine(Powers(x, |vectors|), vectors, index - start, size)
    {
      assert vectors[index - start] == Padded(chunks[index].data, size);
      XorMulInto(buffer, Padded(chunks[index].data, size), GF256.Pow(x, index - start));
    }
    data := buffer[..];
  }

  /** The list starts with the parity chunks of the data, in order. */
  ghost predicate IsParity(parity: seq<Chunk>, chunks: seq<Chunk>, chunkSize: nat, dataShards: nat, parityShards: nat)
    requires parityShards > 0
  {
    forall k | 0 <= k < |parity| ::
      k / parityShards < GroupCount(|chunks|, dataShards) && parity[k] == ParityChunk(chunks, chunkSize, dataShards, parityShards, k)
  }

  lemma ParityNext(parity: seq<Chunk>, chunks: seq<Chunk>, chunkSize: nat, dataShards: nat, parityShards: nat, group: nat, shard: nat)
    requires shard < parityShards && group < GroupCount(|chunks|, dataShards) && |parity| == group * parityShards + shard
    requires IsParity(parity, chunks, chunkSize, dataShards, parityShards)
    ensures group * dataShards <= GroupEnd(|chunks|, dataShards, group) <= |chunks|
    ensures var vectors := GroupVectors(chunks, chunkSize, group * dataShards, GroupEnd(|chunks|, dataShards, group));
      IsParity(parity + [Chunk(group * parityShards + shard, ParityOf(vectors, chunkSize, shard))],
               chunks, chunkSize, dataShards, parityShards)
  {
    hide ParityOf, GroupVectors, GroupCount, GroupEnd;
    GroupBounds(|chunks|, dataShards, group);
    IndexOf(group, shard, parityShards);
  }

  // ------------------------------------------------------------------ parity, byte by byte

  /** The field sum of what the n chunks from `start` on have at a position, each times its power of x. A chunk that ends
      before the position, or is not there, adds nothing. */
  ghost function SkippingSum(chunks: seq<Chunk>, start: nat, n: nat, x: Byte, position: nat): Byte {
    if n == 0 then 0
    else
      var before := SkippingSum(chunks, start, n - 1, x, position);
      if start + n - 1 < |chunks| && position < |chunks[start + n - 1].data|
      then GF256.Add(before, GF256.Product(GF256.Iterated(x, n - 1), chunks[start + n - 1].data[position]))
      else before
  }

  /** The chunk is the parity of the data chunks from `start` on, for a shard whose point is one more than its number. */
  ghost predicate SummedUp(chunk: Chunk, index: nat, chunks: seq<Chunk>, size: nat, start: nat, dataShards: nat, shard: nat) {
    chunk.index == index && |chunk.data| == size &&
    forall p | 0 <= p < size :: chunk.data[p] == SkippingSum(chunks, start, dataShards, ((shard + 1) % 256) as Byte, p)
  }

  lemma {:induction false} CombineSkips(chunks: seq<Chunk>, size: nat, start: nat, end: nat, x: Byte, n: nat, position: nat)
    requires start <= end <= |chunks| && n <= end - start && position < size
    ensures Combine(Powers(x, end - start), GroupVectors(chunks, size, start, end), n, size)[position] ==
            SkippingSum(chunks, start, n, x, position)
  {
    hide GF256.Mul, GF256.Add, GF256.Pow, GF256.Product, GF256.Iterated;
    if n == 0 {
      assert Zeros(size)[position] == 0;
    } else {
      CombineSkips(chunks, size, start, end, x, n - 1, position);
      var vectors, data := GroupVectors(chunks, size, start, end), chunks[start + n - 1].data;
      var before, c := SkippingSum(chunks, start, n - 1, x, position), GF256.Pow(x, n - 1);
      assert vectors[n - 1] == Padded(data, size);
      GF256.PowIsIterated(x, n - 1);
      if position < |data| {
        GF256.MulIsProduct(c, data[position]);
      } else {
        GF256.MulNonZero(c, 0);
        GF256.AddLaws(before, 0, 0);
      }
    }
  }

  lemma {:induction false} NothingAfterEnd(chunks: seq<Chunk>, start: nat, n: nat, more: nat, x: Byte, position: nat)
    requires n <= more && start + n >= |chunks|
    ensures SkippingSum(chunks, start, more, x, position) == SkippingSum(chunks, start, n, x, position)
  {
    hide GF256.Add, GF256.Product, GF256.Iterated;
    if n < more { NothingAfterEnd(chunks, start, n, more - 1, x, position); }
  }

  lemma ParitySums(chunks: seq<Chunk>, size: nat, start: nat, end: nat, dataShards: nat, shard: nat, index: nat)
    requires start <= end <= |chunks| && end <= start + dataShards && (end == start + dataShards || end == |chunks|)
    ensures SummedUp(Chunk(index, ParityOf(GroupVectors(chunks, size, start, end), size, shard)), index, chunks, size, start, dataShards, shard)
  {
    hide Combine, SkippingSum, GroupVectors, Powers;
    var x, data := Point(shard), ParityOf(GroupVectors(chunks, size, start, end), size, shard);
    forall p | 0 <= p < size ensures data[p] == SkippingSum(chunks, start, dataShards, x, p) {
      CombineSkips(chunks, size, start, end, x, end - start, p);
      if end < start + dataShards { NothingAfterEnd(chunks, start, end - start, dataShards, x, p); }
    }
  }

  /** The first data chunk of the group that parity chunk k belongs to. */
  ghost function GroupStart(k: nat, dataShards: nat, parityShards: nat): nat
    requires parityShards > 0
  {
    var group: nat := k / parityShards;
    group * dataShards
  }

  /** Parity chunk k is that of shard k % parityShards and group k / parityShards. */
  ghost predicate AllSummedUp(parity: seq<Chunk>, chunks: seq<Chunk>, size: nat, dataShards: nat, parityShards: nat)
    requires parityShards > 0
  {
    forall k | 0 <= k < |parity| ::
      SummedUp(parity[k], k, chunks, size, GroupStart(k, dataShards, parityShards), dataShards, k % parityShards)
  }

  lemma SummedNext(parity: seq<Chunk>, chunks: seq<Chunk>, size: nat, dataShards: nat, parityShards: nat, group: nat, shard: nat, end: nat)
    requires shard < parityShards && |parity| == group * parityShards + shard && AllSummedUp(parity, chunks, size, dataShards, parityShards)
    requires group * dataShards <= end <= |chunks| && end == Min(group * dataShards + dataShards, |chunks|)
    ensures AllSummedUp(parity + [Chunk(|parity|, ParityOf(GroupVectors(chunks, size, group * dataShards, end), size, shard))],
                        chunks, size, dataShards, parityShards)
  {
    hide SummedUp, ParityOf, GroupVectors;
    IndexOf(group, shard, parityShards);
    ParitySums(chunks, size, group * dataShards, end, dataShards, shard, |parity|);
  }

  /** All parity chunks, group by group and shard by shard. */
  method ReedSolomonParity(chunks: seq<Chunk>, chunkSize: nat, dataShards: nat, parityShards: nat) returns (parity: seq<Chunk>)
    ensures |parity| == GroupCount(|chunks|, dataShards) * parityShards
    ensures parityShards > 0 ==> IsParity(parity, chunks, chunkSize, dataShards, parityShards)
    ensures parityShards > 0 ==> AllSummedUp(parity, chunks, chunkSize, dataShards, parityShards)
  {
    hide ParityOf, GroupVectors, IsParity, AllSummedUp;
    parity := [];
    var groupCount := GroupCount(|chunks|, dataShards);
    if parityShards > 0 { NoParityYet(chunks, chunkSize, dataShards, parityShards); }
    if |chunks| == 0 || dataShards == 0 || parityShards == 0 { return; }
    for group := 0 to groupCount
      invariant |parity| == group * parityShards && IsParity(parity, chunks, chunkSize, dataShards, parityShards)
      invariant AllSummedUp(parity, chunks, chunkSize, dataShards, parityShards)
    {
      var start := group * dataShards;
      var end := start + dataShards;
      if end > |chunks| { end := |chunks|; }
      for shard := 0 to parityShards
        invariant |parity| == group * parityShards + shard && IsParity(parity, chunks, chunkSize, dataShards, parityShards)
        invariant AllSummedUp(parity, chunks, chunkSize, dataShards, parityShards)
      {
        ParityNext(parity, chunks, chunkSize, dataShards, parityShards, group, shard);
        SummedNext(parity, chunks, chunkSize, dataShards, parityShards, group, shard, end);
        var buffer := ParityBuffer(chunks, chunkSize, start, end, shard);
        parity := parity + [Chunk(group * parityShards + shard, buffer)];
      }
      assert (group + 1) * parityShards == group * parityShards + parityShards;
    }
  }

  lemma NoParityYet(chunks: seq<Chunk>, chunkSize: nat, dataShards: nat, parityShards: nat)
    requires parityShards > 0
    ensures IsParity([], chunks, chunkSize, dataShards, parityShards) && AllSummedUp([], chunks, chunkSize, dataShards, parityShards)
  {}

  // ------------------------------------------------------------------------- recovery

  predicate DistinctIndices(chunks: seq<Chunk>) {
    forall i, j | 0 <= i < j < |chunks| :: chunks[i].index != chunks[j].index
  }

  /** What the decoder remembers of a list of data chunks. */
  function DataMap(chunks: seq<Chunk>): map<nat, Bytes> {
    if |chunks| == 0 then map[]
    else DataMap(chunks[..|chunks| - 1])[chunks[|chunks| - 1].index := chunks[|chunks| - 1].data]
  }

  /** The parity shards held for one group. */
  function ParityMap(parity: seq<Chunk>, parityShards: nat, group: nat): map<nat, Bytes>
    requires parityShards > 0
  {
    if |parity| == 0 then map[]
    else
      var before, last := ParityMap(parity[..|parity| - 1], parityShards, group), parity[|parity| - 1];
      if last.index / parityShards == group then before[last.index % parityShards := last.data] else before
  }

  lemma {:induction false} DataMapKeys(chunks: seq<Chunk>)
    ensures forall i | 0 <= i < |chunks| :: chunks[i].index in DataMap(chunks)
    ensures forall k | k in DataMap(chunks) :: Chunk(k, DataMap(chunks)[k]) in chunks
  {
    if |chunks| > 0 {
      var init := chunks[..|chunks| - 1];
      DataMapKeys(init);
      assert chunks == init + [chunks[|chunks| - 1]];
      forall i | 0 <= i < |chunks| ensures chunks[i].index in DataMap(chunks) {
        if i < |init| { assert init[i] == chunks[i]; }
      }
    }
  }

  lemma {:induction false} ParityMapKeys(parity: seq<Chunk>, parityShards: nat, group: nat)
    requires parityShards > 0
    ensures forall s | s in ParityMap(parity, parityShards, group) :: s < parityShards
    ensures forall s | s in ParityMap(parity, parityShards, group) ::
      Chunk(group * parityShards + s, ParityMap(parity, parityShards, group)[s]) in parity
  {
    if |parity| > 0 {
      var init, last := parity[..|parity| - 1], parity[|parity| - 1];
      ParityMapKeys(init, parityShards, group);
      assert last.index == (last.index / parityShards) * parityShards + last.index % parityShards;
      assert parity == init + [last];
    }
  }

  lemma {:induction false} ParityMapHas(parity: seq<Chunk>, parityShards: nat, i: nat)
    requires parityShards > 0 && i < |parity|
    ensures parity[i].index % parityShards in ParityMap(parity, parityShards, parity[i].index / parityShards)
  {
    if i < |parity| - 1 {
      assert parity[..|parity| - 1][i] == parity[i];
      ParityMapHas(parity[..|parity| - 1], parityShards, i);
    }
  }

  predicate DataInRange(chunks: seq<Chunk>, chunkCount: nat, size: nat) {
    forall i | 0 <= i < |chunks| :: chunks[i].index < chunkCount && |chunks[i].data| <= size
  }

  predicate ParityInRange(parity: seq<Chunk>, groupCount: nat, parityShards: nat, size: nat)
    requires parityShards > 0
  {
    forall i | 0 <= i < |parity| :: parity[i].index / parityShards < groupCount && |parity[i].data| == size
  }

  /** One more chunk: how the map grows, and when its index is new. */
  lemma DataStep(chunks: seq<Chunk>, k: nat)
    requires k < |chunks|
    ensures DataMap(chunks[..k + 1]) == DataMap(chunks[..k])[chunks[k].index := chunks[k].data]
    ensures DistinctIndices(chunks[..k + 1]) <==> DistinctIndices(chunks[..k]) && chunks[k].index !in DataMap(chunks[..k])
  {
    hide DistinctIndices;
    var init := chunks[..k];
    assert chunks[..k + 1][..k] == init;
    DistinctStep(chunks, k);
    DataMapKeys(init);
    forall i | 0 <= i < k ensures chunks[i].index in DataMap(init) { assert init[i] == chunks[i]; }
    if chunks[k].index in DataMap(init) {
      var i :| 0 <= i < k && init[i].index == chunks[k].index;
      assert chunks[i].index == chunks[k].index;
    }
  }

  lemma PrefixDistinct(chunks: seq<Chunk>, k: nat)
    requires k <= |chunks| && DistinctIndices(chunks)
    ensures DistinctIndices(chunks[..k])
  {}

  method CollectData(chunks: seq<Chunk>, chunkCount: nat, size: nat) returns (r: Option<map<nat, Bytes>>)
    ensures r.Some? <==> DataInRange(chunks, chunkCount, size) && DistinctIndices(chunks)
    ensures r.Some? ==> r.value == DataMap(chunks)
  {
    hide DataMap, DistinctIndices;
    var data: map<nat, Bytes> := map[];
    NoChunks();
    assert chunks[..0] == [];
    for k := 0 to |chunks|
      invariant data == DataMap(chunks[..k]) && DistinctIndices(chunks[..k])
      invariant DataInRange(chunks[..k], chunkCount, size)
    {
      var chunk := chunks[k];
      DataStep(chunks, k);
      if chunk.index >= chunkCount || |chunk.data| > size { return None; }
      if chunk.index in data {
        if DistinctIndices(chunks) { PrefixDistinct(chunks, k + 1); }
        return None;
      }
      data := data[chunk.index := chunk.data];
    }
    assert chunks[..|chunks|] == chunks;
    r := Some(data);
  }

  lemma NoChunks()
    ensures DataMap([]) == map[] && DistinctIndices([])
  {}

  function Lookup(byGroup: map<nat, map<nat, Bytes>>, group: nat): map<nat, Bytes> {
    if group in byGroup then byGroup[group] else map[]
  }

  /** The maps of all groups at once. */
  ghost predicate ByGroup(byGroup: map<nat, map<nat, Bytes>>, parity: seq<Chunk>, parityShards: nat)
    requires parityShards > 0
  {
    forall g: nat :: Lookup(byGroup, g) == ParityMap(parity, parityShards, g)
  }

  lemma DistinctStep(chunks: seq<Chunk>, k: nat)
    requires k < |chunks|
    ensures DistinctIndices(chunks[..k + 1]) <==>
      DistinctIndices(chunks[..k]) && forall i | 0 <= i < k :: chunks[i].index != chunks[k].index
  {
    var init, more := chunks[..k], chunks[..k + 1];
    forall i | 0 <= i < k ensures init[i] == chunks[i] == more[i] {}
    if DistinctIndices(more) {
      forall i, j | 0 <= i < j < k ensures init[i].index != init[j].index { assert more[i].index != more[j].index; }
      forall i | 0 <= i < k ensures chunks[i].index != chunks[k].index { assert more[i].index != more[k].index; }
    }
  }

  lemma HeldShards(parity: seq<Chunk>, k: nat, parityShards: nat)
    requires parityShards > 0 && k < |parity|
    ensures var group, shard := parity[k].index / parityShards, parity[k].index % parityShards;
      shard in ParityMap(parity[..k], parityShards, group) <==> exists i :: 0 <= i < k && parity[i].index == parity[k].index
  {
    hide ParityMap;
    var group, shard, init := parity[k].index / parityShards, parity[k].index % parityShards, parity[..k];
    ParityMapKeys(init, parityShards, group);
    assert parity[k].index == group * parityShards + shard;
    if shard in ParityMap(init, parityShards, group) {
      var i :| 0 <= i < k && init[i].index == parity[k].index;
      assert parity[i].index == parity[k].index;
    }
    forall i | 0 <= i < k && parity[i].index == parity[k].index ensures shard in ParityMap(init, parityShards, group) {
      ParityMapHas(init, parityShards, i);
    }
  }

  lemma ParityMapStep(parity: seq<Chunk>, k: nat, parityShards: nat, g: nat)
    requires parityShards > 0 && k < |parity|
    ensures var group, shard := parity[k].index / parityShards, parity[k].index % parityShards;
      ParityMap(parity[..k + 1], parityShards, g) ==
        if g == group then ParityMap(parity[..k], parityShards, g)[shard := parity[k].data] else ParityMap(parity[..k], parityShards, g)
  {
    assert parity[..k + 1][..k] == parity[..k];
  }

  lemma ParityStep(parity: seq<Chunk>, k: nat, parityShards: nat, byGroup: map<nat, map<nat, Bytes>>)
    requires parityShards > 0 && k < |parity| && ByGroup(byGroup, parity[..k], parityShards)
    ensures var group, shard := parity[k].index / parityShards, parity[k].index % parityShards;
      var held := Lookup(byGroup, group);
      ByGroup(byGroup[group := held[shard := parity[k].data]], parity[..k + 1], parityShards) &&
      (DistinctIndices(parity[..k + 1]) <==> DistinctIndices(parity[..k]) && shard !in held)
  {
    hide DistinctIndices, ParityMap;
    var group, shard := parity[k].index / parityShards, parity[k].index % parityShards;
    var held := Lookup(byGroup, group);
    assert held == ParityMap(parity[..k], parityShards, group);
    var next := byGroup[group := held[shard := parity[k].data]];
    forall g: nat ensures Lookup(next, g) == ParityMap(parity[..k + 1], parityShards, g) {
      ParityMapStep(parity, k, parityShards, g);
      assert Lookup(byGroup, g) == ParityMap(parity[..k], parityShards, g);
    }
    DistinctStep(parity, k);
    HeldShards(parity, k, parityShards);
  }

  method CollectParity(parity: seq<Chunk>, groupCount: nat, parityShards: nat, size: nat)
    returns (r: Option<map<nat, map<nat, Bytes>>>)
    requires parityShards > 0
    ensures r.Some? <==> ParityInRange(parity, groupCount, parityShards, size) && DistinctIndices(parity)
    ensures r.Some? ==> forall g: nat :: Lookup(r.value, g) == ParityMap(parity, parityShards, g)
  {
    hide ParityMap, DistinctIndices, Lookup;
    var byGroup: map<nat, map<nat, Bytes>> := map[];
    NoParity(parityShards);
    NoChunks();
    assert parity[..0] == [];
    for k := 0 to |parity|
      invariant ByGroup(byGroup, parity[..k], parityShards) && DistinctIndices(parity[..k])
      invariant ParityInRange(parity[..k], groupCount, parityShards, size)
    {
      var chunk := parity[k];
      ParityStep(parity, k, parityShards, byGroup);
      if |chunk.data| != size { return None; }
      var group, shard := chunk.index / parityShards, chunk.index % parityShards;
      if group >= groupCount { return None; }
      var held := Lookup(byGroup, group);
      if shard in held {
        if DistinctIndices(parity) { PrefixDistinct(parity, k + 1); }
        return None;
      }
      byGroup := byGroup[group := held[shard := chunk.data]];
    }
    assert parity[..|parity|] == parity;
    r := Some(byGroup);
  }

  lemma NoParity(parityShards: nat)
    requires parityShards > 0
    ensures ByGroup(map[], [], parityShards)
  {}

  /** Cuts a recovered chunk back to the length it had before padding. */
  function Trimmed(data: Bytes, index: nat, size: nat, count: nat, encodedSize: nat): Bytes
    requires |data| == size
  {
    var used := if encodedSize >= size * (count - 1) then encodedSize - size * (count - 1) else size;
    if index + 1 == count && used < size then data[..used] else data
  }

  lemma TrimmedPiece(encoded: Bytes, size: nat, index: nat)
    requires size > 0 && index < Count(|encoded|, size)
    ensures var all := Split(encoded, size);
            Trimmed(Padded(all[index].data, size), index, size, |all|, |encoded|) == all[index].data
  {
    PieceLength(encoded, size, index);
    CountBounds(|encoded|, size);
    var data, count := Piece(encoded, size, index), Count(|encoded|, size);
    assert size * (count - 1) == (count - 1) * size;
    assert Padded(data, size)[..|data|] == data;
  }

  /** The group's missing chunks can be solved for. */
  ghost predicate GroupRecoverable(have: set<nat>, shards: set<nat>, start: nat, end: nat, parityShards: nat)
    requires start <= end
  {
    var missing := Missing(have, start, end);
    |missing| == 0 ||
    (|missing| <= parityShards && |missing| <= |KeysBelow(shards, parityShards)| &&
     !Singular(Minor(Equations(shards, parityShards, missing), missing, start)))
  }

  ghost predicate GenuineData(data: map<nat, Bytes>, all: seq<Chunk>) {
    forall k | k in data :: k < |all| && data[k] == all[k].data
  }

  ghost predicate GenuineShards(shards: map<nat, Bytes>, all: seq<Chunk>, size: nat, start: nat, end: nat)
    requires start <= end <= |all|
  {
    forall shard | shard in shards :: shards[shard] == ParityOf(GroupVectors(all, size, start, end), size, shard)
  }

  lemma GenuineInGroup(data: map<nat, Bytes>, shards: map<nat, Bytes>, all: seq<Chunk>, size: nat, start: nat, end: nat)
    requires start <= end <= |all| && GenuineData(data, all) && GenuineShards(shards, all, size, start, end)
    ensures GenuineGroup(data, shards, GroupVectors(all, size, start, end), start, size)
  {
    hide ParityOf, Padded;
  }

  /** Fills in the missing chunks of one group. */
  method FillGroup(data: map<nat, Bytes>, shards: map<nat, Bytes>, start: nat, end: nat,
                   size: nat, count: nat, encodedSize: nat, parityShards: nat, ghost encoded: Bytes)
    returns (r: Result<map<nat, Bytes>, Failure>)
    requires start <= end <= count && size > 0
    requires forall shard | shard in shards :: shard < parityShards && |shards[shard]| == size
    ensures r.Ok? <==> GroupRecoverable(data.Keys, shards.Keys, start, end, parityShards)
    ensures r.Err? ==> r.error == TooManyMissing || r.error == TooFewChunks
    ensures r.Ok? ==> forall k: nat :: k in r.value <==> k in data || start <= k < end
    ensures r.Ok? && count == Count(|encoded|, size) && encodedSize == |encoded| &&
            GenuineData(data, Split(encoded, size)) && GenuineShards(shards, Split(encoded, size), size, start, end)
            ==> GenuineData(r.value, Split(encoded, size))
  {
    hide Split, Singular, Minor, Missing, Equations, KeysBelow, ParityOf, GroupVectors, Trimmed, Padded, GenuineGroup;
    var missing: seq<nat> := MissingChunks(data, start, end);
    KeysBelowElements(shards.Keys, parityShards);
    if |missing| == 0 { return Ok(data); }
    if |missing| > parityShards { return Err(TooManyMissing); }
    if |shards| < |missing| { return Err(TooFewChunks); }
    ghost var all := Split(encoded, size);
    ghost var genuine := count == Count(|encoded|, size) && encodedSize == |encoded| &&
      GenuineData(data, all) && GenuineShards(shards, all, size, start, end);
    ghost var vectors := if end <= |all| then GroupVectors(all, size, start, end) else [];
    if genuine { GenuineInGroup(data, shards, all, size, start, end); }
    var recovered := RecoverGroup(start, end, size, missing, data, shards, parityShards, vectors);
    if recovered.None? { return Err(TooFewChunks); }
    var filled := StoreRecovered(data, recovered.value, missing, start, end, size, count, encodedSize, genuine, encoded);
    r := Ok(filled);
  }

  /** The recovered vectors are the padded chunks of the group. */
  ghost predicate RecoveredIs(recovered: map<nat, Bytes>, encoded: Bytes, size: nat, start: nat, end: nat)
    requires size > 0 && start <= end <= Count(|encoded|, size)
  {
    forall k | k in recovered :: start <= k < end && recovered[k] == GroupVectors(Split(encoded, size), size, start, end)[k - start]
  }

  method StoreRecovered(data: map<nat, Bytes>, recovered: map<nat, Bytes>, missing: seq<nat>, start: nat, end: nat,
                        size: nat, count: nat, encodedSize: nat, ghost genuine: bool, ghost encoded: Bytes)
    returns (filled: map<nat, Bytes>)
    requires start <= end && size > 0 && forall k: nat :: k in missing <==> start <= k < end && k !in data
    requires forall k :: k in recovered <==> k in missing
    requires forall k | k in recovered :: |recovered[k]| == size
    requires genuine ==> end <= count == Count(|encoded|, size) && encodedSize == |encoded| && GenuineData(data, Split(encoded, size))
    requires genuine ==> RecoveredIs(recovered, encoded, size, start, end)
    ensures forall k: nat :: k in filled <==> k in data || start <= k < end
    ensures genuine ==> GenuineData(filled, Split(encoded, size))
  {
    hide Split, GroupVectors, Trimmed, GenuineData;
    filled := data;
    for k := 0 to |missing|
      invariant forall i: nat :: i in filled <==> i in data || i in missing[..k]
      invariant genuine ==> GenuineData(filled, Split(encoded, size))
    {
      var index := missing[k];
      var piece := Trimmed(recovered[index], index, size, count, encodedSize);
      if genuine {
        RecoveredPiece(encoded, size, start, end, index);
        GenuineMore(filled, Split(encoded, size), index, piece);
      }
      filled := filled[index := piece];
    }
    assert missing[..|missing|] == missing;
  }

  lemma GenuineMore(data: map<nat, Bytes>, all: seq<Chunk>, index: nat, piece: Bytes)
    requires GenuineData(data, all) && index < |all| && piece == all[index].data
    ensures GenuineData(data[index := piece], all)
  {}

  lemma RecoveredPiece(encoded: Bytes, size: nat, start: nat, end: nat, index: nat)
    requires size > 0 && start <= index < end <= Count(|encoded|, size)
    ensures var all := Split(encoded, size);
            Trimmed(GroupVectors(all, size, start, end)[index - start], index, size, |all|, |encoded|) == all[index].data
  {
    hide Trimmed, Split, Padded;
    TrimmedPiece(encoded, size, index);
  }

  method MissingChunks(data: map<nat, Bytes>, start: nat, end: nat) returns (missing: seq<nat>)
    requires start <= end
    ensures missing == Missing(data.Keys, start, end)
  {
    missing := [];
    for index := start to end
      invariant missing == Missing(data.Keys, start, index)
    {
      if index !in data { missing := missing + [index]; }
    }
  }

  lemma MissingStep(have: set<nat>, start: nat, end: nat)
    requires start < end
    ensures Missing(have, start, end) == Missing(have, start, end - 1) + if end - 1 in have then [] else [end - 1]
  {}

  lemma {:induction false} MissingAgrees(a: set<nat>, b: set<nat>, start: nat, end: nat)
    requires start <= end && forall k | start <= k < end :: k in a <==> k in b
    ensures Missing(a, start, end) == Missing(b, start, end)
  {
    hide Missing;
    if start == end {
      assert |Missing(a, start, end)| == 0 == |Missing(b, start, end)|;
    } else {
      MissingAgrees(a, b, start, end - 1);
      MissingStep(a, start, end);
      MissingStep(b, start, end);
      var shared := Missing(a, start, end - 1);
      if end - 1 in a {
        assert Missing(a, start, end) == shared + [] && Missing(b, start, end) == shared + [];
      } else {
        assert Missing(a, start, end) == shared + [end - 1] && Missing(b, start, end) == shared + [end - 1];
      }
    }
  }

  lemma RecoverableAgrees(a: set<nat>, b: set<nat>, shards: set<nat>, start: nat, end: nat, parityShards: nat)
    requires start <= end && forall k | start <= k < end :: k in a <==> k in b
    ensures GroupRecoverable(a, shards, start, end, parityShards) <==> GroupRecoverable(b, shards, start, end, parityShards)
  {
    hide Singular, Minor, KeysBelow;
    MissingAgrees(a, b, start, end);
  }

  /** Group g of a proof can be completed from these chunks. */
  ghost predicate GroupAt(have: set<nat>, shards: set<nat>, count: nat, dataShards: nat, parityShards: nat, g: nat)
    requires g < GroupCount(count, dataShards)
  {
    GroupBounds(count, dataShards, g);
    GroupRecoverable(have, shards, g * dataShards, GroupEnd(count, dataShards, g), parityShards)
  }

  ghost predicate ShardsInRange(byGroup: map<nat, map<nat, Bytes>>, parityShards: nat, size: nat) {
    forall g | g in byGroup :: forall shard | shard in byGroup[g] :: shard < parityShards && |byGroup[g][shard]| == size
  }

  ghost predicate GenuineParityMap(byGroup: map<nat, map<nat, Bytes>>, all: seq<Chunk>, size: nat, dataShards: nat) {
    forall g | 0 <= g < GroupCount(|all|, dataShards) ::
      (GroupBounds(|all|, dataShards, g);
       GenuineShards(Lookup(byGroup, g), all, size, g * dataShards, GroupEnd(|all|, dataShards, g)))
  }

  /** Completes every group in turn. */
  method FillGroups(data: map<nat, Bytes>, byGroup: map<nat, map<nat, Bytes>>, size: nat, count: nat, encodedSize: nat,
                    dataShards: nat, parityShards: nat, ghost encoded: Bytes)
    returns (r: Result<map<nat, Bytes>, Failure>)
    requires size > 0 && count > 0 && dataShards > 0 && ShardsInRange(byGroup, parityShards, size)
    ensures r.Ok? <==> forall g | 0 <= g < GroupCount(count, dataShards) :: GroupAt(data.Keys, Lookup(byGroup, g).Keys, count, dataShards, parityShards, g)
    ensures r.Err? ==> r.error == TooManyMissing || r.error == TooFewChunks
    ensures r.Ok? ==> forall k: nat | k < count :: k in r.value
    ensures r.Ok? && count == Count(|encoded|, size) && encodedSize == |encoded| &&
            GenuineData(data, Split(encoded, size)) && GenuineParityMap(byGroup, Split(encoded, size), size, dataShards)
            ==> GenuineData(r.value, Split(encoded, size))
  {
    hide Split, GroupRecoverable, GenuineData, GenuineShards;
    var groupCount := GroupCount(count, dataShards);
    ghost var genuine := count == Count(|encoded|, size) && encodedSize == |encoded| &&
      GenuineData(data, Split(encoded, size)) && GenuineParityMap(byGroup, Split(encoded, size), size, dataShards);
    var filled := data;
    for group := 0 to groupCount
      invariant forall g | 0 <= g < group :: GroupAt(data.Keys, Lookup(byGroup, g).Keys, count, dataShards, parityShards, g)
      invariant forall k: nat :: k in filled <==> k in data || k < Min(group * dataShards, count)
      invariant genuine ==> GenuineData(filled, Split(encoded, size))
    {
      GroupBounds(count, dataShards, group);
      var start := group * dataShards;
      var end := start + dataShards;
      if end > count { end := count; }
      RecoverableAgrees(filled.Keys, data.Keys, Lookup(byGroup, group).Keys, start, end, parityShards);
      var next := FillGroup(filled, Lookup(byGroup, group), start, end, size, count, encodedSize, parityShards, encoded);
      if next.Err? {
        assert !GroupAt(data.Keys, Lookup(byGroup, group).Keys, count, dataShards, parityShards, group);
        return next;
      }
      filled := next.value;
      assert (group + 1) * dataShards == start + dataShards;
      assert Min((group + 1) * dataShards, count) == end;
    }
    CountBounds(count, dataShards);
    r := Ok(filled);
  }

  /** Distinct chunks and parity chunks, each exactly as it was built from `encoded`. */
  ghost predicate GenuineInput(proof: Proof, chunks: seq<Chunk>, parity: seq<Chunk>, encoded: Bytes)
    requires ProofFor(proof, encoded)
  {
    var all := Split(encoded, proof.chunkSize);
    DistinctIndices(chunks) && DistinctIndices(parity) &&
    (forall i | 0 <= i < |chunks| :: chunks[i] in all) &&
    (forall i | 0 <= i < |parity| ::
      parity[i].index / proof.parityShards < GroupCount(|all|, proof.dataShards) &&
      parity[i] == ParityChunk(all, proof.chunkSize, proof.dataShards, proof.parityShards, parity[i].index))
  }

  /** Any chunks and parity chunks out of those that were built are such an input, in any order. */
  lemma BuiltIsGenuine(proof: Proof, encoded: Bytes, built: seq<Chunk>, chunks: seq<Chunk>, parity: seq<Chunk>)
    requires ProofFor(proof, encoded)
    requires IsParity(built, Split(encoded, proof.chunkSize), proof.chunkSize, proof.dataShards, proof.parityShards)
    requires DistinctIndices(chunks) && DistinctIndices(parity)
    requires forall i | 0 <= i < |chunks| :: chunks[i] in Split(encoded, proof.chunkSize)
    requires forall i | 0 <= i < |parity| :: parity[i] in built
    ensures GenuineInput(proof, chunks, parity, encoded)
  {
    hide Split, Root, Leaves, GroupCount, ParityOf, GroupVectors, GroupEnd;
    var all := Split(encoded, proof.chunkSize);
    forall i | 0 <= i < |parity|
      ensures parity[i].index / proof.parityShards < GroupCount(|all|, proof.dataShards) &&
              parity[i] == ParityChunk(all, proof.chunkSize, proof.dataShards, proof.parityShards, parity[i].index)
    {
      var k :| 0 <= k < |built| && built[k] == parity[i];
      assert parity[i].index == k;
    }
  }

  /** Every group of the proof can be completed from these chunks. */
  ghost predicate Recoverable(proof: Proof, chunks: seq<Chunk>, parity: seq<Chunk>)
    requires proof.parityShards > 0
  {
    forall g | 0 <= g < GroupCount(proof.chunkCount, proof.dataShards) ::
      GroupAt(DataMap(chunks).Keys, ParityMap(parity, proof.parityShards, g).Keys,
              proof.chunkCount, proof.dataShards, proof.parityShards, g)
  }

  predicate ProofShape(proof: Proof, parityShards: nat) {
    proof.chunkSize > 0 && proof.chunkCount > 0 && proof.dataShards > 0 && proof.encodedSize > 0 &&
    proof.dataShards <= MAX_SHARDS && parityShards <= MAX_SHARDS &&
    proof.encodedSize <= proof.chunkSize * proof.chunkCount &&
    (proof.parityCount == 0 || proof.parityCount == GroupCount(proof.chunkCount, proof.dataShards) * parityShards)
  }

  lemma GenuineShape(proof: Proof, encoded: Bytes)
    requires ProofFor(proof, encoded)
    ensures ProofShape(proof, proof.parityShards)
  {
    CountBounds(|encoded|, proof.chunkSize);
    assert proof.chunkSize * proof.chunkCount == proof.chunkCount * proof.chunkSize;
  }

  lemma GenuineChunksInRange(proof: Proof, chunks: seq<Chunk>, parity: seq<Chunk>, encoded: Bytes)
    requires ProofFor(proof, encoded) && GenuineInput(proof, chunks, parity, encoded)
    ensures DataInRange(chunks, proof.chunkCount, proof.chunkSize)
    ensures ParityInRange(parity, GroupCount(proof.chunkCount, proof.dataShards), proof.parityShards, proof.chunkSize)
    ensures GenuineData(DataMap(chunks), Split(encoded, proof.chunkSize))
  {
    hide ParityOf, Root, Leaves, GroupVectors;
    var all := Split(encoded, proof.chunkSize);
    forall i | 0 <= i < |chunks|
      ensures chunks[i].index < |all| && chunks[i] == all[chunks[i].index] && |chunks[i].data| <= proof.chunkSize
    {
      var k :| 0 <= k < |all| && all[k] == chunks[i];
      PieceLength(encoded, proof.chunkSize, k);
    }
    DataMapKeys(chunks);
  }

  lemma GenuineParityByGroup(proof: Proof, chunks: seq<Chunk>, parity: seq<Chunk>, byGroup: map<nat, map<nat, Bytes>>, encoded: Bytes)
    requires ProofFor(proof, encoded) && GenuineInput(proof, chunks, parity, encoded)
    requires forall g: nat :: Lookup(byGroup, g) == ParityMap(parity, proof.parityShards, g)
    ensures GenuineParityMap(byGroup, Split(encoded, proof.chunkSize), proof.chunkSize, proof.dataShards)
  {
    hide ParityOf, Root, Leaves, GroupVectors, Split, ParityMap;
    var all, size, ds, ps := Split(encoded, proof.chunkSize), proof.chunkSize, proof.dataShards, proof.parityShards;
    forall g | 0 <= g < GroupCount(|all|, ds)
      ensures (GroupBounds(|all|, ds, g); GenuineShards(Lookup(byGroup, g), all, size, g * ds, GroupEnd(|all|, ds, g)))
    {
      GroupBounds(|all|, ds, g);
      var held := Lookup(byGroup, g);
      ParityMapKeys(parity, ps, g);
      forall shard | shard in held ensures held[shard] == ParityOf(GroupVectors(all, size, g * ds, GroupEnd(|all|, ds, g)), size, shard) {
        IndexOf(g, shard, ps);
        var i :| 0 <= i < |parity| && parity[i] == Chunk(g * ps + shard, held[shard]);
      }
    }
  }

  lemma ShardRange(parity: seq<Chunk>, byGroup: map<nat, map<nat, Bytes>>, groupCount: nat, parityShards: nat, size: nat)
    requires parityShards > 0 && ParityInRange(parity, groupCount, parityShards, size)
    requires forall g: nat :: Lookup(byGroup, g) == ParityMap(parity, parityShards, g)
    ensures ShardsInRange(byGroup, parityShards, size)
  {
    hide ParityMap;
    forall g | g in byGroup ensures forall shard | shard in byGroup[g] :: shard < parityShards && |byGroup[g][shard]| == size {
      assert Lookup(byGroup, g) == byGroup[g];
      ParityMapKeys(parity, parityShards, g);
      forall shard | shard in byGroup[g] ensures |byGroup[g][shard]| == size {
        var i :| 0 <= i < |parity| && parity[i] == Chunk(g * parityShards + shard, byGroup[g][shard]);
      }
    }
  }

  /** Chunks 0 .. count - 1 out of a complete map. */
  method Assemble(data: map<nat, Bytes>, count: nat) returns (ordered: seq<Chunk>)
    requires forall k: nat | k < count :: k in data
    ensures |ordered| == count && Indexed(ordered)
    ensures forall k: nat | k < count :: ordered[k].data == data[k]
  {
    ordered := [];
    for index := 0 to count
      invariant |ordered| == index && Indexed(ordered)
      invariant forall k: nat | k < index :: ordered[k].data == data[k]
    {
      ordered := ordered + [Chunk(index, data[index])];
    }
  }

  method Concatenate(chunks: seq<Chunk>) returns (encoded: Bytes)
    ensures encoded == Join(chunks)
  {
    encoded := [];
    for k := 0 to |chunks|
      invariant encoded == Join(chunks[..k])
    {
      assert chunks[..k + 1][..k] == chunks[..k];
      encoded := encoded + chunks[k].data;
    }
    assert chunks[..|chunks|] == chunks;
  }

  /** A complete list with the committed root is the committed list. */
  lemma CommittedList(ordered: seq<Chunk>, encoded: Bytes, size: nat)
    requires size > 0 && |ordered| == Count(|encoded|, size) && Root(Leaves(ordered)) == Root(Leaves(Split(encoded, size)))
    ensures ordered == Split(encoded, size) && Padded(Join(ordered), |encoded|) == encoded
  {
    hide Root, Split, Leaves, Join;
    var all := Split(encoded, size);
    RootInjective(Leaves(ordered), Leaves(all));
    LeavesInjective(ordered, all);
    JoinSplit(encoded, size);
  }

  lemma GenuineList(ordered: seq<Chunk>, data: map<nat, Bytes>, all: seq<Chunk>)
    requires |ordered| == |all| && Indexed(ordered) && Indexed(all) && GenuineData(data, all)
    requires forall k: nat | k < |all| :: k in data && ordered[k].data == data[k]
    ensures ordered == all
  {
    forall k: nat | k < |all| ensures ordered[k] == all[k] {
      assert data[k] == all[k].data;
    }
  }

  /** Recovers the encoded data. `encoded` is what the proof may have been built for: against such a proof the
      result is that data or an error, whatever the chunks are; and genuine chunks fail only for want of chunks. */
  method RecoverData(proof: Proof, chunks: seq<Chunk>, parity: seq<Chunk>, ghost encoded: Bytes)
    returns (r: Result<Bytes, Failure>)
    ensures ProofFor(proof, encoded) && r.Ok? ==> r.value == encoded
    ensures ProofFor(proof, encoded) && GenuineInput(proof, chunks, parity, encoded) ==>
            (r.Ok? <==> Recoverable(proof, chunks, parity)) &&
            (r.Err? ==> r.error == TooManyMissing || r.error == TooFewChunks)
    ensures r == Err(InvalidProof) <==>
      var parityShards := if proof.parityShards == 0 then 1 else proof.parityShards;
      proof.chunkSize == 0 || proof.chunkCount == 0 || proof.encodedSize == 0 || !(0 < proof.dataShards <= 255) || parityShards > 255 ||
      proof.encodedSize > proof.chunkSize * proof.chunkCount ||
      (proof.parityCount != 0 && proof.parityCount != GroupCount(proof.chunkCount, proof.dataShards) * parityShards) ||
      !DataInRange(chunks, proof.chunkCount, proof.chunkSize) || !DistinctIndices(chunks) ||
      !ParityInRange(parity, GroupCount(proof.chunkCount, proof.dataShards), parityShards, proof.chunkSize) || !DistinctIndices(parity)
  {
    hide Split, Root, Leaves, Sort, GroupRecoverable, GenuineInput, GenuineData, GenuineParityMap, ParityMap, DataMap, Padded,
         DistinctIndices, DataInRange, ParityInRange, ShardsInRange;
    ghost var genuine := ProofFor(proof, encoded) && GenuineInput(proof, chunks, parity, encoded);
    if ProofFor(proof, encoded) { GenuineShape(proof, encoded); }
    if genuine { GenuineChunksInRange(proof, chunks, parity, encoded); GenuineIsDistinct(proof, chunks, parity, encoded); }
    var parityShards := if proof.parityShards == 0 then 1 else proof.parityShards;
    if !ProofShape(proof, parityShards) { return Err(InvalidProof); }
    var groupCount := GroupCount(proof.chunkCount, proof.dataShards);
    var collected := CollectData(chunks, proof.chunkCount, proof.chunkSize);
    if collected.None? { return Err(InvalidProof); }
    var held := CollectParity(parity, groupCount, parityShards, proof.chunkSize);
    if held.None? { return Err(InvalidProof); }
    ShardRange(parity, held.value, groupCount, parityShards, proof.chunkSize);
    if genuine { GenuineParityByGroup(proof, chunks, parity, held.value, encoded); }
    var filled := FillGroups(collected.value, held.value, proof.chunkSize, proof.chunkCount, proof.encodedSize,
                             proof.dataShards, parityShards, encoded);
    if genuine { SameGroups(proof, chunks, parity, held.value); }
    if filled.Err? { return Err(filled.error); }
    var ordered := Assemble(filled.value, proof.chunkCount);
    if genuine { AssembledGenuine(ordered, filled.value, encoded, proof.chunkSize); }
    SortedIsFixed(ordered);
    var root := ChunkRoot(ordered);
    if root != proof.commitment { return Err(CommitmentMismatch); }
    if ProofFor(proof, encoded) { CommittedList(ordered, encoded, proof.chunkSize); }
    var joined := Concatenate(ordered);
    r := Ok(Padded(joined, proof.encodedSize));
  }

  lemma GenuineIsDistinct(proof: Proof, chunks: seq<Chunk>, parity: seq<Chunk>, encoded: Bytes)
    requires ProofFor(proof, encoded) && GenuineInput(proof, chunks, parity, encoded)
    ensures DistinctIndices(chunks) && DistinctIndices(parity)
  {}

  lemma SameGroups(proof: Proof, chunks: seq<Chunk>, parity: seq<Chunk>, byGroup: map<nat, map<nat, Bytes>>)
    requires proof.parityShards > 0 && forall g: nat :: Lookup(byGroup, g) == ParityMap(parity, proof.parityShards, g)
    ensures Recoverable(proof, chunks, parity) <==>
            forall g | 0 <= g < GroupCount(proof.chunkCount, proof.dataShards) ::
              GroupAt(DataMap(chunks).Keys, Lookup(byGroup, g).Keys, proof.chunkCount, proof.dataShards, proof.parityShards, g)
  {
    hide GroupAt, ParityMap, Lookup;
  }

  lemma AssembledGenuine(ordered: seq<Chunk>, data: map<nat, Bytes>, encoded: Bytes, size: nat)
    requires size > 0 && |ordered| == Count(|encoded|, size) && Indexed(ordered) && GenuineData(data, Split(encoded, size))
    requires forall k: nat | k < |ordered| :: k in data && ordered[k].data == data[k]
    ensures ordered == Split(encoded, size)
  {
    GenuineList(ordered, data, Split(encoded, size));
  }

  /** Recovery and decoding together, for a proof built from `txs`. */
  method RecoverTransactions(proof: Proof, chunks: seq<Chunk>, parity: seq<Chunk>, ghost txs: seq<Bytes>)
    returns (r: Result<seq<Bytes>, Failure>)
    requires TxCodec.Fits(txs)
    ensures ProofFor(proof, TxCodec.Encode(txs)) && r.Ok? ==> r.value == txs
    ensures ProofFor(proof, TxCodec.Encode(txs)) && GenuineInput(proof, chunks, parity, TxCodec.Encode(txs)) ==>
            (r.Ok? <==> Recoverable(proof, chunks, parity)) &&
            (r.Err? ==> r.error == TooManyMissing || r.error == TooFewChunks)
  {
    hide TxCodec.Encode, TxCodec.Decode, ProofFor, GenuineInput, Recoverable;
    var data := RecoverData(proof, chunks, parity, TxCodec.Encode(txs));
    if data.Err? { return Err(data.error); }
    TxCodec.DecodeEncode(txs);
    var decoded := TxCodec.DecodeTransactions(data.value);
    r := if decoded.Ok? then Ok(decoded.value) else Err(InvalidEncoding);
  }

  // ---------------------------------------------------------- when elimination succeeds

  /** The shards cannot tell apart chunks that are so far from each other. */
  predicate Alike(s: nat, t: nat, distance: nat) {
    ((GF256.Log(Point(t)) - GF256.Log(Point(s))) * distance) % 255 == 0
  }

  predicate SomeAlike(shards: seq<nat>, distance: nat) {
    exists i, j :: 0 <= i < j < |shards| && Alike(shards[i], shards[j], distance)
  }

  /** Each index is so far from the one before it. */
  predicate Spaced(missing: seq<nat>, distance: nat) {
    forall i | 0 <= i < |missing| :: missing[i] == missing[0] + i * distance
  }

  lemma PointNotZero(shard: nat)
    requires shard < MAX_SHARDS
    ensures Point(shard) != 0
  {}

  /** The equations for evenly spaced chunks are powers of one point each. */
  lemma SpacedEquations(shards: seq<nat>, missing: seq<nat>, start: nat, distance: nat)
    requires |shards| == |missing| > 0 && (forall i | 0 <= i < |shards| :: shards[i] < MAX_SHARDS)
    requires Spaced(missing, distance) && forall i | 0 <= i < |missing| :: start <= missing[i]
    ensures Singular(Minor(shards, missing, start)) <==> SomeAlike(shards, distance)
  {
    hide GF256.Mul, GF256.Pow, GF256.Log, Singular, Point, Alike;
    var m := Minor(shards, missing, start);
    var scales := seq(|shards|, r requires 0 <= r < |shards| => GF256.Pow(Point(shards[r]), missing[0] - start));
    var points := seq(|shards|, r requires 0 <= r < |shards| => GF256.Pow(Point(shards[r]), distance));
    forall r, j | 0 <= r < |m| && 0 <= j < |m|
      ensures scales[r] != 0 && m[r][j] == GF256.Mul(scales[r], GF256.Pow(points[r], j))
    {
      EntryOfSpaced(Point(shards[r]), shards[r], missing, start, distance, j);
      GF256.PowNonZero(Point(shards[r]), missing[0] - start);
    }
    assert forall r | 0 <= r < |m| :: scales[r] != 0 by {
      forall r | 0 <= r < |m| ensures scales[r] != 0 { assert m[r][0] == GF256.Mul(scales[r], GF256.Pow(points[r], 0)); }
    }
    Vandermonde.SingularIfSame(m, scales, points);
    forall i, j | 0 <= i < j < |shards| ensures points[i] == points[j] <==> Alike(shards[i], shards[j], distance) {
      SamePoint(shards[i], shards[j], distance);
    }
  }

  lemma EntryOfSpaced(x: Byte, shard: nat, missing: seq<nat>, start: nat, distance: nat, j: nat)
    requires shard < MAX_SHARDS && x == Point(shard) && j < |missing| && Spaced(missing, distance) && start <= missing[0]
    ensures x != 0 && GF256.Pow(x, missing[j] - start) == GF256.Mul(GF256.Pow(x, missing[0] - start), GF256.Pow(GF256.Pow(x, distance), j))
  {
    hide GF256.Mul, GF256.Pow, Point;
    PointNotZero(shard);
    GF256.PowSum(x, missing[0] - start, distance * j);
    GF256.PowProduct(x, distance, j);
    assert missing[j] - start == missing[0] - start + distance * j;
  }

  lemma SamePoint(s: nat, t: nat, distance: nat)
    requires s < MAX_SHARDS && t < MAX_SHARDS
    ensures GF256.Pow(Point(s), distance) == GF256.Pow(Point(t), distance) <==> Alike(s, t, distance)
  {
    hide GF256.Pow, GF256.Log, Point;
    PointNotZero(s);
    PointNotZero(t);
    GF256.SamePow(Point(s), Point(t), distance);
  }

  /** A group whose missing chunks are evenly spaced, and no more than the parity shards held, is recovered exactly if no
      two of the shards used are alike at that distance. */
  lemma SpacedRecoverable(have: set<nat>, shards: set<nat>, start: nat, end: nat, parityShards: nat, distance: nat)
    requires start <= end && parityShards <= MAX_SHARDS && Spaced(Missing(have, start, end), distance)
    requires |Missing(have, start, end)| <= |KeysBelow(shards, parityShards)|
    ensures GroupRecoverable(have, shards, start, end, parityShards) <==>
      !SomeAlike(KeysBelow(shards, parityShards)[..|Missing(have, start, end)|], distance)
  {
    hide Singular, Minor, KeysBelow, Missing, Alike;
    var missing, keys := Missing(have, start, end), KeysBelow(shards, parityShards);
    if |missing| > 0 {
      AtLeastPosition(keys, |keys| - 1);
      SpacedEquations(Equations(shards, parityShards, missing), missing, start, distance);
    }
  }

  /** Two chunks are always evenly spaced. */
  lemma TwoMissingRecoverable(have: set<nat>, shards: set<nat>, start: nat, end: nat, parityShards: nat)
    requires start <= end && parityShards <= MAX_SHARDS
    requires |Missing(have, start, end)| == 2 <= |KeysBelow(shards, parityShards)|
    ensures var missing, keys := Missing(have, start, end), KeysBelow(shards, parityShards);
      GroupRecoverable(have, shards, start, end, parityShards) <==> !Alike(keys[0], keys[1], missing[1] - missing[0])
  {
    hide GroupRecoverable, KeysBelow, Missing, Alike;
    var missing, keys := Missing(have, start, end), KeysBelow(shards, parityShards);
    SpacedRecoverable(have, shards, start, end, parityShards, missing[1] - missing[0]);
    assert keys[..2][0] == keys[0] && keys[..2][1] == keys[1];
  }

  /** Different shards always tell neighbours apart. */
  lemma NeighboursDiffer(s: nat, t: nat)
    requires s < t < MAX_SHARDS
    ensures !Alike(s, t, 1)
  {
    hide GF256.Log, GF256.Power, Point;
    var a: int, b: int := GF256.Log(Point(s)), GF256.Log(Point(t));
    PointNotZero(s);
    PointNotZero(t);
    GF256.LogSpec(Point(s));
    GF256.LogSpec(Point(t));
    PointsDiffer(s, t);
    assert (b - a) * 1 == b - a;
    assert a != b;
  }

  lemma PointsDiffer(s: nat, t: nat)
    requires s < t < MAX_SHARDS
    ensures Point(s) != Point(t)
  {
    hide Point;
    PointValue(s);
    PointValue(t);
  }

  lemma PointValue(shard: nat)
    requires shard < MAX_SHARDS
    ensures Point(shard) as nat == shard + 1
  {
    assert (shard + 1) % 256 == shard + 1;
    TxCodec.ByteOf(shard + 1);
  }

  /** A run of consecutive missing chunks is recovered from any parity shards that are as many. One missing chunk is
      such a run. */
  lemma RunRecoverable(have: set<nat>, shards: set<nat>, start: nat, end: nat, parityShards: nat)
    requires start <= end && parityShards <= MAX_SHARDS && Spaced(Missing(have, start, end), 1)
    requires |Missing(have, start, end)| <= |KeysBelow(shards, parityShards)|
    ensures GroupRecoverable(have, shards, start, end, parityShards)
  {
    hide GroupRecoverable, KeysBelow, Missing, Alike;
    var missing, keys := Missing(have, start, end), KeysBelow(shards, parityShards);
    SpacedRecoverable(have, shards, start, end, parityShards, 1);
    var used := keys[..|missing|];
    forall i, j | 0 <= i < j < |used| ensures !Alike(used[i], used[j], 1) { NeighboursDiffer(used[i], used[j]); }
  }

  /** Group g misses a run of consecutive chunks, no more than it holds parity for. */
  ghost predicate MissesRun(have: set<nat>, shards: set<nat>, count: nat, dataShards: nat, g: nat)
    requires g < GroupCount(count, dataShards)
  {
    GroupBounds(count, dataShards, g);
    var missing := Missing(have, g * dataShards, GroupEnd(count, dataShards, g));
    Spaced(missing, 1) && |missing| <= |shards|
  }

  /** With any number of parity shards, everything is recovered if each group misses only such a run. */
  lemma RunsRecover(proof: Proof, chunks: seq<Chunk>, parity: seq<Chunk>)
    requires 0 < proof.parityShards <= MAX_SHARDS && 0 < proof.dataShards
    requires forall g | 0 <= g < GroupCount(proof.chunkCount, proof.dataShards) ::
      MissesRun(DataMap(chunks).Keys, ParityMap(parity, proof.parityShards, g).Keys, proof.chunkCount, proof.dataShards, g)
    ensures Recoverable(proof, chunks, parity)
  {
    hide GroupRecoverable, ParityMap, Missing, DataMap, KeysBelow, Spaced;
    forall g | 0 <= g < GroupCount(proof.chunkCount, proof.dataShards)
      ensures GroupAt(DataMap(chunks).Keys, ParityMap(parity, proof.parityShards, g).Keys,
                      proof.chunkCount, proof.dataShards, proof.parityShards, g)
    {
      GroupBounds(proof.chunkCount, proof.dataShards, g);
      ParityMapKeys(parity, proof.parityShards, g);
      var shards := ParityMap(parity, proof.parityShards, g).Keys;
      assert MissesRun(DataMap(chunks).Keys, shards, proof.chunkCount, proof.dataShards, g);
      KeysBelowElements(shards, proof.parityShards);
      RunRecoverable(DataMap(chunks).Keys, shards, g * proof.dataShards, GroupEnd(proof.chunkCount, proof.dataShards, g), proof.parityShards);
    }
  }

  lemma FirstTwoDiffer(distance: nat)
    requires 0 < distance < 255
    ensures !Alike(0, 1, distance)
  {
    hide GF256.Log, Point;
    LowLogs();
    assert (1 - 0) * distance == distance;
  }

  lemma LowLogs()
    ensures GF256.Log(Point(0)) == 0 && GF256.Log(Point(1)) == 1 && GF256.Log(Point(2)) == 25
  {
    hide GF256.Log, GF256.Power, Point;
    LowPoints();
    GF256.PowerZero();
    GF256.LogOfPower(0);
    GF256.LogOfPower(1);
    GF256.LogOfThree();
  }

  lemma LowPoints()
    ensures Point(0) == 1 && Point(1) == 2 && Point(2) == 3
  {}

  lemma SmallGroupRecoverable(have: set<nat>, shards: set<nat>, start: nat, end: nat, parityShards: nat)
    requires start <= end <= start + MAX_SHARDS && parityShards <= 2
    requires forall s | s in shards :: s < parityShards
    requires |Missing(have, start, end)| <= |shards|
    ensures GroupRecoverable(have, shards, start, end, parityShards)
  {
    hide Singular, Minor, KeysBelow, Missing, Alike;
    var missing, keys := Missing(have, start, end), KeysBelow(shards, parityShards);
    KeysBelowElements(shards, parityShards);
    BoundedKeys(keys, parityShards);
    if |missing| <= 1 {
      RunRecoverable(have, shards, start, end, parityShards);
    } else if |missing| == 2 {
      assert keys == [0, 1];
      TwoMissingRecoverable(have, shards, start, end, parityShards);
      FirstTwoDiffer(missing[1] - missing[0]);
    }
  }

  lemma {:induction false} AtLeastPosition(keys: seq<nat>, i: nat)
    requires i < |keys| && forall i, j | 0 <= i < j < |keys| :: keys[i] < keys[j]
    ensures keys[i] >= i
  {
    if i > 0 { AtLeastPosition(keys, i - 1); }
  }

  lemma BoundedKeys(keys: seq<nat>, bound: nat)
    requires bound <= 2 && (forall i | 0 <= i < |keys| :: keys[i] < bound)
    requires forall i, j | 0 <= i < j < |keys| :: keys[i] < keys[j]
    ensures |keys| <= bound && (|keys| == 2 ==> keys == [0, 1])
  {
    if |keys| > 0 { AtLeastPosition(keys, |keys| - 1); }
  }

  /** With one or two parity shards, a group is recovered whenever it misses no more chunks than it holds parity for. */
  lemma SmallParityRecovers(proof: Proof, chunks: seq<Chunk>, parity: seq<Chunk>)
    requires 0 < proof.parityShards <= 2 && 0 < proof.dataShards <= MAX_SHARDS
    requires forall g | 0 <= g < GroupCount(proof.chunkCount, proof.dataShards) ::
      (GroupBounds(proof.chunkCount, proof.dataShards, g);
       |Missing(DataMap(chunks).Keys, g * proof.dataShards, GroupEnd(proof.chunkCount, proof.dataShards, g))|
       <= |ParityMap(parity, proof.parityShards, g).Keys|)
    ensures Recoverable(proof, chunks, parity)
  {
    hide GroupRecoverable, ParityMap, Missing, DataMap;
    forall g | 0 <= g < GroupCount(proof.chunkCount, proof.dataShards)
      ensures GroupAt(DataMap(chunks).Keys, ParityMap(parity, proof.parityShards, g).Keys,
                      proof.chunkCount, proof.dataShards, proof.parityShards, g)
    {
      GroupBounds(proof.chunkCount, proof.dataShards, g);
      ParityMapKeys(parity, proof.parityShards, g);
      SmallGroupRecoverable(DataMap(chunks).Keys, ParityMap(parity, proof.parityShards, g).Keys,
                            g * proof.dataShards, GroupEnd(proof.chunkCount, proof.dataShards, g), proof.parityShards);
    }
  }

  /** Three parity shards do not have this property: 3 has order 51, so shards 0 and 2 cannot tell
      chunk 0 of a group from chunk 51, although two chunks are missing and two shards are held. */
  lemma ThreeParityShardsMayFail(have: set<nat>)
    requires forall k: nat | k < 52 :: k in have <==> k != 0 && k != 51
    ensures |Missing(have, 0, 52)| == 2
    ensures !GroupRecoverable(have, {0, 2}, 0, 52, 3)
  {
    hide Minor, Singular, Missing, KeysBelow, GF256.Log, Point;
    var missing, keys := Missing(have, 0, 52), KeysBelow({0, 2}, 3);
    PairOf(keys, 0, 2);
    PairOf(missing, 0, 51);
    TwoMissingRecoverable(have, {0, 2}, 0, 52, 3);
    LowLogs();
  }

  lemma PairOf(s: seq<nat>, a: nat, b: nat)
    requires a < b && (forall i | 0 <= i < |s| :: s[i] == a || s[i] == b)
    requires forall i, j | 0 <= i < j < |s| :: s[i] < s[j]
    requires a in s && b in s
    ensures s == [a, b]
  {
    DistinctMultiset(s);
    assert Elements(s) == {a, b};
    assert |s| == 2 && s[0] < s[1];
  }

  // ------------------------------------------------------------------ the header commitment

  const DEFAULT_CHUNK_SIZE: nat := 1024
  const DEFAULT_DATA_SHARDS: nat := 8
  const DEFAULT_PARITY_SHARDS: nat := 2

  function Commitment(txs: seq<Bytes>): Hash {
    ProofOf(txs, DEFAULT_CHUNK_SIZE, DEFAULT_DATA_SHARDS, DEFAULT_PARITY_SHARDS).commitment
  }

  /** A header's commitment is that of the transactions, or blank if there are none. */
  predicate DataMatches(consensusHash: Hash, txs: seq<Bytes>) {
    if consensusHash == ZeroHash then |txs| == 0 else Commitment(txs) == consensusHash
  }

  lemma {:induction false} RootNotZero(level: seq<Hash>)
    requires |level| > 0 && forall i | 0 <= i < |level| :: level[i] != ZeroHash
    ensures Root(level) != ZeroHash
    decreases |level|
  {
    if |level| > 1 {
      var next := NextLevel(level);
      assert forall i | 0 <= i < |next| :: next[i].NodeHash?;
      RootNotZero(next);
    }
  }

  /** Up to 1024 bytes of encoding the commitment is the hash of the one chunk, and up to twice as many that of two. */
  lemma ShortCommitment(txs: seq<Bytes>)
    ensures |TxCodec.Encode(txs)| <= 1024 ==> Commitment(txs) == LeafHash(0, TxCodec.Encode(txs))
    ensures 1024 < |TxCodec.Encode(txs)| <= 2048 ==>
      Commitment(txs) == NodeHash(LeafHash(0, TxCodec.Encode(txs)[..1024]), LeafHash(1, TxCodec.Encode(txs)[1024..]))
  {
    hide TxCodec.Encode;
    var encoded := TxCodec.Encode(txs);
    var chunks := Split(encoded, 1024);
    CountBounds(|encoded|, 1024);
    if |encoded| <= 1024 {
      assert |chunks| == 1 && chunks[0] == Chunk(0, encoded[..|encoded|]);
      assert encoded[..|encoded|] == encoded;
      assert Leaves(chunks) == [LeafHash(0, encoded)];
    } else if |encoded| <= 2048 {
      assert |chunks| == 2 && chunks[0] == Chunk(0, encoded[..1024]) && chunks[1] == Chunk(1, encoded[1024..|encoded|]);
      assert encoded[1024..|encoded|] == encoded[1024..];
      var leaves := Leaves(chunks);
      assert leaves == [LeafHash(0, encoded[..1024]), LeafHash(1, encoded[1024..])];
      assert NextLevel(leaves) == [Parent(leaves, 0)];
      assert Root(leaves) == Root(NextLevel(leaves)) == Parent(leaves, 0);
    }
  }

  /** No list of transactions has a blank commitment. */
  lemma CommitmentNotZero(txs: seq<Bytes>)
    ensures Commitment(txs) != ZeroHash
  {
    hide Root, Split;
    var encoded := TxCodec.Encode(txs);
    CountBounds(|encoded|, DEFAULT_CHUNK_SIZE);
    RootNotZero(Leaves(Split(encoded, DEFAULT_CHUNK_SIZE)));
  }

  /** Lists of chunks with the same root hold the same chunks. */
  lemma SameRoot(a: seq<Chunk>, b: seq<Chunk>, j: nat)
    requires Root(Leaves(a)) == Root(Leaves(b)) && j < |b|
    ensures b[j] in a
  {
    hide Root, Climb, Path;
    var leaf := Leaf(b[j]);
    assert Leaves(b)[j] == leaf;
    PathReachesRoot(Leaves(b), j);
    ClimbKeepsStart(leaf, Path(Leaves(b), j));
    var i := LeafOfRoot(leaf, Leaves(a));
    assert Leaves(a)[i] == Leaf(a[i]);
    assert a[i] == b[j];
  }

  lemma SameSplit(x: Bytes, y: Bytes, size: nat)
    requires size > 0 && Root(Leaves(Split(x, size))) == Root(Leaves(Split(y, size)))
    ensures |Split(x, size)| >= |Split(y, size)|
    ensures forall j | 0 <= j < |Split(y, size)| :: Split(x, size)[j] == Split(y, size)[j]
  {
    hide Root, Leaves;
    var a, b := Split(x, size), Split(y, size);
    forall j | 0 <= j < |b| ensures j < |a| && a[j] == b[j] {
      SameRoot(a, b, j);
      var i :| 0 <= i < |a| && a[i] == b[j];
      assert a[i].index == i && b[j].index == j;
    }
    if |b| > 0 {
      var last := b[|b| - 1];
      assert |b| - 1 < |a|;
    }
  }

  /** The commitment in a header fixes the transactions. */
  lemma CommitmentBinding(a: seq<Bytes>, b: seq<Bytes>)
    requires TxCodec.Fits(a) && TxCodec.Fits(b) && Commitment(a) == Commitment(b)
    ensures a == b
  {
    hide Root, Leaves, Split, TxCodec.Encode, TxCodec.Decode;
    var x, y := TxCodec.Encode(a), TxCodec.Encode(b);
    SameSplit(x, y, DEFAULT_CHUNK_SIZE);
    SameSplit(y, x, DEFAULT_CHUNK_SIZE);
    assert Split(x, DEFAULT_CHUNK_SIZE) == Split(y, DEFAULT_CHUNK_SIZE);
    JoinSplit(x, DEFAULT_CHUNK_SIZE);
    JoinSplit(y, DEFAULT_CHUNK_SIZE);
    TxCodec.DecodeEncode(a);
    TxCodec.DecodeEncode(b);
  }
}
