/** Cutting encoded data into fixed-size chunks and putting it together again. */
module Chunks {
  import opened Types

  datatype Chunk = Chunk(index: nat, data: Bytes)

  datatype Error = InvalidChunkSize

  /** The largest chunk size the source accepts: the maximum of its int type. */
  const MAX_INT: nat := 0x7fff_ffff_ffff_ffff

  function Min(a: nat, b: nat): nat {
    if a < b then a else b
  }

  function Count(length: nat, size: nat): (count: nat)
    requires size > 0
    ensures count > 0
  {
    var count := (length + size - 1) / size;
    if count == 0 then 1 else count
  }

  function Piece(data: Bytes, size: nat, i: nat): Bytes {
    data[Min(i * size, |data|)..Min((i + 1) * size, |data|)]
  }

  function Split(data: Bytes, size: nat): (chunks: seq<Chunk>)
    requires size > 0
    ensures |chunks| == Count(|data|, size)
  {
    seq(Count(|data|, size), i requires 0 <= i => Chunk(i, Piece(data, size, i)))
  }

  /** The data of the chunks, in list order. */
  function Join(chunks: seq<Chunk>): Bytes {
    if |chunks| == 0 then [] else Join(chunks[..|chunks| - 1]) + chunks[|chunks| - 1].data
  }

  lemma DivisionBounds(x: nat, size: nat)
    requires size > 0
    ensures (x / size) * size <= x < (x / size + 1) * size
  {
    assert x == (x / size) * size + x % size;
  }

  /** All chunks but the last are full, and together they cover the data. */
  lemma CountBounds(length: nat, size: nat)
    requires size > 0
    ensures (Count(length, size) - 1) * size <= length <= Count(length, size) * size
    ensures length > 0 ==> (Count(length, size) - 1) * size < length
  {
    DivisionBounds(length + size - 1, size);
    var q := (length + size - 1) / size;
    if q > 0 {
      assert (q - 1) * size == q * size - size;
      assert (q + 1) * size == q * size + size;
    } else {
      assert (q + 1) * size == size;
    }
  }

  lemma PieceLength(data: Bytes, size: nat, i: nat)
    requires size > 0 && i < Count(|data|, size)
    ensures |Piece(data, size, i)| == if i == Count(|data|, size) - 1 then |data| - i * size else size
    ensures |Piece(data, size, i)| <= size
    ensures i * size <= |data|
  {
    var count := Count(|data|, size);
    CountBounds(|data|, size);
    assert (i + 1) * size == i * size + size;
    if i < count - 1 {
      assert (i + 1) * size <= (count - 1) * size by { ProductMonotone(i + 1, count - 1, size); }
    }
  }

  lemma ProductMonotone(a: nat, b: nat, size: nat)
    requires a <= b
    ensures a * size <= b * size
  {
    assert b * size == a * size + (b - a) * size;
  }

  lemma {:induction false} JoinPrefix(data: Bytes, size: nat, k: nat)
    requires size > 0 && k <= Count(|data|, size)
    ensures Join(Split(data, size)[..k]) == data[..Min(k * size, |data|)]
  {
    var chunks := Split(data, size);
    if k > 0 {
      JoinPrefix(data, size, k - 1);
      assert chunks[..k][..k - 1] == chunks[..k - 1];
      assert (k - 1) * size <= k * size by { ProductMonotone(k - 1, k, size); }
      var a, b := Min((k - 1) * size, |data|), Min(k * size, |data|);
      assert data[..b] == data[..a] + data[a..b];
    } else {
      assert k * size == 0;
    }
  }

  /** Concatenating the chunks gives the data back. */
  lemma JoinSplit(data: Bytes, size: nat)
    requires size > 0
    ensures Join(Split(data, size)) == data
  {
    var chunks := Split(data, size);
    JoinPrefix(data, size, |chunks|);
    CountBounds(|data|, size);
    assert chunks[..|chunks|] == chunks && data[..|data|] == data;
  }

  method SplitChunks(data: Bytes, chunkSize: nat) returns (r: Result<seq<Chunk>, Error>)
    ensures r.Err? <==> chunkSize == 0 || chunkSize > MAX_INT
    ensures r.Ok? ==> r.value == Split(data, chunkSize)
  {
    if chunkSize == 0 || chunkSize > MAX_INT { return Err(InvalidChunkSize); }
    var chunkCount := (|data| + chunkSize - 1) / chunkSize;
    if chunkCount == 0 { chunkCount := 1; }
    var chunks: seq<Chunk> := [];
    for index := 0 to chunkCount
      invariant chunks == Split(data, chunkSize)[..index]
    {
      PieceLength(data, chunkSize, index);
      var start := index * chunkSize;
      var end := start + chunkSize;
      if end > |data| { end := |data|; }
      assert (index + 1) * chunkSize == start + chunkSize;
      chunks := chunks + [Chunk(index, data[start..end])];
    }
    r := Ok(chunks);
  }
}
