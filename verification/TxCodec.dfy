/** The length-prefixed transaction encoding that data availability commits to. */
module TxCodec {
  import opened Types

  datatype Error = InvalidEncoding

  /** The low k base-256 digits of n, most significant first. */
  function BigEndian(n: nat, k: nat): (b: Bytes)
    ensures |b| == k
  {
    if k == 0 then [] else BigEndian(n / 256, k - 1) + [(n % 256) as Byte]
  }

  function FromBigEndian(b: Bytes): nat {
    if |b| == 0 then 0 else FromBigEndian(b[..|b| - 1]) * 256 + b[|b| - 1] as nat
  }

  function Uint64(n: nat): (b: Bytes)
    ensures |b| == 8
  {
    BigEndian(n, 8)
  }

  function Limit(k: nat): nat {
    if k == 0 then 1 else 256 * Limit(k - 1)
  }

  lemma {:induction false} FromBigEndianInverts(n: nat, k: nat)
    requires n < Limit(k)
    ensures FromBigEndian(BigEndian(n, k)) == n
  {
    if k > 0 {
      var high, low := n / 256, n % 256;
      assert n == high * 256 + low && high < Limit(k - 1);
      FromBigEndianInverts(high, k - 1);
      ByteOf(low);
      var b := BigEndian(n, k);
      assert b[..k - 1] == BigEndian(high, k - 1) && b[k - 1] == low as Byte;
    }
  }

  /** Converting a number to a byte and back; in slices, which the bit-vector solver finds easier. */
  lemma ByteOf(x: nat)
    requires x < 256
    ensures (x as Byte) as nat == x
  {
    if x < 32 { Slice0(x); }
    else if x < 64 { Slice1(x); }
    else if x < 96 { Slice2(x); }
    else if x < 128 { Slice3(x); }
    else if x < 160 { Slice4(x); }
    else if x < 192 { Slice5(x); }
    else if x < 224 { Slice6(x); }
    else { Slice7(x); }
  }

  lemma Slice0(x: nat)
    requires 0 <= x < 32
    ensures (x as Byte) as nat == x
  {}

  lemma Slice1(x: nat)
    requires 32 <= x < 64
    ensures (x as Byte) as nat == x
  {}

  lemma Slice2(x: nat)
    requires 64 <= x < 96
    ensures (x as Byte) as nat == x
  {}

  lemma Slice3(x: nat)
    requires 96 <= x < 128
    ensures (x as Byte) as nat == x
  {}

  lemma Slice4(x: nat)
    requires 128 <= x < 160
    ensures (x as Byte) as nat == x
  {}

  lemma Slice5(x: nat)
    requires 160 <= x < 192
    ensures (x as Byte) as nat == x
  {}

  lemma Slice6(x: nat)
    requires 192 <= x < 224
    ensures (x as Byte) as nat == x
  {}

  lemma Slice7(x: nat)
    requires 224 <= x < 256
    ensures (x as Byte) as nat == x
  {}

  lemma {:induction false} BigEndianInverts(b: Bytes)
    ensures BigEndian(FromBigEndian(b), |b|) == b && FromBigEndian(b) < Limit(|b|)
  {
    if |b| > 0 {
      var high, low := b[..|b| - 1], b[|b| - 1];
      BigEndianInverts(high);
      var n := FromBigEndian(b);
      assert n / 256 == FromBigEndian(high) && n % 256 == low as nat;
      assert b == high + [low];
    }
  }

  lemma Uint64Range(n: nat)
    ensures n < Limit(8) <==> n <= MAX_UINT64
  {
    assert Limit(8) == 0x1_0000_0000_0000_0000;
  }

  /** 256 to the power of k. */
  ghost function Place(k: nat): (place: nat)
    ensures place > 0
  {
    if k == 0 then 1 else 256 * Place(k - 1)
  }

  /** The bytes are the digits of the number, the most significant one first. */
  lemma {:induction false} DigitAt(n: nat, k: nat, i: nat)
    requires i < k
    ensures BigEndian(n, k)[i] as nat == n / Place(k - 1 - i) % 256
  {
    if i == k - 1 {
      ByteOf(n % 256);
    } else {
      DigitAt(n / 256, k - 1, i);
      DivideTwice(n, Place(k - 2 - i));
    }
  }

  lemma DivideTwice(n: nat, d: nat)
    requires d > 0
    ensures n / 256 / d == n / (256 * d)
  {
    var q := n / 256 / d;
    assert n / 256 == q * d + n / 256 % d && n == n / 256 * 256 + n % 256;
    var r := n - q * (256 * d);
    assert q * (256 * d) == q * d * 256;
    assert r == n / 256 % d * 256 + n % 256;
    assert 0 <= r < 256 * d;
    QuotientUnique(n, 256 * d, q, r);
  }

  lemma QuotientUnique(n: nat, d: nat, q: nat, r: nat)
    requires d > 0 && n == q * d + r && r < d
    ensures n / d == q
  {
    var p := n / d;
    assert n == p * d + n % d;
    assert (p + 1) * d == p * d + d && (q + 1) * d == q * d + d;
    Scaled(p + 1, q, d);
    Scaled(q + 1, p, d);
  }

  lemma Scaled(a: nat, b: nat, d: nat)
    ensures a <= b ==> a * d <= b * d
  {
    if a <= b {
      assert (b - a) * d >= 0;
      assert b * d == a * d + (b - a) * d;
    }
  }

  /** Lengths that a uint64 holds; every Go slice has such a length. */
  predicate Fits(txs: seq<Bytes>) {
    |txs| <= MAX_UINT64 && forall i | 0 <= i < |txs| :: |txs[i]| <= MAX_UINT64
  }

  function Body(txs: seq<Bytes>): Bytes {
    if |txs| == 0 then [] else Uint64(|txs[0]|) + txs[0] + Body(txs[1..])
  }

  function Encode(txs: seq<Bytes>): (data: Bytes)
    ensures |data| >= 8
  {
    Uint64(|txs|) + Body(txs)
  }

  /** What remains of the decoder's loop with `left` transactions to read at `offset`. */
  function DecodeFrom(data: Bytes, offset: nat, left: nat, txs: seq<Bytes>): Result<seq<Bytes>, Error>
    requires offset <= |data|
    decreases left
  {
    if left == 0 then
      if offset == |data| then Ok(txs) else Err(InvalidEncoding)
    else if |data| - offset < 8 then Err(InvalidEncoding)
    else
      var size := FromBigEndian(data[offset..offset + 8]);
      if size > |data| - (offset + 8) then Err(InvalidEncoding)
      else DecodeFrom(data, offset + 8 + size, left - 1, txs + [data[offset + 8..offset + 8 + size]])
  }

  function Decode(data: Bytes): Result<seq<Bytes>, Error> {
    if |data| < 8 then Err(InvalidEncoding)
    else DecodeFrom(data, 8, FromBigEndian(data[..8]), [])
  }

  lemma {:induction false} BodyAppend(txs: seq<Bytes>, tx: Bytes)
    ensures Body(txs + [tx]) == Body(txs) + Uint64(|tx|) + tx
  {
    if |txs| == 0 {
      assert txs + [tx] == [tx];
    } else {
      BodyAppend(txs[1..], tx);
      assert (txs + [tx])[1..] == txs[1..] + [tx];
    }
  }

  method EncodeTransactions(txs: seq<Bytes>) returns (encoded: Bytes)
    ensures encoded == Encode(txs)
  {
    encoded := Uint64(|txs|);
    for i := 0 to |txs|
      invariant encoded == Uint64(|txs|) + Body(txs[..i])
    {
      BodyAppend(txs[..i], txs[i]);
      assert txs[..i + 1] == txs[..i] + [txs[i]];
      encoded := encoded + Uint64(|txs[i]|);
      encoded := encoded + txs[i];
    }
    assert txs[..|txs|] == txs;
  }

  method DecodeTransactions(data: Bytes) returns (r: Result<seq<Bytes>, Error>)
    ensures r == Decode(data)
  {
    if |data| < 8 { return Err(InvalidEncoding); }
    var count := FromBigEndian(data[..8]);
    var offset := 8;
    var txs: seq<Bytes> := [];
    for index := 0 to count
      invariant 8 <= offset <= |data|
      invariant Decode(data) == DecodeFrom(data, offset, count - index, txs)
    {
      if |data| - offset < 8 { return Err(InvalidEncoding); }
      var size := FromBigEndian(data[offset..offset + 8]);
      offset := offset + 8;
      if size > |data| - offset { return Err(InvalidEncoding); }
      txs := txs + [data[offset..offset + size]];
      offset := offset + size;
    }
    if offset != |data| { return Err(InvalidEncoding); }
    r := Ok(txs);
  }

  lemma {:induction false} DecodeFromBody(data: Bytes, offset: nat, rest: seq<Bytes>, txs: seq<Bytes>)
    requires offset <= |data| && data[offset..] == Body(rest) && Fits(rest)
    ensures DecodeFrom(data, offset, |rest|, txs) == Ok(txs + rest)
    decreases rest
  {
    hide FromBigEndian, BigEndian, Limit;
    if |rest| == 0 {
      assert txs + rest == txs;
    } else {
      var tx := rest[0];
      var size := |tx|;
      var tail := data[offset..];
      assert tail[..8] == Uint64(size) && tail[8..8 + size] == tx && tail[8 + size..] == Body(rest[1..]);
      assert data[offset..offset + 8] == tail[..8];
      assert data[offset + 8..offset + 8 + size] == tail[8..8 + size];
      assert data[offset + 8 + size..] == tail[8 + size..];
      Uint64Range(size);
      FromBigEndianInverts(size, 8);
      DecodeFromBody(data, offset + 8 + size, rest[1..], txs + [tx]);
      assert txs + [tx] + rest[1..] == txs + rest;
    }
  }

  lemma {:induction false} BodyOfDecoded(data: Bytes, offset: nat, left: nat, txs: seq<Bytes>) returns (rest: seq<Bytes>)
    requires offset <= |data| && DecodeFrom(data, offset, left, txs).Ok? && |data| <= MAX_UINT64
    ensures DecodeFrom(data, offset, left, txs) == Ok(txs + rest)
    ensures |rest| == left && data[offset..] == Body(rest)
    ensures forall i | 0 <= i < |rest| :: |rest[i]| <= MAX_UINT64
    decreases left
  {
    hide FromBigEndian, BigEndian, Limit;
    if left == 0 {
      rest := [];
      assert txs + rest == txs;
    } else {
      var prefix := data[offset..offset + 8];
      var size := FromBigEndian(prefix);
      var tx := data[offset + 8..offset + 8 + size];
      var tail := BodyOfDecoded(data, offset + 8 + size, left - 1, txs + [tx]);
      rest := [tx] + tail;
      BigEndianInverts(prefix);
      assert rest[1..] == tail;
      assert txs + rest == txs + [tx] + tail;
      assert data[offset..] == prefix + tx + data[offset + 8 + size..];
    }
  }

  /** Decoding an encoding gives the transactions back. */
  lemma DecodeEncode(txs: seq<Bytes>)
    requires Fits(txs)
    ensures Decode(Encode(txs)) == Ok(txs)
  {
    var data := Encode(txs);
    assert data[..8] == Uint64(|txs|) && data[8..] == Body(txs);
    Uint64Range(|txs|);
    FromBigEndianInverts(|txs|, 8);
    DecodeFromBody(data, 8, txs, []);
    assert [] + txs == txs;
  }

  /** The decoder accepts nothing but encodings, so the encoding is canonical. */
  lemma EncodeDecode(data: Bytes)
    requires |data| <= MAX_UINT64 && Decode(data).Ok?
    ensures Fits(Decode(data).value) && Encode(Decode(data).value) == data
  {
    var count := FromBigEndian(data[..8]);
    var rest := BodyOfDecoded(data, 8, count, []);
    assert [] + rest == rest;
    BigEndianInverts(data[..8]);
    Uint64Range(count);
    assert data == data[..8] + data[8..];
  }
}
