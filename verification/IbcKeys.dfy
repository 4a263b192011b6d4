/** The store keys of packets: decimal numbers, paths and the timeout index. */
module IbcKeys {
  import opened Types

  const SLASH: Byte := 0x2f

  // -------------------------------------------------------------------------- decimal numbers

  function Digit(d: nat): Byte
    requires d < 10
  {
    (0x30 + d) as Byte
  }

  function DigitValue(b: Byte): nat {
    if b < 0x30 then 0 else (b - 0x30) as nat
  }

  lemma DigitFacts(d: nat)
    requires d < 10
    ensures Digit(d) != SLASH && DigitValue(Digit(d)) == d
  {
    SmallByte(0x30 + d);
  }

  lemma SmallByte(x: nat)
    requires 0x30 <= x < 0x40
    ensures x as Byte >= 0x30 && (x as Byte - 0x30) as nat == x - 0x30
  {}

  /** A number without leading zeros. */
  function Decimal(n: nat): Bytes {
    if n < 10 then [Digit(n)] else Decimal(n / 10) + [Digit(n % 10)]
  }

  /** A number in a fixed number of digits. */
  function Fixed(n: nat, width: nat): (text: Bytes)
    ensures |text| == width
  {
    if width == 0 then [] else Fixed(n / 10, width - 1) + [Digit(n % 10)]
  }

  /** The number that some digits spell. */
  function Spelled(text: Bytes): nat {
    if |text| == 0 then 0 else Spelled(text[..|text| - 1]) * 10 + DigitValue(text[|text| - 1])
  }

  lemma {:induction false} DecimalFacts(n: nat)
    ensures SLASH !in Decimal(n) && Spelled(Decimal(n)) == n
  {
    hide Digit, DigitValue;
    DigitFacts(n % 10);
    if n >= 10 {
      DecimalFacts(n / 10);
      assert Decimal(n)[..|Decimal(n)| - 1] == Decimal(n / 10);
    } else {
      assert Spelled([Digit(n)][..0]) == 0;
    }
  }

  function Power10(k: nat): nat {
    if k == 0 then 1 else 10 * Power10(k - 1)
  }

  lemma {:induction false} FixedFacts(n: nat, width: nat)
    requires n < Power10(width)
    ensures SLASH !in Fixed(n, width) && Spelled(Fixed(n, width)) == n
  {
    hide Digit, DigitValue;
    if width > 0 {
      DigitFacts(n % 10);
      FixedFacts(n / 10, width - 1);
      assert Fixed(n, width)[..width - 1] == Fixed(n / 10, width - 1);
    }
  }

  lemma TwentyDigits()
    ensures MAX_UINT64 < Power10(20)
  {
    assert Power10(4) == 10000;
    assert Power10(8) == 10000_0000;
    assert Power10(12) == 10000_0000_0000;
    assert Power10(16) == 10000_0000_0000_0000;
  }

  // ------------------------------------------------------------------------------------ keys

  const PACKETS: Bytes := [0x70, 0x61, 0x63, 0x6b, 0x65, 0x74, 0x73, 0x2f]
  const TIMEOUTS: Bytes := [0x70, 0x61, 0x63, 0x6b, 0x65, 0x74, 0x2d, 0x74, 0x69, 0x6d, 0x65, 0x6f, 0x75, 0x74, 0x73, 0x2f]
  const SEQUENCES: Bytes := [0x6e, 0x65, 0x78, 0x74, 0x2d, 0x73, 0x65, 0x71, 0x75, 0x65, 0x6e, 0x63, 0x65, 0x2f]

  /** The key of a packet on a path, where a path is a port and a channel joined by a slash. */
  function PacketKey(path: Bytes, sequence: nat): Bytes {
    PACKETS + path + [SLASH] + Decimal(sequence)
  }

  function SequenceKey(path: Bytes): Bytes {
    SEQUENCES + path
  }

  function TimeoutPrefix(height: nat): Bytes {
    TIMEOUTS + Fixed(height, 20) + [SLASH]
  }

  function TimeoutKey(height: nat, path: Bytes, sequence: nat): Bytes {
    TimeoutPrefix(height) + PacketKey(path, sequence)
  }

  /** The path and the number can be read off a packet key, slashes in the path or not. */
  lemma PacketKeyInjective(p: Bytes, n: nat, q: Bytes, m: nat)
    requires PacketKey(p, n) == PacketKey(q, m)
    ensures p == q && n == m
  {
    hide Decimal;
    DecimalFacts(n);
    DecimalFacts(m);
    var s, t := PacketKey(p, n), PacketKey(q, m);
    LastSlash(p, Decimal(n), q, Decimal(m));
  }

  lemma LastSlash(p: Bytes, a: Bytes, q: Bytes, b: Bytes)
    requires PACKETS + p + [SLASH] + a == PACKETS + q + [SLASH] + b && SLASH !in a && SLASH !in b
    ensures p == q && a == b
  {
    var s, t := PACKETS + p + [SLASH] + a, PACKETS + q + [SLASH] + b;
    var i, j := 8 + |p|, 8 + |q|;
    assert s[i] == SLASH && t[j] == SLASH;
    forall k | i < k < |s| ensures s[k] != SLASH { assert s[k] == a[k - i - 1]; }
    forall k | j < k < |t| ensures t[k] != SLASH { assert t[k] == b[k - j - 1]; }
    assert i == j;
    assert s[8..i] == p && t[8..j] == q && s[i + 1..] == a && t[j + 1..] == b;
  }

  lemma TimeoutKeyInjective(h: Uint64, p: Bytes, n: nat, g: Uint64, q: Bytes, m: nat)
    requires TimeoutKey(h, p, n) == TimeoutKey(g, q, m)
    ensures h == g && p == q && n == m
  {
    hide Fixed, PacketKey;
    TwentyDigits();
    FixedFacts(h, 20);
    FixedFacts(g, 20);
    var s, t := TimeoutKey(h, p, n), TimeoutKey(g, q, m);
    assert s[16..36] == Fixed(h, 20) && t[16..36] == Fixed(g, 20);
    assert s[37..] == PacketKey(p, n) && t[37..] == PacketKey(q, m);
    PacketKeyInjective(p, n, q, m);
  }

  /** Keys of different kinds differ. */
  lemma KindsDiffer(h: nat, p: Bytes, n: nat, q: Bytes, m: nat, r: Bytes)
    ensures PacketKey(p, n) != TimeoutKey(h, q, m) && PacketKey(p, n) != SequenceKey(r) && TimeoutKey(h, q, m) != SequenceKey(r)
  {
    hide Fixed, Decimal;
    assert PacketKey(p, n)[6] == 0x73 && TimeoutKey(h, q, m)[6] == 0x2d;
    assert PacketKey(p, n)[0] == 0x70 && TimeoutKey(h, q, m)[0] == 0x70 && SequenceKey(r)[0] == 0x6e;
  }

  lemma SequenceKeyInjective(p: Bytes, q: Bytes)
    requires SequenceKey(p) == SequenceKey(q)
    ensures p == q
  {
    assert SequenceKey(p)[14..] == p && SequenceKey(q)[14..] == q;
  }

  /** Only index keys of one height start with its prefix. */
  lemma PrefixOfHeight(h: Uint64, g: Uint64, p: Bytes, n: nat)
    ensures TimeoutPrefix(h) <= TimeoutKey(g, p, n) <==> h == g
  {
    hide Fixed, PacketKey;
    TwentyDigits();
    FixedFacts(h, 20);
    FixedFacts(g, 20);
    var t := TimeoutKey(g, p, n);
    if TimeoutPrefix(h) <= t {
      assert t[..37] == TimeoutPrefix(h);
      assert t[..37][16..36] == t[16..36];
      assert TimeoutPrefix(h)[16..36] == Fixed(h, 20) && t[16..36] == Fixed(g, 20);
    }
  }

  // --------------------------------------------------------------- finding the packet key back

  const SEPARATOR: Bytes := [0x2f, 0x70, 0x61, 0x63, 0x6b, 0x65, 0x74, 0x73, 0x2f]

  predicate SeparatorAt(key: Bytes, i: nat) {
    i + 9 <= |key| && key[i..i + 9] == SEPARATOR
  }

  /** The part of an index key after the first slash that a packet key follows. */
  method PacketKeyOf(key: Bytes) returns (packetKey: Bytes)
    ensures forall h: Uint64, p, n :: key == TimeoutKey(h, p, n) ==> packetKey == PacketKey(p, n)
    ensures packetKey == [] ==> forall i: nat :: !SeparatorAt(key, i)
  {
    hide TimeoutKey, SeparatorAt;
    var i := 0;
    while i + 9 <= |key| && !SeparatorAt(key, i)
      invariant forall j: nat | j < i :: !SeparatorAt(key, j)
    {
      i := i + 1;
    }
    forall h: Uint64, p, n | key == TimeoutKey(h, p, n) ensures 45 <= |key| && i == 36 && key[37..] == PacketKey(p, n) {
      FirstSeparator(h, p, n);
    }
    if i + 9 > |key| {
      forall j: nat ensures !SeparatorAt(key, j) { SeparatorFits(key, j); }
      return [];
    }
    return key[i + 1..];
  }

  lemma FirstSeparator(h: Uint64, p: Bytes, n: nat)
    ensures var key := TimeoutKey(h, p, n);
      45 <= |key| && SeparatorAt(key, 36) && key[37..] == PacketKey(p, n) && forall i: nat | i < 36 :: !SeparatorAt(key, i)
  {
    hide Fixed, Decimal, SeparatorAt;
    TwentyDigits();
    FixedFacts(h, 20);
    var key := TimeoutKey(h, p, n);
    assert key[37..] == PacketKey(p, n);
    assert key[36] == SLASH;
    assert key[37..45] == PACKETS;
    assert SeparatorAt(key, 36) by { SeparatorHere(key, 36); }
    forall i: nat | i < 36 ensures !SeparatorAt(key, i) {
      SeparatorStart(key, i);
      if i < 15 {
        assert key[i] == TIMEOUTS[i];
        NoSlash(i);
      } else if i == 15 {
        assert key[16] == Fixed(h, 20)[0];
        NotP(h);
      } else {
        assert key[i] == Fixed(h, 20)[i - 16];
        assert Fixed(h, 20)[i - 16] in Fixed(h, 20);
      }
    }
  }

  lemma SeparatorHere(key: Bytes, i: nat)
    requires i + 9 <= |key| && key[i] == SLASH && key[i + 1..i + 9] == PACKETS
    ensures SeparatorAt(key, i)
  {
    assert key[i..i + 9] == [key[i]] + key[i + 1..i + 9];
  }

  lemma SeparatorFits(key: Bytes, i: nat)
    ensures SeparatorAt(key, i) ==> i + 9 <= |key|
  {}

  lemma SeparatorStart(key: Bytes, i: nat)
    ensures SeparatorAt(key, i) ==> key[i] == SLASH && key[i + 1] == 0x70
  {
    if SeparatorAt(key, i) {
      assert key[i..i + 9][0] == SEPARATOR[0] && key[i..i + 9][1] == SEPARATOR[1];
    }
  }

  lemma NoSlash(i: nat)
    requires i < 15
    ensures TIMEOUTS[i] != SLASH
  {}

  lemma NotP(h: nat)
    ensures Fixed(h, 20)[0] != 0x70
  {
    FixedDigits(h, 20, 0);
  }

  lemma {:induction false} FixedDigits(n: nat, width: nat, i: nat)
    requires i < width
    ensures Fixed(n, width)[i] <= 0x39
  {
    if i < width - 1 {
      FixedDigits(n / 10, width - 1, i);
    } else {
      DigitSmall(n % 10);
    }
  }

  lemma DigitSmall(d: nat)
    requires d < 10
    ensures Digit(d) <= 0x39
  {}
}
