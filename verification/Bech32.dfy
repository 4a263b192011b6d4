/** Bech32 text: a human readable part, the payload in 5-bit symbols, and a checksum over GF(32). */
module Bech32 {
  import opened Types
  import opened BitGroups

  // ------------------------------------------------------------------------ the checksum

  function Xor(a: bv32, b: bv32): bv32 {
    a ^ b
  }

  const GENERATORS: seq<bv32> := [0x3b6a57b2, 0x26508e6d, 0x1ea119fa, 0x3d4233dd, 0x2a1462b3]

  /** The generator, if its bit of the top symbol is set. */
  function Selected(top: bv32, i: nat): bv32
    requires i < |GENERATORS|
  {
    if (top >> i) & 1 == 1 then GENERATORS[i] else 0
  }

  function Feedback(top: bv32, count: nat): bv32
    requires count <= |GENERATORS|
  {
    if count == 0 then 0 else Xor(Feedback(top, count - 1), Selected(top, count - 1))
  }

  function Shifted(checksum: bv32): bv32 {
    (checksum & 0x1ff_ffff) << 5
  }

  function Top(checksum: bv32): bv32 {
    checksum >> 25
  }

  function Step(checksum: bv32, value: bv32): bv32 {
    Xor(Xor(Shifted(checksum), value), Feedback(Top(checksum), |GENERATORS|))
  }

  /** The checksum register after reading more values. */
  function Fold(checksum: bv32, values: seq<nat>): bv32
    requires Fit(values, 5)
  {
    if |values| == 0 then checksum
    else Step(Fold(checksum, values[..|values| - 1]), Word(values[|values| - 1]))
  }

  /** A symbol as a machine word. */
  function Word(symbol: nat): (w: bv32)
    requires symbol < Pow2(5)
    ensures w < 32
  {
    WordRange(symbol);
    symbol as bv32
  }

  lemma WordRange(x: nat)
    requires x < Pow2(5)
    ensures x < 32 && x as bv32 < 32 && (x as bv32) as nat == x
  {
    hide Pow2;
    Widths();
    SmallWord(x);
  }

  lemma SmallWord(x: nat)
    requires x < 32
    ensures x as bv32 < 32 && (x as bv32) as nat == x
  {}

  lemma Widths()
    ensures Pow2(5) == 32 && Pow2(8) == 256
  {
    assert Pow2(4) == 16;
  }

  lemma XorLaws(a: bv32, b: bv32, c: bv32, d: bv32)
    ensures Xor(Xor(a, b), Xor(c, d)) == Xor(Xor(a, c), Xor(b, d))
    ensures Xor(a, 0) == a == Xor(0, a) && Xor(a, a) == 0 && Xor(a, b) == Xor(b, a)
    ensures Xor(Xor(a, b), b) == a
  {}

  lemma TopLinear(a: bv32, b: bv32)
    ensures Top(Xor(a, b)) == Xor(Top(a), Top(b))
    ensures Shifted(Xor(a, b)) == Xor(Shifted(a), Shifted(b))
  {}

  lemma BitLinear(a: bv32, b: bv32, i: nat)
    requires i < 5
    ensures ((a ^ b) >> i) & 1 == ((a >> i) & 1) ^ ((b >> i) & 1)
    ensures (a >> i) & 1 == 0 || (a >> i) & 1 == 1
  {}

  lemma SelectedLinear(a: bv32, b: bv32, i: nat)
    requires i < |GENERATORS|
    ensures Selected(Xor(a, b), i) == Xor(Selected(a, i), Selected(b, i))
  {
    BitLinear(a, b, i);
    BitLinear(b, a, i);
  }

  lemma {:induction false} FeedbackLinear(a: bv32, b: bv32, count: nat)
    requires count <= |GENERATORS|
    ensures Feedback(Xor(a, b), count) == Xor(Feedback(a, count), Feedback(b, count))
  {
    hide Xor, Selected;
    if count == 0 {
      XorLaws(0, 0, 0, 0);
    } else {
      FeedbackLinear(a, b, count - 1);
      SelectedLinear(a, b, count - 1);
      XorLaws(Feedback(a, count - 1), Feedback(b, count - 1), Selected(a, count - 1), Selected(b, count - 1));
    }
  }

  /** One step of the register is linear in the register and the value. */
  lemma StepLinear(a: bv32, b: bv32, v: bv32, w: bv32)
    ensures Step(Xor(a, b), Xor(v, w)) == Xor(Step(a, v), Step(b, w))
  {
    hide Xor, Shifted, Top, Feedback;
    TopLinear(a, b);
    FeedbackLinear(Top(a), Top(b), |GENERATORS|);
    XorLaws(Shifted(a), Shifted(b), v, w);
    XorLaws(Xor(Shifted(a), v), Xor(Shifted(b), w), Feedback(Top(a), |GENERATORS|), Feedback(Top(b), |GENERATORS|));
  }

  /** So reading values is linear: the register's share and the values' share add up. */
  lemma {:induction false} FoldLinear(a: bv32, b: bv32, values: seq<nat>, zeros: seq<nat>)
    requires Fit(values, 5) && |zeros| == |values| && forall i | 0 <= i < |zeros| :: zeros[i] == 0
    ensures Fit(zeros, 5)
    ensures Fold(Xor(a, b), values) == Xor(Fold(a, zeros), Fold(b, values))
  {
    hide Xor, Step, Pow2, Word;
    if |values| > 0 {
      var last := |values| - 1;
      FoldLinear(a, b, values[..last], zeros[..last]);
      var w := Word(values[last]);
      StepLinear(Fold(a, zeros[..last]), Fold(b, values[..last]), Word(0), w);
      assert Word(0) == 0 by { WordZero(); }
      XorLaws(w, w, w, w);
    }
  }

  lemma WordZero()
    ensures Word(0) == 0
  {}

  lemma {:induction false} FoldAppend(checksum: bv32, a: seq<nat>, b: seq<nat>)
    requires Fit(a, 5) && Fit(b, 5)
    ensures Fit(a + b, 5) && Fold(checksum, a + b) == Fold(Fold(checksum, a), b)
  {
    hide Step, Word, Pow2;
    if |b| == 0 {
      assert a + b == a;
    } else {
      var last := |b| - 1;
      FoldAppend(checksum, a, b[..last]);
      assert (a + b)[..|a + b| - 1] == a + b[..last];
    }
  }

  // ---------------------------------------------------------------------- six symbols

  /** One symbol up. */
  function Up(word: bv32): bv32 {
    word << 5
  }

  function Join(high: bv32, low: bv32): bv32 {
    (high << 5) ^ low
  }

  function PackWords(a: bv32, b: bv32, c: bv32, d: bv32, e: bv32, f: bv32): bv32 {
    Join(Join(Join(Join(Join(a, b), c), d), e), f)
  }

  /** Six symbols side by side in a 30-bit word. */
  function Pack(s: seq<nat>): bv32
    requires |s| == 6 && Fit(s, 5)
  {
    PackWords(Word(s[0]), Word(s[1]), Word(s[2]), Word(s[3]), Word(s[4]), Word(s[5]))
  }

  lemma JoinRange(x: bv32, w: bv32)
    requires w < 32
    ensures x < 0x20 ==> Join(x, w) < 0x400
    ensures x < 0x400 ==> Join(x, w) < 0x8000
    ensures x < 0x8000 ==> Join(x, w) < 0x10_0000
    ensures x < 0x10_0000 ==> Join(x, w) < 0x200_0000
  {}

  /** While the top symbol is zero the register only shifts. */
  lemma StepSmall(x: bv32, w: bv32)
    requires x < 0x200_0000
    ensures Step(x, w) == Join(x, w)
  {
    assert Top(x) == 0;
    assert Selected(0, 0) == Selected(0, 1) == Selected(0, 2) == Selected(0, 3) == Selected(0, 4) == 0;
    FeedbackZero(|GENERATORS|);
  }

  lemma {:induction false} FeedbackZero(count: nat)
    requires count <= |GENERATORS|
    ensures Feedback(0, count) == 0
  {
    if count > 0 { FeedbackZero(count - 1); }
  }

  lemma SixSteps(a: bv32, b: bv32, c: bv32, d: bv32, e: bv32, f: bv32)
    requires a < 32 && b < 32 && c < 32 && d < 32 && e < 32 && f < 32
    ensures Step(Step(Step(Step(Step(Step(0, a), b), c), d), e), f) == PackWords(a, b, c, d, e, f)
  {
    hide Step, Join;
    assert Step(0, a) == a by { StepSmall(0, a); JoinZero(a); }
    StepSmall(a, b);
    JoinRange(a, b);
    StepSmall(Join(a, b), c);
    JoinRange(Join(a, b), c);
    StepSmall(Join(Join(a, b), c), d);
    JoinRange(Join(Join(a, b), c), d);
    StepSmall(Join(Join(Join(a, b), c), d), e);
    JoinRange(Join(Join(Join(a, b), c), d), e);
    StepSmall(Join(Join(Join(Join(a, b), c), d), e), f);
  }

  lemma JoinZero(a: bv32)
    ensures Join(0, a) == a
  {}

  lemma FoldSix(s: seq<nat>)
    requires |s| == 6 && Fit(s, 5)
    ensures Fold(0, s) == Pack(s)
  {
    hide Step, Join, Pow2, Word, PackWords;
    assert s[..5][..4] == s[..4] && s[..4][..3] == s[..3] && s[..3][..2] == s[..2] && s[..2][..1] == s[..1];
    assert Fold(0, s[..1]) == Step(0, Word(s[0])) by { assert s[..1][..0] == []; }
    assert Fold(0, s[..2]) == Step(Fold(0, s[..1]), Word(s[1]));
    assert Fold(0, s[..3]) == Step(Fold(0, s[..2]), Word(s[2]));
    assert Fold(0, s[..4]) == Step(Fold(0, s[..3]), Word(s[3]));
    assert Fold(0, s[..5]) == Step(Fold(0, s[..4]), Word(s[4]));
    SixSteps(Word(s[0]), Word(s[1]), Word(s[2]), Word(s[3]), Word(s[4]), Word(s[5]));
  }

  /** The core of the code: six more symbols add themselves to the register that six zeros leave. */
  lemma ChecksumIsLinear(checksum: bv32, values: seq<nat>, s: seq<nat>)
    requires Fit(values, 5) && |s| == 6 && Fit(s, 5)
    ensures Fit(values + s, 5) && Fit(values + ZEROS, 5)
    ensures Fold(checksum, values + s) == Xor(Fold(checksum, values + ZEROS), Pack(s))
  {
    hide Xor, Pow2, Fold, Pack;
    var x := Fold(checksum, values);
    FoldAppend(checksum, values, s);
    FoldLinear(x, 0, s, ZEROS);
    FoldAppend(checksum, values, ZEROS);
    XorLaws(x, x, x, x);
    FoldSix(s);
  }

  const ZEROS: seq<nat> := [0, 0, 0, 0, 0, 0]

  // ------------------------------------------------------------------ taking symbols apart

  /** Symbol i, found 5 * (5 - i) bits up. */
  function Digit(p: bv32, i: nat): bv32
    requires i < 6
  {
    match i
    case 0 => (p >> 25) & 31
    case 1 => (p >> 20) & 31
    case 2 => (p >> 15) & 31
    case 3 => (p >> 10) & 31
    case 4 => (p >> 5) & 31
    case 5 => p & 31
  }

  lemma DigitRange(p: bv32, i: nat)
    requires i < 6
    ensures Digit(p, i) < 32 && Digit(p, i) as nat < Pow2(5)
    ensures Digit(p, i) as nat as bv32 == Digit(p, i)
  {
    assert Digit(p, i) < 32;
    SmallNat(Digit(p, i));
    Widths();
  }

  lemma SmallNat(w: bv32)
    requires w < 32
    ensures w as nat < 32 && w as nat as bv32 == w
  {}

  function Unpack(p: bv32): (s: seq<nat>)
    ensures |s| == 6 && Fit(s, 5)
  {
    var s := seq(6, i requires 0 <= i < 6 => Digit(p, i) as nat);
    assert Fit(s, 5) by {
      forall i | 0 <= i < 6 ensures s[i] < Pow2(5) { DigitRange(p, i); }
    }
    s
  }

  lemma DigitShifts(p: bv32)
    ensures Digit(p, 0) == (p >> 25) & 31 && Digit(p, 1) == (p >> 20) & 31 && Digit(p, 2) == (p >> 15) & 31
    ensures Digit(p, 3) == (p >> 10) & 31 && Digit(p, 4) == (p >> 5) & 31 && Digit(p, 5) == p & 31
  {}

  lemma JoinHigh(p: bv32)
    requires p < 0x4000_0000
    ensures (p >> 25) & 31 == p >> 25
    ensures Join(p >> 25, (p >> 20) & 31) == p >> 20
    ensures Join(p >> 20, (p >> 15) & 31) == p >> 15
  {}

  lemma JoinLow(p: bv32)
    ensures Join(p >> 15, (p >> 10) & 31) == p >> 10
    ensures Join(p >> 10, (p >> 5) & 31) == p >> 5
    ensures Join(p >> 5, p & 31) == p
  {}

  lemma Repack(p: bv32)
    requires p < 0x4000_0000
    ensures PackWords(Digit(p, 0), Digit(p, 1), Digit(p, 2), Digit(p, 3), Digit(p, 4), Digit(p, 5)) == p
  {
    hide Digit, Join;
    DigitShifts(p);
    JoinHigh(p);
    JoinLow(p);
  }

  lemma PackUnpack(p: bv32)
    requires p < 0x4000_0000
    ensures Pack(Unpack(p)) == p
  {
    hide Digit, Pow2, PackWords, Word;
    forall i | 0 <= i < 6 ensures Word(Unpack(p)[i]) == Digit(p, i) { WordDigit(p, i); }
    Repack(p);
  }

  lemma WordDigit(p: bv32, i: nat)
    requires i < 6
    ensures Word(Unpack(p)[i]) == Digit(p, i)
  {
    hide Digit, Pow2;
    DigitRange(p, i);
  }

  lemma ShiftsOfWords(a: bv32, b: bv32, c: bv32, d: bv32, e: bv32, f: bv32)
    requires a < 32 && b < 32 && c < 32 && d < 32 && e < 32 && f < 32
    ensures var p := PackWords(a, b, c, d, e, f);
      (p >> 25) & 31 == a && (p >> 20) & 31 == b && (p >> 15) & 31 == c && (p >> 10) & 31 == d && (p >> 5) & 31 == e && p & 31 == f
  {}

  lemma DigitsOfWords(a: bv32, b: bv32, c: bv32, d: bv32, e: bv32, f: bv32)
    requires a < 32 && b < 32 && c < 32 && d < 32 && e < 32 && f < 32
    ensures var p := PackWords(a, b, c, d, e, f);
      Digit(p, 0) == a && Digit(p, 1) == b && Digit(p, 2) == c && Digit(p, 3) == d && Digit(p, 4) == e && Digit(p, 5) == f
  {
    hide PackWords, Digit;
    ShiftsOfWords(a, b, c, d, e, f);
    DigitShifts(PackWords(a, b, c, d, e, f));
  }

  lemma DigitPack(s: seq<nat>, i: nat)
    requires |s| == 6 && Fit(s, 5) && i < 6
    ensures Digit(Pack(s), i) == Word(s[i])
  {
    hide Digit, PackWords, Pow2, Word;
    DigitsOfWords(Word(s[0]), Word(s[1]), Word(s[2]), Word(s[3]), Word(s[4]), Word(s[5]));
  }

  lemma UnpackPack(s: seq<nat>)
    requires |s| == 6 && Fit(s, 5)
    ensures Unpack(Pack(s)) == s
  {
    hide Digit, Pack, Pow2;
    forall i | 0 <= i < 6 ensures Unpack(Pack(s))[i] == s[i] {
      DigitPack(s, i);
      WordRange(s[i]);
    }
  }

  // ------------------------------------------------------------------------- valid sums

  lemma XorRange(a: bv32, b: bv32)
    requires a < 0x4000_0000 && b < 0x4000_0000
    ensures Xor(a, b) < 0x4000_0000
  {}

  lemma {:induction false} FeedbackRange(top: bv32, count: nat)
    requires count <= |GENERATORS|
    ensures Feedback(top, count) < 0x4000_0000
  {
    hide Xor;
    if count > 0 {
      FeedbackRange(top, count - 1);
      XorRange(Feedback(top, count - 1), Selected(top, count - 1));
    }
  }

  lemma StepRange(x: bv32, w: bv32)
    requires w < 32
    ensures Step(x, w) < 0x4000_0000
  {
    hide Xor, Feedback;
    assert Shifted(x) < 0x4000_0000;
    FeedbackRange(Top(x), |GENERATORS|);
    XorRange(Shifted(x), w);
    XorRange(Xor(Shifted(x), w), Feedback(Top(x), |GENERATORS|));
  }

  lemma FoldRange(checksum: bv32, values: seq<nat>)
    requires Fit(values, 5) && checksum < 0x4000_0000
    ensures Fold(checksum, values) < 0x4000_0000
  {
    hide Step, Word, Pow2;
    if |values| > 0 {
      var last := |values| - 1;
      StepRange(Fold(checksum, values[..last]), Word(values[last]));
    }
  }

  function Checksum(values: seq<nat>): (s: seq<nat>)
    requires Fit(values, 5)
    ensures |s| == 6 && Fit(s, 5)
  {
    assert Fit(values + ZEROS, 5);
    Unpack(Xor(Fold(1, values + ZEROS), 1))
  }

  /** Exactly one choice of six symbols completes the values to a valid word. */
  lemma ChecksumUnique(values: seq<nat>, s: seq<nat>)
    requires Fit(values, 5) && |s| == 6 && Fit(s, 5)
    ensures Fit(values + s, 5)
    ensures Fold(1, values + s) == 1 <==> s == Checksum(values)
  {
    hide Xor, Pow2, Fold, Pack, Unpack;
    ChecksumIsLinear(1, values, s);
    var base := Fold(1, values + ZEROS);
    FoldRange(1, values + ZEROS);
    XorRange(base, 1);
    XorLaws(base, Pack(s), 1, 1);
    XorLaws(Pack(s), base, 1, 1);
    XorLaws(1, base, 1, 1);
    PackUnpack(Xor(base, 1));
    UnpackPack(s);
    assert Fold(1, values + s) == Xor(base, Pack(s));
  }

  // ----------------------------------------------------------------- the code over GF(32)

  /** Twice a symbol in GF(32), the field modulo x^5 + x^3 + 1 (0x29). */
  function Twice(a: bv32): bv32 {
    if a & 16 != 0 then (a << 1) ^ 0x29 else a << 1
  }

  function Doubled(a: bv32, times: nat): bv32 {
    if times == 0 then a else Twice(Doubled(a, times - 1))
  }

  /** The product of symbols by shift-and-add over the low n bits of b. */
  function Product(a: bv32, b: bv32, n: nat): bv32
    requires n <= 5
  {
    if n == 0 then 0 else Xor(Product(a, b, n - 1), if (b >> (n - 1)) & 1 == 1 then Doubled(a, n - 1) else 0)
  }

  lemma Doubles29()
    ensures Doubled(29, 0) == 29 && Doubled(29, 1) == 19 && Doubled(29, 2) == 15 && Doubled(29, 3) == 30 && Doubled(29, 4) == 21
  {
    assert Doubled(29, 1) == Twice(29) && Doubled(29, 2) == Twice(19) && Doubled(29, 3) == Twice(15) && Doubled(29, 4) == Twice(30);
  }

  lemma Doubles22()
    ensures Doubled(22, 0) == 22 && Doubled(22, 1) == 5 && Doubled(22, 2) == 10 && Doubled(22, 3) == 20 && Doubled(22, 4) == 1
  {
    assert Doubled(22, 1) == Twice(22) && Doubled(22, 2) == Twice(5) && Doubled(22, 3) == Twice(10) && Doubled(22, 4) == Twice(20);
  }

  lemma Doubles20()
    ensures Doubled(20, 0) == 20 && Doubled(20, 1) == 1 && Doubled(20, 2) == 2 && Doubled(20, 3) == 4 && Doubled(20, 4) == 8
  {
    assert Doubled(20, 1) == Twice(20) && Doubled(20, 2) == Twice(1) && Doubled(20, 3) == Twice(2) && Doubled(20, 4) == Twice(4);
  }

  lemma Doubles21()
    ensures Doubled(21, 0) == 21 && Doubled(21, 1) == 3 && Doubled(21, 2) == 6 && Doubled(21, 3) == 12 && Doubled(21, 4) == 24
  {
    assert Doubled(21, 1) == Twice(21) && Doubled(21, 2) == Twice(3) && Doubled(21, 3) == Twice(6) && Doubled(21, 4) == Twice(12);
  }

  lemma Doubles18()
    ensures Doubled(18, 0) == 18 && Doubled(18, 1) == 13 && Doubled(18, 2) == 26 && Doubled(18, 3) == 29 && Doubled(18, 4) == 19
  {
    assert Doubled(18, 1) == Twice(18) && Doubled(18, 2) == Twice(13) && Doubled(18, 3) == Twice(26) && Doubled(18, 4) == Twice(29);
  }

  /** The constants are the multiples 1, 2, 4, 8 and 16 of the generator polynomial's coefficients. */
  lemma GeneratorIsMultiple(i: nat)
    requires i < 5
    ensures |GENERATORS| == 5
    ensures GENERATORS[i] == PackWords(Doubled(29, i), Doubled(22, i), Doubled(20, i), Doubled(21, i), Doubled(29, i), Doubled(18, i))
  {
    hide Doubled, PackWords;
    Doubles29();
    Doubles22();
    Doubles20();
    Doubles21();
    Doubles18();
    PackedConstants();
  }

  lemma PackedConstants()
    ensures PackWords(29, 22, 20, 21, 29, 18) == 0x3b6a57b2 && PackWords(19, 5, 1, 3, 19, 13) == 0x26508e6d
    ensures PackWords(15, 10, 2, 6, 15, 26) == 0x1ea119fa && PackWords(30, 20, 4, 12, 30, 29) == 0x3d4233dd
    ensures PackWords(21, 1, 8, 24, 21, 19) == 0x2a1462b3
  {}

  lemma PackLinear(a: bv32, b: bv32, c: bv32, d: bv32, e: bv32, f: bv32, a': bv32, b': bv32, c': bv32, d': bv32, e': bv32, f': bv32)
    ensures PackWords(Xor(a, a'), Xor(b, b'), Xor(c, c'), Xor(d, d'), Xor(e, e'), Xor(f, f')) ==
            Xor(PackWords(a, b, c, d, e, f), PackWords(a', b', c', d', e', f'))
  {
    hide Xor, Join;
    JoinLinear(a, a', b, b');
    JoinLinear(Join(a, b), Join(a', b'), c, c');
    JoinLinear(Join(Join(a, b), c), Join(Join(a', b'), c'), d, d');
    JoinLinear(Join(Join(Join(a, b), c), d), Join(Join(Join(a', b'), c'), d'), e, e');
    JoinLinear(Join(Join(Join(Join(a, b), c), d), e), Join(Join(Join(Join(a', b'), c'), d'), e'), f, f');
  }

  lemma JoinLinear(x: bv32, y: bv32, v: bv32, w: bv32)
    ensures Join(Xor(x, y), Xor(v, w)) == Xor(Join(x, v), Join(y, w))
  {
    hide Xor, Up, Join;
    JoinIsXor(x, v);
    JoinIsXor(y, w);
    JoinIsXor(Xor(x, y), Xor(v, w));
    UpLinear(x, y);
    XorLaws(Up(x), Up(y), v, w);
  }

  lemma JoinIsXor(x: bv32, w: bv32)
    ensures Join(x, w) == Xor(Up(x), w)
  {}

  lemma UpLinear(x: bv32, y: bv32)
    ensures Up(Xor(x, y)) == Xor(Up(x), Up(y))
  {}

  lemma PackNothing()
    ensures PackWords(0, 0, 0, 0, 0, 0) == 0
  {}

  /** What leaves the register at the top comes back multiplied by x^6 modulo the generator polynomial
      x^6 + 29 x^5 + 22 x^4 + 20 x^3 + 21 x^2 + 29 x + 18. */
  lemma {:induction false} FeedbackIsProduct(top: bv32, n: nat)
    requires n <= 5
    ensures |GENERATORS| == 5
    ensures Feedback(top, n) ==
      PackWords(Product(29, top, n), Product(22, top, n), Product(20, top, n), Product(21, top, n), Product(29, top, n), Product(18, top, n))
  {
    hide Xor, PackWords, Doubled;
    if n == 0 {
      PackNothing();
    } else {
      var i := n - 1;
      FeedbackIsProduct(top, i);
      GeneratorIsMultiple(i);
      PackNothing();
      var set_ := (top >> i) & 1 == 1;
      PackLinear(Product(29, top, i), Product(22, top, i), Product(20, top, i), Product(21, top, i), Product(29, top, i), Product(18, top, i),
                 if set_ then Doubled(29, i) else 0, if set_ then Doubled(22, i) else 0, if set_ then Doubled(20, i) else 0,
                 if set_ then Doubled(21, i) else 0, if set_ then Doubled(29, i) else 0, if set_ then Doubled(18, i) else 0);
    }
  }

  // ----------------------------------------------------------------- errors are detected

  /** The lowest symbol that comes back, bit by bit. */
  lemma LowSelected(top: bv32)
    ensures Selected(top, 0) & 31 == (if top & 1 != 0 then 18 else 0) && Selected(top, 1) & 31 == (if top & 2 != 0 then 13 else 0)
    ensures Selected(top, 2) & 31 == (if top & 4 != 0 then 26 else 0) && Selected(top, 3) & 31 == (if top & 8 != 0 then 29 else 0)
    ensures Selected(top, 4) & 31 == if top & 16 != 0 then 19 else 0
  {}

  lemma LowFeedback(top: bv32)
    requires 0 < top < 32
    ensures Feedback(top, |GENERATORS|) & 31 != 0
  {
    hide Selected;
    LowSelected(top);
    assert Feedback(top, 1) == Xor(Feedback(top, 0), Selected(top, 0));
    assert Feedback(top, 2) == Xor(Feedback(top, 1), Selected(top, 1));
    assert Feedback(top, 3) == Xor(Feedback(top, 2), Selected(top, 2));
    assert Feedback(top, 4) == Xor(Feedback(top, 3), Selected(top, 3));
    assert Feedback(top, 5) == Xor(Feedback(top, 4), Selected(top, 4));
    LowSum(top, Selected(top, 0), Selected(top, 1), Selected(top, 2), Selected(top, 3), Selected(top, 4));
  }

  lemma LowSum(top: bv32, a: bv32, b: bv32, c: bv32, d: bv32, e: bv32)
    requires 0 < top < 32
    requires a & 31 == (if top & 1 != 0 then 18 else 0) && b & 31 == (if top & 2 != 0 then 13 else 0)
    requires c & 31 == (if top & 4 != 0 then 26 else 0) && d & 31 == (if top & 8 != 0 then 29 else 0)
    requires e & 31 == if top & 16 != 0 then 19 else 0
    ensures Xor(Xor(Xor(Xor(Xor(0, a), b), c), d), e) & 31 != 0
  {}

  /** A register that is not empty does not become empty by reading zeros. */
  lemma StepNotZero(x: bv32)
    requires 0 < x < 0x4000_0000
    ensures Step(x, 0) != 0
  {
    if x < 0x200_0000 {
      StepSmall(x, 0);
      assert Join(x, 0) != 0;
    } else {
      TopRange(x);
      LowFeedback(Top(x));
      LowStep(x, Feedback(Top(x), |GENERATORS|));
    }
  }

  lemma TopRange(x: bv32)
    requires 0x200_0000 <= x < 0x4000_0000
    ensures 0 < Top(x) < 32
  {}

  lemma LowStep(x: bv32, f: bv32)
    ensures Xor(Xor(Shifted(x), 0), f) & 31 == f & 31
  {}

  lemma {:induction false} ZerosKeep(x: bv32, zeros: seq<nat>)
    requires 0 < x < 0x4000_0000 && forall i | 0 <= i < |zeros| :: zeros[i] == 0
    ensures Fit(zeros, 5) && Fold(x, zeros) != 0
  {
    hide Step, Pow2, Word;
    AllFit(zeros);
    if |zeros| > 0 {
      var init := zeros[..|zeros| - 1];
      ZerosKeep(x, init);
      FoldRange(x, init);
      WordZero();
      StepNotZero(Fold(x, init));
    }
  }

  lemma AllFit(zeros: seq<nat>)
    requires forall i | 0 <= i < |zeros| :: zeros[i] == 0
    ensures Fit(zeros, 5)
  {
    Widths();
  }

  /** Two words that give the same register and differ in at most six symbols next to each other are the same. */
  lemma NearbyErrors(before: seq<nat>, s: seq<nat>, t: seq<nat>, after: seq<nat>)
    requires Fit(before, 5) && |s| == |t| == 6 && Fit(s, 5) && Fit(t, 5) && Fit(after, 5)
    requires Fit(before + s + after, 5) && Fit(before + t + after, 5)
    requires Fold(1, before + s + after) == Fold(1, before + t + after)
    ensures s == t
  {
    hide Xor, Pow2, Fold, Pack, Unpack;
    var zeros := seq(|after|, _ => 0);
    FoldAppend(1, before, s);
    FoldAppend(1, before, t);
    FoldAppend(1, before + s, after);
    FoldAppend(1, before + t, after);
    var y, z := Fold(1, before + s), Fold(1, before + t);
    FoldRange(1, before + s);
    FoldRange(1, before + t);
    XorRange(y, z);
    FoldLinear(Xor(y, z), z, after, zeros);
    XorLaws(y, z, z, z);
    SameSum(Fold(Xor(y, z), zeros), Fold(z, after));
    SameSum(y, z);
    if Xor(y, z) != 0 { ZerosKeep(Xor(y, z), zeros); }
    ChecksumIsLinear(1, before, s);
    ChecksumIsLinear(1, before, t);
    SameAddend(Fold(1, before + ZEROS), Pack(s), Pack(t));
    UnpackPack(s);
    UnpackPack(t);
  }

  lemma SameSum(a: bv32, b: bv32)
    ensures Xor(a, b) == b <==> a == 0
    ensures Xor(a, b) == 0 <==> a == b
  {
    hide Xor;
    XorLaws(a, b, a, b);
    XorLaws(b, a, a, b);
  }

  lemma SameAddend(a: bv32, b: bv32, c: bv32)
    requires Xor(a, b) == Xor(a, c)
    ensures b == c
  {
    hide Xor;
    XorLaws(b, a, a, a);
    XorLaws(c, a, a, a);
  }

  // ---------------------------------------------------------------------------- the text

  /** Characters stand for the bytes of the source's strings. */
  const CHARSET: string := "qpzry9x8gf2tvdw0s3jn54khce6mua7l"

  /** The case conversions of the platform. Nothing is known of them outside ASCII. */
  datatype CaseMap = CaseMap(lower: string -> string, upper: string -> string)

  predicate Ascii(text: string) {
    forall i | 0 <= i < |text| :: text[i] < '\U{80}'
  }

  function LowerChar(c: char): char {
    if 'A' <= c <= 'Z' then c + '\U{20}' else c
  }

  function LowerAscii(text: string): string {
    seq(|text|, i requires 0 <= i < |text| => LowerChar(text[i]))
  }

  ghost predicate LowersAscii(cases: CaseMap) {
    forall text | Ascii(text) :: cases.lower(text) == LowerAscii(text)
  }

  predicate Printable(text: string) {
    forall i | 0 <= i < |text| :: '!' <= text[i] <= '~'
  }

  predicate ValidHrp(cases: CaseMap, hrp: string) {
    hrp != "" && cases.lower(hrp) == hrp && Printable(hrp)
  }

  predicate WellCased(cases: CaseMap, text: string) {
    text != "" && (cases.lower(text) == text || cases.upper(text) == text)
  }

  function Text(symbols: seq<nat>): (text: string)
    requires Fit(symbols, 5)
  {
    Widths();
    seq(|symbols|, i requires 0 <= i < |symbols| => CHARSET[symbols[i]])
  }

  function Expand(hrp: string): (values: seq<nat>)
    requires Ascii(hrp)
    ensures Fit(values, 5)
  {
    Widths();
    seq(|hrp|, i requires 0 <= i < |hrp| => hrp[i] as nat / 32) + [0] +
    seq(|hrp|, i requires 0 <= i < |hrp| => hrp[i] as nat % 32)
  }

  /** The values fix the human readable part, so the checksum depends on all of it. */
  lemma ExpandInjective(a: string, b: string)
    requires Ascii(a) && Ascii(b) && Expand(a) == Expand(b)
    ensures a == b
  {
    var x, y := Expand(a), Expand(b);
    assert |x| == 2 * |a| + 1 && |y| == 2 * |b| + 1;
    forall i | 0 <= i < |a| ensures a[i] == b[i] {
      assert x[i] == a[i] as nat / 32 && y[i] == b[i] as nat / 32;
      assert x[|a| + 1 + i] == a[i] as nat % 32 && y[|b| + 1 + i] == b[i] as nat % 32;
      assert a[i] as nat == b[i] as nat;
    }
  }

  // ------------------------------------------------------------------------ the character set

  /** Where a character stands in the character set; 32 if nowhere. */
  function SymbolOf(c: char): nat {
    match c
    case 'q' => 0 case 'p' => 1 case 'z' => 2 case 'r' => 3 case 'y' => 4 case '9' => 5 case 'x' => 6 case '8' => 7
    case 'g' => 8 case 'f' => 9 case '2' => 10 case 't' => 11 case 'v' => 12 case 'd' => 13 case 'w' => 14 case '0' => 15
    case 's' => 16 case '3' => 17 case 'j' => 18 case 'n' => 19 case '5' => 20 case '4' => 21 case 'k' => 22 case 'h' => 23
    case 'c' => 24 case 'e' => 25 case '6' => 26 case 'm' => 27 case 'u' => 28 case 'a' => 29 case '7' => 30 case 'l' => 31
    case _ => 32
  }

  predicate Plain(c: char) {
    c != '1' && ('0' <= c <= '9' || 'a' <= c <= 'z')
  }

  lemma FirstHalf(i: nat)
    requires i < 16
    ensures SymbolOf(CHARSET[i]) == i && Plain(CHARSET[i])
  {}

  lemma SecondHalf(i: nat)
    requires 16 <= i < 32
    ensures SymbolOf(CHARSET[i]) == i && Plain(CHARSET[i])
  {}

  lemma CharsetFacts(i: nat)
    requires i < 32
    ensures |CHARSET| == 32 && SymbolOf(CHARSET[i]) == i && Plain(CHARSET[i])
  {
    hide SymbolOf, Plain;
    if i < 16 { FirstHalf(i); } else { SecondHalf(i); }
  }

  lemma TextFacts(symbols: seq<nat>)
    requires Fit(symbols, 5)
    ensures |Text(symbols)| == |symbols|
    ensures forall i | 0 <= i < |symbols| :: Plain(Text(symbols)[i]) && SymbolOf(Text(symbols)[i]) == symbols[i]
  {
    hide SymbolOf, Plain, Pow2;
    Widths();
    forall i | 0 <= i < |symbols| ensures Plain(Text(symbols)[i]) && SymbolOf(Text(symbols)[i]) == symbols[i] {
      CharsetFacts(symbols[i]);
    }
  }

  // ---------------------------------------------------------------- what a text stands for

  ghost predicate EncodesWith(text: string, hrp: string, payload: seq<nat>, symbols: seq<nat>) {
    Ascii(hrp) && |symbols| >= 6 && Fit(symbols, 5) &&
    text == hrp + "1" + Text(symbols) &&
    Fold(1, Expand(hrp) + symbols) == 1 &&
    Regrouped(payload, 8, symbols[..|symbols| - 6], 5, true)
  }

  /** The text is the encoding of the human readable part and the payload. */
  ghost predicate Encodes(text: string, hrp: string, payload: seq<nat>) {
    exists symbols :: EncodesWith(text, hrp, payload, symbols)
  }

  /** What the decoder makes of a text. */
  ghost predicate Decodes(cases: CaseMap, text: string, hrp: string, payload: seq<nat>) {
    WellCased(cases, text) && ValidHrp(cases, hrp) && Encodes(cases.lower(text), hrp, payload)
  }

  /** The separator is the last '1'. */
  predicate LastOne(text: string, k: int) {
    -1 <= k < |text| && (k >= 0 ==> text[k] == '1') && forall i | k < i < |text| :: text[i] != '1'
  }

  lemma SeparatorUnique(text: string, k: int, hrp: string, symbols: seq<nat>)
    requires LastOne(text, k) && Fit(symbols, 5) && text == hrp + "1" + Text(symbols)
    ensures k == |hrp| && text[..k] == hrp && text[k + 1..] == Text(symbols)
  {
    hide SymbolOf, Pow2, Text;
    TextFacts(symbols);
    var tail := Text(symbols);
    assert text[|hrp|] == '1';
    forall i | |hrp| < i < |text| ensures text[i] != '1' { assert text[i] == tail[i - |hrp| - 1]; }
  }

  lemma TextInjective(a: seq<nat>, b: seq<nat>)
    requires Fit(a, 5) && Fit(b, 5) && Text(a) == Text(b)
    ensures a == b
  {
    hide SymbolOf, Plain, Pow2, Text;
    TextFacts(a);
    TextFacts(b);
    forall i | 0 <= i < |a| ensures a[i] == b[i] { assert SymbolOf(Text(a)[i]) == a[i]; }
  }

  lemma Parts(hrp: string, symbols: seq<nat>)
    requires Ascii(hrp) && |symbols| >= 6 && Fit(symbols, 5)
    ensures var data, sum := symbols[..|symbols| - 6], symbols[|symbols| - 6..];
      Fit(data, 5) && Fit(Expand(hrp) + data, 5) && Fit(Expand(hrp) + symbols, 5) &&
      (Fold(1, Expand(hrp) + symbols) == 1 <==> sum == Checksum(Expand(hrp) + data))
  {
    hide Fold, Pow2, Checksum, Expand;
    var data, sum := symbols[..|symbols| - 6], symbols[|symbols| - 6..];
    assert symbols == data + sum;
    assert Expand(hrp) + symbols == Expand(hrp) + data + sum;
    ChecksumUnique(Expand(hrp) + data, sum);
  }

  /** Every payload has at most one encoding, and every text at most one meaning. */
  lemma EncodingUnique(a: string, b: string, hrp: string, payload: seq<nat>)
    requires Encodes(a, hrp, payload) && Encodes(b, hrp, payload)
    ensures a == b
  {
    hide Fold, Pow2, Checksum, Expand, Text, Regrouped;
    var s :| EncodesWith(a, hrp, payload, s);
    var t :| EncodesWith(b, hrp, payload, t);
    RegroupUnique(payload, s[..|s| - 6], t[..|t| - 6]);
    Parts(hrp, s);
    Parts(hrp, t);
    assert s == s[..|s| - 6] + s[|s| - 6..] && t == t[..|t| - 6] + t[|t| - 6..];
  }

  lemma LastOneExists(text: string) returns (k: int)
    ensures LastOne(text, k)
  {
    k := |text| - 1;
    while k >= 0 && text[k] != '1'
      invariant -1 <= k < |text|
      invariant forall i | k < i < |text| :: text[i] != '1'
    {
      k := k - 1;
    }
  }

  lemma MeaningUnique(text: string, h: string, p: seq<nat>, g: string, q: seq<nat>)
    requires Encodes(text, h, p) && Encodes(text, g, q)
    ensures h == g && p == q
  {
    hide Fold, Pow2, Checksum, Expand, Text, Regrouped, LastOne;
    var s :| EncodesWith(text, h, p, s);
    var t :| EncodesWith(text, g, q, t);
    var k := LastOneExists(text);
    SeparatorUnique(text, k, h, s);
    SeparatorUnique(text, k, g, t);
    TextInjective(s, t);
    RegroupInjective(p, q, s[..|s| - 6]);
  }

  // -------------------------------------------------------------------- errors in a text

  /** The texts agree but for at most six places from place a on. */
  predicate AgreeAround(x: string, y: string, a: nat) {
    |x| == |y| && forall i | 0 <= i < |x| && !(a <= i < a + 6) :: x[i] == y[i]
  }

  /** Of two texts with the separator at the same place that differ in at most six characters next to each other after
      it, at most one encodes anything. */
  lemma NearbyTexts(x: string, y: string, hrp: string, p: seq<nat>, g: string, q: seq<nat>, a: nat)
    requires Encodes(x, hrp, p) && Encodes(y, g, q) && AgreeAround(x, y, a) && |hrp| < a && a + 6 <= |x|
    requires forall i | |hrp| < i < |y| :: y[i] != '1'
    ensures x == y
  {
    hide Fold, Pow2, Expand, Text, Regrouped, LastOne, AgreeAround;
    var s :| EncodesWith(x, hrp, p, s);
    var t :| EncodesWith(y, g, q, t);
    SamePart(x, y, hrp, g, s, t, a);
    NearbySymbols(hrp, s, t, a - |hrp| - 1);
  }

  lemma SamePart(x: string, y: string, hrp: string, g: string, s: seq<nat>, t: seq<nat>, a: nat)
    requires Fit(s, 5) && Fit(t, 5) && x == hrp + "1" + Text(s) && y == g + "1" + Text(t)
    requires AgreeAround(x, y, a) && |hrp| < a && a + 6 <= |x| && forall i | |hrp| < i < |y| :: y[i] != '1'
    ensures g == hrp && |s| == |t| && a - |hrp| + 5 <= |s| && forall i | 0 <= i < |s| && !(a - |hrp| - 1 <= i < a - |hrp| + 5) :: s[i] == t[i]
  {
    hide Pow2, Text, LastOne, SymbolOf, Plain, Fit;
    TextFacts(s);
    TextFacts(t);
    assert LastOne(y, |hrp|) by { SeparatorStays(x, y, hrp, a); }
    SeparatorUnique(y, |hrp|, g, t);
    assert y[..|hrp|] == x[..|hrp|] == hrp;
    forall i | 0 <= i < |s| && !(a - |hrp| - 1 <= i < a - |hrp| + 5) ensures s[i] == t[i] {
      assert x[|hrp| + 1 + i] == Text(s)[i] && y[|hrp| + 1 + i] == Text(t)[i];
    }
  }

  lemma NearbySymbols(hrp: string, s: seq<nat>, t: seq<nat>, k: nat)
    requires Ascii(hrp) && |s| == |t| && k + 6 <= |s| && Fit(s, 5) && Fit(t, 5)
    requires forall i | 0 <= i < |s| && !(k <= i < k + 6) :: s[i] == t[i]
    requires Fit(Expand(hrp) + s, 5) && Fit(Expand(hrp) + t, 5)
    requires Fold(1, Expand(hrp) + s) == 1 == Fold(1, Expand(hrp) + t)
    ensures s == t
  {
    hide Fold, Pow2, Expand;
    SameOutside(s, t, k);
    var before, middle, other, after := Expand(hrp) + s[..k], s[k..k + 6], t[k..k + 6], s[k + 6..];
    Regroup3(Expand(hrp), s[..k], middle, after);
    Regroup3(Expand(hrp), s[..k], other, after);
    FitParts(before, middle, other, after);
    NearbyErrors(before, middle, other, after);
  }

  lemma Regroup3(a: seq<nat>, b: seq<nat>, c: seq<nat>, d: seq<nat>)
    ensures a + (b + c + d) == a + b + c + d
  {}

  lemma FitParts(before: seq<nat>, s: seq<nat>, t: seq<nat>, after: seq<nat>)
    requires Fit(before + s + after, 5) && Fit(before + t + after, 5)
    ensures Fit(before, 5) && Fit(s, 5) && Fit(t, 5) && Fit(after, 5)
  {
    hide Pow2;
    var u, w := before + s + after, before + t + after;
    forall i | 0 <= i < |before| ensures before[i] < Pow2(5) { assert u[i] == before[i]; }
    forall i | 0 <= i < |s| ensures s[i] < Pow2(5) { assert u[|before| + i] == s[i]; }
    forall i | 0 <= i < |t| ensures t[i] < Pow2(5) { assert w[|before| + i] == t[i]; }
    forall i | 0 <= i < |after| ensures after[i] < Pow2(5) { assert u[|before| + |s| + i] == after[i]; }
  }

  lemma SameOutside(s: seq<nat>, t: seq<nat>, k: nat)
    requires |s| == |t| && k + 6 <= |s| && forall i | 0 <= i < |s| && !(k <= i < k + 6) :: s[i] == t[i]
    ensures s == s[..k] + s[k..k + 6] + s[k + 6..] && t == s[..k] + t[k..k + 6] + s[k + 6..]
  {
    assert t[..k] == s[..k] && t[k + 6..] == s[k + 6..];
  }

  lemma SeparatorStays(x: string, y: string, hrp: string, a: nat)
    requires AgreeAround(x, y, a) && |hrp| < a && |hrp| < |x| && x[|hrp|] == '1' && forall i | |hrp| < i < |y| :: y[i] != '1'
    ensures LastOne(y, |hrp|)
  {}

  /** A text that differs from an encoding only in such a place is refused. Characters that are neither upper-case nor
      the separator may take the place of symbols. */
  lemma ErrorsRefused(cases: CaseMap, text: string, hrp: string, payload: seq<nat>, other: string, a: nat)
    requires LowersAscii(cases) && Encodes(text, hrp, payload) && AgreeAround(text, other, a) && |hrp| < a && a + 6 <= |text|
    requires other != text && Ascii(other) && LowerAscii(other) == other && forall i | |hrp| < i < |other| :: other[i] != '1'
    ensures forall g, q :: !Decodes(cases, other, g, q)
  {
    hide Encodes;
    assert cases.lower(other) == other;
    forall g, q ensures !Encodes(other, g, q) {
      if Encodes(other, g, q) { NearbyTexts(text, other, hrp, payload, g, q, a); }
    }
  }

  /** So one wrong symbol is always found. */
  lemma WrongSymbolRefused(cases: CaseMap, text: string, hrp: string, payload: seq<nat>, i: nat, c: char, other: string)
    requires LowersAscii(cases) && ValidHrp(cases, hrp) && Encodes(text, hrp, payload)
    requires |hrp| < i < |text| && c != text[i] && Plain(c) && other == text[i := c]
    ensures forall g, q :: !Decodes(cases, other, g, q)
  {
    hide Fold, Pow2, Expand, Text, Regrouped;
    var symbols :| EncodesWith(text, hrp, payload, symbols);
    TextFacts(symbols);
    var a := if i + 6 <= |text| then i else |text| - 6;
    LowerHrp(cases, hrp);
    forall j | 0 <= j < |other| ensures other[j] < '\U{80}' && LowerChar(other[j]) == other[j] && (j > |hrp| ==> other[j] != '1') {
      if j != i && j > |hrp| { assert text[j] == Text(symbols)[j - |hrp| - 1]; }
      if j < |hrp| { assert text[j] == hrp[j]; }
    }
    assert LowerAscii(other) == other;
    ErrorsRefused(cases, text, hrp, payload, other, a);
  }

  lemma LowerHrp(cases: CaseMap, hrp: string)
    requires LowersAscii(cases) && ValidHrp(cases, hrp)
    ensures forall j | 0 <= j < |hrp| :: hrp[j] < '\U{80}' && LowerChar(hrp[j]) == hrp[j]
  {
    assert Ascii(hrp);
    forall j | 0 <= j < |hrp| ensures LowerChar(hrp[j]) == hrp[j] { assert LowerAscii(hrp)[j] == hrp[j]; }
  }

  // -------------------------------------------------------------------------- the methods

  lemma OneGenerator(before: bv32, top: bv32, k: nat)
    requires k < |GENERATORS|
    ensures Xor(before, Feedback(top, k + 1)) ==
            var sum := Xor(before, Feedback(top, k)); if (top >> k) & 1 == 1 then Xor(sum, GENERATORS[k]) else sum
  {
    var f := Feedback(top, k);
    XorAssociative(before, f, Selected(top, k));
    XorLaws(Xor(before, f), 0, 0, 0);
  }

  lemma XorAssociative(a: bv32, b: bv32, c: bv32)
    ensures Xor(a, Xor(b, c)) == Xor(Xor(a, b), c)
  {}

  lemma FoldStep(values: seq<nat>, i: nat)
    requires Fit(values, 5) && i < |values|
    ensures Fit(values[..i], 5) && Fit(values[..i + 1], 5)
    ensures Fold(1, values[..i + 1]) == Step(Fold(1, values[..i]), Word(values[i]))
  {
    hide Pow2, Step, Word;
    assert values[..i + 1][..i] == values[..i];
  }

  /** One round of the register for each value, and in it one test for each generator. */
  method Polymod(values: seq<nat>) returns (checksum: bv32)
    requires Fit(values, 5)
    ensures checksum == Fold(1, values)
  {
    hide Pow2, Xor, Shifted, Top, Feedback, Fold, Word;
    checksum := 1;
    assert Fold(1, values[..0]) == 1 by { FoldNothing(1); }
    for i := 0 to |values|
      invariant checksum == Fold(1, values[..i])
    {
      FoldStep(values, i);
      var top := Top(checksum);
      checksum := Xor(Shifted(checksum), Word(values[i]));
      ghost var before := checksum;
      assert checksum == Xor(before, Feedback(top, 0)) by { FoldNothing(before); }
      for k := 0 to |GENERATORS|
        invariant checksum == Xor(before, Feedback(top, k))
      {
        OneGenerator(before, top, k);
        if (top >> k) & 1 == 1 {
          checksum := Xor(checksum, GENERATORS[k]);
        }
      }
    }
    assert values[..|values|] == values;
  }

  lemma FoldNothing(x: bv32)
    ensures Fold(x, []) == x && forall top :: Xor(x, Feedback(top, 0)) == x
  {}

  method CreateChecksum(hrp: string, data: seq<nat>) returns (sum: seq<nat>)
    requires Ascii(hrp) && Fit(data, 5)
    ensures |sum| == 6 && Fit(sum, 5) && Fit(Expand(hrp) + data + sum, 5)
    ensures forall s :: |s| == 6 && Fit(s, 5) && Fit(Expand(hrp) + data + s, 5) ==>
                        (Fold(1, Expand(hrp) + data + s) == 1 <==> s == sum)
  {
    hide Pow2, Xor, Fold, Expand, Digit;
    var expanded := ExpandHrp(hrp);
    var values := expanded + data;
    assert Fit(values + ZEROS, 5);
    var register := Polymod(values + ZEROS);
    var polymod := Xor(register, 1);
    sum := [];
    for i := 0 to 6
      invariant |sum| == i && forall j | 0 <= j < i :: sum[j] == Digit(polymod, j) as nat
    {
      DigitRange(polymod, i);
      sum := sum + [Digit(polymod, i) as nat];
    }
    assert sum == Checksum(values);
    ChecksumUnique(values, sum);
    forall s | |s| == 6 && Fit(s, 5) && Fit(values + s, 5) ensures Fold(1, values + s) == 1 <==> s == sum {
      ChecksumUnique(values, s);
    }
  }

  method ExpandHrp(hrp: string) returns (expanded: seq<nat>)
    requires Ascii(hrp)
    ensures expanded == Expand(hrp)
  {
    expanded := [];
    for i := 0 to |hrp|
      invariant expanded == seq(i, j requires 0 <= j < i => hrp[j] as nat / 32)
    {
      expanded := expanded + [hrp[i] as nat / 32];
    }
    var high := expanded;
    expanded := expanded + [0];
    for i := 0 to |hrp|
      invariant expanded == high + [0] + seq(i, j requires 0 <= j < i => hrp[j] as nat % 32)
    {
      expanded := expanded + [hrp[i] as nat % 32];
    }
  }

  /** The result is the one encoding of the payload. */
  method Encode(hrp: string, payload: seq<nat>) returns (text: string)
    requires Ascii(hrp) && Fit(payload, 8)
    ensures forall other :: Encodes(other, hrp, payload) <==> other == text
  {
    hide Pow2, Fold, Expand, Text, Regrouped;
    var converted := ConvertBits(payload, 8, 5, true);
    var data := converted.value;
    RegroupedFits(payload, data);
    var sum := CreateChecksum(hrp, data);
    var combined := data + sum;
    text := hrp + "1";
    assert Fit(combined, 5) && |combined| > 0;
    TextStep(combined, 0);
    for i := 0 to |combined|
      invariant text == hrp + "1" + Text(combined[..i])
    {
      TextStep(combined, i);
      text := text + [CHARSET[combined[i]]];
    }
    assert combined[..|combined|] == combined;
    assert combined[..|combined| - 6] == data && combined[|combined| - 6..] == sum;
    assert Expand(hrp) + combined == Expand(hrp) + data + sum;
    assert EncodesWith(text, hrp, payload, combined);
    forall other | Encodes(other, hrp, payload) ensures other == text { EncodingUnique(other, text, hrp, payload); }
  }

  lemma RegroupedFits(payload: seq<nat>, data: seq<nat>)
    requires Regrouped(payload, 8, data, 5, true)
    ensures Fit(payload, 8) && Fit(data, 5)
  {}

  lemma TextStep(symbols: seq<nat>, i: nat)
    requires Fit(symbols, 5) && i < |symbols|
    ensures symbols[i] < |CHARSET| && Text(symbols[..0]) == ""
    ensures Text(symbols[..i + 1]) == Text(symbols[..i]) + [CHARSET[symbols[i]]]
  {
    Widths();
  }

  datatype Error = MixedCase | InvalidBech32 | InvalidPrefix

  /** There is a separator with something before it and room for a checksum after it. */
  ghost predicate Splits(text: string, k: int) {
    |text| >= 8 && LastOne(text, k) && 0 < k && k + 7 <= |text|
  }

  method LastIndexOfOne(text: string) returns (k: int)
    ensures LastOne(text, k)
  {
    k := |text| - 1;
    while k >= 0 && text[k] != '1'
      invariant -1 <= k < |text|
      invariant forall i | k < i < |text| :: text[i] != '1'
    {
      k := k - 1;
    }
  }

  method ValidateHrp(cases: CaseMap, hrp: string) returns (ok: bool)
    ensures ok <==> ValidHrp(cases, hrp)
  {
    if hrp == "" || cases.lower(hrp) != hrp {
      return false;
    }
    for i := 0 to |hrp|
      invariant Printable(hrp[..i])
    {
      if hrp[i] < '!' || hrp[i] > '~' {
        return false;
      }
    }
    assert hrp[..|hrp|] == hrp;
    return true;
  }

  method IndexRune(c: char) returns (position: int)
    ensures -1 <= position < |CHARSET|
    ensures position >= 0 ==> CHARSET[position] == c
    ensures position < 0 ==> forall i | 0 <= i < |CHARSET| :: CHARSET[i] != c
  {
    for i := 0 to |CHARSET|
      invariant forall j | 0 <= j < i :: CHARSET[j] != c
    {
      if CHARSET[i] == c {
        return i;
      }
    }
    return -1;
  }

  /** The symbols a text spells, if it uses no other characters. */
  method ReadSymbols(text: string) returns (data: Option<seq<nat>>)
    ensures data.Some? ==> Fit(data.value, 5) && Text(data.value) == text
    ensures data.None? ==> forall s | Fit(s, 5) :: Text(s) != text
  {
    hide Pow2, SymbolOf, Text;
    var read: seq<nat> := [];
    Widths();
    TextOfNothing();
    for i := 0 to |text|
      invariant |read| == i && Fit(read, 5) && Text(read) == text[..i]
    {
      var position := IndexRune(text[i]);
      if position < 0 {
        forall s | Fit(s, 5) ensures Text(s) != text { NotText(s, text, i); }
        return None;
      }
      TextAppend(read, position);
      read := read + [position];
      assert text[..i + 1] == text[..i] + [text[i]];
    }
    assert text[..|text|] == text;
    return Some(read);
  }

  lemma TextOfNothing()
    ensures Text([]) == ""
  {}

  lemma TextAppend(symbols: seq<nat>, symbol: nat)
    requires Fit(symbols, 5) && symbol < 32
    ensures Fit(symbols + [symbol], 5) && |CHARSET| == 32
    ensures Text(symbols + [symbol]) == Text(symbols) + [CHARSET[symbol]]
  {
    hide Pow2;
    Widths();
  }

  lemma NotText(symbols: seq<nat>, text: string, i: nat)
    requires Fit(symbols, 5) && i < |text| && forall k | 0 <= k < |CHARSET| :: CHARSET[k] != text[i]
    ensures Text(symbols) != text
  {
    hide Pow2;
    Widths();
    if |symbols| == |text| { assert Text(symbols)[i] == CHARSET[symbols[i]]; }
  }

  lemma MustSplit(text: string, k: int, hrp: string, payload: seq<nat>)
    requires LastOne(text, k) && Encodes(text, hrp, payload) && hrp != ""
    ensures Splits(text, k) && hrp == text[..k]
  {
    hide Fold, Pow2, Expand, Text, Regrouped, LastOne;
    var s :| EncodesWith(text, hrp, payload, s);
    SeparatorUnique(text, k, hrp, s);
    TextFacts(s);
  }

  /** Decoding the part after the case checks: the payload, if there is one. */
  method DecodeParts(text: string, k: nat) returns (r: Result<seq<nat>, Error>)
    requires Splits(text, k) && Ascii(text[..k])
    ensures r.Ok? ==> Encodes(text, text[..k], r.value)
    ensures r.Err? ==> r.error == InvalidBech32 && forall payload :: !Encodes(text, text[..k], payload)
  {
    hide Fold, Pow2, Expand, Text, Regrouped, LastOne;
    var hrp := text[..k];
    assert text == hrp + "1" + text[k + 1..] by { SplitAt(text, k); }
    var data := ReadSymbols(text[k + 1..]);
    forall payload, s | EncodesWith(text, hrp, payload, s) ensures data == Some(s) {
      SeparatorUnique(text, k, hrp, s);
      if data.Some? { TextInjective(data.value, s); }
    }
    if data.None? {
      return Err(InvalidBech32);
    }
    var symbols := data.value;
    TextFacts(symbols);
    FitAppend(Expand(hrp), symbols);
    var expanded := ExpandHrp(hrp);
    var checksum := Polymod(expanded + symbols);
    if checksum != 1 {
      return Err(InvalidBech32);
    }
    var converted := ConvertBits(symbols[..|symbols| - 6], 5, 8, false);
    forall payload { RegroupBack(payload, symbols[..|symbols| - 6]); }
    if converted.None? {
      return Err(InvalidBech32);
    }
    assert EncodesWith(text, hrp, converted.value, symbols);
    return Ok(converted.value);
  }

  lemma SplitAt(text: string, k: nat)
    requires LastOne(text, k)
    ensures text == text[..k] + "1" + text[k + 1..]
  {}

  lemma FitAppend(a: seq<nat>, b: seq<nat>)
    requires Fit(a, 5) && Fit(b, 5)
    ensures Fit(a + b, 5)
  {}

  /** The decoder returns the one meaning of the text, and refuses a text without one. */
  method Decode(cases: CaseMap, value: string) returns (r: Result<(string, seq<nat>), Error>)
    ensures forall hrp, payload :: Decodes(cases, value, hrp, payload) <==> r == Ok((hrp, payload))
    ensures r == Err(MixedCase) <==> !WellCased(cases, value)
    ensures r == Err(InvalidPrefix) <==>
      WellCased(cases, value) && exists k :: Splits(cases.lower(value), k) && !ValidHrp(cases, cases.lower(value)[..k])
  {
    hide Encodes, LastOne, Printable;
    if value == "" || (cases.lower(value) != value && cases.upper(value) != value) {
      return Err(MixedCase);
    }
    var text := cases.lower(value);
    var k := LastIndexOfOne(text);
    forall hrp, payload | Decodes(cases, value, hrp, payload) ensures Splits(text, k) && hrp == text[..k] {
      MustSplit(text, k, hrp, payload);
    }
    forall j | LastOne(text, j) ensures j == k { LastOneUnique(text, j, k); }
    if |text| < 8 || k <= 0 || k + 7 > |text| {
      return Err(InvalidBech32);
    }
    assert Splits(text, k);
    var hrp := text[..k];
    var valid := ValidateHrp(cases, hrp);
    if !valid {
      return Err(InvalidPrefix);
    }
    PrintableIsAscii(hrp);
    var payload := DecodeParts(text, k);
    if payload.Err? {
      return Err(payload.error);
    }
    r := Ok((hrp, payload.value));
    forall p | Encodes(text, hrp, p) ensures p == payload.value { MeaningUnique(text, hrp, p, hrp, payload.value); }
  }

  lemma LastOneUnique(text: string, j: int, k: int)
    requires LastOne(text, j) && LastOne(text, k)
    ensures j == k
  {}

  lemma PrintableIsAscii(text: string)
    requires Printable(text)
    ensures Ascii(text)
  {}

  // -------------------------------------------------------------------------- round trips

  /** An encoding is lower-case, so the decoder reads it as it stands. */
  lemma EncodingDecodes(cases: CaseMap, text: string, hrp: string, payload: seq<nat>)
    requires LowersAscii(cases) && ValidHrp(cases, hrp) && Encodes(text, hrp, payload)
    ensures Decodes(cases, text, hrp, payload)
  {
    hide Fold, Pow2, Expand, Text, Regrouped;
    var s :| EncodesWith(text, hrp, payload, s);
    TextFacts(s);
    PrintableIsAscii(hrp);
    assert LowerAscii(hrp) == hrp;
    forall i | 0 <= i < |text| ensures LowerChar(text[i]) == text[i] && text[i] < '\U{80}' {
      if i < |hrp| {
        assert text[i] == hrp[i] == LowerAscii(hrp)[i];
      } else if i > |hrp| {
        assert text[i] == Text(s)[i - |hrp| - 1];
      }
    }
    assert LowerAscii(text) == text;
  }

  /** Decoding an encoding gives back the parts. */
  method DecodeEncoded(cases: CaseMap, hrp: string, payload: seq<nat>) returns (r: Result<(string, seq<nat>), Error>)
    requires LowersAscii(cases) && ValidHrp(cases, hrp) && Fit(payload, 8)
    ensures r == Ok((hrp, payload))
  {
    hide Encodes, Decodes, LowersAscii, Fit;
    PrintableIsAscii(hrp);
    var text := Encode(hrp, payload);
    EncodingDecodes(cases, text, hrp, payload);
    r := Decode(cases, text);
  }

  /** Encoding what was decoded gives the lower-case form of the text. */
  method EncodeDecoded(cases: CaseMap, value: string) returns (text: Option<string>)
    ensures text.Some? ==> text.value == cases.lower(value)
    ensures text.Some? <==> exists hrp, payload :: Decodes(cases, value, hrp, payload)
  {
    hide Encodes, ValidHrp, WellCased, Fit;
    var r := Decode(cases, value);
    if r.Err? {
      return None;
    }
    var (hrp, payload) := r.value;
    assert Decodes(cases, value, hrp, payload);
    MeaningFits(cases.lower(value), hrp, payload);
    var again := Encode(hrp, payload);
    return Some(again);
  }

  lemma MeaningFits(text: string, hrp: string, payload: seq<nat>)
    requires Encodes(text, hrp, payload)
    ensures Ascii(hrp) && Fit(payload, 8)
  {}

  // ---------------------------------------------------------------------------- addresses

  const ADDRESS_LENGTH: nat := 20

  datatype AddressError = EmptyPublicKey | WrongPrefix | WrongLength | Malformed(error: Error)

  /** A valid address, with the expected human readable part if one is named. */
  ghost predicate IsAddress(cases: CaseMap, value: string, expected: string) {
    exists hrp, payload :: Decodes(cases, value, hrp, payload) && |payload| == ADDRESS_LENGTH && (expected == "" || hrp == expected)
  }

  method Validate(cases: CaseMap, value: string, expected: string) returns (r: Option<AddressError>)
    ensures r.None? <==> IsAddress(cases, value, expected)
  {
    hide Decodes;
    var decoded := Decode(cases, value);
    if decoded.Err? {
      return Some(Malformed(decoded.error));
    }
    var (hrp, data) := decoded.value;
    assert Decodes(cases, value, hrp, data);
    if expected != "" && hrp != expected {
      return Some(WrongPrefix);
    }
    if |data| != ADDRESS_LENGTH {
      return Some(WrongLength);
    }
    return None;
  }

  function Utf8(text: string): (bytes: seq<nat>) {
    seq(|text|, i requires 0 <= i < |text| => text[i] as nat)
  }

  /** The address of a public key is valid for its own human readable part and for no other. */
  method FromPublicKey(cases: CaseMap, sha: seq<nat> -> seq<nat>, hrp: string, publicKey: seq<nat>)
    returns (r: Result<string, AddressError>)
    requires LowersAscii(cases) && forall data :: |sha(data)| == 32 && Fit(sha(data), 8)
    ensures r.Ok? <==> publicKey != [] && ValidHrp(cases, hrp)
    ensures r.Ok? ==> forall expected :: IsAddress(cases, r.value, expected) <==> expected == "" || expected == hrp
    ensures r.Ok? ==> Encodes(r.value, hrp, sha(Utf8("vexo.address.v1:" + hrp + ":") + publicKey + [10])[..20])
  {
    hide Encodes, LowersAscii, Pow2;
    if publicKey == [] {
      return Err(EmptyPublicKey);
    }
    var valid := ValidateHrp(cases, hrp);
    if !valid {
      return Err(WrongPrefix);
    }
    PrintableIsAscii(hrp);
    var digest := sha(Utf8("vexo.address.v1:" + hrp + ":") + publicKey + Utf8("\n"));
    assert Utf8("\n") == [10];
    var payload := digest[..ADDRESS_LENGTH];
    var text := Encode(hrp, payload);
    EncodingDecodes(cases, text, hrp, payload);
    OneAddress(cases, text, hrp, payload);
    return Ok(text);
  }

  lemma OneAddress(cases: CaseMap, text: string, hrp: string, payload: seq<nat>)
    requires Decodes(cases, text, hrp, payload) && |payload| == ADDRESS_LENGTH
    ensures forall expected :: IsAddress(cases, text, expected) <==> expected == "" || expected == hrp
  {
    hide Encodes;
    forall h, p | Decodes(cases, text, h, p) ensures h == hrp {
      MeaningUnique(cases.lower(text), h, p, hrp, payload);
    }
    assert IsAddress(cases, text, "") && IsAddress(cases, text, hrp);
  }
}
