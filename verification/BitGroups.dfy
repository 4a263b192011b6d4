/** Regrouping of bits: the same number written in digits of another width. */
module BitGroups {
  import opened Types

  function Pow2(n: nat): (p: nat)
    ensures p > 0
  {
    if n == 0 then 1 else 2 * Pow2(n - 1)
  }

  /** The number whose big-endian digits of the given width are listed. */
  function Value(digits: seq<nat>, width: nat): nat {
    if |digits| == 0 then 0
    else Value(digits[..|digits| - 1], width) * Pow2(width) + digits[|digits| - 1]
  }

  predicate Fit(digits: seq<nat>, width: nat) {
    forall i | 0 <= i < |digits| :: digits[i] < Pow2(width)
  }

  function ShiftRight(n: nat, bits: nat): nat {
    hide Pow2;
    n / Pow2(bits)
  }

  function Mask(n: nat, bits: nat): nat {
    hide Pow2;
    n % Pow2(bits)
  }

  // ------------------------------------------------------------------------ arithmetic

  lemma {:induction false} Pow2Add(a: nat, b: nat)
    ensures Pow2(a + b) == Pow2(a) * Pow2(b)
  {
    if a > 0 {
      Pow2Add(a - 1, b);
      assert Pow2(a) * Pow2(b) == 2 * (Pow2(a - 1) * Pow2(b));
    }
  }

  lemma Multiple(k: int, d: nat)
    requires d > 0
    ensures k >= 1 ==> k * d >= d
    ensures k <= -1 ==> k * d + d <= 0
  {
    if k >= 1 { assert (k - 1) * d >= 0; }
    if k <= -1 { assert (-k - 1) * d >= 0; }
  }

  lemma DivisionUnique(n: nat, d: nat, q: nat, r: nat)
    requires d > 0 && n == q * d + r && r < d
    ensures n / d == q && n % d == r
  {
    assert n == n / d * d + n % d;
    assert (n / d - q) * d == r - n % d;
    Multiple(n / d - q, d);
  }

  lemma ProductBound(q: nat, d: nat, r: nat, e: nat)
    requires d > 0 && q < e && r < d
    ensures q * d + r < e * d
  {
    Multiple(e - q, d);
    assert e * d - q * d == (e - q) * d;
  }

  /** A number is its high part and its low part, and these are unique. */
  lemma Cut(n: nat, bits: nat)
    ensures n == ShiftRight(n, bits) * Pow2(bits) + Mask(n, bits) && Mask(n, bits) < Pow2(bits)
  {
    hide Pow2;
  }

  lemma CutAt(n: nat, bits: nat, q: nat, r: nat)
    requires n == q * Pow2(bits) + r && r < Pow2(bits)
    ensures ShiftRight(n, bits) == q && Mask(n, bits) == r
  {
    hide Pow2;
    DivisionUnique(n, Pow2(bits), q, r);
  }

  lemma Distribute(q: nat, m: nat, r: nat, f: nat)
    ensures (q * m + r) * f == q * (m * f) + r * f == q * (f * m) + r * f
  {}

  /** Cutting at a + b bits and then at a bits, or the other way round. */
  lemma CutTwice(n: nat, a: nat, b: nat)
    ensures ShiftRight(n, a + b) == ShiftRight(ShiftRight(n, a), b)
    ensures ShiftRight(Mask(n, a + b), a) == Mask(ShiftRight(n, a), b)
    ensures Mask(Mask(n, a + b), a) == Mask(n, a)
  {
    hide Pow2, ShiftRight, Mask;
    var high, low := ShiftRight(n, a), Mask(n, a);
    var top, mid := ShiftRight(high, b), Mask(high, b);
    Cut(n, a);
    Cut(high, b);
    Pow2Add(b, a);
    Distribute(top, Pow2(b), mid, Pow2(a));
    ProductBound(mid, Pow2(a), low, Pow2(b));
    CutAt(n, a + b, top, mid * Pow2(a) + low);
    CutAt(mid * Pow2(a) + low, a, mid, low);
  }

  /** A number has one list of digits of each length. */
  lemma {:induction false} ValueUnique(a: seq<nat>, b: seq<nat>, width: nat)
    requires |a| == |b| && Fit(a, width) && Fit(b, width) && Value(a, width) == Value(b, width)
    ensures a == b
  {
    if |a| > 0 {
      var last := |a| - 1;
      CutAt(Value(a, width), width, Value(a[..last], width), a[last]);
      CutAt(Value(b, width), width, Value(b[..last], width), b[last]);
      ValueUnique(a[..last], b[..last], width);
      assert a == a[..last] + [a[last]] && b == b[..last] + [b[last]];
    }
  }

  lemma ValueAppend(digits: seq<nat>, digit: nat, width: nat)
    ensures Value(digits + [digit], width) == Value(digits, width) * Pow2(width) + digit
  {
    assert (digits + [digit])[..|digits|] == digits;
  }

  // -------------------------------------------------------------------------- the loop

  /** After reading a number n: its low bits are in the accumulator, the rest has been written. */
  ghost predicate Progress(n: nat, accumulator: nat, bits: nat, converted: seq<nat>, from: nat, to: nat) {
    from + to > 0 && accumulator == Mask(n, from + to - 1) && Value(converted, to) == ShiftRight(n, bits) && Fit(converted, to)
  }

  lemma ReadDigit(n: nat, accumulator: nat, bits: nat, converted: seq<nat>, from: nat, to: nat, digit: nat)
    requires Progress(n, accumulator, bits, converted, from, to) && digit < Pow2(from)
    ensures Progress(n * Pow2(from) + digit, Mask(accumulator * Pow2(from) + digit, from + to - 1),
                     bits + from, converted, from, to)
  {
    hide Value, Fit, Pow2, ShiftRight, Mask;
    CutAt(n * Pow2(from) + digit, from, n, digit);
    CutTwice(n * Pow2(from) + digit, from, bits);
    MaskFirst(n, from + to - 1, Pow2(from), digit);
  }

  /** Bits that a mask will remove may be removed early. */
  lemma MaskFirst(n: nat, wide: nat, factor: nat, digit: nat)
    ensures Mask(Mask(n, wide) * factor + digit, wide) == Mask(n * factor + digit, wide)
  {
    hide Pow2, ShiftRight, Mask;
    var m := Pow2(wide);
    var high, low := ShiftRight(n, wide), Mask(n, wide);
    Cut(n, wide);
    var small: nat := low * factor + digit;
    Cut(small, wide);
    var k, rest := ShiftRight(small, wide), Mask(small, wide);
    Distribute(high, m, low, factor);
    Distribute(high, factor, k, m);
    CutAt(n * factor + digit, wide, high * factor + k, rest);
  }

  /** The accumulator is wide enough for the digit that is taken out of it. */
  lemma WideEnough(n: nat, wide: nat, bits: nat, to: nat)
    requires bits + to <= wide
    ensures Mask(ShiftRight(Mask(n, wide), bits), to) == Mask(ShiftRight(n, bits), to)
    ensures Mask(Mask(n, wide), bits) == Mask(n, bits)
  {
    hide Pow2, ShiftRight, Mask;
    CutTwice(n, bits, wide - bits);
    CutTwice(ShiftRight(n, bits), to, wide - bits - to);
  }

  lemma WriteDigit(n: nat, accumulator: nat, bits: nat, converted: seq<nat>, from: nat, to: nat)
    requires Progress(n, accumulator, bits + to, converted, from, to) && bits < from
    ensures Progress(n, accumulator, bits, converted + [Mask(ShiftRight(accumulator, bits), to)], from, to)
  {
    hide Value, Pow2, ShiftRight, Mask;
    WideEnough(n, from + to - 1, bits, to);
    CutTwice(n, bits, to);
    Cut(ShiftRight(n, bits), to);
    ValueAppend(converted, Mask(ShiftRight(accumulator, bits), to), to);
  }

  /** The bits left over, moved to the top of one more digit. */
  lemma Leftover(n: nat, accumulator: nat, bits: nat, from: nat, to: nat)
    requires bits < to && 0 < from && accumulator == Mask(n, from + to - 1)
    ensures Mask(accumulator * Pow2(to - bits), to) == Mask(n, bits) * Pow2(to - bits) < Pow2(to)
  {
    hide Pow2, ShiftRight, Mask;
    var b, s := Pow2(bits), Pow2(to - bits);
    WideEnough(n, from + to - 1, bits, to - bits);
    Pow2Add(bits, to - bits);
    Cut(accumulator, bits);
    var high, low := ShiftRight(accumulator, bits), Mask(accumulator, bits);
    Distribute(high, b, low, s);
    ProductBound(low, s, 0, b);
    CutAt(accumulator * s, to, high, low * s);
  }

  lemma Padded(n: nat, bits: nat, converted: seq<nat>, to: nat)
    requires bits < to && Value(converted, to) == ShiftRight(n, bits)
    ensures Value(converted + [Mask(n, bits) * Pow2(to - bits)], to) == n * Pow2(to - bits)
  {
    hide Value, Pow2, ShiftRight, Mask;
    var b, s := Pow2(bits), Pow2(to - bits);
    ValueAppend(converted, Mask(n, bits) * s, to);
    Pow2Add(bits, to - bits);
    Cut(n, bits);
    Distribute(ShiftRight(n, bits), b, Mask(n, bits), s);
  }

  /** The digits of the result spell the same number: followed by zero bits up to a whole digit
      when padding, and without trailing zero bits, fewer than one input digit of them, otherwise. */
  ghost predicate Regrouped(data: seq<nat>, from: nat, converted: seq<nat>, to: nat, pad: bool) {
    Fit(data, from) && Fit(converted, to) &&
    var read, written := |data| * from, |converted| * to;
    if pad then read <= written < read + to && Value(converted, to) == Value(data, from) * Pow2(written - read)
    else written <= read < written + to && read < written + from &&
         Value(data, from) == Value(converted, to) * Pow2(read - written)
  }

  /** The result is the regrouping of the data, and an error means that there is none. */
  method ConvertBits(data: seq<nat>, from: nat, to: nat, pad: bool) returns (r: Option<seq<nat>>)
    requires 1 <= from <= 8 && 1 <= to <= 8
    ensures r.Some? ==> Regrouped(data, from, r.value, to, pad)
    ensures r.None? ==> forall other :: !Regrouped(data, from, other, to, pad)
    ensures pad && Fit(data, from) ==> r.Some?
  {
    hide Value, Pow2, Progress, ShiftRight, Mask;
    var accumulator: nat, bits: nat, converted: seq<nat> := 0, 0, [];
    Start(from, to);
    for i := 0 to |data|
      invariant Fit(data[..i], from) && bits < to && |converted| * to + bits == i * from
      invariant Progress(Value(data[..i], from), accumulator, bits, converted, from, to)
    {
      Cut(data[i], from);
      if ShiftRight(data[i], from) != 0 {
        TooWide(data, i, from);
        return None;
      }
      assert data[..i + 1] == data[..i] + [data[i]];
      ValueAppend(data[..i], data[i], from);
      ReadDigit(Value(data[..i], from), accumulator, bits, converted, from, to, data[i]);
      accumulator := Mask(accumulator * Pow2(from) + data[i], from + to - 1);
      bits := bits + from;
      while bits >= to
        invariant |converted| * to + bits == (i + 1) * from && bits < to + from
        invariant Progress(Value(data[..i + 1], from), accumulator, bits, converted, from, to)
      {
        bits := bits - to;
        WriteDigit(Value(data[..i + 1], from), accumulator, bits, converted, from, to);
        assert (|converted| + 1) * to == |converted| * to + to;
        converted := converted + [Mask(ShiftRight(accumulator, bits), to)];
      }
    }
    assert data[..|data|] == data;
    r := Finish(data, accumulator, bits, converted, from, to, pad);
  }

  method Finish(data: seq<nat>, accumulator: nat, bits: nat, converted: seq<nat>, from: nat, to: nat, pad: bool)
    returns (r: Option<seq<nat>>)
    requires 0 < from && bits < to && |converted| * to + bits == |data| * from && Fit(data, from)
    requires Progress(Value(data, from), accumulator, bits, converted, from, to)
    ensures r.Some? ==> Regrouped(data, from, r.value, to, pad)
    ensures r.None? ==> !pad && forall other :: !Regrouped(data, from, other, to, pad)
  {
    hide Value, Pow2, ShiftRight, Mask;
    var n := Value(data, from);
    Leftover(n, accumulator, bits, from, to);
    Cut(n, bits);
    assert (|converted| + 1) * to == |converted| * to + to;
    if pad {
      if bits > 0 {
        Padded(n, bits, converted, to);
        return Some(converted + [Mask(accumulator * Pow2(to - bits), to)]);
      }
      assert Pow2(0) == 1 by { PowZero(); }
      return Some(converted);
    }
    NonZero(Mask(n, bits), Pow2(to - bits));
    if bits >= from || Mask(accumulator * Pow2(to - bits), to) != 0 {
      NotRegrouped(data, from, |converted|, bits, to);
      return None;
    }
    return Some(converted);
  }

  lemma Start(from: nat, to: nat)
    requires 0 < from + to
    ensures Progress(0, 0, 0, [], from, to) && Value([], from) == 0
  {}

  lemma PowZero()
    ensures Pow2(0) == 1
  {}

  lemma TooWide(data: seq<nat>, i: nat, width: nat)
    requires i < |data| && ShiftRight(data[i], width) != 0
    ensures !Fit(data, width)
  {
    hide Pow2;
    if data[i] < Pow2(width) { CutAt(data[i], width, 0, data[i]); }
  }

  lemma NonZero(a: nat, b: nat)
    requires b > 0
    ensures a * b == 0 <==> a == 0
  {}

  /** No list of another length, and none of this length, regroups the data. */
  lemma NotRegrouped(data: seq<nat>, from: nat, count: nat, bits: nat, to: nat)
    requires 0 < to && bits < to && count * to + bits == |data| * from
    requires bits >= from || Mask(Value(data, from), bits) != 0
    ensures forall other :: !Regrouped(data, from, other, to, false)
  {
    hide Value, Pow2, Fit, Mask, ShiftRight;
    forall other ensures !Regrouped(data, from, other, to, false) {
      if Regrouped(data, from, other, to, false) {
        var rest := |data| * from - |other| * to;
        DivisionUnique(|data| * from, to, count, bits);
        DivisionUnique(|data| * from, to, |other|, rest);
        CutAt(Value(data, from), bits, Value(other, to), 0);
      }
    }
  }

  lemma CancelPow2(a: nat, b: nat, n: nat)
    requires a * Pow2(n) == b * Pow2(n)
    ensures a == b
  {
    hide Pow2;
    assert (a - b) * Pow2(n) == 0;
    Multiple(a - b, Pow2(n));
  }

  lemma SameCount(bits: nat, a: nat, b: nat, width: nat)
    requires 0 < width && bits <= a * width < bits + width && bits <= b * width < bits + width
    ensures a == b
  {
    assert (a - b) * width == a * width - b * width;
    Multiple(a - b, width);
  }

  /** Padding is undone by regrouping back, and the other way round. */
  lemma RegroupBack(payload: seq<nat>, symbols: seq<nat>)
    ensures Regrouped(payload, 8, symbols, 5, true) <==> Regrouped(symbols, 5, payload, 8, false)
  {
    hide Value, Pow2, Fit;
  }

  lemma RegroupUnique(payload: seq<nat>, a: seq<nat>, b: seq<nat>)
    requires Regrouped(payload, 8, a, 5, true) && Regrouped(payload, 8, b, 5, true)
    ensures a == b
  {
    hide Value, Pow2, Fit;
    SameCount(|payload| * 8, |a|, |b|, 5);
    ValueUnique(a, b, 5);
  }

  lemma RegroupInjective(a: seq<nat>, b: seq<nat>, symbols: seq<nat>)
    requires Regrouped(a, 8, symbols, 5, true) && Regrouped(b, 8, symbols, 5, true)
    ensures a == b
  {
    hide Value, Pow2, Fit;
    assert |a| == |b|;
    CancelPow2(Value(a, 8), Value(b, 8), |symbols| * 5 - |a| * 8);
    ValueUnique(a, b, 8);
  }
}
