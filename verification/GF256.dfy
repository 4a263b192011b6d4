/** Arithmetic in GF(256) modulo x^8 + x^4 + x^3 + x^2 + 1 (0x11d), done through
    logarithm and exponential tables for the generator 2. */
module GF256 {
  import opened Types

  /** Multiplication by x, on one byte. */
  function Double(v: Byte): Byte {
    (v << 1) ^ ((v >> 7) * 0x1d)
  }

  /** 2^n in the field. */
  function Power(n: nat): Byte {
    if n == 0 then 1 else Double(Power(n - 1))
  }

  /** v * 2^n in the field. */
  function Shifted(n: nat, v: Byte): Byte
    decreases n
  {
    if n == 0 then v else Double(Shifted(n - 1, v))
  }

  /** The least n < 255 with 2^n == v, or 0 when there is none. */
  function Log(v: Byte): (r: nat)
    ensures r < 255
  {
    LogFrom(v, 0)
  }

  function LogFrom(v: Byte, n: nat): (r: nat)
    requires n <= 255
    ensures r < 255
    decreases 255 - n
  {
    if n == 255 then 0 else if Power(n) == v then n else LogFrom(v, n + 1)
  }

  /** Entry `i` of the exponential table: 255 powers, then copies. */
  function Exp(i: nat): Byte {
    if i < 255 then Power(i) else Exp(i - 255)
  }

  /** Addition, and subtraction, in the field. */
  function Add(left: Byte, right: Byte): Byte {
    left ^ right
  }

  function Mul(left: Byte, right: Byte): Byte {
    if left == 0 || right == 0 then 0 else Exp(Log(left) + Log(right))
  }

  function Pow(value: Byte, power: nat): Byte {
    if power == 0 then 1
    else if value == 0 then 0
    else Exp((Log(value) * (power % 255)) % 255)
  }

  function Inv(value: Byte): Byte {
    if value == 0 then 0 else Exp(255 - Log(value))
  }

  /** Shift-and-add product: polynomial multiplication reduced modulo 0x11d, with no table. */
  function Product(a: Byte, b: Byte): Byte
    decreases b
  {
    if b == 0 then 0
    else (if b & 1 != 0 then a else 0) ^ Product(Double(a), b >> 1)
  }

  /** value multiplied by itself `power` times. */
  function Iterated(value: Byte, power: nat): Byte {
    if power == 0 then 1 else Mul(Iterated(value, power - 1), value)
  }

  // ---------------------------------------------------------------- order of 2

  lemma DoubleLinear(a: Byte, b: Byte)
    ensures Double(a ^ b) == Double(a) ^ Double(b)
  {}

  lemma DoubleInjective(a: Byte, b: Byte)
    requires Double(a) == Double(b)
    ensures a == b
  {}

  lemma {:induction false} ShiftedOfPower(n: nat, k: nat)
    ensures Shifted(n, Power(k)) == Power(n + k)
  {
    if n > 0 { ShiftedOfPower(n - 1, k); }
  }

  lemma {:induction false} ShiftedLinear(n: nat, a: Byte, b: Byte)
    ensures Shifted(n, a ^ b) == Shifted(n, a) ^ Shifted(n, b)
  {
    if n > 0 {
      ShiftedLinear(n - 1, a, b);
      DoubleLinear(Shifted(n - 1, a), Shifted(n - 1, b));
    }
  }

  lemma {:induction false} ShiftedInjective(n: nat, a: Byte, b: Byte)
    requires Shifted(n, a) == Shifted(n, b)
    ensures a == b
  {
    if n > 0 {
      DoubleInjective(Shifted(n - 1, a), Shifted(n - 1, b));
      ShiftedInjective(n - 1, a, b);
    }
  }

  /** The powers 2^0 .. 2^14. */
  predicate SmallPower(v: Byte) {
    v == 1 || v == 2 || v == 4 || v == 8 || v == 16 || v == 32 || v == 64 || v == 128
    || v == 29 || v == 58 || v == 116 || v == 232 || v == 205 || v == 135 || v == 19
  }

  lemma FirstPowers(n: nat)
    requires n < 15
    ensures SmallPower(Power(n))
    ensures n > 0 ==> Power(n) != 1
  {
    assert Power(7) == 128;
    assert Power(14) == 19;
  }

  lemma Leap(n: nat, v: Byte, w: Byte)
    requires Power(n) == v && Shifted(5, Shifted(5, Shifted(5, v))) == w
    ensures Power(n + 15) == w
  {
    ShiftedOfPower(5, n);
    ShiftedOfPower(5, n + 5);
    ShiftedOfPower(5, n + 10);
  }

  lemma FirstLeaps()
    ensures Power(15) == 38 && Power(30) == 96 && Power(45) == 193 && Power(60) == 185 && Power(75) == 15
    ensures Power(90) == 223 && Power(105) == 26 && Power(120) == 59 && Power(135) == 169
  {
    Leap(0, 1, 38);
    Leap(15, 38, 96);
    Leap(30, 96, 193);
    Leap(45, 193, 185);
    Leap(60, 185, 15);
    Leap(75, 15, 223);
    Leap(90, 223, 26);
    Leap(105, 26, 59);
    Leap(120, 59, 169);
  }

  lemma LastLeaps()
    ensures Power(150) == 85 && Power(165) == 145 && Power(180) == 150 && Power(195) == 100
    ensures Power(210) == 89 && Power(225) == 36 && Power(240) == 44 && Power(255) == 1
  {
    FirstLeaps();
    Leap(135, 169, 85);
    Leap(150, 85, 145);
    Leap(165, 145, 150);
    Leap(180, 150, 100);
    Leap(195, 100, 89);
    Leap(210, 89, 36);
    Leap(225, 36, 44);
    Leap(240, 44, 1);
  }

  lemma LeapIsNotSmall(q: nat)
    requires 1 <= q <= 16
    ensures !SmallPower(Power(15 * q))
  {
    FirstLeaps();
    LastLeaps();
  }

  /** 2 has order exactly 255. */
  lemma OrderOfTwo(d: nat)
    requires 0 < d < 255
    ensures Power(d) != 1
  {
    LastLeaps();
    var q := (d + 14) / 15;
    ShiftedOfPower(15 * q - d, d);
    ShiftedOfPower(15 * q - d, 0);
    FirstPowers(15 * q - d);
    if q < 17 { LeapIsNotSmall(q); }
  }

  lemma FullPeriod() returns (d: nat)
    ensures d == 255 && Power(d) == 1
  {
    LastLeaps();
    d := 255;
  }

  lemma DoubleNonZero(v: Byte)
    requires v != 0
    ensures Double(v) != 0
  {}

  lemma {:induction false} PowerNonZero(n: nat)
    ensures Power(n) != 0
  {
    if n > 0 {
      PowerNonZero(n - 1);
      DoubleNonZero(Power(n - 1));
    }
  }

  lemma PowerInjective(i: nat, j: nat)
    requires i <= j < 255 && Power(i) == Power(j)
    ensures i == j
  {
    if i < j {
      ShiftedOfPower(i, 0);
      ShiftedOfPower(i, j - i);
      ShiftedInjective(i, 1, Power(j - i));
      OrderOfTwo(j - i);
    }
  }

  // ------------------------------------------------------- the tables are total

  ghost function Reached(n: nat): set<int> {
    set i | 0 <= i < n :: Power(i) as int
  }

  lemma NewPower(n: nat)
    requires n < 255
    ensures Power(n) as int !in Reached(n)
  {
    if Power(n) as int in Reached(n) {
      var i: nat :| i < n && Power(i) as int == Power(n) as int;
      PowerInjective(i, n);
    }
  }

  lemma {:induction false} ReachedSize(n: nat)
    requires n <= 255
    ensures |Reached(n)| == n
    ensures forall x :: x in Reached(n) ==> 0 < x < 256
  {
    if n > 0 {
      ReachedSize(n - 1);
      PowerNonZero(n - 1);
      assert Reached(n) == Reached(n - 1) + {Power(n - 1) as int};
      if Power(n - 1) as int in Reached(n - 1) {
        NewPower(n - 1);
      }
    } else {
      assert Reached(0) == {};
    }
  }

  lemma {:induction false} BoundedSetSize(s: set<int>, n: nat)
    requires forall x :: x in s ==> 0 <= x < n
    ensures |s| <= n
  {
    if n == 0 {
      forall x: int ensures x !in s {}
      assert s == {};
    } else {
      BoundedSetSize(s - {n - 1}, n - 1);
    }
  }

  /** Every non-zero byte is a power of 2. */
  lemma EveryByteIsAPower(v: Byte) returns (n: nat)
    requires v != 0
    ensures n < 255 && Power(n) == v
  {
    hide Power;
    ReachedSize(255);
    if v as int !in Reached(255) {
      BoundedSetSize(Reached(255) + {0, v as int}, 256);
      assert false;
    }
    n :| 0 <= n < 255 && Power(n) as int == v as int;
  }

  lemma {:induction false} LogFromSpec(v: Byte, n: nat, k: nat)
    requires n <= k < 255 && Power(k) == v
    ensures Power(LogFrom(v, n)) == v
    decreases k - n
  {
    if Power(n) != v { LogFromSpec(v, n + 1, k); }
  }

  /** The logarithm table inverts the exponential table. */
  lemma LogSpec(v: Byte)
    requires v != 0
    ensures Power(Log(v)) == v
  {
    var k := EveryByteIsAPower(v);
    LogFromSpec(v, 0, k);
  }

  lemma LogOfPower(n: nat)
    requires n < 255
    ensures Log(Power(n)) == n
  {
    PowerNonZero(n);
    LogSpec(Power(n));
    var m := Log(Power(n));
    if m <= n { PowerInjective(m, n); } else { PowerInjective(n, m); }
  }

  // ---------------------------------------------------------------- field laws

  lemma PowerPeriod(n: nat, d: nat)
    requires Power(d) == 1
    ensures Power(n + d) == Power(n)
  {
    ShiftedOfPower(n, d);
    ShiftedOfPower(n, 0);
  }

  lemma {:induction false} ExpIsPower(n: nat)
    ensures Exp(n) == Power(n)
  {
    if n >= 255 {
      var d := FullPeriod();
      PowerPeriod(n - d, d);
      ExpIsPower(n - d);
    }
  }

  lemma {:induction false} ShiftedZero(n: nat)
    ensures Shifted(n, 0) == 0
  {
    if n > 0 { ShiftedZero(n - 1); }
  }

  /** Multiplying by b is doubling Log(b) times. */
  lemma MulIsShift(a: Byte, b: Byte)
    requires b != 0
    ensures Mul(a, b) == Shifted(Log(b), a)
  {
    if a == 0 {
      ShiftedZero(Log(b));
    } else {
      LogSpec(a);
      ShiftedOfPower(Log(b), Log(a));
      ExpIsPower(Log(a) + Log(b));
    }
  }

  lemma MulCommutes(a: Byte, b: Byte)
    ensures Mul(a, b) == Mul(b, a)
  {}

  /** Multiplication distributes over addition. */
  lemma MulDistributes(a: Byte, b: Byte, c: Byte)
    ensures Mul(Add(a, b), c) == Add(Mul(a, c), Mul(b, c))
  {
    if c != 0 {
      ghost var sum := a ^ b;
      MulIsShift(a, c);
      MulIsShift(b, c);
      MulIsShift(sum, c);
      ShiftedLinear(Log(c), a, b);
    }
  }

  lemma MulDistributesRight(c: Byte, a: Byte, b: Byte)
    ensures Mul(c, Add(a, b)) == Add(Mul(c, a), Mul(c, b))
  {
    hide Mul, Add;
    MulCommutes(c, a);
    MulCommutes(c, b);
    MulCommutes(c, Add(a, b));
    MulDistributes(a, b, c);
  }

  lemma AddLaws(a: Byte, b: Byte, c: Byte)
    ensures Add(a, b) == Add(b, a)
    ensures Add(Add(a, b), c) == Add(a, Add(b, c))
    ensures Add(a, 0) == a && Add(0, a) == a && Add(a, a) == 0
  {}

  lemma AddSwap(a: Byte, b: Byte, c: Byte, d: Byte)
    ensures Add(Add(a, b), Add(c, d)) == Add(Add(a, c), Add(b, d))
  {
    hide Add;
    AddLaws(a, b, Add(c, d));
    AddLaws(b, c, d);
    AddLaws(c, b, d);
    AddLaws(a, c, Add(b, d));
  }

  /** Exponents add. */
  lemma MulPowers(m: nat, n: nat)
    ensures Mul(Power(m), Power(n)) == Power(m + n)
  {
    PowerNonZero(n);
    var k := Log(Power(n));
    LogSpec(Power(n));
    MulIsShift(Power(m), Power(n));
    ShiftedOfPower(k, m);
    ShiftedOfPower(m, k);
    ShiftedOfPower(m, n);
  }

  lemma MulNonZero(a: Byte, b: Byte)
    ensures Mul(a, b) == 0 <==> a == 0 || b == 0
  {
    ExpIsPower(Log(a) + Log(b));
    PowerNonZero(Log(a) + Log(b));
  }

  lemma MulOne(a: Byte)
    ensures Mul(1, a) == a && Mul(a, 1) == a
  {
    LogOfPower(0);
    if a != 0 { LogSpec(a); }
  }

  lemma MulAssociates(a: Byte, b: Byte, c: Byte)
    ensures Mul(Mul(a, b), c) == Mul(a, Mul(b, c))
  {
    hide *;
    MulNonZero(a, b);
    MulNonZero(b, c);
    MulNonZero(Mul(a, b), c);
    MulNonZero(a, Mul(b, c));
    if a != 0 && b != 0 && c != 0 {
      var x, y, z := Log(a), Log(b), Log(c);
      LogSpec(a);
      LogSpec(b);
      LogSpec(c);
      MulPowers(x, y);
      MulPowers(x + y, z);
      MulPowers(y, z);
      MulPowers(x, y + z);
    }
  }

  lemma InvSpec(v: Byte)
    requires v != 0
    ensures Mul(v, Inv(v)) == 1 && Inv(v) != 0
  {
    var d := FullPeriod();
    var l := Log(v);
    LogSpec(v);
    ExpIsPower(d - l);
    PowerNonZero(d - l);
    MulPowers(l, d - l);
  }

  /** The table product is the product of polynomials modulo 0x11d. */
  lemma {:induction false} MulIsProduct(a: Byte, b: Byte)
    ensures Mul(a, b) == Product(a, b)
    decreases b
  {
    hide Mul, Double;
    MulNonZero(a, b);
    if b != 0 {
      MulByLowBit(a, b);
      MulIsProduct(Double(a), b >> 1);
    }
  }

  lemma MulByLowBit(a: Byte, b: Byte)
    ensures Mul(a, b) == (if b & 1 != 0 then a else 0) ^ Mul(Double(a), b >> 1)
  {
    hide Mul, Double;
    ghost var low: Byte := if b & 1 != 0 then 1 else 0;
    ghost var rest := Double(b >> 1);
    SplitLowBit(b, low);
    MulCommutes(a, b);
    MulCommutes(a, rest);
    MulDistributes(low, rest, a);
    MulOne(a);
    MulNonZero(0, a);
    MulDouble(a, b >> 1);
  }

  lemma SplitLowBit(b: Byte, low: Byte)
    requires low == if b & 1 != 0 then 1 else 0
    ensures b == low ^ Double(b >> 1)
  {}

  lemma MulDouble(a: Byte, b: Byte)
    ensures Mul(a, Double(b)) == Mul(Double(a), b)
  {
    assert Shifted(1, a) == Double(a) && Shifted(1, b) == Double(b) && Power(1) == 2;
    LogOfPower(1);
    MulIsShift(a, 2);
    MulIsShift(b, 2);
    MulAssociates(a, 2, b);
    MulCommutes(2, b);
  }

  lemma {:induction false} PowerModulo(n: nat)
    ensures Power(n % 255) == Power(n)
  {
    if n >= 255 {
      var d := FullPeriod();
      PowerPeriod(n - d, d);
      PowerModulo(n - d);
      assert n % 255 == (n - d) % 255;
    }
  }

  /** gfPow is the repeated product. */
  lemma PowIsIterated(value: Byte, power: nat)
    ensures Pow(value, power) == Iterated(value, power)
  {
    if power > 0 {
      if value == 0 {
        assert Iterated(value, power) == Mul(Iterated(value, power - 1), value);
      } else {
        PowIsIteratedNonZero(value, power);
      }
    }
  }

  lemma PowIsIteratedNonZero(value: Byte, power: nat)
    requires value != 0 && power > 0
    ensures Pow(value, power) == Iterated(value, power)
  {
    hide Power, Log, Mul, Iterated, Exp;
    var l := Log(value);
    var e := (l * (power % 255)) % 255;
    LogSpec(value);
    IteratedPower(l, power % 255);
    PowerModulo(l * (power % 255));
    IteratedModulo(value, power);
    ExpIsPower(e);
  }

  lemma {:induction false} IteratedPower(l: nat, power: nat)
    ensures Iterated(Power(l), power) == Power(l * power)
  {
    hide Power, Mul;
    if power == 0 {
      assert l * power == 0;
      PowerZero();
    } else {
      IteratedPower(l, power - 1);
      MulPowers(l * (power - 1), l);
      assert l * power == l * (power - 1) + l;
    }
  }

  lemma PowerZero()
    ensures Power(0) == 1 && Power(1) == 2
  {}

  lemma {:induction false} IteratedModulo(value: Byte, power: nat)
    requires value != 0
    ensures Iterated(value, power % 255) == Iterated(value, power)
  {
    hide *;
    if power >= 255 {
      IteratedModulo(value, power - 255);
      assert power % 255 == (power - 255) % 255;
      var l := Log(value);
      LogSpec(value);
      IteratedPower(l, power);
      IteratedPower(l, power - 255);
      assert l * power == l * (power - 255) + l * 255;
      MultiplePeriod(l * (power - 255), l);
    }
  }

  lemma {:induction false} MultiplePeriod(n: nat, l: nat)
    ensures Power(n + l * 255) == Power(n)
  {
    if l > 0 {
      var d := FullPeriod();
      MultiplePeriod(n, l - 1);
      PowerPeriod(n + (l - 1) * 255, d);
      assert n + l * 255 == n + (l - 1) * 255 + d;
    }
  }

  /** Exponents matter modulo 255, and only so. */
  lemma SamePower(m: nat, n: nat)
    ensures Power(m) == Power(n) <==> (m - n) % 255 == 0
  {
    hide Power;
    PowerModulo(m);
    PowerModulo(n);
    var i: nat, j: nat := m % 255, n % 255;
    assert m == m / 255 * 255 + i && n == n / 255 * 255 + j;
    assert (m - n) % 255 == 0 <==> i == j by { assert m - n == (m / 255 - n / 255) * 255 + (i - j); }
    if Power(i) == Power(j) {
      if i <= j { PowerInjective(i, j); } else { PowerInjective(j, i); }
    }
  }

  lemma PowAsPower(value: Byte, power: nat)
    requires value != 0
    ensures Pow(value, power) == Power(Log(value) * power)
  {
    hide Pow, Power, Log, Iterated;
    PowIsIterated(value, power);
    LogSpec(value);
    IteratedPower(Log(value), power);
  }

  lemma PowSum(value: Byte, a: nat, b: nat)
    requires value != 0
    ensures Pow(value, a + b) == Mul(Pow(value, a), Pow(value, b))
  {
    hide Pow, Power, Log, Mul;
    var l := Log(value);
    PowAsPower(value, a);
    PowAsPower(value, b);
    PowAsPower(value, a + b);
    MulPowers(l * a, l * b);
    assert l * (a + b) == l * a + l * b;
  }

  lemma PowProduct(value: Byte, a: nat, b: nat)
    requires value != 0
    ensures Pow(value, a * b) == Pow(Pow(value, a), b)
  {
    hide Pow, Power, Log, Iterated;
    var l := Log(value);
    PowAsPower(value, a);
    PowAsPower(value, a * b);
    PowIsIterated(Power(l * a), b);
    IteratedPower(l * a, b);
    assert l * (a * b) == l * a * b;
  }

  /** When two bytes have the same power. */
  lemma SamePow(x: Byte, y: Byte, power: nat)
    requires x != 0 && y != 0
    ensures Pow(x, power) == Pow(y, power) <==> ((Log(y) - Log(x)) * power) % 255 == 0
  {
    hide Pow, Power, Log;
    PowAsPower(x, power);
    PowAsPower(y, power);
    SamePower(Log(y) * power, Log(x) * power);
    assert Log(y) * power - Log(x) * power == (Log(y) - Log(x)) * power;
  }

  lemma PowNonZero(value: Byte, power: nat)
    requires value != 0
    ensures Pow(value, power) != 0
  {
    PowerNonZero((Log(value) * (power % 255)) % 255);
  }

  // ---------------------------------------------------------- building the tables

  function NextValue(value: bv16): bv16 {
    var doubled := value << 1;
    if doubled & 0x100 != 0 then doubled ^ 0x11d else doubled
  }

  lemma NextPower(n: nat)
    ensures NextValue(Power(n) as bv16) == Power(n + 1) as bv16
  {
    WideDouble(Power(n));
    hide NextValue, Double;
  }

  lemma WideDouble(v: Byte)
    ensures NextValue(v as bv16) == Double(v) as bv16
  {}

  lemma Narrow(v: Byte)
    ensures (v as bv16) as Byte == v
  {}

  lemma {:induction false} LogOfZero(n: nat)
    requires n <= 255
    ensures LogFrom(0, n) == 0
    decreases 255 - n
  {
    hide Power;
    if n < 255 {
      PowerNonZero(n);
      LogOfZero(n + 1);
    }
  }

  /** The position of 2^n in the logarithm table. */
  function Slot(n: nat): (r: nat)
    ensures 0 < r < 256
  {
    PowerNonZero(n);
    Power(n) as int
  }

  lemma DistinctSlots(i: nat, j: nat)
    requires i < j < 255
    ensures Slot(i) != Slot(j)
  {
    hide Power;
    if Power(i) == Power(j) { PowerInjective(i, j); }
  }

  /** Fills the two tables that Exp and Log stand for. */
  method BuildTables() returns (exp: array<Byte>, log: array<nat>)
    ensures exp.Length == 512 && forall i | 0 <= i < 512 :: exp[i] == Exp(i)
    ensures log.Length == 256 && forall v: Byte :: log[v as int] == Log(v)
  {
    exp := new Byte[512](_ => 0);
    log := new nat[256](_ => 0);
    FillPowers(exp, log);
    var index := 255;
    while index < 512
      modifies exp
      invariant 255 <= index <= 512
      invariant forall i | 0 <= i < index :: exp[i] == Exp(i)
    {
      hide Power, Log, Slot;
      exp[index] := exp[index - 255];
      index := index + 1;
    }
    forall v: Byte ensures log[v as int] == Log(v) {
      hide Power, Log;
      if v == 0 {
        LogIsZeroOfZero();
      } else {
        LogSpec(v);
        assert Slot(Log(v)) == v as int;
      }
    }
  }

  method FillPowers(exp: array<Byte>, log: array<nat>)
    requires exp.Length == 512 && log.Length == 256 && log[0] == 0
    modifies exp, log
    ensures forall i | 0 <= i < 255 :: exp[i] == Power(i)
    ensures forall i | 0 <= i < 255 :: log[Slot(i)] == i
    ensures log[0] == 0
  {
    hide Power, NextValue;
    var value: bv16 := 1;
    PowerZero();
    var index := 0;
    while index < 255
      invariant 0 <= index <= 255
      invariant value == Power(index) as bv16
      invariant forall i | 0 <= i < index :: exp[i] == Power(i)
      invariant forall i | 0 <= i < index :: log[Slot(i)] == i
      invariant log[0] == 0
    {
      Narrow(Power(index));
      var low := value as Byte;
      assert low as int == Slot(index);
      hide Slot;
      forall i | 0 <= i < index ensures Slot(i) != Slot(index) {
        DistinctSlots(i, index);
      }
      exp[index] := low;
      log[low as int] := index;
      NextPower(index);
      value := NextValue(value);
      index := index + 1;
    }
  }

  lemma LogIsZeroOfZero()
    ensures Log(0) == 0
  {
    LogOfZero(0);
  }

  lemma LogOfThree()
    ensures Log(3) == 25
  {
    hide Log;
    FirstLeaps();
    ShiftedOfPower(5, 15);
    ShiftedOfPower(5, 20);
    assert Shifted(5, Shifted(5, 38)) == 3;
    LogOfPower(25);
  }
}
