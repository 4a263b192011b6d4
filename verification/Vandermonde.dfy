/** Polynomials over GF(256): how many roots they have, and what this says of matrices of powers. */
module Vandermonde {
  import opened Types
  import opened GF256
  import opened Matrix

  /** The polynomial with these coefficients, lowest first, at a point. */
  function Eval(v: Bytes, x: Byte): Byte {
    if |v| == 0 then 0 else Add(v[0], Mul(x, Eval(v[1..], x)))
  }

  // --------------------------------------------------------------------- dividing by a root

  /** The polynomial divided by x - a, without the remainder. */
  function Quotient(v: Bytes, a: Byte): (q: Bytes)
    ensures |v| > 0 ==> |q| == |v| - 1
  {
    if |v| <= 1 then [] else [Eval(v[1..], a)] + Quotient(v[1..], a)
  }

  lemma Cancel(p: Byte, q: Byte, r: Byte, c: Byte)
    ensures Add(Add(p, q), Add(r, p)) == Add(Add(c, r), Add(c, q))
  {}

  lemma MulZero(a: Byte)
    ensures Mul(a, 0) == 0 && Mul(0, a) == 0
  {}

  lemma MulSwap(s: Byte, x: Byte, q: Byte)
    ensures Mul(s, Mul(x, q)) == Mul(x, Mul(s, q))
  {
    hide Mul;
    MulAssociates(s, x, q);
    MulAssociates(x, s, q);
    MulCommutes(s, x);
  }

  lemma DivisionStep(c: Byte, x: Byte, a: Byte, wx: Byte, wa: Byte, q: Byte)
    requires Mul(Add(x, a), q) == Add(wx, wa)
    ensures Mul(Add(x, a), Add(wa, Mul(x, q))) == Add(Add(c, Mul(x, wx)), Add(c, Mul(a, wa)))
  {
    hide Mul, Add;
    var s := Add(x, a);
    MulDistributesRight(s, wa, Mul(x, q));
    MulDistributes(x, a, wa);
    MulSwap(s, x, q);
    MulDistributesRight(x, wx, wa);
    Cancel(Mul(x, wa), Mul(a, wa), Mul(x, wx), c);
  }

  lemma {:induction false} Division(v: Bytes, a: Byte, x: Byte)
    ensures Mul(Add(x, a), Eval(Quotient(v, a), x)) == Add(Eval(v, x), Eval(v, a))
    decreases |v|
  {
    hide Mul, Add;
    if |v| <= 1 {
      MulZero(Add(x, a));
      MulZero(x);
      MulZero(a);
      AddLaws(Eval(v, x), 0, 0);
      if |v| == 1 { assert Eval(v, x) == Add(v[0], Mul(x, Eval(v[1..], x))) && Eval(v, a) == Add(v[0], Mul(a, Eval(v[1..], a))); }
      assert Eval(v, x) == Eval(v, a);
    } else {
      var w := v[1..];
      Division(w, a, x);
      assert Quotient(v, a)[1..] == Quotient(w, a);
      DivisionStep(v[0], x, a, Eval(w, x), Eval(w, a), Eval(Quotient(w, a), x));
    }
  }

  /** Only the zero polynomial with this root has a zero quotient. */
  lemma {:induction false} ZeroQuotient(v: Bytes, a: Byte)
    requires Eval(v, a) == 0 && AllZero(Quotient(v, a))
    ensures AllZero(v)
    decreases |v|
  {
    hide Mul, Add;
    if |v| > 0 {
      var w := v[1..];
      MulZero(a);
      AddLaws(v[0], 0, 0);
      if |v| == 1 {
        assert Eval(w, a) == 0;
      } else {
        assert Quotient(v, a)[0] == Eval(w, a) && Quotient(v, a)[1..] == Quotient(w, a);
        ZeroQuotient(w, a);
      }
      forall i | 0 <= i < |v| ensures v[i] == 0 { if i > 0 { assert v[i] == w[i - 1]; } }
    }
  }

  predicate Different(points: Bytes) {
    forall i, j | 0 <= i < j < |points| :: points[i] != points[j]
  }

  /** A polynomial with as many different roots as coefficients is zero. */
  lemma {:induction false} TooManyRoots(v: Bytes, points: Bytes)
    requires |v| == |points| && Different(points)
    requires forall i | 0 <= i < |points| :: Eval(v, points[i]) == 0
    ensures AllZero(v)
    decreases |v|
  {
    hide Mul, Add, Eval, Quotient;
    if |v| > 0 {
      var init, a := points[..|points| - 1], points[|points| - 1];
      var q := Quotient(v, a);
      forall i | 0 <= i < |init| ensures Eval(q, init[i]) == 0 {
        Division(v, a, init[i]);
        AddLaws(0, 0, 0);
        MulNonZero(Add(init[i], a), Eval(q, init[i]));
        SumIsZero(init[i], a);
      }
      TooManyRoots(q, init);
      ZeroQuotient(v, a);
    }
  }

  lemma SumIsZero(a: Byte, b: Byte)
    ensures Add(a, b) == 0 <==> a == b
  {}

  // ------------------------------------------------------------ a polynomial with given roots

  /** The polynomial times x - a. */
  function Times(q: Bytes, a: Byte): (r: Bytes)
    ensures |r| == |q| + 1
  {
    if |q| == 0 then [0] else [Mul(a, q[0])] + Plus(Times(q[1..], a), q[0])
  }

  /** A constant more. */
  function Plus(v: Bytes, c: Byte): (r: Bytes)
    requires |v| > 0
    ensures |r| == |v|
  {
    [Add(v[0], c)] + v[1..]
  }

  lemma EvalPlus(v: Bytes, c: Byte, x: Byte)
    requires |v| > 0
    ensures Eval(Plus(v, c), x) == Add(c, Eval(v, x))
  {
    hide Mul, Add;
    assert Plus(v, c)[1..] == v[1..];
    AddLaws(v[0], c, Mul(x, Eval(v[1..], x)));
    AddLaws(c, v[0], Mul(x, Eval(v[1..], x)));
  }

  lemma {:induction false} TimesIsProduct(q: Bytes, a: Byte, x: Byte)
    ensures Eval(Times(q, a), x) == Mul(Add(x, a), Eval(q, x))
    decreases |q|
  {
    hide Mul, Add;
    if |q| == 0 {
      MulZero(Add(x, a));
      MulZero(x);
      AddLaws(0, 0, 0);
      assert Eval([0][1..], x) == 0;
    } else {
      var rest, c := q[1..], q[0];
      TimesIsProduct(rest, a, x);
      EvalPlus(Times(rest, a), c, x);
      assert Times(q, a)[1..] == Plus(Times(rest, a), c);
      ProductStep(c, x, a, Eval(rest, x));
    }
  }

  lemma ProductStep(c: Byte, x: Byte, a: Byte, e: Byte)
    ensures Add(Mul(a, c), Mul(x, Add(c, Mul(Add(x, a), e)))) == Mul(Add(x, a), Add(c, Mul(x, e)))
  {
    hide Mul, Add;
    var s := Add(x, a);
    MulDistributesRight(x, c, Mul(s, e));
    MulDistributesRight(s, c, Mul(x, e));
    MulDistributes(x, a, c);
    MulSwap(s, x, e);
    AddLaws(Mul(a, c), Mul(x, c), Mul(x, Mul(s, e)));
  }

  /** The polynomial that is zero at these points. */
  function Vanishing(points: Bytes): (v: Bytes)
    ensures |v| == |points| + 1
  {
    if |points| == 0 then [1] else Times(Vanishing(points[..|points| - 1]), points[|points| - 1])
  }

  lemma {:induction false} LeadingOfTimes(q: Bytes, a: Byte)
    requires |q| > 0
    ensures Times(q, a)[|q|] == q[|q| - 1]
    decreases |q|
  {
    hide Mul, Add;
    if |q| == 1 {
      assert q[1..] == [] && Times(q, a) == [Mul(a, q[0])] + Plus([0], q[0]);
      AddLaws(q[0], 0, 0);
    } else {
      LeadingOfTimes(q[1..], a);
      assert Times(q, a)[|q|] == Plus(Times(q[1..], a), q[0])[|q| - 1];
    }
  }

  lemma {:induction false} VanishingSpec(points: Bytes)
    ensures Vanishing(points)[|points|] == 1
    ensures forall i | 0 <= i < |points| :: Eval(Vanishing(points), points[i]) == 0
  {
    hide Mul, Add, Eval, Times;
    if |points| > 0 {
      var init, a := points[..|points| - 1], points[|points| - 1];
      VanishingSpec(init);
      LeadingOfTimes(Vanishing(init), a);
      forall i | 0 <= i < |points| ensures Eval(Vanishing(points), points[i]) == 0 {
        TimesIsProduct(Vanishing(init), a, points[i]);
        MulNonZero(Add(points[i], a), Eval(Vanishing(init), points[i]));
        SumIsZero(points[i], a);
        if i < |init| { assert points[i] == init[i]; }
      }
    }
  }

  // --------------------------------------------------------------------- matrices of powers

  lemma {:induction false} EvalAppend(v: Bytes, c: Byte, x: Byte)
    ensures Eval(v + [c], x) == Add(Eval(v, x), Mul(Pow(x, |v|), c))
    decreases |v|
  {
    hide Mul, Add, Pow;
    if |v| == 0 {
      assert v + [c] == [c] && [c][1..] == [];
      MulZero(x);
      MulOne(c);
      PowStep(x, 0);
      AddLaws(c, 0, 0);
    } else {
      var w, e := v[1..], Eval(v[1..], x);
      EvalAppend(w, c, x);
      assert (v + [c])[1..] == w + [c];
      PowStep(x, |w|);
      MulDistributesRight(x, e, Mul(Pow(x, |w|), c));
      MulAssociates(x, Pow(x, |w|), c);
      AddLaws(v[0], Mul(x, e), Mul(Pow(x, |v|), c));
    }
  }

  lemma PowStep(x: Byte, k: nat)
    ensures Pow(x, 0) == 1 && Pow(x, k + 1) == Mul(x, Pow(x, k))
  {
    hide Mul;
    PowIsIterated(x, 0);
    PowIsIterated(x, k);
    PowIsIterated(x, k + 1);
    MulCommutes(x, Pow(x, k));
  }

  /** A row of scaled powers times a vector is the scaled value of a polynomial. */
  lemma {:induction false} RowIsEval(row: Bytes, c: Byte, y: Byte, v: Bytes, n: nat)
    requires n <= |row| && n <= |v| && forall j | 0 <= j < n :: row[j] == Mul(c, Pow(y, j))
    ensures Dot(row, 0, v, n) == Mul(c, Eval(v[..n], y))
  {
    hide Mul, Add, Pow, Eval;
    if n == 0 {
      assert v[..0] == [] && Eval([], y) == 0 by { EvalNone(y); }
      MulZero(c);
    } else {
      RowIsEval(row, c, y, v, n - 1);
      assert v[..n] == v[..n - 1] + [v[n - 1]];
      EvalAppend(v[..n - 1], v[n - 1], y);
      MulDistributesRight(c, Eval(v[..n - 1], y), Mul(Pow(y, n - 1), v[n - 1]));
      MulAssociates(c, Pow(y, n - 1), v[n - 1]);
    }
  }

  lemma EvalNone(x: Byte)
    ensures Eval([], x) == 0
  {}

  /** Row r holds the powers of a point, scaled. */
  predicate PowerRows(m: seq<Bytes>, scales: Bytes, points: Bytes) {
    Square(m) && |scales| == |points| == |m| && (forall r | 0 <= r < |m| :: scales[r] != 0) &&
    forall r, j | 0 <= r < |m| && 0 <= j < |m| :: m[r][j] == Mul(scales[r], Pow(points[r], j))
  }

  lemma KernelIsRoots(m: seq<Bytes>, scales: Bytes, points: Bytes, v: Bytes)
    requires PowerRows(m, scales, points) && |v| == |m|
    ensures AllZero(Apply(m, v)) <==> forall r | 0 <= r < |m| :: Eval(v, points[r]) == 0
  {
    hide Mul, Pow, Eval, Dot;
    forall r | 0 <= r < |m| ensures Apply(m, v)[r] == 0 <==> Eval(v, points[r]) == 0 {
      RowIsEval(m[r], scales[r], points[r], v, |m|);
      assert v[..|m|] == v;
      MulNonZero(scales[r], Eval(v, points[r]));
    }
  }

  /** Such a matrix is singular exactly if two of its points are the same. */
  lemma SingularIfSame(m: seq<Bytes>, scales: Bytes, points: Bytes)
    requires PowerRows(m, scales, points)
    ensures Singular(m) <==> !Different(points)
  {
    hide Mul, Pow, Eval, Apply, Vanishing, PowerRows;
    RowCount(m, scales, points);
    if Singular(m) && Different(points) {
      var v: Bytes :| |v| == |m| && !AllZero(v) && AllZero(Apply(m, v));
      KernelIsRoots(m, scales, points, v);
      TooManyRoots(v, points);
      assert false;
    }
    if !Different(points) {
      var i, j :| 0 <= i < j < |points| && points[i] == points[j];
      var others := points[..j] + points[j + 1..];
      var v := Vanishing(others);
      VanishingSpec(others);
      forall r | 0 <= r < |m| ensures Eval(v, points[r]) == 0 {
        assert points[r] == if r < j then others[r] else if r == j then others[i] else others[r - 1];
      }
      KernelIsRoots(m, scales, points, v);
      assert v[|others|] == 1;
    }
  }

  lemma RowCount(m: seq<Bytes>, scales: Bytes, points: Bytes)
    requires PowerRows(m, scales, points)
    ensures |m| == |points| == |scales| && Square(m)
  {
    hide Mul, Pow;
  }
}
