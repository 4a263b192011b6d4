/** Sorting by a total order; stands for Go's sort.Slice and sort.Strings. */
module Sorting {
  import opened Types

  ghost predicate TotalOrder<T(!new)>(leq: (T, T) -> bool) {
    (forall a, b :: leq(a, b) || leq(b, a)) &&
    (forall a, b, c :: leq(a, b) && leq(b, c) ==> leq(a, c))
  }

  ghost predicate Antisymmetric<T(!new)>(leq: (T, T) -> bool) {
    forall a, b :: leq(a, b) && leq(b, a) ==> a == b
  }

  predicate Sorted<T>(s: seq<T>, leq: (T, T) -> bool) {
    forall i, j | 0 <= i < j < |s| :: leq(s[i], s[j])
  }

  function Insert<T>(x: T, s: seq<T>, leq: (T, T) -> bool): seq<T> {
    if |s| == 0 || leq(x, s[0]) then [x] + s else [s[0]] + Insert(x, s[1..], leq)
  }

  function Sort<T>(s: seq<T>, leq: (T, T) -> bool): seq<T> {
    if |s| == 0 then [] else Insert(s[0], Sort(s[1..], leq), leq)
  }

  lemma {:induction false} InsertMultiset<T>(x: T, s: seq<T>, leq: (T, T) -> bool)
    ensures multiset(Insert(x, s, leq)) == multiset{x} + multiset(s)
  {
    if |s| == 0 || leq(x, s[0]) {
      assert multiset([x] + s) == multiset{x} + multiset(s);
    } else {
      InsertMultiset(x, s[1..], leq);
      assert s == [s[0]] + s[1..];
    }
  }

  lemma SortedCons<T>(head: T, tail: seq<T>, leq: (T, T) -> bool)
    requires Sorted(tail, leq) && forall y | y in multiset(tail) :: leq(head, y)
    ensures Sorted([head] + tail, leq)
  {
    var s := [head] + tail;
    forall i, j | 0 <= i < j < |s| ensures leq(s[i], s[j]) {
      assert s[j] in multiset(tail);
    }
  }

  lemma {:induction false} InsertSpec<T(!new)>(x: T, s: seq<T>, leq: (T, T) -> bool)
    requires TotalOrder(leq) && Sorted(s, leq)
    ensures Sorted(Insert(x, s, leq), leq)
  {
    if |s| == 0 || leq(x, s[0]) {
      forall y | y in multiset(s) ensures leq(x, y) { HeadIsLeast(s, y, leq); }
      SortedCons(x, s, leq);
    } else {
      InsertSpec(x, s[1..], leq);
      InsertMultiset(x, s[1..], leq);
      forall y | y in multiset(Insert(x, s[1..], leq)) ensures leq(s[0], y) {
        if y in multiset(s[1..]) { assert y in s[1..]; }
      }
      SortedCons(s[0], Insert(x, s[1..], leq), leq);
    }
  }

  /** The result is sorted and is a permutation of the input. */
  lemma {:induction false} SortSpec<T(!new)>(s: seq<T>, leq: (T, T) -> bool)
    requires TotalOrder(leq)
    ensures Sorted(Sort(s, leq), leq)
    ensures multiset(Sort(s, leq)) == multiset(s)
    ensures |Sort(s, leq)| == |s|
  {
    if |s| > 0 {
      SortSpec(s[1..], leq);
      InsertSpec(s[0], Sort(s[1..], leq), leq);
      InsertMultiset(s[0], Sort(s[1..], leq), leq);
      assert s == [s[0]] + s[1..];
    }
    assert |multiset(Sort(s, leq))| == |multiset(s)|;
  }

  lemma HeadIsLeast<T(!new)>(s: seq<T>, x: T, leq: (T, T) -> bool)
    requires TotalOrder(leq) && Sorted(s, leq) && x in s
    ensures leq(s[0], x)
  {}

  lemma TailMultiset<T>(s: seq<T>)
    requires |s| > 0
    ensures multiset(s[1..]) == multiset(s) - multiset{s[0]}
  {
    assert s == [s[0]] + s[1..];
  }

  /** Under an antisymmetric order a multiset has one sorted arrangement. */
  lemma {:induction false} SortedUnique<T(!new)>(a: seq<T>, b: seq<T>, leq: (T, T) -> bool)
    requires TotalOrder(leq) && Antisymmetric(leq)
    requires Sorted(a, leq) && Sorted(b, leq) && multiset(a) == multiset(b)
    ensures a == b
  {
    assert |multiset(a)| == |multiset(b)|;
    if |a| > 0 {
      assert a[0] in multiset(b) && b[0] in multiset(a);
      HeadIsLeast(a, b[0], leq);
      HeadIsLeast(b, a[0], leq);
      TailMultiset(a);
      TailMultiset(b);
      SortedUnique(a[1..], b[1..], leq);
      assert a == [a[0]] + a[1..];
    }
  }

  // ------------------------------------------------------------- lists without repetition

  predicate Distinct<T(==)>(s: seq<T>) {
    forall i, j | 0 <= i < j < |s| :: s[i] != s[j]
  }

  function Elements<T>(s: seq<T>): set<T> {
    set i | 0 <= i < |s| :: s[i]
  }

  lemma {:induction false} DistinctMultiset<T>(s: seq<T>)
    requires Distinct(s)
    ensures multiset(s) == multiset(Elements(s)) && |Elements(s)| == |s|
  {
    if |s| == 0 {
      assert Elements(s) == {};
    } else {
      var init, last := s[..|s| - 1], s[|s| - 1];
      DistinctMultiset(init);
      assert s == init + [last];
      assert Elements(s) == Elements(init) + {last};
      assert last !in Elements(init);
    }
  }

  lemma SameMultiset<T>(a: seq<T>, b: seq<T>)
    requires Distinct(a) && multiset(a) == multiset(b)
    ensures Distinct(b) && Elements(a) == Elements(b) && forall x :: x in a <==> x in b
  {
    DistinctMultiset(a);
    forall i, j | 0 <= i < j < |b| ensures b[i] != b[j] {
      assert b == b[..i] + [b[i]] + b[i + 1..j] + [b[j]] + b[j + 1..];
      assert multiset(Elements(a))[b[i]] <= 1;
    }
    forall x ensures x in a <==> x in b {
      assert x in a <==> x in multiset(a);
      assert x in b <==> x in multiset(b);
    }
    forall x ensures x in Elements(a) <==> x in Elements(b) {
      assert x in Elements(a) <==> x in a;
      assert x in Elements(b) <==> x in b;
    }
    assert Elements(a) == Elements(b);
  }

  /** Sorted lists without repetition that have the same elements are the same list. */
  lemma SortedDistinctUnique<T(!new)>(a: seq<T>, b: seq<T>, leq: (T, T) -> bool)
    requires TotalOrder(leq) && Antisymmetric(leq) && Sorted(a, leq) && Sorted(b, leq)
    requires Distinct(a) && Distinct(b) && Elements(a) == Elements(b)
    ensures a == b
  {
    hide TotalOrder, Antisymmetric, Sorted, Distinct, Elements;
    DistinctMultiset(a);
    DistinctMultiset(b);
    SortedUnique(a, b, leq);
  }

  // ------------------------------------------------------------------- the order on bytes

  /** Lexicographic order on bytes. */
  predicate LexLeq(a: Bytes, b: Bytes) {
    |a| == 0 || (|b| > 0 && (a[0] < b[0] || (a[0] == b[0] && LexLeq(a[1..], b[1..]))))
  }

  lemma {:induction false} LexTotal(a: Bytes, b: Bytes)
    ensures LexLeq(a, b) || LexLeq(b, a)
  {
    if |a| > 0 && |b| > 0 { LexTotal(a[1..], b[1..]); }
  }

  lemma {:induction false} LexTransitive(a: Bytes, b: Bytes, c: Bytes)
    requires LexLeq(a, b) && LexLeq(b, c)
    ensures LexLeq(a, c)
  {
    if |a| > 0 && a[0] == b[0] == c[0] { LexTransitive(a[1..], b[1..], c[1..]); }
  }

  lemma {:induction false} LexAntisymmetric(a: Bytes, b: Bytes)
    requires LexLeq(a, b) && LexLeq(b, a)
    ensures a == b
  {
    if |a| > 0 {
      LexAntisymmetric(a[1..], b[1..]);
      assert a == [a[0]] + a[1..] && b == [b[0]] + b[1..];
    }
  }

  /** The two agree before position k, and there a ends or has the smaller byte. */
  predicate PrecedesAt(a: Bytes, b: Bytes, k: nat) {
    k <= |a| && k < |b| && a[..k] == b[..k] && (k == |a| || a[k] < b[k])
  }

  /** a is a proper prefix of b, or smaller at the first byte where they differ. */
  ghost predicate Precedes(a: Bytes, b: Bytes) {
    exists k: nat :: PrecedesAt(a, b, k)
  }

  lemma {:induction false} LexIsPrecedes(a: Bytes, b: Bytes)
    ensures LexLeq(a, b) <==> a == b || Precedes(a, b)
  {
    if |a| == 0 || |b| == 0 || a[0] != b[0] {
      DecidedAtOnce(a, b);
    } else {
      LexIsPrecedes(a[1..], b[1..]);
      assert a == [a[0]] + a[1..] && b == [b[0]] + b[1..];
      PrecedesTail(a, b);
    }
  }

  lemma DecidedAtOnce(a: Bytes, b: Bytes)
    requires |a| == 0 || |b| == 0 || a[0] != b[0]
    ensures Precedes(a, b) <==> |b| > 0 && (|a| == 0 || a[0] < b[0])
  {
    assert |b| > 0 && (|a| == 0 || a[0] < b[0]) ==> PrecedesAt(a, b, 0);
    forall k: nat ensures PrecedesAt(a, b, k) ==> k == 0 { FirstAgree(a, b, k); }
  }

  lemma PrecedesTail(a: Bytes, b: Bytes)
    requires |a| > 0 && |b| > 0 && a[0] == b[0]
    ensures Precedes(a, b) <==> Precedes(a[1..], b[1..])
  {
    hide PrecedesAt;
    if Precedes(a[1..], b[1..]) {
      var k: nat :| PrecedesAt(a[1..], b[1..], k);
      OnePlaceUp(a, b, k);
    }
    if Precedes(a, b) {
      var k: nat :| PrecedesAt(a, b, k);
      NotAtStart(a, b);
      OnePlaceUp(a, b, k - 1);
    }
  }

  lemma NotAtStart(a: Bytes, b: Bytes)
    requires |a| > 0 && |b| > 0 && a[0] == b[0]
    ensures !PrecedesAt(a, b, 0)
  {}

  lemma FirstAgree(a: Bytes, b: Bytes, k: nat)
    ensures PrecedesAt(a, b, k) && k > 0 ==> a[0] == b[0]
  {
    if PrecedesAt(a, b, k) && k > 0 { assert a[..k][0] == b[..k][0]; }
  }

  lemma OnePlaceUp(a: Bytes, b: Bytes, k: nat)
    requires |a| > 0 && |b| > 0 && a[0] == b[0]
    ensures PrecedesAt(a[1..], b[1..], k) <==> PrecedesAt(a, b, k + 1)
  {
    if k + 1 <= |a| && k + 1 <= |b| {
      assert a[..k + 1] == [a[0]] + a[1..][..k] && b[..k + 1] == [b[0]] + b[1..][..k];
    }
  }

  lemma OrderFacts(a: Bytes, b: Bytes, c: Bytes)
    ensures LexLeq(a, b) || LexLeq(b, a)
    ensures LexLeq(b, c) || LexLeq(c, b)
    ensures LexLeq(a, a)
    ensures LexLeq(a, b) && LexLeq(b, a) ==> a == b
    ensures LexLeq(b, c) && LexLeq(c, b) ==> b == c
    ensures LexLeq(a, b) && LexLeq(b, c) ==> LexLeq(a, c)
    ensures LexLeq(c, b) && LexLeq(b, a) ==> LexLeq(c, a)
    ensures LexLeq(a, c) && LexLeq(c, a) ==> a == c
  {
    LexTotal(a, b);
    LexTotal(b, c);
    LexTotal(a, a);
    if LexLeq(a, b) && LexLeq(b, a) { LexAntisymmetric(a, b); }
    if LexLeq(b, c) && LexLeq(c, b) { LexAntisymmetric(b, c); }
    if LexLeq(a, c) && LexLeq(c, a) { LexAntisymmetric(a, c); }
    if LexLeq(a, b) && LexLeq(b, c) { LexTransitive(a, b, c); }
    if LexLeq(c, b) && LexLeq(b, a) { LexTransitive(c, b, a); }
  }

  lemma LexOrder()
    ensures TotalOrder(LexLeq) && Antisymmetric(LexLeq)
  {
    hide LexLeq;
    forall a, b, c ensures LexLeq(a, b) || LexLeq(b, a) ensures LexLeq(a, b) && LexLeq(b, c) ==> LexLeq(a, c)
    ensures LexLeq(a, b) && LexLeq(b, a) ==> a == b {
      OrderFacts(a, b, c);
    }
  }
}
