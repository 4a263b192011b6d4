/** Reed-Solomon parity over groups of chunks, and the recovery of a group's missing chunks. */
module Erasure {
  import opened Types
  import opened GF256
  import opened Matrix
  import Sorting
  import Merkle

  function Padded(data: Bytes, size: nat): (r: Bytes)
    ensures |r| == size
  {
    seq(size, i requires 0 <= i < size => if i < |data| then data[i] else 0)
  }

  function Zeros(size: nat): (r: Bytes)
    ensures |r| == size
  {
    seq(size, _ => 0)
  }

  predicate Uniform(vectors: seq<Bytes>, size: nat) {
    forall i | 0 <= i < |vectors| :: |vectors[i]| == size
  }

  /** coefficients[0] * vectors[0] + ... + coefficients[n - 1] * vectors[n - 1]. */
  function Combine(coefficients: Bytes, vectors: seq<Bytes>, n: nat, size: nat): (r: Bytes)
    requires n <= |coefficients| && n <= |vectors| && Uniform(vectors, size)
    ensures |r| == size
  {
    if n == 0 then Zeros(size)
    else AddScaled(Combine(coefficients, vectors, n - 1, size), coefficients[n - 1], vectors[n - 1])
  }

  /** The bytes of the vectors at one position. */
  function At(vectors: seq<Bytes>, size: nat, position: nat): (r: Bytes)
    requires Uniform(vectors, size) && position < size
    ensures |r| == |vectors|
  {
    seq(|vectors|, i requires 0 <= i < |vectors| => vectors[i][position])
  }

  lemma {:induction false} CombineAt(coefficients: Bytes, vectors: seq<Bytes>, n: nat, size: nat, position: nat)
    requires n <= |coefficients| && n <= |vectors| && Uniform(vectors, size) && position < size
    ensures Combine(coefficients, vectors, n, size)[position] == Dot(coefficients, 0, At(vectors, size, position), n)
  {
    hide Mul, Add;
    if n > 0 { CombineAt(coefficients, vectors, n - 1, size, position); }
  }

  lemma {:induction false} CombinePrefix(c: Bytes, v: seq<Bytes>, c': Bytes, v': seq<Bytes>, n: nat, size: nat)
    requires n <= |c| && n <= |v| && n <= |c'| && n <= |v'| && Uniform(v, size) && Uniform(v', size)
    requires forall i | 0 <= i < n :: c[i] == c'[i] && v[i] == v'[i]
    ensures Combine(c, v, n, size) == Combine(c', v', n, size)
  {
    hide AddScaled;
    if n > 0 { CombinePrefix(c, v, c', v', n - 1, size); }
  }

  /** Row x of the encoding: 1, x, x^2, ... */
  function Powers(x: Byte, n: nat): (r: Bytes)
    ensures |r| == n
  {
    seq(n, i requires 0 <= i => Pow(x, i))
  }

  /** The evaluation point of a parity shard. */
  function Point(shard: nat): Byte {
    ((shard + 1) % 256) as Byte
  }

  function ParityOf(vectors: seq<Bytes>, size: nat, shard: nat): (r: Bytes)
    requires Uniform(vectors, size)
    ensures |r| == size
  {
    Combine(Powers(Point(shard), |vectors|), vectors, |vectors|, size)
  }

  // -------------------------------------------------- known and missing parts of a sum

  function AddVectors(a: Bytes, b: Bytes): (r: Bytes)
    requires |a| == |b|
    ensures |r| == |a|
  {
    seq(|a|, i requires 0 <= i < |a| => Add(a[i], b[i]))
  }

  /** Indices of [start, end) that are not in `have`, in increasing order. */
  function Missing(have: set<nat>, start: nat, end: nat): (r: seq<nat>)
    requires start <= end
    ensures |r| <= end - start
    ensures forall i | 0 <= i < |r| :: start <= r[i] < end && r[i] !in have
    ensures forall i, j | 0 <= i < j < |r| :: r[i] < r[j]
    ensures forall k | start <= k < end && k !in have :: k in r
  {
    if start == end then []
    else Missing(have, start, end - 1) + if end - 1 in have then [] else [end - 1]
  }

  /** The terms of a parity row whose index is in `have`. */
  function KnownSum(x: Byte, vectors: seq<Bytes>, have: set<nat>, start: nat, n: nat, size: nat): (r: Bytes)
    requires n <= |vectors| && Uniform(vectors, size)
    ensures |r| == size
  {
    if n == 0 then Zeros(size)
    else
      var before := KnownSum(x, vectors, have, start, n - 1, size);
      if start + n - 1 in have then AddScaled(before, Pow(x, n - 1), vectors[n - 1]) else before
  }

  function MissingPowers(x: Byte, missing: seq<nat>, start: nat): (r: Bytes)
    requires forall i | 0 <= i < |missing| :: start <= missing[i]
    ensures |r| == |missing|
  {
    seq(|missing|, i requires 0 <= i < |missing| => Pow(x, missing[i] - start))
  }

  function MissingVectors(vectors: seq<Bytes>, missing: seq<nat>, start: nat, size: nat): (r: seq<Bytes>)
    requires Uniform(vectors, size)
    requires forall i | 0 <= i < |missing| :: start <= missing[i] < start + |vectors|
    ensures |r| == |missing| && Uniform(r, size)
  {
    seq(|missing|, i requires 0 <= i < |missing| => vectors[missing[i] - start])
  }

  lemma AddThroughKnown(a: Bytes, b: Bytes, c: Byte, v: Bytes)
    requires |a| == |b| == |v|
    ensures AddScaled(AddVectors(a, b), c, v) == AddVectors(a, AddScaled(b, c, v))
    ensures AddScaled(AddVectors(a, b), c, v) == AddVectors(AddScaled(a, c, v), b)
  {
    hide Mul, Add;
    forall i | 0 <= i < |a|
      ensures AddScaled(AddVectors(a, b), c, v)[i] == AddVectors(a, AddScaled(b, c, v))[i]
      ensures AddScaled(AddVectors(a, b), c, v)[i] == AddVectors(AddScaled(a, c, v), b)[i]
    {
      AddLaws(a[i], b[i], Mul(c, v[i]));
      AddLaws(b[i], Mul(c, v[i]), 0);
      AddLaws(a[i], Mul(c, v[i]), b[i]);
    }
  }

  lemma ZeroSum(size: nat)
    ensures AddVectors(Zeros(size), Zeros(size)) == Zeros(size)
  {
    AddLaws(0, 0, 0);
  }

  lemma CancelKnown(known: Bytes, missing: Bytes)
    requires |known| == |missing|
    ensures AddVectors(AddVectors(known, missing), known) == missing
  {
    hide Add;
    forall i | 0 <= i < |known| ensures AddVectors(AddVectors(known, missing), known)[i] == missing[i] {
      AddLaws(known[i], missing[i], known[i]);
      AddLaws(missing[i], known[i], known[i]);
      AddLaws(missing[i], 0, 0);
    }
  }

  /** The terms of a parity row whose index is not in `have`, as the equation for the missing chunks. */
  function MissingSum(x: Byte, vectors: seq<Bytes>, have: set<nat>, start: nat, n: nat, size: nat): (r: Bytes)
    requires n <= |vectors| && Uniform(vectors, size)
    ensures |r| == size
  {
    var missing := Missing(have, start, start + n);
    Combine(MissingPowers(x, missing, start), MissingVectors(vectors, missing, start, size), |missing|, size)
  }

  lemma CombineAppend(p: Bytes, v: seq<Bytes>, c: Byte, w: Bytes, size: nat)
    requires |p| == |v| && Uniform(v, size) && |w| == size
    ensures Uniform(v + [w], size)
    ensures Combine(p + [c], v + [w], |p| + 1, size) == AddScaled(Combine(p, v, |p|, size), c, w)
  {
    hide AddScaled;
    CombinePrefix(p + [c], v + [w], p, v, |p|, size);
  }

  lemma MissingAppend(x: Byte, vectors: seq<Bytes>, before: seq<nat>, start: nat, n: nat, size: nat)
    requires 0 < n <= |vectors| && Uniform(vectors, size)
    requires forall i | 0 <= i < |before| :: start <= before[i] < start + n - 1
    ensures MissingPowers(x, before + [start + n - 1], start) == MissingPowers(x, before, start) + [Pow(x, n - 1)]
    ensures MissingVectors(vectors, before + [start + n - 1], start, size)
            == MissingVectors(vectors, before, start, size) + [vectors[n - 1]]
  {
    hide Pow;
  }

  lemma MissingSumStep(x: Byte, vectors: seq<Bytes>, have: set<nat>, start: nat, n: nat, size: nat)
    requires 0 < n <= |vectors| && Uniform(vectors, size)
    ensures MissingSum(x, vectors, have, start, n, size) ==
            var before := MissingSum(x, vectors, have, start, n - 1, size);
            if start + n - 1 in have then before else AddScaled(before, Pow(x, n - 1), vectors[n - 1])
  {
    hide AddScaled, Pow, Combine, MissingPowers, MissingVectors;
    var before := Missing(have, start, start + n - 1);
    if start + n - 1 in have {
      assert Missing(have, start, start + n) == before;
    } else {
      assert Missing(have, start, start + n) == before + [start + n - 1];
      MissingAppend(x, vectors, before, start, n, size);
      CombineAppend(MissingPowers(x, before, start), MissingVectors(vectors, before, start, size),
                    Pow(x, n - 1), vectors[n - 1], size);
    }
  }

  lemma NothingMissing(x: Byte, vectors: seq<Bytes>, have: set<nat>, start: nat, size: nat)
    requires Uniform(vectors, size)
    ensures MissingSum(x, vectors, have, start, 0, size) == Zeros(size)
  {}

  /** A parity row is its known part plus its missing part. */
  lemma {:induction false} SplitSum(x: Byte, vectors: seq<Bytes>, have: set<nat>, start: nat, n: nat, size: nat)
    requires n <= |vectors| && Uniform(vectors, size)
    ensures Combine(Powers(x, |vectors|), vectors, n, size)
            == AddVectors(KnownSum(x, vectors, have, start, n, size), MissingSum(x, vectors, have, start, n, size))
  {
    hide AddScaled, AddVectors, Pow, MissingSum;
    if n == 0 {
      ZeroSum(size);
      NothingMissing(x, vectors, have, start, size);
    } else {
      SplitSum(x, vectors, have, start, n - 1, size);
      MissingSumStep(x, vectors, have, start, n, size);
      AddThroughKnown(KnownSum(x, vectors, have, start, n - 1, size),
                      MissingSum(x, vectors, have, start, n - 1, size), Pow(x, n - 1), vectors[n - 1]);
    }
  }

  // ------------------------------------------------------------ solving for the missing

  /** The elements of `keys` below `bound`, in increasing order. */
  function KeysBelow(keys: set<nat>, bound: nat): (r: seq<nat>)
    ensures forall i | 0 <= i < |r| :: r[i] in keys && r[i] < bound
    ensures forall i, j | 0 <= i < j < |r| :: r[i] < r[j]
    ensures forall k | 0 <= k < bound && k in keys :: k in r
  {
    if bound == 0 then [] else KeysBelow(keys, bound - 1) + if bound - 1 in keys then [bound - 1] else []
  }

  /** One equation per parity shard, one unknown per missing chunk. */
  function Minor(shards: seq<nat>, missing: seq<nat>, start: nat): (m: seq<Bytes>)
    requires |shards| == |missing| && forall i | 0 <= i < |missing| :: start <= missing[i]
    ensures |m| == |missing| && forall r | 0 <= r < |m| :: |m[r]| == |m|
  {
    seq(|missing|, r requires 0 <= r < |missing| => MissingPowers(Point(shards[r]), missing, start))
  }

  /** right is m applied to the vectors. */
  ghost predicate RightSides(right: seq<Bytes>, m: seq<Bytes>, vectors: seq<Bytes>, size: nat)
    requires Square(m) && |m| == |vectors| == |right| && Uniform(vectors, size)
  {
    Uniform(right, size) && forall r | 0 <= r < |m| :: right[r] == Combine(m[r], vectors, |m|, size)
  }

  lemma RightSidesUniform(right: seq<Bytes>, m: seq<Bytes>, vectors: seq<Bytes>, size: nat)
    requires Square(m) && |m| == |vectors| == |right| && Uniform(vectors, size) && RightSides(right, m, vectors, size)
    ensures Uniform(right, size)
  {}

  lemma SolveAt(inverse: seq<Bytes>, m: seq<Bytes>, vectors: seq<Bytes>, right: seq<Bytes>, size: nat, c: nat, position: nat)
    requires Square(m) && IsInverse(inverse, m) && c < |m| == |vectors| == |right|
    requires Uniform(vectors, size) && position < size
    requires RightSides(right, m, vectors, size)
    ensures Combine(inverse[c], right, |m|, size)[position] == vectors[c][position]
  {
    hide Dot, Combine;
    var n := |m|;
    var unknown, known := At(vectors, size, position), At(right, size, position);
    forall r | 0 <= r < n ensures known[r] == Apply(m, unknown)[r] {
      CombineAt(m[r], vectors, n, size, position);
    }
    assert known == Apply(m, unknown);
    CombineAt(inverse[c], right, n, size, position);
    assert Apply(inverse, known)[c] == unknown[c];
  }

  /** Applying the inverse to the right-hand sides gives the missing vectors. */
  lemma SolveRecovers(inverse: seq<Bytes>, m: seq<Bytes>, vectors: seq<Bytes>, right: seq<Bytes>, size: nat, c: nat)
    requires Square(m) && IsInverse(inverse, m) && c < |m| == |vectors| == |right|
    requires Uniform(vectors, size)
    requires RightSides(right, m, vectors, size)
    ensures Combine(inverse[c], right, |m|, size) == vectors[c]
  {
    hide Combine, RightSides;
    assert Uniform(right, size) by { RightSidesUniform(right, m, vectors, size); }
    var solved := Combine(inverse[c], right, |m|, size);
    assert |solved| == size == |vectors[c]|;
    forall position | 0 <= position < size
      ensures solved[position] == vectors[c][position]
    {
      SolveAt(inverse, m, vectors, right, size, c, position);
    }
  }

  lemma {:induction false} KnownSumAgrees(x: Byte, a: seq<Bytes>, b: seq<Bytes>, have: set<nat>, start: nat, n: nat, size: nat)
    requires n <= |a| && n <= |b| && Uniform(a, size) && Uniform(b, size)
    requires forall i | 0 <= i < n && start + i in have :: a[i] == b[i]
    ensures KnownSum(x, a, have, start, n, size) == KnownSum(x, b, have, start, n, size)
  {
    hide AddScaled, Pow;
    if n > 0 { KnownSumAgrees(x, a, b, have, start, n - 1, size); }
  }

  /** The chunks at hand for a group, padded; zeros where a chunk is missing. */
  function Held(data: map<nat, Bytes>, start: nat, end: nat, size: nat): (r: seq<Bytes>)
    requires start <= end
    ensures |r| == end - start && Uniform(r, size)
    ensures forall i | 0 <= i < end - start :: r[i] == PaddedOrZeros(data, start + i, size)
  {
    var r := seq(end - start, i requires 0 <= i < end - start => PaddedOrZeros(data, start + i, size));
    assert forall i | 0 <= i < end - start :: r[i] == PaddedOrZeros(data, start + i, size);
    r
  }

  function PaddedOrZeros(data: map<nat, Bytes>, index: nat, size: nat): (r: Bytes)
    ensures |r| == size
  {
    if index in data then Padded(data[index], size) else Zeros(size)
  }

  /** A parity row from which the first n terms have been taken out where known. */
  function Adjusted(parity: Bytes, x: Byte, data: map<nat, Bytes>, start: nat, end: nat, n: nat, size: nat): (r: Bytes)
    requires |parity| == size && start + n <= end
    ensures |r| == size
  {
    AddVectors(parity, KnownSum(x, Held(data, start, end, size), data.Keys, start, n, size))
  }

  lemma AdjustedStep(parity: Bytes, x: Byte, data: map<nat, Bytes>, start: nat, end: nat, n: nat, size: nat)
    requires |parity| == size && start + n < end
    ensures Adjusted(parity, x, data, start, end, n + 1, size) ==
            var before := Adjusted(parity, x, data, start, end, n, size);
            if start + n in data then AddScaled(before, Pow(x, n), Padded(data[start + n], size)) else before
  {
    hide AddScaled, AddVectors, Pow, Padded;
    if start + n in data {
      var held := Held(data, start, end, size);
      assert held[n] == Padded(data[start + n], size);
      AddThroughKnown(parity, KnownSum(x, held, data.Keys, start, n, size), Pow(x, n), held[n]);
    }
  }

  lemma AdjustedStart(parity: Bytes, x: Byte, data: map<nat, Bytes>, start: nat, end: nat)
    requires start <= end
    ensures Adjusted(parity, x, data, start, end, 0, |parity|) == parity
  {
    hide Add;
    forall i | 0 <= i < |parity| ensures AddVectors(parity, Zeros(|parity|))[i] == parity[i] {
      AddLaws(parity[i], 0, 0);
    }
  }

  /** Everything at hand for the group comes from `vectors`. */
  ghost predicate GenuineGroup(data: map<nat, Bytes>, parity: map<nat, Bytes>, vectors: seq<Bytes>, start: nat, size: nat) {
    Uniform(vectors, size) &&
    (forall i | 0 <= i < |vectors| && start + i in data :: Padded(data[start + i], size) == vectors[i]) &&
    (forall shard | shard in parity :: parity[shard] == ParityOf(vectors, size, shard))
  }

  /** Taking the known chunks out of a genuine parity chunk leaves the equation for the missing ones. */
  lemma GenuineEquation(data: map<nat, Bytes>, parity: map<nat, Bytes>, vectors: seq<Bytes>, start: nat, size: nat, shard: nat)
    requires GenuineGroup(data, parity, vectors, start, size) && shard in parity
    ensures var x, n := Point(shard), |vectors|;
            Adjusted(parity[shard], x, data, start, start + n, n, size) == MissingSum(x, vectors, data.Keys, start, n, size)
  {
    hide AddScaled, AddVectors, Combine, MissingSum, KnownSum, Powers;
    var x, n := Point(shard), |vectors|;
    var held := Held(data, start, start + n, size);
    forall i | 0 <= i < n && start + i in data.Keys ensures held[i] == vectors[i] {
      assert held[i] == PaddedOrZeros(data, start + i, size);
    }
    KnownSumAgrees(x, held, vectors, data.Keys, start, n, size);
    SplitSum(x, vectors, data.Keys, start, n, size);
    CancelKnown(KnownSum(x, vectors, data.Keys, start, n, size), MissingSum(x, vectors, data.Keys, start, n, size));
  }

  // --------------------------------------------------------------------- the algorithm

  lemma AddScaledByZero(row: Bytes, source: Bytes)
    requires |row| == |source|
    ensures AddScaled(row, 0, source) == row
  {
    hide Mul, Add;
    forall i | 0 <= i < |row| ensures AddScaled(row, 0, source)[i] == row[i] {
      MulNonZero(0, source[i]);
      AddLaws(row[i], 0, 0);
    }
  }

  method XorMulInto(target: array<Byte>, source: Bytes, coefficient: Byte)
    requires target.Length == |source|
    modifies target
    ensures target[..] == AddScaled(old(target[..]), coefficient, source)
  {
    hide Mul, Add;
    if coefficient == 0 {
      AddScaledByZero(target[..], source);
      return;
    }
    for index := 0 to target.Length
      invariant forall i | 0 <= i < index :: target[i] == Add(old(target[i]), Mul(coefficient, source[i]))
      invariant forall i | index <= i < target.Length :: target[i] == old(target[i])
    {
      if coefficient == 1 {
        MulOne(source[index]);
        target[index] := Add(target[index], source[index]);
      } else {
        MulCommutes(source[index], coefficient);
        target[index] := Add(target[index], Mul(source[index], coefficient));
      }
    }
  }

  /** A parity chunk with the group's known chunks taken out. */
  method AdjustParity(parity: Bytes, x: Byte, data: map<nat, Bytes>, missing: seq<nat>, start: nat, end: nat, size: nat)
    returns (adjusted: Bytes)
    requires start <= end && |parity| == size && missing == Missing(data.Keys, start, end)
    ensures adjusted == Adjusted(parity, x, data, start, end, end - start, size)
  {
    hide AddScaled, Adjusted, Pow, Padded, Missing;
    var buffer := new Byte[size](i requires 0 <= i < size => parity[i]);
    assert buffer[..] == parity;
    AdjustedStart(parity, x, data, start, end);
    for index := start to end
      invariant buffer[..] == Adjusted(parity, x, data, start, end, index - start, size)
    {
      AdjustedStep(parity, x, data, start, end, index - start, size);
      if index !in missing {
        XorMulInto(buffer, Padded(data[index], size), Pow(x, index - start));
      }
    }
    adjusted := buffer[..];
  }

  /** The linear combination the decoder computes for one missing chunk. */
  method CombineRows(coefficients: Bytes, rows: seq<Bytes>, size: nat) returns (data: Bytes)
    requires |coefficients| == |rows| && Uniform(rows, size)
    ensures data == Combine(coefficients, rows, |rows|, size)
  {
    hide AddScaled;
    var buffer := new Byte[size](_ => 0);
    assert buffer[..] == Zeros(size);
    for row := 0 to |rows|
      invariant buffer[..] == Combine(coefficients, rows, row, size)
    {
      XorMulInto(buffer, rows[row], coefficients[row]);
    }
    data := buffer[..];
  }

  lemma {:induction false} KeysBelowElements(keys: set<nat>, bound: nat)
    requires forall k | k in keys :: k < bound
    ensures Sorting.Distinct(KeysBelow(keys, bound)) && Sorting.Elements(KeysBelow(keys, bound)) == keys
    ensures Sorting.Sorted(KeysBelow(keys, bound), Merkle.NatLeq)
    ensures |KeysBelow(keys, bound)| == |keys|
  {
    hide KeysBelow;
    var list := KeysBelow(keys, bound);
    forall k | k in keys ensures k in Sorting.Elements(list) {
      var i :| 0 <= i < |list| && list[i] == k;
    }
    Sorting.DistinctMultiset(list);
  }

  method SortedShards(paritySet: map<nat, Bytes>, ghost bound: nat) returns (shards: seq<nat>)
    requires forall shard | shard in paritySet :: shard < bound
    ensures shards == KeysBelow(paritySet.Keys, bound) && |shards| == |paritySet|
  {
    hide KeysBelow;
    shards := Merkle.SortedElements(paritySet.Keys);
    ghost var list := KeysBelow(paritySet.Keys, bound);
    KeysBelowElements(paritySet.Keys, bound);
    Sorting.DistinctMultiset(list);
    Sorting.SortedUnique(shards, list, Merkle.NatLeq);
  }

  /** The equations the decoder uses: the lowest parity shards, as many as there are missing chunks. */
  function Equations(shards: set<nat>, bound: nat, missing: seq<nat>): (r: seq<nat>)
    requires |missing| <= |KeysBelow(shards, bound)|
    ensures |r| == |missing|
  {
    KeysBelow(shards, bound)[..|missing|]
  }

  /** The right-hand side and the coefficients of one equation per shard. */
  method BuildSystem(shards: seq<nat>, missing: seq<nat>, data: map<nat, Bytes>, paritySet: map<nat, Bytes>,
                     start: nat, end: nat, size: nat)
    returns (matrix: seq<Bytes>, right: seq<Bytes>)
    requires start <= end && missing == Missing(data.Keys, start, end) && |shards| == |missing|
    requires forall i | 0 <= i < |shards| :: shards[i] in paritySet && |paritySet[shards[i]]| == size
    ensures matrix == Minor(shards, missing, start)
    ensures |right| == |shards| && forall r | 0 <= r < |shards| ::
      right[r] == Adjusted(paritySet[shards[r]], Point(shards[r]), data, start, end, end - start, size)
  {
    hide Adjusted, MissingPowers, Missing, Point;
    matrix, right := [], [];
    for row := 0 to |shards|
      invariant matrix == Minor(shards, missing, start)[..row]
      invariant |right| == row && forall r | 0 <= r < row ::
        right[r] == Adjusted(paritySet[shards[r]], Point(shards[r]), data, start, end, end - start, size)
    {
      var x := Point(shards[row]);
      var adjusted := AdjustParity(paritySet[shards[row]], x, data, missing, start, end, size);
      matrix := matrix + [MissingPowers(x, missing, start)];
      right := right + [adjusted];
    }
  }

  lemma GenuineSystem(shards: seq<nat>, missing: seq<nat>, data: map<nat, Bytes>, parity: map<nat, Bytes>,
                      vectors: seq<Bytes>, right: seq<Bytes>, start: nat, size: nat)
    requires GenuineGroup(data, parity, vectors, start, size)
    requires missing == Missing(data.Keys, start, start + |vectors|) && |missing| == |shards| == |right| > 0
    requires forall r | 0 <= r < |shards| :: shards[r] in parity
    requires forall r | 0 <= r < |shards| ::
      right[r] == Adjusted(parity[shards[r]], Point(shards[r]), data, start, start + |vectors|, |vectors|, size)
    ensures RightSides(right, Minor(shards, missing, start), MissingVectors(vectors, missing, start, size), size)
  {
    hide Adjusted, Missing, Point, Combine, MissingPowers, MissingVectors;
    forall r | 0 <= r < |shards|
      ensures right[r] == Combine(Minor(shards, missing, start)[r], MissingVectors(vectors, missing, start, size), |missing|, size)
    {
      GenuineEquation(data, parity, vectors, start, size, shards[r]);
    }
  }

  /** The padded chunk of the group at an index. */
  ghost predicate Found(found: map<nat, Bytes>, keys: seq<nat>, size: nat) {
    (forall k :: k in found <==> k in keys) && forall k | k in found :: |found[k]| == size
  }

  ghost predicate FoundGenuine(found: map<nat, Bytes>, vectors: seq<Bytes>, start: nat) {
    forall k | k in found :: start <= k < start + |vectors| && found[k] == vectors[k - start]
  }

  /** The products of the rows of the inverse with the right sides, filed under the missing indices. */
  method SolveColumns(inverse: seq<Bytes>, ghost matrix: seq<Bytes>, right: seq<Bytes>, missing: seq<nat>, size: nat,
                      ghost genuine: bool, ghost vectors: seq<Bytes>, ghost start: nat)
    returns (found: map<nat, Bytes>)
    requires Square(matrix) && IsInverse(inverse, matrix) && |matrix| == |missing| == |right| > 0
    requires forall r | 0 <= r < |right| :: |right[r]| == size
    requires genuine ==> Uniform(vectors, size) && forall c | 0 <= c < |missing| :: start <= missing[c] < start + |vectors|
    requires genuine ==> RightSides(right, matrix, MissingVectors(vectors, missing, start, size), size)
    ensures Found(found, missing, size) && (genuine ==> FoundGenuine(found, vectors, start))
  {
    hide IsInverse, RightSides, Square, Combine;
    found := map[];
    for column := 0 to |missing|
      invariant Found(found, missing[..column], size) && (genuine ==> FoundGenuine(found, vectors, start))
    {
      InverseShape(inverse, matrix);
      var solved := CombineRows(inverse[column], right, size);
      if genuine {
        SolveRecovers(inverse, matrix, MissingVectors(vectors, missing, start, size), right, size, column);
        assert solved == vectors[missing[column] - start];
      }
      assert missing[..column + 1] == missing[..column] + [missing[column]];
      found := found[missing[column] := solved];
    }
    assert missing[..|missing|] == missing;
  }

  /** Recovers the missing chunks of one group, padded to the chunk size. */
  method RecoverGroup(start: nat, end: nat, size: nat, missing: seq<nat>, data: map<nat, Bytes>,
                      paritySet: map<nat, Bytes>, ghost bound: nat, ghost vectors: seq<Bytes>)
    returns (recovered: Option<map<nat, Bytes>>)
    requires start <= end && missing == Missing(data.Keys, start, end) && 0 < |missing|
    requires forall shard | shard in paritySet :: shard < bound && |paritySet[shard]| == size
    requires |KeysBelow(paritySet.Keys, bound)| == |paritySet|
    ensures recovered.Some? <==>
      |missing| <= |paritySet| && !Singular(Minor(Equations(paritySet.Keys, bound, missing), missing, start))
    ensures recovered.Some? ==> forall k :: k in recovered.value <==> k in missing
    ensures recovered.Some? ==> forall k | k in recovered.value :: |recovered.value[k]| == size
    ensures recovered.Some? && |vectors| == end - start && GenuineGroup(data, paritySet, vectors, start, size) ==>
            forall k | k in recovered.value :: start <= k < end && recovered.value[k] == vectors[k - start]
  {
    hide KeysBelow, Missing, Minor, Singular, IsInverse, GenuineGroup, Adjusted, Point, Combine, RightSides, MissingVectors;
    GenuineIsUniform(data, paritySet, vectors, start, size);
    var all := SortedShards(paritySet, bound);
    if |all| < |missing| { return None; }
    var shards := all[..|missing|];
    var matrix, right := BuildSystem(shards, missing, data, paritySet, start, end, size);
    var inverted := InvertMatrix(matrix);
    if inverted.None? { return None; }
    ghost var genuine := |vectors| == end - start && GenuineGroup(data, paritySet, vectors, start, size);
    if genuine { GenuineSystem(shards, missing, data, paritySet, vectors, right, start, size); }
    var found := SolveColumns(inverted.value, matrix, right, missing, size, genuine, vectors, start);
    recovered := Some(found);
  }

  lemma GenuineIsUniform(data: map<nat, Bytes>, parity: map<nat, Bytes>, vectors: seq<Bytes>, start: nat, size: nat)
    ensures GenuineGroup(data, parity, vectors, start, size) ==> Uniform(vectors, size)
  {}

  lemma InverseShape(inverse: seq<Bytes>, m: seq<Bytes>)
    requires Square(m) && IsInverse(inverse, m)
    ensures |inverse| == |m| && forall r | 0 <= r < |m| :: |inverse[r]| == |m|
  {}
}
