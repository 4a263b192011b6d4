/** Gauss-Jordan inversion over GF(256), as the erasure decoder runs it. */
module Matrix {
  import opened Types
  import opened GF256

  /** Sum of u[off + i] * v[i] for i < n. */
  function Dot(u: Bytes, off: nat, v: Bytes, n: nat): Byte
    requires off + n <= |u| && n <= |v|
  {
    if n == 0 then 0 else Add(Dot(u, off, v, n - 1), Mul(u[off + n - 1], v[n - 1]))
  }

  predicate Square(m: seq<Bytes>) {
    |m| > 0 && forall r | 0 <= r < |m| :: |m[r]| == |m|
  }

  /** The product of a square matrix and a column vector. */
  function Apply(m: seq<Bytes>, v: Bytes): (w: Bytes)
    requires Square(m) && |v| == |m|
    ensures |w| == |m|
  {
    seq(|m|, r requires 0 <= r < |m| => Dot(m[r], 0, v, |m|))
  }

  predicate AllZero(v: Bytes) {
    forall i | 0 <= i < |v| :: v[i] == 0
  }

  /** Some non-zero vector is sent to zero. */
  ghost predicate Singular(m: seq<Bytes>)
    requires Square(m)
  {
    exists v: Bytes :: |v| == |m| && !AllZero(v) && AllZero(Apply(m, v))
  }

  /** inverse undoes m on every vector. */
  ghost predicate IsInverse(inverse: seq<Bytes>, m: seq<Bytes>)
    requires Square(m)
  {
    Square(inverse) && |inverse| == |m| &&
    forall v: Bytes | |v| == |m| :: Apply(inverse, Apply(m, v)) == v
  }

  function Scaled(row: Bytes, factor: Byte): (r: Bytes)
    ensures |r| == |row|
  {
    seq(|row|, i requires 0 <= i < |row| => Mul(row[i], factor))
  }

  function AddScaled(row: Bytes, factor: Byte, source: Bytes): (r: Bytes)
    requires |row| == |source|
    ensures |r| == |row|
  {
    seq(|row|, i requires 0 <= i < |row| => Add(row[i], Mul(factor, source[i])))
  }

  // ------------------------------------------------------------------ dot products

  lemma ScaledTerm(d: Byte, x: Byte, y: Byte, factor: Byte)
    ensures Add(Mul(d, factor), Mul(Mul(x, factor), y)) == Mul(Add(d, Mul(x, y)), factor)
  {
    hide Mul, Add;
    MulAssociates(x, factor, y);
    MulCommutes(factor, y);
    MulAssociates(x, y, factor);
    MulDistributes(d, Mul(x, y), factor);
  }

  lemma {:induction false} DotScaled(u: Bytes, factor: Byte, off: nat, v: Bytes, n: nat)
    requires off + n <= |u| && n <= |v|
    ensures Dot(Scaled(u, factor), off, v, n) == Mul(Dot(u, off, v, n), factor)
  {
    hide Mul, Add;
    if n == 0 {
      MulNonZero(0, factor);
    } else {
      DotScaled(u, factor, off, v, n - 1);
      ScaledTerm(Dot(u, off, v, n - 1), u[off + n - 1], v[n - 1], factor);
    }
  }

  lemma AddedTerm(du: Byte, dw: Byte, a: Byte, b: Byte, y: Byte, factor: Byte)
    ensures Add(Add(du, Mul(factor, dw)), Mul(Add(a, Mul(factor, b)), y))
         == Add(Add(du, Mul(a, y)), Mul(factor, Add(dw, Mul(b, y))))
  {
    hide Mul, Add;
    MulDistributes(a, Mul(factor, b), y);
    MulAssociates(factor, b, y);
    MulDistributesRight(factor, dw, Mul(b, y));
    AddSwap(du, Mul(factor, dw), Mul(a, y), Mul(factor, Mul(b, y)));
  }

  lemma {:induction false} DotAddScaled(u: Bytes, factor: Byte, w: Bytes, off: nat, v: Bytes, n: nat)
    requires |u| == |w| && off + n <= |u| && n <= |v|
    ensures Dot(AddScaled(u, factor, w), off, v, n) == Add(Dot(u, off, v, n), Mul(factor, Dot(w, off, v, n)))
  {
    hide Mul, Add;
    if n == 0 {
      MulNonZero(factor, 0);
      AddLaws(0, 0, 0);
    } else {
      DotAddScaled(u, factor, w, off, v, n - 1);
      AddedTerm(Dot(u, off, v, n - 1), Dot(w, off, v, n - 1), u[off + n - 1], w[off + n - 1], v[n - 1], factor);
    }
  }

  /** u[off .. off + n] is the unit vector number k. */
  predicate UnitAt(u: Bytes, off: nat, k: nat, n: nat) {
    off + n <= |u| && forall i | off <= i < off + n :: u[i] == if i == off + k then 1 else 0
  }

  lemma {:induction false} DotUnit(u: Bytes, off: nat, k: nat, v: Bytes, n: nat)
    requires UnitAt(u, off, k, n) && n <= |v|
    ensures Dot(u, off, v, n) == if k < n then v[k] else 0
  {
    hide Mul, Add;
    if n > 0 {
      DotUnit(u, off, k, v, n - 1);
      AddLaws(Dot(u, off, v, n - 1), 0, 0);
      AddLaws(v[n - 1], 0, 0);
      MulOne(v[n - 1]);
      MulNonZero(0, v[n - 1]);
    }
  }

  // ------------------------------------------------------- what elimination keeps

  /** The right half of the row rebuilds its left half from m: for every v, left . v == right . (m v). */
  ghost predicate RowSolves(row: Bytes, m: seq<Bytes>)
    requires Square(m) && |row| == 2 * |m|
  {
    forall v: Bytes | |v| == |m| :: Dot(row, 0, v, |m|) == Dot(row, |m|, Apply(m, v), |m|)
  }

  predicate Wide(aug: seq<Bytes>, n: nat) {
    |aug| == n && forall r | 0 <= r < n :: |aug[r]| == 2 * n
  }

  /** Every left half is orthogonal to v. */
  predicate Killed(aug: seq<Bytes>, v: Bytes)
    requires Wide(aug, |v|)
  {
    forall r | 0 <= r < |v| :: Dot(aug[r], 0, v, |v|) == 0
  }

  ghost predicate Augmented(aug: seq<Bytes>, m: seq<Bytes>) {
    Square(m) && Wide(aug, |m|) &&
    (forall r | 0 <= r < |m| :: RowSolves(aug[r], m)) &&
    (forall v: Bytes | |v| == |m| && Killed(aug, v) :: AllZero(Apply(m, v)))
  }

  /** The first c columns are those of the identity. */
  predicate Reduced(aug: seq<Bytes>, c: nat, n: nat)
    requires Wide(aug, n) && c <= n
  {
    forall r, j | 0 <= r < n && 0 <= j < c :: aug[r][j] == if r == j then 1 else 0
  }

  function Unit(k: nat, n: nat): (u: Bytes)
    ensures |u| == n && UnitAt(u, 0, k, n)
  {
    seq(n, i => if i == k then 1 else 0)
  }

  function Extended(m: seq<Bytes>): seq<Bytes> {
    seq(|m|, r requires 0 <= r < |m| => m[r] + Unit(r, |m|))
  }

  lemma {:induction false} DotPrefix(u: Bytes, w: Bytes, v: Bytes, n: nat)
    requires n <= |u| && n <= |w| && n <= |v| && u[..n] == w[..n]
    ensures Dot(u, 0, v, n) == Dot(w, 0, v, n)
  {
    hide Mul, Add;
    if n > 0 {
      assert u[n - 1] == u[..n][n - 1] == w[n - 1];
      assert u[..n - 1] == u[..n][..n - 1] == w[..n - 1];
      DotPrefix(u, w, v, n - 1);
    }
  }

  lemma ExtendedRow(m: seq<Bytes>, r: nat, v: Bytes)
    requires Square(m) && r < |m| == |v|
    ensures Dot(Extended(m)[r], 0, v, |m|) == Apply(m, v)[r] == Dot(Extended(m)[r], |m|, Apply(m, v), |m|)
  {
    hide Mul, Add, Dot;
    var row, n := Extended(m)[r], |m|;
    assert row[..n] == m[r][..n];
    DotPrefix(row, m[r], v, n);
    assert UnitAt(row, n, r, n);
    DotUnit(row, n, r, Apply(m, v), n);
  }

  lemma ExtendedIsAugmented(m: seq<Bytes>)
    requires Square(m)
    ensures Augmented(Extended(m), m)
  {
    hide Mul, Add, Dot, Apply;
    var aug, n := Extended(m), |m|;
    forall r | 0 <= r < n ensures RowSolves(aug[r], m) {
      forall v: Bytes | |v| == n ensures Dot(aug[r], 0, v, n) == Dot(aug[r], n, Apply(m, v), n) {
        ExtendedRow(m, r, v);
      }
    }
    forall v: Bytes | |v| == n && Killed(aug, v) ensures AllZero(Apply(m, v)) {
      forall r | 0 <= r < n ensures Apply(m, v)[r] == 0 { ExtendedRow(m, r, v); }
    }
  }

  lemma ScaledSolves(row: Bytes, factor: Byte, m: seq<Bytes>)
    requires Square(m) && |row| == 2 * |m| && RowSolves(row, m)
    ensures RowSolves(Scaled(row, factor), m)
  {
    hide Mul, Add, Dot;
    forall v: Bytes | |v| == |m|
      ensures Dot(Scaled(row, factor), 0, v, |m|) == Dot(Scaled(row, factor), |m|, Apply(m, v), |m|)
    {
      DotScaled(row, factor, 0, v, |m|);
      DotScaled(row, factor, |m|, Apply(m, v), |m|);
    }
  }

  lemma AddScaledSolves(row: Bytes, factor: Byte, source: Bytes, m: seq<Bytes>)
    requires Square(m) && |row| == |source| == 2 * |m| && RowSolves(row, m) && RowSolves(source, m)
    ensures RowSolves(AddScaled(row, factor, source), m)
  {
    hide Mul, Add, Dot;
    forall v: Bytes | |v| == |m|
      ensures Dot(AddScaled(row, factor, source), 0, v, |m|) == Dot(AddScaled(row, factor, source), |m|, Apply(m, v), |m|)
    {
      DotAddScaled(row, factor, source, 0, v, |m|);
      DotAddScaled(row, factor, source, |m|, Apply(m, v), |m|);
    }
  }

  lemma SwapKilled(aug: seq<Bytes>, v: Bytes, i: nat, j: nat)
    requires Wide(aug, |v|) && i < |v| && j < |v| && Wide(aug[i := aug[j]][j := aug[i]], |v|)
    requires Killed(aug[i := aug[j]][j := aug[i]], v)
    ensures Killed(aug, v)
  {
    hide Dot;
    var next := aug[i := aug[j]][j := aug[i]];
    assert next[i] == aug[j] && next[j] == aug[i];
    forall r | 0 <= r < |v| ensures Dot(aug[r], 0, v, |v|) == 0 {
      var s := if r == i then j else if r == j then i else r;
      assert aug[r] == next[s];
    }
  }

  lemma SwapKeeps(aug: seq<Bytes>, m: seq<Bytes>, i: nat, j: nat)
    requires Augmented(aug, m) && i < |m| && j < |m|
    ensures Augmented(aug[i := aug[j]][j := aug[i]], m)
  {
    hide Mul, Add, Dot, Apply, RowSolves, Killed;
    var next := aug[i := aug[j]][j := aug[i]];
    forall v: Bytes | |v| == |m| && Killed(next, v) ensures AllZero(Apply(m, v)) {
      SwapKilled(aug, v, i, j);
    }
  }

  lemma ScaleKeeps(aug: seq<Bytes>, m: seq<Bytes>, c: nat, factor: Byte)
    requires Augmented(aug, m) && c < |m| && factor != 0
    ensures Augmented(aug[c := Scaled(aug[c], factor)], m)
  {
    hide Mul, Add, Dot, Apply, Scaled;
    var next := aug[c := Scaled(aug[c], factor)];
    ScaledSolves(aug[c], factor, m);
    forall v: Bytes | |v| == |m| && Killed(next, v) ensures Killed(aug, v) {
      forall r | 0 <= r < |v| ensures Dot(aug[r], 0, v, |v|) == 0 {
        assert Dot(next[r], 0, v, |v|) == 0;
        if r == c {
          DotScaled(aug[c], factor, 0, v, |v|);
          MulNonZero(Dot(aug[c], 0, v, |v|), factor);
        }
      }
    }
  }

  lemma EliminateKeeps(aug: seq<Bytes>, m: seq<Bytes>, row: nat, c: nat, factor: Byte)
    requires Augmented(aug, m) && row < |m| && c < |m| && row != c
    ensures Augmented(aug[row := AddScaled(aug[row], factor, aug[c])], m)
  {
    hide Mul, Add, Dot, Apply, AddScaled;
    var next := aug[row := AddScaled(aug[row], factor, aug[c])];
    AddScaledSolves(aug[row], factor, aug[c], m);
    forall v: Bytes | |v| == |m| && Killed(next, v) ensures Killed(aug, v) {
      forall r | 0 <= r < |v| ensures Dot(aug[r], 0, v, |v|) == 0 {
        assert Dot(next[r], 0, v, |v|) == 0;
        if r == row {
          assert Dot(next[c], 0, v, |v|) == 0;
          DotAddScaled(aug[row], factor, aug[c], 0, v, |v|);
          MulNonZero(factor, 0);
          AddLaws(Dot(aug[row], 0, v, |v|), 0, 0);
        }
      }
    }
  }

  function RightHalf(aug: seq<Bytes>, n: nat): (inverse: seq<Bytes>)
    requires Wide(aug, n)
    ensures |inverse| == n && forall r | 0 <= r < n :: |inverse[r]| == n
  {
    seq(n, r requires 0 <= r < n => aug[r][n..])
  }

  lemma {:induction false} DotSuffix(row: Bytes, off: nat, v: Bytes, n: nat)
    requires off + n <= |row| && n <= |v|
    ensures Dot(row[off..], 0, v, n) == Dot(row, off, v, n)
  {
    hide Mul, Add;
    if n > 0 { DotSuffix(row, off, v, n - 1); }
  }

  /** A fully reduced matrix carries the inverse in its right half. */
  lemma ReducedGivesInverse(aug: seq<Bytes>, m: seq<Bytes>)
    requires Augmented(aug, m) && Reduced(aug, |m|, |m|)
    ensures IsInverse(RightHalf(aug, |m|), m)
  {
    hide Mul, Add, Dot;
    var inverse, n := RightHalf(aug, |m|), |m|;
    forall v: Bytes | |v| == n ensures Apply(inverse, Apply(m, v)) == v {
      var w := Apply(m, v);
      forall r | 0 <= r < n ensures Apply(inverse, w)[r] == v[r] {
        DotSuffix(aug[r], n, w, n);
        assert RowSolves(aug[r], m);
        assert UnitAt(aug[r], 0, r, n);
        DotUnit(aug[r], 0, r, v, n);
      }
    }
  }

  /** The dependency between the first c columns and a column c without a pivot. */
  function Dependency(aug: seq<Bytes>, c: nat, n: nat): (v: Bytes)
    requires Wide(aug, n) && c < n
    ensures |v| == n && v[c] == 1
    ensures forall i | 0 <= i < c :: v[i] == aug[i][c]
    ensures forall i | c < i < n :: v[i] == 0
  {
    seq(n, i requires 0 <= i < n => if i < c then aug[i][c] else if i == c then 1 else 0)
  }

  /** A column without a pivot exhibits a vector that m sends to zero. */
  lemma NoPivotMeansSingular(aug: seq<Bytes>, m: seq<Bytes>, c: nat)
    requires Augmented(aug, m) && c < |m| && Reduced(aug, c, |m|)
    requires forall r | c <= r < |m| :: aug[r][c] == 0
    ensures Singular(m)
  {
    hide Mul, Add, Dot, Apply, RowSolves, Dependency, Reduced;
    var n := |m|;
    var v := Dependency(aug, c, n);
    forall r | 0 <= r < n ensures Dot(aug[r], 0, v, n) == 0 {
      DotStops(aug[r], v, c + 1, n);
      DotReduced(aug, v, r, c, n);
    }
    assert Killed(aug, v);
    assert !AllZero(v);
  }

  lemma {:induction false} DotStops(row: Bytes, v: Bytes, k: nat, n: nat)
    requires k <= n <= |row| && n <= |v| && forall i | k <= i < n :: v[i] == 0
    ensures Dot(row, 0, v, n) == Dot(row, 0, v, k)
  {
    hide Mul, Add;
    if k < n {
      DotStops(row, v, k, n - 1);
      MulNonZero(row[n - 1], v[n - 1]);
      AddLaws(Dot(row, 0, v, n - 1), 0, 0);
    }
  }

  lemma DotReduced(aug: seq<Bytes>, v: Bytes, r: nat, c: nat, n: nat)
    requires Wide(aug, n) && r < n && c < n == |v| && Reduced(aug, c, n)
    requires forall i | 0 <= i < c :: v[i] == aug[i][c]
    requires v[c] == 1 && (r >= c ==> aug[r][c] == 0)
    ensures Dot(aug[r], 0, v, c + 1) == 0
  {
    hide Mul, Add;
    assert UnitAt(aug[r], 0, r, c);
    DotUnit(aug[r], 0, r, v, c);
    MulOne(aug[r][c]);
    AddLaws(aug[r][c], aug[r][c], 0);
  }

  function Column(m: seq<Bytes>, j: nat): (column: Bytes)
    requires Square(m) && j < |m|
    ensures |column| == |m|
  {
    seq(|m|, k requires 0 <= k < |m| => m[k][j])
  }

  lemma ApplyUnit(m: seq<Bytes>, j: nat)
    requires Square(m) && j < |m|
    ensures Apply(m, Unit(j, |m|)) == Column(m, j)
  {
    hide Mul, Add, Dot;
    var n := |m|;
    forall k | 0 <= k < n ensures Apply(m, Unit(j, n))[k] == Column(m, j)[k] {
      DotCommutes(m[k], Unit(j, n), n);
      DotUnit(Unit(j, n), 0, j, m[k], n);
    }
  }

  /** The product of the inverse and the matrix is the identity, entry by entry. */
  lemma InverseTimesMatrix(inverse: seq<Bytes>, m: seq<Bytes>, i: nat, j: nat)
    requires Square(m) && IsInverse(inverse, m) && i < |m| && j < |m|
    ensures Dot(inverse[i], 0, Column(m, j), |m|) == if i == j then 1 else 0
  {
    hide Mul, Add, Dot, Column;
    ApplyUnit(m, j);
    assert Apply(inverse, Apply(m, Unit(j, |m|)))[i] == Unit(j, |m|)[i];
  }

  lemma {:induction false} DotCommutes(u: Bytes, v: Bytes, n: nat)
    requires n <= |u| && n <= |v|
    ensures Dot(u, 0, v, n) == Dot(v, 0, u, n)
  {
    hide Mul, Add;
    if n > 0 {
      DotCommutes(u, v, n - 1);
      MulCommutes(u[n - 1], v[n - 1]);
    }
  }

  lemma InverseMeansNonSingular(inverse: seq<Bytes>, m: seq<Bytes>)
    requires Square(m) && IsInverse(inverse, m)
    ensures !Singular(m)
  {
    hide Mul, Add;
    forall v: Bytes | |v| == |m| && AllZero(Apply(m, v)) ensures AllZero(v) {
      var w := Apply(m, v);
      forall i | 0 <= i < |v| ensures v[i] == 0 {
        DotStops(inverse[i], w, 0, |m|);
        assert Apply(inverse, w)[i] == v[i];
      }
    }
  }

  // ------------------------------------------------------------ the algorithm in place

  function Snapshot(rows: seq<array<Byte>>): (aug: seq<Bytes>)
    reads rows
    ensures |aug| == |rows| && forall r | 0 <= r < |rows| :: aug[r] == rows[r][..]
  {
    seq(|rows|, r requires 0 <= r < |rows| reads rows => rows[r][..])
  }

  predicate Separate(rows: seq<array<Byte>>, n: nat) {
    |rows| == n &&
    (forall r | 0 <= r < n :: rows[r].Length == 2 * n) &&
    (forall r, q | 0 <= r < q < n :: rows[r] != rows[q])
  }

  method ScaleInPlace(row: array<Byte>, factor: Byte)
    modifies row
    ensures row[..] == Scaled(old(row[..]), factor)
  {
    hide Mul;
    for index := 0 to row.Length
      invariant forall i | 0 <= i < index :: row[i] == Mul(old(row[i]), factor)
      invariant forall i | index <= i < row.Length :: row[i] == old(row[i])
    {
      row[index] := Mul(row[index], factor);
    }
  }

  method EliminateInPlace(row: array<Byte>, factor: Byte, pivot: array<Byte>)
    requires row != pivot && row.Length == pivot.Length
    modifies row
    ensures row[..] == AddScaled(old(row[..]), factor, pivot[..])
  {
    hide Mul, Add;
    for index := 0 to row.Length
      invariant forall i | 0 <= i < index :: row[i] == Add(old(row[i]), Mul(factor, pivot[i]))
      invariant forall i | index <= i < row.Length :: row[i] == old(row[i])
    {
      row[index] := Add(row[index], Mul(factor, pivot[index]));
    }
  }

  lemma EliminatedColumn(aug: seq<Bytes>, row: nat, c: nat, n: nat)
    requires Wide(aug, n) && row < n && c < n && row != c && Reduced(aug, c, n) && aug[c][c] == 1
    ensures var next := aug[row := AddScaled(aug[row], aug[row][c], aug[c])];
            Wide(next, n) && Reduced(next, c, n) && next[row][c] == 0
  {
    hide Mul, Add;
    MulOne(aug[row][c]);
    AddLaws(aug[row][c], 0, 0);
    forall j | 0 <= j < c ensures AddScaled(aug[row], aug[row][c], aug[c])[j] == aug[row][j] {
      MulNonZero(aug[row][c], 0);
      AddLaws(aug[row][j], 0, 0);
    }
  }

  /** Clears column c in every row but the pivot row. */
  method EliminateColumn(rows: seq<array<Byte>>, n: nat, c: nat, ghost m: seq<Bytes>)
    requires Separate(rows, n) && c < n == |m|
    requires Augmented(Snapshot(rows), m) && Reduced(Snapshot(rows), c, n) && rows[c][c] == 1
    modifies rows
    ensures Augmented(Snapshot(rows), m) && Reduced(Snapshot(rows), c + 1, n)
  {
    hide Mul, Add, Augmented, AddScaled, Dot;
    for row := 0 to n
      invariant Wide(Snapshot(rows), n)
      invariant Augmented(Snapshot(rows), m) && Reduced(Snapshot(rows), c, n) && rows[c][c] == 1
      invariant forall r | 0 <= r < row && r != c :: rows[r][c] == 0
    {
      if row != c && rows[row][c] != 0 {
        ghost var aug := Snapshot(rows);
        var factor := rows[row][c];
        EliminateInPlace(rows[row], factor, rows[c]);
        EliminatedColumn(aug, row, c, n);
        EliminateKeeps(aug, m, row, c, factor);
        assert Snapshot(rows) == aug[row := AddScaled(aug[row], factor, aug[c])];
        assert rows[row][c] == Snapshot(rows)[row][c];
      }
    }
  }

  lemma SwapReduced(aug: seq<Bytes>, i: nat, c: nat, n: nat)
    requires Wide(aug, n) && c <= i < n && Reduced(aug, c, n)
    ensures var next := aug[i := aug[c]][c := aug[i]];
            Wide(next, n) && Reduced(next, c, n) && next[c] == aug[i]
  {}

  lemma ScaleReduced(aug: seq<Bytes>, c: nat, n: nat)
    requires Wide(aug, n) && c < n && Reduced(aug, c, n) && aug[c][c] != 0
    ensures var next := aug[c := Scaled(aug[c], Inv(aug[c][c]))];
            Wide(next, n) && Reduced(next, c, n) && next[c][c] == 1
  {
    hide Mul, Inv;
    InvSpec(aug[c][c]);
    forall j | 0 <= j < c ensures Scaled(aug[c], Inv(aug[c][c]))[j] == 0 {
      MulNonZero(0, Inv(aug[c][c]));
    }
  }

  /** The rows of the matrix, each followed by the matching row of the identity. */
  method Augment(matrix: seq<Bytes>) returns (rows: Option<seq<array<Byte>>>)
    ensures rows.Some? <==> Square(matrix)
    ensures rows.Some? ==> Separate(rows.value, |matrix|) && Snapshot(rows.value) == Extended(matrix)
    ensures rows.Some? ==> forall r | 0 <= r < |matrix| :: fresh(rows.value[r])
  {
    var size := |matrix|;
    if size == 0 { return None; }
    var built: seq<array<Byte>> := [];
    for row := 0 to size
      invariant |built| == row
      invariant forall r | 0 <= r < row :: |matrix[r]| == size && fresh(built[r])
      invariant forall r | 0 <= r < row :: built[r].Length == 2 * size && built[r][..] == matrix[r] + Unit(r, size)
      invariant forall r, q | 0 <= r < q < row :: built[r] != built[q]
    {
      if |matrix[row]| != size { return None; }
      var source := matrix[row];
      var line := new Byte[2 * size](i requires 0 <= i < 2 * size =>
        if i < size then source[i] else if i == size + row then 1 else 0);
      assert line[..] == matrix[row] + Unit(row, size);
      built := built + [line];
    }
    rows := Some(built);
  }

  method FindPivot(rows: seq<array<Byte>>, size: nat, column: nat) returns (pivot: nat)
    requires Separate(rows, size) && column < size
    ensures column <= pivot <= size
    ensures forall r | column <= r < pivot :: rows[r][column] == 0
    ensures pivot < size ==> rows[pivot][column] != 0
  {
    pivot := column;
    while pivot < size && rows[pivot][column] == 0
      invariant column <= pivot <= size
      invariant forall r | column <= r < pivot :: rows[r][column] == 0
    {
      pivot := pivot + 1;
    }
  }

  /** Turns the pivot of column c into 1 and the rest of the column into 0. */
  method NormalizeColumn(rows: seq<array<Byte>>, size: nat, column: nat, ghost matrix: seq<Bytes>)
    requires Separate(rows, size) && column < size == |matrix|
    requires Augmented(Snapshot(rows), matrix) && Reduced(Snapshot(rows), column, size)
    requires rows[column][column] != 0
    modifies rows
    ensures Augmented(Snapshot(rows), matrix) && Reduced(Snapshot(rows), column + 1, size)
  {
    hide Augmented, Scaled, Mul, Inv;
    ghost var aug := Snapshot(rows);
    var inversePivot := Inv(rows[column][column]);
    InvSpec(rows[column][column]);
    ScaleInPlace(rows[column], inversePivot);
    ScaleKeeps(aug, matrix, column, inversePivot);
    ScaleReduced(aug, column, size);
    assert Snapshot(rows) == aug[column := Scaled(aug[column], inversePivot)];
    assert rows[column][column] == Snapshot(rows)[column][column];
    EliminateColumn(rows, size, column, matrix);
  }

  /** Exchanges two rows of the list. */
  method Exchange(rows: seq<array<Byte>>, n: nat, pivot: nat, column: nat) returns (swapped: seq<array<Byte>>)
    requires Separate(rows, n) && pivot < n && column < n
    ensures Separate(swapped, n) && forall r | 0 <= r < n :: swapped[r] in rows
    ensures var aug := Snapshot(rows); Snapshot(swapped) == aug[pivot := aug[column]][column := aug[pivot]]
  {
    swapped := rows[pivot := rows[column]][column := rows[pivot]];
  }

  /** Gauss-Jordan elimination with row exchanges; None stands for the source's error. */
  method InvertMatrix(matrix: seq<Bytes>) returns (inverse: Option<seq<Bytes>>)
    ensures inverse.Some? <==> Square(matrix) && !Singular(matrix)
    ensures inverse.Some? ==> IsInverse(inverse.value, matrix)
  {
    hide Augmented, Singular, IsInverse, Extended, Reduced;
    var augmented := Augment(matrix);
    if augmented.None? { return None; }
    var rows := augmented.value;
    var size := |matrix|;
    ExtendedIsAugmented(matrix);
    NothingReduced(Snapshot(rows), size);
    for column := 0 to size
      invariant Separate(rows, size) && forall r | 0 <= r < size :: fresh(rows[r])
      invariant Augmented(Snapshot(rows), matrix) && Wide(Snapshot(rows), size)
      invariant Reduced(Snapshot(rows), column, size)
    {
      var pivot := FindPivot(rows, size, column);
      ghost var aug := Snapshot(rows);
      if pivot == size {
        NoPivotMeansSingular(aug, matrix, column);
        return None;
      }
      if pivot != column {
        rows := Exchange(rows, size, pivot, column);
        SwapKeeps(aug, matrix, pivot, column);
        SwapReduced(aug, pivot, column, size);
      }
      NormalizeColumn(rows, size, column, matrix);
    }
    ReducedGivesInverse(Snapshot(rows), matrix);
    inverse := Some(RightHalf(Snapshot(rows), size));
    InverseMeansNonSingular(inverse.value, matrix);
  }

  lemma NothingReduced(aug: seq<Bytes>, n: nat)
    requires Wide(aug, n)
    ensures Reduced(aug, 0, n)
  {}
}
