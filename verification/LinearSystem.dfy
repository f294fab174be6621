/** Gauss-Jordan elimination with partial pivoting on four equations, over exact reals. */
module LinearSystem {
  import opened Wrappers

  type Row = seq<real>

  const SINGULAR: real := 0.000000000001

  function Abs(x: real): real {
    if x < 0.0 then -x else x
  }

  /** Four equations, each with four coefficients and a right-hand side. */
  predicate IsSystem(m: seq<Row>) {
    |m| == 4 && forall r :: 0 <= r < 4 ==> |m[r]| == 5
  }

  predicate IsVector(x: Row) {
    |x| == 4
  }

  function Dot(a: Row, x: Row): real
    requires |a| >= 4 && IsVector(x)
  {
    a[0] * x[0] + a[1] * x[1] + a[2] * x[2] + a[3] * x[3]
  }

  /** Left side minus right side of one equation. */
  function Gap(row: Row, x: Row): real
    requires |row| == 5 && IsVector(x)
  {
    Dot(row, x) - row[4]
  }

  ghost predicate Solves(m: seq<Row>, x: Row)
    requires IsSystem(m)
  {
    IsVector(x) && forall r :: 0 <= r < 4 ==> Gap(m[r], x) == 0.0
  }

  /** The first `k` columns are those of the identity. */
  predicate Reduced(m: seq<Row>, k: nat)
    requires IsSystem(m) && k <= 4
  {
    forall r, c :: 0 <= r < 4 && 0 <= c < k ==> m[r][c] == if r == c then 1.0 else 0.0
  }

  /** Two systems with the same solutions. */
  ghost predicate Equivalent(m: seq<Row>, n: seq<Row>)
    requires IsSystem(m) && IsSystem(n)
  {
    forall x :: Solves(m, x) <==> Solves(n, x)
  }

  function Scaled(row: Row, d: real): (s: Row)
    requires |row| == 5 && d != 0.0
    ensures |s| == 5 && forall c :: 0 <= c < 5 ==> s[c] == row[c] / d
  {
    [row[0] / d, row[1] / d, row[2] / d, row[3] / d, row[4] / d]
  }

  function Minus(row: Row, f: real, other: Row): (s: Row)
    requires |row| == 5 && |other| == 5
    ensures |s| == 5 && forall c :: 0 <= c < 5 ==> s[c] == row[c] - f * other[c]
  {
    [row[0] - f * other[0], row[1] - f * other[1], row[2] - f * other[2], row[3] - f * other[3], row[4] - f * other[4]]
  }

  // ---------- row operations keep the solutions ----------

  lemma GapScaled(row: Row, d: real, x: Row)
    requires |row| == 5 && d != 0.0 && IsVector(x)
    ensures Gap(Scaled(row, d), x) * d == Gap(row, x)
  {
  }

  lemma GapMinus(row: Row, f: real, other: Row, x: Row)
    requires |row| == 5 && |other| == 5 && IsVector(x)
    ensures Gap(Minus(row, f, other), x) == Gap(row, x) - f * Gap(other, x)
  {
  }

  lemma ScaleKeeps(m: seq<Row>, r: nat, d: real)
    requires IsSystem(m) && r < 4 && d != 0.0
    ensures Equivalent(m, m[r := Scaled(m[r], d)])
  {
    hide Gap, Scaled;
    var n := m[r := Scaled(m[r], d)];
    forall x | IsVector(x) ensures Solves(m, x) <==> Solves(n, x) {
      GapScaled(m[r], d, x);
      assert Gap(n[r], x) == 0.0 <==> Gap(m[r], x) == 0.0;
      assert forall i :: 0 <= i < 4 && i != r ==> n[i] == m[i];
    }
  }

  lemma EliminateKeeps(m: seq<Row>, r: nat, f: real, p: nat)
    requires IsSystem(m) && r < 4 && p < 4 && r != p
    ensures Equivalent(m, m[r := Minus(m[r], f, m[p])])
  {
    hide Gap, Minus;
    var n := m[r := Minus(m[r], f, m[p])];
    forall x | IsVector(x) ensures Solves(m, x) <==> Solves(n, x) {
      GapMinus(m[r], f, m[p], x);
      assert n[p] == m[p];
      assert Gap(m[p], x) == 0.0 ==> (Gap(n[r], x) == 0.0 <==> Gap(m[r], x) == 0.0);
      assert forall i :: 0 <= i < 4 && i != r ==> n[i] == m[i];
    }
  }

  lemma SwapKeeps(m: seq<Row>, i: nat, j: nat)
    requires IsSystem(m) && i < 4 && j < 4
    ensures Equivalent(m, m[i := m[j]][j := m[i]])
  {
    hide Gap;
    var n := m[i := m[j]][j := m[i]];
    forall x | IsVector(x) ensures Solves(m, x) <==> Solves(n, x) {
      assert n[i] == m[j] && n[j] == m[i];
      assert forall r :: 0 <= r < 4 && r != i && r != j ==> n[r] == m[r];
    }
  }

  /** A fully reduced system has one solution: its last column. */
  lemma ReducedHasOneSolution(m: seq<Row>, x: Row)
    requires IsSystem(m) && Reduced(m, 4)
    ensures Solves(m, x) <==> x == [m[0][4], m[1][4], m[2][4], m[3][4]]
  {
  }

  // ---------- the elimination ----------

  /** Divides a row that is zero before `col` by its pivot. */
  method ScaleRow(row: Row, col: nat, div: real) returns (scaled: Row)
    requires |row| == 5 && col < 4 && div != 0.0
    requires forall c :: 0 <= c < col ==> row[c] == 0.0
    ensures scaled == Scaled(row, div)
  {
    scaled := row;
    for c := col to 5
      invariant |scaled| == 5
      invariant forall k :: col <= k < c ==> scaled[k] == row[k] / div
      invariant forall k :: 0 <= k < 5 && !(col <= k < c) ==> scaled[k] == row[k]
    {
      scaled := scaled[c := scaled[c] / div];
    }
    assert forall k :: 0 <= k < col ==> row[k] / div == 0.0;
  }

  /** Subtracts a multiple of a pivot row that is zero before `col`. */
  method SubtractRow(row: Row, col: nat, factor: real, pivotRow: Row) returns (reduced: Row)
    requires |row| == 5 && |pivotRow| == 5 && col < 4
    requires forall c :: 0 <= c < col ==> pivotRow[c] == 0.0
    ensures reduced == Minus(row, factor, pivotRow)
  {
    reduced := row;
    for c := col to 5
      invariant |reduced| == 5
      invariant forall k :: col <= k < c ==> reduced[k] == row[k] - factor * pivotRow[k]
      invariant forall k :: 0 <= k < 5 && !(col <= k < c) ==> reduced[k] == row[k]
    {
      reduced := reduced[c := reduced[c] - factor * pivotRow[c]];
    }
    assert forall k :: 0 <= k < col ==> row[k] - factor * pivotRow[k] == row[k];
  }

  lemma Transitive(a: seq<Row>, b: seq<Row>, c: seq<Row>)
    requires IsSystem(a) && IsSystem(b) && IsSystem(c) && Equivalent(a, b) && Equivalent(b, c)
    ensures Equivalent(a, c)
  {
  }

  /** The first row at or below the diagonal with the largest coefficient of column `col`. */
  predicate IsPivot(m: seq<Row>, col: nat, pivot: nat)
    requires IsSystem(m) && col < 4
  {
    && col <= pivot < 4
    && (forall r :: col <= r < 4 ==> Abs(m[r][col]) <= Abs(m[pivot][col]))
    && (forall r :: col <= r < pivot ==> Abs(m[r][col]) < Abs(m[pivot][col]))
  }

  method FindPivot(m: seq<Row>, col: nat) returns (pivot: nat)
    requires IsSystem(m) && col < 4
    ensures IsPivot(m, col, pivot)
  {
    pivot := col;
    for row := col + 1 to 4
      invariant col <= pivot < row
      invariant forall r :: col <= r < row ==> Abs(m[r][col]) <= Abs(m[pivot][col])
      invariant forall r :: col <= r < pivot ==> Abs(m[r][col]) < Abs(m[pivot][col])
    {
      if Abs(m[row][col]) > Abs(m[pivot][col]) {
        pivot := row;
      }
    }
  }

  function Swapped(m: seq<Row>, i: nat, j: nat): (n: seq<Row>)
    requires IsSystem(m) && i < 4 && j < 4
    ensures IsSystem(n)
  {
    m[i := m[j]][j := m[i]]
  }

  lemma Ratio(d: real)
    requires d != 0.0
    ensures d / d == 1.0
  {
  }

  /** Brings the pivot row to the diagonal and divides it by the pivot, unless the pivot is too small. */
  method PlacePivot(m: seq<Row>, col: nat) returns (n: seq<Row>, ok: bool, ghost pivot: nat)
    requires IsSystem(m) && col < 4 && Reduced(m, col)
    ensures IsPivot(m, col, pivot) && (ok <==> Abs(m[pivot][col]) >= SINGULAR)
    ensures ok ==> n == Swapped(m, col, pivot)[col := Scaled(m[pivot], m[pivot][col])]
    ensures ok ==> IsSystem(n) && Reduced(n, col) && n[col][col] == 1.0 && Equivalent(m, n)
  {
    hide Equivalent, Scaled;
    var found := FindPivot(m, col);
    pivot := found;
    n := m[col := m[found]][found := m[col]];
    SwapKeeps(m, col, found);
    ghost var swapped := n;
    var div := n[col][col];
    if Abs(div) < SINGULAR {
      return n, false, pivot;
    }
    assert Reduced(swapped, col);
    var scaled := ScaleRow(n[col], col, div);
    ScaleKeeps(n, col, div);
    n := n[col := scaled];
    Transitive(m, swapped, n);
    Ratio(div);
    assert n[col][col] == div / div;
    return n, true, pivot;
  }

  // ---------- what elimination does to the left sides ----------

  lemma DotScaled(row: Row, d: real, v: Row)
    requires |row| == 5 && d != 0.0 && IsVector(v)
    ensures Dot(Scaled(row, d), v) * d == Dot(row, v)
  {
  }

  lemma DotMinus(row: Row, f: real, other: Row, v: Row)
    requires |row| == 5 && |other| == 5 && IsVector(v)
    ensures Dot(Minus(row, f, other), v) == Dot(row, v) - f * Dot(other, v)
  {
  }

  /** Where row `col` vanishes, the left sides of both systems agree. */
  ghost predicate AgreesBeside(m: seq<Row>, n: seq<Row>, col: nat)
    requires IsSystem(m) && IsSystem(n) && col < 4
  {
    forall v :: IsVector(v) && Dot(n[col], v) == 0.0 ==> forall r :: 0 <= r < 4 ==> Dot(m[r], v) == Dot(n[r], v)
  }

  lemma ScaledAgrees(m: seq<Row>, col: nat, d: real)
    requires IsSystem(m) && col < 4 && d != 0.0
    ensures AgreesBeside(m, m[col := Scaled(m[col], d)], col)
  {
    hide Dot, Scaled;
    var n := m[col := Scaled(m[col], d)];
    forall v | IsVector(v) && Dot(n[col], v) == 0.0 ensures forall r :: 0 <= r < 4 ==> Dot(m[r], v) == Dot(n[r], v) {
      DotScaled(m[col], d, v);
      assert Dot(m[col], v) == Dot(n[col], v) * d == 0.0;
    }
  }

  lemma EliminatedAgrees(m: seq<Row>, n: seq<Row>, col: nat, row: nat, f: real)
    requires IsSystem(m) && IsSystem(n) && col < 4 && row < 4 && row != col && AgreesBeside(m, n, col)
    ensures AgreesBeside(m, n[row := Minus(n[row], f, n[col])], col)
  {
    hide Dot, Minus;
    var after := n[row := Minus(n[row], f, n[col])];
    forall v | IsVector(v) && Dot(after[col], v) == 0.0 ensures forall r :: 0 <= r < 4 ==> Dot(m[r], v) == Dot(after[r], v) {
      DotMinus(n[row], f, n[col], v);
      assert f * Dot(n[col], v) == 0.0;
      assert Dot(m[row], v) == Dot(n[row], v);
    }
  }

  /** Turns column `col` into a unit column, or reports that no usable pivot is left. */
  method ReduceColumn(m: seq<Row>, col: nat) returns (n: seq<Row>, ok: bool, ghost pivot: nat)
    requires IsSystem(m) && col < 4 && Reduced(m, col)
    ensures IsPivot(m, col, pivot) && (ok <==> Abs(m[pivot][col]) >= SINGULAR)
    ensures ok ==> IsSystem(n) && Reduced(n, col + 1) && Equivalent(m, n)
    ensures ok ==> AgreesBeside(Swapped(m, col, pivot), n, col)
  {
    hide Equivalent, AgreesBeside, Minus, Scaled, IsPivot;
    n, ok, pivot := PlacePivot(m, col);
    PivotInRange(m, col, pivot);
    if !ok {
      return;
    }
    ghost var swapped := Swapped(m, col, pivot);
    ScaledAgrees(swapped, col, m[pivot][col]);
    for row := 0 to 4
      invariant IsSystem(n) && Reduced(n, col) && Equivalent(m, n) && AgreesBeside(swapped, n, col)
      invariant n[col][col] == 1.0
      invariant forall r :: 0 <= r < row && r != col ==> n[r][col] == 0.0
    {
      if row != col {
        var factor := n[row][col];
        var reduced := SubtractRow(n[row], col, factor, n[col]);
        EliminateKeeps(n, row, factor, col);
        EliminatedAgrees(swapped, n, col, row, factor);
        ghost var before := n;
        n := n[row := reduced];
        MinusAt(before[row], factor, before[col], col);
        Transitive(m, before, n);
      }
    }
  }

  lemma PivotInRange(m: seq<Row>, col: nat, pivot: nat)
    requires IsSystem(m) && col < 4 && IsPivot(m, col, pivot)
    ensures col <= pivot < 4
  {
  }

  lemma MinusAt(row: Row, f: real, other: Row, col: nat)
    requires |row| == 5 && |other| == 5 && col < 4
    requires (forall c :: 0 <= c < col ==> other[c] == 0.0) && other[col] == 1.0 && f == row[col]
    ensures Minus(row, f, other)[col] == 0.0
    ensures forall c :: 0 <= c < col ==> Minus(row, f, other)[c] == row[c]
  {
  }

  // ---------- when elimination gives up ----------

  /** A direction with one component 1 and none after it that every row maps close to zero. */
  predicate NearNull(matrix: seq<Row>, v: Row, c: nat)
    requires |matrix| == 4 && forall r :: 0 <= r < 4 ==> |matrix[r]| >= 4
  {
    && IsVector(v) && c < 4 && v[c] == 1.0 && (forall k :: c < k < 4 ==> v[k] == 0.0)
    && forall r :: 0 <= r < 4 ==> Abs(Dot(matrix[r], v)) < SINGULAR
  }

  ghost predicate NearlySingular(matrix: seq<Row>)
    requires |matrix| == 4 && forall r :: 0 <= r < 4 ==> |matrix[r]| >= 4
  {
    exists v, c :: NearNull(matrix, v, c)
  }

  /** Which row of the given system each row comes from. */
  predicate IsOrder(p: seq<nat>) {
    |p| == 4 && (forall r :: 0 <= r < 4 ==> p[r] < 4) && forall i :: 0 <= i < 4 ==> i in p
  }

  ghost predicate Vanish(n: seq<Row>, col: nat, v: Row)
    requires IsSystem(n) && col <= 4 && IsVector(v)
  {
    forall k :: 0 <= k < col ==> Dot(n[k], v) == 0.0
  }

  /** Where the reduced rows vanish, every row has the left side of the row it comes from. */
  ghost predicate Traces(m: seq<Row>, n: seq<Row>, p: seq<nat>, col: nat)
    requires IsSystem(m) && IsSystem(n) && IsOrder(p) && col <= 4
  {
    forall v :: IsVector(v) && Vanish(n, col, v) ==> forall r :: 0 <= r < 4 ==> Dot(m[p[r]], v) == Dot(n[r], v)
  }

  lemma TraceStep(m: seq<Row>, n: seq<Row>, p: seq<nat>, col: nat, pivot: nat, after: seq<Row>)
    requires IsSystem(m) && IsSystem(n) && IsSystem(after) && IsOrder(p) && col <= pivot < 4
    requires Traces(m, n, p, col) && AgreesBeside(Swapped(n, col, pivot), after, col)
    ensures IsOrder(p[col := p[pivot]][pivot := p[col]])
    ensures Traces(m, after, p[col := p[pivot]][pivot := p[col]], col + 1)
  {
    hide Dot;
    var q, s := p[col := p[pivot]][pivot := p[col]], Swapped(n, col, pivot);
    forall i | 0 <= i < 4 ensures i in q {
      assert i in p;
      var r :| 0 <= r < 4 && p[r] == i;
      assert q[if r == col then pivot else if r == pivot then col else r] == i;
    }
    forall v | IsVector(v) && Vanish(after, col + 1, v)
      ensures forall r :: 0 <= r < 4 ==> Dot(m[q[r]], v) == Dot(after[r], v)
    {
      assert forall r :: 0 <= r < 4 ==> Dot(s[r], v) == Dot(after[r], v);
      assert forall k :: 0 <= k < col ==> s[k] == n[k];
      assert Vanish(n, col, v);
      assert s[col] == n[pivot] && s[pivot] == n[col];
      assert forall r :: 0 <= r < 4 && r != col && r != pivot ==> s[r] == n[r];
    }
  }

  /** Column `col` expressed by the columns before it, with opposite sign. */
  function NullVector(n: seq<Row>, col: nat): Row
    requires IsSystem(n) && col < 4
  {
    seq(4, k requires 0 <= k < 4 => if k == col then 1.0 else if k < col then -n[k][col] else 0.0)
  }

  lemma NullVectorDots(n: seq<Row>, col: nat, r: nat)
    requires IsSystem(n) && col < 4 && r < 4 && Reduced(n, col)
    ensures Dot(n[r], NullVector(n, col)) == if r < col then 0.0 else n[r][col]
  {
    assert forall c :: 0 <= c < col ==> n[r][c] == if r == c then 1.0 else 0.0;
    var v, row := NullVector(n, col), n[r];
    if col == 0 {
      assert v == [1.0, 0.0, 0.0, 0.0];
    } else if col == 1 {
      assert v == [-n[0][1], 1.0, 0.0, 0.0];
    } else if col == 2 {
      assert v == [-n[0][2], -n[1][2], 1.0, 0.0];
    } else {
      assert v == [-n[0][3], -n[1][3], -n[2][3], 1.0];
    }
  }

  /** Without a usable pivot the given system has a direction it nearly annihilates. */
  lemma StuckIsNearlySingular(m: seq<Row>, n: seq<Row>, p: seq<nat>, col: nat, pivot: nat)
    requires IsSystem(m) && IsSystem(n) && IsOrder(p) && col < 4 && Reduced(n, col)
    requires Traces(m, n, p, col) && IsPivot(n, col, pivot) && Abs(n[pivot][col]) < SINGULAR
    ensures NearNull(m, NullVector(n, col), col)
  {
    hide Dot;
    var v := NullVector(n, col);
    forall r | 0 <= r < 4 ensures Dot(n[r], v) == if r < col then 0.0 else n[r][col] {
      NullVectorDots(n, col, r);
    }
    assert Vanish(n, col, v);
    forall i | 0 <= i < 4 ensures Abs(Dot(m[i], v)) < SINGULAR {
      assert i in p;
      var r :| 0 <= r < 4 && p[r] == i;
      assert Dot(m[p[r]], v) == Dot(n[r], v);
    }
  }

  /** The augmented system of a 4x4 matrix and a vector. */
  function System(matrix: seq<Row>, vector: Row): (m: seq<Row>)
    requires |matrix| == 4 && (forall r :: 0 <= r < 4 ==> |matrix[r]| == 4) && |vector| == 4
    ensures IsSystem(m) && forall r :: 0 <= r < 4 ==> m[r] == matrix[r] + [vector[r]]
  {
    [matrix[0] + [vector[0]], matrix[1] + [vector[1]], matrix[2] + [vector[2]], matrix[3] + [vector[3]]]
  }

  /**
   * When elimination succeeds, its result is the one and only solution of the system it was given; when it
   * fails, the given matrix nearly annihilates some direction.
   */
  method Solve4(matrix: seq<Row>, vector: Row) returns (x: Option<Row>)
    requires |matrix| == 4 && (forall r :: 0 <= r < 4 ==> |matrix[r]| == 4) && |vector| == 4
    ensures x.Some? ==> forall y :: Solves(System(matrix, vector), y) <==> y == x.value
    ensures x.None? ==> NearlySingular(matrix)
  {
    hide IsPivot, Reduced, Equivalent, Traces, AgreesBeside, IsOrder, Solves;
    var m := System(matrix, vector);
    ghost var given := m;
    ghost var p: seq<nat> := [0, 1, 2, 3];
    NothingReduced(given);
    for col := 0 to 4
      invariant IsSystem(m) && Reduced(m, col) && Equivalent(given, m)
      invariant |p| == 4 && IsOrder(p) && Traces(given, m, p, col)
    {
      ghost var pivot;
      var n, ok;
      n, ok, pivot := ReduceColumn(m, col);
      PivotInRange(m, col, pivot);
      if !ok {
        StuckIsNearlySingular(given, m, p, col, pivot);
        WithoutVector(matrix, vector, NullVector(m, col), col);
        return None;
      }
      TraceStep(given, m, p, col, pivot, n);
      p := p[col := p[pivot]][pivot := p[col]];
      Transitive(given, m, n);
      m := n;
    }
    x := Some([m[0][4], m[1][4], m[2][4], m[3][4]]);
    SolvedBy(given, m);
  }

  lemma NothingReduced(m: seq<Row>)
    requires IsSystem(m)
    ensures Reduced(m, 0) && Equivalent(m, m) && IsOrder([0, 1, 2, 3]) && Traces(m, m, [0, 1, 2, 3], 0)
  {
    hide Dot;
    var p: seq<nat> := [0, 1, 2, 3];
    assert p[0] == 0 && p[1] == 1 && p[2] == 2 && p[3] == 3;
  }

  lemma SolvedBy(m: seq<Row>, n: seq<Row>)
    requires IsSystem(m) && IsSystem(n) && Equivalent(m, n) && Reduced(n, 4)
    ensures forall y :: Solves(m, y) <==> y == [n[0][4], n[1][4], n[2][4], n[3][4]]
  {
    hide Reduced;
    forall y ensures Solves(n, y) <==> y == [n[0][4], n[1][4], n[2][4], n[3][4]] {
      ReducedHasOneSolution(n, y);
    }
    hide Solves;
  }

  lemma WithoutVector(matrix: seq<Row>, vector: Row, v: Row, c: nat)
    requires |matrix| == 4 && (forall r :: 0 <= r < 4 ==> |matrix[r]| == 4) && |vector| == 4
    requires NearNull(System(matrix, vector), v, c)
    ensures NearNull(matrix, v, c)
  {
    hide Dot, System;
    forall r | 0 <= r < 4 ensures Dot(matrix[r], v) == Dot(System(matrix, vector)[r], v) {
      DotAppend(matrix[r], vector[r], v);
    }
  }

  lemma DotAppend(row: Row, b: real, v: Row)
    requires |row| == 4 && IsVector(v)
    ensures Dot(row + [b], v) == Dot(row, v)
  {
  }
}
