/** Face alignment: the least-squares similarity between landmark sets, and the inverse map used to sample. */
module FaceGeometry {
  import opened Wrappers
  import opened LeastSquares
  import opened LinearSystem

  type Point = (real, real)

  /** x' = a*x - b*y + tx; y' = b*x + a*y + ty */
  datatype Similarity = Similarity(a: real, b: real, tx: real, ty: real)

  function ApplySimilarity(sim: Similarity, p: Point): Point {
    (sim.a * p.0 - sim.b * p.1 + sim.tx, sim.b * p.0 + sim.a * p.1 + sim.ty)
  }

  /** Total squared distance between the mapped landmarks and their targets. */
  function SquaredError(sim: Similarity, src: seq<Point>, dst: seq<Point>): real
    requires |src| <= |dst|
  {
    if src == [] then 0.0 else
      var n := |src| - 1;
      var q := ApplySimilarity(sim, src[n]);
      SquaredError(sim, src[..n], dst) + Square(q.0 - dst[n].0) + Square(q.1 - dst[n].1)
  }

  // ---------- the similarity fit ----------

  function AsVector(sim: Similarity): Row {
    [sim.a, sim.b, sim.tx, sim.ty]
  }

  function PointEquations(p: Point, q: Point): seq<Equation> {
    [Equation([p.0, -p.1, 1.0, 0.0], q.0), Equation([p.1, p.0, 0.0, 1.0], q.1)]
  }

  /** Two equations a landmark. */
  function Equations(src: seq<Point>, dst: seq<Point>): (eqs: seq<Equation>)
    requires |src| <= |dst|
    ensures Wide(eqs)
  {
    if src == [] then [] else
      Equations(src[..|src| - 1], dst) + PointEquations(src[|src| - 1], dst[|src| - 1])
  }

  lemma PointResiduals(sim: Similarity, p: Point, q: Point)
    ensures Residual(PointEquations(p, q)[0], AsVector(sim)) == ApplySimilarity(sim, p).0 - q.0
    ensures Residual(PointEquations(p, q)[1], AsVector(sim)) == ApplySimilarity(sim, p).1 - q.1
  {
  }

  lemma {:induction false} ErrorIsSumSquares(sim: Similarity, src: seq<Point>, dst: seq<Point>)
    requires |src| <= |dst|
    ensures SquaredError(sim, src, dst) == SumSquares(Equations(src, dst), AsVector(sim))
  {
    if src != [] {
      var n := |src| - 1;
      ErrorIsSumSquares(sim, src[..n], dst);
      PointResiduals(sim, src[n], dst[n]);
      hide Residual, Square, ApplySimilarity;
      var e := PointEquations(src[n], dst[n]);
      TwoMore(Equations(src[..n], dst), e[0], e[1], AsVector(sim));
    }
  }

  /** Adds one equation to the normal equations, in place. */
  method Accumulate(ata: array2<real>, atb: array<real>, e: Equation, ghost eqs: seq<Equation>)
    requires ata.Length0 == 4 && ata.Length1 == 4 && atb.Length == 4
    requires Wide(eqs) && |e.row| == 4
    requires Holds(ata, atb, eqs)
    modifies ata, atb
    ensures Holds(ata, atb, eqs + [e])
  {
    ghost var more := eqs + [e];
    OneMore(eqs, e);
    hide Gram, Moment, Times;
    for i := 0 to 4
      invariant forall r, c :: 0 <= r < i && 0 <= c < 4 ==> ata[r, c] == Gram(more, r, c)
      invariant forall r, c :: i <= r < 4 && 0 <= c < 4 ==> ata[r, c] == Gram(eqs, r, c)
      invariant forall r :: 0 <= r < 4 ==> atb[r] == if r < i then Moment(more, r) else Moment(eqs, r)
    {
      atb[i] := atb[i] + Times(e.row[i], e.target);
      for j := 0 to 4
        modifies ata
        invariant forall r, c :: 0 <= r < i && 0 <= c < 4 ==> ata[r, c] == Gram(more, r, c)
        invariant forall r, c :: i < r < 4 && 0 <= c < 4 ==> ata[r, c] == Gram(eqs, r, c)
        invariant forall c :: 0 <= c < 4 ==> ata[i, c] == if c < j then Gram(more, i, c) else Gram(eqs, i, c)
      {
        ata[i, j] := ata[i, j] + Times(e.row[i], e.row[j]);
      }
    }
  }

  /** The arrays hold the normal equations of the given equations. */
  ghost predicate Holds(ata: array2<real>, atb: array<real>, eqs: seq<Equation>)
    requires ata.Length0 == 4 && ata.Length1 == 4 && atb.Length == 4 && Wide(eqs)
    reads ata, atb
  {
    && (forall r, c :: 0 <= r < 4 && 0 <= c < 4 ==> ata[r, c] == Gram(eqs, r, c))
    && (forall r :: 0 <= r < 4 ==> atb[r] == Moment(eqs, r))
  }

  method NormalEquations(src: seq<Point>, dst: seq<Point>) returns (matrix: seq<Row>, vector: Row)
    requires |src| <= |dst|
    ensures matrix == NormalMatrix(Equations(src, dst)) && vector == NormalVector(Equations(src, dst))
  {
    var ata := new real[4, 4]((i, j) => 0.0);
    var atb := new real[4](i => 0.0);
    for i := 0 to |src|
      invariant fresh(ata) && fresh(atb)
      invariant Holds(ata, atb, Equations(src[..i], dst))
    {
      hide Gram, Moment;
      ghost var eqs := Equations(src[..i], dst);
      var e := PointEquations(src[i], dst[i]);
      Accumulate(ata, atb, e[0], eqs);
      Accumulate(ata, atb, e[1], eqs + [e[0]]);
      assert src[..i + 1][..i] == src[..i];
      assert eqs + [e[0]] + [e[1]] == Equations(src[..i + 1], dst);
    }
    assert src[..|src|] == src;
    matrix := [[ata[0, 0], ata[0, 1], ata[0, 2], ata[0, 3]], [ata[1, 0], ata[1, 1], ata[1, 2], ata[1, 3]],
               [ata[2, 0], ata[2, 1], ata[2, 2], ata[2, 3]], [ata[3, 0], ata[3, 1], ata[3, 2], ata[3, 3]]];
    vector := [atb[0], atb[1], atb[2], atb[3]];
  }

  /**
   * The least-squares similarity from `src` to `dst`: no other similarity has a smaller squared error, nor the
   * same one. There is none when the landmarks are all one point, and otherwise elimination finds it unless
   * they lie close together for their number and position.
   */
  method EstimateSimilarity(src: seq<Point>, dst: seq<Point>) returns (sim: Option<Similarity>)
    requires |src| <= |dst|
    ensures sim.Some? ==> forall other ::
              && SquaredError(sim.value, src, dst) <= SquaredError(other, src, dst)
              && (SquaredError(other, src, dst) == SquaredError(sim.value, src, dst) ==> other == sim.value)
    ensures sim.None? ==> NearlySingular(NormalMatrix(Equations(src, dst)))
    ensures sim.None? ==> Spread(src) <= 2.0 * SINGULAR * Square(Size(SumsOf(src)))
    ensures (forall i, j :: 0 <= i < j < |src| ==> src[i] == src[j]) ==> sim.None?
  {
    var matrix, vector := NormalEquations(src, dst);
    var x := Solve4(matrix, vector);
    LandmarkMatrix(src, dst);
    if x == None {
      FailureNeedsCloseLandmarks(src, matrix);
      return None;
    }
    if forall i, j :: 0 <= i < j < |src| ==> src[i] == src[j] {
      OnePointIsSingular(src, vector, x.value);
    }
    assert Solves(System(matrix, vector), x.value);
    sim := Some(Similarity(x.value[0], x.value[1], x.value[2], x.value[3]));
    forall other
      ensures SquaredError(sim.value, src, dst) <= SquaredError(other, src, dst)
      ensures SquaredError(other, src, dst) == SquaredError(sim.value, src, dst) ==> other == sim.value
    {
      FitIsBest(src, dst, sim.value, other);
    }
  }

  lemma FitIsBest(src: seq<Point>, dst: seq<Point>, sim: Similarity, other: Similarity)
    requires |src| <= |dst|
    requires var eqs := Equations(src, dst);
             forall y :: Solves(System(NormalMatrix(eqs), NormalVector(eqs)), y) <==> y == AsVector(sim)
    ensures SquaredError(sim, src, dst) <= SquaredError(other, src, dst)
    ensures SquaredError(other, src, dst) == SquaredError(sim, src, dst) ==> other == sim
  {
    ErrorIsSumSquares(sim, src, dst);
    ErrorIsSumSquares(other, src, dst);
    NormalEquationsMinimise(Equations(src, dst), AsVector(sim), AsVector(other));
    assert AsVector(other) == AsVector(sim) ==>
        AsVector(other)[0] == AsVector(sim)[0] && AsVector(other)[1] == AsVector(sim)[1]
        && AsVector(other)[2] == AsVector(sim)[2] && AsVector(other)[3] == AsVector(sim)[3];
  }

  // ---------- when there is no fit ----------

  /** Sum of the squared distances of a point to the points of a list. */
  function Distances(src: seq<Point>, p: Point): real {
    if src == [] then 0.0 else
      var q := src[|src| - 1];
      Distances(src[..|src| - 1], p) + (Square(p.0 - q.0) + Square(p.1 - q.1))
  }

  /** Sum of the squared distances over all pairs of landmarks. */
  function Spread(src: seq<Point>): real {
    if src == [] then 0.0 else Spread(src[..|src| - 1]) + Distances(src[..|src| - 1], src[|src| - 1])
  }

  /** Number, sums of the coordinates and sum of the squared lengths of landmarks. */
  datatype Sums = Sums(n: real, x: real, y: real, s: real)

  function SumsOf(src: seq<Point>): Sums {
    if src == [] then Sums(0.0, 0.0, 0.0, 0.0) else Plus(SumsOf(src[..|src| - 1]), src[|src| - 1])
  }

  function Plus(m: Sums, p: Point): Sums {
    Sums(m.n + 1.0, m.x + p.0, m.y + p.1, m.s + (Square(p.0) + Square(p.1)))
  }

  /** Number of landmarks plus the sizes of their coordinate sums. */
  function Size(m: Sums): real {
    m.n + Abs(m.x) + Abs(m.y)
  }

  function MatrixOf(m: Sums): (rows: seq<Row>)
    ensures |rows| == 4 && forall i :: 0 <= i < 4 ==> |rows[i]| == 4
  {
    [[m.s, 0.0, m.x, m.y], [0.0, m.s, -m.y, m.x], [m.x, -m.y, m.n, 0.0], [m.y, m.x, 0.0, m.n]]
  }

  lemma {:induction false} GramEntry(src: seq<Point>, dst: seq<Point>, i: nat, j: nat)
    requires |src| <= |dst| && i < 4 && j < 4
    ensures Gram(Equations(src, dst), i, j) == MatrixOf(SumsOf(src))[i][j]
  {
    if src == [] {
      NoEntry(i, j);
    } else {
      hide Gram, MatrixOf, PointEquations, Plus, GramRow;
      var n := |src| - 1;
      GramEntry(src[..n], dst, i, j);
      var e := PointEquations(src[n], dst[n]);
      TwoEquations(src[n], dst[n]);
      GramTwoMore(Equations(src[..n], dst), e[0], e[1], i, j);
      PointAdds(SumsOf(src[..n]), src[n], dst[n], i, j);
    }
  }

  lemma NoEntry(i: nat, j: nat)
    requires i < 4 && j < 4
    ensures MatrixOf(Sums(0.0, 0.0, 0.0, 0.0))[i][j] == 0.0
  {
    var zeros := [0.0, 0.0, 0.0, 0.0];
    assert MatrixOf(Sums(0.0, 0.0, 0.0, 0.0)) == [zeros, zeros, zeros, zeros];
    hide MatrixOf;
  }

  lemma TwoEquations(p: Point, q: Point)
    ensures var e := PointEquations(p, q);
            |e| == 2 && e == [e[0], e[1]] && |e[0].row| == 4 && |e[1].row| == 4
  {
  }

  lemma GramTwoMore(eqs: seq<Equation>, e: Equation, f: Equation, i: nat, j: nat)
    requires Wide(eqs) && |e.row| == 4 && |f.row| == 4 && i < 4 && j < 4
    ensures Gram(eqs + [e, f], i, j) == Gram(eqs, i, j) + Times(e.row[i], e.row[j]) + Times(f.row[i], f.row[j])
  {
    var both := eqs + [e, f];
    assert both[..|both| - 1] == eqs + [e];
    assert (eqs + [e])[..|eqs|] == eqs;
  }

  lemma PointAdds(m: Sums, p: Point, q: Point, i: nat, j: nat)
    requires i < 4 && j < 4
    ensures var e := PointEquations(p, q);
            MatrixOf(Plus(m, p))[i][j]
            == MatrixOf(m)[i][j] + Times(e[0].row[i], e[0].row[j]) + Times(e[1].row[i], e[1].row[j])
  {
    var e := PointEquations(p, q);
    var x, y := p.0, p.1;
    assert e[0].row == [x, -y, 1.0, 0.0] && e[1].row == [y, x, 0.0, 1.0];
    TimesOne(x);
    TimesOne(y);
    TimesOne(-y);
    TimesOne(1.0);
    TimesOne(0.0);
    Opposite(y, x);
    Opposite(x, y);
    Opposite(-y, y);
    Opposite(y, y);
    assert Times(x, y) == Times(y, x) && Times(x, x) == Square(x) && Times(y, y) == Square(y);
    hide Times, Square, PointEquations;
    if i == 0 {
    } else if i == 1 {
    } else if i == 2 {
    } else {
    }
  }

  lemma TimesOne(x: real)
    ensures Times(x, 1.0) == x == Times(1.0, x) && Times(x, 0.0) == 0.0 == Times(0.0, x)
  {
  }

  lemma LandmarkMatrix(src: seq<Point>, dst: seq<Point>)
    requires |src| <= |dst|
    ensures NormalMatrix(Equations(src, dst)) == MatrixOf(SumsOf(src))
  {
    hide Gram, Equations, SumsOf;
    var m := MatrixOf(SumsOf(src));
    forall i | 0 <= i < 4 ensures GramRow(Equations(src, dst), i) == m[i] {
      GramEntry(src, dst, i, 0);
      GramEntry(src, dst, i, 1);
      GramEntry(src, dst, i, 2);
      GramEntry(src, dst, i, 3);
      assert |m[i]| == 4;
    }
  }

  // ---------- the spread in terms of the sums ----------

  function Determinant(m: Sums): real {
    Times(m.n, m.s) - Square(m.x) - Square(m.y)
  }

  lemma {:induction false} DistancesFromSums(src: seq<Point>, p: Point)
    ensures var m := SumsOf(src);
            Distances(src, p) == m.s + Times(m.n, Square(p.0) + Square(p.1)) - 2.0 * Times(m.x, p.0) - 2.0 * Times(m.y, p.1)
  {
    if src != [] {
      var q, m := src[|src| - 1], SumsOf(src[..|src| - 1]);
      DistancesFromSums(src[..|src| - 1], p);
      DistanceAdds(m, q, p);
    }
  }

  lemma DistanceAdds(m: Sums, q: Point, p: Point)
    ensures var a := Plus(m, q);
            a.s + Times(a.n, Square(p.0) + Square(p.1)) - 2.0 * Times(a.x, p.0) - 2.0 * Times(a.y, p.1)
            == m.s + Times(m.n, Square(p.0) + Square(p.1)) - 2.0 * Times(m.x, p.0) - 2.0 * Times(m.y, p.1)
               + (Square(p.0 - q.0) + Square(p.1 - q.1))
  {
  }

  lemma {:induction false} SpreadFromSums(src: seq<Point>)
    ensures Spread(src) == Determinant(SumsOf(src))
  {
    if src != [] {
      var p, front := src[|src| - 1], src[..|src| - 1];
      SpreadFromSums(front);
      DistancesFromSums(front, p);
      SpreadAdds(SumsOf(front), p);
    }
  }

  lemma SpreadAdds(m: Sums, p: Point)
    ensures Determinant(Plus(m, p)) == Determinant(m)
              + (m.s + Times(m.n, Square(p.0) + Square(p.1)) - 2.0 * Times(m.x, p.0) - 2.0 * Times(m.y, p.1))
  {
  }

  lemma {:induction false} DistancesNonNegative(src: seq<Point>, p: Point)
    ensures Distances(src, p) >= 0.0
    ensures Distances(src, p) == 0.0 <==> forall k :: 0 <= k < |src| ==> src[k] == p
  {
    if src != [] {
      var q := src[|src| - 1];
      DistancesNonNegative(src[..|src| - 1], p);
      SquareNonNegative(p.0 - q.0);
      SquareNonNegative(p.1 - q.1);
      hide Square;
      assert forall k :: 0 <= k < |src| - 1 ==> src[k] == src[..|src| - 1][k];
      if Distances(src, p) == 0.0 {
        assert p.0 - q.0 == 0.0 && p.1 - q.1 == 0.0;
      } else if forall k :: 0 <= k < |src| ==> src[k] == p {
        NoDistance(p);
      }
    }
  }

  lemma NoDistance(p: Point)
    ensures Square(p.0 - p.0) + Square(p.1 - p.1) == 0.0
  {
  }

  /** The spread is zero exactly when all landmarks are one point. */
  lemma {:induction false} SpreadNonNegative(src: seq<Point>)
    ensures Spread(src) >= 0.0
    ensures Spread(src) == 0.0 <==> forall i, j :: 0 <= i < j < |src| ==> src[i] == src[j]
  {
    if src != [] {
      var front, p := src[..|src| - 1], src[|src| - 1];
      SpreadNonNegative(front);
      DistancesNonNegative(front, p);
      assert forall k :: 0 <= k < |front| ==> front[k] == src[k];
      hide Distances;
    }
  }

  // ---------- which landmarks have a fit ----------

  /** The four products of the matrix of sums with a vector. */
  lemma Applied(m: Sums, v: Row, e: Row)
    requires IsVector(v) && IsVector(e) && forall r :: 0 <= r < 4 ==> e[r] == Dot(MatrixOf(m)[r], v)
    ensures e[0] == Times(m.s, v[0]) + Times(m.x, v[2]) + Times(m.y, v[3])
    ensures e[1] == Times(m.s, v[1]) - Times(m.y, v[2]) + Times(m.x, v[3])
    ensures e[2] == Times(m.x, v[0]) - Times(m.y, v[1]) + Times(m.n, v[2])
    ensures e[3] == Times(m.y, v[0]) + Times(m.x, v[1]) + Times(m.n, v[3])
  {
    var rows := MatrixOf(m);
    assert rows[0] == [m.s, 0.0, m.x, m.y] && rows[1] == [0.0, m.s, -m.y, m.x];
    assert rows[2] == [m.x, -m.y, m.n, 0.0] && rows[3] == [m.y, m.x, 0.0, m.n];
    hide MatrixOf;
    assert e[0] == Dot(rows[0], v) && e[1] == Dot(rows[1], v) && e[2] == Dot(rows[2], v) && e[3] == Dot(rows[3], v);
  }

  /** Eliminating the translation leaves the determinant. */
  lemma TurnAlone(n: real, x: real, y: real, s: real, a: real, b: real, t: real, u: real, e: real, f: real, g: real)
    requires e == Times(s, a) + Times(x, t) + Times(y, u)
    requires f == Times(x, a) - Times(y, b) + Times(n, t)
    requires g == Times(y, a) + Times(x, b) + Times(n, u)
    ensures Times(Times(n, s) - Square(x) - Square(y), a) == Times(n, e) - Times(x, f) - Times(y, g)
  {
  }

  lemma NearlyNull(m: Sums, v: Row, e: Row)
    requires IsVector(v) && IsVector(e) && forall r :: 0 <= r < 4 ==> e[r] == Dot(MatrixOf(m)[r], v)
    ensures Times(Determinant(m), v[0]) == Times(m.n, e[0]) - Times(m.x, e[2]) - Times(m.y, e[3])
    ensures Times(Determinant(m), v[1]) == Times(m.n, e[1]) + Times(m.y, e[2]) - Times(m.x, e[3])
    ensures Times(m.n, v[2]) == e[2] - Times(m.x, v[0]) + Times(m.y, v[1])
    ensures Times(m.n, v[3]) == e[3] - Times(m.y, v[0]) - Times(m.x, v[1])
  {
    Applied(m, v, e);
    Opposite(m.y, v[2]);
    Opposite(m.y, v[0]);
    Opposite(m.y, e[2]);
    SameSquare(m.y);
    hide Times, Square, MatrixOf, Dot;
    TurnAlone(m.n, m.x, m.y, m.s, v[0], v[1], v[2], v[3], e[0], e[2], e[3]);
    TurnAlone(m.n, m.x, -m.y, m.s, v[1], v[0], v[3], v[2], e[1], e[3], e[2]);
  }

  lemma SameSquare(y: real)
    ensures Square(-y) == Square(y)
  {
  }

  lemma Opposite(x: real, b: real)
    ensures Times(-x, b) == -Times(x, b) == Times(x, -b)
  {
  }

  lemma TimesBound(a: real, e: real, bound: real)
    requires Abs(e) <= bound
    ensures Abs(Times(a, e)) <= Times(Abs(a), bound)
  {
    Opposite(a, e);
    Opposite(-a, e);
    hide Times;
    var size := if e >= 0.0 then e else -e;
    if a >= 0.0 {
      Ordered(a, size, bound);
    } else {
      Ordered(-a, size, bound);
    }
  }

  lemma Ordered(a: real, e: real, bound: real)
    requires a >= 0.0 && 0.0 <= e <= bound
    ensures 0.0 <= Times(a, e) <= Times(a, bound)
  {
  }

  /** Rotation and scale of a nearly annihilated direction are small against the spread. */
  lemma TurnIsSmall(m: Sums, v: Row, e: Row)
    requires IsVector(v) && IsVector(e) && m.n >= 0.0
    requires forall r :: 0 <= r < 4 ==> e[r] == Dot(MatrixOf(m)[r], v) && Abs(e[r]) < SINGULAR
    ensures Abs(Times(Determinant(m), v[0])) <= SINGULAR * Size(m)
    ensures Abs(Times(Determinant(m), v[1])) <= SINGULAR * Size(m)
  {
    NearlyNull(m, v, e);
    TimesBound(m.n, e[0], SINGULAR);
    TimesBound(m.n, e[1], SINGULAR);
    TimesBound(m.x, e[2], SINGULAR);
    TimesBound(m.x, e[3], SINGULAR);
    TimesBound(m.y, e[2], SINGULAR);
    TimesBound(m.y, e[3], SINGULAR);
    hide Determinant, Dot, MatrixOf;
  }

  /** A translation that is nearly cancelled by such a rotation and scale needs a small spread. */
  lemma ShiftIsSmall(d: real, n: real, x: real, y: real, a: real, b: real, e: real, k: real)
    requires d >= 0.0 && n >= 1.0 && k == n + Abs(x) + Abs(y) && Abs(e) < SINGULAR
    requires Abs(Times(d, a)) <= SINGULAR * k && Abs(Times(d, b)) <= SINGULAR * k
    requires n == e - Times(x, a) + Times(y, b)
    ensures d <= 2.0 * SINGULAR * Square(k)
  {
    var bound := SINGULAR * k;
    TimesBound(x, Times(d, a), bound);
    TimesBound(y, Times(d, b), bound);
    TimesBound(d, e, SINGULAR);
    Expand(d, n, e, x, a, y, b);
    Shares(k, Abs(x), Abs(y), bound);
    AtLeastOnce(d, n);
    hide Times, Square;
  }

  lemma Expand(d: real, n: real, e: real, x: real, a: real, y: real, b: real)
    requires n == e - Times(x, a) + Times(y, b)
    ensures Times(d, n) == Times(d, e) - Times(x, Times(d, a)) + Times(y, Times(d, b))
  {
  }

  lemma Shares(k: real, x: real, y: real, bound: real)
    requires x >= 0.0 && y >= 0.0 && k >= x + y && bound == SINGULAR * k
    ensures Times(x, bound) + Times(y, bound) <= SINGULAR * Square(k)
  {
    Ordered(bound, x + y, k);
    assert Times(x, bound) + Times(y, bound) == Times(bound, x + y);
    assert Times(bound, k) == SINGULAR * Square(k);
  }

  lemma AtLeastOnce(d: real, n: real)
    requires d >= 0.0 && n >= 1.0
    ensures Times(d, n) >= d && Times(Abs(d), SINGULAR) == SINGULAR * d
  {
    Ordered(d, 1.0, n);
  }

  lemma TurnNeedsSmallSpread(d: real, k: real)
    requires k >= 1.0 && d <= SINGULAR * k
    ensures d <= 2.0 * SINGULAR * Square(k)
  {
    Ordered(k, 1.0, k);
  }

  /** Elimination fails only on landmarks that lie close together for their number and position. */
  lemma FailureNeedsSmallSpread(m: Sums, v: Row, c: nat)
    requires m.n >= 1.0 && Determinant(m) >= 0.0 && NearNull(MatrixOf(m), v, c)
    ensures Determinant(m) <= 2.0 * SINGULAR * Square(Size(m))
  {
    var rows := MatrixOf(m);
    var e := [Dot(rows[0], v), Dot(rows[1], v), Dot(rows[2], v), Dot(rows[3], v)];
    TurnIsSmall(m, v, e);
    NearlyNull(m, v, e);
    var d, k := Determinant(m), Size(m);
    hide Determinant, Dot, MatrixOf, Square;
    assert Times(d, 1.0) == d && Times(m.n, 1.0) == m.n;
    if c == 0 || c == 1 {
      TurnNeedsSmallSpread(d, k);
    } else if c == 2 {
      ShiftIsSmall(d, m.n, m.x, m.y, v[0], v[1], e[2], k);
    } else {
      Opposite(m.x, v[1]);
      ShiftIsSmall(d, m.n, m.y, -m.x, v[0], v[1], e[3], k);
    }
  }

  /** A direction along which the sums of landmarks at one point have no effect. */
  function FreeDirection(m: Sums): (d: Row)
    ensures IsVector(d)
  {
    if m.n == 0.0 then [1.0, 0.0, 0.0, 0.0] else [m.n, 0.0, -m.x, -m.y]
  }

  function Add(p: Row, d: Row): (q: Row)
    requires IsVector(p) && IsVector(d)
    ensures IsVector(q)
  {
    [p[0] + d[0], p[1] + d[1], p[2] + d[2], p[3] + d[3]]
  }

  /** Landmarks that are all one point leave a direction without effect. */
  lemma OnePointHasNoUniqueFit(m: Sums, vector: Row, p: Row)
    requires Determinant(m) == 0.0 && (m.n == 0.0 ==> m == Sums(0.0, 0.0, 0.0, 0.0))
    requires |vector| == 4 && IsVector(p)
    ensures Add(p, FreeDirection(m)) != p
    ensures Solves(System(MatrixOf(m), vector), p) ==> Solves(System(MatrixOf(m), vector), Add(p, FreeDirection(m)))
  {
    hide Dot, MatrixOf, FreeDirection, System, Determinant, Solves;
    Moves(m, p);
    forall r | 0 <= r < 4 ensures Dot(MatrixOf(m)[r], FreeDirection(m)) == 0.0 {
      NoEffect(m, r);
    }
    SolvesToo(MatrixOf(m), vector, p, FreeDirection(m));
  }

  /** A direction without effect leads from one solution to another. */
  lemma SolvesToo(rows: seq<Row>, vector: Row, p: Row, d: Row)
    requires |rows| == 4 && (forall r :: 0 <= r < 4 ==> |rows[r]| == 4) && |vector| == 4
    requires IsVector(p) && IsVector(d) && forall r :: 0 <= r < 4 ==> Dot(rows[r], d) == 0.0
    ensures Solves(System(rows, vector), p) ==> Solves(System(rows, vector), Add(p, d))
  {
    hide Dot, Gap, Add, System;
    var sys := System(rows, vector);
    forall r | 0 <= r < 4 ensures Gap(sys[r], Add(p, d)) == Gap(sys[r], p) {
      SameGap(rows[r], vector[r], p, d);
    }
  }

  lemma SameGap(row: Row, b: real, p: Row, d: Row)
    requires |row| == 4 && IsVector(p) && IsVector(d) && Dot(row, d) == 0.0
    ensures Gap(row + [b], Add(p, d)) == Gap(row + [b], p)
  {
    hide Dot, Add;
    DotAppend(row, b, Add(p, d));
    DotAppend(row, b, p);
    DotAdds(row, p, d);
  }

  lemma Moves(m: Sums, p: Row)
    requires IsVector(p)
    ensures Add(p, FreeDirection(m)) != p
  {
    assert Add(p, FreeDirection(m))[0] == p[0] + FreeDirection(m)[0];
  }

  lemma DotAdds(row: Row, p: Row, d: Row)
    requires |row| == 4 && IsVector(p) && IsVector(d)
    ensures Dot(row, Add(p, d)) == Dot(row, p) + Dot(row, d)
  {
  }

  lemma NoEffect(m: Sums, r: nat)
    requires Determinant(m) == 0.0 && (m.n == 0.0 ==> m == Sums(0.0, 0.0, 0.0, 0.0)) && r < 4
    ensures Dot(MatrixOf(m)[r], FreeDirection(m)) == 0.0
  {
    hide MatrixOf, FreeDirection, Dot, Determinant;
    if m.n == 0.0 {
      ZeroRow(m, r);
      NoSlope(MatrixOf(m)[r], FreeDirection(m));
    } else {
      OnePointRow(m, r);
    }
  }

  lemma ZeroRow(m: Sums, r: nat)
    requires m == Sums(0.0, 0.0, 0.0, 0.0) && r < 4
    ensures MatrixOf(m)[r] == [0.0, 0.0, 0.0, 0.0]
  {
    forall j | 0 <= j < 4 ensures MatrixOf(m)[r][j] == 0.0 {
      NoEntry(r, j);
    }
  }

  lemma OnePointRow(m: Sums, r: nat)
    requires Determinant(m) == 0.0 && m.n != 0.0 && r < 4
    ensures Dot(MatrixOf(m)[r], FreeDirection(m)) == 0.0
  {
    var d := [m.n, 0.0, -m.x, -m.y];
    assert FreeDirection(m) == d;
    if r == 0 {
      assert Dot([m.s, 0.0, m.x, m.y], d) == Determinant(m);
    } else if r == 1 {
      assert Dot([0.0, m.s, -m.y, m.x], d) == 0.0;
    } else if r == 2 {
      assert Dot([m.x, -m.y, m.n, 0.0], d) == 0.0;
    } else {
      assert Dot([m.y, m.x, 0.0, m.n], d) == 0.0;
    }
  }

  lemma {:induction false} SumsOfNone(src: seq<Point>)
    ensures SumsOf(src).n == |src| as real
    ensures src == [] ==> SumsOf(src) == Sums(0.0, 0.0, 0.0, 0.0)
  {
    if src != [] {
      SumsOfNone(src[..|src| - 1]);
    }
  }

  lemma FailureNeedsCloseLandmarks(src: seq<Point>, matrix: seq<Row>)
    requires matrix == MatrixOf(SumsOf(src)) && NearlySingular(matrix)
    ensures Spread(src) <= 2.0 * SINGULAR * Square(Size(SumsOf(src)))
  {
    var m := SumsOf(src);
    SumsOfNone(src);
    SpreadFromSums(src);
    SpreadNonNegative(src);
    SquareNonNegative(Size(m));
    if src != [] {
      hide MatrixOf, Determinant, Square, Size, Spread, SumsOf, NearNull;
      var v, c :| NearNull(matrix, v, c);
      FailureNeedsSmallSpread(m, v, c);
    }
  }

  lemma OnePointIsSingular(src: seq<Point>, vector: Row, p: Row)
    requires |vector| == 4 && forall i, j :: 0 <= i < j < |src| ==> src[i] == src[j]
    ensures Solves(System(MatrixOf(SumsOf(src)), vector), p) ==>
              exists q :: q != p && Solves(System(MatrixOf(SumsOf(src)), vector), q)
  {
    SumsOfNone(src);
    SpreadFromSums(src);
    SpreadNonNegative(src);
    hide MatrixOf, Determinant, Square, Spread, SumsOf, System, Gap;
    if Solves(System(MatrixOf(SumsOf(src)), vector), p) {
      OnePointHasNoUniqueFit(SumsOf(src), vector, p);
    }
  }

  // ---------- exact data ----------

  lemma {:induction false} ExactHasNoError(sim: Similarity, src: seq<Point>, dst: seq<Point>)
    requires |src| <= |dst| && forall k :: 0 <= k < |src| ==> dst[k] == ApplySimilarity(sim, src[k])
    ensures SquaredError(sim, src, dst) == 0.0
  {
    if src != [] {
      ExactHasNoError(sim, src[..|src| - 1], dst);
    }
  }

  lemma {:induction false} ErrorNonNegative(sim: Similarity, src: seq<Point>, dst: seq<Point>)
    requires |src| <= |dst|
    ensures SquaredError(sim, src, dst) >= 0.0
  {
    if src != [] {
      var n := |src| - 1;
      var q := ApplySimilarity(sim, src[n]);
      ErrorNonNegative(sim, src[..n], dst);
      SquareNonNegative(q.0 - dst[n].0);
      SquareNonNegative(q.1 - dst[n].1);
    }
  }

  /** When the targets were made by a similarity, the best fit is that similarity. */
  lemma FitRecoversGenerator(truth: Similarity, fit: Similarity, src: seq<Point>, dst: seq<Point>)
    requires |src| <= |dst| && forall k :: 0 <= k < |src| ==> dst[k] == ApplySimilarity(truth, src[k])
    requires forall other ::
               && SquaredError(fit, src, dst) <= SquaredError(other, src, dst)
               && (SquaredError(other, src, dst) == SquaredError(fit, src, dst) ==> other == fit)
    ensures fit == truth
  {
    ExactHasNoError(truth, src, dst);
    ErrorNonNegative(fit, src, dst);
    assert SquaredError(fit, src, dst) <= SquaredError(truth, src, dst);
  }

  // ---------- the inverse map ----------

  const DEGENERATE: real := 0.00000001

  function Det(sim: Similarity): real {
    sim.a * sim.a + sim.b * sim.b
  }

  function InverseMap(sim: Similarity, p: Point): Point {
    var dx, dy := p.0 - sim.tx, p.1 - sim.ty;
    var det := Det(sim);
    if det < DEGENERATE then (0.0, 0.0) else TurnBack(sim.a, sim.b, dx, dy, det)
  }

  function TurnBack(a: real, b: real, dx: real, dy: real, det: real): Point
    requires det != 0.0
  {
    ((a * dx + b * dy) / det, (-b * dx + a * dy) / det)
  }

  lemma Quotient(det: real, q: real, n: real)
    requires det > 0.0 && n == det * q
    ensures n / det == q
  {
  }

  /** Turning back undoes rotating and scaling. */
  lemma TurnedBack(a: real, b: real, x: real, y: real, dx: real, dy: real, det: real)
    requires dx == a * x - b * y && dy == b * x + a * y && det == a * a + b * b && det > 0.0
    ensures TurnBack(a, b, dx, dy, det) == (x, y)
  {
    assert a * dx + b * dy == det * x;
    assert -b * dx + a * dy == det * y;
    Quotient(det, x, a * dx + b * dy);
    Quotient(det, y, -b * dx + a * dy);
  }

  lemma InverseUndoes(sim: Similarity, p: Point)
    requires Det(sim) >= DEGENERATE
    ensures InverseMap(sim, ApplySimilarity(sim, p)) == p
  {
    hide TurnBack;
    var q := ApplySimilarity(sim, p);
    TurnedBack(sim.a, sim.b, p.0, p.1, q.0 - sim.tx, q.1 - sim.ty, Det(sim));
  }

  /** The inverse map undoes the similarity at every point exactly when the determinant reaches the threshold. */
  lemma InverseUndoesIff(sim: Similarity)
    ensures (forall p :: InverseMap(sim, ApplySimilarity(sim, p)) == p) <==> Det(sim) >= DEGENERATE
  {
    if Det(sim) >= DEGENERATE {
      forall p ensures InverseMap(sim, ApplySimilarity(sim, p)) == p {
        InverseUndoes(sim, p);
      }
    } else {
      assert InverseMap(sim, ApplySimilarity(sim, (1.0, 0.0))) != (1.0, 0.0);
    }
  }
}
