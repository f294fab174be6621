/** Linear least squares in four unknowns: the normal equations and what their solution minimises. */
module LeastSquares {
  import opened Wrappers
  import opened LinearSystem

  function Square(x: real): real {
    x * x
  }

  datatype Equation = Equation(row: Row, target: real)

  predicate Wide(eqs: seq<Equation>) {
    forall k :: 0 <= k < |eqs| ==> |eqs[k].row| == 4
  }

  function Residual(e: Equation, p: Row): real
    requires |e.row| == 4 && IsVector(p)
  {
    Dot(e.row, p) - e.target
  }

  function SumSquares(eqs: seq<Equation>, p: Row): real
    requires Wide(eqs) && IsVector(p)
  {
    if eqs == [] then 0.0 else
      SumSquares(eqs[..|eqs| - 1], p) + Square(Residual(eqs[|eqs| - 1], p))
  }

  function Times(a: real, b: real): real {
    a * b
  }

  /** Entry (i, j) of the normal matrix. */
  function Gram(eqs: seq<Equation>, i: nat, j: nat): real
    requires Wide(eqs) && i < 4 && j < 4
  {
    if eqs == [] then 0.0 else
      var row := eqs[|eqs| - 1].row;
      Gram(eqs[..|eqs| - 1], i, j) + Times(row[i], row[j])
  }

  /** Entry i of the right-hand side of the normal equations. */
  function Moment(eqs: seq<Equation>, i: nat): real
    requires Wide(eqs) && i < 4
  {
    if eqs == [] then 0.0 else
      var e := eqs[|eqs| - 1];
      Moment(eqs[..|eqs| - 1], i) + Times(e.row[i], e.target)
  }

  function GramRow(eqs: seq<Equation>, i: nat): Row
    requires Wide(eqs) && i < 4
  {
    [Gram(eqs, i, 0), Gram(eqs, i, 1), Gram(eqs, i, 2), Gram(eqs, i, 3)]
  }

  function NormalMatrix(eqs: seq<Equation>): (m: seq<Row>)
    requires Wide(eqs)
    ensures |m| == 4 && forall r :: 0 <= r < 4 ==> m[r] == GramRow(eqs, r)
  {
    [GramRow(eqs, 0), GramRow(eqs, 1), GramRow(eqs, 2), GramRow(eqs, 3)]
  }

  function NormalVector(eqs: seq<Equation>): Row
    requires Wide(eqs)
  {
    [Moment(eqs, 0), Moment(eqs, 1), Moment(eqs, 2), Moment(eqs, 3)]
  }

  /** Correlation of coefficient i with the residuals: half the gradient of the squared error. */
  function Correlation(eqs: seq<Equation>, i: nat, p: Row): real
    requires Wide(eqs) && i < 4 && IsVector(p)
  {
    if eqs == [] then 0.0 else
      var e := eqs[|eqs| - 1];
      Correlation(eqs[..|eqs| - 1], i, p) + Times(e.row[i], Residual(e, p))
  }

  /** Squared length of the left sides at d. */
  function Energy(eqs: seq<Equation>, d: Row): real
    requires Wide(eqs) && IsVector(d)
  {
    if eqs == [] then 0.0 else
      Energy(eqs[..|eqs| - 1], d) + Square(Dot(eqs[|eqs| - 1].row, d))
  }

  function Sub(q: Row, p: Row): Row
    requires IsVector(p) && IsVector(q)
  {
    [q[0] - p[0], q[1] - p[1], q[2] - p[2], q[3] - p[3]]
  }

  lemma DotSub(r: Row, q: Row, p: Row)
    requires |r| == 4 && IsVector(p) && IsVector(q)
    ensures Dot(r, q) == Dot(r, p) + Dot(r, Sub(q, p))
  {
  }

  /** The gap of a normal equation is the correlation. */
  lemma {:induction false} GradientIsCorrelation(eqs: seq<Equation>, i: nat, p: Row)
    requires Wide(eqs) && i < 4 && IsVector(p)
    ensures Dot(GramRow(eqs, i), p) - Moment(eqs, i) == Correlation(eqs, i, p)
  {
    hide Dot, Residual, Gram;
    if eqs == [] {
      NoGram(i);
      NoSlope(GramRow(eqs, i), p);
    } else {
      var front, e := eqs[..|eqs| - 1], eqs[|eqs| - 1];
      GradientIsCorrelation(front, i, p);
      var g, c := GramRow(front, i), e.row[i];
      GradientGrows(g, e, c, p);
      GramGrows(eqs, i);
    }
  }

  lemma NoGram(i: nat)
    requires i < 4
    ensures GramRow([], i) == [0.0, 0.0, 0.0, 0.0]
  {
  }

  lemma GramGrows(eqs: seq<Equation>, i: nat)
    requires Wide(eqs) && i < 4 && eqs != []
    ensures var g, e := GramRow(eqs[..|eqs| - 1], i), eqs[|eqs| - 1];
            GramRow(eqs, i) == [g[0] + Times(e.row[i], e.row[0]), g[1] + Times(e.row[i], e.row[1]),
                                g[2] + Times(e.row[i], e.row[2]), g[3] + Times(e.row[i], e.row[3])]
  {
  }

  lemma GradientGrows(g: Row, e: Equation, c: real, p: Row)
    requires |g| == 4 && |e.row| == 4 && IsVector(p)
    ensures Dot([g[0] + Times(c, e.row[0]), g[1] + Times(c, e.row[1]), g[2] + Times(c, e.row[2]), g[3] + Times(c, e.row[3])], p)
         == Dot(g, p) + c * Residual(e, p) + c * e.target
  {
  }

  /** The correlations weighted by d: the slope of the squared error along d, halved. */
  function Slope(eqs: seq<Equation>, p: Row, d: Row): real
    requires Wide(eqs) && IsVector(p) && IsVector(d)
  {
    if eqs == [] then 0.0 else
      var e := eqs[|eqs| - 1];
      Slope(eqs[..|eqs| - 1], p, d) + Times(Residual(e, p), Dot(e.row, d))
  }

  function Correlations(eqs: seq<Equation>, p: Row): Row
    requires Wide(eqs) && IsVector(p)
  {
    [Correlation(eqs, 0, p), Correlation(eqs, 1, p), Correlation(eqs, 2, p), Correlation(eqs, 3, p)]
  }

  lemma {:induction false} SlopeFromCorrelations(eqs: seq<Equation>, p: Row, d: Row)
    requires Wide(eqs) && IsVector(p) && IsVector(d)
    ensures Slope(eqs, p, d) == Dot(Correlations(eqs, p), d)
  {
    if eqs == [] {
      NoSlope(Correlations(eqs, p), d);
    } else {
      hide Residual, Dot, Times, Correlation;
      var front, e := eqs[..|eqs| - 1], eqs[|eqs| - 1];
      SlopeFromCorrelations(front, p, d);
      CorrelationsGrow(eqs, p);
      SlopeGrows(Correlations(front, p), e.row, Residual(e, p), d);
    }
  }

  lemma CorrelationsGrow(eqs: seq<Equation>, p: Row)
    requires Wide(eqs) && IsVector(p) && eqs != []
    ensures var g, e := Correlations(eqs[..|eqs| - 1], p), eqs[|eqs| - 1];
            var s := Residual(e, p);
            Correlations(eqs, p) == [g[0] + Times(e.row[0], s), g[1] + Times(e.row[1], s),
                                     g[2] + Times(e.row[2], s), g[3] + Times(e.row[3], s)]
  {
  }

  lemma SlopeGrows(g: Row, row: Row, s: real, d: Row)
    requires |g| == 4 && |row| == 4 && IsVector(d)
    ensures Dot([g[0] + Times(row[0], s), g[1] + Times(row[1], s), g[2] + Times(row[2], s), g[3] + Times(row[3], s)], d)
         == Dot(g, d) + Times(s, Dot(row, d))
  {
  }

  lemma SquareOfSum(s: real, t: real)
    ensures Square(s + t) == Square(s) + 2.0 * Times(s, t) + Square(t)
  {
  }

  /** The squared error is a parabola along every direction. */
  lemma {:induction false} Parabola(eqs: seq<Equation>, p: Row, q: Row)
    requires Wide(eqs) && IsVector(p) && IsVector(q)
    ensures SumSquares(eqs, q) == SumSquares(eqs, p) + 2.0 * Slope(eqs, p, Sub(q, p)) + Energy(eqs, Sub(q, p))
  {
    if eqs != [] {
      var front, e := eqs[..|eqs| - 1], eqs[|eqs| - 1];
      Parabola(front, p, q);
      DotSub(e.row, q, p);
      var s, t := Residual(e, p), Dot(e.row, Sub(q, p));
      SquareOfSum(s, t);
      assert Residual(e, q) == s + t;
      hide Square, Times, Dot, Sub, Residual;
    }
  }

  lemma {:induction false} EnergyNonNegative(eqs: seq<Equation>, d: Row)
    requires Wide(eqs) && IsVector(d)
    ensures Energy(eqs, d) >= 0.0
  {
    if eqs != [] {
      EnergyNonNegative(eqs[..|eqs| - 1], d);
      SquareNonNegative(Dot(eqs[|eqs| - 1].row, d));
    }
  }

  lemma SquareNonNegative(x: real)
    ensures Square(x) >= 0.0 && (Square(x) == 0.0 ==> x == 0.0)
  {
    if x > 0.0 {
      PositiveProduct(x, x, Square(x));
    } else if x < 0.0 {
      PositiveProduct(-x, -x, Square(x));
    }
  }

  lemma PositiveProduct(a: real, b: real, product: real)
    requires a > 0.0 && b > 0.0 && product == a * b
    ensures product > 0.0
  {
  }

  /** Directions without energy do not change the correlations. */
  lemma {:induction false} FlatDirection(eqs: seq<Equation>, i: nat, p: Row, q: Row)
    requires Wide(eqs) && i < 4 && IsVector(p) && IsVector(q) && Energy(eqs, Sub(q, p)) == 0.0
    ensures Correlation(eqs, i, q) == Correlation(eqs, i, p)
  {
    if eqs != [] {
      var front, e := eqs[..|eqs| - 1], eqs[|eqs| - 1];
      EnergyNonNegative(front, Sub(q, p));
      SquareNonNegative(Dot(e.row, Sub(q, p)));
      FlatDirection(front, i, p, q);
      DotSub(e.row, q, p);
    }
  }

  ghost predicate Uncorrelated(eqs: seq<Equation>, p: Row)
    requires Wide(eqs) && IsVector(p)
  {
    && Correlation(eqs, 0, p) == 0.0 && Correlation(eqs, 1, p) == 0.0
    && Correlation(eqs, 2, p) == 0.0 && Correlation(eqs, 3, p) == 0.0
  }

  /** The solutions of the normal equations are the vectors without correlation. */
  lemma SolvesNormal(eqs: seq<Equation>, p: Row)
    requires Wide(eqs) && IsVector(p)
    ensures Solves(System(NormalMatrix(eqs), NormalVector(eqs)), p) <==> Uncorrelated(eqs, p)
  {
    hide Gram, Moment, Correlation;
    var m := System(NormalMatrix(eqs), NormalVector(eqs));
    forall i | 0 <= i < 4 ensures Gap(m[i], p) == Dot(GramRow(eqs, i), p) - Moment(eqs, i) {
      assert m[i] == GramRow(eqs, i) + [Moment(eqs, i)];
    }
    GradientIsCorrelation(eqs, 0, p);
    GradientIsCorrelation(eqs, 1, p);
    GradientIsCorrelation(eqs, 2, p);
    GradientIsCorrelation(eqs, 3, p);
    hide Gap, Dot;
    assert Gap(m[0], p) == Correlation(eqs, 0, p) && Gap(m[1], p) == Correlation(eqs, 1, p);
    assert Gap(m[2], p) == Correlation(eqs, 2, p) && Gap(m[3], p) == Correlation(eqs, 3, p);
  }

  /** The only solution of the normal equations is the only minimiser of the squared error. */
  lemma NormalEquationsMinimise(eqs: seq<Equation>, p: Row, q: Row)
    requires Wide(eqs) && IsVector(p) && IsVector(q)
    requires forall y :: Solves(System(NormalMatrix(eqs), NormalVector(eqs)), y) <==> y == p
    ensures SumSquares(eqs, p) <= SumSquares(eqs, q)
    ensures SumSquares(eqs, q) == SumSquares(eqs, p) ==> q == p
  {
    hide Gram, Moment, Correlation, Solves, SumSquares, Slope, Energy, System;
    SolvesNormal(eqs, p);
    SolvesNormal(eqs, q);
    var d := Sub(q, p);
    Parabola(eqs, p, q);
    SlopeFromCorrelations(eqs, p, d);
    EnergyNonNegative(eqs, d);
    NoSlope(Correlations(eqs, p), d);
    if SumSquares(eqs, q) == SumSquares(eqs, p) {
      FlatDirection(eqs, 0, p, q);
      FlatDirection(eqs, 1, p, q);
      FlatDirection(eqs, 2, p, q);
      FlatDirection(eqs, 3, p, q);
    }
  }

  lemma NoSlope(c: Row, d: Row)
    requires c == [0.0, 0.0, 0.0, 0.0] && IsVector(d)
    ensures Dot(c, d) == 0.0
  {
  }

  lemma TwoMore(front: seq<Equation>, e: Equation, f: Equation, p: Row)
    requires Wide(front) && |e.row| == 4 && |f.row| == 4 && IsVector(p)
    ensures SumSquares(front + [e, f], p) == SumSquares(front, p) + Square(Residual(e, p)) + Square(Residual(f, p))
  {
    hide Residual, Square;
    var both := front + [e, f];
    assert both[..|both| - 1] == front + [e];
    assert (front + [e])[..|front|] == front;
  }

  lemma OneMore(eqs: seq<Equation>, e: Equation)
    requires Wide(eqs) && |e.row| == 4
    ensures forall i, j :: 0 <= i < 4 && 0 <= j < 4 ==>
              Gram(eqs + [e], i, j) == Gram(eqs, i, j) + Times(e.row[i], e.row[j])
    ensures forall i :: 0 <= i < 4 ==> Moment(eqs + [e], i) == Moment(eqs, i) + Times(e.row[i], e.target)
  {
  }
}
