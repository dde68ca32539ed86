// Linear regression over exact reals: the sums the Icarus driver keeps and what its estimate means.
module LeastSquares {

  // One timed result: x hashes took t seconds.
  datatype Sample = Sample(x: nat, t: real)

  // The sums over a set of samples.
  datatype Moments = Moments(n: nat, x: real, t: real, xt: real, xx: real)

  function Combine(a: Moments, b: Moments): Moments {
    Moments(a.n + b.n, a.x + b.x, a.t + b.t, a.xt + b.xt, a.xx + b.xx)
  }

  function Single(s: Sample): Moments {
    Moments(1, s.x as real, s.t, s.x as real * s.t, s.x as real * s.x as real)
  }

  function Sums(s: seq<Sample>): (m: Moments)
    ensures m.n == |s|
  {
    if s == [] then Moments(0, 0.0, 0.0, 0.0, 0.0)
    else Combine(Sums(s[..|s| - 1]), Single(s[|s| - 1]))
  }

  lemma CombineAssociates(a: Moments, b: Moments, c: Moments)
    ensures Combine(Combine(a, b), c) == Combine(a, Combine(b, c))
  {
  }

  lemma CombineNone(a: Moments)
    ensures Combine(a, Sums([])) == a
  {
  }

  lemma {:induction false} SumsConcat(a: seq<Sample>, b: seq<Sample>)
    ensures Sums(a + b) == Combine(Sums(a), Sums(b))
    decreases |b|
  {
    hide Combine;
    hide Single;
    if b == [] {
      assert a + b == a;
      CombineNone(Sums(a));
    } else {
      var n := |b| - 1;
      assert (a + b)[..|a + b| - 1] == a + b[..n];
      SumsConcat(a, b[..n]);
      CombineAssociates(Sums(a), Sums(b[..n]), Single(b[n]));
    }
  }

  // The denominator of the slope.
  function Spread(m: Moments): real {
    m.n as real * m.xx - m.x * m.x
  }

  function Slope(m: Moments): real
    requires Spread(m) != 0.0
  {
    (m.n as real * m.xt - m.x * m.t) / Spread(m)
  }

  function Offset(m: Moments): real
    requires m.n > 0 && Spread(m) != 0.0
  {
    m.t / m.n as real - Slope(m) * m.x / m.n as real
  }

  // ---------- sums of squares ----------

  function Square(r: real): (q: real)
    ensures q >= 0.0
  {
    r * r
  }

  function Times(a: real, b: real): real {
    a * b
  }

  lemma SquareIsTimes(r: real)
    ensures Square(r) == Times(r, r) == Square(-r)
  {
  }

  lemma TimesPositive(a: real, b: real)
    requires a > 0.0 && b > 0.0
    ensures Times(a, b) > 0.0
  {
  }

  lemma ZeroSquare()
    ensures Square(0.0) == 0.0
  {
  }

  lemma SquareZero(r: real)
    ensures Square(r) == 0.0 <==> r == 0.0
  {
    hide Square;
    hide Times;
    ZeroSquare();
    SquareIsTimes(r);
    SquareIsTimes(-r);
    if r > 0.0 {
      TimesPositive(r, r);
    } else if r < 0.0 {
      TimesPositive(-r, -r);
    }
  }

  // The sum of (a x + b)^2.
  function Quadratic(s: seq<Sample>, a: real, b: real): (q: real)
    ensures q >= 0.0
  {
    if s == [] then 0.0 else Quadratic(s[..|s| - 1], a, b) + Square(a * s[|s| - 1].x as real + b)
  }

  function Residual(s: Sample, h: real, w: real): real {
    s.t - h * s.x as real - w
  }

  function Weighted(s: Sample, h: real, w: real): real {
    s.x as real * Residual(s, h, w)
  }

  // The squared error of the line T = h X + w.
  function Error(s: seq<Sample>, h: real, w: real): (q: real)
    ensures q >= 0.0
  {
    if s == [] then 0.0 else Error(s[..|s| - 1], h, w) + Square(Residual(s[|s| - 1], h, w))
  }

  // The sums of the residuals, and of the residuals times x.
  function Residuals(s: seq<Sample>, h: real, w: real): real {
    if s == [] then 0.0 else Residuals(s[..|s| - 1], h, w) + Residual(s[|s| - 1], h, w)
  }

  function WeightedResiduals(s: seq<Sample>, h: real, w: real): real {
    if s == [] then 0.0
    else WeightedResiduals(s[..|s| - 1], h, w) + Weighted(s[|s| - 1], h, w)
  }

  lemma EmptySums(s: seq<Sample>, h: real, w: real)
    requires s == []
    ensures Sums(s) == Moments(0, 0.0, 0.0, 0.0, 0.0)
    ensures Error(s, h, w) == 0.0 && Quadratic(s, h, w) == 0.0
    ensures Residuals(s, h, w) == 0.0 && WeightedResiduals(s, h, w) == 0.0
  {
  }

  // One step of each sum, for proofs that keep the products closed.
  lemma NonNegativeSums(s: seq<Sample>, a: real, b: real, z: real)
    ensures Quadratic(s, a, b) >= 0.0 && Error(s, a, b) >= 0.0 && Square(z) >= 0.0
  {
  }

  lemma SumsStep(s: seq<Sample>)
    requires s != []
    ensures Sums(s) == Combine(Sums(s[..|s| - 1]), Single(s[|s| - 1]))
  {
    hide Combine;
    hide Single;
  }

  lemma ErrorStep(s: seq<Sample>, h: real, w: real)
    requires s != []
    ensures Error(s, h, w) == Error(s[..|s| - 1], h, w) + Square(Residual(s[|s| - 1], h, w))
  {
    hide Square;
    hide Residual;
  }

  lemma ResidualsStep(s: seq<Sample>, h: real, w: real)
    requires s != []
    ensures var y := s[|s| - 1];
            && Residuals(s, h, w) == Residuals(s[..|s| - 1], h, w) + Residual(y, h, w)
            && WeightedResiduals(s, h, w) == WeightedResiduals(s[..|s| - 1], h, w) + Weighted(y, h, w)
  {
    hide Residual;
    hide Weighted;
  }

  lemma QuadraticStep(s: seq<Sample>, a: real, b: real, z: real)
    requires s != [] && z == a * s[|s| - 1].x as real + b
    ensures Quadratic(s, a, b) == Quadratic(s[..|s| - 1], a, b) + Square(z)
  {
    hide Square;
  }

  ghost predicate Differ(s: seq<Sample>) {
    exists i, j :: 0 <= i < j < |s| && s[i].x != s[j].x
  }

  // ---------- the denominator ----------

  lemma {:induction false} QuadraticZero(s: seq<Sample>, a: real, b: real)
    ensures Quadratic(s, a, b) == 0.0 <==> forall i :: 0 <= i < |s| ==> a * s[i].x as real + b == 0.0
  {
    hide Quadratic;
    hide Square;
    if s == [] {
      EmptySums(s, a, b);
    } else {
      var n := |s| - 1;
      var z := a * s[n].x as real + b;
      QuadraticZero(s[..n], a, b);
      QuadraticStep(s, a, b, z);
      SquareZero(z);
      NonNegativeSums(s[..n], a, b, z);
      assert Quadratic(s, a, b) == 0.0 <==> Quadratic(s[..n], a, b) == 0.0 && z == 0.0;
      assert forall i :: 0 <= i < n ==> s[..n][i] == s[i];
    }
  }

  lemma {:induction false} QuadraticExpands(s: seq<Sample>, c: real)
    ensures var m := Sums(s);
            Quadratic(s, 1.0, -c) == m.xx - 2.0 * c * m.x + m.n as real * (c * c)
  {
    hide Sums;
    hide Quadratic;
    hide Square;
    if s == [] {
      EmptySums(s, 1.0, -c);
    } else {
      var n := |s| - 1;
      QuadraticExpands(s[..n], c);
      SumsStep(s);
      QuadraticStep(s, 1.0, -c, s[n].x as real - c);
      var m, x := Sums(s[..n]), s[n].x as real;
      DistanceSquare(x, c);
      DistanceStep(m.xx, m.x, m.n as real, x, c);
    }
  }

  lemma DistanceSquare(x: real, c: real)
    ensures Square(x - c) == x * x - 2.0 * c * x + c * c
  {
  }

  lemma DistanceStep(xx: real, x: real, n: real, y: real, c: real)
    ensures (xx + y * y) - 2.0 * c * (x + y) + (n + 1.0) * (c * c)
         == (xx - 2.0 * c * x + n * (c * c)) + (y * y - 2.0 * c * y + c * c)
  {
  }

  // One more sample adds the squared distances of the others from it.
  lemma SpreadStep(s: seq<Sample>, y: Sample)
    ensures Spread(Combine(Sums(s), Single(y))) == Spread(Sums(s)) + Quadratic(s, 1.0, -(y.x as real))
  {
    var m, c := Sums(s), y.x as real;
    QuadraticExpands(s, c);
    hide Sums;
    hide Quadratic;
    SpreadAlgebra(m.n as real, m.xx, m.x, c);
    assert (m.n + 1) as real == m.n as real + 1.0;
  }

  lemma SpreadAlgebra(n: real, xx: real, x: real, c: real)
    ensures (n + 1.0) * (xx + c * c) - (x + c) * (x + c) == n * xx - x * x + (xx - 2.0 * c * x + n * (c * c))
  {
  }

  // The denominator is positive exactly when two samples have different hash counts, and zero otherwise.
  lemma {:induction false} SpreadPositiveIff(s: seq<Sample>)
    ensures Spread(Sums(s)) >= 0.0
    ensures Spread(Sums(s)) > 0.0 <==> Differ(s)
  {
    if s != [] {
      var n := |s| - 1;
      var r, y := s[..n], s[n];
      SpreadPositiveIff(r);
      SpreadStep(r, y);
      QuadraticZero(r, 1.0, -(y.x as real));
      DifferStep(r, y);
      assert r + [y] == s;
    }
  }

  lemma DifferStep(r: seq<Sample>, y: Sample)
    ensures Differ(r + [y]) <==> Differ(r) || exists i :: 0 <= i < |r| && 1.0 * r[i].x as real + -(y.x as real) != 0.0
  {
    var s := r + [y];
    if i, j :| 0 <= i < j < |r| && r[i].x != r[j].x {
      assert s[i].x != s[j].x;
    }
    if i :| 0 <= i < |r| && 1.0 * r[i].x as real + -(y.x as real) != 0.0 {
      assert s[i].x != s[|r|].x;
    }
    if Differ(s) {
      var i, j :| 0 <= i < j < |s| && s[i].x != s[j].x;
      if j < |r| {
        assert r[i].x != r[j].x;
      } else {
        assert 1.0 * r[i].x as real + -(y.x as real) != 0.0;
      }
    }
  }

  // ---------- the normal equations ----------

  lemma {:induction false} ResidualSums(s: seq<Sample>, h: real, w: real)
    ensures var m := Sums(s);
            && Residuals(s, h, w) == m.t - h * m.x - w * m.n as real
            && WeightedResiduals(s, h, w) == m.xt - h * m.xx - w * m.x
  {
    hide Sums;
    hide Residuals;
    hide WeightedResiduals;
    if s == [] {
      EmptySums(s, h, w);
      ZeroTimes(h, Sums(s).x);
      ZeroTimes(h, Sums(s).xx);
      ZeroTimes(w, Sums(s).x);
      ZeroTimes(w, Sums(s).n as real);
    } else {
      var n := |s| - 1;
      ResidualSums(s[..n], h, w);
      ResidualsStep(s, h, w);
      SumsStep(s);
      var m, y := Sums(s[..n]), s[n];
      ResidualStep(m.t, m.x, m.n as real, y.t, y.x as real, h, w);
      WeightedStep(m.xt, m.xx, m.x, y.t, y.x as real, h, w);
      assert (m.n + 1) as real == m.n as real + 1.0;
    }
  }

  lemma ZeroTimes(a: real, p: real)
    requires p == 0.0
    ensures a * p == 0.0
  {
  }

  lemma ResidualStep(t: real, x: real, n: real, u: real, y: real, h: real, w: real)
    ensures (t + u) - h * (x + y) - w * (n + 1.0) == (t - h * x - w * n) + (u - h * y - w)
  {
  }

  lemma WeightedStep(xt: real, xx: real, x: real, u: real, y: real, h: real, w: real)
    ensures (xt + y * u) - h * (xx + y * y) - w * (x + y) == (xt - h * xx - w * x) + y * (u - h * y - w)
  {
  }

  lemma DivideBack(a: real, b: real)
    requires b != 0.0
    ensures (a / b) * b == a
  {
  }

  lemma NormalEquations(n: real, x: real, t: real, xt: real, xx: real, h: real, w: real)
    requires n > 0.0
    requires h * (n * xx - x * x) == n * xt - x * t && w * n == t - h * x
    ensures t - h * x - w * n == 0.0 && xt - h * xx - w * x == 0.0
  {
    assert n * (w * x) == (w * n) * x;
    assert n * (xt - h * xx - w * x) == 0.0;
    ZeroFactor(n, xt - h * xx - w * x);
  }

  lemma ZeroFactor(n: real, e: real)
    requires n > 0.0 && n * e == 0.0
    ensures e == 0.0
  {
  }

  lemma OffsetTimesCount(m: Moments)
    requires m.n > 0 && Spread(m) != 0.0
    ensures Offset(m) * m.n as real == m.t - Slope(m) * m.x
  {
    hide Slope;
    hide Spread;
    var n := m.n as real;
    DivideBack(m.t, n);
    DivideBack(Slope(m) * m.x, n);
    SplitProduct(m.t / n, Slope(m) * m.x / n, n);
  }

  lemma SplitProduct(a: real, b: real, n: real)
    ensures (a - b) * n == a * n - b * n
  {
  }

  lemma SlopeTimesSpread(m: Moments)
    requires Spread(m) != 0.0
    ensures Slope(m) * Spread(m) == m.n as real * m.xt - m.x * m.t
  {
    DivideBack(m.n as real * m.xt - m.x * m.t, Spread(m));
  }

  lemma EstimateHasNoResidual(s: seq<Sample>)
    requires Differ(s)
    ensures Spread(Sums(s)) > 0.0
    ensures var m := Sums(s);
            Residuals(s, Slope(m), Offset(m)) == 0.0 && WeightedResiduals(s, Slope(m), Offset(m)) == 0.0
  {
    hide Sums;
    hide Slope;
    hide Offset;
    hide Residuals;
    hide WeightedResiduals;
    var m := Sums(s);
    SpreadPositiveIff(s);
    ResidualSums(s, Slope(m), Offset(m));
    EstimateSolves(m);
  }

  lemma EstimateSolves(m: Moments)
    requires m.n > 0 && Spread(m) != 0.0
    ensures m.t - Slope(m) * m.x - Offset(m) * m.n as real == 0.0
    ensures m.xt - Slope(m) * m.xx - Offset(m) * m.x == 0.0
  {
    SlopeTimesSpread(m);
    OffsetTimesCount(m);
    hide Slope;
    hide Offset;
    NormalEquations(m.n as real, m.x, m.t, m.xt, m.xx, Slope(m), Offset(m));
  }

  // ---------- optimality ----------

  lemma SquareShift(e: real, d: real)
    ensures Square(e + d) == Square(e) + 2.0 * (e * d) + Square(d)
  {
  }

  lemma ErrorShiftStep(y: Sample, h: real, w: real, a: real, b: real, z: real)
    requires z == a * y.x as real + b
    ensures var e := Residual(y, h, w);
            Square(Residual(y, h - a, w - b))
            == Square(e) + 2.0 * Times(a, Weighted(y, h, w)) + 2.0 * Times(b, e) + Square(z)
  {
    var e, x := Residual(y, h, w), y.x as real;
    ShiftedResidual(y, h, w, a, b, z);
    SquareShift(e, z);
    MixedTerm(e, x, a, b, z);
    hide Residual;
    hide Square;
  }

  lemma ShiftedResidual(y: Sample, h: real, w: real, a: real, b: real, z: real)
    requires z == a * y.x as real + b
    ensures Residual(y, h - a, w - b) == Residual(y, h, w) + z
  {
  }

  lemma MixedTerm(e: real, x: real, a: real, b: real, z: real)
    requires z == a * x + b
    ensures e * z == a * (x * e) + b * e
  {
  }

  lemma {:induction false} ErrorShift(s: seq<Sample>, h: real, w: real, a: real, b: real)
    ensures Error(s, h - a, w - b) == Error(s, h, w) + 2.0 * Times(a, WeightedResiduals(s, h, w))
                                      + 2.0 * Times(b, Residuals(s, h, w)) + Quadratic(s, a, b)
  {
    hide Error;
    hide Quadratic;
    hide Residuals;
    hide WeightedResiduals;
    hide Residual;
    hide Weighted;
    hide Square;
    hide Times;
    if s == [] {
      EmptySums(s, h, w);
      EmptySums(s, h - a, w - b);
      EmptySums(s, a, b);
      TimesZero(a);
      TimesZero(b);
    } else {
      var n := |s| - 1;
      var z := a * s[n].x as real + b;
      ErrorShift(s[..n], h, w, a, b);
      ErrorStep(s, h, w);
      ErrorStep(s, h - a, w - b);
      ResidualsStep(s, h, w);
      QuadraticStep(s, a, b, z);
      ErrorShiftStep(s[n], h, w, a, b, z);
      Distribute(a, WeightedResiduals(s, h, w), WeightedResiduals(s[..n], h, w), Weighted(s[n], h, w));
      Distribute(b, Residuals(s, h, w), Residuals(s[..n], h, w), Residual(s[n], h, w));
    }
  }

  lemma Distribute(a: real, r: real, p: real, q: real)
    requires r == p + q
    ensures Times(a, r) == Times(a, p) + Times(a, q)
  {
  }

  lemma TimesZero(a: real)
    ensures Times(a, 0.0) == 0.0
  {
  }

  // Main result: among all lines the estimate has the least squared error, and no other line attains it.
  lemma EstimateIsLeastSquares(s: seq<Sample>, h: real, w: real)
    requires Differ(s)
    ensures Spread(Sums(s)) > 0.0
    ensures var m := Sums(s);
            && Error(s, Slope(m), Offset(m)) <= Error(s, h, w)
            && (Error(s, Slope(m), Offset(m)) == Error(s, h, w) ==> h == Slope(m) && w == Offset(m))
  {
    EstimateHasNoResidual(s);
    hide Sums;
    hide Spread;
    hide Slope;
    hide Offset;
    hide Error;
    hide Quadratic;
    hide Residuals;
    hide WeightedResiduals;
    var m := Sums(s);
    var a, b := Slope(m) - h, Offset(m) - w;
    ErrorShiftAtZero(s, Slope(m), Offset(m), a, b);
    NonNegativeSums(s, a, b, 0.0);
    if Quadratic(s, a, b) == 0.0 {
      NoSpreadLeft(s, a, b);
    }
  }

  lemma NoSpreadLeft(s: seq<Sample>, a: real, b: real)
    requires Differ(s) && Quadratic(s, a, b) == 0.0
    ensures a == 0.0 && b == 0.0
  {
    hide Quadratic;
    QuadraticZero(s, a, b);
    var i, j :| 0 <= i < j < |s| && s[i].x != s[j].x;
    FlatLine(a, b, s[i].x as real, s[j].x as real);
  }

  lemma ErrorShiftAtZero(s: seq<Sample>, h: real, w: real, a: real, b: real)
    requires Residuals(s, h, w) == 0.0 && WeightedResiduals(s, h, w) == 0.0
    ensures Error(s, h - a, w - b) == Error(s, h, w) + Quadratic(s, a, b)
  {
    hide Error;
    hide Quadratic;
    hide Residuals;
    hide WeightedResiduals;
    hide Times;
    ErrorShift(s, h, w, a, b);
    TimesZero(a);
    TimesZero(b);
  }

  lemma FlatLine(a: real, b: real, x: real, y: real)
    requires a * x + b == 0.0 && a * y + b == 0.0 && x != y
    ensures a == 0.0 && b == 0.0
  {
    assert a * (x - y) == 0.0;
  }

  lemma {:induction false} NoErrorOnLine(s: seq<Sample>, h: real, w: real)
    requires forall i :: 0 <= i < |s| ==> s[i].t == h * s[i].x as real + w
    ensures Error(s, h, w) == 0.0
  {
    if s != [] {
      NoErrorOnLine(s[..|s| - 1], h, w);
    }
  }

  // Samples on one line T = h X + w give exactly that line.
  lemma LineIsRecovered(s: seq<Sample>, h: real, w: real)
    requires Differ(s) && forall i :: 0 <= i < |s| ==> s[i].t == h * s[i].x as real + w
    ensures Spread(Sums(s)) > 0.0 && Slope(Sums(s)) == h && Offset(Sums(s)) == w
  {
    EstimateIsLeastSquares(s, h, w);
    NoErrorOnLine(s, h, w);
  }
}
