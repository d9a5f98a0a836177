/** The natural cubic spline (numericalMethods/interpolation.go,
    `NaturalCubicSpline`): a tridiagonal forward sweep over the interior
    samples, then back substitution for the coefficients of the cubic
    `a + b t + c t^2 + d t^3`, `t = x - x(i)`, on every segment. */
module Spline {
  import opened Wrappers
  import opened Samples

  // The arithmetic of each line of the routine, one function per formula.

  /** Right-hand side of interior equation `i`: three times the change of
      slope at the sample `f` between its neighbours `fPrev` and `fNext`. */
  function AlphaOf(fPrev: real, f: real, fNext: real, hPrev: real, h: real): real
    requires hPrev != 0.0 && h != 0.0
  {
    3.0 * (fNext - f) / h - 3.0 * (f - fPrev) / hPrev
  }

  /** Pivot of the forward sweep at an interior sample. */
  function PivotOf(xPrev: real, xNext: real, hPrev: real, ratioPrev: real): real
  {
    2.0 * (xNext - xPrev) - hPrev * ratioPrev
  }

  /** Multiplier of the forward sweep: the super-diagonal entry over the pivot. */
  function RatioOf(h: real, pivot: real): real
    requires pivot != 0.0
  {
    h / pivot
  }

  /** Eliminated right-hand side of the forward sweep. */
  function RhsOf(alpha: real, hPrev: real, rhsPrev: real, pivot: real): real
    requires pivot != 0.0
  {
    (alpha - hPrev * rhsPrev) / pivot
  }

  /** One step of back substitution. */
  function BackOf(rhs: real, ratio: real, cNext: real): real
  {
    rhs - ratio * cNext
  }

  /** Linear coefficient of a segment from its end values and the quadratic
      coefficients at its two ends. */
  function FirstOf(f: real, fNext: real, h: real, c: real, cNext: real): real
    requires h != 0.0
  {
    (fNext - f) / h - h * (cNext + 2.0 * c) / 3.0
  }

  /** Cubic coefficient of a segment from the quadratic coefficients at its
      two ends. */
  function ThirdOf(c: real, cNext: real, h: real): real
    requires h != 0.0
  {
    (cNext - c) / (3.0 * h)
  }

  /** The cubic `f + b t + c t^2 + d t^3` at `t`. */
  function Cubic(f: real, b: real, c: real, d: real, t: real): real
  {
    f + b * t + c * t * t + d * t * t * t
  }

  /** Its first derivative, `b + 2 c t + 3 d t^2`. */
  function CubicSlope(b: real, c: real, d: real, t: real): real
  {
    b + 2.0 * c * t + 3.0 * d * t * t
  }

  /** Its second derivative, `2 c + 6 d t`. */
  function CubicCurvature(c: real, d: real, t: real): real
  {
    2.0 * c + 6.0 * d * t
  }

  /** Left-hand side of the spline's interior equation at a sample, from the
      widths of its two segments and the quadratic coefficients at it and at
      its two neighbours. */
  function SystemRow(hPrev: real, h: real, cPrev: real, c: real, cNext: real): real
  {
    hPrev * cPrev + 2.0 * (hPrev + h) * c + h * cNext
  }

  // The recurrences of the routine over the samples.

  /** Width of segment `i`, positive on increasing nodes. */
  function StepLength(xs: seq<real>, i: nat): (h: real)
    requires Increasing(xs) && i + 1 < |xs|
    ensures h > 0.0
  {
    xs[i + 1] - xs[i]
  }

  /** `alpha[i]`: zero at the first sample, which has no interior equation. */
  ghost function Alpha(xs: seq<real>, fs: seq<real>, i: nat): real
    requires Increasing(xs) && |xs| == |fs| && i + 1 < |xs|
  {
    if i == 0 then 0.0
    else AlphaOf(fs[i - 1], fs[i], fs[i + 1], StepLength(xs, i - 1), StepLength(xs, i))
  }

  /** Entry `i` of the three work rows of the forward sweep:
      `solvingSetA`, `solvingSetB` and `solvingSetC`. */
  datatype Elimination = Elimination(pivot: real, ratio: real, rhs: real)

  /** Product of two nonnegative reals. */
  lemma MulNonnegative(a: real, b: real)
    requires a >= 0.0 && b >= 0.0
    ensures a * b >= 0.0
  {
  }

  /** 0 < ratio < 1/2 and 2h < pivot bound each other through one sweep step. */
  lemma RatioBelowHalf(h: real, pivot: real)
    requires 0.0 < h && 2.0 * h < pivot
    ensures 0.0 < RatioOf(h, pivot) < 0.5
  {
    var ratio := RatioOf(h, pivot);
    assert ratio * pivot == h;
    if ratio >= 0.5 {
      MulNonnegative(ratio - 0.5, pivot);
      assert false;
    }
    if ratio <= 0.0 {
      MulNonnegative(0.0 - ratio, pivot);
      assert false;
    }
  }

  /** The pivot after a multiplier below one half stays above twice the next
      width. */
  lemma PivotAboveTwiceWidth(xPrev: real, x: real, xNext: real, ratioPrev: real)
    requires xPrev < x < xNext && 0.0 <= ratioPrev < 0.5
    ensures PivotOf(xPrev, xNext, x - xPrev, ratioPrev) > 2.0 * (xNext - x)
  {
    var hPrev := x - xPrev;
    MulNonnegative(hPrev, 0.5 - ratioPrev);
    assert PivotOf(xPrev, xNext, hPrev, ratioPrev) == 2.0 * (xNext - x) + 2.0 * hPrev - hPrev * ratioPrev;
  }

  /** The forward sweep up to sample `i` (0 <= i <= n - 2). Every pivot past
      the first exceeds twice its segment width, so every division of the
      sweep is defined, and every multiplier lies in [0, 1/2). */
  ghost function Eliminate(xs: seq<real>, fs: seq<real>, i: nat): (e: Elimination)
    requires Increasing(xs) && |xs| == |fs| && i + 1 < |xs|
    ensures i >= 1 ==> e.pivot > 2.0 * StepLength(xs, i)
    ensures e.pivot > 0.0 && 0.0 <= e.ratio < 0.5
    decreases i
  {
    if i == 0 then Elimination(1.0, 0.0, 0.0)
    else
      var previous := Eliminate(xs, fs, i - 1);
      var hPrev := StepLength(xs, i - 1);
      PivotAboveTwiceWidth(xs[i - 1], xs[i], xs[i + 1], previous.ratio);
      var pivot := PivotOf(xs[i - 1], xs[i + 1], hPrev, previous.ratio);
      RatioBelowHalf(StepLength(xs, i), pivot);
      Elimination(pivot, RatioOf(StepLength(xs, i), pivot), RhsOf(Alpha(xs, fs, i), hPrev, previous.rhs, pivot))
  }

  /** Quadratic coefficient `c[i]` (0 <= i <= n - 1) by back substitution,
      zero at the last sample. */
  ghost function SecondCoeff(xs: seq<real>, fs: seq<real>, i: nat): real
    requires Increasing(xs) && |xs| == |fs| && i < |xs|
    decreases |xs| - i
  {
    if i == |xs| - 1 then 0.0
    else
      var e := Eliminate(xs, fs, i);
      BackOf(e.rhs, e.ratio, SecondCoeff(xs, fs, i + 1))
  }

  /** Linear coefficient `b[i]` of segment `i`. */
  ghost function FirstCoeff(xs: seq<real>, fs: seq<real>, i: nat): real
    requires Increasing(xs) && |xs| == |fs| && i + 1 < |xs|
  {
    FirstOf(fs[i], fs[i + 1], StepLength(xs, i), SecondCoeff(xs, fs, i), SecondCoeff(xs, fs, i + 1))
  }

  /** Cubic coefficient `d[i]` of segment `i`. */
  ghost function ThirdCoeff(xs: seq<real>, fs: seq<real>, i: nat): real
    requires Increasing(xs) && |xs| == |fs| && i + 1 < |xs|
  {
    ThirdOf(SecondCoeff(xs, fs, i), SecondCoeff(xs, fs, i + 1), StepLength(xs, i))
  }

  /** Quadratic coefficients of all `n` samples. */
  ghost function SecondCoeffs(xs: seq<real>, fs: seq<real>): (cs: seq<real>)
    requires Increasing(xs) && |xs| == |fs|
    ensures |cs| == |xs|
  {
    seq(|xs|, i requires 0 <= i < |xs| => SecondCoeff(xs, fs, i))
  }

  /** Linear coefficients of all `n - 1` segments. */
  ghost function FirstCoeffs(xs: seq<real>, fs: seq<real>): (bs: seq<real>)
    requires Increasing(xs) && |xs| == |fs| && 1 <= |xs|
    ensures |bs| == |xs| - 1
  {
    seq(|xs| - 1, i requires 0 <= i < |xs| - 1 => FirstCoeff(xs, fs, i))
  }

  /** Cubic coefficients of all `n - 1` segments. */
  ghost function ThirdCoeffs(xs: seq<real>, fs: seq<real>): (ds: seq<real>)
    requires Increasing(xs) && |xs| == |fs| && 1 <= |xs|
    ensures |ds| == |xs| - 1
  {
    seq(|xs| - 1, i requires 0 <= i < |xs| - 1 => ThirdCoeff(xs, fs, i))
  }

  // What the coefficients mean.

  /** A cubic built by `FirstOf` and `ThirdOf` reaches `fNext` at the end of
      its segment, whatever the quadratic coefficients. */
  lemma SegmentEndAlgebra(f: real, fNext: real, h: real, c: real, cNext: real)
    requires h != 0.0
    ensures Cubic(f, FirstOf(f, fNext, h, c, cNext), c, ThirdOf(c, cNext, h), h) == fNext
  {
    var b, d := FirstOf(f, fNext, h, c, cNext), ThirdOf(c, cNext, h);
    assert b * h == (fNext - f) - h * h * (cNext + 2.0 * c) / 3.0;
    assert d * h * h * h == h * h * (cNext - c) / 3.0;
  }

  /** Every segment interpolates both its samples: at `t = 0` it is `f[i]`
      and at `t = h[i]` it is `f[i + 1]`. */
  lemma SplineInterpolates(xs: seq<real>, fs: seq<real>, i: nat)
    requires Increasing(xs) && |xs| == |fs| && i + 1 < |xs|
    ensures Cubic(fs[i], FirstCoeff(xs, fs, i), SecondCoeff(xs, fs, i), ThirdCoeff(xs, fs, i), 0.0) == fs[i]
    ensures Cubic(fs[i], FirstCoeff(xs, fs, i), SecondCoeff(xs, fs, i), ThirdCoeff(xs, fs, i), StepLength(xs, i)) == fs[i + 1]
  {
    SegmentEndAlgebra(fs[i], fs[i + 1], StepLength(xs, i), SecondCoeff(xs, fs, i), SecondCoeff(xs, fs, i + 1));
  }

  /** The natural boundary at the first sample: `c[0] == 0`. */
  lemma NaturalStart(xs: seq<real>, fs: seq<real>)
    requires Increasing(xs) && |xs| == |fs| && 2 <= |xs|
    ensures SecondCoeff(xs, fs, 0) == 0.0
  {
  }

  /** Interior equation `i` of the tridiagonal system holds once the sweep
      and the back substitution have passed sample `i`: the two back
      substitution steps and the sweep step at `i` cancel the eliminated
      right-hand side. */
  lemma TridiagonalAlgebra(xPrev: real, xNext: real, hPrev: real, h: real, ratioPrev: real, rhsPrev: real,
                           alpha: real, pivot: real, ratio: real, rhs: real, cPrev: real, c: real, cNext: real)
    requires xNext - xPrev == hPrev + h
    requires pivot == PivotOf(xPrev, xNext, hPrev, ratioPrev) && pivot != 0.0
    requires ratio == RatioOf(h, pivot) && rhs == RhsOf(alpha, hPrev, rhsPrev, pivot)
    requires c == BackOf(rhs, ratio, cNext) && cPrev == BackOf(rhsPrev, ratioPrev, c)
    ensures SystemRow(hPrev, h, cPrev, c, cNext) == alpha
  {
    assert pivot * rhs == alpha - hPrev * rhsPrev;
    assert pivot * ratio == h;
    assert pivot * c == alpha - hPrev * rhsPrev - h * cNext;
    assert 2.0 * (hPrev + h) == pivot + hPrev * ratioPrev;
  }

  /** The coefficients solve the natural spline's tridiagonal system:
      `h[i-1] c[i-1] + 2 (h[i-1] + h[i]) c[i] + h[i] c[i+1] == alpha[i]` for
      every interior sample `i`. */
  lemma SplineSystem(xs: seq<real>, fs: seq<real>, i: nat)
    requires Increasing(xs) && |xs| == |fs| && 1 <= i && i + 1 < |xs|
    ensures SystemRow(StepLength(xs, i - 1), StepLength(xs, i),
                      SecondCoeff(xs, fs, i - 1), SecondCoeff(xs, fs, i), SecondCoeff(xs, fs, i + 1))
         == Alpha(xs, fs, i)
  {
    var previous, current := Eliminate(xs, fs, i - 1), Eliminate(xs, fs, i);
    var hPrev, h := StepLength(xs, i - 1), StepLength(xs, i);
    var cPrev, c, cNext := SecondCoeff(xs, fs, i - 1), SecondCoeff(xs, fs, i), SecondCoeff(xs, fs, i + 1);
    assert c == BackOf(current.rhs, current.ratio, cNext);
    assert cPrev == BackOf(previous.rhs, previous.ratio, c);
    assert current.pivot == PivotOf(xs[i - 1], xs[i + 1], hPrev, previous.ratio);
    assert current.ratio == RatioOf(h, current.pivot);
    assert current.rhs == RhsOf(Alpha(xs, fs, i), hPrev, previous.rhs, current.pivot);
    TridiagonalAlgebra(xs[i - 1], xs[i + 1], hPrev, h, previous.ratio, previous.rhs,
                       Alpha(xs, fs, i), current.pivot, current.ratio, current.rhs, cPrev, c, cNext);
  }

  /** Two segments built by `FirstOf` and `ThirdOf` meet with equal slopes
      when the middle sample's interior equation holds. */
  lemma SlopeAlgebra(f0: real, f1: real, f2: real, h0: real, h1: real, c0: real, c1: real, c2: real)
    requires h0 != 0.0 && h1 != 0.0
    requires SystemRow(h0, h1, c0, c1, c2) == AlphaOf(f0, f1, f2, h0, h1)
    ensures CubicSlope(FirstOf(f0, f1, h0, c0, c1), c0, ThirdOf(c0, c1, h0), h0) == FirstOf(f1, f2, h1, c1, c2)
  {
    var d0 := ThirdOf(c0, c1, h0);
    assert 3.0 * d0 * h0 * h0 == h0 * (c1 - c0);
    assert CubicSlope(FirstOf(f0, f1, h0, c0, c1), c0, d0, h0) == (f1 - f0) / h0 + h0 * (2.0 * c1 + c0) / 3.0;
    assert AlphaOf(f0, f1, f2, h0, h1) == 3.0 * ((f2 - f1) / h1) - 3.0 * ((f1 - f0) / h0);
  }

  /** Neighbouring segments meet with equal slopes at every interior sample. */
  lemma SlopeContinuous(xs: seq<real>, fs: seq<real>, i: nat)
    requires Increasing(xs) && |xs| == |fs| && i + 2 < |xs|
    ensures CubicSlope(FirstCoeff(xs, fs, i), SecondCoeff(xs, fs, i), ThirdCoeff(xs, fs, i), StepLength(xs, i))
         == CubicSlope(FirstCoeff(xs, fs, i + 1), SecondCoeff(xs, fs, i + 1), ThirdCoeff(xs, fs, i + 1), 0.0)
  {
    SplineSystem(xs, fs, i + 1);
    SlopeAlgebra(fs[i], fs[i + 1], fs[i + 2], StepLength(xs, i), StepLength(xs, i + 1),
                 SecondCoeff(xs, fs, i), SecondCoeff(xs, fs, i + 1), SecondCoeff(xs, fs, i + 2));
  }

  /** A cubic coefficient built by `ThirdOf` carries the curvature from
      `2 c` at the start of the segment to `2 cNext` at its end. */
  lemma CurvatureAlgebra(c: real, cNext: real, h: real)
    requires h != 0.0
    ensures CubicCurvature(c, ThirdOf(c, cNext, h), h) == 2.0 * cNext
  {
    assert ThirdOf(c, cNext, h) * (3.0 * h) == cNext - c;
  }

  /** The curvature at the end of segment `i` is twice the next quadratic
      coefficient: equal to the next segment's curvature at its start, and
      zero at the last sample, the natural boundary there. */
  lemma CurvatureContinuous(xs: seq<real>, fs: seq<real>, i: nat)
    requires Increasing(xs) && |xs| == |fs| && i + 1 < |xs|
    ensures CubicCurvature(SecondCoeff(xs, fs, i), ThirdCoeff(xs, fs, i), StepLength(xs, i)) == 2.0 * SecondCoeff(xs, fs, i + 1)
    ensures i + 2 == |xs| ==> CubicCurvature(SecondCoeff(xs, fs, i), ThirdCoeff(xs, fs, i), StepLength(xs, i)) == 0.0
  {
    CurvatureAlgebra(SecondCoeff(xs, fs, i), SecondCoeff(xs, fs, i + 1), StepLength(xs, i));
  }

  // The routine itself, one method per loop.

  /** `stepLengthSet`: the width of every segment. */
  method StepLengths(xs: array<real>, ghost X: seq<real>) returns (stepLengthSet: array<real>)
    requires xs[..] == X && Increasing(X) && 1 <= |X|
    ensures fresh(stepLengthSet) && stepLengthSet.Length == |X| - 1
    ensures forall i {:trigger stepLengthSet[i]} :: 0 <= i < |X| - 1 ==> stepLengthSet[i] == StepLength(X, i)
  {
    stepLengthSet := new real[xs.Length - 1](_ => 0.0);
    for i := 0 to xs.Length - 1
      invariant forall k {:trigger stepLengthSet[k]} :: 0 <= k < i ==> stepLengthSet[k] == StepLength(X, k)
    {
      stepLengthSet[i] := xs[i + 1] - xs[i];
    }
  }

  /** `alpha`: the right-hand side of every interior equation; entry 0 keeps
      the zero it is allocated with. */
  method Alphas(fs: array<real>, stepLengthSet: array<real>, ghost X: seq<real>, ghost F: seq<real>)
    returns (alpha: array<real>)
    requires Increasing(X) && |X| == |F| && 2 <= |X| && fs[..] == F
    requires stepLengthSet.Length == |X| - 1
    requires forall i {:trigger stepLengthSet[i]} :: 0 <= i < |X| - 1 ==> stepLengthSet[i] == StepLength(X, i)
    ensures fresh(alpha) && alpha.Length == |X| - 1
    ensures forall i {:trigger alpha[i]} :: 0 <= i < |X| - 1 ==> alpha[i] == Alpha(X, F, i)
  {
    var size := fs.Length;
    alpha := new real[size - 1](_ => 0.0);
    for i := 1 to size - 1
      invariant forall k {:trigger alpha[k]} :: 0 <= k < i && k < size - 1 ==> alpha[k] == Alpha(X, F, k)
    {
      alpha[i] := AlphaOf(fs[i - 1], fs[i], fs[i + 1], stepLengthSet[i - 1], stepLengthSet[i]);
    }
  }

  /** The body of the forward sweep at sample `i`: from the multiplier and
      right-hand side of sample `i - 1`, the pivot, multiplier and right-hand
      side of sample `i`. */
  method SweepEntry(xs: array<real>, stepLengthSet: array<real>, alpha: array<real>,
                    ratioPrev: real, rhsPrev: real, i: nat, ghost X: seq<real>, ghost F: seq<real>)
    returns (pivot: real, ratio: real, rhs: real)
    requires Increasing(X) && |X| == |F| && 1 <= i && i + 1 < |X| && xs[..] == X
    requires stepLengthSet.Length == alpha.Length == |X| - 1
    requires stepLengthSet[i - 1] == StepLength(X, i - 1) && stepLengthSet[i] == StepLength(X, i)
    requires alpha[i] == Alpha(X, F, i)
    requires ratioPrev == Eliminate(X, F, i - 1).ratio && rhsPrev == Eliminate(X, F, i - 1).rhs
    ensures Elimination(pivot, ratio, rhs) == Eliminate(X, F, i)
  {
    pivot := PivotOf(xs[i - 1], xs[i + 1], stepLengthSet[i - 1], ratioPrev);
    assert pivot == Eliminate(X, F, i).pivot;
    ratio := RatioOf(stepLengthSet[i], pivot);
    rhs := RhsOf(alpha[i], stepLengthSet[i - 1], rhsPrev, pivot);
  }

  /** The forward sweep: pivots, multipliers and eliminated right-hand sides
      of the tridiagonal system, with the last row reset to the natural
      boundary equation `c[n-1] = 0`. */
  method ForwardSweep(xs: array<real>, stepLengthSet: array<real>, alpha: array<real>,
                      ghost X: seq<real>, ghost F: seq<real>)
    returns (solvingSetA: array<real>, solvingSetB: array<real>, solvingSetC: array<real>)
    requires Increasing(X) && |X| == |F| && 2 <= |X| && xs[..] == X
    requires stepLengthSet.Length == alpha.Length == |X| - 1
    requires forall i {:trigger stepLengthSet[i]} :: 0 <= i < |X| - 1 ==> stepLengthSet[i] == StepLength(X, i)
    requires forall i {:trigger alpha[i]} :: 0 <= i < |X| - 1 ==> alpha[i] == Alpha(X, F, i)
    ensures fresh(solvingSetA) && fresh(solvingSetB) && fresh(solvingSetC)
    ensures solvingSetA.Length == solvingSetC.Length == |X| && solvingSetB.Length == |X| - 1
    ensures forall i :: 0 <= i < |X| - 1 ==>
      solvingSetA[i] == Eliminate(X, F, i).pivot && solvingSetB[i] == Eliminate(X, F, i).ratio
      && solvingSetC[i] == Eliminate(X, F, i).rhs
    ensures solvingSetA[|X| - 1] == 1.0 && solvingSetC[|X| - 1] == 0.0
  {
    var size := xs.Length;
    solvingSetA := new real[size](_ => 0.0);
    solvingSetB := new real[size - 1](_ => 0.0);
    solvingSetC := new real[size](_ => 0.0);
    solvingSetA[0] := 1.0;
    solvingSetB[0] := 0.0;
    solvingSetC[0] := 0.0;
    for i := 1 to size - 1
      invariant forall k {:trigger Eliminate(X, F, k)} :: 0 <= k < i ==>
        solvingSetA[k] == Eliminate(X, F, k).pivot && solvingSetB[k] == Eliminate(X, F, k).ratio
        && solvingSetC[k] == Eliminate(X, F, k).rhs
    {
      var pivot, ratio, rhs := SweepEntry(xs, stepLengthSet, alpha, solvingSetB[i - 1], solvingSetC[i - 1], i, X, F);
      solvingSetA[i], solvingSetB[i], solvingSetC[i] := pivot, ratio, rhs;
    }
    solvingSetA[size - 1] := 1.0;
    solvingSetC[size - 1] := 0.0;
  }

  /** The body of the back substitution at segment `i`: from the quadratic
      coefficient `next` of sample `i + 1`, the quadratic coefficient of
      sample `i` and the linear and cubic coefficients of segment `i`. */
  method SegmentCoefficients(fs: array<real>, stepLengthSet: array<real>,
                             solvingSetB: array<real>, solvingSetC: array<real>, next: real, i: nat,
                             ghost X: seq<real>, ghost F: seq<real>)
    returns (c: real, b: real, d: real)
    requires Increasing(X) && |X| == |F| && i + 1 < |X| && fs[..] == F
    requires stepLengthSet.Length == solvingSetB.Length == |X| - 1 && solvingSetC.Length == |X|
    requires stepLengthSet[i] == StepLength(X, i)
    requires solvingSetB[i] == Eliminate(X, F, i).ratio && solvingSetC[i] == Eliminate(X, F, i).rhs
    requires next == SecondCoeff(X, F, i + 1)
    ensures c == SecondCoeff(X, F, i) && b == FirstCoeff(X, F, i) && d == ThirdCoeff(X, F, i)
  {
    var h := stepLengthSet[i];
    c := BackOf(solvingSetC[i], solvingSetB[i], next);
    b := FirstOf(fs[i], fs[i + 1], h, c, next);
    d := ThirdOf(c, next, h);
  }

  /** Back substitution from the last sample down: the quadratic
      coefficients, then the linear and cubic ones of every segment. */
  method BackSubstitution(fs: array<real>, stepLengthSet: array<real>,
                          solvingSetB: array<real>, solvingSetC: array<real>,
                          ghost X: seq<real>, ghost F: seq<real>)
    returns (solutionSetB: array<real>, solutionSetC: array<real>, solutionSetD: array<real>)
    requires Increasing(X) && |X| == |F| && 2 <= |X| && fs[..] == F
    requires stepLengthSet.Length == solvingSetB.Length == |X| - 1 && solvingSetC.Length == |X|
    requires forall i {:trigger stepLengthSet[i]} :: 0 <= i < |X| - 1 ==> stepLengthSet[i] == StepLength(X, i)
    requires forall i :: 0 <= i < |X| - 1 ==>
      solvingSetB[i] == Eliminate(X, F, i).ratio && solvingSetC[i] == Eliminate(X, F, i).rhs
    ensures fresh(solutionSetB) && fresh(solutionSetC) && fresh(solutionSetD) && solutionSetB != solutionSetD
    ensures solutionSetB.Length == solutionSetD.Length == |X| - 1 && solutionSetC.Length == |X|
    ensures solutionSetC[..] == SecondCoeffs(X, F)
    ensures solutionSetB[..] == FirstCoeffs(X, F) && solutionSetD[..] == ThirdCoeffs(X, F)
  {
    var size := fs.Length;
    solutionSetB := new real[size - 1](_ => 0.0);
    solutionSetC := new real[size](_ => 0.0);
    solutionSetD := new real[size - 1](_ => 0.0);
    solutionSetC[size - 1] := 0.0;
    ghost var C, B, D := SecondCoeffs(X, F), FirstCoeffs(X, F), ThirdCoeffs(X, F);
    var i := size - 1;
    while i > 0
      invariant 0 <= i <= size - 1
      invariant forall k :: i <= k < size ==> solutionSetC[k] == C[k]
      invariant forall k :: i <= k < size - 1 ==> solutionSetB[k] == B[k] && solutionSetD[k] == D[k]
    {
      i := i - 1;
      var c, b, d := SegmentCoefficients(fs, stepLengthSet, solvingSetB, solvingSetC, solutionSetC[i + 1], i, X, F);
      solutionSetC[i] := c;
      solutionSetB[i] := b;
      solutionSetD[i] := d;
    }
    assert solutionSetC[..] == C;
    assert solutionSetB[..] == B;
  }

  /** The four coefficient rows `a`, `b`, `c`, `d` of the natural cubic
      spline, each holding one entry per segment. Row `a` is a slice of the
      caller's function values, sharing their storage; row `c` is the first
      `n - 1` of the `n` quadratic coefficients; the curve starts with zero
      curvature (`c[0] == 0`). A length mismatch fails before anything is
      allocated. */
  method NaturalCubicSpline(xs: array<real>, fs: array<real>)
    returns (r: Result<seq<Slice>, InterpolationError>)
    requires xs.Length == fs.Length ==> 2 <= xs.Length && Increasing(xs[..])
    ensures r.Err? <==> xs.Length != fs.Length
    ensures r.Err? ==> r.error == DimensionMismatch
    ensures r.Ok? ==> |r.value| == 4
    ensures r.Ok? ==> forall k :: 0 <= k < 4 ==> r.value[k].len == xs.Length - 1 <= r.value[k].data.Length
    ensures r.Ok? ==> r.value[0] == Slice(fs, xs.Length - 1)
    ensures r.Ok? ==> forall k :: 1 <= k < 4 ==> fresh(r.value[k].data)
    ensures r.Ok? ==> forall a, b :: 0 <= a < b < 4 ==> r.value[a].data != r.value[b].data
    ensures r.Ok? ==> r.value[1].Elements() == FirstCoeffs(xs[..], fs[..])
    ensures r.Ok? ==> r.value[2].Elements() == SecondCoeffs(xs[..], fs[..])[..xs.Length - 1]
    ensures r.Ok? ==> r.value[3].Elements() == ThirdCoeffs(xs[..], fs[..])
    ensures r.Ok? ==> r.value[2].data[0] == 0.0
  {
    var size := xs.Length;
    if size != fs.Length {
      return Err(DimensionMismatch);
    }
    ghost var X, F := xs[..], fs[..];
    var stepLengthSet := StepLengths(xs, X);
    var alpha := Alphas(fs, stepLengthSet, X, F);
    var solvingSetA, solvingSetB, solvingSetC := ForwardSweep(xs, stepLengthSet, alpha, X, F);
    var solutionSetB, solutionSetC, solutionSetD := BackSubstitution(fs, stepLengthSet, solvingSetB, solvingSetC, X, F);
    NaturalStart(X, F);
    var solutionSetA := Slice(fs, size - 1);
    return Ok([solutionSetA, Slice(solutionSetB, size - 1), Slice(solutionSetC, size - 1), Slice(solutionSetD, size - 1)]);
  }
}
