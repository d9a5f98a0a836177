/** Neville's iterated interpolation (numericalMethods/interpolation.go,
    `NevilleIterated`): a triangular table of values at one point `x` of the
    polynomials through contiguous windows of samples. */
module Neville {
  import opened Wrappers
  import opened Samples
  import opened Tables
  import opened NewtonForm
  import opened DividedDifferences

  /** Neville's combination of the values `upper` (window without the node
      `lo`) and `lower` (window without the node `hi`) at the point `x`. */
  function Combine(x: real, lo: real, hi: real, upper: real, lower: real): real
    requires lo != hi
  {
    ((x - lo) * upper - (x - hi) * lower) / (hi - lo)
  }

  /** Entry `[i][j]`: the value at `x` of the polynomial through samples
      `i - j .. i`, by Neville's recurrence. */
  ghost function NevilleEntry(x: real, xs: seq<real>, fs: seq<real>, i: nat, j: nat): real
    requires |xs| == |fs| && Distinct(xs) && j <= i < |xs|
    decreases j
  {
    if j == 0 then fs[i]
    else Combine(x, xs[i - j], xs[i], NevilleEntry(x, xs, fs, i, j - 1), NevilleEntry(x, xs, fs, i - 1, j - 1))
  }

  /** Row `i` of the Neville table. */
  ghost function NevilleRow(x: real, xs: seq<real>, fs: seq<real>, i: nat): (row: seq<real>)
    requires |xs| == |fs| && Distinct(xs) && i < |xs|
    ensures |row| == i + 1
  {
    seq(i + 1, j requires 0 <= j <= i => NevilleEntry(x, xs, fs, i, j))
  }

  /** One step of the recurrence, stated for values already known to be the
      two lower-order entries it combines. */
  lemma NevilleStep(x: real, xs: seq<real>, fs: seq<real>, i: nat, j: nat, upper: real, lower: real)
    requires |xs| == |fs| && Distinct(xs) && 1 <= j <= i < |xs|
    requires upper == NevilleEntry(x, xs, fs, i, j - 1)
    requires lower == NevilleEntry(x, xs, fs, i - 1, j - 1)
    ensures xs[i] - xs[i - j] != 0.0
    ensures Combine(x, xs[i - j], xs[i], upper, lower) == NevilleEntry(x, xs, fs, i, j)
  {
  }

  /** Neville's combination keeps a value both windows agree on at `x`, and
      a value one window has at the node the other window lacks. */
  lemma CombineKeepsValue(x: real, lo: real, hi: real, upper: real, lower: real, v: real)
    requires lo != hi
    requires (x == lo && lower == v) || (x == hi && upper == v) || (upper == v && lower == v)
    ensures Combine(x, lo, hi, upper, lower) == v
  {
    var n := (x - lo) * upper - (x - hi) * lower;
    if x == lo && lower == v {
      assert n == (hi - lo) * v;
    } else if x == hi && upper == v {
      assert n == (hi - lo) * v;
    } else {
      assert n == (hi - lo) * v;
    }
    CancelFactor(v, hi - lo, n);
  }

  /** Dividing a multiple of a nonzero `d` by `d` gives the factor back. */
  lemma CancelFactor(a: real, d: real, n: real)
    requires d != 0.0 && n == d * a
    ensures n / d == a
  {
  }

  /** Every polynomial of the table interpolates its window: evaluated at a
      node `x(m)` of its window, entry `[i][j]` is exactly `f(x(m))`. */
  lemma {:induction false} NevilleReproducesSample(xs: seq<real>, fs: seq<real>, i: nat, j: nat, m: nat)
    requires |xs| == |fs| && Distinct(xs) && j <= i < |xs|
    requires i - j <= m <= i
    ensures NevilleEntry(xs[m], xs, fs, i, j) == fs[m]
    decreases j
  {
    if j > 0 {
      if m < i {
        NevilleReproducesSample(xs, fs, i - 1, j - 1, m);
      }
      if m > i - j {
        NevilleReproducesSample(xs, fs, i, j - 1, m);
      }
      CombineKeepsValue(xs[m], xs[i - j], xs[i], NevilleEntry(xs[m], xs, fs, i, j - 1),
                        NevilleEntry(xs[m], xs, fs, i - 1, j - 1), fs[m]);
    }
  }

  /** The ring identity behind Neville's step: if both windows differ from
      the whole window's value `w` by one multiple of its top coefficient
      `c`, with node products `p0` and `p1` that extend to the same product,
      the combination gives `w` back. */
  lemma NevilleAlgebra(x: real, lo: real, hi: real, w: real, c: real, p0: real, p1: real)
    requires lo != hi && Times(p0, x - hi) == Times(x - lo, p1)
    ensures Combine(x, lo, hi, w - Times(c, p1), w - Times(c, p0)) == w
  {
    var n := (x - lo) * (w - c * p1) - (x - hi) * (w - c * p0);
    assert n == (hi - lo) * w + c * (p0 * (x - hi) - (x - lo) * p1);
    CancelFactor(w, hi - lo, n);
  }

  /** One step of the induction below: if the two lower-order entries are
      the window value `w` less one multiple of `c` each, entry `[i][j]`
      is `w`. */
  lemma NevilleWindowStep(x: real, xs: seq<real>, fs: seq<real>, i: nat, j: nat, w: real, c: real, p0: real, p1: real)
    requires |xs| == |fs| && Distinct(xs) && 1 <= j <= i < |xs|
    requires NevilleEntry(x, xs, fs, i, j - 1) == w - Times(c, p1)
    requires NevilleEntry(x, xs, fs, i - 1, j - 1) == w - Times(c, p0)
    requires Times(p0, x - xs[i]) == Times(x - xs[i - j], p1)
    ensures NevilleEntry(x, xs, fs, i, j) == w
  {
    NevilleStep(x, xs, fs, i, j, w - Times(c, p1), w - Times(c, p0));
    NevilleAlgebra(x, xs[i - j], xs[i], w, c, p0, p1);
  }

  /** Entry `[i][j]` is Newton's form over the window of samples
      `i - j .. i`, evaluated at `x`, for any table `t` that satisfies the
      divided-difference recurrence and holds the sample values at order 0. */
  lemma {:induction false} NevilleIsWindowFormOf(x: real, xs: seq<real>, fs: seq<real>, t: seq<seq<real>>, i: nat, j: nat)
    requires |xs| == |fs| && Distinct(xs) && j <= i < |xs|
    requires DividedTable(xs, t) && forall k :: 0 <= k < |xs| ==> t[k][0] == fs[k]
    ensures NevilleEntry(x, xs, fs, i, j) == WindowForm(xs, t, i - j, i + 1, x)
    decreases j
  {
    var a := i - j;
    if j == 0 {
      assert WindowForm(xs, t, i, i + 1, x) == Times(t[i][0], NodeProduct(xs, i, i, x));
    } else {
      var e := i + 1;
      NevilleIsWindowFormOf(x, xs, fs, t, i, j - 1);
      assert i - (j - 1) == a + 1;
      var upper := WindowForm(xs, t, a + 1, e, x);
      NevilleIsWindowFormOf(x, xs, fs, t, i - 1, j - 1);
      assert (i - 1) - (j - 1) == a && i - 1 + 1 == e - 1;
      var lower := WindowForm(xs, t, a, e - 1, x);
      WindowDifference(xs, t, a, e, x);
      NodeProductShift(xs, a, e, x);
      var w := WindowForm(xs, t, a, e, x);
      var c := t[e - 1][e - 1 - a];
      var p0, p1 := NodeProduct(xs, a, e - 1, x), NodeProduct(xs, a + 1, e, x);
      assert w == lower + Times(c, p0);
      assert NodeProduct(xs, a, e, x) == Times(p0, Gap(xs, e - 1, x));
      NevilleWindowStep(x, xs, fs, i, j, w, c, p0, p1);
    }
  }

  /** Entry `[i][j]` is Newton's form, over the window of samples
      `i - j .. i`, of the divided-difference table, evaluated at `x`: the
      value at `x` of the polynomial through those samples. */
  lemma NevilleIsWindowForm(x: real, xs: seq<real>, fs: seq<real>, i: nat, j: nat)
    requires |xs| == |fs| && Distinct(xs) && j <= i < |xs|
    ensures NevilleEntry(x, xs, fs, i, j) == WindowForm(xs, DividedDifferenceTable(xs, fs), i - j, i + 1, x)
  {
    DividedDifferenceTableIsDivided(xs, fs);
    NevilleIsWindowFormOf(x, xs, fs, DividedDifferenceTable(xs, fs), i, j);
  }

  /** The corner of the table is the value at `x` of the polynomial through
      all the samples, in Newton's form with the divided-difference
      coefficients. */
  lemma NevilleCorner(x: real, xs: seq<real>, fs: seq<real>)
    requires |xs| == |fs| && Distinct(xs) && 1 <= |xs|
    ensures NevilleEntry(x, xs, fs, |xs| - 1, |xs| - 1) == NewtonEval(xs, NewtonCoefficients(xs, fs), x)
  {
    var t := DividedDifferenceTable(xs, fs);
    NevilleIsWindowForm(x, xs, fs, |xs| - 1, |xs| - 1);
    WindowFromStart(xs, t, |xs|, x);
    assert Coefficients(xs, t)[..|xs|] == NewtonCoefficients(xs, fs);
  }

  /** The inner loop of `NevilleIterated`: fills orders 1 to `i` of row `i`
      from row `i - 1`, whose entries are already final. */
  method FillNevilleRow(x: real, xs: array<real>, previousRow: array<real>, row: array<real>, i: nat,
                        ghost X: seq<real>, ghost F: seq<real>)
    requires |X| == |F| && Distinct(X) && 1 <= i < |X| && xs[..] == X
    requires row.Length == i + 1 && row[0] == F[i]
    requires previousRow[..] == NevilleRow(x, X, F, i - 1)
    requires row != previousRow && row != xs
    modifies row
    ensures row[..] == NevilleRow(x, X, F, i)
  {
    for j := 1 to i + 1
      invariant row[..j] == NevilleRow(x, X, F, i)[..j]
    {
      var upper, lower := row[j - 1], previousRow[j - 1];
      assert upper == NevilleRow(x, X, F, i)[j - 1];
      assert lower == NevilleRow(x, X, F, i - 1)[j - 1];
      NevilleStep(x, X, F, i, j, upper, lower);
      var lo, hi := xs[i - j], xs[i];
      assert lo == X[i - j] && hi == X[i];
      row[j] := Combine(x, lo, hi, upper, lower);
      assert row[..j + 1] == row[..j] + [NevilleRow(x, X, F, i)[j]];
    }
    assert row[..] == row[..i + 1];
  }

  /** Builds the Neville table at `valueToApprox`: row `i` has `i + 1` entries,
      entry `[i][0]` is the sample value, entry `[i][j]` the value of the
      polynomial through samples `i - j .. i`; the inputs are only read. When
      the point is the node `x(k)` itself, all of row `k` equals `f(x(k))`. */
  method NevilleIterated(valueToApprox: real, xs: array<real>, fs: array<real>)
    returns (r: Result<array<array<real>>, InterpolationError>)
    requires xs.Length == fs.Length ==> Distinct(xs[..])
    ensures r.Err? <==> xs.Length != fs.Length
    ensures r.Err? ==> r.error == DimensionMismatch
    ensures r.Ok? ==> fresh(r.value) && r.value.Length == xs.Length && SeparateRows(r.value)
    ensures r.Ok? ==> forall i :: 0 <= i < xs.Length ==> fresh(r.value[i])
    ensures r.Ok? ==> forall i :: 0 <= i < xs.Length ==> r.value[i].Length == i + 1
    ensures r.Ok? ==> forall i :: 0 <= i < xs.Length ==> r.value[i][0] == fs[i]
    ensures r.Ok? ==> forall i, j :: 0 <= j <= i < xs.Length ==>
      r.value[i][j] == NevilleEntry(valueToApprox, xs[..], fs[..], i, j)
    ensures r.Ok? ==> forall k, j :: 0 <= j <= k < xs.Length && valueToApprox == xs[k] ==>
      r.value[k][j] == fs[k]
    ensures r.Ok? && xs.Length >= 1 ==>
      r.value[xs.Length - 1][xs.Length - 1] == NewtonEval(xs[..], NewtonCoefficients(xs[..], fs[..]), valueToApprox)
  {
    var size := xs.Length;
    if size != fs.Length {
      return Err(DimensionMismatch);
    }
    ghost var X, F := xs[..], fs[..];
    var table := NewSeededTable(fs);
    if size > 0 {
      assert table[0][..] == NevilleRow(valueToApprox, X, F, 0);
    }
    var i := 1;
    while i < size
      invariant 1 <= i && (size == 0 || i <= size)
      invariant Triangular(table, size) && SeparateRows(table)
      invariant forall k :: 0 <= k < size ==> fresh(table[k])
      invariant forall k :: 0 <= k < i && k < size ==> table[k][..] == NevilleRow(valueToApprox, X, F, k)
      invariant forall k :: i <= k < size ==> table[k][0] == F[k]
    {
      FillNevilleRow(valueToApprox, xs, table[i - 1], table[i], i, X, F);
      i := i + 1;
    }
    assert forall k, m :: 0 <= m <= k < size ==> table[k][m] == table[k][..][m];
    forall k, j | 0 <= j <= k < size && valueToApprox == X[k]
      ensures table[k][j] == F[k]
    {
      NevilleReproducesSample(X, F, k, j, k);
    }
    if size >= 1 {
      NevilleCorner(valueToApprox, X, F);
    }
    return Ok(table);
  }
}
