/** Newton's divided differences (numericalMethods/interpolation.go, the first
    two routines): the in-place forward scheme and the full triangular table. */
module DividedDifferences {
  import opened Wrappers
  import opened Samples
  import opened Tables
  import opened NewtonForm

  /** The divided difference of order `j` anchored at sample `i`, that is
      f[x(i-j), ..., x(i)], by its defining recurrence. */
  ghost function DividedDifference(xs: seq<real>, fs: seq<real>, i: nat, j: nat): real
    requires |xs| == |fs| && Distinct(xs) && j <= i < |xs|
    decreases j
  {
    if j == 0 then fs[i]
    else Slope(DividedDifference(xs, fs, i, j - 1), DividedDifference(xs, fs, i - 1, j - 1), xs[i], xs[i - j])
  }

  /** One step of the recurrence, stated for values already known to be the
      two lower-order differences it combines. */
  lemma DividedDifferenceStep(xs: seq<real>, fs: seq<real>, i: nat, j: nat, upper: real, lower: real)
    requires |xs| == |fs| && Distinct(xs) && 1 <= j <= i < |xs|
    requires upper == DividedDifference(xs, fs, i, j - 1)
    requires lower == DividedDifference(xs, fs, i - 1, j - 1)
    ensures xs[i] - xs[i - j] != 0.0
    ensures Slope(upper, lower, xs[i], xs[i - j]) == DividedDifference(xs, fs, i, j)
  {
  }

  /** The coefficients of Newton's form of the interpolating polynomial:
      f[x0], f[x0, x1], ..., f[x0, ..., x(n-1)]. */
  ghost function NewtonCoefficients(xs: seq<real>, fs: seq<real>): (cs: seq<real>)
    requires |xs| == |fs| && Distinct(xs)
    ensures |cs| == |xs|
    ensures forall k :: 0 <= k < |xs| ==> cs[k] == DividedDifference(xs, fs, k, k)
  {
    seq(|xs|, k requires 0 <= k < |xs| => DividedDifference(xs, fs, k, k))
  }

  /** The full divided-difference table, row by row. */
  ghost function DividedDifferenceTable(xs: seq<real>, fs: seq<real>): (t: seq<seq<real>>)
    requires |xs| == |fs| && Distinct(xs)
    ensures Triangle(xs, t)
    ensures forall i, j :: 0 <= j <= i < |xs| ==> t[i][j] == DividedDifference(xs, fs, i, j)
  {
    seq(|xs|, i requires 0 <= i < |xs| => DividedDifferenceRow(xs, fs, i))
  }

  /** The table satisfies the recurrence in its multiplied-out form. */
  lemma DividedDifferenceTableIsDivided(xs: seq<real>, fs: seq<real>)
    requires |xs| == |fs| && Distinct(xs)
    ensures DividedTable(xs, DividedDifferenceTable(xs, fs))
  {
    var t := DividedDifferenceTable(xs, fs);
    forall k, j | 1 <= j <= k < |t|
      ensures RecurrenceAt(xs, t, k, j)
    {
      DividedDifferenceStep(xs, fs, k, j, t[k][j - 1], t[k - 1][j - 1]);
      QuotientAlgebra(t[k][j - 1], t[k - 1][j - 1], xs[k], xs[k - j]);
    }
  }

  /** The interpolation property the coefficients exist for: Newton's form
      with them takes the value `fs[m]` at every sample `xs[m]`. */
  lemma NewtonCoefficientsInterpolate(xs: seq<real>, fs: seq<real>, m: nat)
    requires |xs| == |fs| && Distinct(xs) && m < |xs|
    ensures NewtonEval(xs, NewtonCoefficients(xs, fs), xs[m]) == fs[m]
  {
    var t := DividedDifferenceTable(xs, fs);
    DividedDifferenceTableIsDivided(xs, fs);
    NewtonInterpolates(xs, t, m);
    assert Coefficients(xs, t) == NewtonCoefficients(xs, fs);
  }

  /** The contents of the forward scheme's array while order `i` is being
      computed and entries below `j` have been updated: entries below `i` are
      finished diagonal values, entries `i .. j - 1` have order `i`, the rest
      still have order `i - 1`. */
  ghost function ForwardStage(xs: seq<real>, fs: seq<real>, i: nat, j: nat): (s: seq<real>)
    requires |xs| == |fs| && Distinct(xs) && 1 <= i <= j <= |xs|
    ensures |s| == |xs|
  {
    seq(|xs|, k requires 0 <= k < |xs| =>
      DividedDifference(xs, fs, k, if k < i then k else if k < j then i else i - 1))
  }

  /** Updating entry `j` moves the stage one entry on. */
  lemma ForwardStageStep(xs: seq<real>, fs: seq<real>, i: nat, j: nat)
    requires |xs| == |fs| && Distinct(xs) && 1 <= i <= j < |xs|
    ensures ForwardStage(xs, fs, i, j)[j] == DividedDifference(xs, fs, j, i - 1)
    ensures ForwardStage(xs, fs, i, j)[j := DividedDifference(xs, fs, j, i)] == ForwardStage(xs, fs, i, j + 1)
  {
  }

  /** A finished order is the starting point of the next one. */
  lemma ForwardStageNextOrder(xs: seq<real>, fs: seq<real>, i: nat)
    requires |xs| == |fs| && Distinct(xs) && 1 <= i < |xs|
    ensures ForwardStage(xs, fs, i, |xs|) == ForwardStage(xs, fs, i + 1, i + 1)
    ensures ForwardStage(xs, fs, i + 1, i + 1)[i] == DividedDifference(xs, fs, i, i)
  {
  }

  /** Before the first order every entry is the sample value itself. */
  lemma ForwardStageStart(xs: seq<real>, fs: seq<real>)
    requires |xs| == |fs| && Distinct(xs) && 1 <= |xs|
    ensures ForwardStage(xs, fs, 1, 1) == fs
  {
    assert forall k :: 0 <= k < |xs| ==> ForwardStage(xs, fs, 1, 1)[k] == DividedDifference(xs, fs, k, 0);
  }

  /** One pass of the forward scheme, the inner loop of
      `NewtonForwardDividedDifference`: raises entries `i ..` from order
      `i - 1` to order `i`, carrying in `previousValue` what entry `j - 1`
      held before this pass overwrote it. */
  method ForwardOrder(xs: array<real>, fs: array<real>, i: nat, ghost X: seq<real>, ghost F: seq<real>)
    requires xs != fs && xs[..] == X
    requires |X| == |F| == fs.Length && Distinct(X) && 1 <= i < |X|
    requires fs[..] == ForwardStage(X, F, i, i)
    modifies fs
    ensures fs[..] == ForwardStage(X, F, i, |X|)
  {
    var size := fs.Length;
    var previousValue := fs[i - 1];
    var tempValue := 0.0;
    var j := i;
    while j < size
      invariant i <= j <= size
      invariant previousValue == DividedDifference(X, F, j - 1, i - 1)
      invariant fs[..] == ForwardStage(X, F, i, j)
    {
      ForwardStageStep(X, F, i, j);
      tempValue := fs[j];
      DividedDifferenceStep(X, F, j, i, tempValue, previousValue);
      ghost var before := fs[..];
      fs[j] := (tempValue - previousValue) / (xs[j] - xs[j - i]);
      assert fs[..] == before[j := DividedDifference(X, F, j, i)];
      previousValue := tempValue;
      j := j + 1;
    }
  }

  /** Overwrites `fs` in place, order by order; afterwards entry `k` is the
      `k`-th divided difference anchored at the first sample, entry 0 is
      untouched, and the same array is returned. A length mismatch fails
      before anything is written. */
  method NewtonForwardDividedDifference(xs: array<real>, fs: array<real>)
    returns (r: Result<array<real>, InterpolationError>)
    requires xs != fs
    requires xs.Length == fs.Length ==> Distinct(xs[..])
    modifies fs
    ensures r.Err? <==> xs.Length != fs.Length
    ensures r.Err? ==> r.error == DimensionMismatch && fs[..] == old(fs[..])
    ensures r.Ok? ==> r.value == fs
    ensures r.Ok? ==> fs.Length > 0 ==> fs[0] == old(fs[0])
    ensures r.Ok? ==> forall k :: 0 <= k < fs.Length ==>
      fs[k] == DividedDifference(xs[..], old(fs[..]), k, k)
    ensures r.Ok? ==> fs[..] == NewtonCoefficients(xs[..], old(fs[..]))
  {
    var size := xs.Length;
    if size != fs.Length {
      return Err(DimensionMismatch);
    }
    if size == 0 {
      return Ok(fs);
    }
    ghost var X, F := xs[..], fs[..];
    ForwardStageStart(X, F);
    var i := 1;
    while i < size
      invariant 1 <= i <= size
      invariant fs[..] == ForwardStage(X, F, i, i)
    {
      ForwardOrder(xs, fs, i, X, F);
      ForwardStageNextOrder(X, F, i);
      i := i + 1;
    }
    assert forall k :: 0 <= k < size ==> fs[k] == ForwardStage(X, F, size, size)[k];
    assert fs[..] == NewtonCoefficients(X, F);
    return Ok(fs);
  }

  /** Row `i` of the divided-difference table: the differences of every
      order from 0 to `i` anchored at sample `i`. */
  ghost function DividedDifferenceRow(xs: seq<real>, fs: seq<real>, i: nat): (row: seq<real>)
    requires |xs| == |fs| && Distinct(xs) && i < |xs|
    ensures |row| == i + 1
  {
    seq(i + 1, j requires 0 <= j <= i => DividedDifference(xs, fs, i, j))
  }

  /** The inner loop of the table construction: fills orders 1 to `i` of
      row `i` from row `i - 1`, whose entries are already final. */
  method FillDividedDifferenceRow(xs: array<real>, previousRow: array<real>, row: array<real>, i: nat,
                                  ghost X: seq<real>, ghost F: seq<real>)
    requires |X| == |F| && Distinct(X) && 1 <= i < |X| && xs[..] == X
    requires row.Length == i + 1 && row[0] == F[i]
    requires previousRow[..] == DividedDifferenceRow(X, F, i - 1)
    requires row != previousRow && row != xs
    modifies row
    ensures row[..] == DividedDifferenceRow(X, F, i)
  {
    for j := 1 to i + 1
      invariant row[..j] == DividedDifferenceRow(X, F, i)[..j]
    {
      var upper, lower := row[j - 1], previousRow[j - 1];
      assert upper == DividedDifferenceRow(X, F, i)[j - 1];
      assert lower == DividedDifferenceRow(X, F, i - 1)[j - 1];
      DividedDifferenceStep(X, F, i, j, upper, lower);
      row[j] := (upper - lower) / (xs[i] - xs[i - j]);
      assert row[..j + 1] == row[..j] + [DividedDifferenceRow(X, F, i)[j]];
    }
    assert row[..] == row[..i + 1];
  }

  /** Builds the full triangular table: row `i` has `i + 1` entries, entry
      `[i][0]` is the sample value and entry `[i][j]` the order-`j` divided
      difference anchored at sample `i`; the inputs are only read. */
  method NewtonDividedDifference(xs: array<real>, fs: array<real>)
    returns (r: Result<array<array<real>>, InterpolationError>)
    requires xs.Length == fs.Length ==> Distinct(xs[..])
    ensures r.Err? <==> xs.Length != fs.Length
    ensures r.Err? ==> r.error == DimensionMismatch
    ensures r.Ok? ==> fresh(r.value) && Triangular(r.value, xs.Length) && SeparateRows(r.value)
    ensures r.Ok? ==> forall i :: 0 <= i < xs.Length ==> fresh(r.value[i])
    ensures r.Ok? ==> forall i :: 0 <= i < xs.Length ==> r.value[i][0] == fs[i]
    ensures r.Ok? ==> forall i, j :: 0 <= j <= i < xs.Length ==>
      r.value[i][j] == DividedDifference(xs[..], fs[..], i, j)
  {
    var size := xs.Length;
    if size != fs.Length {
      return Err(DimensionMismatch);
    }
    ghost var X, F := xs[..], fs[..];
    var table := NewSeededTable(fs);
    if size > 0 {
      assert table[0][..] == DividedDifferenceRow(X, F, 0);
    }
    var i := 1;
    while i < size
      invariant 1 <= i && (size == 0 || i <= size)
      invariant Triangular(table, size) && SeparateRows(table)
      invariant forall k :: 0 <= k < size ==> fresh(table[k])
      invariant forall k :: 0 <= k < i && k < size ==> table[k][..] == DividedDifferenceRow(X, F, k)
      invariant forall k :: i <= k < size ==> table[k][0] == F[k]
    {
      FillDividedDifferenceRow(xs, table[i - 1], table[i], i, X, F);
      i := i + 1;
    }
    assert forall k, m :: 0 <= m <= k < size ==> table[k][m] == table[k][..][m];
    return Ok(table);
  }
}
