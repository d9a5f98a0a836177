/** Hermite interpolation by divided differences over doubled nodes
    (numericalMethods/interpolation.go, `Hermite`). Each sample `x(i)` appears
    twice, as nodes `2i` and `2i + 1`; the first-order entry between the two
    copies is the supplied derivative instead of a quotient. */
module Hermite {
  import opened Wrappers
  import opened Samples
  import opened Tables
  import opened NewtonForm

  /** Every entry twice, in order. Applied to the x values it gives the
      doubled node list. */
  ghost function Doubled(s: seq<real>): (d: seq<real>)
    ensures |d| == 2 * |s|
    decreases |s|
  {
    if s == [] then [] else Doubled(s[..|s| - 1]) + [s[|s| - 1], s[|s| - 1]]
  }

  /** Entry `k` of the doubled list is entry `k / 2` of the original. */
  lemma {:induction false} DoubledAt(s: seq<real>, k: nat)
    requires k < 2 * |s|
    ensures Doubled(s)[k] == s[k / 2]
    decreases |s|
  {
    var last := |s| - 1;
    if k < 2 * last {
      DoubledAt(s[..last], k);
    }
  }

  /** Only the two copies of one sample coincide: two nodes are equal just
      when they are nodes `2i` and `2i + 1`. */
  ghost predicate PairedNodes(z: seq<real>)
  {
    forall a, b :: 0 <= a < b < |z| && z[a] == z[b] ==> a % 2 == 0 && b == a + 1
  }

  /** Doubling distinct samples gives paired nodes. */
  lemma DoubledPaired(xs: seq<real>)
    requires Distinct(xs)
    ensures PairedNodes(Doubled(xs))
  {
    var z := Doubled(xs);
    forall a, b | 0 <= a < b < |z| && z[a] == z[b]
      ensures a % 2 == 0 && b == a + 1
    {
      DoubledAt(xs, a);
      DoubledAt(xs, b);
    }
  }

  /** Entry `[k][j]` of the Hermite table over the doubled nodes `z`, the
      doubled values `zf` and the doubled derivatives `zd`. The divisor of
      each quotient pairs copies of two different samples: for order 2 and up
      node `k - j` comes from an earlier sample than node `k`, and for order 1
      an even row pairs a node with the last copy of the previous sample. */
  ghost function HermiteEntry(z: seq<real>, zf: seq<real>, zd: seq<real>, k: nat, j: nat): real
    requires |z| == |zf| == |zd| && PairedNodes(z) && j <= k < |z|
    decreases j
  {
    if j == 0 then zf[k]
    else if j == 1 && k % 2 == 1 then zd[k]
    else Slope(HermiteEntry(z, zf, zd, k, j - 1), HermiteEntry(z, zf, zd, k - 1, j - 1), z[k], z[k - j])
  }

  /** Row `k` of the Hermite table. */
  ghost function HermiteRow(z: seq<real>, zf: seq<real>, zd: seq<real>, k: nat): (row: seq<real>)
    requires |z| == |zf| == |zd| && PairedNodes(z) && k < |z|
    ensures |row| == k + 1
  {
    seq(k + 1, j requires 0 <= j <= k => HermiteEntry(z, zf, zd, k, j))
  }

  /** Every divisor of the table is nonzero: the order-1 quotient of an even
      row and the order-2-and-up recurrence each divide by a difference of
      two distinct samples. */
  lemma HermiteDivisorNonzero(xs: seq<real>, k: nat, j: nat)
    requires Distinct(xs) && 1 <= j <= k < 2 * |xs|
    requires j >= 2 || k % 2 == 0
    ensures Doubled(xs)[k] - Doubled(xs)[k - j] != 0.0
  {
    DoubledPaired(xs);
  }

  /** One quotient of the table, stated for values already known to be the
      two lower-order entries it combines. */
  lemma HermiteStep(z: seq<real>, zf: seq<real>, zd: seq<real>, k: nat, j: nat, upper: real, lower: real)
    requires |z| == |zf| == |zd| && PairedNodes(z) && 1 <= j <= k < |z|
    requires j >= 2 || k % 2 == 0
    requires upper == HermiteEntry(z, zf, zd, k, j - 1)
    requires lower == HermiteEntry(z, zf, zd, k - 1, j - 1)
    ensures z[k] != z[k - j]
    ensures Slope(upper, lower, z[k], z[k - j]) == HermiteEntry(z, zf, zd, k, j)
  {
  }

  /** The whole Hermite table, row by row. */
  ghost function HermiteTable(z: seq<real>, zf: seq<real>, zd: seq<real>): (t: seq<seq<real>>)
    requires |z| == |zf| == |zd| && PairedNodes(z)
    ensures Triangle(z, t)
    ensures forall k, j :: 0 <= j <= k < |z| ==> t[k][j] == HermiteEntry(z, zf, zd, k, j)
  {
    seq(|z|, k requires 0 <= k < |z| => HermiteRow(z, zf, zd, k))
  }

  /** The Hermite coefficients: the diagonal of the table. */
  ghost function HermiteCoefficients(z: seq<real>, zf: seq<real>, zd: seq<real>): (cs: seq<real>)
    requires |z| == |zf| == |zd| && PairedNodes(z)
    ensures |cs| == |z|
    ensures forall k :: 0 <= k < |z| ==> cs[k] == HermiteEntry(z, zf, zd, k, k)
  {
    seq(|z|, k requires 0 <= k < |z| => HermiteEntry(z, zf, zd, k, k))
  }

  /** The two copies of sample `i` carry its value. */
  lemma {:induction false} DoubledPair(s: seq<real>, i: nat)
    requires i < |s|
    ensures Doubled(s)[2 * i] == s[i] && Doubled(s)[2 * i + 1] == s[i]
    decreases |s|
  {
    var last := |s| - 1;
    if i < last {
      DoubledPair(s[..last], i);
    }
  }

  /** One entry of the table meets the multiplied-out recurrence. */
  lemma HermiteRecurrence(z: seq<real>, zf: seq<real>, zd: seq<real>, k: nat, j: nat)
    requires |z| == |zf| == |zd| && PairedNodes(z) && 1 <= j <= k < |z|
    requires j == 1 && k % 2 == 1 ==> z[k] == z[k - 1] && zf[k] == zf[k - 1]
    ensures RecurrenceAt(z, HermiteTable(z, zf, zd), k, j)
  {
    var t := HermiteTable(z, zf, zd);
    var upper, lower := t[k][j - 1], t[k - 1][j - 1];
    assert upper == HermiteEntry(z, zf, zd, k, j - 1) && lower == HermiteEntry(z, zf, zd, k - 1, j - 1);
    if j >= 2 || k % 2 == 0 {
      HermiteStep(z, zf, zd, k, j, upper, lower);
      QuotientAlgebra(upper, lower, z[k], z[k - j]);
    }
  }

  /** Over the doubled nodes, the Hermite table satisfies the
      divided-difference recurrence in its multiplied-out form: the
      quotients by construction, and the supplied derivatives because both
      sides vanish between the two copies of a sample. */
  lemma HermiteTableIsDivided(xs: seq<real>, fs: seq<real>, dfs: seq<real>)
    requires |xs| == |fs| == |dfs| && Distinct(xs)
    ensures PairedNodes(Doubled(xs))
    ensures DividedTable(Doubled(xs), HermiteTable(Doubled(xs), Doubled(fs), Doubled(dfs)))
  {
    DoubledPaired(xs);
    var z, zf, zd := Doubled(xs), Doubled(fs), Doubled(dfs);
    forall k, j | 1 <= j <= k < |z|
      ensures RecurrenceAt(z, HermiteTable(z, zf, zd), k, j)
    {
      if j == 1 && k % 2 == 1 {
        DoubledPair(xs, k / 2);
        DoubledPair(fs, k / 2);
      }
      HermiteRecurrence(z, zf, zd, k, j);
    }
  }

  /** The Hermite coefficients are the diagonal Newton's form reads. */
  lemma HermiteDiagonal(z: seq<real>, zf: seq<real>, zd: seq<real>)
    requires |z| == |zf| == |zd| && PairedNodes(z)
    ensures Coefficients(z, HermiteTable(z, zf, zd)) == HermiteCoefficients(z, zf, zd)
  {
  }

  /** The property Hermite interpolation is named for: Newton's form over the
      doubled nodes with the Hermite coefficients takes the value `fs[i]` at
      every sample `xs[i]`, and its derivative there is `dfs[i]`. */
  lemma HermiteInterpolates(xs: seq<real>, fs: seq<real>, dfs: seq<real>, i: nat)
    requires |xs| == |fs| == |dfs| && Distinct(xs) && i < |xs|
    ensures PairedNodes(Doubled(xs))
    ensures NewtonEval(Doubled(xs), HermiteCoefficients(Doubled(xs), Doubled(fs), Doubled(dfs)), xs[i]) == fs[i]
    ensures NewtonSlope(Doubled(xs), HermiteCoefficients(Doubled(xs), Doubled(fs), Doubled(dfs)), xs[i]) == dfs[i]
  {
    HermiteTableIsDivided(xs, fs, dfs);
    HermiteSeeds(xs, fs, dfs, i);
    DoubledPair(xs, i);
    var z, zf, zd := Doubled(xs), Doubled(fs), Doubled(dfs);
    HermiteDiagonal(z, zf, zd);
    NewtonInterpolates(z, HermiteTable(z, zf, zd), 2 * i);
    NewtonSlopeAtRepeat(z, HermiteTable(z, zf, zd), 2 * i);
  }

  /** How the table is seeded: both rows of sample `i` start with `f(x(i))`,
      the odd row's order-1 entry is the supplied derivative, and the even
      row's order-1 entry (after the first sample) is the slope between
      samples `i - 1` and `i`. */
  lemma HermiteSeeds(xs: seq<real>, fs: seq<real>, dfs: seq<real>, i: nat)
    requires |xs| == |fs| == |dfs| && Distinct(xs) && i < |xs|
    ensures PairedNodes(Doubled(xs))
    ensures HermiteEntry(Doubled(xs), Doubled(fs), Doubled(dfs), 2 * i, 0) == fs[i]
    ensures HermiteEntry(Doubled(xs), Doubled(fs), Doubled(dfs), 2 * i + 1, 0) == fs[i]
    ensures HermiteEntry(Doubled(xs), Doubled(fs), Doubled(dfs), 2 * i + 1, 1) == dfs[i]
    ensures i >= 1 ==> xs[i] != xs[i - 1]
    ensures i >= 1 ==>
      HermiteEntry(Doubled(xs), Doubled(fs), Doubled(dfs), 2 * i, 1) == Slope(fs[i], fs[i - 1], xs[i], xs[i - 1])
  {
    DoubledPaired(xs);
    DoubledAt(fs, 2 * i);
    DoubledAt(fs, 2 * i + 1);
    DoubledAt(dfs, 2 * i + 1);
    if i >= 1 {
      DoubledAt(fs, 2 * i - 1);
      DoubledAt(xs, 2 * i);
      DoubledAt(xs, 2 * i - 1);
    }
  }

  /** The quotient of two points of the line `a + c x` is its slope. */
  lemma SlopeOfLine(a: real, c: real, p: real, q: real)
    requires p != q
    ensures Slope(a + c * p, a + c * q, p, q) == c
  {
    assert (a + c * p) - (a + c * q) == (p - q) * c;
  }

  /** Samples of a straight line `a + c x` with its slope `c` as every
      derivative: all first-order entries are `c`. */
  lemma HermiteFirstOrderOnLines(xs: seq<real>, fs: seq<real>, dfs: seq<real>, a: real, c: real, k: nat)
    requires |xs| == |fs| == |dfs| && Distinct(xs) && 1 <= k < 2 * |xs|
    requires forall i :: 0 <= i < |xs| ==> fs[i] == a + c * xs[i] && dfs[i] == c
    ensures PairedNodes(Doubled(xs))
    ensures HermiteEntry(Doubled(xs), Doubled(fs), Doubled(dfs), k, 1) == c
  {
    DoubledPaired(xs);
    var z, zf, zd := Doubled(xs), Doubled(fs), Doubled(dfs);
    if k % 2 == 1 {
      DoubledAt(dfs, k);
    } else {
      var p, q := k / 2, (k - 1) / 2;
      DoubledAt(xs, k);
      DoubledAt(xs, k - 1);
      DoubledAt(fs, k);
      DoubledAt(fs, k - 1);
      assert zf[k] == a + c * z[k] && zf[k - 1] == a + c * z[k - 1] by {
        assert z[k] == xs[p] && zf[k] == fs[p] && z[k - 1] == xs[q] && zf[k - 1] == fs[q];
      }
      HermiteStep(z, zf, zd, k, 1, zf[k], zf[k - 1]);
      SlopeOfLine(a, c, z[k], z[k - 1]);
    }
  }

  /** When every first-order entry of the table is the same value, every
      entry of order 2 and up vanishes. */
  lemma {:induction false} HigherOrdersVanish(z: seq<real>, zf: seq<real>, zd: seq<real>, c: real, k: nat, j: nat)
    requires |z| == |zf| == |zd| && PairedNodes(z) && 2 <= j <= k < |z|
    requires forall m :: 1 <= m < |z| ==> HermiteEntry(z, zf, zd, m, 1) == c
    ensures HermiteEntry(z, zf, zd, k, j) == 0.0
    decreases j
  {
    var same := c;
    if j > 2 {
      HigherOrdersVanish(z, zf, zd, c, k, j - 1);
      HigherOrdersVanish(z, zf, zd, c, k - 1, j - 1);
      same := 0.0;
    }
    HermiteStep(z, zf, zd, k, j, same, same);
  }

  /** Samples of a straight line with its slope as every derivative: every
      entry of order 2 and up vanishes, so the coefficients are
      `[f(x0), c, 0, ..., 0]`. */
  lemma HermiteExactOnLines(xs: seq<real>, fs: seq<real>, dfs: seq<real>, a: real, c: real, k: nat, j: nat)
    requires |xs| == |fs| == |dfs| && Distinct(xs) && 2 <= j <= k < 2 * |xs|
    requires forall i :: 0 <= i < |xs| ==> fs[i] == a + c * xs[i] && dfs[i] == c
    ensures PairedNodes(Doubled(xs))
    ensures HermiteEntry(Doubled(xs), Doubled(fs), Doubled(dfs), k, j) == 0.0
  {
    DoubledPaired(xs);
    var z, zf, zd := Doubled(xs), Doubled(fs), Doubled(dfs);
    forall m | 1 <= m < |z|
      ensures HermiteEntry(z, zf, zd, m, 1) == c
    {
      HermiteFirstOrderOnLines(xs, fs, dfs, a, c, m);
    }
    HigherOrdersVanish(z, zf, zd, c, k, j);
  }

  /** Lists every sample's x value twice, as nodes `2i` and `2i + 1`. */
  method DoubleNodes(xs: array<real>, ghost X: seq<real>) returns (valueDoubleSet: array<real>)
    requires xs[..] == X
    ensures fresh(valueDoubleSet) && valueDoubleSet[..] == Doubled(X)
  {
    valueDoubleSet := new real[2 * xs.Length];
    for i := 0 to xs.Length
      invariant forall k :: 0 <= k < 2 * i ==> valueDoubleSet[k] == Doubled(X)[k]
    {
      DoubledAt(X, 2 * i);
      DoubledAt(X, 2 * i + 1);
      valueDoubleSet[2 * i] := xs[i];
      valueDoubleSet[2 * i + 1] := xs[i];
    }
  }

  /** `row` is row `k` of the table with its entries of order 0 and 1 in
      place. */
  ghost predicate Seeded(row: array<real>, z: seq<real>, zf: seq<real>, zd: seq<real>, k: nat)
    reads row
    requires |z| == |zf| == |zd| && PairedNodes(z) && k < |z|
  {
    row.Length == k + 1 && row[0] == zf[k] && (k >= 1 ==> row[1] == HermiteEntry(z, zf, zd, k, 1))
  }

  /** Allocates row `k` of the table, of length `k + 1`, and seeds its
      entries of order 0 and 1: the sample value, then the supplied derivative
      in the second row of a sample, or the quotient with the last row of the
      previous sample, whose seed is `previous`, in the first. */
  method NewHermiteRow(fs: array<real>, dfs: array<real>, z: array<real>, k: nat, previous: real,
                       ghost Z: seq<real>, ghost F: seq<real>, ghost D: seq<real>)
    returns (row: array<real>)
    requires fs[..] == F && dfs[..] == D && |F| == |D| && z[..] == Z
    requires |Z| == 2 * |F| && PairedNodes(Z) && k < |Z|
    requires k >= 1 ==> previous == Doubled(F)[k - 1]
    ensures fresh(row) && Seeded(row, Z, Doubled(F), Doubled(D), k)
  {
    DoubledAt(F, k);
    row := new real[k + 1];
    row[0] := fs[k / 2];
    if k % 2 == 1 {
      DoubledAt(D, k);
      row[1] := dfs[k / 2];
    } else if k > 0 {
      HermiteStep(Z, Doubled(F), Doubled(D), k, 1, row[0], previous);
      row[1] := Slope(row[0], previous, z[k], z[k - 1]);
    }
  }

  /** Allocates the jagged table of `2n` rows, row `k` of length `k + 1`,
      with the entries of order 0 and 1 of every row seeded. */
  method NewHermiteTable(fs: array<real>, dfs: array<real>, z: array<real>,
                         ghost Z: seq<real>, ghost F: seq<real>, ghost D: seq<real>)
    returns (tableValues: array<array<real>>)
    requires fs[..] == F && dfs[..] == D && |F| == |D| && z[..] == Z
    requires |Z| == 2 * |F| && PairedNodes(Z)
    ensures fresh(tableValues) && Triangular(tableValues, 2 * |F|) && SeparateRows(tableValues)
    ensures forall k :: 0 <= k < 2 * |F| ==>
      fresh(tableValues[k]) && Seeded(tableValues[k], Z, Doubled(F), Doubled(D), k)
  {
    var size := 2 * fs.Length;
    var empty := new real[0];
    tableValues := new array<real>[size](_ => empty);
    for k := 0 to size
      invariant forall m :: 0 <= m < k ==> fresh(tableValues[m]) && Seeded(tableValues[m], Z, Doubled(F), Doubled(D), m)
      invariant forall a, b :: 0 <= a < b < k ==> tableValues[a] != tableValues[b]
    {
      var previous := if k == 0 then 0.0 else tableValues[k - 1][0];
      var row := NewHermiteRow(fs, dfs, z, k, previous, Z, F, D);
      tableValues[k] := row;
    }
  }

  /** The inner loop of the order-2-and-up pass: fills orders 2 to `i` of
      row `i` from row `i - 1`, leaving the seeded entries 0 and 1 alone. */
  method FillHermiteRow(z: array<real>, previousRow: array<real>, row: array<real>, i: nat,
                        ghost Z: seq<real>, ghost ZF: seq<real>, ghost ZD: seq<real>)
    requires |Z| == |ZF| == |ZD| && PairedNodes(Z) && 2 <= i < |Z| && z[..] == Z
    requires Seeded(row, Z, ZF, ZD, i)
    requires previousRow[..] == HermiteRow(Z, ZF, ZD, i - 1)
    requires row != previousRow && row != z
    modifies row
    ensures row[..] == HermiteRow(Z, ZF, ZD, i)
  {
    assert row[..2] == HermiteRow(Z, ZF, ZD, i)[..2];
    for j := 2 to i + 1
      invariant row[..j] == HermiteRow(Z, ZF, ZD, i)[..j]
    {
      var upper, lower := row[j - 1], previousRow[j - 1];
      assert upper == HermiteRow(Z, ZF, ZD, i)[j - 1];
      assert lower == HermiteRow(Z, ZF, ZD, i - 1)[j - 1];
      HermiteStep(Z, ZF, ZD, i, j, upper, lower);
      row[j] := Slope(upper, lower, z[i], z[i - j]);
      assert row[..j + 1] == row[..j] + [HermiteRow(Z, ZF, ZD, i)[j]];
    }
    assert row[..] == row[..i + 1];
  }

  /** The order-2-and-up pass: completes every row of a seeded table. */
  method FillHermiteTable(z: array<real>, tableValues: array<array<real>>,
                          ghost Z: seq<real>, ghost ZF: seq<real>, ghost ZD: seq<real>)
    requires |Z| == |ZF| == |ZD| && 2 <= |Z| && PairedNodes(Z) && z[..] == Z
    requires tableValues.Length == |Z| && SeparateRows(tableValues)
    requires forall k :: 0 <= k < |Z| ==> tableValues[k] != z && Seeded(tableValues[k], Z, ZF, ZD, k)
    modifies tableValues[..]
    ensures forall k :: 0 <= k < |Z| ==> tableValues[k][..] == HermiteRow(Z, ZF, ZD, k)
  {
    assert tableValues[0][..] == HermiteRow(Z, ZF, ZD, 0);
    assert tableValues[1][..] == HermiteRow(Z, ZF, ZD, 1);
    for i := 2 to z.Length
      invariant forall k :: 0 <= k < i ==> tableValues[k][..] == HermiteRow(Z, ZF, ZD, k)
      invariant forall k :: i <= k < |Z| ==> Seeded(tableValues[k], Z, ZF, ZD, k)
    {
      FillHermiteRow(z, tableValues[i - 1], tableValues[i], i, Z, ZF, ZD);
    }
  }

  /** Reads the coefficients off the diagonal of the completed table. */
  method Diagonal(tableValues: array<array<real>>, ghost Z: seq<real>, ghost ZF: seq<real>, ghost ZD: seq<real>)
    returns (solutionSet: array<real>)
    requires |Z| == |ZF| == |ZD| && PairedNodes(Z) && tableValues.Length == |Z|
    requires forall k :: 0 <= k < |Z| ==> tableValues[k][..] == HermiteRow(Z, ZF, ZD, k)
    ensures fresh(solutionSet) && solutionSet.Length == |Z|
    ensures forall k :: 0 <= k < |Z| ==> solutionSet[k] == HermiteEntry(Z, ZF, ZD, k, k)
  {
    solutionSet := new real[tableValues.Length];
    for i := 0 to tableValues.Length
      invariant forall k :: 0 <= k < i ==> solutionSet[k] == HermiteEntry(Z, ZF, ZD, k, k)
    {
      assert tableValues[i][i] == tableValues[i][..][i];
      solutionSet[i] := tableValues[i][i];
    }
  }

  /** Returns the `2n` Hermite coefficients, the diagonal of the doubled-node
      table, which match a value and a derivative per sample. The first two
      are `f(x0)` and `f'(x0)`; one sample gives exactly `[f(x0), f'(x0)]`. A
      mismatch among the three lengths fails before anything is allocated. */
  method Hermite(xs: array<real>, fs: array<real>, dfs: array<real>)
    returns (r: Result<array<real>, InterpolationError>)
    requires xs.Length == fs.Length == dfs.Length ==> 1 <= xs.Length && Distinct(xs[..])
    ensures r.Err? <==> !(xs.Length == fs.Length == dfs.Length)
    ensures r.Err? ==> r.error == DimensionMismatch
    ensures r.Ok? ==> fresh(r.value)
    ensures r.Ok? ==> PairedNodes(Doubled(xs[..])) && r.value.Length == 2 * xs.Length
    ensures r.Ok? ==> forall k :: 0 <= k < 2 * xs.Length ==>
      r.value[k] == HermiteEntry(Doubled(xs[..]), Doubled(fs[..]), Doubled(dfs[..]), k, k)
    ensures r.Ok? ==> r.value[..] == HermiteCoefficients(Doubled(xs[..]), Doubled(fs[..]), Doubled(dfs[..]))
    ensures r.Ok? ==> r.value[0] == fs[0] && r.value[1] == dfs[0]
    ensures r.Ok? && xs.Length == 1 ==> r.value[..] == [fs[0], dfs[0]]
  {
    var size := xs.Length;
    if size != fs.Length || size != dfs.Length {
      return Err(DimensionMismatch);
    }
    ghost var X, F, D := xs[..], fs[..], dfs[..];
    ghost var Z, ZF, ZD := Doubled(X), Doubled(F), Doubled(D);
    DoubledPaired(X);
    var valueDoubleSet := DoubleNodes(xs, X);
    var tableValues := NewHermiteTable(fs, dfs, valueDoubleSet, Z, F, D);
    FillHermiteTable(valueDoubleSet, tableValues, Z, ZF, ZD);
    var solutionSet := Diagonal(tableValues, Z, ZF, ZD);
    DoubledAt(F, 0);
    DoubledAt(D, 1);
    return Ok(solutionSet);
  }
}
