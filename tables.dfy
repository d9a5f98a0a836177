/** Jagged triangular tables, Go's `[][]float64` with row `i` of length `i + 1`,
    as built by the divided-difference and Neville routines. */
module Tables {

  /** `t` has `n` rows and row `i` holds `i + 1` entries. */
  ghost predicate Triangular(t: array<array<real>>, n: nat)
    reads t
  {
    t.Length == n && forall i :: 0 <= i < n ==> t[i].Length == i + 1
  }

  /** No two rows of `t` share their storage. */
  ghost predicate SeparateRows(t: array<array<real>>)
    reads t
  {
    forall a, b :: 0 <= a < b < t.Length ==> t[a] != t[b]
  }

  /** Allocates one fresh row per sample, row `i` of length `i + 1`, and
      seeds entry `[i][0]` with the sample value `fs[i]`. */
  method NewSeededTable(fs: array<real>) returns (table: array<array<real>>)
    ensures fresh(table) && Triangular(table, fs.Length) && SeparateRows(table)
    ensures forall k :: 0 <= k < fs.Length ==> fresh(table[k]) && table[k][0] == fs[k]
  {
    var size := fs.Length;
    var empty := new real[0];
    table := new array<real>[size](_ => empty);
    for i := 0 to size
      invariant forall k :: 0 <= k < i ==> fresh(table[k]) && table[k].Length == k + 1 && table[k][0] == fs[k]
      invariant forall a, b :: 0 <= a < b < i ==> table[a] != table[b]
    {
      var row := new real[i + 1];
      row[0] := fs[i];
      table[i] := row;
    }
  }
}
