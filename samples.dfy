/** Sample sets shared by the interpolation routines: paired x values and
    function values, and Go slices viewed as a backing array plus a length. */
module Samples {

  /** The only failure the interpolation routines report. */
  datatype InterpolationError = DimensionMismatch

  /** No two x values coincide, so no divided difference divides by zero. */
  ghost predicate Distinct(xs: seq<real>)
  {
    forall i, j :: 0 <= i < j < |xs| ==> xs[i] != xs[j]
  }

  /** The x values are strictly increasing. */
  ghost predicate Increasing(xs: seq<real>)
  {
    forall i, j :: 0 <= i < j < |xs| ==> xs[i] < xs[j]
  }

  /** The quotient every divided-difference recurrence takes: the change
      between two values over the distance between their two nodes. */
  function Slope(upper: real, lower: real, hi: real, lo: real): real
    requires hi != lo
  {
    (upper - lower) / (hi - lo)
  }

  /** A Go slice `data[:len]`: it shares `data` with every other slice of it. */
  datatype Slice = Slice(data: array<real>, len: nat)
  {
    ghost predicate Valid()
    {
      len <= data.Length
    }

    /** The values the slice shows. */
    function Elements(): (s: seq<real>)
      reads data
      requires Valid()
      ensures |s| == len
      ensures forall k :: 0 <= k < len ==> s[k] == data[k]
    {
      data[..len]
    }
  }
}
