/** Newton's form of an interpolating polynomial over a sequence of nodes,
    with its coefficients read off the diagonal of a triangular
    divided-difference table. Both facts the interpolation routines rest on
    are proved once here, for every table that satisfies the
    divided-difference recurrence:
    - the polynomial takes the tabulated value at every node;
    - where a node is repeated, its derivative takes the table's
      first-order entry there.

    Products of the polynomial's parts are written with `Times`, so the
    inductive lemmas match them as terms; the ring identities those lemmas
    need are proved on their own, in the small scalar lemmas named
    `...Algebra`. */
module NewtonForm {
  import opened Samples

  /** Multiplication of reals. */
  ghost function Times(p: real, q: real): real
  {
    p * q
  }

  /** `t` is triangular over the nodes `z`: row `k` holds orders `0 .. k`. */
  ghost predicate Triangle(z: seq<real>, t: seq<seq<real>>)
  {
    |t| == |z| && forall k :: 0 <= k < |t| ==> |t[k]| == k + 1
  }

  /** Entry `[k][j]` times the width of its window is the difference of its
      two lower-order neighbours. Multiplied out like this, the recurrence
      also holds across a repeated node, where both sides are zero. */
  ghost predicate RecurrenceAt(z: seq<real>, t: seq<seq<real>>, k: nat, j: nat)
    requires Triangle(z, t) && 1 <= j <= k < |t|
  {
    Times(z[k] - z[k - j], t[k][j]) == t[k][j - 1] - t[k - 1][j - 1]
  }

  /** `t` is a divided-difference table over `z`: every entry of order at
      least 1 satisfies the recurrence. */
  ghost predicate DividedTable(z: seq<real>, t: seq<seq<real>>)
  {
    Triangle(z, t) && forall k, j :: 1 <= j <= k < |t| ==> RecurrenceAt(z, t, k, j)
  }

  /** The coefficients of Newton's form: the table's diagonal. */
  ghost function Coefficients(z: seq<real>, t: seq<seq<real>>): (cs: seq<real>)
    requires Triangle(z, t)
    ensures |cs| == |z|
    ensures forall k :: 0 <= k < |z| ==> cs[k] == t[k][k]
  {
    seq(|t|, k requires 0 <= k < |t| => t[k][k])
  }

  /** A quotient times its divisor is the dividend: how a table built by
      division meets the multiplied-out recurrence. */
  lemma QuotientAlgebra(upper: real, lower: real, hi: real, lo: real)
    requires hi != lo
    ensures Times(hi - lo, Slope(upper, lower, hi, lo)) == upper - lower
  {
  }

  /** The factor `x - z[m]` that node `m` contributes to a node product. */
  ghost function Gap(z: seq<real>, m: nat, x: real): real
    requires m < |z|
  {
    x - z[m]
  }

  /** The product of `x - z[m]` over `a <= m < k`. */
  ghost function NodeProduct(z: seq<real>, a: nat, k: nat, x: real): real
    requires a <= k <= |z|
    decreases k
  {
    if k == a then 1.0 else Times(NodeProduct(z, a, k - 1, x), Gap(z, k - 1, x))
  }

  /** The derivative of `NodeProduct` in `x`, by the product rule. */
  ghost function NodeProductSlope(z: seq<real>, a: nat, k: nat, x: real): real
    requires a <= k <= |z|
    decreases k
  {
    if k == a then 0.0
    else Times(NodeProductSlope(z, a, k - 1, x), Gap(z, k - 1, x)) + NodeProduct(z, a, k - 1, x)
  }

  /** The Newton-form polynomial with coefficients `cs` over `nodes`: the sum
      of `cs[k]` times the product of `x - nodes[m]` over `m < k`. */
  ghost function NewtonEval(nodes: seq<real>, cs: seq<real>, x: real): real
    requires |cs| <= |nodes|
  {
    if cs == [] then 0.0
    else NewtonEval(nodes, cs[..|cs| - 1], x) + Times(cs[|cs| - 1], NodeProduct(nodes, 0, |cs| - 1, x))
  }

  /** The derivative of `NewtonEval` in `x`, term by term. */
  ghost function NewtonSlope(nodes: seq<real>, cs: seq<real>, x: real): real
    requires |cs| <= |nodes|
  {
    if cs == [] then 0.0
    else NewtonSlope(nodes, cs[..|cs| - 1], x) + Times(cs[|cs| - 1], NodeProductSlope(nodes, 0, |cs| - 1, x))
  }

  /** Newton's form over the nodes `a .. e - 1` alone, with the coefficients
      of that window, `t[k][k - a]`. */
  ghost function WindowForm(z: seq<real>, t: seq<seq<real>>, a: nat, e: nat, x: real): real
    requires Triangle(z, t) && a <= e <= |z|
    decreases e
  {
    if e == a then 0.0
    else WindowForm(z, t, a, e - 1, x) + Times(t[e - 1][e - 1 - a], NodeProduct(z, a, e - 1, x))
  }

  /** The derivative of `WindowForm` in `x`. */
  ghost function WindowSlope(z: seq<real>, t: seq<seq<real>>, a: nat, e: nat, x: real): real
    requires Triangle(z, t) && a <= e <= |z|
    decreases e
  {
    if e == a then 0.0
    else WindowSlope(z, t, a, e - 1, x) + Times(t[e - 1][e - 1 - a], NodeProductSlope(z, a, e - 1, x))
  }

  /** The full window from node 0 is Newton's form with the diagonal as
      coefficients. */
  lemma {:induction false} WindowFromStart(z: seq<real>, t: seq<seq<real>>, e: nat, x: real)
    requires Triangle(z, t) && e <= |z|
    ensures NewtonEval(z, Coefficients(z, t)[..e], x) == WindowForm(z, t, 0, e, x)
    ensures NewtonSlope(z, Coefficients(z, t)[..e], x) == WindowSlope(z, t, 0, e, x)
  {
    if e > 0 {
      WindowFromStart(z, t, e - 1, x);
      assert Coefficients(z, t)[..e][..e - 1] == Coefficients(z, t)[..e - 1];
    }
  }

  /** The ring identities behind one step of `NodeProductShift`. */
  lemma ShiftAlgebra(p: real, s: real, u: real, w: real)
    ensures Times(Times(u, p), w) == Times(u, Times(p, w))
    ensures Times(p + Times(u, s), w) + Times(u, p) == Times(p, w) + Times(u, Times(s, w) + p)
  {
  }

  /** The first factor of a node product can be taken out; its derivative
      follows the product rule. */
  lemma {:induction false} NodeProductShift(z: seq<real>, a: nat, k: nat, x: real)
    requires a < k <= |z|
    ensures NodeProduct(z, a, k, x) == Times(Gap(z, a, x), NodeProduct(z, a + 1, k, x))
    ensures NodeProductSlope(z, a, k, x) == NodeProduct(z, a + 1, k, x) + Times(Gap(z, a, x), NodeProductSlope(z, a + 1, k, x))
    decreases k
  {
    if k > a + 1 {
      NodeProductShift(z, a, k - 1, x);
      ShiftAlgebra(NodeProduct(z, a + 1, k - 1, x), NodeProductSlope(z, a + 1, k - 1, x), Gap(z, a, x), Gap(z, k - 1, x));
    }
  }

  /** A node product vanishes at each of its own nodes. */
  lemma {:induction false} NodeProductVanishes(z: seq<real>, a: nat, k: nat, m: nat)
    requires a <= m < k <= |z|
    ensures NodeProduct(z, a, k, z[m]) == 0.0
    decreases k
  {
    if k - 1 > m {
      NodeProductVanishes(z, a, k - 1, m);
    }
  }

  /** At a node that occurs twice in a row among its nodes, a node product
      has a double root: its derivative vanishes there too. */
  lemma {:induction false} NodeProductDoubleRoot(z: seq<real>, a: nat, k: nat, m: nat)
    requires a <= m && m + 1 < k <= |z| && z[m] == z[m + 1]
    ensures NodeProductSlope(z, a, k, z[m]) == 0.0
    decreases k
  {
    NodeProductVanishes(z, a, k - 1, m);
    if k - 1 > m + 1 {
      NodeProductDoubleRoot(z, a, k - 1, m);
    }
  }

  /** The ring identities behind one step of `WindowDifference`: `q` is the
      new top coefficient, with `(xe - xa) q = u - l`, and `ga`, `ge` are the
      gaps to the window's first and last node. */
  lemma DifferenceAlgebra(l: real, q: real, u: real, p: real, s: real, ga: real, ge: real, xa: real, xe: real)
    requires ga - ge == xe - xa && Times(xe - xa, q) == u - l
    ensures Times(l, p) + Times(q, Times(ga, p)) - Times(u, p) == Times(q, Times(p, ge))
    ensures Times(l, s) + Times(q, p + Times(ga, s)) - Times(u, s) == Times(q, Times(s, ge) + p)
  {
    assert q * (ga * p) == q * (ge * p) + (xe - xa) * q * p;
    assert q * (ga * s) == q * (ge * s) + (xe - xa) * q * s;
  }

  /** Dropping the first node of a window changes Newton's form by the
      window's top coefficient times the product over the remaining nodes,
      and its derivative by that coefficient times the product's
      derivative. */
  lemma {:induction false} WindowDifference(z: seq<real>, t: seq<seq<real>>, a: nat, e: nat, x: real)
    requires DividedTable(z, t) && a < e <= |z|
    ensures WindowForm(z, t, a, e, x) - WindowForm(z, t, a + 1, e, x) == Times(t[e - 1][e - 1 - a], NodeProduct(z, a + 1, e, x))
    ensures WindowSlope(z, t, a, e, x) - WindowSlope(z, t, a + 1, e, x) == Times(t[e - 1][e - 1 - a], NodeProductSlope(z, a + 1, e, x))
    decreases e
  {
    if e > a + 1 {
      WindowDifference(z, t, a, e - 1, x);
      NodeProductShift(z, a, e - 1, x);
      assert RecurrenceAt(z, t, e - 1, e - 1 - a);
      DifferenceAlgebra(t[e - 2][e - 2 - a], t[e - 1][e - 1 - a], t[e - 1][e - 2 - a],
                        NodeProduct(z, a + 1, e - 1, x), NodeProductSlope(z, a + 1, e - 1, x),
                        Gap(z, a, x), Gap(z, e - 1, x), z[a], z[e - 1]);
    }
  }

  /** A window's form takes the tabulated value at its first node. */
  lemma {:induction false} WindowAtStart(z: seq<real>, t: seq<seq<real>>, a: nat, e: nat)
    requires Triangle(z, t) && a < e <= |z|
    ensures WindowForm(z, t, a, e, z[a]) == t[a][0]
    decreases e
  {
    if e > a + 1 {
      WindowAtStart(z, t, a, e - 1);
      NodeProductVanishes(z, a, e - 1, a);
    }
  }

  /** A window's form takes the tabulated value at each of its nodes. */
  lemma {:induction false} WindowInterpolates(z: seq<real>, t: seq<seq<real>>, a: nat, e: nat, m: nat)
    requires DividedTable(z, t) && a <= m < e <= |z|
    ensures WindowForm(z, t, a, e, z[m]) == t[m][0]
    decreases m - a
  {
    if m == a {
      WindowAtStart(z, t, a, e);
    } else {
      WindowInterpolates(z, t, a + 1, e, m);
      WindowDifference(z, t, a, e, z[m]);
      NodeProductVanishes(z, a + 1, e, m);
    }
  }

  /** When a window starts with a repeated node, the derivative of its form
      there is the first-order entry of the repeat. */
  lemma {:induction false} WindowSlopeAtStart(z: seq<real>, t: seq<seq<real>>, a: nat, e: nat)
    requires Triangle(z, t) && a + 1 < e <= |z| && z[a] == z[a + 1]
    ensures WindowSlope(z, t, a, e, z[a]) == t[a + 1][1]
    decreases e
  {
    if e > a + 2 {
      WindowSlopeAtStart(z, t, a, e - 1);
      NodeProductDoubleRoot(z, a, e - 1, a);
    } else {
      assert NodeProductSlope(z, a, a + 1, z[a]) == 1.0;
      assert WindowSlope(z, t, a, a + 1, z[a]) == 0.0;
    }
  }

  /** At a node repeated inside a window, the derivative of the window's
      form is the first-order entry of the repeat. */
  lemma {:induction false} WindowSlopeAtRepeat(z: seq<real>, t: seq<seq<real>>, a: nat, e: nat, m: nat)
    requires DividedTable(z, t) && a <= m && m + 1 < e <= |z| && z[m] == z[m + 1]
    ensures WindowSlope(z, t, a, e, z[m]) == t[m + 1][1]
    decreases m - a
  {
    if m == a {
      WindowSlopeAtStart(z, t, a, e);
    } else {
      WindowSlopeAtRepeat(z, t, a + 1, e, m);
      WindowDifference(z, t, a, e, z[m]);
      NodeProductDoubleRoot(z, a + 1, e, m);
    }
  }

  /** Newton's form with a divided-difference table's diagonal as
      coefficients interpolates the table's values: at node `z[m]` it is
      `t[m][0]`. */
  lemma NewtonInterpolates(z: seq<real>, t: seq<seq<real>>, m: nat)
    requires DividedTable(z, t) && m < |z|
    ensures NewtonEval(z, Coefficients(z, t), z[m]) == t[m][0]
  {
    WindowFromStart(z, t, |z|, z[m]);
    WindowInterpolates(z, t, 0, |z|, m);
    assert Coefficients(z, t)[..|z|] == Coefficients(z, t);
  }

  /** At a node given twice in a row, the derivative of Newton's form is
      the table's first-order entry for that pair. */
  lemma NewtonSlopeAtRepeat(z: seq<real>, t: seq<seq<real>>, m: nat)
    requires DividedTable(z, t) && m + 1 < |z| && z[m] == z[m + 1]
    ensures NewtonSlope(z, Coefficients(z, t), z[m]) == t[m + 1][1]
  {
    WindowFromStart(z, t, |z|, z[m]);
    WindowSlopeAtRepeat(z, t, 0, |z|, m);
    assert Coefficients(z, t)[..|z|] == Coefficients(z, t);
  }
}
