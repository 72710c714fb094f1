/** Exact squared Euclidean distances, and distances that may be infinite (a missing result). */
module Vectors {

  function Dot(x: seq<real>, y: seq<real>): real
    requires |x| == |y|
  {
    if x == [] then 0.0 else Dot(x[..|x| - 1], y[..|y| - 1]) + x[|x| - 1] * y[|y| - 1]
  }

  function Norm2(x: seq<real>): real {
    Dot(x, x)
  }

  /** Squared distance. */
  function D2(x: seq<real>, y: seq<real>): real
    requires |x| == |y|
  {
    if x == [] then 0.0
    else D2(x[..|x| - 1], y[..|y| - 1]) + (x[|x| - 1] - y[|y| - 1]) * (x[|x| - 1] - y[|y| - 1])
  }

  /** The rearrangement the blocked kernels use: |x|^2 - 2 x.q differs from the distance by |q|^2. */
  lemma {:induction false} D2Expands(x: seq<real>, q: seq<real>)
    requires |x| == |q|
    ensures D2(x, q) == Norm2(x) - 2.0 * Dot(q, x) + Norm2(q)
  {
    if x != [] {
      D2Expands(x[..|x| - 1], q[..|q| - 1]);
    }
  }

  lemma {:induction false} D2NonNegative(x: seq<real>, q: seq<real>)
    requires |x| == |q|
    ensures D2(x, q) >= 0.0
  {
    if x != [] {
      D2NonNegative(x[..|x| - 1], q[..|q| - 1]);
    }
  }

  /** Squared distances add up over a split of the components. */
  lemma {:induction false} D2Splits(x: seq<real>, y: seq<real>, x': seq<real>, y': seq<real>)
    requires |x| == |y| && |x'| == |y'|
    ensures D2(x + x', y + y') == D2(x, y) + D2(x', y')
  {
    if x' == [] {
      assert x + x' == x && y + y' == y;
    } else {
      var n := |x'| - 1;
      D2Splits(x, y, x'[..n], y'[..n]);
      assert (x + x')[..|x| + n] == x + x'[..n] && (y + y')[..|y| + n] == y + y'[..n];
    }
  }

  datatype Dist = Fin(v: real) | Inf

  predicate Le(a: Dist, b: Dist) {
    b.Inf? || (a.Fin? && a.v <= b.v)
  }

  /** A matrix of vectors, all of dimension d. */
  predicate Matrix(m: seq<seq<real>>, d: nat) {
    forall i :: 0 <= i < |m| ==> |m[i]| == d
  }
}
