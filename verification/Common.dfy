/** Types and small functions shared by all modules. */
module Common {
  datatype Option<+T> = None | Some(value: T)

  type Byte = x: int | 0 <= x < 256

  function Min(a: nat, b: nat): nat {
    if a < b then a else b
  }

  function Max(a: nat, b: nat): nat {
    if a > b then a else b
  }

  /** Whole division, with what it leaves. */
  function Quotient(a: nat, m: nat): (q: nat)
    requires m > 0
    ensures m * q <= a < m * q + m
  {
    a / m
  }

  // ---------- straight lines ----------

  /** (x, y) lies on the line through (x0, y0) and (x1, y1). */
  predicate OnLine(x: real, y: real, x0: real, y0: real, x1: real, y1: real) {
    y * (x1 - x0) == y0 * (x1 - x) + y1 * (x - x0)
  }

  lemma WeightedOnLine(x: real, x0: real, y0: real, x1: real, y1: real)
    requires x0 < x1
    ensures var w := (x - x0) / (x1 - x0); OnLine(x, (1.0 - w) * y0 + w * y1, x0, y0, x1, y1)
  {
    var d, w := x1 - x0, (x - x0) / (x1 - x0);
    assert w * d == x - x0;
    assert ((1.0 - w) * y0 + w * y1) * d == y0 * (d - w * d) + y1 * (w * d);
  }

  lemma EndsOnLine(x0: real, y0: real, x1: real, y1: real)
    ensures OnLine(x0, y0, x0, y0, x1, y1) && OnLine(x1, y1, x0, y0, x1, y1)
  {
  }
}
