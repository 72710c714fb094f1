/** The degrees of freedom and the t quantile of the ratio interval (analyze_ci.py). */
module StudentT {
  import opened Common

  const Z: real := 1.959964

  /** The tabulated degrees of freedom, ascending, with their quantiles. */
  const KEYS: seq<nat> := [1, 2, 3, 4, 5, 6, 7, 8, 9, 10, 12, 15, 20, 30, 60]
  const VALUES: seq<real> := [12.706, 4.303, 3.182, 2.776, 2.571, 2.447, 2.365, 2.306, 2.262, 2.228, 2.179, 2.131,
                              2.086, 2.042, 2.000]

  /** Python's round: to nearest, ties to even. */
  function Round(x: real): int {
    var f := x.Floor;
    var r := x - f as real;
    if r < 0.5 || (r == 0.5 && f % 2 == 0) then f else f + 1
  }

  function AtLeastOne(n: int): nat {
    if n < 1 then 1 else n
  }

  /** Position of the last tabulated key not above n, starting the search at i. */
  function LastKey(n: nat, i: nat): (j: nat)
    requires i < |KEYS| && KEYS[i] <= n
    ensures i <= j < |KEYS| && KEYS[j] <= n && (j == |KEYS| - 1 || n < KEYS[j + 1])
    decreases |KEYS| - i
  {
    if i == |KEYS| - 1 || n < KEYS[i + 1] then i else LastKey(n, i + 1)
  }

  /** The formula beyond the table. */
  function Tail(n: nat): real
    requires n >= 1
  {
    Z + (Z * Z * Z + Z) / (4.0 * n as real)
  }

  /** Linear interpolation between the tabulated keys around n. */
  function Gap(n: nat, j: nat): real
    requires j + 1 < |KEYS|
  {
    var w := (n - KEYS[j]) as real / (KEYS[j + 1] - KEYS[j]) as real;
    (1.0 - w) * VALUES[j] + w * VALUES[j + 1]
  }

  /** _t_quantile on whole degrees of freedom: table, gap interpolation, or tail formula. */
  function QuantileAt(n: nat): real
    requires n >= 1
  {
    var j := LastKey(n, 0);
    if KEYS[j] == n then VALUES[j]
    else if j == |KEYS| - 1 then Tail(n)
    else Gap(n, j)
  }

  /** _t_quantile; its second argument is ignored by the original. */
  function TQuantile(dof: real): real {
    QuantileAt(AtLeastOne(Round(dof)))
  }

  /** The nearest whole number, and of two equally near ones the even one. */
  lemma RoundIsNearest(x: real)
    ensures -0.5 <= Round(x) as real - x <= 0.5
    ensures Round(x) as real - x == 0.5 || Round(x) as real - x == -0.5 ==> Round(x) % 2 == 0
  {
  }

  /** Real degrees of freedom take the quantile of the nearest whole number, of two equally near ones the
      even one; below 1.5 that is the quantile of one. */
  lemma TQuantileIs(dof: real, n: nat)
    requires n >= 1
    ensures -0.5 < dof - n as real < 0.5 ==> TQuantile(dof) == QuantileAt(n)
    ensures dof == n as real + 0.5 ==> TQuantile(dof) == QuantileAt(if n % 2 == 0 then n else n + 1)
    ensures dof < 1.5 ==> TQuantile(dof) == QuantileAt(1)
  {
    hide QuantileAt, Round;
    RoundTo(dof, n);
    RoundTo(dof, 1);
  }

  lemma RoundTo(x: real, n: nat)
    ensures -0.5 < x - n as real < 0.5 ==> Round(x) == n
    ensures x == n as real + 0.5 ==> Round(x) == if n % 2 == 0 then n else n + 1
    ensures x < n as real + 0.5 ==> Round(x) <= n
  {
    hide Round;
    RoundIsNearest(x);
    var r := Round(x);
    if x == n as real + 0.5 {
      assert n as real <= r as real <= (n + 1) as real;
    } else if x < n as real + 0.5 {
      assert (r as real) < (n + 1) as real;
    }
  }

  /** Up to 60 degrees of freedom the quantile runs straight from one tabulated value to the next. */
  lemma QuantileIsStraight(n: nat, j: nat)
    requires j + 1 < |KEYS| && KEYS[j] <= n <= KEYS[j + 1]
    ensures n >= 1 && KEYS[j] < KEYS[j + 1]
    ensures OnLine(n as real, QuantileAt(n), KEYS[j] as real, VALUES[j], KEYS[j + 1] as real, VALUES[j + 1])
  {
    TableFalls(j, j + 1);
    FirstKey(j);
    if n < KEYS[j + 1] {
      StraightInside(n, j);
    } else {
      hide QuantileAt, KEYS, VALUES, OnLine;
      AtKey(j + 1);
      EndsOnLine(KEYS[j] as real, VALUES[j], KEYS[j + 1] as real, VALUES[j + 1]);
    }
  }

  lemma StraightInside(n: nat, j: nat)
    requires n >= 1 && j + 1 < |KEYS| && KEYS[j] <= n < KEYS[j + 1]
    ensures OnLine(n as real, QuantileAt(n), KEYS[j] as real, VALUES[j], KEYS[j + 1] as real, VALUES[j + 1])
  {
    assert |KEYS| == |VALUES|;
    hide QuantileAt, Gap, KEYS, VALUES, OnLine;
    PieceOf(n, j);
    InTable(n, j);
    GapIsStraight(n, j);
  }

  lemma AtKey(j: nat)
    requires j < |KEYS|
    ensures KEYS[j] >= 1 && QuantileAt(KEYS[j]) == VALUES[j]
  {
    assert |KEYS| == |VALUES|;
    LastEntry();
    FirstKey(j);
    if j + 1 < |KEYS| {
      TableFalls(j, j + 1);
    }
    hide Gap, Tail, KEYS, VALUES, LastKey;
    if j + 1 < |KEYS| {
      PieceOf(KEYS[j], j);
    } else {
      TailPiece(KEYS[j]);
    }
  }

  lemma FirstKey(j: nat)
    requires j < |KEYS|
    ensures KEYS[0] == 1 <= KEYS[j]
  {
  }

  /** Every number lies in one piece of the table. */
  lemma PieceOf(n: nat, j: nat)
    requires n >= 1 && j + 1 < |KEYS| && KEYS[j] <= n <= KEYS[j + 1]
    ensures LastKey(n, 0) == if n < KEYS[j + 1] then j else j + 1
  {
    hide LastKey, KEYS;
    FirstKey(0);
    var i := LastKey(n, 0);
    if i < j {
      KeysRise(i + 1, j);
    } else if i > j + 1 {
      KeysRise(j + 1, i);
    }
  }

  lemma KeysRise(i: nat, j: nat)
    requires i <= j < |KEYS|
    ensures KEYS[i] <= KEYS[j] && (i < j ==> KEYS[i] < KEYS[j])
  {
    if i < j {
      TableFalls(i, j);
    }
  }

  lemma GapIsStraight(n: nat, j: nat)
    requires j + 1 < |KEYS| && KEYS[j] < KEYS[j + 1]
    ensures OnLine(n as real, Gap(n, j), KEYS[j] as real, VALUES[j], KEYS[j + 1] as real, VALUES[j + 1])
  {
    assert |KEYS| == |VALUES|;
    hide VALUES, KEYS, OnLine;
    WeightedOnLine(n as real, KEYS[j] as real, VALUES[j], KEYS[j + 1] as real, VALUES[j + 1]);
  }

  /** Beyond 60 it exceeds the normal quantile by (z^3 + z) / 4n. */
  lemma QuantileTail(n: nat)
    requires n > 60
    ensures (QuantileAt(n) - Z) * (4.0 * n as real) == Z * Z * Z + Z
  {
    LastEntry();
    TailPiece(n);
    hide QuantileAt, Gap, KEYS, VALUES;
    BeyondTable(n);
    TailExcess(n);
  }

  lemma TailPiece(n: nat)
    requires n >= 60
    ensures LastKey(n, 0) == |KEYS| - 1
  {
    var i := LastKey(n, 0);
    LastEntry();
    if i < |KEYS| - 1 {
      KeysRise(i + 1, |KEYS| - 1);
    }
  }

  lemma TailExcess(n: nat)
    requires n >= 1
    ensures (Tail(n) - Z) * (4.0 * n as real) == Z * Z * Z + Z
  {
    var c, d := Z * Z * Z + Z, 4.0 * n as real;
    assert (c / d) * d == c;
  }

  lemma RoundMonotone(x: real, y: real)
    requires x <= y
    ensures Round(x) <= Round(y)
  {
  }

  lemma LastKeyMonotone(n: nat, m: nat, i: nat)
    requires i < |KEYS| && KEYS[i] <= n <= m
    ensures LastKey(n, i) <= LastKey(m, i)
    decreases |KEYS| - i
  {
    if i < |KEYS| - 1 && n >= KEYS[i + 1] {
      LastKeyMonotone(n, m, i + 1);
    }
  }

  lemma TableFalls(i: nat, j: nat)
    requires i < j < |KEYS|
    ensures VALUES[i] > VALUES[j] && KEYS[i] < KEYS[j] && VALUES[j] >= 2.0
  {
  }

  lemma SmallerShare(c: real, x: real, y: real)
    requires c > 0.0 && 0.0 < x <= y
    ensures 0.0 < c / y <= c / x
  {
  }

  lemma TailFalls(n: nat, m: nat)
    requires 1 <= n <= m
    ensures Z < Tail(m) <= Tail(n)
    ensures n > 60 ==> Tail(n) <= 2.0
  {
    assert Z * Z * Z + Z > 0.0;
    SmallerShare(Z * Z * Z + Z, 4.0 * n as real, 4.0 * m as real);
    if n > 60 {
      SmallerShare(Z * Z * Z + Z, 244.0, 4.0 * n as real);
      assert (Z * Z * Z + Z) / 244.0 <= 0.04;
    }
  }

  lemma Weights(a: real, b: real, d: real)
    requires 0.0 <= a <= b <= d && d > 0.0
    ensures 0.0 <= a / d <= b / d <= 1.0
  {
  }

  lemma Falling(w: real, w': real, hi: real, lo: real)
    requires 0.0 <= w <= w' <= 1.0 && lo <= hi
    ensures lo <= (1.0 - w') * hi + w' * lo <= (1.0 - w) * hi + w * lo <= hi
  {
    Product(w, hi - lo);
    Product(w' - w, hi - lo);
    Product(1.0 - w', hi - lo);
  }

  lemma Product(a: real, b: real)
    requires a >= 0.0 && b >= 0.0
    ensures a * b >= 0.0
  {
  }

  lemma GapFalls(n: nat, m: nat, j: nat)
    requires j + 1 < |KEYS| && KEYS[j] <= n <= m <= KEYS[j + 1]
    ensures VALUES[j + 1] <= Gap(m, j) <= Gap(n, j) <= VALUES[j]
  {
    TableFalls(j, j + 1);
    var d := (KEYS[j + 1] - KEYS[j]) as real;
    Weights((n - KEYS[j]) as real, (m - KEYS[j]) as real, d);
    Falling((n - KEYS[j]) as real / d, (m - KEYS[j]) as real / d, VALUES[j], VALUES[j + 1]);
  }

  lemma GapStart(j: nat)
    requires j + 1 < |KEYS|
    ensures Gap(KEYS[j], j) == VALUES[j]
  {
    TableFalls(j, j + 1);
    ZeroShare((KEYS[j + 1] - KEYS[j]) as real);
  }

  lemma ZeroShare(d: real)
    requires d > 0.0
    ensures 0.0 / d == 0.0
  {
  }

  /** The table and its gaps in one formula. */
  lemma InTable(n: nat, j: nat)
    requires n >= 1 && j == LastKey(n, 0) && j + 1 < |KEYS|
    ensures QuantileAt(n) == Gap(n, j)
  {
    hide Gap, Tail;
    if KEYS[j] == n {
      GapStart(j);
    }
  }

  lemma LastEntry()
    ensures KEYS[|KEYS| - 1] == 60 && VALUES[|KEYS| - 1] == 2.0
  {
  }

  lemma BeyondTable(n: nat)
    requires n >= 1 && LastKey(n, 0) == |KEYS| - 1
    ensures n >= 60 && QuantileAt(n) == if n == 60 then 2.0 else Tail(n)
  {
    hide Gap, Tail, KEYS, VALUES;
    LastEntry();
  }

  /** Where the quantile of n lies: between the tabulated values around it, or above the normal one. */
  lemma QuantileBounds(n: nat, j: nat)
    requires n >= 1 && j == LastKey(n, 0)
    ensures Z < QuantileAt(n) <= VALUES[j]
    ensures j + 1 < |KEYS| ==> VALUES[j + 1] <= QuantileAt(n)
  {
    hide QuantileAt, Tail, Gap, VALUES;
    if j + 1 < |KEYS| {
      InTable(n, j);
      TableFalls(j, j + 1);
      GapFalls(n, n, j);
    } else {
      BeyondTable(n);
      LastEntry();
      TailFalls(n, n);
    }
  }

  lemma SamePiece(n: nat, m: nat, j: nat)
    requires 1 <= n <= m && j == LastKey(n, 0) == LastKey(m, 0)
    ensures QuantileAt(m) <= QuantileAt(n)
  {
    hide QuantileAt, Tail, Gap, VALUES;
    if j + 1 < |KEYS| {
      InTable(n, j);
      InTable(m, j);
      GapFalls(n, m, j);
    } else {
      BeyondTable(n);
      BeyondTable(m);
      TailFalls(n, m);
      TailFalls(m, m);
    }
  }

  /** More whole degrees of freedom never widen the interval, and the quantile stays above the normal one. */
  lemma QuantileFalls(n: nat, m: nat)
    requires 1 <= n <= m
    ensures Z < QuantileAt(m) <= QuantileAt(n)
  {
    hide QuantileAt, VALUES;
    var j, j' := LastKey(n, 0), LastKey(m, 0);
    LastKeyMonotone(n, m, 0);
    QuantileBounds(n, j);
    QuantileBounds(m, j');
    if j == j' {
      SamePiece(n, m, j);
    } else if j + 1 < j' {
      TableFalls(j + 1, j');
    }
  }

  /** The same for the real-valued degrees of freedom the script passes in. */
  lemma TQuantileFalls(x: real, y: real)
    requires x <= y
    ensures Z < TQuantile(y) <= TQuantile(x)
  {
    RoundMonotone(x, y);
    QuantileFalls(AtLeastOne(Round(x)), AtLeastOne(Round(y)));
  }

  // ---------- Welch-Satterthwaite ----------

  /** ratio_ci's degrees of freedom, from the squared relative standard errors of the two means. */
  function WelchDof(vb: real, vi: real, nb: nat, ni: nat): real
    requires vb >= 0.0 && vi >= 0.0
  {
    if vb + vi == 0.0 then (nb + ni - 2) as real
    else
      var den := Times(vb, vb) / AtLeastOne(nb - 1) as real + Times(vi, vi) / AtLeastOne(ni - 1) as real;
      if den > 0.0 then Times(vb + vi, vb + vi) / den else (nb + ni - 2) as real
  }

  function Times(a: real, b: real): real {
    a * b
  }

  /** a u^2 */
  function Term(a: real, u: real): real {
    a * u * u
  }

  lemma PositiveProduct(a: real, b: real)
    requires a > 0.0 && b > 0.0
    ensures a * b > 0.0
  {
  }

  lemma Square(x: real)
    ensures x * x >= 0.0
  {
    if x < 0.0 {
      Product(-x, -x);
    }
  }

  lemma Rescale(x: real, a: real) returns (u: real)
    requires x >= 0.0 && a >= 1.0
    ensures u >= 0.0 && x == a * u && Times(x, x) / a == Term(a, u)
    ensures Term(a, u) >= 0.0 && (x > 0.0 ==> Term(a, u) > 0.0)
  {
    u := x / a;
    assert x == a * u;
    assert x * x == a * (a * u * u);
    Square(u);
    Product(a, u * u);
    assert a * u * u == a * (u * u);
    if x > 0.0 {
      TermPositive(a, u);
    }
  }

  lemma TermPositive(a: real, u: real)
    requires a > 0.0 && u > 0.0
    ensures Term(a, u) > 0.0
  {
    PositiveProduct(a, u);
    PositiveProduct(a * u, u);
  }

  lemma CauchySchwarz(a: real, b: real, u: real, v: real)
    requires a >= 1.0 && b >= 1.0
    ensures Times(a * u + b * v, a * u + b * v) <= Times(a + b, Term(a, u) + Term(b, v))
  {
    var gap := (a + b) * (a * u * u + b * v * v) - (a * u + b * v) * (a * u + b * v);
    assert gap == (a * b) * ((u - v) * (u - v));
    Product(a, b);
    Square(u - v);
    Product(a * b, (u - v) * (u - v));
  }

  lemma LowerPart(m: real, a: real, u: real)
    requires 0.0 <= m <= a
    ensures Times(m, Term(a, u)) <= Times(Times(a, u), Times(a, u))
  {
    Square(u);
    Product(a, u * u);
    Product(a - m, a * (u * u));
    assert (a * u) * (a * u) - m * (a * u * u) == (a - m) * (a * (u * u));
  }

  lemma Spread(m: real, s: real, t: real)
    ensures Times(m, s + t) == Times(m, s) + Times(m, t)
  {
  }

  lemma SquareOfSum(p: real, r: real)
    requires p >= 0.0 && r >= 0.0
    ensures Times(p, p) + Times(r, r) <= Times(p + r, p + r)
  {
    Product(p, r);
    assert (p + r) * (p + r) == p * p + r * r + 2.0 * (p * r);
  }

  lemma TimesIs(a: real, b: real)
    ensures Times(a, b) == a * b
    ensures a >= 0.0 && b >= 0.0 ==> Times(a, b) >= 0.0
  {
    if a >= 0.0 && b >= 0.0 {
      Product(a, b);
    }
  }

  lemma WelchLower(m: real, a: real, b: real, u: real, v: real)
    requires 0.0 <= m <= a && m <= b && u >= 0.0 && v >= 0.0
    ensures Times(m, Term(a, u) + Term(b, v)) <= Times(a * u + b * v, a * u + b * v)
  {
    hide Times, Term;
    LowerPart(m, a, u);
    LowerPart(m, b, v);
    Spread(m, Term(a, u), Term(b, v));
    TimesIs(a, u);
    TimesIs(b, v);
    SquareOfSum(Times(a, u), Times(b, v));
  }

  lemma QuotientBetween(lo: real, hi: real, num: real, den: real)
    requires den > 0.0 && Times(lo, den) <= num <= Times(hi, den)
    ensures lo <= num / den <= hi
  {
    LeftQuotient(lo, num, den);
    RightQuotient(num, hi, den);
  }

  lemma LeftQuotient(lo: real, num: real, den: real)
    requires den > 0.0 && lo * den <= num
    ensures lo <= num / den
  {
  }

  lemma RightQuotient(num: real, hi: real, den: real)
    requires den > 0.0 && num <= hi * den
    ensures num / den <= hi
  {
  }

  lemma WelchCore(x: real, y: real, a: real, b: real, m: real)
    requires x >= 0.0 && y >= 0.0 && x + y > 0.0 && a >= 1.0 && b >= 1.0 && 0.0 <= m <= a && m <= b
    ensures var den := Times(x, x) / a + Times(y, y) / b;
            den > 0.0 && m <= Times(x + y, x + y) / den <= a + b
  {
    hide Times, Term;
    var u := Rescale(x, a);
    var v := Rescale(y, b);
    CauchySchwarz(a, b, u, v);
    WelchLower(m, a, b, u, v);
    QuotientBetween(m, a + b, Times(x + y, x + y), Term(a, u) + Term(b, v));
  }

  /** For two or more runs of each index the degrees of freedom lie between those of the smaller sample
      and those of the pooled samples. */
  lemma WelchBounds(vb: real, vi: real, nb: nat, ni: nat)
    requires vb >= 0.0 && vi >= 0.0 && nb >= 2 && ni >= 2
    ensures var m := if nb < ni then nb - 1 else ni - 1;
            m as real <= WelchDof(vb, vi, nb, ni) <= (nb + ni - 2) as real
  {
    hide Times;
    if vb + vi > 0.0 {
      var a, b := (nb - 1) as real, (ni - 1) as real;
      WelchCore(vb, vi, a, b, if nb < ni then a else b);
    }
  }

  /** The defining equation, with the variances spread over max(n - 1, 1); without any variance the
      samples are pooled. */
  lemma WelchEquation(vb: real, vi: real, nb: nat, ni: nat)
    requires vb >= 0.0 && vi >= 0.0
    ensures vb + vi > 0.0 ==>
              WelchDof(vb, vi, nb, ni)
                * (vb * vb / AtLeastOne(nb - 1) as real + vi * vi / AtLeastOne(ni - 1) as real)
              == (vb + vi) * (vb + vi)
    ensures vb + vi == 0.0 ==> WelchDof(vb, vi, nb, ni) == (nb + ni - 2) as real
  {
    var a, b := AtLeastOne(nb - 1) as real, AtLeastOne(ni - 1) as real;
    if vb + vi > 0.0 {
      WelchCore(vb, vi, a, b, 0.0);
      Undo(Times(vb + vi, vb + vi), Times(vb, vb) / a + Times(vi, vi) / b);
    }
  }

  lemma Undo(num: real, den: real)
    requires den > 0.0
    ensures (num / den) * den == num
  {
  }

  lemma ZeroFactor(c: real, t: real)
    requires c > 0.0
    ensures c * t == 0.0 <==> t == 0.0
  {
  }

  lemma ZeroSquare(x: real)
    ensures x * x == 0.0 <==> x == 0.0
  {
    ZeroProduct(x, x);
  }

  lemma ZeroProduct(x: real, y: real)
    ensures x * y == 0.0 <==> x == 0.0 || y == 0.0
  {
  }

  /** How far the pooled degrees of freedom are from Welch's. */
  lemma UpperGap(a: real, b: real, u: real, v: real)
    requires a > 0.0 && b > 0.0
    ensures Times(a + b, Term(a, u) + Term(b, v)) == Times(a * u + b * v, a * u + b * v) <==> u == v
  {
    var gap := (a + b) * (a * u * u + b * v * v) - (a * u + b * v) * (a * u + b * v);
    assert gap == (a * b) * ((u - v) * (u - v));
    PositiveProduct(a, b);
    ZeroFactor(a * b, (u - v) * (u - v));
    ZeroSquare(u - v);
  }

  /** How far those of the first sample are from Welch's. */
  lemma LowerGap(a: real, b: real, u: real, v: real)
    requires 0.0 < a <= b && u >= 0.0 && v >= 0.0
    ensures Times(a, Term(a, u) + Term(b, v)) == Times(a * u + b * v, a * u + b * v)
            <==> v == 0.0 || (u == 0.0 && a == b)
  {
    var p, q := (a * b) * (u * v), (b * (b - a)) * (v * v);
    assert (a * u + b * v) * (a * u + b * v) - a * (a * u * u + b * v * v) == 2.0 * p + q;
    NonNegativeParts(a, b, u, v);
    PositiveProduct(a, b);
    ZeroFactor(a * b, u * v);
    ZeroProduct(u, v);
    ZeroProduct(b * (b - a), v * v);
    ZeroFactor(b, b - a);
    ZeroSquare(v);
  }

  lemma NonNegativeParts(a: real, b: real, u: real, v: real)
    requires 0.0 < a <= b && u >= 0.0 && v >= 0.0
    ensures (a * b) * (u * v) >= 0.0 && (b * (b - a)) * (v * v) >= 0.0
  {
    Product(a, b);
    Product(u, v);
    Product(a * b, u * v);
    Product(b, b - a);
    Product(v, v);
    Product(b * (b - a), v * v);
  }

  lemma SameQuotient(c: real, num: real, den: real)
    requires den > 0.0
    ensures num / den == c <==> Times(c, den) == num
  {
    Undo(num, den);
    if c * den == num {
      assert (num / den - c) * den == 0.0;
    }
  }

  lemma Attained(x: real, y: real, a: real, b: real)
    requires x >= 0.0 && y >= 0.0 && x + y > 0.0 && a >= 1.0 && b >= 1.0
    ensures var den := Times(x, x) / a + Times(y, y) / b;
            && den > 0.0
            && (Times(x + y, x + y) / den == a + b <==> x / a == y / b)
            && (a <= b ==> (Times(x + y, x + y) / den == a <==> y == 0.0 || (x == 0.0 && a == b)))
  {
    hide Times, Term;
    WelchCore(x, y, a, b, 0.0);
    var u := Rescale(x, a);
    var v := Rescale(y, b);
    Scaled(x, a, u);
    Scaled(y, b, v);
    var den := Times(x, x) / a + Times(y, y) / b;
    SameQuotient(a + b, Times(x + y, x + y), den);
    UpperGap(a, b, u, v);
    if a <= b {
      SameQuotient(a, Times(x + y, x + y), den);
      LowerGap(a, b, u, v);
    }
  }

  lemma Scaled(x: real, a: real, u: real)
    requires a >= 1.0 && x == a * u
    ensures x / a == u && (x == 0.0 <==> u == 0.0)
  {
    if u > 0.0 {
      PositiveProduct(a, u);
    } else if u < 0.0 {
      PositiveProduct(a, -u);
    }
  }

  /** The pooled value is reached exactly when both samples contribute alike per degree of freedom, and
      that of the smaller sample exactly when all variance is its own. */
  lemma WelchAttained(vb: real, vi: real, nb: nat, ni: nat)
    requires vb >= 0.0 && vi >= 0.0 && vb + vi > 0.0 && nb >= 2 && ni >= 2
    ensures WelchDof(vb, vi, nb, ni) == (nb + ni - 2) as real <==> vb / (nb - 1) as real == vi / (ni - 1) as real
    ensures var m := if nb < ni then nb - 1 else ni - 1;
            WelchDof(vb, vi, nb, ni) == m as real <==> (vi == 0.0 && nb <= ni) || (vb == 0.0 && ni <= nb)
  {
    hide Times;
    var a, b := (nb - 1) as real, (ni - 1) as real;
    Attained(vb, vi, a, b);
    Attained(vi, vb, b, a);
  }

  /** Hence the half-width factor lies between the pooled quantile and that of the smaller sample. */
  lemma IntervalQuantile(vb: real, vi: real, nb: nat, ni: nat)
    requires vb >= 0.0 && vi >= 0.0 && nb >= 2 && ni >= 2
    ensures var m := if nb < ni then nb - 1 else ni - 1;
            Z < TQuantile((nb + ni - 2) as real) <= TQuantile(WelchDof(vb, vi, nb, ni)) <= TQuantile(m as real)
  {
    var m := if nb < ni then nb - 1 else ni - 1;
    WelchBounds(vb, vi, nb, ni);
    TQuantileFalls(m as real, WelchDof(vb, vi, nb, ni));
    TQuantileFalls(WelchDof(vb, vi, nb, ni), (nb + ni - 2) as real);
  }
}
