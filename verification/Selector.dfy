/** Matched-recall costs, the crossover query volume N*, and the oracle choice (analyze_selector.py). */
module Selector {
  import opened Common

  /** One measured operating point. */
  datatype Point = Point(recall: real, ms: real)

  /** One dataset's results: curves by (k, method), build times by method. */
  datatype Rec = Rec(curves: map<(nat, string), seq<Point>>, build: map<string, real>)

  const PARTITION: string := "SuCo"
  const GRAPHS: seq<string> := ["HNSW32", "HNSW48", "CSPG", "SHG"]

  // ---------- matched operating points ----------

  function Reaching(pts: seq<Point>, tau: real): seq<Point> {
    if pts == [] then []
    else Reaching(pts[..|pts| - 1], tau) + if pts[|pts| - 1].recall >= tau then [pts[|pts| - 1]] else []
  }

  /** min(ok, key=ms): the first of the fastest. */
  function Fastest(pts: seq<Point>): Point
    requires pts != []
  {
    var last := pts[|pts| - 1];
    if |pts| == 1 then last
    else
      var best := Fastest(pts[..|pts| - 1]);
      if last.ms < best.ms then last else best
  }

  function Curve(rec: Rec, name: string, k: nat): seq<Point> {
    if (k, name) in rec.curves then rec.curves[(k, name)] else []
  }

  function Matched(rec: Rec, name: string, k: nat, tau: real): Option<Point> {
    var ok := Reaching(Curve(rec, name, k), tau);
    if ok == [] then None else Some(Fastest(ok))
  }

  lemma {:induction false} ReachingAre(pts: seq<Point>, tau: real)
    ensures forall p :: p in Reaching(pts, tau) <==> p in pts && p.recall >= tau
  {
    if pts != [] {
      ReachingAre(pts[..|pts| - 1], tau);
      assert pts == pts[..|pts| - 1] + [pts[|pts| - 1]];
    }
  }

  lemma {:induction false} FastestIs(pts: seq<Point>)
    requires pts != []
    ensures Fastest(pts) in pts && forall p :: p in pts ==> Fastest(pts).ms <= p.ms
  {
    if |pts| > 1 {
      FastestIs(pts[..|pts| - 1]);
      assert pts == pts[..|pts| - 1] + [pts[|pts| - 1]];
    }
  }

  /** The first of the fastest. */
  lemma {:induction false} FastestIsFirst(pts: seq<Point>) returns (i: nat)
    requires pts != []
    ensures i < |pts| && pts[i] == Fastest(pts)
    ensures forall j :: 0 <= j < |pts| ==> if j < i then pts[j].ms > pts[i].ms else pts[j].ms >= pts[i].ms
  {
    var n := |pts| - 1;
    i := n;
    if n > 0 {
      var best := FastestIsFirst(pts[..n]);
      assert forall j :: 0 <= j < n ==> pts[..n][j] == pts[j];
      if pts[n].ms >= pts[best].ms {
        i := best;
      }
    }
  }

  /** Settings that reach tau, at their positions in the curve. */
  lemma {:induction false} ReachingAt(pts: seq<Point>, tau: real, r: nat) returns (i: nat)
    requires r < |Reaching(pts, tau)|
    ensures i < |pts| && pts[i] == Reaching(pts, tau)[r]
    ensures forall j :: 0 <= j < i && pts[j].recall >= tau ==> pts[j] in Reaching(pts, tau)[..r]
  {
    var n := |pts| - 1;
    var before := Reaching(pts[..n], tau);
    if r < |before| {
      i := ReachingAt(pts[..n], tau, r);
      assert Reaching(pts, tau)[..r] == before[..r];
    } else {
      i := n;
      ReachingAre(pts[..n], tau);
      assert Reaching(pts, tau)[..r] == before;
    }
    assert forall j :: 0 <= j < n ==> pts[..n][j] == pts[j];
  }

  /** Of equally fast settings the matched point is the one listed first. */
  lemma MatchedIsFirst(rec: Rec, name: string, k: nat, tau: real) returns (i: nat)
    requires Matched(rec, name, k, tau).Some?
    ensures i < |Curve(rec, name, k)| && Matched(rec, name, k, tau) == Some(Curve(rec, name, k)[i])
    ensures forall j :: 0 <= j < i && Curve(rec, name, k)[j].recall >= tau ==>
              Curve(rec, name, k)[j].ms > Curve(rec, name, k)[i].ms
  {
    var pts := Curve(rec, name, k);
    var ok := Reaching(pts, tau);
    var r := FastestIsFirst(ok);
    i := ReachingAt(pts, tau, r);
    forall j | 0 <= j < i && pts[j].recall >= tau ensures pts[j].ms > pts[i].ms {
      var x :| 0 <= x < r && ok[..r][x] == pts[j];
      assert ok[x] == pts[j];
    }
  }

  /** A method is feasible exactly when some setting reaches tau, and then the matched point is a
      cheapest such setting. */
  lemma MatchedIsCheapest(rec: Rec, name: string, k: nat, tau: real)
    ensures var pts, m := Curve(rec, name, k), Matched(rec, name, k, tau);
            && (m.Some? <==> exists p :: p in pts && p.recall >= tau)
            && (m.Some? ==> m.value in pts && m.value.recall >= tau
                            && forall p :: p in pts && p.recall >= tau ==> m.value.ms <= p.ms)
  {
    var ok := Reaching(Curve(rec, name, k), tau);
    ReachingAre(Curve(rec, name, k), tau);
    if ok != [] {
      FastestIs(ok);
      assert ok[0] in ok;
    }
  }

  // ---------- cumulative cost ----------

  /** Build time and matched query time in seconds, when both exist. */
  datatype Line = Line(b: real, q: real)

  function CostLine(rec: Rec, name: string, k: nat, tau: real): Option<Line> {
    var m := Matched(rec, name, k, tau);
    if m.None? || name !in rec.build then None else Some(Line(rec.build[name], m.value.ms / 1000.0))
  }

  function At(l: Line, n: real): real {
    l.b + n * l.q
  }

  /** total_cost */
  function TotalCost(rec: Rec, name: string, k: nat, tau: real, n: real): Option<real> {
    var l := CostLine(rec, name, k, tau);
    if l.None? then None else Some(At(l.value, n))
  }

  /** `c` is the build time and, for every query, the milliseconds of `p`, a fastest setting that reaches
      tau. */
  ghost predicate IsTotalCost(rec: Rec, name: string, k: nat, tau: real, n: real, c: real, p: Point) {
    && name in rec.build && p in Curve(rec, name, k) && p.recall >= tau
    && (forall o :: o in Curve(rec, name, k) && o.recall >= tau ==> p.ms <= o.ms)
    && 1000.0 * (c - rec.build[name]) == n * p.ms
  }

  /** A method has a total cost exactly when some setting reaches tau and its build time is known, and then
      it is that cost. */
  lemma TotalCostIs(rec: Rec, name: string, k: nat, tau: real, n: real)
    ensures TotalCost(rec, name, k, tau, n).Some?
            <==> name in rec.build && exists p :: p in Curve(rec, name, k) && p.recall >= tau
    ensures TotalCost(rec, name, k, tau, n).Some? ==>
              exists p :: IsTotalCost(rec, name, k, tau, n, TotalCost(rec, name, k, tau, n).value, p)
  {
    hide Matched, Curve, At;
    MatchedIsCheapest(rec, name, k, tau);
    if TotalCost(rec, name, k, tau, n).Some? {
      var p, l := Matched(rec, name, k, tau).value, CostLine(rec, name, k, tau).value;
      CostInSeconds(l, n, p.ms);
      assert IsTotalCost(rec, name, k, tau, n, At(l, n), p);
    }
  }

  lemma CostInSeconds(l: Line, n: real, ms: real)
    requires l.q == ms / 1000.0
    ensures 1000.0 * (At(l, n) - l.b) == n * ms
  {
    assert n * (ms / 1000.0) * 1000.0 == n * ms;
  }

  /** crossover */
  function Crossover(rec: Rec, k: nat, tau: real, graph: string): Option<real> {
    var s, g := CostLine(rec, PARTITION, k, tau), CostLine(rec, graph, k, tau);
    if s.None? || g.None? then None
    else
      var dq, db := s.value.q - g.value.q, g.value.b - s.value.b;
      if dq <= 0.0 || db <= 0.0 then None else Some(db / dq)
  }

  /** rule_constant */
  function RuleConstant(nstar: real, n: real, graph: string): string {
    if n < nstar then PARTITION else graph
  }

  /** For every query volume, SuCo is strictly cheaper below t and the graph strictly cheaper above. */
  ghost predicate SwitchesAt(s: Line, g: Line, t: real) {
    && (forall n :: 0.0 <= n < t ==> At(s, n) < At(g, n))
    && (forall n :: n > t ==> At(g, n) < At(s, n))
  }

  lemma LineGap(s: Line, g: Line, n: real)
    ensures At(g, n) - At(s, n) == (g.b - s.b) - n * (s.q - g.q)
  {
  }

  lemma CrossoverSwitches(s: Line, g: Line, t: real)
    requires s.q - g.q > 0.0 && g.b - s.b > 0.0 && t == (g.b - s.b) / (s.q - g.q)
    ensures SwitchesAt(s, g, t) && At(s, t) == At(g, t) && t > 0.0
  {
    var dq, db := s.q - g.q, g.b - s.b;
    Quotient(db, dq);
    assert t * dq == db;
    forall n | 0.0 <= n < t ensures At(s, n) < At(g, n) {
      LineGap(s, g, n);
      Times(n, t, dq);
    }
    forall n | n > t ensures At(g, n) < At(s, n) {
      LineGap(s, g, n);
      Times(t, n, dq);
    }
    LineGap(s, g, t);
  }

  lemma Quotient(a: real, b: real)
    requires b > 0.0
    ensures (a / b) * b == a && (a > 0.0 ==> a / b > 0.0)
  {
  }

  lemma Times(a: real, b: real, c: real)
    requires a < b && c > 0.0
    ensures a * c < b * c
  {
  }

  lemma SwitchIsCrossover(s: Line, g: Line, t: real)
    requires t > 0.0 && SwitchesAt(s, g, t)
    ensures s.q - g.q > 0.0 && g.b - s.b > 0.0 && t == (g.b - s.b) / (s.q - g.q)
  {
    var dq, db := s.q - g.q, g.b - s.b;
    assert At(s, 0.0) < At(g, 0.0);
    LineGap(s, g, 0.0);
    assert At(g, t + 1.0) < At(s, t + 1.0);
    LineGap(s, g, t + 1.0);
    PositiveFactor(t + 1.0, dq);
    CrossoverSwitches(s, g, db / dq);
    SwitchIsUnique(s, g, t, db / dq);
  }

  lemma PositiveFactor(a: real, b: real)
    requires a > 0.0 && a * b > 0.0
    ensures b > 0.0
  {
  }

  lemma SwitchIsUnique(s: Line, g: Line, t: real, u: real)
    requires t > 0.0 && u > 0.0 && SwitchesAt(s, g, t) && SwitchesAt(s, g, u)
    ensures t == u
  {
    var between := At(s, (t + u) / 2.0);
  }

  /** For feasible methods: N* is returned exactly when there is a positive volume at which the right
      choice switches from SuCo to the graph, and it is that volume. */
  lemma CrossoverExact(rec: Rec, k: nat, tau: real, graph: string, t: real)
    requires t > 0.0 && CostLine(rec, PARTITION, k, tau).Some? && CostLine(rec, graph, k, tau).Some?
    ensures Crossover(rec, k, tau, graph) == Some(t) <==>
            SwitchesAt(CostLine(rec, PARTITION, k, tau).value, CostLine(rec, graph, k, tau).value, t)
  {
    var s, g := CostLine(rec, PARTITION, k, tau).value, CostLine(rec, graph, k, tau).value;
    if Crossover(rec, k, tau, graph) == Some(t) {
      CrossoverSwitches(s, g, t);
    }
    if SwitchesAt(s, g, t) {
      SwitchIsCrossover(s, g, t);
    }
  }

  /** With the true N* the rule picks, at every volume, a cheaper one of SuCo and the graph. */
  lemma RuleIsRight(rec: Rec, k: nat, tau: real, graph: string, n: real)
    requires Crossover(rec, k, tau, graph).Some? && n >= 0.0
    ensures var t := Crossover(rec, k, tau, graph).value;
            var pick := TotalCost(rec, RuleConstant(t, n, graph), k, tau, n);
            && pick.Some? && TotalCost(rec, PARTITION, k, tau, n).Some? && TotalCost(rec, graph, k, tau, n).Some?
            && pick.value <= TotalCost(rec, PARTITION, k, tau, n).value
            && pick.value <= TotalCost(rec, graph, k, tau, n).value
  {
    var s, g := CostLine(rec, PARTITION, k, tau).value, CostLine(rec, graph, k, tau).value;
    CrossoverSwitches(s, g, Crossover(rec, k, tau, graph).value);
  }

  /** The two methods cost the same at some positive volume. */
  ghost predicate Meet(s: Line, g: Line) {
    exists t :: t > 0.0 && At(s, t) == At(g, t)
  }

  /** Exactly when None hides a crossing of two feasible methods: SuCo builds slower and queries faster,
      so that the right choice switches from the graph to SuCo, or the two cost lines coincide. */
  lemma NoneHidesCrossing(rec: Rec, k: nat, tau: real, graph: string)
    requires CostLine(rec, PARTITION, k, tau).Some? && CostLine(rec, graph, k, tau).Some?
    ensures var s, g := CostLine(rec, PARTITION, k, tau).value, CostLine(rec, graph, k, tau).value;
            Crossover(rec, k, tau, graph).None? && Meet(s, g)
            <==> (s.q < g.q && g.b < s.b) || (s.q == g.q && s.b == g.b)
  {
    var s, g := CostLine(rec, PARTITION, k, tau).value, CostLine(rec, graph, k, tau).value;
    if Meet(s, g) {
      var t :| t > 0.0 && At(s, t) == At(g, t);
      MeetingSigns(s, g, t);
    }
    if s.q < g.q && g.b < s.b {
      CrossoverSwitches(g, s, (s.b - g.b) / (g.q - s.q));
    } else if s.q == g.q && s.b == g.b {
      assert At(s, 1.0) == At(g, 1.0);
    }
  }

  lemma MeetingSigns(s: Line, g: Line, t: real)
    requires t > 0.0 && At(s, t) == At(g, t)
    ensures s.q > g.q <==> g.b > s.b
    ensures s.q == g.q <==> g.b == s.b
  {
    var dq := s.q - g.q;
    LineGap(s, g, t);
    assert t * dq == g.b - s.b;
    if dq > 0.0 {
      Times(0.0, t, dq);
    } else if dq < 0.0 {
      Times(0.0, t, -dq);
    }
  }

  /** None does not mean that the cost lines never cross: when SuCo builds slower and queries faster
      they cross the other way round. */
  lemma NoneMayStillCross()
    ensures var rec := Rec(map[(10, "SuCo") := [Point(1.0, 1.0)], (10, "CSPG") := [Point(1.0, 2.0)]],
                           map["SuCo" := 5.0, "CSPG" := 4.0]);
            && Crossover(rec, 10, 0.9, "CSPG") == None
            && TotalCost(rec, "SuCo", 10, 0.9, 1000.0) == TotalCost(rec, "CSPG", 10, 0.9, 1000.0) == Some(6.0)
  {
    var rec := Rec(map[(10, "SuCo") := [Point(1.0, 1.0)], (10, "CSPG") := [Point(1.0, 2.0)]],
                   map["SuCo" := 5.0, "CSPG" := 4.0]);
    SinglePoint(Point(1.0, 1.0), 0.9);
    SinglePoint(Point(1.0, 2.0), 0.9);
    assert Curve(rec, "SuCo", 10) == [Point(1.0, 1.0)] && Curve(rec, "CSPG", 10) == [Point(1.0, 2.0)];
  }

  lemma SinglePoint(p: Point, tau: real)
    ensures Reaching([p], tau) == if p.recall >= tau then [p] else []
    ensures Fastest([p]) == p
  {
    assert [p][..0] == [];
  }

  // ---------- the oracle ----------

  /** An insertion-ordered dictionary of costs. */
  type Costs = seq<(string, real)>

  function AllMethods(): seq<string> {
    [PARTITION] + GRAPHS
  }

  function CostsOf(rec: Rec, methods: seq<string>, k: nat, tau: real, n: real): Costs {
    if methods == [] then []
    else
      var last := methods[|methods| - 1];
      CostsOf(rec, methods[..|methods| - 1], k, tau, n)
      + match TotalCost(rec, last, k, tau, n)
        case None => []
        case Some(c) => [(last, c)]
  }

  /** min(costs, key=costs.get): the first of the cheapest. */
  function Cheapest(costs: Costs): (string, real)
    requires costs != []
  {
    var last := costs[|costs| - 1];
    if |costs| == 1 then last
    else
      var best := Cheapest(costs[..|costs| - 1]);
      if last.1 < best.1 then last else best
  }

  /** The dictionary holds the feasible methods, each with its cost. */
  lemma {:induction false} CostsAre(rec: Rec, methods: seq<string>, k: nat, tau: real, n: real)
    ensures forall c :: c in CostsOf(rec, methods, k, tau, n)
              <==> c.0 in methods && TotalCost(rec, c.0, k, tau, n) == Some(c.1)
    ensures CostsOf(rec, methods, k, tau, n) == [] <==> forall m :: m in methods ==> TotalCost(rec, m, k, tau, n).None?
  {
    if methods != [] {
      hide TotalCost;
      var last := methods[|methods| - 1];
      CostsAre(rec, methods[..|methods| - 1], k, tau, n);
      assert methods == methods[..|methods| - 1] + [last];
    }
  }

  /** oracle_and_costs */
  method OracleAndCosts(rec: Rec, k: nat, tau: real, n: real) returns (oracle: Option<string>, costs: Costs)
    ensures costs == CostsOf(rec, AllMethods(), k, tau, n)
    ensures forall c :: c in costs <==> c.0 in AllMethods() && TotalCost(rec, c.0, k, tau, n) == Some(c.1)
    ensures oracle == if costs == [] then None else Some(Cheapest(costs).0)
    ensures oracle.None? <==> forall m :: m in AllMethods() ==> TotalCost(rec, m, k, tau, n).None?
    ensures oracle.Some? ==>
              exists i :: 0 <= i < |AllMethods()| && FirstCheapest(rec, AllMethods(), k, tau, n, i)
                          && oracle == Some(AllMethods()[i])
  {
    costs := [];
    var methods := AllMethods();
    for i := 0 to |methods|
      invariant costs == CostsOf(rec, methods[..i], k, tau, n)
    {
      var c := TotalCost(rec, methods[i], k, tau, n);
      assert methods[..i + 1][..i] == methods[..i];
      if c.Some? {
        costs := costs + [(methods[i], c.value)];
      }
    }
    assert methods[..|methods|] == methods;
    CostsAre(rec, methods, k, tau, n);
    if costs == [] {
      oracle := None;
      return;
    }
    ghost var i := CheapestIsFirst(rec, methods, k, tau, n);
    oracle := Some(Cheapest(costs).0);
  }

  /** `pick` heads the list of cheapest feasible methods: no earlier one is as cheap, no later cheaper. */
  ghost predicate FirstCheapest(rec: Rec, methods: seq<string>, k: nat, tau: real, n: real, i: nat)
    requires i < |methods|
  {
    var c := TotalCost(rec, methods[i], k, tau, n);
    && c.Some?
    && forall j :: 0 <= j < |methods| && TotalCost(rec, methods[j], k, tau, n).Some? ==>
         var d := TotalCost(rec, methods[j], k, tau, n).value;
         if j < i then c.value < d else c.value <= d
  }

  lemma FirstExtends(rec: Rec, methods: seq<string>, k: nat, tau: real, n: real, i: nat, m: nat)
    requires |methods| == m + 1 && i < m && FirstCheapest(rec, methods[..m], k, tau, n, i)
    ensures var last := TotalCost(rec, methods[m], k, tau, n);
            if last.Some? && last.value < TotalCost(rec, methods[i], k, tau, n).value
            then FirstCheapest(rec, methods, k, tau, n, m) else FirstCheapest(rec, methods, k, tau, n, i)
  {
    hide TotalCost;
    assert forall j :: 0 <= j < m ==> methods[j] == methods[..m][j];
  }

  lemma {:induction false} CheapestIsFirst(rec: Rec, methods: seq<string>, k: nat, tau: real, n: real) returns (i: nat)
    requires CostsOf(rec, methods, k, tau, n) != []
    ensures i < |methods| && FirstCheapest(rec, methods, k, tau, n, i)
    ensures Cheapest(CostsOf(rec, methods, k, tau, n)) == (methods[i], TotalCost(rec, methods[i], k, tau, n).value)
  {
    hide TotalCost, FirstCheapest;
    var m := |methods| - 1;
    var init, costs := CostsOf(rec, methods[..m], k, tau, n), CostsOf(rec, methods, k, tau, n);
    var last := TotalCost(rec, methods[m], k, tau, n);
    if init == [] {
      i := m;
      OnlyFeasible(rec, methods, k, tau, n, m);
    } else {
      i := CheapestIsFirst(rec, methods[..m], k, tau, n);
      FirstExtends(rec, methods, k, tau, n, i, m);
      assert last.Some? ==> costs[..|costs| - 1] == init;
      assert init + [] == init;
      if last.Some? && last.value < Cheapest(init).1 {
        i := m;
      }
    }
  }

  lemma OnlyFeasible(rec: Rec, methods: seq<string>, k: nat, tau: real, n: real, m: nat)
    requires |methods| == m + 1 && CostsOf(rec, methods[..m], k, tau, n) == []
    requires TotalCost(rec, methods[m], k, tau, n).Some?
    ensures FirstCheapest(rec, methods, k, tau, n, m)
  {
    hide TotalCost;
    NoneFeasible(rec, methods[..m], k, tau, n);
    assert forall j :: 0 <= j < m ==> methods[j] == methods[..m][j];
  }

  lemma {:induction false} NoneFeasible(rec: Rec, methods: seq<string>, k: nat, tau: real, n: real)
    requires CostsOf(rec, methods, k, tau, n) == []
    ensures forall j :: 0 <= j < |methods| ==> TotalCost(rec, methods[j], k, tau, n).None?
  {
    if methods != [] {
      var m := |methods| - 1;
      NoneFeasible(rec, methods[..m], k, tau, n);
      assert forall j :: 0 <= j < m ==> methods[j] == methods[..m][j];
    }
  }

  lemma {:induction false} FeasibleAnyVolume(rec: Rec, methods: seq<string>, k: nat, tau: real, n: real, n': real)
    ensures CostsOf(rec, methods, k, tau, n) == [] <==> CostsOf(rec, methods, k, tau, n') == []
  {
    if methods != [] {
      FeasibleAnyVolume(rec, methods[..|methods| - 1], k, tau, n, n');
    }
  }

  lemma {:induction false} FirstIsUnique(rec: Rec, methods: seq<string>, k: nat, tau: real, n: real, i: nat)
    requires i < |methods| && FirstCheapest(rec, methods, k, tau, n, i)
    ensures CostsOf(rec, methods, k, tau, n) != []
    ensures Cheapest(CostsOf(rec, methods, k, tau, n)) == (methods[i], TotalCost(rec, methods[i], k, tau, n).value)
  {
    if CostsOf(rec, methods, k, tau, n) == [] {
      NoneFeasible(rec, methods, k, tau, n);
    } else {
      var j := CheapestIsFirst(rec, methods, k, tau, n);
      assert i == j;
    }
  }

  /** With more queries the oracle's method never queries slower and never builds faster. */
  lemma OracleTradesBuildForQuery(rec: Rec, k: nat, tau: real, n: real, n': real)
    requires 0.0 <= n < n' && CostsOf(rec, AllMethods(), k, tau, n) != []
    ensures CostsOf(rec, AllMethods(), k, tau, n') != []
    ensures var m, m' := Cheapest(CostsOf(rec, AllMethods(), k, tau, n)).0, Cheapest(CostsOf(rec, AllMethods(), k, tau, n')).0;
            && CostLine(rec, m, k, tau).Some? && CostLine(rec, m', k, tau).Some?
            && CostLine(rec, m', k, tau).value.q <= CostLine(rec, m, k, tau).value.q
            && CostLine(rec, m, k, tau).value.b <= CostLine(rec, m', k, tau).value.b
  {
    hide CostLine, CostsOf, Cheapest;
    var ms := AllMethods();
    FeasibleAnyVolume(rec, ms, k, tau, n, n');
    var i := CheapestIsFirst(rec, ms, k, tau, n);
    var j := CheapestIsFirst(rec, ms, k, tau, n');
    var l, l' := CostLine(rec, ms[i], k, tau).value, CostLine(rec, ms[j], k, tau).value;
    assert At(l, n) <= At(l', n) && At(l', n') <= At(l, n');
    Envelope(l, l', n, n');
  }

  lemma Envelope(l: Line, l': Line, n: real, n': real)
    requires 0.0 <= n < n' && At(l, n) <= At(l', n) && At(l', n') <= At(l, n')
    ensures l'.q <= l.q && l.b <= l'.b
  {
    var dq := l'.q - l.q;
    assert (n' - n) * dq <= 0.0;
    if dq > 0.0 {
      Times(0.0, n' - n, dq);
    }
    assert n * dq <= 0.0;
  }

  /** A method chosen at two volumes is chosen, ties included, at every volume between. */
  lemma OracleIsConvex(rec: Rec, k: nat, tau: real, n1: real, n2: real, n3: real)
    requires n1 <= n2 <= n3
    requires CostsOf(rec, AllMethods(), k, tau, n1) != [] && CostsOf(rec, AllMethods(), k, tau, n3) != []
    requires Cheapest(CostsOf(rec, AllMethods(), k, tau, n1)).0 == Cheapest(CostsOf(rec, AllMethods(), k, tau, n3)).0
    ensures CostsOf(rec, AllMethods(), k, tau, n2) != []
    ensures Cheapest(CostsOf(rec, AllMethods(), k, tau, n2)).0 == Cheapest(CostsOf(rec, AllMethods(), k, tau, n1)).0
  {
    hide CostLine, CostsOf, Cheapest;
    var ms := AllMethods();
    var i := CheapestIsFirst(rec, ms, k, tau, n1);
    var i' := CheapestIsFirst(rec, ms, k, tau, n3);
    assert i == i';
    var l := CostLine(rec, ms[i], k, tau).value;
    forall j | 0 <= j < |ms| && TotalCost(rec, ms[j], k, tau, n2).Some?
      ensures var d := TotalCost(rec, ms[j], k, tau, n2).value;
              if j < i then At(l, n2) < d else At(l, n2) <= d
    {
      Between(l, CostLine(rec, ms[j], k, tau).value, n1, n2, n3);
    }
    assert FirstCheapest(rec, ms, k, tau, n2, i);
    FirstIsUnique(rec, ms, k, tau, n2, i);
  }

  lemma Between(l: Line, m: Line, n1: real, n2: real, n3: real)
    requires n1 <= n2 <= n3
    ensures At(l, n1) <= At(m, n1) && At(l, n3) <= At(m, n3) ==> At(l, n2) <= At(m, n2)
    ensures At(l, n1) < At(m, n1) && At(l, n3) < At(m, n3) ==> At(l, n2) < At(m, n2)
  {
    var db, dq := m.b - l.b, m.q - l.q;
    assert At(m, n1) - At(l, n1) == db + n1 * dq;
    assert At(m, n2) - At(l, n2) == db + n2 * dq;
    assert At(m, n3) - At(l, n3) == db + n3 * dq;
    if dq >= 0.0 {
      assert (n2 - n1) * dq >= 0.0;
    } else {
      assert (n3 - n2) * dq <= 0.0;
    }
  }

  /** Raising the recall floor never lowers the oracle's cost. */
  lemma OracleRisesWithTau(rec: Rec, k: nat, tau: real, tau': real, n: real)
    requires tau <= tau' && n >= 0.0 && CostsOf(rec, AllMethods(), k, tau', n) != []
    ensures CostsOf(rec, AllMethods(), k, tau, n) != []
    ensures Cheapest(CostsOf(rec, AllMethods(), k, tau, n)).1 <= Cheapest(CostsOf(rec, AllMethods(), k, tau', n)).1
  {
    hide CostsOf, Cheapest;
    var ms := AllMethods();
    var j := CheapestIsFirst(rec, ms, k, tau', n);
    CostRisesWithTau(rec, ms[j], k, tau, tau', n);
    if CostsOf(rec, ms, k, tau, n) == [] {
      NoneFeasible(rec, ms, k, tau, n);
    } else {
      var i := CheapestIsFirst(rec, ms, k, tau, n);
      assert TotalCost(rec, ms[i], k, tau, n).value <= TotalCost(rec, ms[j], k, tau, n).value;
    }
  }

  lemma CostRisesWithTau(rec: Rec, name: string, k: nat, tau: real, tau': real, n: real)
    requires tau <= tau' && n >= 0.0 && TotalCost(rec, name, k, tau', n).Some?
    ensures TotalCost(rec, name, k, tau, n).Some?
    ensures TotalCost(rec, name, k, tau, n).value <= TotalCost(rec, name, k, tau', n).value
  {
    hide Matched;
    MatchedIsCheapest(rec, name, k, tau);
    MatchedIsCheapest(rec, name, k, tau');
    var q, q' := CostLine(rec, name, k, tau).value.q, CostLine(rec, name, k, tau').value.q;
    assert q <= q';
    assert n * (q' - q) >= 0.0;
  }

  // ---------- the best graph ----------

  /** best_graph over the first graphs of the list: the first with the lowest matched query time. */
  function BestGraph(rec: Rec, graphs: seq<string>, k: nat, tau: real): (best: Option<string>)
    ensures best.Some? ==> Matched(rec, best.value, k, tau).Some?
  {
    if graphs == [] then None
    else
      var g := graphs[|graphs| - 1];
      var best, m := BestGraph(rec, graphs[..|graphs| - 1], k, tau), Matched(rec, g, k, tau);
      if m.None? then best
      else if best.None? then Some(g)
      else if m.value.ms < Matched(rec, best.value, k, tau).value.ms then Some(g) else best
  }

  /** `graphs[i]` is feasible, no earlier graph is as fast and no later one faster. */
  ghost predicate FirstFastest(rec: Rec, graphs: seq<string>, k: nat, tau: real, i: nat)
    requires i < |graphs|
  {
    var m := Matched(rec, graphs[i], k, tau);
    && m.Some?
    && forall j :: 0 <= j < |graphs| && Matched(rec, graphs[j], k, tau).Some? ==>
         var o := Matched(rec, graphs[j], k, tau).value;
         if j < i then m.value.ms < o.ms else m.value.ms <= o.ms
  }

  lemma BestGraphNext(rec: Rec, graphs: seq<string>, k: nat, tau: real, n: nat)
    requires |graphs| == n + 1
    ensures BestGraph(rec, graphs, k, tau)
            == var best, m := BestGraph(rec, graphs[..n], k, tau), Matched(rec, graphs[n], k, tau);
               if m.None? then best
               else if best.None? then Some(graphs[n])
               else if m.value.ms < Matched(rec, best.value, k, tau).value.ms then Some(graphs[n]) else best
  {
    hide Matched;
  }

  lemma {:induction false} NoGraph(rec: Rec, graphs: seq<string>, k: nat, tau: real)
    ensures BestGraph(rec, graphs, k, tau).None? <==> forall g :: g in graphs ==> Matched(rec, g, k, tau).None?
  {
    if graphs != [] {
      hide Matched;
      var n := |graphs| - 1;
      BestGraphNext(rec, graphs, k, tau, n);
      NoGraph(rec, graphs[..n], k, tau);
      assert graphs == graphs[..n] + [graphs[n]];
    }
  }

  lemma {:induction false} BestGraphIsFastest(rec: Rec, graphs: seq<string>, k: nat, tau: real)
    ensures BestGraph(rec, graphs, k, tau).None? <==> forall g :: g in graphs ==> Matched(rec, g, k, tau).None?
    ensures BestGraph(rec, graphs, k, tau).Some? ==>
              exists i :: 0 <= i < |graphs| && FirstFastest(rec, graphs, k, tau, i)
                          && BestGraph(rec, graphs, k, tau) == Some(graphs[i])
  {
    NoGraph(rec, graphs, k, tau);
    hide Matched, FirstFastest;
    if BestGraph(rec, graphs, k, tau).Some? {
      hide BestGraph;
      var n := |graphs| - 1;
      BestGraphNext(rec, graphs, k, tau, n);
      NoGraph(rec, graphs[..n], k, tau);
      BestGraphIsFastest(rec, graphs[..n], k, tau);
      if BestGraph(rec, graphs[..n], k, tau).Some? {
        var i :| 0 <= i < n && FirstFastest(rec, graphs[..n], k, tau, i)
                 && BestGraph(rec, graphs[..n], k, tau) == Some(graphs[..n][i]);
        FastestExtends(rec, graphs, k, tau, i, n);
      } else {
        FirstGraph(rec, graphs, k, tau, n);
      }
    }
  }

  /** ... and the first fastest feasible graph is the one chosen. */
  lemma FastestIsBest(rec: Rec, graphs: seq<string>, k: nat, tau: real, i: nat)
    requires i < |graphs| && FirstFastest(rec, graphs, k, tau, i)
    ensures BestGraph(rec, graphs, k, tau) == Some(graphs[i])
  {
    hide Matched, BestGraph;
    BestGraphIsFastest(rec, graphs, k, tau);
    assert graphs[i] in graphs;
    var j :| 0 <= j < |graphs| && FirstFastest(rec, graphs, k, tau, j) && BestGraph(rec, graphs, k, tau) == Some(graphs[j]);
    assert !(i < j) && !(j < i);
  }

  lemma FirstGraph(rec: Rec, graphs: seq<string>, k: nat, tau: real, n: nat)
    requires |graphs| == n + 1 && forall g :: g in graphs[..n] ==> Matched(rec, g, k, tau).None?
    requires Matched(rec, graphs[n], k, tau).Some?
    ensures FirstFastest(rec, graphs, k, tau, n)
  {
    hide Matched;
    forall j | 0 <= j < n ensures Matched(rec, graphs[j], k, tau).None? {
      assert graphs[j] == graphs[..n][j];
    }
  }

  lemma FastestExtends(rec: Rec, graphs: seq<string>, k: nat, tau: real, i: nat, n: nat)
    requires |graphs| == n + 1 && i < n && FirstFastest(rec, graphs[..n], k, tau, i)
    ensures var last := Matched(rec, graphs[n], k, tau);
            if last.Some? && last.value.ms < Matched(rec, graphs[i], k, tau).value.ms
            then FirstFastest(rec, graphs, k, tau, n) else FirstFastest(rec, graphs, k, tau, i)
  {
    hide Matched;
    assert forall j :: 0 <= j < n ==> graphs[j] == graphs[..n][j];
  }
}
