/** The recall/throughput frontier and picking a setting from it (bench_router_paper.py), against the
    cheapest matched point of analyze_selector.py. */
module Pareto {
  import opened Common
  import opened Curves
  import opened Selector

  /** The running best of the backward scan, which starts at -1. */
  function BestQps(s: seq<Row>): (q: real)
    ensures q >= -1.0 && forall i :: 0 <= i < |s| ==> s[i].qps <= q
    ensures q == -1.0 || exists i :: 0 <= i < |s| && s[i].qps == q
  {
    if s == [] then -1.0
    else
      var q := BestQps(s[1..]);
      assert forall i :: 1 <= i < |s| ==> s[i] == s[1..][i - 1];
      if s[0].qps > q then s[0].qps else q
  }

  /** The rows of an ascending list that beat everything after them. */
  function Frontier(s: seq<Row>): (f: seq<Row>)
    ensures |f| <= |s|
  {
    if s == [] then []
    else if s[0].qps > BestQps(s[1..]) then [s[0]] + Frontier(s[1..])
    else Frontier(s[1..])
  }

  function Reverse(s: seq<Row>): (r: seq<Row>)
    ensures |r| == |s| && forall i :: 0 <= i < |s| ==> r[i] == s[|s| - 1 - i]
  {
    seq(|s|, i requires 0 <= i < |s| => s[|s| - 1 - i])
  }

  /** pareto_frontier */
  method ParetoFrontier(rows: seq<Row>) returns (frontier: seq<Row>)
    ensures frontier == Frontier(SortRows(rows))
  {
    if rows == [] {
      return [];
    }
    var s := SortRows(rows);
    var out, best, i := [], -1.0, |s|;
    while i > 0
      invariant 0 <= i <= |s|
      invariant Reverse(out) == Frontier(s[i..]) && best == BestQps(s[i..])
    {
      i := i - 1;
      assert s[i..][1..] == s[i + 1..];
      if s[i].qps > best {
        best := s[i].qps;
        assert Reverse(out + [s[i]]) == [s[i]] + Reverse(out);
        out := out + [s[i]];
      }
    }
    assert s[0..] == s;
    frontier := Reverse(out);
  }

  lemma {:induction false} FrontierMembers(s: seq<Row>)
    ensures forall r :: r in Frontier(s) ==> r in s && r.qps > -1.0
  {
    if s != [] {
      FrontierMembers(s[1..]);
    }
  }

  lemma FrontierUnfold(s: seq<Row>)
    requires s != []
    ensures Frontier(s) == if s[0].qps > BestQps(s[1..]) then [s[0]] + Frontier(s[1..]) else Frontier(s[1..])
  {
  }

  /** What follows a kept row on the frontier has at least its recall and less throughput. */
  lemma LaterRows(s: seq<Row>, r: Row)
    requires ByRecall(s) && s != [] && r in Frontier(s[1..])
    ensures s[0].recall <= r.recall && r.qps <= BestQps(s[1..])
  {
    hide Frontier;
    FrontierMembers(s[1..]);
    var i :| 0 <= i < |s[1..]| && s[1..][i] == r;
    assert s[i + 1] == r;
  }

  /** Along the frontier recall never falls and throughput strictly falls. */
  lemma {:induction false} FrontierFalls(s: seq<Row>)
    requires ByRecall(s)
    ensures ByRecall(Frontier(s))
    ensures forall i, j :: 0 <= i < j < |Frontier(s)| ==> Frontier(s)[i].qps > Frontier(s)[j].qps
  {
    if s != [] {
      hide Frontier, BestQps;
      FrontierFalls(s[1..]);
      FrontierUnfold(s);
      var f := Frontier(s[1..]);
      forall j | 0 <= j < |f| ensures s[0].recall <= f[j].recall && f[j].qps <= BestQps(s[1..]) {
        assert f[j] in f;
        LaterRows(s, f[j]);
      }
    }
  }

  /** The frontier of a non-empty list starts with its best throughput. */
  lemma {:induction false} FrontierHead(s: seq<Row>)
    requires s != [] && forall i :: 0 <= i < |s| ==> s[i].qps > -1.0
    ensures Frontier(s) != [] && Frontier(s)[0].qps == BestQps(s)
  {
    if |s| == 1 {
      assert s[1..] == [];
    } else if s[0].qps <= BestQps(s[1..]) {
      FrontierHead(s[1..]);
    }
  }

  lemma {:induction false} FrontierOfFalling(f: seq<Row>)
    requires forall i, j :: 0 <= i < j < |f| ==> f[i].qps > f[j].qps
    requires forall i :: 0 <= i < |f| ==> f[i].qps > -1.0
    ensures Frontier(f) == f
  {
    if f != [] {
      FrontierOfFalling(f[1..]);
      assert f[0].qps > BestQps(f[1..]) by {
        var q := BestQps(f[1..]);
        if q != -1.0 {
          var i :| 0 <= i < |f[1..]| && f[1..][i].qps == q;
          assert f[i + 1].qps == q;
        }
      }
      assert f == [f[0]] + f[1..];
    }
  }

  /** Building the frontier of a frontier changes nothing. */
  lemma FrontierIdempotent(rows: seq<Row>)
    ensures Frontier(SortRows(Frontier(SortRows(rows)))) == Frontier(SortRows(rows))
  {
    var f := Frontier(SortRows(rows));
    SortRowsSorted(rows);
    FrontierFalls(SortRows(rows));
    FrontierMembers(SortRows(rows));
    SortedStays(f);
    FrontierOfFalling(f);
  }

  // ---------- picking a setting ----------

  function Above(s: seq<Row>, target: real): seq<Row> {
    if s == [] then []
    else (if s[0].recall >= target then [s[0]] else []) + Above(s[1..], target)
  }

  /** min(above, key=recall): the first of the smallest. */
  function LowestRecall(s: seq<Row>): Row
    requires s != []
  {
    if |s| == 1 then s[0]
    else var m := LowestRecall(s[1..]); if s[0].recall <= m.recall then s[0] else m
  }

  function PickParamForRecall(curve: seq<Row>, target: real): Option<Row> {
    var above := Above(curve, target);
    if above == [] then None else Some(LowestRecall(above))
  }

  lemma AboveUnfold(s: seq<Row>, target: real)
    ensures s == [] ==> Above(s, target) == []
    ensures s != [] ==> Above(s, target) == (if s[0].recall >= target then [s[0]] else []) + Above(s[1..], target)
  {
  }

  lemma {:induction false} AboveMembers(s: seq<Row>, target: real)
    ensures forall r :: r in Above(s, target) <==> r in s && r.recall >= target
  {
    hide Above;
    AboveUnfold(s, target);
    if s != [] {
      AboveMembers(s[1..], target);
      assert s == [s[0]] + s[1..];
    }
  }

  lemma {:induction false} AboveSorted(s: seq<Row>, target: real)
    requires ByRecall(s)
    ensures ByRecall(Above(s, target))
  {
    hide Above;
    AboveUnfold(s, target);
    if s != [] {
      AboveSorted(s[1..], target);
      AboveMembers(s[1..], target);
      var rest := Above(s[1..], target);
      forall i | 0 <= i < |rest| ensures s[0].recall <= rest[i].recall {
        assert rest[i] in rest;
        var j :| 0 <= j < |s[1..]| && s[1..][j] == rest[i];
        assert s[j + 1] == rest[i];
      }
    }
  }

  lemma {:induction false} LowestIsFirst(s: seq<Row>)
    requires s != [] && ByRecall(s)
    ensures LowestRecall(s) == s[0]
  {
    if |s| > 1 {
      LowestIsFirst(s[1..]);
    }
  }

  lemma {:induction false} AllAbove(s: seq<Row>, target: real)
    requires forall i :: 0 <= i < |s| ==> s[i].recall >= target
    ensures Above(s, target) == s
  {
    if s != [] {
      AllAbove(s[1..], target);
    }
  }

  lemma AboveCons(r: Row, s: seq<Row>, target: real)
    ensures Above([r] + s, target) == if r.recall >= target then [r] + Above(s, target) else Above(s, target)
  {
    assert ([r] + s)[1..] == s;
    assert [] + Above(s, target) == Above(s, target);
  }

  /** Dropping the rows below the target commutes with taking the frontier. */
  lemma {:induction false} FrontierAbove(s: seq<Row>, target: real)
    requires ByRecall(s)
    ensures Above(Frontier(s), target) == Frontier(Above(s, target))
  {
    hide Frontier, Above, BestQps;
    if s == [] {
      AllAbove(s, target);
      FrontierMembers(s);
      AllAbove(Frontier(s), target);
    } else if s[0].recall < target {
      FrontierAbove(s[1..], target);
      FrontierUnfold(s);
      assert s == [s[0]] + s[1..];
      AboveCons(s[0], s[1..], target);
      AboveCons(s[0], Frontier(s[1..]), target);
    } else {
      AllAbove(s, target);
      FrontierMembers(s);
      forall i | 0 <= i < |Frontier(s)| ensures Frontier(s)[i].recall >= target {
        assert Frontier(s)[i] in Frontier(s);
      }
      AllAbove(Frontier(s), target);
    }
  }

  /** For every curve and target: a setting is picked exactly when one reaches the target, and the one
      picked from the frontier has the best throughput of all settings that reach it. */
  lemma PickIsBest(rows: seq<Row>, target: real)
    requires forall r :: r in rows ==> r.qps > -1.0
    ensures var p := PickParamForRecall(Frontier(SortRows(rows)), target);
            && (p.Some? <==> exists r :: r in rows && r.recall >= target)
            && (p.Some? ==> p.value in rows && p.value.recall >= target
                            && forall r :: r in rows && r.recall >= target ==> r.qps <= p.value.qps)
  {
    hide Frontier, SortRows, LowestRecall, Above;
    var s := SortRows(rows);
    var reach := Above(s, target);
    SortRowsSorted(rows);
    FrontierAbove(s, target);
    AboveMembers(s, target);
    AboveSorted(s, target);
    forall r ensures r in rows <==> r in s {
      assert r in multiset(rows) <==> r in multiset(s);
    }
    HeadOfReach(reach);
    if reach != [] {
      assert reach[0] in reach;
    }
  }

  lemma HeadOfReach(reach: seq<Row>)
    requires ByRecall(reach) && forall r :: r in reach ==> r.qps > -1.0
    ensures Frontier(reach) == [] <==> reach == []
    ensures reach != [] ==>
              LowestRecall(Frontier(reach)) in reach
              && forall r :: r in reach ==> r.qps <= LowestRecall(Frontier(reach)).qps
  {
    if reach != [] {
      hide Frontier, LowestRecall;
      forall i | 0 <= i < |reach| ensures reach[i].qps > -1.0 {
        assert reach[i] in reach;
      }
      FrontierHead(reach);
      FrontierFalls(reach);
      LowestIsFirst(Frontier(reach));
      FrontierMembers(reach);
      assert Frontier(reach)[0] in Frontier(reach);
    }
  }

  /** Throughput orders settings the opposite way to time per query. */
  ghost predicate OrderReversed(rows: seq<Row>) {
    forall a, b :: a in rows && b in rows ==> (a.qps <= b.qps <==> b.ms <= a.ms)
  }

  function Points(rows: seq<Row>): (p: seq<Point>)
    ensures |p| == |rows| && forall i :: 0 <= i < |rows| ==> p[i] == Point(rows[i].recall, rows[i].ms)
  {
    seq(|rows|, i requires 0 <= i < |rows| => Point(rows[i].recall, rows[i].ms))
  }

  /** The router's pick from the frontier and the selector's matched point cost the same. */
  lemma PickCostsMatched(rows: seq<Row>, name: string, k: nat, target: real)
    requires OrderReversed(rows) && forall r :: r in rows ==> r.qps > -1.0
    ensures var rec := Rec(map[(k, name) := Points(rows)], map[]);
            var p, m := PickParamForRecall(Frontier(SortRows(rows)), target), Matched(rec, name, k, target);
            (p.Some? <==> m.Some?) && (p.Some? ==> p.value.ms == m.value.ms)
  {
    hide PickParamForRecall, Matched, Frontier, SortRows;
    var rec := Rec(map[(k, name) := Points(rows)], map[]);
    PickIsBest(rows, target);
    MatchedIsCheapest(rec, name, k, target);
    assert Curve(rec, name, k) == Points(rows);
    var p, m := PickParamForRecall(Frontier(SortRows(rows)), target), Matched(rec, name, k, target);
    if p.Some? {
      var i :| 0 <= i < |rows| && rows[i] == p.value;
      assert Points(rows)[i] in Points(rows);
    }
    if m.Some? {
      var i :| 0 <= i < |rows| && Points(rows)[i] == m.value;
      assert rows[i] in rows;
    }
  }

  // ---------- equal recalls ----------

  ghost predicate StrictRecall(f: seq<Row>) {
    forall i, j :: 0 <= i < j < |f| ==> f[i].recall < f[j].recall
  }

  function Higher(s: seq<Row>, recall: real): seq<Row> {
    if s == [] then [] else (if s[0].recall > recall then [s[0]] else []) + Higher(s[1..], recall)
  }

  /** A row faster than everything listed after it is followed by a slower one of the same recall that
      still beats every higher recall. */
  ghost predicate SlowTwin(s: seq<Row>) {
    exists i, j :: 0 <= i < j < |s| && s[i].recall == s[j].recall
      && s[i].qps > BestQps(s[i + 1..]) && s[j].qps > BestQps(Higher(s, s[j].recall))
  }

  lemma {:induction false} HigherMembers(s: seq<Row>, recall: real)
    ensures forall r :: r in Higher(s, recall) <==> r in s && r.recall > recall
  {
    if s != [] {
      HigherMembers(s[1..], recall);
      forall r ensures r in Higher(s, recall) <==> r in s && r.recall > recall {
        assert s == [s[0]] + s[1..];
      }
    }
  }

  lemma BestOfPart(s: seq<Row>, t: seq<Row>)
    requires forall r :: r in t ==> r in s
    ensures BestQps(t) <= BestQps(s)
  {
    var q := BestQps(t);
    if q != -1.0 {
      var i :| 0 <= i < |t| && t[i].qps == q;
      assert t[i] in t;
      assert t[i] in s;
    }
  }

  /** Position of a frontier row in the list it was taken from, with the reason it was kept. */
  lemma {:induction false} KeptAt(s: seq<Row>, i: nat) returns (p: nat)
    requires i < |Frontier(s)|
    ensures p < |s| && s[p] == Frontier(s)[i] && s[p].qps > BestQps(s[p + 1..])
    ensures Frontier(s)[i + 1..] == Frontier(s[p + 1..])
  {
    hide BestQps, Frontier;
    FrontierUnfold(s);
    var keep := s[0].qps > BestQps(s[1..]);
    if keep && i == 0 {
      p := 0;
    } else {
      var p' := KeptAt(s[1..], if keep then i - 1 else i);
      p := p' + 1;
      assert s[p + 1..] == s[1..][p' + 1..];
    }
  }

  lemma {:induction false} KeptIfBest(s: seq<Row>, p: nat) returns (i: nat)
    requires p < |s| && s[p].qps > BestQps(s[p + 1..])
    ensures i < |Frontier(s)| && Frontier(s)[i] == s[p] && Frontier(s)[i + 1..] == Frontier(s[p + 1..])
  {
    hide Frontier, BestQps;
    FrontierUnfold(s);
    if p == 0 {
      i := 0;
    } else {
      assert s[1..][p - 1 + 1..] == s[p + 1..];
      i := KeptIfBest(s[1..], p - 1);
      if s[0].qps > BestQps(s[1..]) {
        i := i + 1;
      }
    }
  }

  /** The frontier keeps one row a recall, as its name promises, exactly when the sorted settings hold no
      slow twin. */
  lemma OneRowPerRecall(s: seq<Row>)
    requires ByRecall(s) && forall i :: 0 <= i < |s| ==> s[i].qps > -1.0
    ensures StrictRecall(Frontier(s)) <==> !SlowTwin(s)
  {
    hide Frontier, BestQps, Higher;
    FrontierFalls(s);
    if !StrictRecall(Frontier(s)) {
      var a, b :| 0 <= a < b < |Frontier(s)| && Frontier(s)[a].recall >= Frontier(s)[b].recall;
      TwinFromFrontier(s, a, b);
    }
    if SlowTwin(s) {
      var i, j :| 0 <= i < j < |s| && s[i].recall == s[j].recall
        && s[i].qps > BestQps(s[i + 1..]) && s[j].qps > BestQps(Higher(s, s[j].recall));
      FrontierFromTwin(s, i, j);
    }
  }

  lemma HigherComeLater(s: seq<Row>, j: nat)
    requires ByRecall(s) && j < |s|
    ensures BestQps(Higher(s, s[j].recall)) <= BestQps(s[j + 1..])
  {
    hide Higher, BestQps;
    HigherMembers(s, s[j].recall);
    forall r | r in Higher(s, s[j].recall) ensures r in s[j + 1..] {
      var x :| 0 <= x < |s| && s[x] == r;
      assert s[j + 1..][x - j - 1] == r;
    }
    BestOfPart(s[j + 1..], Higher(s, s[j].recall));
  }

  lemma HigherIsCovered(s: seq<Row>, recall: real, r: Row)
    requires r in s
    ensures r.recall > recall ==> r.qps <= BestQps(Higher(s, recall))
  {
    hide Higher;
    HigherMembers(s, recall);
  }

  lemma SuffixOfSuffix<T>(s: seq<T>, i: nat, j: nat)
    requires i + j < |s|
    ensures s[i..][j] == s[i + j] && s[i..][j + 1..] == s[i + j + 1..]
  {
  }

  lemma ShowTwin(s: seq<Row>, i: nat, j: nat)
    requires i < j < |s| && s[i].recall == s[j].recall
    requires s[i].qps > BestQps(s[i + 1..]) && s[j].qps > BestQps(Higher(s, s[j].recall))
    ensures SlowTwin(s)
  {
    hide BestQps, Higher;
  }

  lemma TwinFromFrontier(s: seq<Row>, a: nat, b: nat)
    requires ByRecall(s) && a < b < |Frontier(s)| && Frontier(s)[a].recall == Frontier(s)[b].recall
    ensures SlowTwin(s)
  {
    hide Frontier, BestQps, Higher, ByRecall, SlowTwin;
    var i := KeptAt(s, a);
    SuffixOfSuffix(Frontier(s), a + 1, b - a - 1);
    var j' := KeptAt(s[i + 1..], b - a - 1);
    SuffixOfSuffix(s, i + 1, j');
    HigherComeLater(s, i + 1 + j');
    ShowTwin(s, i, i + 1 + j');
  }

  lemma FrontierFromTwin(s: seq<Row>, i: nat, j: nat)
    requires ByRecall(s) && i < j < |s| && s[i].recall == s[j].recall
    requires forall x :: 0 <= x < |s| ==> s[x].qps > -1.0
    requires s[i].qps > BestQps(s[i + 1..]) && s[j].qps > BestQps(Higher(s, s[j].recall))
    ensures !StrictRecall(Frontier(s))
  {
    hide Frontier, Higher;
    var a := KeptIfBest(s, i);
    var rest := s[i + 1..];
    assert rest[j - i - 1] == s[j];
    FrontierHead(rest);
    FrontierMembers(rest);
    var head := Frontier(rest)[0];
    assert head in Frontier(rest);
    var x :| 0 <= x < |rest| && rest[x] == head;
    assert s[i + 1 + x] == head;
    HigherIsCovered(s, s[j].recall, head);
    assert Frontier(s)[a + 1..][0] == head;
    assert Frontier(s)[a + 1] == head;
  }

  /** Two rows of the same recall can both stay on the frontier, the second one dominated. */
  lemma DominatedRowStays()
    ensures Frontier(SortRows([Row(0.9, 10.0, 1.0), Row(0.9, 5.0, 2.0)])) == [Row(0.9, 10.0, 1.0), Row(0.9, 5.0, 2.0)]
  {
    hide SortRows, Frontier;
    var s := [Row(0.9, 10.0, 1.0), Row(0.9, 5.0, 2.0)];
    SortedStays(s);
    FrontierOfFalling(s);
  }
}
