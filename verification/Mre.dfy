/** The mean relative error of bench_router_paper.py and its lower bound. */
module Mre {
  import opened Scores

  function InsertReal(s: seq<real>, x: real): (r: seq<real>)
    ensures |r| == |s| + 1
  {
    if s == [] || s[|s| - 1] <= x then s + [x] else InsertReal(s[..|s| - 1], x) + [s[|s| - 1]]
  }

  /** np.sort */
  function SortReal(s: seq<real>): (r: seq<real>)
    ensures |r| == |s|
  {
    if s == [] then [] else InsertReal(SortReal(s[..|s| - 1]), s[|s| - 1])
  }

  ghost predicate Ascending(s: seq<real>) {
    forall i, j :: 0 <= i < j < |s| ==> s[i] <= s[j]
  }

  lemma {:induction false} InsertRealSorted(s: seq<real>, x: real)
    requires Ascending(s)
    ensures Ascending(InsertReal(s, x))
    ensures forall i :: 0 <= i < |s| + 1 ==> InsertReal(s, x)[i] == x || (s != [] && InsertReal(s, x)[i] <= s[|s| - 1])
  {
    if s != [] && s[|s| - 1] > x {
      InsertRealSorted(s[..|s| - 1], x);
    }
  }

  lemma {:induction false} SortRealSorted(s: seq<real>)
    ensures Ascending(SortReal(s))
  {
    if s != [] {
      SortRealSorted(s[..|s| - 1]);
      InsertRealSorted(SortReal(s[..|s| - 1]), s[|s| - 1]);
    }
  }

  // ---------- counting below a bound ----------

  function CountBelow(s: seq<real>, t: real): nat {
    if s == [] then 0 else CountBelow(s[..|s| - 1], t) + if s[|s| - 1] < t then 1 else 0
  }

  lemma CountBelowSnoc(s: seq<real>, x: real, t: real)
    ensures CountBelow(s + [x], t) == CountBelow(s, t) + if x < t then 1 else 0
  {
    assert (s + [x])[..|s|] == s;
  }

  lemma {:induction false} InsertKeepsCount(s: seq<real>, x: real, t: real)
    ensures CountBelow(InsertReal(s, x), t) == CountBelow(s, t) + if x < t then 1 else 0
  {
    if s == [] || s[|s| - 1] <= x {
      CountBelowSnoc(s, x, t);
    } else {
      InsertKeepsCount(s[..|s| - 1], x, t);
      CountBelowSnoc(InsertReal(s[..|s| - 1], x), s[|s| - 1], t);
    }
  }

  lemma {:induction false} SortKeepsCount(s: seq<real>, t: real)
    ensures CountBelow(SortReal(s), t) == CountBelow(s, t)
  {
    if s != [] {
      SortKeepsCount(s[..|s| - 1], t);
      InsertKeepsCount(SortReal(s[..|s| - 1]), s[|s| - 1], t);
    }
  }

  /** In an ascending list no more than j entries lie below a bound only if the j-th does not. */
  lemma {:induction false} RankBound(s: seq<real>, j: nat, t: real)
    requires Ascending(s) && j < |s|
    ensures s[j] < t ==> CountBelow(s, t) > j
  {
    var n := |s| - 1;
    if n > j {
      RankBound(s[..n], j, t);
    } else if s[j] < t {
      AllBelow(s, t);
    }
  }

  lemma {:induction false} AllBelow(s: seq<real>, t: real)
    requires forall i :: 0 <= i < |s| ==> s[i] < t
    ensures CountBelow(s, t) == |s|
  {
    if s != [] {
      AllBelow(s[..|s| - 1], t);
    }
  }

  lemma {:induction false} CountAtMost(s: seq<real>, t: real)
    ensures CountBelow(s, t) <= |s|
  {
    if s != [] {
      CountAtMost(s[..|s| - 1], t);
    }
  }

  /** ... and no more than j lie below a bound that the j-th reaches. */
  lemma {:induction false} CountFrom(s: seq<real>, j: nat, t: real)
    requires Ascending(s) && j <= |s| && (j < |s| ==> t <= s[j])
    ensures CountBelow(s, t) <= j
  {
    if s != [] && j < |s| {
      CountFrom(s[..|s| - 1], j, t);
    } else {
      CountAtMost(s, t);
    }
  }

  // ---------- the median ----------

  /** np.median */
  function Median(s: seq<real>): real
    requires s != []
  {
    var u, h := SortReal(s), |s| / 2;
    if |s| % 2 == 1 then u[h] else (u[h - 1] + u[h]) / 2.0
  }

  /** No more than half of the list lies below the median, and at least half at or below it: whatever
      exceeds the median has that half below itself. */
  lemma MedianHalves(s: seq<real>, t: real)
    requires s != []
    ensures t <= Median(s) ==> 2 * CountBelow(s, t) <= |s|
    ensures t > Median(s) ==> 2 * CountBelow(s, t) >= |s|
  {
    hide SortReal;
    var u, h := SortReal(s), |s| / 2;
    SortRealSorted(s);
    SortKeepsCount(s, t);
    if t <= Median(s) {
      CountFrom(u, h, t);
    } else if |s| % 2 == 1 {
      RankBound(u, h, t);
    } else {
      RankBound(u, h - 1, t);
    }
  }

  /** The median is the midpoint of the two middle ranks, which coincide for an odd number of values. */
  lemma MedianIsMiddle(s: seq<real>)
    requires s != []
    ensures 2.0 * Median(s) == SortReal(s)[(|s| - 1) / 2] + SortReal(s)[|s| / 2]
  {
    hide SortReal;
    var n := |s|;
    if n % 2 == 1 {
      assert (n - 1) / 2 == n / 2;
    } else {
      assert (n - 1) / 2 == n / 2 - 1;
    }
  }

  // ---------- one query ----------

  /** row[row >= 0] */
  function Present(row: seq<int>): (r: seq<int>)
    ensures forall x :: x in r <==> x in row && x >= 0
  {
    if row == [] then []
    else
      assert row == row[..|row| - 1] + [row[|row| - 1]];
      Present(row[..|row| - 1]) + if row[|row| - 1] >= 0 then [row[|row| - 1]] else []
  }

  lemma {:induction false} PresentAppend(a: seq<int>, b: seq<int>)
    ensures Present(a + b) == Present(a) + Present(b)
  {
    if b == [] {
      assert a + b == a;
    } else {
      assert (a + b)[..|a + b| - 1] == a + b[..|b| - 1];
      PresentAppend(a, b[..|b| - 1]);
    }
  }

  /** A missing result is passed over and nothing else changes. */
  lemma PresentSkips(before: seq<int>, x: int, after: seq<int>)
    ensures Present(before + [x] + after) == Present(before) + (if x >= 0 then [x] else []) + Present(after)
  {
    PresentAppend(before + [x], after);
    PresentAppend(before, [x]);
    PresentOne(x);
  }

  lemma PresentOne(x: int)
    ensures Present([x]) == if x >= 0 then [x] else []
  {
    assert [x][..0] == [];
    assert Present([]) == [];
  }

  lemma {:induction false} AllPresent(row: seq<int>)
    requires forall j :: 0 <= j < |row| ==> row[j] >= 0
    ensures Present(row) == row
  {
    if row != [] {
      var n := |row| - 1;
      AllPresent(row[..n]);
      assert row == row[..n] + [row[n]];
    }
  }

  /** The ids of a row with no missing result are its first k columns. */
  lemma IdsAreFirst(table: seq<seq<int>>, i: nat, k: nat)
    requires i < |table| && k <= |table[i]| && forall j :: 0 <= j < k ==> table[i][j] >= 0
    ensures Ids(table, i, k) == table[i][..k]
  {
    AllPresent(table[i][..k]);
  }

  predicate InBase(ids: seq<int>, n: nat) {
    forall i :: 0 <= i < |ids| ==> 0 <= ids[i] < n
  }

  /** dist[ids], dist being this query's distances to all base rows. */
  function Distances(dist: seq<real>, ids: seq<int>): (r: seq<real>)
    requires InBase(ids, |dist|)
    ensures |r| == |ids| && forall i :: 0 <= i < |ids| ==> r[i] == dist[ids[i]]
  {
    seq(|ids|, i requires 0 <= i < |ids| => dist[ids[i]])
  }

  /** Distinct base rows in ascending distance, and no other row is nearer than any of them. */
  ghost predicate ExactTruth(dist: seq<real>, gt: seq<int>) {
    && InBase(gt, |dist|)
    && (forall i, j :: 0 <= i < j < |gt| ==> gt[i] != gt[j])
    && (forall i, j :: 0 <= i < j < |gt| ==> dist[gt[i]] <= dist[gt[j]])
    && (forall x, i :: 0 <= x < |dist| && x !in gt && 0 <= i < |gt| ==> dist[gt[i]] <= dist[x])
  }

  lemma {:induction false} CountIsCountIf(dist: seq<real>, ids: seq<int>, t: real)
    requires InBase(ids, |dist|)
    ensures CountBelow(Distances(dist, ids), t) == CountIf(ids, x => 0 <= x < |dist| && dist[x] < t)
  {
    if ids != [] {
      var n := |ids| - 1;
      CountIsCountIf(dist, ids[..n], t);
      assert Distances(dist, ids)[..n] == Distances(dist, ids[..n]);
    }
  }

  lemma {:induction false} FrontSize(gt: seq<int>, j: nat)
    requires j <= |gt|
    ensures |set i | 0 <= i < j :: gt[i]| <= j
  {
    if j > 0 {
      FrontSize(gt, j - 1);
      var front, before := set i | 0 <= i < j :: gt[i], set i | 0 <= i < j - 1 :: gt[i];
      assert front == before + {gt[j - 1]};
    }
  }

  /** The j-th smallest returned distance is never below the j-th true distance. */
  lemma RankDominates(dist: seq<real>, gt: seq<int>, ret: seq<int>, j: nat)
    requires ExactTruth(dist, gt) && InBase(ret, |dist|) && j < |gt| <= |ret|
    requires forall a, b :: 0 <= a < b < |ret| ==> ret[a] != ret[b]
    ensures dist[gt[j]] <= SortReal(Distances(dist, ret))[j]
  {
    var t := dist[gt[j]];
    var front := set i | 0 <= i < j :: gt[i];
    var near: int -> bool := x => 0 <= x < |dist| && dist[x] < t;
    forall x | x in ret && near(x) ensures x in front {
      if x in gt {
        var i :| 0 <= i < |gt| && gt[i] == x;
        assert i < j;
      }
    }
    CountFits(ret, near, front);
    FrontSize(gt, j);
    CountIsCountIf(dist, ret, t);
    SortKeepsCount(Distances(dist, ret), t);
    SortRealSorted(Distances(dist, ret));
    RankBound(SortReal(Distances(dist, ret)), j, t);
  }

  /** Sum of ret[j] / true[j] over the positions with true[j] > 0, and their number. */
  function RatioSum(ret: seq<real>, truth: seq<real>): real
    requires |truth| <= |ret|
  {
    if truth == [] then 0.0
    else
      var n := |truth| - 1;
      RatioSum(ret, truth[..n]) + if truth[n] > 0.0 then ret[n] / truth[n] else 0.0
  }

  function PositiveCount(truth: seq<real>): nat {
    if truth == [] then 0 else PositiveCount(truth[..|truth| - 1]) + if truth[|truth| - 1] > 0.0 then 1 else 0
  }

  lemma {:induction false} RatioSumBound(ret: seq<real>, truth: seq<real>)
    requires |truth| <= |ret| && forall j :: 0 <= j < |truth| ==> truth[j] <= ret[j]
    ensures RatioSum(ret, truth) >= PositiveCount(truth) as real
  {
    if truth != [] {
      var n := |truth| - 1;
      RatioSumBound(ret, truth[..n]);
      if truth[n] > 0.0 {
        RatioAtLeastOne(ret[n], truth[n]);
      }
    }
  }

  lemma RatioAtLeastOne(a: real, b: real)
    requires 0.0 < b <= a
    ensures a / b >= 1.0
  {
  }

  /** One query's contribution: nothing, a mean ratio, or the IndexError of masking a short array. */
  datatype QueryMre = Skipped | Ratio(value: real) | ShapeError

  function MreOf(dist: seq<real>, gt: seq<int>, ret: seq<int>): QueryMre
    requires InBase(gt, |dist|) && InBase(ret, |dist|)
  {
    if gt == [] || ret == [] then Skipped
    else
      var truth, sorted := Distances(dist, gt), SortReal(Distances(dist, ret));
      if PositiveCount(truth) == 0 then Skipped
      else if |sorted| < |truth| then ShapeError
      else Ratio(RatioSum(sorted, truth) / PositiveCount(truth) as real)
  }

  lemma {:induction false} PositiveCountIs(truth: seq<real>)
    ensures PositiveCount(truth) == 0 <==> forall j :: 0 <= j < |truth| ==> truth[j] <= 0.0
  {
    if truth != [] {
      PositiveCountIs(truth[..|truth| - 1]);
    }
  }

  /** A query is passed over without groundtruth, without results, or with no positive true distance; of
      the others it fails exactly for fewer results than groundtruth. */
  lemma MreOutcome(dist: seq<real>, gt: seq<int>, ret: seq<int>)
    requires InBase(gt, |dist|) && InBase(ret, |dist|)
    ensures MreOf(dist, gt, ret).Skipped?
            <==> gt == [] || ret == [] || forall j :: 0 <= j < |gt| ==> dist[gt[j]] <= 0.0
    ensures MreOf(dist, gt, ret).ShapeError?
            <==> 0 < |ret| < |gt| && exists j :: 0 <= j < |gt| && dist[gt[j]] > 0.0
  {
    hide RatioSum, PositiveCount, SortReal;
    PositiveCountIs(Distances(dist, gt));
  }

  lemma QueryMreAtLeastOne(dist: seq<real>, gt: seq<int>, ret: seq<int>)
    requires ExactTruth(dist, gt) && InBase(ret, |dist|) && |gt| <= |ret|
    requires forall a, b :: 0 <= a < b < |ret| ==> ret[a] != ret[b]
    ensures var m := MreOf(dist, gt, ret); m.Skipped? || (m.Ratio? && m.value >= 1.0)
  {
    var truth, sorted := Distances(dist, gt), SortReal(Distances(dist, ret));
    forall j | 0 <= j < |truth| ensures truth[j] <= sorted[j] {
      RankDominates(dist, gt, ret, j);
    }
    RatioSumBound(sorted, truth);
    if PositiveCount(truth) > 0 {
      AverageAtLeastOne(RatioSum(sorted, truth), PositiveCount(truth));
    }
  }

  /** A ratio, without dividing, lies between a and b. */
  ghost predicate RatioIn(x: real, d: real, a: real, b: real) {
    a * d <= x <= b * d
  }

  lemma RatioBetween(x: real, d: real, a: real, b: real)
    requires d > 0.0 && RatioIn(x, d, a, b)
    ensures a <= x / d <= b
  {
  }

  lemma NoRatio(a: real, b: real)
    ensures RatioIn(0.0, 0.0, a, b)
  {
  }

  lemma OneMoreRatio(s: real, n: real, r: real, a: real, b: real)
    requires RatioIn(s, n, a, b) && a <= r <= b
    ensures RatioIn(s + r, n + 1.0, a, b)
  {
    assert a * (n + 1.0) == a * n + a && b * (n + 1.0) == b * n + b;
  }

  lemma {:induction false} RatioSumBetween(ret: seq<real>, truth: seq<real>, a: real, b: real)
    requires |truth| <= |ret|
    requires forall j :: 0 <= j < |truth| && truth[j] > 0.0 ==> RatioIn(ret[j], truth[j], a, b)
    ensures RatioIn(RatioSum(ret, truth), PositiveCount(truth) as real, a, b)
  {
    hide RatioIn;
    if truth == [] {
      NoRatio(a, b);
    } else {
      var n := |truth| - 1;
      RatioSumBetween(ret, truth[..n], a, b);
      if truth[n] > 0.0 {
        RatioBetween(ret[n], truth[n], a, b);
        OneMoreRatio(RatioSum(ret, truth[..n]), PositiveCount(truth[..n]) as real, ret[n] / truth[n], a, b);
      }
    }
  }

  /** A query's error is a mean of ratios: it lies wherever all of them lie.  In particular distances that
      are c times the true ones give c. */
  lemma MreBetween(dist: seq<real>, gt: seq<int>, ret: seq<int>, a: real, b: real)
    requires InBase(gt, |dist|) && InBase(ret, |dist|) && MreOf(dist, gt, ret).Ratio?
    requires forall j :: 0 <= j < |gt| && j < |ret| && dist[gt[j]] > 0.0 ==>
               RatioIn(SortReal(Distances(dist, ret))[j], dist[gt[j]], a, b)
    ensures a <= MreOf(dist, gt, ret).value <= b
  {
    hide RatioIn, RatioSum, PositiveCount, SortReal;
    var truth, sorted := Distances(dist, gt), SortReal(Distances(dist, ret));
    RatioSumBetween(sorted, truth, a, b);
    RatioBetween(RatioSum(sorted, truth), PositiveCount(truth) as real, a, b);
  }

  /** Dividing by d, y differs from x as s' does from s. */
  ghost predicate Moves(s: real, s': real, x: real, y: real, d: real) {
    (s' - s) * d == y - x
  }

  /** Every position with a positive true distance has the same weight. */
  lemma {:induction false} RatioSumUpdate(ret: seq<real>, truth: seq<real>, j: nat, x: real)
    requires j < |truth| <= |ret| && truth[j] > 0.0
    ensures Moves(RatioSum(ret, truth), RatioSum(ret[j := x], truth), ret[j], x, truth[j])
  {
    hide Moves;
    var n := |truth| - 1;
    if j == n {
      SamePrefix(ret, ret[j := x], truth[..n]);
      RatioChange(RatioSum(ret, truth[..n]), ret[j], x, truth[j]);
    } else {
      RatioSumUpdate(ret, truth[..n], j, x);
      var last := if truth[n] > 0.0 then ret[n] / truth[n] else 0.0;
      MovesShifted(RatioSum(ret, truth[..n]), RatioSum(ret[j := x], truth[..n]), ret[j], x, truth[j], last);
    }
  }

  lemma RatioChange(s: real, x: real, y: real, d: real)
    requires d > 0.0
    ensures Moves(s + x / d, s + y / d, x, y, d)
  {
    assert (y / d) * d == y && (x / d) * d == x;
  }

  lemma MovesShifted(s: real, s': real, x: real, y: real, d: real, c: real)
    requires Moves(s, s', x, y, d)
    ensures Moves(s + c, s' + c, x, y, d)
  {
    assert (s' + c) - (s + c) == s' - s;
  }

  lemma {:induction false} SamePrefix(ret: seq<real>, ret': seq<real>, truth: seq<real>)
    requires |truth| <= |ret| == |ret'| && forall j :: 0 <= j < |truth| ==> ret[j] == ret'[j]
    ensures RatioSum(ret, truth) == RatioSum(ret', truth)
  {
    if truth != [] {
      SamePrefix(ret, ret', truth[..|truth| - 1]);
    }
  }

  lemma AverageAtLeastOne(sum: real, n: nat)
    requires n > 0 && sum >= n as real
    ensures sum / n as real >= 1.0
  {
  }

  // ---------- all queries ----------

  datatype Result = Errors(mean: real, median: real) | Failed

  /** The two figures of the script, -1 for both without any ratio. */
  function MeanOf(m: seq<real>): real {
    if m == [] then -1.0 else SumOf(m) / |m| as real
  }

  function MedianOf(m: seq<real>): real {
    if m == [] then -1.0 else Median(m)
  }

  function SumOf(s: seq<real>): real {
    if s == [] then 0.0 else SumOf(s[..|s| - 1]) + s[|s| - 1]
  }

  /** The ids compared for query i. */
  function Ids(table: seq<seq<int>>, i: nat, kUse: nat): seq<int>
    requires i < |table|
  {
    Present(Take(table[i], kUse))
  }

  ghost predicate ValidTables(dists: seq<seq<real>>, gt: seq<seq<int>>, ret: seq<seq<int>>, kUse: nat) {
    && |gt| == |ret| == |dists|
    && forall i :: 0 <= i < |dists| ==> InBase(Ids(gt, i, kUse), |dists[i]|) && InBase(Ids(ret, i, kUse), |dists[i]|)
  }

  /** Groundtruth rows are exact, and every query returns enough distinct rows to compare with them. */
  ghost predicate Comparable(dists: seq<seq<real>>, gt: seq<seq<int>>, ret: seq<seq<int>>, kUse: nat)
    requires ValidTables(dists, gt, ret, kUse)
  {
    forall i :: 0 <= i < |dists| ==>
      && ExactTruth(dists[i], Ids(gt, i, kUse)) && |Ids(gt, i, kUse)| <= |Ids(ret, i, kUse)|
      && forall a, b :: 0 <= a < b < |Ids(ret, i, kUse)| ==> Ids(ret, i, kUse)[a] != Ids(ret, i, kUse)[b]
  }

  function QueryResult(dists: seq<seq<real>>, gt: seq<seq<int>>, ret: seq<seq<int>>, kUse: nat, i: nat): QueryMre
    requires |gt| == |ret| == |dists| && i < |dists|
    requires InBase(Ids(gt, i, kUse), |dists[i]|) && InBase(Ids(ret, i, kUse), |dists[i]|)
  {
    MreOf(dists[i], Ids(gt, i, kUse), Ids(ret, i, kUse))
  }

  ghost function QueryResults(dists: seq<seq<real>>, gt: seq<seq<int>>, ret: seq<seq<int>>, kUse: nat): (r: seq<QueryMre>)
    requires ValidTables(dists, gt, ret, kUse)
    ensures |r| == |dists| && forall i :: 0 <= i < |r| ==> r[i] == QueryResult(dists, gt, ret, kUse, i)
  {
    seq(|dists|, i requires 0 <= i < |dists| => QueryResult(dists, gt, ret, kUse, i))
  }

  /** The ratios of the queries that have one. */
  function Ratios(results: seq<QueryMre>): seq<real> {
    if results == [] then []
    else
      var q := results[|results| - 1];
      Ratios(results[..|results| - 1]) + if q.Ratio? then [q.value] else []
  }

  lemma RatiosNext(results: seq<QueryMre>, q: QueryMre)
    ensures Ratios(results + [q]) == Ratios(results) + if q.Ratio? then [q.value] else []
  {
    assert (results + [q])[..|results|] == results;
  }

  /** compute_mre_at_k */
  method ComputeMre(dists: seq<seq<real>>, gt: seq<seq<int>>, ret: seq<seq<int>>, kUse: nat) returns (r: Result)
    requires ValidTables(dists, gt, ret, kUse)
    ensures r.Failed? <==> ShapeError in QueryResults(dists, gt, ret, kUse)
    ensures var m := Ratios(QueryResults(dists, gt, ret, kUse));
            r.Errors? ==> r.mean == MeanOf(m) && r.median == MedianOf(m)
  {
    hide QueryResult, Ids, Ratios, Median;
    var mres: seq<real> := [];
    ghost var results := QueryResults(dists, gt, ret, kUse);
    assert mres == Ratios(results[..0]) by { NoRatios(results[..0]); }
    for i := 0 to |dists|
      invariant ShapeError !in results[..i]
      invariant mres == Ratios(results[..i])
    {
      var q := QueryResult(dists, gt, ret, kUse, i);
      assert results[..i + 1] == results[..i] + [q];
      RatiosNext(results[..i], q);
      match q {
        case Skipped =>
        case Ratio(v) => mres := mres + [v];
        case ShapeError =>
          assert results[i] == ShapeError;
          return Failed;
      }
    }
    assert results[..|dists|] == results;
    r := if mres == [] then Errors(-1.0, -1.0) else Errors(SumOf(mres) / |mres| as real, Median(mres));
  }

  lemma NoRatios(results: seq<QueryMre>)
    requires results == []
    ensures Ratios(results) == []
  {
  }

  predicate AtLeastOne(m: QueryMre) {
    m.Skipped? || (m.Ratio? && m.value >= 1.0)
  }

  /** With exact groundtruth and enough distinct results the computation succeeds with -1 or with a mean
      and a median of at least 1. */
  lemma MreAtLeastOne(dists: seq<seq<real>>, gt: seq<seq<int>>, ret: seq<seq<int>>, kUse: nat)
    requires ValidTables(dists, gt, ret, kUse) && Comparable(dists, gt, ret, kUse)
    ensures ShapeError !in QueryResults(dists, gt, ret, kUse)
    ensures var m := Ratios(QueryResults(dists, gt, ret, kUse)); m == [] || (MeanOf(m) >= 1.0 && MedianOf(m) >= 1.0)
  {
    hide MreOf, Ids, ExactTruth, Median;
    var results := QueryResults(dists, gt, ret, kUse);
    forall i | 0 <= i < |dists| ensures AtLeastOne(results[i]) {
      QueryMreAtLeastOne(dists[i], Ids(gt, i, kUse), Ids(ret, i, kUse));
    }
    RatiosAtLeastOne(results);
    var m := Ratios(results);
    SumAtLeast(m);
    if m != [] {
      AverageAtLeastOne(SumOf(m), |m|);
      NoneBelow(m, 1.0);
      MedianReaches(m, 1.0);
    }
  }

  lemma {:induction false} NoneBelow(s: seq<real>, t: real)
    requires forall i :: 0 <= i < |s| ==> s[i] >= t
    ensures CountBelow(s, t) == 0
  {
    if s != [] {
      NoneBelow(s[..|s| - 1], t);
    }
  }

  lemma MedianReaches(s: seq<real>, t: real)
    requires s != [] && CountBelow(s, t) == 0
    ensures Median(s) >= t
  {
    MedianHalves(s, t);
  }

  lemma {:induction false} RatiosAtLeastOne(results: seq<QueryMre>)
    requires forall i :: 0 <= i < |results| ==> AtLeastOne(results[i])
    ensures forall j :: 0 <= j < |Ratios(results)| ==> Ratios(results)[j] >= 1.0
  {
    if results != [] {
      var n := |results| - 1;
      RatiosAtLeastOne(results[..n]);
      assert AtLeastOne(results[n]);
    }
  }

  lemma {:induction false} SumUpdate(s: seq<real>, i: nat, x: real)
    requires i < |s|
    ensures SumOf(s[i := x]) == SumOf(s) - s[i] + x
  {
    var n := |s| - 1;
    if i == n {
      assert s[i := x][..n] == s[..n];
    } else {
      SumUpdate(s[..n], i, x);
      assert s[i := x][..n] == s[..n][i := x];
    }
  }

  /** The mean over the queries is the common value if there is one, and moves by an equal share of any
      change to one of them. */
  lemma MeanWeighsAlike(m: seq<real>, i: nat, x: real)
    requires i < |m|
    ensures Moves(MeanOf(m), MeanOf(m[i := x]), m[i], x, |m| as real)
    ensures (forall j :: 0 <= j < |m| ==> m[j] == x) ==> MeanOf(m) == x
  {
    hide SumOf;
    SumUpdate(m, i, x);
    MeanChange(SumOf(m), m[i], x, |m| as real);
    if forall j :: 0 <= j < |m| ==> m[j] == x {
      SumOfSame(m, x);
      RatioBetween(SumOf(m), |m| as real, x, x);
    }
  }

  lemma MeanChange(s: real, x: real, y: real, n: real)
    requires n > 0.0
    ensures Moves(s / n, (s - x + y) / n, x, y, n)
  {
    assert (s / n) * n == s && ((s - x + y) / n) * n == s - x + y;
  }

  lemma {:induction false} SumOfSame(s: seq<real>, x: real)
    requires forall i :: 0 <= i < |s| ==> s[i] == x
    ensures SumOf(s) == x * |s| as real
  {
    if s != [] {
      SumOfSame(s[..|s| - 1], x);
      assert x * |s| as real == x * (|s| - 1) as real + x;
    }
  }

  lemma {:induction false} SumAtLeast(s: seq<real>)
    requires forall i :: 0 <= i < |s| ==> s[i] >= 1.0
    ensures SumOf(s) >= |s| as real
  {
    if s != [] {
      SumAtLeast(s[..|s| - 1]);
    }
  }
}
