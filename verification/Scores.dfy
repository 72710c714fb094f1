/** The metrics of bench_eps_recall.py and the inequalities between them. */
module Scores {
  import opened Common
  import opened Vectors
  import opened EpsRecall

  function CountIf<T>(row: seq<T>, p: T -> bool): (n: nat)
    ensures n <= |row|
  {
    if row == [] then 0 else CountIf(row[..|row| - 1], p) + if p(row[|row| - 1]) then 1 else 0
  }

  /** Distinct elements that all occur and count are no more than the counted positions. */
  lemma {:induction false} SetFits<T>(row: seq<T>, p: T -> bool, h: set<T>)
    requires forall x :: x in h ==> x in row && p(x)
    ensures |h| <= CountIf(row, p)
  {
    if row == [] {
      assert h == {};
    } else {
      var last := row[|row| - 1];
      SetFits(row[..|row| - 1], p, h - {last});
    }
  }

  /** In a list without repetition the counted positions are no more than the elements they show. */
  lemma {:induction false} CountFits<T>(row: seq<T>, p: T -> bool, h: set<T>)
    requires forall i, j :: 0 <= i < j < |row| ==> row[i] != row[j]
    requires forall x :: x in row && p(x) ==> x in h
    ensures CountIf(row, p) <= |h|
  {
    if row != [] {
      var last := row[|row| - 1];
      CountFits(row[..|row| - 1], p, h - {last});
    }
  }

  lemma {:induction false} CountMonotone<T>(row: seq<T>, p: T -> bool, p': T -> bool)
    requires forall x :: x in row && p(x) ==> p'(x)
    ensures CountIf(row, p) <= CountIf(row, p')
  {
    if row != [] {
      CountMonotone(row[..|row| - 1], p, p');
    }
  }

  // ---------- per query ----------

  function Take<T>(row: seq<T>, k: nat): seq<T> {
    if k <= |row| then row[..k] else row
  }

  /** (set(ids) - {-1}) & set(gt[:k]) */
  function HitSet(row: seq<int>, gt: seq<int>, k: nat): set<int> {
    ((set x | x in Take(row, k)) - {-1}) * (set x | x in Take(gt, k))
  }

  function Hits(row: seq<int>, gt: seq<int>, k: nat): nat {
    |HitSet(row, gt, k)|
  }

  /** ((1 + eps) * d_k) ** 2 * slack, from the squared k-th distance. */
  function Threshold(dk2: Dist, eps: real, slack: real): Dist {
    if dk2.Inf? then Inf else Fin((1.0 + eps) * (1.0 + eps) * dk2.v * slack)
  }

  predicate Credited(xb: seq<seq<real>>, q: seq<real>, t: Dist, id: int) {
    Matrix(xb, |q|) && id < |xb| && Le(DistOf(xb, q, id), t)
  }

  /** Returned positions within the threshold. */
  function Credit(xb: seq<seq<real>>, q: seq<real>, row: seq<int>, t: Dist): (n: nat)
    ensures n <= |row|
  {
    CountIf(row, id => Credited(xb, q, t, id))
  }

  /** Base points within the threshold. */
  ghost function Plateau(xb: seq<seq<real>>, q: seq<real>, t: Dist): set<int> {
    set id | 0 <= id < |xb| && Credited(xb, q, t, id)
  }

  // ---------- what the threshold means for distances ----------

  lemma SquaresOrder(x: real, r: real)
    requires x >= 0.0 && r >= 0.0
    ensures x * x <= r * r <==> x <= r
  {
    if x <= r {
      Scale(x, r, x);
      Scale(x, r, r);
    } else {
      Positive(x - r, x + r);
      assert (x - r) * (x + r) == x * x - r * r;
    }
  }

  lemma Positive(a: real, b: real)
    requires a > 0.0 && b > 0.0
    ensures a * b > 0.0
  {
  }

  lemma SlackCancels(a: real, b: real, slack: real)
    requires slack > 0.0
    ensures a * slack <= b * slack <==> a <= b
  {
    if a > b {
      Positive(a - b, slack);
    } else {
      Scale(a, b, slack);
    }
  }

  lemma ThresholdIs(d: real, eps: real, slack: real)
    ensures var r := (1.0 + eps) * d; Threshold(Fin(d * d), eps, slack) == Fin(r * r * slack)
  {
    var f := 1.0 + eps;
    assert f * f * (d * d) == (f * d) * (f * d);
  }

  /** The rule of eps-recall: squares and slack aside, a distance x counts exactly when it is at most
      (1 + eps) times the reference distance d. */
  lemma EpsRule(x: real, d: real, eps: real, slack: real)
    requires x >= 0.0 && d >= 0.0 && eps >= 0.0 && slack > 0.0
    ensures Le(Fin(x * x * slack), Threshold(Fin(d * d), eps, slack)) <==> x <= (1.0 + eps) * d
  {
    hide Threshold;
    var r := (1.0 + eps) * d;
    Scale(0.0, 1.0 + eps, d);
    ThresholdIs(d, eps, slack);
    SlackCancels(x * x, r * r, slack);
    SquaresOrder(x, r);
  }

  /** The slack admits no more than that factor, and nothing at all when it is 1. */
  lemma EpsRuleWithSlack(x: real, d: real, eps: real, slack: real)
    requires x >= 0.0 && d >= 0.0 && eps >= 0.0 && slack >= 1.0
    ensures x <= (1.0 + eps) * d ==> Le(Fin(x * x), Threshold(Fin(d * d), eps, slack))
    ensures Le(Fin(x * x), Threshold(Fin(d * d), eps, slack)) ==> x <= (1.0 + eps) * d * slack
  {
    hide Threshold;
    var r := (1.0 + eps) * d;
    Scale(0.0, 1.0 + eps, d);
    Scale(0.0, r, slack);
    ThresholdIs(d, eps, slack);
    SquaresOrder(x, r);
    SquaresOrder(x, r * slack);
    SquareNonNegative(r);
    Scale(1.0, slack, r * r);
    Scale(1.0, slack, r * r * slack);
    assert (r * slack) * (r * slack) == r * r * slack * slack;
  }

  lemma SquareNonNegative(r: real)
    ensures r * r >= 0.0
  {
  }

  /** `dist` lists the distances of the base points to the query, unsquared. */
  ghost predicate IsDistances(xb: seq<seq<real>>, q: seq<real>, dist: seq<real>) {
    && Matrix(xb, |q|) && |dist| == |xb|
    && forall i :: 0 <= i < |xb| ==> dist[i] >= 0.0 && dist[i] * dist[i] == D2(xb[i], q)
  }

  /** A base point no farther than the radius. */
  predicate InBall(dist: seq<real>, id: int, radius: real) {
    0 <= id < |dist| && dist[id] <= radius
  }

  /** Whether a point at distance x is within a threshold for squared distances. */
  ghost predicate Admits(t: Dist, x: real) {
    Le(Fin(x * x), t)
  }

  /** A threshold that lies between the radii r and r'. */
  ghost predicate Between(t: Dist, r: real, r': real) {
    t.Fin? && forall x :: x >= 0.0 ==> (x <= r ==> Admits(t, x)) && (Admits(t, x) ==> x <= r')
  }

  /** (1 + eps) times the reference distance, stretched. */
  function Radius(d: real, eps: real, stretch: real): real {
    (1.0 + eps) * d * stretch
  }

  lemma ThresholdBetween(d: real, eps: real, slack: real)
    requires d >= 0.0 && eps >= 0.0 && slack >= 1.0
    ensures Between(Threshold(Fin(d * d), eps, slack), Radius(d, eps, 1.0), Radius(d, eps, slack))
  {
    hide Threshold;
    var t := Threshold(Fin(d * d), eps, slack);
    ThresholdIs(d, eps, slack);
    forall x | x >= 0.0
      ensures x <= Radius(d, eps, 1.0) ==> Admits(t, x)
      ensures Admits(t, x) ==> x <= Radius(d, eps, slack)
    {
      EpsRuleWithSlack(x, d, eps, slack);
    }
  }

  lemma CreditedIsInBall(xb: seq<seq<real>>, q: seq<real>, dist: seq<real>, t: Dist, r: real, r': real, id: int)
    requires IsDistances(xb, q, dist) && Between(t, r, r')
    ensures InBall(dist, id, r) ==> Credited(xb, q, t, id)
    ensures Credited(xb, q, t, id) ==> InBall(dist, id, r')
  {
    hide D2;
    if 0 <= id < |xb| {
      assert dist[id] >= 0.0;
      assert Admits(t, dist[id]) <==> Le(Fin(dist[id] * dist[id]), t);
      assert DistOf(xb, q, id) == Fin(dist[id] * dist[id]);
    }
  }

  lemma CreditBetween(xb: seq<seq<real>>, q: seq<real>, row: seq<int>, dist: seq<real>, t: Dist, r: real, r': real)
    requires IsDistances(xb, q, dist) && Between(t, r, r')
    ensures BallHits(row, dist, r) <= Credit(xb, q, row, t) <= BallHits(row, dist, r')
    ensures Ball(dist, r) <= Plateau(xb, q, t) <= Ball(dist, r')
  {
    hide Credited, InBall, IsDistances, Between;
    assert |dist| == |xb| by {
      SameCount(xb, q, dist);
    }
    forall id: int
      ensures InBall(dist, id, r) ==> Credited(xb, q, t, id)
      ensures Credited(xb, q, t, id) ==> InBall(dist, id, r')
    {
      CreditedIsInBall(xb, q, dist, t, r, r', id);
    }
    CountMonotone(row, id => InBall(dist, id, r), id => Credited(xb, q, t, id));
    CountMonotone(row, id => Credited(xb, q, t, id), id => InBall(dist, id, r'));
  }

  lemma SameCount(xb: seq<seq<real>>, q: seq<real>, dist: seq<real>)
    requires IsDistances(xb, q, dist)
    ensures |dist| == |xb|
  {
  }

  /** Listed points within the radius. */
  function BallHits(row: seq<int>, dist: seq<real>, radius: real): nat {
    CountIf(row, id => InBall(dist, id, radius))
  }

  ghost function Ball(dist: seq<real>, radius: real): set<int> {
    set id | 0 <= id < |dist| && InBall(dist, id, radius)
  }

  /** Credit counts the returned points within (1 + eps) times the reference distance, and the plateau is
      the ball of that radius; the slack is all that is added. */
  lemma CreditCountsBall(xb: seq<seq<real>>, q: seq<real>, row: seq<int>, dist: seq<real>, d: real, eps: real,
                         slack: real)
    requires IsDistances(xb, q, dist) && d >= 0.0 && eps >= 0.0 && slack >= 1.0
    ensures var t, r, r' := Threshold(Fin(d * d), eps, slack), Radius(d, eps, 1.0), Radius(d, eps, slack);
            && BallHits(row, dist, r) <= Credit(xb, q, row, t) <= BallHits(row, dist, r')
            && Ball(dist, r) <= Plateau(xb, q, t) <= Ball(dist, r')
            && (slack == 1.0 ==> Credit(xb, q, row, t) == BallHits(row, dist, r) && Plateau(xb, q, t) == Ball(dist, r))
  {
    hide Threshold, IsDistances, Between, BallHits, Ball, Plateau, Credit, InBall, Radius;
    var t, r, r' := Threshold(Fin(d * d), eps, slack), Radius(d, eps, 1.0), Radius(d, eps, slack);
    ThresholdBetween(d, eps, slack);
    CreditBetween(xb, q, row, dist, t, r, r');
    if slack == 1.0 {
      CreditBetween(xb, q, row, dist, t, r, r);
    }
  }

  // ---------- the slacks ----------

  const RECALL_SLACK: real := 1.000000000001
  const PLATEAU_SLACK: real := 1.000000001

  /** Groundtruth ids are base rows in ascending exact distance, and dk2 is the k-th distance. */
  predicate GoodTruth(xb: seq<seq<real>>, q: seq<real>, gt: seq<int>, k: nat, dk2: Dist) {
    && Matrix(xb, |q|) && 1 <= k <= |gt|
    && (forall j :: 0 <= j < |gt| ==> 0 <= gt[j] < |xb|)
    && (forall i, j :: 0 <= i < j < |gt| ==> D2(xb[gt[i]], q) <= D2(xb[gt[j]], q))
    && dk2 == Fin(D2(xb[gt[k - 1]], q))
  }

  /** Every id hit is a credited point already at eps = 0. */
  lemma HitsAreCredited(xb: seq<seq<real>>, q: seq<real>, row: seq<int>, gt: seq<int>, k: nat, dk2: Dist)
    requires GoodTruth(xb, q, gt, k, dk2)
    ensures Hits(row, gt, k) <= Credit(xb, q, Take(row, k), Threshold(dk2, 0.0, RECALL_SLACK))
  {
    var t := Threshold(dk2, 0.0, RECALL_SLACK);
    var h := HitSet(row, gt, k);
    forall x | x in h ensures x in Take(row, k) && Credited(xb, q, t, x) {
      var j :| 0 <= j < k && gt[j] == x;
      D2NonNegative(xb[gt[k - 1]], q);
      assert D2(xb[gt[j]], q) <= D2(xb[gt[k - 1]], q);
    }
    SetFits(Take(row, k), id => Credited(xb, q, t, id), h);
  }

  /** Id recall counts the true neighbours that were returned: all k exactly when none is missing. */
  lemma HitsCountNeighbours(row: seq<int>, gt: seq<int>, k: nat)
    requires k <= |gt| && -1 !in gt && forall i, j :: 0 <= i < j < |gt| ==> gt[i] != gt[j]
    ensures Hits(row, gt, k) == CountIf(gt[..k], x => x in Take(row, k))
    ensures Hits(row, gt, k) == k <==> forall j :: 0 <= j < k ==> gt[j] in Take(row, k)
  {
    hide CountIf, Take;
    var h := HitSet(row, gt, k);
    HitsMember(row, gt, k);
    var p: int -> bool := x => x in Take(row, k);
    forall x ensures x in h <==> x in gt[..k] && p(x) {
    }
    SetFits(gt[..k], p, h);
    CountFits(gt[..k], p, h);
    CountAll(gt[..k], p);
    assert forall j :: 0 <= j < k ==> gt[..k][j] == gt[j];
  }

  lemma HitsMember(row: seq<int>, gt: seq<int>, k: nat)
    requires k <= |gt| && -1 !in gt
    ensures forall x :: x in HitSet(row, gt, k) <==> x in gt[..k] && x in Take(row, k)
  {
    assert forall x :: x in gt[..k] ==> x in gt;
  }

  lemma {:induction false} CountAll<T>(row: seq<T>, p: T -> bool)
    ensures CountIf(row, p) == |row| <==> forall j :: 0 <= j < |row| ==> p(row[j])
  {
    if row != [] {
      CountAll(row[..|row| - 1], p);
    }
  }

  /** gt_distances of an ascending groundtruth row shows dk2 as its k-th entry. */
  lemma TruthDistances(xb: seq<seq<real>>, q: seq<real>, gt: seq<int>, k: nat, dk2: Dist)
    requires GoodTruth(xb, q, gt, k, dk2)
    ensures SortDist(seq(|gt|, j requires 0 <= j < |gt| => DistOf(xb, q, gt[j])))[k - 1] == dk2
  {
    hide D2, SortDist;
    SortedAlready(seq(|gt|, j requires 0 <= j < |gt| => DistOf(xb, q, gt[j])));
  }

  lemma ThresholdMonotone(dk2: Dist, e: real, e': real, slack: real, slack': real)
    requires 0.0 <= e <= e' && 0.0 <= slack <= slack' && (dk2.Fin? ==> dk2.v >= 0.0)
    ensures Le(Threshold(dk2, e, slack), Threshold(dk2, e', slack'))
  {
    if dk2.Fin? {
      var a, b := (1.0 + e) * (1.0 + e), (1.0 + e') * (1.0 + e');
      assert a <= b by {
        assert (1.0 + e') * (1.0 + e') - (1.0 + e) * (1.0 + e) == (e' - e) * (2.0 + e + e');
      }
      Scale(a, b, dk2.v);
      Scale(slack, slack', a * dk2.v);
      Scale(a * dk2.v, b * dk2.v, slack');
    }
  }

  lemma Scale(a: real, b: real, c: real)
    requires a <= b && c >= 0.0
    ensures a * c <= b * c
  {
  }

  /** A larger eps never credits less. */
  lemma CreditMonotone(xb: seq<seq<real>>, q: seq<real>, row: seq<int>, dk2: Dist, e: real, e': real)
    requires 0.0 <= e <= e' && (dk2.Fin? ==> dk2.v >= 0.0)
    ensures Credit(xb, q, row, Threshold(dk2, e, RECALL_SLACK)) <= Credit(xb, q, row, Threshold(dk2, e', RECALL_SLACK))
  {
    ThresholdMonotone(dk2, e, e', RECALL_SLACK, RECALL_SLACK);
    CountMonotone(row, id => Credited(xb, q, Threshold(dk2, e, RECALL_SLACK), id),
                  id => Credited(xb, q, Threshold(dk2, e', RECALL_SLACK), id));
  }

  /** Distinct returned points that earn credit lie on the plateau of the same eps. */
  lemma CreditFitsPlateau(xb: seq<seq<real>>, q: seq<real>, row: seq<int>, dk2: Dist, e: real)
    requires e >= 0.0 && dk2.Fin? && dk2.v >= 0.0
    requires forall i, j :: 0 <= i < j < |row| ==> row[i] != row[j]
    ensures Credit(xb, q, row, Threshold(dk2, e, RECALL_SLACK)) <= |Plateau(xb, q, Threshold(dk2, e, PLATEAU_SLACK))|
  {
    var t, t' := Threshold(dk2, e, RECALL_SLACK), Threshold(dk2, e, PLATEAU_SLACK);
    ThresholdMonotone(dk2, e, e, RECALL_SLACK, PLATEAU_SLACK);
    forall id | id in row && Credited(xb, q, t, id) ensures id in Plateau(xb, q, t') {
    }
    CountFits(row, id => Credited(xb, q, t, id), Plateau(xb, q, t'));
  }

  // ---------- averaged over queries ----------

  function Sum(s: seq<nat>): nat {
    if s == [] then 0 else Sum(s[..|s| - 1]) + s[|s| - 1]
  }

  lemma {:induction false} SumMonotone(s: seq<nat>, t: seq<nat>)
    requires |s| == |t| && forall i :: 0 <= i < |s| ==> s[i] <= t[i]
    ensures Sum(s) <= Sum(t)
  {
    if s != [] {
      SumMonotone(s[..|s| - 1], t[..|t| - 1]);
    }
  }

  function Mean(s: seq<nat>, k: nat): real
    requires |s| > 0 && k > 0
  {
    Sum(s) as real / (|s| * k) as real
  }

  datatype EpsScore = EpsScore(mean: real, perfect: real)

  /** One query set: what eps_recall is called with. */
  datatype Run = Run(xb: seq<seq<real>>, xq: seq<seq<real>>, ids: seq<seq<int>>, gt: seq<seq<int>>, dk2: seq<Dist>, k: nat)

  predicate ValidRun(r: Run) {
    && |r.ids| == |r.xq| == |r.gt| == |r.dk2| > 0 && r.k > 0
    && (forall i :: 0 <= i < |r.ids| ==> Matrix(r.xb, |r.xq[i]|) && forall j :: 0 <= j < |r.ids[i]| ==> r.ids[i][j] < |r.xb|)
  }

  function HitCounts(r: Run): (h: seq<nat>)
    requires ValidRun(r)
    ensures |h| == |r.ids|
  {
    seq(|r.ids|, i requires 0 <= i < |r.ids| => Hits(r.ids[i], r.gt[i], r.k))
  }

  function CreditCounts(r: Run, e: real): (c: seq<nat>)
    requires ValidRun(r)
    ensures |c| == |r.ids|
  {
    seq(|r.ids|, i requires 0 <= i < |r.ids| =>
      Credit(r.xb, r.xq[i], Take(r.ids[i], r.k), Threshold(r.dk2[i], e, RECALL_SLACK)))
  }

  function Perfects(s: seq<nat>, k: nat): nat {
    CountIf(s, c => c >= k)
  }

  lemma RowChain(r: Run, e: real, e': real, i: nat)
    requires ValidRun(r) && 0.0 <= e <= e' && i < |r.ids|
    requires GoodTruth(r.xb, r.xq[i], r.gt[i], r.k, r.dk2[i])
    ensures HitCounts(r)[i] <= CreditCounts(r, 0.0)[i] <= CreditCounts(r, e)[i] <= CreditCounts(r, e')[i] <= r.k
  {
    hide Credit, Hits, Threshold, D2;
    D2NonNegative(r.xb[r.gt[i][r.k - 1]], r.xq[i]);
    HitsAreCredited(r.xb, r.xq[i], r.ids[i], r.gt[i], r.k, r.dk2[i]);
    CreditMonotone(r.xb, r.xq[i], Take(r.ids[i], r.k), r.dk2[i], 0.0, e);
    CreditMonotone(r.xb, r.xq[i], Take(r.ids[i], r.k), r.dk2[i], e, e');
  }

  lemma MeanMonotone(s: seq<nat>, t: seq<nat>, k: nat)
    requires |s| == |t| > 0 && k > 0 && forall i :: 0 <= i < |s| ==> s[i] <= t[i]
    ensures Mean(s, k) <= Mean(t, k)
  {
    SumMonotone(s, t);
    Divide(Sum(s), Sum(t), |s| * k);
  }

  lemma MeanInUnit(s: seq<nat>, k: nat)
    requires |s| > 0 && k > 0 && forall i :: 0 <= i < |s| ==> s[i] <= k
    ensures 0.0 <= Mean(s, k) <= 1.0
  {
    hide Sum;
    SumBound(s, k);
    Divide(0, Sum(s), |s| * k);
    Divide(Sum(s), |s| * k, |s| * k);
    Whole(|s| * k);
  }

  lemma {:induction false} SumUpdate(s: seq<nat>, i: nat, c: nat)
    requires i < |s|
    ensures Sum(s[i := c]) == Sum(s) - s[i] + c
  {
    var n := |s| - 1;
    if i == n {
      assert s[i := c][..n] == s[..n];
    } else {
      SumUpdate(s[..n], i, c);
      assert s[i := c][..n] == s[..n][i := c];
    }
  }

  /** The mean weighs every query alike: changing one count by c moves it by c / (nq k). */
  lemma MeanUpdate(s: seq<nat>, k: nat, i: nat, c: nat)
    requires i < |s| && k > 0
    ensures (Mean(s[i := c], k) - Mean(s, k)) * (|s| * k) as real == (c - s[i]) as real
  {
    SumUpdate(s, i, c);
    Undo(Sum(s), |s| * k);
    Undo(Sum(s[i := c]), |s| * k);
    hide Sum;
    var n := (|s| * k) as real;
    assert (Mean(s[i := c], k) - Mean(s, k)) * n == Mean(s[i := c], k) * n - Mean(s, k) * n;
  }

  lemma Undo(a: nat, n: nat)
    requires n > 0
    ensures (a as real / n as real) * n as real == a as real
  {
  }

  /** It is 1 exactly when every query has all k. */
  lemma MeanIsOne(s: seq<nat>, k: nat)
    requires |s| > 0 && k > 0 && forall i :: 0 <= i < |s| ==> s[i] <= k
    ensures Mean(s, k) == 1.0 <==> forall i :: 0 <= i < |s| ==> s[i] == k
    ensures Mean(s, k) == 1.0 <==> Perfects(s, k) == |s|
  {
    FullSum(s, k);
    FullPerfects(s, k);
    hide Sum, Perfects;
    Undo(Sum(s), |s| * k);
    Whole(|s| * k);
  }

  lemma {:induction false} FullSum(s: seq<nat>, k: nat)
    requires forall i :: 0 <= i < |s| ==> s[i] <= k
    ensures Sum(s) <= |s| * k
    ensures Sum(s) == |s| * k <==> forall i :: 0 <= i < |s| ==> s[i] == k
  {
    if s != [] {
      FullSum(s[..|s| - 1], k);
      assert |s| * k == (|s| - 1) * k + k;
    }
  }

  lemma {:induction false} FullPerfects(s: seq<nat>, k: nat)
    requires forall i :: 0 <= i < |s| ==> s[i] <= k
    ensures Perfects(s, k) == |s| <==> forall i :: 0 <= i < |s| ==> s[i] == k
  {
    if s != [] {
      FullPerfects(s[..|s| - 1], k);
    }
  }

  /** `perfect` counts the queries that have all k. */
  lemma {:induction false} PerfectsAre(s: seq<nat>, k: nat)
    ensures Perfects(s, k) == |set i | 0 <= i < |s| && s[i] >= k|
  {
    var p := set i | 0 <= i < |s| && s[i] >= k;
    if s == [] {
      assert p == {};
    } else {
      var n := |s| - 1;
      PerfectsAre(s[..n], k);
      assert p == (set i | 0 <= i < n && s[..n][i] >= k) + if s[n] >= k then {n} else {};
    }
  }

  lemma Whole(n: nat)
    requires n > 0
    ensures n as real / n as real == 1.0 && 0 as real / n as real == 0.0
  {
  }

  /** With good groundtruth: 0 <= id recall <= eps-recall at 0 <= eps-recall at e <= eps-recall at e' <= 1. */
  lemma RecallChain(r: Run, e: real, e': real)
    requires ValidRun(r) && 0.0 <= e <= e'
    requires forall i :: 0 <= i < |r.ids| ==> GoodTruth(r.xb, r.xq[i], r.gt[i], r.k, r.dk2[i])
    ensures 0.0 <= Mean(HitCounts(r), r.k) <= Mean(CreditCounts(r, 0.0), r.k)
              <= Mean(CreditCounts(r, e), r.k) <= Mean(CreditCounts(r, e'), r.k) <= 1.0
  {
    hide HitCounts, CreditCounts, GoodTruth, Mean;
    var h, c0, c, c' := HitCounts(r), CreditCounts(r, 0.0), CreditCounts(r, e), CreditCounts(r, e');
    forall i | 0 <= i < |r.ids| ensures h[i] <= c0[i] <= c[i] <= c'[i] <= r.k {
      RowChain(r, e, e', i);
    }
    MeanMonotone(h, c0, r.k);
    MeanMonotone(c0, c, r.k);
    MeanMonotone(c, c', r.k);
    MeanInUnit(h, r.k);
    MeanInUnit(c', r.k);
  }

  lemma {:induction false} SumBound(s: seq<nat>, k: nat)
    requires forall i :: 0 <= i < |s| ==> s[i] <= k
    ensures Sum(s) <= |s| * k
  {
    if s != [] {
      SumBound(s[..|s| - 1], k);
      assert |s| * k == (|s| - 1) * k + k;
    }
  }

  lemma Divide(a: nat, b: nat, n: nat)
    requires a <= b && n > 0
    ensures a as real / n as real <= b as real / n as real
  {
  }

  lemma PerfectsMonotone(s: seq<nat>, t: seq<nat>, k: nat)
    requires |s| == |t| && forall i :: 0 <= i < |s| ==> s[i] <= t[i]
    ensures Perfects(s, k) <= Perfects(t, k)
    decreases |s|
  {
    if s != [] {
      PerfectsMonotone(s[..|s| - 1], t[..|t| - 1], k);
    }
  }

  // ---------- the tables ----------

  /** What eps_recall is given, as values: `gtD2[:, k - 1]` holds the squared k-th distances. */
  ghost function RunOf(xb: seq<seq<real>>, xq: seq<seq<real>>, ids: seq<seq<int>>, gt: seq<seq<int>>,
                       gtD2: array2<Dist>, k: nat): Run
    requires 1 <= k <= gtD2.Length1
    reads gtD2
  {
    Run(xb, xq, ids, gt, seq(gtD2.Length0, i requires 0 <= i < gtD2.Length0 reads gtD2 => gtD2[i, k - 1]), k)
  }

  ghost predicate Tables(xb: seq<seq<real>>, xq: seq<seq<real>>, ids: seq<seq<int>>, w: nat, gt: seq<seq<int>>, d: nat) {
    && d > 0 && Matrix(xb, d) && Matrix(xq, d) && |ids| == |xq| == |gt| > 0 && IdTable(ids, w, |xb|)
  }

  lemma {:induction false} CountSame<A, B>(s: seq<A>, t: seq<B>, p: A -> bool, p': B -> bool)
    requires |s| == |t| && forall j :: 0 <= j < |s| ==> p(s[j]) == p'(t[j])
    ensures CountIf(s, p) == CountIf(t, p')
  {
    if s != [] {
      CountSame(s[..|s| - 1], t[..|t| - 1], p, p');
    }
  }

  /** One row of `(d2 <= thr[:, None]).sum(axis=1)`. */
  method CountRow(d2: array2<Dist>, i: nat, thr: Dist) returns (n: nat)
    requires i < d2.Length0
    ensures n == CountIf(Row(d2, i), x => Le(x, thr))
  {
    n := 0;
    ghost var row := Row(d2, i);
    for j := 0 to d2.Length1
      invariant n == CountIf(row[..j], x => Le(x, thr))
    {
      assert row[..j + 1][..j] == row[..j] && row[..j + 1][j] == d2[i, j];
      if Le(d2[i, j], thr) {
        n := n + 1;
      }
    }
    assert row[..d2.Length1] == row;
  }

  /** The counts of one eps over all queries, read off the distance table. */
  method CountTable(d2: array2<Dist>, dk: seq<Dist>, e: real, ghost r: Run) returns (perQ: seq<nat>)
    requires ValidRun(r) && r.dk2 == dk && d2.Length0 == |dk|
    requires forall i :: 0 <= i < |dk| ==> d2.Length1 == |Take(r.ids[i], r.k)|
    requires forall i, j :: 0 <= i < |dk| && 0 <= j < d2.Length1 ==>
               d2[i, j] == DistOf(r.xb, r.xq[i], Take(r.ids[i], r.k)[j])
    ensures perQ == CreditCounts(r, e)
  {
    hide Threshold, DistOf;
    perQ := [];
    for i := 0 to |dk|
      invariant |perQ| == i && forall i' :: 0 <= i' < i ==> perQ[i'] == CreditCounts(r, e)[i']
    {
      var thr := Threshold(dk[i], e, RECALL_SLACK);
      var n := CountRow(d2, i, thr);
      ghost var row := Take(r.ids[i], r.k);
      forall j | 0 <= j < |row| ensures Le(Row(d2, i)[j], thr) == Credited(r.xb, r.xq[i], thr, row[j]) {
        assert Row(d2, i)[j] == DistOf(r.xb, r.xq[i], row[j]);
      }
      CountSame(Row(d2, i), row, x => Le(x, thr), id => Credited(r.xb, r.xq[i], thr, id));
      perQ := perQ + [n];
    }
  }

  /** What the scores promise when the groundtruth rows are valid and ascending. */
  ghost predicate Chained(recall: real, res: map<real, EpsScore>) {
    && 0.0 <= recall <= 1.0
    && (forall e :: e in res && 0.0 <= e ==> recall <= res[e].mean <= 1.0)
    && forall e, e' :: e in res && e' in res && 0.0 <= e <= e' ==>
         res[e].mean <= res[e'].mean && res[e].perfect <= res[e'].perfect
  }

  ghost predicate KnownTruth(r: Run) {
    |r.ids| == |r.xq| == |r.gt| == |r.dk2|
    && forall i :: 0 <= i < |r.ids| ==> GoodTruth(r.xb, r.xq[i], r.gt[i], r.k, r.dk2[i])
  }

  /** Points a query is credited with lie on its plateau, where its returned ids are distinct. */
  ghost predicate OnPlateau(r: Run, e: real)
    requires ValidRun(r)
  {
    forall i :: 0 <= i < |r.ids| && (forall a, b :: 0 <= a < b < |r.ids[i]| ==> r.ids[i][a] != r.ids[i][b]) ==>
      CreditCounts(r, e)[i] <= |Plateau(r.xb, r.xq[i], Threshold(r.dk2[i], e, PLATEAU_SLACK))|
  }

  ghost predicate ScoresOf(r: Run, res: map<real, EpsScore>)
    requires ValidRun(r)
  {
    forall e :: e in res ==>
      res[e] == EpsScore(Mean(CreditCounts(r, e), r.k), Perfects(CreditCounts(r, e), r.k) as real / |r.ids| as real)
  }

  lemma ScoresChain(r: Run, recall: real, res: map<real, EpsScore>)
    requires ValidRun(r) && KnownTruth(r) && recall == Mean(HitCounts(r), r.k) && ScoresOf(r, res)
    ensures Chained(recall, res)
  {
    hide Mean, HitCounts, CreditCounts, GoodTruth, Perfects;
    RecallChain(r, 0.0, 0.0);
    forall e | e in res && 0.0 <= e ensures recall <= res[e].mean <= 1.0 {
      RecallChain(r, e, e);
    }
    forall e, e' | e in res && e' in res && 0.0 <= e <= e'
      ensures res[e].mean <= res[e'].mean && res[e].perfect <= res[e'].perfect
    {
      RecallChain(r, e, e');
      var c, c' := CreditCounts(r, e), CreditCounts(r, e');
      forall i | 0 <= i < |r.ids| ensures c[i] <= c'[i] {
        RowChain(r, e, e', i);
      }
      PerfectsMonotone(c, c', r.k);
      Divide(Perfects(c, r.k), Perfects(c', r.k), |r.ids|);
    }
  }

  lemma CreditOnPlateau(r: Run, e: real)
    requires ValidRun(r) && KnownTruth(r) && e >= 0.0
    ensures OnPlateau(r, e)
  {
    hide Credit, Threshold, Plateau;
    forall i | 0 <= i < |r.ids| && (forall a, b :: 0 <= a < b < |r.ids[i]| ==> r.ids[i][a] != r.ids[i][b])
      ensures CreditCounts(r, e)[i] <= |Plateau(r.xb, r.xq[i], Threshold(r.dk2[i], e, PLATEAU_SLACK))|
    {
      assert GoodTruth(r.xb, r.xq[i], r.gt[i], r.k, r.dk2[i]);
      D2NonNegative(r.xb[r.gt[i][r.k - 1]], r.xq[i]);
      CreditFitsPlateau(r.xb, r.xq[i], Take(r.ids[i], r.k), r.dk2[i], e);
    }
  }

  /** The unsquared distances of every query. */
  ghost predicate Roots(r: Run, dist: seq<seq<real>>) {
    |dist| == |r.ids| == |r.xq| && forall i :: 0 <= i < |dist| ==> IsDistances(r.xb, r.xq[i], dist[i])
  }

  /** The distance of a query's k-th true neighbour. */
  ghost function KthDistance(r: Run, dist: seq<seq<real>>, i: nat): (d: real)
    requires KnownTruth(r) && Roots(r, dist) && i < |r.ids|
    ensures d >= 0.0 && r.dk2[i] == Fin(d * d)
  {
    assert GoodTruth(r.xb, r.xq[i], r.gt[i], r.k, r.dk2[i]);
    assert IsDistances(r.xb, r.xq[i], dist[i]);
    dist[i][r.gt[i][r.k - 1]]
  }

  /** How many of a query's k results lie within (1 + e) times its k-th true distance, stretched. */
  ghost function BallCount(r: Run, dist: seq<seq<real>>, e: real, stretch: real, i: nat): nat
    requires KnownTruth(r) && Roots(r, dist) && i < |r.ids|
  {
    BallHits(Take(r.ids[i], r.k), dist[i], Radius(KthDistance(r, dist, i), e, stretch))
  }

  ghost function BallCounts(r: Run, dist: seq<seq<real>>, e: real, stretch: real): (c: seq<nat>)
    requires KnownTruth(r) && Roots(r, dist)
    ensures |c| == |r.ids|
  {
    seq(|r.ids|, i requires 0 <= i < |r.ids| => BallCount(r, dist, e, stretch, i))
  }

  lemma CreditCountIsBall(r: Run, dist: seq<seq<real>>, e: real, i: nat)
    requires ValidRun(r) && KnownTruth(r) && Roots(r, dist) && e >= 0.0 && i < |r.ids|
    ensures BallCount(r, dist, e, 1.0, i) <= CreditCounts(r, e)[i] <= BallCount(r, dist, e, RECALL_SLACK, i)
  {
    hide Threshold, Credit, BallHits, D2, Take, Radius;
    assert IsDistances(r.xb, r.xq[i], dist[i]);
    assert GoodTruth(r.xb, r.xq[i], r.gt[i], r.k, r.dk2[i]);
    var d := KthDistance(r, dist, i);
    assert d == dist[i][r.gt[i][r.k - 1]];
    assert r.dk2[i].v == d * d;
    CreditCountsBall(r.xb, r.xq[i], Take(r.ids[i], r.k), dist[i], d, e, RECALL_SLACK);
  }

  /** The reported eps-recall is the share of results within (1 + e) times the k-th true distance; the
      slack is all it may add. */
  ghost predicate OnBalls(r: Run, res: map<real, EpsScore>)
    requires ValidRun(r) && KnownTruth(r)
  {
    forall dist, e :: Roots(r, dist) && e in res && e >= 0.0 ==>
      Mean(BallCounts(r, dist, e, 1.0), r.k) <= res[e].mean <= Mean(BallCounts(r, dist, e, RECALL_SLACK), r.k)
  }

  lemma ScoresOnBalls(r: Run, res: map<real, EpsScore>)
    requires ValidRun(r) && KnownTruth(r) && ScoresOf(r, res)
    ensures OnBalls(r, res)
  {
    hide Mean, CreditCounts, BallCount, Roots, KnownTruth, Perfects;
    forall dist, e | Roots(r, dist) && e in res && e >= 0.0
      ensures Mean(BallCounts(r, dist, e, 1.0), r.k) <= res[e].mean <= Mean(BallCounts(r, dist, e, RECALL_SLACK), r.k)
    {
      forall i | 0 <= i < |r.ids|
        ensures BallCounts(r, dist, e, 1.0)[i] <= CreditCounts(r, e)[i] <= BallCounts(r, dist, e, RECALL_SLACK)[i]
      {
        CreditCountIsBall(r, dist, e, i);
      }
      MeanMonotone(BallCounts(r, dist, e, 1.0), CreditCounts(r, e), r.k);
      MeanMonotone(CreditCounts(r, e), BallCounts(r, dist, e, RECALL_SLACK), r.k);
    }
  }

  /** eps_recall.  The credits are counted in the table exact_d2 computes for the first k returned ids,
      against the k-th column of the groundtruth distances.  The means are those of the pointwise counts,
      and with known truth they form the chain
      0 <= recall <= eps-recall at any eps >= 0 <= eps-recall at a larger eps <= 1. */
  method Score(xb: seq<seq<real>>, xq: seq<seq<real>>, ids: seq<seq<int>>, w: nat, gt: seq<seq<int>>,
               gtD2: array2<Dist>, k: nat, d: nat, epsList: seq<real>)
    returns (recall: real, res: map<real, EpsScore>)
    requires Tables(xb, xq, ids, w, gt, d) && gtD2.Length0 == |ids| && 1 <= k <= gtD2.Length1
    ensures ValidRun(RunOf(xb, xq, ids, gt, gtD2, k)) && res.Keys == set e | e in epsList
    ensures recall == Mean(HitCounts(RunOf(xb, xq, ids, gt, gtD2, k)), k)
    ensures ScoresOf(RunOf(xb, xq, ids, gt, gtD2, k), res)
    ensures KnownTruth(RunOf(xb, xq, ids, gt, gtD2, k)) ==>
              Chained(recall, res) && OnBalls(RunOf(xb, xq, ids, gt, gtD2, k), res)
    ensures KnownTruth(RunOf(xb, xq, ids, gt, gtD2, k)) ==>
              forall e :: e in epsList && e >= 0.0 ==> OnPlateau(RunOf(xb, xq, ids, gt, gtD2, k), e)
  {
    hide Matrix, IdTable, DistOf, HitCounts, Mean, KnownTruth, OnPlateau, Chained, OnBalls, ScoresOf, Hits, ValidRun,
      RunOf;
    ghost var r := RunOf(xb, xq, ids, gt, gtD2, k);
    RunIsValid(xb, xq, ids, w, gt, gtD2, k, d);
    var nq := |ids|;
    var hits := seq(nq, i requires 0 <= i < nq => Hits(ids[i], gt[i], k));
    HitsAre(r, hits);
    recall := Mean(hits, k);
    var short := seq(nq, i requires 0 <= i < nq => Take(ids[i], k));
    ShortTable(ids, w, k, |xb|, short);
    var d2 := ExactD2(xb, xq, short, Min(k, w), d);
    var dk := KthColumn(gtD2, k);
    res := ScoreTables(d2, dk, k, epsList, r);
    if KnownTruth(r) {
      ScoresChain(r, recall, res);
      ScoresOnBalls(r, res);
      forall e | e in epsList && e >= 0.0 ensures OnPlateau(r, e) {
        CreditOnPlateau(r, e);
      }
    }
  }

  lemma ShortTable(ids: seq<seq<int>>, w: nat, k: nat, nb: nat, short: seq<seq<int>>)
    requires IdTable(ids, w, nb) && |short| == |ids| && forall i :: 0 <= i < |ids| ==> short[i] == Take(ids[i], k)
    ensures IdTable(short, Min(k, w), nb)
    ensures forall i :: 0 <= i < |ids| ==> |Take(ids[i], k)| == Min(k, w)
  {
  }

  /** `gt_d2[:, k - 1]` */
  method KthColumn(t: array2<Dist>, k: nat) returns (dk: seq<Dist>)
    requires 1 <= k <= t.Length1
    ensures |dk| == t.Length0 && forall i :: 0 <= i < |dk| ==> dk[i] == t[i, k - 1]
  {
    dk := [];
    for i := 0 to t.Length0
      invariant |dk| == i && forall i' :: 0 <= i' < i ==> dk[i'] == t[i', k - 1]
    {
      dk := dk + [t[i, k - 1]];
    }
  }

  /** The loop over the eps list. */
  method ScoreTables(d2: array2<Dist>, dk: seq<Dist>, k: nat, epsList: seq<real>, ghost r: Run)
    returns (res: map<real, EpsScore>)
    requires ValidRun(r) && r.dk2 == dk && r.k == k && d2.Length0 == |dk|
    requires forall i :: 0 <= i < |dk| ==> d2.Length1 == |Take(r.ids[i], r.k)|
    requires forall i, j :: 0 <= i < |dk| && 0 <= j < d2.Length1 ==>
               d2[i, j] == DistOf(r.xb, r.xq[i], Take(r.ids[i], r.k)[j])
    ensures res.Keys == (set e | e in epsList) && ScoresOf(r, res)
  {
    hide DistOf, CreditCounts, Mean, Perfects, Take;
    res := map[];
    for t := 0 to |epsList|
      invariant res.Keys == set e | e in epsList[..t]
      invariant ScoresOf(r, res)
    {
      var e := epsList[t];
      var perQ := CountTable(d2, dk, e, r);
      assert epsList[..t + 1] == epsList[..t] + [e];
      res := res[e := EpsScore(Mean(perQ, k), Perfects(perQ, k) as real / |dk| as real)];
    }
    assert epsList[..|epsList|] == epsList;
  }

  lemma RunIsValid(xb: seq<seq<real>>, xq: seq<seq<real>>, ids: seq<seq<int>>, w: nat, gt: seq<seq<int>>,
                   gtD2: array2<Dist>, k: nat, d: nat)
    requires Tables(xb, xq, ids, w, gt, d) && gtD2.Length0 == |ids| && 1 <= k <= gtD2.Length1
    ensures ValidRun(RunOf(xb, xq, ids, gt, gtD2, k)) && |RunOf(xb, xq, ids, gt, gtD2, k).dk2| == |ids|
    ensures forall i :: 0 <= i < |ids| ==> RunOf(xb, xq, ids, gt, gtD2, k).dk2[i] == gtD2[i, k - 1]
    ensures var r := RunOf(xb, xq, ids, gt, gtD2, k);
            r.xb == xb && r.xq == xq && r.ids == ids && r.gt == gt && r.k == k
  {
  }

  lemma HitsAre(r: Run, hits: seq<nat>)
    requires ValidRun(r) && |hits| == |r.ids|
    requires forall i :: 0 <= i < |hits| ==> hits[i] == Hits(r.ids[i], r.gt[i], r.k)
    ensures hits == HitCounts(r)
  {
    hide Hits;
  }

  // ---------- with the groundtruth distances computed ----------

  /** A groundtruth row: base rows by ascending exact distance. */
  predicate TruthRow(xb: seq<seq<real>>, q: seq<real>, gt: seq<int>) {
    && Matrix(xb, |q|)
    && (forall j :: 0 <= j < |gt| ==> 0 <= gt[j] < |xb|)
    && forall i, j :: 0 <= i < j < |gt| ==> D2(xb[gt[i]], q) <= D2(xb[gt[j]], q)
  }

  /** The squared distance of the k-th true neighbour. */
  function KthTrue(xb: seq<seq<real>>, q: seq<real>, gt: seq<int>, k: nat): Dist
    requires TruthRow(xb, q, gt) && 1 <= k <= |gt|
  {
    Fin(D2(xb[gt[k - 1]], q))
  }

  /** The run of a dataset whose groundtruth is right: thresholds come from the k-th true neighbour. */
  ghost function TrueRun(xb: seq<seq<real>>, xq: seq<seq<real>>, ids: seq<seq<int>>, gt: seq<seq<int>>, k: nat): Run
    requires |gt| == |xq| && k >= 1
    requires forall i :: 0 <= i < |gt| ==> TruthRow(xb, xq[i], gt[i]) && |gt[i]| >= k
  {
    Run(xb, xq, ids, gt, seq(|gt|, i requires 0 <= i < |gt| => KthTrue(xb, xq[i], gt[i], k)), k)
  }

  /** The part of run_dataset that scores one result table: the distances of the groundtruth are computed
      and sorted, and the scores taken from both tables.  With valid ascending groundtruth rows the
      chain holds without further assumption, and so does the bound by the plateau. */
  method ScoreDataset(xb: seq<seq<real>>, xq: seq<seq<real>>, ids: seq<seq<int>>, w: nat, gt: seq<seq<int>>, kg: nat,
                      k: nat, d: nat, epsList: seq<real>) returns (recall: real, res: map<real, EpsScore>)
    requires Tables(xb, xq, ids, w, gt, d) && IdTable(gt, kg, |xb|) && 1 <= k <= kg
    requires forall i :: 0 <= i < |gt| ==> TruthRow(xb, xq[i], gt[i])
    ensures ValidRun(TrueRun(xb, xq, ids, gt, k)) && res.Keys == set e | e in epsList
    ensures recall == Mean(HitCounts(TrueRun(xb, xq, ids, gt, k)), k) && ScoresOf(TrueRun(xb, xq, ids, gt, k), res)
    ensures Chained(recall, res) && KnownTruth(TrueRun(xb, xq, ids, gt, k)) && OnBalls(TrueRun(xb, xq, ids, gt, k), res)
    ensures forall e :: e in epsList && e >= 0.0 ==> OnPlateau(TrueRun(xb, xq, ids, gt, k), e)
  {
    hide SortDist, ScoresOf, Chained, OnPlateau, OnBalls, HitCounts, Mean, Ascending, DistOf, TruthRow;
    var gtD2 := GtDistances(xb, xq, gt, kg, d);
    recall, res := Score(xb, xq, ids, w, gt, gtD2, k, d, epsList);
    KnownFromTables(xb, xq, ids, gt, kg, gtD2, k);
  }

  lemma KnownFromTables(xb: seq<seq<real>>, xq: seq<seq<real>>, ids: seq<seq<int>>, gt: seq<seq<int>>, kg: nat,
                        gtD2: array2<Dist>, k: nat)
    requires |gt| == |xq| == |ids| == gtD2.Length0 && gtD2.Length1 == kg && 1 <= k <= kg
    requires forall i :: 0 <= i < |gt| ==>
               && TruthRow(xb, xq[i], gt[i]) && |gt[i]| == kg
               && Row(gtD2, i) == SortDist(seq(kg, j requires 0 <= j < kg => DistOf(xb, xq[i], gt[i][j])))
    ensures RunOf(xb, xq, ids, gt, gtD2, k) == TrueRun(xb, xq, ids, gt, k)
    ensures KnownTruth(TrueRun(xb, xq, ids, gt, k))
  {
    hide SortDist, DistOf, D2;
    forall i | 0 <= i < |gt|
      ensures GoodTruth(xb, xq[i], gt[i], k, KthTrue(xb, xq[i], gt[i], k))
      ensures gtD2[i, k - 1] == KthTrue(xb, xq[i], gt[i], k)
    {
      TruthDistances(xb, xq[i], gt[i], k, KthTrue(xb, xq[i], gt[i], k));
      assert Row(gtD2, i)[k - 1] == gtD2[i, k - 1];
    }
  }
}
