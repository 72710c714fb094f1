/** Collision counting: a point scores one for every subspace in which it is among the `cn` points closest
    to the query (the NumPy scores of benchs/bench_fig1_sc_score_pareto.py and the linear scan of
    faiss/IndexSuCo.cpp), and the average score by rank built from the scores. */
module Collisions {
  import opened Distinctness
  import opened Vectors

  // ---------------------------------------------------------------------------------------------
  // Sums over positions
  // ---------------------------------------------------------------------------------------------

  function Sum(s: seq<int>): int {
    if s == [] then 0 else Sum(s[..|s| - 1]) + s[|s| - 1]
  }

  lemma {:induction false} SumUpdate(s: seq<int>, i: nat, x: int)
    requires i < |s|
    ensures Sum(s[i := x]) == Sum(s) - s[i] + x
  {
    var n := |s| - 1;
    if i == n {
      assert s[i := x][..n] == s[..n];
    } else {
      SumUpdate(s[..n], i, x);
      assert s[i := x][..n] == s[..n][i := x];
    }
  }

  lemma {:induction false} SumAdd(s: seq<int>, t: seq<int>, u: seq<int>)
    requires |s| == |t| == |u|
    requires forall i :: 0 <= i < |s| ==> u[i] == s[i] + t[i]
    ensures Sum(u) == Sum(s) + Sum(t)
  {
    if s != [] {
      var n := |s| - 1;
      SumAdd(s[..n], t[..n], u[..n]);
    }
  }

  lemma {:induction false} SumZero(s: seq<int>)
    requires forall i :: 0 <= i < |s| ==> s[i] == 0
    ensures Sum(s) == 0
  {
    if s != [] {
      SumZero(s[..|s| - 1]);
    }
  }

  /** `s[at]` */
  function At(s: seq<int>, at: seq<nat>): (r: seq<int>)
    requires InRange(at, |s|)
    ensures |r| == |at|
  {
    seq(|at|, i requires 0 <= i < |at| => s[at[i]])
  }

  /** Reading a list through a rearrangement of its positions keeps the sum. */
  lemma {:induction false} SumOfPermuted(s: seq<int>, at: seq<nat>)
    requires InRange(at, |s|) && Distinct(at) && |at| == |s|
    ensures Sum(At(s, at)) == Sum(s)
  {
    var zero := seq(|s|, _ => 0);
    SumZero(zero);
    SumOfDistinct(s, at, zero);
    PositionsCovered(at, |s|);
    assert Spread(s, at, zero) == s by {
      forall i | 0 <= i < |s| ensures Spread(s, at, zero)[i] == s[i] {
        SpreadAt(s, at, zero, i);
        assert i in at;
      }
    }
  }

  /** `base` with the entries of `s` copied in at the positions `at`. */
  function Spread(s: seq<int>, at: seq<nat>, base: seq<int>): (r: seq<int>)
    requires InRange(at, |s|) && |base| == |s|
    ensures |r| == |s|
  {
    if at == [] then base
    else
      var m := |at| - 1;
      Spread(s, at[..m], base)[at[m] := s[at[m]]]
  }

  lemma {:induction false} SpreadAt(s: seq<int>, at: seq<nat>, base: seq<int>, i: nat)
    requires InRange(at, |s|) && |base| == |s| && i < |s|
    ensures Spread(s, at, base)[i] == if i in at then s[i] else base[i]
  {
    if at != [] {
      SpreadAt(s, at[..|at| - 1], base, i);
      assert at == at[..|at| - 1] + [at[|at| - 1]];
    }
  }

  lemma {:induction false} SumOfDistinct(s: seq<int>, at: seq<nat>, zero: seq<int>)
    requires InRange(at, |s|) && Distinct(at) && |zero| == |s|
    requires forall i :: 0 <= i < |s| ==> zero[i] == 0
    ensures Sum(Spread(s, at, zero)) == Sum(zero) + Sum(At(s, at))
  {
    if at != [] {
      var m := |at| - 1;
      SumOfDistinct(s, at[..m], zero);
      SpreadAt(s, at[..m], zero, at[m]);
      SumUpdate(Spread(s, at[..m], zero), at[m], s[at[m]]);
      assert At(s, at)[..m] == At(s, at[..m]);
    }
  }

  // ---------------------------------------------------------------------------------------------
  // The closest points of a subspace
  // ---------------------------------------------------------------------------------------------

  /** What `argpartition(dist, k - 1)[:k]`, or a partial sort, promises: k different points, none of
      them farther than a point left out.  Which of several tied points it picks is open. */
  ghost predicate Closest(dist: seq<real>, k: nat, top: seq<nat>) {
    && |top| == k && InRange(top, |dist|) && Distinct(top)
    && forall a, b :: a in top && 0 <= b < |dist| && b !in top ==> dist[a] <= dist[b]
  }

  lemma ClosestIncluded(dist: seq<real>, k: nat, top: seq<nat>, other: seq<nat>, x: nat)
    requires Closest(dist, k, top) && Closest(dist, k, other) && Distinct(dist)
    requires x in top
    ensures x in other
  {
    if x !in other {
      assert x < |dist|;
      forall y | y in other ensures y in top {
        assert y < |dist|;
        assert dist[y] <= dist[x];
      }
      MemberCount(top);
      MemberCount(other);
      SubsetSmaller(Members(other), Members(top) - {x});
    }
  }

  /** Without ties there is nothing to choose. */
  lemma ClosestUnique(dist: seq<real>, k: nat, top: seq<nat>, other: seq<nat>)
    requires Closest(dist, k, top) && Closest(dist, k, other) && Distinct(dist)
    ensures forall x :: x in top <==> x in other
  {
    hide Closest, Distinct;
    forall x ensures x in top <==> x in other {
      if x in top { ClosestIncluded(dist, k, top, other, x); }
      if x in other { ClosestIncluded(dist, k, other, top, x); }
    }
  }

  // ---------------------------------------------------------------------------------------------
  // Scores
  // ---------------------------------------------------------------------------------------------

  /** The score a point deserves: in how many subspaces it was selected. */
  function Score(tops: seq<seq<nat>>, i: nat): (n: nat)
    ensures n <= |tops|
  {
    if tops == [] then 0
    else Score(tops[..|tops| - 1], i) + if i in tops[|tops| - 1] then 1 else 0
  }

  function Scores(tops: seq<seq<nat>>, n: nat): (r: seq<int>)
    ensures |r| == n
    ensures forall i :: 0 <= i < n ==> 0 <= r[i] <= |tops|
  {
    seq(n, i requires 0 <= i < n => Score(tops, i))
  }

  ghost predicate Selections(tops: seq<seq<nat>>, n: nat, cn: nat) {
    forall top :: top in tops ==> |top| == cn && InRange(top, n) && Distinct(top)
  }

  /** 1 at the selected points, 0 elsewhere. */
  function Marks(top: seq<nat>, n: nat): (r: seq<int>)
    ensures |r| == n
  {
    seq(n, i requires 0 <= i < n => if i in top then 1 else 0)
  }

  lemma {:induction false} MarksTotal(top: seq<nat>, n: nat)
    requires InRange(top, n) && Distinct(top)
    ensures Sum(Marks(top, n)) == |top|
  {
    if top == [] {
      SumZero(Marks(top, n));
    } else {
      var m := |top| - 1;
      MarksTotal(top[..m], n);
      assert top == top[..m] + [top[m]];
      assert Marks(top, n) == Marks(top[..m], n)[top[m] := 1];
      SumUpdate(Marks(top[..m], n), top[m], 1);
    }
  }

  function Times(a: nat, b: nat): nat {
    a * b
  }

  lemma TimesNext(a: nat, b: nat)
    ensures Times(0, b) == 0
    ensures Times(a + 1, b) == Times(a, b) + b
  {
  }

  /** Every query hands out exactly Ns * cn points of score, however ties are broken. */
  lemma {:induction false} ScoresTotal(tops: seq<seq<nat>>, n: nat, cn: nat)
    requires Selections(tops, n, cn)
    ensures Sum(Scores(tops, n)) == Times(|tops|, cn)
  {
    hide Times;
    TimesNext(0, cn);
    if tops == [] {
      SumZero(Scores(tops, n));
    } else {
      var m := |tops| - 1;
      var top := tops[m];
      assert top in tops;
      ScoresTotal(tops[..m], n, cn);
      MarksTotal(top, n);
      SumAdd(Scores(tops[..m], n), Marks(top, n), Scores(tops, n));
      TimesNext(m, cn);
    }
  }

  // ---------------------------------------------------------------------------------------------
  // From vectors to scores
  // ---------------------------------------------------------------------------------------------

  /** Subspace s holds components s * w .. s * w + w. */
  function Part(x: seq<real>, w: nat, s: nat): (r: seq<real>)
    requires Times(s, w) + w <= |x|
    ensures |r| == w
  {
    x[Times(s, w)..Times(s, w) + w]
  }

  ghost predicate Fits(xb: seq<seq<real>>, q: seq<real>, ns: nat, w: nat) {
    && (forall x :: x in xb ==> |x| == |q|)
    && forall s :: 0 <= s < ns ==> Times(s, w) + w <= |q|
  }

  /** `w = d // nsubspaces` always fits. */
  lemma PartsFit(d: nat, ns: nat, s: nat)
    requires s < ns
    ensures Times(s, d / ns) + d / ns <= d
  {
    hide Times;
    var w := d / ns;
    TimesNext(s, w);
    TimesGrows(s + 1, ns, w);
    WholeParts(d, ns);
  }

  lemma TimesGrows(a: nat, b: nat, w: nat)
    requires a <= b
    ensures Times(a, w) <= Times(b, w)
  {
    assert Times(b, w) - Times(a, w) == (b - a) * w >= 0;
  }

  lemma WholeParts(d: nat, ns: nat)
    requires ns > 0
    ensures Times(ns, d / ns) <= d
  {
    assert d == ns * (d / ns) + d % ns;
  }

  function SubDistances(xb: seq<seq<real>>, q: seq<real>, ns: nat, w: nat, s: nat): (r: seq<real>)
    requires Fits(xb, q, ns, w) && s < ns
    ensures |r| == |xb|
  {
    seq(|xb|, i requires 0 <= i < |xb| => assert xb[i] in xb; D2(Part(xb[i], w, s), Part(q, w, s)))
  }

  /** The distances of point i added up over the first m subspaces. */
  function SubspaceSum(xb: seq<seq<real>>, q: seq<real>, ns: nat, w: nat, i: nat, m: nat): real
    requires Fits(xb, q, ns, w) && i < |xb| && m <= ns
  {
    if m == 0 then 0.0 else SubspaceSum(xb, q, ns, w, i, m - 1) + SubDistances(xb, q, ns, w, m - 1)[i]
  }

  /** The subspaces tile the leading components: together they see each of the first ns * w components
      once, and nothing else. */
  lemma {:induction false} SubspacesTile(xb: seq<seq<real>>, q: seq<real>, ns: nat, w: nat, i: nat, m: nat)
    requires Fits(xb, q, ns, w) && i < |xb| && m <= ns
    ensures Times(m, w) <= |q| == |xb[i]|
    ensures SubspaceSum(xb, q, ns, w, i, m) == D2(xb[i][..Times(m, w)], q[..Times(m, w)])
  {
    hide Times, D2, SubDistances, Part;
    assert xb[i] in xb;
    TimesNext(if m > 0 then m - 1 else 0, w);
    if m > 0 {
      SubspacesTile(xb, q, ns, w, i, m - 1);
      DistanceIs(xb, q, ns, w, m - 1, i);
      PartJoins(xb[i], q, w, m - 1);
    } else {
      NoDistance();
    }
  }

  lemma DistanceIs(xb: seq<seq<real>>, q: seq<real>, ns: nat, w: nat, s: nat, i: nat)
    requires Fits(xb, q, ns, w) && s < ns && i < |xb|
    ensures Times(s, w) + w <= |q| == |xb[i]|
    ensures SubDistances(xb, q, ns, w, s)[i] == D2(Part(xb[i], w, s), Part(q, w, s))
  {
    hide Times, D2, Part;
    assert xb[i] in xb;
  }

  /** The components before subspace s and its own make up those before the next one. */
  lemma PartJoins(x: seq<real>, q: seq<real>, w: nat, s: nat)
    requires |x| == |q| && Times(s, w) + w <= |q|
    ensures var from := Times(s, w);
            D2(x[..from + w], q[..from + w]) == D2(x[..from], q[..from]) + D2(Part(x, w, s), Part(q, w, s))
  {
    hide Times, D2;
    var from := Times(s, w);
    D2Splits(x[..from], q[..from], Part(x, w, s), Part(q, w, s));
    assert x[..from + w] == x[..from] + Part(x, w, s) && q[..from + w] == q[..from] + Part(q, w, s);
  }

  lemma NoDistance()
    ensures D2([], []) == 0.0
  {
  }

  /** A subspace depends on its own components only: whatever changes outside, its distances and hence
      its selection stay. */
  lemma OwnComponents(xb: seq<seq<real>>, q: seq<real>, xb': seq<seq<real>>, q': seq<real>, ns: nat, w: nat, s: nat)
    requires Fits(xb, q, ns, w) && Fits(xb', q', ns, w) && |xb| == |xb'| && s < ns
    requires forall j :: Times(s, w) <= j < Times(s, w) + w ==> q[j] == q'[j]
    requires forall i, j :: 0 <= i < |xb| && Times(s, w) <= j < Times(s, w) + w && j < |xb[i]| && j < |xb'[i]| ==>
               xb[i][j] == xb'[i][j]
    ensures SubDistances(xb, q, ns, w, s) == SubDistances(xb', q', ns, w, s)
    ensures forall cn, part ::
              Tops(xb, q, ns, w, cn, part)[s] == Tops(xb', q', ns, w, cn, part)[s]
  {
    hide Times, D2;
    forall i | 0 <= i < |xb|
      ensures SubDistances(xb, q, ns, w, s)[i] == SubDistances(xb', q', ns, w, s)[i]
    {
      assert xb[i] in xb && xb'[i] in xb';
      SamePart(xb[i], xb'[i], w, s);
      SamePart(q, q', w, s);
    }
  }

  lemma SamePart(x: seq<real>, x': seq<real>, w: nat, s: nat)
    requires Times(s, w) + w <= |x| && Times(s, w) + w <= |x'|
    requires forall j :: Times(s, w) <= j < Times(s, w) + w ==> x[j] == x'[j]
    ensures Part(x, w, s) == Part(x', w, s)
  {
    hide Times;
  }

  /** The partition the library performs on one distance row. */
  type Partition = (seq<real>, nat) -> seq<nat>

  ghost predicate Partitions(part: Partition) {
    forall dist, k: nat :: 1 <= k <= |dist| ==> Closest(dist, k, part(dist, k))
  }

  function Tops(xb: seq<seq<real>>, q: seq<real>, ns: nat, w: nat, cn: nat, part: Partition): (r: seq<seq<nat>>)
    requires Fits(xb, q, ns, w)
    ensures |r| == ns
  {
    seq(ns, s requires 0 <= s < ns => part(SubDistances(xb, q, ns, w, s), cn))
  }

  lemma TopsSelect(xb: seq<seq<real>>, q: seq<real>, ns: nat, w: nat, cn: nat, part: Partition)
    requires Fits(xb, q, ns, w) && Partitions(part) && 1 <= cn <= |xb|
    ensures Selections(Tops(xb, q, ns, w, cn, part), |xb|, cn)
    ensures forall s :: 0 <= s < ns ==>
              Closest(SubDistances(xb, q, ns, w, s), cn, Tops(xb, q, ns, w, cn, part)[s])
  {
    hide SubDistances, Fits;
    forall s | 0 <= s < ns
      ensures Closest(SubDistances(xb, q, ns, w, s), cn, Tops(xb, q, ns, w, cn, part)[s])
    {
      assert |SubDistances(xb, q, ns, w, s)| == |xb|;
    }
    var tops := Tops(xb, q, ns, w, cn, part);
    forall top | top in tops ensures |top| == cn && InRange(top, |xb|) && Distinct(top) {
      var s :| 0 <= s < |tops| && tops[s] == top;
      assert Closest(SubDistances(xb, q, ns, w, s), cn, top);
      assert |SubDistances(xb, q, ns, w, s)| == |xb|;
    }
  }

  /** uint16 increment */
  function Wrap16(x: int): int {
    x % 0x1_0000
  }

  /** `_sc_scores_numpy`: the loop over subspaces, adding into 16-bit counters.  An index has at most
      255 subspaces, so no counter wraps. */
  method ScScores(xb: seq<seq<real>>, q: seq<real>, ns: nat, w: nat, cn: nat, part: Partition)
    returns (scores: seq<int>)
    requires Fits(xb, q, ns, w) && Partitions(part) && 1 <= cn <= |xb|
    requires ns <= 255
    ensures scores == Scores(Tops(xb, q, ns, w, cn, part), |xb|)
  {
    hide SubDistances, Fits, Partitions;
    ghost var tops := Tops(xb, q, ns, w, cn, part);
    var sc := new int[|xb|](_ => 0);
    for s := 0 to ns
      invariant forall i :: 0 <= i < |xb| ==> sc[i] == Score(tops[..s], i)
    {
      var top := part(SubDistances(xb, q, ns, w, s), cn);
      assert tops[..s + 1][..s] == tops[..s] && tops[..s + 1][s] == top;
      forall i | 0 <= i < |xb| && i in top {
        sc[i] := Wrap16(sc[i] + 1);
      }
    }
    assert tops[..ns] == tops;
    scores := sc[..];
  }

  /** A point strictly closer to the query in every subspace never scores lower, whatever the ties. */
  lemma {:induction false} CloserNeverScoresLower(dists: seq<seq<real>>, tops: seq<seq<nat>>, cn: nat, a: nat, b: nat)
    requires |dists| == |tops|
    requires forall s :: 0 <= s < |tops| ==> Closest(dists[s], cn, tops[s])
    requires forall s :: 0 <= s < |tops| ==> a < |dists[s]| && b < |dists[s]| && dists[s][a] < dists[s][b]
    ensures Score(tops, a) >= Score(tops, b)
  {
    if tops != [] {
      var m := |tops| - 1;
      assert Closest(dists[m], cn, tops[m]);
      CloserNeverScoresLower(dists[..m], tops[..m], cn, a, b);
    }
  }

  /** Two tie-breaks give the same scores wherever no subspace has two points at the same distance. */
  lemma {:induction false} ScoresUnique(dists: seq<seq<real>>, tops: seq<seq<nat>>, others: seq<seq<nat>>, cn: nat, i: nat)
    requires |dists| == |tops| == |others|
    requires forall s :: 0 <= s < |tops| ==>
               Closest(dists[s], cn, tops[s]) && Closest(dists[s], cn, others[s]) && Distinct(dists[s])
    ensures Score(tops, i) == Score(others, i)
  {
    hide Closest, Distinct;
    if tops != [] {
      var m := |tops| - 1;
      ScoresUnique(dists[..m], tops[..m], others[..m], cn, i);
      ClosestUnique(dists[m], cn, tops[m], others[m]);
    }
  }

  // ---------------------------------------------------------------------------------------------
  // Average score by rank
  // ---------------------------------------------------------------------------------------------

  /** `max(1, int(cr * ntotal))` */
  function CollisionNum(cr: real, n: nat): (cn: nat)
    requires 0.0 < cr < 1.0
    ensures cn == 1 || 1.0 <= cn as real <= cr * n as real
    ensures cr * n as real < cn as real + 1.0
    ensures n >= 1 ==> cn <= n
  {
    var share := (cr * n as real).Floor;
    assert 0.0 <= cr * n as real <= n as real;
    if share > 1 then share else 1
  }

  /** One query: its ranking of all points (nearest first) and its selections. */
  datatype Query = Query(rank: seq<nat>, tops: seq<seq<nat>>) {
    ghost predicate Valid(n: nat, ns: nat, cn: nat) {
      && |rank| == n && InRange(rank, n) && Distinct(rank)
      && |tops| == ns && Selections(tops, n, cn)
    }
  }

  /** `sc[rank_order]` */
  function ByRank(q: Query, n: nat): (r: seq<int>)
    requires InRange(q.rank, n)
    ensures |r| == |q.rank|
  {
    At(Scores(q.tops, n), q.rank)
  }

  ghost predicate Ranked(qs: seq<Query>, n: nat) {
    forall i :: 0 <= i < |qs| ==> |qs[i].rank| == n && InRange(qs[i].rank, n)
  }

  /** The score found at a rank, over all queries. */
  function RankTotal(qs: seq<Query>, n: nat, i: nat): int
    requires Ranked(qs, n)
    requires i < n
  {
    if qs == [] then 0
    else RankTotal(qs[..|qs| - 1], n, i) + ByRank(qs[|qs| - 1], n)[i]
  }

  function RankTotals(qs: seq<Query>, n: nat): (r: seq<int>)
    requires Ranked(qs, n)
    ensures |r| == n
  {
    seq(n, i requires 0 <= i < n => RankTotal(qs, n, i))
  }

  ghost predicate AllValid(qs: seq<Query>, n: nat, ns: nat, cn: nat) {
    forall i :: 0 <= i < |qs| ==> qs[i].Valid(n, ns, cn)
  }

  /** The accumulator: `acc += sc[rank_order]` for every query. */
  method Accumulate(qs: seq<Query>, n: nat, ghost ns: nat, ghost cn: nat) returns (totals: seq<int>)
    requires AllValid(qs, n, ns, cn)
    ensures Ranked(qs, n) && totals == RankTotals(qs, n)
  {
    hide Scores, Selections;
    var acc := new int[n](_ => 0);
    for k := 0 to |qs|
      invariant Ranked(qs, n)
      invariant forall i :: 0 <= i < n ==> acc[i] == RankTotal(qs[..k], n, i)
    {
      assert qs[k].Valid(n, ns, cn);
      var sc := ByRank(qs[k], n);
      assert qs[..k + 1][..k] == qs[..k];
      forall i | 0 <= i < n {
        acc[i] := acc[i] + sc[i];
      }
    }
    assert qs[..|qs|] == qs;
    totals := acc[..];
  }

  /** The queries and subspaces in which the point at rank i of the query was selected. */
  ghost function SelectedAt(qs: seq<Query>, n: nat, i: nat): set<(nat, nat)>
    requires Ranked(qs, n) && i < n
  {
    set k: nat, s: nat | k < |qs| && s < |qs[k].tops| && qs[k].rank[i] in qs[k].tops[s] :: (k, s)
  }

  /** The accumulator counts them. */
  lemma {:induction false} RankTotalCounts(qs: seq<Query>, n: nat, i: nat)
    requires Ranked(qs, n) && i < n
    ensures RankTotal(qs, n, i) == |SelectedAt(qs, n, i)|
  {
    hide SelectedAt, Score;
    if qs == [] {
      NoneSelected(n, i);
    } else {
      var m := |qs| - 1;
      RankTotalCounts(qs[..m], n, i);
      ScoreCounts(qs[m].tops, qs[m].rank[i], m);
      SelectedNext(qs, n, i, m);
    }
  }

  lemma NoneSelected(n: nat, i: nat)
    requires i < n
    ensures SelectedAt([], n, i) == {}
  {
  }

  lemma SelectedNext(qs: seq<Query>, n: nat, i: nat, m: nat)
    requires Ranked(qs, n) && i < n && |qs| == m + 1
    ensures var tops, v := qs[m].tops, qs[m].rank[i];
            |SelectedAt(qs, n, i)|
            == |SelectedAt(qs[..m], n, i)| + |set s: nat | s < |tops| && v in tops[s] :: (m, s)|
  {
    var before, tops, v := SelectedAt(qs[..m], n, i), qs[m].tops, qs[m].rank[i];
    var last := set s: nat | s < |tops| && v in tops[s] :: (m, s);
    assert SelectedAt(qs, n, i) == before + last;
    assert before !! last;
  }

  lemma {:induction false} ScoreCounts(tops: seq<seq<nat>>, v: nat, m: nat)
    ensures Score(tops, v) == |set s: nat | s < |tops| && v in tops[s] :: (m, s)|
  {
    var all := set s: nat | s < |tops| && v in tops[s] :: (m, s);
    if tops == [] {
      assert all == {};
    } else {
      var n := |tops| - 1;
      ScoreCounts(tops[..n], v, m);
      var before := set s: nat | s < n && v in tops[..n][s] :: (m, s);
      assert all == before + if v in tops[n] then {(m, n)} else {};
    }
  }

  /** Rearranging by rank loses no score: over all ranks the accumulator holds nq * (Ns * cn). */
  lemma {:induction false} RankTotalsConserve(qs: seq<Query>, n: nat, ns: nat, cn: nat)
    requires AllValid(qs, n, ns, cn)
    ensures Ranked(qs, n)
    ensures Sum(RankTotals(qs, n)) == Times(|qs|, Times(ns, cn))
  {
    hide Times, Selections, Scores, At;
    TimesNext(0, Times(ns, cn));
    if qs == [] {
      SumZero(RankTotals(qs, n));
    } else {
      var m := |qs| - 1;
      var q := qs[m];
      assert q.Valid(n, ns, cn);
      RankTotalsConserve(qs[..m], n, ns, cn);
      ScoresTotal(q.tops, n, cn);
      SumOfPermuted(Scores(q.tops, n), q.rank);
      SumAdd(RankTotals(qs[..m], n), ByRank(q, n), RankTotals(qs, n));
      TimesNext(m, Times(ns, cn));
    }
  }
}
