/** `rerank` of faiss/IndexSuCo.cpp: the candidates with the best collision scores, found through a score
    histogram, then the k of them that are nearest by exact distance. */
module Reranking {
  import opened Common
  import opened Distinctness
  import opened Selection

  // ---------------------------------------------------------------------------------------------
  // Counting scores
  // ---------------------------------------------------------------------------------------------

  function Above(sc: seq<int>, x: int): (n: nat)
    ensures n <= |sc|
  {
    if sc == [] then 0 else Above(sc[..|sc| - 1], x) + if sc[|sc| - 1] > x then 1 else 0
  }

  function AtScore(sc: seq<int>, x: int): (n: nat)
    ensures n <= |sc|
  {
    if sc == [] then 0 else AtScore(sc[..|sc| - 1], x) + if sc[|sc| - 1] == x then 1 else 0
  }

  lemma {:induction false} AboveStep(sc: seq<int>, x: int)
    ensures Above(sc, x - 1) == Above(sc, x) + AtScore(sc, x)
  {
    if sc != [] {
      AboveStep(sc[..|sc| - 1], x);
    }
  }

  lemma {:induction false} AllAbove(sc: seq<int>, x: int)
    requires forall i :: 0 <= i < |sc| ==> sc[i] > x
    ensures Above(sc, x) == |sc|
  {
    if sc != [] {
      AllAbove(sc[..|sc| - 1], x);
    }
  }

  lemma {:induction false} NoneAbove(sc: seq<int>, x: int)
    requires forall i :: 0 <= i < |sc| ==> sc[i] <= x
    ensures Above(sc, x) == 0
  {
    if sc != [] {
      NoneAbove(sc[..|sc| - 1], x);
    }
  }

  lemma {:induction false} AtScoreMonotone(sc: seq<int>, x: int, i: nat, j: nat)
    requires i <= j <= |sc|
    ensures AtScore(sc[..i], x) <= AtScore(sc[..j], x)
    decreases j
  {
    if i < j {
      AtScoreMonotone(sc, x, i, j - 1);
      assert sc[..j][..j - 1] == sc[..j - 1];
    }
  }

  lemma CountNext(sc: seq<int>, x: int, i: nat)
    requires i < |sc|
    ensures Above(sc[..i + 1], x) == Above(sc[..i], x) + if sc[i] > x then 1 else 0
    ensures AtScore(sc[..i + 1], x) == AtScore(sc[..i], x) + if sc[i] == x then 1 else 0
  {
    assert sc[..i + 1][..i] == sc[..i];
  }

  // ---------------------------------------------------------------------------------------------
  // Candidates
  // ---------------------------------------------------------------------------------------------

  ghost predicate Ascending(s: seq<nat>) {
    forall i, j :: 0 <= i < j < |s| ==> s[i] < s[j]
  }

  /** `a` is a better candidate than `b`: higher score, then lower number. */
  predicate Better(sc: seq<int>, a: nat, b: nat)
    requires a < |sc| && b < |sc|
  {
    sc[a] > sc[b] || (sc[a] == sc[b] && a < b)
  }

  /** Exactly `m` points, listed by number, each better than every point left out. */
  ghost predicate Candidates(sc: seq<int>, m: nat, cands: seq<nat>) {
    && |cands| == m && Ascending(cands)
    && (forall c :: c in cands ==> c < |sc|)
    && forall c, o: nat :: c in cands && o < |sc| && o !in cands ==> Better(sc, c, o)
  }

  lemma CandidateKept(sc: seq<int>, m: nat, s: seq<nat>, t: seq<nat>, c: nat)
    requires Candidates(sc, m, s) && Candidates(sc, m, t) && c in s
    ensures c in t
  {
    if c !in t {
      forall y | y in t ensures y in s {
        assert Better(sc, y, c);
      }
      MemberCount(s);
      MemberCount(t);
      SubsetSmaller(Members(t), Members(s) - {c});
    }
  }

  lemma {:induction false} AscendingUnique(s: seq<nat>, t: seq<nat>)
    requires Ascending(s) && Ascending(t) && |s| == |t|
    requires forall x :: x in s <==> x in t
    ensures s == t
  {
    if s != [] {
      var n := |s| - 1;
      assert s[n] in t && t[n] in s;
      assert s[n] == t[n];
      forall x ensures x in s[..n] <==> x in t[..n] {
        assert x in s[..n] <==> x in s && x != s[n];
        assert x in t[..n] <==> x in t && x != t[n];
      }
      AscendingUnique(s[..n], t[..n]);
    }
  }

  /** The candidates are determined: the histogram leaves no freedom. */
  lemma CandidatesUnique(sc: seq<int>, m: nat, s: seq<nat>, t: seq<nat>)
    requires Candidates(sc, m, s) && Candidates(sc, m, t)
    ensures s == t
  {
    forall x ensures x in s <==> x in t {
      if x in s { CandidateKept(sc, m, s, t, x); }
      if x in t { CandidateKept(sc, m, t, s, x); }
    }
    AscendingUnique(s, t);
  }

  /** The histogram of scores 0 .. maxScore. */
  method Histogram(sc: seq<int>, maxScore: nat) returns (hist: seq<nat>)
    requires forall i :: 0 <= i < |sc| ==> 0 <= sc[i] <= maxScore
    ensures |hist| == maxScore + 1
    ensures forall s :: 0 <= s <= maxScore ==> hist[s] == AtScore(sc, s)
  {
    var h := new nat[maxScore + 1](_ => 0);
    for i := 0 to |sc|
      invariant forall s :: 0 <= s <= maxScore ==> h[s] == AtScore(sc[..i], s)
    {
      forall s ensures AtScore(sc[..i + 1], s) == AtScore(sc[..i], s) + if sc[i] == s then 1 else 0 {
        CountNext(sc, s, i);
      }
      var s := if sc[i] < maxScore then sc[i] else maxScore;
      h[s] := h[s] + 1;
    }
    assert sc[..|sc|] == sc;
    hist := h[..];
  }

  /** The score at which the budget runs out, and how many better points there are. */
  method Threshold(sc: seq<int>, maxScore: nat, hist: seq<nat>, m: nat) returns (threshold: nat, above: nat)
    requires forall i :: 0 <= i < |sc| ==> 0 <= sc[i] <= maxScore
    requires |hist| == maxScore + 1 && forall s :: 0 <= s <= maxScore ==> hist[s] == AtScore(sc, s)
    requires m < |sc|
    ensures above == Above(sc, threshold) <= m < above + AtScore(sc, threshold)
  {
    above, threshold := 0, 0;
    NoneAbove(sc, maxScore);
    AllAbove(sc, -1);
    var s: int := maxScore;
    while s >= 0
      invariant -1 <= s <= maxScore
      invariant above == Above(sc, s) <= m
    {
      AboveStep(sc, s);
      if above + hist[s] <= m {
        above := above + hist[s];
      } else {
        threshold := s;
        return;
      }
      s := s - 1;
    }
  }

  /** One pass in index order: everything above the threshold, and the first `budget` points at it. */
  method Gather(sc: seq<int>, threshold: nat, above: nat, m: nat) returns (cands: seq<nat>)
    requires above == Above(sc, threshold) <= m < above + AtScore(sc, threshold)
    ensures Candidates(sc, m, cands)
  {
    hide Above, AtScore;
    var budget: nat := m - above;
    cands := [];
    var atCount := 0;
    EmptyCounts(sc, threshold);
    for i := 0 to |sc|
      invariant Ascending(cands) && forall x :: 0 <= x < |cands| ==> cands[x] < i
      invariant atCount == Min(budget, AtScore(sc[..i], threshold))
      invariant |cands| == Above(sc[..i], threshold) + atCount
      invariant forall c: nat :: c < i ==> (c in cands <==> Chosen(sc, threshold, budget, c))
    {
      CountNext(sc, threshold, i);
      if sc[i] > threshold {
        cands := cands + [i];
      } else if sc[i] == threshold && atCount < budget {
        cands := cands + [i];
        atCount := atCount + 1;
      }
    }
    assert sc[..|sc|] == sc;
    forall c, o: nat | c in cands && o < |sc| && o !in cands ensures Better(sc, c, o) {
      ChosenBetter(sc, threshold, budget, c, o);
    }
  }

  lemma EmptyCounts(sc: seq<int>, x: int)
    ensures Above(sc[..0], x) == AtScore(sc[..0], x) == 0
  {
  }

  predicate Chosen(sc: seq<int>, threshold: nat, budget: nat, c: nat)
    requires c < |sc|
  {
    sc[c] > threshold || (sc[c] == threshold && AtScore(sc[..c], threshold) < budget)
  }

  lemma ChosenBetter(sc: seq<int>, threshold: nat, budget: nat, c: nat, o: nat)
    requires c < |sc| && o < |sc| && Chosen(sc, threshold, budget, c) && !Chosen(sc, threshold, budget, o)
    ensures Better(sc, c, o)
  {
    hide AtScore;
    if sc[c] == threshold && sc[o] == threshold && o < c {
      AtScoreMonotone(sc, threshold, o, c);
    }
  }

  // ---------------------------------------------------------------------------------------------
  // The k nearest candidates
  // ---------------------------------------------------------------------------------------------

  /** `std::partial_sort` of positions by value: the first `m` are the smallest, in order. */
  type PartialSort = (seq<real>, nat) -> seq<nat>

  ghost predicate Sorts(sorter: PartialSort) {
    forall d, m: nat :: m <= |d| ==> SortedFront(d, m, sorter(d, m))
  }

  ghost predicate SortedFront(d: seq<real>, m: nat, order: seq<nat>) {
    && m <= |d| && |order| == |d| && Distinct(order) && InRange(order, |d|)
    && forall i, j :: 0 <= i < m && i <= j < |d| ==> d[order[i]] <= d[order[j]]
  }

  /** The answer: the nearest `min(k, |cands|)` candidates by ascending exact distance, each once and
      under its own number, then empty slots. */
  ghost predicate NearestOf(dist: seq<real>, cands: seq<nat>, k: nat, out: seq<Entry>) {
    var m := Min(k, |cands|);
    && |out| == k
    && (forall j :: 0 <= j < m ==> 0 <= out[j].id < |dist| && out[j].id in cands && out[j].val == dist[out[j].id])
    && (forall i, j :: 0 <= i < j < m ==> out[i].id != out[j].id && out[i].val <= out[j].val)
    && (forall j, c :: 0 <= j < m && c in cands && c < |dist| && (forall i :: 0 <= i < m ==> out[i].id != c) ==>
          out[j].val <= dist[c])
    && forall j :: m <= j < k ==> out[j] == Entry(FLT_MAX, -1)
  }

  /** Ranking the candidates by exact distance and writing out the k best. */
  method RankCandidates(dist: seq<real>, cands: seq<nat>, k: nat, sorter: PartialSort, out: array<Entry>)
    requires Distinct(cands) && InRange(cands, |dist|) && Sorts(sorter) && out.Length == k
    modifies out
    ensures NearestOf(dist, cands, k, out[..])
  {
    var nc := |cands|;
    var candDists := seq(nc, j requires 0 <= j < nc => dist[cands[j]]);
    var resultK := Min(k, nc);
    var order := sorter(candDists, resultK);
    assert SortedFront(candDists, resultK, order);
    for j := 0 to resultK
      invariant forall i :: 0 <= i < j ==> out[i] == Entry(candDists[order[i]], cands[order[i]])
    {
      out[j] := Entry(candDists[order[j]], cands[order[j]]);
    }
    for j := resultK to k
      invariant forall i :: 0 <= i < resultK ==> out[i] == Entry(candDists[order[i]], cands[order[i]])
      invariant forall i :: resultK <= i < j ==> out[i] == Entry(FLT_MAX, -1)
    {
      out[j] := Entry(FLT_MAX, -1);
    }
    RankedIsNearest(dist, cands, k, candDists, order, out[..]);
  }

  lemma RankedIsNearest(dist: seq<real>, cands: seq<nat>, k: nat, d: seq<real>, order: seq<nat>, out: seq<Entry>)
    requires Distinct(cands) && InRange(cands, |dist|) && |out| == k
    requires |d| == |cands| && forall x :: 0 <= x < |d| ==> d[x] == dist[cands[x]]
    requires SortedFront(d, Min(k, |cands|), order)
    requires forall j :: 0 <= j < Min(k, |cands|) ==> out[j] == Entry(d[order[j]], cands[order[j]])
    requires forall j :: Min(k, |cands|) <= j < k ==> out[j] == Entry(FLT_MAX, -1)
    ensures NearestOf(dist, cands, k, out)
  {
    hide SortedFront;
    var m := Min(k, |cands|);
    forall j | 0 <= j < m
      ensures 0 <= out[j].id < |dist| && out[j].id in cands && out[j].val == dist[out[j].id]
    {
      FrontFacts(d, m, order, j, j);
      assert out[j] == Entry(d[order[j]], cands[order[j]]);
    }
    forall i, j | 0 <= i < j < m ensures out[i].id != out[j].id && out[i].val <= out[j].val {
      FrontFacts(d, m, order, i, j);
      assert out[i] == Entry(d[order[i]], cands[order[i]]) && out[j] == Entry(d[order[j]], cands[order[j]]);
    }
    forall j, c | 0 <= j < m && c in cands && c < |dist| && (forall i :: 0 <= i < m ==> out[i].id != c)
      ensures out[j].val <= dist[c]
    {
      var x :| 0 <= x < |cands| && cands[x] == c;
      LeftOut(d, m, order, j, x);
    }
  }

  lemma FrontFacts(d: seq<real>, m: nat, order: seq<nat>, i: nat, j: nat)
    requires SortedFront(d, m, order) && i <= j < m
    ensures |order| == |d| && m <= |d|
    ensures order[i] < |d| && order[j] < |d| && d[order[i]] <= d[order[j]]
    ensures i < j ==> order[i] != order[j]
  {
  }

  lemma LeftOut(d: seq<real>, m: nat, order: seq<nat>, j: nat, x: nat)
    requires SortedFront(d, m, order) && j < m && x < |d|
    requires forall i :: 0 <= i < m ==> order[i] != x
    ensures |order| == |d| && m <= |d|
    ensures order[j] < |d| && d[order[j]] <= d[x]
  {
    PositionsCovered(order, |d|);
    assert x in order;
    var y :| 0 <= y < |order| && order[y] == x;
  }

  ghost function Everything(n: nat): (r: seq<nat>)
    ensures Distinct(r) && InRange(r, n) && |r| == n
    ensures forall i :: 0 <= i < n ==> r[i] == i
  {
    seq(n, i => i)
  }

  /** What a re-ranking answers: the k nearest among the best-scored candidates, or among all points
      when at least as many candidates are asked for. */
  ghost predicate Reranked(dist: seq<real>, sc: seq<int>, k: nat, candidateNum: nat, out: seq<Entry>) {
    if candidateNum >= |dist| then NearestOf(dist, Everything(|dist|), k, out)
    else exists cands :: Candidates(sc, candidateNum, cands) && NearestOf(dist, cands, k, out)
  }

  /** `rerank` */
  method Rerank(dist: seq<real>, sc: seq<int>, maxScore: nat, k: nat, candidateNum: nat,
                sorter: PartialSort, out: array<Entry>)
    requires |sc| == |dist| && Sorts(sorter) && out.Length == k
    requires forall i :: 0 <= i < |sc| ==> 0 <= sc[i] <= maxScore
    modifies out
    ensures Reranked(dist, sc, k, candidateNum, out[..])
  {
    hide NearestOf, Sorts, Candidates;
    var n := |dist|;
    if candidateNum >= n {
      var all := seq(n, i requires 0 <= i < n => i);
      assert all == Everything(n);
      RankCandidates(dist, all, k, sorter, out);
      return;
    }
    var hist := Histogram(sc, maxScore);
    var threshold, above := Threshold(sc, maxScore, hist, candidateNum);
    var cands := Gather(sc, threshold, above, candidateNum);
    CandidatesListed(sc, candidateNum, cands);
    RankCandidates(dist, cands, k, sorter, out);
  }

  lemma CandidatesListed(sc: seq<int>, m: nat, cands: seq<nat>)
    requires Candidates(sc, m, cands)
    ensures Distinct(cands) && InRange(cands, |sc|)
  {
    forall i | 0 <= i < |cands| ensures cands[i] < |sc| {
      assert cands[i] in cands;
    }
  }

  /** Asking for more candidates never makes any answered distance worse. */
  lemma MoreCandidatesNoWorse(dist: seq<real>, few: seq<nat>, many: seq<nat>, k: nat,
                              out: seq<Entry>, out': seq<Entry>, j: nat)
    requires NearestOf(dist, few, k, out) && NearestOf(dist, many, k, out')
    requires Distinct(few) && Distinct(many) && InRange(many, |dist|)
    requires forall c :: c in few ==> c in many
    requires j < Min(k, |few|)
    ensures j < Min(k, |many|) && out'[j].val <= out[j].val
  {
    hide NearestOf;
    MemberCount(few);
    MemberCount(many);
    SubsetSmaller(Members(few), Members(many));
    Answered(dist, few, k, out);
    var ids := seq(j + 1, i requires 0 <= i <= j => out[i].id);
    Answered(dist, many, k, out');
    var ids' := seq(j, i requires 0 <= i < j => out'[i].id);
    var c := SomethingNew(ids, ids');
    var r :| 0 <= r <= j && ids[r] == c;
    forall i | 0 <= i < j ensures out'[i].id != c {
      assert ids'[i] == out'[i].id;
    }
    NotBeaten(dist, many, k, out', j, c);
  }

  lemma Answered(dist: seq<real>, cands: seq<nat>, k: nat, out: seq<Entry>)
    requires NearestOf(dist, cands, k, out)
    ensures |out| == k
    ensures forall i :: 0 <= i < Min(k, |cands|) ==>
              0 <= out[i].id < |dist| && out[i].id in cands && out[i].val == dist[out[i].id]
    ensures forall i, j :: 0 <= i < j < Min(k, |cands|) ==> out[i].id != out[j].id && out[i].val <= out[j].val
  {
  }

  lemma NotBeaten(dist: seq<real>, cands: seq<nat>, k: nat, out: seq<Entry>, j: nat, c: nat)
    requires NearestOf(dist, cands, k, out) && j < Min(k, |cands|) && c in cands && c < |dist|
    requires forall i :: 0 <= i < j ==> out[i].id != c
    ensures out[j].val <= dist[c]
  {
    if i :| j <= i < Min(k, |cands|) && out[i].id == c {
      assert out[j].val <= out[i].val;
    }
  }
}
