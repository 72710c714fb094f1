/** One query of faiss/IndexSuCo.cpp: collision scores over all subspaces, then re-ranking. */
module SucoSearch {
  import opened Common
  import opened Distinctness
  import opened MultiIndex
  import opened Activation
  import opened DynamicActivation
  import opened Multisequence
  import opened Reranking
  import opened Selection

  /** A query against a filled index of n vectors; more than 255 subspaces are refused on construction. */
  ghost predicate Indexed(subs: seq<Subspace>, homes: seq<seq<nat>>, n: nat) {
    && |subs| == |homes| <= 255
    && forall s :: 0 <= s < |subs| ==>
         && subs[s].Valid() && |homes[s]| == n && Filed(subs[s].lists, homes[s])
         && Assigned(subs[s].nc, homes[s])
  }

  ghost predicate Traversed(subs: seq<Subspace>, cn: nat, ts: seq<seq<Cell>>) {
    && |ts| <= |subs|
    && forall s :: 0 <= s < |ts| ==> subs[s].Valid() && Activated(subs[s], ts[s], cn)
  }

  /** The collision score of vector v: in how many subspaces its cell was visited. */
  ghost function Score(subs: seq<Subspace>, homes: seq<seq<nat>>, cn: nat, ts: seq<seq<Cell>>, v: nat): (r: nat)
    requires Traversed(subs, cn, ts) && |subs| == |homes|
    requires forall s :: 0 <= s < |ts| ==> v < |homes[s]|
    ensures r <= |ts|
  {
    if ts == [] then 0
    else
      var m := |ts| - 1;
      Score(subs, homes, cn, ts[..m], v) + if Seen(subs[m], ts[m], homes[m][v]) then 1 else 0
  }

  ghost predicate Scored(subs: seq<Subspace>, homes: seq<seq<nat>>, n: nat, cn: nat, ts: seq<seq<Cell>>, sc: seq<int>)
    requires Indexed(subs, homes, n)
  {
    && Traversed(subs, cn, ts) && |sc| == n
    && forall v :: 0 <= v < n ==> sc[v] == Score(subs, homes, cn, ts, v)
  }

  lemma ScoreNext(subs: seq<Subspace>, homes: seq<seq<nat>>, n: nat, cn: nat, ts: seq<seq<Cell>>, t: seq<Cell>,
                  before: seq<int>, after: seq<int>)
    requires Indexed(subs, homes, n) && Scored(subs, homes, n, cn, ts, before) && |ts| < |subs|
    requires Activated(subs[|ts|], t, cn) && Counted(subs[|ts|], homes[|ts|], before, after, t)
    ensures Scored(subs, homes, n, cn, ts + [t], after)
  {
    hide Seen, Activated, Filed, Assigned;
    var u, m := ts + [t], |ts|;
    forall s | 0 <= s < |u| ensures subs[s].Valid() && Activated(subs[s], u[s], cn) {
      if s < m { assert u[s] == ts[s]; }
    }
    assert u[..m] == ts;
  }

  /** Scores of one query.  `byQueue` chooses the priority-queue traversal, as the multisequence search
      does.  Counters of 8 bits suffice. */
  method CollisionScores(subs: seq<Subspace>, n: nat, cn: nat, byQueue: bool, sc: array<int>,
                         ghost homes: seq<seq<nat>>) returns (ghost ts: seq<seq<Cell>>)
    requires Indexed(subs, homes, n) && sc.Length == n
    modifies sc
    ensures |ts| == |subs| && Scored(subs, homes, n, cn, ts, sc[..])
  {
    hide Activated, Filed, Assigned, Counted, Scored;
    for v := 0 to n
      invariant forall u :: 0 <= u < v ==> sc[u] == 0
    {
      sc[v] := 0;
    }
    ts := [];
    ScoredAtFirst(subs, homes, n, cn, sc[..]);
    for s := 0 to |subs|
      invariant |ts| == s && Scored(subs, homes, n, cn, ts, sc[..])
    {
      ghost var before := sc[..];
      ScoresHaveRoom(subs, homes, n, cn, ts, before);
      ghost var t;
      if byQueue {
        t := DynamicActivateMultisequence(subs[s], cn, sc, homes[s]);
      } else {
        t := DynamicActivate(subs[s], cn, sc, homes[s]);
      }
      ScoreNext(subs, homes, n, cn, ts, t, before, sc[..]);
      ts := ts + [t];
    }
  }

  lemma ScoredAtFirst(subs: seq<Subspace>, homes: seq<seq<nat>>, n: nat, cn: nat, sc: seq<int>)
    requires Indexed(subs, homes, n) && |sc| == n && forall v :: 0 <= v < n ==> sc[v] == 0
    ensures Scored(subs, homes, n, cn, [], sc)
  {
  }

  /** A score never exceeds the number of subspaces done, so an 8-bit counter has room for one more. */
  lemma ScoresHaveRoom(subs: seq<Subspace>, homes: seq<seq<nat>>, n: nat, cn: nat, ts: seq<seq<Cell>>, sc: seq<int>)
    requires Indexed(subs, homes, n) && Scored(subs, homes, n, cn, ts, sc)
    ensures forall v :: 0 <= v < n ==> 0 <= sc[v] <= |ts|
    ensures |ts| < |subs| ==> Room(sc)
  {
  }

  /** `max(k, cdr * ntotal)`, truncated. */
  function CandidateNum(k: nat, cdr: real, n: nat): (m: nat)
    requires 0.0 < cdr < 1.0
    ensures m == k || k as real <= m as real <= cdr * n as real
    ensures cdr * n as real < m as real + 1.0
    ensures k <= n ==> m <= n
  {
    var share := (cdr * n as real).Floor;
    assert cdr * n as real <= n as real;
    if share > k then share else k
  }

  /** `search_one` / `search_one_multisequence` */
  method SearchOne(subs: seq<Subspace>, dist: seq<real>, k: nat, cn: nat, candidateNum: nat, byQueue: bool,
                   sorter: PartialSort, out: array<Entry>, ghost homes: seq<seq<nat>>)
    returns (ghost ts: seq<seq<Cell>>, ghost sc: seq<int>)
    requires Indexed(subs, homes, |dist|) && Sorts(sorter) && out.Length == k
    modifies out
    ensures |ts| == |subs| && Scored(subs, homes, |dist|, cn, ts, sc)
    ensures Reranked(dist, sc, k, candidateNum, out[..])
  {
    hide Indexed, Scored, Reranked;
    var scratch := new int[|dist|];
    ts := CollisionScores(subs, |dist|, cn, byQueue, scratch, homes);
    ScoresHaveRoom(subs, homes, |dist|, cn, ts, scratch[..]);
    sc := scratch[..];
    Rerank(dist, scratch[..], |subs|, k, candidateNum, sorter, out);
  }

  /** With k <= ntotal, as `search` insists, no slot of the answer stays empty. */
  lemma NoEmptySlots(dist: seq<real>, sc: seq<int>, k: nat, cdr: real, out: seq<Entry>, j: nat)
    requires |sc| == |dist| && 0.0 < cdr < 1.0 && k <= |dist| && j < k
    requires Reranked(dist, sc, k, CandidateNum(k, cdr, |dist|), out)
    ensures |out| == k && 0 <= out[j].id < |dist| && out[j].val == dist[out[j].id]
  {
  }

  lemma AnswersMatch(dist: seq<real>, sc: seq<int>, k: nat, m: nat, out: seq<Entry>, out': seq<Entry>)
    requires |sc| == |dist|
    requires Reranked(dist, sc, k, m, out) && Reranked(dist, sc, k, m, out')
    ensures |out| == |out'| == k
    ensures forall j :: 0 <= j < k ==> out[j].val == out'[j].val
  {
    hide Candidates, NearestOf;
    if m >= |dist| {
      NearestMatch(dist, Everything(|dist|), k, out, out');
    } else {
      var s :| Candidates(sc, m, s) && NearestOf(dist, s, k, out);
      var t :| Candidates(sc, m, t) && NearestOf(dist, t, k, out');
      CandidatesUnique(sc, m, s, t);
      CandidatesListed(sc, m, s);
      NearestMatch(dist, s, k, out, out');
    }
  }

  lemma NearestMatch(dist: seq<real>, cands: seq<nat>, k: nat, out: seq<Entry>, out': seq<Entry>)
    requires Distinct(cands) && InRange(cands, |dist|)
    requires NearestOf(dist, cands, k, out) && NearestOf(dist, cands, k, out')
    ensures |out| == |out'| == k
    ensures forall j :: 0 <= j < k ==> out[j].val == out'[j].val
  {
    forall j | 0 <= j < k ensures out[j].val == out'[j].val {
      if j < Min(k, |cands|) {
        MoreCandidatesNoWorse(dist, cands, cands, k, out, out', j);
        MoreCandidatesNoWorse(dist, cands, cands, k, out', out, j);
      }
    }
  }

  lemma {:induction false} SameScores(subs: seq<Subspace>, homes: seq<seq<nat>>, n: nat, cn: nat,
                                      ts: seq<seq<Cell>>, us: seq<seq<Cell>>, v: nat)
    requires Indexed(subs, homes, n) && Traversed(subs, cn, ts) && Traversed(subs, cn, us) && v < n
    requires |ts| == |us|
    ensures Score(subs, homes, cn, ts, v) == Score(subs, homes, cn, us, v)
  {
    hide Activated, Seen, Filed, Assigned;
    if ts != [] {
      var m := |ts| - 1;
      SameScores(subs, homes, n, cn, ts[..m], us[..m], v);
      TraversalsAgree(subs[m], ts[m], us[m], cn);
    }
  }

  /** The two searches are interchangeable: they give every vector the same score and answer the same
      distances, whatever the ties between cells. */
  lemma SearchesAgree(subs: seq<Subspace>, homes: seq<seq<nat>>, dist: seq<real>, k: nat, cn: nat, m: nat,
                      ts: seq<seq<Cell>>, us: seq<seq<Cell>>, sc: seq<int>, sc': seq<int>,
                      out: seq<Entry>, out': seq<Entry>)
    requires Indexed(subs, homes, |dist|) && |ts| == |us| == |subs|
    requires Scored(subs, homes, |dist|, cn, ts, sc) && Scored(subs, homes, |dist|, cn, us, sc')
    requires Reranked(dist, sc, k, m, out) && Reranked(dist, sc', k, m, out')
    ensures sc == sc'
    ensures |out| == |out'| == k && forall j :: 0 <= j < k ==> out[j].val == out'[j].val
  {
    hide Activated, Seen, Filed, Assigned, Score, Reranked;
    forall v | 0 <= v < |dist| ensures sc[v] == sc'[v] {
      SameScores(subs, homes, |dist|, cn, ts, us, v);
    }
    assert sc == sc';
    AnswersMatch(dist, sc, k, m, out, out');
  }
}
