/** plateau_counts of bench_eps_recall.py: the blocked, prefiltered count of base points inside each
    query's eps ball, against the plain count. */
module Plateau {
  import opened Common
  import opened Vectors
  import opened EpsRecall
  import opened Scores

  /** t - r, with infinity absorbing. */
  function Sub(t: Dist, r: real): Dist {
    if t.Inf? then Inf else Fin(t.v - r)
  }

  function MaxDist(a: Dist, b: Dist): Dist {
    if Le(a, b) then b else a
  }

  /** What the matrix product leaves in D: the squared distance without the query's own norm. */
  function Kernel(x: seq<real>, q: seq<real>): real
    requires |x| == |q|
  {
    -2.0 * Dot(q, x) + Norm2(x)
  }

  /** Folding the query norm into the threshold changes no decision. */
  lemma FoldedNorm(x: seq<real>, q: seq<real>, t: Dist)
    requires |x| == |q|
    ensures Le(Fin(D2(x, q)), t) <==> Le(Fin(Kernel(x, q)), Sub(t, Norm2(q)))
  {
    D2Expands(x, q);
  }

  /** Base points lo..hi whose kernel value is within the folded threshold. */
  function Within(xb: seq<seq<real>>, q: seq<real>, t: Dist, lo: nat, hi: nat): nat
    requires Matrix(xb, |q|) && lo <= hi <= |xb|
  {
    if lo == hi then 0 else Within(xb, q, t, lo, hi - 1) + if Le(Fin(Kernel(xb[hi - 1], q)), t) then 1 else 0
  }

  lemma {:induction false} WithinSplits(xb: seq<seq<real>>, q: seq<real>, t: Dist, lo: nat, mid: nat, hi: nat)
    requires Matrix(xb, |q|) && lo <= mid <= hi <= |xb|
    ensures Within(xb, q, t, lo, hi) == Within(xb, q, t, lo, mid) + Within(xb, q, t, mid, hi)
  {
    if mid < hi {
      WithinSplits(xb, q, t, lo, mid, hi - 1);
    }
  }

  /** The folded count over the first n base points is the plain count of points in the ball. */
  lemma {:induction false} WithinIsPlain(xb: seq<seq<real>>, q: seq<real>, t: Dist, n: nat)
    requires Matrix(xb, |q|) && n <= |xb|
    ensures Within(xb, q, Sub(t, Norm2(q)), 0, n) == |set id | 0 <= id < n && Credited(xb, q, t, id)|
  {
    if n == 0 {
      InBallNext(xb, q, t, 0);
    } else {
      hide Kernel, Sub, D2, Norm2;
      WithinIsPlain(xb, q, t, n - 1);
      FoldedNorm(xb[n - 1], q, t);
      InBallNext(xb, q, t, n - 1);
    }
  }

  lemma InBallNext(xb: seq<seq<real>>, q: seq<real>, t: Dist, n: nat)
    ensures |set id | 0 <= id < 0 && Credited(xb, q, t, id)| == 0
    ensures |set id | 0 <= id < n + 1 && Credited(xb, q, t, id)|
            == |set id | 0 <= id < n && Credited(xb, q, t, id)| + if Credited(xb, q, t, n) then 1 else 0
  {
    hide Credited;
    assert (set id | 0 <= id < 0 && Credited(xb, q, t, id)) == {};
    assert (set id | 0 <= id < n + 1 && Credited(xb, q, t, id))
           == (set id | 0 <= id < n && Credited(xb, q, t, id)) + if Credited(xb, q, t, n) then {n} else {};
  }

  // ---------- one block ----------

  /** rows and vals of np.nonzero(D <= thr_max), paired, in row-major order. */
  function RowSelected(xb: seq<seq<real>>, q: seq<real>, r: nat, tmax: Dist, lo: nat, hi: nat): seq<(nat, real)>
    requires Matrix(xb, |q|) && lo <= hi <= |xb|
  {
    if lo == hi then []
    else
      RowSelected(xb, q, r, tmax, lo, hi - 1)
      + if Le(Fin(Kernel(xb[hi - 1], q)), tmax) then [(r, Kernel(xb[hi - 1], q))] else []
  }

  function Selected(xb: seq<seq<real>>, qs: seq<seq<real>>, tmax: seq<Dist>, lo: nat, hi: nat, d: nat): seq<(nat, real)>
    requires Matrix(xb, d) && Matrix(qs, d) && |tmax| == |qs| && lo <= hi <= |xb|
  {
    if qs == [] then []
    else
      var n := |qs| - 1;
      Selected(xb, qs[..n], tmax[..n], lo, hi, d) + RowSelected(xb, qs[n], n, tmax[n], lo, hi)
  }

  /** rows[vals <= thr_adj[rows]] */
  function HitRows(sel: seq<(nat, real)>, thr: seq<Dist>): seq<nat> {
    if sel == [] then []
    else
      var (r, v) := sel[|sel| - 1];
      HitRows(sel[..|sel| - 1], thr) + if r < |thr| && Le(Fin(v), thr[r]) then [r] else []
  }

  function Occurrences(rows: seq<nat>, r: nat): nat {
    if rows == [] then 0 else Occurrences(rows[..|rows| - 1], r) + if rows[|rows| - 1] == r then 1 else 0
  }

  /** np.bincount(rows, minlength=n); every row number is below n. */
  function Bincount(rows: seq<nat>, n: nat): (c: seq<nat>)
    ensures |c| == n && forall r :: 0 <= r < n ==> c[r] == Occurrences(rows, r)
  {
    seq(n, r requires 0 <= r < n => Occurrences(rows, r))
  }

  lemma {:induction false} HitsAppend(a: seq<(nat, real)>, b: seq<(nat, real)>, thr: seq<Dist>, r: nat)
    ensures Occurrences(HitRows(a + b, thr), r) == Occurrences(HitRows(a, thr), r) + Occurrences(HitRows(b, thr), r)
  {
    if b == [] {
      assert a + b == a;
    } else {
      var n := |b| - 1;
      assert (a + b)[..|a + b| - 1] == a + b[..n];
      HitsAppend(a, b[..n], thr, r);
      OneHit(HitRows(a + b[..n], thr), b[n], thr, r);
      OneHit(HitRows(b[..n], thr), b[n], thr, r);
    }
  }

  lemma OneHit(hits: seq<nat>, e: (nat, real), thr: seq<Dist>, r: nat)
    ensures Occurrences(hits + if e.0 < |thr| && Le(Fin(e.1), thr[e.0]) then [e.0] else [], r)
         == Occurrences(hits, r) + if e.0 == r && e.0 < |thr| && Le(Fin(e.1), thr[e.0]) then 1 else 0
  {
    if e.0 < |thr| && Le(Fin(e.1), thr[e.0]) {
      assert (hits + [e.0])[..|hits|] == hits;
    } else {
      assert hits + [] == hits;
    }
  }

  lemma NoHits(thr: seq<Dist>, r: nat)
    ensures Occurrences(HitRows([], thr), r) == 0
  {
  }

  lemma HitsSnoc(a: seq<(nat, real)>, e: (nat, real), thr: seq<Dist>, r: nat)
    ensures Occurrences(HitRows(a + [e], thr), r)
         == Occurrences(HitRows(a, thr), r) + if e.0 == r && e.0 < |thr| && Le(Fin(e.1), thr[e.0]) then 1 else 0
  {
    hide Occurrences;
    assert (a + [e])[..|a|] == a;
    OneHit(HitRows(a, thr), e, thr, r);
  }

  /** Within one row the prefilter loses nothing that the exact threshold accepts. */
  lemma {:induction false} RowHits(xb: seq<seq<real>>, q: seq<real>, n: nat, tmax: Dist, lo: nat, hi: nat,
                                   thr: seq<Dist>, r: nat)
    requires Matrix(xb, |q|) && lo <= hi <= |xb| && n < |thr| && Le(thr[n], tmax)
    ensures Occurrences(HitRows(RowSelected(xb, q, n, tmax, lo, hi), thr), r)
         == if r == n then Within(xb, q, thr[n], lo, hi) else 0
  {
    hide HitRows, Occurrences, Kernel;
    if lo == hi {
      NoHits(thr, r);
    } else {
      RowHits(xb, q, n, tmax, lo, hi - 1, thr, r);
      var sel, v := RowSelected(xb, q, n, tmax, lo, hi - 1), Kernel(xb[hi - 1], q);
      HitsSnoc(sel, (n, v), thr, r);
      assert sel + [] == sel;
    }
  }

  /** The refiltered bincount of a block counts, per query, the block's base points in the ball. */
  lemma {:induction false} BlockCounts(xb: seq<seq<real>>, qs: seq<seq<real>>, tmax: seq<Dist>, lo: nat, hi: nat,
                                       d: nat, thr: seq<Dist>, r: nat)
    requires Matrix(xb, d) && Matrix(qs, d) && |tmax| == |qs| <= |thr| && lo <= hi <= |xb| && r < |thr|
    requires forall i :: 0 <= i < |qs| ==> Le(thr[i], tmax[i])
    ensures Occurrences(HitRows(Selected(xb, qs, tmax, lo, hi, d), thr), r)
         == if r < |qs| then Within(xb, qs[r], thr[r], lo, hi) else 0
  {
    if qs != [] {
      var n := |qs| - 1;
      BlockCounts(xb, qs[..n], tmax[..n], lo, hi, d, thr, r);
      RowHits(xb, qs[n], n, tmax[n], lo, hi, thr, r);
      HitsAppend(Selected(xb, qs[..n], tmax[..n], lo, hi, d), RowSelected(xb, qs[n], n, tmax[n], lo, hi), thr, r);
    }
  }

  // ---------- the whole count ----------

  function Multiplicity(e: real, eps: seq<real>): nat {
    if eps == [] then 0 else Multiplicity(e, eps[..|eps| - 1]) + if eps[|eps| - 1] == e then 1 else 0
  }

  lemma {:induction false} MultiplicityPositive(e: real, eps: seq<real>)
    ensures Multiplicity(e, eps) >= 1 <==> e in eps
  {
    if eps != [] {
      MultiplicityPositive(e, eps[..|eps| - 1]);
    }
  }

  lemma {:induction false} DistinctOnce(e: real, eps: seq<real>)
    requires forall i, j :: 0 <= i < j < |eps| ==> eps[i] != eps[j]
    ensures Multiplicity(e, eps) <= 1
  {
    if eps != [] {
      var n := |eps| - 1;
      DistinctOnce(e, eps[..n]);
      MultiplicityPositive(e, eps[..n]);
    }
  }

  /** The inputs of one call, dk2 being the squared k-th groundtruth distances. */
  datatype Input = Input(xb: seq<seq<real>>, xq: seq<seq<real>>, dk2: seq<Dist>, eps: seq<real>, d: nat)

  predicate ValidInput(p: Input) {
    Matrix(p.xb, p.d) && Matrix(p.xq, p.d) && |p.dk2| == |p.xq|
  }

  /** thr_adj[e] for query i. */
  function Folded(p: Input, e: real, i: nat): Dist
    requires ValidInput(p) && i < |p.xq|
  {
    Sub(Threshold(p.dk2[i], e, PLATEAU_SLACK), Norm2(p.xq[i]))
  }

  function FoldedBlock(p: Input, e: real, qs: nat, qe: nat): (t: seq<Dist>)
    requires ValidInput(p) && qs <= qe <= |p.xq|
    ensures |t| == qe - qs && forall r :: 0 <= r < |t| ==> t[r] == Folded(p, e, qs + r)
  {
    seq(qe - qs, r requires 0 <= r < qe - qs => Folded(p, e, qs + r))
  }

  function LargestOf(p: Input, eps: seq<real>, i: nat): (t: Dist)
    requires ValidInput(p) && i < |p.xq| && eps != []
    ensures forall e :: e in eps ==> Le(Folded(p, e, i), t)
  {
    var n := |eps| - 1;
    assert eps == eps[..n] + [eps[n]];
    if n == 0 then Folded(p, eps[0], i) else MaxDist(LargestOf(p, eps[..n], i), Folded(p, eps[n], i))
  }

  /** thr_max over the block. */
  function LargestBlock(p: Input, qs: nat, qe: nat): (t: seq<Dist>)
    requires ValidInput(p) && qs <= qe <= |p.xq| && p.eps != []
    ensures |t| == qe - qs && forall r :: 0 <= r < |t| ==> t[r] == LargestOf(p, p.eps, qs + r)
  {
    seq(qe - qs, r requires 0 <= r < qe - qs => LargestOf(p, p.eps, qs + r))
  }

  /** Points of base block lo..hi inside query i's ball. */
  function InBlock(p: Input, e: real, i: nat, lo: nat, hi: nat): nat
    requires ValidInput(p) && i < |p.xq| && lo <= hi <= |p.xb|
  {
    Within(p.xb, p.xq[i], Folded(p, e, i), lo, hi)
  }

  /** The plain count the function promises. */
  ghost function PlainCount(p: Input, e: real, i: nat): nat
    requires ValidInput(p) && i < |p.xq|
  {
    |Plateau(p.xb, p.xq[i], Threshold(p.dk2[i], e, PLATEAU_SLACK))|
  }

  /** It counts the ball of radius (1 + e) times the k-th true distance, up to the slack. */
  lemma PlainCountIsBall(p: Input, e: real, i: nat, dist: seq<real>, d: real)
    requires ValidInput(p) && i < |p.xq| && e >= 0.0 && d >= 0.0 && p.dk2[i] == Fin(d * d)
    requires IsDistances(p.xb, p.xq[i], dist)
    ensures |Ball(dist, Radius(d, e, 1.0))| <= PlainCount(p, e, i) <= |Ball(dist, Radius(d, e, PLATEAU_SLACK))|
  {
    hide Threshold, Scores.Plateau, Ball, IsDistances, Radius;
    CreditCountsBall(p.xb, p.xq[i], [], dist, d, e, PLATEAU_SLACK);
    var plateau := Scores.Plateau(p.xb, p.xq[i], Threshold(p.dk2[i], e, PLATEAU_SLACK));
    Fewer(Ball(dist, Radius(d, e, 1.0)), plateau);
    Fewer(plateau, Ball(dist, Radius(d, e, PLATEAU_SLACK)));
  }

  lemma Fewer(a: set<int>, b: set<int>)
    requires a <= b
    ensures |a| <= |b|
  {
    assert b == a + (b - a);
  }

  lemma InBlockIsPlain(p: Input, e: real, i: nat)
    requires ValidInput(p) && i < |p.xq|
    ensures InBlock(p, e, i, 0, |p.xb|) == PlainCount(p, e, i)
  {
    WithinIsPlain(p.xb, p.xq[i], Threshold(p.dk2[i], e, PLATEAU_SLACK), |p.xb|);
  }

  ghost predicate Shaped(counts: map<real, seq<nat>>, p: Input) {
    counts.Keys == (set e | e in p.eps) && forall e :: e in counts ==> |counts[e]| == |p.xq|
  }

  /** counts[e][qs:qe] += add */
  function AddSlice(c: seq<nat>, qs: nat, add: seq<nat>): (r: seq<nat>)
    requires qs + |add| <= |c|
    ensures |r| == |c|
    ensures forall i :: 0 <= i < |c| ==> r[i] == c[i] + if qs <= i < qs + |add| then add[i - qs] else 0
  {
    seq(|c|, i requires 0 <= i < |c| => c[i] + if qs <= i < qs + |add| then add[i - qs] else 0)
  }

  /** What one base block adds for the first t entries of the eps list. */
  ghost predicate BlockAdded(p: Input, was: map<real, seq<nat>>, counts: map<real, seq<nat>>, qs: nat, qe: nat,
                             lo: nat, hi: nat, t: nat)
    requires ValidInput(p) && Shaped(was, p) && Shaped(counts, p) && qs <= qe <= |p.xq| && lo <= hi <= |p.xb|
    requires t <= |p.eps|
  {
    forall e, i :: e in counts && 0 <= i < |p.xq| ==>
      counts[e][i] == was[e][i] + if qs <= i < qe then Multiplicity(e, p.eps[..t]) * InBlock(p, e, i, lo, hi) else 0
  }

  lemma BlockHits(p: Input, e: real, qs: nat, qe: nat, lo: nat, hi: nat, sel: seq<(nat, real)>, r: nat)
    requires ValidInput(p) && qs <= qe <= |p.xq| && lo <= hi <= |p.xb| && e in p.eps && r < qe - qs
    requires sel == Selected(p.xb, p.xq[qs..qe], LargestBlock(p, qs, qe), lo, hi, p.d)
    ensures Occurrences(HitRows(sel, FoldedBlock(p, e, qs, qe)), r) == InBlock(p, e, qs + r, lo, hi)
  {
    BlockCounts(p.xb, p.xq[qs..qe], LargestBlock(p, qs, qe), lo, hi, p.d, FoldedBlock(p, e, qs, qe), r);
  }

  lemma OneEpsAdded(p: Input, was: map<real, seq<nat>>, counts: map<real, seq<nat>>, qs: nat, qe: nat,
                    lo: nat, hi: nat, t: nat, add: seq<nat>)
    requires ValidInput(p) && Shaped(was, p) && Shaped(counts, p) && qs <= qe <= |p.xq| && lo <= hi <= |p.xb|
    requires t < |p.eps| && BlockAdded(p, was, counts, qs, qe, lo, hi, t)
    requires p.eps[t] in counts && |counts[p.eps[t]]| == |p.xq|
    requires |add| == qe - qs && forall r :: 0 <= r < |add| ==> add[r] == InBlock(p, p.eps[t], qs + r, lo, hi)
    ensures var counts' := counts[p.eps[t] := AddSlice(counts[p.eps[t]], qs, add)];
            Shaped(counts', p) && BlockAdded(p, was, counts', qs, qe, lo, hi, t + 1)
  {
    hide InBlock;
    var e0 := p.eps[t];
    var counts' := counts[e0 := AddSlice(counts[e0], qs, add)];
    assert p.eps[..t + 1][..t] == p.eps[..t];
    forall e, i | e in counts' && 0 <= i < |p.xq|
      ensures counts'[e][i] == was[e][i] + if qs <= i < qe then Multiplicity(e, p.eps[..t + 1]) * InBlock(p, e, i, lo, hi) else 0
    {
      if e == e0 && qs <= i < qe {
        OneMoreTime(Multiplicity(e, p.eps[..t]), InBlock(p, e, i, lo, hi));
      }
    }
  }

  lemma OneMoreTime(m: nat, c: nat)
    ensures (m + 1) * c == m * c + c
  {
  }

  /** The body of the base-block loop. */
  method AddBlock(p: Input, was: map<real, seq<nat>>, qs: nat, qe: nat, lo: nat, hi: nat)
    returns (counts: map<real, seq<nat>>)
    requires ValidInput(p) && Shaped(was, p) && qs <= qe <= |p.xq| && lo <= hi <= |p.xb| && p.eps != []
    ensures Shaped(counts, p) && BlockAdded(p, was, counts, qs, qe, lo, hi, |p.eps|)
  {
    hide Selected, HitRows, Occurrences, Folded, InBlock;
    var sel := Selected(p.xb, p.xq[qs..qe], LargestBlock(p, qs, qe), lo, hi, p.d);
    counts := was;
    if |sel| == 0 {
      NothingSelected(p, was, qs, qe, lo, hi, sel);
      return;
    }
    for t := 0 to |p.eps|
      invariant Shaped(counts, p) && BlockAdded(p, was, counts, qs, qe, lo, hi, t)
    {
      var e := p.eps[t];
      var add := Bincount(HitRows(sel, FoldedBlock(p, e, qs, qe)), qe - qs);
      forall r | 0 <= r < |add| ensures add[r] == InBlock(p, e, qs + r, lo, hi) {
        BlockHits(p, e, qs, qe, lo, hi, sel, r);
      }
      OneEpsAdded(p, was, counts, qs, qe, lo, hi, t, add);
      counts := counts[e := AddSlice(counts[e], qs, add)];
    }
    assert p.eps[..|p.eps|] == p.eps;
  }

  lemma NothingSelected(p: Input, was: map<real, seq<nat>>, qs: nat, qe: nat, lo: nat, hi: nat, sel: seq<(nat, real)>)
    requires ValidInput(p) && Shaped(was, p) && qs <= qe <= |p.xq| && lo <= hi <= |p.xb| && p.eps != []
    requires sel == [] && sel == Selected(p.xb, p.xq[qs..qe], LargestBlock(p, qs, qe), lo, hi, p.d)
    ensures BlockAdded(p, was, was, qs, qe, lo, hi, |p.eps|)
  {
    hide Selected, Folded, InBlock;
    forall e, i | e in was && qs <= i < qe ensures InBlock(p, e, i, lo, hi) == 0 {
      BlockHits(p, e, qs, qe, lo, hi, sel, i - qs);
    }
    forall e, i | e in was && 0 <= i < |p.xq|
      ensures qs <= i < qe ==> Multiplicity(e, p.eps[..|p.eps|]) * InBlock(p, e, i, lo, hi) == 0
    {
    }
  }

  /** Queries before qs are finished; queries qs..qe have seen the base up to lo; later ones nothing. */
  ghost predicate Progress(p: Input, counts: map<real, seq<nat>>, qs: nat, qe: nat, lo: nat)
    requires ValidInput(p) && Shaped(counts, p) && qs <= qe <= |p.xq| && lo <= |p.xb|
  {
    forall e, i :: e in counts && 0 <= i < |p.xq| ==>
      counts[e][i] == Multiplicity(e, p.eps)
                      * (if i < qs then InBlock(p, e, i, 0, |p.xb|) else if i < qe then InBlock(p, e, i, 0, lo) else 0)
  }

  lemma BlockProgress(p: Input, was: map<real, seq<nat>>, counts: map<real, seq<nat>>, qs: nat, qe: nat, lo: nat, hi: nat)
    requires ValidInput(p) && Shaped(was, p) && Shaped(counts, p) && qs <= qe <= |p.xq| && lo <= hi <= |p.xb|
    requires Progress(p, was, qs, qe, lo) && BlockAdded(p, was, counts, qs, qe, lo, hi, |p.eps|)
    ensures Progress(p, counts, qs, qe, hi)
  {
    hide Folded, Within, Multiplicity;
    assert p.eps[..|p.eps|] == p.eps;
    forall e, i | e in counts && 0 <= i < |p.xq|
      ensures counts[e][i] == Multiplicity(e, p.eps)
                 * (if i < qs then InBlock(p, e, i, 0, |p.xb|) else if i < qe then InBlock(p, e, i, 0, hi) else 0)
    {
      if qs <= i < qe {
        WithinSplits(p.xb, p.xq[i], Folded(p, e, i), 0, lo, hi);
        Distribute(Multiplicity(e, p.eps), InBlock(p, e, i, 0, lo), InBlock(p, e, i, lo, hi));
      }
    }
  }

  lemma Distribute(m: nat, a: nat, b: nat)
    ensures m * (a + b) == m * a + m * b
  {
  }

  /** plateau_counts: None is the ValueError that stacking no thresholds raises. For every pair of block
      sizes the entry of eps e and query i is the plain count of base points in the ball, once for every
      time e is listed. */
  method PlateauCounts(p: Input, qb: nat, bb: nat) returns (res: Option<map<real, seq<nat>>>)
    requires ValidInput(p) && qb > 0 && bb > 0
    ensures res.None? <==> p.eps == [] && p.xq != []
    ensures res.Some? ==>
              Shaped(res.value, p)
              && forall e, i :: e in res.value && 0 <= i < |p.xq| ==>
                   res.value[e][i] == Multiplicity(e, p.eps) * PlainCount(p, e, i)
  {
    hide InBlock, Multiplicity, PlainCount;
    var nq, nb := |p.xq|, |p.xb|;
    var counts := map e | e in p.eps :: seq(nq, _ => 0);
    StartProgress(p, counts);
    var qs := 0;
    while qs < nq
      invariant qs <= nq && Shaped(counts, p) && Progress(p, counts, qs, qs, 0)
      invariant qs > 0 ==> p.eps != []
    {
      var qe := Min(qs + qb, nq);
      if p.eps == [] {
        return None;
      }
      NextQueries(p, counts, qs, qe);
      var bs := 0;
      while bs < nb
        invariant bs <= nb && Shaped(counts, p) && Progress(p, counts, qs, qe, bs)
      {
        var be := Min(bs + bb, nb);
        ghost var was := counts;
        counts := AddBlock(p, counts, qs, qe, bs, be);
        BlockProgress(p, was, counts, qs, qe, bs, be);
        bs := be;
      }
      QueriesDone(p, counts, qs, qe);
      qs := qe;
    }
    forall e, i | e in counts && 0 <= i < nq ensures counts[e][i] == Multiplicity(e, p.eps) * PlainCount(p, e, i) {
      InBlockIsPlain(p, e, i);
    }
    res := Some(counts);
  }

  lemma StartProgress(p: Input, counts: map<real, seq<nat>>)
    requires ValidInput(p) && Shaped(counts, p)
    requires forall e, i :: e in counts && 0 <= i < |p.xq| ==> counts[e][i] == 0
    ensures Progress(p, counts, 0, 0, 0)
  {
  }

  lemma NextQueries(p: Input, counts: map<real, seq<nat>>, qs: nat, qe: nat)
    requires ValidInput(p) && Shaped(counts, p) && qs <= qe <= |p.xq| && Progress(p, counts, qs, qs, 0)
    ensures Progress(p, counts, qs, qe, 0)
  {
  }

  lemma QueriesDone(p: Input, counts: map<real, seq<nat>>, qs: nat, qe: nat)
    requires ValidInput(p) && Shaped(counts, p) && qs <= qe <= |p.xq| && Progress(p, counts, qs, qe, |p.xb|)
    ensures Progress(p, counts, qe, qe, 0)
  {
  }

  /** The promised count is met exactly where e is listed once, or nothing lies in the ball. */
  lemma CountIsPlain(p: Input, e: real, i: nat)
    requires ValidInput(p) && e in p.eps && i < |p.xq|
    ensures Multiplicity(e, p.eps) * PlainCount(p, e, i) == PlainCount(p, e, i)
            <==> Multiplicity(e, p.eps) == 1 || PlainCount(p, e, i) == 0
    ensures (forall a, b :: 0 <= a < b < |p.eps| ==> p.eps[a] != p.eps[b]) ==> Multiplicity(e, p.eps) == 1
  {
    hide PlainCount;
    MultiplicityPositive(e, p.eps);
    if forall a, b :: 0 <= a < b < |p.eps| ==> p.eps[a] != p.eps[b] {
      DistinctOnce(e, p.eps);
    }
    Cancel(Multiplicity(e, p.eps), PlainCount(p, e, i));
  }

  lemma Cancel(m: nat, c: nat)
    requires m >= 1
    ensures m * c == c <==> m == 1 || c == 0
  {
    if m > 1 && c > 0 {
      assert m * c >= 2 * c;
    }
  }

  /** Listing an eps twice doubles its counts. */
  lemma RepeatedEpsDoubles()
    ensures var p := Input([[0.0]], [[0.0]], [Fin(0.0)], [0.0, 0.0], 1);
            ValidInput(p) && PlainCount(p, 0.0, 0) == 1 && Multiplicity(0.0, p.eps) * PlainCount(p, 0.0, 0) == 2
  {
    var p := Input([[0.0]], [[0.0]], [Fin(0.0)], [0.0, 0.0], 1);
    assert p.eps[..1] == [0.0] && p.eps[..1][..0] == [];
    assert [0.0][..0] == [];
    assert D2([0.0], [0.0]) == 0.0;
    assert Plateau(p.xb, p.xq[0], Threshold(p.dk2[0], 0.0, PLATEAU_SLACK)) == {0};
  }
}
