/** Distance-credit scoring of bench_eps_recall.py: exact distances, id recall and eps-recall. */
module EpsRecall {
  import opened Common
  import opened Vectors

  const CHUNK_BYTES: nat := 0x800_0000

  /** The distance of query q to the returned id: infinite for a missing result. */
  function DistOf(xb: seq<seq<real>>, q: seq<real>, id: int): Dist
    requires Matrix(xb, |q|) && id < |xb|
  {
    if id < 0 then Inf else Fin(D2(xb[id], q))
  }

  predicate IdTable(ids: seq<seq<int>>, k: nat, nb: nat) {
    forall i :: 0 <= i < |ids| ==> |ids[i]| == k && forall j :: 0 <= j < k ==> ids[i][j] < nb
  }

  /** The True positions of the mask `blk >= 0` over rows s..e, in row-major order. */
  function Positions(ids: seq<seq<int>>, k: nat, s: nat, e: nat): (p: seq<(nat, nat)>)
    requires s <= e <= |ids| && forall i :: s <= i < e ==> |ids[i]| == k
  {
    if s == e then [] else Positions(ids, k, s, e - 1) + RowPositions(ids[e - 1], e - 1)
  }

  function RowPositions(row: seq<int>, i: nat): (p: seq<(nat, nat)>) {
    if row == [] then []
    else RowPositions(row[..|row| - 1], i) + if row[|row| - 1] >= 0 then [(i, |row| - 1)] else []
  }

  lemma {:induction false} RowPositionsAre(row: seq<int>, i: nat)
    ensures forall p :: p in RowPositions(row, i) <==> p.0 == i && p.1 < |row| && row[p.1] >= 0
  {
    if row != [] {
      RowPositionsAre(row[..|row| - 1], i);
    }
  }

  lemma {:induction false} PositionsAre(ids: seq<seq<int>>, k: nat, s: nat, e: nat)
    requires s <= e <= |ids| && forall i :: s <= i < e ==> |ids[i]| == k
    ensures forall p :: p in Positions(ids, k, s, e) <==> s <= p.0 < e && p.1 < k && ids[p.0][p.1] >= 0
  {
    if s < e {
      PositionsAre(ids, k, s, e - 1);
      RowPositionsAre(ids[e - 1], e - 1);
    }
  }

  /** Bytes that one query row of float64 differences takes. */
  function RowBytes(d: nat, k: nat): (b: nat)
    requires d > 0
    ensures b > 0
  {
    var m := Max(k, 1);
    assert d * m > 0;
    8 * (d * m)
  }

  /** How many query rows fit the float64 working-set target: as many as possible, at least one. */
  function ChunkRows(d: nat, k: nat): (rows: nat)
    requires d > 0
    ensures rows >= 1
    ensures rows == 1 || RowBytes(d, k) * rows <= CHUNK_BYTES
    ensures CHUNK_BYTES < RowBytes(d, k) * rows + RowBytes(d, k)
  {
    hide RowBytes, Quotient;
    Max(1, Quotient(CHUNK_BYTES, RowBytes(d, k)))
  }

  /** The pointwise distance table. */
  ghost function DistTable(xb: seq<seq<real>>, xq: seq<seq<real>>, ids: seq<seq<int>>, k: nat, d: nat): (t: seq<seq<Dist>>)
    requires Matrix(xb, d) && Matrix(xq, d) && |xq| == |ids| && IdTable(ids, k, |xb|)
    ensures |t| == |ids| && forall i :: 0 <= i < |t| ==> |t[i]| == k
  {
    seq(|ids|, i requires 0 <= i < |ids| => seq(k, j requires 0 <= j < k => DistOf(xb, xq[i], ids[i][j])))
  }

  /** exact_d2: distances computed chunk by chunk on the valid ids only and scattered back by mask. For
      every chunk size the table equals the pointwise distances. */
  method ExactD2(xb: seq<seq<real>>, xq: seq<seq<real>>, ids: seq<seq<int>>, k: nat, d: nat)
    returns (out: array2<Dist>)
    requires d > 0 && Matrix(xb, d) && Matrix(xq, d) && |xq| == |ids| && IdTable(ids, k, |xb|)
    ensures fresh(out) && out.Length0 == |ids| && out.Length1 == k
    ensures forall i, j :: 0 <= i < |ids| && 0 <= j < k ==> out[i, j] == DistOf(xb, xq[i], ids[i][j])
  {
    hide Positions, DistTable, DistOf, D2, IdTable, Matrix, ChunkRows;
    var nq := |ids|;
    out := new Dist[nq, k]((i, j) => Inf);
    ghost var want := DistTable(xb, xq, ids, k, d);
    var rows := ChunkRows(d, k);
    var s := 0;
    while s < nq
      invariant s <= nq && fresh(out) && out.Length0 == nq && out.Length1 == k
      invariant forall i, j :: 0 <= i < nq && 0 <= j < k ==> out[i, j] == if i < s then want[i][j] else Inf
    {
      var e := Min(s + rows, nq);
      var valid, dist := Gather(xb, xq, ids, k, d, s, e);
      Scatter(want, s, e, valid, dist, out);
      s := e;
    }
    TableIs(xb, xq, ids, k, d);
  }

  lemma TableIs(xb: seq<seq<real>>, xq: seq<seq<real>>, ids: seq<seq<int>>, k: nat, d: nat)
    requires Matrix(xb, d) && Matrix(xq, d) && |xq| == |ids| && IdTable(ids, k, |xb|)
    ensures forall i, j :: 0 <= i < |ids| && 0 <= j < k ==>
              DistTable(xb, xq, ids, k, d)[i][j] == DistOf(xb, xq[i], ids[i][j])
  {
    hide DistOf;
  }

  /** The valid ids of a chunk of rows, in row-major order, and their distances. */
  method Gather(xb: seq<seq<real>>, xq: seq<seq<real>>, ids: seq<seq<int>>, k: nat, d: nat, s: nat, e: nat)
    returns (valid: seq<(nat, nat)>, dist: seq<real>)
    requires Matrix(xb, d) && Matrix(xq, d) && |xq| == |ids| && IdTable(ids, k, |xb|) && s <= e <= |ids|
    ensures |dist| == |valid|
    ensures forall p :: 0 <= p < |valid| ==>
              s <= valid[p].0 < e && valid[p].1 < k
              && Fin(dist[p]) == DistTable(xb, xq, ids, k, d)[valid[p].0][valid[p].1]
    ensures forall i, j :: s <= i < e && 0 <= j < k && (i, j) !in valid ==> DistTable(xb, xq, ids, k, d)[i][j] == Inf
  {
    hide Positions, D2;
    valid := Positions(ids, k, s, e);
    PositionsAre(ids, k, s, e);
    dist := seq(|valid|, p requires 0 <= p < |valid| && valid[p] in valid =>
      D2(xb[ids[valid[p].0][valid[p].1]], xq[valid[p].0]));
    forall p | 0 <= p < |valid|
      ensures s <= valid[p].0 < e && valid[p].1 < k
      ensures Fin(dist[p]) == DistTable(xb, xq, ids, k, d)[valid[p].0][valid[p].1]
    {
      assert valid[p] in valid;
    }
    forall i, j | s <= i < e && 0 <= j < k && (i, j) !in valid ensures DistTable(xb, xq, ids, k, d)[i][j] == Inf {
      var p: (nat, nat) := (i, j);
    }
  }

  /** out[s:e][valid] = dist */
  method Scatter(ghost want: seq<seq<Dist>>, ghost s: nat, ghost e: nat, valid: seq<(nat, nat)>, dist: seq<real>,
                 out: array2<Dist>)
    requires |dist| == |valid| && s <= e <= out.Length0 == |want|
    requires forall i :: 0 <= i < |want| ==> |want[i]| == out.Length1
    requires forall p :: 0 <= p < |valid| ==>
               s <= valid[p].0 < e && valid[p].1 < out.Length1 && Fin(dist[p]) == want[valid[p].0][valid[p].1]
    requires forall i, j :: s <= i < e && 0 <= j < out.Length1 ==>
               out[i, j] == Inf && ((i, j) !in valid ==> want[i][j] == Inf)
    modifies out
    ensures forall i, j :: 0 <= i < out.Length0 && 0 <= j < out.Length1 ==>
              out[i, j] == if s <= i < e then want[i][j] else old(out[i, j])
  {
    for p := 0 to |valid|
      invariant forall i, j :: 0 <= i < out.Length0 && 0 <= j < out.Length1 ==>
                  if (i, j) in valid[..p] then out[i, j] == want[i][j] else out[i, j] == old(out[i, j])
    {
      assert valid[..p + 1] == valid[..p] + [valid[p]];
      out[valid[p].0, valid[p].1] := Fin(dist[p]);
    }
    assert valid[..|valid|] == valid;
  }

  function InsertDist(s: seq<Dist>, x: Dist): (r: seq<Dist>)
    ensures |r| == |s| + 1 && multiset(r) == multiset(s) + multiset{x}
  {
    if s == [] || Le(s[|s| - 1], x) then s + [x]
    else
      assert s == s[..|s| - 1] + [s[|s| - 1]];
      InsertDist(s[..|s| - 1], x) + [s[|s| - 1]]
  }

  function SortDist(s: seq<Dist>): (r: seq<Dist>)
    ensures |r| == |s| && multiset(r) == multiset(s)
  {
    if s == [] then []
    else
      assert s == s[..|s| - 1] + [s[|s| - 1]];
      InsertDist(SortDist(s[..|s| - 1]), s[|s| - 1])
  }

  ghost predicate Ascending(s: seq<Dist>) {
    forall i, j :: 0 <= i < j < |s| ==> Le(s[i], s[j])
  }

  lemma {:induction false} SortDistAscending(s: seq<Dist>)
    ensures Ascending(SortDist(s))
  {
    if s != [] {
      SortDistAscending(s[..|s| - 1]);
      InsertDistAscending(SortDist(s[..|s| - 1]), s[|s| - 1]);
    }
  }

  lemma {:induction false} InsertDistAscending(s: seq<Dist>, x: Dist)
    requires Ascending(s)
    ensures Ascending(InsertDist(s, x))
  {
    if s != [] && !Le(s[|s| - 1], x) {
      var init, last := s[..|s| - 1], s[|s| - 1];
      InsertDistAscending(init, x);
      var r := InsertDist(init, x);
      forall i | 0 <= i < |r| ensures Le(r[i], last) {
        assert r[i] in multiset(r);
        assert r[i] in init || r[i] == x;
      }
    }
  }

  lemma SortDistNext(s: seq<Dist>)
    requires s != []
    ensures SortDist(s) == InsertDist(SortDist(s[..|s| - 1]), s[|s| - 1])
  {
    hide InsertDist;
  }

  lemma InsertAtEnd(s: seq<Dist>, x: Dist)
    requires s == [] || Le(s[|s| - 1], x)
    ensures InsertDist(s, x) == s + [x]
  {
  }

  lemma SortNothing()
    ensures SortDist([]) == []
  {
  }

  lemma {:induction false} SortedAlready(s: seq<Dist>)
    requires Ascending(s)
    ensures SortDist(s) == s
  {
    hide SortDist, InsertDist, Le;
    if s == [] {
      SortNothing();
    } else {
      var init := s[..|s| - 1];
      SortedAlready(init);
      SortDistNext(s);
      InsertAtEnd(init, s[|s| - 1]);
      assert s == init + [s[|s| - 1]];
    }
  }

  function Row(out: array2<Dist>, i: nat): (r: seq<Dist>)
    requires i < out.Length0
    reads out
    ensures |r| == out.Length1 && forall j :: 0 <= j < |r| ==> r[j] == out[i, j]
  {
    seq(out.Length1, j requires 0 <= j < out.Length1 reads out => out[i, j])
  }

  /** out.sort(axis=1) */
  method SortRows(out: array2<Dist>)
    modifies out
    ensures forall i :: 0 <= i < out.Length0 ==> Row(out, i) == SortDist(old(Row(out, i)))
  {
    hide SortDist;
    for i := 0 to out.Length0
      invariant forall i' :: 0 <= i' < i ==> Row(out, i') == SortDist(old(Row(out, i')))
      invariant forall i', j :: i <= i' < out.Length0 && 0 <= j < out.Length1 ==> out[i', j] == old(out[i', j])
    {
      assert Row(out, i) == old(Row(out, i));
      var sorted := SortDist(Row(out, i));
      ghost var before := seq(i, i' requires 0 <= i' < i reads out => Row(out, i'));
      for j := 0 to out.Length1
        invariant forall j' :: 0 <= j' < j ==> out[i, j'] == sorted[j']
        invariant forall i', j' :: i < i' < out.Length0 && 0 <= j' < out.Length1 ==> out[i', j'] == old(out[i', j'])
        invariant forall i', j' :: 0 <= i' < i && 0 <= j' < out.Length1 ==> out[i', j'] == before[i'][j']
      {
        out[i, j] := sorted[j];
      }
      assert Row(out, i) == sorted;
      forall i' | 0 <= i' < i ensures Row(out, i') == before[i'] {
      }
    }
  }

  /** gt_distances: the exact distances of every groundtruth id, ascending per query. */
  method GtDistances(xb: seq<seq<real>>, xq: seq<seq<real>>, gt: seq<seq<int>>, k: nat, d: nat)
    returns (out: array2<Dist>)
    requires d > 0 && Matrix(xb, d) && Matrix(xq, d) && |xq| == |gt| && IdTable(gt, k, |xb|)
    ensures out.Length0 == |gt| && out.Length1 == k
    ensures forall i :: 0 <= i < |gt| ==>
              Row(out, i) == SortDist(seq(k, j requires 0 <= j < k => DistOf(xb, xq[i], gt[i][j]))) && Ascending(Row(out, i))
  {
    hide SortDist, DistOf, Ascending;
    out := ExactD2(xb, xq, gt, k, d);
    forall i | 0 <= i < |gt|
      ensures Row(out, i) == seq(k, j requires 0 <= j < k => DistOf(xb, xq[i], gt[i][j]))
      ensures Ascending(SortDist(Row(out, i)))
    {
      SortDistAscending(Row(out, i));
    }
    SortRows(out);
  }
}
