/** Merging per-block search results with a growing row offset: the ResultHeap class of
    bench_for_interrupt.py and the loop of compute_GT in bench_gpu_1bn.py. */
module ResultHeap {
  import opened Common
  import opened Selection
  import opened Streaming
  import opened Heap
  import opened HeapStream
  import opened Knn

  ghost predicate Separate(rows: seq<array<Entry>>) {
    forall p, q :: 0 <= p < q < |rows| ==> rows[p] != rows[q]
  }

  /** The rows of D and I, each slot paired up. */
  ghost function Contents(rows: seq<array<Entry>>): (r: seq<seq<Entry>>)
    reads rows
    ensures |r| == |rows|
    ensures forall q :: 0 <= q < |rows| ==> r[q] == rows[q][..]
  {
    seq(|rows|, q requires 0 <= q < |rows| reads rows => rows[q][..])
  }

  /** The slots form a heap of what a bounded row keeps of the offers. */
  ghost predicate RowHolds(k: nat, row: seq<Entry>, offers: seq<Entry>) {
    && |row| == k && IsHeap(CMax, row)
    && multiset(row) == multiset(OfferAll(CMax, Empty(CMax, k), offers))
  }

  ghost predicate RowsHold(k: nat, table: seq<seq<Entry>>, offered: seq<seq<Entry>>) {
    && |table| == |offered|
    && forall q :: 0 <= q < |table| ==> RowHolds(k, table[q], offered[q])
  }

  class ResultHeap {
    const nq: nat
    const k: nat
    /** One heap of k slots a query: a row of D together with the same row of I. */
    var rows: seq<array<Entry>>
    /** Everything offered so far, query by query. */
    ghost var offered: seq<seq<Entry>>

    ghost predicate Valid()
      reads this, rows
    {
      |rows| == nq && Separate(rows) && RowsHold(k, Contents(rows), offered)
    }

    constructor (nq: nat, k: nat)
      ensures Valid() && fresh(rows)
      ensures this.nq == nq && this.k == k
      ensures |offered| == nq && forall q :: 0 <= q < nq ==> offered[q] == []
    {
      this.nq := nq;
      this.k := k;
      rows := [];
      offered := [];
      new;
      rows := NewRows(nq, k);
      offered := seq(nq, _ => []);
    }

    /** add_batch_result: one block's rows, whose identifiers count from the block's first row i0. */
    method AddBatchResult(batch: seq<seq<Entry>>, i0: int)
      requires Valid() && |batch| == nq && forall q :: 0 <= q < nq ==> |batch[q]| == k
      modifies this`offered, rows
      ensures Valid() && rows == old(rows) && |offered| == |old(offered)| == nq
      ensures forall q :: 0 <= q < nq ==> offered[q] == old(offered)[q] + Shift(batch[q], i0)
    {
      hide RowHolds, Shift;
      ghost var was := offered;
      for q := 0 to nq
        invariant Valid() && rows == old(rows) && |offered| == nq
        invariant forall i :: 0 <= i < q ==> offered[i] == was[i] + Shift(batch[i], i0)
        invariant forall i :: q <= i < nq ==> offered[i] == was[i]
      {
        OfferToRow(rows, q, k, Shift(batch[q], i0), offered[q]);
        offered := offered[q := offered[q] + Shift(batch[q], i0)];
      }
    }

    /** finalize: every row becomes the result row of what was offered for its query. */
    method Finalize()
      requires Valid()
      modifies rows
      ensures rows == old(rows) && |rows| == |offered| == nq
      ensures forall q :: 0 <= q < nq ==>
                Contents(rows)[q] == Reordered(CMax, OfferAll(CMax, Empty(CMax, k), offered[q]))
    {
      hide RowHolds, Reordered, OfferAll;
      for q := 0 to nq
        invariant |offered| == nq && Separate(rows)
        invariant forall i :: 0 <= i < q ==>
                    Contents(rows)[i] == Reordered(CMax, OfferAll(CMax, Empty(CMax, k), offered[i]))
        invariant forall i :: q <= i < nq ==> RowHolds(k, Contents(rows)[i], offered[i])
      {
        ReorderRow(rows, q, k, offered[q]);
      }
    }
  }

  method NewRow(k: nat) returns (row: array<Entry>)
    ensures fresh(row) && RowHolds(k, row[..], [])
  {
    row := new Entry[k](_ => Neutral(CMax));
    HeapifyEmpty(CMax, row, k);
    assert row[..k] == row[..];
    RowStarts(k, row[..]);
  }

  method NewRows(nq: nat, k: nat) returns (rows: seq<array<Entry>>)
    ensures |rows| == nq && fresh(rows) && Separate(rows)
    ensures RowsHold(k, Contents(rows), seq(nq, _ => []))
  {
    hide RowHolds, RowsHold;
    rows := [];
    NoRows(k);
    for q := 0 to nq
      invariant |rows| == q && fresh(rows) && Separate(rows)
      invariant RowsHold(k, Contents(rows), seq(q, _ => []))
    {
      var row := NewRow(k);
      ghost var table, none := Contents(rows), seq(q, _ => []);
      RowsHoldAppend(k, table, none, row[..]);
      rows := rows + [row];
      assert Contents(rows) == table + [row[..]];
      assert seq(q + 1, _ => []) == none + [[]];
    }
  }

  lemma NoRows(k: nat)
    ensures RowsHold(k, Contents([]), seq(0, _ => []))
  {
  }

  /** addn_with_ids for one query. */
  method OfferToRow(rows: seq<array<Entry>>, q: nat, k: nat, es: seq<Entry>, ghost offers: seq<Entry>)
    requires q < |rows| && Separate(rows) && RowHolds(k, rows[q][..], offers) && |es| == k
    modifies rows[q]
    ensures Contents(rows) == old(Contents(rows))[q := rows[q][..]]
    ensures RowHolds(k, rows[q][..], offers + es)
  {
    hide RowHolds, IsHeap, OfferAll, Sort;
    var row := rows[q];
    ghost var before := row[..];
    RowIsHeap(k, before, offers);
    AddN(CMax, row, k, es);
    assert row[..k] == row[..];
    RowGrows(k, before, offers, es, row[..]);
  }

  method ReorderRow(rows: seq<array<Entry>>, q: nat, k: nat, ghost offers: seq<Entry>)
    requires q < |rows| && Separate(rows) && RowHolds(k, rows[q][..], offers)
    modifies rows[q]
    ensures Contents(rows) == old(Contents(rows))[q := rows[q][..]]
    ensures rows[q][..] == Reordered(CMax, OfferAll(CMax, Empty(CMax, k), offers))
  {
    hide RowHolds, IsHeap, OfferAll, Reordered;
    var row := rows[q];
    ghost var before := row[..];
    RowIsHeap(k, before, offers);
    var nel := Reorder(CMax, row, k);
    assert row[..k] == row[..];
    RowReorders(k, before, offers);
  }

  lemma RowsHoldAppend(k: nat, table: seq<seq<Entry>>, offered: seq<seq<Entry>>, row: seq<Entry>)
    requires RowsHold(k, table, offered) && RowHolds(k, row, [])
    ensures RowsHold(k, table + [row], offered + [[]])
  {
    hide RowHolds;
  }

  lemma RowStarts(k: nat, row: seq<Entry>)
    requires row == Empty(CMax, k) && IsHeap(CMax, row)
    ensures RowHolds(k, row, [])
  {
  }

  lemma RowIsHeap(k: nat, row: seq<Entry>, offers: seq<Entry>)
    requires RowHolds(k, row, offers)
    ensures |row| == k && IsHeap(CMax, row) && row[..k] == row
  {
  }

  lemma EmptyRowSorted(k: nat)
    ensures SortedBest(CMax, Empty(CMax, k))
  {
  }

  lemma RowGrows(k: nat, row: seq<Entry>, offers: seq<Entry>, more: seq<Entry>, row': seq<Entry>)
    requires RowHolds(k, row, offers) && |row'| == k && IsHeap(CMax, row')
    requires multiset(row') == multiset(OfferAll(CMax, Sort(CMax, row), more))
    ensures RowHolds(k, row', offers + more)
  {
    hide IsHeap, SortedBest, OfferAll;
    EmptyRowSorted(k);
    OfferAllConserves(CMax, Empty(CMax, k), offers);
    SortSorted(CMax, row);
    SortedUnique(CMax, Sort(CMax, row), OfferAll(CMax, Empty(CMax, k), offers));
    OfferAllAppend(CMax, Empty(CMax, k), offers, more);
  }

  lemma RowReorders(k: nat, row: seq<Entry>, offers: seq<Entry>)
    requires RowHolds(k, row, offers)
    ensures Reordered(CMax, row) == Reordered(CMax, OfferAll(CMax, Empty(CMax, k), offers))
  {
    hide IsHeap, OfferAll, Filled, Sort;
    var s := OfferAll(CMax, Empty(CMax, k), offers);
    FilledMultiset(row, s);
    SortSame(CMax, Filled(row), Filled(s));
    assert |multiset(row)| == |row| && |multiset(s)| == |s|;
  }

  ghost predicate BlocksAnswered(t: Ties, dists: seq<seq<real>>, n: nat, k: nat, search: (nat, nat, nat) -> seq<Entry>) {
    forall q: nat, lo: nat, hi: nat :: q < |dists| && |dists[q]| == n && lo < hi <= n ==>
      IsKnn(t, dists[q][lo..hi], k, search(q, lo, hi))
  }

  /** The merging loop: blocks of bs base rows are searched one by one (`search` is the block index,
      with its own row numbering) and their rows added with the block offset. For every block size,
      blocks smaller than k included, the outcome is an exact answer over the whole base. */
  method ComputeGT(ghost t: Ties, ghost dists: seq<seq<real>>, nq: nat, n: nat, k: nat, bs: nat,
                   search: (nat, nat, nat) -> seq<Entry>)
    returns (heap: ResultHeap)
    requires bs > 0 && |dists| == nq
    requires forall q :: 0 <= q < nq ==> |dists[q]| == n && AllFinite(dists[q])
    requires BlocksAnswered(t, dists, n, k, search)
    ensures |heap.rows| == nq
    ensures forall q :: 0 <= q < nq ==> IsKnn(t, dists[q], k, Contents(heap.rows)[q])
  {
    hide IsKnn, HoldsBest, Reordered, OfferAll, RowHolds, Shift, AllFinite;
    heap := new ResultHeap(nq, k);
    var i0 := 0;
    forall q | 0 <= q < nq ensures RowBest(t, dists[q], 0, k, heap.offered[q]) {
      RowBestStart(t, dists[q], k);
    }
    while i0 < n
      invariant heap.Valid() && fresh(heap) && fresh(heap.rows) && heap.nq == nq && heap.k == k
      invariant |heap.offered| == nq && i0 <= n
      invariant forall q :: 0 <= q < nq ==> RowBest(t, dists[q], i0, k, heap.offered[q])
    {
      var i1 := Min(i0 + bs, n);
      var batch := seq(nq, q requires 0 <= q < nq => search(q, i0, i1));
      ghost var was := heap.offered;
      forall q | 0 <= q < nq
        ensures |batch[q]| == k && RowBest(t, dists[q], i1, k, was[q] + Shift(batch[q], i0))
      {
        assert IsKnn(t, dists[q][i0..i1], k, batch[q]);
        RowBestNext(t, dists[q], i0, i1, k, was[q], batch[q]);
      }
      heap.AddBatchResult(batch, i0);
      i0 := i1;
    }
    ghost var offered := heap.offered;
    heap.Finalize();
    forall q | 0 <= q < nq ensures IsKnn(t, dists[q], k, Contents(heap.rows)[q]) {
      FinalRow(t, dists[q], k, OfferAll(CMax, Empty(CMax, k), offered[q]));
    }
  }

  ghost predicate RowBest(t: Ties, dist: seq<real>, i: nat, k: nat, offers: seq<Entry>) {
    i <= |dist| && HoldsBest(t, dist, i, k, OfferAll(CMax, Empty(CMax, k), offers))
  }

  lemma RowBestStart(t: Ties, dist: seq<real>, k: nat)
    ensures RowBest(t, dist, 0, k, [])
  {
    HoldsBestStart(t, dist, k);
  }

  lemma RowBestNext(t: Ties, dist: seq<real>, lo: nat, hi: nat, k: nat, offers: seq<Entry>, row: seq<Entry>)
    requires lo <= hi <= |dist| && AllFinite(dist) && RowBest(t, dist, lo, k, offers)
    requires IsKnn(t, dist[lo..hi], k, row)
    ensures |row| == k && RowBest(t, dist, hi, k, offers + Shift(row, lo))
  {
    hide HoldsBest, OfferAll, Shift;
    BlockKeepsBest(t, dist, lo, hi, k, OfferAll(CMax, Empty(CMax, k), offers), row);
    OfferAllAppend(CMax, Empty(CMax, k), offers, Shift(row, lo));
  }
}
