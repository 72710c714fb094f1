/** ShardedGPUIndex.search of bench_hybrid_cpu_gpu.py: the tiled search over all shards, then the merge of
    the shards' rows. */
module ShardedSearch {
  import opened Common
  import opened Selection
  import opened Streaming
  import TiledSearch
  import MergeKnn

  /** A search whose result rows are k slots. */
  type Job<!X, !Q> = TiledSearch.Job<X, Q, seq<Entry>>

  /** What a shard compares for one query: the vectors of the inverted lists its coarse results name. */
  type Compared<!X, !Q> = (nat, X, Q) -> multiset<Entry>

  /** Every shard answers with the k smallest of what it compares, in ascending order. */
  ghost predicate ShardsSelect<X(!new), Q(!new)>(job: Job<X, Q>, k: nat, compared: Compared<X, Q>) {
    forall s: nat, x: X, q: Q :: s < job.shards ==>
      var row := job.scan(s, x, q);
      |row| == k && MergeKnn.InOrder(CMin, MergeKnn.Valid(row)) && MergeKnn.SelectsFrom(row, compared(s, x, q), k)
  }

  /** What all shards together compare for query `r`. */
  ghost function AllCompared<X, Q>(job: Job<X, Q>, compared: Compared<X, Q>, r: nat): (c: seq<multiset<Entry>>)
    requires r < |job.xq|
    ensures |c| == job.shards
  {
    seq(job.shards, s requires 0 <= s < job.shards => compared(s, job.xq[r], job.quantize(job.xq[r])))
  }

  /** The rows of `Dall[:, r]`, `Iall[:, r]`. */
  function ShardRows<X, Q>(job: Job<X, Q>, out: map<TiledSearch.Cell, seq<Entry>>, r: nat): (rows: seq<seq<Entry>>)
    requires r < |job.xq| && forall c :: c in TiledSearch.Cells(job.shards, 0, |job.xq|) ==> c in out
    ensures |rows| == job.shards
  {
    seq(job.shards, s requires 0 <= s < job.shards =>
      assert TiledSearch.Cell(s, r) in TiledSearch.Cells(job.shards, 0, |job.xq|); out[TiledSearch.Cell(s, r)])
  }

  lemma ShardRowsSelect<X(!new), Q(!new)>(job: Job<X, Q>, sched: seq<TiledSearch.Step>, k: nat,
                                          compared: Compared<X, Q>, r: nat)
    requires job.bs > 0 && TiledSearch.Legal(job, sched) && TiledSearch.Exec(job, sched).phase.Finished?
    requires ShardsSelect(job, k, compared) && r < |job.xq|
    ensures var out := TiledSearch.Exec(job, sched).out;
            && (forall c :: c in TiledSearch.Cells(job.shards, 0, |job.xq|) ==> c in out)
            && forall s :: 0 <= s < job.shards ==>
                 var row := ShardRows(job, out, r)[s];
                 && |row| == k && MergeKnn.InOrder(CMin, MergeKnn.Valid(row))
                 && MergeKnn.SelectsFrom(row, AllCompared(job, compared, r)[s], k)
  {
    hide TiledSearch.Exec, TiledSearch.Legal, MergeKnn.Valid, MergeKnn.InOrder, MergeKnn.SelectsFrom;
    TiledSearch.TiledSearchCorrect(job, sched);
    var out := TiledSearch.Exec(job, sched).out;
    forall s | 0 <= s < job.shards
      ensures TiledSearch.Cell(s, r) in out
      ensures out[TiledSearch.Cell(s, r)] == job.scan(s, job.xq[r], job.quantize(job.xq[r]))
    {
      var c := TiledSearch.Cell(s, r);
      assert c in TiledSearch.Cells(job.shards, 0, |job.xq|);
    }
  }

  /** In every schedule of the two threads each query's merged row lists, in ascending order, the k
      smallest of everything all shards compared for it, and then empty slots. */
  method MergedRow<X(!new), Q(!new)>(job: Job<X, Q>, s: TiledSearch.State<Q, seq<Entry>>, k: nat, r: nat,
                                     ghost sched: seq<TiledSearch.Step>, ghost compared: Compared<X, Q>)
    returns (row: array<Entry>)
    requires job.bs > 0 && TiledSearch.Legal(job, sched) && s == TiledSearch.Exec(job, sched) && s.phase.Finished?
    requires ShardsSelect(job, k, compared) && r < |job.xq|
    ensures var all := MergeKnn.Sum(AllCompared(job, compared, r));
            var m := Min(k, |all|);
            row.Length == k && MergeKnn.SmallestOf(row[..m], all, k) && row[m..] == Empty(CMax, k - m)
  {
    hide TiledSearch.Exec, TiledSearch.Legal, MergeKnn.Valid, MergeKnn.InOrder, MergeKnn.SelectsFrom,
      MergeKnn.Merged, MergeKnn.Pool, MergeKnn.Sum, ShardRows, AllCompared, ShardsSelect;
    ShardRowsSelect(job, sched, k, compared, r);
    var rows := ShardRows(job, s.out, r);
    row := new Entry[k](_ => Entry(0.0, 0));
    MergeKnn.MergeKnnResults(CMin, rows, k, row);
    ghost var pool := MergeKnn.Pool(rows);
    MergeKnn.ShardedIsGlobal(rows, AllCompared(job, compared, r), k, row[..Min(k, |pool|)]);
  }
}
