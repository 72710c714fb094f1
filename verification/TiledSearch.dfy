/** Batched search with an explicit coarse quantizer, sequential and overlapped
    (bench_hybrid_cpu_gpu.py). The overlapped form is a transition system: the main thread and the
    single pool thread may take their steps in any order. */
module TiledSearch {
  import opened Common

  /** One search: the queries, the tile size, and the two row-wise library calls. `scan` is the
      search of one shard with given coarse results; a plain index is the case shards == 1. */
  datatype Job<!X, !Q, !R> = Job(xq: seq<X>, bs: nat, shards: nat, quantize: X -> Q, scan: (nat, X, Q) -> R)

  /** A place in the result arrays: the row written by one shard. */
  datatype Cell = Cell(shard: nat, row: nat)

  function Answer<X, Q, R>(job: Job<X, Q, R>, c: Cell): R
    requires c.row < |job.xq|
  {
    job.scan(c.shard, job.xq[c.row], job.quantize(job.xq[c.row]))
  }

  /** The nested function coarse_quant. */
  function CoarseQuant<X, Q, R>(job: Job<X, Q, R>, i0: nat): Option<seq<Q>> {
    if i0 >= |job.xq| then None
    else Some(seq(Min(i0 + job.bs, |job.xq|) - i0,
                  j requires 0 <= j < Min(i0 + job.bs, |job.xq|) - i0 => job.quantize(job.xq[i0 + j])))
  }

  function Cells(shards: nat, lo: nat, hi: nat): set<Cell> {
    set s: nat, r: nat | s < shards && lo <= r < hi :: Cell(s, r)
  }

  datatype Phase = Head | Scanning | Waiting | Finished

  datatype State<!Q, !R> = State(
    phase: Phase,                         // where the main thread is
    i0: nat,                              // loop variable
    qq: Option<seq<Q>>,                   // coarse results in hand
    left: set<Cell>,                      // cells of this tile still to be written
    queue: seq<nat>,                      // arguments submitted to the pool, oldest first
    running: Option<nat>,                 // what the pool thread is computing
    results: map<nat, Option<seq<Q>>>,    // completed tasks, by argument
    out: map<Cell, R>,                    // D and I
    writes: multiset<Cell>)               // how often each cell was written

  datatype Step = Submit | Pick | Complete | Write(c: Cell) | EndScan | Get | Leave

  function Init<X, Q, R>(job: Job<X, Q, R>): State<Q, R> {
    State(Head, 0, CoarseQuant(job, 0), {}, [], None, map[], map[], multiset{})
  }

  predicate Enabled<X, Q, R>(job: Job<X, Q, R>, s: State<Q, R>, a: Step) {
    match a
    case Submit => s.phase.Head? && s.i0 < |job.xq|
    case Pick => s.running.None? && s.queue != []
    case Complete => s.running.Some?
    case Write(c) => s.phase.Scanning? && c in s.left
    case EndScan => s.phase.Scanning? && s.left == {}
    case Get => s.phase.Waiting? && s.i0 + job.bs in s.results
    case Leave => s.phase.Head? && s.i0 >= |job.xq|
  }

  /** Reading past the coarse results in hand (or unpacking None) would raise in the original. */
  predicate Safe<X, Q, R>(job: Job<X, Q, R>, s: State<Q, R>, a: Step) {
    a.Write? ==> s.qq.Some? && s.i0 <= a.c.row < s.i0 + |s.qq.value| && a.c.row < |job.xq|
  }

  function Do<X, Q, R>(job: Job<X, Q, R>, s: State<Q, R>, a: Step): State<Q, R>
    requires Enabled(job, s, a) && Safe(job, s, a)
  {
    match a
    case Submit =>
      s.(phase := Scanning, queue := s.queue + [s.i0 + job.bs],
         left := Cells(job.shards, s.i0, Min(s.i0 + job.bs, |job.xq|)))
    case Pick => s.(running := Some(s.queue[0]), queue := s.queue[1..])
    case Complete =>
      s.(running := None, results := s.results[s.running.value := CoarseQuant(job, s.running.value)])
    case Write(c) =>
      s.(left := s.left - {c}, writes := s.writes + multiset{c},
         out := s.out[c := job.scan(c.shard, job.xq[c.row], s.qq.value[c.row - s.i0])])
    case EndScan => s.(phase := Waiting)
    case Get => s.(phase := Head, qq := s.results[s.i0 + job.bs], i0 := s.i0 + job.bs)
    case Leave => s.(phase := Finished)
  }

  /** Tasks submitted whose result the main thread has not yet been able to fetch. */
  function Outstanding<Q, R>(s: State<Q, R>): nat {
    |s.queue| + if s.running.Some? then 1 else 0
  }

  /** The cells the main thread has finished: whole tiles, and this tile's cells not left over. */
  ghost function Covered<X, Q, R>(job: Job<X, Q, R>, s: State<Q, R>): set<Cell> {
    var busy := s.phase.Scanning? || s.phase.Waiting?;
    Cells(job.shards, 0, Min(if busy then s.i0 + job.bs else s.i0, |job.xq|)) - s.left
  }

  /** Exactly the covered cells are written, once each, with the right answer. */
  ghost predicate OutputInv<X, Q, R>(job: Job<X, Q, R>, out: map<Cell, R>, writes: multiset<Cell>, done: set<Cell>) {
    && writes == multiset(done) && out.Keys == done
    && (forall c :: c in done ==> c.row < |job.xq| && out[c] == Answer(job, c))
  }

  /** The coarse results in hand are those of the current tile, and while a tile is scanned the one
      task in flight (queued, running, or completed and not fetched) is that of the next tile. */
  ghost predicate PoolInv<X, Q, R>(job: Job<X, Q, R>, s: State<Q, R>) {
    var next := s.i0 + job.bs;
    var busy := s.phase.Scanning? || s.phase.Waiting?;
    && s.qq == CoarseQuant(job, s.i0)
    && (forall a :: a in s.results ==> s.results[a] == CoarseQuant(job, a) && a <= (if busy then next else s.i0))
    && (busy ==> s.i0 < |job.xq|)
    && (busy && s.running.None? ==> s.queue == if next in s.results then [] else [next])
    && (busy && s.running.Some? ==> s.running.value == next && s.queue == [] && next !in s.results)
    && (!busy ==> s.queue == [] && s.running.None?)
    && (s.phase.Scanning? ==> s.left <= Cells(job.shards, s.i0, Min(next, |job.xq|)))
    && (!s.phase.Scanning? ==> s.left == {})
    && (s.phase.Finished? ==> s.i0 >= |job.xq|)
  }

  ghost predicate Inv<X, Q, R>(job: Job<X, Q, R>, s: State<Q, R>) {
    PoolInv(job, s) && OutputInv(job, s.out, s.writes, Covered(job, s))
  }

  lemma InitInv<X, Q, R>(job: Job<X, Q, R>)
    ensures Inv(job, Init(job))
  {
    assert Cells(job.shards, 0, 0) == {};
  }

  /** Coarse results in hand always belong to the tile being scanned. */
  lemma InvSafe<X, Q, R>(job: Job<X, Q, R>, s: State<Q, R>, a: Step)
    requires PoolInv(job, s) && Enabled(job, s, a)
    ensures Safe(job, s, a)
    ensures a.Write? ==> s.qq.value[a.c.row - s.i0] == job.quantize(job.xq[a.c.row])
  {
    if a.Write? {
      assert a.c in Cells(job.shards, s.i0, Min(s.i0 + job.bs, |job.xq|));
    }
  }

  lemma PoolStep<X, Q, R>(job: Job<X, Q, R>, s: State<Q, R>, a: Step)
    requires job.bs > 0 && PoolInv(job, s) && Enabled(job, s, a) && Safe(job, s, a)
    ensures PoolInv(job, Do(job, s, a))
  {
    hide CoarseQuant, Cells;
    match a {
      case Submit => case Pick => case Complete => case Write(c) =>
      case EndScan => case Get => case Leave =>
    }
  }

  lemma CoveredStep<X, Q, R>(job: Job<X, Q, R>, s: State<Q, R>, a: Step)
    requires PoolInv(job, s) && Enabled(job, s, a) && Safe(job, s, a)
    ensures !a.Write? ==> Covered(job, Do(job, s, a)) == Covered(job, s)
    ensures a.Write? ==> a.c !in Covered(job, s) && Covered(job, Do(job, s, a)) == Covered(job, s) + {a.c}
  {
    hide CoarseQuant;
    if a.Submit? {
      var lo, hi := Min(s.i0, |job.xq|), Min(s.i0 + job.bs, |job.xq|);
      assert Cells(job.shards, 0, hi) - Cells(job.shards, s.i0, hi) == Cells(job.shards, 0, lo) - {};
    } else if a.Write? {
      assert a.c in Cells(job.shards, 0, Min(s.i0 + job.bs, |job.xq|));
    }
  }

  lemma OutputGrows<X, Q, R>(job: Job<X, Q, R>, out: map<Cell, R>, writes: multiset<Cell>, done: set<Cell>,
                             c: Cell, r: R)
    requires OutputInv(job, out, writes, done) && c !in done
    requires c.row < |job.xq| && r == Answer(job, c)
    ensures OutputInv(job, out[c := r], writes + multiset{c}, done + {c})
  {
    assert multiset(done + {c}) == multiset(done) + multiset{c};
  }

  lemma StepInv<X, Q, R>(job: Job<X, Q, R>, s: State<Q, R>, a: Step)
    requires job.bs > 0 && Inv(job, s) && Enabled(job, s, a)
    ensures Safe(job, s, a) && Inv(job, Do(job, s, a))
  {
    hide PoolInv, OutputInv, Covered;
    InvSafe(job, s, a);
    PoolStep(job, s, a);
    CoveredStep(job, s, a);
    if a.Write? {
      OutputGrows(job, s.out, s.writes, Covered(job, s), a.c, Answer(job, a.c));
    }
  }

  // ---------- all schedules ----------

  /** Every step of the schedule is possible, and none raises, when its turn comes. */
  ghost predicate Legal<X, Q, R>(job: Job<X, Q, R>, sched: seq<Step>)
    decreases |sched|, 0
  {
    sched == [] ||
    (var before, a := sched[..|sched| - 1], sched[|sched| - 1];
     Legal(job, before) && Enabled(job, Exec(job, before), a) && Safe(job, Exec(job, before), a))
  }

  ghost function Exec<X, Q, R>(job: Job<X, Q, R>, sched: seq<Step>): State<Q, R>
    requires Legal(job, sched)
    decreases |sched|, 1
  {
    if sched == [] then Init(job) else Do(job, Exec(job, sched[..|sched| - 1]), sched[|sched| - 1])
  }

  function Tiles(n: nat, bs: nat, i0: nat): nat
    requires bs > 0
    decreases n - i0
  {
    if i0 >= n then 0 else 1 + Tiles(n, bs, i0 + bs)
  }

  /** Steps still to come: one a cell, five a tile (submit, pick, complete, end of scan, get), one to leave. */
  ghost function Work<X, Q, R>(job: Job<X, Q, R>, s: State<Q, R>): int
    requires job.bs > 0
  {
    var next := s.i0 + job.bs;
    var busy := s.phase.Scanning? || s.phase.Waiting?;
    |Cells(job.shards, 0, |job.xq|)| - |s.writes|
    + 5 * Tiles(|job.xq|, job.bs, s.i0)
    - (if !busy then 0
       else 1 + (if next in s.results then 2 else if s.running.Some? then 1 else 0) + (if s.phase.Waiting? then 1 else 0))
    + (if s.phase.Finished? then 0 else 1)
  }

  lemma WorkStep<X, Q, R>(job: Job<X, Q, R>, s: State<Q, R>, a: Step)
    requires job.bs > 0 && PoolInv(job, s) && Enabled(job, s, a) && Safe(job, s, a)
    ensures Work(job, Do(job, s, a)) == Work(job, s) - 1
  {
    hide CoarseQuant, Cells;
    match a {
      case Submit => case Pick => case Complete => case Write(c) =>
      case EndScan => case Get => case Leave =>
    }
  }

  lemma WorkLeft<X, Q, R>(job: Job<X, Q, R>, s: State<Q, R>)
    requires job.bs > 0 && Inv(job, s)
    ensures Work(job, s) >= 0
    ensures s.phase.Finished? <==> Work(job, s) == 0
    ensures s.phase.Finished? ==> Covered(job, s) == Cells(job.shards, 0, |job.xq|)
  {
    var all := Cells(job.shards, 0, |job.xq|);
    var rest := all - Covered(job, s);
    assert all == Covered(job, s) + rest;
    assert |s.writes| == |Covered(job, s)| == |all| - |rest|;
    if s.phase.Finished? {
      assert rest == {};
    }
  }

  /** A state that has not finished always offers a step: no deadlock. */
  function NextStep<X, Q, R>(job: Job<X, Q, R>, s: State<Q, R>): (a: Step)
  {
    match s.phase
    case Head => if s.i0 < |job.xq| then Submit else Leave
    case Scanning => if s.left == {} then EndScan else Pick
    case Waiting => if s.i0 + job.bs in s.results then Get else if s.running.Some? then Complete else Pick
    case Finished => Leave
  }

  lemma NoDeadlock<X, Q, R>(job: Job<X, Q, R>, s: State<Q, R>)
    requires PoolInv(job, s)
    ensures s.phase.Finished? <==> forall a :: !Enabled(job, s, a)
  {
    if s.phase.Scanning? && s.left != {} {
      var c :| c in s.left;
      assert Enabled(job, s, Write(c));
    } else {
      assert !s.phase.Finished? ==> Enabled(job, s, NextStep(job, s));
    }
  }

  lemma InvBounds<X, Q, R>(job: Job<X, Q, R>, s: State<Q, R>)
    requires Inv(job, s)
    ensures Outstanding(s) <= 1 && s.qq == CoarseQuant(job, s.i0) && forall c :: s.writes[c] <= 1
  {
  }

  /** Whatever the interleaving: nothing raises, the pool never holds more than one task, the coarse
      results in hand are those of the current tile, and no result row is written twice. */
  lemma {:induction false} EverySchedule<X, Q, R>(job: Job<X, Q, R>, sched: seq<Step>)
    requires job.bs > 0 && Legal(job, sched)
    ensures var s := Exec(job, sched);
            && Inv(job, s)
            && |sched| + Work(job, s) == Work(job, Init(job))
            && (forall a :: Enabled(job, s, a) ==> Safe(job, s, a))
            && Outstanding(s) <= 1
            && s.qq == CoarseQuant(job, s.i0)
            && forall c :: s.writes[c] <= 1
  {
    hide PoolInv, OutputInv, Covered, Work, CoarseQuant;
    if sched == [] {
      InitInv(job);
    } else {
      var before := sched[..|sched| - 1];
      EverySchedule(job, before);
      StepInv(job, Exec(job, before), sched[|sched| - 1]);
      WorkStep(job, Exec(job, before), sched[|sched| - 1]);
    }
    var s := Exec(job, sched);
    forall a | Enabled(job, s, a) ensures Safe(job, s, a) {
      InvSafe(job, s, a);
    }
    InvBounds(job, s);
  }

  /** Every schedule ends after the same number of steps, exactly when the main thread has left its
      loop, and then the result arrays hold every row of every shard, written exactly once. */
  lemma TiledSearchCorrect<X, Q, R>(job: Job<X, Q, R>, sched: seq<Step>)
    requires job.bs > 0 && Legal(job, sched)
    ensures var s, all := Exec(job, sched), Cells(job.shards, 0, |job.xq|);
            var total := |all| + 5 * Tiles(|job.xq|, job.bs, 0) + 1;
            && |sched| <= total
            && (|sched| == total <==> forall a :: !Enabled(job, s, a))
            && (|sched| == total <==> s.phase.Finished?)
            && (s.phase.Finished? ==>
                  s.out == (map c | c in all :: Answer(job, c)) && s.writes == multiset(all))
  {
    hide PoolInv, Covered, CoarseQuant;
    EverySchedule(job, sched);
    var s := Exec(job, sched);
    WorkLeft(job, s);
    NoDeadlock(job, s);
    RowsInRange(job);
  }

  lemma RowsInRange<X, Q, R>(job: Job<X, Q, R>)
    ensures forall c :: c in Cells(job.shards, 0, |job.xq|) ==> c.row < |job.xq|
  {
  }

  // ---------- the sequential form ----------

  /** search_preassigned: batch by batch, or all at once for batch_size 0. Whatever the batch size,
      the outcome is the row that the overlapped form writes for shard 0. */
  method SearchPreassigned<X, Q, R(0)>(job: Job<X, Q, R>, batchSize: nat) returns (out: array<R>)
    ensures out.Length == |job.xq|
    ensures forall r :: 0 <= r < |job.xq| ==> out[r] == Answer(job, Cell(0, r))
  {
    var n := |job.xq|;
    var bs := if batchSize == 0 then n + 1 else batchSize;
    out := new R[n];
    var i0 := 0;
    while i0 < n
      invariant forall r :: 0 <= r < n && r < i0 ==> out[r] == Answer(job, Cell(0, r))
    {
      var i1 := Min(i0 + bs, n);
      var iq := seq(i1 - i0, j requires 0 <= j < i1 - i0 => job.quantize(job.xq[i0 + j]));
      for r := i0 to i1
        invariant forall r' :: 0 <= r' < r ==> out[r'] == Answer(job, Cell(0, r'))
      {
        out[r] := job.scan(0, job.xq[r], iq[r - i0]);
      }
      i0 := i0 + bs;
    }
  }
}
