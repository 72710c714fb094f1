/** merge_knn_results of faiss/utils/Heap.cpp for one query: the k-way merge of per-shard rows that
    ends a sharded search. */
module MergeKnn {
  import opened Common
  import opened Selection
  import opened Streaming
  import opened Heap
  import opened HeapStream
  import opened Knn

  /** The results of one shard: the row up to its first empty slot. */
  function Valid(row: seq<Entry>): (r: seq<Entry>)
    ensures |r| <= |row| && r == row[..|r|]
    ensures forall i :: 0 <= i < |r| ==> row[i].id >= 0
    ensures |r| < |row| ==> row[|r|].id < 0
  {
    if row == [] || row[0].id < 0 then [] else [row[0]] + Valid(row[1..])
  }

  /** `a` may be merged before `b`: the heap of kind `c` would not rather give out `b`. */
  predicate Before(c: Kind, a: Entry, b: Entry) {
    !Cmp(c, b.val, a.val)
  }

  /** Best value first: ascending distances with CMin, descending similarities with CMax. */
  ghost predicate InOrder(c: Kind, row: seq<Entry>) {
    forall i, j :: 0 <= i < j < |row| ==> Before(c, row[i], row[j])
  }

  /** C::Crev */
  function Rev(c: Kind): Kind {
    if c.CMin? then CMax else CMin
  }

  /** The filler of the merge comes after every finite result, in either direction. */
  lemma FillerComesLast(c: Kind, e: Entry)
    requires -FLT_MAX < e.val < FLT_MAX
    ensures Before(c, e, Neutral(Rev(c))) && !Before(c, Neutral(Rev(c)), e)
    ensures Neutral(Rev(c)).id == -1
  {
  }

  /** Results not yet merged: shard s has delivered its first ps[s] entries. */
  ghost function Remaining(lists: seq<seq<Entry>>, ps: seq<nat>): multiset<Entry>
    requires |ps| == |lists| && forall s :: 0 <= s < |lists| ==> ps[s] <= |lists[s]|
  {
    if lists == [] then multiset{}
    else var n := |lists| - 1; Remaining(lists[..n], ps[..n]) + multiset(lists[n][ps[n]..])
  }

  /** What the merging heap holds: for every shard with results left, its next value and its number. */
  ghost function Fronts(lists: seq<seq<Entry>>, ps: seq<nat>): multiset<Entry>
    requires |ps| == |lists| && forall s :: 0 <= s < |lists| ==> ps[s] <= |lists[s]|
  {
    if lists == [] then multiset{}
    else
      var n := |lists| - 1;
      Fronts(lists[..n], ps[..n])
      + if ps[n] < |lists[n]| then multiset{Entry(lists[n][ps[n]].val, n)} else multiset{}
  }

  lemma {:induction false} FrontsMember(lists: seq<seq<Entry>>, ps: seq<nat>, e: Entry)
    requires |ps| == |lists| && forall s :: 0 <= s < |lists| ==> ps[s] <= |lists[s]|
    ensures e in Fronts(lists, ps) <==>
              0 <= e.id < |lists| && ps[e.id] < |lists[e.id]| && e.val == lists[e.id][ps[e.id]].val
  {
    if lists != [] {
      FrontsMember(lists[..|lists| - 1], ps[..|lists| - 1], e);
    }
  }

  lemma {:induction false} RemainingMember(lists: seq<seq<Entry>>, ps: seq<nat>, e: Entry) returns (s: nat, i: nat)
    requires |ps| == |lists| && forall s :: 0 <= s < |lists| ==> ps[s] <= |lists[s]|
    requires e in Remaining(lists, ps)
    ensures s < |lists| && ps[s] <= i < |lists[s]| && lists[s][i] == e
  {
    var n := |lists| - 1;
    if e in lists[n][ps[n]..] {
      s := n;
      i :| ps[n] <= i < |lists[n]| && lists[n][i] == e;
    } else {
      assert e in Remaining(lists[..n], ps[..n]);
      s, i := RemainingMember(lists[..n], ps[..n], e);
    }
  }

  lemma RemainingUnfold(lists: seq<seq<Entry>>, ps: seq<nat>, n: nat)
    requires |ps| == |lists| == n + 1 && forall s :: 0 <= s < |lists| ==> ps[s] <= |lists[s]|
    ensures Remaining(lists, ps) == Remaining(lists[..n], ps[..n]) + multiset(lists[n][ps[n]..])
  {
  }

  ghost function Front(lists: seq<seq<Entry>>, ps: seq<nat>, s: nat): multiset<Entry>
    requires |ps| == |lists| && s < |lists|
  {
    if ps[s] < |lists[s]| then multiset{Entry(lists[s][ps[s]].val, s)} else multiset{}
  }

  lemma FrontsUnfold(lists: seq<seq<Entry>>, ps: seq<nat>, n: nat)
    requires |ps| == |lists| == n + 1 && forall s :: 0 <= s < |lists| ==> ps[s] <= |lists[s]|
    ensures Fronts(lists, ps) == Fronts(lists[..n], ps[..n]) + Front(lists, ps, n)
  {
  }

  /** Delivering one result of shard s takes exactly that result away. */
  lemma {:induction false} AdvanceRemaining(lists: seq<seq<Entry>>, ps: seq<nat>, ps': seq<nat>, s: nat)
    requires |ps| == |lists| && forall s :: 0 <= s < |lists| ==> ps[s] <= |lists[s]|
    requires s < |lists| && ps[s] < |lists[s]| && ps' == ps[s := ps[s] + 1]
    ensures Remaining(lists, ps) == Remaining(lists, ps') + multiset{lists[s][ps[s]]}
  {
    hide Remaining;
    var n := |lists| - 1;
    RemainingUnfold(lists, ps, n);
    RemainingUnfold(lists, ps', n);
    if s == n {
      assert ps'[..n] == ps[..n];
      assert lists[n][ps[n]..] == [lists[n][ps[n]]] + lists[n][ps'[n]..];
    } else {
      AdvanceRemaining(lists[..n], ps[..n], ps'[..n], s);
    }
  }

  lemma FrontsApart(lists: seq<seq<Entry>>, ps: seq<nat>, ps': seq<nat>, s: nat, n: nat)
    requires |ps| == |ps'| == |lists| == n + 1 && s < n && ps[n] == ps'[n]
    ensures Front(lists[..n], ps[..n], s) == Front(lists, ps, s)
    ensures Front(lists[..n], ps'[..n], s) == Front(lists, ps', s)
    ensures Front(lists, ps, n) == Front(lists, ps', n)
  {
  }

  /** ... and replaces the front of shard s by its next one. */
  lemma {:induction false} AdvanceFronts(lists: seq<seq<Entry>>, ps: seq<nat>, ps': seq<nat>, s: nat)
    requires |ps| == |lists| && forall s :: 0 <= s < |lists| ==> ps[s] <= |lists[s]|
    requires s < |lists| && ps[s] < |lists[s]| && ps' == ps[s := ps[s] + 1]
    ensures Front(lists, ps, s) <= Fronts(lists, ps)
    ensures Fronts(lists, ps') == Fronts(lists, ps) - Front(lists, ps, s) + Front(lists, ps', s)
  {
    hide Fronts, Front;
    var n := |lists| - 1;
    FrontsUnfold(lists, ps, n);
    FrontsUnfold(lists, ps', n);
    if s == n {
      assert ps'[..n] == ps[..n];
      SwapLast(Fronts(lists[..n], ps[..n]), Front(lists, ps, n), Front(lists, ps', n));
    } else {
      AdvanceFronts(lists[..n], ps[..n], ps'[..n], s);
      FrontsApart(lists, ps, ps', s, n);
      SwapInSum(Fronts(lists[..n], ps[..n]), Fronts(lists[..n], ps'[..n]), Front(lists, ps, s), Front(lists, ps', s),
                Front(lists, ps, n));
    }
  }

  lemma SwapLast<T>(rest: multiset<T>, a: multiset<T>, b: multiset<T>)
    ensures a <= rest + a && rest + b == (rest + a) - a + b
  {
    assert (rest + a) - a == rest;
  }

  lemma SwapInSum<T>(f: multiset<T>, f': multiset<T>, a: multiset<T>, b: multiset<T>, more: multiset<T>)
    requires a <= f && f' == f - a + b
    ensures a <= f + more && f' + more == (f + more) - a + b
  {
    assert (f + more) - a == (f - a) + more;
  }

  lemma {:induction false} NothingLeft(lists: seq<seq<Entry>>, ps: seq<nat>)
    requires |ps| == |lists| && forall s :: 0 <= s < |lists| ==> ps[s] <= |lists[s]|
    ensures Fronts(lists, ps) == multiset{} <==> Remaining(lists, ps) == multiset{}
  {
    if lists != [] {
      NothingLeft(lists[..|lists| - 1], ps[..|lists| - 1]);
    }
  }

  /** The best front value is a best value among everything remaining. */
  lemma FrontIsLeast(c: Kind, lists: seq<seq<Entry>>, ps: seq<nat>, top: Entry)
    requires |ps| == |lists| && forall s :: 0 <= s < |lists| ==> ps[s] <= |lists[s]| && InOrder(c, lists[s])
    requires forall e :: e in Fronts(lists, ps) ==> Before(c, top, e)
    ensures forall e :: e in Remaining(lists, ps) ==> Before(c, top, e)
  {
    forall e | e in Remaining(lists, ps) ensures Before(c, top, e) {
      var s, i := RemainingMember(lists, ps, e);
      var front := Entry(lists[s][ps[s]].val, s);
      FrontsMember(lists, ps, front);
      assert InOrder(c, lists[s]);
    }
  }

  function Prefixes(rows: seq<seq<Entry>>): (r: seq<seq<Entry>>)
    ensures |r| == |rows| && forall s :: 0 <= s < |rows| ==> r[s] == Valid(rows[s])
  {
    seq(|rows|, s requires 0 <= s < |rows| => Valid(rows[s]))
  }

  function Zeros(n: nat): (r: seq<nat>)
    ensures |r| == n && forall i :: 0 <= i < n ==> r[i] == 0
  {
    seq(n, _ => 0)
  }

  /** All results of all shards. */
  ghost function Pool(rows: seq<seq<Entry>>): multiset<Entry> {
    Remaining(Prefixes(rows), Zeros(|rows|))
  }

  /** `out` is a selection of best values from `pool`, in order. */
  ghost predicate Merged(c: Kind, out: seq<Entry>, pool: multiset<Entry>) {
    && InOrder(c, out) && multiset(out) <= pool
    && forall a, b :: a in multiset(out) && b in pool - multiset(out) ==> Before(c, a, b)
  }

  ghost predicate Merging(c: Kind, lists: seq<seq<Entry>>, ps: seq<nat>, out: seq<Entry>, pool: multiset<Entry>) {
    && |ps| == |lists| && (forall s :: 0 <= s < |lists| ==> ps[s] <= |lists[s]| && InOrder(c, lists[s]))
    && multiset(out) + Remaining(lists, ps) == pool && InOrder(c, out)
    && forall a, b :: a in multiset(out) && b in Remaining(lists, ps) ==> Before(c, a, b)
  }

  lemma MergeStep(c: Kind, lists: seq<seq<Entry>>, ps: seq<nat>, out: seq<Entry>, pool: multiset<Entry>, top: Entry)
    requires Merging(c, lists, ps, out, pool) && top in Fronts(lists, ps)
    requires forall e :: e in Fronts(lists, ps) ==> Before(c, top, e)
    ensures 0 <= top.id < |lists| && ps[top.id] < |lists[top.id]| && top.val == lists[top.id][ps[top.id]].val
    ensures Merging(c, lists, ps[top.id := ps[top.id] + 1], out + [lists[top.id][ps[top.id]]], pool)
  {
    hide Remaining, Fronts;
    FrontsMember(lists, ps, top);
    FrontIsLeast(c, lists, ps, top);
    var s: nat := top.id;
    var e, ps' := lists[s][ps[s]], ps[s := ps[s] + 1];
    AdvanceRemaining(lists, ps, ps', s);
    TakeOne(c, out, e, Remaining(lists, ps), Remaining(lists, ps'));
  }

  lemma TakeOne(c: Kind, out: seq<Entry>, e: Entry, left: multiset<Entry>, left': multiset<Entry>)
    requires left == left' + multiset{e} && InOrder(c, out)
    requires forall b :: b in left ==> Before(c, e, b)
    requires forall a, b :: a in multiset(out) && b in left ==> Before(c, a, b)
    ensures multiset(out + [e]) + left' == multiset(out) + left && InOrder(c, out + [e])
    ensures forall a, b :: a in multiset(out + [e]) && b in left' ==> Before(c, a, b)
  {
    assert e in left;
    forall i | 0 <= i < |out| ensures Before(c, out[i], e) {
      assert out[i] in multiset(out);
    }
    forall a, b | a in multiset(out + [e]) && b in left' ensures Before(c, a, b) {
      assert b in left;
      assert a in multiset(out) || a == e;
    }
  }

  /** What the loop's variables mean: the heap holds the fronts of the shards' remaining results. */
  ghost predicate HeapHoldsFronts(c: Kind, lists: seq<seq<Entry>>, ps: seq<nat>, h: seq<Entry>) {
    && |ps| == |lists| && (forall s :: 0 <= s < |lists| ==> ps[s] <= |lists[s]|)
    && IsHeap(c, h) && multiset(h) == Fronts(lists, ps)
  }

  lemma HeapTopIsLeast(c: Kind, lists: seq<seq<Entry>>, ps: seq<nat>, h: seq<Entry>)
    requires HeapHoldsFronts(c, lists, ps, h) && h != []
    ensures h[0] in Fronts(lists, ps)
    ensures forall e :: e in Fronts(lists, ps) ==> Before(c, h[0], e)
  {
    hide Fronts;
    assert h[0] in multiset(h);
    forall e | e in Fronts(lists, ps) ensures Before(c, h[0], e) {
      assert e in multiset(h);
      var i :| 0 <= i < |h| && h[i] == e;
      TopIsWorst(c, h, i);
    }
  }

  /** The first loop: the first result of every shard that has one. */
  method PushFronts(c: Kind, rows: seq<seq<Entry>>, k: nat, heap: array<Entry>) returns (size: nat)
    requires k > 0 && heap.Length == |rows| && forall s :: 0 <= s < |rows| ==> |rows[s]| == k
    modifies heap
    ensures size <= |rows| && HeapHoldsFronts(c, Prefixes(rows), Zeros(|rows|), heap[..size])
  {
    hide Fronts, IsHeap, Valid;
    size := 0;
    ghost var lists, ps := Prefixes(rows), Zeros(|rows|);
    assert Fronts(lists[..0], ps[..0]) == multiset{} by { NoFronts(); }
    assert IsHeap(c, heap[..0]) by { NoHeap(c, heap[..0]); }
    for s := 0 to |rows|
      invariant size <= s
      invariant IsHeap(c, heap[..size]) && multiset(heap[..size]) == Fronts(lists[..s], ps[..s])
    {
      FrontsUnfold(lists[..s + 1], ps[..s + 1], s);
      assert lists[..s + 1][..s] == lists[..s] && ps[..s + 1][..s] == ps[..s];
      FirstValid(rows[s]);
      if rows[s][0].id >= 0 {
        size := size + 1;
        Push(c, heap, size, Entry(rows[s][0].val, s));
      }
    }
    assert lists[..|rows|] == lists && ps[..|rows|] == ps;
  }

  lemma NoFronts()
    ensures Fronts([], []) == multiset{}
  {
  }

  lemma NoHeap(c: Kind, h: seq<Entry>)
    requires h == []
    ensures IsHeap(c, h)
  {
  }

  lemma FirstValid(row: seq<Entry>)
    requires row != []
    ensures Valid(row) != [] <==> row[0].id >= 0
    ensures Valid(row) != [] ==> Valid(row)[0] == row[0]
  {
  }

  lemma NextValid(row: seq<Entry>, p: nat)
    requires p < |Valid(row)|
    ensures p + 1 < |Valid(row)| <==> p + 1 < |row| && row[p + 1].id >= 0
    ensures row[p] == Valid(row)[p] && (p + 1 < |Valid(row)| ==> row[p + 1] == Valid(row)[p + 1])
  {
  }

  /** The heap operations of one round: the best shard's front gives way to its next result. */
  method NextFront(c: Kind, ghost rows: seq<seq<Entry>>, row: seq<Entry>, p: nat, s: nat, ghost ps: seq<nat>,
                   heap: array<Entry>, size: nat)
    returns (size': nat)
    requires s < |rows| && row == rows[s] && |ps| == |rows| && ps[s] == p < |Valid(row)|
    requires 1 <= size <= heap.Length && heap[0] == Entry(row[p].val, s)
    requires HeapHoldsFronts(c, Prefixes(rows), ps, heap[..size])
    modifies heap
    ensures size' <= size && HeapHoldsFronts(c, Prefixes(rows), ps[s := p + 1], heap[..size'])
  {
    hide *;
    ghost var lists, h := Prefixes(rows), heap[..size];
    FrontsNow(c, lists, ps, h);
    NextValid(row, p);
    Pop(c, heap, size);
    size' := size - 1;
    ghost var popped := heap[..size'];
    if p + 1 < |row| && row[p + 1].id >= 0 {
      size' := size' + 1;
      Push(c, heap, size', Entry(row[p + 1].val, s));
    }
    FrontsAfter(c, lists, ps, s, h, popped, heap[..size']);
  }

  lemma FrontsNow(c: Kind, lists: seq<seq<Entry>>, ps: seq<nat>, h: seq<Entry>)
    requires HeapHoldsFronts(c, lists, ps, h)
    ensures IsHeap(c, h)
  {
  }

  lemma FrontsAfter(c: Kind, lists: seq<seq<Entry>>, ps: seq<nat>, s: nat, h: seq<Entry>, popped: seq<Entry>,
                    h': seq<Entry>)
    requires HeapHoldsFronts(c, lists, ps, h) && s < |ps| == |lists| && ps[s] < |lists[s]| && h != []
    requires h[0] == Entry(lists[s][ps[s]].val, s) && multiset(popped) == multiset(h) - multiset{h[0]}
    requires IsHeap(c, h')
    requires multiset(h') == if ps[s] + 1 < |lists[s]| then multiset(popped) + multiset{Entry(lists[s][ps[s] + 1].val, s)}
                             else multiset(popped)
    ensures HeapHoldsFronts(c, lists, ps[s := ps[s] + 1], h')
  {
    hide Fronts, IsHeap;
    AdvanceFronts(lists, ps, ps[s := ps[s] + 1], s);
  }

  /** One round: the best shard's front is written out and gives way to that shard's next result. */
  method MergeRound(c: Kind, rows: seq<seq<Entry>>, heap: array<Entry>, size: nat, pointer: array<nat>,
                    out: array<Entry>, j: nat, ghost ps: seq<nat>, ghost pool: multiset<Entry>)
    returns (size': nat, ghost ps': seq<nat>)
    requires j < out.Length && 1 <= size <= heap.Length && heap != out
    requires |ps| == |rows| && pointer[..] == ps
    requires Merging(c, Prefixes(rows), ps, out[..j], pool) && HeapHoldsFronts(c, Prefixes(rows), ps, heap[..size])
    modifies heap, pointer, out
    ensures size' <= size && |ps'| == |rows| && pointer[..] == ps'
    ensures Merging(c, Prefixes(rows), ps', out[..j + 1], pool)
    ensures HeapHoldsFronts(c, Prefixes(rows), ps', heap[..size'])
  {
    hide *;
    ghost var lists, sofar := Prefixes(rows), out[..j];
    PrefixesAre(rows);
    var top := heap[0];
    HeapTopIsLeast(c, lists, ps, heap[..size]);
    MergeStep(c, lists, ps, sofar, pool, top);
    var s := top.id;
    var p := pointer[s];
    assert p == ps[s];
    PrefixOf(rows[s], p);
    out[j] := rows[s][p];
    assert out[..j + 1] == sofar + [rows[s][p]];
    size' := NextFront(c, rows, rows[s], p, s, ps, heap, size);
    pointer[s] := p + 1;
    ps' := ps[s := p + 1];
    assert out[..j + 1] == sofar + [rows[s][p]];
  }

  lemma PrefixesAre(rows: seq<seq<Entry>>)
    ensures |Prefixes(rows)| == |rows| && forall s :: 0 <= s < |rows| ==> Prefixes(rows)[s] == Valid(rows[s])
  {
  }

  /** The merge: the k best values of all shards' results, best first, then empty slots.  With CMin these
      are the smallest, with CMax the largest. */
  method MergeKnnResults(c: Kind, rows: seq<seq<Entry>>, k: nat, out: array<Entry>)
    requires out.Length == k && forall s :: 0 <= s < |rows| ==> |rows[s]| == k && InOrder(c, Valid(rows[s]))
    modifies out
    ensures var m := if |Pool(rows)| < k then |Pool(rows)| else k;
            Merged(c, out[..m], Pool(rows)) && out[m..] == Empty(Rev(c), k - m)
  {
    hide Fronts, IsHeap, Valid, Merging, HeapHoldsFronts, Remaining, Merged, Pool, Prefixes, InOrder, Empty;
    ghost var lists, ps, pool := Prefixes(rows), Zeros(|rows|), Pool(rows);
    StartMerging(c, rows);
    if k == 0 {
      Finish(c, lists, ps, [], pool, 0, []);
      assert out[..0] == [];
      NoSlots(c);
      return;
    }
    var heap := new Entry[|rows|](_ => Neutral(c));
    var pointer := new nat[|rows|](_ => 0);
    var size: nat := PushFronts(c, rows, k, heap);
    assert pointer[..] == ps;
    assert out[..0] == [];
    var j := 0;
    while j < k && size > 0
      invariant j <= k && size <= |rows| == |ps|
      invariant pointer[..] == ps && heap.Length == |rows|
      invariant Merging(c, lists, ps, out[..j], pool) && HeapHoldsFronts(c, lists, ps, heap[..size])
    {
      size, ps := MergeRound(c, rows, heap, size, pointer, out, j, ps, pool);
      j := j + 1;
    }
    Finish(c, lists, ps, out[..j], pool, k, heap[..size]);
    FillEmpty(Rev(c), out, j, k);
    assert out[j..k] == out[j..];
  }

  lemma NoSlots(c: Kind)
    ensures Empty(Rev(c), 0) == []
  {
  }

  lemma PrefixOf(row: seq<Entry>, p: nat)
    requires p < |Valid(row)|
    ensures p < |row| && row[p] == Valid(row)[p]
  {
  }

  lemma StartMerging(c: Kind, rows: seq<seq<Entry>>)
    requires forall s :: 0 <= s < |rows| ==> InOrder(c, Valid(rows[s]))
    ensures Merging(c, Prefixes(rows), Zeros(|rows|), [], Pool(rows))
  {
  }

  lemma Finish(c: Kind, lists: seq<seq<Entry>>, ps: seq<nat>, out: seq<Entry>, pool: multiset<Entry>, k: nat,
               h: seq<Entry>)
    requires Merging(c, lists, ps, out, pool) && |out| <= k
    requires |out| == k || (h == [] && HeapHoldsFronts(c, lists, ps, h))
    ensures |out| == (if |pool| < k then |pool| else k) && Merged(c, out, pool)
  {
    hide Remaining, Fronts;
    assert |pool| == |out| + |Remaining(lists, ps)|;
    assert pool - multiset(out) == Remaining(lists, ps);
    if |out| != k {
      NothingLeft(lists, ps);
    }
  }

  // ---------- merging the shards' selections selects from all shards ----------

  ghost function Sum(ms: seq<multiset<Entry>>): multiset<Entry> {
    if ms == [] then multiset{} else Sum(ms[..|ms| - 1]) + ms[|ms| - 1]
  }

  /** The row lists k smallest of the vectors the shard compared, or all of them if there are fewer. */
  ghost predicate SelectsFrom(row: seq<Entry>, seen: multiset<Entry>, k: nat) {
    && |Valid(row)| == Min(k, |seen|) && multiset(Valid(row)) <= seen
    && Best(AnyOrder, multiset(Valid(row)), seen - multiset(Valid(row)))
  }

  /** `out` lists k smallest of `seen`. */
  ghost predicate SmallestOf(out: seq<Entry>, seen: multiset<Entry>, k: nat) {
    && |out| == Min(k, |seen|) && multiset(out) <= seen && InOrder(CMin, out)
    && Best(AnyOrder, multiset(out), seen - multiset(out))
  }

  lemma {:induction false} PoolIsSum(rows: seq<seq<Entry>>, seen: seq<multiset<Entry>>, k: nat)
    requires |rows| == |seen| && forall s :: 0 <= s < |rows| ==> SelectsFrom(rows[s], seen[s], k)
    ensures Pool(rows) <= Sum(seen)
    ensures Pool(rows) == Sum(seen) || |Pool(rows)| >= k
  {
    if rows != [] {
      var n := |rows| - 1;
      PoolIsSum(rows[..n], seen[..n], k);
      PoolUnfold(rows, n);
      hide Pool;
      var v := multiset(Valid(rows[n]));
      if v != seen[n] {
        Shrinks(seen[n], v);
      }
    }
  }

  lemma PoolUnfold(rows: seq<seq<Entry>>, n: nat)
    requires |rows| == n + 1
    ensures Pool(rows) == Pool(rows[..n]) + multiset(Valid(rows[n]))
  {
    assert Prefixes(rows)[..n] == Prefixes(rows[..n]) && Zeros(n + 1)[..n] == Zeros(n);
    assert Valid(rows[n])[0..] == Valid(rows[n]);
  }

  lemma {:induction false} ShardInPool(rows: seq<seq<Entry>>, s: nat)
    requires s < |rows|
    ensures multiset(Valid(rows[s])) <= Pool(rows)
  {
    hide Pool, Valid;
    var n := |rows| - 1;
    PoolUnfold(rows, n);
    if s < n {
      ShardInPool(rows[..n], s);
    }
  }

  /** What is missing from the pool was left out by some shard. */
  lemma {:induction false} MissingHasShard(rows: seq<seq<Entry>>, seen: seq<multiset<Entry>>, k: nat, e: Entry)
    returns (s: nat)
    requires |rows| == |seen| && forall s :: 0 <= s < |rows| ==> SelectsFrom(rows[s], seen[s], k)
    requires Sum(seen)[e] > Pool(rows)[e]
    ensures s < |rows| && e in seen[s] - multiset(Valid(rows[s]))
  {
    var n := |rows| - 1;
    if n < 0 {
      assert false;
    }
    PoolUnfold(rows, n);
    hide Pool;
    if Sum(seen[..n])[e] > Pool(rows[..n])[e] {
      s := MissingHasShard(rows[..n], seen[..n], k, e);
    } else {
      s := n;
    }
  }

  /** An entry the merge kept is no larger than one that a shard left out. */
  lemma KeptBeatsLeftOut(kept: multiset<Entry>, pool: multiset<Entry>, v: multiset<Entry>, seen: multiset<Entry>,
                         k: nat, a: Entry, b: Entry)
    requires kept <= pool && v <= pool && v <= seen && a in kept && b in seen - v
    requires |kept| == Min(k, |pool|) && |v| == Min(k, |seen|)
    requires Best(AnyOrder, kept, pool - kept) && Best(AnyOrder, v, seen - v)
    ensures !Worse(AnyOrder, a, b)
  {
    Shrinks(seen, v);
    SmallerFits(v, pool);
    SelectionComposes(AnyOrder, kept, pool - kept, pool - v, v, seen - v);
    assert b in (pool - kept) + (seen - v);
  }

  lemma MergedIsBest(out: seq<Entry>, pool: multiset<Entry>)
    requires Merged(CMin, out, pool)
    ensures Best(AnyOrder, multiset(out), pool - multiset(out))
  {
  }

  /** Merging the shards' rows gives the k smallest of everything all shards compared. */
  lemma ShardedIsGlobal(rows: seq<seq<Entry>>, seen: seq<multiset<Entry>>, k: nat, out: seq<Entry>)
    requires |rows| == |seen| && forall s :: 0 <= s < |rows| ==> SelectsFrom(rows[s], seen[s], k)
    requires Merged(CMin, out, Pool(rows)) && |out| == Min(k, |Pool(rows)|)
    ensures SmallestOf(out, Sum(seen), k)
  {
    hide Pool, Sum, Valid, Merged, Best, Worse;
    PoolIsSum(rows, seen, k);
    var kept, pool, all := multiset(out), Pool(rows), Sum(seen);
    MergedFits(out, pool);
    MergedIsBest(out, pool);
    SmallerFits(pool, all);
    forall a, b | a in kept && b in all - kept ensures !Worse(AnyOrder, a, b) {
      if b in pool - kept {
        BestApart(kept, pool - kept, a, b);
      } else {
        assert all[b] > pool[b];
        var s := MissingHasShard(rows, seen, k, b);
        ShardInPool(rows, s);
        KeptBeatsLeftOut(kept, pool, multiset(Valid(rows[s])), seen[s], k, a, b);
      }
    }
    ApartIsBest(kept, all - kept);
  }

  lemma MergedFits(out: seq<Entry>, pool: multiset<Entry>)
    requires Merged(CMin, out, pool)
    ensures multiset(out) <= pool && InOrder(CMin, out)
  {
  }

  lemma BestApart(kept: multiset<Entry>, left: multiset<Entry>, a: Entry, b: Entry)
    requires Best(AnyOrder, kept, left) && a in kept && b in left
    ensures !Worse(AnyOrder, a, b)
  {
  }

  lemma ApartIsBest(kept: multiset<Entry>, left: multiset<Entry>)
    requires forall a, b :: a in kept && b in left ==> !Worse(AnyOrder, a, b)
    ensures Best(AnyOrder, kept, left)
  {
  }
}
