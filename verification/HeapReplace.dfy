/** The three streaming top-k loops that bench_heap_replace.cpp times and compares. */
module HeapReplace {
  import opened Selection
  import opened Streaming
  import opened Heap
  import opened HeapStream

  /** The k best of x, sorted: what the benchmark's loops leave in heap_val and heap_ids. */
  function TopOf(x: seq<real>, k: nat): (r: seq<Entry>)
    requires k <= |x|
    ensures |r| == k
  {
    OfferAll(CMin, Sort(CMin, Numbered(x, 0, k)), Numbered(x, k, |x|))
  }

  /** The first loop, common to addn_default and addn_replace. */
  method PushFirst(x: array<real>, k: nat, heap: array<Entry>)
    requires k <= x.Length && k <= heap.Length
    modifies heap
    ensures IsHeap(CMin, heap[..k])
    ensures multiset(heap[..k]) == multiset(Sort(CMin, Numbered(x[..], 0, k)))
  {
    for i := 0 to k
      invariant IsHeap(CMin, heap[..i])
      invariant multiset(heap[..i]) == multiset(Numbered(x[..], 0, i))
    {
      Push(CMin, heap, i + 1, Entry(x[i], i));
      NumberedNext(x[..], 0, i);
    }
  }

  lemma NumberedNext(x: seq<real>, lo: nat, i: nat)
    requires lo <= i < |x|
    ensures Numbered(x, lo, i + 1) == Numbered(x, lo, i) + [Entry(x[i], i)]
  {
  }

  lemma TopOfIs(x: seq<real>, k: nat)
    requires k <= |x|
    ensures TopOf(x, k) == OfferAll(CMin, Sort(CMin, Numbered(x, 0, k)), Numbered(x, k, |x|))
  {
  }

  lemma NothingYet(x: seq<real>, k: nat, s: seq<Entry>)
    requires k <= |x|
    ensures OfferAll(CMin, s, Numbered(x, k, k)) == s
  {
  }

  /** The body of the loop of addn_default. */
  method PopThenPush(heap: array<Entry>, k: nat, e: Entry, ghost kept: seq<Entry>)
    requires 1 <= k <= heap.Length && IsHeap(CMin, heap[..k]) && SortedBest(CMin, kept)
    requires multiset(heap[..k]) == multiset(kept)
    modifies heap
    ensures IsHeap(CMin, heap[..k]) && SortedBest(CMin, Offer(CMin, kept, e))
    ensures multiset(heap[..k]) == multiset(Offer(CMin, kept, e))
  {
    hide Cmp2, IsHeap, SortedBest, Offer;
    ghost var h := heap[..k];
    if e.val > heap[0].val {
      Pop(CMin, heap, k);
      Push(CMin, heap, k, e);
    }
    OfferOnHeap(CMin, h, kept, e, heap[..k]);
  }

  method AddnDefault(x: array<real>, k: nat, heap: array<Entry>)
    requires 1 <= k <= x.Length && k <= heap.Length
    modifies heap
    ensures heap[..k] == TopOf(x[..], k)
  {
    hide Cmp2, IsHeap, SortedBest, Offer, OfferAll, Numbered, Sort, TopOf;
    PushFirst(x, k, heap);
    ghost var xs := x[..];
    ghost var start := Sort(CMin, Numbered(xs, 0, k));
    ghost var kept := start;
    SortSorted(CMin, Numbered(xs, 0, k));
    NothingYet(xs, k, start);
    for i := k to x.Length
      invariant IsHeap(CMin, heap[..k]) && SortedBest(CMin, kept)
      invariant kept == OfferAll(CMin, start, Numbered(xs, k, i))
      invariant multiset(heap[..k]) == multiset(kept)
    {
      PopThenPush(heap, k, Entry(x[i], i), kept);
      NumberedNext(xs, k, i);
      OfferAllNext(CMin, start, Numbered(xs, k, i), Entry(x[i], i));
      kept := Offer(CMin, kept, Entry(x[i], i));
    }
    TopOfIs(xs, k);
    FinishRow(xs, k, heap);
  }

  method AddnReplace(x: array<real>, k: nat, heap: array<Entry>)
    requires 1 <= k <= x.Length && k <= heap.Length
    modifies heap
    ensures heap[..k] == TopOf(x[..], k)
  {
    hide Cmp2, IsHeap, SortedBest, Offer, OfferAll, Numbered, Sort, TopOf;
    PushFirst(x, k, heap);
    ghost var xs := x[..];
    ghost var start := Sort(CMin, Numbered(xs, 0, k));
    ghost var kept := start;
    SortSorted(CMin, Numbered(xs, 0, k));
    NothingYet(xs, k, start);
    for i := k to x.Length
      invariant IsHeap(CMin, heap[..k]) && SortedBest(CMin, kept)
      invariant kept == OfferAll(CMin, start, Numbered(xs, k, i))
      invariant multiset(heap[..k]) == multiset(kept)
    {
      ghost var h := heap[..k];
      if x[i] > heap[0].val {
        ReplaceTop(CMin, heap, k, Entry(x[i], i));
      }
      OfferOnHeap(CMin, h, kept, Entry(x[i], i), heap[..k]);
      NumberedNext(xs, k, i);
      OfferAllNext(CMin, start, Numbered(xs, k, i), Entry(x[i], i));
      kept := Offer(CMin, kept, Entry(x[i], i));
    }
    TopOfIs(xs, k);
    FinishRow(xs, k, heap);
  }

  /** Every identifier kept is a position, so reordering drops nothing. */
  lemma RowIsReal(x: seq<real>, k: nat, h: seq<Entry>)
    requires k <= |x| && multiset(h) == multiset(TopOf(x, k))
    ensures Reordered(CMin, h) == TopOf(x, k)
  {
    hide TopOf, SortedBest, Cmp2;
    TopOfProperties(x, k);
    forall i | 0 <= i < |h| ensures h[i].id != -1 {
      assert h[i] in h;
      Transfer(h, TopOf(x, k), h[i]);
    }
    FilledAll(h);
    SortSorted(CMin, h);
    SortedUnique(CMin, Sort(CMin, h), TopOf(x, k));
  }

  /** The final minheap_reorder. */
  method FinishRow(ghost x: seq<real>, k: nat, heap: array<Entry>)
    requires k <= |x| && k <= heap.Length && IsHeap(CMin, heap[..k])
    requires multiset(heap[..k]) == multiset(TopOf(x, k))
    modifies heap
    ensures heap[..k] == TopOf(x, k)
  {
    hide *;
    ghost var h := heap[..k];
    var nel := Reorder(CMin, heap, k);
    RowIsReal(x, k, h);
  }

  lemma NumberedSplit(x: seq<real>, k: nat)
    requires k <= |x|
    ensures Numbered(x, 0, |x|) == Numbered(x, 0, k) + Numbered(x, k, |x|)
  {
  }

  lemma TopOfMember(x: seq<real>, k: nat, e: Entry)
    requires k <= |x| && e in TopOf(x, k)
    ensures 0 <= e.id < |x| && e.val == x[e.id]
  {
    hide OfferAll;
    var first, later := Numbered(x, 0, k), Numbered(x, k, |x|);
    OfferAllMembers(CMin, Sort(CMin, first), later, e);
    if e in Sort(CMin, first) {
      Transfer(Sort(CMin, first), first, e);
    }
  }

  /** The kept row is sorted, holds distinct positions with their own values,
      and its values are exactly the k largest of x. */
  lemma TopOfProperties(x: seq<real>, k: nat)
    requires k <= |x|
    ensures SortedBest(CMin, TopOf(x, k))
    ensures forall e :: e in TopOf(x, k) ==> 0 <= e.id < |x| && e.val == x[e.id]
    ensures multiset(TopOf(x, k)) <= multiset(Numbered(x, 0, |x|))
    ensures Bare(TopOf(x, k)) == Sort(CMin, Bare(Numbered(x, 0, |x|)))[..k]
  {
    hide Cmp2, SortedBest, Bare;
    var first, later := Numbered(x, 0, k), Numbered(x, k, |x|);
    var start := Sort(CMin, first);
    SortSorted(CMin, first);
    NumberedSplit(x, k);
    OfferAllConserves(CMin, start, later);
    OfferAllBestValues(CMin, start, later);
    SortAfterSort(CMin, first, later);
    assert multiset(first + later) == multiset(first) + multiset(later);
    forall e | e in TopOf(x, k) ensures 0 <= e.id < |x| && e.val == x[e.id] {
      TopOfMember(x, k, e);
    }
  }

  /** For pairwise distinct scores the positions kept are those of the k largest as well. */
  lemma TopOfDistinct(x: seq<real>, k: nat)
    requires k <= |x|
    requires forall i, j :: 0 <= i < j < |x| ==> x[i] != x[j]
    ensures TopOf(x, k) == Sort(CMin, Numbered(x, 0, |x|))[..k]
  {
    hide Cmp2, SortedBest;
    var first, later := Numbered(x, 0, k), Numbered(x, k, |x|);
    var start := Sort(CMin, first);
    SortSorted(CMin, first);
    NumberedSplit(x, k);
    forall a, b | a in start && b in later ensures a.val != b.val {
      Transfer(start, first, a);
    }
    OfferAllExact(CMin, start, later);
    SortAfterSort(CMin, first, later);
  }
}
