/** When the heapify-then-addn loop of bench_heap_replace.cpp agrees with the other two. */
module HeapAgreement {
  import opened Selection
  import opened Streaming
  import opened Heap
  import opened HeapStream
  import opened HeapReplace

  /** What addn_func leaves in heap_val and heap_ids. */
  function FuncTopOf(x: seq<real>, k: nat): (r: seq<Entry>)
    ensures |r| == k
  {
    Reordered(CMin, OfferAll(CMin, Empty(CMin, k), Numbered(x, 0, |x|)))
  }

  method AddnFunc(x: array<real>, k: nat, heap: array<Entry>)
    requires 1 <= k <= heap.Length
    modifies heap
    ensures heap[..k] == FuncTopOf(x[..], k)
  {
    hide *;
    ghost var xs := x[..];
    HeapifyEmpty(CMin, heap, k);
    AddN(CMin, heap, k, Numbered(x[..], 0, x.Length));
    ghost var h := heap[..k];
    var nel := Reorder(CMin, heap, k);
    EmptySorted(k);
    FuncTopOfIs(xs, k, h);
  }

  lemma EmptySorted(k: nat)
    ensures SortedBest(CMin, Empty(CMin, k)) && Sort(CMin, Empty(CMin, k)) == Empty(CMin, k)
  {
    ConstantIsHeap(CMin, Empty(CMin, k), Neutral(CMin));
    SortSorted(CMin, Empty(CMin, k));
    SortedUnique(CMin, Sort(CMin, Empty(CMin, k)), Empty(CMin, k));
  }

  lemma FuncTopOfIs(x: seq<real>, k: nat, h: seq<Entry>)
    requires multiset(h) == multiset(OfferAll(CMin, Empty(CMin, k), Numbered(x, 0, |x|)))
    ensures Reordered(CMin, h) == FuncTopOf(x, k)
  {
    hide Numbered, Sort, Filled, OfferAll;
    var f := OfferAll(CMin, Empty(CMin, k), Numbered(x, 0, |x|));
    FilledMultiset(h, f);
    SortSame(CMin, Filled(h), Filled(f));
    assert |multiset(h)| == |h| && |multiset(f)| == |f|;
  }

  /** The entries with a value above the one that marks an empty slot. */
  function Above(s: seq<Entry>): (r: seq<Entry>)
    ensures |r| <= |s|
  {
    if s == [] then []
    else Above(s[..|s| - 1]) + if s[|s| - 1].val > -FLT_MAX then [s[|s| - 1]] else []
  }

  ghost predicate Finite(s: seq<Entry>) {
    forall i :: 0 <= i < |s| ==> s[i].val >= -FLT_MAX
  }

  lemma AboveSnoc(s: seq<Entry>, e: Entry)
    ensures Above(s + [e]) == if e.val > -FLT_MAX then Above(s) + [e] else Above(s)
  {
    assert (s + [e])[..|s|] == s;
    assert Above(s) + [] == Above(s);
  }

  lemma InsertUnder(c: Kind, t: seq<Entry>, last: Entry, e: Entry)
    requires Cmp2(c, last, e)
    ensures Insert(c, t + [last], e) == Insert(c, t, e) + [last]
  {
    assert (t + [last])[..|t|] == t;
  }

  lemma InsertOver(c: Kind, t: seq<Entry>, e: Entry)
    requires t == [] || !Cmp2(c, t[|t| - 1], e)
    ensures Insert(c, t, e) == t + [e]
  {
  }

  lemma {:induction false} AboveInsert(s: seq<Entry>, e: Entry)
    ensures Above(Insert(CMin, s, e)) == if e.val > -FLT_MAX then Insert(CMin, Above(s), e) else Above(s)
  {
    hide Insert, Above;
    if s == [] {
      InsertOver(CMin, s, e);
      AboveSnoc([], e);
      AboveNone([]);
      InsertOver(CMin, [], e);
    } else {
      var init, last := s[..|s| - 1], s[|s| - 1];
      assert s == init + [last];
      AboveSnoc(init, last);
      if Cmp2(CMin, last, e) {
        AboveInsert(init, e);
        InsertUnder(CMin, init, last, e);
        AboveSnoc(Insert(CMin, init, e), last);
        InsertUnder(CMin, Above(init), last, e);
      } else {
        InsertOver(CMin, s, e);
        AboveSnoc(s, e);
        if e.val > -FLT_MAX {
          InsertOver(CMin, Above(s), e);
        }
      }
    }
  }

  lemma {:induction false} AboveWhole(s: seq<Entry>)
    requires SortedBest(CMin, s) && Finite(s)
    ensures |Above(s)| == |s| <==> s == [] || s[|s| - 1].val > -FLT_MAX
    ensures |Above(s)| == |s| ==> Above(s) == s
  {
    if s != [] {
      var init, last := s[..|s| - 1], s[|s| - 1];
      AboveWhole(init);
      if last.val > -FLT_MAX && init != [] {
        assert !Cmp2(CMin, s[|s| - 2], last);
      }
    }
  }

  /** One offer to a full row: the real part grows by a sorted insertion until no slot is empty. */
  lemma OfferAbove(s: seq<Entry>, e: Entry)
    requires SortedBest(CMin, s) && Finite(s) && s != [] && e.val >= -FLT_MAX
    ensures SortedBest(CMin, Offer(CMin, s, e)) && Finite(Offer(CMin, s, e))
    ensures |Above(s)| < |s| ==>
              Above(Offer(CMin, s, e)) == if e.val > -FLT_MAX then Insert(CMin, Above(s), e) else Above(s)
    ensures |Above(s)| == |s| ==> |Above(Offer(CMin, s, e))| == |s|
  {
    hide SortedBest, Above, Insert, Cmp2;
    OfferSorted(CMin, s, e);
    OfferFinite(s, e);
    var init, last := s[..|s| - 1], s[|s| - 1];
    assert s == init + [last];
    AboveSnoc(init, last);
    AboveWhole(s);
    AboveInsert(init, e);
    if |Above(s)| == |s| {
      OfferStaysFull(s, e);
    }
  }

  lemma OfferFinite(s: seq<Entry>, e: Entry)
    requires Finite(s) && e.val >= -FLT_MAX
    ensures Finite(Offer(CMin, s, e))
  {
    var r := Offer(CMin, s, e);
    forall i | 0 <= i < |r| ensures r[i].val >= -FLT_MAX {
      OfferMembers(CMin, s, e, r[i]);
    }
  }

  lemma OfferStaysFull(s: seq<Entry>, e: Entry)
    requires SortedBest(CMin, s) && Finite(s) && s != [] && e.val >= -FLT_MAX
    requires |Above(s)| == |s|
    ensures |Above(Offer(CMin, s, e))| == |s|
  {
    var r := Offer(CMin, s, e);
    OfferSorted(CMin, s, e);
    OfferFinite(s, e);
    AboveWhole(s);
    AboveWhole(r);
    OfferMembers(CMin, s, e, r[|r| - 1]);
    if r[|r| - 1] in s {
      LastIsWorst(CMin, s, r[|r| - 1]);
    }
  }

  /** The heapified row and the row of the other two loops after the first i scores. */
  ghost function FuncRow(x: seq<real>, k: nat, i: nat): seq<Entry>
    requires i <= |x|
  {
    OfferAll(CMin, Empty(CMin, k), Numbered(x, 0, i))
  }

  ghost function PlainRow(x: seq<real>, k: nat, i: nat): seq<Entry>
    requires k <= |x| && i <= |x|
  {
    if i <= k then Sort(CMin, Numbered(x, 0, i))
    else OfferAll(CMin, Sort(CMin, Numbered(x, 0, k)), Numbered(x, k, i))
  }

  /** Both rows are sorted and have the same real part, and only true empty slots carry the marker. */
  ghost predicate SameReal(f: seq<Entry>, p: seq<Entry>) {
    && SortedBest(CMin, f) && Finite(f) && SortedBest(CMin, p) && Finite(p)
    && Above(f) == Above(p)
    && (forall e :: e in f && e.val == -FLT_MAX ==> e.id == -1)
  }

  lemma OfferToBoth(f: seq<Entry>, p: seq<Entry>, e: Entry)
    requires SameReal(f, p) && |f| == |p| > 0 && e.val >= -FLT_MAX
    ensures SameReal(Offer(CMin, f, e), Offer(CMin, p, e))
  {
    hide Insert, SortedBest, Above;
    OfferAbove(f, e);
    OfferAbove(p, e);
    if |Above(f)| == |f| {
      AboveWhole(f);
      AboveWhole(p);
    }
    MarkersStayEmpty(f, e);
  }

  lemma MarkersStayEmpty(f: seq<Entry>, e: Entry)
    requires forall a :: a in f && a.val == -FLT_MAX ==> a.id == -1
    requires Finite(f)
    ensures forall a :: a in Offer(CMin, f, e) && a.val == -FLT_MAX ==> a.id == -1
  {
    forall a | a in Offer(CMin, f, e) && a.val == -FLT_MAX ensures a.id == -1 {
      OfferMembers(CMin, f, e, a);
    }
  }

  lemma PushToPlain(f: seq<Entry>, p: seq<Entry>, e: Entry)
    requires SameReal(f, p) && |Above(f)| < |f| && e.val >= -FLT_MAX
    ensures SameReal(Offer(CMin, f, e), Insert(CMin, p, e))
  {
    OfferAbove(f, e);
    AboveInsert(p, e);
    InsertSorted(CMin, p, e);
    MarkersStayEmpty(f, e);
    var r := Insert(CMin, p, e);
    forall i | 0 <= i < |r| ensures r[i].val >= -FLT_MAX {
      assert r[i] in multiset(r);
      assert r[i] in p || r[i] == e;
    }
  }

  lemma {:induction false} AboveNone(s: seq<Entry>)
    requires forall i :: 0 <= i < |s| ==> s[i].val == -FLT_MAX
    ensures Above(s) == []
  {
    if s != [] {
      AboveNone(s[..|s| - 1]);
    }
  }

  function CountAbove(x: seq<real>): (n: nat)
    ensures n <= |x|
  {
    if x == [] then 0
    else CountAbove(x[..|x| - 1]) + if x[|x| - 1] > -FLT_MAX then 1 else 0
  }

  /** After i scores the heapified row has as many real entries as there were scores above the
      marker, up to k, and it has the same real part as the row of the other two loops. */
  lemma {:induction false} RowsInStep(x: seq<real>, k: nat, i: nat)
    requires 1 <= k <= |x| && i <= |x|
    requires forall j :: 0 <= j < |x| ==> x[j] >= -FLT_MAX
    ensures SameReal(FuncRow(x, k, i), PlainRow(x, k, i))
    ensures |FuncRow(x, k, i)| == k && |PlainRow(x, k, i)| == if i < k then i else k
    ensures |Above(FuncRow(x, k, i))| == if CountAbove(x[..i]) < k then CountAbove(x[..i]) else k
  {
    hide SameReal, FuncRow, PlainRow, Above, CountAbove;
    if i == 0 {
      RowsStart(x, k);
    } else {
      RowsInStep(x, k, i - 1);
      StepRows(x, k, i - 1);
    }
  }

  lemma RowsStart(x: seq<real>, k: nat)
    requires 1 <= k <= |x|
    ensures SameReal(FuncRow(x, k, 0), PlainRow(x, k, 0))
    ensures |FuncRow(x, k, 0)| == k && |PlainRow(x, k, 0)| == 0
    ensures |Above(FuncRow(x, k, 0))| == CountAbove(x[..0]) == 0
  {
    EmptySorted(k);
    AboveNone(Empty(CMin, k));
  }

  lemma StepRows(x: seq<real>, k: nat, i: nat)
    requires 1 <= k <= |x| && i < |x| && x[i] >= -FLT_MAX
    requires SameReal(FuncRow(x, k, i), PlainRow(x, k, i))
    requires |FuncRow(x, k, i)| == k && |PlainRow(x, k, i)| == if i < k then i else k
    requires |Above(FuncRow(x, k, i))| == if CountAbove(x[..i]) < k then CountAbove(x[..i]) else k
    ensures SameReal(FuncRow(x, k, i + 1), PlainRow(x, k, i + 1))
    ensures |FuncRow(x, k, i + 1)| == k && |PlainRow(x, k, i + 1)| == if i + 1 < k then i + 1 else k
    ensures |Above(FuncRow(x, k, i + 1))| == if CountAbove(x[..i + 1]) < k then CountAbove(x[..i + 1]) else k
  {
    hide Insert, SortedBest, Cmp2, SameReal, FuncRow, PlainRow, Above, Offer;
    var f, p, e := FuncRow(x, k, i), PlainRow(x, k, i), Entry(x[i], i);
    NextRows(x, k, i);
    assert x[..i + 1][..i] == x[..i];
    FuncCounts(f, p, e);
    if i < k {
      PushToPlain(f, p, e);
    } else {
      OfferToBoth(f, p, e);
    }
  }

  lemma FuncCounts(f: seq<Entry>, p: seq<Entry>, e: Entry)
    requires SameReal(f, p) && f != [] && e.val >= -FLT_MAX
    ensures |Above(Offer(CMin, f, e))| == |Above(f)| + if e.val > -FLT_MAX && |Above(f)| < |f| then 1 else 0
  {
    hide SortedBest, Above;
    OfferAbove(f, e);
  }

  lemma NextRows(x: seq<real>, k: nat, i: nat)
    requires 1 <= k <= |x| && i < |x|
    ensures FuncRow(x, k, i + 1) == Offer(CMin, FuncRow(x, k, i), Entry(x[i], i))
    ensures i < k ==> PlainRow(x, k, i + 1) == Insert(CMin, PlainRow(x, k, i), Entry(x[i], i))
    ensures i >= k ==> PlainRow(x, k, i + 1) == Offer(CMin, PlainRow(x, k, i), Entry(x[i], i))
  {
    hide Insert, Offer;
    NumberedNext(x, 0, i);
    OfferAllNext(CMin, Empty(CMin, k), Numbered(x, 0, i), Entry(x[i], i));
    if i < k {
      SortNext(CMin, Numbered(x, 0, i), Entry(x[i], i));
    } else {
      NumberedNext(x, k, i);
      var start := Sort(CMin, Numbered(x, 0, k));
      NothingYet(x, k, start);
      OfferAllNext(CMin, start, Numbered(x, k, i), Entry(x[i], i));
    }
  }

  lemma SortNext(c: Kind, s: seq<Entry>, e: Entry)
    ensures Sort(c, s + [e]) == Insert(c, Sort(c, s), e)
  {
    assert (s + [e])[..|s|] == s;
  }

  /** The agreement that main checks after timing: the heapified loop returns the same values and
      identifiers as the other two exactly when at least k scores lie above the lowest float. */
  lemma FuncAgrees(x: seq<real>, k: nat)
    requires 1 <= k <= |x|
    requires forall j :: 0 <= j < |x| ==> x[j] >= -FLT_MAX
    ensures FuncTopOf(x, k) == TopOf(x, k) <==> CountAbove(x) >= k
  {
    hide Insert, SortedBest, Cmp2, Sort, OfferAll, Numbered;
    var f, p := FuncRow(x, k, |x|), PlainRow(x, k, |x|);
    RowsInStep(x, k, |x|);
    assert x[..|x|] == x;
    NothingYet(x, k, Sort(CMin, Numbered(x, 0, k)));
    assert p == TopOf(x, k);
    AboveWhole(f);
    AboveWhole(p);
    if |Above(f)| == k {
      assert f == p;
      RowIsReal(x, k, f);
    } else {
      HoleShows(x, k, f);
    }
  }

  /** A score equal to the lowest float is never accepted by the heapified loop; here k < n, as the
      benchmark demands before it compares. */
  lemma FuncDisagrees()
    ensures FuncTopOf([-FLT_MAX, -FLT_MAX], 1) != TopOf([-FLT_MAX, -FLT_MAX], 1)
  {
    var x := [-FLT_MAX, -FLT_MAX];
    assert x[..1] == [-FLT_MAX] && x[..1][..0] == [];
    FuncAgrees(x, 1);
  }

  /** A row with an empty slot ends in one, and no row of positions does. */
  lemma HoleShows(x: seq<real>, k: nat, f: seq<Entry>)
    requires 1 <= k <= |x| && |f| == k && f[k - 1].id == -1
    ensures Reordered(CMin, f) != TopOf(x, k)
  {
    hide TopOf, Sort;
    var r := Reordered(CMin, f);
    assert r[k - 1] == Neutral(CMin);
    TopOfProperties(x, k);
    assert TopOf(x, k)[k - 1] in TopOf(x, k);
  }
}
