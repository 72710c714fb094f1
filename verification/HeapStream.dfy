/** heap_heapify, heap_addn and heap_reorder of faiss/utils/Heap.h over the array heap. */
module HeapStream {
  import opened Selection
  import opened Streaming
  import opened Heap

  lemma ConstantIsHeap(c: Kind, s: seq<Entry>, e: Entry)
    requires forall i :: 0 <= i < |s| ==> s[i] == e
    ensures IsHeap(c, s) && SortedBest(c, s)
  {
  }

  /** The loop that marks the slots lo..hi empty. */
  method FillEmpty(c: Kind, a: array<Entry>, lo: nat, hi: nat)
    requires lo <= hi <= a.Length
    modifies a
    ensures a[lo..hi] == Empty(c, hi - lo)
    ensures a[..lo] == old(a[..lo]) && a[hi..] == old(a[hi..])
  {
    ghost var was := a[..];
    for i := lo to hi
      invariant a[..lo] == was[..lo]
      invariant forall j :: lo <= j < i ==> a[j] == Neutral(c)
      invariant a[i..] == was[i..]
    {
      a[i] := Neutral(c);
    }
  }

  /** heap_heapify without initial elements: every slot is empty. */
  method HeapifyEmpty(c: Kind, a: array<Entry>, k: nat)
    requires k <= a.Length
    modifies a
    ensures a[..k] == Empty(c, k) && IsHeap(c, a[..k])
    ensures a[k..] == old(a[k..])
  {
    FillEmpty(c, a, 0, k);
    assert a[..k] == a[0..k];
    ConstantIsHeap(c, a[..k], Neutral(c));
  }

  /** The top of a heap is the last entry of its sorted form. */
  lemma TopIsLast(c: Kind, h: seq<Entry>, s: seq<Entry>)
    requires IsHeap(c, h) && SortedBest(c, s) && multiset(h) == multiset(s) && h != []
    ensures |s| == |h| && h[0] == s[|s| - 1]
  {
    hide IsHeap, SortedBest;
    assert h[0] in h;
    Transfer(h, s, h[0]);
    assert s[|s| - 1] in s;
    Transfer(s, h, s[|s| - 1]);
    LastIsWorst(c, s, h[0]);
    var j :| 0 <= j < |h| && h[j] == s[|s| - 1];
    TopIsWorst(c, h, j);
  }

  /** A guarded replacement on the heap is one Offer on the sorted list of the same entries. */
  lemma OfferOnHeap(c: Kind, h: seq<Entry>, s: seq<Entry>, e: Entry, h': seq<Entry>)
    requires IsHeap(c, h) && SortedBest(c, s) && multiset(h) == multiset(s) && h != []
    requires multiset(h') == if Cmp(c, h[0].val, e.val) then multiset(h) - multiset{h[0]} + multiset{e}
                             else multiset(h)
    ensures multiset(h') == multiset(Offer(c, s, e))
    ensures SortedBest(c, Offer(c, s, e))
  {
    hide Cmp2, IsHeap, SortedBest;
    TopIsLast(c, h, s);
    DropLast(s);
    OfferSorted(c, s, e);
  }

  lemma OfferNothing(c: Kind, s: seq<Entry>)
    ensures OfferAll(c, s, []) == s
  {
  }

  /** The body of the loop of heap_addn; `kept` is the heap's content, sorted. */
  method AddOne(c: Kind, a: array<Entry>, k: nat, e: Entry, ghost kept: seq<Entry>)
    requires 1 <= k <= a.Length && IsHeap(c, a[..k])
    requires SortedBest(c, kept) && multiset(a[..k]) == multiset(kept)
    modifies a
    ensures IsHeap(c, a[..k])
    ensures SortedBest(c, Offer(c, kept, e)) && multiset(a[..k]) == multiset(Offer(c, kept, e))
    ensures a[k..] == old(a[k..])
  {
    hide *;
    ghost var h := a[..k];
    if Cmp(c, a[0].val, e.val) {
      ReplaceTop(c, a, k, e);
    }
    OfferOnHeap(c, h, kept, e, a[..k]);
  }

  /** heap_addn: offers the entries one by one. */
  method AddN(c: Kind, a: array<Entry>, k: nat, es: seq<Entry>)
    requires k <= a.Length && IsHeap(c, a[..k]) && (k > 0 || es == [])
    modifies a
    ensures IsHeap(c, a[..k])
    ensures multiset(a[..k]) == multiset(OfferAll(c, Sort(c, old(a[..k])), es))
    ensures a[k..] == old(a[k..])
  {
    hide *;
    ghost var start := Sort(c, a[..k]);
    ghost var kept := start;
    SortSorted(c, a[..k]);
    OfferNothing(c, kept);
    for i := 0 to |es|
      invariant IsHeap(c, a[..k]) && SortedBest(c, kept)
      invariant kept == OfferAll(c, start, es[..i])
      invariant multiset(a[..k]) == multiset(kept)
      invariant a[k..] == old(a[k..])
    {
      AddOne(c, a, k, es[i], kept);
      OfferAllNext(c, start, es[..i], es[i]);
      assert es[..i + 1] == es[..i] + [es[i]];
      kept := Offer(c, kept, es[i]);
    }
    assert es[..|es|] == es;
  }

  /** The real entries still in the heap together with the ones already collected. */
  ghost function RealEntries(h: seq<Entry>, tail: seq<Entry>): multiset<Entry> {
    multiset(Filled(h)) + multiset(tail)
  }

  lemma PopConserves(h: seq<Entry>, h': seq<Entry>, tail: seq<Entry>, tail': seq<Entry>)
    requires h != [] && multiset(h') == multiset(h) - multiset{h[0]}
    requires tail' == if h[0].id != -1 then [h[0]] + tail else tail
    ensures RealEntries(h', tail') == RealEntries(h, tail)
  {
    hide Filled;
    assert h[0] in h;
    assert multiset([h[0]] + tail) == multiset{h[0]} + multiset(tail);
    forall e ensures RealEntries(h', tail')[e] == RealEntries(h, tail)[e] {
      FilledCount(h, e);
      FilledCount(h', e);
      assert multiset(h)[h[0]] > 0;
    }
  }

  /** One round of heap_reorder: the popped top joins the collected tail if it is real. */
  lemma PopFilled(c: Kind, h: seq<Entry>, h': seq<Entry>, tail: seq<Entry>, tail': seq<Entry>)
    requires IsHeap(c, h) && h != []
    requires multiset(h') == multiset(h) - multiset{h[0]}
    requires SortedBest(c, tail) && Wins(c, h, tail)
    requires tail' == if h[0].id != -1 then [h[0]] + tail else tail
    ensures SortedBest(c, tail') && Wins(c, h', tail')
    ensures RealEntries(h', tail') == RealEntries(h, tail)
  {
    hide Cmp2, IsHeap, Filled;
    forall r | r in h' ensures r in h && !Cmp2(c, r, h[0]) {
      assert r in multiset(h');
      assert r in multiset(h);
      var j :| 0 <= j < |h| && h[j] == r;
      TopIsWorst(c, h, j);
    }
    PopConserves(h, h', tail, tail');
  }

  lemma SameTail<T>(s: seq<T>, t: seq<T>, i: nat, j: nat)
    requires |s| == |t| && i <= j <= |s| && s[i..] == t[i..]
    ensures s[j..] == t[j..]
  {
    assert s[j..] == s[i..][j - i..] && t[j..] == t[i..][j - i..];
  }

  lemma PutAt<T>(s: seq<T>, i: nat, e: T)
    requires i < |s|
    ensures s[i := e][i..] == [e] + s[i + 1..]
    ensures forall n :: 0 <= n <= i ==> s[i := e][..n] == s[..n]
  {
  }

  /** One iteration of heap_reorder: pops the top of a[..n], stores it at `slot`, and counts the
      slot as taken (so that it joins the tail) if the entry is real. */
  method PopInto(c: Kind, a: array<Entry>, n: nat, slot: nat, ghost h: seq<Entry>, ghost tail: seq<Entry>,
                 ghost beyond: seq<Entry>)
    returns (e: Entry, ghost h': seq<Entry>, ghost tail': seq<Entry>)
    requires 1 <= n <= slot + 1 <= a.Length && h == a[..n] && IsHeap(c, h)
    requires SortedBest(c, tail) && Wins(c, h, tail) && a[slot + 1..] == tail + beyond
    modifies a
    ensures h' == a[..n - 1] && IsHeap(c, h')
    ensures SortedBest(c, tail') && Wins(c, h', tail')
    ensures RealEntries(h', tail') == RealEntries(h, tail)
    ensures |tail'| == |tail| + (if e.id != -1 then 1 else 0)
    ensures a[slot + 1 - (|tail'| - |tail|)..] == tail' + beyond
  {
    hide *;
    e := a[0];
    ghost var before := a[..];
    Pop(c, a, n);
    ghost var popped := a[..];
    assert before[n..] == popped[n..] by {
      assert before[n..] == old(a[n..]) && popped[n..] == a[n..];
    }
    SameTail(before, popped, n, slot + 1);
    h' := popped[..n - 1];
    a[slot] := e;
    assert a[..] == popped[slot := e];
    PutAt(popped, slot, e);
    tail' := if e.id != -1 then [e] + tail else tail;
    PopFilled(c, h, h', tail, tail');
    GrowFront(e, tail, beyond);
  }

  /** The loop of heap_reorder: the real entries end up, best first, at the end of a[..k]. */
  method PopAll(c: Kind, a: array<Entry>, k: nat) returns (nel: nat)
    requires k <= a.Length && IsHeap(c, a[..k])
    modifies a
    ensures nel == |Filled(old(a[..k]))| <= k
    ensures a[k - nel..] == Sort(c, Filled(old(a[..k]))) + old(a[k..])
  {
    hide *;
    var ii := 0;
    ghost var was, beyond := a[..k], a[k..];
    ghost var tail: seq<Entry>, h := [], was;
    EmptyTail(c, h);
    for i := 0 to k
      invariant ii <= i && |tail| == ii
      invariant a[k - ii..] == tail + beyond
      invariant h == a[..k - i] && IsHeap(c, h)
      invariant SortedBest(c, tail) && Wins(c, h, tail)
      invariant RealEntries(h, tail) == RealEntries(was, [])
    {
      var e;
      e, h, tail := PopInto(c, a, k - i, k - ii - 1, h, tail, beyond);
      if e.id != -1 {
        ii := ii + 1;
      }
    }
    nel := ii;
    TailIsSorted(c, was, h, tail);
  }

  /** heap_reorder: the heap becomes a result row; returns the number of real results. */
  method Reorder(c: Kind, a: array<Entry>, k: nat) returns (nel: nat)
    requires k <= a.Length && IsHeap(c, a[..k])
    modifies a
    ensures nel == |Filled(old(a[..k]))|
    ensures a[..k] == Reordered(c, old(a[..k]))
    ensures a[k..] == old(a[k..])
  {
    hide Filled, IsHeap, Sort;
    ghost var was, beyond := a[..k], a[k..];
    nel := PopAll(c, a, k);
    SplitFront(a[k - nel..], Sort(c, Filled(was)), beyond);
    MoveDown(a, k - nel, nel);
    FillEmpty(c, a, nel, k);
    assert a[..k] == a[..nel] + a[nel..k];
  }

  lemma TailIsSorted(c: Kind, was: seq<Entry>, h: seq<Entry>, tail: seq<Entry>)
    requires h == [] && SortedBest(c, tail) && RealEntries(h, tail) == RealEntries(was, [])
    ensures tail == Sort(c, Filled(was)) && |tail| == |Filled(was)|
  {
    hide SortedBest, Cmp2;
    assert Filled(h) == [];
    assert multiset(tail) == RealEntries(h, tail);
    assert multiset(Filled(was)) == RealEntries(was, []);
    SortSorted(c, Filled(was));
    SortedUnique(c, tail, Sort(c, Filled(was)));
  }

  lemma EmptyTail(c: Kind, h: seq<Entry>)
    ensures SortedBest(c, []) && Wins(c, h, [])
  {
  }

  lemma GrowFront<T>(e: T, t: seq<T>, u: seq<T>)
    ensures [e] + (t + u) == ([e] + t) + u
    ensures ([e] + (t + u))[1..] == t + u
  {
  }

  lemma SplitFront<T>(s: seq<T>, t: seq<T>, u: seq<T>)
    requires s == t + u
    ensures s[..|t|] == t && s[|t|..] == u
  {
  }

  /** memmove of a[from..from+n] to the front. */
  method MoveDown(a: array<Entry>, from: nat, n: nat)
    requires from + n <= a.Length
    modifies a
    ensures a[..n] == old(a[from..from + n])
    ensures a[from + n..] == old(a[from + n..])
  {
    ghost var was := a[..];
    for i := 0 to n
      invariant a[..i] == was[from..from + i]
      invariant a[i..] == was[i..]
    {
      assert a[from + i] == a[i..][from] == was[i..][from];
      a[i] := a[from + i];
    }
  }
}
