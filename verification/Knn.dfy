/** Exact k-nearest-neighbour rows, and why merging per-block rows gives the row of the whole base. */
module Knn {
  import opened Common
  import opened Selection
  import opened Streaming

  ghost predicate AllFinite(dist: seq<real>) {
    forall i :: 0 <= i < |dist| ==> dist[i] < FLT_MAX
  }

  /** How a search orders rows at the same distance: in any order, or by ascending row number. */
  datatype Ties = AnyOrder | ById

  /** `a` must not be answered ahead of `b`. */
  predicate Worse(t: Ties, a: Entry, b: Entry) {
    if t.ById? then Cmp2(CMax, a, b) else a.val > b.val
  }

  /** No entry of `out` should have been chosen over an entry of `kept`. */
  ghost predicate Best(t: Ties, kept: multiset<Entry>, out: multiset<Entry>) {
    forall a, b :: a in kept && b in out ==> !Worse(t, a, b)
  }

  /** `near` lists nearest rows among lo..hi, k of them if there are that many: ascending distance,
      ties as `t` says. */
  ghost predicate Nearest(t: Ties, dist: seq<real>, lo: nat, hi: nat, k: nat, near: seq<Entry>)
    requires lo <= hi <= |dist|
  {
    && |near| == Min(k, hi - lo)
    && (forall i, j :: 0 <= i < j < |near| ==> !Worse(t, near[i], near[j]))
    && multiset(near) <= multiset(Numbered(dist, lo, hi))
    && Best(t, multiset(near), multiset(Numbered(dist, lo, hi)) - multiset(near))
  }

  /** An exact k-NN answer over a whole base: the nearest rows, then empty slots if the base is
      smaller than k. */
  ghost predicate IsKnn(t: Ties, dist: seq<real>, k: nat, row: seq<Entry>) {
    var m := Min(k, |dist|);
    |row| == k && Nearest(t, dist, 0, |dist|, k, row[..m]) && row[m..] == Empty(CMax, k - m)
  }

  lemma HitsMember(dist: seq<real>, lo: nat, hi: nat, e: Entry)
    requires lo <= hi <= |dist|
    ensures e in multiset(Numbered(dist, lo, hi)) <==> lo <= e.id < hi && e.val == dist[e.id]
  {
    var h := Numbered(dist, lo, hi);
    if lo <= e.id < hi && e.val == dist[e.id] {
      assert h[e.id - lo] == e;
    }
  }

  lemma HitsSplit(dist: seq<real>, lo: nat, mid: nat, hi: nat)
    requires lo <= mid <= hi <= |dist|
    ensures Numbered(dist, lo, hi) == Numbered(dist, lo, mid) + Numbered(dist, mid, hi)
    ensures multiset(Numbered(dist, lo, hi)) == multiset(Numbered(dist, lo, mid)) + multiset(Numbered(dist, mid, hi))
  {
    assert Numbered(dist, lo, hi) == Numbered(dist, lo, mid) + Numbered(dist, mid, hi);
  }

  /** Selecting from a preselection: what a full preselection left out cannot beat what is kept now. */
  lemma SelectionComposes(t: Ties, kept: multiset<Entry>, out: multiset<Entry>,
                          before: multiset<Entry>, pre: multiset<Entry>, left: multiset<Entry>)
    requires kept + out == before + pre && Best(t, kept, out) && Best(t, pre, left)
    requires left != multiset{} ==> |pre| >= |kept|
    ensures Best(t, kept, out + left)
  {
    forall a, b | a in kept && b in left ensures !Worse(t, a, b) {
      if Worse(t, a, b) {
        forall e | e in pre ensures e !in out && !Worse(t, e, b) && e != a {
          assert !Worse(t, e, b);
        }
        forall e ensures pre[e] <= (kept - multiset{a})[e] {
          assert (kept + out)[e] == (before + pre)[e];
        }
        SmallerFits(pre, kept - multiset{a});
      }
    }
  }

  lemma SmallerFits<T>(a: multiset<T>, b: multiset<T>)
    requires forall e :: a[e] <= b[e]
    ensures |a| <= |b|
  {
    assert b == a + (b - a) by {
      forall e ensures b[e] == (a + (b - a))[e] {
      }
    }
  }

  /** The state of a bounded heap after base rows 0..i: `kept` are best of the rows and the k
      initial empty slots. */
  ghost predicate HoldsBest(t: Ties, dist: seq<real>, i: nat, k: nat, kept: seq<Entry>)
    requires i <= |dist|
  {
    var all := multiset(Empty(CMax, k)) + multiset(Numbered(dist, 0, i));
    && |kept| == k && SortedBest(CMax, kept)
    && multiset(kept) <= all
    && Best(t, multiset(kept), all - multiset(kept))
  }

  lemma HoldsBestStart(t: Ties, dist: seq<real>, k: nat)
    ensures HoldsBest(t, dist, 0, k, Empty(CMax, k))
  {
    assert Numbered(dist, 0, 0) == [];
  }

  /** Values never exceed the marker of an empty slot, and only an empty slot has no identifier. */
  lemma KeptMember(t: Ties, dist: seq<real>, i: nat, k: nat, kept: seq<Entry>, e: Entry)
    requires i <= |dist| && AllFinite(dist) && HoldsBest(t, dist, i, k, kept) && e in kept
    ensures e.val <= FLT_MAX
    ensures e.id == -1 ==> e == Neutral(CMax)
    ensures e.id != -1 ==> 0 <= e.id < i && e.val == dist[e.id]
  {
    assert e in multiset(kept);
    HitsMember(dist, 0, i, e);
    if e !in multiset(Numbered(dist, 0, i)) {
      assert e in Empty(CMax, k);
    }
  }

  /** Entries at or above the marker are never accepted: padding of a short block row is inert. */
  lemma {:induction false} PaddingIsInert(c: Kind, s: seq<Entry>, pad: seq<Entry>)
    requires forall i :: 0 <= i < |s| ==> s[i].val <= FLT_MAX
    requires forall i :: 0 <= i < |pad| ==> pad[i].val == FLT_MAX
    ensures OfferAll(CMax, s, pad) == s
  {
    if pad != [] {
      PaddingIsInert(c, s, pad[..|pad| - 1]);
    }
  }

  /** The row of a block with its identifiers moved by the block's first row number. */
  function Shift(row: seq<Entry>, i0: int): (r: seq<Entry>)
    ensures |r| == |row|
  {
    seq(|row|, i requires 0 <= i < |row| => Entry(row[i].val, row[i].id + i0))
  }

  lemma {:induction false} ShiftCount(s: seq<Entry>, i0: int, e: Entry)
    ensures multiset(Shift(s, i0))[e] == multiset(s)[Entry(e.val, e.id - i0)]
  {
    if s != [] {
      var n := |s| - 1;
      ShiftCount(s[..n], i0, e);
      assert s == s[..n] + [s[n]];
      assert Shift(s, i0) == Shift(s[..n], i0) + [Entry(s[n].val, s[n].id + i0)];
    }
  }

  lemma ShiftHits(dist: seq<real>, lo: nat, hi: nat)
    requires lo <= hi <= |dist|
    ensures Shift(Numbered(dist[lo..hi], 0, hi - lo), lo) == Numbered(dist, lo, hi)
  {
  }

  lemma ShiftOrder(t: Ties, s: seq<Entry>, i0: int)
    requires forall i, j :: 0 <= i < j < |s| ==> !Worse(t, s[i], s[j])
    ensures forall i, j :: 0 <= i < j < |s| ==> !Worse(t, Shift(s, i0)[i], Shift(s, i0)[j])
  {
    forall i, j | 0 <= i < j < |s| ensures !Worse(t, Shift(s, i0)[i], Shift(s, i0)[j]) {
      assert !Worse(t, s[i], s[j]);
    }
  }

  lemma ShiftNearest(t: Ties, dist: seq<real>, lo: nat, hi: nat, k: nat, near: seq<Entry>)
    requires lo <= hi <= |dist| && Nearest(t, dist[lo..hi], 0, hi - lo, k, near)
    ensures Nearest(t, dist, lo, hi, k, Shift(near, lo))
  {
    hide Numbered, Shift;
    var local, hits, moved := Numbered(dist[lo..hi], 0, hi - lo), Numbered(dist, lo, hi), Shift(near, lo);
    ShiftHits(dist, lo, hi);
    ShiftOrder(t, near, lo);
    forall e: Entry ensures multiset(moved)[e] <= multiset(hits)[e] {
      ShiftCount(near, lo, e);
      ShiftCount(local, lo, e);
    }
    forall a: Entry, b: Entry | a in multiset(moved) && b in multiset(hits) - multiset(moved)
      ensures !Worse(t, a, b)
    {
      ShiftCount(near, lo, a);
      ShiftCount(near, lo, b);
      ShiftCount(local, lo, b);
      assert Entry(a.val, a.id - lo) in multiset(near);
      assert Entry(b.val, b.id - lo) in multiset(local) - multiset(near);
    }
  }

  /** Renumbering a block's answer turns it into an answer for those rows of the base; what follows
      are slots with the marker value and the bogus identifier i0 - 1. */
  lemma BlockRow(t: Ties, dist: seq<real>, lo: nat, hi: nat, k: nat, row: seq<Entry>)
    requires lo <= hi <= |dist| && IsKnn(t, dist[lo..hi], k, row)
    ensures var m := Min(k, hi - lo);
            && |Shift(row, lo)| == k && Nearest(t, dist, lo, hi, k, Shift(row, lo)[..m])
            && forall i :: m <= i < k ==> Shift(row, lo)[i] == Entry(FLT_MAX, lo - 1)
  {
    hide Nearest;
    var m := Min(k, hi - lo);
    assert Shift(row, lo)[..m] == Shift(row[..m], lo);
    ShiftNearest(t, dist, lo, hi, k, row[..m]);
    forall i | m <= i < k ensures Shift(row, lo)[i] == Entry(FLT_MAX, lo - 1) {
      assert row[i] == row[m..][i - m];
    }
  }

  lemma OfferedMember(t: Ties, dist: seq<real>, lo: nat, hi: nat, k: nat, kept: seq<Entry>, near: seq<Entry>, e: Entry)
    requires lo <= hi <= |dist| && AllFinite(dist)
    requires HoldsBest(t, dist, lo, k, kept) && Nearest(t, dist, lo, hi, k, near)
    requires e in OfferAll(CMax, kept, near)
    ensures e.val <= FLT_MAX
  {
    hide Numbered, HoldsBest;
    OfferAllMembers(CMax, kept, near, e);
    if e in kept {
      KeptMember(t, dist, lo, k, kept, e);
    } else {
      assert e in multiset(near);
      assert e in multiset(Numbered(dist, lo, hi));
      HitsMember(dist, lo, hi, e);
    }
  }

  /** One block: offering its renumbered row keeps the heap best over the rows seen so far. */
  lemma BlockKeepsBest(t: Ties, dist: seq<real>, lo: nat, hi: nat, k: nat, kept: seq<Entry>, row: seq<Entry>)
    requires lo <= hi <= |dist| && AllFinite(dist)
    requires HoldsBest(t, dist, lo, k, kept) && IsKnn(t, dist[lo..hi], k, row)
    ensures HoldsBest(t, dist, hi, k, OfferAll(CMax, kept, Shift(row, lo)))
  {
    hide Numbered, HoldsBest, Nearest, Shift, OfferAll, IsKnn;
    var m, moved := Min(k, hi - lo), Shift(row, lo);
    BlockRow(t, dist, lo, hi, k, row);
    var near, pad := moved[..m], moved[m..];
    var kept' := OfferAll(CMax, kept, near);
    forall i | 0 <= i < |kept'| ensures kept'[i].val <= FLT_MAX {
      OfferedMember(t, dist, lo, hi, k, kept, near, kept'[i]);
    }
    PaddingIsInert(CMax, kept', pad);
    OfferAllAppend(CMax, kept, near, pad);
    assert moved == near + pad;
    RestIsBeaten(t, dist, lo, hi, k, kept, near);
  }

  /** A bounded heap chooses well under either tie rule; row numbers only grow from block to block. */
  lemma OfferChoosesBest(t: Ties, dist: seq<real>, lo: nat, hi: nat, k: nat, kept: seq<Entry>, near: seq<Entry>)
    requires lo <= hi <= |dist| && AllFinite(dist)
    requires HoldsBest(t, dist, lo, k, kept) && Nearest(t, dist, lo, hi, k, near)
    ensures Best(t, multiset(OfferAll(CMax, kept, near)), multiset(RefusedAll(CMax, kept, near)))
  {
    if t.ById? {
      BlockTiesLose(dist, lo, hi, k, kept, near);
      OfferAllWins(CMax, kept, near);
    } else {
      OfferAllKeepsBestValues(CMax, kept, near);
    }
  }

  lemma BlockTiesLose(dist: seq<real>, lo: nat, hi: nat, k: nat, kept: seq<Entry>, near: seq<Entry>)
    requires lo <= hi <= |dist| && AllFinite(dist)
    requires HoldsBest(ById, dist, lo, k, kept) && Nearest(ById, dist, lo, hi, k, near)
    ensures LateTiesLose(CMax, kept, near)
  {
    hide Numbered, HoldsBest;
    forall b | b in near ensures lo <= b.id < hi && b.val == dist[b.id] {
      assert b in multiset(near);
      assert b in multiset(Numbered(dist, lo, hi));
      HitsMember(dist, lo, hi, b);
    }
    forall a, b | a in kept && b in near && a.val == b.val ensures Cmp2(CMax, b, a) {
      KeptMember(ById, dist, lo, k, kept, a);
    }
    forall i, j | 0 <= i < j < |near| && near[i].val == near[j].val ensures Cmp2(CMax, near[j], near[i]) {
      NearDistinct(ById, dist, lo, hi, k, near, i, j);
    }
  }

  lemma NearDistinct(t: Ties, dist: seq<real>, lo: nat, hi: nat, k: nat, near: seq<Entry>, i: nat, j: nat)
    requires lo <= hi <= |dist| && Nearest(t, dist, lo, hi, k, near) && i < j < |near|
    ensures near[i] != near[j]
  {
    hide Numbered, Best;
    if near[i] == near[j] {
      var e := near[i];
      assert near == near[..i] + [e] + near[i + 1..j] + [e] + near[j + 1..];
      assert multiset(near)[e] >= 2;
      assert multiset(near)[e] <= multiset(Numbered(dist, lo, hi))[e];
      HitsOnce(dist, lo, hi, e);
    }
  }

  lemma {:induction false} HitsOnce(dist: seq<real>, lo: nat, hi: nat, e: Entry)
    requires lo <= hi <= |dist|
    ensures multiset(Numbered(dist, lo, hi))[e] <= 1
  {
    if lo < hi {
      HitsOnce(dist, lo, hi - 1, e);
      assert Numbered(dist, lo, hi) == Numbered(dist, lo, hi - 1) + [Entry(dist[hi - 1], hi - 1)];
      HitsMember(dist, lo, hi - 1, e);
    }
  }

  lemma RestIsBeaten(t: Ties, dist: seq<real>, lo: nat, hi: nat, k: nat, kept: seq<Entry>, near: seq<Entry>)
    requires lo <= hi <= |dist| && AllFinite(dist)
    requires HoldsBest(t, dist, lo, k, kept) && Nearest(t, dist, lo, hi, k, near)
    ensures HoldsBest(t, dist, hi, k, OfferAll(CMax, kept, near))
  {
    hide SortedBest, Numbered, OfferAll, RefusedAll, Worse;
    var kept', refused := OfferAll(CMax, kept, near), RefusedAll(CMax, kept, near);
    OfferAllConserves(CMax, kept, near);
    OfferChoosesBest(t, dist, lo, hi, k, kept, near);
    var before := multiset(Empty(CMax, k)) + multiset(Numbered(dist, 0, lo));
    var oldRest := before - multiset(kept);
    var left := multiset(Numbered(dist, lo, hi)) - multiset(near);
    HitsSplit(dist, 0, lo, hi);
    var a, b, c := multiset(kept'), multiset(refused), multiset(kept);
    if left != multiset{} {
      assert |multiset(near)| == |near| && |a| == k;
      Shrinks(multiset(Numbered(dist, lo, hi)), multiset(near));
    }
    SelectionComposes(t, a, b, c, multiset(near), left);
    // the old rest lost against the old row, and the new row is no worse
    OldRestStaysOut(t, a, b, c, multiset(near), oldRest);
    var all := multiset(Empty(CMax, k)) + multiset(Numbered(dist, 0, hi));
    assert all - a == (b + left) + oldRest && a <= all by {
      Regroup(a, b, c, multiset(near), oldRest, left, before, multiset(Numbered(dist, lo, hi)), all);
    }
  }

  lemma Shrinks<T>(a: multiset<T>, b: multiset<T>)
    requires b <= a && a - b != multiset{}
    ensures |b| < |a|
  {
    assert a == b + (a - b);
  }

  lemma Regroup<T>(a: multiset<T>, b: multiset<T>, c: multiset<T>, r: multiset<T>, o: multiset<T>,
                   left: multiset<T>, before: multiset<T>, hits: multiset<T>, all: multiset<T>)
    requires a + b == c + r && c <= before && o == before - c && r <= hits && left == hits - r
    requires all == before + hits
    ensures a <= all && all - a == (b + left) + o
  {
    forall e ensures a[e] <= all[e] && (all - a)[e] == ((b + left) + o)[e] {
      assert (a + b)[e] == (c + r)[e];
    }
  }

  /** Entries that had lost against a row still lose after the row accepted better ones. */
  lemma OldRestStaysOut(t: Ties, kept': multiset<Entry>, refused: multiset<Entry>, kept: multiset<Entry>,
                        pre: multiset<Entry>, rest: multiset<Entry>)
    requires kept' + refused == kept + pre && |kept'| == |kept|
    requires Best(t, kept', refused) && Best(t, kept, rest)
    ensures Best(t, kept', rest)
  {
    SelectionComposes(t, kept', refused, pre, kept, rest);
    forall a, b | a in kept' && b in rest ensures !Worse(t, a, b) {
      assert b in refused + rest;
    }
  }

  /** Once every row was offered, the reordered heap is an exact answer over the whole base. */
  lemma FinalRow(t: Ties, dist: seq<real>, k: nat, kept: seq<Entry>)
    requires AllFinite(dist) && HoldsBest(t, dist, |dist|, k, kept)
    ensures IsKnn(t, dist, k, Reordered(CMax, kept))
  {
    hide Numbered, Worse, HoldsBest, Nearest, Sort, Filled;
    var f := Filled(kept);
    var near, row := Sort(CMax, f), Reordered(CMax, kept);
    FilledLength(t, dist, k, kept);
    FinalIsNearest(t, dist, k, kept);
    assert row[..|f|] == near && row[|f|..] == Empty(CMax, k - |f|);
  }

  lemma FinalIsNearest(t: Ties, dist: seq<real>, k: nat, kept: seq<Entry>)
    requires AllFinite(dist) && HoldsBest(t, dist, |dist|, k, kept)
    ensures |kept| == k && Nearest(t, dist, 0, |dist|, k, Sort(CMax, Filled(kept)))
  {
    hide Numbered, Worse, Sort, SortedBest, Best, Filled;
    var f, near := Filled(kept), Sort(CMax, Filled(kept));
    FilledLength(t, dist, k, kept);
    SortSorted(CMax, f);
    forall i, j | 0 <= i < j < |near| ensures !Worse(t, near[i], near[j]) {
      SortedIsNotWorse(t, near, i, j);
    }
    FinalIsBest(t, dist, k, kept);
  }

  lemma FinalIsBest(t: Ties, dist: seq<real>, k: nat, kept: seq<Entry>)
    requires HoldsBest(t, dist, |dist|, k, kept)
    ensures var f, hits := multiset(Filled(kept)), multiset(Numbered(dist, 0, |dist|));
            f <= hits && Best(t, f, hits - f)
  {
    hide Numbered, Worse, SortedBest, Filled;
    var f, hits := Filled(kept), multiset(Numbered(dist, 0, |dist|));
    forall e ensures multiset(f)[e] <= hits[e] {
      FilledIsHits(dist, k, kept, e);
    }
    forall a, b | a in multiset(f) && b in hits - multiset(f) ensures !Worse(t, a, b) {
      FilledIsHits(dist, k, kept, a);
      FilledIsHits(dist, k, kept, b);
      assert a in multiset(kept);
    }
  }

  lemma SortedIsNotWorse(t: Ties, s: seq<Entry>, i: nat, j: nat)
    requires SortedBest(CMax, s) && i < j < |s|
    ensures !Worse(t, s[i], s[j])
  {
    assert !Cmp2(CMax, s[i], s[j]);
  }

  lemma FilledIsHits(dist: seq<real>, k: nat, kept: seq<Entry>, e: Entry)
    requires multiset(kept) <= multiset(Empty(CMax, k)) + multiset(Numbered(dist, 0, |dist|))
    ensures multiset(Filled(kept))[e] == if e.id == -1 then 0 else multiset(kept)[e]
    ensures multiset(Filled(kept))[e] <= multiset(Numbered(dist, 0, |dist|))[e]
    ensures e in multiset(Numbered(dist, 0, |dist|)) - multiset(Filled(kept)) ==>
              e in multiset(Empty(CMax, k)) + multiset(Numbered(dist, 0, |dist|)) - multiset(kept)
    ensures e in Filled(kept) ==> e in kept
  {
    FilledCount(kept, e);
    HitsMember(dist, 0, |dist|, e);
    if e in multiset(Empty(CMax, k)) {
      assert e in Empty(CMax, k);
    }
    assert e in Filled(kept) <==> multiset(Filled(kept))[e] > 0;
    assert e in kept <==> multiset(kept)[e] > 0;
  }

  /** While a slot is empty no row has been turned away. */
  lemma EmptySlotMeansAll(t: Ties, dist: seq<real>, k: nat, kept: seq<Entry>, e: Entry)
    requires AllFinite(dist) && HoldsBest(t, dist, |dist|, k, kept) && Neutral(CMax) in kept
    requires e in multiset(Numbered(dist, 0, |dist|))
    ensures e !in multiset(Empty(CMax, k)) + multiset(Numbered(dist, 0, |dist|)) - multiset(kept)
  {
    hide Numbered;
    HitsMember(dist, 0, |dist|, e);
    assert Neutral(CMax) in multiset(kept);
    assert Worse(t, Neutral(CMax), e);
  }

  lemma FilledLength(t: Ties, dist: seq<real>, k: nat, kept: seq<Entry>)
    requires AllFinite(dist) && HoldsBest(t, dist, |dist|, k, kept)
    ensures |Filled(kept)| == Min(k, |dist|)
  {
    hide Numbered;
    var f, n := Filled(kept), |dist|;
    var hits := multiset(Numbered(dist, 0, n));
    assert |hits| == n && |multiset(f)| == |f|;
    if i :| 0 <= i < |kept| && kept[i].id == -1 {
      KeptMember(t, dist, n, k, kept, kept[i]);
      forall e ensures multiset(f)[e] == hits[e] {
        FilledIsHits(dist, k, kept, e);
        if e in hits {
          EmptySlotMeansAll(t, dist, k, kept, e);
        }
      }
      assert multiset(f) == hits;
    } else {
      FilledAll(kept);
      forall e ensures multiset(f)[e] <= hits[e] {
        FilledIsHits(dist, k, kept, e);
      }
      SmallerFits(multiset(f), hits);
    }
  }

  /** Two exact answers show the same distances; with the row-number tie rule, or with pairwise
      distinct distances, they are the same row. */
  lemma AnswersAgree(t: Ties, dist: seq<real>, k: nat, r: seq<Entry>, s: seq<Entry>)
    requires IsKnn(t, dist, k, r) && IsKnn(t, dist, k, s)
    ensures forall i :: 0 <= i < k ==> r[i].val == s[i].val
    ensures t.ById? || (forall i, j :: 0 <= i < j < |dist| ==> dist[i] != dist[j]) ==> r == s
  {
    hide IsKnn, Numbered;
    var m := Min(k, |dist|);
    FrontAgrees(t, dist, k, r, s);
    SplitRow(t, dist, k, r);
    SplitRow(t, dist, k, s);
    forall i | 0 <= i < k
      ensures r[i].val == s[i].val
      ensures t.ById? || (forall i, j :: 0 <= i < j < |dist| ==> dist[i] != dist[j]) ==> r[i] == s[i]
    {
      if i < m {
        assert r[i] == r[..m][i] && s[i] == s[..m][i];
        NearMember(t, dist, k, r[..m], i);
        NearMember(t, dist, k, s[..m], i);
      } else {
        assert r[i] == r[m..][i - m] && s[i] == s[m..][i - m];
      }
    }
  }

  lemma SplitRow(t: Ties, dist: seq<real>, k: nat, r: seq<Entry>)
    requires IsKnn(t, dist, k, r)
    ensures |r| == k && Nearest(t, dist, 0, |dist|, k, r[..Min(k, |dist|)])
    ensures r[Min(k, |dist|)..] == Empty(CMax, k - Min(k, |dist|))
  {
  }

  lemma NearMember(t: Ties, dist: seq<real>, k: nat, near: seq<Entry>, i: nat)
    requires Nearest(t, dist, 0, |dist|, k, near) && i < |near|
    ensures 0 <= near[i].id < |dist| && near[i].val == dist[near[i].id]
  {
    assert near[i] in multiset(near);
    HitsMember(dist, 0, |dist|, near[i]);
  }

  /** Row numbers of an exact answer: min(k, n) different rows by ascending distance, no other row nearer
      than any of them, then -1. */
  ghost predicate ListsNearest(dist: seq<real>, k: nat, ids: seq<int>) {
    var m := Min(k, |dist|);
    && |ids| == k
    && (forall i :: 0 <= i < m ==> 0 <= ids[i] < |dist|)
    && (forall i, j :: 0 <= i < j < m ==> ids[i] != ids[j] && dist[ids[i]] <= dist[ids[j]])
    && (forall i, x :: 0 <= i < m && 0 <= x < |dist| && x !in ids ==> dist[ids[i]] <= dist[x])
    && forall i :: m <= i < k ==> ids[i] == -1
  }

  lemma RowListsNearest(t: Ties, dist: seq<real>, k: nat, r: seq<Entry>, ids: seq<int>)
    requires IsKnn(t, dist, k, r)
    requires |ids| == |r| && forall i :: 0 <= i < |r| ==> ids[i] == r[i].id
    ensures ListsNearest(dist, k, ids)
  {
    hide Numbered, Best, Worse, Nearest, Empty, IsKnn;
    SplitRow(t, dist, k, r);
    var m := Min(k, |dist|);
    var near := r[..m];
    NearLength(t, dist, k, near);
    assert forall i :: 0 <= i < m ==> near[i].id == ids[i];
    forall i | 0 <= i < m ensures 0 <= ids[i] < |dist| && near[i].val == dist[ids[i]] {
      NearMember(t, dist, k, near, i);
    }
    forall i, j | 0 <= i < j < m ensures ids[i] != ids[j] && dist[ids[i]] <= dist[ids[j]] {
      NearDistinct(t, dist, 0, |dist|, k, near, i, j);
      NearInOrder(t, dist, k, near, i, j);
    }
    forall i, x | 0 <= i < m && 0 <= x < |dist| && x !in ids ensures dist[ids[i]] <= dist[x] {
      LeftOutIsFarther(t, dist, k, near, i, x);
    }
    forall i | m <= i < k ensures ids[i] == -1 {
      EmptySlot(k - m, i - m);
      assert r[i] == r[m..][i - m];
    }
  }

  lemma NearLength(t: Ties, dist: seq<real>, k: nat, near: seq<Entry>)
    requires Nearest(t, dist, 0, |dist|, k, near)
    ensures |near| == Min(k, |dist|)
  {
  }

  lemma NearInOrder(t: Ties, dist: seq<real>, k: nat, near: seq<Entry>, i: nat, j: nat)
    requires Nearest(t, dist, 0, |dist|, k, near) && i < j < |near|
    ensures near[i].val <= near[j].val
  {
    assert !Worse(t, near[i], near[j]);
  }

  lemma LeftOutIsFarther(t: Ties, dist: seq<real>, k: nat, near: seq<Entry>, i: nat, x: nat)
    requires Nearest(t, dist, 0, |dist|, k, near) && i < |near| && x < |dist|
    ensures (exists j :: 0 <= j < |near| && near[j].id == x) || near[i].val <= dist[x]
  {
    var e := Entry(dist[x], x);
    HitsMember(dist, 0, |dist|, e);
    if e in near {
      var j :| 0 <= j < |near| && near[j] == e;
      assert near[j].id == x;
    } else {
      assert e in multiset(Numbered(dist, 0, |dist|)) - multiset(near);
      assert near[i] in multiset(near);
      assert !Worse(t, near[i], e);
    }
  }

  lemma EmptySlot(n: nat, i: nat)
    requires i < n
    ensures Empty(CMax, n)[i].id == -1
  {
  }

  lemma FrontAgrees(t: Ties, dist: seq<real>, k: nat, r: seq<Entry>, s: seq<Entry>)
    requires IsKnn(t, dist, k, r) && IsKnn(t, dist, k, s)
    ensures |r| == |s| == k
    ensures Bare(r[..Min(k, |dist|)]) == Bare(s[..Min(k, |dist|)])
    ensures forall i :: 0 <= i < Min(k, |dist|) ==> r[i].val == s[i].val
    ensures t.ById? ==> r == s
  {
    hide Numbered, Sort, Nearest;
    var m := Min(k, |dist|);
    NearIsFront(t, dist, k, r[..m]);
    NearIsFront(t, dist, k, s[..m]);
    forall i | 0 <= i < m ensures r[i].val == s[i].val {
      assert Bare(r[..m])[i] == Bare(s[..m])[i];
    }
    assert r == r[..m] + r[m..] && s == s[..m] + s[m..];
  }

  ghost function Listing<T>(m: multiset<T>): (s: seq<T>)
    ensures multiset(s) == m
  {
    if |m| == 0 then [] else var x :| x in m; Listing(m - multiset{x}) + [x]
  }

  lemma NearSorted(t: Ties, near: seq<Entry>)
    requires forall i, j :: 0 <= i < j < |near| ==> !Worse(t, near[i], near[j])
    ensures SortedBest(CMax, Bare(near))
    ensures t.ById? ==> SortedBest(CMax, near)
  {
    forall i, j | 0 <= i < j < |near| ensures !Cmp2(CMax, Bare(near)[i], Bare(near)[j]) {
      assert !Worse(t, near[i], near[j]);
    }
  }

  lemma OutIsNotBetter(t: Ties, near: seq<Entry>, rest: seq<Entry>)
    requires Best(t, multiset(near), multiset(rest))
    ensures t.ById? ==> Wins(CMax, near, rest)
    ensures forall a, b :: a in near && b in rest ==> !Cmp(CMax, a.val, b.val)
  {
    forall a, b | a in near && b in rest ensures !Worse(t, a, b) {
      assert a in multiset(near) && b in multiset(rest);
    }
  }

  lemma AddBack<T>(a: multiset<T>, b: multiset<T>)
    requires a <= b
    ensures a + (b - a) == b
  {
  }

  lemma NearIsFront(t: Ties, dist: seq<real>, k: nat, near: seq<Entry>)
    requires Nearest(t, dist, 0, |dist|, k, near)
    ensures Bare(near) == Sort(CMax, Bare(Numbered(dist, 0, |dist|)))[..|near|]
    ensures t.ById? ==> near == Sort(CMax, Numbered(dist, 0, |dist|))[..|near|]
  {
    hide Numbered, Sort, Best, SortedBest, Bare, Cmp, Worse, Cmp2, Listing, Wins;
    var hits := Numbered(dist, 0, |dist|);
    var rest := Listing(multiset(hits) - multiset(near));
    AddBack(multiset(near), multiset(hits));
    OutIsNotBetter(t, near, rest);
    NearSorted(t, near);
    WinnersFixValues(CMax, near, rest, hits);
    if t.ById? {
      WinnersAreFront(CMax, near, rest, hits);
    }
  }
}
