/** What a bounded heap keeps of a stream: the specification of heap_addn and heap_reorder. */
module Streaming {
  import opened Selection

  /** Values lo..hi as entries, each with its position: the scores of a stream, or the base rows seen from
      one query with their row numbers. */
  function Numbered(x: seq<real>, lo: nat, hi: nat): (r: seq<Entry>)
    requires lo <= hi <= |x|
    ensures |r| == hi - lo
  {
    seq(hi - lo, i requires 0 <= i < hi - lo => Entry(x[lo + i], lo + i))
  }

  /** One arriving entry against the kept ones, `s`, best first. */
  function Offer(c: Kind, s: seq<Entry>, e: Entry): (r: seq<Entry>)
    ensures |r| == |s|
  {
    if s != [] && Cmp(c, s[|s| - 1].val, e.val) then Insert(c, s[..|s| - 1], e) else s
  }

  /** The entry that an arrival pushes out: the old worst one, or the arrival itself. */
  function Refused(c: Kind, s: seq<Entry>, e: Entry): Entry {
    if s != [] && Cmp(c, s[|s| - 1].val, e.val) then s[|s| - 1] else e
  }

  function OfferAll(c: Kind, s: seq<Entry>, es: seq<Entry>): (r: seq<Entry>)
    ensures |r| == |s|
  {
    if es == [] then s else Offer(c, OfferAll(c, s, es[..|es| - 1]), es[|es| - 1])
  }

  function RefusedAll(c: Kind, s: seq<Entry>, es: seq<Entry>): (r: seq<Entry>) {
    if es == [] then []
    else RefusedAll(c, s, es[..|es| - 1]) + [Refused(c, OfferAll(c, s, es[..|es| - 1]), es[|es| - 1])]
  }

  lemma OfferSorted(c: Kind, s: seq<Entry>, e: Entry)
    requires SortedBest(c, s)
    ensures SortedBest(c, Offer(c, s, e))
    ensures multiset(Offer(c, s, e)) + multiset{Refused(c, s, e)} == multiset(s) + multiset{e}
  {
    if s != [] && Cmp(c, s[|s| - 1].val, e.val) {
      InsertSorted(c, s[..|s| - 1], e);
      DropLast(s);
    }
  }

  lemma Balance<T>(kept: multiset<T>, out: multiset<T>, start: multiset<T>, seen: multiset<T>,
                   kept': multiset<T>, o: T, e: T)
    requires kept + out == start + seen && kept' + multiset{o} == kept + multiset{e}
    ensures kept' + (out + multiset{o}) == start + (seen + multiset{e})
  {
    assert kept' + (out + multiset{o}) == (kept' + multiset{o}) + out;
    assert (kept + multiset{e}) + out == (kept + out) + multiset{e};
  }

  /** The kept list stays sorted and nothing is lost: what came in is kept or refused. */
  lemma {:induction false} OfferAllConserves(c: Kind, s: seq<Entry>, es: seq<Entry>)
    requires SortedBest(c, s)
    ensures SortedBest(c, OfferAll(c, s, es))
    ensures multiset(OfferAll(c, s, es)) + multiset(RefusedAll(c, s, es)) == multiset(s) + multiset(es)
  {
    if es != [] {
      var n := |es| - 1;
      var kept, e := OfferAll(c, s, es[..n]), es[n];
      OfferAllConserves(c, s, es[..n]);
      OfferSorted(c, kept, e);
      Balance(multiset(kept), multiset(RefusedAll(c, s, es[..n])), multiset(s), multiset(es[..n]),
              multiset(Offer(c, kept, e)), Refused(c, kept, e), e);
      DropLast(es);
    }
  }

  /** No refused entry has a better value than a kept one. */
  lemma {:induction false} OfferAllKeepsBestValues(c: Kind, s: seq<Entry>, es: seq<Entry>)
    requires SortedBest(c, s)
    ensures forall a, b :: a in OfferAll(c, s, es) && b in RefusedAll(c, s, es) ==> !Cmp(c, a.val, b.val)
  {
    if es != [] {
      var n := |es| - 1;
      var kept, e := OfferAll(c, s, es[..n]), es[n];
      OfferAllKeepsBestValues(c, s, es[..n]);
      OfferAllConserves(c, s, es[..n]);
      var r, out := Offer(c, kept, e), Refused(c, kept, e);
      forall a, b | a in r && b in RefusedAll(c, s, es) ensures !Cmp(c, a.val, b.val) {
        OfferMembers(c, kept, e, a);
        if kept != [] {
          assert kept[|kept| - 1] in kept;
          if a in kept {
            LastIsWorst(c, kept, a);
          }
        }
        assert b in RefusedAll(c, s, es[..n]) || b == out;
      }
    }
  }

  lemma OfferMembers(c: Kind, s: seq<Entry>, e: Entry, a: Entry)
    requires a in Offer(c, s, e)
    ensures a in s || (a == e && s != [] && Cmp(c, s[|s| - 1].val, e.val))
  {
    if s != [] && Cmp(c, s[|s| - 1].val, e.val) {
      assert a in multiset(Insert(c, s[..|s| - 1], e));
      assert a in multiset(s[..|s| - 1]) || a == e;
    }
  }

  lemma {:induction false} OfferAllMembers(c: Kind, s: seq<Entry>, es: seq<Entry>, a: Entry)
    requires a in OfferAll(c, s, es)
    ensures a in s || a in es
  {
    if es != [] {
      OfferMembers(c, OfferAll(c, s, es[..|es| - 1]), es[|es| - 1], a);
      if a != es[|es| - 1] {
        OfferAllMembers(c, s, es[..|es| - 1], a);
      }
    }
  }

  /** The values kept are the best |s| values of everything offered, whatever the ties. */
  lemma OfferAllBestValues(c: Kind, s: seq<Entry>, es: seq<Entry>)
    requires SortedBest(c, s)
    ensures Bare(OfferAll(c, s, es)) == Sort(c, Bare(s + es))[..|s|]
  {
    OfferAllConserves(c, s, es);
    OfferAllKeepsBestValues(c, s, es);
    BareSorted(c, OfferAll(c, s, es));
    WinnersFixValues(c, OfferAll(c, s, es), RefusedAll(c, s, es), s + es);
  }

  /** An arrival that ties in value with an earlier entry would leave a heap before it. */
  ghost predicate LateTiesLose(c: Kind, s: seq<Entry>, es: seq<Entry>) {
    && (forall a, b :: a in s && b in es && a.val == b.val ==> Cmp2(c, b, a))
    && (forall i, j :: 0 <= i < j < |es| && es[i].val == es[j].val ==> Cmp2(c, es[j], es[i]))
  }

  lemma OfferWins(c: Kind, s: seq<Entry>, out: seq<Entry>, e: Entry)
    requires SortedBest(c, s) && Wins(c, s, out)
    requires forall a :: a in s && a.val == e.val ==> Cmp2(c, e, a)
    ensures Wins(c, Offer(c, s, e), out + [Refused(c, s, e)])
  {
    forall a, b | a in Offer(c, s, e) && b in out + [Refused(c, s, e)] ensures !Cmp2(c, a, b) {
      OfferMembers(c, s, e, a);
      assert b in out || b == Refused(c, s, e);
      if s != [] {
        var worst := s[|s| - 1];
        assert worst in s;
        if a in s {
          LastIsWorst(c, s, a);
        }
      }
    }
  }

  lemma {:induction false} OfferAllWins(c: Kind, s: seq<Entry>, es: seq<Entry>)
    requires SortedBest(c, s) && LateTiesLose(c, s, es)
    ensures Wins(c, OfferAll(c, s, es), RefusedAll(c, s, es))
  {
    if es != [] {
      var n := |es| - 1;
      var kept, e := OfferAll(c, s, es[..n]), es[n];
      OfferAllWins(c, s, es[..n]);
      OfferAllConserves(c, s, es[..n]);
      forall a | a in kept && a.val == e.val ensures Cmp2(c, e, a) {
        OfferAllMembers(c, s, es[..n], a);
      }
      OfferWins(c, kept, RefusedAll(c, s, es[..n]), e);
    }
  }

  /** When late ties lose, the entries kept, identifiers included, are the front of the sorted whole. */
  lemma OfferAllExact(c: Kind, s: seq<Entry>, es: seq<Entry>)
    requires SortedBest(c, s) && LateTiesLose(c, s, es)
    ensures OfferAll(c, s, es) == Sort(c, s + es)[..|s|]
  {
    OfferAllConserves(c, s, es);
    OfferAllWins(c, s, es);
    WinnersAreFront(c, OfferAll(c, s, es), RefusedAll(c, s, es), s + es);
  }

  lemma OfferAllNext(c: Kind, s: seq<Entry>, es: seq<Entry>, e: Entry)
    ensures OfferAll(c, s, es + [e]) == Offer(c, OfferAll(c, s, es), e)
  {
    assert (es + [e])[..|es|] == es;
  }

  lemma {:induction false} OfferAllAppend(c: Kind, s: seq<Entry>, es: seq<Entry>, fs: seq<Entry>)
    ensures OfferAll(c, s, es + fs) == OfferAll(c, OfferAll(c, s, es), fs)
  {
    if fs == [] {
      assert es + fs == es;
    } else {
      var n := |fs| - 1;
      assert (es + fs)[..|es + fs| - 1] == es + fs[..n];
      OfferAllAppend(c, s, es, fs[..n]);
    }
  }

  /** The slots that hold a real result: an identifier of -1 marks an empty one. */
  function Filled(s: seq<Entry>): (r: seq<Entry>)
    ensures |r| <= |s|
  {
    if s == [] then []
    else Filled(s[..|s| - 1]) + if s[|s| - 1].id != -1 then [s[|s| - 1]] else []
  }

  lemma {:induction false} FilledCount(s: seq<Entry>, e: Entry)
    ensures multiset(Filled(s))[e] == if e.id != -1 then multiset(s)[e] else 0
  {
    if s != [] {
      FilledCount(s[..|s| - 1], e);
      DropLast(s);
    }
  }

  lemma FilledMultiset(s: seq<Entry>, t: seq<Entry>)
    requires multiset(s) == multiset(t)
    ensures multiset(Filled(s)) == multiset(Filled(t))
  {
    forall e ensures multiset(Filled(s))[e] == multiset(Filled(t))[e] {
      FilledCount(s, e);
      FilledCount(t, e);
    }
  }

  function Empty(c: Kind, n: nat): (r: seq<Entry>)
    ensures |r| == n && forall i :: 0 <= i < n ==> r[i] == Neutral(c)
  {
    seq(n, _ => Neutral(c))
  }

  /** The result row a heap is turned into: real entries best first, then empty slots. */
  function Reordered(c: Kind, s: seq<Entry>): (r: seq<Entry>)
    ensures |r| == |s|
  {
    Sort(c, Filled(s)) + Empty(c, |s| - |Filled(s)|)
  }

  lemma {:induction false} FilledAll(s: seq<Entry>)
    requires forall i :: 0 <= i < |s| ==> s[i].id != -1
    ensures Filled(s) == s
  {
    if s != [] {
      FilledAll(s[..|s| - 1]);
    }
  }
}
