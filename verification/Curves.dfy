/** Recall/throughput/time curves of the sweeps, and Python's stable sort of a curve by recall. */
module Curves {

  datatype Row = Row(recall: real, qps: real, ms: real)

  ghost predicate ByRecall(s: seq<Row>) {
    forall i, j :: 0 <= i < j < |s| ==> s[i].recall <= s[j].recall
  }

  /** sorted(rows, key=recall) is stable: a row goes behind its equals. */
  function InsertRow(s: seq<Row>, r: Row): (t: seq<Row>)
    ensures |t| == |s| + 1 && multiset(t) == multiset(s) + multiset{r}
  {
    if s == [] || s[|s| - 1].recall <= r.recall then s + [r]
    else
      assert s == s[..|s| - 1] + [s[|s| - 1]];
      InsertRow(s[..|s| - 1], r) + [s[|s| - 1]]
  }

  function SortRows(s: seq<Row>): (t: seq<Row>)
    ensures |t| == |s| && multiset(t) == multiset(s)
  {
    if s == [] then []
    else
      assert s == s[..|s| - 1] + [s[|s| - 1]];
      InsertRow(SortRows(s[..|s| - 1]), s[|s| - 1])
  }

  lemma {:induction false} InsertRowSorted(s: seq<Row>, r: Row)
    requires ByRecall(s)
    ensures ByRecall(InsertRow(s, r))
  {
    if s != [] && s[|s| - 1].recall > r.recall {
      var init := s[..|s| - 1];
      InsertRowSorted(init, r);
      var t := InsertRow(init, r);
      forall i | 0 <= i < |t| ensures t[i].recall <= s[|s| - 1].recall {
        assert t[i] in multiset(t);
        assert t[i] in init || t[i] == r;
      }
    }
  }

  lemma {:induction false} SortRowsSorted(s: seq<Row>)
    ensures ByRecall(SortRows(s))
  {
    if s != [] {
      SortRowsSorted(s[..|s| - 1]);
      InsertRowSorted(SortRows(s[..|s| - 1]), s[|s| - 1]);
    }
  }

  lemma SortRowsNext(s: seq<Row>)
    ensures s == [] ==> SortRows(s) == []
    ensures s != [] ==> SortRows(s) == InsertRow(SortRows(s[..|s| - 1]), s[|s| - 1])
  {
    hide InsertRow;
  }

  lemma InsertAtEnd(s: seq<Row>, r: Row)
    requires s == [] || s[|s| - 1].recall <= r.recall
    ensures InsertRow(s, r) == s + [r]
  {
  }

  lemma {:induction false} SortedStays(s: seq<Row>)
    requires ByRecall(s)
    ensures SortRows(s) == s
  {
    hide SortRows, InsertRow;
    SortRowsNext(s);
    if s != [] {
      var init := s[..|s| - 1];
      SortedStays(init);
      InsertAtEnd(init, s[|s| - 1]);
      assert s == init + [s[|s| - 1]];
    }
  }

  /** Any ascending order of the same rows: what a sort that is not stable may return. */
  ghost predicate Arrangement(curve: seq<Row>, s: seq<Row>) {
    multiset(s) == multiset(curve) && ByRecall(s)
  }

  /** No two different rows have the same recall. */
  ghost predicate OneRowPerLevel(curve: seq<Row>) {
    forall p, q :: p in curve && q in curve && p.recall == q.recall ==> p == q
  }

  lemma SameRows(s: seq<Row>, t: seq<Row>)
    requires multiset(s) == multiset(t)
    ensures |s| == |t| && forall p :: p in s <==> p in t
  {
    assert |multiset(s)| == |s| && |multiset(t)| == |t|;
    forall p ensures p in s <==> p in t {
      assert p in multiset(s) <==> p in multiset(t);
    }
  }

  lemma DropLastRow(s: seq<Row>)
    requires s != []
    ensures multiset(s[..|s| - 1]) == multiset(s) - multiset{s[|s| - 1]}
  {
    assert s == s[..|s| - 1] + [s[|s| - 1]];
  }

  lemma SameSize(s: seq<Row>, t: seq<Row>)
    requires multiset(s) == multiset(t)
    ensures |s| == |t|
  {
    assert |multiset(s)| == |s| && |multiset(t)| == |t|;
  }

  lemma DropSameLast(s: seq<Row>, t: seq<Row>)
    requires multiset(s) == multiset(t) && |s| == |t| > 0 && s[|s| - 1] == t[|t| - 1]
    ensures multiset(s[..|s| - 1]) == multiset(t[..|t| - 1])
  {
    DropLastRow(s);
    DropLastRow(t);
  }

  lemma LevelPrefix(t: seq<Row>, n: nat)
    requires OneRowPerLevel(t) && n <= |t|
    ensures OneRowPerLevel(t[..n])
  {
    forall p | p in t[..n] ensures p in t {
    }
  }

  lemma ByRecallPrefix(s: seq<Row>, n: nat)
    requires ByRecall(s) && n <= |s|
    ensures ByRecall(s[..n])
  {
  }

  /** Distinct recalls leave one ascending order. */
  lemma {:induction false} OneArrangement(s: seq<Row>, t: seq<Row>)
    requires multiset(s) == multiset(t) && ByRecall(s) && ByRecall(t) && OneRowPerLevel(t)
    ensures s == t
  {
    hide ByRecall, OneRowPerLevel;
    SameSize(s, t);
    if s != [] {
      var n := |s| - 1;
      LastRows(s, t);
      DropSameLast(s, t);
      LevelPrefix(t, n);
      ByRecallPrefix(s, n);
      ByRecallPrefix(t, n);
      OneArrangement(s[..n], t[..n]);
      assert s == s[..n] + [s[n]] && t == t[..n] + [t[n]];
    }
  }

  lemma LastRows(s: seq<Row>, t: seq<Row>)
    requires multiset(s) == multiset(t) && |s| == |t| > 0 && ByRecall(s) && ByRecall(t) && OneRowPerLevel(t)
    ensures s[|s| - 1] == t[|t| - 1]
  {
    SameRows(s, t);
    var a, b := s[|s| - 1], t[|t| - 1];
    assert a in t && b in s;
    var i :| 0 <= i < |t| && t[i] == a;
    var j :| 0 <= j < |s| && s[j] == b;
  }

  /** Exchanging two rows of the same recall keeps an arrangement. */
  lemma SwapLevel(curve: seq<Row>, t: seq<Row>, i: nat, j: nat)
    requires Arrangement(curve, t) && i <= j < |t| && t[i].recall == t[j].recall
    ensures Arrangement(curve, t[i := t[j]][j := t[i]])
  {
    var s := t[i := t[j]][j := t[i]];
    assert multiset(s) == multiset(t);
    assert forall x :: 0 <= x < |t| ==> s[x].recall == t[x].recall;
  }
}
