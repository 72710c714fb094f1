/** Entries of a top-k result list, the two comparators of the heap library, and what it
    means for a list to hold the best entries of a larger collection. */
module Selection {

  /** One slot of a heap or of a result row: a distance (or score) and an identifier. */
  datatype Entry = Entry(val: real, id: int)

  /** CMin keeps the largest values (smallest on top), CMax keeps the smallest (largest on top). */
  datatype Kind = CMin | CMax

  const FLT_MAX: real := 340282346638528859811704183484516925440.0

  /** A new value `b` is kept when Cmp(c, threshold, b). */
  predicate Cmp(c: Kind, a: real, b: real) {
    if c.CMin? then a < b else a > b
  }

  /** `a` leaves a full heap before `b`: worse value, ties broken by identifier. */
  predicate Cmp2(c: Kind, a: Entry, b: Entry) {
    Cmp(c, a.val, b.val) || (a.val == b.val && if c.CMin? then a.id < b.id else a.id > b.id)
  }

  /** The value an empty slot carries: it loses against every other finite value. */
  function Neutral(c: Kind): Entry {
    Entry(if c.CMin? then -FLT_MAX else FLT_MAX, -1)
  }

  /** Best entry first. */
  ghost predicate SortedBest(c: Kind, s: seq<Entry>) {
    forall i, j :: 0 <= i < j < |s| ==> !Cmp2(c, s[i], s[j])
  }

  function Insert(c: Kind, s: seq<Entry>, e: Entry): (r: seq<Entry>)
    ensures |r| == |s| + 1
    ensures multiset(r) == multiset(s) + multiset{e}
  {
    if s == [] then [e]
    else if Cmp2(c, s[|s| - 1], e) then
      assert s == s[..|s| - 1] + [s[|s| - 1]];
      Insert(c, s[..|s| - 1], e) + [s[|s| - 1]]
    else s + [e]
  }

  function Sort(c: Kind, s: seq<Entry>): (r: seq<Entry>)
    ensures |r| == |s|
    ensures multiset(r) == multiset(s)
  {
    if s == [] then []
    else
      assert s == s[..|s| - 1] + [s[|s| - 1]];
      Insert(c, Sort(c, s[..|s| - 1]), s[|s| - 1])
  }

  lemma SameElements<T>(s: seq<T>, t: seq<T>)
    requires multiset(s) == multiset(t)
    ensures forall x :: x in s <==> x in t
    ensures |s| == |t|
  {
    forall x ensures x in s <==> x in t {
      assert x in s <==> x in multiset(s);
    }
    assert |multiset(s)| == |s| && |multiset(t)| == |t|;
  }

  lemma {:induction false} InsertSorted(c: Kind, s: seq<Entry>, e: Entry)
    requires SortedBest(c, s)
    ensures SortedBest(c, Insert(c, s, e))
  {
    if s != [] && Cmp2(c, s[|s| - 1], e) {
      var init := s[..|s| - 1];
      InsertSorted(c, init, e);
      var r := Insert(c, init, e);
      forall i | 0 <= i < |r| ensures !Cmp2(c, r[i], s[|s| - 1]) {
        assert r[i] in multiset(init) + multiset{e};
        assert r[i] in init || r[i] == e;
      }
    }
  }

  lemma {:induction false} SortSorted(c: Kind, s: seq<Entry>)
    ensures SortedBest(c, Sort(c, s))
  {
    if s != [] {
      SortSorted(c, s[..|s| - 1]);
      InsertSorted(c, Sort(c, s[..|s| - 1]), s[|s| - 1]);
    }
  }

  lemma LastIsWorst(c: Kind, s: seq<Entry>, x: Entry)
    requires SortedBest(c, s) && x in s
    ensures x == s[|s| - 1] || Cmp2(c, s[|s| - 1], x)
  {
    var i :| 0 <= i < |s| && s[i] == x;
    assert i == |s| - 1 || !Cmp2(c, s[i], s[|s| - 1]);
  }

  lemma DropLast<T>(s: seq<T>)
    requires s != []
    ensures multiset(s[..|s| - 1]) == multiset(s) - multiset{s[|s| - 1]}
  {
    assert s == s[..|s| - 1] + [s[|s| - 1]];
  }

  lemma SortedPrefix(c: Kind, s: seq<Entry>, n: nat)
    requires SortedBest(c, s) && n <= |s|
    ensures SortedBest(c, s[..n])
  {
  }

  lemma Transfer<T>(s: seq<T>, t: seq<T>, x: T)
    requires multiset(s) == multiset(t) && x in s
    ensures |s| == |t| && x in t
  {
    assert x in multiset(t);
    assert |multiset(s)| == |s| && |multiset(t)| == |t|;
  }

  lemma DropSameLast<T>(s: seq<T>, t: seq<T>, n: nat)
    requires |s| == |t| == n + 1 && multiset(s) == multiset(t) && s[n] == t[n]
    ensures multiset(s[..n]) == multiset(t[..n])
  {
    DropLast(s);
    DropLast(t);
  }

  lemma SameFromInit<T>(s: seq<T>, t: seq<T>, n: nat)
    requires |s| == |t| == n + 1 && s[..n] == t[..n] && s[n] == t[n]
    ensures s == t
  {
    assert s == s[..n] + [s[n]];
    assert t == t[..n] + [t[n]];
  }

  /** Two best-first lists of the same entries end in the same entry. */
  lemma SameLast(c: Kind, s: seq<Entry>, t: seq<Entry>)
    requires SortedBest(c, s) && SortedBest(c, t) && s != []
    requires multiset(s) == multiset(t)
    ensures |s| == |t| && s[|s| - 1] == t[|t| - 1]
  {
    hide SortedBest;
    assert s[|s| - 1] in s;
    Transfer(s, t, s[|s| - 1]);
    assert t[|t| - 1] in t;
    Transfer(t, s, t[|t| - 1]);
    LastIsWorst(c, s, t[|t| - 1]);
    LastIsWorst(c, t, s[|s| - 1]);
  }

  /** A best-first list is determined by its elements. */
  lemma {:induction false} SortedUnique(c: Kind, s: seq<Entry>, t: seq<Entry>)
    requires SortedBest(c, s) && SortedBest(c, t)
    requires multiset(s) == multiset(t)
    ensures s == t
  {
    hide Cmp2, SortedBest;
    if s == [] {
      assert |multiset(t)| == |t|;
    } else {
      var n := |s| - 1;
      SameLast(c, s, t);
      DropSameLast(s, t, n);
      SortedPrefix(c, s, n);
      SortedPrefix(c, t, n);
      SortedUnique(c, s[..n], t[..n]);
      SameFromInit(s, t, n);
    }
  }

  /** Sorting forgets the order the entries came in. */
  lemma SortSame(c: Kind, s: seq<Entry>, t: seq<Entry>)
    requires multiset(s) == multiset(t)
    ensures Sort(c, s) == Sort(c, t)
  {
    hide Cmp2, SortedBest;
    SortSorted(c, s);
    SortSorted(c, t);
    SortedUnique(c, Sort(c, s), Sort(c, t));
  }

  /** Sorting a part first changes nothing. */
  lemma SortAfterSort(c: Kind, s: seq<Entry>, t: seq<Entry>)
    ensures Sort(c, Sort(c, s) + t) == Sort(c, s + t)
    ensures Sort(c, Bare(Sort(c, s) + t)) == Sort(c, Bare(s + t))
  {
    hide Cmp2, SortedBest;
    assert multiset(Sort(c, s) + t) == multiset(s + t);
    SortSame(c, Sort(c, s) + t, s + t);
    BareMultiset(Sort(c, s) + t, s + t);
    SortSame(c, Bare(Sort(c, s) + t), Bare(s + t));
  }

  /** `kept` are the winners: nothing in `rest` is better than anything kept. */
  ghost predicate Wins(c: Kind, kept: seq<Entry>, rest: seq<Entry>) {
    forall a, b :: a in kept && b in rest ==> !Cmp2(c, a, b)
  }

  /** A sorted list of winners is the front of the sorted whole. */
  lemma WinnersAreFront(c: Kind, kept: seq<Entry>, rest: seq<Entry>, all: seq<Entry>)
    requires SortedBest(c, kept) && Wins(c, kept, rest)
    requires multiset(kept) + multiset(rest) == multiset(all)
    ensures |kept| <= |all| && kept == Sort(c, all)[..|kept|]
  {
    hide Sort;
    var tail := Sort(c, rest);
    SortSorted(c, rest);
    SortSorted(c, all);
    SameElements(rest, tail);
    var whole := kept + tail;
    assert multiset(whole) == multiset(all);
    SortedUnique(c, whole, Sort(c, all));
    assert kept == whole[..|kept|];
  }

  /** Forgetting identifiers, so that equal values become equal entries. */
  function Bare(s: seq<Entry>): (r: seq<Entry>)
    ensures |r| == |s|
  {
    seq(|s|, i requires 0 <= i < |s| => Entry(s[i].val, 0))
  }

  lemma RemoveAt<T>(t: seq<T>, j: nat)
    requires j < |t|
    ensures multiset(t) == multiset(t[..j] + t[j + 1..]) + multiset{t[j]}
    ensures multiset(t[..j] + t[j + 1..]) == multiset(t) - multiset{t[j]}
  {
    assert t == t[..j] + [t[j]] + t[j + 1..];
  }

  lemma BareRemove(t: seq<Entry>, j: nat)
    requires j < |t|
    ensures multiset(Bare(t)) == multiset(Bare(t[..j] + t[j + 1..])) + multiset{Entry(t[j].val, 0)}
  {
    var b := Bare(t);
    RemoveAt(b, j);
    assert Bare(t[..j] + t[j + 1..]) == b[..j] + b[j + 1..];
  }

  lemma {:induction false} BareMultiset(s: seq<Entry>, t: seq<Entry>)
    requires multiset(s) == multiset(t)
    ensures multiset(Bare(s)) == multiset(Bare(t))
  {
    hide Bare;
    if s == [] {
      SameElements(s, t);
    } else {
      var j := Twin(s, t);
      RemoveTwins(s, t, j);
      BareMultiset(s[..0] + s[1..], t[..j] + t[j + 1..]);
      BareRemove(s, 0);
      BareRemove(t, j);
    }
  }

  lemma Twin<T(!new)>(s: seq<T>, t: seq<T>) returns (j: nat)
    requires multiset(s) == multiset(t) && s != []
    ensures j < |t| && t[j] == s[0]
  {
    SameElements(s, t);
    assert s[0] in t;
    j :| 0 <= j < |t| && t[j] == s[0];
  }

  lemma RemoveTwins<T>(s: seq<T>, t: seq<T>, j: nat)
    requires multiset(s) == multiset(t) && s != [] && j < |t| && t[j] == s[0]
    ensures multiset(s[..0] + s[1..]) == multiset(t[..j] + t[j + 1..])
  {
    RemoveAt(s, 0);
    RemoveAt(t, j);
  }

  lemma BareSorted(c: Kind, s: seq<Entry>)
    requires SortedBest(c, s)
    ensures SortedBest(c, Bare(s))
  {
    forall i, j | 0 <= i < j < |s| ensures !Cmp2(c, Bare(s)[i], Bare(s)[j]) {
      assert !Cmp2(c, s[i], s[j]);
    }
  }

  /** Winning on values alone already fixes the sorted list of values. */
  lemma WinnersFixValues(c: Kind, kept: seq<Entry>, rest: seq<Entry>, all: seq<Entry>)
    requires SortedBest(c, Bare(kept))
    requires forall a, b :: a in kept && b in rest ==> !Cmp(c, a.val, b.val)
    requires multiset(kept) + multiset(rest) == multiset(all)
    ensures |kept| <= |all| && Bare(kept) == Sort(c, Bare(all))[..|kept|]
  {
    hide SortedBest, Sort;
    var k, r := Bare(kept), Bare(rest);
    forall a, b | a in k && b in r ensures !Cmp2(c, a, b) {
      var i :| 0 <= i < |k| && k[i] == a;
      var j :| 0 <= j < |r| && r[j] == b;
      assert kept[i] in kept && rest[j] in rest;
    }
    assert multiset(kept + rest) == multiset(all);
    BareMultiset(kept + rest, all);
    assert Bare(kept + rest) == k + r;
    WinnersAreFront(c, k, r, Bare(all));
  }
}
