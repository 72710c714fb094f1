/** Lists without repetition and how many elements they hold. */
module Distinctness {
  ghost predicate Distinct<T>(s: seq<T>) {
    forall i, j :: 0 <= i < j < |s| ==> s[i] != s[j]
  }

  ghost function Members<T(!new)>(s: seq<T>): (r: set<T>)
    ensures forall x :: x in r <==> x in s
  {
    set x | x in s
  }

  lemma {:induction false} MemberCount<T(!new)>(s: seq<T>)
    requires Distinct(s)
    ensures |Members(s)| == |s|
  {
    if s != [] {
      var m := |s| - 1;
      MemberCount(s[..m]);
      assert s == s[..m] + [s[m]];
      assert Members(s) == Members(s[..m]) + {s[m]};
    }
  }

  lemma SubsetSmaller<T>(a: set<T>, b: set<T>)
    requires a <= b
    ensures |a| <= |b|
  {
    assert b == a + (b - a);
  }

  /** A longer list without repetition has an element the shorter list lacks. */
  lemma SomethingNew<T(!new)>(longer: seq<T>, shorter: seq<T>) returns (x: T)
    requires Distinct(longer) && |longer| > |shorter|
    ensures x in longer && x !in shorter
  {
    if forall y :: y in longer ==> y in shorter {
      MemberCount(longer);
      MembersFew(shorter);
      SubsetSmaller(Members(longer), Members(shorter));
    }
    x :| x in longer && x !in shorter;
  }

  lemma {:induction false} MembersFew<T(!new)>(s: seq<T>)
    ensures |Members(s)| <= |s|
  {
    if s != [] {
      var m := |s| - 1;
      MembersFew(s[..m]);
      assert s == s[..m] + [s[m]];
      assert Members(s) == Members(s[..m]) + {s[m]};
    }
  }

  ghost predicate InRange(at: seq<nat>, n: nat) {
    forall i :: 0 <= i < |at| ==> at[i] < n
  }

  /** n distinct positions below n are all of them. */
  lemma PositionsCovered(at: seq<nat>, n: nat)
    requires InRange(at, n) && Distinct(at) && |at| == n
    ensures forall i :: 0 <= i < n ==> i in at
  {
    MemberCount(at);
    if i: nat :| i < n && i !in at {
      SubsetSmaller(Members(at), Below(n) - {i});
    }
  }

  function Below(n: nat): (r: set<nat>)
    ensures forall i: nat :: i in r <==> i < n
    ensures |r| == n
  {
    if n == 0 then {} else Below(n - 1) + {n - 1}
  }
}
