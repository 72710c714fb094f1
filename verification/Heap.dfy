/** The binary heap of faiss/utils/Heap.h, on an array of (value, id) pairs.
    Node i has children 2i+1 and 2i+2 (the source shifts its pointers to count from one). */
module Heap {
  import opened Selection

  predicate Child(i: int, j: int) {
    j == 2 * i + 1 || j == 2 * i + 2
  }

  ghost predicate IsHeap(c: Kind, s: seq<Entry>) {
    forall i, j :: 0 <= i < j < |s| && Child(i, j) ==> !Cmp2(c, s[j], s[i])
  }

  /** Nothing in a heap leaves before the entry on top. */
  lemma {:induction false} TopIsWorst(c: Kind, s: seq<Entry>, j: nat)
    requires IsHeap(c, s) && j < |s|
    ensures !Cmp2(c, s[j], s[0])
  {
    if j > 0 {
      var i := (j - 1) / 2;
      assert Child(i, j);
      TopIsWorst(c, s, i);
    }
  }

  /** Filling the hole at `i` from `j`, which makes `j` the hole, is a swap. */
  lemma MoveHole<T>(s: seq<T>, i: nat, j: nat, e: T)
    requires i < |s| && j < |s| && i != j
    ensures multiset(s[i := s[j]][j := e]) == multiset(s[i := e])
  {
    var t := s[i := e];
    assert s[i := s[j]][j := e] == t[i := t[j]][j := t[i]];
    assert multiset(t[i := t[j]][j := t[i]]) == multiset(t);
  }

  lemma ReplaceAt<T>(s: seq<T>, i: nat, e: T)
    requires i < |s|
    ensures multiset(s[i := e]) == multiset(s) - multiset{s[i]} + multiset{e}
  {
  }

  /** Heap order everywhere except around the hole `h`. */
  ghost predicate HeapWithHole(c: Kind, s: seq<Entry>, h: nat)
    requires h < |s|
  {
    && (forall i, j :: 0 <= i < j < |s| && Child(i, j) && i != h && j != h ==> !Cmp2(c, s[j], s[i]))
    && (forall i, j :: 0 <= i < h < j < |s| && Child(i, h) && Child(h, j) ==> !Cmp2(c, s[j], s[i]))
  }

  ghost predicate AboveHole(c: Kind, s: seq<Entry>, h: nat, e: Entry)
    requires h < |s|
  {
    forall i :: 0 <= i < h && Child(i, h) ==> !Cmp2(c, e, s[i])
  }

  ghost predicate BelowHole(c: Kind, s: seq<Entry>, h: nat, e: Entry)
    requires h < |s|
  {
    forall j :: h < j < |s| && Child(h, j) ==> !Cmp2(c, s[j], e)
  }

  lemma HoleCloses(c: Kind, s: seq<Entry>, h: nat, e: Entry)
    requires h < |s| && HeapWithHole(c, s, h)
    requires AboveHole(c, s, h, e) && BelowHole(c, s, h, e)
    ensures IsHeap(c, s[h := e])
  {
  }

  lemma HoleOpens(c: Kind, s: seq<Entry>, e: Entry)
    requires s != [] && IsHeap(c, s)
    ensures HeapWithHole(c, s, 0) && AboveHole(c, s, 0, e)
  {
  }

  lemma HoleAtEnd(c: Kind, s: seq<Entry>, t: seq<Entry>, e: Entry)
    requires s != [] && IsHeap(c, t) && t == s[..|s| - 1]
    ensures HeapWithHole(c, s, |s| - 1) && BelowHole(c, s, |s| - 1, e)
  {
  }

  lemma FatherHolds(c: Kind, s: seq<Entry>, h: nat, e: Entry)
    requires h < |s| && (h > 0 ==> !Cmp2(c, e, s[(h - 1) / 2]))
    ensures AboveHole(c, s, h, e)
  {
  }

  lemma HoleMovesDown(c: Kind, s: seq<Entry>, h: nat, child: nat, e: Entry)
    requires h < child < |s| && HeapWithHole(c, s, h)
    requires Child(h, child)
    requires forall j :: h < j < |s| && Child(h, j) ==> !Cmp2(c, s[j], s[child])
    requires !Cmp2(c, e, s[child])
    ensures HeapWithHole(c, s[h := s[child]], child)
    ensures AboveHole(c, s[h := s[child]], child, e)
  {
  }

  lemma HoleMovesUp(c: Kind, s: seq<Entry>, h: nat, father: nat, e: Entry)
    requires father < h < |s| && HeapWithHole(c, s, h)
    requires Child(father, h) && BelowHole(c, s, h, e)
    requires Cmp2(c, e, s[father])
    ensures HeapWithHole(c, s[h := s[father]], father)
    ensures BelowHole(c, s[h := s[father]], father, e)
  {
  }

  /** The child the downward loops pick is the one that would leave first. */
  lemma ChildrenOrdered(c: Kind, s: seq<Entry>, h: nat, child: nat)
    requires 2 * h + 1 < |s|
    requires child == if 2 * h + 2 == |s| || Cmp2(c, s[2 * h + 1], s[2 * h + 2]) then 2 * h + 1 else 2 * h + 2
    ensures h < child < |s| && Child(h, child)
    ensures forall j :: h < j < |s| && Child(h, j) ==> !Cmp2(c, s[j], s[child])
  {
  }

  lemma NoChildren(c: Kind, s: seq<Entry>, h: nat, e: Entry)
    requires h < |s|
    ensures 2 * h + 1 >= |s| ==> BelowHole(c, s, h, e)
  {
  }

  lemma StopsHere(c: Kind, s: seq<Entry>, h: nat, child: nat, e: Entry)
    requires h < child < |s| && Cmp2(c, e, s[child])
    requires forall j :: h < j < |s| && Child(h, j) ==> !Cmp2(c, s[j], s[child])
    ensures BelowHole(c, s, h, e)
  {
  }

  /** The downward loop shared by heap_pop and heap_replace_top. */
  method SiftDown(c: Kind, a: array<Entry>, k: nat, e: Entry)
    requires 1 <= k <= a.Length && IsHeap(c, a[..k])
    modifies a
    ensures IsHeap(c, a[..k])
    ensures multiset(a[..k]) == multiset(old(a[..k])[0 := e])
    ensures a[k..] == old(a[k..])
    ensures e == old(a[k - 1]) ==> a[k - 1] == e
  {
    hide Cmp2, IsHeap, HeapWithHole, AboveHole, BelowHole;
    var h := 0;
    ghost var s := a[..k];
    HoleOpens(c, s, e);
    NoChildren(c, s, 0, e);
    while 2 * h + 1 < k
      invariant h < k == |s| && s == a[..k]
      invariant HeapWithHole(c, s, h) && AboveHole(c, s, h, e)
      invariant 2 * h + 1 >= k ==> BelowHole(c, s, h, e)
      invariant multiset(s[h := e]) == multiset(old(a[..k])[0 := e])
      invariant a[k..] == old(a[k..])
      invariant h < k - 1 ==> s[k - 1] == old(a[k - 1])
    {
      var left, right := 2 * h + 1, 2 * h + 2;
      assert a[left] == s[left] && (right < k ==> a[right] == s[right]);
      var child := if right == k || Cmp2(c, a[left], a[right]) then left else right;
      ChildrenOrdered(c, s, h, child);
      if Cmp2(c, e, a[child]) {
        StopsHere(c, s, h, child, e);
        break;
      }
      NoChildren(c, s[h := s[child]], child, e);
      MoveHole(s, h, child, e);
      HoleMovesDown(c, s, h, child, e);
      a[h] := a[child];
      s := s[h := s[child]];
      h := child;
    }
    HoleCloses(c, s, h, e);
    a[h] := e;
    assert a[..k] == s[h := e];
  }

  lemma HeapPrefix(c: Kind, s: seq<Entry>, n: nat)
    requires IsHeap(c, s) && n <= |s|
    ensures IsHeap(c, s[..n])
  {
  }

  /** heap_pop: drops the top of the heap a[..k]; a[..k-1] is the new heap. */
  method Pop(c: Kind, a: array<Entry>, k: nat)
    requires 1 <= k <= a.Length && IsHeap(c, a[..k])
    modifies a
    ensures IsHeap(c, a[..k - 1])
    ensures multiset(a[..k - 1]) == multiset(old(a[..k])) - multiset{old(a[0])}
    ensures a[k..] == old(a[k..])
  {
    hide Cmp2, IsHeap;
    ghost var was := a[..k];
    var e := a[k - 1];
    SiftDown(c, a, k, e);
    ghost var s := a[..k];
    LastForTop(was, s);
    HeapPrefix(c, s, k - 1);
    assert a[..k - 1] == s[..k - 1];
  }

  /** Moving the last entry to the top and cutting the end off is dropping the top. */
  lemma LastForTop<T>(was: seq<T>, s: seq<T>)
    requires |was| == |s| > 0 && s[|s| - 1] == was[|was| - 1]
    requires multiset(s) == multiset(was[0 := was[|was| - 1]])
    ensures multiset(s[..|s| - 1]) == multiset(was) - multiset{was[0]}
  {
    ReplaceAt(was, 0, was[|was| - 1]);
    DropLast(s);
  }

  /** heap_replace_top: drops the top of the heap a[..k] and adds `e`. */
  method ReplaceTop(c: Kind, a: array<Entry>, k: nat, e: Entry)
    requires 1 <= k <= a.Length && IsHeap(c, a[..k])
    modifies a
    ensures IsHeap(c, a[..k])
    ensures multiset(a[..k]) == multiset(old(a[..k])) - multiset{old(a[0])} + multiset{e}
    ensures a[k..] == old(a[k..])
  {
    hide Cmp2, IsHeap;
    ReplaceAt(a[..k], 0, e);
    SiftDown(c, a, k, e);
  }

  /** heap_push: a[..k-1] is a heap; on return a[..k] is one that also holds `e`. */
  method Push(c: Kind, a: array<Entry>, k: nat, e: Entry)
    requires 1 <= k <= a.Length && IsHeap(c, a[..k - 1])
    modifies a
    ensures IsHeap(c, a[..k])
    ensures multiset(a[..k]) == multiset(old(a[..k - 1])) + multiset{e}
    ensures a[k..] == old(a[k..])
  {
    hide Cmp2, IsHeap, HeapWithHole, AboveHole, BelowHole;
    var h := k - 1;
    ghost var s := a[..k];
    assert s[..h] == a[..h];
    assert s[h := e] == a[..h] + [e];
    HoleAtEnd(c, s, a[..h], e);
    while h > 0
      invariant h < k == |s| && s == a[..k]
      invariant HeapWithHole(c, s, h) && BelowHole(c, s, h, e)
      invariant multiset(s[h := e]) == multiset(old(a[..k - 1])) + multiset{e}
      invariant a[k..] == old(a[k..])
    {
      var father := (h - 1) / 2;
      assert Child(father, h);
      if !Cmp2(c, e, a[father]) {
        break;
      }
      MoveHole(s, h, father, e);
      HoleMovesUp(c, s, h, father, e);
      a[h] := a[father];
      s := s[h := s[father]];
      h := father;
    }
    FatherHolds(c, s, h, e);
    HoleCloses(c, s, h, e);
    a[h] := e;
    assert a[..k] == s[h := e];
  }
}
