/** `dynamic_activate` of faiss/IndexSuCo.cpp: one pointer per active row of cells, the nearest row
    advancing each time. */
module DynamicActivation {
  import opened Distinctness
  import opened MultiIndex
  import opened Selection
  import opened Activation

  /** An active row: the distance of its next cell, FLT_MAX once it has none, and its column. */
  datatype ActivatedEntry = ActivatedEntry(dist: real, ptr: nat)

  // ---------------------------------------------------------------------------------------------
  // The state against the cells visited
  // ---------------------------------------------------------------------------------------------

  predicate Live(e: ActivatedEntry) {
    e.dist < FLT_MAX
  }

  /** How many cells of a row have been visited. */
  function Reach(nc: nat, e: ActivatedEntry): nat {
    if Live(e) then e.ptr else nc
  }

  function Exhausted(active: seq<ActivatedEntry>): (n: nat)
    ensures n <= |active|
  {
    if active == [] then 0
    else Exhausted(active[..|active| - 1]) + if Live(active[|active| - 1]) then 0 else 1
  }

  ghost predicate Small(g: Grid) {
    g.Valid() && forall c :: InGrid(g, c) ==> D(g, c) < FLT_MAX
  }

  ghost predicate RowAt(g: Grid, active: seq<ActivatedEntry>, r: nat)
    requires r < |active|
  {
    Live(active[r]) ==> InGrid(g, Cell(r, active[r].ptr)) && active[r].dist == D(g, Cell(r, active[r].ptr))
  }

  /** The rows are a faithful record of `t`, and the next row is added as soon as the last one moves. */
  ghost predicate Tracks(g: Grid, active: seq<ActivatedEntry>, t: seq<Cell>) {
    var nc := |g.cols|;
    && 1 <= |active| <= |g.rows|
    && (forall r :: 0 <= r < |active| ==> RowAt(g, active, r))
    && (|active| == |g.rows| || Reach(nc, active[|active| - 1]) == 0)
    && forall c :: c in t <==> c.i < |active| && c.j < Reach(nc, active[c.i])
  }

  lemma StartTracks(g: Grid)
    requires Small(g)
    ensures Tracks(g, [ActivatedEntry(D(g, Cell(0, 0)), 0)], [])
  {
  }

  /** The row the scan picks: nearest, and the first of equals. */
  ghost predicate Picked(active: seq<ActivatedEntry>, pos: nat) {
    && pos < |active|
    && (forall z :: 0 <= z < |active| ==> active[pos].dist <= active[z].dist)
    && forall z :: 0 <= z < pos ==> active[pos].dist < active[z].dist
  }

  method PickNearest(active: seq<ActivatedEntry>) returns (pos: nat)
    requires active != []
    ensures Picked(active, pos)
  {
    pos := 0;
    var best := active[0].dist;
    for z := 1 to |active|
      invariant pos < z && best == active[pos].dist
      invariant forall y :: 0 <= y < z ==> best <= active[y].dist
      invariant forall y :: 0 <= y < pos ==> best < active[y].dist
    {
      if active[z].dist < best {
        best := active[z].dist;
        pos := z;
      }
    }
  }

  lemma {:induction false} SomeLive(active: seq<ActivatedEntry>)
    requires Exhausted(active) < |active|
    ensures exists r :: 0 <= r < |active| && Live(active[r])
  {
    var n := |active| - 1;
    if !Live(active[n]) {
      SomeLive(active[..n]);
      var r :| 0 <= r < n && Live(active[..n][r]);
      assert Live(active[r]);
    }
  }

  /** The picked row's next cell is nearest among all cells not visited, in active rows or not, and of
      equally near ones it comes first. */
  lemma PickedIsNearest(g: Grid, active: seq<ActivatedEntry>, t: seq<Cell>, pos: nat)
    requires Small(g) && Tracks(g, active, t) && Picked(active, pos) && Exhausted(active) < |active|
    ensures Live(active[pos])
    ensures var c := Cell(pos, active[pos].ptr);
            && InGrid(g, c) && c !in t
            && (forall e :: InGrid(g, e) && e !in t ==> D(g, c) <= D(g, e))
            && (forall e :: InGrid(g, e) && e !in t && D(g, e) == D(g, c) ==> Earlier(c, e))
  {
    hide Exhausted, D;
    SomeLive(active);
    var c := Cell(pos, active[pos].ptr);
    assert RowAt(g, active, pos);
    forall e | InGrid(g, e) && e !in t
      ensures D(g, c) <= D(g, e)
      ensures D(g, e) == D(g, c) ==> Earlier(c, e)
    {
      var r := if e.i < |active| then e.i else |active| - 1;
      assert RowAt(g, active, r);
      assert Reach(|g.cols|, active[r]) <= e.j || r < e.i;
      assert Live(active[r]);
      Dominates(g, Cell(r, active[r].ptr), e);
    }
  }

  // ---------------------------------------------------------------------------------------------
  // One step
  // ---------------------------------------------------------------------------------------------

  /** The row after the last one joins when the last one is visited for the first time. */
  function WithNextRow(g: Grid, active: seq<ActivatedEntry>, pos: nat): seq<ActivatedEntry>
    requires |g.rows| == |g.cols| > 0 && pos < |active|
  {
    if active[pos].ptr == 0 && pos + 1 < |g.cols| && pos + 1 == |active|
    then active + [ActivatedEntry(D(g, Cell(pos + 1, 0)), 0)]
    else active
  }

  /** The picked row moves to its next cell, or is marked exhausted. */
  function Advanced(g: Grid, active: seq<ActivatedEntry>, pos: nat): seq<ActivatedEntry>
    requires pos < |active| && pos < |g.rows|
  {
    var e := active[pos];
    if e.ptr + 1 < |g.cols|
    then active[pos := ActivatedEntry(D(g, Cell(pos, e.ptr + 1)), e.ptr + 1)]
    else active[pos := ActivatedEntry(FLT_MAX, e.ptr)]
  }

  function Step(g: Grid, active: seq<ActivatedEntry>, pos: nat): (r: seq<ActivatedEntry>)
    requires |g.rows| == |g.cols| > 0 && pos < |active| <= |g.rows|
    ensures |active| <= |r|
  {
    Advanced(g, WithNextRow(g, active, pos), pos)
  }

  lemma StepTracks(g: Grid, active: seq<ActivatedEntry>, t: seq<Cell>, pos: nat)
    requires Small(g) && Tracks(g, active, t) && pos < |active| && Live(active[pos])
    ensures Tracks(g, Step(g, active, pos), t + [Cell(pos, active[pos].ptr)])
  {
    hide D;
    var next, c := Step(g, active, pos), Cell(pos, active[pos].ptr);
    var nc := |g.cols|;
    assert RowAt(g, active, pos);
    forall r | 0 <= r < |next| ensures RowAt(g, next, r) {
      if r < |active| { assert RowAt(g, active, r); }
    }
    assert Reach(nc, next[pos]) == c.j + 1 by {
      if c.j + 1 < nc { assert InGrid(g, Cell(pos, c.j + 1)); }
    }
    if |next| > |active| {
      assert InGrid(g, Cell(pos + 1, 0));
      assert Reach(nc, next[|active|]) == 0;
    }
    forall e ensures e in t + [c] <==> e.i < |next| && e.j < Reach(nc, next[e.i]) {
    }
  }

  lemma {:induction false} ExhaustedUpdate(active: seq<ActivatedEntry>, pos: nat, e: ActivatedEntry)
    requires pos < |active| && Live(active[pos])
    ensures Exhausted(active[pos := e]) == Exhausted(active) + if Live(e) then 0 else 1
  {
    var n := |active| - 1;
    if pos == n {
      assert active[pos := e][..n] == active[..n];
    } else {
      ExhaustedUpdate(active[..n], pos, e);
      assert active[pos := e][..n] == active[..n][pos := e];
    }
  }

  lemma {:induction false} AllExhausted(active: seq<ActivatedEntry>, r: nat)
    requires Exhausted(active) == |active| && r < |active|
    ensures !Live(active[r])
  {
    if r < |active| - 1 {
      AllExhausted(active[..|active| - 1], r);
    }
  }

  lemma DoneMeansAll(g: Grid, active: seq<ActivatedEntry>, t: seq<Cell>)
    requires Small(g) && Tracks(g, active, t) && Exhausted(active) == |active|
    ensures AllVisited(g, t)
  {
    hide Exhausted, RowAt;
    forall c | InGrid(g, c) ensures c in t {
      AllExhausted(active, |active| - 1);
      if c.i < |active| { AllExhausted(active, c.i); }
    }
  }

  // ---------------------------------------------------------------------------------------------
  // Scores
  // ---------------------------------------------------------------------------------------------

  /** uint8 increment */
  function Wrap8(x: int): int {
    x % 0x100
  }

  /** A bucket is read and the score of every vector in it goes up by one. */
  method CountBucket(lst: seq<nat>, sc: array<int>)
    requires Distinct(lst) && forall v :: v in lst ==> v < sc.Length && 0 <= sc[v] < 255
    modifies sc
    ensures forall v :: 0 <= v < sc.Length ==> sc[v] == old(sc[v]) + if v in lst then 1 else 0
  {
    for z := 0 to |lst|
      invariant forall v :: 0 <= v < sc.Length ==> sc[v] == old(sc[v]) + if v in lst[..z] then 1 else 0
    {
      assert lst[z] in lst && lst[z] !in lst[..z];
      assert lst[..z + 1] == lst[..z] + [lst[z]];
      sc[lst[z]] := Wrap8(sc[lst[z]] + 1);
    }
    assert lst[..|lst|] == lst;
  }

  /** Scores after the buckets of `t`, given the scores before. */
  ghost predicate Counted(sub: Subspace, home: seq<nat>, before: seq<int>, after: seq<int>, t: seq<Cell>)
    requires sub.Valid() && Inside(sub, t)
  {
    && |before| == |after| == |home|
    && forall v :: 0 <= v < |home| ==> after[v] == before[v] + if Seen(sub, t, home[v]) then 1 else 0
  }

  ghost predicate Room(sc: seq<int>) {
    forall v :: 0 <= v < |sc| ==> 0 <= sc[v] < 255
  }

  /** Visiting one more cell: its bucket is counted and its size added to what has been retrieved. */
  method Visit(sub: Subspace, c: Cell, sc: array<int>,
               ghost home: seq<nat>, ghost t: seq<Cell>, ghost before: seq<int>) returns (size: nat)
    requires sub.Valid() && Inside(sub, t) && c.i < sub.nc && c.j < sub.nc && c !in t
    requires Filed(sub.lists, home) && Room(before) && Counted(sub, home, before, sc[..], t)
    modifies sc
    ensures Inside(sub, t + [c]) && Counted(sub, home, before, sc[..], t + [c])
    ensures Retrieved(sub, t + [c]) == Retrieved(sub, t) + size
  {
    hide Seen, Retrieved, BucketOf;
    var lst := sub.lists[BucketOf(sub, c)];
    ghost var was := sc[..];
    SeenNext(sub, t, c, 0);
    forall v | v in lst ensures v < sc.Length && 0 <= sc[v] < 255 {
      assert home[v] == BucketOf(sub, c);
      assert was[v] == before[v];
    }
    CountBucket(lst, sc);
    forall v | 0 <= v < |home|
      ensures sc[..][v] == before[v] + if Seen(sub, t + [c], home[v]) then 1 else 0
    {
      SeenNext(sub, t, c, home[v]);
      assert was[v] == before[v] + if Seen(sub, t, home[v]) then 1 else 0;
    }
    size := |lst|;
  }

  // ---------------------------------------------------------------------------------------------
  // The traversal
  // ---------------------------------------------------------------------------------------------

  lemma GridIsSmall(sub: Subspace)
    requires sub.Valid()
    ensures Small(GridOf(sub))
  {
    GridFacts(sub);
  }

  lemma CellDistance(sub: Subspace, i: nat, j: nat)
    requires sub.Valid() && i < sub.nc && j < sub.nc
    ensures InGrid(GridOf(sub), Cell(i, j))
    ensures D(GridOf(sub), Cell(i, j)) == sub.dists1[sub.idx1[i]] + sub.dists2[sub.idx2[j]] < FLT_MAX
  {
  }

  lemma RowBounds(sub: Subspace, active: seq<ActivatedEntry>, t: seq<Cell>, pos: nat)
    requires sub.Valid() && Tracks(GridOf(sub), active, t) && pos < |active| && Live(active[pos])
    ensures |GridOf(sub).rows| == |GridOf(sub).cols| == sub.nc
    ensures |active| <= sub.nc && active[pos].ptr < sub.nc
  {
    hide Exhausted;
    assert RowAt(GridOf(sub), active, pos);
  }

  lemma ExhaustedPush(active: seq<ActivatedEntry>, e: ActivatedEntry)
    requires Live(e)
    ensures Exhausted(active + [e]) == Exhausted(active)
  {
    assert (active + [e])[..|active|] == active;
  }

  /** The end of an iteration that goes on: the next row pushed, this row advanced or exhausted. */
  method Move(sub: Subspace, active: seq<ActivatedEntry>, exhausted: nat, pos: nat, ghost t: seq<Cell>)
    returns (next: seq<ActivatedEntry>, exhaustedNow: nat)
    requires sub.Valid() && Tracks(GridOf(sub), active, t) && exhausted == Exhausted(active)
    requires pos < |active| && Live(active[pos])
    ensures Tracks(GridOf(sub), next, t + [Cell(pos, active[pos].ptr)])
    ensures exhaustedNow == Exhausted(next)
  {
    hide Tracks, GridOf, Exhausted;
    ghost var g := GridOf(sub);
    RowBounds(sub, active, t, pos);
    GridIsSmall(sub);
    StepTracks(g, active, t, pos);
    next, exhaustedNow := active, exhausted;
    if next[pos].ptr == 0 && pos + 1 < sub.nc && pos + 1 == |next| {
      CellDistance(sub, pos + 1, 0);
      ExhaustedPush(next, ActivatedEntry(sub.dists1[sub.idx1[pos + 1]] + sub.dists2[sub.idx2[0]], 0));
      next := next + [ActivatedEntry(sub.dists1[sub.idx1[pos + 1]] + sub.dists2[sub.idx2[0]], 0)];
    }
    assert next == WithNextRow(g, active, pos);
    var ptr := next[pos].ptr;
    if ptr + 1 < sub.nc {
      CellDistance(sub, pos, ptr + 1);
      ExhaustedUpdate(next, pos, ActivatedEntry(sub.dists1[sub.idx1[pos]] + sub.dists2[sub.idx2[ptr + 1]], ptr + 1));
      next := next[pos := ActivatedEntry(sub.dists1[sub.idx1[pos]] + sub.dists2[sub.idx2[ptr + 1]], ptr + 1)];
    } else {
      ExhaustedUpdate(next, pos, ActivatedEntry(FLT_MAX, ptr));
      next := next[pos := ActivatedEntry(FLT_MAX, ptr)];
      exhaustedNow := exhaustedNow + 1;
    }
  }

  /** `dynamic_activate`: cells are visited best-first until `cn` vectors are retrieved or no cell is
      left, and every vector of a visited cell scores one. */
  method DynamicActivate(sub: Subspace, cn: nat, sc: array<int>, ghost home: seq<nat>) returns (ghost t: seq<Cell>)
    requires sub.Valid() && Filed(sub.lists, home) && sc.Length == |home| && Room(sc[..])
    modifies sc
    ensures Activated(sub, t, cn)
    ensures Counted(sub, home, old(sc[..]), sc[..], t)
  {
    hide Tracks, GridOf, Exhausted, Counted, Retrieved, Hungry, BestFirst, TiesInOrder, Stopped, Room, Picked, D, Seen,
      Filed;
    ghost var before, g := sc[..], GridOf(sub);
    t := [];
    Nothing(sub, home, sc[..], cn);
    CellDistance(sub, 0, 0);
    var active := [ActivatedEntry(sub.dists1[sub.idx1[0]] + sub.dists2[sub.idx2[0]], 0)];
    var retrieved, exhausted := 0, 0;
    while exhausted < |active|
      invariant Inside(sub, t) && Tracks(g, active, t) && Hungry(sub, t, cn)
      invariant BestFirst(g, t) && TiesInOrder(g, t)
      invariant exhausted == Exhausted(active) && retrieved == Retrieved(sub, t)
      invariant Counted(sub, home, before, sc[..], t)
      decreases Left(g, t)
    {
      GridIsSmall(sub);
      var pos := PickNearest(active);
      PickedIsNearest(g, active, t, pos);
      RowBounds(sub, active, t, pos);
      var c := Cell(pos, active[pos].ptr);
      BestFirstNext(g, t, c);
      TiesNext(g, t, c);
      FewerLeft(g, t, c);
      StopsHere(sub, t, c, cn);
      var size := Visit(sub, c, sc, home, t, before);
      retrieved := retrieved + size;
      if retrieved >= cn {
        t := t + [c];
        return;
      }
      active, exhausted := Move(sub, active, exhausted, pos, t);
      t := t + [c];
    }
    GridIsSmall(sub);
    DoneMeansAll(g, active, t);
    NothingLeft(sub, t, cn);
  }

  lemma Nothing(sub: Subspace, home: seq<nat>, sc: seq<int>, cn: nat)
    requires sub.Valid() && |sc| == |home|
    ensures Inside(sub, []) && Retrieved(sub, []) == 0 && Hungry(sub, [], cn)
    ensures BestFirst(GridOf(sub), []) && TiesInOrder(GridOf(sub), [])
    ensures Counted(sub, home, sc, sc, [])
    ensures var first := ActivatedEntry(sub.dists1[sub.idx1[0]] + sub.dists2[sub.idx2[0]], 0);
            Tracks(GridOf(sub), [first], []) && Exhausted([first]) == 0
  {
    var first := ActivatedEntry(sub.dists1[sub.idx1[0]] + sub.dists2[sub.idx2[0]], 0);
    CellDistance(sub, 0, 0);
    GridIsSmall(sub);
    StartTracks(GridOf(sub));
    ExhaustedPush([], first);
    assert [] + [first] == [first];
  }
}
