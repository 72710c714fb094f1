/** `dynamic_activate_multisequence` of faiss/IndexSuCo.cpp: a priority queue of cells, each pushed when a
    neighbour below or before it has been taken. */
module Multisequence {
  import opened MultiIndex
  import opened Activation
  import opened DynamicActivation

  // ---------------------------------------------------------------------------------------------
  // The priority queue
  // ---------------------------------------------------------------------------------------------

  /** A queue entry, the tuple (distance, i, j). */
  datatype Item = Item(dist: real, cell: Cell)

  /** `std::greater` on tuples: smallest distance on top, then smallest i, then smallest j. */
  predicate Before(a: Item, b: Item) {
    || a.dist < b.dist
    || (a.dist == b.dist && (a.cell.i < b.cell.i || (a.cell.i == b.cell.i && a.cell.j <= b.cell.j)))
  }

  ghost predicate IsTop(q: set<Item>, top: Item) {
    top in q && forall e :: e in q ==> Before(top, e)
  }

  /** The library queue, its content as a set: no cell is ever pushed twice. */
  method Pop(q: set<Item>) returns (top: Item, rest: set<Item>)
    requires q != {}
    ensures IsTop(q, top) && rest == q - {top}
  {
    top :| top in q;
    var left := q - {top};
    while left != {}
      invariant left <= q && top in q
      invariant forall e :: e in q && e !in left ==> Before(top, e)
      decreases |left|
    {
      var e :| e in left;
      if !Before(top, e) {
        top := e;
      }
      left := left - {e};
    }
    rest := q - {top};
  }

  // ---------------------------------------------------------------------------------------------
  // The queue against the cells visited
  // ---------------------------------------------------------------------------------------------

  ghost predicate Queued(q: set<Item>, c: Cell) {
    exists e :: e in q && e.cell == c
  }

  /** Cells pushed so far: `pushed`.  Of those, the ones taken are in `t` and the others in the queue;
      every neighbour of a taken cell has been pushed. */
  ghost predicate Frontier(g: Grid, q: set<Item>, pushed: set<Cell>, t: seq<Cell>) {
    && (forall e :: e in q ==> InGrid(g, e.cell) && e.dist == D(g, e.cell))
    && (forall c :: c in pushed <==> c in t || Queued(q, c))
    && (forall c :: c in t ==> InGrid(g, c) && !Queued(q, c))
    && Cell(0, 0) in pushed
    && (forall c :: c in t && c.i + 1 < |g.rows| ==> Cell(c.i + 1, c.j) in pushed)
    && (forall c :: c in t && c.j + 1 < |g.cols| ==> Cell(c.i, c.j + 1) in pushed)
  }

  /** Below every cell not taken there is a queued cell: walk towards (0, 0) until one is pushed. */
  lemma {:induction false} QueuedBelow(g: Grid, q: set<Item>, pushed: set<Cell>, t: seq<Cell>, c: Cell) returns (e: Item)
    requires Frontier(g, q, pushed, t) && InGrid(g, c) && c !in t
    ensures e in q && e.cell.i <= c.i && e.cell.j <= c.j
    decreases c.i + c.j
  {
    if c in pushed {
      e :| e in q && e.cell == c;
    } else if c.i > 0 {
      var p := Cell(c.i - 1, c.j);
      assert Cell(p.i + 1, p.j) == c;
      e := QueuedBelow(g, q, pushed, t, p);
    } else {
      var p := Cell(c.i, c.j - 1);
      assert Cell(p.i, p.j + 1) == c;
      e := QueuedBelow(g, q, pushed, t, p);
    }
  }

  lemma TopIsNearest(g: Grid, q: set<Item>, pushed: set<Cell>, t: seq<Cell>, top: Item)
    requires g.Valid() && Frontier(g, q, pushed, t) && IsTop(q, top)
    ensures InGrid(g, top.cell) && top.cell !in t
    ensures forall c :: InGrid(g, c) && c !in t ==> D(g, top.cell) <= D(g, c)
    ensures forall c :: InGrid(g, c) && c !in t && D(g, c) == D(g, top.cell) ==> Earlier(top.cell, c)
  {
    forall c | InGrid(g, c) && c !in t
      ensures D(g, top.cell) <= D(g, c)
      ensures D(g, c) == D(g, top.cell) ==> Earlier(top.cell, c)
    {
      var e := QueuedBelow(g, q, pushed, t, c);
      Dominates(g, e.cell, c);
    }
  }

  lemma EmptyMeansAll(g: Grid, pushed: set<Cell>, t: seq<Cell>)
    requires Frontier(g, {}, pushed, t)
    ensures AllVisited(g, t)
  {
    if c :| InGrid(g, c) && c !in t {
      var e := QueuedBelow(g, {}, pushed, t, c);
    }
  }

  /** The queue and the marks between taking a cell and pushing its neighbours: `t` already holds the
      taken cell `c`, whose neighbours may still be missing. */
  ghost predicate Opening(g: Grid, q: set<Item>, pushed: set<Cell>, t: seq<Cell>, c: Cell) {
    && (forall e :: e in q ==> InGrid(g, e.cell) && e.dist == D(g, e.cell))
    && (forall e :: e in pushed <==> e in t || Queued(q, e))
    && (forall e :: e in t ==> InGrid(g, e) && !Queued(q, e))
    && Cell(0, 0) in pushed && c in t
    && (forall e :: e in t && e != c && e.i + 1 < |g.rows| ==> Cell(e.i + 1, e.j) in pushed)
    && (forall e :: e in t && e != c && e.j + 1 < |g.cols| ==> Cell(e.i, e.j + 1) in pushed)
  }

  lemma TakeTop(g: Grid, q: set<Item>, pushed: set<Cell>, t: seq<Cell>, top: Item)
    requires Frontier(g, q, pushed, t) && IsTop(q, top)
    ensures Opening(g, q - {top}, pushed, t + [top.cell], top.cell)
  {
    var rest, u := q - {top}, t + [top.cell];
    forall e ensures e in u <==> e in t || e == top.cell {
    }
    forall e ensures Queued(q, e) <==> Queued(rest, e) || e == top.cell {
      if Queued(q, e) && e != top.cell {
        var x :| x in q && x.cell == e;
        assert x in rest;
      }
    }
    assert !Queued(rest, top.cell);
  }

  lemma PushOne(g: Grid, q: set<Item>, pushed: set<Cell>, t: seq<Cell>, c: Cell, e: Item)
    requires Opening(g, q, pushed, t, c) && e.cell !in pushed
    requires InGrid(g, e.cell) && e.dist == D(g, e.cell)
    ensures Opening(g, q + {e}, pushed + {e.cell}, t, c)
  {
    forall x ensures Queued(q + {e}, x) <==> Queued(q, x) || x == e.cell {
      if Queued(q, x) {
        var y :| y in q && y.cell == x;
        assert y in q + {e};
      }
      assert e in q + {e};
    }
  }

  lemma OpeningCloses(g: Grid, q: set<Item>, pushed: set<Cell>, t: seq<Cell>, c: Cell)
    requires Opening(g, q, pushed, t, c)
    requires c.i + 1 < |g.rows| ==> Cell(c.i + 1, c.j) in pushed
    requires c.j + 1 < |g.cols| ==> Cell(c.i, c.j + 1) in pushed
    ensures Frontier(g, q, pushed, t)
  {
  }

  // ---------------------------------------------------------------------------------------------
  // The traversal
  // ---------------------------------------------------------------------------------------------

  /** The cells marked in the visited bitset. */
  ghost function Marked(visited: array2<bool>): set<Cell>
    reads visited
  {
    set i: nat, j: nat | i < visited.Length0 && j < visited.Length1 && visited[i, j] :: Cell(i, j)
  }

  /** Pushes a neighbour unless it has been pushed before. */
  method PushOnce(sub: Subspace, i: nat, j: nat, visited: array2<bool>, q: set<Item>,
                  ghost t: seq<Cell>, ghost c: Cell) returns (next: set<Item>)
    requires sub.Valid() && i < sub.nc && j < sub.nc
    requires visited.Length0 == visited.Length1 == sub.nc
    requires Opening(GridOf(sub), q, Marked(visited), t, c)
    modifies visited
    ensures Opening(GridOf(sub), next, Marked(visited), t, c)
    ensures Marked(visited) == old(Marked(visited)) + {Cell(i, j)}
  {
    hide Opening, GridOf, D;
    next := q;
    ghost var pushed := Marked(visited);
    if !visited[i, j] {
      visited[i, j] := true;
      CellDistance(sub, i, j);
      var e := Item(sub.dists1[sub.idx1[i]] + sub.dists2[sub.idx2[j]], Cell(i, j));
      PushOne(GridOf(sub), q, pushed, t, c, e);
      assert Marked(visited) == pushed + {Cell(i, j)};
      next := q + {e};
    }
  }

  /** The priority-queue traversal meets the same contract as the row pointers. */
  method DynamicActivateMultisequence(sub: Subspace, cn: nat, sc: array<int>, ghost home: seq<nat>)
    returns (ghost t: seq<Cell>)
    requires sub.Valid() && Filed(sub.lists, home) && sc.Length == |home| && Room(sc[..])
    modifies sc
    ensures Activated(sub, t, cn)
    ensures Counted(sub, home, old(sc[..]), sc[..], t)
  {
    hide GridOf, Counted, Retrieved, Hungry, BestFirst, TiesInOrder, Stopped, Room, D, Seen, Filed, Tracks, Frontier, Opening, IsTop,
      Marked;
    ghost var before, g := sc[..], GridOf(sub);
    var visited := new bool[sub.nc, sub.nc]((_, _) => false);
    t := [];
    Nothing(sub, home, sc[..], cn);
    var heap := {Item(sub.dists1[sub.idx1[0]] + sub.dists2[sub.idx2[0]], Cell(0, 0))};
    visited[0, 0] := true;
    StartsWithCorner(sub, visited, heap);
    var retrieved := 0;
    while heap != {}
      invariant fresh(visited)
      invariant Inside(sub, t) && BestFirst(g, t) && TiesInOrder(g, t) && Hungry(sub, t, cn)
      invariant Frontier(g, heap, Marked(visited), t)
      invariant retrieved == Retrieved(sub, t)
      invariant Counted(sub, home, before, sc[..], t)
      decreases Left(g, t)
    {
      GridFacts(sub);
      ghost var was := heap;
      var top;
      top, heap := Pop(heap);
      var c := top.cell;
      TopIsNearest(g, was, Marked(visited), t, top);
      TakeTop(g, was, Marked(visited), t, top);
      BestFirstNext(g, t, c);
      TiesNext(g, t, c);
      FewerLeft(g, t, c);
      StopsHere(sub, t, c, cn);
      var size := Visit(sub, c, sc, home, t, before);
      retrieved := retrieved + size;
      t := t + [c];
      if retrieved >= cn {
        return;
      }
      if c.i + 1 < sub.nc {
        heap := PushOnce(sub, c.i + 1, c.j, visited, heap, t, c);
      }
      if c.j + 1 < sub.nc {
        heap := PushOnce(sub, c.i, c.j + 1, visited, heap, t, c);
      }
      OpeningCloses(g, heap, Marked(visited), t, c);
    }
    EmptyMeansAll(g, Marked(visited), t);
    NothingLeft(sub, t, cn);
  }

  lemma StartsWithCorner(sub: Subspace, visited: array2<bool>, heap: set<Item>)
    requires sub.Valid() && visited.Length0 == visited.Length1 == sub.nc
    requires forall i, j :: 0 <= i < sub.nc && 0 <= j < sub.nc ==> (visited[i, j] <==> i == 0 && j == 0)
    requires heap == {Item(sub.dists1[sub.idx1[0]] + sub.dists2[sub.idx2[0]], Cell(0, 0))}
    ensures Frontier(GridOf(sub), heap, Marked(visited), [])
  {
    CellDistance(sub, 0, 0);
    assert Marked(visited) == {Cell(0, 0)};
    forall c ensures Queued(heap, c) <==> c == Cell(0, 0) {
      var only := Item(sub.dists1[sub.idx1[0]] + sub.dists2[sub.idx2[0]], Cell(0, 0));
      assert only in heap;
    }
  }
}
