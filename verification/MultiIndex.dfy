/** Best-first traversal of the cells of an inverted multi-index: two ascending lists of distances, and a
    cell for every pair, at the sum of its two distances. */
module MultiIndex {
  import opened Distinctness

  datatype Cell = Cell(i: nat, j: nat)

  datatype Grid = Grid(rows: seq<real>, cols: seq<real>) {
    ghost predicate Valid() {
      && |rows| == |cols| > 0
      && (forall i, j :: 0 <= i <= j < |rows| ==> rows[i] <= rows[j])
      && (forall i, j :: 0 <= i <= j < |cols| ==> cols[i] <= cols[j])
    }
  }

  predicate InGrid(g: Grid, c: Cell) {
    c.i < |g.rows| && c.j < |g.cols|
  }

  function D(g: Grid, c: Cell): real
    requires InGrid(g, c)
  {
    g.rows[c.i] + g.cols[c.j]
  }

  lemma Dominates(g: Grid, c: Cell, e: Cell)
    requires g.Valid() && InGrid(g, e) && c.i <= e.i && c.j <= e.j
    ensures InGrid(g, c) && D(g, c) <= D(g, e)
  {
  }

  /** `t` visits different cells, each time one that is nearest among those not visited yet. */
  ghost predicate BestFirst(g: Grid, t: seq<Cell>) {
    && Distinct(t)
    && (forall c :: c in t ==> InGrid(g, c))
    && forall s, c :: 0 <= s < |t| && InGrid(g, c) && c !in t[..s] ==> D(g, t[s]) <= D(g, c)
  }

  ghost predicate AllVisited(g: Grid, t: seq<Cell>) {
    forall c :: InGrid(g, c) ==> c in t
  }

  lemma BestFirstNext(g: Grid, t: seq<Cell>, c: Cell)
    requires BestFirst(g, t) && InGrid(g, c) && c !in t
    requires forall e :: InGrid(g, e) && e !in t ==> D(g, c) <= D(g, e)
    ensures BestFirst(g, t + [c])
  {
    var u := t + [c];
    forall s, e | 0 <= s < |u| && InGrid(g, e) && e !in u[..s]
      ensures InGrid(g, u[s]) && D(g, u[s]) <= D(g, e)
    {
      assert u[..s] == t[..s];
      if s == |t| { assert t[..s] == t; }
    }
  }

  /** Distances never fall along a traversal. */
  lemma Climbs(g: Grid, t: seq<Cell>, s: nat, u: nat)
    requires BestFirst(g, t) && s <= u < |t|
    ensures InGrid(g, t[s]) && InGrid(g, t[u]) && D(g, t[s]) <= D(g, t[u])
  {
    assert t[s] in t && t[u] in t;
    assert t[u] !in t[..s];
  }

  lemma NoFarther(g: Grid, t: seq<Cell>, u: seq<Cell>, s: nat)
    requires BestFirst(g, t) && BestFirst(g, u) && s < |t| && s < |u|
    ensures InGrid(g, t[s]) && InGrid(g, u[s]) && D(g, u[s]) <= D(g, t[s])
  {
    var c := SomethingNew(t[..s + 1], u[..s]);
    var r :| 0 <= r <= s && t[r] == c;
    Climbs(g, t, r, s);
    Climbs(g, u, s, s);
  }

  /** Any two best-first traversals meet the same distances in the same order. */
  lemma SameDistances(g: Grid, t: seq<Cell>, u: seq<Cell>, s: nat)
    requires BestFirst(g, t) && BestFirst(g, u) && s < |t| && s < |u|
    ensures InGrid(g, t[s]) && InGrid(g, u[s]) && D(g, t[s]) == D(g, u[s])
  {
    NoFarther(g, t, u, s);
    NoFarther(g, u, t, s);
  }

  /** By row, then by column. */
  predicate Earlier(c: Cell, e: Cell) {
    c.i < e.i || (c.i == e.i && c.j <= e.j)
  }

  /** Of equally far cells the one in the earlier row is visited first, and in a row the one in the earlier
      column. */
  ghost predicate TiesInOrder(g: Grid, t: seq<Cell>) {
    forall s, c :: 0 <= s < |t| && InGrid(g, t[s]) && InGrid(g, c) && c !in t[..s] && D(g, c) == D(g, t[s]) ==>
      Earlier(t[s], c)
  }

  lemma TiesNext(g: Grid, t: seq<Cell>, c: Cell)
    requires TiesInOrder(g, t) && InGrid(g, c)
    requires forall e :: InGrid(g, e) && e !in t && D(g, e) == D(g, c) ==> Earlier(c, e)
    ensures TiesInOrder(g, t + [c])
  {
    var u := t + [c];
    forall s, e | 0 <= s < |u| && InGrid(g, u[s]) && InGrid(g, e) && e !in u[..s] && D(g, e) == D(g, u[s])
      ensures Earlier(u[s], e)
    {
      assert u[..s] == t[..s];
      if s == |t| { assert t[..s] == t; }
    }
  }

  /** There is one best-first order with the ties in order. */
  lemma {:induction false} SameCells(g: Grid, t: seq<Cell>, u: seq<Cell>, n: nat)
    requires BestFirst(g, t) && BestFirst(g, u) && TiesInOrder(g, t) && TiesInOrder(g, u) && n <= |t| && n <= |u|
    ensures t[..n] == u[..n]
  {
    if n > 0 {
      var m := n - 1;
      SameCells(g, t, u, m);
      SameDistances(g, t, u, m);
      Climbs(g, t, m, m);
      Climbs(g, u, m, m);
      assert t[m] !in u[..m] && u[m] !in t[..m];
      assert Earlier(t[m], u[m]) && Earlier(u[m], t[m]);
      assert t[..n] == t[..m] + [t[m]] && u[..n] == u[..m] + [u[m]];
    }
  }

  ghost function Left(g: Grid, t: seq<Cell>): set<Cell> {
    set i: nat, j: nat | i < |g.rows| && j < |g.cols| && Cell(i, j) !in t :: Cell(i, j)
  }

  /** Every visit leaves fewer cells. */
  lemma FewerLeft(g: Grid, t: seq<Cell>, c: Cell)
    requires InGrid(g, c) && c !in t
    ensures Left(g, t + [c]) < Left(g, t)
  {
    assert c in Left(g, t) && c !in Left(g, t + [c]);
  }
}
