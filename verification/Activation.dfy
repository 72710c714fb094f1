/** Collision counting over an inverted multi-index (faiss/IndexSuCo.cpp): the two traversals of the cells
    of one subspace, by a row pointer per first-half centroid and by a priority queue. */
module Activation {
  import opened Distinctness
  import opened MultiIndex
  import opened Selection

  // ---------------------------------------------------------------------------------------------
  // One subspace
  // ---------------------------------------------------------------------------------------------

  /** A query's distances to the centroids of both halves, the centroids by ascending distance, and the
      nc * nc buckets of vector numbers. */
  datatype Subspace = Subspace(nc: nat, dists1: seq<real>, idx1: seq<nat>,
                               dists2: seq<real>, idx2: seq<nat>, lists: seq<seq<nat>>) {
    ghost predicate Valid() {
      && nc > 0 && |dists1| == |dists2| == nc
      && SortedIndex(dists1, idx1) && SortedIndex(dists2, idx2)
      && |lists| == Flat(nc, nc, 0)
      && (forall i, j :: 0 <= i < nc && 0 <= j < nc ==> dists1[i] + dists2[j] < FLT_MAX)
    }
  }

  /** The outcome of `std::sort` on positions. */
  ghost predicate SortedIndex(d: seq<real>, idx: seq<nat>) {
    && |idx| == |d| && Distinct(idx)
    && (forall i :: 0 <= i < |idx| ==> idx[i] < |d|)
    && forall i, j :: 0 <= i <= j < |idx| ==> d[idx[i]] <= d[idx[j]]
  }

  /** The bucket of a pair of centroids. */
  function Flat(nc: nat, c1: nat, c2: nat): nat {
    c1 * nc + c2
  }

  lemma RowBelow(nc: nat, c1: nat, c2: nat, e1: nat, e2: nat)
    requires c1 < e1 && c2 < nc
    ensures Flat(nc, c1, c2) < Flat(nc, e1, e2)
  {
    var apart: nat := e1 - c1 - 1;
    assert e1 * nc == c1 * nc + apart * nc + nc;
  }

  lemma FlatInjective(nc: nat, c1: nat, c2: nat, e1: nat, e2: nat)
    requires c2 < nc && e2 < nc && Flat(nc, c1, c2) == Flat(nc, e1, e2)
    ensures c1 == e1 && c2 == e2
  {
    if c1 < e1 {
      RowBelow(nc, c1, c2, e1, e2);
    } else if e1 < c1 {
      RowBelow(nc, e1, e2, c1, c2);
    }
  }

  /** The vectors are filed: vector v sits in bucket home[v], once, and nowhere else. */
  ghost predicate Filed(lists: seq<seq<nat>>, home: seq<nat>) {
    forall b :: 0 <= b < |lists| ==>
      Distinct(lists[b]) && forall v: nat :: v in lists[b] <==> v < |home| && home[v] == b
  }

  ghost function GridOf(sub: Subspace): Grid
    requires sub.Valid()
  {
    Grid(seq(sub.nc, i requires 0 <= i < sub.nc => sub.dists1[sub.idx1[i]]),
         seq(sub.nc, j requires 0 <= j < sub.nc => sub.dists2[sub.idx2[j]]))
  }

  lemma GridFacts(sub: Subspace)
    requires sub.Valid()
    ensures GridOf(sub).Valid() && |GridOf(sub).rows| == |GridOf(sub).cols| == sub.nc
    ensures forall c :: InGrid(GridOf(sub), c) <==> c.i < sub.nc && c.j < sub.nc
    ensures forall c :: InGrid(GridOf(sub), c) ==>
              D(GridOf(sub), c) == sub.dists1[sub.idx1[c.i]] + sub.dists2[sub.idx2[c.j]]
  {
  }

  function BucketOf(sub: Subspace, c: Cell): (b: nat)
    requires sub.Valid() && c.i < sub.nc && c.j < sub.nc
    ensures b < |sub.lists|
  {
    RowBelow(sub.nc, sub.idx1[c.i], sub.idx2[c.j], sub.nc, 0);
    Flat(sub.nc, sub.idx1[c.i], sub.idx2[c.j])
  }

  lemma BucketInjective(sub: Subspace, c: Cell, e: Cell)
    requires sub.Valid() && c.i < sub.nc && c.j < sub.nc && e.i < sub.nc && e.j < sub.nc
    requires BucketOf(sub, c) == BucketOf(sub, e)
    ensures c == e
  {
    hide Flat;
    FlatInjective(sub.nc, sub.idx1[c.i], sub.idx2[c.j], sub.idx1[e.i], sub.idx2[e.j]);
  }

  /** A cell's bucket is the one that filling the index uses for the two centroids the cell stands for:
      row by first-half centroid, column by second-half centroid. */
  lemma BucketHoldsCell(sub: Subspace, c: Cell, a1: nat, a2: nat)
    requires sub.Valid() && c.i < sub.nc && c.j < sub.nc && a1 < sub.nc && a2 < sub.nc
    ensures BucketOf(sub, c) == a1 * sub.nc + a2 <==> a1 == sub.idx1[c.i] && a2 == sub.idx2[c.j]
  {
    if BucketOf(sub, c) == a1 * sub.nc + a2 {
      FlatInjective(sub.nc, sub.idx1[c.i], sub.idx2[c.j], a1, a2);
    }
  }

  // ---------------------------------------------------------------------------------------------
  // What a traversal has retrieved
  // ---------------------------------------------------------------------------------------------

  ghost predicate Inside(sub: Subspace, t: seq<Cell>) {
    forall c :: c in t ==> c.i < sub.nc && c.j < sub.nc
  }

  /** Bucket `b` has been visited. */
  ghost predicate Seen(sub: Subspace, t: seq<Cell>, b: nat)
    requires sub.Valid() && Inside(sub, t)
  {
    exists c :: c in t && BucketOf(sub, c) == b
  }

  ghost function Retrieved(sub: Subspace, t: seq<Cell>): nat
    requires sub.Valid() && Inside(sub, t)
  {
    if t == [] then 0
    else
      assert t[|t| - 1] in t;
      Retrieved(sub, t[..|t| - 1]) + |sub.lists[BucketOf(sub, t[|t| - 1])]|
  }

  /** Where a traversal stops: at the first cell that brings the retrieved vectors to `cn`, or with
      every cell visited. */
  ghost predicate Stopped(sub: Subspace, t: seq<Cell>, cn: nat)
    requires sub.Valid() && Inside(sub, t)
  {
    && t != []
    && (forall s :: 0 < s < |t| ==> Retrieved(sub, t[..s]) < cn)
    && (Retrieved(sub, t) >= cn || AllVisited(GridOf(sub), t))
  }

  /** Every stop so far would have been too early. */
  ghost predicate Hungry(sub: Subspace, t: seq<Cell>, cn: nat)
    requires sub.Valid() && Inside(sub, t)
  {
    forall s :: 0 < s <= |t| ==> Retrieved(sub, t[..s]) < cn
  }

  lemma StopsHere(sub: Subspace, t: seq<Cell>, c: Cell, cn: nat)
    requires sub.Valid() && Inside(sub, t) && Hungry(sub, t, cn) && c.i < sub.nc && c.j < sub.nc
    ensures Inside(sub, t + [c])
    ensures Retrieved(sub, t + [c]) >= cn ==> Stopped(sub, t + [c], cn)
    ensures Retrieved(sub, t + [c]) < cn ==> Hungry(sub, t + [c], cn)
  {
    hide Retrieved, GridOf;
    forall s | 0 < s <= |t| ensures Retrieved(sub, (t + [c])[..s]) < cn {
      assert (t + [c])[..s] == t[..s];
    }
    assert (t + [c])[..|t| + 1] == t + [c];
  }

  lemma NothingLeft(sub: Subspace, t: seq<Cell>, cn: nat)
    requires sub.Valid() && Inside(sub, t) && Hungry(sub, t, cn) && AllVisited(GridOf(sub), t)
    ensures Stopped(sub, t, cn)
  {
    hide Retrieved;
    assert InGrid(GridOf(sub), Cell(0, 0));
  }

  /** The contract of both traversals. */
  ghost predicate Activated(sub: Subspace, t: seq<Cell>, cn: nat)
    requires sub.Valid()
  {
    BestFirst(GridOf(sub), t) && TiesInOrder(GridOf(sub), t) && Inside(sub, t) && Stopped(sub, t, cn)
  }

  lemma SeenNext(sub: Subspace, t: seq<Cell>, c: Cell, b: nat)
    requires sub.Valid() && Inside(sub, t) && c.i < sub.nc && c.j < sub.nc
    ensures Inside(sub, t + [c])
    ensures Seen(sub, t + [c], b) <==> Seen(sub, t, b) || BucketOf(sub, c) == b
    ensures c !in t ==> !Seen(sub, t, BucketOf(sub, c))
    ensures Retrieved(sub, t + [c]) == Retrieved(sub, t) + |sub.lists[BucketOf(sub, c)]|
  {
    hide BucketOf;
    assert (t + [c])[..|t|] == t;
    assert c in t + [c];
    if c !in t && Seen(sub, t, BucketOf(sub, c)) {
      var e :| e in t && BucketOf(sub, e) == BucketOf(sub, c);
      BucketInjective(sub, c, e);
    }
    if Seen(sub, t, b) {
      var e :| e in t && BucketOf(sub, e) == b;
      assert e in t + [c];
    }
  }

  ghost function SeenVectors(sub: Subspace, home: seq<nat>, t: seq<Cell>): set<nat>
    requires sub.Valid() && Inside(sub, t)
  {
    set v: nat | v < |home| && Seen(sub, t, home[v])
  }

  /** Every vector is retrieved with its bucket, once. */
  lemma {:induction false} RetrievedCounts(sub: Subspace, home: seq<nat>, t: seq<Cell>)
    requires sub.Valid() && Inside(sub, t) && Distinct(t) && Filed(sub.lists, home)
    ensures Retrieved(sub, t) == |SeenVectors(sub, home, t)|
  {
    hide BucketOf;
    if t == [] {
      assert Retrieved(sub, t) == 0;
      assert SeenVectors(sub, home, t) == {};
    } else {
      var m := |t| - 1;
      var c := t[m];
      assert c in t;
      RetrievedCounts(sub, home, t[..m]);
      var lst := sub.lists[BucketOf(sub, c)];
      assert t == t[..m] + [c];
      SeenNext(sub, t[..m], c, 0);
      forall v: nat | v < |home|
        ensures v in SeenVectors(sub, home, t) <==> v in SeenVectors(sub, home, t[..m]) || v in lst
        ensures !(v in SeenVectors(sub, home, t[..m]) && v in lst)
      {
        SeenNext(sub, t[..m], c, home[v]);
      }
      MemberCount(lst);
      UnionCount(SeenVectors(sub, home, t[..m]), Members(lst), SeenVectors(sub, home, t));
    }
  }

  lemma UnionCount<T>(a: set<T>, b: set<T>, u: set<T>)
    requires forall x :: x in u <==> x in a || x in b
    requires a * b == {}
    ensures |u| == |a| + |b|
  {
    assert u == a + b;
  }

  /** The assignment of vectors to pairs of centroids that `add` makes. */
  ghost predicate Assigned(nc: nat, home: seq<nat>) {
    forall v :: 0 <= v < |home| ==> exists c1, c2 :: 0 <= c1 < nc && 0 <= c2 < nc && Flat(nc, c1, c2) == home[v]
  }

  lemma CellOf(sub: Subspace, home: seq<nat>, v: nat) returns (c: Cell)
    requires sub.Valid() && Assigned(sub.nc, home) && v < |home|
    ensures c.i < sub.nc && c.j < sub.nc && BucketOf(sub, c) == home[v]
  {
    hide Flat;
    var c1, c2 :| 0 <= c1 < sub.nc && 0 <= c2 < sub.nc && Flat(sub.nc, c1, c2) == home[v];
    PositionsCovered(sub.idx1, sub.nc);
    PositionsCovered(sub.idx2, sub.nc);
    assert c1 in sub.idx1 && c2 in sub.idx2;
    var i :| 0 <= i < sub.nc && sub.idx1[i] == c1;
    var j :| 0 <= j < sub.nc && sub.idx2[j] == c2;
    c := Cell(i, j);
  }

  /** Both traversals bring in `cn` vectors, or all of them when there are not so many. */
  lemma EnoughRetrieved(sub: Subspace, home: seq<nat>, t: seq<Cell>, cn: nat)
    requires sub.Valid() && Filed(sub.lists, home) && Assigned(sub.nc, home)
    requires Activated(sub, t, cn)
    ensures |SeenVectors(sub, home, t)| >= if cn < |home| then cn else |home|
  {
    hide BucketOf, Filed;
    GridFacts(sub);
    RetrievedCounts(sub, home, t);
    if Retrieved(sub, t) < cn {
      forall v: nat | v < |home| ensures v in SeenVectors(sub, home, t) {
        var c := CellOf(sub, home, v);
        assert InGrid(GridOf(sub), c);
      }
      SubsetSmaller(Below(|home|), SeenVectors(sub, home, t));
    }
  }

  /** No vector that collides sits in a cell farther than that of a vector that does not. */
  lemma RetrievedAreNearest(sub: Subspace, t: seq<Cell>, cn: nat, c: Cell, e: Cell)
    requires sub.Valid() && Activated(sub, t, cn)
    requires c.i < sub.nc && c.j < sub.nc && e.i < sub.nc && e.j < sub.nc
    requires Seen(sub, t, BucketOf(sub, c)) && !Seen(sub, t, BucketOf(sub, e))
    ensures InGrid(GridOf(sub), c) && InGrid(GridOf(sub), e)
    ensures D(GridOf(sub), c) <= D(GridOf(sub), e)
  {
    hide BucketOf, Stopped;
    GridFacts(sub);
    var f :| f in t && BucketOf(sub, f) == BucketOf(sub, c);
    BucketInjective(sub, c, f);
    assert e !in t;
    var s :| 0 <= s < |t| && t[s] == c;
    assert e !in t[..s];
  }

  /** The two traversals agree: whichever is run, the same cells are visited in the same order, equally far
      ones included, and with them every score is the same. */
  lemma TraversalsAgree(sub: Subspace, t: seq<Cell>, u: seq<Cell>, cn: nat)
    requires sub.Valid() && Activated(sub, t, cn) && Activated(sub, u, cn)
    ensures t == u
  {
    hide Activated;
    if |t| <= |u| {
      PrefixStops(sub, t, u, cn);
    } else {
      PrefixStops(sub, u, t, cn);
    }
  }

  /** A traversal goes on exactly as long as it has to. */
  lemma NotDoneBefore(sub: Subspace, u: seq<Cell>, cn: nat, s: nat)
    requires sub.Valid() && Activated(sub, u, cn) && 0 < s < |u|
    ensures Inside(sub, u[..s]) && Retrieved(sub, u[..s]) < cn && !AllVisited(GridOf(sub), u[..s])
  {
    hide D, GridOf, Retrieved;
    assert u[s] in u && InGrid(GridOf(sub), u[s]);
    assert u[s] !in u[..s];
  }

  lemma PrefixStops(sub: Subspace, t: seq<Cell>, u: seq<Cell>, cn: nat)
    requires sub.Valid() && Activated(sub, t, cn) && Activated(sub, u, cn)
    requires |t| <= |u|
    ensures t == u
  {
    hide D, GridOf, Retrieved, AllVisited, BestFirst, TiesInOrder;
    SameCells(GridOf(sub), t, u, |t|);
    assert t[..|t|] == t && u[..|u|] == u;
    if |t| < |u| {
      NotDoneBefore(sub, u, cn, |t|);
    }
  }
}
