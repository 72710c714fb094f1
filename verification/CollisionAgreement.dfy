/** When the collision scores of the index (faiss/IndexSuCo.cpp, `get_sc_scores`) and those of the NumPy
    fallback (benchs/bench_fig1_sc_score_pareto.py) agree.  The index lets whole cells collide, nearest
    cell first, until `cn` vectors have; NumPy lets the `cn` nearest vectors collide. */
module CollisionAgreement {
  import opened Distinctness
  import opened MultiIndex
  import opened Activation
  import opened DynamicActivation
  import opened SucoSearch
  import Collisions
  import Selection

  // ---------------------------------------------------------------------------------------------
  // The vectors up to a cell
  // ---------------------------------------------------------------------------------------------

  lemma CellExists(sub: Subspace, home: seq<nat>, v: nat)
    requires sub.Valid() && Assigned(sub.nc, home) && v < |home|
    ensures exists c: Cell :: c.i < sub.nc && c.j < sub.nc && BucketOf(sub, c) == home[v]
  {
    var c := CellOf(sub, home, v);
  }

  /** The cell a vector is filed in. */
  ghost function CellAt(sub: Subspace, home: seq<nat>, v: nat): (c: Cell)
    requires sub.Valid() && Assigned(sub.nc, home) && v < |home|
    ensures c.i < sub.nc && c.j < sub.nc && BucketOf(sub, c) == home[v]
  {
    CellExists(sub, home, v);
    var c: Cell :| c.i < sub.nc && c.j < sub.nc && BucketOf(sub, c) == home[v];
    c
  }

  /** Cells by distance from the query -- the sum of the distances to their two centroids -- and equally far
      ones by row and column. */
  ghost predicate UpTo(g: Grid, c: Cell, cut: Cell) {
    && InGrid(g, c) && InGrid(g, cut)
    && (D(g, c) < D(g, cut) || (D(g, c) == D(g, cut) && Earlier(c, cut)))
  }

  lemma UpToIsOrder(g: Grid, a: Cell, b: Cell, c: Cell)
    requires InGrid(g, a) && InGrid(g, b)
    ensures UpTo(g, a, b) || UpTo(g, b, a)
    ensures UpTo(g, a, b) && UpTo(g, b, a) ==> a == b
    ensures UpTo(g, a, b) && UpTo(g, b, c) ==> UpTo(g, a, c)
  {
  }

  /** Vectors whose cell comes no later than `cut`. */
  ghost function Within(sub: Subspace, home: seq<nat>, cut: Cell): (w: set<nat>)
    requires sub.Valid() && Assigned(sub.nc, home)
  {
    set v: nat | v < |home| && UpTo(GridOf(sub), CellAt(sub, home, v), cut)
  }

  lemma SeenByCell(sub: Subspace, home: seq<nat>, t: seq<Cell>, v: nat)
    requires sub.Valid() && Assigned(sub.nc, home) && v < |home| && Inside(sub, t)
    ensures v in SeenVectors(sub, home, t) <==> CellAt(sub, home, v) in t
    ensures InGrid(GridOf(sub), CellAt(sub, home, v))
  {
    hide BucketOf;
    GridFacts(sub);
    var c := CellAt(sub, home, v);
    if v in SeenVectors(sub, home, t) {
      var e :| e in t && BucketOf(sub, e) == home[v];
      BucketInjective(sub, c, e);
    }
  }

  /** The last cell of a traversal. */
  function Last(t: seq<Cell>): Cell
    requires t != []
  {
    t[|t| - 1]
  }

  /** A traversal visits the cells up to its last one. */
  lemma VisitedAreUpToLast(g: Grid, t: seq<Cell>, c: Cell)
    requires BestFirst(g, t) && TiesInOrder(g, t) && t != [] && InGrid(g, c)
    ensures c in t <==> UpTo(g, c, Last(t))
    ensures c in t[..|t| - 1] <==> UpTo(g, c, Last(t)) && c != Last(t)
  {
    var m := |t| - 1;
    assert t[m] in t && t[m] !in t[..m];
    assert t == t[..m] + [t[m]];
    if c in t {
      var s :| 0 <= s < |t| && t[s] == c;
      Climbs(g, t, s, m);
      assert t[m] !in t[..s];
    }
  }

  /** A traversal retrieves exactly the vectors up to its last cell. */
  lemma SeenIsWithin(sub: Subspace, home: seq<nat>, t: seq<Cell>, cn: nat)
    requires sub.Valid() && Assigned(sub.nc, home) && Activated(sub, t, cn)
    ensures t != [] && SeenVectors(sub, home, t) == Within(sub, home, Last(t))
  {
    hide BucketOf, Stopped, SeenVectors, GridOf, D, Assigned, UpTo, BestFirst, TiesInOrder;
    TraversalNonEmpty(sub, t, cn);
    SeenBounds(sub, home, t);
    forall v: nat | v < |home|
      ensures v in SeenVectors(sub, home, t) <==> UpTo(GridOf(sub), CellAt(sub, home, v), Last(t))
    {
      SeenByCell(sub, home, t, v);
      VisitedAreUpToLast(GridOf(sub), t, CellAt(sub, home, v));
    }
  }

  lemma SeenBounds(sub: Subspace, home: seq<nat>, t: seq<Cell>)
    requires sub.Valid() && Inside(sub, t)
    ensures forall v :: v in SeenVectors(sub, home, t) ==> v < |home|
  {
  }

  /** Cells before the last one do not hold `cn` vectors. */
  lemma EarlierCutHoldsFewer(sub: Subspace, home: seq<nat>, t: seq<Cell>, cn: nat, x: Cell)
    requires sub.Valid() && Assigned(sub.nc, home) && Filed(sub.lists, home)
    requires Activated(sub, t, cn) && cn >= 1 && t != [] && UpTo(GridOf(sub), x, Last(t)) && x != Last(t)
    ensures |Within(sub, home, x)| < cn
  {
    hide BucketOf, Stopped, SeenVectors, GridOf, D, Assigned, Retrieved, UpTo, BestFirst, TiesInOrder;
    TraversalNonEmpty(sub, t, cn);
    var before := t[..|t| - 1];
    assert Inside(sub, before);
    forall v | v in Within(sub, home, x) ensures v in SeenVectors(sub, home, before) {
      SeenByCell(sub, home, before, v);
      var c := CellAt(sub, home, v);
      BothInGrid(GridOf(sub), c, x, Last(t));
      UpToIsOrder(GridOf(sub), c, x, Last(t));
      UpToIsOrder(GridOf(sub), x, c, x);
      VisitedAreUpToLast(GridOf(sub), t, c);
    }
    SubsetSmaller(Within(sub, home, x), SeenVectors(sub, home, before));
    FewerBefore(sub, home, t, cn);
  }

  lemma BothInGrid(g: Grid, a: Cell, b: Cell, c: Cell)
    requires UpTo(g, a, b) && UpTo(g, b, c)
    ensures InGrid(g, a) && InGrid(g, b) && InGrid(g, c)
  {
  }

  lemma FewerBefore(sub: Subspace, home: seq<nat>, t: seq<Cell>, cn: nat)
    requires sub.Valid() && Filed(sub.lists, home) && Activated(sub, t, cn) && cn >= 1
    ensures Inside(sub, t[..|t| - 1]) && |SeenVectors(sub, home, t[..|t| - 1])| < cn
  {
    hide Retrieved, SeenVectors, BucketOf, GridOf, D, Filed;
    var before := t[..|t| - 1];
    RetrievedCounts(sub, home, before);
    if before == [] {
      NothingRetrieved(sub);
    }
  }

  lemma NothingRetrieved(sub: Subspace)
    requires sub.Valid()
    ensures Inside(sub, []) && Retrieved(sub, []) == 0
  {
  }

  /** What a traversal's last cell is, in terms of the input: the first cell up to which `cn` vectors are
      filed. */
  ghost predicate IsCut(sub: Subspace, home: seq<nat>, cn: nat, cut: Cell)
    requires sub.Valid() && Assigned(sub.nc, home)
  {
    && InGrid(GridOf(sub), cut) && |Within(sub, home, cut)| >= cn
    && forall x :: UpTo(GridOf(sub), x, cut) && x != cut ==> |Within(sub, home, x)| < cn
  }

  lemma WithinGrows(sub: Subspace, home: seq<nat>, a: Cell, b: Cell)
    requires sub.Valid() && Assigned(sub.nc, home) && UpTo(GridOf(sub), a, b)
    ensures Within(sub, home, a) <= Within(sub, home, b) && |Within(sub, home, a)| <= |Within(sub, home, b)|
  {
    hide GridOf, Assigned;
    forall v | v in Within(sub, home, a) ensures v in Within(sub, home, b) {
      UpToIsOrder(GridOf(sub), CellAt(sub, home, v), a, b);
    }
    SubsetSmaller(Within(sub, home, a), Within(sub, home, b));
  }

  lemma CutsMeet(sub: Subspace, home: seq<nat>, cn: nat, a: Cell, b: Cell)
    requires sub.Valid() && Assigned(sub.nc, home) && IsCut(sub, home, cn, a) && IsCut(sub, home, cn, b)
    ensures a == b
  {
    hide Within, GridOf, Assigned, UpTo;
    UpToIsOrder(GridOf(sub), a, b, a);
  }

  /** There is one such cell, and the index lets collide exactly the vectors up to it. */
  lemma CollidedAreWithinCut(sub: Subspace, home: seq<nat>, t: seq<Cell>, cn: nat)
    requires sub.Valid() && Assigned(sub.nc, home) && Filed(sub.lists, home)
    requires Activated(sub, t, cn) && 1 <= cn <= |home|
    ensures t != [] && Inside(sub, t) && IsCut(sub, home, cn, Last(t))
    ensures forall cut :: IsCut(sub, home, cn, cut) ==> cut == Last(t)
    ensures SeenVectors(sub, home, t) == Within(sub, home, Last(t))
  {
    hide Activated, GridOf, Assigned, Filed, Within, SeenVectors, Inside, UpTo, IsCut;
    TraversalNonEmpty(sub, t, cn);
    SeenIsWithin(sub, home, t, cn);
    EnoughRetrieved(sub, home, t, cn);
    LastInGrid(sub, t, cn);
    forall x | UpTo(GridOf(sub), x, Last(t)) && x != Last(t) ensures |Within(sub, home, x)| < cn {
      EarlierCutHoldsFewer(sub, home, t, cn, x);
    }
    LastIsCut(sub, home, cn, Last(t));
    forall cut | IsCut(sub, home, cn, cut) ensures cut == Last(t) {
      CutsMeet(sub, home, cn, cut, Last(t));
    }
  }

  lemma LastInGrid(sub: Subspace, t: seq<Cell>, cn: nat)
    requires sub.Valid() && Activated(sub, t, cn) && t != []
    ensures InGrid(GridOf(sub), Last(t))
  {
    hide Stopped, GridOf;
    assert Last(t) in t;
  }

  lemma LastIsCut(sub: Subspace, home: seq<nat>, cn: nat, cut: Cell)
    requires sub.Valid() && Assigned(sub.nc, home) && InGrid(GridOf(sub), cut) && |Within(sub, home, cut)| >= cn
    requires forall x :: UpTo(GridOf(sub), x, cut) && x != cut ==> |Within(sub, home, x)| < cn
    ensures IsCut(sub, home, cn, cut)
  {
  }

  lemma TraversalNonEmpty(sub: Subspace, t: seq<Cell>, cn: nat)
    requires sub.Valid() && Activated(sub, t, cn)
    ensures t != [] && Inside(sub, t)
  {
  }

  // ---------------------------------------------------------------------------------------------
  // One subspace
  // ---------------------------------------------------------------------------------------------

  /** Up to some cell exactly `cn` vectors are filed: no cell overshoots. */
  ghost predicate ExactCut(sub: Subspace, home: seq<nat>, cn: nat)
    requires sub.Valid() && Assigned(sub.nc, home)
  {
    exists cut :: InGrid(GridOf(sub), cut) && |Within(sub, home, cut)| == cn
  }

  lemma EqualSizes<T>(a: set<T>, b: set<T>)
    requires a <= b && |b| <= |a|
    ensures a == b
  {
    assert b == a + (b - a);
    assert |b - a| == 0;
  }

  /** A cell up to which exactly `cn` vectors are filed gives those that collide. */
  lemma ExactCutIsReached(sub: Subspace, home: seq<nat>, t: seq<Cell>, cn: nat, cut: Cell)
    requires sub.Valid() && Assigned(sub.nc, home) && Filed(sub.lists, home)
    requires Activated(sub, t, cn) && 1 <= cn <= |home|
    requires InGrid(GridOf(sub), cut) && |Within(sub, home, cut)| == cn
    ensures SeenVectors(sub, home, t) == Within(sub, home, cut)
  {
    hide Activated, GridOf, Assigned, Filed, Within, SeenVectors, Inside, UpTo;
    CollidedAreWithinCut(sub, home, t, cn);
    var last := Last(t);
    UpToIsOrder(GridOf(sub), last, cut, last);
    assert UpTo(GridOf(sub), last, cut);
    WithinGrows(sub, home, last, cut);
    EqualSizes(Within(sub, home, last), Within(sub, home, cut));
  }

  /** The collided vectors number exactly `cn` if and only if those up to some cell do. */
  lemma RetrievedExactly(sub: Subspace, home: seq<nat>, t: seq<Cell>, cn: nat)
    requires sub.Valid() && Assigned(sub.nc, home) && Filed(sub.lists, home)
    requires Activated(sub, t, cn) && 1 <= cn <= |home|
    ensures Inside(sub, t) && Distinct(t) && Retrieved(sub, t) == |SeenVectors(sub, home, t)|
    ensures |SeenVectors(sub, home, t)| == cn <==> ExactCut(sub, home, cn)
  {
    hide GridOf, Assigned, Filed, Within, SeenVectors, Stopped, Retrieved, UpTo, TiesInOrder;
    CollidedAreWithinCut(sub, home, t, cn);
    RetrievedCounts(sub, home, t);
    if ExactCut(sub, home, cn) {
      var cut :| InGrid(GridOf(sub), cut) && |Within(sub, home, cut)| == cn;
      ExactCutIsReached(sub, home, t, cn, cut);
    }
  }

  /** No vector outside `w` is nearer to the query than one inside, by exact distance in the subspace. */
  ghost predicate NearestSet(dist: seq<real>, w: set<nat>) {
    forall a, b: nat :: a in w && b < |dist| && b !in w ==> a < |dist| && dist[a] <= dist[b]
  }

  /** What has to hold of the input for cells to do as well as exact distances: up to some cell exactly `cn`
      vectors are filed, and they are the `cn` nearest ones. */
  ghost predicate CellsFollowDistance(sub: Subspace, home: seq<nat>, cn: nat, dist: seq<real>)
    requires sub.Valid() && Assigned(sub.nc, home)
  {
    exists cut :: InGrid(GridOf(sub), cut) && |Within(sub, home, cut)| == cn
                  && NearestSet(dist, Within(sub, home, cut))
  }

  /** Without equally far vectors, `cn` nearest ones are the ones NumPy selects. */
  lemma NearestAreTop(dist: seq<real>, w: set<nat>, top: seq<nat>, cn: nat)
    requires |w| == cn && (forall v :: v in w ==> v < |dist|) && NearestSet(dist, w)
    requires Collisions.Closest(dist, cn, top) && Distinct(dist)
    ensures w == Members(top)
  {
    MemberCount(top);
    forall x | x in w ensures x in Members(top) {
      if x !in top {
        NearestContradiction(dist, w, top, x);
      }
    }
    EqualSizes(w, Members(top));
  }

  lemma NearestContradiction(dist: seq<real>, w: set<nat>, top: seq<nat>, x: nat)
    requires (forall v :: v in w ==> v < |dist|) && NearestSet(dist, w)
    requires Collisions.Closest(dist, |w|, top) && Distinct(dist) && x in w
    ensures x in top
  {
    if x !in top {
      forall y | y in top ensures y in w {
        assert dist[y] <= dist[x];
      }
      MemberCount(top);
      SubsetSmaller(Members(top), w - {x});
    }
  }

  lemma TopIsNearest(dist: seq<real>, top: seq<nat>, cn: nat)
    requires Collisions.Closest(dist, cn, top)
    ensures |Members(top)| == cn && NearestSet(dist, Members(top))
  {
    MemberCount(top);
  }

  lemma WithinInRange(sub: Subspace, home: seq<nat>, cut: Cell)
    requires sub.Valid() && Assigned(sub.nc, home)
    ensures forall v :: v in Within(sub, home, cut) ==> v < |home|
  {
  }

  /** In one subspace index and NumPy let the same vectors collide exactly when cells follow distance. */
  lemma SubspaceAgrees(sub: Subspace, home: seq<nat>, t: seq<Cell>, cn: nat, dist: seq<real>, top: seq<nat>)
    requires sub.Valid() && Assigned(sub.nc, home) && Filed(sub.lists, home)
    requires Activated(sub, t, cn) && 1 <= cn <= |home| == |dist|
    requires Collisions.Closest(dist, cn, top) && Distinct(dist)
    ensures Inside(sub, t)
    ensures SeenVectors(sub, home, t) == Members(top) <==> CellsFollowDistance(sub, home, cn, dist)
  {
    hide Activated, GridOf, Assigned, Filed, Within, SeenVectors, Inside, Collisions.Closest, NearestSet, Members,
      Distinct, UpTo;
    CollidedAreWithinCut(sub, home, t, cn);
    TopIsNearest(dist, top, cn);
    if CellsFollowDistance(sub, home, cn, dist) {
      var cut :| InGrid(GridOf(sub), cut) && |Within(sub, home, cut)| == cn
                 && NearestSet(dist, Within(sub, home, cut));
      ExactCutIsReached(sub, home, t, cn, cut);
      WithinInRange(sub, home, cut);
      NearestAreTop(dist, Within(sub, home, cut), top, cn);
    }
  }

  // ---------------------------------------------------------------------------------------------
  // All subspaces
  // ---------------------------------------------------------------------------------------------

  /** One query on both sides: the index with its traversals, and in every subspace exact distances without
      ties with NumPy's selection. */
  ghost predicate Comparable(subs: seq<Subspace>, homes: seq<seq<nat>>, n: nat, cn: nat, ts: seq<seq<Cell>>,
                             dists: seq<seq<real>>, tops: seq<seq<nat>>) {
    && Indexed(subs, homes, n) && 1 <= cn <= n
    && Traversed(subs, cn, ts) && |ts| == |dists| == |tops| <= |subs|
    && forall s :: 0 <= s < |ts| ==>
         |dists[s]| == n && Distinct(dists[s]) && Collisions.Closest(dists[s], cn, tops[s])
  }

  /** The same vectors collide in every subspace exactly when cells follow distance in every one. */
  lemma CollisionsAgree(subs: seq<Subspace>, homes: seq<seq<nat>>, n: nat, cn: nat, ts: seq<seq<Cell>>,
                        dists: seq<seq<real>>, tops: seq<seq<nat>>)
    requires Comparable(subs, homes, n, cn, ts, dists, tops)
    ensures (forall s :: 0 <= s < |ts| ==> Inside(subs[s], ts[s]) && SeenVectors(subs[s], homes[s], ts[s]) == Members(tops[s]))
            <==> forall s :: 0 <= s < |ts| ==> CellsFollowDistance(subs[s], homes[s], cn, dists[s])
  {
    hide Activated, GridOf, Assigned, Filed, SeenVectors, Inside, Collisions.Closest, Members, Distinct,
      CellsFollowDistance;
    forall s | 0 <= s < |ts|
      ensures Inside(subs[s], ts[s])
      ensures SeenVectors(subs[s], homes[s], ts[s]) == Members(tops[s])
              <==> CellsFollowDistance(subs[s], homes[s], cn, dists[s])
    {
      SubspaceAgrees(subs[s], homes[s], ts[s], cn, dists[s], tops[s]);
    }
  }

  /** In how many subspaces a vector is filed up to the cut: its score, from the input. */
  ghost function CutScore(subs: seq<Subspace>, homes: seq<seq<nat>>, n: nat, cuts: seq<Cell>, v: nat): nat
    requires Indexed(subs, homes, n) && |cuts| <= |subs| && v < n
  {
    if cuts == [] then 0
    else
      var m := |cuts| - 1;
      CutScore(subs, homes, n, cuts[..m], v) + if v in Within(subs[m], homes[m], cuts[m]) then 1 else 0
  }

  ghost predicate AreCuts(subs: seq<Subspace>, homes: seq<seq<nat>>, n: nat, cn: nat, cuts: seq<Cell>)
    requires Indexed(subs, homes, n)
  {
    |cuts| <= |subs| && forall s :: 0 <= s < |cuts| ==> IsCut(subs[s], homes[s], cn, cuts[s])
  }

  /** The score of the index is determined by the input: it counts the subspaces whose cut the vector's cell
      does not exceed. */
  lemma {:induction false} ScoreIsCutScore(subs: seq<Subspace>, homes: seq<seq<nat>>, n: nat, cn: nat,
                                              ts: seq<seq<Cell>>, cuts: seq<Cell>, v: nat)
    requires Indexed(subs, homes, n) && Traversed(subs, cn, ts) && 1 <= cn <= n && v < n
    requires AreCuts(subs, homes, n, cn, cuts) && |cuts| == |ts|
    ensures Score(subs, homes, cn, ts, v) == CutScore(subs, homes, n, cuts, v)
  {
    hide Activated, GridOf, Assigned, Filed, Within, Seen, Inside, IsCut;
    if ts != [] {
      var m := |ts| - 1;
      ScoreIsCutScore(subs, homes, n, cn, ts[..m], cuts[..m], v);
      TraversalNonEmpty(subs[m], ts[m], cn);
      CollidedAreWithinCut(subs[m], homes[m], ts[m], cn);
      assert IsCut(subs[m], homes[m], cn, cuts[m]);
      assert v in SeenVectors(subs[m], homes[m], ts[m]) <==> Seen(subs[m], ts[m], homes[m][v]);
    }
  }

  ghost function AllScores(subs: seq<Subspace>, homes: seq<seq<nat>>, n: nat, cn: nat, ts: seq<seq<Cell>>): (r: seq<int>)
    requires Indexed(subs, homes, n) && Traversed(subs, cn, ts)
    ensures |r| == n
  {
    seq(n, v requires 0 <= v < n => Score(subs, homes, cn, ts, v))
  }

  /** Vectors retrieved over all subspaces. */
  ghost function AllRetrieved(subs: seq<Subspace>, cn: nat, ts: seq<seq<Cell>>): nat
    requires Traversed(subs, cn, ts)
  {
    if ts == [] then 0
    else var m := |ts| - 1; AllRetrieved(subs, cn, ts[..m]) + Retrieved(subs[m], ts[m])
  }

  ghost function Indicator(n: nat, a: set<nat>): (r: seq<int>)
    ensures |r| == n
  {
    seq(n, v requires 0 <= v < n => if v in a then 1 else 0)
  }

  lemma {:induction false} IndicatorTotal(n: nat, a: set<nat>)
    requires forall v :: v in a ==> v < n
    ensures Collisions.Sum(Indicator(n, a)) == |a|
  {
    if n > 0 {
      IndicatorTotal(n - 1, a - {n - 1});
      RemoveOne(a, n - 1);
      assert Indicator(n, a)[..n - 1] == Indicator(n - 1, a - {n - 1});
    } else {
      assert a == {};
    }
  }

  lemma RemoveOne(a: set<nat>, x: nat)
    ensures |a| == |a - {x}| + if x in a then 1 else 0
  {
    if x in a {
      assert a == (a - {x}) + {x};
    } else {
      assert a == a - {x};
    }
  }

  /** The scores of a query add up to the vectors its traversals retrieved. */
  lemma {:induction false} ScoresAddUp(subs: seq<Subspace>, homes: seq<seq<nat>>, n: nat, cn: nat, ts: seq<seq<Cell>>)
    requires Indexed(subs, homes, n) && Traversed(subs, cn, ts)
    ensures Collisions.Sum(AllScores(subs, homes, n, cn, ts)) == AllRetrieved(subs, cn, ts)
  {
    hide Seen, Retrieved, Stopped, Filed, Assigned;
    if ts == [] {
      Collisions.SumZero(AllScores(subs, homes, n, cn, ts));
    } else {
      var m := |ts| - 1;
      ScoresAddUp(subs, homes, n, cn, ts[..m]);
      var seen := SeenVectors(subs[m], homes[m], ts[m]);
      RetrievedCounts(subs[m], homes[m], ts[m]);
      IndicatorTotal(n, seen);
      Collisions.SumAdd(AllScores(subs, homes, n, cn, ts[..m]), Indicator(n, seen), AllScores(subs, homes, n, cn, ts));
    }
  }

  lemma {:induction false} TotalAtLeast(subs: seq<Subspace>, homes: seq<seq<nat>>, n: nat, cn: nat, ts: seq<seq<Cell>>)
    requires Indexed(subs, homes, n) && Traversed(subs, cn, ts) && cn <= n
    ensures AllRetrieved(subs, cn, ts) >= Collisions.Times(|ts|, cn)
    ensures AllRetrieved(subs, cn, ts) == Collisions.Times(|ts|, cn)
            <==> forall s :: 0 <= s < |ts| ==> Retrieved(subs[s], ts[s]) == cn
  {
    hide Seen, Retrieved, Stopped, Filed, Assigned, Collisions.Times;
    Collisions.TimesNext(0, cn);
    if ts != [] {
      var m := |ts| - 1;
      Collisions.TimesNext(m, cn);
      TotalAtLeast(subs, homes, n, cn, ts[..m]);
      EnoughRetrieved(subs[m], homes[m], ts[m], cn);
      RetrievedCounts(subs[m], homes[m], ts[m]);
    }
  }

  ghost function Nearer(dist: seq<real>, v: nat): set<nat>
    requires v < |dist|
  {
    set x: nat | x < |dist| && dist[x] < dist[v]
  }

  /** Without equally far vectors NumPy selects those that fewer than `cn` others are nearer than. */
  lemma SelectedByRank(dist: seq<real>, cn: nat, top: seq<nat>, v: nat)
    requires Collisions.Closest(dist, cn, top) && Distinct(dist) && v < |dist|
    ensures v in top <==> |Nearer(dist, v)| < cn
  {
    MemberCount(top);
    if v in top {
      SubsetSmaller(Nearer(dist, v), Members(top) - {v});
    } else {
      SubsetSmaller(Members(top), Nearer(dist, v));
    }
  }

  /** In how many subspaces a vector is among the `cn` nearest. */
  ghost function RankScore(dists: seq<seq<real>>, cn: nat, v: nat): nat
    requires forall s :: 0 <= s < |dists| ==> v < |dists[s]|
  {
    if dists == [] then 0
    else
      var m := |dists| - 1;
      RankScore(dists[..m], cn, v) + if |Nearer(dists[m], v)| < cn then 1 else 0
  }

  lemma {:induction false} ScoreIsRankScore(dists: seq<seq<real>>, cn: nat, tops: seq<seq<nat>>, v: nat)
    requires |dists| == |tops| && forall s :: 0 <= s < |dists| ==>
               v < |dists[s]| && Distinct(dists[s]) && Collisions.Closest(dists[s], cn, tops[s])
    ensures Collisions.Score(tops, v) == RankScore(dists, cn, v)
  {
    hide Nearer, Distinct, Collisions.Closest;
    if dists != [] {
      var m := |dists| - 1;
      ScoreIsRankScore(dists[..m], cn, tops[..m], v);
      SelectedByRank(dists[m], cn, tops[m], v);
    }
  }

  /** Every vector is filed up to the cut in as many subspaces as it is among the `cn` nearest. */
  ghost predicate SameCounts(subs: seq<Subspace>, homes: seq<seq<nat>>, n: nat, cn: nat, cuts: seq<Cell>,
                             dists: seq<seq<real>>)
    requires Indexed(subs, homes, n) && |cuts| <= |subs| && forall s :: 0 <= s < |dists| ==> |dists[s]| == n
  {
    forall v: nat :: v < n ==> CutScore(subs, homes, n, cuts, v) == RankScore(dists, cn, v)
  }

  /** Exactly when index and NumPy give every vector the same score, in terms of the input. */
  lemma ScoresAgree(subs: seq<Subspace>, homes: seq<seq<nat>>, n: nat, cn: nat, ts: seq<seq<Cell>>,
                    dists: seq<seq<real>>, tops: seq<seq<nat>>, cuts: seq<Cell>)
    requires Comparable(subs, homes, n, cn, ts, dists, tops)
    requires AreCuts(subs, homes, n, cn, cuts) && |cuts| == |ts|
    ensures AllScores(subs, homes, n, cn, ts) == Collisions.Scores(tops, n)
            <==> SameCounts(subs, homes, n, cn, cuts, dists)
  {
    hide Activated, GridOf, Assigned, Filed, IsCut, Collisions.Closest, Distinct, Within, Seen;
    var a, b := AllScores(subs, homes, n, cn, ts), Collisions.Scores(tops, n);
    forall v: nat | v < n
      ensures CutScore(subs, homes, n, cuts, v) == a[v] && RankScore(dists, cn, v) == b[v]
    {
      ScoreIsRankScore(dists, cn, tops, v);
      ScoreIsCutScore(subs, homes, n, cn, ts, cuts, v);
    }
    if SameCounts(subs, homes, n, cn, cuts, dists) {
      assert a == b;
    }
  }

  /** Agreement in every subspace is enough for equal scores ... */
  lemma {:induction false} AgreementSuffices(subs: seq<Subspace>, homes: seq<seq<nat>>, n: nat, cn: nat,
                                             ts: seq<seq<Cell>>, tops: seq<seq<nat>>, v: nat)
    requires Indexed(subs, homes, n) && Traversed(subs, cn, ts) && |tops| == |ts| && v < n
    requires forall s :: 0 <= s < |ts| ==> Inside(subs[s], ts[s]) && SeenVectors(subs[s], homes[s], ts[s]) == Members(tops[s])
    ensures Score(subs, homes, cn, ts, v) == Collisions.Score(tops, v)
  {
    hide Activated, Assigned, Filed, Seen, Inside;
    if ts != [] {
      var m := |ts| - 1;
      AgreementSuffices(subs, homes, n, cn, ts[..m], tops[..m], v);
      assert v in SeenVectors(subs[m], homes[m], ts[m]) <==> Seen(subs[m], ts[m], homes[m][v]);
      assert v in Members(tops[m]) <==> v in tops[m];
    }
  }

  /** ... and for a single subspace it is also necessary.  (Over several subspaces disagreements can
      cancel: a vector may gain a collision in one and lose one in another.) */
  lemma OneSubspaceScoresAgree(subs: seq<Subspace>, homes: seq<seq<nat>>, n: nat, cn: nat, ts: seq<seq<Cell>>,
                               dists: seq<seq<real>>, tops: seq<seq<nat>>)
    requires Comparable(subs, homes, n, cn, ts, dists, tops) && |ts| == |subs| == 1
    ensures AllScores(subs, homes, n, cn, ts) == Collisions.Scores(tops, n)
            <==> CellsFollowDistance(subs[0], homes[0], cn, dists[0])
  {
    hide Activated, GridOf, Assigned, Filed, SeenVectors, Inside, Collisions.Closest, Members, Distinct,
      CellsFollowDistance, Score, Collisions.Score;
    CollisionsAgree(subs, homes, n, cn, ts, dists, tops);
    if CellsFollowDistance(subs[0], homes[0], cn, dists[0]) {
      forall v: nat | v < n ensures AllScores(subs, homes, n, cn, ts)[v] == Collisions.Scores(tops, n)[v] {
        AgreementSuffices(subs, homes, n, cn, ts, tops, v);
      }
    } else {
      var v := DifferentMember(subs, homes, n, cn, ts, dists, tops);
      assert AllScores(subs, homes, n, cn, ts)[v] != Collisions.Scores(tops, n)[v];
    }
  }

  lemma DifferentMember(subs: seq<Subspace>, homes: seq<seq<nat>>, n: nat, cn: nat, ts: seq<seq<Cell>>,
                        dists: seq<seq<real>>, tops: seq<seq<nat>>) returns (v: nat)
    requires Comparable(subs, homes, n, cn, ts, dists, tops) && |ts| == |subs| == 1
    requires Inside(subs[0], ts[0]) ==> SeenVectors(subs[0], homes[0], ts[0]) != Members(tops[0])
    ensures v < n && Score(subs, homes, cn, ts, v) != Collisions.Score(tops, v)
  {
    hide GridOf, Assigned, Filed, Seen, Stopped, BestFirst;
    SeenBounds(subs[0], homes[0], ts[0]);
    assert forall x :: x in Members(tops[0]) ==> x < n;
    v :| v < n && (v in SeenVectors(subs[0], homes[0], ts[0]) <==> v !in Members(tops[0]));
    OneScore(subs, homes, n, cn, ts, tops, v);
  }

  lemma OneScore(subs: seq<Subspace>, homes: seq<seq<nat>>, n: nat, cn: nat, ts: seq<seq<Cell>>,
                 tops: seq<seq<nat>>, v: nat)
    requires Indexed(subs, homes, n) && Traversed(subs, cn, ts) && |ts| == |tops| == 1 && v < n
    requires Inside(subs[0], ts[0])
    ensures Score(subs, homes, cn, ts, v) == if v in SeenVectors(subs[0], homes[0], ts[0]) then 1 else 0
    ensures Collisions.Score(tops, v) == if v in Members(tops[0]) then 1 else 0
  {
    hide Activated, Assigned, Filed, Seen, Inside;
    assert ts[..0] == [] && tops[..0] == [];
    assert Score(subs, homes, cn, ts[..0], v) == 0 && Collisions.Score(tops[..0], v) == 0;
  }

  /** Such a cancellation: what one subspace lets collide NumPy lets collide in the other, and the other
      way round. */
  lemma ExchangesCancel(subs: seq<Subspace>, homes: seq<seq<nat>>, n: nat, cn: nat, ts: seq<seq<Cell>>,
                        tops: seq<seq<nat>>, v: nat)
    requires Indexed(subs, homes, n) && Traversed(subs, cn, ts) && |ts| == |tops| == 2 && v < n
    requires forall s :: 0 <= s < 2 ==>
               Inside(subs[s], ts[s]) && SeenVectors(subs[s], homes[s], ts[s]) == Members(tops[1 - s])
    ensures Score(subs, homes, cn, ts, v) == Collisions.Score(tops, v)
  {
    hide Activated, Assigned, Filed, Seen, Inside;
    OneScore(subs, homes, n, cn, ts[..1], tops[..1], v);
    assert SeenVectors(subs[0], homes[0], ts[0]) == Members(tops[1]);
    assert SeenVectors(subs[1], homes[1], ts[1]) == Members(tops[0]);
    assert v in SeenVectors(subs[1], homes[1], ts[1]) <==> Seen(subs[1], ts[1], homes[1][v]);
  }

  /** The index never hands out less score in total than NumPy's Ns * cn, and the same amount exactly when
      in every subspace exactly `cn` vectors are filed up to some cell. */
  lemma TotalsAgree(subs: seq<Subspace>, homes: seq<seq<nat>>, n: nat, cn: nat, ts: seq<seq<Cell>>)
    requires Indexed(subs, homes, n) && Traversed(subs, cn, ts) && |ts| == |subs| && 1 <= cn <= n
    ensures var total := Collisions.Sum(AllScores(subs, homes, n, cn, ts));
            && total >= Collisions.Times(|subs|, cn)
            && (total == Collisions.Times(|subs|, cn)
                <==> forall s :: 0 <= s < |subs| ==> ExactCut(subs[s], homes[s], cn))
  {
    hide AllScores, Retrieved, Collisions.Times, ExactCut, GridOf, Assigned, Filed, Activated;
    ScoresAddUp(subs, homes, n, cn, ts);
    TotalAtLeast(subs, homes, n, cn, ts);
    forall s | 0 <= s < |subs|
      ensures Inside(subs[s], ts[s])
      ensures Retrieved(subs[s], ts[s]) == cn <==> ExactCut(subs[s], homes[s], cn)
    {
      RetrievedExactly(subs[s], homes[s], ts[s], cn);
    }
  }

  /** It does overshoot whenever the nearest cell holds more than `cn` vectors: all of them collide. */
  lemma CrowdedCellOvershoots(sub: Subspace, t: seq<Cell>, cn: nat)
    requires sub.Valid() && Activated(sub, t, cn) && |sub.lists[BucketOf(sub, t[0])]| > cn
    ensures |t| == 1 && Retrieved(sub, t) == |sub.lists[BucketOf(sub, t[0])]| > cn
  {
    hide BucketOf, BestFirst, GridOf, Retrieved;
    if |t| > 1 {
      NotDoneBefore(sub, t, cn, 1);
    }
    var none: seq<Cell> := [];
    SeenNext(sub, none, t[0], 0);
    assert none + [t[0]] == t[..1];
    NothingRetrieved(sub);
    assert t[..|t|] == t;
  }

  // ---------------------------------------------------------------------------------------------
  // An input without overshoot on which the scores differ
  // ---------------------------------------------------------------------------------------------

  /** Centroids 0 and 10 for either half, the query (4, 0): squared distances 16 and 36, and 0 and 100. */
  const EXAMPLE: Subspace := Subspace(2, [16.0, 36.0], [0, 1], [0.0, 100.0], [0, 1], [[0], [], [1], []])

  /** The vectors (-4, 0) and (5.5, 0) are filed under the centroid pairs (0, 0) and (10, 0). */
  const FILED: seq<nat> := [0, 2]

  /** Their exact squared distances. */
  const EXACT: seq<real> := [64.0, 2.25]

  lemma TwoSorted(a: real, b: real)
    requires a <= b
    ensures SortedIndex([a, b], [0, 1])
  {
  }

  lemma FlatOfTwo(c1: nat, c2: nat)
    ensures Flat(2, c1, c2) == 2 * c1 + c2
  {
  }

  lemma SmallDistances()
    ensures forall i, j :: 0 <= i < 2 && 0 <= j < 2 ==> EXAMPLE.dists1[i] + EXAMPLE.dists2[j] < Selection.FLT_MAX
  {
    assert 136.0 < Selection.FLT_MAX;
  }

  lemma ExampleIsValid()
    ensures EXAMPLE.Valid()
  {
    hide SortedIndex, Flat;
    TwoSorted(16.0, 36.0);
    TwoSorted(0.0, 100.0);
    FlatOfTwo(2, 0);
    SmallDistances();
  }

  lemma ExampleIsAssigned()
    ensures Assigned(2, FILED)
  {
    hide Flat;
    FlatOfTwo(0, 0);
    FlatOfTwo(1, 0);
  }

  lemma ExampleIsFiled()
    ensures Filed(EXAMPLE.lists, FILED)
  {
    forall b | 0 <= b < 4
      ensures Distinct(EXAMPLE.lists[b])
      ensures forall v: nat :: v in EXAMPLE.lists[b] <==> v < 2 && FILED[v] == b
    {
      assert b == 0 || b == 1 || b == 2 || b == 3;
    }
  }

  lemma ExampleGrid()
    requires EXAMPLE.Valid()
    ensures var g := GridOf(EXAMPLE); g.rows == [16.0, 36.0] && g.cols == [0.0, 100.0]
  {
  }

  lemma CornerIsNearest(g: Grid)
    requires g.rows == [16.0, 36.0] && g.cols == [0.0, 100.0]
    ensures forall c :: InGrid(g, c) ==> D(g, Cell(0, 0)) <= D(g, c)
  {
    forall c | InGrid(g, c) ensures D(g, c) == (if c.i == 0 then 16.0 else 36.0) + if c.j == 0 then 0.0 else 100.0 {
    }
  }

  lemma ExampleCells()
    requires EXAMPLE.Valid() && Assigned(2, FILED)
    ensures CellAt(EXAMPLE, FILED, 0) == Cell(0, 0) && CellAt(EXAMPLE, FILED, 1) == Cell(1, 0)
    ensures InGrid(GridOf(EXAMPLE), Cell(0, 0)) && InGrid(GridOf(EXAMPLE), Cell(1, 0))
    ensures D(GridOf(EXAMPLE), Cell(0, 0)) == 16.0 && D(GridOf(EXAMPLE), Cell(1, 0)) == 36.0
  {
    hide Flat, GridOf;
    FlatOfTwo(0, 0);
    FlatOfTwo(1, 0);
    BucketInjective(EXAMPLE, CellAt(EXAMPLE, FILED, 0), Cell(0, 0));
    BucketInjective(EXAMPLE, CellAt(EXAMPLE, FILED, 1), Cell(1, 0));
    ExampleGrid();
  }

  /** With one collision asked for, two vectors, and the nearer cell holding the farther vector: up to a cell
      exactly one vector is filed, and it is the wrong one. */
  lemma WrongVectorWithin(sub: Subspace, home: seq<nat>, dist: seq<real>)
    requires sub.Valid() && Assigned(sub.nc, home) && |home| == |dist| == 2
    requires InGrid(GridOf(sub), CellAt(sub, home, 0)) && InGrid(GridOf(sub), CellAt(sub, home, 1))
    requires D(GridOf(sub), CellAt(sub, home, 0)) < D(GridOf(sub), CellAt(sub, home, 1)) && dist[1] < dist[0]
    ensures ExactCut(sub, home, 1) && !CellsFollowDistance(sub, home, 1, dist)
  {
    hide GridOf, Assigned, D;
    var first := CellAt(sub, home, 0);
    assert Within(sub, home, first) == {0};
    forall cut | InGrid(GridOf(sub), cut) && |Within(sub, home, cut)| == 1
      ensures !NearestSet(dist, Within(sub, home, cut))
    {
      var w := Within(sub, home, cut);
      var v :| v in w;
      assert 0 in w;
      assert 1 in w ==> w == {0, 1};
    }
  }

  lemma ExampleTraversal()
    requires EXAMPLE.Valid()
    ensures Activated(EXAMPLE, [Cell(0, 0)], 1)
  {
    hide BestFirst, GridOf, Flat, BucketOf;
    var none: seq<Cell> := [];
    ExampleGrid();
    CornerIsNearest(GridOf(EXAMPLE));
    NothingYet(EXAMPLE);
    BestFirstNext(GridOf(EXAMPLE), none, Cell(0, 0));
    assert none + [Cell(0, 0)] == [Cell(0, 0)];
    SeenNext(EXAMPLE, none, Cell(0, 0), 0);
    StopsHere(EXAMPLE, none, Cell(0, 0), 1);
    ExampleBucket();
  }

  lemma NothingYet(sub: Subspace)
    requires sub.Valid()
    ensures BestFirst(GridOf(sub), []) && Inside(sub, []) && Hungry(sub, [], 1) && Retrieved(sub, []) == 0
    ensures InGrid(GridOf(sub), Cell(0, 0))
  {
  }

  lemma ExampleBucket()
    requires EXAMPLE.Valid()
    ensures |EXAMPLE.lists[BucketOf(EXAMPLE, Cell(0, 0))]| == 1
  {
    hide Flat;
    FlatOfTwo(0, 0);
  }

  lemma ExampleSelection()
    ensures Distinct(EXACT) && Collisions.Closest(EXACT, 1, [1])
  {
  }

  /** No cell overshoots and the totals agree, yet the index gives its point to vector 0 and NumPy to
      vector 1. */
  lemma DefinitionsDiffer()
    ensures Comparable([EXAMPLE], [FILED], 2, 1, [[Cell(0, 0)]], [EXACT], [[1]])
    ensures EXAMPLE.Valid() && Assigned(EXAMPLE.nc, FILED) && ExactCut(EXAMPLE, FILED, 1)
    ensures Collisions.Sum(AllScores([EXAMPLE], [FILED], 2, 1, [[Cell(0, 0)]])) == Collisions.Times(1, 1)
    ensures AllScores([EXAMPLE], [FILED], 2, 1, [[Cell(0, 0)]]) != Collisions.Scores([[1]], 2)
  {
    hide Activated, GridOf, Assigned, Filed, Collisions.Closest, Distinct, ExactCut, CellsFollowDistance,
      AllScores, Collisions.Scores, Collisions.Sum, Collisions.Times;
    ExampleIsValid();
    ExampleIsAssigned();
    ExampleIsFiled();
    ExampleGrid();
    CornerIsNearest(GridOf(EXAMPLE));
    ExampleTraversal();
    ExampleSelection();
    ExampleCells();
    WrongVectorWithin(EXAMPLE, FILED, EXACT);
    OneSubspaceScoresAgree([EXAMPLE], [FILED], 2, 1, [[Cell(0, 0)]], [EXACT], [[1]]);
    TotalsAgree([EXAMPLE], [FILED], 2, 1, [[Cell(0, 0)]]);
  }
}
