/** Query time at a recall target: the envelope of analyze_ci.py and the plain interpolation of
    bench_router_paper.py, on sorted arrays and on whole curves. */
module RecallTime {
  import opened Common
  import opened Curves

  ghost predicate Ascending(s: seq<real>) {
    forall i, j :: 0 <= i < j < |s| ==> s[i] <= s[j]
  }

  /** np.minimum.accumulate from the high-recall end: the cheapest time from position i on. */
  function BestFrom(times: seq<real>, i: nat): (t: real)
    requires i < |times|
    ensures forall j :: i <= j < |times| ==> t <= times[j]
    ensures exists j :: i <= j < |times| && t == times[j]
    decreases |times| - i
  {
    if i == |times| - 1 then times[i]
    else var rest := BestFrom(times, i + 1); if times[i] < rest then times[i] else rest
  }

  /** np.searchsorted(recalls, target, side="left") */
  function SearchLeft(recalls: seq<real>, target: real): (j: nat)
    ensures j <= |recalls| && (j < |recalls| ==> recalls[j] >= target)
    ensures forall i :: 0 <= i < j ==> recalls[i] < target
  {
    if recalls == [] || recalls[0] >= target then 0 else 1 + SearchLeft(recalls[1..], target)
  }

  function Blend(w: real, lo: real, hi: real): real {
    (1.0 - w) * lo + w * hi
  }

  function Linear(t: real, lo: real, hi: real): real {
    lo + t * (hi - lo)
  }

  /** How far the target lies between two recalls. */
  function Fraction(target: real, lo: real, hi: real): real
    requires lo < hi
  {
    (target - lo) / (hi - lo)
  }

  /** interp_at_recall. (The original's guard for equal neighbouring recalls cannot fire: the left one is
      below the target, the right one is not.) */
  function InterpAtRecall(recalls: seq<real>, times: seq<real>, target: real): Option<real>
    requires |recalls| == |times| > 0
  {
    var j := SearchLeft(recalls, target);
    if j == |recalls| then None
    else if j == 0 then Some(BestFrom(times, 0))
    else
      var w := Fraction(target, recalls[j - 1], recalls[j]);
      Some(Blend(w, BestFrom(times, j - 1), BestFrom(times, j)))
  }

  /** time_and_std_at_recall, the mean only. */
  function RouterTime(recalls: seq<real>, times: seq<real>, target: real): Option<real>
    requires |recalls| == |times| > 0
  {
    var j := SearchLeft(recalls, target);
    if j == |recalls| then None
    else if j == 0 then Some(times[0])
    else
      var t := Fraction(target, recalls[j - 1], recalls[j]);
      Some(Linear(t, times[j - 1], times[j]))
  }

  /** Both run straight between the two recalls around the target: the envelope from one suffix minimum to
      the next, the router from one time to the next.  At or below the lowest recall they take the first
      value, above the highest none. */
  lemma InterpIsStraight(recalls: seq<real>, times: seq<real>, target: real)
    requires |recalls| == |times| > 0
    ensures var j, env, router := SearchLeft(recalls, target), InterpAtRecall(recalls, times, target),
                                  RouterTime(recalls, times, target);
            && (j == |recalls| ==> env.None? && router.None?)
            && (j == 0 ==> env == Some(BestFrom(times, 0)) && router == Some(times[0]))
            && (0 < j < |recalls| ==>
                  && env.Some? && router.Some?
                  && OnLine(target, env.value, recalls[j - 1], BestFrom(times, j - 1), recalls[j], BestFrom(times, j))
                  && OnLine(target, router.value, recalls[j - 1], times[j - 1], recalls[j], times[j]))
  {
    hide OnLine, Blend, Linear, Fraction, BestFrom;
    var j := SearchLeft(recalls, target);
    if 0 < j < |recalls| {
      BlendOnLine(target, recalls[j - 1], recalls[j], BestFrom(times, j - 1), BestFrom(times, j));
      BlendOnLine(target, recalls[j - 1], recalls[j], times[j - 1], times[j]);
    }
  }

  lemma BlendOnLine(target: real, x0: real, x1: real, lo: real, hi: real)
    requires x0 < x1
    ensures OnLine(target, Blend(Fraction(target, x0, x1), lo, hi), x0, lo, x1, hi)
    ensures OnLine(target, Linear(Fraction(target, x0, x1), lo, hi), x0, lo, x1, hi)
  {
    var f, d := Fraction(target, x0, x1), x1 - x0;
    FractionTimes(target, x0, x1);
    BlendIs(f, lo, hi);
    assert Blend(f, lo, hi) * d == lo * (d - f * d) + hi * (f * d);
  }

  lemma FractionTimes(target: real, x0: real, x1: real)
    requires x0 < x1
    ensures Fraction(target, x0, x1) * (x1 - x0) == target - x0
  {
  }

  lemma BestRises(times: seq<real>, i: nat, j: nat)
    requires i <= j < |times|
    ensures BestFrom(times, i) <= BestFrom(times, j)
  {
    var k :| j <= k < |times| && BestFrom(times, j) == times[k];
  }

  lemma ProductNonNegative(a: real, b: real)
    requires a >= 0.0 && b >= 0.0
    ensures a * b >= 0.0
  {
  }

  lemma Share(a: real, d: real)
    requires 0.0 < a <= d
    ensures 0.0 < a / d <= 1.0
  {
  }

  lemma WeightInUnit(lo: real, hi: real, target: real)
    requires lo < target <= hi
    ensures 0.0 < Fraction(target, lo, hi) <= 1.0
  {
    Share(target - lo, hi - lo);
  }

  lemma BlendIs(w: real, lo: real, hi: real)
    ensures Blend(w, lo, hi) == Linear(w, lo, hi) == lo + w * (hi - lo)
  {
  }

  lemma BlendBounds(w: real, lo: real, hi: real)
    requires 0.0 <= w <= 1.0 && lo <= hi
    ensures lo <= Blend(w, lo, hi) <= hi
  {
    BlendIs(w, lo, hi);
    ProductNonNegative(w, hi - lo);
    ProductNonNegative(1.0 - w, hi - lo);
    assert hi - Blend(w, lo, hi) == (1.0 - w) * (hi - lo);
  }

  lemma BlendMonotone(w: real, w': real, lo: real, hi: real)
    requires w <= w' && lo <= hi
    ensures Blend(w, lo, hi) <= Blend(w', lo, hi)
  {
    ProductNonNegative(w' - w, hi - lo);
    assert Blend(w', lo, hi) - Blend(w, lo, hi) == (w' - w) * (hi - lo);
  }

  lemma BlendBelow(w: real, lo: real, hi: real, lo': real, hi': real)
    requires 0.0 <= w <= 1.0 && lo <= lo' && hi <= hi'
    ensures Blend(w, lo, hi) <= Blend(w, lo', hi')
  {
    ProductNonNegative(1.0 - w, lo' - lo);
    ProductNonNegative(w, hi' - hi);
    assert Blend(w, lo', hi') - Blend(w, lo, hi) == (1.0 - w) * (lo' - lo) + w * (hi' - hi);
  }

  /** The interpolated time lies between the envelope's values around the target. */
  lemma InterpBounds(recalls: seq<real>, times: seq<real>, target: real)
    requires |recalls| == |times| > 0 && SearchLeft(recalls, target) < |recalls|
    ensures var j := SearchLeft(recalls, target);
            && InterpAtRecall(recalls, times, target).value <= BestFrom(times, j)
            && (j > 0 ==> BestFrom(times, j - 1) <= InterpAtRecall(recalls, times, target).value)
            && (j == 0 ==> BestFrom(times, 0) == InterpAtRecall(recalls, times, target).value)
  {
    var j := SearchLeft(recalls, target);
    if j > 0 {
      WeightInUnit(recalls[j - 1], recalls[j], target);
      BestRises(times, j - 1, j);
      BlendBounds(Fraction(target, recalls[j - 1], recalls[j]), BestFrom(times, j - 1), BestFrom(times, j));
    }
  }

  /** A time is reported exactly when some setting reaches the target, and it never exceeds the time of
      any setting that does. */
  lemma InterpIsAffordable(recalls: seq<real>, times: seq<real>, target: real)
    requires |recalls| == |times| > 0 && Ascending(recalls)
    ensures InterpAtRecall(recalls, times, target).Some? <==> exists i :: 0 <= i < |recalls| && recalls[i] >= target
    ensures InterpAtRecall(recalls, times, target).Some? ==>
              forall i :: 0 <= i < |recalls| && recalls[i] >= target ==>
                InterpAtRecall(recalls, times, target).value <= times[i]
  {
    var j := SearchLeft(recalls, target);
    if j < |recalls| {
      InterpBounds(recalls, times, target);
    }
  }

  /** Asking for more recall never costs less. */
  lemma InterpMonotone(recalls: seq<real>, times: seq<real>, target: real, target': real)
    requires |recalls| == |times| > 0 && Ascending(recalls) && target <= target'
    requires InterpAtRecall(recalls, times, target').Some?
    ensures InterpAtRecall(recalls, times, target).Some?
    ensures InterpAtRecall(recalls, times, target).value <= InterpAtRecall(recalls, times, target').value
  {
    hide Blend, BestFrom;
    var j, j' := SearchLeft(recalls, target), SearchLeft(recalls, target');
    assert j <= j';
    InterpBounds(recalls, times, target);
    InterpBounds(recalls, times, target');
    if j < j' {
      BestRises(times, j, j' - 1);
    } else if j > 0 {
      BestRises(times, j - 1, j);
      SameSegment(recalls[j - 1], recalls[j], target, target', BestFrom(times, j - 1), BestFrom(times, j));
    }
  }

  lemma SameSegment(lo: real, hi: real, target: real, target': real, a: real, b: real)
    requires lo < hi && target <= target' && a <= b
    ensures Blend(Fraction(target, lo, hi), a, b) <= Blend(Fraction(target', lo, hi), a, b)
  {
    hide Blend;
    SameGap(lo, hi, target, target');
    BlendMonotone(Fraction(target, lo, hi), Fraction(target', lo, hi), a, b);
  }

  lemma SameGap(lo: real, hi: real, target: real, target': real)
    requires lo < hi && target <= target'
    ensures (target - lo) / (hi - lo) <= (target' - lo) / (hi - lo)
  {
  }

  /** On one sorted curve the envelope time never exceeds the plain interpolation ... */
  lemma InterpBelowRouter(recalls: seq<real>, times: seq<real>, target: real)
    requires |recalls| == |times| > 0
    ensures InterpAtRecall(recalls, times, target).Some? <==> RouterTime(recalls, times, target).Some?
    ensures InterpAtRecall(recalls, times, target).Some? ==>
              InterpAtRecall(recalls, times, target).value <= RouterTime(recalls, times, target).value
  {
    var j := SearchLeft(recalls, target);
    if 0 < j < |recalls| {
      var w := Fraction(target, recalls[j - 1], recalls[j]);
      WeightInUnit(recalls[j - 1], recalls[j], target);
      BlendBelow(w, BestFrom(times, j - 1), BestFrom(times, j), times[j - 1], times[j]);
      BlendIs(w, times[j - 1], times[j]);
    }
  }

  lemma BestIsFirst(times: seq<real>, i: nat)
    requires i < |times| && Ascending(times)
    ensures BestFrom(times, i) == times[i]
  {
    var k :| i <= k < |times| && BestFrom(times, i) == times[k];
    assert i == k || times[i] <= times[k];
  }

  /** ... and equals it when more recall never measured faster. */
  lemma InterpEqualsRouter(recalls: seq<real>, times: seq<real>, target: real)
    requires |recalls| == |times| > 0 && Ascending(times)
    ensures InterpAtRecall(recalls, times, target) == RouterTime(recalls, times, target)
  {
    hide Blend, Linear, Ascending;
    var j := SearchLeft(recalls, target);
    if j < |recalls| {
      BestIsFirst(times, j);
      if j > 0 {
        BestIsFirst(times, j - 1);
        BlendIs(Fraction(target, recalls[j - 1], recalls[j]), times[j - 1], times[j]);
      }
    }
  }

  // ---------- whole curves ----------

  function Recalls(s: seq<Row>): (r: seq<real>)
    ensures |r| == |s| && forall i :: 0 <= i < |s| ==> r[i] == s[i].recall
  {
    seq(|s|, i requires 0 <= i < |s| => s[i].recall)
  }

  function Times(s: seq<Row>): (r: seq<real>)
    ensures |r| == |s| && forall i :: 0 <= i < |s| ==> r[i] == s[i].ms
  {
    seq(|s|, i requires 0 <= i < |s| => s[i].ms)
  }

  /** The envelope time of a curve whose rows np.argsort put into the order `s`. */
  function EnvelopeTime(s: seq<Row>, target: real): Option<real>
    requires s != []
  {
    InterpAtRecall(Recalls(s), Times(s), target)
  }

  /** The router's time: it sorts the curve itself, stably. */
  function CurveTime(curve: seq<Row>, target: real): Option<real>
    requires curve != []
  {
    RouterTime(Recalls(SortRows(curve)), Times(SortRows(curve)), target)
  }

  /** How many rows of a sorted curve miss the target. */
  function Misses(s: seq<Row>, target: real): (j: nat)
    ensures j <= |s| && (j < |s| ==> s[j].recall >= target)
    ensures forall i :: 0 <= i < j ==> s[i].recall < target
  {
    SearchLeft(Recalls(s), target)
  }

  function Smaller(a: real, b: real): real {
    if a < b then a else b
  }

  /** Where the target lies between the levels around it. */
  function Weight(t: seq<Row>, target: real): real
    requires 0 < Misses(t, target) < |t|
  {
    var j := Misses(t, target);
    Fraction(target, t[j - 1].recall, t[j].recall)
  }

  /** The envelope time when `p` is the last row below the target and `cheapest` the best time that
      reaches it. */
  function TimeVia(w: real, p: Row, cheapest: real): real {
    Blend(w, Smaller(p.ms, cheapest), cheapest)
  }

  lemma BestSplits(times: seq<real>, i: nat)
    requires 0 < i < |times|
    ensures BestFrom(times, i - 1) == Smaller(times[i - 1], BestFrom(times, i))
  {
  }

  lemma EnvelopeVia(s: seq<Row>, target: real)
    requires s != []
    ensures var j := Misses(s, target);
            && (j == |s| <==> EnvelopeTime(s, target).None?)
            && (j == 0 ==> EnvelopeTime(s, target) == Some(BestFrom(Times(s), 0)))
            && (0 < j < |s| ==>
                  EnvelopeTime(s, target) == Some(TimeVia(Weight(s, target), s[j - 1], BestFrom(Times(s), j))))
  {
    hide BestFrom, Blend, Fraction;
    var j := Misses(s, target);
    if 0 < j < |s| {
      BestSplits(Times(s), j);
    }
  }

  /** Two arrangements of a curve agree on the levels around the target and on the cheapest time that
      reaches it; they may differ in which row of the lower level comes last. */
  lemma SameLevels(s: seq<Row>, t: seq<Row>, target: real)
    requires |s| == |t| && (forall p :: p in s <==> p in t) && ByRecall(s) && ByRecall(t)
    ensures var j, j' := Misses(s, target), Misses(t, target);
            && (j == |s| <==> j' == |t|) && (j == 0 <==> j' == 0)
            && (j < |s| ==> s[j].recall == t[j'].recall && BestFrom(Times(s), j) == BestFrom(Times(t), j'))
            && (j > 0 ==> s[j - 1].recall == t[j' - 1].recall)
  {
    hide BestFrom, Misses;
    OneSide(s, t, target);
    OneSide(t, s, target);
  }

  lemma OneSide(s: seq<Row>, t: seq<Row>, target: real)
    requires (forall p :: p in s ==> p in t) && ByRecall(t)
    ensures var j, j' := Misses(s, target), Misses(t, target);
            && (j < |s| ==> j' < |t| && t[j'].recall <= s[j].recall)
            && (j > 0 ==> j' > 0 && s[j - 1].recall <= t[j' - 1].recall)
            && (j < |s| && ByRecall(s) ==> BestFrom(Times(t), j') <= BestFrom(Times(s), j))
  {
    var j, j' := Misses(s, target), Misses(t, target);
    if j < |s| {
      PositionReaches(t, s[j], target);
    }
    if j > 0 {
      assert s[j - 1] in t;
      var i :| 0 <= i < |t| && t[i] == s[j - 1];
      assert i < j';
    }
    if j < |s| && ByRecall(s) {
      var i :| j <= i < |s| && BestFrom(Times(s), j) == Times(s)[i];
      PositionReaches(t, s[i], target);
    }
  }

  lemma PositionReaches(t: seq<Row>, p: Row, target: real)
    requires p in t && p.recall >= target && ByRecall(t)
    ensures Misses(t, target) < |t| && t[Misses(t, target)].recall <= p.recall
    ensures BestFrom(Times(t), Misses(t, target)) <= p.ms
  {
    var i :| 0 <= i < |t| && t[i] == p;
    assert i >= Misses(t, target);
    assert Times(t)[i] == p.ms;
  }

  /** Exactly where an argsort order can matter: some row of the largest recall below the target is slow
      enough to lift the envelope over the router's line.  `t` is the stable order, `t[j - 1]` and `t[j]`
      the two rows the router uses. */
  ghost predicate SlowTie(curve: seq<Row>, target: real) {
    var t := SortRows(curve);
    var j := Misses(t, target);
    0 < j < |t| && exists p :: p in curve && p.recall == t[j - 1].recall
                               && TimeVia(Weight(t, target), p, BestFrom(Times(t), j))
                                  > Linear(Weight(t, target), t[j - 1].ms, t[j].ms)
  }

  /** Both scripts report a time for the same targets, and that of the envelope is no larger. */
  ghost predicate AtMost(envelope: Option<real>, router: Option<real>) {
    (envelope.None? <==> router.None?) && (envelope.Some? ==> envelope.value <= router.value)
  }

  lemma RouterVia(curve: seq<Row>, target: real)
    requires curve != []
    ensures var t, j := SortRows(curve), Misses(SortRows(curve), target);
            && (j == |t| <==> CurveTime(curve, target).None?)
            && (j == 0 ==> CurveTime(curve, target) == Some(t[0].ms))
            && (0 < j < |t| ==>
                  CurveTime(curve, target) == Some(Linear(Weight(t, target), t[j - 1].ms, t[j].ms)))
  {
    hide Linear, Fraction, SortRows;
  }

  /** What one arrangement costs, in terms of the stable order. */
  lemma ArrangedTime(curve: seq<Row>, s: seq<Row>, target: real)
    requires curve != [] && Arrangement(curve, s)
    ensures |s| == |curve|
    ensures var t, j := SortRows(curve), Misses(SortRows(curve), target);
            && (j == |t| <==> EnvelopeTime(s, target).None?)
            && (j == 0 ==> EnvelopeTime(s, target) == Some(BestFrom(Times(t), 0)))
            && (0 < j < |t| ==>
                  && 0 < Misses(s, target) < |s|
                  && s[Misses(s, target) - 1] in curve && s[Misses(s, target) - 1].recall == t[j - 1].recall
                  && EnvelopeTime(s, target)
                     == Some(TimeVia(Weight(t, target), s[Misses(s, target) - 1], BestFrom(Times(t), j))))
  {
    hide BestFrom, Misses, TimeVia, EnvelopeTime, SortRows;
    var t := SortRows(curve);
    SortRowsSorted(curve);
    SameRows(s, curve);
    SameRows(t, curve);
    SameLevels(s, t, target);
    EnvelopeVia(s, target);
  }

  lemma NoTieNoExcess(curve: seq<Row>, target: real, s: seq<Row>)
    requires curve != [] && !SlowTie(curve, target) && Arrangement(curve, s)
    ensures |s| == |curve| && AtMost(EnvelopeTime(s, target), CurveTime(curve, target))
  {
    hide BestFrom, TimeVia, EnvelopeTime, CurveTime, SortRows, Linear, Misses, Weight, Arrangement;
    RouterVia(curve, target);
    ArrangedTime(curve, s, target);
    if Misses(SortRows(curve), target) == 0 {
      FirstIsNoFaster(Times(SortRows(curve)));
    }
  }

  lemma TieExceeds(curve: seq<Row>, target: real) returns (s: seq<Row>)
    requires curve != [] && SlowTie(curve, target)
    ensures Arrangement(curve, s) && |s| == |curve|
    ensures !AtMost(EnvelopeTime(s, target), CurveTime(curve, target))
  {
    hide BestFrom, TimeVia, EnvelopeTime, CurveTime, SortRows, Linear, Misses, Weight, ByRecall;
    var t := SortRows(curve);
    var j := Misses(t, target);
    RouterVia(curve, target);
    SortRowsSorted(curve);
    var p :| p in curve && p.recall == t[j - 1].recall
             && TimeVia(Weight(t, target), p, BestFrom(Times(t), j)) > Linear(Weight(t, target), t[j - 1].ms, t[j].ms);
    s := PutLast(curve, t, target, p);
    ArrangedTime(curve, s, target);
  }

  /** The envelope stays at or below the router's time, whichever order argsort returns, exactly when the
      curve holds no slow tie at the target. */
  lemma EnvelopeBelowRouter(curve: seq<Row>, target: real)
    requires curve != []
    ensures (forall s :: Arrangement(curve, s) ==>
               |s| == |curve| && AtMost(EnvelopeTime(s, target), CurveTime(curve, target)))
            <==> !SlowTie(curve, target)
  {
    hide EnvelopeTime, CurveTime, SlowTie, AtMost, Arrangement;
    if SlowTie(curve, target) {
      var s := TieExceeds(curve, target);
    } else {
      forall s | Arrangement(curve, s)
        ensures |s| == |curve| && AtMost(EnvelopeTime(s, target), CurveTime(curve, target))
      {
        NoTieNoExcess(curve, target, s);
      }
    }
  }

  lemma FirstIsNoFaster(times: seq<real>)
    requires times != []
    ensures BestFrom(times, 0) <= times[0]
  {
  }

  /** Some arrangement puts any given row of the lower level last below the target. */
  lemma PutLast(curve: seq<Row>, t: seq<Row>, target: real, p: Row) returns (s: seq<Row>)
    requires Arrangement(curve, t) && 0 < Misses(t, target) < |t|
    requires p in curve && p.recall == t[Misses(t, target) - 1].recall
    ensures Arrangement(curve, s) && 0 < Misses(s, target) < |s| && s[Misses(s, target) - 1] == p
  {
    var j := Misses(t, target);
    SameRows(t, curve);
    var i :| 0 <= i < |t| && t[i] == p;
    assert i <= j - 1;
    SwapLevel(curve, t, i, j - 1);
    s := t[i := t[j - 1]][j - 1 := t[i]];
    assert Recalls(s) == Recalls(t);
  }

  /** Distinct recalls hold no slow tie, so on them the envelope never exceeds the router's time. */
  lemma DistinctRecallsAreSafe(curve: seq<Row>, target: real)
    requires curve != [] && OneRowPerLevel(curve)
    ensures !SlowTie(curve, target)
    ensures forall s :: Arrangement(curve, s) ==>
              s == SortRows(curve) && AtMost(EnvelopeTime(s, target), CurveTime(curve, target))
  {
    hide EnvelopeTime, CurveTime, SortRows, BestFrom, TimeVia, Linear, Misses, Weight;
    var t := SortRows(curve);
    SortRowsSorted(curve);
    SameRows(t, curve);
    forall s | Arrangement(curve, s) ensures s == t && AtMost(EnvelopeTime(s, target), CurveTime(curve, target)) {
      OneArrangement(s, t);
      OneCurve(t, curve, target);
    }
    EnvelopeBelowRouter(curve, target);
  }

  lemma OneCurve(t: seq<Row>, curve: seq<Row>, target: real)
    requires curve != [] && t == SortRows(curve)
    ensures AtMost(EnvelopeTime(t, target), CurveTime(curve, target))
  {
    hide InterpAtRecall, RouterTime, SortRows;
    InterpBelowRouter(Recalls(t), Times(t), target);
  }

  /** With distinct recalls and more recall never measured faster, the two times are equal. */
  lemma MonotoneCurvesAgree(curve: seq<Row>, target: real, s: seq<Row>)
    requires curve != [] && OneRowPerLevel(curve) && Arrangement(curve, s)
    requires forall p, q :: p in curve && q in curve && p.recall < q.recall ==> p.ms <= q.ms
    ensures s != [] && EnvelopeTime(s, target) == CurveTime(curve, target)
  {
    hide InterpAtRecall, RouterTime, SortRows;
    var t := SortRows(curve);
    SortRowsSorted(curve);
    SameRows(t, curve);
    OneArrangement(s, t);
    forall i, j | 0 <= i < j < |t| ensures Times(t)[i] <= Times(t)[j] {
      assert t[i] in curve && t[j] in curve;
    }
    InterpEqualsRouter(Recalls(t), Times(t), target);
  }

  /** A curve with a slow tie: the router takes the later of the two rows at recall 0.5, an argsort may
      put the slow one last. */
  lemma TiedRecallsCanExceed()
    ensures var slow, fast, top := Row(0.5, 200.0, 5.0), Row(0.5, 1000.0, 1.0), Row(0.9, 100.0, 10.0);
            && Arrangement([slow, fast, top], [fast, slow, top])
            && EnvelopeTime([fast, slow, top], 0.7) == Some(7.5)
            && CurveTime([slow, fast, top], 0.7) == Some(5.5)
            && SlowTie([slow, fast, top], 0.7)
  {
    hide EnvelopeTime, CurveTime, RouterTime, SlowTie, SortRows, Blend, Linear, Arrangement;
    var slow, fast, top := Row(0.5, 200.0, 5.0), Row(0.5, 1000.0, 1.0), Row(0.9, 100.0, 10.0);
    TiedArrangement(slow, fast, top);
    TiedTimes([fast, slow, top], 5.0, 10.0);
    StableTime([slow, fast, top]);
    TiedTimes([slow, fast, top], 1.0, 10.0);
    BlendIs(0.5, 5.0, 10.0);
    BlendIs(0.5, 1.0, 10.0);
    ExceedingIsSlowTie([slow, fast, top], [fast, slow, top], 0.7);
  }

  lemma TiedArrangement(slow: Row, fast: Row, top: Row)
    requires slow.recall == fast.recall < top.recall
    ensures Arrangement([slow, fast, top], [fast, slow, top]) && ByRecall([slow, fast, top])
  {
    var curve := [slow, fast, top];
    assert forall i, j :: 0 <= i < j < 3 ==> curve[i].recall <= curve[j].recall;
    SwapLevel(curve, curve, 0, 1);
    assert curve[0 := curve[1]][1 := curve[0]] == [fast, slow, top];
  }

  lemma StableTime(curve: seq<Row>)
    requires curve != [] && ByRecall(curve)
    ensures CurveTime(curve, 0.7) == RouterTime(Recalls(curve), Times(curve), 0.7)
  {
    hide RouterTime, SortRows;
    SortedStays(curve);
  }

  lemma ExceedingIsSlowTie(curve: seq<Row>, s: seq<Row>, target: real)
    requires curve != [] && Arrangement(curve, s) && |s| == |curve|
    requires !AtMost(EnvelopeTime(s, target), CurveTime(curve, target))
    ensures SlowTie(curve, target)
  {
    hide EnvelopeTime, CurveTime, SlowTie, Arrangement, AtMost;
    EnvelopeBelowRouter(curve, target);
  }

  lemma TiedTimes(s: seq<Row>, below: real, above: real)
    requires |s| == 3 && s[0].recall == s[1].recall == 0.5 && s[2].recall == 0.9
    requires s[1].ms == below <= above == s[2].ms
    ensures EnvelopeTime(s, 0.7) == Some(Blend(0.5, below, above))
    ensures RouterTime(Recalls(s), Times(s), 0.7) == Some(Linear(0.5, below, above))
  {
    hide Blend, Linear, BestFrom, Fraction;
    var j := SearchLeft(Recalls(s), 0.7);
    assert j == 2;
    BestSplits(Times(s), 2);
    LastIsBest(Times(s));
    Halfway();
  }

  lemma Halfway()
    ensures Fraction(0.7, 0.5, 0.9) == 0.5
  {
  }

  lemma LastIsBest(times: seq<real>)
    requires times != []
    ensures BestFrom(times, |times| - 1) == times[|times| - 1]
  {
  }
}
