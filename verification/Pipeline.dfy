/** The threaded generator rate_limited_imap (bench_gpu_1bn.py), alone and stacked twice as in
    compute_populated_index_2. The generator code runs on the consumer's thread; each stage has a
    one-thread pool whose steps may come at any time. */
module Pipeline {

  /** Where a generator is: suspended, fetching from its input, blocked in get(), exhausted, or dead
      after calling get() on None. */
  datatype Pc = Suspended | Fetching | Blocked | Closed | Raised

  /** `args` were submitted to the pool, `results` are computed, `out` was yielded; `draining` is the
      last get() after the loop. */
  datatype Stage<A, B> = Stage(pc: Pc, draining: bool, args: seq<A>, results: seq<B>, out: seq<B>)

  function Fresh<A, B>(): Stage<A, B> {
    Stage(Suspended, false, [], [], [])
  }

  /** The consumer calls next(). */
  function Resume<A, B>(s: Stage<A, B>): Stage<A, B>
    requires s.pc.Suspended?
  {
    s.(pc := if s.draining then Closed else Fetching)
  }

  /** The loop got an item: submit it, and wait for the previous one if there is one. */
  function Submit<A, B>(s: Stage<A, B>, a: A): Stage<A, B>
    requires s.pc.Fetching?
  {
    s.(args := s.args + [a], pc := if s.args == [] then Fetching else Blocked)
  }

  /** The input is exhausted: the final get() raises if nothing was ever submitted. */
  function Exhaust<A, B>(s: Stage<A, B>): Stage<A, B>
    requires s.pc.Fetching?
  {
    if s.args == [] then s.(pc := Raised) else s.(draining := true, pc := Blocked)
  }

  /** The task whose result the blocked generator waits for: the last but one, or the last. */
  function Awaited<A, B>(s: Stage<A, B>): int {
    if s.draining then |s.args| - 1 else |s.args| - 2
  }

  predicate Ready<A, B>(s: Stage<A, B>) {
    s.pc.Blocked? && 0 <= Awaited(s) < |s.results|
  }

  function Yield<A, B>(s: Stage<A, B>): Stage<A, B>
    requires Ready(s)
  {
    s.(out := s.out + [s.results[Awaited(s)]], pc := Suspended)
  }

  predicate Busy<A, B>(s: Stage<A, B>) {
    |s.results| < |s.args|
  }

  /** The pool thread finishes its next task, in submission order. */
  function Compute<A, B>(f: A -> B, s: Stage<A, B>): Stage<A, B>
    requires Busy(s)
  {
    s.(results := s.results + [f(s.args[|s.results|])])
  }

  function Map<A, B>(f: A -> B, s: seq<A>): (r: seq<B>)
    ensures |r| == |s| && forall i :: 0 <= i < |s| ==> r[i] == f(s[i])
  {
    seq(|s|, i requires 0 <= i < |s| => f(s[i]))
  }

  ghost predicate StageInv<A, B>(f: A -> B, s: Stage<A, B>) {
    && |s.out| <= |s.results| <= |s.args| && (s.draining ==> s.args != [])
    && s.results == Map(f, s.args)[..|s.results|] && s.out == s.results[..|s.out|]
    && match s.pc
       case Suspended => |s.args| == |s.out| + if s.draining || s.args == [] then 0 else 1
       case Fetching => !s.draining && |s.args| == |s.out| + if s.args == [] then 0 else 1
       case Blocked => |s.args| == |s.out| + if s.draining then 1 else 2
       case Closed => s.draining && |s.args| == |s.out|
       case Raised => !s.draining && s.args == []
  }

  /** Steps a stage still has to take for an input of n items. */
  function Left<A, B>(n: nat, s: Stage<A, B>): int {
    (n - |s.args|) + (n - |s.results|) + (n - |s.out|)
    + (n + 1 - |s.out| - if s.pc.Suspended? then 0 else 1)
    + (if s.draining || s.pc.Raised? then 0 else 1)
  }

  lemma ResumeInv<A, B>(n: nat, f: A -> B, s: Stage<A, B>)
    requires StageInv(f, s) && s.pc.Suspended?
    ensures StageInv(f, Resume(s)) && Left(n, Resume(s)) == Left(n, s) - 1
  {
  }

  lemma SubmitInv<A, B>(n: nat, f: A -> B, s: Stage<A, B>, a: A)
    requires StageInv(f, s) && s.pc.Fetching?
    ensures StageInv(f, Submit(s, a)) && Left(n, Submit(s, a)) == Left(n, s) - 1
  {
    assert Map(f, s.args + [a]) == Map(f, s.args) + [f(a)];
  }

  lemma ExhaustInv<A, B>(n: nat, f: A -> B, s: Stage<A, B>)
    requires StageInv(f, s) && s.pc.Fetching?
    ensures StageInv(f, Exhaust(s)) && Left(n, Exhaust(s)) == Left(n, s) - 1
  {
  }

  lemma YieldInv<A, B>(n: nat, f: A -> B, s: Stage<A, B>)
    requires StageInv(f, s) && Ready(s)
    ensures Awaited(s) == |s.out| && StageInv(f, Yield(s)) && Left(n, Yield(s)) == Left(n, s) - 1
  {
  }

  lemma ComputeInv<A, B>(n: nat, f: A -> B, s: Stage<A, B>)
    requires StageInv(f, s) && Busy(s)
    ensures StageInv(f, Compute(f, s)) && Left(n, Compute(f, s)) == Left(n, s) - 1
  {
    assert Map(f, s.args)[..|s.results| + 1] == Map(f, s.args)[..|s.results|] + [f(s.args[|s.results|])];
  }

  /** A stage is at most two submissions ahead of its deliveries, and delivers in order. */
  lemma StageBounds<A, B>(f: A -> B, s: Stage<A, B>)
    requires StageInv(f, s)
    ensures |s.out| <= |s.args| <= |s.out| + 2 && s.out == Map(f, s.args)[..|s.out|]
    ensures !s.pc.Blocked? ==> |s.args| <= |s.out| + 1
    ensures s.args == [] ==> !Ready(s) && !Busy(s) && !s.draining
  {
  }

  // ---------- one stage ----------

  datatype Step1 = Next | Advance | Work

  /** Consumer and generator share a thread: Advance is what that thread does inside next(). */
  predicate Enabled1<A, B>(l: seq<A>, s: Stage<A, B>, a: Step1) {
    match a
    case Next => s.pc.Suspended?
    case Advance => s.pc.Fetching? || Ready(s)
    case Work => Busy(s)
  }

  function Do1<A, B>(f: A -> B, l: seq<A>, s: Stage<A, B>, a: Step1): Stage<A, B>
    requires Enabled1(l, s, a)
  {
    match a
    case Next => Resume(s)
    case Advance =>
      if s.pc.Blocked? then Yield(s)
      else if |s.args| < |l| then Submit(s, l[|s.args|])
      else Exhaust(s)
    case Work => Compute(f, s)
  }

  ghost predicate Legal1<A, B>(f: A -> B, l: seq<A>, sched: seq<Step1>)
    decreases |sched|, 0
  {
    sched == [] ||
    (Legal1(f, l, sched[..|sched| - 1]) && Enabled1(l, Exec1(f, l, sched[..|sched| - 1]), sched[|sched| - 1]))
  }

  ghost function Exec1<A, B>(f: A -> B, l: seq<A>, sched: seq<Step1>): Stage<A, B>
    requires Legal1(f, l, sched)
    decreases |sched|, 1
  {
    if sched == [] then Fresh()
    else Do1(f, l, Exec1(f, l, sched[..|sched| - 1]), sched[|sched| - 1])
  }

  ghost predicate Inv1<A, B>(f: A -> B, l: seq<A>, s: Stage<A, B>) {
    && StageInv(f, s) && |s.args| <= |l| && s.args == l[..|s.args|]
    && (s.draining ==> s.args == l) && (s.pc.Raised? ==> l == [])
  }

  lemma {:induction false} EverySchedule1<A, B>(f: A -> B, l: seq<A>, sched: seq<Step1>)
    requires Legal1(f, l, sched)
    ensures Inv1(f, l, Exec1(f, l, sched))
    ensures |sched| + Left(|l|, Exec1(f, l, sched)) == 4 * |l| + 2
  {
    if sched != [] {
      var before := sched[..|sched| - 1];
      EverySchedule1(f, l, before);
      StepInv1(f, l, Exec1(f, l, before), sched[|sched| - 1]);
    }
  }

  lemma StepInv1<A, B>(f: A -> B, l: seq<A>, s: Stage<A, B>, a: Step1)
    requires Inv1(f, l, s) && Enabled1(l, s, a)
    ensures Inv1(f, l, Do1(f, l, s, a)) && Left(|l|, Do1(f, l, s, a)) == Left(|l|, s) - 1
  {
    hide StageInv, Left;
    match a
    case Next => ResumeInv(|l|, f, s);
    case Work => ComputeInv(|l|, f, s);
    case Advance =>
      if s.pc.Blocked? {
        YieldInv(|l|, f, s);
      } else if |s.args| < |l| {
        SubmitInv(|l|, f, s, l[|s.args|]);
      } else {
        ExhaustInv(|l|, f, s);
      }
  }

  /** In every interleaving of consumer and pool thread: elements come out in order, the generator is
      never more than two submissions ahead of what it delivered, and every maximal run takes
      4 n + 2 steps and ends with the whole input mapped, or with the exception for an empty input. */
  lemma ImapCorrect<A, B>(f: A -> B, l: seq<A>, sched: seq<Step1>)
    requires Legal1(f, l, sched)
    ensures var s := Exec1(f, l, sched);
            && |s.out| <= |l| && s.out == Map(f, l)[..|s.out|]
            && |s.out| <= |s.args| <= |s.out| + 2
            && |sched| <= 4 * |l| + 2
            && ((forall a :: !Enabled1(l, s, a)) <==> |sched| == 4 * |l| + 2)
            && ((forall a :: !Enabled1(l, s, a)) ==> if l == [] then s.pc.Raised? else s.pc.Closed? && s.out == Map(f, l))
  {
    var s := Exec1(f, l, sched);
    EverySchedule1(f, l, sched);
    Prefixed(f, l, s);
    if !(s.pc.Closed? || s.pc.Raised?) {
      assert Enabled1(l, s, Next) || Enabled1(l, s, Advance) || Enabled1(l, s, Work);
    } else if l != [] {
      assert s.out == Map(f, l);
    }
  }

  lemma Prefixed<A, B>(f: A -> B, l: seq<A>, s: Stage<A, B>)
    requires Inv1(f, l, s)
    ensures s.out == Map(f, l)[..|s.out|]
    ensures |s.args| <= |s.out| + 2
    ensures Left(|l|, s) >= 0 && (Left(|l|, s) == 0 <==> s.pc.Closed? || s.pc.Raised?)
  {
    assert Map(f, s.args) == Map(f, l)[..|s.args|];
  }

  // ---------- two stages ----------

  /** compute_populated_index_2: the second generator's loop pulls from the first. */
  datatype Two<A, B, C> = Two(first: Stage<A, B>, second: Stage<B, C>)

  /** Main is the thread that consumes; it runs the code of both generators. */
  datatype Step2 = Demand | Main | Work1 | Work2

  predicate Enabled2<A, B, C>(l: seq<A>, s: Two<A, B, C>, a: Step2) {
    match a
    case Demand => s.second.pc.Suspended?
    case Main => Ready(s.second) || (s.second.pc.Fetching? && !(s.first.pc.Blocked? && !Ready(s.first)))
    case Work1 => Busy(s.first)
    case Work2 => Busy(s.second)
  }

  /** The main thread inside next() of the second generator. */
  function MainStep<A, B, C>(l: seq<A>, s: Two<A, B, C>): Two<A, B, C>
    requires Enabled2(l, s, Main)
  {
    if s.second.pc.Blocked? then s.(second := Yield(s.second))
    else
      match s.first.pc
      case Suspended =>
        if |s.second.args| < |s.first.out| then s.(second := Submit(s.second, s.first.out[|s.second.args|]))
        else s.(first := Resume(s.first))
      case Fetching =>
        if |s.first.args| < |l| then s.(first := Submit(s.first, l[|s.first.args|]))
        else s.(first := Exhaust(s.first))
      case Blocked => s.(first := Yield(s.first))
      case Closed => s.(second := Exhaust(s.second))
      case Raised => s.(second := s.second.(pc := Raised))
  }

  function Do2<A, B, C>(f: A -> B, g: B -> C, l: seq<A>, s: Two<A, B, C>, a: Step2): Two<A, B, C>
    requires Enabled2(l, s, a)
  {
    match a
    case Demand => s.(second := Resume(s.second))
    case Main => MainStep(l, s)
    case Work1 => s.(first := Compute(f, s.first))
    case Work2 => s.(second := Compute(g, s.second))
  }

  ghost predicate Legal2<A, B, C>(f: A -> B, g: B -> C, l: seq<A>, sched: seq<Step2>)
    decreases |sched|, 0
  {
    sched == [] ||
    (Legal2(f, g, l, sched[..|sched| - 1])
     && Enabled2(l, Exec2(f, g, l, sched[..|sched| - 1]), sched[|sched| - 1]))
  }

  ghost function Exec2<A, B, C>(f: A -> B, g: B -> C, l: seq<A>, sched: seq<Step2>): Two<A, B, C>
    requires Legal2(f, g, l, sched)
    decreases |sched|, 1
  {
    if sched == [] then Two(Fresh(), Fresh())
    else Do2(f, g, l, Exec2(f, g, l, sched[..|sched| - 1]), sched[|sched| - 1])
  }

  /** How the stages hang together: the first runs only while the second is fetching, and what the
      second submitted is what the first yielded, up to one element in transit. */
  ghost predicate Link<A, B, C>(l: seq<A>, first: Stage<A, B>, second: Stage<B, C>) {
    && |second.args| <= |first.out| <= |second.args| + 1 && second.args == first.out[..|second.args|]
    && (|first.out| > |second.args| ==> second.pc.Fetching? && first.pc.Suspended?)
    && (first.pc.Fetching? || first.pc.Blocked? ==> second.pc.Fetching?)
    && (second.draining ==> first.pc.Closed?)
    && (first.pc.Raised? ==> second.args == [] && (second.pc.Fetching? || second.pc.Raised?))
    && (second.pc.Raised? ==> first.pc.Raised?)
  }

  ghost predicate Inv2<A, B, C>(f: A -> B, g: B -> C, l: seq<A>, s: Two<A, B, C>) {
    Inv1(f, l, s.first) && StageInv(g, s.second) && Link(l, s.first, s.second)
  }

  function Left2<A, B, C>(n: nat, s: Two<A, B, C>): int {
    Left(n, s.first) + Left(n, s.second)
  }

  lemma StepInv2<A, B, C>(f: A -> B, g: B -> C, l: seq<A>, s: Two<A, B, C>, a: Step2)
    requires Inv2(f, g, l, s) && Enabled2(l, s, a)
    ensures Inv2(f, g, l, Do2(f, g, l, s, a)) && Left2(|l|, Do2(f, g, l, s, a)) == Left2(|l|, s) - 1
  {
    hide StageInv, Left, Inv1;
    match a
    case Demand => ResumeInv(|l|, g, s.second);
    case Work1 => StepInv1(f, l, s.first, Work);
    case Work2 => ComputeInv(|l|, g, s.second);
    case Main =>
      if s.second.pc.Blocked? {
        YieldInv(|l|, g, s.second);
      } else {
        MainInv2(f, g, l, s);
      }
  }

  lemma MainInv2<A, B, C>(f: A -> B, g: B -> C, l: seq<A>, s: Two<A, B, C>)
    requires Inv2(f, g, l, s) && Enabled2(l, s, Main) && s.second.pc.Fetching?
    ensures Inv2(f, g, l, MainStep(l, s)) && Left2(|l|, MainStep(l, s)) == Left2(|l|, s) - 1
  {
    hide StageInv, Left, Inv1;
    InputUse(f, l, s.first);
    match s.first.pc
    case Suspended =>
      if |s.second.args| < |s.first.out| {
        SubmitInv(|l|, g, s.second, s.first.out[|s.second.args|]);
      } else {
        StepInv1(f, l, s.first, Next);
      }
    case Fetching => StepInv1(f, l, s.first, Advance);
    case Blocked => StepInv1(f, l, s.first, Advance);
    case Closed => ExhaustInv(|l|, g, s.second);
    case Raised => RaiseInv(|l|, g, s.second);
  }

  lemma InputUse<A, B>(f: A -> B, l: seq<A>, s: Stage<A, B>)
    requires Inv1(f, l, s)
    ensures s.pc.Closed? ==> s.out != []
    ensures s.pc.Fetching? && |s.args| >= |l| && s.args == [] ==> s.out == []
  {
  }

  lemma RaiseInv<A, B>(n: nat, f: A -> B, s: Stage<A, B>)
    requires StageInv(f, s) && s.pc.Fetching? && s.args == []
    ensures StageInv(f, s.(pc := Raised)) && Left(n, s.(pc := Raised)) == Left(n, s) - 1
  {
  }

  lemma {:induction false} EverySchedule2<A, B, C>(f: A -> B, g: B -> C, l: seq<A>, sched: seq<Step2>)
    requires Legal2(f, g, l, sched)
    ensures Inv2(f, g, l, Exec2(f, g, l, sched))
    ensures |sched| + Left2(|l|, Exec2(f, g, l, sched)) == 8 * |l| + 4
  {
    if sched != [] {
      var before := sched[..|sched| - 1];
      EverySchedule2(f, g, l, before);
      hide Inv2, Left2;
      StepInv2(f, g, l, Exec2(f, g, l, before), sched[|sched| - 1]);
    }
  }

  lemma Bounds2<A, B, C>(f: A -> B, g: B -> C, l: seq<A>, s: Two<A, B, C>)
    requires Inv2(f, g, l, s)
    ensures |s.second.out| <= |l| && s.second.out == Map(g, Map(f, l))[..|s.second.out|]
    ensures |s.second.out| <= |s.first.args| <= |s.second.out| + 3
  {
    hide StageInv;
    var first, second := s.first, s.second;
    StageBounds(f, first);
    StageBounds(g, second);
    Prefixed(f, l, first);
    assert Map(g, second.args) == Map(g, Map(f, l))[..|second.args|];
  }

  /** No deadlock, and the only two ways to stop. */
  lemma Stuck2<A, B, C>(f: A -> B, g: B -> C, l: seq<A>, s: Two<A, B, C>)
    requires Inv2(f, g, l, s)
    ensures (forall a :: !Enabled2(l, s, a)) <==> s.second.pc.Closed? || s.second.pc.Raised?
    ensures (forall a :: !Enabled2(l, s, a)) <==> Left2(|l|, s) == 0
    ensures Left2(|l|, s) >= 0
    ensures s.second.pc.Closed? ==> l != [] && |s.second.out| == |l|
    ensures s.second.pc.Raised? ==> l == []
  {
    var done := s.second.pc.Closed? || s.second.pc.Raised?;
    if !done {
      assert Enabled2(l, s, Demand) || Enabled2(l, s, Main) || Enabled2(l, s, Work1) || Enabled2(l, s, Work2);
    }
  }

  /** In every interleaving of the consuming thread and both pools: elements come out in order as g
      after f, the first stage never has more than three submissions beyond what the consumer got,
      and every maximal run takes 8 n + 4 steps and ends with the whole input mapped, or with the
      exception for an empty input. */
  lemma StackedImapCorrect<A, B, C>(f: A -> B, g: B -> C, l: seq<A>, sched: seq<Step2>)
    requires Legal2(f, g, l, sched)
    ensures var s := Exec2(f, g, l, sched);
            && |s.second.out| <= |l| && s.second.out == Map(g, Map(f, l))[..|s.second.out|]
            && |s.second.out| <= |s.first.args| <= |s.second.out| + 3
            && |sched| <= 8 * |l| + 4
            && ((forall a :: !Enabled2(l, s, a)) <==> |sched| == 8 * |l| + 4)
            && ((forall a :: !Enabled2(l, s, a)) ==>
                  if l == [] then s.second.pc.Raised? else s.second.pc.Closed? && s.second.out == Map(g, Map(f, l)))
  {
    hide Inv2, Left2, Enabled2;
    var s := Exec2(f, g, l, sched);
    EverySchedule2(f, g, l, sched);
    Bounds2(f, g, l, s);
    Stuck2(f, g, l, s);
  }
}
