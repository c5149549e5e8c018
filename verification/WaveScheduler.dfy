/** The wave executor as a state machine: every interleaving of the goroutines of a wave.

    A wave is the set of steps found ready at the top of the loop. Each of its goroutines starts
    its step and later finishes it, well or badly; the wave is joined when all have finished. */
module WaveScheduler {

  import opened DependencyGraph
  import opened PlanModel

  type StatusMap = map<string, StepStatus>

  datatype Phase =
    | Selecting                                                            // top of the loop
    | InWave(spawned: set<string>, running: set<string>, failed: bool)     // goroutines at work
    | Returned(ok: bool)

  datatype Sched = Sched(
    st: StatusMap,
    plan: PlanStatus,
    phase: Phase,
    waves: seq<set<string>>,   // the steps of each wave so far
    started: seq<string>)      // the steps in the order they were started

  datatype Action = Select | Start(step: string) | Finish(step: string, ok: bool) | Join

  ghost predicate CanExecute(g: Graph, st: StatusMap, v: string) {
    && v in st && st[v] == Pending
    && forall d :: Edge(g, v, d) ==> d in st && st[d] == Completed
  }

  ghost function ReadySteps(g: Graph, st: StatusMap): set<string> {
    set v | v in st && CanExecute(g, st, v)
  }

  predicate AllCompleted(st: StatusMap) {
    forall v :: v in st ==> st[v] == Completed
  }

  function Initial(st: StatusMap): Sched {
    Sched(st, PlanInProgress, Selecting, [], [])
  }

  predicate Enabled(s: Sched, a: Action) {
    match a
    case Select => s.phase.Selecting?
    case Start(v) => s.phase.InWave? && v in s.phase.spawned
    case Finish(v, _) => s.phase.InWave? && v in s.phase.running
    case Join => s.phase.InWave? && s.phase.spawned == {} && s.phase.running == {}
  }

  ghost function Apply(g: Graph, s: Sched, a: Action): Sched {
    if !Enabled(s, a) then s else
    match a
    case Select =>
      var ready := ReadySteps(g, s.st);
      if ready != {} then
        s.(phase := InWave(ready, {}, false), waves := s.waves + [ready])
      else if AllCompleted(s.st) then
        s.(phase := Returned(true), plan := PlanCompleted)
      else
        s.(phase := Returned(false), plan := PlanFailed)
    case Start(v) =>
      s.(st := s.st[v := Running],
         phase := InWave(s.phase.spawned - {v}, s.phase.running + {v}, s.phase.failed),
         started := s.started + [v])
    case Finish(v, ok) =>
      s.(st := s.st[v := if ok then Completed else Failed],
         phase := InWave(s.phase.spawned, s.phase.running - {v}, s.phase.failed || !ok))
    case Join =>
      s.(phase := if s.phase.failed then Returned(false) else Selecting)
  }

  ghost function After(g: Graph, s0: Sched, run: seq<Action>): Sched {
    if run == [] then s0
    else Apply(g, After(g, s0, run[..|run| - 1]), run[|run| - 1])
  }

  /** run is an interleaving the executor can take from s0. */
  ghost predicate IsRun(g: Graph, s0: Sched, run: seq<Action>) {
    run != [] ==>
      && IsRun(g, s0, run[..|run| - 1])
      && Enabled(After(g, s0, run[..|run| - 1]), run[|run| - 1])
  }

  lemma RunSnoc(g: Graph, s0: Sched, run: seq<Action>, a: Action)
    requires IsRun(g, s0, run) && Enabled(After(g, s0, run), a)
    ensures IsRun(g, s0, run + [a])
    ensures After(g, s0, run + [a]) == Apply(g, After(g, s0, run), a)
  {
    assert (run + [a])[..|run|] == run;
  }

  // ----- Safety, failing runs included -----

  ghost predicate FailedHere(st0: StatusMap, st: StatusMap) {
    exists v :: v in st0 && v in st && st0[v] != Failed && st[v] == Failed
  }

  /** A step that moved was Pending, was started, and has all its dependencies Completed;
      nothing is started twice. */
  ghost predicate MovesAreEarned(g: Graph, st0: StatusMap, s: Sched) {
    && s.st.Keys == st0.Keys
    && (forall v :: v in st0 && s.st[v] != st0[v] ==>
          st0[v] == Pending && s.st[v] != Skipped && v in s.started)
    && (forall v, d :: v in s.started && Edge(g, v, d) ==> d in s.st && s.st[d] == Completed)
    && (forall v :: v in s.started ==> v in st0 && st0[v] == Pending && s.st[v] != Pending)
    && (forall i, j :: 0 <= i < j < |s.started| ==> s.started[i] != s.started[j])
  }

  /** Only the goroutines at work have Running steps, and those not started yet are runnable. */
  ghost predicate GoroutinesMatch(g: Graph, st0: StatusMap, s: Sched) {
    && (forall v :: v in st0 && v in s.st && s.st[v] == Running && st0[v] != Running ==>
          s.phase.InWave? && v in s.phase.running)
    && (s.phase.InWave? ==>
          && s.phase.spawned !! s.phase.running
          && (forall v :: v in s.phase.spawned ==> CanExecute(g, s.st, v))
          && (forall v :: v in s.phase.running ==> v in s.st && s.st[v] == Running && v in s.started))
  }

  /** The error channel and the result tell whether a step failed in this run. */
  ghost predicate OutcomeMatches(g: Graph, st0: StatusMap, s: Sched) {
    match s.phase
    case Selecting => !FailedHere(st0, s.st) && s.plan == PlanInProgress
    case InWave(_, _, failed) => (failed <==> FailedHere(st0, s.st)) && s.plan == PlanInProgress
    case Returned(ok) =>
      if ok then AllCompleted(s.st) && s.plan == PlanCompleted
      else if FailedHere(st0, s.st) then s.plan == PlanInProgress
      else s.plan == PlanFailed && !AllCompleted(s.st) && ReadySteps(g, s.st) == {}
  }

  /** What holds in every reachable state. */
  ghost predicate Safe(g: Graph, st0: StatusMap, s: Sched) {
    MovesAreEarned(g, st0, s) && GoroutinesMatch(g, st0, s) && OutcomeMatches(g, st0, s)
  }

  lemma FailureStays(st0: StatusMap, st: StatusMap, v: string, to: StepStatus)
    requires v in st0 && v in st && st0[v] == Pending && st[v] != Failed
    ensures FailedHere(st0, st[v := to]) <==> FailedHere(st0, st) || to == Failed
  {
    if FailedHere(st0, st) {
      var f :| f in st0 && f in st && st0[f] != Failed && st[f] == Failed;
      assert st[v := to][f] == Failed;
    }
    if to == Failed { assert st[v := to][v] == Failed; }
  }

  lemma SafeStart(g: Graph, st0: StatusMap, s: Sched, v: string)
    requires Safe(g, st0, s) && Enabled(s, Start(v))
    ensures Safe(g, st0, Apply(g, s, Start(v)))
  {
    var t := Apply(g, s, Start(v));
    assert CanExecute(g, s.st, v);
    assert MovesAreEarned(g, st0, t);
    forall w | w in t.phase.spawned ensures CanExecute(g, t.st, w) {
      assert CanExecute(g, s.st, w);
    }
    FailureStays(st0, s.st, v, Running);
  }

  lemma SafeFinish(g: Graph, st0: StatusMap, s: Sched, v: string, ok: bool)
    requires Safe(g, st0, s) && Enabled(s, Finish(v, ok))
    ensures Safe(g, st0, Apply(g, s, Finish(v, ok)))
  {
    var t := Apply(g, s, Finish(v, ok));
    assert MovesAreEarned(g, st0, t);
    forall w | w in t.phase.spawned ensures CanExecute(g, t.st, w) {
      assert CanExecute(g, s.st, w);
    }
    FailureStays(st0, s.st, v, if ok then Completed else Failed);
  }

  lemma SafeStep(g: Graph, st0: StatusMap, s: Sched, a: Action)
    requires Safe(g, st0, s) && Enabled(s, a)
    ensures Safe(g, st0, Apply(g, s, a))
  {
    match a
    case Select =>
    case Join =>
    case Start(v) => SafeStart(g, st0, s, v);
    case Finish(v, ok) => SafeFinish(g, st0, s, v, ok);
  }

  /** Every state of every interleaving is safe. */
  lemma {:induction false} RunsAreSafe(g: Graph, st0: StatusMap, run: seq<Action>)
    requires IsRun(g, Initial(st0), run)
    ensures Safe(g, st0, After(g, Initial(st0), run))
  {
    if run != [] {
      var front := run[..|run| - 1];
      RunsAreSafe(g, st0, front);
      SafeStep(g, st0, After(g, Initial(st0), front), run[|run| - 1]);
    }
  }

  /** On return no step is left Running, and a nil return means every step is Completed. */
  lemma ReturnedCleanly(g: Graph, st0: StatusMap, run: seq<Action>)
    requires IsRun(g, Initial(st0), run) && After(g, Initial(st0), run).phase.Returned?
    requires forall v :: v in st0 ==> st0[v] != Running
    ensures var s := After(g, Initial(st0), run);
            && (forall v :: v in s.st ==> s.st[v] != Running)
            && (s.phase.ok <==> AllCompleted(s.st))
  {
    RunsAreSafe(g, st0, run);
  }

  // ----- Progress and length -----

  function Pendings(st: StatusMap): set<string> {
    set v | v in st && st[v] == Pending
  }

  ghost function Measure(s: Sched): int {
    match s.phase
    case Selecting => 4 * |Pendings(s.st)| + 2
    case InWave(spawned, running, _) =>
      4 * (|Pendings(s.st)| - |spawned|) + 2 * |spawned| + |running| + 3
    case Returned(_) => 0
  }

  lemma StartMeasure(g: Graph, s: Sched, v: string)
    requires Enabled(s, Start(v)) && CanExecute(g, s.st, v) && v !in s.phase.running
    ensures Measure(Apply(g, s, Start(v))) == Measure(s) - 1
  {
    var t := Apply(g, s, Start(v));
    assert Pendings(t.st) == Pendings(s.st) - {v};
  }

  lemma FinishMeasure(g: Graph, s: Sched, v: string, ok: bool)
    requires Enabled(s, Finish(v, ok)) && v in s.st && s.st[v] == Running
    ensures Measure(Apply(g, s, Finish(v, ok))) == Measure(s) - 1
  {
    assert Pendings(Apply(g, s, Finish(v, ok)).st) == Pendings(s.st);
  }

  lemma MeasureNonNegative(g: Graph, s: Sched)
    requires s.phase.InWave? ==> forall v :: v in s.phase.spawned ==> CanExecute(g, s.st, v)
    ensures Measure(s) >= 0
  {
    if s.phase.InWave? {
      assert s.phase.spawned <= Pendings(s.st);
      Subset(s.phase.spawned, Pendings(s.st));
    }
  }

  lemma SelectMeasure(g: Graph, s: Sched)
    requires s.phase.Selecting?
    ensures Measure(Apply(g, s, Select)) < Measure(s)
  {
    var ready := ReadySteps(g, s.st);
    assert ready <= Pendings(s.st);
    Subset(ready, Pendings(s.st));
    if v :| v in ready { Subset({v}, ready); }
  }

  lemma MeasureDrops(g: Graph, st0: StatusMap, s: Sched, a: Action)
    requires Safe(g, st0, s) && Enabled(s, a)
    ensures 0 <= Measure(Apply(g, s, a)) < Measure(s)
  {
    SafeStep(g, st0, s, a);
    MeasureNonNegative(g, Apply(g, s, a));
    match a
    case Select => SelectMeasure(g, s);
    case Join =>
    case Start(v) => StartMeasure(g, s, v);
    case Finish(v, ok) => FinishMeasure(g, s, v, ok);
  }

  /** No interleaving runs on forever: a run has at most four actions per Pending step and two more. */
  lemma {:induction false} RunLength(g: Graph, st0: StatusMap, run: seq<Action>)
    requires IsRun(g, Initial(st0), run)
    ensures |run| + Measure(After(g, Initial(st0), run)) <= 4 * |Pendings(st0)| + 2
    ensures Measure(After(g, Initial(st0), run)) >= 0
  {
    if run != [] {
      var front := run[..|run| - 1];
      RunLength(g, st0, front);
      RunsAreSafe(g, st0, front);
      MeasureDrops(g, st0, After(g, Initial(st0), front), run[|run| - 1]);
    }
  }

  /** No interleaving gets stuck before returning, nor can it go on only by failing. */
  lemma NeverStuck(s: Sched) returns (a: Action)
    requires !s.phase.Returned?
    ensures Enabled(s, a) && (a.Finish? ==> a.ok)
  {
    match s.phase
    case Selecting => a := Select;
    case InWave(spawned, running, _) =>
      if v :| v in spawned {
        a := Start(v);
      } else if v :| v in running {
        a := Finish(v, true);
      } else {
        a := Join;
      }
  }

  ghost predicate FailureFree(run: seq<Action>) {
    forall i :: 0 <= i < |run| && run[i].Finish? ==> run[i].ok
  }

  /** Every run can be continued, without a further failure, until it returns. */
  lemma {:induction false} Finishes(g: Graph, st0: StatusMap, run: seq<Action>) returns (whole: seq<Action>)
    requires IsRun(g, Initial(st0), run)
    ensures IsRun(g, Initial(st0), whole) && run <= whole && After(g, Initial(st0), whole).phase.Returned?
    ensures FailureFree(run) ==> FailureFree(whole)
    decreases Measure(After(g, Initial(st0), run))
  {
    hide IsRun, After, Measure, Safe;
    var s := After(g, Initial(st0), run);
    if s.phase.Returned? {
      whole := run;
    } else {
      var a := NeverStuck(s);
      RunsAreSafe(g, st0, run);
      MeasureDrops(g, st0, s, a);
      RunSnoc(g, Initial(st0), run, a);
      whole := Finishes(g, st0, run + [a]);
    }
  }

  // ----- Waves -----

  ghost function Union(waves: seq<set<string>>): set<string> {
    if waves == [] then {} else Union(waves[..|waves| - 1]) + waves[|waves| - 1]
  }

  /** Waves are non-empty and disjoint, and drawn from the steps that were Pending. */
  ghost predicate WavesApart(st0: StatusMap, s: Sched) {
    && |Union(s.waves)| >= |s.waves|
    && Union(s.waves) == (set v | v in s.started) + (if s.phase.InWave? then s.phase.spawned else {})
    && Union(s.waves) <= Pendings(st0)
  }

  lemma UnionSnoc(waves: seq<set<string>>, wave: set<string>)
    requires wave !! Union(waves) && wave != {} && |Union(waves)| >= |waves|
    ensures Union(waves + [wave]) == Union(waves) + wave
    ensures |Union(waves + [wave])| >= |waves| + 1
  {
    assert (waves + [wave])[..|waves|] == waves;
    assert |Union(waves) + wave| == |Union(waves)| + |wave|;
    var v :| v in wave;
    Subset({v}, wave);
  }

  lemma ApartSelect(g: Graph, st0: StatusMap, s: Sched)
    requires MovesAreEarned(g, st0, s) && WavesApart(st0, s) && s.phase.Selecting?
    ensures WavesApart(st0, Apply(g, s, Select))
  {
    hide Union;
    var ready := ReadySteps(g, s.st);
    if ready != {} {
      forall u | u in ready ensures u in Pendings(st0) && u !in Union(s.waves) {
        assert s.st[u] == Pending;
      }
      UnionSnoc(s.waves, ready);
    }
  }

  lemma ApartStep(g: Graph, st0: StatusMap, s: Sched, a: Action)
    requires Safe(g, st0, s) && WavesApart(st0, s) && Enabled(s, a)
    ensures WavesApart(st0, Apply(g, s, a))
  {
    var t := Apply(g, s, a);
    match a
    case Select => ApartSelect(g, st0, s);
    case Start(v) => assert forall u :: u in t.started <==> u in s.started || u == v;
    case Finish(_, _) =>
    case Join =>
  }

  lemma {:induction false} WavesStayApart(g: Graph, st0: StatusMap, run: seq<Action>)
    requires IsRun(g, Initial(st0), run)
    ensures WavesApart(st0, After(g, Initial(st0), run))
  {
    if run != [] {
      var front := run[..|run| - 1];
      WavesStayApart(g, st0, front);
      RunsAreSafe(g, st0, front);
      ApartStep(g, st0, After(g, Initial(st0), front), run[|run| - 1]);
    }
  }

  /** There are at most as many waves as steps that were Pending. */
  lemma WaveBound(g: Graph, st0: StatusMap, run: seq<Action>)
    requires IsRun(g, Initial(st0), run)
    ensures |After(g, Initial(st0), run).waves| <= |Pendings(st0)|
  {
    WavesStayApart(g, st0, run);
    Subset(Union(After(g, Initial(st0), run).waves), Pendings(st0));
  }

  // ----- Failure-free runs: waves are the stages of readiness -----

  function AllPending(g: Graph): StatusMap {
    map v | v in g :: Pending
  }

  /** The status of a step when the waves before the current one completed prev, and those up to
      and including it complete cur. */
  predicate StatusMatches(s: Sched, prev: set<string>, cur: set<string>, v: string) {
    && v in s.st
    && s.st[v] ==
       if v !in cur then Pending
       else if s.phase.InWave? && v !in prev && v in s.phase.spawned then Pending
       else if s.phase.InWave? && v !in prev && v in s.phase.running then Running
       else Completed
  }

  ghost predicate StatusesMatch(g: Graph, s: Sched, prev: set<string>, cur: set<string>) {
    && s.st.Keys == g.Keys
    && prev <= cur <= g.Keys
    && (forall v :: v in g ==> StatusMatches(s, prev, cur, v))
    && (s.phase.InWave? ==>
          && !s.phase.failed
          && s.phase.spawned <= cur - prev
          && s.phase.running <= cur - prev
          && s.phase.spawned !! s.phase.running)
  }

  /** The steps runnable once done is complete. */
  ghost predicate IsNext(g: Graph, done: set<string>, next: set<string>) {
    forall v :: v in next <==> v in g && Ready(g, v, done)
  }

  lemma ReadyIsNext(g: Graph, s: Sched, prev: set<string>, cur: set<string>, next: set<string>)
    requires StatusesMatch(g, s, prev, cur) && s.phase.Selecting? && IsNext(g, cur, next)
    ensures ReadySteps(g, s.st) == next - cur
  {
    forall v | v in g
      ensures v in ReadySteps(g, s.st) <==> v in next - cur
    {
      assert StatusMatches(s, prev, cur, v);
      forall d | Edge(g, v, d)
        ensures (d in s.st && s.st[d] == Completed) <==> d in cur
      {
        if d in g { assert StatusMatches(s, prev, cur, d); }
      }
    }
  }

  lemma SelectMatches(g: Graph, s: Sched, prev: set<string>, cur: set<string>, next: set<string>)
    requires StatusesMatch(g, s, prev, cur) && s.phase.Selecting? && IsNext(g, cur, next) && cur <= next
    requires ReadySteps(g, s.st) == next - cur != {}
    ensures StatusesMatch(g, Apply(g, s, Select), cur, next)
  {
    var t := Apply(g, s, Select);
    forall v | v in g ensures StatusMatches(t, cur, next, v) {
      assert StatusMatches(s, prev, cur, v);
    }
  }

  lemma MoveMatches(g: Graph, s: Sched, prev: set<string>, cur: set<string>, a: Action)
    requires StatusesMatch(g, s, prev, cur)
    requires Enabled(s, a) && (a.Start? || (a.Finish? && a.ok))
    ensures StatusesMatch(g, Apply(g, s, a), prev, cur)
  {
    var t := Apply(g, s, a);
    forall v | v in g ensures StatusMatches(t, prev, cur, v) {
      assert StatusMatches(s, prev, cur, v);
    }
  }

  lemma JoinMatches(g: Graph, s: Sched, prev: set<string>, cur: set<string>)
    requires StatusesMatch(g, s, prev, cur) && Enabled(s, Join)
    ensures StatusesMatch(g, Apply(g, s, Join), prev, cur)
  {
    var t := Apply(g, s, Join);
    forall v | v in g ensures StatusMatches(t, prev, cur, v) {
      assert StatusMatches(s, prev, cur, v);
    }
  }

  ghost function StageBefore(g: Graph, m: nat): set<string> {
    if m == 0 then {} else Stage(g, m - 1)
  }

  ghost predicate WavesAreStages(g: Graph, waves: seq<set<string>>) {
    forall k :: 0 <= k < |waves| ==> waves[k] == Stage(g, k + 1) - Stage(g, k) && waves[k] != {}
  }

  ghost predicate Staged(g: Graph, s: Sched) {
    && StatusesMatch(g, s, StageBefore(g, |s.waves|), Stage(g, |s.waves|))
    && WavesAreStages(g, s.waves)
    && (s.phase.Returned? ==>
          && Stage(g, |s.waves| + 1) == Stage(g, |s.waves|)
          && (s.phase.ok <==> AllCompleted(s.st)))
  }

  lemma ReturnMatches(g: Graph, s: Sched, prev: set<string>, cur: set<string>)
    requires StatusesMatch(g, s, prev, cur) && s.phase.Selecting? && ReadySteps(g, s.st) == {}
    ensures StatusesMatch(g, Apply(g, s, Select), prev, cur)
  {
    var t := Apply(g, s, Select);
    forall v | v in g ensures StatusMatches(t, prev, cur, v) {
      assert StatusMatches(s, prev, cur, v);
    }
  }

  lemma StageIsNext(g: Graph, m: nat)
    ensures IsNext(g, Stage(g, m), Stage(g, m + 1))
  {
  }

  lemma WavesSnoc(g: Graph, waves: seq<set<string>>)
    requires WavesAreStages(g, waves)
    requires Stage(g, |waves| + 1) - Stage(g, |waves|) != {}
    ensures WavesAreStages(g, waves + [Stage(g, |waves| + 1) - Stage(g, |waves|)])
  {
  }

  lemma StagedSelect(g: Graph, s: Sched)
    requires Staged(g, s) && s.phase.Selecting?
    ensures Staged(g, Apply(g, s, Select))
  {
    hide Stage, StatusesMatch, ReadySteps, IsNext;
    var prev, cur, next := StageBefore(g, |s.waves|), Stage(g, |s.waves|), Stage(g, |s.waves| + 1);
    StageMonotone(g, |s.waves|);
    StageIsNext(g, |s.waves|);
    ReadyIsNext(g, s, prev, cur, next);
    if next - cur == {} {
      ReturnMatches(g, s, prev, cur);
      assert next == cur by {
        assert forall v :: v in next ==> v in cur || v in next - cur;
      }
    } else {
      StageInGraph(g, |s.waves| + 1);
      SelectMatches(g, s, prev, cur, next);
      WavesSnoc(g, s.waves);
    }
  }

  lemma StagedStep(g: Graph, s: Sched, a: Action)
    requires Staged(g, s) && Enabled(s, a) && (a.Finish? ==> a.ok)
    ensures Staged(g, Apply(g, s, a))
  {
    var prev, cur := StageBefore(g, |s.waves|), Stage(g, |s.waves|);
    match a
    case Select => StagedSelect(g, s);
    case Start(_) => MoveMatches(g, s, prev, cur, a);
    case Finish(_, _) => MoveMatches(g, s, prev, cur, a);
    case Join => JoinMatches(g, s, prev, cur);
  }

  lemma {:induction false} RunsAreStaged(g: Graph, run: seq<Action>)
    requires IsRun(g, Initial(AllPending(g)), run) && FailureFree(run)
    ensures Staged(g, After(g, Initial(AllPending(g)), run))
  {
    if run != [] {
      var front := run[..|run| - 1];
      assert forall i :: 0 <= i < |front| ==> front[i] == run[i];
      RunsAreStaged(g, front);
      StagedStep(g, After(g, Initial(AllPending(g)), front), run[|run| - 1]);
    }
  }

  /** In a failure-free run, wave k (counting from 0) holds exactly the steps whose longest
      dependency chain has k edges; steps above a missing ID are in no wave. */
  lemma WaveIsLongestChain(g: Graph, run: seq<Action>, k: nat, v: string)
    requires IsRun(g, Initial(AllPending(g)), run) && FailureFree(run)
    requires k < |After(g, Initial(AllPending(g)), run).waves|
    ensures v in After(g, Initial(AllPending(g)), run).waves[k]
       <==> v in g && !ReachesMissing(g, v) && HasPath(g, v, k) && !HasPath(g, v, k + 1)
  {
    RunsAreStaged(g, run);
    StageIsDepth(g, v, k);
    StageIsDepth(g, v, k + 1);
  }

  /** A finished failure-free run took as many waves as the longest chain among the steps it
      could complete has nodes. */
  lemma WaveCountIsLongestChain(g: Graph, run: seq<Action>)
    requires IsRun(g, Initial(AllPending(g)), run) && FailureFree(run)
    requires After(g, Initial(AllPending(g)), run).phase.Returned?
    ensures var m := |After(g, Initial(AllPending(g)), run).waves|;
            && (forall v :: v in Stage(g, |g|) ==> !HasPath(g, v, m))
            && (m > 0 ==> exists v :: v in Stage(g, |g|) && HasPath(g, v, m - 1))
  {
    var s := After(g, Initial(AllPending(g)), run);
    RunsAreStaged(g, run);
    hide IsRun, After, FailureFree, HasPath, Stage, StatusesMatch, ReachesMissing;
    var m := |s.waves|;
    FinalStage(g, m);
    forall v | v in Stage(g, |g|) ensures !HasPath(g, v, m) {
      StageIsDepth(g, v, m);
    }
    if m > 0 {
      var v :| v in s.waves[m - 1];
      hide Staged;
      StageIsDepth(g, v, m);
      StageIsDepth(g, v, m - 1);
    }
  }

  lemma FinalStage(g: Graph, m: nat)
    requires Stage(g, m) == Stage(g, m + 1)
    ensures Stage(g, m) == Stage(g, |g|)
  {
    StageInGraph(g, m);
    forall v | v in Stage(g, m) ensures v in Stage(g, |g|) {
      GroundedIff(g, v);
    }
    if m <= |g| {
      StageFixpoint(g, m, |g|);
    } else {
      StageMonotoneUpTo(g, |g|, m);
    }
  }

  /** The completed steps of a finished failure-free run are exactly those that depend on
      neither a cycle nor a missing ID. */
  lemma CompletedIffGrounded(g: Graph, run: seq<Action>, v: string)
    requires IsRun(g, Initial(AllPending(g)), run) && FailureFree(run) && v in g
    requires After(g, Initial(AllPending(g)), run).phase.Returned?
    ensures var s := After(g, Initial(AllPending(g)), run);
            && v in s.st
            && (s.st[v] == Completed <==> !ReachesCycle(g, v) && !ReachesMissing(g, v))
            && (s.st[v] == Completed || s.st[v] == Pending)
  {
    RunsAreStaged(g, run);
    var s := After(g, Initial(AllPending(g)), run);
    FinalStage(g, |s.waves|);
    GroundedIff(g, v);
    assert StatusMatches(s, StageBefore(g, |s.waves|), Stage(g, |s.waves|), v);
  }

  /** The executor and the structural check agree: a finished failure-free run returns nil exactly
      when the plan is acyclic and has no dangling dependency, whatever the interleaving. */
  lemma NilIffWellFormed(g: Graph, run: seq<Action>)
    requires IsRun(g, Initial(AllPending(g)), run) && FailureFree(run)
    requires After(g, Initial(AllPending(g)), run).phase.Returned?
    ensures After(g, Initial(AllPending(g)), run).phase.ok <==> !Cyclic(g) && NoDangling(g)
  {
    RunsAreStaged(g, run);
    var s := After(g, Initial(AllPending(g)), run);
    FinalStage(g, |s.waves|);
    AllGroundedIff(g);
    StageInGraph(g, |g|);
    if AllCompleted(s.st) {
      forall v | v in g ensures v in Stage(g, |g|) {
        assert StatusMatches(s, StageBefore(g, |s.waves|), Stage(g, |s.waves|), v);
      }
    }
    if Stage(g, |g|) == g.Keys {
      forall v | v in s.st ensures s.st[v] == Completed {
        assert StatusMatches(s, StageBefore(g, |s.waves|), Stage(g, |s.waves|), v);
      }
    }
  }

  /** Even with failures: a plan with a cycle or a dangling dependency never returns nil. */
  lemma IllFormedNeverNil(g: Graph, run: seq<Action>)
    requires IsRun(g, Initial(AllPending(g)), run)
    requires After(g, Initial(AllPending(g)), run).phase == Returned(true)
    ensures !Cyclic(g) && NoDangling(g)
  {
    RunsAreSafe(g, AllPending(g), run);
    var s := After(g, Initial(AllPending(g)), run);
    if exists i :: 0 <= i < |run| && run[i].Finish? && !run[i].ok {
      var i :| 0 <= i < |run| && run[i].Finish? && !run[i].ok;
      FailureSticks(g, AllPending(g), run, i);
    } else {
      NilIffWellFormed(g, run);
    }
  }

  lemma {:induction false} FailureSticks(g: Graph, st0: StatusMap, run: seq<Action>, i: nat)
    requires IsRun(g, Initial(st0), run) && i < |run| && run[i].Finish? && !run[i].ok
    ensures FailedHere(st0, After(g, Initial(st0), run).st)
    decreases |run|
  {
    var front := run[..|run| - 1];
    var s, a := After(g, Initial(st0), front), run[|run| - 1];
    RunsAreSafe(g, st0, front);
    if i < |front| {
      assert front[i] == run[i];
      FailureSticks(g, st0, front, i);
      var f :| f in st0 && f in s.st && st0[f] != Failed && s.st[f] == Failed;
      assert Apply(g, s, a).st[f] == Failed;
    } else {
      assert Apply(g, s, a).st[a.step] == Failed;
    }
  }
}
