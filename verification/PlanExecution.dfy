/** Executing a plan on the heap: readiness, the effects of steps, and the wave loop.

    What an LLM or a tool answers to each step is an input; the times read are arbitrary. */
module PlanExecution {

  import opened DependencyGraph
  import opened PlanModel
  import opened WaveScheduler

  // ----- Steps -----

  method CanExecuteStep(step: PlanStep, completedSteps: map<string, bool>) returns (can: bool)
    ensures can <==> step.status == Pending && forall d :: d in step.deps[..] ==> Marked(completedSteps, d)
  {
    if step.status != Pending {
      return false;
    }
    for i := 0 to step.deps.Length
      invariant forall d :: d in step.deps[..i] ==> Marked(completedSteps, d)
    {
      if !Marked(completedSteps, step.deps[i]) {
        assert step.deps[i] in step.deps[..];
        return false;
      }
      assert step.deps[..i + 1] == step.deps[..i] + [step.deps[i]];
    }
    assert step.deps[..step.deps.Length] == step.deps[..];
    return true;
  }

  function MarkCompleted(step: PlanStep, result: Any, now: int): PlanStep {
    step.(status := Completed, result := result, endTime := now)
  }

  function MarkFailed(step: PlanStep, error: string, now: int): PlanStep {
    step.(status := Failed, error := error, endTime := now)
  }

  /** What a goroutine is told: a result or an error, and the time. */
  datatype Answer = Result(result: Any, at: int) | Failure(error: string, at: int)

  /** The step is done, well or badly, as the answer has it. */
  ghost predicate Told(step: PlanStep, answer: Answer) {
    match answer
    case Result(result, at) => step.status == Completed && step.result == result && step.endTime == at
    case Failure(error, at) => step.status == Failed && step.error == error && step.endTime == at
  }

  // ----- The heap state against the state machine -----

  /** The plan on the heap shows the scheduler state s; infos are its steps when execution began. */
  ghost predicate Tracks(plan: Plan, infos: seq<StepInfo>, s: Sched)
    reads plan, plan.steps, set i | 0 <= i < plan.steps.Length :: plan.steps[i].deps
  {
    && plan.steps.Length == |infos|
    && s.st.Keys == Ids(infos)
    && plan.status == s.plan
    && forall i :: 0 <= i < |infos| ==>
         && plan.steps[i].id == infos[i].id
         && plan.steps[i].index == infos[i].index
         && plan.steps[i].deps[..] == infos[i].deps
         && infos[i].id in s.st
         && s.st[infos[i].id] == plan.steps[i].status
  }

  /** Each step is as execution found it, under way, or done as its answer has it. */
  ghost predicate Heard(plan: Plan, infos: seq<StepInfo>, answers: string -> Answer)
    reads plan`steps, plan.steps
  {
    && plan.steps.Length == |infos|
    && forall i :: 0 <= i < |infos| ==>
         || plan.steps[i].status == infos[i].status
         || plan.steps[i].status == Running
         || Told(plan.steps[i], answers(infos[i].id))
  }

  lemma ReadyStep(infos: seq<StepInfo>, st: StatusMap, i: nat)
    requires UniqueIds(infos) && i < |infos| && infos[i].id in st
    ensures infos[i].id in ReadySteps(BuildGraph(infos), st)
       <==> st[infos[i].id] == Pending && forall d :: d in infos[i].deps ==> d in st && st[d] == Completed
  {
    GraphEntry(infos, i);
    assert forall d :: Edge(BuildGraph(infos), infos[i].id, d) <==> d in infos[i].deps;
  }

  method CompletedStepIDs(plan: Plan, ghost infos: seq<StepInfo>, ghost s: Sched)
    returns (completedSteps: map<string, bool>)
    requires UniqueIds(infos) && Tracks(plan, infos, s)
    ensures forall v :: Marked(completedSteps, v) <==> v in s.st && s.st[v] == Completed
  {
    completedSteps := map[];
    for i := 0 to plan.steps.Length
      invariant forall k :: 0 <= k < i && plan.steps[k].status == Completed ==> Marked(completedSteps, infos[k].id)
      invariant forall v :: Marked(completedSteps, v) ==> v in s.st && s.st[v] == Completed
    {
      if plan.steps[i].status == Completed {
        completedSteps := completedSteps[plan.steps[i].id := true];
      }
    }
    forall v | v in s.st && s.st[v] == Completed ensures Marked(completedSteps, v) {
      var k :| 0 <= k < |infos| && infos[k].id == v;
    }
  }

  function IdsOf(steps: seq<PlanStep>): set<string> {
    set k | 0 <= k < |steps| :: steps[k].id
  }

  ghost predicate DistinctIds(steps: seq<PlanStep>) {
    forall j, k :: 0 <= j < k < |steps| ==> steps[j].id != steps[k].id
  }

  /** The steps with an ID among the given ones, in order. */
  function Picked(steps: seq<PlanStep>, ids: set<string>): seq<PlanStep> {
    if steps == [] then []
    else
      var n := |steps| - 1;
      Picked(steps[..n], ids) + if steps[n].id in ids then [steps[n]] else []
  }

  lemma {:induction false} PickedIn(steps: seq<PlanStep>, ids: set<string>, k: nat) returns (i: nat)
    requires k < |Picked(steps, ids)|
    ensures i < |steps| && Picked(steps, ids)[k] == steps[i] && steps[i].id in ids
    decreases |steps|
  {
    var n := |steps| - 1;
    if k < |Picked(steps[..n], ids)| {
      i := PickedIn(steps[..n], ids, k);
    } else {
      i := n;
    }
  }

  lemma {:induction false} PicksAll(steps: seq<PlanStep>, ids: set<string>, i: nat) returns (k: nat)
    requires i < |steps| && steps[i].id in ids
    ensures k < |Picked(steps, ids)| && Picked(steps, ids)[k] == steps[i]
    decreases |steps|
  {
    var n := |steps| - 1;
    if i < n {
      k := PicksAll(steps[..n], ids, i);
    } else {
      k := |Picked(steps[..n], ids)|;
    }
  }

  lemma {:induction false} PickedDistinct(steps: seq<PlanStep>, ids: set<string>)
    requires DistinctIds(steps)
    ensures DistinctIds(Picked(steps, ids))
    decreases |steps|
  {
    if steps != [] {
      var n := |steps| - 1;
      PickedDistinct(steps[..n], ids);
      forall k | 0 <= k < |Picked(steps[..n], ids)| ensures Picked(steps[..n], ids)[k].id != steps[n].id {
        var i := PickedIn(steps[..n], ids, k);
      }
    }
  }

  /** Picking known IDs picks exactly these. */
  lemma PickedIds(steps: seq<PlanStep>, ids: set<string>)
    requires ids <= IdsOf(steps)
    ensures IdsOf(Picked(steps, ids)) == ids
  {
    hide Picked;
    var picked := Picked(steps, ids);
    forall v | v in IdsOf(picked) ensures v in ids {
      var k :| 0 <= k < |picked| && picked[k].id == v;
      var i := PickedIn(steps, ids, k);
    }
    forall v | v in ids ensures v in IdsOf(picked) {
      var i :| 0 <= i < |steps| && steps[i].id == v;
      var k := PicksAll(steps, ids, i);
    }
  }

  /** Whether the i-th step is ready, as CanExecute decides it. */
  method StepIsReady(plan: Plan, i: nat, completedSteps: map<string, bool>, ghost infos: seq<StepInfo>, ghost s: Sched)
    returns (can: bool)
    requires UniqueIds(infos) && Tracks(plan, infos, s) && i < plan.steps.Length
    requires forall v :: Marked(completedSteps, v) <==> v in s.st && s.st[v] == Completed
    ensures can <==> infos[i].id in ReadySteps(BuildGraph(infos), s.st)
  {
    ReadyStep(infos, s.st, i);
    can := CanExecuteStep(plan.steps[i], completedSteps);
  }

  lemma TracksIds(plan: Plan, infos: seq<StepInfo>, s: Sched)
    requires UniqueIds(infos) && Tracks(plan, infos, s)
    ensures DistinctIds(plan.steps[..])
    ensures ReadySteps(BuildGraph(infos), s.st) <= IdsOf(plan.steps[..])
  {
    hide BuildGraph;
    assert forall i :: 0 <= i < |infos| ==> plan.steps[..][i].id == infos[i].id;
    forall v | v in ReadySteps(BuildGraph(infos), s.st) ensures v in IdsOf(plan.steps[..]) {
      var i :| 0 <= i < |infos| && infos[i].id == v;
      assert plan.steps[..][i].id == v;
    }
  }

  /** The steps ready to execute, in the order of the plan and each once. */
  method GetPendingSteps(plan: Plan, ghost infos: seq<StepInfo>, ghost s: Sched) returns (pending: seq<PlanStep>)
    requires UniqueIds(infos) && Tracks(plan, infos, s)
    ensures pending == Picked(plan.steps[..], ReadySteps(BuildGraph(infos), s.st))
    ensures IdsOf(pending) == ReadySteps(BuildGraph(infos), s.st) && DistinctIds(pending)
  {
    var completedSteps := CompletedStepIDs(plan, infos, s);
    ghost var ready := ReadySteps(BuildGraph(infos), s.st);
    pending := [];
    for i := 0 to plan.steps.Length
      invariant pending == Picked(plan.steps[..i], ready)
    {
      var can := StepIsReady(plan, i, completedSteps, infos, s);
      assert plan.steps[..i + 1][..i] == plan.steps[..i];
      if can {
        pending := pending + [plan.steps[i]];
      }
    }
    assert plan.steps[..plan.steps.Length] == plan.steps[..];
    hide Picked, DistinctIds, IdsOf;
    TracksIds(plan, infos, s);
    PickedIds(plan.steps[..], ready);
    PickedDistinct(plan.steps[..], ready);
  }

  method AllStepsCompleted(plan: Plan, ghost infos: seq<StepInfo>, ghost s: Sched) returns (all: bool)
    requires Tracks(plan, infos, s)
    ensures all <==> AllCompleted(s.st)
  {
    for i := 0 to plan.steps.Length
      invariant forall k :: 0 <= k < i ==> plan.steps[k].status == Completed
    {
      if plan.steps[i].status != Completed {
        assert infos[i].id in s.st;
        return false;
      }
    }
    forall v | v in s.st ensures s.st[v] == Completed {
      var k :| 0 <= k < |infos| && infos[k].id == v;
    }
    return true;
  }

  /** The position of the step with the given ID, as a goroutine looks it up. */
  method FindStep(plan: Plan, id: string) returns (i: nat)
    requires exists k :: 0 <= k < plan.steps.Length && plan.steps[k].id == id
    ensures i < plan.steps.Length && plan.steps[i].id == id
  {
    i := 0;
    while plan.steps[i].id != id
      invariant i < plan.steps.Length
      invariant forall k :: 0 <= k < i ==> plan.steps[k].id != id
      decreases plan.steps.Length - i
    {
      i := i + 1;
    }
  }

  lemma PositionOf(infos: seq<StepInfo>, id: string) returns (k: nat)
    requires id in Ids(infos)
    ensures k < |infos| && infos[k].id == id
  {
    k :| k < |infos| && infos[k].id == id;
  }

  lemma TracksUpdate(infos: seq<StepInfo>, st: StatusMap, i: nat, status: StepStatus)
    requires UniqueIds(infos) && i < |infos| && st.Keys == Ids(infos)
    requires forall k :: 0 <= k < |infos| ==> infos[k].id in st
    ensures st[infos[i].id := status].Keys == Ids(infos)
    ensures forall k :: 0 <= k < |infos| ==> infos[k].id in st[infos[i].id := status]
    ensures forall k :: 0 <= k < |infos| ==>
              st[infos[i].id := status][infos[k].id] == if k == i then status else st[infos[k].id]
  {
    assert infos[i].id in Ids(infos);
    forall k | 0 <= k < |infos| && k != i ensures infos[k].id != infos[i].id {
      if k < i { assert infos[k].id != infos[i].id; }
    }
  }

  /** A goroutine begins its step, at place i. */
  method StartStep(plan: Plan, id: string, ghost infos: seq<StepInfo>, ghost answers: string -> Answer, ghost s: Sched)
    returns (i: nat, now: int)
    requires UniqueIds(infos) && Tracks(plan, infos, s) && Enabled(s, Start(id)) && id in Ids(infos)
    requires Heard(plan, infos, answers)
    modifies plan.steps
    ensures Tracks(plan, infos, Apply(BuildGraph(infos), s, Start(id))) && Heard(plan, infos, answers)
    ensures i < plan.steps.Length && plan.steps[i].id == id
    ensures plan.steps[..] == old(plan.steps[..])[i := old(plan.steps[i]).(status := Running, startTime := now)]
  {
    hide BuildGraph, Ids, UniqueIds, Told;
    ghost var k := PositionOf(infos, id);
    assert plan.steps[k].id == id;
    i := FindStep(plan, id);
    now := *;
    TracksUpdate(infos, s.st, i, Running);
    plan.steps[i] := plan.steps[i].(status := Running, startTime := now);
  }

  /** A goroutine gets its answer and marks the step, at place i. */
  method FinishStep(plan: Plan, id: string, answers: string -> Answer, ghost infos: seq<StepInfo>, ghost s: Sched)
    returns (ok: bool, i: nat)
    requires UniqueIds(infos) && Tracks(plan, infos, s) && id in Ids(infos)
    requires s.phase.InWave? && id in s.phase.running && Heard(plan, infos, answers)
    modifies plan.steps
    ensures Tracks(plan, infos, Apply(BuildGraph(infos), s, Finish(id, ok))) && Heard(plan, infos, answers)
    ensures i < plan.steps.Length && plan.steps[i].id == id && ok == answers(id).Result?
    ensures plan.steps[..] == old(plan.steps[..])[i :=
              match answers(id)
              case Result(result, at) => old(plan.steps[i]).(status := Completed, result := result, endTime := at)
              case Failure(error, at) => old(plan.steps[i]).(status := Failed, error := error, endTime := at)]
  {
    hide BuildGraph, Ids, UniqueIds;
    ghost var k := PositionOf(infos, id);
    assert plan.steps[k].id == id;
    i := FindStep(plan, id);
    var answer := answers(id);
    ok := answer.Result?;
    TracksUpdate(infos, s.st, i, if ok then Completed else Failed);
    match answer {
      case Result(result, at) => plan.steps[i] := MarkCompleted(plan.steps[i], result, at);
      case Failure(error, at) => plan.steps[i] := MarkFailed(plan.steps[i], error, at);
    }
  }

  /** run is an interleaving of executing a plan whose steps are infos. */
  ghost predicate Execution(infos: seq<StepInfo>, answers: string -> Answer, run: seq<Action>) {
    UniqueIds(infos) && IsRun(BuildGraph(infos), Initial(Statuses(infos)), run) && Follows(run, answers)
  }

  /** A step finishes well exactly when its answer is a result. */
  ghost predicate Follows(run: seq<Action>, answers: string -> Answer) {
    forall i :: 0 <= i < |run| && run[i].Finish? ==> run[i].ok == answers(run[i].step).Result?
  }

  ghost function StateAfter(infos: seq<StepInfo>, run: seq<Action>): Sched {
    After(BuildGraph(infos), Initial(Statuses(infos)), run)
  }

  /** Taking one more action keeps a run a run, brings it nearer its end, and concerns a known step. */
  lemma TakeAction(infos: seq<StepInfo>, answers: string -> Answer, run: seq<Action>, a: Action)
    requires Execution(infos, answers, run)
    requires Enabled(StateAfter(infos, run), a) && (a.Finish? ==> a.ok == answers(a.step).Result?)
    ensures Execution(infos, answers, run + [a])
    ensures StateAfter(infos, run + [a]) == Apply(BuildGraph(infos), StateAfter(infos, run), a)
    ensures 0 <= Measure(StateAfter(infos, run + [a])) < Measure(StateAfter(infos, run))
    ensures a.Start? || a.Finish? ==> a.step in Ids(infos)
  {
    var g, st0 := BuildGraph(infos), Statuses(infos);
    var s := After(g, Initial(st0), run);
    hide Measure, IsRun, After, Apply, Statuses, BuildGraph, Safe, Follows, Enabled;
    RunsAreSafe(g, st0, run);
    MeasureDrops(g, st0, s, a);
    RunSnoc(g, Initial(st0), run, a);
    FollowsSnoc(run, answers, a);
    ConcernsStep(infos, s, a);
  }

  lemma FollowsSnoc(run: seq<Action>, answers: string -> Answer, a: Action)
    requires Follows(run, answers) && (a.Finish? ==> a.ok == answers(a.step).Result?)
    ensures Follows(run + [a], answers)
  {
  }

  lemma ConcernsStep(infos: seq<StepInfo>, s: Sched, a: Action)
    requires Safe(BuildGraph(infos), Statuses(infos), s) && Enabled(s, a)
    ensures a.Start? || a.Finish? ==> a.step in Ids(infos)
  {
    GraphDomain(infos);
    if a.Start? { assert CanExecute(BuildGraph(infos), s.st, a.step); }
  }

  /** The IDs of the steps listed at the given places. */
  ghost function IdsAt(pending: seq<PlanStep>, places: set<int>): set<string>
    requires forall k :: k in places ==> 0 <= k < |pending|
  {
    set k | k in places :: pending[k].id
  }

  /** With distinct IDs a goroutine's place in the list is as good as its step's ID. */
  lemma TakePlace(pending: seq<PlanStep>, places: set<int>, k: int)
    requires DistinctIds(pending) && k in places && forall j :: j in places ==> 0 <= j < |pending|
    ensures IdsAt(pending, places - {k}) == IdsAt(pending, places) - {pending[k].id}
  {
    forall j | j in places && j != k ensures pending[j].id != pending[k].id {
      if j < k { assert pending[j].id != pending[k].id; }
    }
  }

  lemma AddPlace(pending: seq<PlanStep>, places: set<int>, k: int)
    requires 0 <= k < |pending| && forall j :: j in places ==> 0 <= j < |pending|
    ensures IdsAt(pending, places + {k}) == IdsAt(pending, places) + {pending[k].id}
  {
  }

  lemma AllPlaces(pending: seq<PlanStep>, places: set<int>)
    requires forall k :: k in places <==> 0 <= k < |pending|
    ensures IdsAt(pending, places) == IdsOf(pending)
  {
  }

  /** The plan on the heap shows where a run stands, and what it has been told so far. */
  ghost predicate Shows(plan: Plan, infos: seq<StepInfo>, answers: string -> Answer, run: seq<Action>)
    reads plan, plan.steps, set i | 0 <= i < plan.steps.Length :: plan.steps[i].deps
  {
    Execution(infos, answers, run) && Tracks(plan, infos, StateAfter(infos, run)) && Heard(plan, infos, answers)
  }

  /** A goroutine's first action, in a run. */
  method BeginStep(plan: Plan, id: string, ghost infos: seq<StepInfo>, ghost answers: string -> Answer,
                   ghost run0: seq<Action>)
    returns (ghost run: seq<Action>)
    requires Shows(plan, infos, answers, run0)
    requires Enabled(StateAfter(infos, run0), Start(id))
    modifies plan.steps
    ensures run == run0 + [Start(id)]
    ensures Shows(plan, infos, answers, run)
    ensures StateAfter(infos, run) == Apply(BuildGraph(infos), StateAfter(infos, run0), Start(id))
    ensures 0 <= Measure(StateAfter(infos, run)) < Measure(StateAfter(infos, run0))
  {
    assert UniqueIds(infos);
    hide Measure, Execution, StateAfter, BuildGraph, Tracks, Heard;
    TakeAction(infos, answers, run0, Start(id));
    var i, now := StartStep(plan, id, infos, answers, StateAfter(infos, run0));
    run := run0 + [Start(id)];
  }

  /** A goroutine's last action, in a run. */
  method EndStep(plan: Plan, id: string, answers: string -> Answer, ghost infos: seq<StepInfo>, ghost run0: seq<Action>)
    returns (ok: bool, ghost run: seq<Action>)
    requires Shows(plan, infos, answers, run0)
    requires Enabled(StateAfter(infos, run0), Finish(id, true))
    modifies plan.steps
    ensures run == run0 + [Finish(id, ok)]
    ensures Shows(plan, infos, answers, run)
    ensures StateAfter(infos, run) == Apply(BuildGraph(infos), StateAfter(infos, run0), Finish(id, ok))
    ensures 0 <= Measure(StateAfter(infos, run)) < Measure(StateAfter(infos, run0))
  {
    assert UniqueIds(infos);
    hide Measure, Execution, StateAfter, BuildGraph, Tracks, Heard;
    TakeAction(infos, answers, run0, Finish(id, answers(id).Result?));
    var i;
    ok, i := FinishStep(plan, id, answers, infos, StateAfter(infos, run0));
    run := run0 + [Finish(id, ok)];
  }

  /** The places of a list, one for each goroutine. */
  method Spawn(pending: seq<PlanStep>) returns (places: set<int>)
    ensures forall k :: k in places <==> 0 <= k < |pending|
  {
    places := {};
    for i := 0 to |pending|
      invariant forall k :: k in places <==> 0 <= k < i
    {
      places := places + {i};
    }
  }

  /** One wave: one goroutine for each listed step, all run in some order until every one has finished. */
  method ExecuteWave(plan: Plan, pending: seq<PlanStep>, answers: string -> Answer,
                     ghost infos: seq<StepInfo>, ghost run0: seq<Action>)
    returns (failed: bool, ghost run: seq<Action>)
    requires Shows(plan, infos, answers, run0) && DistinctIds(pending)
    requires StateAfter(infos, run0).phase == InWave(IdsOf(pending), {}, false)
    modifies plan.steps
    ensures Shows(plan, infos, answers, run)
    ensures StateAfter(infos, run).phase == if failed then Returned(false) else Selecting
    ensures 0 <= Measure(StateAfter(infos, run)) < Measure(StateAfter(infos, run0))
  {
    hide IdsAt, IdsOf, DistinctIds, Measure, Execution, StateAfter, BuildGraph;
    run, failed := run0, false;
    var waiting := Spawn(pending);
    assert Shows(plan, infos, answers, run);
    hide Shows, Tracks, Heard;
    var working := {};
    AllPlaces(pending, waiting);
    NoPlaces(pending);
    while
      invariant forall k :: k in waiting || k in working ==> 0 <= k < |pending|
      invariant Shows(plan, infos, answers, run)
      invariant StateAfter(infos, run).phase == InWave(IdsAt(pending, waiting), IdsAt(pending, working), failed)
      invariant Measure(StateAfter(infos, run)) <= Measure(StateAfter(infos, run0))
      decreases Measure(StateAfter(infos, run))
    {
      case waiting != {} =>
        var k :| k in waiting;
        PlaceIn(pending, waiting, k);
        run := BeginStep(plan, pending[k].id, infos, answers, run);
        TakePlace(pending, waiting, k);
        AddPlace(pending, working, k);
        waiting, working := waiting - {k}, working + {k};
      case working != {} =>
        var k :| k in working;
        PlaceIn(pending, working, k);
        var ok;
        ok, run := EndStep(plan, pending[k].id, answers, infos, run);
        TakePlace(pending, working, k);
        working, failed := working - {k}, failed || !ok;
    }
    NoPlaces(pending);
    JoinShows(plan, infos, answers, run);
    run := run + [Join];
  }

  lemma JoinShows(plan: Plan, infos: seq<StepInfo>, answers: string -> Answer, run: seq<Action>)
    requires Shows(plan, infos, answers, run) && Enabled(StateAfter(infos, run), Join)
    ensures Shows(plan, infos, answers, run + [Join])
    ensures StateAfter(infos, run + [Join]) == Apply(BuildGraph(infos), StateAfter(infos, run), Join)
    ensures 0 <= Measure(StateAfter(infos, run + [Join])) < Measure(StateAfter(infos, run))
  {
    hide Measure, Execution, StateAfter, BuildGraph, Heard;
    TakeAction(infos, answers, run, Join);
  }

  lemma PlaceIn(pending: seq<PlanStep>, places: set<int>, k: int)
    requires k in places && forall j :: j in places ==> 0 <= j < |pending|
    ensures pending[k].id in IdsAt(pending, places)
  {
  }

  lemma NoPlaces(pending: seq<PlanStep>)
    ensures IdsAt(pending, {}) == {}
  {
  }

  /** Nothing is ready: decide the outcome. */
  method Conclude(plan: Plan, ghost infos: seq<StepInfo>, ghost s: Sched) returns (ok: bool)
    requires Tracks(plan, infos, s) && s.phase == Selecting && ReadySteps(BuildGraph(infos), s.st) == {}
    modifies plan`status
    ensures Apply(BuildGraph(infos), s, Select).phase == Returned(ok)
    ensures Tracks(plan, infos, Apply(BuildGraph(infos), s, Select))
  {
    ok := AllStepsCompleted(plan, infos, s);
    plan.status := if ok then PlanCompleted else PlanFailed;
  }

  /** The same, in a run. */
  method EndRun(plan: Plan, ghost infos: seq<StepInfo>, ghost answers: string -> Answer, ghost run0: seq<Action>)
    returns (ok: bool, ghost run: seq<Action>)
    requires Shows(plan, infos, answers, run0) && StateAfter(infos, run0).phase == Selecting
    requires ReadySteps(BuildGraph(infos), StateAfter(infos, run0).st) == {}
    modifies plan`status
    ensures Shows(plan, infos, answers, run) && StateAfter(infos, run).phase == Returned(ok)
    ensures 0 <= Measure(StateAfter(infos, run)) < Measure(StateAfter(infos, run0))
  {
    ghost var s := StateAfter(infos, run0);
    assert Enabled(s, Select);
    hide BuildGraph, Measure, Execution, StateAfter, ReadySteps, Apply, Tracks, Heard, Statuses, Enabled;
    TakeAction(infos, answers, run0, Select);
    ok := Conclude(plan, infos, s);
    run := run0 + [Select];
  }

  lemma SpawnWave(plan: Plan, infos: seq<StepInfo>, s: Sched)
    requires Tracks(plan, infos, s) && s.phase == Selecting && ReadySteps(BuildGraph(infos), s.st) != {}
    ensures var t := Apply(BuildGraph(infos), s, Select);
      t.phase == InWave(ReadySteps(BuildGraph(infos), s.st), {}, false) && Tracks(plan, infos, t)
  {
  }

  lemma SpawnShows(plan: Plan, infos: seq<StepInfo>, answers: string -> Answer, run: seq<Action>)
    requires Shows(plan, infos, answers, run) && StateAfter(infos, run).phase == Selecting
    requires ReadySteps(BuildGraph(infos), StateAfter(infos, run).st) != {}
    ensures Shows(plan, infos, answers, run + [Select])
    ensures StateAfter(infos, run + [Select]).phase
         == InWave(ReadySteps(BuildGraph(infos), StateAfter(infos, run).st), {}, false)
    ensures 0 <= Measure(StateAfter(infos, run + [Select])) < Measure(StateAfter(infos, run))
  {
    var s := StateAfter(infos, run);
    assert Enabled(s, Select);
    hide BuildGraph, Measure, Execution, StateAfter, ReadySteps, Apply, Tracks, Heard, Statuses, Enabled;
    TakeAction(infos, answers, run, Select);
    SpawnWave(plan, infos, s);
  }

  lemma ShowsNow(plan: Plan, infos: seq<StepInfo>, answers: string -> Answer, run: seq<Action>)
    requires Shows(plan, infos, answers, run)
    ensures UniqueIds(infos) && Tracks(plan, infos, StateAfter(infos, run))
  {
  }

  /** One turn of the loop: return if nothing is ready, else run a wave. */
  method RunTurn(plan: Plan, answers: string -> Answer, ghost infos: seq<StepInfo>, ghost run0: seq<Action>)
    returns (done: bool, ok: bool, ghost run: seq<Action>)
    requires Shows(plan, infos, answers, run0)
    requires StateAfter(infos, run0).phase == Selecting
    modifies plan`status, plan.steps
    ensures Shows(plan, infos, answers, run)
    ensures StateAfter(infos, run).phase == if done then Returned(ok) else Selecting
    ensures 0 <= Measure(StateAfter(infos, run)) < Measure(StateAfter(infos, run0))
  {
    hide Picked, DistinctIds, IdsOf, BuildGraph, Measure, Execution, StateAfter, ReadySteps, UniqueIds, Apply;
    ShowsNow(plan, infos, answers, run0);
    var pending := GetPendingSteps(plan, infos, StateAfter(infos, run0));
    assert Shows(plan, infos, answers, run0);
    hide Shows, Tracks, Heard;
    if |pending| == 0 {
      NoneListed(pending);
      ok, run := EndRun(plan, infos, answers, run0);
      return true, ok, run;
    }
    SomeListed(pending);
    SpawnShows(plan, infos, answers, run0);
    var failed;
    failed, run := ExecuteWave(plan, pending, answers, infos, run0 + [Select]);
    done, ok := failed, false;
  }

  lemma NoneListed(pending: seq<PlanStep>)
    requires pending == []
    ensures IdsOf(pending) == {}
  {
  }

  lemma SomeListed(pending: seq<PlanStep>)
    requires pending != []
    ensures IdsOf(pending) != {}
  {
    assert pending[0].id in IdsOf(pending);
  }

  /** The loop proper, from a plan already marked in progress. */
  method RunWaves(plan: Plan, answers: string -> Answer, ghost infos: seq<StepInfo>)
    returns (ok: bool, ghost run: seq<Action>)
    requires UniqueIds(infos) && Tracks(plan, infos, Initial(Statuses(infos))) && Heard(plan, infos, answers)
    modifies plan`status, plan.steps
    ensures Shows(plan, infos, answers, run) && StateAfter(infos, run).phase == Returned(ok)
  {
    run, ok := [], false;
    var done := false;
    while !done
      invariant Shows(plan, infos, answers, run)
      invariant StateAfter(infos, run).phase == if done then Returned(ok) else Selecting
      decreases Measure(StateAfter(infos, run))
    {
      done, ok, run := RunTurn(plan, answers, infos, run);
    }
  }

  /** The wave executor. Its outcome is that of one run of the state machine, which the ghost
      result names; ok stands for a nil error. */
  method ExecutePlan(plan: Plan, answers: string -> Answer) returns (ok: bool, ghost run: seq<Action>)
    requires UniqueIds(Snapshot(plan.steps[..]))
    modifies plan`status, plan.steps
    ensures forall i :: 0 <= i < plan.steps.Length ==>
              && plan.steps[i].id == old(plan.steps[i].id) && plan.steps[i].index == old(plan.steps[i].index)
              && plan.steps[i].deps[..] == old(plan.steps[i].deps[..])
    ensures var infos := old(Snapshot(plan.steps[..]));
      && Execution(infos, answers, run)
      && EndsAs(infos, answers, run, plan.steps[..])
      && StateAfter(infos, run).phase == Returned(ok)
      && StateAfter(infos, run).plan == plan.status
    ensures ok <==> forall i :: 0 <= i < plan.steps.Length ==> plan.steps[i].status == Completed
  {
    hide *;
    ghost var infos := Snapshot(plan.steps[..]);
    SnapshotLists(plan.steps[..]);
    plan.status := PlanInProgress;
    BeginShown(plan, infos, answers);
    ok, run := RunWaves(plan, answers, infos);
    EndShown(plan, infos, answers, run);
  }

  /** What the plan shows at the end of a run. */
  lemma EndShown(plan: Plan, infos: seq<StepInfo>, answers: string -> Answer, run: seq<Action>)
    requires Shows(plan, infos, answers, run) && StateAfter(infos, run).phase.Returned?
    ensures Execution(infos, answers, run) && EndsAs(infos, answers, run, plan.steps[..])
    ensures StateAfter(infos, run).plan == plan.status && plan.steps.Length == |infos|
    ensures forall i :: 0 <= i < |infos| ==>
              && plan.steps[i].id == infos[i].id && plan.steps[i].index == infos[i].index
              && plan.steps[i].deps[..] == infos[i].deps
    ensures StateAfter(infos, run).phase.ok
       <==> forall i :: 0 <= i < plan.steps.Length ==> plan.steps[i].status == Completed
  {
    hide Execution, StateAfter, Told;
    OkMeansCompleted(infos, answers, run);
    CompletedIffAll(infos, StateAfter(infos, run).st);
  }

  /** How the steps stand after a run: each has the run's status for it, and one that left its first
      status is under way or holds its answer. */
  ghost predicate EndsAs(infos: seq<StepInfo>, answers: string -> Answer, run: seq<Action>, steps: seq<PlanStep>) {
    && |steps| == |infos|
    && forall i :: 0 <= i < |infos| ==>
         && infos[i].id in StateAfter(infos, run).st
         && steps[i].status == StateAfter(infos, run).st[infos[i].id]
         && (steps[i].status == infos[i].status || steps[i].status == Running || Told(steps[i], answers(infos[i].id)))
  }

  /** With answers that are all results, a plan not begun ends with all steps Completed exactly when it
      has no cycle and no dangling dependency. */
  lemma WellAnswered(infos: seq<StepInfo>, answers: string -> Answer, run: seq<Action>, steps: seq<PlanStep>)
    requires Unstarted(infos) && Execution(infos, answers, run) && EndsAs(infos, answers, run, steps)
    requires StateAfter(infos, run).phase.Returned? && forall id :: answers(id).Result?
    ensures (forall i :: 0 <= i < |steps| ==> steps[i].status == Completed)
       <==> !Cyclic(BuildGraph(infos)) && NoDangling(BuildGraph(infos))
  {
    assert FailureFree(run);
    hide BuildGraph, Statuses, Told, Cyclic, NoDangling, IsRun, After;
    StatusesAllPending(infos);
    NilIffWellFormed(BuildGraph(infos), run);
    OkMeansCompleted(infos, answers, run);
    RunsAreSafe(BuildGraph(infos), Statuses(infos), run);
    GraphDomain(infos);
    CompletedIffAll(infos, StateAfter(infos, run).st);
  }

  /** Steps as a plan starts out: uniquely named, none begun. */
  predicate Unstarted(infos: seq<StepInfo>) {
    && UniqueIds(infos)
    && forall i :: 0 <= i < |infos| ==> infos[i].status == Pending
  }

  lemma StatusesAllPending(infos: seq<StepInfo>)
    requires Unstarted(infos)
    ensures Statuses(infos) == AllPending(BuildGraph(infos))
  {
    GraphDomain(infos);
    forall i | 0 <= i < |infos| ensures infos[i].id in AllPending(BuildGraph(infos)) {
      GraphEntry(infos, i);
    }
    StatusesCharacterized(infos, AllPending(BuildGraph(infos)));
  }

  lemma SnapshotLists(ss: seq<PlanStep>)
    ensures |Snapshot(ss)| == |ss|
    ensures forall i :: 0 <= i < |ss| ==> Snapshot(ss)[i] == StepInfo(ss[i].id, ss[i].index, ss[i].deps[..], ss[i].status)
  {
  }

  /** What the plan shows at the beginning. */
  lemma BeginShown(plan: Plan, infos: seq<StepInfo>, answers: string -> Answer)
    requires UniqueIds(infos) && plan.status == PlanInProgress && |infos| == plan.steps.Length
    requires forall i :: 0 <= i < |infos| ==>
               infos[i] == StepInfo(plan.steps[i].id, plan.steps[i].index, plan.steps[i].deps[..], plan.steps[i].status)
    ensures Tracks(plan, infos, Initial(Statuses(infos))) && Heard(plan, infos, answers)
  {
    GraphDomain(infos);
    forall i | 0 <= i < |infos| ensures infos[i].id in Statuses(infos) && Statuses(infos)[infos[i].id] == infos[i].status {
      GraphEntry(infos, i);
    }
  }

  lemma CompletedIffAll(infos: seq<StepInfo>, st: StatusMap)
    requires st.Keys == Ids(infos)
    ensures AllCompleted(st) <==> forall i :: 0 <= i < |infos| ==> infos[i].id in st && st[infos[i].id] == Completed
  {
    if AllCompleted(st) {
      forall i | 0 <= i < |infos| ensures infos[i].id in st && st[infos[i].id] == Completed {
        assert infos[i].id in Ids(infos);
      }
    } else {
      var v :| v in st && st[v] != Completed;
      var i :| 0 <= i < |infos| && infos[i].id == v;
    }
  }

  lemma OkMeansCompleted(infos: seq<StepInfo>, answers: string -> Answer, run: seq<Action>)
    requires Execution(infos, answers, run) && StateAfter(infos, run).phase.Returned?
    ensures StateAfter(infos, run).phase.ok <==> AllCompleted(StateAfter(infos, run).st)
  {
    RunsAreSafe(BuildGraph(infos), Statuses(infos), run);
  }
}
