/** Creating plans and the bounded replanning loop of the Plan-Execute strategy. */
module Replanning {

  import opened Options
  import opened Text
  import opened DependencyGraph
  import opened PlanModel
  import opened PlanExecution
  import opened WaveScheduler
  import PlanSoundness
  import PlanVerification

  // ----- Step IDs -----

  function GenerateStepID(planID: string, index: nat): string {
    planID + "_step_" + Decimal(index)
  }

  /** Step IDs generated for one plan never collide. */
  lemma StepIDsDistinct(planID: string, i: nat, j: nat)
    requires GenerateStepID(planID, i) == GenerateStepID(planID, j)
    ensures i == j
  {
    var prefix := planID + "_step_";
    assert GenerateStepID(planID, i)[|prefix|..] == Decimal(i);
    assert GenerateStepID(planID, j)[|prefix|..] == Decimal(j);
    DecimalInjective(i, j);
  }

  // ----- Plans from LLM answers -----

  datatype StepData = StepData(description: string, tools: seq<string>, dependencies: seq<string>)

  method FreshStrings(ss: seq<string>) returns (a: array<string>)
    ensures fresh(a) && a[..] == ss
  {
    a := new string[|ss|](i requires 0 <= i < |ss| => ss[i]);
  }

  method NewStep(planID: string, i: nat, data: StepData) returns (step: PlanStep)
    ensures step.id == GenerateStepID(planID, i) && step.index == i && step.description == data.description
    ensures step.maxRetries == 3 && step.retries == 0
    ensures step.status == Pending && step.deps[..] == data.dependencies && step.tools[..] == data.tools
    ensures fresh(step.deps) && fresh(step.tools)
  {
    var tools := FreshStrings(data.tools);
    var deps := FreshStrings(data.dependencies);
    var metadata := new Metadata(map[]);
    step := PlanStep(GenerateStepID(planID, i), i, data.description, tools, deps, Pending, Nil, "", 0, 3,
                     null, 0, 0, metadata);
  }

  /** The plan made from the steps of an LLM answer: all Pending, uniquely named, Version 1. */
  method ParsePlan(planID: string, agentID: string, goal: string, data: seq<StepData>, now: int) returns (plan: Plan)
    ensures fresh(plan) && fresh(plan.steps)
    ensures plan.id == planID && plan.agentID == agentID && plan.goal == goal
    ensures plan.version == 1 && plan.parentPlanID == "" && plan.status == PlanPending
    ensures plan.steps.Length == |data|
    ensures forall i :: 0 <= i < |data| ==>
              && plan.steps[i].id == planID + "_step_" + Decimal(i) && plan.steps[i].index == i
              && plan.steps[i].description == data[i].description && plan.steps[i].tools[..] == data[i].tools
              && plan.steps[i].status == Pending && plan.steps[i].deps[..] == data[i].dependencies
              && plan.steps[i].maxRetries == 3
    ensures UniqueIds(Snapshot(plan.steps[..]))
  {
    var list: seq<PlanStep> := [];
    for i := 0 to |data|
      invariant |list| == i
      invariant forall k :: 0 <= k < i ==>
                  && list[k].id == GenerateStepID(planID, k) && list[k].index == k
                  && list[k].description == data[k].description && list[k].tools[..] == data[k].tools
                  && list[k].status == Pending && list[k].deps[..] == data[k].dependencies
                  && list[k].maxRetries == 3
    {
      var step := NewStep(planID, i, data[i]);
      list := list + [step];
    }
    var steps := new PlanStep[|list|](i requires 0 <= i < |list| => list[i]);
    var metadata := new Metadata(map[]);
    plan := new Plan(planID, agentID, goal, steps, PlanPending, now, now, metadata, 1, "");
    assert plan.steps[..] == list;
    forall i, j | 0 <= i < j < |list| ensures Snapshot(list)[i].id != Snapshot(list)[j].id {
      if list[i].id == list[j].id { StepIDsDistinct(planID, i, j); }
    }
  }

  // ----- The replanning loop -----

  datatype ExecutionStatus = ExecutionFailed | ExecutionCancelled | ExecutionCompleted

  /** The answer to the k-th question to the planner: the steps of a plan, or None for a failed call or
      an answer without plan. */
  type Planner = nat -> Option<seq<StepData>>

  /** What is to be executed when these steps become a plan of that ID. */
  function Planned(planID: string, data: seq<StepData>): seq<StepInfo> {
    seq(|data|, i requires 0 <= i < |data| => StepInfo(planID + "_step_" + Decimal(i), i, data[i].dependencies, Pending))
  }

  lemma PlannedUnstarted(planID: string, data: seq<StepData>)
    ensures Unstarted(Planned(planID, data))
  {
    hide Decimal;
    forall i, j | 0 <= i < j < |data| ensures Planned(planID, data)[i].id != Planned(planID, data)[j].id {
      if GenerateStepID(planID, i) == GenerateStepID(planID, j) { StepIDsDistinct(planID, i, j); }
    }
  }

  /** The plan is as the planner's answer has it, nothing begun. */
  ghost predicate ReadyToRun(plan: Plan, data: seq<StepData>)
    reads plan, plan.steps, set i | 0 <= i < plan.steps.Length :: plan.steps[i].deps
  {
    Snapshot(plan.steps[..]) == Planned(plan.id, data)
  }

  /** The plan, which began as that, was executed with these answers: its steps stand as they do at the
      end of one interleaving. */
  ghost predicate Executed(plan: Plan, data: seq<StepData>, answers: string -> Answer)
    reads plan, plan.steps
  {
    exists run :: EndedBy(Planned(plan.id, data), answers, plan.steps[..], run)
  }

  ghost predicate EndedBy(infos: seq<StepInfo>, answers: string -> Answer, steps: seq<PlanStep>, run: seq<Action>) {
    && Execution(infos, answers, run) && StateAfter(infos, run).phase.Returned?
    && EndsAs(infos, answers, run, steps)
  }

  ghost predicate AllDone(plan: Plan)
    reads plan, plan.steps
  {
    forall i :: 0 <= i < plan.steps.Length ==> plan.steps[i].status == Completed
  }

  /** Executed with answers that are all results, a plan is completed exactly when the structural check
      of what the planner asked for raises no issue, or there is nothing in it. */
  lemma DoneIffClean(plan: Plan, data: seq<StepData>, answers: string -> Answer, threshold: real)
    requires Executed(plan, data, answers) && forall id :: answers(id).Result?
    ensures AllDone(plan)
       <==> data == [] || PlanVerification.StructureReport(Planned(plan.id, data), threshold).issues == []
  {
    var infos := Planned(plan.id, data);
    PlannedUnstarted(plan.id, data);
    var run :| EndedBy(infos, answers, plan.steps[..], run);
    assert |infos| == |data|;
    hide Planned, Execution, StateAfter, EndsAs, BuildGraph, Cyclic, NoDangling;
    hide PlanVerification.StructureReport, PlanVerification.DepsKnown;
    WellAnswered(infos, answers, run, plan.steps[..]);
    PlanVerification.NoIssuesIff(infos, threshold);
    PlanVerification.DepsKnownIff(infos);
    PlanSoundness.EmptyIsWellFormed(infos);
  }

  /** Each plan of a run succeeds the one before it, for the same goal. */
  ghost predicate VersionChain(plans: seq<Plan>)
    reads plans
  {
    && (forall k :: 0 <= k < |plans| ==> plans[k].version == k + 1 && plans[k].goal == plans[0].goal)
    && (plans != [] ==> plans[0].parentPlanID == "")
    && (forall j, k :: 0 <= j && k == j + 1 && k < |plans| ==> plans[k].parentPlanID == plans[j].id)
  }

  /** The plans of one run: a version chain of separate objects, each from the planner's answer of its
      number, all but the last executed and given up. */
  ghost predicate History(plans: seq<Plan>, ask: Planner, answers: nat -> string -> Answer)
    reads plans, set p | p in plans :: p.steps
  {
    && plans != []
    && VersionChain(plans)
    && (forall k :: 0 <= k < |plans| ==> ask(k).Some?)
    && (forall i, j :: 0 <= i < j < |plans| ==> plans[i] != plans[j] && plans[i].steps != plans[j].steps)
    && (forall k :: 0 <= k < |plans| - 1 ==> Executed(plans[k], ask(k).value, answers(k)) && !AllDone(plans[k]))
  }

  class PlanExecuteStrategy {
    const allowReplanning: bool
    const maxReplanAttempts: int
    var currentPlan: Plan?
    var planHistory: seq<Plan>

    constructor (allowReplanning: bool, maxReplanAttempts: int)
      ensures this.allowReplanning == allowReplanning
      ensures this.maxReplanAttempts == if maxReplanAttempts == 0 then 3 else maxReplanAttempts
      ensures currentPlan == null && planHistory == []
    {
      this.allowReplanning := allowReplanning;
      this.maxReplanAttempts := if maxReplanAttempts == 0 then 3 else maxReplanAttempts;
      currentPlan, planHistory := null, [];
    }

    /** Makes a plan of the planner's answer. */
    method CreatePlan(agentID: string, goal: string, answer: Option<seq<StepData>>) returns (plan: Option<Plan>)
      ensures plan.Some? <==> answer.Some?
      ensures plan.Some? ==>
                && fresh(plan.value) && fresh(plan.value.steps)
                && plan.value.version == 1 && plan.value.parentPlanID == "" && plan.value.goal == goal
                && ReadyToRun(plan.value, answer.value)
    {
      match answer {
        case None => return None;
        case Some(data) =>
          var planID: string := *;
          var now: int := *;
          var p := ParsePlan(planID, agentID, goal, data, now);
          return Some(p);
      }
    }

    method Replan(agentID: string, failedPlan: Plan, answer: Option<seq<StepData>>) returns (plan: Option<Plan>)
      ensures plan.Some? <==> answer.Some?
      ensures plan.Some? ==>
                && fresh(plan.value) && fresh(plan.value.steps)
                && plan.value.version == failedPlan.version + 1 && plan.value.parentPlanID == failedPlan.id
                && plan.value.goal == failedPlan.goal
                && ReadyToRun(plan.value, answer.value)
    {
      plan := CreatePlan(agentID, failedPlan.goal, answer);
      if plan.Some? {
        plan.value.parentPlanID := failedPlan.id;
        plan.value.version := failedPlan.version + 1;
      }
    }

    /** Executes a plan not begun. */
    method Try(plan: Plan, ghost data: seq<StepData>, answers: string -> Answer) returns (ok: bool)
      requires ReadyToRun(plan, data)
      modifies plan`status, plan.steps
      ensures Executed(plan, data, answers)
      ensures ok <==> AllDone(plan)
    {
      hide EndsAs, Execution, StateAfter, Planned, Snapshot;
      PlannedUnstarted(plan.id, data);
      ghost var run;
      ok, run := ExecutePlan(plan, answers);
      assert EndedBy(Planned(plan.id, data), answers, plan.steps[..], run);
    }

    /** Executes the last plan of a history. */
    method TryLast(plan: Plan, n: nat, ask: Planner, answers: nat -> string -> Answer, ghost plans: seq<Plan>)
      returns (ok: bool)
      requires History(plans, ask, answers) && |plans| == n + 1 && plan == plans[n]
      requires ReadyToRun(plan, ask(n).value)
      modifies plan`status, plan.steps
      ensures History(plans, ask, answers) && Executed(plan, ask(n).value, answers(n))
      ensures ok <==> AllDone(plan)
    {
      hide Executed, ReadyToRun;
      ok := Try(plan, ask(n).value, answers(n));
      forall k | 0 <= k < n ensures Executed(plans[k], ask(k).value, answers(k)) && !AllDone(plans[k]) {
        assert plans[k] != plan && plans[k].steps != plan.steps;
      }
    }

    /** Replaces the last plan of a history, which has failed. */
    method ReplanLast(agentID: string, failedPlan: Plan, n: nat, ask: Planner, ghost answers: nat -> string -> Answer,
                      ghost plans: seq<Plan>)
      returns (plan: Option<Plan>)
      requires History(plans, ask, answers) && |plans| == n && failedPlan == plans[n - 1]
      requires Executed(failedPlan, ask(n - 1).value, answers(n - 1)) && !AllDone(failedPlan)
      ensures plan.Some? <==> ask(n).Some?
      ensures plan.Some? ==>
                && fresh(plan.value) && fresh(plan.value.steps)
                && History(plans + [plan.value], ask, answers)
                && ReadyToRun(plan.value, ask(n).value)
    {
      hide Executed, ReadyToRun;
      plan := Replan(agentID, failedPlan, ask(n));
      if plan.Some? {
        assert failedPlan.version == |plans|;
      }
    }

    /** One pass of the loop: execute the plan, and on failure replan if that is still allowed. */
    method Attempt(agentID: string, plan: Plan, replanAttempts: nat, ask: Planner, answers: nat -> string -> Answer,
                   ghost plans: seq<Plan>)
      returns (succeeded: bool, next: Option<Plan>)
      requires History(plans, ask, answers) && |plans| == replanAttempts + 1 && plan == plans[replanAttempts]
      requires ReadyToRun(plan, ask(replanAttempts).value)
      modifies plan`status, plan.steps
      ensures succeeded <==> AllDone(plan)
      ensures next.Some? <==>
                !succeeded && allowReplanning && replanAttempts < maxReplanAttempts && ask(replanAttempts + 1).Some?
      ensures next.None? ==>
                && History(plans, ask, answers)
                && Executed(plan, ask(replanAttempts).value, answers(replanAttempts))
      ensures next.Some? ==>
                && fresh(next.value) && fresh(next.value.steps)
                && History(plans + [next.value], ask, answers)
                && ReadyToRun(next.value, ask(replanAttempts + 1).value)
    {
      hide History, Executed, ReadyToRun, AllDone;
      next := None;
      succeeded := TryLast(plan, replanAttempts, ask, answers, plans);
      if !succeeded && allowReplanning && replanAttempts < maxReplanAttempts {
        next := ReplanLast(agentID, plan, replanAttempts + 1, ask, answers, plans);
      }
    }

    /** What the loop keeps: the history field, the plans of this call and the current plan agree. */
    ghost predicate Recorded(before: seq<Plan>, plans: seq<Plan>, plan: Plan)
      reads this
    {
      && planHistory == before + plans
      && plans != [] && plan == plans[|plans| - 1]
      && currentPlan == plan
    }

    /** A new plan becomes the current one and goes into the history field. */
    method Record(plan: Plan, ghost answer: Option<seq<StepData>>, ghost ask: Planner,
                  ghost answers: nat -> string -> Answer, ghost before: seq<Plan>, ghost plans: seq<Plan>)
      requires plans != [] && plan == plans[|plans| - 1] && planHistory == before + plans[..|plans| - 1]
      requires History(plans, ask, answers) && answer.Some? && ReadyToRun(plan, answer.value)
      modifies `currentPlan, `planHistory
      ensures Recorded(before, plans, plan)
      ensures History(plans, ask, answers) && ReadyToRun(plan, answer.value)
    {
      hide Executed, AllDone, Planned;
      currentPlan := plan;
      planHistory := planHistory + [plan];
    }

    /** How a run ends whose n-th plan is the last, and why it was not continued. */
    ghost predicate EndsWith(status: ExecutionStatus, last: Plan, n: nat, executions: nat,
                             ask: Planner, cancelled: nat -> bool, answers: nat -> string -> Answer)
      requires n >= 1 && ask(n - 1).Some?
      reads last, last.steps, set i | 0 <= i < last.steps.Length :: last.steps[i].deps
    {
      && (forall k :: 0 <= k < executions ==> !cancelled(k))
      && n <= (if maxReplanAttempts < 0 || !allowReplanning then 0 else maxReplanAttempts) + 1
      && (if maxReplanAttempts < 0 then
            status == ExecutionCompleted && executions == 0 && ReadyToRun(last, ask(n - 1).value)
          else if status == ExecutionCancelled then
            executions == n - 1 && cancelled(executions) && ReadyToRun(last, ask(n - 1).value)
          else
            && executions == n && Executed(last, ask(n - 1).value, answers(n - 1))
            && (status == ExecutionCompleted <==> AllDone(last))
            && (status == ExecutionFailed ==> !allowReplanning || n > maxReplanAttempts || ask(n).None?))
    }

    /** The loop proper, from a first plan just recorded. */
    method ReplanLoop(agentID: string, first: Plan, ask: Planner, cancelled: nat -> bool,
                      answers: nat -> string -> Answer, ghost before: seq<Plan>)
      returns (status: ExecutionStatus, ghost plans: seq<Plan>, ghost executions: nat)
      requires Recorded(before, [first], first) && History([first], ask, answers)
      requires ask(0).Some? && ReadyToRun(first, ask(0).value)
      modifies this, first`status, first.steps
      ensures plans != [] && Recorded(before, plans, plans[|plans| - 1]) && plans[0] == first
      ensures History(plans, ask, answers) && ask(|plans| - 1).Some?
      ensures forall p :: p in plans ==> p == first || fresh(p)
      ensures EndsWith(status, plans[|plans| - 1], |plans|, executions, ask, cancelled, answers)
    {
      hide History, AllDone, Executed, ReadyToRun;
      var plan := first;
      plans, executions := [first], 0;
      var replanAttempts := 0;
      var succeeded := false;
      while replanAttempts <= maxReplanAttempts && !succeeded
        invariant Recorded(before, plans, plan) && History(plans, ask, answers) && plans[0] == first
        invariant forall p :: p in plans ==> p == first || fresh(p)
        invariant (plan == first && plan.steps == old(first.steps)) || (fresh(plan) && fresh(plan.steps))
        invariant |plans| == replanAttempts + 1 && ask(replanAttempts).Some?
        invariant replanAttempts == 0 || (allowReplanning && replanAttempts <= maxReplanAttempts)
        invariant executions == replanAttempts + if succeeded then 1 else 0
        invariant forall k :: 0 <= k < executions ==> !cancelled(k)
        invariant if succeeded then
                    && maxReplanAttempts >= 0 && AllDone(plan)
                    && Executed(plan, ask(replanAttempts).value, answers(replanAttempts))
                  else ReadyToRun(plan, ask(replanAttempts).value)
        decreases maxReplanAttempts - replanAttempts, !succeeded
      {
        if cancelled(replanAttempts) {
          return ExecutionCancelled, plans, executions;
        }
        var next;
        succeeded, next := Attempt(agentID, plan, replanAttempts, ask, answers, plans);
        executions := executions + 1;
        if !succeeded {
          if next.None? {
            return ExecutionFailed, plans, executions;
          }
          plan := next.value;
          assert (plans + [plan])[..|plans|] == plans;
          plans := plans + [plan];
          Record(plan, ask(replanAttempts + 1), ask, answers, before, plans);
          replanAttempts := replanAttempts + 1;
        }
      }
      return ExecutionCompleted, plans, executions;
    }

    /** The plans this call makes, and how often one was executed, are named by ghost results. */
    method Execute(agentID: string, input: string, ask: Planner, cancelled: nat -> bool,
                   answers: nat -> string -> Answer)
      returns (status: ExecutionStatus, ghost plans: seq<Plan>, ghost executions: nat)
      modifies this
      ensures planHistory == old(planHistory) + plans
      ensures forall p :: p in plans ==> fresh(p)
      ensures currentPlan == if plans == [] then old(currentPlan) else plans[|plans| - 1]
      ensures plans == [] <==> ask(0).None?
      ensures plans == [] ==> status == ExecutionFailed && executions == 0
      ensures plans != [] ==> History(plans, ask, answers) && plans[0].goal == input && ask(|plans| - 1).Some?
      ensures plans != [] ==> EndsWith(status, plans[|plans| - 1], |plans|, executions, ask, cancelled, answers)
    {
      hide EndsWith, ReadyToRun;
      var created := CreatePlan(agentID, input, ask(0));
      if created.None? {
        return ExecutionFailed, [], 0;
      }
      var plan := created.value;
      Record(plan, ask(0), ask, answers, old(planHistory), [plan]);
      status, plans, executions := ReplanLoop(agentID, plan, ask, cancelled, answers, old(planHistory));
    }
  }
}
