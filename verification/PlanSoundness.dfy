/** Where the structural check and the executor meet. */
module PlanSoundness {

  import opened DependencyGraph
  import opened PlanExecution
  import opened PlanModel
  import opened PlanVerification
  import opened WaveScheduler

  ghost function Outcome(infos: seq<StepInfo>, run: seq<Action>): Sched {
    After(BuildGraph(infos), Initial(Statuses(infos)), run)
  }

  /** Whatever the interleaving, a finished run without failing step returns nil, with every step
      Completed, exactly when the plan is empty or the structural check raises no issue. */
  lemma CleanIffNil(infos: seq<StepInfo>, threshold: real, run: seq<Action>)
    requires Unstarted(infos) && IsRun(BuildGraph(infos), Initial(Statuses(infos)), run) && FailureFree(run)
    requires Outcome(infos, run).phase.Returned?
    ensures Outcome(infos, run).phase.ok <==> infos == [] || StructureReport(infos, threshold).issues == []
    ensures Outcome(infos, run).phase.ok <==> forall v :: v in Outcome(infos, run).st ==> Outcome(infos, run).st[v] == Completed
  {
    hide IsRun, StructureReport, BuildGraph, Statuses, After, Safe;
    StatusesAllPending(infos);
    NoIssuesIff(infos, threshold);
    DepsKnownIff(infos);
    NilIffWellFormed(BuildGraph(infos), run);
    EmptyIsWellFormed(infos);
    ReturnedCleanly(BuildGraph(infos), Statuses(infos), run);
  }

  lemma EmptyIsWellFormed(infos: seq<StepInfo>)
    ensures infos == [] ==> !Cyclic(BuildGraph(infos)) && NoDangling(BuildGraph(infos))
  {
    if infos == [] {
      if c :| IsCycle(BuildGraph(infos), c) { CycleBlocks(BuildGraph(infos), c); }
    }
  }

  /** The empty plan is where the two part: the check raises an issue, the executor returns nil at once. */
  lemma EmptyPlanReturnsNil(threshold: real)
    ensures StructureReport([], threshold).issues == [NoSteps]
    ensures IsRun(BuildGraph([]), Initial(Statuses([])), [Select]) && Outcome([], [Select]).phase == Returned(true)
  {
    var g, s0 := BuildGraph([]), Initial(Statuses([]));
    assert [] + [Select] == [Select];
    RunSnoc(g, s0, [], Select);
    assert ReadySteps(g, s0.st) == {};
  }

  /** With failing steps too: a nil return means that the plan is empty or the check raises no issue. */
  lemma NilMeansClean(infos: seq<StepInfo>, threshold: real, run: seq<Action>)
    requires Unstarted(infos) && IsRun(BuildGraph(infos), Initial(Statuses(infos)), run)
    requires Outcome(infos, run).phase == Returned(true)
    ensures infos == [] || StructureReport(infos, threshold).issues == []
  {
    hide IsRun, StructureReport, BuildGraph, Statuses, After;
    StatusesAllPending(infos);
    NoIssuesIff(infos, threshold);
    DepsKnownIff(infos);
    IllFormedNeverNil(BuildGraph(infos), run);
  }

  /** A plan without issues can be run to the end from every state a failure-free interleaving
      reaches: the run continues to one, of bounded length, that returns nil with all steps Completed. */
  lemma CleanPlanCompletes(infos: seq<StepInfo>, threshold: real, run: seq<Action>) returns (whole: seq<Action>)
    requires Unstarted(infos) && IsRun(BuildGraph(infos), Initial(Statuses(infos)), run) && FailureFree(run)
    requires StructureReport(infos, threshold).issues == []
    ensures IsRun(BuildGraph(infos), Initial(Statuses(infos)), whole) && FailureFree(whole) && run <= whole
    ensures Outcome(infos, whole).phase == Returned(true) && AllCompleted(Outcome(infos, whole).st)
    ensures |whole| <= 4 * |Pendings(Statuses(infos))| + 2
  {
    whole := Finishes(BuildGraph(infos), Statuses(infos), run);
    RunLength(BuildGraph(infos), Statuses(infos), whole);
    hide IsRun, StructureReport, BuildGraph, Statuses, After, FailureFree, Unstarted;
    CleanIffNil(infos, threshold, whole);
    CompletedMeans(Outcome(infos, whole).st);
  }

  lemma CompletedMeans(st: StatusMap)
    requires forall v :: v in st ==> st[v] == Completed
    ensures AllCompleted(st)
  {
  }
}
