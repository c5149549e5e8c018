/** Plans as values, and their deep copies. */
module PlanStorage {

  import opened Options
  import opened PlanModel

  // ----- Plans as values -----

  datatype VerificationValue = VerificationValue(
    isValid: bool, score: real, issues: seq<string>, suggestions: seq<string>, reasoning: string, timestamp: int)

  datatype StepValue = StepValue(
    id: string, index: int, description: string, tools: seq<string>, deps: seq<string>,
    status: StepStatus, result: Any, error: string, retries: int, maxRetries: int,
    verification: Option<VerificationValue>, startTime: int, endTime: int, metadata: Option<map<string, Any>>)

  datatype PlanValue = PlanValue(
    id: string, agentID: string, goal: string, steps: seq<StepValue>, status: PlanStatus,
    createdAt: int, updatedAt: int, metadata: Option<map<string, Any>>, version: int, parentPlanID: string)

  ghost function VerificationValueOf(v: Verification?): Option<VerificationValue>
    reads v
  {
    if v == null then None
    else Some(VerificationValue(v.isValid, v.score, v.issues, v.suggestions, v.reasoning, v.timestamp))
  }

  ghost function MetadataValueOf(m: Metadata?): Option<map<string, Any>>
    reads m
  {
    if m == null then None else Some(m.entries)
  }

  /** Everything mutable that a step record points to. */
  ghost function StepObjects(s: PlanStep): set<object?> {
    {s.tools, s.deps, s.verification, s.metadata} - {null}
  }

  ghost function StepValueOf(s: PlanStep): StepValue
    reads StepObjects(s)
  {
    StepValue(s.id, s.index, s.description, s.tools[..], s.deps[..], s.status, s.result, s.error,
              s.retries, s.maxRetries, VerificationValueOf(s.verification), s.startTime, s.endTime,
              MetadataValueOf(s.metadata))
  }

  ghost function StepsObjects(ss: seq<PlanStep>): set<object?> {
    set i, o | 0 <= i < |ss| && o in StepObjects(ss[i]) :: o
  }

  ghost function StepValuesOf(ss: seq<PlanStep>): (vs: seq<StepValue>)
    reads StepsObjects(ss)
  {
    seq(|ss|, i requires 0 <= i < |ss| reads StepsObjects(ss) => StepValueOf(ss[i]))
  }

  /** Everything mutable that makes up a plan. */
  ghost function PlanObjects(p: Plan): set<object?>
    reads p, p.steps
  {
    {p, p.steps} + ({p.metadata} - {null}) + StepsObjects(p.steps[..])
  }

  ghost function PlanValueOf(p: Plan): PlanValue
    reads p, p.steps, PlanObjects(p)
  {
    PlanValue(p.id, p.agentID, p.goal, StepValuesOf(p.steps[..]), p.status, p.createdAt, p.updatedAt,
              MetadataValueOf(p.metadata), p.version, p.parentPlanID)
  }

  /** Plans of the same value agree in every field, and step by step. */
  lemma SameFields(p: Plan, q: Plan)
    requires PlanValueOf(p) == PlanValueOf(q)
    ensures p.id == q.id && p.agentID == q.agentID && p.goal == q.goal && p.status == q.status
    ensures p.createdAt == q.createdAt && p.updatedAt == q.updatedAt
    ensures p.version == q.version && p.parentPlanID == q.parentPlanID
    ensures MetadataValueOf(p.metadata) == MetadataValueOf(q.metadata)
    ensures p.steps.Length == q.steps.Length
    ensures forall i :: 0 <= i < p.steps.Length ==> StepValueOf(p.steps[i]) == StepValueOf(q.steps[i])
  {
    hide StepValueOf, StepsObjects;
    assert |StepValuesOf(p.steps[..])| == p.steps.Length && |StepValuesOf(q.steps[..])| == q.steps.Length;
    forall i | 0 <= i < p.steps.Length ensures StepValueOf(p.steps[i]) == StepValueOf(q.steps[i]) {
      assert StepValuesOf(p.steps[..])[i] == StepValueOf(p.steps[..][i]);
      assert StepValuesOf(q.steps[..])[i] == StepValueOf(q.steps[..][i]);
    }
  }

  lemma SameStepFields(s: PlanStep, t: PlanStep)
    requires StepValueOf(s) == StepValueOf(t)
    ensures s.id == t.id && s.index == t.index && s.description == t.description
    ensures s.tools[..] == t.tools[..] && s.deps[..] == t.deps[..]
    ensures s.status == t.status && s.result == t.result && s.error == t.error
    ensures s.retries == t.retries && s.maxRetries == t.maxRetries
    ensures s.startTime == t.startTime && s.endTime == t.endTime
    ensures (s.verification == null) == (t.verification == null) && (s.metadata == null) == (t.metadata == null)
    ensures s.metadata != null ==> s.metadata.entries == t.metadata.entries
    ensures s.verification != null ==>
              && s.verification.isValid == t.verification.isValid && s.verification.score == t.verification.score
              && s.verification.issues == t.verification.issues && s.verification.suggestions == t.verification.suggestions
              && s.verification.reasoning == t.verification.reasoning
              && s.verification.timestamp == t.verification.timestamp
  {
  }

  // ----- What the values of a plan refer to -----

  ghost function LooseIn(a: Any): set<Cell> {
    if a.Handle? then {a.cell} else {}
  }

  ghost function LooseEntries(m: Option<map<string, Any>>): set<Cell> {
    if m.None? then {} else set k | k in m.value && m.value[k].Handle? :: m.value[k].cell
  }

  /** The cells that step results and metadata values refer to. */
  ghost function LooseOf(v: PlanValue): set<Cell> {
    (set i, o | 0 <= i < |v.steps| && o in LooseIn(v.steps[i].result) + LooseEntries(v.steps[i].metadata) :: o)
    + LooseEntries(v.metadata)
  }

  /** Everything mutable that a plan leads to. */
  ghost function Reach(p: Plan): set<object?>
    reads p, p.steps, PlanObjects(p)
  {
    PlanObjects(p) + LooseOf(PlanValueOf(p))
  }

  /** All that two plans of the same value have in common are the cells their values refer to. */
  ghost predicate ShareOnlyLoose(p: Plan, q: Plan)
    reads p, p.steps, PlanObjects(p), q, q.steps, PlanObjects(q)
  {
    Reach(p) * Reach(q) == LooseOf(PlanValueOf(p)) == LooseOf(PlanValueOf(q))
  }

  lemma NoCells(p: Plan, cell: Cell)
    ensures cell !in PlanObjects(p)
  {
  }

  /** So it is whenever they are made of different objects. */
  lemma Shares(p: Plan, objs: set<object?>, q: Plan, repr: set<object?>)
    requires ValueIn(p, objs).Some? && ValueIn(p, objs) == ValueIn(q, repr) && objs !! repr
    ensures ShareOnlyLoose(p, q)
  {
    hide PlanValueOf, LooseOf;
    assert PlanObjects(p) !! PlanObjects(q) && PlanValueOf(p) == PlanValueOf(q);
    forall cell | cell in LooseOf(PlanValueOf(p)) ensures cell !in PlanObjects(p) && cell !in PlanObjects(q) {
      NoCells(p, cell);
      NoCells(q, cell);
    }
    hide PlanObjects;
  }

  // ----- Clone -----

  method CloneStrings(a: array<string>) returns (c: array<string>)
    ensures fresh(c) && c[..] == a[..]
  {
    c := new string[a.Length](i requires 0 <= i < a.Length reads a => a[i]);
  }

  method CloneVerification(v: Verification?) returns (c: Verification?)
    ensures c == null <==> v == null
    ensures c != null ==> fresh(c)
    ensures VerificationValueOf(c) == VerificationValueOf(v)
  {
    if v == null {
      return null;
    }
    c := new Verification(v.isValid, v.score, v.issues, v.suggestions, v.reasoning, v.timestamp);
  }

  method CloneMetadata(m: Metadata?) returns (c: Metadata?)
    ensures c == null <==> m == null
    ensures c != null ==> fresh(c)
    ensures MetadataValueOf(c) == MetadataValueOf(m)
  {
    if m == null {
      return null;
    }
    c := new Metadata(m.entries);
  }

  method CloneStep(s: PlanStep) returns (c: PlanStep)
    ensures fresh(StepObjects(c)) && StepValueOf(c) == StepValueOf(s)
  {
    var tools := CloneStrings(s.tools);
    var deps := CloneStrings(s.deps);
    var verification := CloneVerification(s.verification);
    var metadata := CloneMetadata(s.metadata);
    c := PlanStep(s.id, s.index, s.description, tools, deps, s.status, s.result, s.error, s.retries, s.maxRetries,
                  verification, s.startTime, s.endTime, metadata);
  }

  /** Copies of the steps, as a list. */
  method CloneEach(steps: array<PlanStep>) returns (list: seq<PlanStep>)
    ensures |list| == steps.Length
    ensures forall k :: 0 <= k < |list| ==> fresh(StepObjects(list[k])) && StepValueOf(list[k]) == StepValueOf(steps[k])
  {
    list := [];
    for i := 0 to steps.Length
      invariant |list| == i
      invariant forall k :: 0 <= k < i ==> fresh(StepObjects(list[k]))
      invariant forall k :: 0 <= k < i ==> StepValueOf(list[k]) == StepValueOf(steps[k])
    {
      var step := CloneStep(steps[i]);
      list := list + [step];
    }
  }

  method CloneSteps(steps: array<PlanStep>) returns (c: array<PlanStep>)
    ensures fresh(c) && fresh(StepsObjects(c[..]))
    ensures StepValuesOf(c[..]) == StepValuesOf(steps[..])
  {
    var list := CloneEach(steps);
    c := new PlanStep[|list|](i requires 0 <= i < |list| => list[i]);
    assert c[..] == list;
  }

  method ClonePlan(p: Plan) returns (c: Plan)
    ensures fresh(PlanObjects(c)) && null !in PlanObjects(c)
    ensures PlanValueOf(c) == PlanValueOf(p)
  {
    var metadata := CloneMetadata(p.metadata);
    var steps := CloneSteps(p.steps);
    ghost var values := StepValuesOf(p.steps[..]);
    c := new Plan(p.id, p.agentID, p.goal, steps, p.status, p.createdAt, p.updatedAt, metadata, p.version, p.parentPlanID);
    assert StepValuesOf(p.steps[..]) == values;
    assert StepValuesOf(c.steps[..]) == values;
  }

  /** The value of p, provided p is made of the objects in repr only. */
  ghost function ValueIn(p: Plan, repr: set<object?>): Option<PlanValue>
    reads repr
  {
    if p in repr && p.steps in repr && PlanObjects(p) <= repr then Some(PlanValueOf(p)) else None
  }

  /** A copy equal to the plan and made of new objects only, which objs names. The two share exactly
      the cells that step results and metadata values refer to. */
  method Clone(p: Plan, ghost repr: set<object?>) returns (c: Plan, ghost objs: set<object?>)
    requires ValueIn(p, repr).Some?
    ensures fresh(objs) && null !in objs
    ensures ValueIn(c, objs) == ValueIn(p, repr)
    ensures ShareOnlyLoose(p, c)
  {
    c := ClonePlan(p);
    objs := PlanObjects(c);
    Shares(p, PlanObjects(p), c, objs);
  }

  /** Sets the time of the last update, and nothing else. */
  method Stamp(plan: Plan, now: int, ghost objs: set<object?>)
    requires ValueIn(plan, objs).Some?
    modifies plan`updatedAt
    ensures plan.updatedAt == now
    ensures ValueIn(plan, objs) == Some(old(ValueIn(plan, objs)).value.(updatedAt := now))
  {
    plan.updatedAt := now;
  }

  lemma IdOfValue(p: Plan, repr: set<object?>)
    requires ValueIn(p, repr).Some?
    ensures ValueIn(p, repr).value.id == p.id && p in repr
  {
  }

  lemma ValueInMore(p: Plan, repr: set<object?>, more: set<object?>)
    requires ValueIn(p, repr).Some? && repr <= more
    ensures ValueIn(p, more) == ValueIn(p, repr)
  {
  }
}
