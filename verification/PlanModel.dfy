/** Plans and their steps as the repository keeps them: a plan object owning a slice of step
    records, each holding slices and pointers of its own. */
module PlanModel {

  import opened DependencyGraph

  datatype StepStatus = Pending | Running | Completed | Failed | Skipped

  datatype PlanStatus = PlanPending | PlanInProgress | PlanCompleted | PlanFailed | PlanCancelled

  /** What a dynamically typed value refers to: anything a program can change through a reference,
      taken as a whole. */
  class Cell {
    var contents: string

    constructor (contents: string)
      ensures this.contents == contents
    {
      this.contents := contents;
    }
  }

  /** A dynamically typed value: nothing, a value proper, or a reference. */
  datatype Any = Nil | Text(text: string) | Handle(cell: Cell)

  class Metadata {
    var entries: map<string, Any>

    constructor (entries: map<string, Any>)
      ensures this.entries == entries
    {
      this.entries := entries;
    }
  }

  class Verification {
    var isValid: bool
    var score: real
    var issues: seq<string>
    var suggestions: seq<string>
    var reasoning: string
    var timestamp: int

    constructor (isValid: bool, score: real, issues: seq<string>, suggestions: seq<string>,
                 reasoning: string, timestamp: int)
      ensures this.isValid == isValid && this.score == score && this.issues == issues
      ensures this.suggestions == suggestions && this.reasoning == reasoning && this.timestamp == timestamp
    {
      this.isValid, this.score, this.issues := isValid, score, issues;
      this.suggestions, this.reasoning, this.timestamp := suggestions, reasoning, timestamp;
    }
  }

  /** A step record; Go keeps these by value inside the slice Plan.Steps. */
  datatype PlanStep = PlanStep(
    id: string, index: int, description: string,
    tools: array<string>, deps: array<string>,
    status: StepStatus, result: Any, error: string,
    retries: int, maxRetries: int,
    verification: Verification?, startTime: int, endTime: int, metadata: Metadata?)

  class Plan {
    var id: string
    var agentID: string
    var goal: string
    var steps: array<PlanStep>
    var status: PlanStatus
    var createdAt: int
    var updatedAt: int
    var metadata: Metadata?
    var version: int
    var parentPlanID: string

    constructor (id: string, agentID: string, goal: string, steps: array<PlanStep>, status: PlanStatus,
                 createdAt: int, updatedAt: int, metadata: Metadata?, version: int, parentPlanID: string)
      ensures this.id == id && this.agentID == agentID && this.goal == goal && this.steps == steps
      ensures this.status == status && this.createdAt == createdAt && this.updatedAt == updatedAt
      ensures this.metadata == metadata && this.version == version && this.parentPlanID == parentPlanID
    {
      this.id, this.agentID, this.goal, this.steps, this.status := id, agentID, goal, steps, status;
      this.createdAt, this.updatedAt, this.metadata := createdAt, updatedAt, metadata;
      this.version, this.parentPlanID := version, parentPlanID;
    }
  }

  /** Reading a Go map[string]bool: an absent key reads as false. */
  predicate Marked(m: map<string, bool>, v: string) {
    v in m && m[v]
  }

  // ----- What scheduling looks at -----

  datatype StepInfo = StepInfo(id: string, index: int, deps: seq<string>, status: StepStatus)

  /** The scheduling-relevant part of a slice of steps, as a value. */
  ghost function Snapshot(ss: seq<PlanStep>): (infos: seq<StepInfo>)
    reads set i | 0 <= i < |ss| :: ss[i].deps
  {
    seq(|ss|, i requires 0 <= i < |ss| reads if 0 <= i < |ss| then {ss[i].deps} else {} =>
      StepInfo(ss[i].id, ss[i].index, ss[i].deps[..], ss[i].status))
  }

  predicate UniqueIds(infos: seq<StepInfo>) {
    forall i, j :: 0 <= i < j < |infos| ==> infos[i].id != infos[j].id
  }

  /** The adjacency list; a later step overwrites an earlier one of the same ID. */
  function BuildGraph(infos: seq<StepInfo>): Graph {
    if infos == [] then map[]
    else BuildGraph(infos[..|infos| - 1])[infos[|infos| - 1].id := infos[|infos| - 1].deps]
  }

  function Statuses(infos: seq<StepInfo>): map<string, StepStatus> {
    if infos == [] then map[]
    else Statuses(infos[..|infos| - 1])[infos[|infos| - 1].id := infos[|infos| - 1].status]
  }

  function Ids(infos: seq<StepInfo>): set<string> {
    set i | 0 <= i < |infos| :: infos[i].id
  }

  lemma {:induction false} GraphDomain(infos: seq<StepInfo>)
    ensures BuildGraph(infos).Keys == Statuses(infos).Keys == Ids(infos)
  {
    if infos != [] {
      var n := |infos| - 1;
      GraphDomain(infos[..n]);
      assert Ids(infos) == Ids(infos[..n]) + {infos[n].id} by {
        assert infos == infos[..n] + [infos[n]];
        forall v | v in Ids(infos) ensures v in Ids(infos[..n]) + {infos[n].id} {
          var i :| 0 <= i < |infos| && infos[i].id == v;
          if i < n { assert infos[..n][i].id == v; }
        }
        forall v | v in Ids(infos[..n]) ensures v in Ids(infos) {
          var i :| 0 <= i < n && infos[..n][i].id == v;
          assert infos[i].id == v;
        }
      }
    }
  }

  lemma {:induction false} GraphEntry(infos: seq<StepInfo>, i: nat)
    requires UniqueIds(infos) && i < |infos|
    ensures infos[i].id in BuildGraph(infos) && BuildGraph(infos)[infos[i].id] == infos[i].deps
    ensures infos[i].id in Statuses(infos) && Statuses(infos)[infos[i].id] == infos[i].status
  {
    var n := |infos| - 1;
    if i < n {
      GraphEntry(infos[..n], i);
      assert infos[n].id != infos[i].id;
    }
  }

  /** With unique IDs the status map is the only one that lists each step's status. */
  lemma {:induction false} StatusesCharacterized(infos: seq<StepInfo>, st: map<string, StepStatus>)
    requires UniqueIds(infos) && st.Keys == Ids(infos)
    requires forall i :: 0 <= i < |infos| ==> infos[i].id in st && st[infos[i].id] == infos[i].status
    ensures Statuses(infos) == st
  {
    GraphDomain(infos);
    forall v | v in st ensures v in Statuses(infos) && Statuses(infos)[v] == st[v] {
      var i :| 0 <= i < |infos| && infos[i].id == v;
      GraphEntry(infos, i);
    }
  }
}
