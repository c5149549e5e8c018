/** The structural check of a plan: depth-first cycle search, dangling dependencies, score. */
module PlanVerification {

  import opened DependencyGraph
  import opened PlanModel

  /** The recursive closure and the maps it shares. */
  class CycleSearch {
    const graph: Graph
    var visited: map<string, bool>
    var recStack: map<string, bool>

    ghost const nodes: set<string>
    ghost var stack: seq<string>     // the nodes being explored, outermost first
    ghost var finished: seq<string>  // the nodes fully explored, in order

    ghost predicate Valid()
      reads this
    {
      Consistent(graph, nodes, visited, recStack, stack, finished)
    }

    ghost function Unvisited(): set<string>
      reads this
    {
      set v | v in nodes && v !in stack && v !in finished
    }

    constructor (graph: Graph)
      ensures Valid() && this.graph == graph && stack == [] && finished == []
      ensures graph.Keys <= nodes
    {
      this.graph := graph;
      visited, recStack := map[], map[];
      stack, finished := [], [];
      nodes := graph.Keys + set v, i | v in graph && 0 <= i < |graph[v]| :: graph[v][i];
    }

    method HasCycle(node: string) returns (found: bool)
      requires Valid() && node in nodes && !Marked(visited, node)
      requires stack != [] ==> Edge(graph, stack[|stack| - 1], node)
      modifies this
      ensures found ==> Cyclic(graph)
      ensures !found ==> Valid() && stack == old(stack) && old(finished) <= finished && node in finished
      decreases Unvisited()
    {
      hide Consistent, Cyclic, IsPath;
      ConsistentAt(graph, nodes, visited, recStack, stack, finished, node);
      EnterNode(graph, nodes, visited, recStack, stack, finished, node);
      visited := visited[node := true];
      recStack := recStack[node := true];
      stack := stack + [node];
      assert node in old(Unvisited()) && node in stack;
      assert Unvisited() < old(Unvisited());
      var deps := Succ(graph, node);
      for i := 0 to |deps|
        invariant Valid() && stack == old(stack) + [node] && old(finished) <= finished
        invariant Unvisited() < old(Unvisited())
        invariant forall k :: 0 <= k < i ==> deps[k] in finished
      {
        var dep := deps[i];
        assert Edge(graph, node, dep);
        assert stack[|stack| - 1] == node && node in stack;
        ConsistentEdge(graph, nodes, visited, recStack, stack, finished, node, dep);
        ConsistentAt(graph, nodes, visited, recStack, stack, finished, dep);
        if !Marked(visited, dep) {
          label Before:
          var deeper := HasCycle(dep);
          if deeper {
            return true;
          }
          assert Unvisited() <= old@Before(Unvisited());
        } else if Marked(recStack, dep) {
          StackCycle(graph, stack, dep);
          return true;
        }
      }
      LeaveNode(graph, nodes, visited, recStack, old(stack), finished, node);
      recStack := recStack[node := false];
      finished := finished + [node];
      stack := stack[..|stack| - 1];
      assert stack == old(stack);
      return false;
    }
  }

  /** The maps record exactly the nodes being explored and the nodes already explored. */
  ghost predicate Consistent(g: Graph, nodes: set<string>, visited: map<string, bool>, recStack: map<string, bool>,
                             stack: seq<string>, finished: seq<string>)
  {
    && (forall v, w :: v in nodes && Edge(g, v, w) ==> w in nodes)
    && (forall v :: v in stack || v in finished ==> v in nodes)
    && (forall v :: Marked(visited, v) <==> v in stack || v in finished)
    && (forall v :: Marked(recStack, v) <==> v in stack)
    && (forall v :: v in stack ==> v !in finished)
    && (stack != [] ==> IsPath(g, stack))
    && Ordered(g, finished)
  }

  lemma ConsistentAt(g: Graph, nodes: set<string>, visited: map<string, bool>, recStack: map<string, bool>,
                     stack: seq<string>, finished: seq<string>, v: string)
    requires Consistent(g, nodes, visited, recStack, stack, finished)
    ensures Marked(visited, v) <==> v in stack || v in finished
    ensures Marked(recStack, v) <==> v in stack
    ensures stack != [] ==> IsPath(g, stack)
  {
  }

  lemma ConsistentEdge(g: Graph, nodes: set<string>, visited: map<string, bool>, recStack: map<string, bool>,
                       stack: seq<string>, finished: seq<string>, v: string, w: string)
    requires Consistent(g, nodes, visited, recStack, stack, finished) && v in stack && Edge(g, v, w)
    ensures w in nodes
  {
  }

  lemma EnterNode(g: Graph, nodes: set<string>, visited: map<string, bool>, recStack: map<string, bool>,
                  stack: seq<string>, finished: seq<string>, node: string)
    requires Consistent(g, nodes, visited, recStack, stack, finished)
    requires node in nodes && !Marked(visited, node)
    requires stack != [] ==> Edge(g, stack[|stack| - 1], node)
    ensures Consistent(g, nodes, visited[node := true], recStack[node := true], stack + [node], finished)
  {
    var s := stack + [node];
    forall k, l | 0 <= k && l == k + 1 && l < |s| ensures Edge(g, s[k], s[l]) {
      if l < |stack| { assert Edge(g, stack[k], stack[l]); }
    }
  }

  lemma LeaveNode(g: Graph, nodes: set<string>, visited: map<string, bool>, recStack: map<string, bool>,
                  below: seq<string>, finished: seq<string>, node: string)
    requires Consistent(g, nodes, visited, recStack, below + [node], finished)
    requires node !in below
    requires forall w :: Edge(g, node, w) ==> w in finished
    ensures Consistent(g, nodes, visited, recStack[node := false], below, finished + [node])
  {
    var s := below + [node];
    if below != [] {
      SubPath(g, s, 0, |below|);
      assert s[0..|below|] == below;
    }
    OrderedSnoc(g, finished, node);
    forall v ensures Marked(visited, v) <==> v in below || v in finished + [node] {
      assert v in s <==> v in below || v == node;
    }
    forall v ensures Marked(recStack[node := false], v) <==> v in below {
      assert v in s <==> v in below || v == node;
    }
  }

  /** Every dependency of a node stands earlier in the list. */
  ghost predicate Ordered(g: Graph, order: seq<string>) {
    forall k, w :: 0 <= k < |order| && Edge(g, order[k], w) ==> w in order[..k]
  }

  lemma OrderedSnoc(g: Graph, order: seq<string>, v: string)
    requires Ordered(g, order) && forall w :: Edge(g, v, w) ==> w in order
    ensures Ordered(g, order + [v])
  {
    var o := order + [v];
    forall k, w | 0 <= k < |o| && Edge(g, o[k], w) ensures w in o[..k] {
      assert o[..k] == order[..k];
      if k == |order| { assert order[..k] == order; }
    }
  }

  lemma StackCycle(g: Graph, stack: seq<string>, dep: string)
    requires stack != [] && IsPath(g, stack) && dep in stack && Edge(g, stack[|stack| - 1], dep)
    ensures Cyclic(g)
  {
    var i :| 0 <= i < |stack| && stack[i] == dep;
    SubPath(g, stack, i, |stack|);
    var p := stack[i..|stack|];
    assert p[|p| - 1] == stack[|stack| - 1];
    var c := p + [dep];
    forall k, l | 0 <= k && l == k + 1 && l < |c| ensures Edge(g, c[k], c[l]) {
      if l < |p| { assert Edge(g, p[k], p[l]); }
    }
    assert IsCycle(g, c);
  }

  lemma {:induction false} PathDescends(g: Graph, order: seq<string>, p: seq<string>, k: nat)
    requires Ordered(g, order) && IsPath(g, p) && |p| >= 2 && k < |order| && p[0] == order[k]
    ensures p[|p| - 1] in order[..k]
    decreases |p|
  {
    assert Edge(g, p[0], p[1]);
    if |p| > 2 {
      var j :| 0 <= j < k && order[j] == p[1];
      SubPath(g, p, 1, |p|);
      var q := p[1..|p|];
      assert q[|q| - 1] == p[|p| - 1];
      PathDescends(g, order, q, j);
      assert order[..j] <= order[..k];
    }
  }

  lemma {:induction false} OrderedAcyclic(g: Graph, order: seq<string>, c: seq<string>, k: nat)
    requires Ordered(g, order) && k < |order| && IsCycle(g, c)
    ensures c[0] != order[k]
    decreases k
  {
    if c[0] == order[k] {
      PathDescends(g, order, c, k);
      var j :| 0 <= j < k && order[j] == c[0];
      OrderedAcyclic(g, order, c, j);
    }
  }

  lemma OrderedCoverAcyclic(g: Graph, order: seq<string>)
    requires Ordered(g, order) && forall v :: v in g ==> v in order
    ensures !Cyclic(g)
  {
    if c :| IsCycle(g, c) {
      PathStaysInside(g, c, 0);
      var k :| 0 <= k < |order| && order[k] == c[0];
      OrderedAcyclic(g, order, c, k);
    }
  }

  method AdjacencyList(plan: Plan) returns (graph: Graph)
    ensures graph == BuildGraph(Snapshot(plan.steps[..]))
  {
    graph := map[];
    ghost var infos := Snapshot(plan.steps[..]);
    for i := 0 to plan.steps.Length
      invariant graph == BuildGraph(infos[..i])
    {
      graph := graph[plan.steps[i].id := plan.steps[i].deps[..]];
      assert infos[..i + 1][..i] == infos[..i];
    }
    assert infos[..|infos|] == infos;
  }

  /** Starts a search from every step not yet visited. */
  method SearchFromEveryStep(plan: Plan, graph: Graph) returns (found: bool)
    requires forall i :: 0 <= i < plan.steps.Length ==> plan.steps[i].id in graph
    requires forall v :: v in graph ==> exists i :: 0 <= i < plan.steps.Length && plan.steps[i].id == v
    ensures found <==> Cyclic(graph)
  {
    var search := new CycleSearch(graph);
    for i := 0 to plan.steps.Length
      invariant search.Valid() && search.stack == [] && search.graph == graph
      invariant graph.Keys <= search.nodes
      invariant fresh(search)
      invariant forall k :: 0 <= k < i ==> plan.steps[k].id in search.finished
    {
      if !Marked(search.visited, plan.steps[i].id) {
        var hit := search.HasCycle(plan.steps[i].id);
        if hit {
          return true;
        }
      }
    }
    OrderedCoverAcyclic(graph, search.finished);
    return false;
  }

  /** Finds a cycle exactly when there is one. */
  method CheckCircularDependencies(plan: Plan) returns (found: bool)
    ensures found <==> Cyclic(BuildGraph(Snapshot(plan.steps[..])))
  {
    var graph := AdjacencyList(plan);
    NodesAreSteps(plan.steps[..]);
    found := SearchFromEveryStep(plan, graph);
  }

  lemma NodesAreSteps(ss: seq<PlanStep>)
    ensures forall i :: 0 <= i < |ss| ==> ss[i].id in BuildGraph(Snapshot(ss))
    ensures forall v :: v in BuildGraph(Snapshot(ss)) ==> exists i :: 0 <= i < |ss| && ss[i].id == v
  {
    GraphDomain(Snapshot(ss));
    forall i | 0 <= i < |ss| ensures ss[i].id in Ids(Snapshot(ss)) {
      assert Snapshot(ss)[i].id == ss[i].id;
    }
    forall v | v in Ids(Snapshot(ss)) ensures exists i :: 0 <= i < |ss| && ss[i].id == v {
      var i :| 0 <= i < |ss| && Snapshot(ss)[i].id == v;
      assert ss[i].id == v;
    }
  }

  // ----- The report -----

  datatype Issue = NoSteps | CircularDependencies | InvalidDependency(stepID: string, depID: string)

  datatype Report = Report(isValid: bool, score: real, issues: seq<Issue>, orphans: nat)

  function InvalidDepsOf(stepID: string, deps: seq<string>, ids: set<string>): seq<Issue> {
    if deps == [] then []
    else
      InvalidDepsOf(stepID, deps[..|deps| - 1], ids)
      + if deps[|deps| - 1] in ids then [] else [InvalidDependency(stepID, deps[|deps| - 1])]
  }

  function InvalidDeps(infos: seq<StepInfo>, ids: set<string>): seq<Issue> {
    if infos == [] then []
    else
      InvalidDeps(infos[..|infos| - 1], ids)
      + InvalidDepsOf(infos[|infos| - 1].id, infos[|infos| - 1].deps, ids)
  }

  function DependedOn(infos: seq<StepInfo>): set<string> {
    set i, k | 0 <= i < |infos| && 0 <= k < |infos[i].deps| :: infos[i].deps[k]
  }

  function Orphans(infos: seq<StepInfo>, dependedOn: set<string>, total: nat): nat {
    if infos == [] then 0
    else
      Orphans(infos[..|infos| - 1], dependedOn, total)
      + if infos[|infos| - 1].id !in dependedOn && infos[|infos| - 1].index < total - 1 then 1 else 0
  }

  ghost function StructureReport(infos: seq<StepInfo>, threshold: real): Report {
    if infos == [] then Report(false, 0.0, [NoSteps], 0)
    else
      var cyclic := Cyclic(BuildGraph(infos));
      var invalid := InvalidDeps(infos, Ids(infos));
      var orphans := Orphans(infos, DependedOn(infos), |infos|);
      var raw := (if cyclic then 0.2 else 1.0) - 0.1 * |invalid| as real - 0.05 * orphans as real;
      var score := if raw < 0.0 then 0.0 else raw;
      Report(score >= threshold, score, (if cyclic then [CircularDependencies] else []) + invalid, orphans)
  }

  method StepIDs(plan: Plan) returns (stepIDs: set<string>)
    ensures stepIDs == Ids(Snapshot(plan.steps[..]))
  {
    ghost var infos := Snapshot(plan.steps[..]);
    stepIDs := {};
    for i := 0 to plan.steps.Length
      invariant stepIDs == Ids(infos[..i])
    {
      stepIDs := stepIDs + {plan.steps[i].id};
      IdsSnoc(infos, i);
    }
    assert infos[..|infos|] == infos;
  }

  method FindInvalidDependencies(plan: Plan, stepIDs: set<string>, base: real, first: seq<Issue>)
    returns (score: real, issues: seq<Issue>)
    ensures var invalid := InvalidDeps(Snapshot(plan.steps[..]), stepIDs);
            issues == first + invalid && score == base - 0.1 * |invalid| as real
  {
    ghost var infos := Snapshot(plan.steps[..]);
    score, issues := base, first;
    for i := 0 to plan.steps.Length
      invariant issues == first + InvalidDeps(infos[..i], stepIDs)
      invariant score == base - 0.1 * |InvalidDeps(infos[..i], stepIDs)| as real
    {
      var deps := plan.steps[i].deps;
      ghost var before := InvalidDeps(infos[..i], stepIDs);
      for k := 0 to deps.Length
        invariant issues == first + (before + InvalidDepsOf(infos[i].id, deps[..k], stepIDs))
        invariant score == base - 0.1 * (|before| + |InvalidDepsOf(infos[i].id, deps[..k], stepIDs)|) as real
      {
        assert deps[..k + 1][..k] == deps[..k];
        if deps[k] !in stepIDs {
          issues := issues + [InvalidDependency(plan.steps[i].id, deps[k])];
          score := score - 0.1;
        }
      }
      assert deps[..deps.Length] == infos[i].deps;
      assert infos[..i + 1][..i] == infos[..i];
    }
    assert infos[..|infos|] == infos;
  }

  method DependedOnIDs(plan: Plan) returns (dependedOn: set<string>)
    ensures dependedOn == DependedOn(Snapshot(plan.steps[..]))
  {
    ghost var infos := Snapshot(plan.steps[..]);
    dependedOn := {};
    for i := 0 to plan.steps.Length
      invariant dependedOn == DependedOn(infos[..i])
    {
      var deps := plan.steps[i].deps;
      for k := 0 to deps.Length
        invariant dependedOn == DependedOn(infos[..i]) + set j | 0 <= j < k :: infos[i].deps[j]
      {
        dependedOn := dependedOn + {deps[k]};
      }
      DependedOnSnoc(infos, i);
    }
    assert infos[..|infos|] == infos;
  }

  method CountOrphans(plan: Plan, dependedOn: set<string>) returns (orphanCount: nat)
    ensures orphanCount == Orphans(Snapshot(plan.steps[..]), dependedOn, plan.steps.Length)
  {
    ghost var infos := Snapshot(plan.steps[..]);
    orphanCount := 0;
    for i := 0 to plan.steps.Length
      invariant orphanCount == Orphans(infos[..i], dependedOn, plan.steps.Length)
    {
      assert infos[..i + 1][..i] == infos[..i];
      if plan.steps[i].id !in dependedOn && plan.steps[i].index < plan.steps.Length - 1 {
        orphanCount := orphanCount + 1;
      }
    }
    assert infos[..|infos|] == infos;
  }

  /** The charge for orphaned steps, and the floor of the score. */
  method ChargeOrphans(plan: Plan, dependedOn: set<string>, base: real) returns (score: real, orphanCount: nat)
    ensures orphanCount == Orphans(Snapshot(plan.steps[..]), dependedOn, plan.steps.Length)
    ensures var raw := base - 0.05 * orphanCount as real; score == if raw < 0.0 then 0.0 else raw
  {
    hide *;
    orphanCount := CountOrphans(plan, dependedOn);
    score := base;
    if orphanCount > 0 {
      score := score - orphanCount as real * 0.05;
    }
    if score < 0.0 {
      score := 0.0;
    }
  }

  method VerifyPlanStructure(plan: Plan, qualityThreshold: real) returns (report: Report)
    ensures report == StructureReport(Snapshot(plan.steps[..]), qualityThreshold)
  {
    ghost var infos := Snapshot(plan.steps[..]);
    assert |infos| == plan.steps.Length;
    hide *;
    if plan.steps.Length == 0 {
      report := Report(false, 0.0, [NoSteps], 0);
      EmptyReport(infos, qualityThreshold);
      return;
    }
    var score, issues := 1.0, [];
    var hasCycle := CheckCircularDependencies(plan);
    if hasCycle {
      score := 0.2;
      issues := issues + [CircularDependencies];
    }
    assert issues == if hasCycle then [CircularDependencies] else [];
    var stepIDs := StepIDs(plan);
    score, issues := FindInvalidDependencies(plan, stepIDs, score, issues);
    var dependedOn := DependedOnIDs(plan);
    var orphanCount;
    ghost var base := score;
    score, orphanCount := ChargeOrphans(plan, dependedOn, score);
    FullReport(infos, qualityThreshold, hasCycle, base - 0.05 * orphanCount as real, orphanCount);
    return Report(score >= qualityThreshold, score, issues, orphanCount);
  }

  lemma EmptyReport(infos: seq<StepInfo>, threshold: real)
    requires infos == []
    ensures StructureReport(infos, threshold) == Report(false, 0.0, [NoSteps], 0)
  {
  }

  /** The report of a plan with steps, from its parts. */
  lemma FullReport(infos: seq<StepInfo>, threshold: real, cyclic: bool, raw: real, orphans: nat)
    requires infos != [] && cyclic == Cyclic(BuildGraph(infos))
    requires orphans == Orphans(infos, DependedOn(infos), |infos|)
    requires raw == (if cyclic then 0.2 else 1.0) - 0.1 * |InvalidDeps(infos, Ids(infos))| as real - 0.05 * orphans as real
    ensures var score := if raw < 0.0 then 0.0 else raw;
      StructureReport(infos, threshold)
        == Report(score >= threshold, score,
                  (if cyclic then [CircularDependencies] else []) + InvalidDeps(infos, Ids(infos)), orphans)
  {
    hide Cyclic, InvalidDeps, Orphans, DependedOn, Ids, BuildGraph;
  }

  lemma IdsSnoc(infos: seq<StepInfo>, i: nat)
    requires i < |infos|
    ensures Ids(infos[..i + 1]) == Ids(infos[..i]) + {infos[i].id}
  {
    forall v | v in Ids(infos[..i]) + {infos[i].id} ensures v in Ids(infos[..i + 1]) {
      if v in Ids(infos[..i]) {
        var k :| 0 <= k < i && infos[..i][k].id == v;
        assert infos[..i + 1][k].id == v;
      } else {
        assert infos[..i + 1][i].id == v;
      }
    }
    forall v | v in Ids(infos[..i + 1]) ensures v in Ids(infos[..i]) + {infos[i].id} {
      var k :| 0 <= k <= i && infos[..i + 1][k].id == v;
      if k < i { assert infos[..i][k].id == v; }
    }
  }

  lemma DependedOnSnoc(infos: seq<StepInfo>, i: nat)
    requires i < |infos|
    ensures DependedOn(infos[..i + 1])
         == DependedOn(infos[..i]) + set j | 0 <= j < |infos[i].deps| :: infos[i].deps[j]
  {
    var here := set j | 0 <= j < |infos[i].deps| :: infos[i].deps[j];
    var all := infos[..i + 1];
    forall v | v in DependedOn(all) ensures v in DependedOn(infos[..i]) + here {
      var k, j :| 0 <= k < |all| && 0 <= j < |all[k].deps| && all[k].deps[j] == v;
      if k < i {
        assert infos[..i][k].deps[j] == v;
      }
    }
    forall v | v in DependedOn(infos[..i]) + here ensures v in DependedOn(all) {
      if v in here {
        var j :| 0 <= j < |infos[i].deps| && infos[i].deps[j] == v;
        assert all[i].deps[j] == v;
      } else {
        var k, j :| 0 <= k < i && 0 <= j < |infos[..i][k].deps| && infos[..i][k].deps[j] == v;
        assert all[k].deps[j] == v;
      }
    }
  }

  // ----- What the report means -----

  lemma {:induction false} InvalidDepsOfEmpty(stepID: string, deps: seq<string>, ids: set<string>)
    ensures InvalidDepsOf(stepID, deps, ids) == [] <==> forall d :: d in deps ==> d in ids
  {
    if deps != [] {
      InvalidDepsOfEmpty(stepID, deps[..|deps| - 1], ids);
      assert deps == deps[..|deps| - 1] + [deps[|deps| - 1]];
    }
  }

  lemma {:induction false} InvalidDepsEmpty(infos: seq<StepInfo>, ids: set<string>)
    ensures InvalidDeps(infos, ids) == []
       <==> forall i, d :: 0 <= i < |infos| && d in infos[i].deps ==> d in ids
  {
    if infos != [] {
      var n := |infos| - 1;
      InvalidDepsEmpty(infos[..n], ids);
      InvalidDepsOfEmpty(infos[n].id, infos[n].deps, ids);
      if InvalidDeps(infos, ids) == [] {
        forall i, d | 0 <= i < |infos| && d in infos[i].deps ensures d in ids {
          if i < n { assert infos[..n][i] == infos[i]; }
        }
      }
    }
  }

  /** Every dependency names a step of the plan. */
  predicate DepsKnown(infos: seq<StepInfo>) {
    forall i, d :: 0 <= i < |infos| && d in infos[i].deps ==> d in Ids(infos)
  }

  /** The issue list is empty exactly for non-empty, acyclic plans whose dependencies are all steps;
      step IDs need not be unique. */
  lemma NoIssuesIff(infos: seq<StepInfo>, threshold: real)
    ensures StructureReport(infos, threshold).issues == []
       <==> infos != [] && !Cyclic(BuildGraph(infos)) && DepsKnown(infos)
  {
    InvalidDepsEmpty(infos, Ids(infos));
  }

  lemma DepsKnownIff(infos: seq<StepInfo>)
    requires UniqueIds(infos)
    ensures DepsKnown(infos) <==> NoDangling(BuildGraph(infos))
  {
    var g := BuildGraph(infos);
    GraphDomain(infos);
    if DepsKnown(infos) {
      forall v, w | v in g && Edge(g, v, w) ensures w in g {
        var i :| 0 <= i < |infos| && infos[i].id == v;
        GraphEntry(infos, i);
      }
    }
    if NoDangling(g) {
      forall i, d | 0 <= i < |infos| && d in infos[i].deps ensures d in Ids(infos) {
        GraphEntry(infos, i);
        assert Edge(g, infos[i].id, d);
      }
    }
  }

  // ----- What is counted -----

  /** The dangling dependencies, by the places of step and dependency, of the steps before the i-th and
      of the first m dependencies of that one. */
  ghost function DanglingBefore(infos: seq<StepInfo>, ids: set<string>, i: nat, m: nat): set<(int, int)> {
    set a, b | 0 <= a < |infos| && 0 <= b < |infos[a].deps| && (a < i || (a == i && b < m))
               && infos[a].deps[b] !in ids :: (a, b)
  }

  /** All dependencies, by place, that name no step. */
  ghost function Dangling(infos: seq<StepInfo>): set<(int, int)> {
    set a, b | 0 <= a < |infos| && 0 <= b < |infos[a].deps|
               && (forall k :: 0 <= k < |infos| ==> infos[k].id != infos[a].deps[b]) :: (a, b)
  }

  /** The steps, by place, that no step depends on and that are not last by index. */
  ghost function Orphaned(infos: seq<StepInfo>): set<int> {
    set i | 0 <= i < |infos| && infos[i].index < |infos| - 1
            && forall a, b :: 0 <= a < |infos| && 0 <= b < |infos[a].deps| ==> infos[a].deps[b] != infos[i].id
  }

  lemma DanglingNext(infos: seq<StepInfo>, ids: set<string>, i: nat, m: nat)
    requires i < |infos| && m < |infos[i].deps|
    ensures |DanglingBefore(infos, ids, i, m + 1)|
         == |DanglingBefore(infos, ids, i, m)| + if infos[i].deps[m] in ids then 0 else 1
  {
    var here := if infos[i].deps[m] in ids then {} else {(i as int, m as int)};
    assert DanglingBefore(infos, ids, i, m + 1) == DanglingBefore(infos, ids, i, m) + here;
  }

  lemma DanglingRow(infos: seq<StepInfo>, ids: set<string>, i: nat)
    requires i < |infos|
    ensures i > 0 ==> DanglingBefore(infos, ids, i, 0) == DanglingBefore(infos, ids, i - 1, |infos[i - 1].deps|)
    ensures i == 0 ==> DanglingBefore(infos, ids, i, 0) == {}
  {
  }

  lemma InvalidNext(stepID: string, deps: seq<string>, ids: set<string>, m: nat)
    requires m < |deps|
    ensures |InvalidDepsOf(stepID, deps[..m + 1], ids)|
         == |InvalidDepsOf(stepID, deps[..m], ids)| + if deps[m] in ids then 0 else 1
    ensures InvalidDepsOf(stepID, deps[..0], ids) == []
  {
    assert deps[..m + 1][..m] == deps[..m];
  }

  lemma InvalidRow(infos: seq<StepInfo>, ids: set<string>, i: nat)
    requires i < |infos|
    ensures |InvalidDeps(infos[..i + 1], ids)|
         == |InvalidDeps(infos[..i], ids)| + |InvalidDepsOf(infos[i].id, infos[i].deps, ids)|
    ensures InvalidDeps(infos[..0], ids) == [] && InvalidDepsOf(infos[i].id, infos[i].deps[..0], ids) == []
    ensures infos[i].deps[..|infos[i].deps|] == infos[i].deps
  {
    assert infos[..i + 1][..i] == infos[..i];
  }

  lemma {:induction false} CountDangling(infos: seq<StepInfo>, ids: set<string>, i: nat, m: nat)
    requires i < |infos| && m <= |infos[i].deps|
    ensures |InvalidDeps(infos[..i], ids)| + |InvalidDepsOf(infos[i].id, infos[i].deps[..m], ids)|
         == |DanglingBefore(infos, ids, i, m)|
    decreases i, m
  {
    hide *;
    if m > 0 {
      CountDangling(infos, ids, i, m - 1);
      DanglingNext(infos, ids, i, m - 1);
      InvalidNext(infos[i].id, infos[i].deps, ids, m - 1);
    } else {
      DanglingRow(infos, ids, i);
      InvalidRow(infos, ids, i);
      if i > 0 {
        CountDangling(infos, ids, i - 1, |infos[i - 1].deps|);
        InvalidRow(infos, ids, i - 1);
      }
    }
  }

  /** One issue for each dangling dependency. */
  lemma InvalidCounted(infos: seq<StepInfo>)
    ensures |InvalidDeps(infos, Ids(infos))| == |Dangling(infos)|
  {
    if infos == [] {
      assert Dangling(infos) == {};
    } else {
      var n := |infos| - 1;
      CountDangling(infos, Ids(infos), n, |infos[n].deps|);
      InvalidRow(infos, Ids(infos), n);
      assert infos[..n + 1] == infos;
      DanglingIs(infos);
      hide Dangling, DanglingBefore, InvalidDepsOf, Ids;
    }
  }

  lemma DanglingIs(infos: seq<StepInfo>)
    requires infos != []
    ensures DanglingBefore(infos, Ids(infos), |infos| - 1, |infos[|infos| - 1].deps|) == Dangling(infos)
  {
    forall d: string ensures d !in Ids(infos) <==> forall k :: 0 <= k < |infos| ==> infos[k].id != d {}
    hide Ids;
  }

  /** x names the step and one of its dependencies, which is none of the given IDs. */
  ghost predicate IssueOf(info: StepInfo, ids: set<string>, x: Issue) {
    exists b :: 0 <= b < |info.deps| && info.deps[b] !in ids && x == InvalidDependency(info.id, info.deps[b])
  }

  /** Each issue names a step and one of its dependencies that is no step, and none is left out. */
  lemma {:induction false} InvalidListed(infos: seq<StepInfo>, ids: set<string>, x: Issue)
    ensures x in InvalidDeps(infos, ids) <==> exists a :: 0 <= a < |infos| && IssueOf(infos[a], ids, x)
  {
    if infos != [] {
      var n := |infos| - 1;
      InvalidListed(infos[..n], ids, x);
      InvalidOfListed(infos[n], infos[n].deps, ids, x);
      hide InvalidDepsOf, IssueOf;
      forall a | 0 <= a < n ensures infos[..n][a] == infos[a] {}
    }
  }

  lemma {:induction false} InvalidOfListed(info: StepInfo, deps: seq<string>, ids: set<string>, x: Issue)
    ensures x in InvalidDepsOf(info.id, deps, ids) <==> IssueOf(info.(deps := deps), ids, x)
  {
    if deps != [] {
      var n := |deps| - 1;
      InvalidOfListed(info, deps[..n], ids, x);
      forall b | 0 <= b < n ensures deps[..n][b] == deps[b] {}
    }
  }

  ghost function OrphanedBefore(infos: seq<StepInfo>, dependedOn: set<string>, i: nat): set<int> {
    set k | 0 <= k < i && k < |infos| && infos[k].id !in dependedOn && infos[k].index < |infos| - 1
  }

  lemma {:induction false} CountOrphaned(infos: seq<StepInfo>, dependedOn: set<string>, i: nat)
    requires i <= |infos|
    ensures Orphans(infos[..i], dependedOn, |infos|) == |OrphanedBefore(infos, dependedOn, i)|
    decreases i
  {
    if i > 0 {
      var k := i - 1;
      CountOrphaned(infos, dependedOn, k);
      assert infos[..i][..k] == infos[..k];
      var here := if infos[k].id !in dependedOn && infos[k].index < |infos| - 1 then {k as int} else {};
      assert OrphanedBefore(infos, dependedOn, i) == OrphanedBefore(infos, dependedOn, k) + here;
    } else {
      assert OrphanedBefore(infos, dependedOn, 0) == {};
    }
  }

  lemma OrphansCounted(infos: seq<StepInfo>)
    ensures Orphans(infos, DependedOn(infos), |infos|) == |Orphaned(infos)|
  {
    CountOrphaned(infos, DependedOn(infos), |infos|);
    assert infos[..|infos|] == infos;
    forall d: string
      ensures d !in DependedOn(infos) <==>
              forall a, b :: 0 <= a < |infos| && 0 <= b < |infos[a].deps| ==> infos[a].deps[b] != d
    {
    }
    hide DependedOn, Orphans;
    assert OrphanedBefore(infos, DependedOn(infos), |infos|) == Orphaned(infos);
  }

  /** The score: one, or a fifth with a cycle, less a tenth for each dangling dependency and a twentieth
      for each orphaned step, but not below zero. */
  lemma ScoreIs(infos: seq<StepInfo>, threshold: real)
    requires infos != []
    ensures var r, d, o := StructureReport(infos, threshold), |Dangling(infos)|, |Orphaned(infos)|;
      var due := (if Cyclic(BuildGraph(infos)) then 0.2 else 1.0) - 0.1 * d as real - 0.05 * o as real;
      && r.score == (if due >= 0.0 then due else 0.0)
      && r.orphans == o
      && (r.isValid <==> r.score >= threshold)
  {
    InvalidCounted(infos);
    OrphansCounted(infos);
    hide Cyclic, BuildGraph, InvalidDeps, Orphans, DependedOn, Ids, Dangling, Orphaned;
  }

  /** The verdict at the default threshold 0.7 is weaker than "no issues": it tolerates up to
      three dangling dependencies, or trades each of them for two orphaned steps. */
  lemma DefaultVerdict(infos: seq<StepInfo>)
    ensures StructureReport(infos, 0.7).isValid
       <==> infos != [] && !Cyclic(BuildGraph(infos)) && 2 * |Dangling(infos)| + |Orphaned(infos)| <= 6
  {
    if infos != [] {
      ScoreIs(infos, 0.7);
      hide StructureReport, Cyclic, BuildGraph, Dangling, Orphaned;
      var d, o := |Dangling(infos)|, |Orphaned(infos)|;
      assert 1.0 - 0.1 * d as real - 0.05 * o as real == 1.0 - 0.05 * (2 * d + o) as real;
      assert 2 * d + o >= 7 ==> 0.05 * (2 * d + o) as real >= 0.35;
      assert 2 * d + o <= 6 ==> 0.05 * (2 * d + o) as real <= 0.3;
    }
  }

  lemma SmallSet(s: set<(int, int)>)
    requires s <= {(0, 0)}
    ensures |s| <= 1
  {
    assert s == {} || s == {(0, 0)};
  }

  /** A plan the verdict accepts although one of its steps can never run. */
  lemma DanglingPlanAccepted()
    ensures var infos := [StepInfo("a", 0, ["ghost"], Pending)];
            StructureReport(infos, 0.7).isValid && !NoDangling(BuildGraph(infos))
  {
    var infos := [StepInfo("a", 0, ["ghost"], Pending)];
    assert infos[..0] == [] && ["ghost"][..0] == [];
    var g := BuildGraph(infos);
    assert g == map["a" := ["ghost"]];
    assert Edge(g, "a", "ghost");
    assert Ids(infos) == {"a"} by { assert infos[0].id == "a"; }
    assert Dangling(infos) <= {(0, 0)} && Orphaned(infos) == {};
    assert |Dangling(infos)| <= 1 by { SmallSet(Dangling(infos)); }
    forall k, w | 0 <= k < 2 && Edge(g, ["ghost", "a"][k], w) ensures w in ["ghost", "a"][..k] {
      assert ["ghost", "a"][..1] == ["ghost"];
    }
    OrderedCoverAcyclic(g, ["ghost", "a"]);
    DefaultVerdict(infos);
  }
}
