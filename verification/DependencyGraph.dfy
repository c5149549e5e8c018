/** Dependency graphs of plans: paths, cycles, and the stages in which steps become runnable.

    A graph maps a step ID to the IDs that step depends on. IDs that occur only as
    dependencies (dangling ones) have no entry and so no outgoing edges. */
module DependencyGraph {

  type Graph = map<string, seq<string>>

  function Succ(g: Graph, v: string): seq<string> {
    if v in g then g[v] else []
  }

  ghost predicate Edge(g: Graph, v: string, w: string) {
    w in Succ(g, v)
  }

  /** A dependency path, given by its nodes; it has |p| - 1 edges. */
  ghost predicate IsPath(g: Graph, p: seq<string>) {
    && |p| > 0
    && forall k, l :: 0 <= k && l == k + 1 && l < |p| ==> Edge(g, p[k], p[l])
  }

  ghost predicate IsCycle(g: Graph, p: seq<string>) {
    IsPath(g, p) && |p| >= 2 && p[0] == p[|p| - 1]
  }

  ghost predicate Cyclic(g: Graph) {
    exists p :: IsCycle(g, p)
  }

  /** Every dependency names a step. */
  ghost predicate NoDangling(g: Graph) {
    forall v, w :: v in g && Edge(g, v, w) ==> w in g
  }

  /** There is a path with k edges out of v. */
  ghost predicate HasPath(g: Graph, v: string, k: nat) {
    exists p :: IsPath(g, p) && |p| == k + 1 && p[0] == v
  }

  /** v depends, directly or not, on an ID that is no step. */
  ghost predicate ReachesMissing(g: Graph, v: string) {
    exists p :: IsPath(g, p) && p[0] == v && p[|p| - 1] !in g
  }

  /** v depends, directly or not, on a step that depends on itself. */
  ghost predicate ReachesCycle(g: Graph, v: string) {
    exists p, c :: IsPath(g, p) && p[0] == v && IsCycle(g, c) && c[0] == p[|p| - 1]
  }

  /** The k-th stage of the least fixed point of readiness: what can be complete after k waves. */
  ghost function Stage(g: Graph, k: nat): set<string> {
    if k == 0 then {} else set v | v in g && Ready(g, v, Stage(g, k - 1))
  }

  ghost predicate Ready(g: Graph, v: string, done: set<string>) {
    forall w :: Edge(g, v, w) ==> w in done
  }

  // ----- Paths -----

  lemma ConsPath(g: Graph, v: string, p: seq<string>)
    requires IsPath(g, p) && Edge(g, v, p[0])
    ensures IsPath(g, [v] + p)
  {
    var q := [v] + p;
    forall k, l | 0 <= k && l == k + 1 && l < |q| ensures Edge(g, q[k], q[l]) {
      if k > 0 { assert q[k] == p[k - 1] && q[l] == p[l - 1]; }
    }
  }

  lemma SubPath(g: Graph, p: seq<string>, i: nat, j: nat)
    requires IsPath(g, p) && i < j <= |p|
    ensures IsPath(g, p[i..j])
  {
    var q := p[i..j];
    forall k, l | 0 <= k && l == k + 1 && l < |q| ensures Edge(g, q[k], q[l]) {
      assert q[k] == p[i + k] && q[l] == p[i + l];
    }
  }

  /** Two paths join when the first ends where the second starts. */
  lemma JoinPaths(g: Graph, p: seq<string>, q: seq<string>)
    requires IsPath(g, p) && IsPath(g, q) && p[|p| - 1] == q[0]
    ensures IsPath(g, p + q[1..])
    ensures (p + q[1..])[|p| + |q| - 2] == q[|q| - 1]
  {
    var r := p + q[1..];
    forall k, l | 0 <= k && l == k + 1 && l < |r| ensures Edge(g, r[k], r[l]) {
      if l < |p| {
      } else {
        assert r[l] == q[l - |p| + 1] && r[k] == q[k - |p| + 1];
      }
    }
  }

  lemma PathStaysInside(g: Graph, p: seq<string>, i: nat)
    requires IsPath(g, p) && i < |p| - 1
    ensures p[i] in g
  {
    assert Edge(g, p[i], p[i + 1]);
  }

  lemma HasPathStep(g: Graph, v: string, k: nat)
    ensures HasPath(g, v, k + 1) <==> exists w :: Edge(g, v, w) && HasPath(g, w, k)
  {
    if HasPath(g, v, k + 1) {
      var p :| IsPath(g, p) && |p| == k + 2 && p[0] == v;
      SubPath(g, p, 1, |p|);
      var w := p[1];
      assert Edge(g, p[0], p[1]);
      assert p[1..][0] == w && |p[1..]| == k + 1;
      assert HasPath(g, w, k);
    }
    if w :| Edge(g, v, w) && HasPath(g, w, k) {
      var p :| IsPath(g, p) && |p| == k + 1 && p[0] == w;
      ConsPath(g, v, p);
      assert |[v] + p| == k + 2 && ([v] + p)[0] == v;
    }
  }

  lemma ReachesMissingStep(g: Graph, v: string)
    requires v in g
    ensures ReachesMissing(g, v) <==> exists w :: Edge(g, v, w) && ReachesMissing(g, w)
  {
    if ReachesMissing(g, v) {
      var p :| IsPath(g, p) && p[0] == v && p[|p| - 1] !in g;
      assert |p| > 1;
      SubPath(g, p, 1, |p|);
      var w := p[1];
      assert Edge(g, p[0], w);
      assert p[1..][0] == w && p[1..][|p| - 2] == p[|p| - 1];
      assert ReachesMissing(g, w);
    }
    if w :| Edge(g, v, w) && ReachesMissing(g, w) {
      var p :| IsPath(g, p) && p[0] == w && p[|p| - 1] !in g;
      ConsPath(g, v, p);
      var q := [v] + p;
      assert q[0] == v && q[|q| - 1] == p[|p| - 1];
    }
  }

  // ----- Stages are depths -----

  /** A step belongs to stage k exactly when no dependency path of k edges leaves it and
      none of its dependency paths runs into a missing ID. */
  lemma {:induction false} StageIsDepth(g: Graph, v: string, k: nat)
    ensures v in Stage(g, k) <==> v in g && !HasPath(g, v, k) && !ReachesMissing(g, v)
    decreases k
  {
    if k == 0 {
      assert IsPath(g, [v]);
      assert HasPath(g, v, 0);
    } else if v in g {
      HasPathStep(g, v, k - 1);
      ReachesMissingStep(g, v);
      forall w | Edge(g, v, w)
        ensures w in Stage(g, k - 1) <==> w in g && !HasPath(g, w, k - 1) && !ReachesMissing(g, w)
      {
        StageIsDepth(g, w, k - 1);
      }
      forall w | Edge(g, v, w) && w !in g ensures ReachesMissing(g, w) {
        assert IsPath(g, [w]);
      }
    }
  }

  lemma {:induction false} StageMonotone(g: Graph, k: nat)
    ensures Stage(g, k) <= Stage(g, k + 1)
    decreases k
  {
    if k > 0 {
      StageMonotone(g, k - 1);
      forall v | v in Stage(g, k) ensures v in Stage(g, k + 1) {
        assert Ready(g, v, Stage(g, k - 1));
        assert Ready(g, v, Stage(g, k));
      }
    }
  }

  lemma {:induction false} StageMonotoneUpTo(g: Graph, k: nat, n: nat)
    requires k <= n
    ensures Stage(g, k) <= Stage(g, n)
    decreases n - k
  {
    if k < n {
      StageMonotone(g, k);
      StageMonotoneUpTo(g, k + 1, n);
    }
  }

  lemma {:induction false} StageFixpoint(g: Graph, k: nat, n: nat)
    requires Stage(g, k) == Stage(g, k + 1) && k <= n
    ensures Stage(g, k) == Stage(g, n)
    decreases n - k
  {
    if k < n {
      assert Stage(g, k + 1) == Stage(g, k + 2);
      StageFixpoint(g, k + 1, n);
    }
  }

  // ----- Pigeonhole -----

  function Elements(p: seq<string>): set<string> {
    set v | v in p
  }

  lemma {:induction false} DistinctCount(p: seq<string>)
    requires forall i, j :: 0 <= i < j < |p| ==> p[i] != p[j]
    ensures |Elements(p)| == |p|
  {
    if |p| > 0 {
      var front := p[..|p| - 1];
      DistinctCount(front);
      assert Elements(p) == Elements(front) + {p[|p| - 1]};
    } else {
      assert Elements(p) == {};
    }
  }

  lemma Subset(a: set<string>, b: set<string>)
    requires a <= b
    ensures |a| <= |b|
  {
    assert b == a + (b - a);
  }

  lemma Repetition(p: seq<string>, within: set<string>) returns (i: nat, j: nat)
    requires |p| > |within| && forall k :: 0 <= k < |p| ==> p[k] in within
    ensures i < j < |p| && p[i] == p[j]
  {
    if forall i, j :: 0 <= i < j < |p| ==> p[i] != p[j] {
      DistinctCount(p);
      Subset(Elements(p), within);
      assert false;
    }
    i, j :| 0 <= i < j < |p| && p[i] == p[j];
  }

  /** A path as long as the number of steps meets a cycle, unless it leaves the graph. */
  lemma LongPathMeetsCycle(g: Graph, v: string)
    requires HasPath(g, v, |g|) && !ReachesMissing(g, v)
    ensures ReachesCycle(g, v)
  {
    var p :| IsPath(g, p) && |p| == |g| + 1 && p[0] == v;
    forall k | 0 <= k < |p| ensures p[k] in g.Keys {
      if k < |p| - 1 { PathStaysInside(g, p, k); }
    }
    var i, j := Repetition(p, g.Keys);
    SubPath(g, p, i, j + 1);
    SubPath(g, p, 0, i + 1);
    var c, q := p[i..j + 1], p[0..i + 1];
    assert c[0] == p[i] && c[|c| - 1] == p[j];
    assert IsCycle(g, c) && q[|q| - 1] == c[0] && q[0] == v;
  }

  lemma {:induction false} CycleGivesPaths(g: Graph, c: seq<string>, k: nat)
    requires IsCycle(g, c)
    ensures exists p :: IsPath(g, p) && |p| > k && p[0] == c[0] && p[|p| - 1] == c[0]
    decreases k
  {
    if k == 0 {
      assert |c| > k;
    } else {
      CycleGivesPaths(g, c, k - 1);
      var p :| IsPath(g, p) && |p| > k - 1 && p[0] == c[0] && p[|p| - 1] == c[0];
      JoinPaths(g, p, c);
      var q := p + c[1..];
      assert |q| > k && q[0] == c[0] && q[|q| - 1] == c[0];
    }
  }

  lemma CycleHasLongPath(g: Graph, v: string, k: nat)
    requires ReachesCycle(g, v)
    ensures HasPath(g, v, k)
  {
    var p, c :| IsPath(g, p) && p[0] == v && IsCycle(g, c) && c[0] == p[|p| - 1];
    CycleGivesPaths(g, c, k + 1);
    var q :| IsPath(g, q) && |q| > k + 1 && q[0] == c[0] && q[|q| - 1] == c[0];
    JoinPaths(g, p, q);
    var r := p + q[1..];
    SubPath(g, r, 0, k + 1);
    assert |r[0..k + 1]| == k + 1 && r[0..k + 1][0] == v;
  }

  // ----- What can ever complete -----

  /** A step is in some stage exactly when it depends on neither a cycle nor a missing ID,
      and then it is already in the stage numbered by the count of steps. */
  lemma GroundedIff(g: Graph, v: string)
    requires v in g
    ensures v in Stage(g, |g|) <==> !ReachesCycle(g, v) && !ReachesMissing(g, v)
    ensures (exists k: nat :: v in Stage(g, k)) <==> v in Stage(g, |g|)
  {
    StageIsDepth(g, v, |g|);
    if HasPath(g, v, |g|) && !ReachesMissing(g, v) {
      LongPathMeetsCycle(g, v);
    }
    if ReachesCycle(g, v) {
      CycleHasLongPath(g, v, |g|);
      forall k: nat ensures v !in Stage(g, k) {
        CycleHasLongPath(g, v, k);
        StageIsDepth(g, v, k);
      }
    } else {
      forall k: nat | v in Stage(g, k) ensures v in Stage(g, |g|) {
        StageIsDepth(g, v, k);
      }
    }
  }

  lemma CycleBlocks(g: Graph, c: seq<string>)
    requires IsCycle(g, c)
    ensures c[0] in g && ReachesCycle(g, c[0])
  {
    PathStaysInside(g, c, 0);
    assert IsPath(g, [c[0]]);
  }

  lemma DanglingBlocks(g: Graph, v: string, w: string)
    requires v in g && Edge(g, v, w) && w !in g
    ensures ReachesMissing(g, v)
  {
    assert IsPath(g, [w]);
    ReachesMissingStep(g, v);
    assert ReachesMissing(g, w);
  }

  lemma WellFormedIsGrounded(g: Graph, v: string)
    requires v in g && !Cyclic(g) && NoDangling(g)
    ensures !ReachesCycle(g, v) && !ReachesMissing(g, v)
  {
    if p :| IsPath(g, p) && p[0] == v && p[|p| - 1] !in g {
      StaysInGraph(g, p);
    }
  }

  /** All steps can complete exactly when the graph is acyclic and without dangling dependency. */
  lemma AllGroundedIff(g: Graph)
    ensures Stage(g, |g|) == g.Keys <==> !Cyclic(g) && NoDangling(g)
  {
    StageInGraph(g, |g|);
    if !Cyclic(g) && NoDangling(g) {
      forall v | v in g ensures v in Stage(g, |g|) {
        WellFormedIsGrounded(g, v);
        GroundedIff(g, v);
      }
    } else if c :| IsCycle(g, c) {
      CycleBlocks(g, c);
      GroundedIff(g, c[0]);
    } else {
      var v, w :| v in g && Edge(g, v, w) && w !in g;
      DanglingBlocks(g, v, w);
      GroundedIff(g, v);
    }
  }

  lemma StageInGraph(g: Graph, k: nat)
    ensures Stage(g, k) <= g.Keys
  {
  }

  lemma {:induction false} StaysInGraph(g: Graph, p: seq<string>)
    requires NoDangling(g) && IsPath(g, p) && p[0] in g
    ensures p[|p| - 1] in g
    decreases |p|
  {
    if |p| > 1 {
      SubPath(g, p, 0, |p| - 1);
      StaysInGraph(g, p[0..|p| - 1]);
      assert Edge(g, p[|p| - 2], p[|p| - 1]);
      assert p[0..|p| - 1][|p| - 2] == p[|p| - 2];
    }
  }
}
