/** Load balancers: weighted random selection, and least connections. */
module Balancing {

  // ----- Weighted -----

  /** A provider's weight; one unless a positive weight was set. */
  function Weight(weights: map<string, int>, p: string): (w: int)
    ensures w >= 1
    ensures p in weights && weights[p] >= 1 ==> w == weights[p]
    ensures p !in weights || weights[p] < 1 ==> w == 1
  {
    if p in weights && weights[p] > 0 then weights[p] else 1
  }

  function Cumulative(weights: map<string, int>, providers: seq<string>): (c: int)
    ensures c >= |providers|
  {
    if providers == [] then 0
    else Cumulative(weights, providers[..|providers| - 1]) + Weight(weights, providers[|providers| - 1])
  }

  class WeightedBalancer {
    var weights: map<string, int>

    constructor ()
      ensures weights == map[]
    {
      weights := map[];
    }

    method SetWeight(provider: string, weight: int)
      modifies this
      ensures weights == old(weights)[provider := weight]
    {
      weights := weights[provider := weight];
    }

    method TotalWeight(providers: seq<string>) returns (total: int)
      ensures total == Cumulative(weights, providers)
    {
      total := 0;
      for i := 0 to |providers|
        invariant total == Cumulative(weights, providers[..i])
      {
        assert providers[..i + 1][..i] == providers[..i];
        total := total + Weight(weights, providers[i]);
      }
      assert providers[..|providers|] == providers;
    }

    /** The choice for the random draw r below the total weight. */
    method Select(providers: seq<string>, r: int) returns (selected: string, ghost position: nat)
      requires providers != [] ==> 0 <= r < Cumulative(weights, providers)
      ensures providers == [] ==> selected == ""
      ensures providers != [] ==> Picks(weights, providers, r, position) && selected == providers[position]
    {
      selected, position := "", 0;
      if |providers| == 0 {
        return;
      }
      var totalWeight := TotalWeight(providers);
      var cumulative := 0;
      assert providers[..|providers|] == providers;
      for i := 0 to |providers|
        invariant cumulative == Cumulative(weights, providers[..i]) <= r
      {
        assert providers[..i + 1][..i] == providers[..i];
        cumulative := cumulative + Weight(weights, providers[i]);
        if r < cumulative {
          return providers[i], i;
        }
      }
      assert false; // the fallback after the loop is never reached
    }
  }

  /** The draw r falls into the stretch of the provider at the given position. */
  predicate Picks(weights: map<string, int>, providers: seq<string>, r: int, position: nat) {
    && position < |providers|
    && Cumulative(weights, providers[..position]) <= r < Cumulative(weights, providers[..position + 1])
  }

  lemma {:induction false} CumulativeMonotone(weights: map<string, int>, providers: seq<string>, i: nat, j: nat)
    requires i <= j <= |providers|
    ensures Cumulative(weights, providers[..i]) <= Cumulative(weights, providers[..j]) <= Cumulative(weights, providers)
    decreases |providers| - i
  {
    if i < |providers| {
      assert providers[..i + 1][..i] == providers[..i];
      CumulativeMonotone(weights, providers, i + 1, if i < j then j else i + 1);
    } else {
      assert providers[..i] == providers;
    }
  }

  /** A draw picks one position only. */
  lemma PicksOne(weights: map<string, int>, providers: seq<string>, r: int, i: nat, j: nat)
    requires Picks(weights, providers, r, i) && Picks(weights, providers, r, j)
    ensures i == j
  {
    if i < j {
      CumulativeMonotone(weights, providers, i + 1, j);
    } else if j < i {
      CumulativeMonotone(weights, providers, j + 1, i);
    }
  }

  /** The draws that pick the provider at the given position. */
  ghost function Draws(weights: map<string, int>, providers: seq<string>, position: nat): set<int> {
    set r: int | 0 <= r < Cumulative(weights, providers) && Picks(weights, providers, r, position)
  }

  /** The n numbers from `from` on. */
  function Stretch(from: int, n: nat): (rs: set<int>)
    ensures |rs| == n && forall r :: r in rs <==> from <= r < from + n
  {
    if n == 0 then {} else Stretch(from, n - 1) + {from + n - 1}
  }

  /** Among all draws below the total weight, each position is picked by exactly its weight many. */
  lemma FairShare(weights: map<string, int>, providers: seq<string>, position: nat)
    requires position < |providers|
    ensures var p, draws := providers[position], |Draws(weights, providers, position)|;
      if p in weights && weights[p] >= 1 then draws == weights[p] else draws == 1
  {
    var from := Cumulative(weights, providers[..position]);
    assert providers[..position + 1][..position] == providers[..position];
    CumulativeMonotone(weights, providers, position + 1, |providers|);
    assert Draws(weights, providers, position) == Stretch(from, Weight(weights, providers[position]));
  }

  // ----- Least connections -----

  function Count(connections: map<string, int>, p: string): int {
    if p in connections then connections[p] else 0
  }

  /** The first position with the fewest connections. */
  ghost predicate FewestFirst(connections: map<string, int>, providers: seq<string>, position: nat) {
    && position < |providers|
    && forall i :: 0 <= i < |providers| ==>
         && Count(connections, providers[position]) <= Count(connections, providers[i])
         && (i < position ==> Count(connections, providers[position]) < Count(connections, providers[i]))
  }

  class LeastConnectionsBalancer {
    var connections: map<string, int>

    ghost predicate Valid()
      reads this
    {
      forall p :: p in connections ==> connections[p] >= 0
    }

    constructor ()
      ensures Valid() && connections == map[]
    {
      connections := map[];
    }

    method Select(providers: seq<string>) returns (selected: string, ghost position: nat)
      requires Valid()
      modifies this
      ensures Valid()
      ensures providers == [] ==> selected == "" && connections == old(connections)
      ensures providers != [] ==> FewestFirst(old(connections), providers, position) && selected == providers[position]
      ensures connections == Counted(old(connections), selected)
    {
      selected, position := "", 0;
      if |providers| == 0 {
        return;
      }
      var minConns := -1;
      for i := 0 to |providers|
        invariant i == 0 ==> minConns < 0
        invariant i > 0 ==>
                    && position < i && selected == providers[position]
                    && minConns == Count(connections, selected) >= 0
                    && forall k :: 0 <= k < i ==>
                         && minConns <= Count(connections, providers[k])
                         && (k < position ==> minConns < Count(connections, providers[k]))
      {
        var conns := Count(connections, providers[i]);
        if minConns < 0 || conns < minConns {
          selected, position := providers[i], i;
          minConns := conns;
        }
      }
      if selected != "" {
        connections := connections[selected := Count(connections, selected) + 1];
      }
    }

    method Release(provider: string)
      requires Valid()
      modifies this
      ensures Valid()
      ensures connections == var n := Count(old(connections), provider);
                if n > 0 then old(connections)[provider := n - 1] else old(connections)
    {
      if Count(connections, provider) > 0 {
        connections := connections[provider := connections[provider] - 1];
      }
    }
  }

  /** A selection counts unless it chose the empty name. */
  function Counted(connections: map<string, int>, selected: string): map<string, int> {
    if selected == "" then connections else connections[selected := Count(connections, selected) + 1]
  }

  predicate Among(providers: seq<string>, positions: seq<nat>) {
    forall k :: 0 <= k < |positions| ==> positions[k] < |providers|
  }

  /** The counts after selections of the providers at the given positions of a fixed list. */
  function After(providers: seq<string>, positions: seq<nat>): map<string, int>
    requires Among(providers, positions)
  {
    if positions == [] then map[]
    else Counted(After(providers, positions[..|positions| - 1]), providers[positions[|positions| - 1]])
  }

  /** Each selection was at the first position with the fewest connections at the time. */
  ghost predicate IsRun(providers: seq<string>, positions: seq<nat>) {
    && Among(providers, positions)
    && forall k :: 0 <= k < |positions| ==> FewestFirst(After(providers, positions[..k]), providers, positions[k])
  }

  lemma RunFront(providers: seq<string>, positions: seq<nat>)
    requires IsRun(providers, positions) && positions != []
    ensures IsRun(providers, positions[..|positions| - 1])
  {
    hide After, FewestFirst;
    var front := positions[..|positions| - 1];
    forall k | 0 <= k < |front| ensures FewestFirst(After(providers, front[..k]), providers, front[k]) {
      assert front[..k] == positions[..k];
    }
  }

  predicate Distinct(providers: seq<string>) {
    forall i, j :: 0 <= i < j < |providers| ==> providers[i] != providers[j]
  }

  /** The counts of any two of the providers differ by at most one. */
  ghost predicate Balanced(connections: map<string, int>, providers: seq<string>) {
    forall i, j :: 0 <= i < |providers| && 0 <= j < |providers| ==>
      Count(connections, providers[i]) - Count(connections, providers[j]) <= 1
  }

  lemma StepBalances(connections: map<string, int>, providers: seq<string>, position: nat)
    requires Distinct(providers) && Balanced(connections, providers)
    requires FewestFirst(connections, providers, position)
    ensures Balanced(Counted(connections, providers[position]), providers)
  {
    var after := Counted(connections, providers[position]);
    assert providers[position] != "" ==> forall i :: 0 <= i < |providers| ==>
        Count(after, providers[i]) == Count(connections, providers[i]) + if i == position then 1 else 0;
  }

  function Sum(connections: map<string, int>, providers: seq<string>): int {
    if providers == [] then 0
    else Sum(connections, providers[..|providers| - 1]) + Count(connections, providers[|providers| - 1])
  }

  lemma {:induction false} SumCounted(connections: map<string, int>, providers: seq<string>, selected: string)
    requires selected != "" && Distinct(providers)
    ensures Sum(Counted(connections, selected), providers)
         == Sum(connections, providers) + if selected in providers then 1 else 0
    decreases |providers|
  {
    if providers != [] {
      var n := |providers| - 1;
      SumCounted(connections, providers[..n], selected);
      assert providers == providers[..n] + [providers[n]];
    }
  }

  /** Over a fixed list of distinct providers and without releases, counts never differ by more than
      one; where no provider's name is empty, they together count every selection. */
  lemma {:induction false} StaysBalanced(providers: seq<string>, positions: seq<nat>)
    requires IsRun(providers, positions) && Distinct(providers)
    ensures Balanced(After(providers, positions), providers)
    ensures "" !in providers ==> Sum(After(providers, positions), providers) == |positions|
    decreases |positions|
  {
    hide Balanced, Counted, Count, Distinct, FewestFirst, Sum;
    if positions == [] {
      NoneBalanced(providers);
    } else {
      var n := |positions| - 1;
      RunFront(providers, positions);
      StaysBalanced(providers, positions[..n]);
      StepBalances(After(providers, positions[..n]), providers, positions[n]);
      if "" !in providers {
        assert providers[positions[n]] in providers;
        SumCounted(After(providers, positions[..n]), providers, providers[positions[n]]);
      }
    }
  }

  lemma {:induction false} NoneBalanced(providers: seq<string>)
    ensures Balanced(map[], providers) && Sum(map[], providers) == 0
  {
    if providers != [] {
      NoneBalanced(providers[..|providers| - 1]);
    }
  }
}
