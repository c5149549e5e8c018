/** History pruners: which messages are dropped to fit a token budget. */
module Pruning {

  datatype Message = Message(role: string, content: string, toolCalls: nat, tokens: int)

  predicate System(m: Message) {
    m.role == "system"
  }

  /** Estimated size of a message; never less than one token. */
  function EstimateTokens(m: Message): (t: int)
    ensures t > 0
    ensures m.tokens >= 1 ==> t == m.tokens
    ensures m.tokens < 1 ==> 4 * (t - 4) <= |m.content| < 4 * (t - 3)
  {
    if m.tokens > 0 then m.tokens else |m.content| / 4 + 4
  }

  function Total(s: seq<Message>): int {
    if s == [] then 0 else Total(s[..|s| - 1]) + EstimateTokens(s[|s| - 1])
  }

  method TotalTokens(messages: seq<Message>) returns (total: int)
    ensures total == Total(messages)
  {
    total := 0;
    for i := 0 to |messages|
      invariant total == Total(messages[..i])
    {
      assert messages[..i + 1][..i] == messages[..i];
      total := total + EstimateTokens(messages[i]);
    }
    assert messages[..|messages|] == messages;
  }

  function Without(s: seq<Message>, i: nat): seq<Message>
    requires i < |s|
  {
    s[..i] + s[i + 1..]
  }

  lemma WithoutSnoc(s: seq<Message>, i: nat)
    requires i < |s| - 1
    ensures var w, n := Without(s, i), |s| - 1; w != [] && w[..|w| - 1] == Without(s[..n], i) && w[|w| - 1] == s[n]
  {
  }

  lemma {:induction false} TotalWithout(s: seq<Message>, i: nat)
    requires i < |s|
    ensures Total(Without(s, i)) == Total(s) - EstimateTokens(s[i])
    decreases |s|
  {
    var n := |s| - 1;
    if i == n {
      assert Without(s, i) == s[..n];
    } else {
      hide EstimateTokens;
      TotalWithout(s[..n], i);
      WithoutSnoc(s, i);
    }
  }

  /** Removes one message from the first n of a slice, in place; what follows moves down. */
  method RemoveAt(a: array<Message>, n: nat, i: nat)
    requires i < n <= a.Length
    modifies a
    ensures a[..n - 1] == Without(old(a[..n]), i)
  {
    for k := i to n - 1
      invariant forall j :: 0 <= j < i ==> a[j] == old(a[j])
      invariant forall j :: i <= j < k ==> a[j] == old(a[j + 1])
      invariant forall j :: k <= j < n ==> a[j] == old(a[j])
    {
      a[k] := a[k + 1];
    }
  }

  /** Removes a message and keeps the running total. */
  method Drop(a: array<Message>, n: nat, i: nat, total: int) returns (left: int)
    requires i < n <= a.Length && total == Total(a[..n])
    modifies a
    ensures a[..n - 1] == Without(old(a[..n]), i) && left == Total(a[..n - 1])
  {
    left := total - EstimateTokens(a[i]);
    TotalWithout(a[..n], i);
    RemoveAt(a, n, i);
  }

  /** The position of the first message among the first n that is no system message, or n. */
  method FirstOther(a: array<Message>, n: nat) returns (i: nat)
    requires n <= a.Length
    ensures i <= n && (forall j :: 0 <= j < i ==> System(a[j])) && (i < n ==> !System(a[i]))
  {
    i := 0;
    while i < n && System(a[i])
      invariant i <= n && forall j :: 0 <= j < i ==> System(a[j])
    {
      i := i + 1;
    }
  }

  /** The position of the last one, or -1. */
  method LastOther(a: array<Message>, n: nat) returns (i: int)
    requires n <= a.Length
    ensures -1 <= i < n && (forall j :: i < j < n ==> System(a[j])) && (i >= 0 ==> !System(a[i]))
  {
    i := n - 1;
    while i >= 0 && System(a[i])
      invariant -1 <= i < n && forall j :: i < j < n ==> System(a[j])
    {
      i := i - 1;
    }
  }

  function Systems(s: seq<Message>): seq<Message> {
    if s == [] then [] else (if System(s[0]) then [s[0]] else []) + Systems(s[1..])
  }

  function Others(s: seq<Message>): seq<Message> {
    if s == [] then [] else (if System(s[0]) then [] else [s[0]]) + Others(s[1..])
  }

  // ----- Oldest first -----

  /** The messages without the k earliest non-system ones. */
  function DropEarliest(s: seq<Message>, k: nat): seq<Message> {
    if k == 0 || s == [] then s
    else if System(s[0]) then [s[0]] + DropEarliest(s[1..], k)
    else DropEarliest(s[1..], k - 1)
  }

  predicate NoOthers(s: seq<Message>) {
    forall i :: 0 <= i < |s| ==> System(s[i])
  }

  /** Nothing more need or can be dropped. */
  predicate Settled(s: seq<Message>, maxTokens: int) {
    Total(s) <= maxTokens || |s| <= 1 || NoOthers(s)
  }

  ghost predicate FirstAt(t: seq<Message>, i: nat) {
    i < |t| && !System(t[i]) && forall j :: 0 <= j < i ==> System(t[j])
  }

  lemma DropEarliestCons(s: seq<Message>, k: nat)
    requires s != []
    ensures DropEarliest(s, 0) == [s[0]] + DropEarliest(s[1..], 0)
    ensures System(s[0]) ==> DropEarliest(s, k) == [s[0]] + DropEarliest(s[1..], k)
    ensures !System(s[0]) ==> DropEarliest(s, k + 1) == DropEarliest(s[1..], k)
  {
  }

  /** The first other message of a text with one message in front. */
  lemma FirstAtCons(m: Message, t: seq<Message>, i: nat)
    requires FirstAt([m] + t, i)
    ensures System(m) <==> i > 0
    ensures i > 0 ==> FirstAt(t, i - 1) && Without([m] + t, i) == [m] + Without(t, i - 1)
    ensures i == 0 ==> Without([m] + t, i) == t
  {
    var s := [m] + t;
    assert s[0] == m && forall j :: 0 <= j < |t| ==> s[j + 1] == t[j];
  }

  lemma {:induction false} DropOneMore(s: seq<Message>, k: nat, i: nat)
    requires FirstAt(DropEarliest(s, k), i)
    ensures DropEarliest(s, k + 1) == Without(DropEarliest(s, k), i)
    decreases |s|
  {
    assert s != [];
    hide *;
    if k > 0 { DropEarliestCons(s, k - 1); }
    DropEarliestCons(s, k);
    DropEarliestCons(s, k + 1);
    if k > 0 && !System(s[0]) {
      DropOneMore(s[1..], k - 1, i);
    } else {
      FirstAtCons(s[0], DropEarliest(s[1..], k), i);
      if i > 0 { DropOneMore(s[1..], k, i - 1); } else { DropEarliestCons(s, 0); }
    }
  }

  /** What dropping the k earliest means: system messages all stay, in order; of the others the
      first k are gone. */
  lemma {:induction false} DropEarliestKeeps(s: seq<Message>, k: nat)
    requires k <= |Others(s)|
    ensures Systems(DropEarliest(s, k)) == Systems(s)
    ensures Others(DropEarliest(s, k)) == Others(s)[k..]
    decreases |s|
  {
    if k == 0 || s == [] {
      assert Others(s)[0..] == Others(s);
    } else {
      hide *;
      var m, rest := s[0], s[1..];
      assert s == [m] + rest;
      FilterCons(m, rest);
      if System(m) {
        DropEarliestCons(s, k);
        DropEarliestKeeps(rest, k);
        FilterCons(m, DropEarliest(rest, k));
      } else {
        DropEarliestCons(s, k - 1);
        DropEarliestKeeps(rest, k - 1);
        ConsSlice(m, Others(rest), k);
      }
    }
  }

  lemma ConsSlice(m: Message, s: seq<Message>, k: nat)
    requires 0 < k <= |s| + 1
    ensures ([m] + s)[k..] == s[k - 1..]
  {
  }

  lemma FilterCons(m: Message, s: seq<Message>)
    ensures Systems([m] + s) == (if System(m) then [m] else []) + Systems(s)
    ensures Others([m] + s) == (if System(m) then [] else [m]) + Others(s)
  {
    assert ([m] + s)[1..] == s;
  }

  /** t is s without its k earliest non-system messages, and fewer would not do. */
  ghost predicate OldestGone(s: seq<Message>, maxTokens: int, k: nat, t: seq<Message>) {
    && k <= |Others(s)|
    && t == DropEarliest(s, k)
    && forall j :: 0 <= j < k ==> !Settled(DropEarliest(s, j), maxTokens)
  }

  lemma NoneGone(s: seq<Message>, maxTokens: int)
    ensures OldestGone(s, maxTokens, 0, s)
  {
  }

  lemma OneMoreGone(s: seq<Message>, maxTokens: int, k: nat, t: seq<Message>, i: nat)
    requires OldestGone(s, maxTokens, k, t) && Total(t) > maxTokens && |t| > 1
    requires i < |t| && !System(t[i]) && forall j :: 0 <= j < i ==> System(t[j])
    ensures OldestGone(s, maxTokens, k + 1, Without(t, i))
  {
    hide Total, DropEarliest, Others, System;
    assert FirstAt(t, i);
    DropOneMore(s, k, i);
    OthersLeft(s, k, i);
    assert !Settled(t, maxTokens);
  }

  lemma IsSettledOldest(t: seq<Message>, maxTokens: int)
    requires Total(t) <= maxTokens || |t| <= 1 || NoOthers(t)
    ensures Settled(t, maxTokens)
  {
  }

  /** One pass of the loop: removes the earliest non-system message of t, if there is one. */
  method DropOneEarliest(a: array<Message>, n: nat, total: int, maxTokens: int,
                         ghost s: seq<Message>, ghost k: nat, ghost t: seq<Message>)
    returns (stop: bool, left: nat, rest: int, ghost k1: nat, ghost t1: seq<Message>)
    requires 1 < n <= a.Length && t == a[..n] && OldestGone(s, maxTokens, k, t) && total == Total(t) > maxTokens
    modifies a
    ensures left <= n && t1 == a[..left] && OldestGone(s, maxTokens, k1, t1) && rest == Total(t1)
    ensures if stop then NoOthers(t1) else left == n - 1
  {
    hide Total, EstimateTokens, OldestGone, System, Without;
    stop, left, rest, k1, t1 := false, n, total, k, t;
    var removeIdx := FirstOther(a, n);
    assert forall j :: 0 <= j < n ==> t[j] == a[j];
    if removeIdx == n {
      stop := true;
      return;
    }
    OneMoreGone(s, maxTokens, k, t, removeIdx);
    rest := Drop(a, n, removeIdx, total);
    left, k1, t1 := n - 1, k + 1, Without(t, removeIdx);
  }

  method OldestFirstPrune(a: array<Message>, maxTokens: int) returns (n: nat, ghost k: nat)
    modifies a
    ensures n <= a.Length
    ensures OldestGone(old(a[..]), maxTokens, k, a[..n]) && Settled(a[..n], maxTokens)
    ensures Total(a[..n]) <= maxTokens || n <= 1 || forall i :: 0 <= i < n ==> a[..n][i].role == "system"
  {
    ghost var s, t := a[..], a[..];
    n, k := a.Length, 0;
    assert a[..n] == s;
    hide *;
    NoneGone(s, maxTokens);
    var total := TotalTokens(a[..]);
    var stop := false;
    while total > maxTokens && n > 1 && !stop
      invariant n <= a.Length && t == a[..n] && |t| == n
      invariant OldestGone(s, maxTokens, k, t) && total == Total(t)
      invariant stop ==> NoOthers(t)
      decreases n, !stop
    {
      stop, n, total, k, t := DropOneEarliest(a, n, total, maxTokens, s, k, t);
    }
    IsSettledOldest(t, maxTokens);
    SettledIff(t, maxTokens);
  }

  /** The stop conditions, spelled out. */
  lemma SettledIff(t: seq<Message>, maxTokens: int)
    ensures Settled(t, maxTokens)
       <==> Total(t) <= maxTokens || |t| <= 1 || forall i :: 0 <= i < |t| ==> t[i].role == "system"
  {
  }

  lemma OthersLeft(s: seq<Message>, k: nat, i: nat)
    requires k <= |Others(s)| && i < |DropEarliest(s, k)| && !System(DropEarliest(s, k)[i])
    ensures k < |Others(s)|
  {
    DropEarliestKeeps(s, k);
    SomeOther(DropEarliest(s, k), i);
  }

  lemma {:induction false} SomeOther(s: seq<Message>, i: nat)
    requires i < |s| && !System(s[i])
    ensures Others(s) != []
  {
    if i > 0 { SomeOther(s[1..], i - 1); }
  }

  // ----- Newest first, but keeping the most recent -----

  /** The messages without the k latest non-system ones. */
  function DropLatest(s: seq<Message>, k: nat): seq<Message> {
    if k == 0 || s == [] then s
    else
      var n := |s| - 1;
      if System(s[n]) then DropLatest(s[..n], k) + [s[n]] else DropLatest(s[..n], k - 1)
  }

  ghost predicate LastAt(t: seq<Message>, i: nat) {
    i < |t| && !System(t[i]) && forall j :: i < j < |t| ==> System(t[j])
  }

  lemma DropLatestSnoc(s: seq<Message>, k: nat)
    requires s != []
    ensures var n := |s| - 1;
      && DropLatest(s, 0) == DropLatest(s[..n], 0) + [s[n]]
      && (System(s[n]) ==> DropLatest(s, k) == DropLatest(s[..n], k) + [s[n]])
      && (!System(s[n]) ==> DropLatest(s, k + 1) == DropLatest(s[..n], k))
  {
  }

  /** The last other message of a text with one message behind. */
  lemma LastAtSnoc(t: seq<Message>, m: Message, i: nat)
    requires LastAt(t + [m], i)
    ensures i <= |t| && (System(m) <==> i < |t|)
    ensures i < |t| ==> LastAt(t, i) && Without(t + [m], i) == Without(t, i) + [m]
    ensures i == |t| ==> Without(t + [m], i) == t
  {
    var s := t + [m];
    assert s[|t|] == m && forall j :: 0 <= j < |t| ==> s[j] == t[j];
  }

  lemma {:induction false} DropOneMoreLatest(s: seq<Message>, k: nat, i: nat)
    requires LastAt(DropLatest(s, k), i)
    ensures DropLatest(s, k + 1) == Without(DropLatest(s, k), i)
    decreases |s|
  {
    assert s != [];
    hide *;
    var n := |s| - 1;
    if k > 0 { DropLatestSnoc(s, k - 1); }
    DropLatestSnoc(s, k);
    DropLatestSnoc(s, k + 1);
    if k > 0 && !System(s[n]) {
      DropOneMoreLatest(s[..n], k - 1, i);
    } else {
      var t := DropLatest(s[..n], k);
      LastAtSnoc(t, s[n], i);
      if i < |t| { DropOneMoreLatest(s[..n], k, i); }
    }
  }

  lemma {:induction false} FilterSnoc(s: seq<Message>, m: Message)
    ensures Systems(s + [m]) == Systems(s) + if System(m) then [m] else []
    ensures Others(s + [m]) == Others(s) + if System(m) then [] else [m]
    decreases |s|
  {
    if s != [] {
      assert (s + [m])[1..] == s[1..] + [m];
      FilterSnoc(s[1..], m);
    }
  }

  /** What dropping the k latest means: system messages all stay, in order; of the others the last
      k are gone. */
  lemma {:induction false} DropLatestKeeps(s: seq<Message>, k: nat)
    requires k <= |Others(s)|
    ensures Systems(DropLatest(s, k)) == Systems(s)
    ensures Others(DropLatest(s, k)) == Others(s)[..|Others(s)| - k]
    decreases |s|
  {
    if k > 0 && s != [] {
      var n := |s| - 1;
      assert s == s[..n] + [s[n]];
      FilterSnoc(s[..n], s[n]);
      if System(s[n]) {
        DropLatestKeeps(s[..n], k);
        FilterSnoc(DropLatest(s[..n], k), s[n]);
      } else {
        DropLatestKeeps(s[..n], k - 1);
      }
    }
  }

  function Recent(keepRecent: int): nat {
    if keepRecent <= 0 then 2 else keepRecent
  }

  /** All but the last r messages, with the k latest non-system ones among them dropped. */
  function DropBeforeRecent(s: seq<Message>, r: nat, k: nat): seq<Message>
    requires r <= |s|
  {
    DropLatest(s[..|s| - r], k) + s[|s| - r..]
  }

  predicate SettledRecent(s: seq<Message>, maxTokens: int, r: nat) {
    Total(s) <= maxTokens || |s| <= r + 1 || NoOthers(s[..|s| - r])
  }

  method NewestFirstPrune(a: array<Message>, keepRecent: int, maxTokens: int) returns (n: nat, ghost k: nat)
    modifies a
    ensures n <= a.Length
    ensures a.Length <= Recent(keepRecent) ==> n == a.Length && a[..] == old(a[..])
    ensures var r := Recent(keepRecent);
      a.Length > r ==>
        && NewestGone(old(a[..]), r, maxTokens, k, a[..n]) && SettledRecent(a[..n], maxTokens, r)
        && n >= r && a[..n][n - r..] == old(a[..])[a.Length - r..]
    ensures Recent(keepRecent) == if keepRecent >= 1 then keepRecent else 2
  {
    var r := if keepRecent <= 0 then 2 else keepRecent;
    n, k := a.Length, 0;
    if n <= r {
      return;
    }
    ghost var s := a[..];
    hide SettledRecent, DropBeforeRecent;
    n, k := PruneBefore(a, r, maxTokens);
    RecentStays(s, r, k);
  }

  /** t is s without the k latest non-system messages before its last r, and fewer would not do. */
  ghost predicate NewestGone(s: seq<Message>, r: nat, maxTokens: int, k: nat, t: seq<Message>)
    requires r <= |s|
  {
    && t == DropBeforeRecent(s, r, k)
    && forall j :: 0 <= j < k ==> !SettledRecent(DropBeforeRecent(s, r, j), maxTokens, r)
  }

  lemma NoneNewestGone(s: seq<Message>, r: nat, maxTokens: int)
    requires r <= |s|
    ensures NewestGone(s, r, maxTokens, 0, s)
  {
    DropNone(s, r);
  }

  lemma OneMoreNewestGone(s: seq<Message>, r: nat, maxTokens: int, k: nat, t: seq<Message>, i: nat)
    requires r <= |s| && NewestGone(s, r, maxTokens, k, t) && Total(t) > maxTokens && |t| > r + 1
    requires i < |t| - r && !System(t[i]) && forall j :: i < j < |t| - r ==> System(t[j])
    ensures NewestGone(s, r, maxTokens, k + 1, Without(t, i))
  {
    hide Total, DropBeforeRecent, System;
    DropBeforeRecentNext(s, r, k, i);
    NotSettledYet(t, maxTokens, r, i);
    hide SettledRecent;
  }

  /** One pass of the loop: removes the latest non-system message of t that is not recent, if any. */
  method DropOneBefore(a: array<Message>, n: nat, r: nat, total: int, maxTokens: int,
                       ghost s: seq<Message>, ghost k: nat, ghost t: seq<Message>)
    returns (stop: bool, left: nat, rest: int, ghost k1: nat, ghost t1: seq<Message>)
    requires r <= |s| && r + 1 < n <= a.Length && t == a[..n]
    requires NewestGone(s, r, maxTokens, k, t) && total == Total(t) > maxTokens
    modifies a
    ensures r < left <= n && t1 == a[..left] && NewestGone(s, r, maxTokens, k1, t1) && rest == Total(t1)
    ensures if stop then SettledRecent(t1, maxTokens, r) else left == n - 1
  {
    hide Total, EstimateTokens, NewestGone, System, SettledRecent, Without;
    stop, left, rest, k1, t1 := false, n, total, k, t;
    var i := LastOther(a, n - r);
    assert forall j :: 0 <= j < n ==> t[j] == a[j];
    if i == -1 {
      OnlySystemBefore(t, r, maxTokens);
      stop := true;
      return;
    }
    OneMoreNewestGone(s, r, maxTokens, k, t, i);
    rest := Drop(a, n, i, total);
    left, k1, t1 := n - 1, k + 1, Without(t, i);
  }

  /** The loop, when there are messages besides the last r. */
  method PruneBefore(a: array<Message>, r: nat, maxTokens: int) returns (n: nat, ghost k: nat)
    requires r < a.Length
    modifies a
    ensures r < n <= a.Length
    ensures NewestGone(old(a[..]), r, maxTokens, k, a[..n]) && SettledRecent(a[..n], maxTokens, r)
  {
    ghost var s, t := a[..], a[..];
    n, k := a.Length, 0;
    assert a[..n] == s;
    hide *;
    NoneNewestGone(s, r, maxTokens);
    var total := TotalTokens(a[..]);
    var stop := false;
    while total > maxTokens && n > r + 1 && !stop
      invariant r < n <= a.Length && t == a[..n] && |t| == n
      invariant NewestGone(s, r, maxTokens, k, t) && total == Total(t)
      invariant stop ==> SettledRecent(t, maxTokens, r)
      decreases n, !stop
    {
      stop, n, total, k, t := DropOneBefore(a, n, r, total, maxTokens, s, k, t);
    }
    if !stop { IsSettled(t, maxTokens, r); }
  }

  lemma OnlySystemBefore(t: seq<Message>, r: nat, maxTokens: int)
    requires r <= |t| && forall j :: 0 <= j < |t| - r ==> System(t[j])
    ensures SettledRecent(t, maxTokens, r)
  {
  }

  lemma IsSettled(t: seq<Message>, maxTokens: int, r: nat)
    requires Total(t) <= maxTokens || |t| <= r + 1
    ensures SettledRecent(t, maxTokens, r)
  {
  }

  lemma NotSettledYet(t: seq<Message>, maxTokens: int, r: nat, i: nat)
    requires Total(t) > maxTokens && |t| > r + 1 && i < |t| - r && !System(t[i])
    ensures !SettledRecent(t, maxTokens, r)
  {
    assert t[..|t| - r][i] == t[i];
  }

  lemma SettledRecentIff(t: seq<Message>, maxTokens: int, r: nat)
    requires r <= |t|
    ensures SettledRecent(t, maxTokens, r)
       <==> Total(t) <= maxTokens || |t| <= r + 1 || forall i :: 0 <= i < |t| - r ==> t[i].role == "system"
  {
    assert forall i :: 0 <= i < |t| - r ==> t[..|t| - r][i] == t[i];
  }

  /** The total is the sum of the estimates. */
  lemma TotalSums(s: seq<Message>, m: Message)
    ensures Total([]) == 0 && Total(s + [m]) == Total(s) + EstimateTokens(m)
  {
    assert (s + [m])[..|s|] == s;
  }

  lemma DropNone(s: seq<Message>, r: nat)
    requires r <= |s|
    ensures DropBeforeRecent(s, r, 0) == s
  {
  }

  lemma RecentStays(s: seq<Message>, r: nat, k: nat)
    requires r <= |s|
    ensures var t := DropBeforeRecent(s, r, k);
      |t| >= r && t[|t| - r..] == s[|s| - r..] && t[..|t| - r] == DropLatest(s[..|s| - r], k)
  {
  }

  lemma DropBeforeRecentNext(s: seq<Message>, r: nat, k: nat, i: nat)
    requires r <= |s|
    requires var t := DropBeforeRecent(s, r, k);
      && i < |t| - r && !System(t[i])
      && forall j :: i < j < |t| - r ==> System(t[j])
    ensures DropBeforeRecent(s, r, k + 1) == Without(DropBeforeRecent(s, r, k), i)
  {
    RecentStays(s, r, k);
    assert LastAt(DropLatest(s[..|s| - r], k), i);
    DropOneMoreLatest(s[..|s| - r], k, i);
    WithoutEarly(DropLatest(s[..|s| - r], k), s[|s| - r..], i);
  }

  lemma WithoutEarly(s: seq<Message>, t: seq<Message>, i: nat)
    requires i < |s|
    ensures Without(s + t, i) == Without(s, i) + t
  {
  }

  // ----- By importance -----

  datatype Scored = Scored(index: nat, msg: Message, score: real)

  /** Dropped before: a smaller score, or the same score and an earlier place. */
  predicate Before(messages: seq<Message>, score: Message -> real, d: nat, q: nat)
    requires d < |messages| && q < |messages|
  {
    score(messages[d]) < score(messages[q]) || (score(messages[d]) == score(messages[q]) && d < q)
  }

  function Messages(scored: seq<Scored>): seq<Message> {
    seq(|scored|, i requires 0 <= i < |scored| => scored[i].msg)
  }

  ghost predicate Holds(scored: seq<Scored>, d: nat) {
    exists i :: 0 <= i < |scored| && scored[i].index == d
  }

  /** The entries are messages of the history, in order, and every system message is among them. */
  ghost predicate Faithful(messages: seq<Message>, score: Message -> real, scored: seq<Scored>) {
    && (forall i :: 0 <= i < |scored| ==>
          && scored[i].index < |messages|
          && scored[i].msg == messages[scored[i].index]
          && scored[i].score == score(scored[i].msg))
    && (forall i, j :: 0 <= i < j < |scored| ==> scored[i].index < scored[j].index)
    && (forall d :: 0 <= d < |messages| && System(messages[d]) ==> Holds(scored, d))
  }

  /** Whatever is gone would go before any non-system message still there. */
  ghost predicate LowestGone(messages: seq<Message>, score: Message -> real, scored: seq<Scored>) {
    forall d, i ::
      (0 <= d < |messages| && !Holds(scored, d) && 0 <= i < |scored|
       && scored[i].index < |messages| && !System(scored[i].msg))
      ==> Before(messages, score, d, scored[i].index)
  }

  /** Nothing is gone, or the one that went last did so over budget. */
  ghost predicate GoneOverBudget(messages: seq<Message>, score: Message -> real, scored: seq<Scored>, maxTokens: int) {
    || (forall d :: 0 <= d < |messages| ==> Holds(scored, d))
    || (exists m :: 0 <= m < |messages| && !Holds(scored, m)
          && (forall d :: 0 <= d < |messages| && !Holds(scored, d) && d != m ==> Before(messages, score, d, m))
          && Total(Messages(scored)) + EstimateTokens(messages[m]) > maxTokens
          && scored != [])
  }

  /** The tokens of the dropped among the first n messages that went with d or after it. */
  ghost function GoneFrom(messages: seq<Message>, score: Message -> real, scored: seq<Scored>, d: nat, n: nat): int
    requires d < |messages| && n <= |messages|
  {
    if n == 0 then 0
    else
      var m := n - 1;
      GoneFrom(messages, score, scored, d, m)
      + if !Holds(scored, m) && (m == d || Before(messages, score, d, m)) then EstimateTokens(messages[m]) else 0
  }

  /** Each message that is gone went while the total, what went with and after it included, was over budget. */
  ghost predicate EachOverBudget(messages: seq<Message>, score: Message -> real, scored: seq<Scored>, maxTokens: int) {
    forall d :: 0 <= d < |messages| && !Holds(scored, d) ==>
      && scored != []
      && Total(Messages(scored)) + GoneFrom(messages, score, scored, d, |messages|) > maxTokens
  }

  lemma {:induction false} GoneFromCounts(messages: seq<Message>, score: Message -> real, scored: seq<Scored>,
                                          d: nat, m: nat, n: nat)
    requires d < |messages| && m < n <= |messages| && !Holds(scored, m)
    requires m == d || Before(messages, score, d, m)
    ensures GoneFrom(messages, score, scored, d, n) >= EstimateTokens(messages[m])
    decreases n
  {
    hide Holds, Before;
    if n - 1 == m {
      GoneFromNonNegative(messages, score, scored, d, m);
    } else {
      GoneFromCounts(messages, score, scored, d, m, n - 1);
    }
  }

  lemma {:induction false} GoneFromNonNegative(messages: seq<Message>, score: Message -> real, scored: seq<Scored>,
                                               d: nat, n: nat)
    requires d < |messages| && n <= |messages|
    ensures GoneFrom(messages, score, scored, d, n) >= 0
    decreases n
  {
    hide Holds, Before;
    if n > 0 {
      GoneFromNonNegative(messages, score, scored, d, n - 1);
    }
  }

  lemma LastOverBudgetMeansEach(messages: seq<Message>, score: Message -> real, scored: seq<Scored>, maxTokens: int)
    requires GoneOverBudget(messages, score, scored, maxTokens)
    ensures EachOverBudget(messages, score, scored, maxTokens)
  {
    hide Holds, Before, Total, EstimateTokens, GoneFrom;
    if d0 :| 0 <= d0 < |messages| && !Holds(scored, d0) {
      var m :| 0 <= m < |messages| && !Holds(scored, m)
        && (forall d :: 0 <= d < |messages| && !Holds(scored, d) && d != m ==> Before(messages, score, d, m))
        && Total(Messages(scored)) + EstimateTokens(messages[m]) > maxTokens;
      forall d | 0 <= d < |messages| && !Holds(scored, d)
        ensures Total(Messages(scored)) + GoneFrom(messages, score, scored, d, |messages|) > maxTokens
      {
        GoneFromCounts(messages, score, scored, d, m, |messages|);
      }
    }
  }

  lemma HoldsWithout(scored: seq<Scored>, i: nat, d: nat)
    requires i < |scored| && forall j, k :: 0 <= j < k < |scored| ==> scored[j].index < scored[k].index
    ensures Holds(scored[..i] + scored[i + 1..], d) <==> Holds(scored, d) && d != scored[i].index
  {
    var rest := scored[..i] + scored[i + 1..];
    if Holds(rest, d) {
      var j :| 0 <= j < |rest| && rest[j].index == d;
      assert scored[if j < i then j else j + 1].index == d;
    }
    if Holds(scored, d) && d != scored[i].index {
      var j :| 0 <= j < |scored| && scored[j].index == d;
      assert rest[if j < i then j else j - 1].index == d;
    }
  }

  /** The position of the first lowest-scored non-system entry, or -1. */
  method LowestIndex(scored: seq<Scored>) returns (lowestIdx: int)
    ensures -1 <= lowestIdx < |scored|
    ensures lowestIdx == -1 ==> forall i :: 0 <= i < |scored| ==> System(scored[i].msg)
    ensures lowestIdx >= 0 ==> !System(scored[lowestIdx].msg)
    ensures lowestIdx >= 0 ==> forall i :: 0 <= i < |scored| && !System(scored[i].msg) ==>
              scored[lowestIdx].score <= scored[i].score && (i < lowestIdx ==> scored[lowestIdx].score < scored[i].score)
  {
    lowestIdx := -1;
    var lowestScore := 0.0;
    for i := 0 to |scored|
      invariant -1 <= lowestIdx < i
      invariant lowestIdx == -1 ==> forall k :: 0 <= k < i ==> System(scored[k].msg)
      invariant lowestIdx >= 0 ==> !System(scored[lowestIdx].msg) && lowestScore == scored[lowestIdx].score
      invariant lowestIdx >= 0 ==> forall k :: 0 <= k < i && !System(scored[k].msg) ==>
                  lowestScore <= scored[k].score && (k < lowestIdx ==> lowestScore < scored[k].score)
    {
      if System(scored[i].msg) {
        continue;
      }
      if lowestIdx == -1 || scored[i].score < lowestScore {
        lowestIdx := i;
        lowestScore := scored[i].score;
      }
    }
  }

  lemma FaithfulWithout(messages: seq<Message>, score: Message -> real, scored: seq<Scored>, low: nat)
    requires Faithful(messages, score, scored) && low < |scored| && !System(scored[low].msg)
    ensures Faithful(messages, score, scored[..low] + scored[low + 1..])
  {
    var rest := scored[..low] + scored[low + 1..];
    hide Holds;
    forall d | 0 <= d < |messages| && System(messages[d]) ensures Holds(rest, d) {
      HoldsWithout(scored, low, d);
    }
  }

  lemma LowestGoneWithout(messages: seq<Message>, score: Message -> real, scored: seq<Scored>, low: nat)
    requires Faithful(messages, score, scored) && LowestGone(messages, score, scored)
    requires low < |scored| && !System(scored[low].msg)
    requires forall i :: 0 <= i < |scored| && !System(scored[i].msg) ==>
               scored[low].score <= scored[i].score && (i < low ==> scored[low].score < scored[i].score)
    ensures LowestGone(messages, score, scored[..low] + scored[low + 1..])
  {
    var rest := scored[..low] + scored[low + 1..];
    hide Holds;
    forall d, i | 0 <= d < |messages| && !Holds(rest, d) && 0 <= i < |rest| && !System(rest[i].msg)
      ensures Before(messages, score, d, rest[i].index)
    {
      HoldsWithout(scored, low, d);
      assert rest[i] == scored[if i < low then i else i + 1];
    }
  }

  /** Taking out the lowest entry while over budget keeps all that is promised. */
  lemma LowestOut(messages: seq<Message>, score: Message -> real, scored: seq<Scored>, low: nat, maxTokens: int)
    requires Faithful(messages, score, scored) && LowestGone(messages, score, scored)
    requires low < |scored| && |scored| > 1 && !System(scored[low].msg)
    requires forall i :: 0 <= i < |scored| && !System(scored[i].msg) ==>
               scored[low].score <= scored[i].score && (i < low ==> scored[low].score < scored[i].score)
    requires Total(Messages(scored)) > maxTokens
    ensures var rest := scored[..low] + scored[low + 1..];
      && Faithful(messages, score, rest) && LowestGone(messages, score, rest)
      && GoneOverBudget(messages, score, rest, maxTokens)
      && Total(Messages(rest)) == Total(Messages(scored)) - EstimateTokens(scored[low].msg)
  {
    hide *;
    FaithfulWithout(messages, score, scored, low);
    LowestGoneWithout(messages, score, scored, low);
    MessagesWithout(scored, low);
    TotalWithout(Messages(scored), low);
    OverBudgetWithout(messages, score, scored, low, maxTokens);
  }

  lemma MessagesWithout(scored: seq<Scored>, low: nat)
    requires low < |scored|
    ensures |Messages(scored)| == |scored| && Messages(scored)[low] == scored[low].msg
    ensures Messages(scored[..low] + scored[low + 1..]) == Without(Messages(scored), low)
  {
  }

  lemma OverBudgetWithout(messages: seq<Message>, score: Message -> real, scored: seq<Scored>, low: nat, maxTokens: int)
    requires Faithful(messages, score, scored) && LowestGone(messages, score, scored)
    requires low < |scored| && |scored| > 1 && !System(scored[low].msg)
    requires Total(Messages(scored[..low] + scored[low + 1..])) + EstimateTokens(scored[low].msg) > maxTokens
    ensures GoneOverBudget(messages, score, scored[..low] + scored[low + 1..], maxTokens)
  {
    var rest := scored[..low] + scored[low + 1..];
    var m := scored[low].index;
    HoldsWithout(scored, low, m);
    forall d | 0 <= d < |messages| && !Holds(rest, d) && d != m ensures Before(messages, score, d, m) {
      HoldsWithout(scored, low, d);
    }
  }

  method ImportancePrune(messages: seq<Message>, score: Message -> real, maxTokens: int)
    returns (result: seq<Message>, ghost kept: seq<Scored>)
    ensures result == Messages(kept)
    ensures Faithful(messages, score, kept)
    ensures LowestGone(messages, score, kept)
    ensures EachOverBudget(messages, score, kept, maxTokens)
    ensures Settled(result, maxTokens)
  {
    hide Total, EstimateTokens, System;
    var scored := [];
    for i := 0 to |messages|
      invariant |scored| == i
      invariant forall k :: 0 <= k < i ==> scored[k] == Scored(k, messages[k], score(messages[k]))
    {
      scored := scored + [Scored(i, messages[i], score(messages[i]))];
    }
    forall d | 0 <= d < |messages| ensures Holds(scored, d) {
      assert scored[d].index == d;
    }
    var total := TotalTokens(messages);
    assert Messages(scored) == messages;
    while total > maxTokens && |scored| > 1
      invariant Faithful(messages, score, scored) && LowestGone(messages, score, scored)
      invariant GoneOverBudget(messages, score, scored, maxTokens)
      invariant total == Total(Messages(scored))
      decreases |scored|
    {
      var lowestIdx := LowestIndex(scored);
      if lowestIdx == -1 {
        break;
      }
      LowestOut(messages, score, scored, lowestIdx, maxTokens);
      total := total - EstimateTokens(scored[lowestIdx].msg);
      scored := scored[..lowestIdx] + scored[lowestIdx + 1..];
    }
    kept := scored;
    LastOverBudgetMeansEach(messages, score, kept, maxTokens);
    result := [];
    for i := 0 to |scored|
      invariant |result| == i && forall k :: 0 <= k < i ==> result[k] == scored[k].msg
    {
      result := result + [scored[i].msg];
    }
  }
}
