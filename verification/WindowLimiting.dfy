/** The windowed limiter of the middleware. Despite its name it counts in fixed windows that open
    with a call, so an interval of one window length can see two windows' worth of admissions. */
module WindowLimiting {

  datatype Window = Window(count: int, windowStart: real)

  datatype Call = Take(key: string, n: int, now: real) | Forget(key: string)

  function Max(a: int, b: int): int {
    if a > b then a else b
  }

  predicate OpensWindow(window: real, windows: map<string, Window>, key: string, now: real) {
    key !in windows || now - windows[key].windowStart >= window
  }

  predicate Grants(limit: int, window: real, windows: map<string, Window>, key: string, n: int, now: real) {
    if OpensWindow(window, windows, key, now) then n <= limit else windows[key].count + n <= limit
  }

  /** The key's window after a call. A new window is charged even when the call is refused. */
  function Charged(limit: int, window: real, windows: map<string, Window>, key: string, n: int, now: real): Window {
    if OpensWindow(window, windows, key, now) then Window(n, now)
    else if Grants(limit, window, windows, key, n, now) then windows[key].(count := windows[key].count + n)
    else windows[key]
  }

  class SlidingWindowLimiter {
    const limit: int
    const window: real
    var windows: map<string, Window>

    constructor (limit: int, window: real)
      ensures this.limit == limit && this.window == window && windows == map[]
    {
      this.limit, this.window, windows := limit, window, map[];
    }

    method AllowN(key: string, n: int, now: real) returns (allowed: bool)
      modifies this
      ensures allowed == Grants(limit, window, old(windows), key, n, now)
      ensures windows == old(windows)[key := Charged(limit, window, old(windows), key, n, now)]
    {
      if key !in windows || now - windows[key].windowStart >= window {
        windows := windows[key := Window(n, now)];
        return n <= limit;
      }
      var w := windows[key];
      if w.count + n <= limit {
        windows := windows[key := w.(count := w.count + n)];
        return true;
      }
      return false;
    }

    method Reset(key: string)
      modifies this
      ensures windows == old(windows) - {key}
    {
      windows := windows - {key};
    }
  }

  // ----- Runs -----

  function After(limit: int, window: real, calls: seq<Call>): map<string, Window> {
    if calls == [] then map[]
    else
      var before := After(limit, window, calls[..|calls| - 1]);
      match calls[|calls| - 1]
      case Take(key, n, now) => before[key := Charged(limit, window, before, key, n, now)]
      case Forget(key) => before - {key}
  }

  /** Units of key that call i admits; a negative amount puts units back. */
  function Admits(limit: int, window: real, calls: seq<Call>, key: string, i: nat): int
    requires i < |calls|
  {
    match calls[i]
    case Take(k, n, now) =>
      if k == key && Grants(limit, window, After(limit, window, calls[..i]), k, n, now) then n else 0
    case Forget(_) => 0
  }

  /** Net units of key admitted by the calls from the i-th on. */
  function Net(limit: int, window: real, calls: seq<Call>, key: string, i: nat): int {
    if |calls| <= i then 0
    else Net(limit, window, calls[..|calls| - 1], key, i) + Admits(limit, window, calls, key, |calls| - 1)
  }

  /** Units of key granted by the calls from the i-th on. */
  function Granted(limit: int, window: real, calls: seq<Call>, key: string, i: nat): int {
    if |calls| <= i then 0
    else Granted(limit, window, calls[..|calls| - 1], key, i) + Max(0, Admits(limit, window, calls, key, |calls| - 1))
  }

  /** Units of key put back, by calls for negative amounts, from the i-th call on. */
  function PutBack(limit: int, window: real, calls: seq<Call>, key: string, i: nat): int {
    if |calls| <= i then 0
    else PutBack(limit, window, calls[..|calls| - 1], key, i) + Max(0, -Admits(limit, window, calls, key, |calls| - 1))
  }

  lemma {:induction false} NetIsDifference(limit: int, window: real, calls: seq<Call>, key: string, i: nat)
    ensures Net(limit, window, calls, key, i) == Granted(limit, window, calls, key, i) - PutBack(limit, window, calls, key, i)
    decreases |calls|
  {
    if i < |calls| {
      NetIsDifference(limit, window, calls[..|calls| - 1], key, i);
    }
  }

  lemma {:induction false} NothingPutBack(limit: int, window: real, calls: seq<Call>, key: string, i: nat)
    requires NonNegative(calls, key)
    ensures PutBack(limit, window, calls, key, i) == 0
    decreases |calls|
  {
    if i < |calls| {
      NothingPutBack(limit, window, calls[..|calls| - 1], key, i);
    }
  }

  /** The clock never runs backwards. */
  ghost predicate Clocked(calls: seq<Call>) {
    forall i, j :: 0 <= i < j < |calls| && calls[i].Take? && calls[j].Take? ==> calls[i].now <= calls[j].now
  }

  /** Nobody asks for a negative amount of key. */
  ghost predicate NonNegative(calls: seq<Call>, key: string) {
    forall i :: 0 <= i < |calls| && calls[i].Take? && calls[i].key == key ==> calls[i].n >= 0
  }

  /** An interval of calls on one key: it begins with call i, has no reset of the key, and every call
      on the key in it comes at most one window length after call i. */
  ghost predicate Interval(window: real, calls: seq<Call>, key: string, i: nat) {
    && i < |calls| && calls[i].Take? && calls[i].key == key
    && forall k :: i < k < |calls| ==>
         && calls[k] != Forget(key)
         && (calls[k].Take? && calls[k].key == key ==> calls[k].now - calls[i].now <= window)
  }

  /** What calls for negative amounts have put back into the open window before call i. */
  function Credit(limit: int, window: real, calls: seq<Call>, i: nat): int
    requires i < |calls| && calls[i].Take?
  {
    var before := After(limit, window, calls[..i]);
    if OpensWindow(window, before, calls[i].key, calls[i].now) then 0 else Max(0, -before[calls[i].key].count)
  }

  /** The net units a window has admitted, against its count: it began with no less than minus the credit,
      or beyond the limit, and what was admitted since fits the limit. */
  predicate Accounted(limit: int, credit: int, units: int, count: int) {
    && (count - units >= -credit || count - units > limit)
    && units <= Max(0, limit - (count - units))
  }

  // ----- How much is admitted -----

  lemma FirstCall(limit: int, window: real, calls: seq<Call>, key: string)
    requires window > 0.0 && Clocked(calls) && calls != []
    requires calls[|calls| - 1].Take? && calls[|calls| - 1].key == key
    ensures key in After(limit, window, calls)
    ensures var i, w := |calls| - 1, After(limit, window, calls)[key];
      && Net(limit, window, calls, key, i) == Admits(limit, window, calls, key, i)
      && w.windowStart <= calls[i].now && calls[i].now - w.windowStart < window
      && Accounted(limit, Credit(limit, window, calls, i), Admits(limit, window, calls, key, i), w.count)
  {
    var i := |calls| - 1;
    var front := calls[..i];
    assert Net(limit, window, front, key, i) == 0;
    if !OpensWindow(window, After(limit, window, front), key, calls[i].now) {
      StartsBefore(limit, window, front, key, calls[i].now);
    }
  }

  /** The net admissions of an interval, split between the window of its first call and a later one. */
  lemma {:induction false} TwoWindows(limit: int, window: real, calls: seq<Call>, key: string, i: nat)
    returns (first: int, second: int)
    requires window > 0.0 && Clocked(calls) && Interval(window, calls, key, i)
    ensures Net(limit, window, calls, key, i) == first + second
    ensures key in After(limit, window, calls)
    ensures var w := After(limit, window, calls)[key];
      if w.windowStart <= calls[i].now
      then second == 0 && Accounted(limit, Credit(limit, window, calls, i), first, w.count)
           && calls[i].now - w.windowStart < window
      else Accounted(limit, 0, second, w.count) && first <= Max(limit, 0) + Credit(limit, window, calls, i)
    decreases |calls|
  {
    var n := |calls| - 1;
    var front := calls[..n];
    var before := After(limit, window, front);
    if i == n {
      FirstCall(limit, window, calls, key);
      first, second := Admits(limit, window, calls, key, n), 0;
    } else {
      first, second := TwoWindows(limit, window, front, key, i);
      assert front[..i] == calls[..i];
      assert Credit(limit, window, calls, i) == Credit(limit, window, front, i) >= 0;
      hide Credit, Clocked;
      var units := Admits(limit, window, calls, key, n);
      if calls[n].Take? && calls[n].key == key {
        if before[key].windowStart <= calls[i].now && !OpensWindow(window, before, key, calls[n].now) {
          first := first + units;
        } else {
          second := second + units;
        }
      }
    }
  }

  lemma {:induction false} StartsBefore(limit: int, window: real, calls: seq<Call>, key: string, now: real)
    requires forall k :: 0 <= k < |calls| && calls[k].Take? ==> calls[k].now <= now
    requires key in After(limit, window, calls)
    ensures After(limit, window, calls)[key].windowStart <= now
  {
    var n := |calls| - 1;
    if calls[n].Forget? || calls[n].key != key || !OpensWindow(window, After(limit, window, calls[..n]), key, calls[n].now) {
      StartsBefore(limit, window, calls[..n], key, now);
    }
  }

  /** What one stored window grants never exceeds the limit and what was put back into it. */
  lemma OneWindow(limit: int, window: real, calls: seq<Call>, key: string, i: nat)
    requires window > 0.0 && Clocked(calls) && Interval(window, calls, key, i)
    requires key in After(limit, window, calls) && After(limit, window, calls)[key].windowStart <= calls[i].now
    ensures Granted(limit, window, calls, key, i)
         <= Max(limit, 0) + Credit(limit, window, calls, i) + PutBack(limit, window, calls, key, i)
  {
    var first, second := TwoWindows(limit, window, calls, key, i);
    NetIsDifference(limit, window, calls, key, i);
  }

  /** Over any interval no longer than the window, at most twice the limit is granted and what was put
      back, into the window before or in the interval. */
  lemma IntervalBound(limit: int, window: real, calls: seq<Call>, key: string, i: nat)
    requires window > 0.0 && Clocked(calls) && Interval(window, calls, key, i)
    ensures Granted(limit, window, calls, key, i)
         <= 2 * Max(limit, 0) + Credit(limit, window, calls, i) + PutBack(limit, window, calls, key, i)
  {
    var first, second := TwoWindows(limit, window, calls, key, i);
    NetIsDifference(limit, window, calls, key, i);
  }

  lemma {:induction false} CountsNonNegative(limit: int, window: real, calls: seq<Call>, key: string)
    requires NonNegative(calls, key)
    ensures key in After(limit, window, calls) ==> After(limit, window, calls)[key].count >= 0
  {
    if calls != [] {
      CountsNonNegative(limit, window, calls[..|calls| - 1], key);
    }
  }

  /** So where nobody asks for a negative amount of the key, before or in the interval, twice the limit is the bound. */
  lemma TwiceTheLimit(limit: int, window: real, calls: seq<Call>, key: string, i: nat)
    requires window > 0.0 && Clocked(calls) && Interval(window, calls, key, i) && NonNegative(calls, key)
    ensures Granted(limit, window, calls, key, i) <= 2 * Max(limit, 0)
  {
    assert NonNegative(calls[..i], key);
    CountsNonNegative(limit, window, calls[..i], key);
    NothingPutBack(limit, window, calls, key, i);
    IntervalBound(limit, window, calls, key, i);
  }

  /** Puts back a credit; then takes all there is, puts some back and takes it again late in the window,
      and takes the whole limit once more as the next window opens. */
  function TightRun(limit: int, window: real, key: string, credit: int, back: int): seq<Call> {
    [Take(key, 0, 0.0)] + [Take(key, -credit, 0.0)] + [Take(key, limit + credit, 0.75 * window)]
    + [Take(key, -back, 0.75 * window)] + [Take(key, back, 0.75 * window)] + [Take(key, limit, window)]
  }

  lemma TightRunIsInterval(limit: int, window: real, key: string, credit: int, back: int)
    requires window > 0.0
    ensures var calls := TightRun(limit, window, key, credit, back); Clocked(calls) && Interval(window, calls, key, 2)
    ensures TightRun(limit, window, key, credit, back)[..2] == [Take(key, 0, 0.0)] + [Take(key, -credit, 0.0)]
    ensures TightRun(limit, window, key, credit, back)[2] == Take(key, limit + credit, 0.75 * window)
  {
  }

  /** The bound is reached for every limit and window, whatever was put back before or in the interval,
      and within a quarter of the window. Above all, anything put back breaks the bound of twice the limit. */
  lemma BoundIsReached(limit: int, window: real, key: string, credit: int, back: int)
    requires credit >= 0 && back >= 0 && limit >= 0 && window > 0.0
    ensures var calls := TightRun(limit, window, key, credit, back);
      && Clocked(calls) && Interval(window, calls, key, 2)
      && Credit(limit, window, calls, 2) == credit && PutBack(limit, window, calls, key, 2) == back
      && Granted(limit, window, calls, key, 2) == 2 * limit + credit + back
  {
    TightRunIsInterval(limit, window, key, credit, back);
    hide Clocked, Interval, After, Granted, PutBack, Grants, Charged;
    var late := 0.75 * window;
    assert After(limit, window, []) == map[] by { Nothing(limit, window, key, [], 2); }
    var s1 := [Take(key, 0, 0.0)];
    assert [] + s1 == s1;
    Opens(limit, window, [], key, 0, 0.0, 2);
    var s2 := s1 + [Take(key, -credit, 0.0)];
    Charges(limit, window, s1, key, -credit, 0.0, 2);
    Nothing(limit, window, key, s2, 2);
    var s3 := s2 + [Take(key, limit + credit, late)];
    Charges(limit, window, s2, key, limit + credit, late, 2);
    var s4 := s3 + [Take(key, -back, late)];
    Charges(limit, window, s3, key, -back, late, 2);
    var s5 := s4 + [Take(key, back, late)];
    Charges(limit, window, s4, key, back, late, 2);
    Opens(limit, window, s5, key, limit, window, 2);
  }

  lemma Nothing(limit: int, window: real, key: string, calls: seq<Call>, i: nat)
    requires |calls| <= i
    ensures Granted(limit, window, calls, key, i) == PutBack(limit, window, calls, key, i) == 0
    ensures calls == [] ==> After(limit, window, calls) == map[]
  {
  }

  /** One more call, for a granted amount. */
  lemma Grows(limit: int, window: real, calls: seq<Call>, key: string, n: int, now: real, i: nat)
    requires Grants(limit, window, After(limit, window, calls), key, n, now)
    ensures var more := calls + [Take(key, n, now)]; var before := After(limit, window, calls);
      && After(limit, window, more) == before[key := Charged(limit, window, before, key, n, now)]
      && (i <= |calls| ==>
            && Granted(limit, window, more, key, i) == Granted(limit, window, calls, key, i) + Max(0, n)
            && PutBack(limit, window, more, key, i) == PutBack(limit, window, calls, key, i) + Max(0, -n))
  {
    var more := calls + [Take(key, n, now)];
    assert more[..|more| - 1] == calls;
    assert i <= |calls| ==> Admits(limit, window, more, key, |calls|) == n;
    hide After, Grants, Charged;
  }

  lemma Opens(limit: int, window: real, calls: seq<Call>, key: string, n: int, now: real, i: nat)
    requires OpensWindow(window, After(limit, window, calls), key, now) && n <= limit
    ensures var more := calls + [Take(key, n, now)];
      && After(limit, window, more) == After(limit, window, calls)[key := Window(n, now)]
      && (i <= |calls| ==>
            && Granted(limit, window, more, key, i) == Granted(limit, window, calls, key, i) + Max(0, n)
            && PutBack(limit, window, more, key, i) == PutBack(limit, window, calls, key, i) + Max(0, -n))
  {
    hide After, Granted, PutBack;
    Grows(limit, window, calls, key, n, now, i);
  }

  lemma Charges(limit: int, window: real, calls: seq<Call>, key: string, n: int, now: real, i: nat)
    requires var before := After(limit, window, calls);
      !OpensWindow(window, before, key, now) && before[key].count + n <= limit
    ensures var more := calls + [Take(key, n, now)]; var w := After(limit, window, calls)[key];
      && After(limit, window, more) == After(limit, window, calls)[key := w.(count := w.count + n)]
      && (i <= |calls| ==>
            && Granted(limit, window, more, key, i) == Granted(limit, window, calls, key, i) + Max(0, n)
            && PutBack(limit, window, more, key, i) == PutBack(limit, window, calls, key, i) + Max(0, -n))
  {
    hide After, Granted, PutBack;
    Grows(limit, window, calls, key, n, now, i);
  }

  /** A window that is not positive limits nothing but the single call. */
  lemma NoWindowNoLimit(limit: int, window: real, calls: seq<Call>, key: string)
    requires window <= 0.0 && Clocked(calls) && calls != []
    requires calls[|calls| - 1].Take? && calls[|calls| - 1].key == key
    ensures var n := calls[|calls| - 1].n;
      Admits(limit, window, calls, key, |calls| - 1) == if n <= limit then n else 0
  {
    var k := |calls| - 1;
    if key in After(limit, window, calls[..k]) {
      StartsBefore(limit, window, calls[..k], key, calls[k].now);
    }
  }

  // ----- The exact account -----

  /** Call i opened the window that is still open at the end: no reset since, and every later call on the
      key came before the window was over. */
  ghost predicate OpenSince(limit: int, window: real, calls: seq<Call>, key: string, i: nat) {
    && i < |calls| && calls[i].Take? && calls[i].key == key
    && OpensWindow(window, After(limit, window, calls[..i]), key, calls[i].now)
    && forall k :: i < k < |calls| ==>
         && calls[k] != Forget(key)
         && (calls[k].Take? && calls[k].key == key ==> calls[k].now - calls[i].now < window)
  }

  /** The window's count is what was admitted since it opened, net, and the opening amount if that was refused. */
  lemma {:induction false} WindowAccount(limit: int, window: real, calls: seq<Call>, key: string, i: nat)
    requires OpenSince(limit, window, calls, key, i)
    ensures key in After(limit, window, calls)
    ensures After(limit, window, calls)[key]
         == Window(Net(limit, window, calls, key, i) + if calls[i].n <= limit then 0 else calls[i].n, calls[i].now)
    decreases |calls|
  {
    var n := |calls| - 1;
    var front := calls[..n];
    if i == n {
      assert Net(limit, window, front, key, i) == 0;
    } else {
      assert front[..i] == calls[..i];
      WindowAccount(limit, window, front, key, i);
    }
  }

  /** So in that window a call is granted exactly when its amount still fits, and once the window is over
      exactly when it is within the limit. */
  lemma GrantedIff(limit: int, window: real, calls: seq<Call>, key: string, i: nat, n: int, now: real)
    requires OpenSince(limit, window, calls, key, i)
    ensures now - calls[i].now < window ==>
              (Grants(limit, window, After(limit, window, calls), key, n, now) <==>
               Net(limit, window, calls, key, i) + (if calls[i].n <= limit then 0 else calls[i].n) + n <= limit)
    ensures now - calls[i].now >= window ==> (Grants(limit, window, After(limit, window, calls), key, n, now) <==> n <= limit)
  {
    WindowAccount(limit, window, calls, key, i);
    hide After, Net, OpenSince;
  }

  /** A key that is not there, because it is new or was reset, opens a window at its next call. */
  lemma NewKeyOpens(limit: int, window: real, calls: seq<Call>, key: string, n: int, now: real)
    requires forall k :: 0 <= k < |calls| && calls[k].Take? && calls[k].key == key ==> Forgotten(calls, key, k)
    ensures OpenSince(limit, window, calls + [Take(key, n, now)], key, |calls|)
    ensures Grants(limit, window, After(limit, window, calls), key, n, now) <==> n <= limit
  {
    NotThere(limit, window, calls, key);
    assert (calls + [Take(key, n, now)])[..|calls|] == calls;
    hide After;
  }

  /** The key was reset after call k. */
  ghost predicate Forgotten(calls: seq<Call>, key: string, k: int) {
    exists j :: k < j < |calls| && 0 <= j && calls[j] == Forget(key)
  }

  lemma {:induction false} NotThere(limit: int, window: real, calls: seq<Call>, key: string)
    requires forall k :: 0 <= k < |calls| && calls[k].Take? && calls[k].key == key ==> Forgotten(calls, key, k)
    ensures key !in After(limit, window, calls)
  {
    if calls != [] {
      var n := |calls| - 1;
      if calls[n] != Forget(key) {
        forall k | 0 <= k < n && calls[..n][k].Take? && calls[..n][k].key == key ensures Forgotten(calls[..n], key, k) {
          assert calls[..n][k] == calls[k] && Forgotten(calls, key, k);
          var j :| k < j < |calls| && 0 <= j && calls[j] == Forget(key);
          assert calls[..n][j] == calls[j];
        }
        NotThere(limit, window, calls[..n], key);
        assert calls[n].Take? && calls[n].key == key ==> Forgotten(calls, key, n);
      }
    }
  }

  // ----- What a refused call costs -----

  /** A refused call leaves the limiter as it was exactly when it opens no window, or just the one
      that is there. */
  lemma RefusedChangesNothingIff(limit: int, window: real, windows: map<string, Window>, key: string, n: int, now: real)
    requires !Grants(limit, window, windows, key, n, now)
    ensures windows[key := Charged(limit, window, windows, key, n, now)] == windows
       <==> !OpensWindow(window, windows, key, now) || (key in windows && windows[key] == Window(n, now))
  {
    var after := windows[key := Charged(limit, window, windows, key, n, now)];
    assert after[key] == Charged(limit, window, windows, key, n, now);
    if key in windows && windows[key] == after[key] { assert after == windows; }
  }

  /** A refused call that opens a window shuts out its key for the whole of that window: nothing is
      granted in it, unless someone resets the key or asks for a negative amount. */
  lemma {:induction false} RefusedCallShutsOut(limit: int, window: real, calls: seq<Call>, key: string, i: nat)
    requires i < |calls| && calls[i].Take? && calls[i].key == key && calls[i].n > limit
    requires OpensWindow(window, After(limit, window, calls[..i]), key, calls[i].now)
    requires forall k :: i < k < |calls| ==>
               && calls[k] != Forget(key)
               && (calls[k].Take? && calls[k].key == key ==> calls[k].n >= 0 && calls[k].now - calls[i].now < window)
    ensures key in After(limit, window, calls) && After(limit, window, calls)[key] == Window(calls[i].n, calls[i].now)
    ensures forall k :: i < k < |calls| && calls[k].Take? && calls[k].key == key ==>
              !Grants(limit, window, After(limit, window, calls[..k]), key, calls[k].n, calls[k].now)
    decreases |calls|
  {
    var n := |calls| - 1;
    var front := calls[..n];
    if i < n {
      assert front[..i] == calls[..i];
      RefusedCallShutsOut(limit, window, front, key, i);
      forall k | i < k < |calls| && calls[k].Take? && calls[k].key == key
        ensures !Grants(limit, window, After(limit, window, calls[..k]), key, calls[k].n, calls[k].now)
      {
        if k < n { assert front[..k] == calls[..k]; }
      }
    }
  }
}
