/** The circuit breaker, with any number of calls in flight: every sequence of admissions and
    recorded results, in any order, is a history. */
module CircuitBreaking {

  datatype CircuitState = Closed | Open | HalfOpen

  datatype Config = Config(maxFailures: int, resetTimeout: int, halfOpenMax: int)

  /** The mutable fields of a breaker. */
  datatype Fields = Fields(state: CircuitState, failures: int, lastFailureTime: int, halfOpenSuccess: int)

  /** What reaches the breaker under its lock, with the time read there. */
  datatype Event = Admit(now: int) | Success | Failure(now: int) | ManualReset

  function Max(a: int, b: int): int {
    if a > b then a else b
  }

  const INITIAL := Fields(Closed, 0, 0, 0)

  function AdmitSpec(c: Config, f: Fields, now: int): Fields {
    if f.state == Open && now - f.lastFailureTime > c.resetTimeout then f.(state := HalfOpen, halfOpenSuccess := 0) else f
  }

  function RecordSpec(c: Config, f: Fields, failed: bool, now: int): Fields {
    if failed then
      var g := f.(failures := f.failures + 1, lastFailureTime := now);
      if f.state == HalfOpen || g.failures >= c.maxFailures then g.(state := Open) else g
    else
      match f.state
      case HalfOpen =>
        var g := f.(halfOpenSuccess := f.halfOpenSuccess + 1);
        if g.halfOpenSuccess >= c.halfOpenMax then g.(state := Closed, failures := 0) else g
      case Closed => f.(failures := 0)
      case Open => f
  }

  function Step(c: Config, f: Fields, e: Event): Fields {
    match e
    case Admit(now) => AdmitSpec(c, f, now)
    case Success => RecordSpec(c, f, false, 0)
    case Failure(now) => RecordSpec(c, f, true, now)
    case ManualReset => f.(state := Closed, failures := 0, halfOpenSuccess := 0)
  }

  function After(c: Config, history: seq<Event>): Fields {
    if history == [] then INITIAL
    else Step(c, After(c, history[..|history| - 1]), history[|history| - 1])
  }

  class CircuitBreaker {
    const config: Config
    var state: CircuitState
    var failures: int
    var lastFailureTime: int
    var halfOpenSuccess: int

    ghost function Now(): Fields
      reads this
    {
      Fields(state, failures, lastFailureTime, halfOpenSuccess)
    }

    constructor (maxFailures: int, resetTimeout: int, halfOpenMax: int)
      ensures Now() == INITIAL
      ensures config.maxFailures == if maxFailures == 0 then 5 else maxFailures
      ensures config.resetTimeout == if resetTimeout == 0 then 60_000_000_000 else resetTimeout
      ensures config.halfOpenMax == if halfOpenMax == 0 then 2 else halfOpenMax
    {
      config := Config(if maxFailures == 0 then 5 else maxFailures,
                       if resetTimeout == 0 then 60_000_000_000 else resetTimeout,
                       if halfOpenMax == 0 then 2 else halfOpenMax);
      state, failures, lastFailureTime, halfOpenSuccess := Closed, 0, 0, 0;
    }

    method CanExecute(now: int) returns (allowed: bool)
      modifies this
      ensures Now() == Step(config, old(Now()), Admit(now))
      ensures allowed <==> Now().state != Open
    {
      match state {
        case Closed => return true;
        case Open =>
          if now - lastFailureTime > config.resetTimeout {
            state := HalfOpen;
            halfOpenSuccess := 0;
            return true;
          }
          return false;
        case HalfOpen => return true;
      }
    }

    method RecordResult(failed: bool, now: int)
      modifies this
      ensures Now() == Step(config, old(Now()), if failed then Failure(now) else Success)
    {
      if failed {
        failures := failures + 1;
        lastFailureTime := now;
        if state == HalfOpen {
          state := Open;
        } else if failures >= config.maxFailures {
          state := Open;
        }
      } else {
        match state {
          case HalfOpen =>
            halfOpenSuccess := halfOpenSuccess + 1;
            if halfOpenSuccess >= config.halfOpenMax {
              state := Closed;
              failures := 0;
            }
          case Closed => failures := 0;
          case Open =>
        }
      }
    }

    method Reset()
      modifies this
      ensures Now() == Step(config, old(Now()), ManualReset)
    {
      state := Closed;
      failures := 0;
      halfOpenSuccess := 0;
    }
  }

  // ----- What a history says by itself -----

  /** Failures recorded since the last success or manual reset. */
  function FailureStreak(history: seq<Event>): nat {
    if history == [] then 0
    else
      var n := |history| - 1;
      match history[n]
      case Failure(_) => FailureStreak(history[..n]) + 1
      case Admit(_) => FailureStreak(history[..n])
      case Success => 0
      case ManualReset => 0
  }

  function LastFailure(history: seq<Event>): int {
    if history == [] then 0
    else if history[|history| - 1].Failure? then history[|history| - 1].now
    else LastFailure(history[..|history| - 1])
  }

  function Successes(events: seq<Event>): nat {
    if events == [] then 0
    else Successes(events[..|events| - 1]) + if events[|events| - 1].Success? then 1 else 0
  }

  /** Event i of the history is the admission that half-opened the circuit. */
  ghost predicate HalfOpens(c: Config, history: seq<Event>, i: nat) {
    && i < |history| && history[i].Admit?
    && After(c, history[..i]).state == Open && After(c, history[..i + 1]).state == HalfOpen
  }

  /** The circuit half-opened at event i and has seen neither failure nor reset since. */
  ghost predicate TrialSince(c: Config, history: seq<Event>, i: nat) {
    && HalfOpens(c, history, i)
    && forall k :: i < k < |history| ==> history[k].Admit? || history[k].Success?
  }

  // ----- In every reachable state -----

  lemma Prefixes(history: seq<Event>, i: nat)
    requires history != [] && i <= |history| - 1
    ensures history[..|history| - 1][..i] == history[..i]
  {
  }

  /** The state is non-Closed exactly when the failure count has reached the threshold, which is at
      least one whatever the configuration; half-open successes stay below theirs. */
  lemma {:induction false} StateMatchesCounters(c: Config, history: seq<Event>)
    ensures var f := After(c, history);
      && f.failures >= 0
      && (f.state != Closed <==> f.failures >= Max(1, c.maxFailures))
      && (f.state == HalfOpen ==> 0 <= f.halfOpenSuccess < Max(1, c.halfOpenMax))
      && f.lastFailureTime == LastFailure(history)
  {
    if history != [] {
      StateMatchesCounters(c, history[..|history| - 1]);
    }
  }

  /** While Closed, the failure count is the current streak of failures. */
  lemma {:induction false} ClosedCountsStreak(c: Config, history: seq<Event>)
    requires After(c, history).state == Closed
    ensures After(c, history).failures == FailureStreak(history)
  {
    if history != [] {
      var front := history[..|history| - 1];
      if After(c, front).state == Closed {
        ClosedCountsStreak(c, front);
      }
    }
  }

  /** While HalfOpen, the success count is that of the trial since the circuit half-opened. */
  lemma {:induction false} HalfOpenCountsTrial(c: Config, history: seq<Event>) returns (i: nat)
    requires After(c, history).state == HalfOpen
    ensures TrialSince(c, history, i)
    ensures After(c, history).halfOpenSuccess == Successes(history[i + 1..])
  {
    var n := |history| - 1;
    var front := history[..n];
    if After(c, front).state == HalfOpen {
      i := HalfOpenCountsTrial(c, front);
      Prefixes(history, i);
      Prefixes(history, i + 1);
      assert history[i + 1..][..n - i - 1] == front[i + 1..];
    } else {
      i := n;
      assert history[..n + 1] == history;
      assert history[n + 1..] == [];
    }
  }

  // ----- What precedes each transition -----

  /** The circuit opens from Closed exactly at the failure that completes a streak of
      maxFailures failures with no success or reset between. */
  lemma OpensIff(c: Config, history: seq<Event>, e: Event)
    requires After(c, history).state == Closed
    ensures After(c, history + [e]).state == Open
       <==> e.Failure? && FailureStreak(history + [e]) == Max(1, c.maxFailures)
    ensures After(c, history + [e]).state != Open ==> After(c, history + [e]).state == Closed
  {
    var longer := history + [e];
    assert longer[..|longer| - 1] == history;
    StateMatchesCounters(c, history);
    StateMatchesCounters(c, longer);
    ClosedCountsStreak(c, history);
  }

  /** A half-open circuit closes exactly on a manual reset, or on the success that completes
      halfOpenMax successes since it half-opened, with no failure in that time. */
  lemma ClosesIff(c: Config, history: seq<Event>, e: Event) returns (i: nat)
    requires After(c, history).state == HalfOpen
    ensures TrialSince(c, history, i)
    ensures After(c, history + [e]).state == Closed
       <==> e.ManualReset? || (e.Success? && Successes(history[i + 1..]) + 1 == Max(1, c.halfOpenMax))
    ensures After(c, history + [e]).state == Open <==> e.Failure?
  {
    i := HalfOpenCountsTrial(c, history);
    assert (history + [e])[..|history|] == history;
    StateMatchesCounters(c, history);
  }

  /** An open circuit half-opens exactly at an admission more than resetTimeout after the last
      recorded failure, and closes only by a manual reset. */
  lemma HalfOpensIff(c: Config, history: seq<Event>, e: Event)
    requires After(c, history).state == Open
    ensures After(c, history + [e]).state == HalfOpen
       <==> e.Admit? && e.now - LastFailure(history) > c.resetTimeout
    ensures After(c, history + [e]).state == Closed <==> e.ManualReset?
  {
    assert (history + [e])[..|history|] == history;
    StateMatchesCounters(c, history);
  }

  // ----- Shelter -----

  /** Times never run backwards along the history. */
  ghost predicate Monotone(history: seq<Event>) {
    forall i, j :: 0 <= i < j < |history| && history[i].Failure? && history[j].Failure? ==>
      history[i].now <= history[j].now
  }

  lemma {:induction false} LastFailureAfter(history: seq<Event>, k: nat)
    requires Monotone(history) && k < |history| && history[k].Failure?
    ensures LastFailure(history) >= history[k].now
  {
    var n := |history| - 1;
    if !history[n].Failure? {
      LastFailureAfter(history[..n], k);
    }
  }

  /** Once a failure has left the circuit open, nothing is admitted for resetTimeout, whatever calls
      still in flight report, unless the breaker is reset by hand. */
  lemma {:induction false} OpenShelters(c: Config, history: seq<Event>, k: nat)
    requires Monotone(history) && k < |history| && history[k].Failure? && After(c, history[..k + 1]).state == Open
    requires forall j :: k < j < |history| ==> !history[j].ManualReset?
    requires forall j :: k < j < |history| && history[j].Admit? ==> history[j].now - history[k].now <= c.resetTimeout
    ensures After(c, history).state == Open
    decreases |history|
  {
    var n := |history| - 1;
    if k == n {
      assert history[..k + 1] == history;
    } else {
      var front := history[..n];
      Prefixes(history, k + 1);
      OpenShelters(c, front, k);
      LastFailureAfter(front, k);
      StateMatchesCounters(c, front);
      assert front + [history[n]] == history;
      HalfOpensIff(c, front, history[n]);
    }
  }
}
