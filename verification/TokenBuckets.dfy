/** The two token buckets: the per-key limiter of the middleware and the single rate limiter.

    Floating-point token counts and times are real numbers; every time is a reading of a clock. */
module TokenBuckets {

  datatype Bucket = Bucket(tokens: real, lastUpdate: real)

  /** Clock readings of one call: `created` is read only when the key has no bucket yet. */
  datatype Call = Take(key: string, n: int, created: real, now: real) | Forget(key: string)

  /** Tokens accrued over a span of time. */
  function Accrued(rate: real, from: real, to: real): real {
    (to - from) * rate
  }

  function Refilled(rate: real, capacity: int, b: Bucket, now: real): real {
    var tokens := b.tokens + Accrued(rate, b.lastUpdate, now);
    if tokens > capacity as real then capacity as real else tokens
  }

  function BucketOf(capacity: int, buckets: map<string, Bucket>, key: string, created: real): Bucket {
    if key in buckets then buckets[key] else Bucket(capacity as real, created)
  }

  predicate Grants(rate: real, capacity: int, b: Bucket, n: int, now: real) {
    Refilled(rate, capacity, b, now) >= n as real
  }

  function Drained(rate: real, capacity: int, b: Bucket, n: int, now: real): Bucket {
    var tokens := Refilled(rate, capacity, b, now);
    Bucket(if Grants(rate, capacity, b, n, now) then tokens - n as real else tokens, now)
  }

  class TokenBucketLimiter {
    const rate: real
    const capacity: int
    var buckets: map<string, Bucket>

    constructor (rate: real, capacity: int)
      ensures this.rate == rate && this.capacity == capacity && buckets == map[]
    {
      this.rate, this.capacity, buckets := rate, capacity, map[];
    }

    method AllowN(key: string, n: int, created: real, now: real) returns (allowed: bool)
      modifies this
      ensures var b := BucketOf(capacity, old(buckets), key, created);
        && allowed == Grants(rate, capacity, b, n, now)
        && buckets == old(buckets)[key := Drained(rate, capacity, b, n, now)]
    {
      if key !in buckets {
        buckets := buckets[key := Bucket(capacity as real, created)];
      }
      var bucket := buckets[key];
      var elapsed := now - bucket.lastUpdate;
      assert elapsed * rate == Accrued(rate, bucket.lastUpdate, now);
      bucket := bucket.(tokens := bucket.tokens + elapsed * rate);
      if bucket.tokens > capacity as real {
        bucket := bucket.(tokens := capacity as real);
      }
      bucket := bucket.(lastUpdate := now);
      allowed := bucket.tokens >= n as real;
      if allowed {
        bucket := bucket.(tokens := bucket.tokens - n as real);
      }
      buckets := buckets[key := bucket];
    }

    method Reset(key: string)
      modifies this
      ensures buckets == old(buckets) - {key}
    {
      buckets := buckets - {key};
    }
  }

  // ----- Runs of the keyed limiter -----

  function After(rate: real, capacity: int, calls: seq<Call>): map<string, Bucket> {
    if calls == [] then map[]
    else
      var before := After(rate, capacity, calls[..|calls| - 1]);
      match calls[|calls| - 1]
      case Take(key, n, created, now) =>
        before[key := Drained(rate, capacity, BucketOf(capacity, before, key, created), n, now)]
      case Forget(key) => before - {key}
  }

  /** Units of key that call i admits; a negative amount puts units back. */
  function Admits(rate: real, capacity: int, calls: seq<Call>, key: string, i: nat): int
    requires i < |calls|
  {
    var before := After(rate, capacity, calls[..i]);
    match calls[i]
    case Take(k, n, created, now) =>
      if k == key && Grants(rate, capacity, BucketOf(capacity, before, k, created), n, now) then n else 0
    case Forget(_) => 0
  }

  /** Net units of key admitted by the calls from the i-th on. */
  function Net(rate: real, capacity: int, calls: seq<Call>, key: string, i: nat): int {
    if |calls| <= i then 0
    else Net(rate, capacity, calls[..|calls| - 1], key, i) + Admits(rate, capacity, calls, key, |calls| - 1)
  }

  function Max(a: int, b: int): int {
    if a > b then a else b
  }

  /** Units of key granted by the calls from the i-th on. */
  function Granted(rate: real, capacity: int, calls: seq<Call>, key: string, i: nat): int {
    if |calls| <= i then 0
    else Granted(rate, capacity, calls[..|calls| - 1], key, i) + Max(0, Admits(rate, capacity, calls, key, |calls| - 1))
  }

  /** Units of key put back, by calls for negative amounts, from the i-th call on. */
  function PutBack(rate: real, capacity: int, calls: seq<Call>, key: string, i: nat): int {
    if |calls| <= i then 0
    else PutBack(rate, capacity, calls[..|calls| - 1], key, i) + Max(0, -Admits(rate, capacity, calls, key, |calls| - 1))
  }

  lemma {:induction false} NetIsDifference(rate: real, capacity: int, calls: seq<Call>, key: string, i: nat)
    ensures Net(rate, capacity, calls, key, i) == Granted(rate, capacity, calls, key, i) - PutBack(rate, capacity, calls, key, i)
    decreases |calls|
  {
    if i < |calls| {
      NetIsDifference(rate, capacity, calls[..|calls| - 1], key, i);
    }
  }

  lemma {:induction false} NothingPutBack(rate: real, capacity: int, calls: seq<Call>, key: string, i: nat)
    requires NonNegative(calls, key)
    ensures PutBack(rate, capacity, calls, key, i) == 0
    decreases |calls|
  {
    if i < |calls| {
      NothingPutBack(rate, capacity, calls[..|calls| - 1], key, i);
    }
  }

  /** The clock never runs backwards. */
  ghost predicate Clocked(calls: seq<Call>) {
    && (forall i :: 0 <= i < |calls| && calls[i].Take? ==> calls[i].created <= calls[i].now)
    && (forall i, j :: 0 <= i < j < |calls| && calls[i].Take? && calls[j].Take? ==> calls[i].now <= calls[j].created)
  }

  /** Nobody asks for a negative amount of key. */
  ghost predicate NonNegative(calls: seq<Call>, key: string) {
    forall i :: 0 <= i < |calls| && calls[i].Take? && calls[i].key == key ==> calls[i].n >= 0
  }

  lemma ClockedPrefix(calls: seq<Call>)
    requires calls != [] && Clocked(calls)
    ensures Clocked(calls[..|calls| - 1])
  {
  }

  /** Never overdrawn, and never dated after the latest call. */
  ghost predicate Solvent(b: Bucket, latest: real) {
    0.0 <= b.tokens && b.lastUpdate <= latest
  }

  /** Neither overdrawn nor overfull. */
  ghost predicate InRange(capacity: int, b: Bucket, latest: real) {
    Solvent(b, latest) && b.tokens <= capacity as real
  }

  lemma AccruedNonNegative(rate: real, from: real, to: real)
    requires rate >= 0.0 && from <= to
    ensures Accrued(rate, from, to) >= 0.0
  {
  }

  lemma AccruedSplit(rate: real, a: real, b: real, c: real)
    ensures Accrued(rate, a, b) + Accrued(rate, b, c) == Accrued(rate, a, c)
  {
    assert (b - a) * rate + (c - b) * rate == (c - a) * rate;
  }

  /** Whatever the amounts, no bucket is ever overdrawn; without negative ones for its key none is overfull. */
  lemma {:induction false} BucketsInRange(rate: real, capacity: int, calls: seq<Call>, latest: real)
    requires rate >= 0.0 && capacity >= 0 && Clocked(calls)
    requires forall i :: 0 <= i < |calls| && calls[i].Take? ==> calls[i].now <= latest
    ensures forall k :: k in After(rate, capacity, calls) ==> Solvent(After(rate, capacity, calls)[k], latest)
    ensures forall k :: k in After(rate, capacity, calls) && NonNegative(calls, k) ==>
              InRange(capacity, After(rate, capacity, calls)[k], latest)
  {
    if calls != [] {
      var n := |calls| - 1;
      ClockedPrefix(calls);
      match calls[n]
      case Forget(_) =>
        BucketsInRange(rate, capacity, calls[..n], latest);
      case Take(key, units, created, now) =>
        BucketsInRange(rate, capacity, calls[..n], created);
        var b := BucketOf(capacity, After(rate, capacity, calls[..n]), key, created);
        AccruedNonNegative(rate, b.lastUpdate, now);
    }
  }

  /** One more call on the bucket, at time now, keeps the account of units and tokens. */
  lemma Account(rate: real, capacity: int, b: Bucket, n: int, now: real, units: int, start: real)
    requires rate >= 0.0 && capacity >= 0 && 0.0 <= b.tokens && start <= b.lastUpdate <= now
    requires units as real + b.tokens <= capacity as real + Accrued(rate, start, b.lastUpdate)
    ensures var c := Drained(rate, capacity, b, n, now);
      && c.tokens >= 0.0
      && (units + if Grants(rate, capacity, b, n, now) then n else 0) as real + c.tokens
         <= capacity as real + Accrued(rate, start, now)
  {
    AccruedNonNegative(rate, b.lastUpdate, now);
    AccruedSplit(rate, start, b.lastUpdate, now);
    hide Accrued;
  }

  /** The account from call i on: units admitted plus tokens left never exceed what there was and accrued. */
  ghost predicate Balanced(rate: real, capacity: int, b: Bucket, units: int, start: real, latest: real) {
    && units as real + b.tokens <= capacity as real + Accrued(rate, start, b.lastUpdate)
    && b.tokens >= 0.0
    && start <= b.lastUpdate <= latest
  }

  lemma FirstBalanced(rate: real, capacity: int, calls: seq<Call>)
    requires rate >= 0.0 && capacity >= 0 && Clocked(calls) && calls != [] && calls[|calls| - 1].Take?
    ensures var n := |calls| - 1;
      && calls[n].key in After(rate, capacity, calls)
      && Balanced(rate, capacity, After(rate, capacity, calls)[calls[n].key],
                  Admits(rate, capacity, calls, calls[n].key, n), calls[n].now, calls[n].now)
  {
    var n := |calls| - 1;
    ClockedPrefix(calls);
    BucketsInRange(rate, capacity, calls[..n], calls[n].created);
    var b := BucketOf(capacity, After(rate, capacity, calls[..n]), calls[n].key, calls[n].created);
    AccruedNonNegative(rate, b.lastUpdate, calls[n].now);
    AccruedNonNegative(rate, calls[n].now, calls[n].now);
  }

  lemma {:induction false} BurstAccount(rate: real, capacity: int, calls: seq<Call>, key: string, i: nat, latest: real)
    requires rate >= 0.0 && capacity >= 0 && Clocked(calls)
    requires i < |calls| && calls[i].Take? && calls[i].key == key
    requires forall k :: i < k < |calls| ==> calls[k] != Forget(key)
    requires forall k :: 0 <= k < |calls| && calls[k].Take? ==> calls[k].now <= latest
    ensures key in After(rate, capacity, calls)
    ensures Balanced(rate, capacity, After(rate, capacity, calls)[key],
                     Net(rate, capacity, calls, key, i), calls[i].now, latest)
    decreases |calls|
  {
    hide Accrued;
    var n := |calls| - 1;
    var front := calls[..n];
    ClockedPrefix(calls);
    if i == n {
      FirstBalanced(rate, capacity, calls);
      assert Net(rate, capacity, front, key, i) == 0;
    } else if calls[n].Take? && calls[n].key == key {
      BurstAccount(rate, capacity, front, key, i, calls[n].created);
      var b := After(rate, capacity, front)[key];
      Account(rate, capacity, b, calls[n].n, calls[n].now, Net(rate, capacity, front, key, i), calls[i].now);
    } else {
      BurstAccount(rate, capacity, front, key, i, latest);
    }
  }

  lemma BalancedBound(rate: real, capacity: int, b: Bucket, units: int, start: real, latest: real)
    requires rate >= 0.0 && Balanced(rate, capacity, b, units, start, latest)
    ensures units as real <= capacity as real + (latest - start) * rate
  {
    AccruedNonNegative(rate, b.lastUpdate, latest);
    AccruedSplit(rate, start, b.lastUpdate, latest);
    assert Accrued(rate, start, latest) == (latest - start) * rate;
    hide Accrued;
  }

  /** Between a call on a key and any later time, both included, at most capacity is granted on that
      key, what accrues in between, and what is put back. Calls on other keys may come in between. */
  lemma BurstBound(rate: real, capacity: int, calls: seq<Call>, key: string, i: nat, latest: real)
    requires rate >= 0.0 && capacity >= 0 && Clocked(calls)
    requires i < |calls| && calls[i].Take? && calls[i].key == key
    requires forall k :: i < k < |calls| ==> calls[k] != Forget(key)
    requires forall k :: 0 <= k < |calls| && calls[k].Take? ==> calls[k].now <= latest
    ensures Granted(rate, capacity, calls, key, i) as real
         <= capacity as real + (latest - calls[i].now) * rate + PutBack(rate, capacity, calls, key, i) as real
    ensures NonNegative(calls, key) ==>
              Granted(rate, capacity, calls, key, i) as real <= capacity as real + (latest - calls[i].now) * rate
  {
    hide After, Net, Granted, PutBack, Clocked, Balanced, Accrued, NonNegative;
    BurstAccount(rate, capacity, calls, key, i, latest);
    BalancedBound(rate, capacity, After(rate, capacity, calls)[key],
                  Net(rate, capacity, calls, key, i), calls[i].now, latest);
    NetIsDifference(rate, capacity, calls, key, i);
    if NonNegative(calls, key) { NothingPutBack(rate, capacity, calls, key, i); }
  }

  /** What is put back can be taken again at once: in a bucket that never refills, twice the capacity is
      granted at one instant. */
  lemma PutBackIsTakenAgain(capacity: int, key: string, now: real, back: int)
    requires 0 <= back <= capacity
    ensures var calls := [Take(key, capacity, now, now), Take(key, -back, now, now), Take(key, back, now, now)];
      && Clocked(calls) && PutBack(0.0, capacity, calls, key, 0) == back
      && Granted(0.0, capacity, calls, key, 0) == capacity + back
  {
    var a, b, c := Take(key, capacity, now, now), Take(key, -back, now, now), Take(key, back, now, now);
    assert [] + [a] == [a] && [a] + [b] == [a, b] && [a, b] + [c] == [a, b, c];
    hide After, Granted, PutBack, Clocked;
    Nothing(0.0, capacity, key);
    Grows(0.0, capacity, [], a, key);
    Grows(0.0, capacity, [a], b, key);
    Grows(0.0, capacity, [a, b], c, key);
    ThreeAtOnce(a, b, c);
  }

  lemma ThreeAtOnce(a: Call, b: Call, c: Call)
    requires a.Take? && b.Take? && c.Take? && a.created == a.now == b.created == b.now == c.created == c.now
    ensures Clocked([a, b, c])
  {
  }

  lemma Nothing(rate: real, capacity: int, key: string)
    ensures After(rate, capacity, []) == map[]
    ensures Granted(rate, capacity, [], key, 0) == PutBack(rate, capacity, [], key, 0) == 0
  {
  }

  /** One more call, for a granted amount. */
  lemma Grows(rate: real, capacity: int, calls: seq<Call>, call: Call, key: string)
    requires call.Take? && call.key == key
    requires Grants(rate, capacity, BucketOf(capacity, After(rate, capacity, calls), key, call.created), call.n, call.now)
    ensures var more, before := calls + [call], After(rate, capacity, calls);
      && After(rate, capacity, more)
         == before[key := Drained(rate, capacity, BucketOf(capacity, before, key, call.created), call.n, call.now)]
      && Granted(rate, capacity, more, key, 0) == Granted(rate, capacity, calls, key, 0) + Max(0, call.n)
      && PutBack(rate, capacity, more, key, 0) == PutBack(rate, capacity, calls, key, 0) + Max(0, -call.n)
  {
    var more := calls + [call];
    assert more[..|more| - 1] == calls;
    assert Admits(rate, capacity, more, key, |calls|) == call.n;
    hide After, Grants, Drained;
  }

  // ----- Refilling -----

  /** Call i is the last on the key, which has not been forgotten since. */
  ghost predicate LastOn(calls: seq<Call>, key: string, i: nat) {
    && i < |calls| && calls[i].Take? && calls[i].key == key
    && forall k :: i < k < |calls| ==> calls[k] != Forget(key) && (calls[k].Take? ==> calls[k].key != key)
  }

  lemma {:induction false} BucketOfLast(rate: real, capacity: int, calls: seq<Call>, key: string, i: nat)
    requires LastOn(calls, key, i)
    ensures key in After(rate, capacity, calls) && key in After(rate, capacity, calls[..i + 1])
    ensures After(rate, capacity, calls)[key] == After(rate, capacity, calls[..i + 1])[key]
    ensures After(rate, capacity, calls)[key].lastUpdate == calls[i].now
    decreases |calls|
  {
    var n := |calls| - 1;
    if i == n {
      assert calls[..i + 1] == calls;
    } else {
      assert calls[..n][..i + 1] == calls[..i + 1];
      BucketOfLast(rate, capacity, calls[..n], key, i);
    }
  }

  /** Waiting long enough always helps: a call for what has accrued since the last call on the key is
      granted, up to the capacity, whatever happened before. */
  lemma GrantedAfterWaiting(rate: real, capacity: int, calls: seq<Call>, key: string, i: nat, n: int, created: real, now: real)
    requires rate >= 0.0 && capacity >= 0 && Clocked(calls) && LastOn(calls, key, i)
    requires n <= capacity && (now - calls[i].now) * rate >= n as real && calls[i].now <= now
    ensures Grants(rate, capacity, BucketOf(capacity, After(rate, capacity, calls), key, created), n, now)
    ensures Admits(rate, capacity, calls + [Take(key, n, created, now)], key, |calls|) == n
  {
    AccruedIs(rate, calls[i].now, now);
    hide Accrued, After, Grants, Clocked, LastOn;
    BucketOfLast(rate, capacity, calls, key, i);
    NeverOverdrawn(rate, capacity, calls, key);
    EnoughIsGranted(rate, capacity, After(rate, capacity, calls)[key], n, now);
    assert (calls + [Take(key, n, created, now)])[..|calls|] == calls;
  }

  lemma AccruedIs(rate: real, from: real, to: real)
    ensures Accrued(rate, from, to) == (to - from) * rate
  {
  }

  lemma EnoughIsGranted(rate: real, capacity: int, b: Bucket, n: int, now: real)
    requires n <= capacity && b.tokens + Accrued(rate, b.lastUpdate, now) >= n as real
    ensures Grants(rate, capacity, b, n, now)
  {
    hide Accrued;
  }

  /** And so is the first call on a key, for no more than the capacity. */
  lemma FirstCallGranted(rate: real, capacity: int, calls: seq<Call>, key: string, n: int, created: real, now: real)
    requires rate >= 0.0 && key !in After(rate, capacity, calls) && n <= capacity && created <= now
    ensures Grants(rate, capacity, BucketOf(capacity, After(rate, capacity, calls), key, created), n, now)
  {
    AccruedNonNegative(rate, created, now);
  }

  lemma {:induction false} NeverOverdrawn(rate: real, capacity: int, calls: seq<Call>, key: string)
    requires rate >= 0.0 && capacity >= 0 && Clocked(calls) && key in After(rate, capacity, calls)
    ensures After(rate, capacity, calls)[key].tokens >= 0.0
  {
    var latest := LatestTime(calls);
    BucketsInRange(rate, capacity, calls, latest);
  }

  lemma {:induction false} LatestTime(calls: seq<Call>) returns (latest: real)
    ensures forall i :: 0 <= i < |calls| && calls[i].Take? ==> calls[i].now <= latest
  {
    latest := 0.0;
    if calls != [] {
      var n := |calls| - 1;
      latest := LatestTime(calls[..n]);
      if calls[n].Take? && calls[n].now > latest { latest := calls[n].now; }
    }
  }

  /** From call i on no call on the key found the bucket full: what it held and what had accrued fitted. */
  ghost predicate NeverFull(rate: real, capacity: int, calls: seq<Call>, key: string, i: nat) {
    forall k :: i < k < |calls| && calls[k].Take? && calls[k].key == key && key in After(rate, capacity, calls[..k]) ==>
      var b := After(rate, capacity, calls[..k])[key];
      b.tokens + Accrued(rate, b.lastUpdate, calls[k].now) <= capacity as real
  }

  /** Between fillings the account is exact: the tokens left are the tokens then, what has accrued since,
      less the net units. */
  lemma ExactAccount(rate: real, capacity: int, calls: seq<Call>, key: string, i: nat)
    requires i < |calls| && calls[i].Take? && calls[i].key == key && NeverFull(rate, capacity, calls, key, i)
    requires forall k :: i < k < |calls| ==> calls[k] != Forget(key)
    ensures key in After(rate, capacity, calls[..i + 1]) && key in After(rate, capacity, calls)
    ensures var past, now := After(rate, capacity, calls[..i + 1])[key], After(rate, capacity, calls)[key];
      now.tokens == past.tokens + (now.lastUpdate - calls[i].now) * rate - Net(rate, capacity, calls, key, i + 1) as real
  {
    hide After, Net, NeverFull;
    Accounted(rate, capacity, calls, key, i);
    AccruedIs(rate, calls[i].now, After(rate, capacity, calls)[key].lastUpdate);
    hide Accrued;
  }

  lemma {:induction false} Accounted(rate: real, capacity: int, calls: seq<Call>, key: string, i: nat)
    requires i < |calls| && calls[i].Take? && calls[i].key == key && NeverFull(rate, capacity, calls, key, i)
    requires forall k :: i < k < |calls| ==> calls[k] != Forget(key)
    ensures key in After(rate, capacity, calls[..i + 1]) && key in After(rate, capacity, calls)
    ensures var past, now := After(rate, capacity, calls[..i + 1])[key], After(rate, capacity, calls)[key];
      now.tokens == past.tokens + Accrued(rate, calls[i].now, now.lastUpdate)
                    - Net(rate, capacity, calls, key, i + 1) as real
    decreases |calls|
  {
    hide Drained, Grants;
    var n := |calls| - 1;
    if i == n {
      LastIsNow(rate, capacity, calls, key);
      hide Accrued;
    } else {
      var front := calls[..n];
      assert front[..i + 1] == calls[..i + 1];
      forall k | i < k < n ensures front[..k] == calls[..k] {}
      assert NeverFull(rate, capacity, front, key, i);
      hide Accrued;
      Accounted(rate, capacity, front, key, i);
      if calls[n].Take? && calls[n].key == key {
        assert NeverFull(rate, capacity, calls, key, i) && i < n;
        AccountStep(rate, capacity, After(rate, capacity, front)[key], calls[n].n, calls[n].now, calls[i].now);
      }
    }
  }

  lemma LastIsNow(rate: real, capacity: int, calls: seq<Call>, key: string)
    requires calls != [] && calls[|calls| - 1].Take? && calls[|calls| - 1].key == key
    ensures var i := |calls| - 1;
      && calls[..i + 1] == calls && key in After(rate, capacity, calls)
      && After(rate, capacity, calls)[key].lastUpdate == calls[i].now
      && Accrued(rate, calls[i].now, calls[i].now) == 0.0
      && Net(rate, capacity, calls, key, i + 1) == 0
  {
  }

  lemma AccountStep(rate: real, capacity: int, b: Bucket, n: int, now: real, start: real)
    requires b.tokens + Accrued(rate, b.lastUpdate, now) <= capacity as real
    ensures var c := Drained(rate, capacity, b, n, now);
      && c.lastUpdate == now
      && c.tokens - Accrued(rate, start, now)
         == b.tokens - Accrued(rate, start, b.lastUpdate) - (if Grants(rate, capacity, b, n, now) then n else 0) as real
  {
    AccruedSplit(rate, start, b.lastUpdate, now);
    hide Accrued;
  }

  // ----- Negative amounts -----

  /** A bucket in range stays so exactly when no more is put back than fits. */
  lemma StaysInRangeIff(rate: real, capacity: int, b: Bucket, n: int, now: real)
    requires rate >= 0.0 && InRange(capacity, b, now)
    ensures InRange(capacity, Drained(rate, capacity, b, n, now), now)
       <==> n as real >= Refilled(rate, capacity, b, now) - capacity as real
  {
    AccruedNonNegative(rate, b.lastUpdate, now);
  }

  /** An amount is safe for every bucket in range exactly when it is not negative: a full bucket is
      what a negative one overfills. */
  lemma SafeAmountIff(rate: real, capacity: int, n: int, now: real)
    requires rate >= 0.0 && capacity >= 0
    ensures (forall b :: InRange(capacity, b, now) ==> InRange(capacity, Drained(rate, capacity, b, n, now), now))
       <==> n >= 0
  {
    forall b | InRange(capacity, b, now)
      ensures n >= 0 ==> InRange(capacity, Drained(rate, capacity, b, n, now), now)
    {
      StaysInRangeIff(rate, capacity, b, n, now);
    }
    var full := Bucket(capacity as real, now);
    assert InRange(capacity, full, now);
    StaysInRangeIff(rate, capacity, full, n, now);
  }

  /** The first call on a key: a negative amount leaves just that much more than the capacity. */
  lemma FirstCallOverfillsIff(rate: real, capacity: int, key: string, n: int, created: real, now: real)
    requires rate >= 0.0 && capacity >= 0 && created <= now
    ensures var buckets := After(rate, capacity, [Take(key, n, created, now)]);
      && key in buckets
      && (n <= capacity ==> buckets[key].tokens == (capacity - n) as real)
      && (buckets[key].tokens > capacity as real <==> n < 0)
  {
    var calls := [Take(key, n, created, now)];
    assert calls[..0] == [];
    AccruedNonNegative(rate, created, now);
  }

  // ----- The single rate limiter -----

  class RateLimiter {
    const rate: int
    const burst: int
    var tokens: real
    var lastUpdate: real

    constructor (rate: int, burst: int, now: real)
      ensures this.rate == rate && this.burst == burst && tokens == burst as real && lastUpdate == now
    {
      this.rate, this.burst, tokens, lastUpdate := rate, burst, burst as real, now;
    }

    method Allow(now: real) returns (allowed: bool)
      modifies this
      ensures var b := Bucket(old(tokens), old(lastUpdate));
        && allowed == Grants(rate as real, burst, b, 1, now)
        && Bucket(tokens, lastUpdate) == Drained(rate as real, burst, b, 1, now)
    {
      var elapsed := now - lastUpdate;
      assert elapsed * rate as real == Accrued(rate as real, lastUpdate, now);
      var refilled := tokens + elapsed * rate as real;
      tokens := if burst as real < refilled then burst as real else refilled;
      lastUpdate := now;
      if tokens >= 1.0 {
        tokens := tokens - 1.0;
        return true;
      }
      return false;
    }
  }

  /** The rate limiter's fields after Allow was called at the given times. */
  function LimiterAfter(rate: real, burst: int, start: real, times: seq<real>): Bucket {
    if times == [] then Bucket(burst as real, start)
    else Drained(rate, burst, LimiterAfter(rate, burst, start, times[..|times| - 1]), 1, times[|times| - 1])
  }

  /** AllowN(key, 1) at the given times; the bucket's creation is dated by the first reading. */
  function SingleTakes(key: string, created: real, times: seq<real>): seq<Call> {
    seq(|times|, i requires 0 <= i < |times| => Take(key, 1, if i == 0 then created else times[i], times[i]))
  }

  ghost predicate Ascending(start: real, times: seq<real>) {
    && (forall i :: 0 <= i < |times| ==> start <= times[i])
    && (forall i, j :: 0 <= i < j < |times| ==> times[i] <= times[j])
  }

  /** After the first call both limiters hold the same bucket. */
  lemma {:induction false} SameBucket(rate: real, burst: int, start: real, key: string, created: real, times: seq<real>)
    requires rate >= 0.0 && Ascending(start, times) && times != [] && created <= times[0]
    ensures key in After(rate, burst, SingleTakes(key, created, times))
    ensures After(rate, burst, SingleTakes(key, created, times))[key] == LimiterAfter(rate, burst, start, times)
    decreases |times|
  {
    var n := |times| - 1;
    var calls := SingleTakes(key, created, times);
    assert calls[..n] == SingleTakes(key, created, times[..n]);
    if n == 0 {
      AccruedNonNegative(rate, start, times[0]);
      AccruedNonNegative(rate, created, times[0]);
    } else {
      SameBucket(rate, burst, start, key, created, times[..n]);
    }
  }

  /** Given the same rate, capacity and call times, RateLimiter.Allow and AllowN(key, 1) decide alike. */
  lemma SameDecision(rate: real, burst: int, start: real, key: string, created: real, times: seq<real>, now: real)
    requires rate >= 0.0 && Ascending(start, times + [now])
    requires created <= if times == [] then now else times[0]
    ensures var buckets := After(rate, burst, SingleTakes(key, created, times));
      Grants(rate, burst, BucketOf(burst, buckets, key, created), 1, now)
      <==> Grants(rate, burst, LimiterAfter(rate, burst, start, times), 1, now)
  {
    if times == [] {
      assert (times + [now])[0] == now && SingleTakes(key, created, times) == [];
      AccruedNonNegative(rate, start, now);
      AccruedNonNegative(rate, created, now);
    } else {
      assert times == (times + [now])[..|times|];
      SameBucket(rate, burst, start, key, created, times);
    }
  }

  // ----- The single limiter refills as well -----

  lemma {:induction false} LimiterSolvent(rate: real, burst: int, start: real, times: seq<real>)
    requires rate >= 0.0 && burst >= 0 && Ascending(start, times)
    ensures var b := LimiterAfter(rate, burst, start, times);
      b.tokens >= 0.0 && b.lastUpdate == if times == [] then start else times[|times| - 1]
  {
    if times != [] {
      var n := |times| - 1;
      LimiterSolvent(rate, burst, start, times[..n]);
      AccruedNonNegative(rate, LimiterAfter(rate, burst, start, times[..n]).lastUpdate, times[n]);
    }
  }

  /** A call is allowed once a token has accrued since the last call, whatever happened before. */
  lemma AllowedAfterWaiting(rate: real, burst: int, start: real, times: seq<real>, now: real)
    requires rate >= 0.0 && burst >= 1 && Ascending(start, times)
    requires times != [] ==> (now - times[|times| - 1]) * rate >= 1.0
    requires times == [] ==> start <= now
    ensures Grants(rate, burst, LimiterAfter(rate, burst, start, times), 1, now)
  {
    if times == [] {
      AccruedNonNegative(rate, start, now);
    } else {
      AccruedIs(rate, times[|times| - 1], now);
      hide *;
      AllowedWithAccrual(rate, burst, start, times, now);
    }
  }

  lemma AllowedWithAccrual(rate: real, burst: int, start: real, times: seq<real>, now: real)
    requires rate >= 0.0 && burst >= 1 && Ascending(start, times) && times != []
    requires Accrued(rate, times[|times| - 1], now) >= 1.0
    ensures Grants(rate, burst, LimiterAfter(rate, burst, start, times), 1, now)
  {
    hide *;
    LimiterSolvent(rate, burst, start, times);
    EnoughIsGranted(rate, burst, LimiterAfter(rate, burst, start, times), 1, now);
  }

  /** How many of the calls from the i-th on were allowed. */
  function AllowedFrom(rate: real, burst: int, start: real, times: seq<real>, i: nat): nat {
    if |times| <= i then 0
    else
      var n := |times| - 1;
      AllowedFrom(rate, burst, start, times[..n], i)
      + if Grants(rate, burst, LimiterAfter(rate, burst, start, times[..n]), 1, times[n]) then 1 else 0
  }

  ghost predicate LimiterNeverFull(rate: real, burst: int, start: real, times: seq<real>, i: nat) {
    forall k :: i <= k < |times| ==>
      var b := LimiterAfter(rate, burst, start, times[..k]);
      b.tokens + Accrued(rate, b.lastUpdate, times[k]) <= burst as real
  }

  /** Between fillings its account is exact, too. */
  lemma LimiterAccount(rate: real, burst: int, start: real, times: seq<real>, i: nat)
    requires i <= |times| && LimiterNeverFull(rate, burst, start, times, i)
    ensures var past, now := LimiterAfter(rate, burst, start, times[..i]), LimiterAfter(rate, burst, start, times);
      now.tokens == past.tokens + (now.lastUpdate - past.lastUpdate) * rate
                    - AllowedFrom(rate, burst, start, times, i) as real
  {
    hide LimiterAfter, AllowedFrom, LimiterNeverFull;
    LimiterAccounted(rate, burst, start, times, i);
    AccruedIs(rate, LimiterAfter(rate, burst, start, times[..i]).lastUpdate,
              LimiterAfter(rate, burst, start, times).lastUpdate);
    hide Accrued;
  }

  lemma {:induction false} LimiterAccounted(rate: real, burst: int, start: real, times: seq<real>, i: nat)
    requires i <= |times| && LimiterNeverFull(rate, burst, start, times, i)
    ensures var past, now := LimiterAfter(rate, burst, start, times[..i]), LimiterAfter(rate, burst, start, times);
      now.tokens == past.tokens + Accrued(rate, past.lastUpdate, now.lastUpdate)
                    - AllowedFrom(rate, burst, start, times, i) as real
    decreases |times|
  {
    hide Drained, Grants;
    if i == |times| {
      assert times[..i] == times;
      AccruedIs(rate, LimiterAfter(rate, burst, start, times).lastUpdate, LimiterAfter(rate, burst, start, times).lastUpdate);
    } else {
      var n := |times| - 1;
      var front := times[..n];
      assert front[..i] == times[..i];
      forall k | i <= k < n ensures front[..k] == times[..k] {}
      assert LimiterNeverFull(rate, burst, start, front, i);
      hide Accrued;
      LimiterAccounted(rate, burst, start, front, i);
      AccountStep(rate, burst, LimiterAfter(rate, burst, start, front), 1, times[n],
                  LimiterAfter(rate, burst, start, times[..i]).lastUpdate);
    }
  }
}
