/** The retry engine. A run is determined by how each attempt goes: its result, how long it
    takes, how much time passes between the two clock readings after a failure, and by how
    much the sleep overshoots. Every result sequence and monotone clock arises this way. */
module Retry {
  import opened Common
  import opened Words
  import opened Backoff
  import opened Jitter

  datatype Attempt<+T> = Attempt(result: Result<T>, took: Duration, gap: Duration, late: Duration)

  /** How attempt 1, 2, ... goes. */
  type Environment<T> = nat -> Attempt<T>

  predicate Retryable<T>(r: Result<T>) {
    r.Err? && r.error.IsRetryable()
  }

  /** What one call of `with_retry` did, with times relative to its start: its result, when
      each attempt started, the sleeps it requested, when it returned, and whether it
      returned the timeout of its own. */
  datatype Trace<+T> = Trace(
    result: Result<T>,
    starts: seq<Duration>,
    sleeps: seq<Duration>,
    ended: Duration,
    timedOut: bool)

  predicate ShouldContinue(c: RetryConfig, attempt: nat, elapsed: Duration) {
    attempt < c.maxAttempts && (c.deadline.Some? ==> elapsed < c.deadline.value)
  }

  function Planned(c: RetryConfig, op: Bytes, attempt: U32): (d: Duration)
    requires c.Valid()
    ensures d <= ClosedForm(c, attempt) <= c.maxBackoff
    ensures d >= ClosedForm(c, attempt) / 2.0
    ensures !c.jitter ==> d == ClosedForm(c, attempt)
  {
    var backoff := ClosedForm(c, attempt);
    if c.jitter then JitteredDelay(backoff, HashFrom(attempt, op)) else backoff
  }

  /** With jitter the planned wait is the one drawn for this operation and attempt: what
      `JitterReachesAll` says of a seed holds of `attempt * 31^|op|` plus the name's hash. */
  lemma PlannedByJitter(c: RetryConfig, op: Bytes, attempt: U32)
    requires c.Valid() && c.jitter
    ensures Planned(c, op, attempt)
            == JitteredDelay(ClosedForm(c, attempt), (attempt * Pow31(|op|) + NameHash(op)) % TWO64)
  {
    SeedClosedForm(attempt, op);
  }

  function Clipped(c: RetryConfig, planned: Duration, now: Duration): (d: Duration)
    ensures d <= planned
    ensures c.deadline.Some? && now < c.deadline.value ==> now + d <= c.deadline.value
  {
    if c.deadline.Some? then Min(planned, SaturatingSub(c.deadline.value, now)) else planned
  }

  /** After an attempt the call either stops, or sleeps and starts the next attempt. */
  datatype Verdict<+T> =
    | Stop(result: Result<T>, ended: Duration, timedOut: bool)
    | Again(sleep: Duration, next: Duration)

  function Decide<T>(c: RetryConfig, op: Bytes, attempt: U32, a: Attempt<T>, now: Duration): Verdict<T>
    requires c.Valid() && 1 <= attempt <= c.maxAttempts
  {
    var failed := now + a.took;
    if !Retryable(a.result) || !ShouldContinue(c, attempt, failed) then
      Stop(a.result, failed, false)
    else
      var again := failed + a.gap;
      if c.deadline.Some? && SaturatingSub(c.deadline.value, again) == 0.0 then
        Stop(Err(Timeout), again, true)
      else
        var sleep := Clipped(c, Planned(c, op, attempt), again);
        Again(sleep, again + sleep + a.late)
  }

  /** The rest of a call in which `attempt` attempts have been made and the next starts at `now`. */
  function RetryFrom<T>(c: RetryConfig, op: Bytes, env: Environment<T>, attempt: U32, now: Duration): Trace<T>
    requires c.Valid() && attempt < c.maxAttempts
    decreases c.maxAttempts - attempt
  {
    match Decide(c, op, attempt + 1, env(attempt + 1), now)
    case Stop(result, ended, timedOut) => Trace(result, [now], [], ended, timedOut)
    case Again(sleep, next) =>
      var rest := RetryFrom(c, op, env, attempt + 1, next);
      rest.(starts := [now] + rest.starts, sleeps := [sleep] + rest.sleeps)
  }

  function Retried<T>(c: RetryConfig, op: Bytes, env: Environment<T>): Trace<T>
    requires c.Valid()
  {
    RetryFrom(c, op, env, 0, 0.0)
  }

  // ----- the trace -----

  lemma {:induction false} TraceShape<T>(c: RetryConfig, op: Bytes, env: Environment<T>, attempt: U32, now: Duration)
    requires c.Valid() && attempt < c.maxAttempts
    ensures var t := RetryFrom(c, op, env, attempt, now);
            var last := attempt + |t.starts|;
            && attempt < last <= c.maxAttempts
            && |t.sleeps| == |t.starts| - 1
            && (forall k :: attempt < k < last ==> Retryable(env(k).result))
            && (t.timedOut ==> Retryable(env(last).result) && t.result == Err(Timeout))
            && (!t.timedOut ==> t.result == env(last).result)
            && (Retryable(t.result) ==>
                  last == c.maxAttempts || (c.deadline.Some? && c.deadline.value <= t.ended))
    decreases c.maxAttempts - attempt
  {
    var v := Decide(c, op, attempt + 1, env(attempt + 1), now);
    if v.Again? {
      TraceShape(c, op, env, attempt + 1, v.next);
    }
  }

  /** `with_retry` makes between 1 and `maxAttempts` attempts; every attempt but the last
      fails with a retryable error; the result is the last attempt's, or the engine's own
      timeout. A retryable error is returned only when attempts or the deadline ran out. */
  lemma RetryTrace<T>(c: RetryConfig, op: Bytes, env: Environment<T>)
    requires c.Valid()
    ensures var t := Retried(c, op, env);
            var n := |t.starts|;
            && 1 <= n <= c.maxAttempts && |t.sleeps| == n - 1
            && (forall k :: 0 < k < n ==> Retryable(env(k).result))
            && (t.result == env(n).result || (t.timedOut && Retryable(env(n).result) && t.result == Err(Timeout)))
            && (Retryable(t.result) && n < c.maxAttempts ==> c.deadline.Some? && c.deadline.value <= t.ended)
  {
    TraceShape(c, op, env, 0, 0.0);
  }

  /** The first success or non-retryable error ends the call at once and is its result. */
  lemma FirstDecisiveAttemptWins<T>(c: RetryConfig, op: Bytes, env: Environment<T>, k: nat)
    requires c.Valid() && 1 <= k <= |Retried(c, op, env).starts| && !Retryable(env(k).result)
    ensures var t := Retried(c, op, env); |t.starts| == k && t.result == env(k).result
  {
    RetryTrace(c, op, env);
  }

  /** Attempts start in order, the call ends after them, and only the last attempt can start
      at or after the deadline, even if sleeps overshoot. */
  lemma {:induction false} TimesOrdered<T>(c: RetryConfig, op: Bytes, env: Environment<T>, attempt: U32, now: Duration)
    requires c.Valid() && attempt < c.maxAttempts
    ensures var t := RetryFrom(c, op, env, attempt, now);
            && |t.starts| >= 1 && t.starts[0] == now
            && (forall i :: 0 <= i < |t.starts| ==> now <= t.starts[i] <= t.ended)
            && (forall i, j :: 0 <= i < j < |t.starts| ==> t.starts[i] <= t.starts[j])
            && (c.deadline.Some? ==> forall i :: 0 <= i < |t.starts| - 1 ==> t.starts[i] < c.deadline.value)
    decreases c.maxAttempts - attempt
  {
    var v := Decide(c, op, attempt + 1, env(attempt + 1), now);
    if v.Again? {
      TimesOrdered(c, op, env, attempt + 1, v.next);
      assert now <= v.next && (c.deadline.Some? ==> now < c.deadline.value);
      Prepended(now, RetryFrom(c, op, env, attempt + 1, v.next).starts);
    }
  }

  lemma Prepended(now: Duration, starts: seq<Duration>)
    ensures forall i :: 0 < i < |starts| + 1 ==> ([now] + starts)[i] == starts[i - 1]
  {
  }

  /** Without a deadline the call ends at the first decisive attempt, or at the last one
      allowed, and returns what that attempt returned. */
  lemma StopsAt<T>(c: RetryConfig, op: Bytes, env: Environment<T>, n: nat)
    requires c.Valid() && c.deadline.None? && 1 <= n <= c.maxAttempts
    requires forall k :: 1 <= k < n ==> Retryable(env(k).result)
    requires n == c.maxAttempts || !Retryable(env(n).result)
    ensures var t := Retried(c, op, env); |t.starts| == n && t.result == env(n).result && !t.timedOut
  {
    RetryTrace(c, op, env);
    OwnTimeoutExactly(c, op, env, 0, 0.0);
  }

  /** Failures of the connection, transient ones, timeouts and I/O errors are retried while
      attempts are left; any other failure ends the call at once. */
  lemma OnlySuchFailuresRetry<T>(c: RetryConfig, op: Bytes, env: Environment<T>, error: RedisError)
    requires c.Valid() && c.deadline.None? && c.maxAttempts >= 2 && env(1).result == Err(error)
    ensures var t := Retried(c, op, env);
            if error in {Connection, Transient, Timeout, Io} then |t.starts| >= 2
            else |t.starts| == 1 && t.result == Err(error)
  {
    RetryTrace(c, op, env);
    if !Retryable(env(1).result) {
      StopsAt(c, op, env, 1);
    } else {
      OwnTimeoutExactly(c, op, env, 0, 0.0);
    }
  }

  // ----- the timeline -----

  /** When attempt `n`, started at `start`, has failed and the clock is read the second time. */
  function SecondReading<T>(env: Environment<T>, n: nat, start: Duration): Duration {
    start + env(n).took + env(n).gap
  }

  /** The turn of attempt `n`, the one at place `i` of the trace `t`. It is followed by another
      exactly if it fails retryably, attempts are left and the deadline has not passed by the
      second clock reading; the next attempt starts when the requested sleep, and whatever it
      overshoots by, is over. The last attempt's end is the call's, or the second reading
      after it if the engine itself times out. */
  ghost predicate Turn<T>(c: RetryConfig, env: Environment<T>, t: Trace<T>, n: nat, i: nat) {
    && i < |t.starts| == |t.sleeps| + 1
    && var again := SecondReading(env, n, t.starts[i]);
    && (i < |t.sleeps| <==>
          Retryable(env(n).result) && n < c.maxAttempts && (c.deadline.Some? ==> again < c.deadline.value))
    && (i < |t.sleeps| ==> t.starts[i + 1] == again + t.sleeps[i] + env(n).late)
    && (i == |t.sleeps| ==> t.ended == if t.timedOut then again else t.starts[i] + env(n).took)
  }

  /** Every attempt of a call takes its turn. */
  lemma {:induction false} Timeline<T>(
      c: RetryConfig, op: Bytes, env: Environment<T>, attempt: U32, now: Duration, i: nat)
    requires c.Valid() && attempt < c.maxAttempts && i < |RetryFrom(c, op, env, attempt, now).starts|
    ensures RetryFrom(c, op, env, attempt, now).starts[0] == now
    ensures Turn(c, env, RetryFrom(c, op, env, attempt, now), attempt + i + 1, i)
    decreases c.maxAttempts - attempt
  {
    FirstTurn(c, op, env, attempt, now);
    if i > 0 {
      var v := Decide(c, op, attempt + 1, env(attempt + 1), now);
      hide Decide, Turn;
      var rest := RetryFrom(c, op, env, attempt + 1, v.next);
      Timeline(c, op, env, attempt + 1, v.next, i - 1);
      TurnShifts(c, env, rest, now, v.sleep, attempt + i + 1, i - 1);
    }
  }

  lemma TurnShifts<T>(
      c: RetryConfig, env: Environment<T>, rest: Trace<T>, now: Duration, sleep: Duration, n: nat, i: nat)
    requires Turn(c, env, rest, n, i)
    ensures Turn(c, env, rest.(starts := [now] + rest.starts, sleeps := [sleep] + rest.sleeps), n, i + 1)
  {
  }

  lemma FirstStart<T>(c: RetryConfig, op: Bytes, env: Environment<T>, attempt: U32, now: Duration)
    requires c.Valid() && attempt < c.maxAttempts
    ensures var t := RetryFrom(c, op, env, attempt, now); |t.starts| == |t.sleeps| + 1 && t.starts[0] == now
  {
    TraceShape(c, op, env, attempt, now);
    hide Decide;
  }

  lemma FirstTurn<T>(c: RetryConfig, op: Bytes, env: Environment<T>, attempt: U32, now: Duration)
    requires c.Valid() && attempt < c.maxAttempts
    ensures RetryFrom(c, op, env, attempt, now).starts[..1] == [now]
    ensures Turn(c, env, RetryFrom(c, op, env, attempt, now), attempt + 1, 0)
  {
    hide Planned;
    var v := Decide(c, op, attempt + 1, env(attempt + 1), now);
    FirstStart(c, op, env, attempt, now);
    if v.Again? {
      FirstStart(c, op, env, attempt + 1, v.next);
    }
  }

  /** Half the backoffs after the `i` attempts that follow the first `attempt`. */
  ghost function HalfBackoffs(c: RetryConfig, attempt: nat, i: nat): Duration
    requires c.Valid()
  {
    if i == 0 then 0.0 else HalfBackoffs(c, attempt, i - 1) + ClosedForm(c, attempt + i) / 2.0
  }

  lemma {:induction false} HalfBackoffsGrow(c: RetryConfig, attempt: nat, i: nat)
    requires c.Valid()
    ensures HalfBackoffs(c, attempt, i) >= Times(i, c.initialBackoff / 2.0)
  {
    if i > 0 {
      HalfBackoffsGrow(c, attempt, i - 1);
      BackoffMonotone(c, attempt + i, attempt + i);
      hide ClosedForm;
    }
  }

  lemma NextStartWaits<T>(c: RetryConfig, op: Bytes, env: Environment<T>, attempt: U32, now: Duration, i: nat)
    requires c.Valid() && c.deadline.None? && attempt < c.maxAttempts
    requires i + 1 < |RetryFrom(c, op, env, attempt, now).starts|
    ensures var starts := RetryFrom(c, op, env, attempt, now).starts;
            starts[i + 1] >= starts[i] + ClosedForm(c, attempt + i + 1) / 2.0
  {
    hide RetryFrom, ClosedForm, Planned;
    Timeline(c, op, env, attempt, now, i);
    SleepBand(c, op, env, attempt, now, i);
  }

  /** Retries really wait: without a deadline no attempt starts before half of every backoff up
      to it, and so half the initial backoff per retry, has passed. */
  lemma {:induction false} RetriesWait<T>(
      c: RetryConfig, op: Bytes, env: Environment<T>, attempt: U32, now: Duration, i: nat)
    requires c.Valid() && c.deadline.None? && attempt < c.maxAttempts
    requires i < |RetryFrom(c, op, env, attempt, now).starts|
    ensures RetryFrom(c, op, env, attempt, now).starts[i] >= now + HalfBackoffs(c, attempt, i)
    ensures HalfBackoffs(c, attempt, i) >= Times(i, c.initialBackoff / 2.0)
  {
    hide RetryFrom, ClosedForm;
    HalfBackoffsGrow(c, attempt, i);
    if i > 0 {
      NextStartWaits(c, op, env, attempt, now, i - 1);
      RetriesWait(c, op, env, attempt, now, i - 1);
    } else {
      Timeline(c, op, env, attempt, now, 0);
    }
  }

  // ----- the engine's own timeout -----

  /** The documentation promises `Timeout` when the deadline is exhausted. The engine's own
      timeout is returned exactly when the last attempt fails retryably with attempts left
      and the deadline passes between the two clock readings after it. */
  lemma {:induction false} OwnTimeoutExactly<T>(
      c: RetryConfig, op: Bytes, env: Environment<T>, attempt: U32, now: Duration)
    requires c.Valid() && attempt < c.maxAttempts
    ensures var t := RetryFrom(c, op, env, attempt, now);
            |t.starts| >= 1 &&
            var last := attempt + |t.starts|;
            var failed := t.starts[|t.starts| - 1] + env(last).took;
            t.timedOut <==>
              && Retryable(env(last).result)
              && last < c.maxAttempts
              && c.deadline.Some?
              && failed < c.deadline.value <= failed + env(last).gap
    decreases c.maxAttempts - attempt
  {
    var v := Decide(c, op, attempt + 1, env(attempt + 1), now);
    if v.Again? {
      OwnTimeoutExactly(c, op, env, attempt + 1, v.next);
    }
  }

  function SlowFailure(attempt: nat): Attempt<int> {
    Attempt(Err(Connection), 2.0, 0.0, 0.0)
  }

  /** A call that exhausts its deadline and returns the attempt's own error, not `Timeout`. */
  lemma DeadlineWithoutTimeout(op: Bytes)
    ensures var c := Fixed(3, 1.0).WithDeadline(1.0);
            var t := Retried(c, op, SlowFailure);
            t.ended >= 1.0 && t.result == Err(Connection) && |t.starts| == 1
  {
  }

  // ----- sleeping -----

  ghost function Sum(ds: seq<Duration>): Duration {
    if ds == [] then 0.0 else ds[0] + Sum(ds[1..])
  }

  /** A sum of waits that all lie in a band lies in the band's multiple. */
  lemma {:induction false} SumBetween(ds: seq<Duration>, low: Duration, high: Duration)
    requires forall i :: 0 <= i < |ds| ==> low <= ds[i] <= high
    ensures Times(|ds|, low) <= Sum(ds) <= Times(|ds|, high)
  {
    if ds != [] {
      SumBetween(ds[1..], low, high);
    }
  }

  /** `n * d`. */
  ghost function Times(n: nat, d: Duration): Duration {
    if n == 0 then 0.0 else d + Times(n - 1, d)
  }

  lemma {:induction false} TimesIsProduct(n: nat, d: Duration)
    ensures Times(n, d) == n as real * d
  {
    if n > 0 {
      TimesIsProduct(n - 1, d);
      assert n as real * d == (n - 1) as real * d + d;
    }
  }

  /** The time left to the deadline when the sleep after attempt `n` is requested. */
  ghost function LeftAt<T>(c: RetryConfig, env: Environment<T>, n: nat, started: Duration): Duration
    requires c.deadline.Some?
  {
    SaturatingSub(c.deadline.value, started + env(n).took + env(n).gap)
  }

  lemma FirstSleep<T>(c: RetryConfig, op: Bytes, env: Environment<T>, attempt: U32, now: Duration)
    requires c.Valid() && attempt < c.maxAttempts
    ensures var v, n := Decide(c, op, attempt + 1, env(attempt + 1), now), attempt + 1;
            v.Again? ==>
              && n < c.maxAttempts && ClosedForm(c, n) / 2.0 <= Planned(c, op, n) <= ClosedForm(c, n)
              && (|| v.sleep == Planned(c, op, n)
                  || (c.deadline.Some? && v.sleep == LeftAt(c, env, n, now) < Planned(c, op, n)))
  {
    hide ClosedForm, Planned;
  }

  /** A requested sleep is exactly the planned wait, between half its backoff and the backoff,
      unless the deadline clips it; then it is exactly the time that is left, and less. */
  lemma {:induction false} SleepBand<T>(
      c: RetryConfig, op: Bytes, env: Environment<T>, attempt: U32, now: Duration, i: nat)
    requires c.Valid() && attempt < c.maxAttempts && i < |RetryFrom(c, op, env, attempt, now).sleeps|
    ensures var t := RetryFrom(c, op, env, attempt, now);
            var n := attempt + i + 1;
            && n < c.maxAttempts && i < |t.starts|
            && t.sleeps[i] <= ClosedForm(c, n)
            && (|| (t.sleeps[i] == Planned(c, op, n) && ClosedForm(c, n) / 2.0 <= t.sleeps[i])
                || (c.deadline.Some? && t.sleeps[i] == LeftAt(c, env, n, t.starts[i]) < Planned(c, op, n)))
    decreases c.maxAttempts - attempt
  {
    var v := Decide(c, op, attempt + 1, env(attempt + 1), now);
    FirstSleep(c, op, env, attempt, now);
    hide ClosedForm, Planned, Decide, LeftAt;
    if v.Again? && i > 0 {
      SleepBand(c, op, env, attempt + 1, v.next, i - 1);
      assert attempt + 1 + (i - 1) + 1 == attempt + i + 1;
    }
  }

  /** Without jitter and deadline every wait is the documented backoff itself. */
  lemma UnjitteredSleeps<T>(c: RetryConfig, op: Bytes, env: Environment<T>, i: nat)
    requires c.Valid() && c.deadline.None? && i < |Retried(c.WithoutJitter(), op, env).sleeps|
    ensures Retried(c.WithoutJitter(), op, env).sleeps[i] == ClosedForm(c, i + 1)
  {
    hide RetryFrom, ClosedForm;
    SleepBand(c.WithoutJitter(), op, env, 0, 0.0, i);
    JitterAside(c, i + 1);
  }

  /** The requested sleeps of a call sum to at most `maxBackoff` per retry and, with a
      deadline, to at most the time that was left. */
  lemma {:induction false} SleepBudget<T>(c: RetryConfig, op: Bytes, env: Environment<T>, attempt: U32, now: Duration)
    requires c.Valid() && attempt < c.maxAttempts
    ensures var t := RetryFrom(c, op, env, attempt, now);
            && |t.sleeps| < c.maxAttempts - attempt
            && Sum(t.sleeps) <= Times(|t.sleeps|, c.maxBackoff)
            && (c.deadline.Some? ==> Sum(t.sleeps) <= SaturatingSub(c.deadline.value, now))
    decreases c.maxAttempts - attempt
  {
    var v := Decide(c, op, attempt + 1, env(attempt + 1), now);
    if v.Again? {
      SleepBudget(c, op, env, attempt + 1, v.next);
      assert RetryFrom(c, op, env, attempt, now).sleeps[1..] == RetryFrom(c, op, env, attempt + 1, v.next).sleeps;
      assert v.sleep <= c.maxBackoff;
    }
  }

  // ----- the time bounds -----

  /** The timers are exact, readings take no time, and attempts take at most `limit`. */
  ghost predicate Exact<T>(env: Environment<T>, limit: Duration) {
    forall k :: env(k).gap == 0.0 && env(k).late == 0.0 && env(k).took <= limit
  }

  /** A call with a deadline ends by the deadline plus one attempt. */
  lemma {:induction false} DeadlineBound<T>(
      c: RetryConfig, op: Bytes, env: Environment<T>, attempt: U32, now: Duration, limit: Duration)
    requires c.Valid() && attempt < c.maxAttempts && c.deadline.Some?
    requires Exact(env, limit) && now <= c.deadline.value
    ensures RetryFrom(c, op, env, attempt, now).ended <= c.deadline.value + limit
    decreases c.maxAttempts - attempt
  {
    var v := Decide(c, op, attempt + 1, env(attempt + 1), now);
    if v.Again? {
      DeadlineBound(c, op, env, attempt + 1, v.next, limit);
    }
  }

  /** Each attempt costs at most `limit`, and each retry at most `maxBackoff` more. */
  lemma {:induction false} AttemptsBound<T>(
      c: RetryConfig, op: Bytes, env: Environment<T>, attempt: U32, now: Duration, limit: Duration)
    requires c.Valid() && attempt < c.maxAttempts && Exact(env, limit)
    ensures RetryFrom(c, op, env, attempt, now).ended
            <= now + Times(c.maxAttempts - attempt, limit) + Times(c.maxAttempts - attempt - 1, c.maxBackoff)
    decreases c.maxAttempts - attempt
  {
    var v := Decide(c, op, attempt + 1, env(attempt + 1), now);
    if v.Again? {
      AttemptsBound(c, op, env, attempt + 1, v.next, limit);
      assert v.next <= now + limit + c.maxBackoff;
    }
  }
}
