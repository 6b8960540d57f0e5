/** One call through the pool, queueing included, with exact timers: the budgets of
    `run`, `run_total`, `acquire_with_timeout` and `execute_with_total_deadline`. */
module PoolCall {
  import opened Common

  datatype Timeouts = Timeouts(acquire: Duration, command: Duration)

  /** What a call meets: whether the pool is closed at the first and second check, whether
      it is connected, when a permit would be granted and when the command would finish
      (`None`: never). */
  datatype Lane = Lane(
    closedBefore: bool,
    connected: bool,
    grantAfter: Option<Duration>,
    closedAfter: bool,
    work: Option<Duration>)

  /** How far the call got and how long it took. */
  datatype Reached =
    | NotStarted(error: RedisError, took: Duration)
    | CutOff(took: Duration)
    | Finished(took: Duration)

  /** Whether something due after `at` happens within `budget`; a tie is in time. */
  predicate InTime(at: Option<Duration>, budget: Duration) {
    at.Some? && at.value <= budget
  }

  /** `acquire_with_timeout`: the error, or no error and a permit, after `took`. */
  function AcquireOutcome(lane: Lane, budget: Duration): (r: (Option<RedisError>, Duration))
    ensures r.1 <= budget
    ensures r.0.None? ==> lane.grantAfter == Some(r.1)
  {
    if lane.closedBefore || !lane.connected then (Some(Connection), 0.0)
    else if budget == 0.0 then (Some(Timeout), 0.0)
    else if InTime(lane.grantAfter, budget) then
      (if lane.closedAfter then Some(Connection) else None, lane.grantAfter.value)
    else (Some(Timeout), budget)
  }

  /** `run_timed` for a permit that was granted after `waited`. */
  function RunTimed(lane: Lane, budget: Duration, waited: Duration): (r: Reached)
    ensures r.took <= waited + budget
    ensures !r.NotStarted?
  {
    if budget == 0.0 then CutOff(waited)
    else if InTime(lane.work, budget) then Finished(waited + lane.work.value)
    else CutOff(waited + budget)
  }

  /** `execute_with_total_deadline`: waiting counts against the total. */
  function ExecuteOutcome(t: Timeouts, total: Option<Duration>, lane: Lane, waited: Duration): (r: Reached)
    ensures !r.NotStarted?
  {
    match total
    case Some(d) =>
      if SaturatingSub(d, waited) == 0.0 then CutOff(waited)
      else RunTimed(lane, Min(SaturatingSub(d, waited), t.command), waited)
    case None => RunTimed(lane, t.command, waited)
  }

  /** How long a call may wait for its permit. */
  function AcquireBudget(t: Timeouts, deadline: Option<Duration>): Duration {
    if deadline.Some? then Min(deadline.value, t.acquire) else t.acquire
  }

  /** `with_pool_conn`: with a call deadline the whole call shares it, otherwise waiting and
      the command have their own limits. */
  function CallOutcome(t: Timeouts, deadline: Option<Duration>, lane: Lane): Reached {
    if deadline == Some(0.0) then NotStarted(Timeout, 0.0)
    else
      var (error, waited) := AcquireOutcome(lane, AcquireBudget(t, deadline));
      if error.Some? then NotStarted(error.value, waited)
      else ExecuteOutcome(t, deadline, lane, waited)
  }

  lemma NoCall(t: Timeouts, lane: Lane)
    ensures CallOutcome(t, Some(0.0), lane) == NotStarted(Timeout, 0.0) && CallLimit(t, Some(0.0)) == 0.0
  {
  }

  /** A call that starts is an acquire followed, if granted, by an execution. */
  lemma CallParts(t: Timeouts, deadline: Option<Duration>, lane: Lane)
    requires deadline != Some(0.0)
    ensures var (error, waited) := AcquireOutcome(lane, AcquireBudget(t, deadline));
            CallOutcome(t, deadline, lane)
            == if error.Some? then NotStarted(error.value, waited) else ExecuteOutcome(t, deadline, lane, waited)
  {
  }

  lemma AcquireIgnoresWork(lane: Lane, work: Option<Duration>, budget: Duration)
    ensures AcquireOutcome(lane.(work := work), budget) == AcquireOutcome(lane, budget)
  {
  }

  /** The longest one call can take. */
  function CallLimit(t: Timeouts, deadline: Option<Duration>): Duration {
    if deadline.Some? then deadline.value else t.acquire + t.command
  }

  /** One call, queueing included, takes at most the call deadline. */
  lemma CallWithinLimit(t: Timeouts, deadline: Option<Duration>, lane: Lane)
    ensures CallOutcome(t, deadline, lane).took <= CallLimit(t, deadline)
    ensures CallLimit(t, deadline) == if deadline.Some? then deadline.value else t.acquire + t.command
  {
  }

  /** How a call ends, for every pool, permit and command: it is told off at once, told that
      its deadline or wait is over, told that the pool was closed meanwhile, cut off when its
      own limit or what the wait left of the deadline is over, or it finishes. */
  lemma CallEndsExactly(t: Timeouts, deadline: Option<Duration>, lane: Lane)
    ensures var r := CallOutcome(t, deadline, lane);
            var wait := if deadline.Some? && deadline.value < t.acquire then deadline.value else t.acquire;
            var granted := wait > 0.0 && lane.grantAfter.Some? && lane.grantAfter.value <= wait;
            var left := if granted && deadline.Some? && deadline.value - lane.grantAfter.value < t.command
                        then deadline.value - lane.grantAfter.value else t.command;
            if deadline == Some(0.0) then r == NotStarted(Timeout, 0.0)
            else if lane.closedBefore || !lane.connected then r == NotStarted(Connection, 0.0)
            else if !granted then r == NotStarted(Timeout, wait)
            else if lane.closedAfter then r == NotStarted(Connection, lane.grantAfter.value)
            else if left > 0.0 && lane.work.Some? && lane.work.value <= left then
              r == Finished(lane.grantAfter.value + lane.work.value)
            else r == CutOff(lane.grantAfter.value + left)
  {
  }

  /** A call completes exactly when the pool is open and connected, the permit comes within
      the acquire limit, the command fits its own limit, and with a call deadline the two
      together fit it. */
  lemma CallFinishesExactly(t: Timeouts, deadline: Option<Duration>, lane: Lane)
    ensures var r := CallOutcome(t, deadline, lane);
            r.Finished? <==>
              && !lane.closedBefore && lane.connected && !lane.closedAfter
              && 0.0 < t.acquire && 0.0 < t.command
              && lane.grantAfter.Some? && lane.grantAfter.value <= t.acquire
              && lane.work.Some? && lane.work.value <= t.command
              && (deadline.Some? ==>
                    lane.grantAfter.value < deadline.value
                    && lane.grantAfter.value + lane.work.value <= deadline.value)
    ensures var r := CallOutcome(t, deadline, lane);
            r.Finished? ==> r.took == lane.grantAfter.value + lane.work.value
  {
  }
}
