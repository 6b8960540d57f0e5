/** The pool object itself: its methods on the shared counters, each keeping the protocol's
    invariant. While a caller waits, anybody else may act. */
module Pool {
  import opened Common
  import opened PoolCall
  import P = PoolProtocol
  import T = PoolTheorems

  /** Steps that belong to the caller that owns task `me`, if there is one. */
  predicate Own(step: P.Step, me: Option<nat>) {
    match step
    case Advance(t) => me == Some(t)
    case Grant(t) => me == Some(t)
    case Expire(t) => me == Some(t)
    case Fail(t) => me == Some(t)
    case Cancel(t) => me == Some(t)
    case DropPermit(t) => me == Some(t)
    case _ => false
  }

  /** Everybody else acts: the enabled steps among `steps`, in order. */
  function Others(s: P.State, steps: seq<P.Step>, me: Option<nat>): (s': P.State)
    ensures |s.tasks| <= |s'.tasks|
    decreases |steps|
  {
    if steps == [] then s
    else if !Own(steps[0], me) && P.Enabled(s, steps[0]) then Others(P.Apply(s, steps[0]), steps[1..], me)
    else Others(s, steps[1..], me)
  }

  lemma OthersStep(s: P.State, step: P.Step, t: nat)
    requires t < |s.tasks| && !Own(step, Some(t)) && P.Enabled(s, step)
    ensures t < |P.Apply(s, step).tasks| && P.Apply(s, step).tasks[t] == s.tasks[t]
  {
    if T.IsTaskStep(step) {
      T.StepMoves(s, step);
    }
  }

  lemma {:induction false} OthersKeep(s: P.State, steps: seq<P.Step>, me: Option<nat>)
    requires P.Inv(s) && (me.Some? ==> me.value < |s.tasks|)
    ensures var s' := Others(s, steps, me);
            && P.Inv(s') && s'.maxInFlight == s.maxInFlight && s'.connected == s.connected
            && (s.closed ==> s'.closed)
            && (me.Some? ==> me.value < |s'.tasks| && s'.tasks[me.value] == s.tasks[me.value])
    decreases |steps|
  {
    if steps != [] {
      if !Own(steps[0], me) && P.Enabled(s, steps[0]) {
        P.StepInv(s, steps[0]);
        T.StepConstants(s, steps[0]);
        if me.Some? {
          OthersStep(s, steps[0], me.value);
        }
        OthersKeep(P.Apply(s, steps[0]), steps[1..], me);
      } else {
        OthersKeep(s, steps[1..], me);
      }
    }
  }

  /** The result of an acquire is what the caller's task ended in. */
  predicate Matches(r: Option<RedisError>, t: P.Task) {
    match r
    case None => t == P.Running
    case Some(Timeout) => t == P.Done(P.AcquireTimeout)
    case Some(Connection) => t == P.Done(P.RejectedClosed) || t == P.Done(P.NotConnected)
    case _ => false
  }

  /** A task that ends, or starts to wait, before it ever holds a permit. */
  function Entered(s: P.State, t: P.Task): P.State {
    s.(tasks := s.tasks + [t],
       waiters := s.waiters + P.Bit(t == P.Waiting),
       rejectedClosed := s.rejectedClosed + P.Bit(t == P.Done(P.RejectedClosed)),
       acquireTimeouts := s.acquireTimeouts + P.Bit(t == P.Done(P.AcquireTimeout)))
  }

  /** What becomes of a task at the checks before the wait. */
  function Arrival(closed: bool, connected: bool, zeroBudget: bool): P.Task {
    if closed then P.Done(P.RejectedClosed)
    else if !connected then P.Done(P.NotConnected)
    else if zeroBudget then P.Done(P.AcquireTimeout)
    else P.Waiting
  }

  /** What the caller of such a task is told; `None` while it goes on waiting. */
  function ErrorOf(t: P.Task): Option<RedisError> {
    if t == P.Done(P.AcquireTimeout) then Some(Timeout)
    else if t == P.Done(P.RejectedClosed) || t == P.Done(P.NotConnected) then Some(Connection)
    else None
  }

  lemma EnteredInv(s: P.State, t: P.Task)
    requires P.Inv(s)
    requires t == P.Waiting || t == P.Done(P.RejectedClosed) || t == P.Done(P.NotConnected)
             || t == P.Done(P.AcquireTimeout)
    ensures P.Inv(Entered(s, t))
  {
    P.AppendInv(s, Entered(s, t), t);
  }

  /** What the end of task `me`'s wait leaves behind. */
  function Settled(s: P.State, me: nat, inTime: bool): (s': P.State)
    requires me < |s.tasks|
    ensures |s'.tasks| == |s.tasks|
  {
    if !inTime || s.available <= 0 then
      s.(tasks := s.tasks[me := P.Done(P.AcquireTimeout)], waiters := s.waiters - 1,
         acquireTimeouts := s.acquireTimeouts + 1)
    else if s.closed then
      s.(tasks := s.tasks[me := P.Done(P.RejectedClosed)], waiters := s.waiters - 1,
         rejectedClosed := s.rejectedClosed + 1)
    else
      s.(tasks := s.tasks[me := P.Running], waiters := s.waiters - 1, available := s.available - 1,
         inFlight := s.inFlight + 1)
  }

  lemma SettledInv(s: P.State, me: nat, inTime: bool)
    requires P.Inv(s) && me < |s.tasks| && s.tasks[me].Waiting?
    ensures P.Inv(Settled(s, me, inTime))
  {
    P.ReplaceInv(s, Settled(s, me, inTime), me);
  }

  /** What an acquire leaves behind when everybody else takes the steps `others` while it waits. */
  function Acquired(s: P.State, zeroBudget: bool, inTime: bool, others: seq<P.Step>): (s': P.State)
    ensures |s.tasks| < |s'.tasks|
  {
    var t := Arrival(s.closed, s.connected, zeroBudget);
    var me := |s.tasks|;
    if t == P.Waiting then Settled(Others(Entered(s, t), others, Some(me)), me, inTime) else Entered(s, t)
  }

  /** The pool when the wait of a call that has queued is over, before the call itself goes on. */
  function AfterWait(s: P.State, others: seq<P.Step>): P.State {
    Others(s.(tasks := s.tasks + [P.Waiting], waiters := s.waiters + 1), others, Some(|s.tasks|))
  }

  lemma AcquiredParts(s: P.State, zeroBudget: bool, inTime: bool, others: seq<P.Step>)
    ensures var t, me := Arrival(s.closed, s.connected, zeroBudget), |s.tasks|;
            && AfterWait(s, others) == Others(Entered(s, P.Waiting), others, Some(me))
            && Acquired(s, zeroBudget, inTime, others)
               == if t == P.Waiting then Settled(AfterWait(s, others), me, inTime) else Entered(s, t)
  {
  }

  /** What a call meets in a pool: a permit can be granted only if one is free after the wait. */
  function LaneOf(s: P.State, others: seq<P.Step>, grantAfter: Option<Duration>, work: Option<Duration>): Lane {
    var w := AfterWait(s, others);
    Lane(s.closed, s.connected, if w.available > 0 then grantAfter else None, w.closed, work)
  }

  /** What dropping a pool permit leaves behind. */
  function Released(s: P.State, me: nat): P.State
    requires me < |s.tasks|
  {
    s.(inFlight := s.inFlight - 1, available := s.available + 1, tasks := s.tasks[me := P.Done(P.Finished)])
  }

  lemma ReleasedInv(s: P.State, me: nat)
    requires P.Inv(s) && me < |s.tasks| && s.tasks[me].Running?
    ensures P.Inv(Released(s, me)) && s.inFlight >= 1
  {
    P.ReplaceInv(s, Released(s, me), me);
    P.CountZero(P.Runs, s.tasks);
    assert P.In(P.Runs, s.tasks[me]);
  }

  // ----- the sequential code is a run of the protocol -----

  lemma EnteredIsRun(s: P.State, zeroBudget: bool) returns (steps: seq<P.Step>)
    ensures P.Run(s, steps) && P.After(s, steps) == Entered(s, Arrival(s.closed, s.connected, zeroBudget))
  {
    var me := |s.tasks|;
    var t := Arrival(s.closed, s.connected, zeroBudget);
    steps := [];
    T.Snoc(s, steps, P.Spawn(zeroBudget));
    steps := steps + [P.Spawn(zeroBudget)];
    T.Snoc(s, steps, P.Advance(me));
    steps := steps + [P.Advance(me)];
    if t != P.Done(P.NotConnected) {
      T.Snoc(s, steps, P.Advance(me));
      steps := steps + [P.Advance(me)];
    }
    assert P.After(s, steps).tasks == Entered(s, t).tasks;
  }

  lemma GrantedIsRun(s: P.State, me: nat) returns (steps: seq<P.Step>)
    requires me < |s.tasks| && s.tasks[me].Waiting? && !s.semaphoreClosed && s.available > 0
    ensures P.Run(s, steps) && P.After(s, steps) == Settled(s, me, true)
  {
    steps := [];
    T.Snoc(s, steps, P.Grant(me));
    steps := steps + [P.Grant(me)];
    T.Snoc(s, steps, P.Advance(me));
    steps := steps + [P.Advance(me)];
    T.Snoc(s, steps, P.Advance(me));
    steps := steps + [P.Advance(me)];
    T.Snoc(s, steps, P.Advance(me));
    steps := steps + [P.Advance(me)];
    if s.closed {
      T.Snoc(s, steps, P.Advance(me));
      steps := steps + [P.Advance(me)];
    }
    assert P.After(s, steps).tasks == Settled(s, me, true).tasks;
  }

  lemma ExpiredIsRun(s: P.State, me: nat) returns (steps: seq<P.Step>)
    requires me < |s.tasks| && s.tasks[me].Waiting?
    ensures P.Run(s, steps) && P.After(s, steps) == Settled(s, me, false)
  {
    steps := [];
    T.Snoc(s, steps, P.Expire(me));
    steps := steps + [P.Expire(me)];
    T.Snoc(s, steps, P.Advance(me));
    steps := steps + [P.Advance(me)];
    T.Snoc(s, steps, P.Advance(me));
    steps := steps + [P.Advance(me)];
    assert P.After(s, steps).tasks == Settled(s, me, false).tasks;
  }

  /** What everybody else does is a run of the protocol. */
  lemma {:induction false} OthersAreRun(s: P.State, others: seq<P.Step>, me: Option<nat>) returns (steps: seq<P.Step>)
    ensures P.Run(s, steps) && P.After(s, steps) == Others(s, others, me)
    decreases |others|
  {
    steps := [];
    if others != [] {
      if !Own(others[0], me) && P.Enabled(s, others[0]) {
        var rest := OthersAreRun(P.Apply(s, others[0]), others[1..], me);
        steps := [others[0]] + rest;
        assert steps[1..] == rest;
      } else {
        steps := OthersAreRun(s, others[1..], me);
      }
    }
  }

  /** Dropping a permit, once its caller is done with it, is a run of the protocol. */
  lemma ReleaseIsRun(s: P.State, me: nat) returns (steps: seq<P.Step>)
    requires me < |s.tasks| && s.tasks[me].Running?
    ensures P.Run(s, steps) && P.After(s, steps) == Released(s, me)
  {
    steps := [];
    T.Snoc(s, steps, P.DropPermit(me));
    steps := steps + [P.DropPermit(me)];
    T.Snoc(s, steps, P.Advance(me));
    steps := steps + [P.Advance(me)];
    assert P.After(s, steps).tasks == Released(s, me).tasks;
  }

  /** And every run of their steps is something they may do. */
  lemma {:induction false} OthersMayDoAnything(s: P.State, steps: seq<P.Step>, me: Option<nat>)
    requires P.Run(s, steps) && forall n :: 0 <= n < |steps| ==> !Own(steps[n], me)
    ensures Others(s, steps, me) == P.After(s, steps)
    decreases |steps|
  {
    if steps != [] {
      assert forall n :: 0 <= n < |steps| - 1 ==> steps[1..][n] == steps[n + 1];
      OthersMayDoAnything(P.Apply(s, steps[0]), steps[1..], me);
    }
  }

  /** An acquire performs exactly the protocol's atomic operations, in order: with whatever
      everybody else does while it waits, it is a run of the protocol. */
  lemma AcquireIsRun(s: P.State, zeroBudget: bool, inTime: bool, others: seq<P.Step>) returns (steps: seq<P.Step>)
    requires P.Inv(s)
    ensures P.Run(s, steps) && P.After(s, steps) == Acquired(s, zeroBudget, inTime, others)
  {
    var t, me := Arrival(s.closed, s.connected, zeroBudget), |s.tasks|;
    steps := EnteredIsRun(s, zeroBudget);
    if t == P.Waiting {
      EnteredInv(s, t);
      OthersKeep(Entered(s, t), others, Some(me));
      var middle := OthersAreRun(Entered(s, t), others, Some(me));
      RunConcat(s, steps, middle);
      steps := steps + middle;
      var waited := P.After(s, steps);
      var tail := SettledIsRun(waited, me, inTime);
      RunConcat(s, steps, tail);
      steps := steps + tail;
    }
  }

  lemma SettledIsRun(s: P.State, me: nat, inTime: bool) returns (steps: seq<P.Step>)
    requires me < |s.tasks| && s.tasks[me].Waiting? && P.Inv(s)
    ensures P.Run(s, steps) && P.After(s, steps) == Settled(s, me, inTime)
  {
    if inTime && s.available > 0 {
      steps := GrantedIsRun(s, me);
    } else {
      steps := ExpiredIsRun(s, me);
    }
  }

  lemma {:induction false} RunConcat(s: P.State, first: seq<P.Step>, rest: seq<P.Step>)
    requires P.Run(s, first) && P.Run(P.After(s, first), rest)
    ensures P.Run(s, first + rest) && P.After(s, first + rest) == P.After(P.After(s, first), rest)
    decreases |first|
  {
    var all := first + rest;
    if first == [] {
      assert all == rest;
    } else {
      assert all[1..] == first[1..] + rest;
      RunConcat(P.Apply(s, first[0]), first[1..], rest);
    }
  }

  class PoolInner {
    const timeouts: Timeouts
    const maxInFlight: nat
    const connected: bool
    var available: int
    var closed: bool
    var waiters: int
    var inFlight: int
    var rejectedClosed: int
    var acquireTimeouts: int
    var commandsOk: nat
    var commandsErr: nat
    var commandsTimeout: nat
    var clock: Duration
    var tasks: seq<P.Task>
    var closers: seq<P.Closer>

    function View(): P.State
      reads this
    {
      P.State(maxInFlight, connected, false, available, closed, waiters, inFlight, rejectedClosed, acquireTimeouts,
              tasks, closers)
    }

    /** `from_parts`. */
    constructor (timeouts: Timeouts, maxInFlight: nat, connected: bool)
      ensures View() == P.Init(maxInFlight, connected) && P.Inv(View())
      ensures this.timeouts == timeouts && commandsOk == 0 && commandsErr == 0 && commandsTimeout == 0 && clock == 0.0
    {
      this.timeouts := timeouts;
      this.maxInFlight := maxInFlight;
      this.connected := connected;
      available, closed, waiters, inFlight, rejectedClosed, acquireTimeouts := maxInFlight, false, 0, 0, 0, 0;
      commandsOk, commandsErr, commandsTimeout, clock := 0, 0, 0, 0.0;
      tasks, closers := [], [];
      new;
      P.InitInv(maxInFlight, connected);
    }

    /** Others act while task `me` waits, or while a closer sleeps. */
    method Meanwhile(others: seq<P.Step>, me: Option<nat>)
      requires P.Inv(View()) && (me.Some? ==> me.value < |tasks|)
      modifies this`available, this`closed, this`waiters, this`inFlight, this`rejectedClosed, this`acquireTimeouts,
               this`tasks, this`closers
      ensures View() == Others(old(View()), others, me) && P.Inv(View()) && (old(closed) ==> closed)
      ensures me.Some? ==> me.value < |tasks| && tasks[me.value] == old(tasks[me.value])
    {
      OthersKeep(View(), others, me);
      var s := Others(View(), others, me);
      available, closed, waiters, inFlight := s.available, s.closed, s.waiters, s.inFlight;
      rejectedClosed, acquireTimeouts, tasks, closers := s.rejectedClosed, s.acquireTimeouts, s.tasks, s.closers;
      assert P.Inv(s) && !s.semaphoreClosed;
    }

    /** The first closed check, the connection check and the budget check; a caller that
        passes them enters the queue. */
    method Arrive(budget: Duration) returns (error: Option<RedisError>, me: nat)
      requires P.Inv(View())
      modifies this`waiters, this`rejectedClosed, this`acquireTimeouts, this`tasks
      ensures me == |old(tasks)| && error == ErrorOf(Arrival(closed, connected, budget == 0.0))
      ensures View() == Entered(old(View()), Arrival(closed, connected, budget == 0.0)) && P.Inv(View())
    {
      EnteredInv(View(), Arrival(closed, connected, budget == 0.0));
      me := |tasks|;
      if closed {
        rejectedClosed := rejectedClosed + 1;
        tasks := tasks + [P.Done(P.RejectedClosed)];
        return Some(Connection), me;
      }
      if !connected {
        tasks := tasks + [P.Done(P.NotConnected)];
        return Some(Connection), me;
      }
      if budget == 0.0 {
        acquireTimeouts := acquireTimeouts + 1;
        tasks := tasks + [P.Done(P.AcquireTimeout)];
        return Some(Timeout), me;
      }
      waiters := waiters + 1;
      tasks := tasks + [P.Waiting];
      error := None;
    }

    /** The end of the wait, and the await-free tail of acquire. */
    method Settle(budget: Duration, grantAfter: Option<Duration>, me: nat) returns (error: Option<RedisError>)
      requires P.Inv(View()) && me < |tasks| && tasks[me].Waiting?
      modifies this`available, this`waiters, this`inFlight, this`rejectedClosed, this`acquireTimeouts, this`tasks,
               this`clock
      ensures View() == Settled(old(View()), me, InTime(grantAfter, budget)) && P.Inv(View())
      ensures |tasks| == |old(tasks)| && Matches(error, tasks[me])
      ensures var granted := InTime(grantAfter, budget) && old(available) >= 1;
              && error == (if !granted then Some(Timeout) else if closed then Some(Connection) else None)
              && clock == old(clock) + if granted then grantAfter.value else budget
    {
      SettledInv(View(), me, InTime(grantAfter, budget));
      var granted := InTime(grantAfter, budget) && available > 0;
      clock := clock + if granted then grantAfter.value else budget;
      waiters := waiters - 1;
      if granted {
        if closed {
          rejectedClosed := rejectedClosed + 1;
          tasks := tasks[me := P.Done(P.RejectedClosed)];
          error := Some(Connection);
        } else {
          available := available - 1;
          inFlight := inFlight + 1;
          tasks := tasks[me := P.Running];
          error := None;
        }
      } else {
        acquireTimeouts := acquireTimeouts + 1;
        tasks := tasks[me := P.Done(P.AcquireTimeout)];
        error := Some(Timeout);
      }
    }

    /** `acquire_with_timeout`: the answer in every case. The semaphore would grant a permit
        after `grantAfter` if one is free by then; `others` is what everybody else does during
        the wait. A free permit that comes in time is granted unless the pool has been closed
        meanwhile. The result is recorded in the caller's task, in the counters and in the
        time taken. */
    method AcquireWithTimeout(budget: Duration, grantAfter: Option<Duration>, others: seq<P.Step>)
      returns (error: Option<RedisError>, me: nat)
      requires P.Inv(View())
      modifies this`available, this`closed, this`waiters, this`inFlight, this`rejectedClosed, this`acquireTimeouts,
               this`tasks, this`closers, this`clock
      ensures P.Inv(View()) && me == |old(tasks)| < |tasks| && Matches(error, tasks[me])
      ensures var w := AfterWait(old(View()), others);
              error == if old(closed) || !connected then Some(Connection)
                       else if budget <= 0.0 then Some(Timeout)
                       else if grantAfter.None? || grantAfter.value > budget || w.available < 1 then Some(Timeout)
                       else if w.closed then Some(Connection)
                       else None
      ensures var lane := LaneOf(old(View()), others, grantAfter, None);
              error == AcquireOutcome(lane, budget).0 && clock == old(clock) + AcquireOutcome(lane, budget).1
      ensures View() == Acquired(old(View()), budget == 0.0, InTime(grantAfter, budget), others)
    {
      hide P.Inv, Others, Settled, Acquired, AfterWait;
      AcquiredParts(View(), budget == 0.0, InTime(grantAfter, budget), others);
      error, me := Arrive(budget);
      if error.Some? {
        return error, me;
      }
      Meanwhile(others, Some(me));
      error := Settle(budget, grantAfter, me);
    }

    /** How many permit executions have finished, by result. */
    function Executions(): nat
      reads this
    {
      commandsOk + commandsErr + commandsTimeout
    }

    /** `run_timed`: every execution adds one to exactly one of ok, err and timeout. */
    method RunTimed<T>(budget: Duration, work: Option<Duration>, answer: Result<T>, ghost waited: Duration,
                       ghost lane: Lane)
      returns (r: Result<T>, ghost reached: Reached)
      requires lane.work == work
      modifies this`commandsOk, this`commandsErr, this`commandsTimeout, this`clock
      ensures reached == PoolCall.RunTimed(lane, budget, waited)
      ensures r == if reached.Finished? then answer else Err(Timeout)
      ensures clock == old(clock) + (reached.took - waited)
      ensures Executions() == old(Executions()) + 1
      ensures commandsOk == old(commandsOk) + if reached.Finished? && answer.Ok? then 1 else 0
      ensures commandsErr == old(commandsErr) + if reached.Finished? && answer.Err? then 1 else 0
    {
      reached := PoolCall.RunTimed(lane, budget, waited);
      if budget == 0.0 {
        commandsTimeout := commandsTimeout + 1;
        return Err(Timeout), reached;
      }
      if !InTime(work, budget) {
        clock := clock + budget;
        commandsTimeout := commandsTimeout + 1;
        return Err(Timeout), reached;
      }
      clock := clock + work.value;
      if answer.Ok? {
        commandsOk := commandsOk + 1;
      } else {
        commandsErr := commandsErr + 1;
      }
      r := answer;
    }

    /** `execute_with_total_deadline` for a permit obtained by a call that began at `startedAt`. */
    method ExecuteWithTotalDeadline<T>(startedAt: Duration, total: Option<Duration>, work: Option<Duration>,
                                       answer: Result<T>, ghost lane: Lane)
      returns (r: Result<T>, ghost reached: Reached)
      requires startedAt <= clock && lane.work == work
      modifies this`commandsOk, this`commandsErr, this`commandsTimeout, this`clock
      ensures reached == ExecuteOutcome(timeouts, total, lane, old(clock) - startedAt)
      ensures r == if reached.Finished? then answer else Err(Timeout)
      ensures clock == startedAt + reached.took
      ensures Executions() == old(Executions()) + 1
      ensures commandsOk == old(commandsOk) + if reached.Finished? && answer.Ok? then 1 else 0
      ensures commandsErr == old(commandsErr) + if reached.Finished? && answer.Err? then 1 else 0
    {
      ghost var waited := clock - startedAt;
      reached := ExecuteOutcome(timeouts, total, lane, waited);
      var budget := timeouts.command;
      if total.Some? {
        var remaining := SaturatingSub(total.value, clock - startedAt);
        if remaining == 0.0 {
          commandsTimeout := commandsTimeout + 1;
          return Err(Timeout), reached;
        }
        budget := Min(remaining, timeouts.command);
      }
      r, reached := RunTimed(budget, work, answer, waited, lane);
    }

    /** Dropping a pool permit: first the counter, then the semaphore permit. */
    method DropPermit(me: nat)
      requires P.Inv(View()) && me < |tasks| && tasks[me].Running?
      modifies this`inFlight, this`available, this`tasks
      ensures old(inFlight) >= 1
      ensures View() == Released(old(View()), me) && P.Inv(View())
    {
      ReleasedInv(View(), me);
      inFlight := inFlight - 1;
      available := available + 1;
      tasks := tasks[me := P.Done(P.Finished)];
    }

    /** The rest of a call that was granted a permit: execute, while everybody else takes the
        steps `during`, and drop. */
    method UsePermit<T>(me: nat, startedAt: Duration, total: Option<Duration>, work: Option<Duration>,
                        during: seq<P.Step>, answer: Result<T>, ghost lane: Lane)
      returns (r: Result<T>, ghost reached: Reached)
      requires P.Inv(View()) && me < |tasks| && tasks[me].Running?
      requires startedAt <= clock && lane.work == work
      modifies this
      ensures P.Inv(View()) && View() == Released(Others(old(View()), during, Some(me)), me)
      ensures reached == ExecuteOutcome(timeouts, total, lane, old(clock) - startedAt)
      ensures r == if reached.Finished? then answer else Err(Timeout)
      ensures clock == startedAt + reached.took
      ensures Executions() == old(Executions()) + 1
      ensures commandsOk == old(commandsOk) + if reached.Finished? && answer.Ok? then 1 else 0
      ensures commandsErr == old(commandsErr) + if reached.Finished? && answer.Err? then 1 else 0
    {
      hide P.Inv, ExecuteOutcome, Others, Released;
      Meanwhile(during, Some(me));
      r, reached := ExecuteWithTotalDeadline(startedAt, total, work, answer, lane);
      DropPermit(me);
    }

    /** `with_pool_conn`: acquire, execute and drop within the call's budgets, while everybody
        else takes the steps `others` during the wait and `during` the command, which would be
        answered `answer` after `work`. `CallEndsExactly` says how far a call gets on its lane.
        The call takes at most its limit, adds one execution exactly if it was granted a
        permit, and hands that permit back. */
    method WithPoolConn<T>(deadline: Option<Duration>, grantAfter: Option<Duration>, others: seq<P.Step>,
                           work: Option<Duration>, during: seq<P.Step>, answer: Result<T>)
      returns (r: Result<T>, ghost reached: Reached)
      requires P.Inv(View())
      modifies this
      ensures P.Inv(View())
      ensures reached == CallOutcome(timeouts, deadline, LaneOf(old(View()), others, grantAfter, work))
      ensures var w := AfterWait(old(View()), others);
              reached.Finished? <==>
                && !old(closed) && connected && w.available >= 1 && !w.closed
                && 0.0 < timeouts.acquire && 0.0 < timeouts.command
                && grantAfter.Some? && grantAfter.value <= timeouts.acquire
                && work.Some? && work.value <= timeouts.command
                && (deadline.Some? ==>
                      grantAfter.value < deadline.value && grantAfter.value + work.value <= deadline.value)
      ensures r == match reached
                   case NotStarted(error, _) => Err(error)
                   case CutOff(_) => Err(Timeout)
                   case Finished(_) => answer
      ensures clock == old(clock) + reached.took && clock <= old(clock) + CallLimit(timeouts, deadline)
      ensures deadline == Some(0.0) ==> View() == old(View())
      ensures deadline != Some(0.0) ==>
                var s := Acquired(old(View()), AcquireBudget(timeouts, deadline) == 0.0,
                                  InTime(grantAfter, AcquireBudget(timeouts, deadline)), others);
                var me := |old(tasks)|;
                View() == if reached.NotStarted? then s else Released(Others(s, during, Some(me)), me)
      ensures Executions() == old(Executions()) + if reached.NotStarted? then 0 else 1
      ensures commandsOk == old(commandsOk) + if reached.Finished? && answer.Ok? then 1 else 0
      ensures commandsErr == old(commandsErr) + if reached.Finished? && answer.Err? then 1 else 0
    {
      hide P.Inv, AcquireOutcome, ExecuteOutcome, CallOutcome, AfterWait;
      hide Acquired, Others, Released, CallLimit, InTime, AcquireBudget;
      ghost var lane := LaneOf(View(), others, grantAfter, work);
      CallFinishesExactly(timeouts, deadline, lane);
      if deadline == Some(0.0) {
        NoCall(timeouts, lane);
        return Err(Timeout), NotStarted(Timeout, 0.0);
      }
      var startedAt := clock;
      var budget := AcquireBudget(timeouts, deadline);
      AcquireIgnoresWork(LaneOf(View(), others, grantAfter, None), work, budget);
      CallParts(timeouts, deadline, lane);
      CallWithinLimit(timeouts, deadline, lane);
      var error, me := AcquireWithTimeout(budget, grantAfter, others);
      if error.Some? {
        return Err(error.value), NotStarted(error.value, clock - startedAt);
      }
      r, reached := UsePermit(me, startedAt, deadline, work, during, answer, lane);
    }

    /** `close`: polls every five milliseconds until nothing is in flight or the deadline has
        passed. `others` says what everybody else does during each pause, and `late` how much
        longer than five milliseconds the pause lasts. It returns at the first poll that reads
        zero, or else at the first one not before the deadline. */
    method Close(deadline: Duration, others: nat -> seq<P.Step>, late: nat -> Duration)
      returns (drained: bool, ghost pauses: nat)
      requires P.Inv(View())
      modifies this`available, this`closed, this`waiters, this`inFlight, this`rejectedClosed, this`acquireTimeouts,
               this`tasks, this`closers, this`clock
      ensures P.Inv(View()) && closed
      ensures View() == Polled(old(View()).(closed := true), others, pauses)
      ensures clock == old(clock) + Paused(late, pauses)
      ensures drained <==> inFlight == 0
      ensures !drained ==> Paused(late, pauses) >= deadline
      ensures forall k :: 0 <= k < pauses ==>
                Polled(old(View()).(closed := true), others, k).inFlight != 0 && Paused(late, k) < deadline
    {
      hide P.Inv, Others, PausesLeft;
      ClosedInv(View());
      closed := true;
      var start := clock;
      var polls := 0;
      ghost var s := View();
      while true
        invariant P.Inv(View()) && closed
        invariant View() == Polled(s, others, polls) && clock == start + Paused(late, polls)
        invariant forall k :: 0 <= k < polls ==> Polled(s, others, k).inFlight != 0 && Paused(late, k) < deadline
        decreases PausesLeft(deadline - (clock - start))
      {
        if inFlight == 0 {
          return true, polls;
        }
        if clock - start >= deadline {
          return false, polls;
        }
        Elapse(deadline - (clock - start), late(polls));
        clock := clock + 0.005 + late(polls);
        Meanwhile(others(polls), None);
        polls := polls + 1;
      }
    }
  }

  /** The pool at the poll after `n` pauses. */
  function Polled(s: P.State, others: nat -> seq<P.Step>, n: nat): P.State {
    if n == 0 then s else Others(Polled(s, others, n - 1), others(n - 1), None)
  }

  /** The time `n` pauses take. */
  function Paused(late: nat -> Duration, n: nat): Duration {
    if n == 0 then 0.0 else Paused(late, n - 1) + 0.005 + late(n - 1)
  }

  /** The pauses last five milliseconds each, and longer only as far as the sleeps overshoot. */
  lemma {:induction false} PauseTimes(late: nat -> Duration, n: nat)
    ensures n as real * 0.005 <= Paused(late, n)
    ensures (forall k: nat :: late(k) == 0.0) ==> Paused(late, n) == n as real * 0.005
  {
    if n > 0 {
      PauseTimes(late, n - 1);
    }
  }

  lemma ClosedInv(s: P.State)
    requires P.Inv(s)
    ensures P.Inv(s.(closed := true))
  {
  }

  /** How many more pauses fit into the time that is left. */
  function PausesLeft(left: real): nat {
    if left > 0.0 then (left / 0.005).Floor + 1 else 0
  }

  lemma Elapse(left: real, late: Duration)
    requires left > 0.0
    ensures PausesLeft(left - 0.005 - late) < PausesLeft(left)
  {
    assert (left - 0.005 - late) / 0.005 <= left / 0.005 - 1.0;
  }
}
