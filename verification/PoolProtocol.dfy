/** The pool's acquire, drop and close protocols: every atomic operation is one step, and
    any number of tasks and closers interleave. */
module PoolProtocol {

  datatype Outcome = RejectedClosed | NotConnected | AcquireTimeout | SemaphoreClosed | Finished

  /** Where a task stands in `acquire_with_timeout` and in the life of its permit. */
  datatype Task =
    | Fresh(zeroBudget: bool)  // before the first closed check
    | Rejecting                // saw the pool closed; not yet counted as rejected
    | OutOfBudget              // has no budget; not yet counted as timed out
    | Arriving                 // about to enter `waiters`
    | Waiting                  // in the semaphore's queue
    | Granted                  // has a semaphore permit; still in `waiters`
    | GivingUp                 // the wait timed out; still in `waiters`
    | Failing                  // the semaphore reported itself closed; still in `waiters`
    | Checking                 // has a permit; about to check `closed` again
    | Late                     // timed out; not yet counted as such
    | Bouncing                 // saw the pool closed with a permit in hand
    | Bounced                  // returned that permit; not yet counted as rejected
    | Admitted                 // passed the second check; not yet in `in_flight`
    | Running                  // owns a pool permit
    | Dropping                 // left `in_flight`; semaphore permit not yet returned
    | Done(outcome: Outcome)
    | Cancelled                // dropped while waiting

  datatype Closer = Opening | Polling | Drained | TimedOut

  datatype State = State(
    maxInFlight: nat,
    connected: bool,
    semaphoreClosed: bool,
    available: int,
    closed: bool,
    waiters: int,
    inFlight: int,
    rejectedClosed: int,
    acquireTimeouts: int,
    tasks: seq<Task>,
    closers: seq<Closer>)

  datatype Step =
    | Spawn(zeroBudget: bool)
    | Advance(task: nat)    // the task's next atomic operation
    | Grant(task: nat)      // the semaphore hands it a permit
    | Expire(task: nat)     // its wait times out
    | Fail(task: nat)       // the semaphore is closed
    | Cancel(task: nat)     // its future is dropped while waiting
    | DropPermit(task: nat) // its pool permit is dropped
    | SpawnClose
    | CloseStep(closer: nat)
    | CloseTimeout(closer: nat)

  function Init(maxInFlight: nat, connected: bool): State {
    State(maxInFlight, connected, false, maxInFlight, false, 0, 0, 0, 0, [], [])
  }

  predicate CanAdvance(t: Task) {
    !t.Waiting? && !t.Running? && !t.Done? && !t.Cancelled?
  }

  predicate Enabled(s: State, step: Step) {
    match step
    case Spawn(_) => true
    case Advance(t) => t < |s.tasks| && CanAdvance(s.tasks[t])
    case Grant(t) => t < |s.tasks| && s.tasks[t].Waiting? && s.available > 0 && !s.semaphoreClosed
    case Expire(t) => t < |s.tasks| && s.tasks[t].Waiting?
    case Fail(t) => t < |s.tasks| && s.tasks[t].Waiting? && s.semaphoreClosed
    case Cancel(t) => t < |s.tasks| && s.tasks[t].Waiting?
    case DropPermit(t) => t < |s.tasks| && s.tasks[t].Running?
    case SpawnClose => true
    case CloseStep(c) => c < |s.closers| && (s.closers[c].Opening? || s.closers[c].Polling?)
    case CloseTimeout(c) => c < |s.closers| && s.closers[c].Polling? && s.inFlight != 0
  }

  function To(s: State, t: nat, next: Task): State
    requires t < |s.tasks|
  {
    s.(tasks := s.tasks[t := next])
  }

  function DoAdvance(s: State, t: nat): State
    requires t < |s.tasks| && CanAdvance(s.tasks[t])
  {
    match s.tasks[t]
    case Fresh(zero) =>
      if s.closed then To(s, t, Rejecting)
      else if !s.connected then To(s, t, Done(NotConnected))
      else if zero then To(s, t, OutOfBudget)
      else To(s, t, Arriving)
    case Rejecting => To(s, t, Done(RejectedClosed)).(rejectedClosed := s.rejectedClosed + 1)
    case OutOfBudget => To(s, t, Done(AcquireTimeout)).(acquireTimeouts := s.acquireTimeouts + 1)
    case Arriving => To(s, t, Waiting).(waiters := s.waiters + 1)
    case Granted => To(s, t, Checking).(waiters := s.waiters - 1)
    case GivingUp => To(s, t, Late).(waiters := s.waiters - 1)
    case Failing => To(s, t, Done(SemaphoreClosed)).(waiters := s.waiters - 1)
    case Checking => if s.closed then To(s, t, Bouncing) else To(s, t, Admitted)
    case Late => To(s, t, Done(AcquireTimeout)).(acquireTimeouts := s.acquireTimeouts + 1)
    case Bouncing => To(s, t, Bounced).(available := s.available + 1)
    case Bounced => To(s, t, Done(RejectedClosed)).(rejectedClosed := s.rejectedClosed + 1)
    case Admitted => To(s, t, Running).(inFlight := s.inFlight + 1)
    case Dropping => To(s, t, Done(Finished)).(available := s.available + 1)
  }

  function DoClose(s: State, c: nat): State
    requires Enabled(s, CloseStep(c))
  {
    if s.closers[c].Opening? then s.(closed := true, closers := s.closers[c := Polling])
    else if s.inFlight == 0 then s.(closers := s.closers[c := Drained])
    else s
  }

  function Apply(s: State, step: Step): State
    requires Enabled(s, step)
  {
    match step
    case Spawn(zero) => s.(tasks := s.tasks + [Fresh(zero)])
    case Advance(t) => DoAdvance(s, t)
    case Grant(t) => To(s, t, Granted).(available := s.available - 1)
    case Expire(t) => To(s, t, GivingUp)
    case Fail(t) => To(s, t, Failing)
    case Cancel(t) => To(s, t, Cancelled)
    case DropPermit(t) => To(s, t, Dropping).(inFlight := s.inFlight - 1)
    case SpawnClose => s.(closers := s.closers + [Opening])
    case CloseStep(c) => DoClose(s, c)
    case CloseTimeout(c) => s.(closers := s.closers[c := TimedOut])
  }

  ghost predicate Run(s: State, steps: seq<Step>)
    decreases |steps|
  {
    steps == [] || (Enabled(s, steps[0]) && Run(Apply(s, steps[0]), steps[1..]))
  }

  ghost function After(s: State, steps: seq<Step>): State
    requires Run(s, steps)
    decreases |steps|
  {
    if steps == [] then s else After(Apply(s, steps[0]), steps[1..])
  }

  // ----- counting tasks -----

  /** Which tasks are counted: those holding a semaphore permit, owning a pool permit, in
      `waiters`, cancelled while waiting, past the second check but not yet in `in_flight`,
      ended in a given way, ever granted, or returned from acquire at all. */
  datatype Column =
    | Holds
    | Runs
    | Queues
    | WasCancelled
    | IsAdmitted
    | EndedIn(outcome: Outcome)
    | WasGranted
    | Returned
    | SawSemaphoreClosed

  predicate In(column: Column, t: Task) {
    match column
    case Holds => t.Granted? || t.Checking? || t.Bouncing? || t.Admitted? || t.Running? || t.Dropping?
    case Runs => t.Running?
    case Queues => t.Waiting? || t.Granted? || t.GivingUp? || t.Failing?
    case WasCancelled => t.Cancelled?
    case IsAdmitted => t.Admitted?
    case EndedIn(outcome) => t == Done(outcome)
    case WasGranted => t.Running? || t.Dropping? || t == Done(Finished)
    case Returned => t.Running? || t.Dropping? || t.Done?
    case SawSemaphoreClosed => t.Failing? || t == Done(SemaphoreClosed)
  }

  function Bit(b: bool): nat {
    if b then 1 else 0
  }

  function Count(column: Column, tasks: seq<Task>): nat {
    if tasks == [] then 0 else Bit(In(column, tasks[0])) + Count(column, tasks[1..])
  }

  /** Changing one task moves a count by the difference of the two. */
  lemma {:induction false} CountUpdate(column: Column, tasks: seq<Task>, i: nat, t: Task)
    requires i < |tasks|
    ensures Count(column, tasks[i := t]) + Bit(In(column, tasks[i])) == Count(column, tasks) + Bit(In(column, t))
  {
    var updated := tasks[i := t];
    if i == 0 {
      assert updated[1..] == tasks[1..];
    } else {
      assert updated[1..] == tasks[1..][i - 1 := t];
      CountUpdate(column, tasks[1..], i - 1, t);
    }
  }

  lemma {:induction false} CountAppend(column: Column, tasks: seq<Task>, t: Task)
    ensures Count(column, tasks + [t]) == Count(column, tasks) + Bit(In(column, t))
  {
    if tasks == [] {
      assert (tasks + [t])[1..] == [];
    } else {
      assert (tasks + [t])[1..] == tasks[1..] + [t];
      CountAppend(column, tasks[1..], t);
    }
  }

  /** A count is zero exactly when no task is in the column. */
  lemma {:induction false} CountZero(column: Column, tasks: seq<Task>)
    ensures Count(column, tasks) == 0 <==> forall i :: 0 <= i < |tasks| ==> !In(column, tasks[i])
  {
    if tasks != [] {
      CountZero(column, tasks[1..]);
      forall i | 0 < i < |tasks| ensures tasks[i] == tasks[1..][i - 1] {}
    }
  }

  /** If every task in one column is in another, the counts are ordered. */
  lemma {:induction false} CountMonotone(small: Column, large: Column, tasks: seq<Task>)
    requires forall t :: In(small, t) ==> In(large, t)
    ensures Count(small, tasks) <= Count(large, tasks) <= |tasks|
  {
    if tasks != [] {
      CountMonotone(small, large, tasks[1..]);
    }
  }

  // ----- the invariant -----

  ghost predicate Inv(s: State) {
    && s.available >= 0
    && s.available + Count(Holds, s.tasks) == s.maxInFlight
    && s.inFlight == Count(Runs, s.tasks)
    && s.waiters == Count(Queues, s.tasks) + Count(WasCancelled, s.tasks)
    && s.rejectedClosed == Count(EndedIn(RejectedClosed), s.tasks)
    && s.acquireTimeouts == Count(EndedIn(AcquireTimeout), s.tasks)
    && Count(SawSemaphoreClosed, s.tasks) == 0
    && !s.semaphoreClosed
    && (forall c :: 0 <= c < |s.closers| && !s.closers[c].Opening? ==> s.closed)
  }

  lemma InitInv(maxInFlight: nat, connected: bool)
    ensures Inv(Init(maxInFlight, connected))
  {
  }

  /** Replacing task `t` and adjusting the counters by what its columns gain and lose. */
  lemma ReplaceInv(s: State, s': State, t: nat)
    requires Inv(s) && t < |s.tasks| && t < |s'.tasks| && s'.tasks == s.tasks[t := s'.tasks[t]]
    requires var was, next := s.tasks[t], s'.tasks[t];
             && s' == s.(tasks := s'.tasks, available := s'.available, waiters := s'.waiters, inFlight := s'.inFlight,
                         rejectedClosed := s'.rejectedClosed, acquireTimeouts := s'.acquireTimeouts)
             && s'.available >= 0
             && s'.available + Bit(In(Holds, next)) == s.available + Bit(In(Holds, was))
             && s'.inFlight + Bit(In(Runs, was)) == s.inFlight + Bit(In(Runs, next))
             && s'.waiters + Bit(In(Queues, was)) + Bit(In(WasCancelled, was))
                == s.waiters + Bit(In(Queues, next)) + Bit(In(WasCancelled, next))
             && s'.rejectedClosed + Bit(In(EndedIn(RejectedClosed), was))
                == s.rejectedClosed + Bit(In(EndedIn(RejectedClosed), next))
             && s'.acquireTimeouts + Bit(In(EndedIn(AcquireTimeout), was))
                == s.acquireTimeouts + Bit(In(EndedIn(AcquireTimeout), next))
             && !In(SawSemaphoreClosed, next)
    ensures Inv(s')
  {
    var next := s'.tasks[t];
    CountUpdate(Holds, s.tasks, t, next);
    CountUpdate(Runs, s.tasks, t, next);
    CountUpdate(Queues, s.tasks, t, next);
    CountUpdate(WasCancelled, s.tasks, t, next);
    CountUpdate(EndedIn(RejectedClosed), s.tasks, t, next);
    CountUpdate(EndedIn(AcquireTimeout), s.tasks, t, next);
    CountUpdate(SawSemaphoreClosed, s.tasks, t, next);
    CountZero(SawSemaphoreClosed, s.tasks);
  }

  /** Adding a task that holds no permit and adjusting the counters by its columns. */
  lemma AppendInv(s: State, s': State, t: Task)
    requires Inv(s) && s'.tasks == s.tasks + [t]
    requires s' == s.(tasks := s'.tasks, waiters := s'.waiters, rejectedClosed := s'.rejectedClosed,
                      acquireTimeouts := s'.acquireTimeouts)
    requires !In(Holds, t) && !In(SawSemaphoreClosed, t)
    requires s'.waiters == s.waiters + Bit(In(Queues, t)) + Bit(In(WasCancelled, t))
    requires s'.rejectedClosed == s.rejectedClosed + Bit(In(EndedIn(RejectedClosed), t))
    requires s'.acquireTimeouts == s.acquireTimeouts + Bit(In(EndedIn(AcquireTimeout), t))
    ensures Inv(s')
  {
    CountAppend(Holds, s.tasks, t);
    CountAppend(Runs, s.tasks, t);
    CountAppend(Queues, s.tasks, t);
    CountAppend(WasCancelled, s.tasks, t);
    CountAppend(EndedIn(RejectedClosed), s.tasks, t);
    CountAppend(EndedIn(AcquireTimeout), s.tasks, t);
    CountAppend(SawSemaphoreClosed, s.tasks, t);
  }

  lemma ArrivalInv(s: State, t: nat)
    requires Inv(s) && t < |s.tasks|
    requires s.tasks[t].Fresh? || s.tasks[t].Rejecting? || s.tasks[t].OutOfBudget? || s.tasks[t].Arriving?
    ensures Inv(DoAdvance(s, t))
  {
    ReplaceInv(s, DoAdvance(s, t), t);
  }

  lemma LeaveQueueInv(s: State, t: nat)
    requires Inv(s) && t < |s.tasks|
    requires s.tasks[t].Granted? || s.tasks[t].GivingUp? || s.tasks[t].Late?
    ensures Inv(DoAdvance(s, t))
  {
    ReplaceInv(s, DoAdvance(s, t), t);
  }

  lemma PermitInv(s: State, t: nat)
    requires Inv(s) && t < |s.tasks|
    requires s.tasks[t].Checking? || s.tasks[t].Bouncing? || s.tasks[t].Bounced? || s.tasks[t].Admitted?
             || s.tasks[t].Dropping?
    ensures Inv(DoAdvance(s, t))
  {
    ReplaceInv(s, DoAdvance(s, t), t);
  }

  lemma AdvanceInv(s: State, t: nat)
    requires Inv(s) && t < |s.tasks| && CanAdvance(s.tasks[t])
    ensures Inv(DoAdvance(s, t))
  {
    CountZero(SawSemaphoreClosed, s.tasks);
    assert !In(SawSemaphoreClosed, s.tasks[t]);
    match s.tasks[t]
    case Fresh(_) | Rejecting | OutOfBudget | Arriving => ArrivalInv(s, t);
    case Granted | GivingUp | Late => LeaveQueueInv(s, t);
    case _ => PermitInv(s, t);
  }

  lemma WaitInv(s: State, step: Step, t: nat)
    requires Inv(s) && Enabled(s, step) && (step == Grant(t) || step == Expire(t) || step == Cancel(t))
    ensures Inv(Apply(s, step))
  {
    ReplaceInv(s, Apply(s, step), t);
  }

  lemma StepInv(s: State, step: Step)
    requires Inv(s) && Enabled(s, step)
    ensures Inv(Apply(s, step))
  {
    match step
    case Spawn(zero) => AppendInv(s, Apply(s, step), Fresh(zero));
    case Advance(t) => AdvanceInv(s, t);
    case Grant(t) => WaitInv(s, step, t);
    case Expire(t) => WaitInv(s, step, t);
    case Fail(_) =>
    case Cancel(t) => WaitInv(s, step, t);
    case DropPermit(t) => ReplaceInv(s, Apply(s, step), t);
    case SpawnClose =>
    case CloseStep(_) =>
    case CloseTimeout(_) =>
  }

  lemma {:induction false} RunInv(s: State, steps: seq<Step>)
    requires Inv(s) && Run(s, steps)
    ensures Inv(After(s, steps))
    decreases |steps|
  {
    if steps != [] {
      StepInv(s, steps[0]);
      RunInv(Apply(s, steps[0]), steps[1..]);
    }
  }
}
