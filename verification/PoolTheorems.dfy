/** What the pool guarantees in every interleaving. */
module PoolTheorems {
  import opened PoolProtocol

  lemma Reachable(maxInFlight: nat, connected: bool, steps: seq<Step>)
    requires Run(Init(maxInFlight, connected), steps)
    ensures Inv(After(Init(maxInFlight, connected), steps))
    ensures After(Init(maxInFlight, connected), steps).maxInFlight == maxInFlight
  {
    InitInv(maxInFlight, connected);
    RunInv(Init(maxInFlight, connected), steps);
    RunConstants(Init(maxInFlight, connected), steps);
  }

  lemma StepConstants(s: State, step: Step)
    requires Enabled(s, step)
    ensures Apply(s, step).maxInFlight == s.maxInFlight && Apply(s, step).connected == s.connected
    ensures s.closed ==> Apply(s, step).closed
  {
  }

  lemma {:induction false} RunConstants(s: State, steps: seq<Step>)
    requires Run(s, steps)
    ensures After(s, steps).maxInFlight == s.maxInFlight
    decreases |steps|
  {
    if steps != [] {
      StepConstants(s, steps[0]);
      RunConstants(Apply(s, steps[0]), steps[1..]);
    }
  }

  // ----- backpressure -----

  /** Free and held permits add up to the limit, commands in flight never exceed held permits,
      and no counter underflows. */
  ghost predicate PermitsBalance(s: State) {
    && s.available >= 0 && s.available + Count(Holds, s.tasks) == s.maxInFlight
    && 0 <= s.inFlight <= Count(Holds, s.tasks) <= s.maxInFlight
    && s.waiters >= 0
    && (forall t: nat :: Enabled(s, DropPermit(t)) ==> s.inFlight >= 1)
    && (forall t: nat :: t < |s.tasks| && In(Queues, s.tasks[t]) ==> s.waiters >= 1)
  }

  lemma InvBalancesPermits(s: State)
    requires Inv(s)
    ensures PermitsBalance(s)
  {
    CountMonotone(Runs, Holds, s.tasks);
    CountZero(Runs, s.tasks);
    CountZero(Queues, s.tasks);
    forall t: nat | Enabled(s, DropPermit(t)) ensures s.inFlight >= 1 {
      assert In(Runs, s.tasks[t]);
    }
  }

  /** The permits balance in every interleaving, cancellations included. */
  lemma Backpressure(maxInFlight: nat, connected: bool, steps: seq<Step>)
    requires Run(Init(maxInFlight, connected), steps)
    ensures var s := After(Init(maxInFlight, connected), steps);
            s.maxInFlight == maxInFlight && PermitsBalance(s)
  {
    Reachable(maxInFlight, connected, steps);
    InvBalancesPermits(After(Init(maxInFlight, connected), steps));
  }

  // ----- the metrics ledger -----

  lemma {:induction false} ReturnedSplits(tasks: seq<Task>)
    ensures Count(Returned, tasks)
            == Count(WasGranted, tasks) + Count(EndedIn(RejectedClosed), tasks) + Count(EndedIn(AcquireTimeout), tasks)
               + Count(EndedIn(NotConnected), tasks) + Count(EndedIn(SemaphoreClosed), tasks)
  {
    if tasks != [] {
      ReturnedSplits(tasks[1..]);
      OneOutcome(tasks[0]);
    }
  }

  lemma OneOutcome(t: Task)
    ensures Bit(In(Returned, t))
            == Bit(In(WasGranted, t)) + Bit(In(EndedIn(RejectedClosed), t)) + Bit(In(EndedIn(AcquireTimeout), t))
               + Bit(In(EndedIn(NotConnected), t)) + Bit(In(EndedIn(SemaphoreClosed), t))
  {
    if t.Done? {
      match t.outcome
      case RejectedClosed | NotConnected | AcquireTimeout | SemaphoreClosed | Finished =>
    }
  }

  /** Every acquire that returned was granted, or is counted in exactly one of
      `rejected_closed` and `acquire_timeout`, or met an unconnected pool; the branch for a
      closed semaphore is never taken. */
  ghost predicate LedgerBalances(s: State) {
    && Count(Returned, s.tasks)
       == Count(WasGranted, s.tasks) + s.rejectedClosed + s.acquireTimeouts + Count(EndedIn(NotConnected), s.tasks)
    && s.rejectedClosed == Count(EndedIn(RejectedClosed), s.tasks)
    && s.acquireTimeouts == Count(EndedIn(AcquireTimeout), s.tasks)
    && forall t :: 0 <= t < |s.tasks| ==> !s.tasks[t].Failing? && s.tasks[t] != Done(SemaphoreClosed)
  }

  lemma InvBalancesLedger(s: State)
    requires Inv(s)
    ensures LedgerBalances(s)
  {
    ReturnedSplits(s.tasks);
    CountZero(SawSemaphoreClosed, s.tasks);
    CountMonotone(EndedIn(SemaphoreClosed), SawSemaphoreClosed, s.tasks);
    forall t | 0 <= t < |s.tasks| ensures !s.tasks[t].Failing? && s.tasks[t] != Done(SemaphoreClosed) {
      assert !In(SawSemaphoreClosed, s.tasks[t]);
    }
  }

  /** The ledger balances in every interleaving. */
  lemma Ledger(maxInFlight: nat, connected: bool, steps: seq<Step>)
    requires Run(Init(maxInFlight, connected), steps)
    ensures LedgerBalances(After(Init(maxInFlight, connected), steps))
  {
    Reachable(maxInFlight, connected, steps);
    InvBalancesLedger(After(Init(maxInFlight, connected), steps));
  }

  /** `waiters` counts the tasks in the queue plus every task ever cancelled there, so it is
      the number of waiting tasks exactly when none was cancelled; each cancelled task stays
      counted for good. */
  lemma WaitersLeak(maxInFlight: nat, connected: bool, steps: seq<Step>, more: seq<Step>)
    requires Run(Init(maxInFlight, connected), steps)
    requires Run(After(Init(maxInFlight, connected), steps), more)
    ensures var s := After(Init(maxInFlight, connected), steps);
            && s.waiters == Count(Queues, s.tasks) + Count(WasCancelled, s.tasks)
            && (s.waiters == Count(Queues, s.tasks) <==> forall t :: 0 <= t < |s.tasks| ==> !s.tasks[t].Cancelled?)
            && After(s, more).waiters >= Count(WasCancelled, s.tasks)
  {
    var s := After(Init(maxInFlight, connected), steps);
    Reachable(maxInFlight, connected, steps);
    CountZero(WasCancelled, s.tasks);
    assert forall t :: 0 <= t < |s.tasks| ==> In(WasCancelled, s.tasks[t]) == s.tasks[t].Cancelled?;
    RunInv(s, more);
    CancelledForever(s, more);
  }

  /** A call dropped while it waits is never taken out of `waiters` again. */
  lemma CancelledWaiterStays(maxInFlight: nat) returns (steps: seq<Step>)
    ensures Run(Init(maxInFlight, true), steps)
    ensures var s := After(Init(maxInFlight, true), steps);
            s.tasks == [Cancelled] && s.waiters == 1 && Count(Queues, s.tasks) == 0
  {
    var s0 := Init(maxInFlight, true);
    steps := [];
    Snoc(s0, steps, Spawn(false));
    steps := steps + [Spawn(false)];
    Snoc(s0, steps, Advance(0));
    steps := steps + [Advance(0)];
    Snoc(s0, steps, Advance(0));
    steps := steps + [Advance(0)];
    Snoc(s0, steps, Cancel(0));
    steps := steps + [Cancel(0)];
    assert After(s0, steps).tasks == [Cancelled];
  }

  lemma {:induction false} CancelledForever(s: State, steps: seq<Step>)
    requires Run(s, steps)
    ensures Count(WasCancelled, After(s, steps).tasks) >= Count(WasCancelled, s.tasks)
    decreases |steps|
  {
    if steps != [] {
      StepCancelled(s, steps[0]);
      CancelledForever(Apply(s, steps[0]), steps[1..]);
    }
  }

  lemma StepCancelled(s: State, step: Step)
    requires Enabled(s, step)
    ensures Count(WasCancelled, Apply(s, step).tasks) >= Count(WasCancelled, s.tasks)
  {
    var s' := Apply(s, step);
    if step.Spawn? {
      CountAppend(WasCancelled, s.tasks, Fresh(step.zeroBudget));
    } else if IsTaskStep(step) {
      StepMoves(s, step);
      CountUpdate(WasCancelled, s.tasks, step.task, s'.tasks[step.task]);
    }
  }

  predicate IsTaskStep(step: Step) {
    step.Advance? || step.Grant? || step.Expire? || step.Fail? || step.Cancel? || step.DropPermit?
  }

  /** How one step can move a task. */
  predicate Move(closed: bool, a: Task, b: Task) {
    && !a.Cancelled?
    && (b.Admitted? ==> a.Checking? && !closed)
    && (b.Running? <==> a.Admitted?)
    && (a.Running? ==> b.Dropping?)
  }

  predicate Moved(s: State, s': State, t: nat)
    requires t < |s.tasks|
  {
    && t < |s'.tasks| && s'.tasks == s.tasks[t := s'.tasks[t]]
    && Move(s.closed, s.tasks[t], s'.tasks[t])
    && s'.inFlight == s.inFlight + Bit(s'.tasks[t].Running?) - Bit(s.tasks[t].Running?)
    && s'.closed == s.closed
  }

  predicate HoldsNoPermit(t: Task) {
    t.Fresh? || t.Rejecting? || t.OutOfBudget? || t.Arriving? || t.GivingUp? || t.Failing? || t.Late? || t.Bounced?
  }

  lemma OutsiderMoves(s: State, t: nat)
    requires t < |s.tasks| && HoldsNoPermit(s.tasks[t])
    ensures Moved(s, DoAdvance(s, t), t)
  {
  }

  lemma HolderMoves(s: State, t: nat)
    requires t < |s.tasks| && CanAdvance(s.tasks[t]) && !HoldsNoPermit(s.tasks[t])
    ensures Moved(s, DoAdvance(s, t), t)
  {
  }

  lemma AdvanceMoves(s: State, t: nat)
    requires t < |s.tasks| && CanAdvance(s.tasks[t])
    ensures Moved(s, DoAdvance(s, t), t)
  {
    if HoldsNoPermit(s.tasks[t]) {
      OutsiderMoves(s, t);
    } else {
      HolderMoves(s, t);
    }
  }

  lemma StepMoves(s: State, step: Step)
    requires IsTaskStep(step) && Enabled(s, step)
    ensures Moved(s, Apply(s, step), step.task)
  {
    if step.Advance? {
      AdvanceMoves(s, step.task);
    }
  }

  // ----- closing -----

  /** Commands in flight, plus tasks that will be without any further check. */
  ghost function Committed(s: State): int {
    s.inFlight + Count(IsAdmitted, s.tasks)
  }

  predicate Active(t: Task) {
    t.Admitted? || t.Running?
  }

  lemma StepWhileClosed(s: State, step: Step)
    requires s.closed && Enabled(s, step)
    ensures Apply(s, step).closed && Committed(Apply(s, step)) <= Committed(s)
    ensures forall t :: 0 <= t < |Apply(s, step).tasks| && Active(Apply(s, step).tasks[t]) ==>
              t < |s.tasks| && Active(s.tasks[t])
  {
    var s' := Apply(s, step);
    if step.Spawn? {
      CountAppend(IsAdmitted, s.tasks, Fresh(step.zeroBudget));
    } else if IsTaskStep(step) {
      StepMoves(s, step);
      CountUpdate(IsAdmitted, s.tasks, step.task, s'.tasks[step.task]);
    }
  }

  /** Once closed the pool stays closed, the commands in flight and committed never grow,
      and only tasks already past the second check can be running later. */
  lemma {:induction false} ClosedForGood(s: State, steps: seq<Step>)
    requires s.closed && Run(s, steps)
    ensures After(s, steps).closed && Committed(After(s, steps)) <= Committed(s)
    ensures forall t :: 0 <= t < |After(s, steps).tasks| && Active(After(s, steps).tasks[t]) ==>
              t < |s.tasks| && Active(s.tasks[t])
    decreases |steps|
  {
    if steps != [] {
      StepWhileClosed(s, steps[0]);
      ClosedForGood(Apply(s, steps[0]), steps[1..]);
    }
  }

  /** `close` returns `Ok` when it reads zero in flight. From then on the only tasks that can
      still run are the stragglers caught between the second check and the increment. */
  lemma OnlyStragglersRun(s: State, steps: seq<Step>, t: nat)
    requires Inv(s) && s.closed && s.inFlight == 0 && Run(s, steps)
    requires t < |After(s, steps).tasks| && After(s, steps).tasks[t].Running?
    ensures t < |s.tasks| && s.tasks[t].Admitted?
  {
    ClosedForGood(s, steps);
    CountZero(Runs, s.tasks);
    assert !In(Runs, s.tasks[t]);
  }

  /** The drain is final exactly when there was no such straggler at the moment of the read. */
  lemma DrainIsFinalExactly(s: State)
    requires Inv(s) && s.closed && s.inFlight == 0
    ensures (forall steps :: Run(s, steps) ==> After(s, steps).inFlight == 0)
            <==> (forall t :: 0 <= t < |s.tasks| ==> !s.tasks[t].Admitted?)
  {
    if forall t :: 0 <= t < |s.tasks| ==> !s.tasks[t].Admitted? {
      forall steps | Run(s, steps) ensures After(s, steps).inFlight == 0 {
        NoStragglerNoCommand(s, steps);
      }
    } else {
      var t: nat :| t < |s.tasks| && s.tasks[t].Admitted?;
      var steps := StragglerStarts(s, t);
      assert Run(s, steps) && After(s, steps).inFlight != 0;
    }
  }

  lemma StragglerStarts(s: State, t: nat) returns (steps: seq<Step>)
    requires t < |s.tasks| && s.tasks[t].Admitted?
    ensures Run(s, steps) && After(s, steps).inFlight == s.inFlight + 1
  {
    assert Run(s, []) && After(s, []) == s;
    Snoc(s, [], Advance(t));
    steps := [] + [Advance(t)];
  }

  lemma NoStragglerNoCommand(s: State, steps: seq<Step>)
    requires Inv(s) && s.closed && s.inFlight == 0 && Run(s, steps)
    requires forall t :: 0 <= t < |s.tasks| ==> !s.tasks[t].Admitted?
    ensures After(s, steps).inFlight == 0
  {
    var s' := After(s, steps);
    RunInv(s, steps);
    forall t | 0 <= t < |s'.tasks| ensures !In(Runs, s'.tasks[t]) {
      if s'.tasks[t].Running? {
        OnlyStragglersRun(s, steps, t);
      }
    }
    CountZero(Runs, s'.tasks);
  }

  /** The await-free tail of acquire as one step: a task past the second check moves next. */
  ghost predicate TailIsAtomic(s: State, step: Step) {
    forall t :: 0 <= t < |s.tasks| && s.tasks[t].Admitted? ==> step == Advance(t)
  }

  ghost predicate AtomicRun(s: State, steps: seq<Step>)
    ensures AtomicRun(s, steps) ==> Run(s, steps)
    decreases |steps|
  {
    steps == []
    || (Enabled(s, steps[0]) && TailIsAtomic(s, steps[0]) && AtomicRun(Apply(s, steps[0]), steps[1..]))
  }

  /** Closed, with nothing running and nothing about to run. */
  ghost predicate Quiet(s: State) {
    s.closed && s.inFlight == 0 && forall t :: 0 <= t < |s.tasks| ==> !Active(s.tasks[t])
  }

  lemma StepStaysQuiet(s: State, step: Step)
    requires Inv(s) && Quiet(s) && Enabled(s, step)
    ensures Quiet(Apply(s, step))
  {
    var s' := Apply(s, step);
    StepWhileClosed(s, step);
    StepInv(s, step);
    CountZero(Runs, s'.tasks);
    assert forall t :: 0 <= t < |s'.tasks| && !Active(s'.tasks[t]) ==> !In(Runs, s'.tasks[t]);
  }

  /** A closer that returned `Ok` left the pool quiet. */
  ghost predicate DrainsHold(s: State) {
    forall c :: 0 <= c < |s.closers| && s.closers[c].Drained? ==> Quiet(s)
  }

  /** A poll that reads zero in a state without stragglers finds the pool quiet. */
  lemma PollFindsQuiet(s: State, c: nat)
    requires Inv(s) && Enabled(s, CloseStep(c)) && s.closers[c].Polling? && s.inFlight == 0
    requires TailIsAtomic(s, CloseStep(c))
    ensures Quiet(s)
  {
    CountZero(Runs, s.tasks);
    assert forall t :: 0 <= t < |s.tasks| ==> !In(Runs, s.tasks[t]) && !s.tasks[t].Admitted?;
  }

  lemma StepKeepsDrains(s: State, step: Step)
    requires Inv(s) && DrainsHold(s) && Enabled(s, step) && TailIsAtomic(s, step)
    ensures DrainsHold(Apply(s, step))
  {
    if Quiet(s) {
      StepStaysQuiet(s, step);
    } else if step.CloseStep? && s.closers[step.closer].Polling? && s.inFlight == 0 {
      PollFindsQuiet(s, step.closer);
    }
  }

  lemma {:induction false} RunKeepsDrains(s: State, steps: seq<Step>)
    requires Inv(s) && DrainsHold(s) && AtomicRun(s, steps)
    ensures DrainsHold(After(s, steps))
    decreases |steps|
  {
    if steps != [] {
      StepInv(s, steps[0]);
      StepKeepsDrains(s, steps[0]);
      RunKeepsDrains(Apply(s, steps[0]), steps[1..]);
    }
  }

  /** When the await-free tail always runs as one step, `close` keeps its promise in every
      run: once it has returned `Ok` nothing is in flight, then and ever after. */
  lemma AtomicTailDrains(maxInFlight: nat, connected: bool, steps: seq<Step>, c: nat)
    requires AtomicRun(Init(maxInFlight, connected), steps)
    requires var s := After(Init(maxInFlight, connected), steps); c < |s.closers| && s.closers[c].Drained?
    ensures var s := After(Init(maxInFlight, connected), steps); s.closed && s.inFlight == 0
  {
    InitInv(maxInFlight, connected);
    RunKeepsDrains(Init(maxInFlight, connected), steps);
    Reachable(maxInFlight, connected, steps);
  }

  lemma {:induction false} Snoc(s: State, steps: seq<Step>, step: Step)
    requires Run(s, steps) && Enabled(After(s, steps), step)
    ensures Run(s, steps + [step]) && After(s, steps + [step]) == Apply(After(s, steps), step)
    decreases |steps|
  {
    var longer := steps + [step];
    if steps == [] {
      assert longer[1..] == [];
    } else {
      assert longer[1..] == steps[1..] + [step];
      Snoc(Apply(s, steps[0]), steps[1..], step);
    }
  }

  /** One task passes both checks and is about to be counted. */
  lemma OneAdmitted(maxInFlight: nat) returns (steps: seq<Step>)
    requires maxInFlight > 0
    ensures Run(Init(maxInFlight, true), steps)
    ensures After(Init(maxInFlight, true), steps)
            == Init(maxInFlight, true).(available := maxInFlight - 1, tasks := [Admitted])
  {
    var s0 := Init(maxInFlight, true);
    steps := [];
    Snoc(s0, steps, Spawn(false));
    steps := steps + [Spawn(false)];
    Snoc(s0, steps, Advance(0));
    steps := steps + [Advance(0)];
    Snoc(s0, steps, Advance(0));
    steps := steps + [Advance(0)];
    Snoc(s0, steps, Grant(0));
    steps := steps + [Grant(0)];
    Snoc(s0, steps, Advance(0));
    steps := steps + [Advance(0)];
    Snoc(s0, steps, Advance(0));
    steps := steps + [Advance(0)];
  }

  /** The gap is real: in any pool `close` can return `Ok` while a command starts afterwards. */
  lemma CloseMissesAStraggler(maxInFlight: nat) returns (steps: seq<Step>)
    requires maxInFlight > 0
    ensures Run(Init(maxInFlight, true), steps)
    ensures var s := After(Init(maxInFlight, true), steps);
            s.closed && s.closers == [Drained] && s.inFlight == 1 && s.tasks == [Running]
  {
    var s0 := Init(maxInFlight, true);
    steps := OneAdmitted(maxInFlight);
    Snoc(s0, steps, SpawnClose);
    steps := steps + [SpawnClose];
    Snoc(s0, steps, CloseStep(0));
    steps := steps + [CloseStep(0)];
    Snoc(s0, steps, CloseStep(0));
    steps := steps + [CloseStep(0)];
    Snoc(s0, steps, Advance(0));
    steps := steps + [Advance(0)];
  }
}
