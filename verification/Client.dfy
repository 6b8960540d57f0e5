/** The command client: routing by retry safety, the retry loop, and the effect of a whole
    call on the server under failures, lost replies and delayed executions. */
module Client {
  import opened Common
  import opened Words
  import opened Jitter
  import opened Backoff
  import opened Retry
  import opened PoolCall
  import opened Keyspace
  import opened KvCommands

  /** How one sent command fares. Each execution happens at most once, at a server instant
      `at`; a reply that is lost, or arrives after the client gave up, is an error. A delayed
      command is still on its way when the client gives up. */
  datatype Delivery =
    | NotExecuted(error: RedisError)
    | Delayed(error: RedisError)
    | ReplyLost(at: nat, error: RedisError)
    | Answered(at: nat)

  type Change = Db -> Db

  /** What happens at the server besides: anybody else changes it, or a command of this call
      that was delayed is executed at the instant `at`. */
  datatype Action = Foreign(change: Change) | Straggler(at: nat)

  /** The keyspace, and how many commands of the current call are still on their way. */
  datatype Server = Server(db: Db, pending: nat)

  /** One attempt: what it meets in the pool, what happens at the server before its command
      gets there, how the command fares, and the delays around it. */
  datatype Fate = Fate(lane: Lane, before: seq<Action>, delivery: Delivery, gap: Duration, late: Duration)

  type Schedule = nat -> Fate

  datatype Settings = Settings(timeouts: Timeouts, deadline: Option<Duration>, retry: Option<RetryConfig>)
  {
    predicate Valid() {
      retry.Some? ==> retry.value.Valid()
    }
  }

  function Act(cmd: Command, server: Server, action: Action): Server {
    match action
    case Foreign(change) => server.(db := change(server.db))
    case Straggler(at) =>
      if server.pending > 0 && Sendable(cmd) then Server(Execute(server.db, at, cmd).0, server.pending - 1)
      else server
  }

  function ActAll(cmd: Command, server: Server, actions: seq<Action>): Server
    decreases |actions|
  {
    if actions == [] then server else ActAll(cmd, Act(cmd, server, actions[0]), actions[1..])
  }

  /** The server once a sent command has fared as it does. */
  function Received(server: Server, cmd: Command, delivery: Delivery): Server {
    if !Sendable(cmd) then server
    else
      match delivery
      case NotExecuted(_) => server
      case Delayed(_) => server.(pending := server.pending + 1)
      case ReplyLost(at, _) => server.(db := Execute(server.db, at, cmd).0)
      case Answered(at) => server.(db := Execute(server.db, at, cmd).0)
  }

  /** What the driver makes of it. */
  function Answer(db: Db, cmd: Command, delivery: Delivery): Result<Reply> {
    if !Sendable(cmd) then Err(Config)
    else if delivery.Answered? then Execute(db, delivery.at, cmd).1
    else Err(delivery.error)
  }

  /** The server after one attempt, and the attempt's result. */
  function AttemptOnce(s: Settings, server: Server, cmd: Command, fate: Fate): (Server, Result<Reply>) {
    var found := ActAll(cmd, server, fate.before);
    match CallOutcome(s.timeouts, s.deadline, fate.lane)
    case NotStarted(error, _) => (found, Err(error))
    case CutOff(_) => (Received(found, cmd, fate.delivery), Err(Timeout))
    case Finished(_) => (Received(found, cmd, fate.delivery), Answer(found.db, cmd, fate.delivery))
  }

  /** The server after the first `n` attempts. */
  function ServerAfter(s: Settings, server: Server, cmd: Command, fates: Schedule, n: nat): Server {
    if n == 0 then server else AttemptOnce(s, ServerAfter(s, server, cmd, fates, n - 1), cmd, fates(n)).0
  }

  function NthAttempt(s: Settings, server: Server, cmd: Command, fates: Schedule, k: nat): Attempt<Reply> {
    var before := ServerAfter(s, server, cmd, fates, if k == 0 then 0 else k - 1);
    Attempt(AttemptOnce(s, before, cmd, fates(k)).1, CallOutcome(s.timeouts, s.deadline, fates(k).lane).took,
            fates(k).gap, fates(k).late)
  }

  function Attempts(s: Settings, server: Server, cmd: Command, fates: Schedule): Environment<Reply> {
    (k: nat) => NthAttempt(s, server, cmd, fates, k)
  }

  function OperationName(cmd: Command): string {
    match cmd
    case Get(_) => "redis.get"
    case Set(_, _) => "redis.set"
    case SetEx(_, _, _) => "redis.set_ex"
    case Del(_) => "redis.del"
    case Exists(_) => "redis.exists"
    case Incr(_, _) => "redis.incr"
    case Expire(_, _) => "redis.expire"
    case Ttl(_) => "redis.ttl"
    case Mget(_) => "redis.mget"
    case Mset(_) => "redis.mset"
  }

  function AsBytes(s: string): Bytes {
    seq(|s|, i requires 0 <= i < |s| => s[i] as int % 256)
  }

  /** Whether the call enters the retry loop. */
  predicate Retries(s: Settings, cmd: Command) {
    s.retry.Some? && AllowsRetry(Safety(cmd))
  }

  function RoutedTrace(s: Settings, server: Server, cmd: Command, fates: Schedule): Trace<Reply>
    requires s.Valid() && Retries(s, cmd)
  {
    Retried(s.retry.value, AsBytes(OperationName(cmd)), Attempts(s, server, cmd, fates))
  }

  /** How many attempts a routed call makes. */
  function AttemptCount(s: Settings, server: Server, cmd: Command, fates: Schedule): nat
    requires s.Valid()
  {
    if Retries(s, cmd) then |RoutedTrace(s, server, cmd, fates).starts| else 1
  }

  function RoutedResult(s: Settings, server: Server, cmd: Command, fates: Schedule): Result<Reply>
    requires s.Valid()
  {
    if Retries(s, cmd) then RoutedTrace(s, server, cmd, fates).result else NthAttempt(s, server, cmd, fates, 1).result
  }

  function RoutedTime(s: Settings, server: Server, cmd: Command, fates: Schedule): Duration
    requires s.Valid()
  {
    if Retries(s, cmd) then RoutedTrace(s, server, cmd, fates).ended else NthAttempt(s, server, cmd, fates, 1).took
  }

  /** The run `t` ends as its remainder does, from `attempt` attempts made and time `now`. */
  predicate Resumes(t: Trace<Reply>, c: RetryConfig, op: Bytes, env: Environment<Reply>, attempt: U32, now: Duration)
    requires c.Valid() && attempt < c.maxAttempts
  {
    var rest := RetryFrom(c, op, env, attempt, now);
    t.result == rest.result && t.ended == rest.ended && |t.starts| == attempt + |rest.starts|
  }

  lemma ResumeStep(t: Trace<Reply>, c: RetryConfig, op: Bytes, env: Environment<Reply>, attempt: U32, now: Duration)
    requires c.Valid() && attempt < c.maxAttempts && Resumes(t, c, op, env, attempt, now)
    ensures match Decide(c, op, attempt + 1, env(attempt + 1), now)
            case Stop(result, ended, _) => t.result == result && t.ended == ended && |t.starts| == attempt + 1
            case Again(_, next) => attempt + 1 < c.maxAttempts && Resumes(t, c, op, env, attempt + 1, next)
  {
  }

  class RedisClient {
    const settings: Settings
    var server: Server
    var clock: Duration

    constructor (settings: Settings, db: Db)
      requires settings.Valid()
      ensures this.settings == settings && server == Server(db, 0) && clock == 0.0
    {
      this.settings := settings;
      this.server := Server(db, 0);
      this.clock := 0.0;
    }

    /** One attempt through the pool. */
    method Once(cmd: Command, fate: Fate) returns (r: Result<Reply>)
      modifies this
      ensures (server, r) == AttemptOnce(settings, old(server), cmd, fate)
      ensures clock == old(clock) + CallOutcome(settings.timeouts, settings.deadline, fate.lane).took
    {
      var reached := CallOutcome(settings.timeouts, settings.deadline, fate.lane);
      clock := clock + reached.took;
      server := ActAll(cmd, server, fate.before);
      if reached.NotStarted? {
        return Err(reached.error);
      }
      r := Answer(server.db, cmd, fate.delivery);
      server := Received(server, cmd, fate.delivery);
      if reached.CutOff? {
        r := Err(Timeout);
      }
    }

    /** The wait after a failed attempt, before the deadline clips it. */
    static method PlannedBackoff(c: RetryConfig, op: Bytes, attempt: U32) returns (backoff: Duration)
      requires c.Valid()
      ensures backoff == Planned(c, op, attempt)
    {
      backoff := BackoffFor(c, attempt);
      if c.jitter {
        var seed := JitterSeed(attempt, op);
        backoff := Jittered(backoff, seed);
      }
    }

    /** What the loop does with an attempt's result: return it, or sleep before the next. */
    method AfterAttempt(c: RetryConfig, op: Bytes, attempt: U32, r: Result<Reply>, fate: Fate, start: Duration,
                        ghost began: Duration, ghost took: Duration)
      returns (returned: Option<Result<Reply>>)
      requires c.Valid() && 1 <= attempt <= c.maxAttempts && clock == start + began + took
      modifies this`clock
      ensures var v := Decide(c, op, attempt, Attempt(r, took, fate.gap, fate.late), began);
              && (returned.Some? <==> v.Stop?)
              && (returned.Some? ==> returned.value == v.result && clock == start + v.ended)
              && (returned.None? ==> clock == start + v.next)
    {
      if r.Ok? || !r.error.IsRetryable() {
        return Some(r);
      }
      if !ShouldContinue(c, attempt, clock - start) {
        return Some(r);
      }
      clock := clock + fate.gap;
      var backoff := PlannedBackoff(c, op, attempt);
      if c.deadline.Some? {
        var remaining := SaturatingSub(c.deadline.value, clock - start);
        if remaining == 0.0 {
          return Some(Err(Timeout));
        }
        backoff := Min(backoff, remaining);
      }
      clock := clock + backoff + fate.late;
      returned := None;
    }

    /** `with_retry`: the loop performs exactly the attempts of the specified run. */
    method WithRetry(c: RetryConfig, cmd: Command, fates: Schedule) returns (r: Result<Reply>)
      requires c.Valid()
      modifies this
      ensures var t := Retried(c, AsBytes(OperationName(cmd)), Attempts(settings, old(server), cmd, fates));
              && r == t.result
              && server == ServerAfter(settings, old(server), cmd, fates, |t.starts|)
              && clock == old(clock) + t.ended
    {
      hide AttemptOnce, RetryFrom, Decide;
      var start := clock;
      var attempt: U32 := 0;
      var op := AsBytes(OperationName(cmd));
      ghost var env := Attempts(settings, server, cmd, fates);
      ghost var t := Retried(c, op, env);
      ghost var elapsed: Duration := 0.0;
      while true
        invariant attempt < c.maxAttempts && clock == start + elapsed
        invariant server == ServerAfter(settings, old(server), cmd, fates, attempt)
        invariant Resumes(t, c, op, env, attempt, elapsed)
        decreases c.maxAttempts - attempt
      {
        ghost var a := NthAttempt(settings, old(server), cmd, fates, attempt + 1);
        ResumeStep(t, c, op, env, attempt, elapsed);
        attempt := attempt + 1;
        r := Once(cmd, fates(attempt));
        ghost var v := Decide(c, op, attempt, a, elapsed);
        var returned := AfterAttempt(c, op, attempt, r, fates(attempt), start, elapsed, a.took);
        if returned.Some? {
          return returned.value;
        }
        elapsed := v.next;
      }
    }

    /** `route_with_safety`. */
    method Route(cmd: Command, fates: Schedule) returns (r: Result<Reply>)
      requires settings.Valid()
      modifies this
      ensures server == ServerAfter(settings, old(server), cmd, fates,
                                    AttemptCount(settings, old(server), cmd, fates))
      ensures r == RoutedResult(settings, old(server), cmd, fates)
      ensures clock == old(clock) + RoutedTime(settings, old(server), cmd, fates)
    {
      if settings.retry.Some? && AllowsRetry(Safety(cmd)) {
        r := WithRetry(settings.retry.value, cmd, fates);
      } else {
        r := Once(cmd, fates(1));
        assert ServerAfter(settings, old(server), cmd, fates, 0) == old(server);
      }
    }

    /** The public command methods. Whatever fails, is lost or delayed, and whatever everybody
        else does to the server before, between and after, a call adds at most one application
        of its command to it and a retried call none; its answer is that of its only attempt,
        or of the first decisive one. What is left on its way of an earlier call is among the
        things that happen besides. */
    method Call(cmd: Command, fates: Schedule) returns (r: Result<Reply>)
      requires settings.Valid()
      modifies this
      ensures cmd == Mget([]) || cmd == Mset([]) ==> r.Ok? && server == old(server) && clock == old(clock)
      ensures cmd != Mget([]) && cmd != Mset([]) ==>
                var initial := Server(old(server.db), 0);
                var n := AttemptCount(settings, initial, cmd, fates);
                && clock == old(clock) + RoutedTime(settings, initial, cmd, fates)
                && (forall afterwards ::
                      Effect(Changes(Seen(fates, n) + afterwards), initial.db, ActAll(cmd, server, afterwards).db, cmd,
                             Retries(settings, cmd)))
                && RightAnswer(settings, initial.db, cmd, fates, n, r, clock - old(clock))
                && (!Retries(settings, cmd) ==>
                      server == LeftBehind(settings, cmd, fates(1), SeenDb(initial.db, fates, 1)))
    {
      if cmd == Mget([]) {
        return Ok(Many([]));
      }
      if cmd == Mset([]) {
        return Ok(Stored);
      }
      ghost var initial := Server(server.db, 0);
      ghost var n := AttemptCount(settings, initial, cmd, fates);
      ghost var left := ServerAfter(settings, initial, cmd, fates, n);
      forall afterwards: seq<Action>
        ensures Effect(Changes(Seen(fates, n) + afterwards), initial.db, ActAll(cmd, left, afterwards).db, cmd,
                       Retries(settings, cmd))
      {
        AtMostOnceEffect(settings, initial.db, cmd, fates, afterwards);
      }
      CallAnswers(settings, initial.db, cmd, fates);
      if !Retries(settings, cmd) {
        SingleCallLeaves(settings, initial.db, cmd, fates);
      }
      server := server.(pending := 0);
      r := Route(cmd, fates);
    }
  }

  // ----- what a whole call does to the server -----

  /** What everybody else does among `actions`. */
  function Changes(actions: seq<Action>): seq<Change> {
    if actions == [] then []
    else if actions[0].Foreign? then [actions[0].change] + Changes(actions[1..])
    else Changes(actions[1..])
  }

  /** What happens besides in the course of `n` attempts. */
  function Seen(fates: Schedule, n: nat): seq<Action> {
    if n == 0 then [] else Seen(fates, n - 1) + fates(n).before
  }

  function Fold(db: Db, changes: seq<Change>): Db
    decreases |changes|
  {
    if changes == [] then db else Fold(changes[0](db), changes[1..])
  }

  /** `after` is `before` with all changes in order, and one application of the command
      somewhere among them. */
  ghost predicate AddsOne(changes: seq<Change>, before: Db, after: Db, cmd: Command) {
    Sendable(cmd) && exists k: nat, at: nat :: AddedAt(changes, before, after, cmd, k, at)
  }

  ghost predicate AddedAt(changes: seq<Change>, before: Db, after: Db, cmd: Command, k: nat, at: nat)
    requires Sendable(cmd)
  {
    k <= |changes| && after == Fold(Execute(Fold(before, changes[..k]), at, cmd).0, changes[k..])
  }

  /** What a call may do: the changes of everybody else alone, or with one application of its
      command; a retried call only the former. */
  ghost predicate Effect(changes: seq<Change>, before: Db, after: Db, cmd: Command, retried: bool) {
    after == Fold(before, changes) || (!retried && AddsOne(changes, before, after, cmd))
  }

  lemma {:induction false} FoldConcat(db: Db, first: seq<Change>, rest: seq<Change>)
    ensures Fold(db, first + rest) == Fold(Fold(db, first), rest)
    decreases |first|
  {
    if first == [] {
      assert first + rest == rest;
    } else {
      assert (first + rest)[1..] == first[1..] + rest;
      FoldConcat(first[0](db), first[1..], rest);
    }
  }

  lemma {:induction false} ChangesConcat(first: seq<Action>, rest: seq<Action>)
    ensures Changes(first + rest) == Changes(first) + Changes(rest)
    decreases |first|
  {
    if first == [] {
      assert first + rest == rest;
    } else {
      assert (first + rest)[0] == first[0] && (first + rest)[1..] == first[1..] + rest;
      ChangesConcat(first[1..], rest);
      if first[0].Foreign? {
        assert [first[0].change] + Changes(first[1..]) + Changes(rest)
            == [first[0].change] + (Changes(first[1..]) + Changes(rest));
      }
    }
  }

  lemma FoldCons(db: Db, change: Change, rest: seq<Change>)
    ensures Fold(db, [change] + rest) == Fold(change(db), rest)
  {
    assert ([change] + rest)[1..] == rest;
  }

  /** One action more at the front. */
  lemma ActFirst(cmd: Command, server: Server, actions: seq<Action>)
    requires actions != []
    ensures var a, rest := actions[0], Changes(actions[1..]);
            && ActAll(cmd, server, actions) == ActAll(cmd, Act(cmd, server, a), actions[1..])
            && Changes(actions) == (if a.Foreign? then [a.change] + rest else rest)
            && Fold(server.db, Changes(actions)) == Fold(if a.Foreign? then a.change(server.db) else server.db, rest)
  {
    if actions[0].Foreign? {
      FoldCons(server.db, actions[0].change, Changes(actions[1..]));
    }
  }

  /** Without a command on its way only the changes of others happen. */
  lemma {:induction false} NothingPending(cmd: Command, server: Server, actions: seq<Action>)
    requires server.pending == 0
    ensures ActAll(cmd, server, actions) == Server(Fold(server.db, Changes(actions)), 0)
    decreases |actions|
  {
    if actions != [] {
      ActFirst(cmd, server, actions);
      NothingPending(cmd, Act(cmd, server, actions[0]), actions[1..]);
    }
  }

  /** Commands that never write may be executed any number of times. */
  lemma {:induction false} ReadsPending(cmd: Command, server: Server, actions: seq<Action>)
    requires AllowsRetry(Safety(cmd))
    ensures ActAll(cmd, server, actions).db == Fold(server.db, Changes(actions))
    decreases |actions|
  {
    if actions != [] {
      ActFirst(cmd, server, actions);
      ReadsPending(cmd, Act(cmd, server, actions[0]), actions[1..]);
    }
  }

  lemma AddedLater(first: seq<Change>, rest: seq<Change>, before: Db, after: Db, cmd: Command)
    requires AddsOne(rest, Fold(before, first), after, cmd)
    ensures AddsOne(first + rest, before, after, cmd)
  {
    var k: nat, at: nat :| AddedAt(rest, Fold(before, first), after, cmd, k, at);
    var all := first + rest;
    assert all[..|first| + k] == first + rest[..k] && all[|first| + k..] == rest[k..];
    FoldConcat(before, first, rest[..k]);
    assert AddedAt(all, before, after, cmd, |first| + k, at);
  }

  /** One command on its way is executed once more at most. */
  lemma {:induction false} OnePending(cmd: Command, server: Server, actions: seq<Action>)
    requires server.pending <= 1
    ensures Effect(Changes(actions), server.db, ActAll(cmd, server, actions).db, cmd, false)
    decreases |actions|
  {
    if actions != [] {
      ActFirst(cmd, server, actions);
      var action, rest := actions[0], actions[1..];
      var next := Act(cmd, server, action);
      var after := ActAll(cmd, server, actions).db;
      if action.Foreign? {
        OnePending(cmd, next, rest);
        if AddsOne(Changes(rest), next.db, after, cmd) {
          assert Fold(server.db, [action.change]) == next.db;
          AddedLater([action.change], Changes(rest), server.db, after, cmd);
        }
      } else if next == server {
        OnePending(cmd, server, rest);
      } else {
        NothingPending(cmd, next, rest);
        assert AddedAt(Changes(rest), server.db, after, cmd, 0, action.at);
      }
    }
  }

  lemma {:induction false} ReadsLeaveNoTrace(s: Settings, server: Server, cmd: Command, fates: Schedule, n: nat)
    requires AllowsRetry(Safety(cmd))
    ensures ServerAfter(s, server, cmd, fates, n).db == Fold(server.db, Changes(Seen(fates, n)))
  {
    if n > 0 {
      var before := ServerAfter(s, server, cmd, fates, n - 1);
      ReadsLeaveNoTrace(s, server, cmd, fates, n - 1);
      ReadsPending(cmd, before, fates(n).before);
      ChangesConcat(Seen(fates, n - 1), fates(n).before);
      FoldConcat(server.db, Changes(Seen(fates, n - 1)), Changes(fates(n).before));
    }
  }

  /** Either the one attempt left at most one command on its way, or it had it executed. */
  lemma AttemptLeaves(s: Settings, db: Db, cmd: Command, fate: Fate)
    ensures var left, others := AttemptOnce(s, Server(db, 0), cmd, fate).0, Fold(db, Changes(fate.before));
            || (left.db == others && left.pending <= 1)
            || (Sendable(cmd) && left.pending == 0 && exists at: nat :: left.db == Execute(others, at, cmd).0)
  {
    hide Execute, CallOutcome, Fold;
    NothingPending(cmd, Server(db, 0), fate.before);
  }

  /** A single attempt, and whatever happens after it. */
  lemma OneAttempt(s: Settings, db: Db, cmd: Command, fate: Fate, afterwards: seq<Action>)
    ensures Effect(Changes(fate.before + afterwards), db,
                   ActAll(cmd, AttemptOnce(s, Server(db, 0), cmd, fate).0, afterwards).db, cmd, false)
  {
    hide AttemptOnce, ActAll, Changes, Fold, Execute;
    var first, rest := Changes(fate.before), Changes(afterwards);
    var left := AttemptOnce(s, Server(db, 0), cmd, fate).0;
    var after := ActAll(cmd, left, afterwards).db;
    ChangesConcat(fate.before, afterwards);
    FoldConcat(db, first, rest);
    AttemptLeaves(s, db, cmd, fate);
    if left.db == Fold(db, first) && left.pending <= 1 {
      OnePending(cmd, left, afterwards);
      if AddsOne(rest, left.db, after, cmd) {
        AddedLater(first, rest, db, after, cmd);
      }
    } else {
      var at: nat :| left.db == Execute(Fold(db, first), at, cmd).0;
      NothingPending(cmd, left, afterwards);
      assert (first + rest)[..|first|] == first && (first + rest)[|first|..] == rest;
      assert AddedAt(first + rest, db, after, cmd, |first|, at);
    }
  }

  /** At-most-once effect: for every command, retry configuration, schedule of failures and
      delays, and interference before, during and after the call, the server goes through the
      changes of everybody else with at most one application of the command among them; for a
      retried command there is none. */
  lemma AtMostOnceEffect(s: Settings, db: Db, cmd: Command, fates: Schedule, afterwards: seq<Action>)
    requires s.Valid()
    ensures var n := AttemptCount(s, Server(db, 0), cmd, fates);
            Effect(Changes(Seen(fates, n) + afterwards), db,
                   ActAll(cmd, ServerAfter(s, Server(db, 0), cmd, fates, n), afterwards).db, cmd, Retries(s, cmd))
  {
    var n := AttemptCount(s, Server(db, 0), cmd, fates);
    if Retries(s, cmd) {
      ReadsLeaveNoTrace(s, Server(db, 0), cmd, fates, n);
      ReadsPending(cmd, ServerAfter(s, Server(db, 0), cmd, fates, n), afterwards);
      ChangesConcat(Seen(fates, n), afterwards);
      FoldConcat(db, Changes(Seen(fates, n)), Changes(afterwards));
    } else {
      OneAttempt(s, db, cmd, fates(1), afterwards);
      assert ServerAfter(s, Server(db, 0), cmd, fates, 0) == Server(db, 0);
      assert Seen(fates, 0) == [];
      assert Seen(fates, 1) == fates(1).before;
    }
  }

  // ----- what a whole call answers -----

  /** The server as everybody else has left it by the time attempt `k` gets there. */
  function SeenDb(db: Db, fates: Schedule, k: nat): Db {
    Fold(db, Changes(Seen(fates, k)))
  }

  /** What an attempt that finds the keyspace `found` answers: why it did not start, a timeout
      if it was cut off, and otherwise the reply or the driver's error. */
  function AnswerOf(s: Settings, cmd: Command, fate: Fate, found: Db): Result<Reply> {
    var reached := CallOutcome(s.timeouts, s.deadline, fate.lane);
    if reached.NotStarted? then Err(reached.error)
    else if reached.CutOff? then Err(Timeout)
    else if !Sendable(cmd) then Err(Config)
    else if fate.delivery.Answered? then Execute(found, fate.delivery.at, cmd).1
    else Err(fate.delivery.error)
  }

  /** What it leaves at the server: the command applied once if it was executed within the
      attempt, or one command still on its way if it was delayed. */
  function LeftBehind(s: Settings, cmd: Command, fate: Fate, found: Db): Server {
    if CallOutcome(s.timeouts, s.deadline, fate.lane).NotStarted? || !Sendable(cmd) || fate.delivery.NotExecuted?
    then Server(found, 0)
    else if fate.delivery.Delayed? then Server(found, 1)
    else Server(Execute(found, fate.delivery.at, cmd).0, 0)
  }

  /** A delayed command does get executed when its time comes. */
  lemma StragglerIsExecuted(cmd: Command, server: Server, at: nat, change: Change)
    requires server.pending >= 1 && Sendable(cmd)
    ensures ActAll(cmd, server, [Straggler(at)]) == Server(Execute(server.db, at, cmd).0, server.pending - 1)
    ensures ActAll(cmd, server, [Foreign(change)]) == Server(change(server.db), server.pending)
    ensures Fold(server.db, Changes([Foreign(change)])) == change(server.db)
  {
    assert Changes([Foreign(change)]) == [change];
  }

  predicate IsRead(cmd: Command) {
    cmd.Get? || cmd.Exists? || cmd.Ttl? || cmd.Mget?
  }

  /** What a call may answer after `n` attempts and a time of `took`: without retries the answer
      of its one attempt. A read with a retry configuration goes on while attempts fail
      retryably; it answers with its last attempt, or with a timeout of its own at the
      deadline, and a retryable error only when attempts or deadline have run out. */
  ghost predicate RightAnswer(
      s: Settings, db: Db, cmd: Command, fates: Schedule, n: nat, r: Result<Reply>, took: Duration)
  {
    var last := AnswerOf(s, cmd, fates(n), SeenDb(db, fates, n));
    if s.retry.Some? && IsRead(cmd) then
      var c := s.retry.value;
      && 1 <= n <= c.maxAttempts
      && (forall k :: 1 <= k < n ==> Retryable(AnswerOf(s, cmd, fates(k), SeenDb(db, fates, k))))
      && (r == last || (c.deadline.Some? && Retryable(last) && r == Err(Timeout)))
      && (Retryable(r) && n < c.maxAttempts ==> c.deadline.Some? && c.deadline.value <= took)
    else
      n == 1 && r == last && took == CallOutcome(s.timeouts, s.deadline, fates(1).lane).took
  }

  lemma NthAnswer(s: Settings, db: Db, cmd: Command, fates: Schedule, k: nat)
    requires k == 1 || (k > 1 && AllowsRetry(Safety(cmd)))
    ensures NthAttempt(s, Server(db, 0), cmd, fates, k)
            == Attempt(AnswerOf(s, cmd, fates(k), SeenDb(db, fates, k)),
                       CallOutcome(s.timeouts, s.deadline, fates(k).lane).took, fates(k).gap, fates(k).late)
  {
    var server := Server(db, 0);
    var before := ServerAfter(s, server, cmd, fates, k - 1);
    ChangesConcat(Seen(fates, k - 1), fates(k).before);
    FoldConcat(db, Changes(Seen(fates, k - 1)), Changes(fates(k).before));
    if k == 1 {
      assert before == server && Seen(fates, 0) == [];
      NothingPending(cmd, before, fates(k).before);
    } else {
      ReadsLeaveNoTrace(s, server, cmd, fates, k - 1);
      ReadsPending(cmd, before, fates(k).before);
    }
    FoundAnswers(s, before, cmd, fates(k));
  }

  lemma FoundAnswers(s: Settings, server: Server, cmd: Command, fate: Fate)
    ensures AttemptOnce(s, server, cmd, fate).1 == AnswerOf(s, cmd, fate, ActAll(cmd, server, fate.before).db)
  {
  }

  lemma SingleCallLeaves(s: Settings, db: Db, cmd: Command, fates: Schedule)
    ensures ServerAfter(s, Server(db, 0), cmd, fates, 1) == LeftBehind(s, cmd, fates(1), SeenDb(db, fates, 1))
  {
    assert ServerAfter(s, Server(db, 0), cmd, fates, 0) == Server(db, 0);
    assert Seen(fates, 0) == [] && Seen(fates, 1) == fates(1).before;
    NothingPending(cmd, Server(db, 0), fates(1).before);
    hide AttemptOnce, LeftBehind, Execute, Fold;
    FoundLeaves(s, Server(db, 0), cmd, fates(1));
  }

  lemma FoundLeaves(s: Settings, server: Server, cmd: Command, fate: Fate)
    requires ActAll(cmd, server, fate.before).pending == 0
    ensures AttemptOnce(s, server, cmd, fate).0 == LeftBehind(s, cmd, fate, ActAll(cmd, server, fate.before).db)
  {
    hide Execute, ActAll, CallOutcome;
  }

  /** Every call answers rightly. */
  lemma CallAnswers(s: Settings, db: Db, cmd: Command, fates: Schedule)
    requires s.Valid()
    ensures var server := Server(db, 0);
            RightAnswer(s, db, cmd, fates, AttemptCount(s, server, cmd, fates), RoutedResult(s, server, cmd, fates),
                        RoutedTime(s, server, cmd, fates))
  {
    hide AnswerOf, NthAttempt, SeenDb;
    var server := Server(db, 0);
    var n := AttemptCount(s, server, cmd, fates);
    if Retries(s, cmd) {
      var c, op, env := s.retry.value, AsBytes(OperationName(cmd)), Attempts(s, server, cmd, fates);
      RetryTrace(c, op, env);
      OwnTimeoutExactly(c, op, env, 0, 0.0);
      forall k | 1 <= k <= n ensures env(k).result == AnswerOf(s, cmd, fates(k), SeenDb(db, fates, k)) {
        NthAnswer(s, db, cmd, fates, k);
      }
    } else {
      NthAnswer(s, db, cmd, fates, 1);
    }
  }

  /** A read retried without a deadline answers with its first decisive attempt, or with the
      last one allowed. */
  lemma FirstDecisiveAnswer(s: Settings, db: Db, cmd: Command, fates: Schedule, n: nat)
    requires s.Valid() && s.retry.Some? && IsRead(cmd)
    requires s.retry.value.deadline.None? && 1 <= n <= s.retry.value.maxAttempts
    requires forall k :: 1 <= k < n ==> Retryable(AnswerOf(s, cmd, fates(k), SeenDb(db, fates, k)))
    requires n == s.retry.value.maxAttempts || !Retryable(AnswerOf(s, cmd, fates(n), SeenDb(db, fates, n)))
    ensures AttemptCount(s, Server(db, 0), cmd, fates) == n
    ensures RoutedResult(s, Server(db, 0), cmd, fates) == AnswerOf(s, cmd, fates(n), SeenDb(db, fates, n))
  {
    hide AnswerOf, NthAttempt, SeenDb;
    var env := Attempts(s, Server(db, 0), cmd, fates);
    forall k | 1 <= k <= n ensures env(k).result == AnswerOf(s, cmd, fates(k), SeenDb(db, fates, k)) {
      NthAnswer(s, db, cmd, fates, k);
    }
    StopsAt(s.retry.value, AsBytes(OperationName(cmd)), env, n);
  }

  /** An attempt succeeds exactly if the pool is open and connected throughout, permit and
      command come in time, the command may be sent, it is answered, and the server's reply
      is not an error. */
  lemma SucceedsExactly(s: Settings, cmd: Command, fate: Fate, found: Db)
    ensures var l, t := fate.lane, s.timeouts;
            AnswerOf(s, cmd, fate, found).Ok? <==>
              && !l.closedBefore && l.connected && !l.closedAfter && 0.0 < t.acquire && 0.0 < t.command
              && l.grantAfter.Some? && l.grantAfter.value <= t.acquire && l.work.Some? && l.work.value <= t.command
              && (s.deadline.Some? ==>
                    l.grantAfter.value < s.deadline.value && l.grantAfter.value + l.work.value <= s.deadline.value)
              && Sendable(cmd) && fate.delivery.Answered? && Execute(found, fate.delivery.at, cmd).1.Ok?
  {
    hide CallOutcome;
    CallFinishesExactly(s.timeouts, s.deadline, fate.lane);
  }

  /** A success means the command was executed and answered by the last attempt: the reply is
      that of the state everybody else had brought about by then. */
  lemma SuccessIsAnAnswer(s: Settings, db: Db, cmd: Command, fates: Schedule)
    requires s.Valid() && RoutedResult(s, Server(db, 0), cmd, fates).Ok?
    ensures var n := AttemptCount(s, Server(db, 0), cmd, fates);
            && Sendable(cmd) && fates(n).delivery.Answered?
            && RoutedResult(s, Server(db, 0), cmd, fates)
               == Execute(Fold(db, Changes(Seen(fates, n))), fates(n).delivery.at, cmd).1
  {
    hide CallOutcome, Execute;
    CallAnswers(s, db, cmd, fates);
  }

  // ----- how long a whole call takes -----

  /** With exact timers a retried call ends by the retry deadline plus one call, and by one
      call per attempt plus one full backoff per retry; any other takes at most one call. */
  lemma EndToEndTime(s: Settings, server: Server, cmd: Command, fates: Schedule)
    requires s.Valid()
    requires forall k :: fates(k).gap == 0.0 && fates(k).late == 0.0
    ensures var limit := CallLimit(s.timeouts, s.deadline);
            var ended := RoutedTime(s, server, cmd, fates);
            if Retries(s, cmd) then
              var c := s.retry.value;
              && (c.deadline.Some? ==> ended <= c.deadline.value + limit)
              && ended <= Times(c.maxAttempts, limit) + Times(c.maxAttempts - 1, c.maxBackoff)
            else ended <= limit
  {
    hide AttemptOnce, CallOutcome, RetryFrom;
    var env, limit := Attempts(s, server, cmd, fates), CallLimit(s.timeouts, s.deadline);
    AttemptsExact(s, server, cmd, fates);
    if Retries(s, cmd) {
      var c := s.retry.value;
      if c.deadline.Some? {
        DeadlineBound(c, AsBytes(OperationName(cmd)), env, 0, 0.0, limit);
      }
      AttemptsBound(c, AsBytes(OperationName(cmd)), env, 0, 0.0, limit);
    } else {
      assert RoutedTime(s, server, cmd, fates) == env(1).took;
    }
  }

  lemma AttemptsExact(s: Settings, server: Server, cmd: Command, fates: Schedule)
    requires forall k :: fates(k).gap == 0.0 && fates(k).late == 0.0
    ensures Exact(Attempts(s, server, cmd, fates), CallLimit(s.timeouts, s.deadline))
  {
    var env, limit := Attempts(s, server, cmd, fates), CallLimit(s.timeouts, s.deadline);
    forall k: nat ensures env(k).gap == 0.0 && env(k).late == 0.0 && env(k).took <= limit {
      CallWithinLimit(s.timeouts, s.deadline, fates(k).lane);
    }
  }
}
