/** The client's lock calls, command by command, against a world in which anybody else may
    act before and between the commands. The world records the steps taken, so that every
    theorem about the runs of the lock protocol holds of it. */
module LockClient {
  import opened Common
  import opened Keyspace
  import opened LockProtocol
  import T = LockTheorems
  import Tokens
  import Words

  datatype RedisLock = RedisLock(key: string, token: string, fence: nat)

  /** How one command fares: answered, failed before it executed, or executed with the
      reply lost (a client timeout is either of the last two). */
  datatype Delivery = Answered | NotExecuted(error: RedisError) | ReplyLost(error: RedisError)

  /** Steps that belong to the call that owns acquisition `id`. */
  predicate Own(step: Step, id: nat) {
    match step
    case ExecSet(i) => i == id
    case DeliverSet(i) => i == id
    case ExecIncr(i) => i == id
    case DeliverIncr(i) => i == id
    case _ => false
  }

  /** Everybody else acts: the enabled steps among `steps`, in order. */
  function Others(s: State, steps: seq<Step>, id: nat): (s': State)
    ensures |s.acqs| <= |s'.acqs| && s'.names == s.names
    decreases |steps|
  {
    if steps == [] then s
    else if !Own(steps[0], id) && Enabled(s, steps[0]) then Others(Apply(s, steps[0]), steps[1..], id)
    else Others(s, steps[1..], id)
  }

  /** Others cannot touch an acquisition whose caller has no lock object yet. */
  lemma {:induction false} OthersKeep(s: State, steps: seq<Step>, id: nat)
    requires Inv(s) && id < |s.acqs| && !s.acqs[id].phase.Returned?
    ensures var s' := Others(s, steps, id);
            Inv(s') && id < |s'.acqs| && s'.acqs[id] == s.acqs[id] && s'.now >= s.now
    decreases |steps|
  {
    if steps != [] {
      if !Own(steps[0], id) && Enabled(s, steps[0]) {
        StepInv(s, steps[0]);
        OthersStep(s, steps[0], id);
        OthersKeep(Apply(s, steps[0]), steps[1..], id);
      } else {
        OthersKeep(s, steps[1..], id);
      }
    }
  }

  lemma OthersStep(s: State, step: Step, id: nat)
    requires Inv(s) && Enabled(s, step) && !Own(step, id) && id < |s.acqs| && !s.acqs[id].phase.Returned?
    ensures var s' := Apply(s, step); id < |s'.acqs| && s'.acqs[id] == s.acqs[id] && s'.now >= s.now
  {
    if step.Exec? {
      assert RequestOk(s, step.request);
    }
  }

  /** What everybody else does is a run of the protocol. */
  lemma {:induction false} OthersAreRun(s: State, others: seq<Step>, id: nat) returns (steps: seq<Step>)
    ensures Run(s, steps) && After(s, steps) == Others(s, others, id)
    decreases |others|
  {
    steps := [];
    if others != [] {
      if !Own(others[0], id) && Enabled(s, others[0]) {
        var rest := OthersAreRun(Apply(s, others[0]), others[1..], id);
        steps := [others[0]] + rest;
        assert steps[1..] == rest;
      } else {
        steps := OthersAreRun(s, others[1..], id);
      }
    }
  }

  /** And every run of their steps is something they may do. */
  lemma {:induction false} OthersMayDoAnything(s: State, steps: seq<Step>, id: nat)
    requires Run(s, steps) && forall n :: 0 <= n < |steps| ==> !Own(steps[n], id)
    ensures Others(s, steps, id) == After(s, steps)
    decreases |steps|
  {
    if steps != [] {
      assert forall n :: 0 <= n < |steps| - 1 ==> steps[1..][n] == steps[n + 1];
      OthersMayDoAnything(Apply(s, steps[0]), steps[1..], id);
    }
  }

  lemma {:induction false} RunConcat(s: State, first: seq<Step>, rest: seq<Step>)
    requires Run(s, first) && Run(After(s, first), rest)
    ensures Run(s, first + rest) && After(s, first + rest) == After(After(s, first), rest)
    decreases |first|
  {
    var all := first + rest;
    if first == [] {
      assert all == rest;
    } else {
      assert all[1..] == first[1..] + rest;
      RunConcat(Apply(s, first[0]), first[1..], rest);
    }
  }

  /** The state in which the SET of a new acquisition executes: `before` is what everybody
      else does while it is on its way. */
  function Sent(s: State, key: string, token: string, millis: nat, before: seq<Step>): (s': State)
    requires Enabled(s, Begin(key, token, millis))
    ensures |s.acqs| < |s'.acqs|
  {
    Others(Apply(s, Begin(key, token, millis)), before, |s.acqs|)
  }

  /** The state in which the INCR of that acquisition executes: its SET has been executed, and
      `between` is what everybody else does until the reply arrives. */
  function SetDone(s: State, key: string, token: string, millis: nat, before: seq<Step>, between: seq<Step>): State
    requires Enabled(s, Begin(key, token, millis))
  {
    Others(DoSet(Sent(s, key, token, millis, before), |s.acqs|), between, |s.acqs|)
  }

  lemma SameFences(s: State, s': State, key: string)
    requires s'.db == s.db
    ensures Counter(s', key) == Counter(s, key)
  {
  }

  predicate Free(s: State, key: string) {
    Lookup(s.db, s.now, key).None?
  }

  class World {
    const names: set<string>
    var state: State
    ghost var history: seq<Step>

    /** The state is where the recorded run of the protocol leads. */
    ghost predicate Valid()
      reads this
    {
      && NoAlias(names) && state.names == names
      && Run(Init(names), history) && state == After(Init(names), history)
    }

    constructor (names: set<string>)
      requires NoAlias(names)
      ensures Valid() && this.names == names && state == Init(names)
    {
      this.names := names;
      state := Init(names);
      history := [];
    }

    lemma Reached()
      requires Valid()
      ensures Inv(state)
    {
      T.Reachable(names, history);
    }

    /** One step of the protocol. */
    method Do(step: Step)
      requires Valid() && Enabled(state, step)
      modifies this
      ensures Valid() && old(history) <= history && state == Apply(old(state), step)
    {
      T.Snoc(Init(names), history, step);
      state := Apply(state, step);
      history := history + [step];
      T.RunNames(Init(names), history);
    }

    /** Everybody else acts. */
    method Meanwhile(others: seq<Step>, id: nat)
      requires Valid()
      modifies this
      ensures Valid() && old(history) <= history && state == Others(old(state), others, id)
    {
      ghost var steps := OthersAreRun(state, others, id);
      RunConcat(Init(names), history, steps);
      state := Others(state, others, id);
      history := history + steps;
    }

    /** The SET of a call: answers whether the token was stored. `before` is what everybody
        else does until it executes, or until the caller gives up; `between` what they do
        until the reply arrives. */
    method SetCommand(key: string, millis: nat, token: string, before: seq<Step>, delivery: Delivery,
                      between: seq<Step>)
      returns (r: Result<bool>)
      requires Valid() && Enabled(state, Begin(key, token, millis))
      modifies this
      ensures Valid() && old(history) <= history && |old(state.acqs)| < |state.acqs|
      ensures var sent, me := Sent(old(state), key, token, millis, before), |old(state.acqs)|;
              && (delivery.NotExecuted? ==> state == sent)
              && (!delivery.NotExecuted? ==> state == Others(DoSet(sent, me), between, me))
              && (delivery.Answered? ==> r == Ok(Free(sent, key)))
              && (!delivery.Answered? ==> r == Err(delivery.error))
              && (!delivery.NotExecuted? && Free(sent, key) ==>
                    var a := state.acqs[me];
                    && a.phase == SetWon && a.wonAt == sent.now
                    && a.key == key && a.token == token && a.ttl == millis)
    {
      var me := |state.acqs|;
      Do(Begin(key, token, millis));
      Reached();
      OthersKeep(state, before, me);
      Meanwhile(before, me);
      if delivery.NotExecuted? {
        return Err(delivery.error);
      }
      Do(ExecSet(me));
      Reached();
      OthersKeep(state, between, me);
      Meanwhile(between, me);
      if delivery.ReplyLost? {
        return Err(delivery.error);
      }
      r := Ok(state.acqs[me].phase.SetWon?);
    }

    /** The INCR of a call, sent once the SET's reply has arrived: answers the fence. */
    method IncrCommand(me: nat, delivery: Delivery, afterwards: seq<Step>) returns (r: Result<int>)
      requires Valid() && me < |state.acqs| && state.acqs[me].phase.SetWon?
      modifies this
      ensures Valid() && old(history) <= history && me < |state.acqs|
      ensures var drawn := Counter(old(state), old(state.acqs[me].key)) + 1;
              r == if !delivery.Answered? then Err(delivery.error)
                   else if drawn <= I64_MAX then Ok(drawn)
                   else Err(Internal)
      ensures var sent := Apply(old(state), DeliverSet(me));
              state == if delivery.NotExecuted? then sent else Others(DoIncr(sent, me), afterwards, me)
      ensures var a, b := old(state.acqs[me]), state.acqs[me];
              b.Won() && !b.phase.Returned? && (b.key, b.token, b.ttl, b.wonAt) == (a.key, a.token, a.ttl, a.wonAt)
      ensures r.Ok? ==> var a := state.acqs[me]; a.phase.IncrDone? && a.fence == r.value >= 1
    {
      hide DoIncr, Counter, Others;
      Reached();
      Do(DeliverSet(me));
      if delivery.NotExecuted? {
        return Err(delivery.error);
      }
      Reached();
      SameFences(old(state), state, state.acqs[me].key);
      IncrFailsExactly(state, me);
      Do(ExecIncr(me));
      Reached();
      OthersKeep(state, afterwards, me);
      Meanwhile(afterwards, me);
      if delivery.ReplyLost? {
        return Err(delivery.error);
      }
      if state.acqs[me].phase.IncrRefused? {
        return Err(Internal);
      }
      assert AcqOk(state, me);
      r := Ok(state.acqs[me].fence);
    }

    /** Until its caller has a lock object, a winner's token is stored exactly up to its ttl. */
    lemma WinnerIsStored(id: nat)
      requires Valid()
      ensures (id < |state.acqs| && state.acqs[id].Won() && !state.acqs[id].phase.Returned?) ==>
                var a := state.acqs[id]; Stored(state, id) <==> state.now <= a.wonAt + a.ttl
    {
      Reached();
      if id < |state.acqs| {
        assert AcqOk(state, id);
        StoredIffOwns(state, id);
      }
    }

    /** `lock_acquire`: the answer in every case. A returned lock names an acquisition that won
        a free key and drew the next value of its fence counter; its token is still stored
        exactly if no more than the ttl has passed since its SET executed. A key that was
        taken then is a conflict. A call that fails after its SET won leaves an orphan: stored
        until the ttl has passed, and no longer. */
    method LockAcquire(key: string, ttl: nat, token: string, before: seq<Step>, setDelivery: Delivery,
                       between: seq<Step>, incrDelivery: Delivery, afterwards: seq<Step>)
      returns (r: Result<RedisLock>)
      requires Valid()
      requires key == "" || key in names
      requires forall i :: 0 <= i < |state.acqs| ==> state.acqs[i].token != token
      modifies this
      ensures Valid() && old(history) <= history
      ensures key == "" || TtlMillis(ttl).Err? ==> r == Err(Config) && state == old(state)
      ensures key != "" && TtlMillis(ttl).Ok? ==>
                var sent, id := Sent(old(state), key, token, Millis(ttl), before), |old(state.acqs)|;
                var stored := id < |state.acqs| && Stored(state, id);
                var drawn := Counter(SetDone(old(state), key, token, Millis(ttl), before, between), key) + 1;
                && r == (if !setDelivery.Answered? then Err(setDelivery.error)
                         else if !Free(sent, key) then Err(Conflict)
                         else if !incrDelivery.Answered? then Err(incrDelivery.error)
                         else if drawn > I64_MAX then Err(Internal)
                         else Ok(RedisLock(key, token, drawn)))
                && (r.Ok? ==>
                      && id < |state.acqs|
                      && state.acqs[id].phase.Returned? && state.acqs[id].wonAt == sent.now
                      && state.acqs[id].fence == drawn >= 1
                      && (stored <==> state.now <= sent.now + Millis(ttl)))
                && (r.Err? && !setDelivery.NotExecuted? && Free(sent, key) ==>
                      && id < |state.acqs| && !state.acqs[id].phase.Returned?
                      && state.acqs[id].key == key && state.acqs[id].token == token
                      && (stored <==> state.now <= sent.now + Millis(ttl)))
    {
      hide Others, Sent, Inv, DoSet, DoIncr, Counter;
      if key == "" {
        return Err(Config);
      }
      var millis := TtlMillis(ttl);
      if millis.Err? {
        return Err(millis.error);
      }
      var me := |state.acqs|;
      Reached();
      var acquired := SetCommand(key, millis.value, token, before, setDelivery, between);
      WinnerIsStored(me);
      if acquired.Err? {
        return Err(acquired.error);
      }
      if !acquired.value {
        return Err(Conflict);
      }
      var fence := IncrCommand(me, incrDelivery, afterwards);
      WinnerIsStored(me);
      if fence.Err? {
        return Err(fence.error);
      }
      Do(DeliverIncr(me));
      r := Ok(RedisLock(key, token, fence.value));
    }

    /** `eval_script` with one of the two lock scripts: whether it answered 1. `before` is what
        everybody else does until it executes, or until the caller gives up; in that case the
        request may still be on its way. */
    method EvalScript(request: Request, before: seq<Step>, delivery: Delivery) returns (r: Result<bool>)
      requires Valid() && request.id < |state.acqs| && state.acqs[request.id].phase.Returned?
      requires request.Extend? ==> request.ttl > 0
      modifies this
      ensures Valid() && old(history) <= history
      ensures var s := Others(old(state), before, request.id);
              && state == (if delivery.NotExecuted? then InFlight(s, request)
                           else DoRequest(InFlight(s, request), request))
              && r == (if delivery.Answered? then Ok(Stored(s, request.id)) else Err(delivery.error))
    {
      hide DoRequest, Others;
      ReturnedStays(state, before, request.id);
      Meanwhile(before, request.id);
      var a := state.acqs[request.id];
      var held := Holds(state.db, state.now, a.key, a.token);
      Do(Send(request));
      if delivery.NotExecuted? {
        return Err(delivery.error);
      }
      Do(Exec(request));
      r := if delivery.Answered? then Ok(held) else Err(delivery.error);
    }

    /** Two lock objects for one key: their fences are distinct, the server stores at most one
        of their tokens, and if the earlier drew its fence within its ttl, the later has the
        larger one. */
    lemma TwoLocks(i: nat, j: nat)
      requires Valid() && i < |state.acqs| && j < |state.acqs| && i != j
      requires state.acqs[i].phase.Returned? && state.acqs[j].phase.Returned?
      requires state.acqs[i].key == state.acqs[j].key
      ensures var a, b := state.acqs[i], state.acqs[j];
              && 1 <= a.fence && 1 <= b.fence && a.fence != b.fence
              && !(Stored(state, i) && Stored(state, j))
              && (Later(state, i, j) && a.incrAt <= a.wonAt + a.ttl ==> a.fence < b.fence)
    {
      T.MutualExclusion(names, history, i, j);
      T.MutualExclusion(names, history, j, i);
      T.FencesDistinct(names, history, i, j);
      if Later(state, i, j) {
        T.Fencing(names, history, i, j);
      }
    }

    /** `lock_release`: true exactly if the server still held this lock's token when the script
        executed; then the key is deleted and nothing else changes, otherwise nothing in the
        keyspace does. */
    method LockRelease(id: nat, before: seq<Step>, delivery: Delivery) returns (r: Result<bool>)
      requires Valid() && id < |state.acqs| && state.acqs[id].phase.Returned?
      modifies this
      ensures Valid() && old(history) <= history
      ensures var s := Others(old(state), before, id);
              var held := Stored(s, id);
              && r == (if delivery.Answered? then Ok(held) else Err(delivery.error))
              && state.db == (if held && !delivery.NotExecuted? then s.db - {s.acqs[id].key} else s.db)
              && Undisturbed(s, state, Release(id), delivery)
              && (!delivery.NotExecuted? ==> !Stored(state, id))
    {
      hide DoRequest, Others;
      ghost var s := Others(state, before, id);
      OthersInv(before, id);
      r := EvalScript(Release(id), before, delivery);
      ScriptEffect(s, Release(id));
    }

    /** `lock_extend`: true exactly if the server still held this lock's token when the script
        executed, whose expiry is then the new ttl from that instant; otherwise nothing in the
        keyspace changes. */
    method LockExtend(id: nat, ttl: nat, before: seq<Step>, delivery: Delivery) returns (r: Result<bool>)
      requires Valid() && id < |state.acqs| && state.acqs[id].phase.Returned?
      modifies this
      ensures Valid() && old(history) <= history
      ensures TtlMillis(ttl).Err? ==> r == Err(Config) && state == old(state)
      ensures TtlMillis(ttl).Ok? ==>
                var s := Others(old(state), before, id);
                var held := Stored(s, id);
                var entry := Entry(Text(s.acqs[id].token), Some(s.now + Millis(ttl)));
                && r == (if delivery.Answered? then Ok(held) else Err(delivery.error))
                && state.db == (if held && !delivery.NotExecuted? then s.db[s.acqs[id].key := entry] else s.db)
                && Undisturbed(s, state, Extend(id, Millis(ttl)), delivery)
    {
      hide DoRequest, Others;
      var millis := TtlMillis(ttl);
      if millis.Err? {
        return Err(Config);
      }
      ghost var s := Others(state, before, id);
      OthersInv(before, id);
      r := EvalScript(Extend(id, millis.value), before, delivery);
      ScriptEffect(s, Extend(id, millis.value));
    }

    lemma OthersInv(others: seq<Step>, id: nat)
      requires Valid() && id < |state.acqs| && state.acqs[id].phase.Returned?
      ensures Inv(Others(state, others, id)) && Others(state, others, id).acqs[id].phase.Returned?
    {
      Reached();
      var steps := OthersAreRun(state, others, id);
      RunInv(state, steps);
      ReturnedStays(state, others, id);
    }
  }

  function InFlight(s: State, request: Request): State {
    s.(pending := s.pending + multiset{request})
  }

  /** A script leaves the time, the other acquisitions and the other requests as they were. */
  ghost predicate Undisturbed(s: State, s': State, request: Request, delivery: Delivery) {
    && s'.now == s.now && |s'.acqs| == |s.acqs|
    && s'.pending == (if delivery.NotExecuted? then s.pending + multiset{request} else s.pending)
    && (forall j :: 0 <= j < |s.acqs| && j != request.id ==> s'.acqs[j] == s.acqs[j])
  }

  /** What a script does once it executes. */
  lemma ScriptEffect(s: State, request: Request)
    requires Inv(s) && RequestOk(s, request)
    ensures var s', a := DoRequest(InFlight(s, request), request), s.acqs[request.id];
            && s'.now == s.now && |s'.acqs| == |s.acqs| && s'.pending == s.pending
            && (forall j :: 0 <= j < |s.acqs| && j != request.id ==> s'.acqs[j] == s.acqs[j])
            && (request.Release? ==> !Stored(s', request.id))
            && s'.db == if !Stored(s, request.id) then s.db
                        else match request
                             case Release(_) => s.db - {a.key}
                             case Extend(_, ttl) => s.db[a.key := Entry(Text(a.token), Some(s.now + ttl))]
  {
    assert AcqOk(s, request.id);
    assert KeyOk(s, s.acqs[request.id].key);
    assert s.pending + multiset{request} - multiset{request} == s.pending;
    hide Inv, AcqOk;
  }

  lemma StepReturnedStays(s: State, step: Step, id: nat)
    requires Enabled(s, step) && id < |s.acqs| && s.acqs[id].phase.Returned?
    ensures id < |Apply(s, step).acqs| && Apply(s, step).acqs[id].phase.Returned?
  {
  }

  /** A lock object stays valid whatever others do. */
  lemma {:induction false} ReturnedStays(s: State, steps: seq<Step>, id: nat)
    requires id < |s.acqs| && s.acqs[id].phase.Returned?
    ensures Others(s, steps, id).acqs[id].phase.Returned?
    decreases |steps|
  {
    if steps != [] {
      if !Own(steps[0], id) && Enabled(s, steps[0]) {
        StepReturnedStays(s, steps[0], id);
        ReturnedStays(Apply(s, steps[0]), steps[1..], id);
      } else {
        ReturnedStays(s, steps[1..], id);
      }
    }
  }

  /** An accepted ttl in whole milliseconds. */
  function Millis(ttl: nat): nat {
    if TtlMillis(ttl).Ok? then TtlMillis(ttl).value else 0
  }

  /** The tokens of one process satisfy what the calls above demand of theirs: the next one
      differs from all before it, up to 2^64 calls. */
  lemma NextTokenIsFresh(s: State, start: Words.U64, pid: Words.U32, clock: nat -> nat)
    requires |s.acqs| < Words.TWO64
    requires forall i :: 0 <= i < |s.acqs| ==> s.acqs[i].token == Tokens.TokenAt(start, pid, clock, i)
    ensures forall i :: 0 <= i < |s.acqs| ==> s.acqs[i].token != Tokens.TokenAt(start, pid, clock, |s.acqs|)
  {
    Tokens.DistinctExactly(start, pid, |s.acqs| + 1);
  }
}
