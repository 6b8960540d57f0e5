/** What the lock protocol guarantees in every run. */
module LockTheorems {
  import opened Common
  import opened Keyspace
  import opened LockProtocol

  /** In every run the server and the history agree, and the fencing invariant holds. */
  lemma Reachable(names: set<string>, steps: seq<Step>)
    requires NoAlias(names) && Run(Init(names), steps)
    ensures Inv(After(Init(names), steps))
  {
    InitInv(names);
    RunInv(Init(names), steps);
  }

  /** Mutual exclusion: a token is what the server stores exactly while its acquisition has
      won, has not been released and has not outlived its lease; for one key that is true
      of at most one acquisition. */
  lemma MutualExclusion(names: set<string>, steps: seq<Step>, i: nat, j: nat)
    requires NoAlias(names) && Run(Init(names), steps)
    requires i < |After(Init(names), steps).acqs| && j < |After(Init(names), steps).acqs|
    ensures var s := After(Init(names), steps);
            && (Stored(s, i) <==> Owns(s, i))
            && (i != j && s.acqs[i].key == s.acqs[j].key ==> !(Owns(s, i) && Owns(s, j)))
  {
    var s := After(Init(names), steps);
    Reachable(names, steps);
    StoredIffOwns(s, i);
    assert AcqOk(s, i) && AcqOk(s, j);
  }

  /** All fences drawn for a key are at least 1 and distinct, and they are ordered exactly
      as their INCR commands executed. */
  lemma FencesDistinct(names: set<string>, steps: seq<Step>, i: nat, j: nat)
    requires NoAlias(names) && Run(Init(names), steps)
    requires i < |After(Init(names), steps).acqs| && j < |After(Init(names), steps).acqs| && i != j
    requires var s := After(Init(names), steps);
             s.acqs[i].key == s.acqs[j].key && s.acqs[i].Fenced() && s.acqs[j].Fenced()
    ensures var a, b := After(Init(names), steps).acqs[i], After(Init(names), steps).acqs[j];
            && 1 <= a.fence && 1 <= b.fence && a.fence != b.fence
            && (a.fence < b.fence <==> a.incrOrder < b.incrOrder)
  {
    var s := After(Init(names), steps);
    Reachable(names, steps);
    assert AcqOk(s, i) && AcqOk(s, j) && PairOk(s, i, j);
  }

  /** Fencing: if the INCR of `i` executes while its token is still stored, which is exactly
      when it executes at most the ttl after the SET, then every acquisition that wins the
      key later draws a strictly larger fence. */
  lemma Fencing(names: set<string>, steps: seq<Step>, i: nat, j: nat)
    requires NoAlias(names) && Run(Init(names), steps)
    requires i < |After(Init(names), steps).acqs| && j < |After(Init(names), steps).acqs|
    requires var s := After(Init(names), steps);
             Later(s, i, j) && s.acqs[i].Fenced() && s.acqs[j].Fenced()
    ensures var a, b := After(Init(names), steps).acqs[i], After(Init(names), steps).acqs[j];
            && (a.heldAtIncr <==> a.incrAt <= a.wonAt + a.ttl)
            && (a.heldAtIncr ==> a.fence < b.fence)
  {
    var s := After(Init(names), steps);
    Reachable(names, steps);
    assert AcqOk(s, i) && PairOk(s, i, j);
  }

  // ----- what fences are for -----

  /** A resource that takes writes in order and refuses a fence below the highest one taken. */
  ghost function Highest(fences: seq<int>): int {
    if fences == [] then 0
    else
      var before := Highest(fences[..|fences| - 1]);
      if before <= fences[|fences| - 1] then fences[|fences| - 1] else before
  }

  ghost predicate Taken(fences: seq<int>, n: nat)
    requires n < |fences|
  {
    Highest(fences[..n]) <= fences[n]
  }

  lemma {:induction false} HighestCovers(fences: seq<int>, n: nat)
    requires n < |fences| && Taken(fences, n)
    ensures fences[n] <= Highest(fences)
    decreases |fences|
  {
    var front := fences[..|fences| - 1];
    if n < |front| {
      assert front[..n] == fences[..n];
      HighestCovers(front, n);
    } else {
      assert front == fences[..n];
    }
  }

  /** Writes whose fences never fall are all taken. */
  lemma {:induction false} OrderedWritesTaken(fences: seq<int>)
    requires forall m, n :: 0 <= m <= n < |fences| ==> 0 <= fences[m] <= fences[n]
    ensures forall n: nat :: n < |fences| ==> Taken(fences, n)
    ensures Highest(fences) == if fences == [] then 0 else fences[|fences| - 1]
    decreases |fences|
  {
    if fences != [] {
      var front := fences[..|fences| - 1];
      OrderedWritesTaken(front);
      forall n: nat | n < |fences| ensures Taken(fences, n) {
        if n < |front| {
          assert Taken(front, n) && front[..n] == fences[..n];
        } else {
          assert fences[..n] == front;
        }
      }
    }
  }

  /** Writes carry the fence of their acquisition. Once a write of `j` was taken, no write of
      an earlier acquisition `i` whose INCR executed within its ttl is taken any more. */
  lemma StaleWritesRefused(names: set<string>, steps: seq<Step>, i: nat, j: nat, writers: seq<nat>, m: nat, n: nat)
    requires NoAlias(names) && Run(Init(names), steps)
    requires forall k :: 0 <= k < |writers| ==> writers[k] < |After(Init(names), steps).acqs|
    requires m < n < |writers| && writers[m] == j && writers[n] == i
    requires var s := After(Init(names), steps);
             && Later(s, i, j) && s.acqs[i].Fenced() && s.acqs[j].Fenced()
             && s.acqs[i].incrAt <= s.acqs[i].wonAt + s.acqs[i].ttl
    ensures var s := After(Init(names), steps);
            var fences := seq(|writers|, k requires 0 <= k < |writers| => s.acqs[writers[k]].fence);
            Taken(fences, m) ==> !Taken(fences, n)
  {
    var s := After(Init(names), steps);
    var fences := seq(|writers|, k requires 0 <= k < |writers| => s.acqs[writers[k]].fence);
    Fencing(names, steps, i, j);
    if Taken(fences, m) {
      assert fences[..n][..m] == fences[..m];
      HighestCovers(fences[..n], m);
    }
  }

  // ----- the exact limit of the fencing guarantee -----

  lemma {:induction false} Snoc(s: State, steps: seq<Step>, step: Step)
    requires Run(s, steps) && Enabled(After(s, steps), step)
    ensures Run(s, steps + [step]) && After(s, steps + [step]) == Apply(After(s, steps), step)
    decreases |steps|
  {
    var longer := steps + [step];
    if steps == [] {
      assert longer[1..] == [];
    } else {
      assert longer[1..] == steps[1..] + [step];
      Snoc(Apply(s, steps[0]), steps[1..], step);
    }
  }

  /** One acquisition wins the free key with the token "a". */
  lemma FirstWins(names: set<string>, key: string, ttl: nat) returns (steps: seq<Step>)
    requires NoAlias(names) && key in names && 0 < ttl
    ensures Run(Init(names), steps)
    ensures After(Init(names), steps)
            == State(0, map[key := Entry(Text("a"), Some(ttl))], names, [Winner(key, "a", ttl, 0, 0)],
                     multiset{}, map[key := 0], 1)
  {
    var s0 := Init(names);
    steps := [];
    Snoc(s0, steps, Begin(key, "a", ttl));
    steps := steps + [Begin(key, "a", ttl)];
    Snoc(s0, steps, ExecSet(0));
    steps := steps + [ExecSet(0)];
    Snoc(s0, steps, DeliverSet(0));
    steps := steps + [DeliverSet(0)];
  }

  function Winner(key: string, token: string, ttl: nat, at: nat, order: nat): Acq {
    Acq(key, token, ttl, IncrSent, at, order, 0, 0, false, 0, at + ttl, 0)
  }

  /** Its lease runs out before its INCR executes, and a second acquisition wins the key. */
  lemma SecondWins(names: set<string>, key: string, ttl: nat, delay: nat) returns (steps: seq<Step>)
    requires NoAlias(names) && key in names && 0 < ttl < delay
    ensures Run(Init(names), steps)
    ensures After(Init(names), steps)
            == State(delay, map[key := Entry(Text("b"), Some(delay + ttl))], names,
                     [Winner(key, "a", ttl, 0, 0), Winner(key, "b", ttl, delay, 1)],
                     multiset{}, map[key := 1], 2)
  {
    var s0 := Init(names);
    steps := FirstWins(names, key, ttl);
    Snoc(s0, steps, Tick(delay));
    steps := steps + [Tick(delay)];
    Snoc(s0, steps, Begin(key, "b", ttl));
    steps := steps + [Begin(key, "b", ttl)];
    Snoc(s0, steps, ExecSet(1));
    steps := steps + [ExecSet(1)];
    Snoc(s0, steps, DeliverSet(1));
    steps := steps + [DeliverSet(1)];
  }

  /** The second owner's INCR executes first and draws fence 1; the first owner draws 2. */
  lemma Inversion(names: set<string>, key: string, ttl: nat, delay: nat) returns (steps: seq<Step>)
    requires NoAlias(names) && key in names && 0 < ttl < delay
    ensures Run(Init(names), steps)
    ensures var s := After(Init(names), steps);
            FencedAfter(s, 0, 1, ttl, delay) && s.acqs[0].fence == 2 && s.acqs[1].fence == 1
  {
    var s0 := Init(names);
    steps := SecondWins(names, key, ttl, delay);
    assert FenceKey(key) != key;
    Snoc(s0, steps, ExecIncr(1));
    steps := steps + [ExecIncr(1)];
    Snoc(s0, steps, ExecIncr(0));
    steps := steps + [ExecIncr(0)];
  }

  ghost predicate FencedAfter(s: State, i: nat, j: nat, ttl: nat, delay: nat) {
    && i < |s.acqs| && j < |s.acqs| && Later(s, i, j)
    && s.acqs[i].Fenced() && s.acqs[j].Fenced()
    && s.acqs[i].ttl == ttl && s.acqs[i].incrAt == s.acqs[i].wonAt + delay
  }

  /** The guarantee is exact: an acquisition whose INCR executes `delay` after its SET is
      ordered before every later winner in every run if and only if `delay <= ttl`. */
  lemma FencingExact(names: set<string>, key: string, ttl: nat, delay: nat)
    requires NoAlias(names) && key in names && 0 < ttl
    ensures (forall steps, i: nat, j: nat ::
               Run(Init(names), steps) && FencedAfter(After(Init(names), steps), i, j, ttl, delay) ==>
                 After(Init(names), steps).acqs[i].fence < After(Init(names), steps).acqs[j].fence)
            <==> delay <= ttl
  {
    if delay <= ttl {
      forall steps, i: nat, j: nat
        | Run(Init(names), steps) && FencedAfter(After(Init(names), steps), i, j, ttl, delay)
        ensures After(Init(names), steps).acqs[i].fence < After(Init(names), steps).acqs[j].fence
      {
        Fencing(names, steps, i, j);
      }
    } else {
      var steps := Inversion(names, key, ttl, delay);
      assert FencedAfter(After(Init(names), steps), 0, 1, ttl, delay);
    }
  }

  // ----- one interval per token -----

  /** Once won, and no longer owned. */
  predicate Lost(s: State, i: nat) {
    i < |s.acqs| && s.acqs[i].Won() && !Owns(s, i)
  }

  lemma RequestNeverReturns(s: State, r: Request, i: nat)
    requires Inv(s) && Enabled(s, Exec(r)) && Lost(s, i)
    ensures Lost(DoRequest(s, r), i)
  {
    StoredIffOwns(s, i);
  }

  lemma CommandNeverReturns(s: State, step: Step, i: nat)
    requires Enabled(s, step) && (step.ExecSet? || step.ExecIncr?) && Lost(s, i)
    ensures Lost(Apply(s, step), i)
  {
  }

  lemma StepNeverReturns(s: State, step: Step, i: nat)
    requires Inv(s) && Enabled(s, step) && Lost(s, i)
    ensures Lost(Apply(s, step), i)
  {
    hide DoSet, DoIncr, DoRequest;
    if step.Exec? {
      RequestNeverReturns(s, step.request, i);
    } else if step.ExecSet? || step.ExecIncr? {
      CommandNeverReturns(s, step, i);
    }
  }

  lemma {:induction false} NeverReturns(s: State, steps: seq<Step>, i: nat)
    requires Inv(s) && Run(s, steps) && Lost(s, i)
    ensures Lost(After(s, steps), i)
    decreases |steps|
  {
    if steps != [] {
      StepInv(s, steps[0]);
      StepNeverReturns(s, steps[0], i);
      NeverReturns(Apply(s, steps[0]), steps[1..], i);
    }
  }

  /** A later version of an acquisition. */
  predicate Continues(a: Acq, b: Acq) {
    a.key == b.key && a.token == b.token && (a.Won() ==> b.Won())
  }

  lemma CommandKeeps(s: State, step: Step, i: nat)
    requires Enabled(s, step) && i < |s.acqs| && (step.ExecSet? || step.ExecIncr? || step.Exec?)
    ensures i < |Apply(s, step).acqs| && Continues(s.acqs[i], Apply(s, step).acqs[i])
  {
  }

  lemma StepKeeps(s: State, step: Step, i: nat)
    requires Enabled(s, step) && i < |s.acqs|
    ensures i < |Apply(s, step).acqs| && Continues(s.acqs[i], Apply(s, step).acqs[i])
  {
    hide DoSet, DoIncr, DoRequest;
    if step.ExecSet? || step.ExecIncr? || step.Exec? {
      CommandKeeps(s, step, i);
    }
  }

  lemma {:induction false} RunKeeps(s: State, steps: seq<Step>, i: nat)
    requires Run(s, steps) && i < |s.acqs|
    ensures i < |After(s, steps).acqs| && Continues(s.acqs[i], After(s, steps).acqs[i])
    decreases |steps|
  {
    if steps != [] {
      StepKeeps(s, steps[0], i);
      RunKeeps(Apply(s, steps[0]), steps[1..], i);
    }
  }

  /** Each token is stored over one contiguous interval: seen once and then not seen, it is
      never seen again, whatever the clients, the network and the clock do. */
  lemma OneInterval(s: State, middle: seq<Step>, last: seq<Step>, i: nat)
    requires Inv(s) && Run(s, middle) && Run(After(s, middle), last)
    requires i < |s.acqs| && Stored(s, i)
    ensures i < |After(s, middle).acqs| && i < |After(After(s, middle), last).acqs|
    ensures !Stored(After(s, middle), i) ==> !Stored(After(After(s, middle), last), i)
  {
    StoredIffOwns(s, i);
    RunInv(s, middle);
    RunKeeps(s, middle, i);
    RunInv(After(s, middle), last);
    RunKeeps(After(s, middle), last, i);
    StoredIffOwns(After(s, middle), i);
    StoredIffOwns(After(After(s, middle), last), i);
    if !Owns(After(s, middle), i) {
      NeverReturns(After(s, middle), last, i);
    }
  }

  // ----- releases -----

  /** Whether the step executes a release script of `i` that answers 1. */
  ghost predicate Releases(s: State, step: Step, i: nat)
    requires Enabled(s, step)
  {
    step == Exec(Release(i)) && CompareAndDelete(s.db, s.now, s.acqs[i].key, s.acqs[i].token).1 > 0
  }

  ghost function ReleaseCount(s: State, steps: seq<Step>, i: nat): nat
    requires Run(s, steps)
    decreases |steps|
  {
    if steps == [] then 0
    else (if Releases(s, steps[0], i) then 1 else 0) + ReleaseCount(Apply(s, steps[0]), steps[1..], i)
  }

  function Released(s: State, i: nat): nat {
    if i < |s.acqs| then s.acqs[i].released else 0
  }

  lemma StepReleased(s: State, step: Step, i: nat)
    requires Enabled(s, step)
    ensures Released(Apply(s, step), i) == Released(s, i) + (if Releases(s, step, i) then 1 else 0)
  {
    hide DoSet, DoIncr, DoRequest;
    if step.ExecSet? || step.ExecIncr? {
      CommandReleases(s, step, i);
    } else if step.Exec? {
      RequestReleases(s, step.request, i);
    }
  }

  lemma CommandReleases(s: State, step: Step, i: nat)
    requires Enabled(s, step) && (step.ExecSet? || step.ExecIncr?)
    ensures Released(Apply(s, step), i) == Released(s, i)
  {
  }

  lemma RequestReleases(s: State, r: Request, i: nat)
    requires Enabled(s, Exec(r))
    ensures Released(DoRequest(s, r), i) == Released(s, i) + (if Releases(s, Exec(r), i) then 1 else 0)
  {
  }

  lemma {:induction false} CountReleases(s: State, steps: seq<Step>, i: nat)
    requires Run(s, steps)
    ensures Released(After(s, steps), i) == Released(s, i) + ReleaseCount(s, steps, i)
    decreases |steps|
  {
    if steps != [] {
      StepReleased(s, steps[0], i);
      CountReleases(Apply(s, steps[0]), steps[1..], i);
    }
  }

  /** However many release requests are sent, delayed or lost, at most one answers true. */
  lemma ReleaseAtMostOnce(names: set<string>, steps: seq<Step>, i: nat)
    requires NoAlias(names) && Run(Init(names), steps)
    ensures ReleaseCount(Init(names), steps, i) <= 1
  {
    Reachable(names, steps);
    CountReleases(Init(names), steps, i);
    var s := After(Init(names), steps);
    assert i < |s.acqs| ==> AcqOk(s, i);
  }

  /** What a release or extend script does, however late it executes: while the key holds
      another token or none, nothing; while it holds their own, a release deletes exactly that
      key, and an extend sets exactly its expiry to the new ttl from then on. */
  lemma OnlyTheOwnerActs(s: State, r: Request)
    requires Inv(s) && Enabled(s, Exec(r))
    ensures var a, s' := s.acqs[r.id], DoRequest(s, r);
            && (!Owns(s, r.id) ==> s'.db == s.db && s'.acqs == s.acqs)
            && (Owns(s, r.id) && r.Release? ==> s'.db == s.db - {a.key} && !Owns(s', r.id))
            && (Owns(s, r.id) && r.Extend? ==>
                  && s'.db == s.db[a.key := Entry(Text(a.token), Some(s.now + r.ttl))]
                  && Owns(s', r.id) && s'.acqs[r.id].lease == s.now + r.ttl)
  {
    StoredIffOwns(s, r.id);
    assert AcqOk(s, r.id) && KeyOk(s, s.acqs[r.id].key);
  }

  /** Nor does a script ever disturb another owner. */
  lemma OtherOwnersUndisturbed(s: State, r: Request, j: nat)
    requires Inv(s) && Enabled(s, Exec(r)) && j < |s.acqs| && j != r.id && Owns(s, j)
    ensures Owns(DoRequest(s, r), j) && Stored(DoRequest(s, r), j)
  {
    RequestInv(s, r);
    StoredIffOwns(DoRequest(s, r), j);
  }

  // ----- bounded holding -----

  /** Whether the step executes an extend script of `i` that answers 1. */
  ghost predicate Extends(s: State, step: Step, i: nat)
    requires Enabled(s, step)
  {
    && step.Exec? && step.request.Extend? && step.request.id == i
    && CompareAndExpire(s.db, s.now, s.acqs[i].key, s.acqs[i].token, step.request.ttl).1 > 0
  }

  /** The expiry set by the last extend script of `i` that answers 1: its ttl, counted from its execution. */
  ghost function LastExtend(s: State, steps: seq<Step>, i: nat): Option<nat>
    requires Run(s, steps)
    decreases |steps|
  {
    if steps == [] then None
    else
      var later := LastExtend(Apply(s, steps[0]), steps[1..], i);
      if later.None? && Extends(s, steps[0], i) then Some(s.now + steps[0].request.ttl) else later
  }

  ghost predicate WonIn(s: State, i: nat) {
    i < |s.acqs| && s.acqs[i].Won()
  }

  /** What the lease of a winner is if no extend touches it. */
  ghost function LeaseBefore(s: State, a: Acq, i: nat): nat {
    if WonIn(s, i) then s.acqs[i].lease else a.wonAt + a.ttl
  }

  /** How one step sets or keeps the lease of a winner. */
  ghost predicate LeaseStep(s: State, step: Step, s': State, i: nat)
    requires Enabled(s, step)
  {
    && (WonIn(s, i) || Extends(s, step, i) ==> WonIn(s', i))
    && (WonIn(s, i) ==> s'.acqs[i].wonAt == s.acqs[i].wonAt && s'.acqs[i].ttl == s.acqs[i].ttl)
    && (WonIn(s', i) ==>
          s'.acqs[i].lease == if Extends(s, step, i) then s.now + step.request.ttl else LeaseBefore(s, s'.acqs[i], i))
  }

  lemma RequestSetsLease(s: State, r: Request, i: nat)
    requires Inv(s) && Enabled(s, Exec(r))
    ensures LeaseStep(s, Exec(r), DoRequest(s, r), i)
  {
    assert RequestOk(s, r);
  }

  lemma CommandSetsLease(s: State, step: Step, i: nat)
    requires Enabled(s, step) && (step.ExecSet? || step.ExecIncr?)
    ensures LeaseStep(s, step, Apply(s, step), i)
  {
  }

  lemma StepSetsLease(s: State, step: Step, i: nat)
    requires Inv(s) && Enabled(s, step)
    ensures LeaseStep(s, step, Apply(s, step), i)
  {
    hide DoSet, DoIncr, DoRequest;
    if step.Exec? {
      RequestSetsLease(s, step.request, i);
    } else if step.ExecSet? || step.ExecIncr? {
      CommandSetsLease(s, step, i);
    }
  }

  /** A lease is set by the SET that won and by every extend that answers 1, and by nothing else. */
  lemma {:induction false} LeaseHistory(s: State, steps: seq<Step>, i: nat)
    requires Inv(s) && Run(s, steps) && WonIn(After(s, steps), i)
    ensures var a := After(s, steps).acqs[i];
            && (WonIn(s, i) ==> a.wonAt == s.acqs[i].wonAt && a.ttl == s.acqs[i].ttl)
            && a.lease == match LastExtend(s, steps, i)
                          case Some(expiry) => expiry
                          case None => LeaseBefore(s, a, i)
    decreases |steps|
  {
    hide Apply, Enabled, Extends, Inv;
    if steps != [] {
      StepInv(s, steps[0]);
      StepSetsLease(s, steps[0], i);
      LeaseHistory(Apply(s, steps[0]), steps[1..], i);
    }
  }

  /** Whatever is visible at a lock name is the token of an owner and expires when its lease
      does. The lease is the ttl of the acquisition's last extend that answered true, counted
      from that extend's execution, or else its own ttl counted from its SET. */
  lemma EveryLockExpires(names: set<string>, steps: seq<Step>, key: string)
    requires NoAlias(names) && Run(Init(names), steps) && key in names
    requires Lookup(After(Init(names), steps).db, After(Init(names), steps).now, key).Some?
    ensures var s := After(Init(names), steps);
            exists i :: && 0 <= i < |s.acqs| && s.acqs[i].key == key && Owns(s, i)
                        && s.db[key] == Entry(Text(s.acqs[i].token), Some(s.acqs[i].lease))
                        && s.acqs[i].lease == match LastExtend(Init(names), steps, i)
                                              case Some(expiry) => expiry
                                              case None => s.acqs[i].wonAt + s.acqs[i].ttl
  {
    var s := After(Init(names), steps);
    Reachable(names, steps);
    assert s.names == names by { RunNames(Init(names), steps); }
    assert KeyOk(s, key) && AcqOk(s, s.holder[key]);
    var i := s.holder[key];
    assert Owns(s, i);
    InitInv(names);
    LeaseHistory(Init(names), steps, i);
  }

  lemma {:induction false} RunNames(s: State, steps: seq<Step>)
    requires Run(s, steps)
    ensures After(s, steps).names == s.names
    decreases |steps|
  {
    if steps != [] {
      RunNames(Apply(s, steps[0]), steps[1..]);
    }
  }

  ghost predicate NoExtend(steps: seq<Step>, i: nat) {
    forall n :: 0 <= n < |steps| && steps[n].Exec? && steps[n].request.Extend? ==> steps[n].request.id != i
  }

  lemma StepLease(s: State, step: Step, i: nat)
    requires Enabled(s, step) && i < |s.acqs| && s.acqs[i].Won() && NoExtend([step], i)
    ensures i < |Apply(s, step).acqs| && Apply(s, step).acqs[i].Won()
    ensures Apply(s, step).acqs[i].lease == s.acqs[i].lease
  {
    assert [step][0] == step;
  }

  lemma {:induction false} RunLease(s: State, steps: seq<Step>, i: nat)
    requires Run(s, steps) && i < |s.acqs| && s.acqs[i].Won() && NoExtend(steps, i)
    ensures i < |After(s, steps).acqs| && After(s, steps).acqs[i].lease == s.acqs[i].lease
    decreases |steps|
  {
    if steps != [] {
      assert NoExtend([steps[0]], i);
      StepLease(s, steps[0], i);
      assert NoExtend(steps[1..], i);
      RunLease(Apply(s, steps[0]), steps[1..], i);
    }
  }

  /** Without a further extend the token of `i` is gone once its lease is over: either the
      next SET of the key succeeds, or a different acquisition owns it. This covers locks
      orphaned by a failed INCR or a lost reply. */
  lemma KeyBecomesFree(s: State, steps: seq<Step>, i: nat)
    requires Inv(s) && Run(s, steps) && i < |s.acqs| && s.acqs[i].Won() && NoExtend(steps, i)
    requires After(s, steps).now > s.acqs[i].lease
    ensures var s' := After(s, steps);
            && i < |s'.acqs| && !Stored(s', i)
            && (Lookup(s'.db, s'.now, s.acqs[i].key).None?
                || exists j :: 0 <= j < |s'.acqs| && j != i && s'.acqs[j].key == s.acqs[i].key && Owns(s', j))
  {
    var s', key := After(s, steps), s.acqs[i].key;
    RunInv(s, steps);
    RunKeeps(s, steps, i);
    RunLease(s, steps, i);
    StoredIffOwns(s', i);
    assert AcqOk(s', i) && KeyOk(s', key);
    if Lookup(s'.db, s'.now, key).Some? {
      assert Owns(s', s'.holder[key]);
    }
  }
}
