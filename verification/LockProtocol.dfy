/** The distributed lock as a protocol between any number of acquisitions and one server.
    Requests may be delayed without bound, lost, or executed with the reply lost; each
    request executes at most once. A client that gives up is one that takes no further step. */
module LockProtocol {
  import opened Common
  import opened Keyspace

  /** Where one call of `lock_acquire` stands. */
  datatype Phase =
    | SetSent        // SET is in flight
    | SetWon         // SET stored the token; the reply has not arrived
    | SetRefused     // SET found the key taken
    | IncrSent       // the client saw the reply and sent INCR
    | IncrRefused    // INCR executed and failed
    | IncrDone       // INCR executed; the reply has not arrived
    | Returned       // the client holds a lock object

  /** One acquisition with its history: the instant and order of its successful SET and of
      its INCR, the fence it drew, the instant its expiry was last set to, and how many
      release scripts answered 1 for it. */
  datatype Acq = Acq(
    key: string,
    token: string,
    ttl: nat,
    phase: Phase,
    wonAt: nat,
    wonOrder: nat,
    incrAt: nat,
    incrOrder: nat,
    heldAtIncr: bool,
    fence: int,
    lease: nat,
    released: nat)
  {
    predicate Won() {
      phase.SetWon? || phase.IncrSent? || phase.IncrRefused? || Fenced()
    }

    predicate Fenced() {
      phase.IncrDone? || phase.Returned?
    }
  }

  datatype Request = Release(id: nat) | Extend(id: nat, ttl: nat)

  /** `holder` remembers the last winner of each key; `order` numbers the executed commands. */
  datatype State = State(
    now: nat,
    db: Db,
    names: set<string>,
    acqs: seq<Acq>,
    pending: multiset<Request>,
    holder: map<string, nat>,
    order: nat)

  datatype Step =
    | Tick(ms: nat)
    | Begin(key: string, token: string, ttl: nat)
    | ExecSet(id: nat)
    | DeliverSet(id: nat)
    | ExecIncr(id: nat)
    | DeliverIncr(id: nat)
    | Send(request: Request)
    | Lose(request: Request)
    | Exec(request: Request)
    | Foreign(key: string, entry: Option<Entry>)

  function FenceKey(key: string): string {
    "fence:" + key
  }

  /** No lock name is another lock's fence key. */
  predicate NoAlias(names: set<string>) {
    forall j, k :: j in names && k in names ==> FenceKey(j) != k
  }

  predicate IsFenceKey(names: set<string>, key: string) {
    exists k :: k in names && key == FenceKey(k)
  }

  predicate Enabled(s: State, step: Step) {
    match step
    case Tick(_) => true
    case Begin(key, token, ttl) =>
      key in s.names && ttl > 0 && forall i :: 0 <= i < |s.acqs| ==> s.acqs[i].token != token
    case ExecSet(id) => id < |s.acqs| && s.acqs[id].phase.SetSent?
    case DeliverSet(id) => id < |s.acqs| && s.acqs[id].phase.SetWon?
    case ExecIncr(id) => id < |s.acqs| && s.acqs[id].phase.IncrSent?
    case DeliverIncr(id) => id < |s.acqs| && s.acqs[id].phase.IncrDone?
    case Send(r) => r.id < |s.acqs| && s.acqs[r.id].phase.Returned? && (r.Extend? ==> r.ttl > 0)
    case Lose(r) => r in s.pending
    case Exec(r) => r in s.pending && r.id < |s.acqs|
    case Foreign(key, _) => key !in s.names && !IsFenceKey(s.names, key)
  }

  function DoSet(s: State, id: nat): State
    requires id < |s.acqs|
  {
    var a := s.acqs[id];
    var (db, won) := SetNxPx(s.db, s.now, a.key, a.token, a.ttl);
    if won then
      s.(db := db,
         acqs := s.acqs[id := a.(phase := SetWon, wonAt := s.now, wonOrder := s.order, lease := s.now + a.ttl)],
         holder := s.holder[a.key := id],
         order := s.order + 1)
    else
      s.(acqs := s.acqs[id := a.(phase := SetRefused)], order := s.order + 1)
  }

  function DoIncr(s: State, id: nat): State
    requires id < |s.acqs|
  {
    var a := s.acqs[id];
    var (db, n) := IncrBy(s.db, s.now, FenceKey(a.key), 1);
    match n
    case Some(fence) =>
      s.(db := db,
         acqs := s.acqs[id := a.(phase := IncrDone, fence := fence, incrAt := s.now, incrOrder := s.order,
                                 heldAtIncr := Holds(s.db, s.now, a.key, a.token))],
         order := s.order + 1)
    case None =>
      s.(acqs := s.acqs[id := a.(phase := IncrRefused)], order := s.order + 1)
  }

  function DoRequest(s: State, r: Request): State
    requires r.id < |s.acqs|
  {
    var a := s.acqs[r.id];
    var s' := s.(pending := s.pending - multiset{r}, order := s.order + 1);
    match r
    case Release(id) =>
      var (db, n) := CompareAndDelete(s.db, s.now, a.key, a.token);
      s'.(db := db, acqs := s.acqs[id := a.(released := a.released + n)])
    case Extend(id, ttl) =>
      var (db, n) := CompareAndExpire(s.db, s.now, a.key, a.token, ttl);
      s'.(db := db, acqs := s.acqs[id := a.(lease := if n > 0 then s.now + ttl else a.lease)])
  }

  function Apply(s: State, step: Step): State
    requires Enabled(s, step)
  {
    match step
    case Tick(ms) => s.(now := s.now + ms)
    case Begin(key, token, ttl) =>
      s.(acqs := s.acqs + [Acq(key, token, ttl, SetSent, 0, 0, 0, 0, false, 0, 0, 0)])
    case ExecSet(id) => DoSet(s, id)
    case DeliverSet(id) => s.(acqs := s.acqs[id := s.acqs[id].(phase := IncrSent)])
    case ExecIncr(id) => DoIncr(s, id)
    case DeliverIncr(id) => s.(acqs := s.acqs[id := s.acqs[id].(phase := Returned)])
    case Send(r) => s.(pending := s.pending + multiset{r})
    case Lose(r) => s.(pending := s.pending - multiset{r})
    case Exec(r) => DoRequest(s, r)
    case Foreign(key, Some(e)) => s.(db := s.db[key := e])
    case Foreign(key, None) => s.(db := s.db - {key})
  }

  function Init(names: set<string>): State {
    State(0, map[], names, [], multiset{}, map[], 0)
  }

  ghost predicate Run(s: State, steps: seq<Step>)
    decreases |steps|
  {
    steps == [] || (Enabled(s, steps[0]) && Run(Apply(s, steps[0]), steps[1..]))
  }

  ghost function After(s: State, steps: seq<Step>): State
    requires Run(s, steps)
    decreases |steps|
  {
    if steps == [] then s else After(Apply(s, steps[0]), steps[1..])
  }

  // ----- the invariant -----

  /** The token of acquisition `i` is what a GET of its key would return. */
  predicate Stored(s: State, i: nat)
    requires i < |s.acqs|
  {
    Holds(s.db, s.now, s.acqs[i].key, s.acqs[i].token)
  }

  /** What the history says: won, not released, and the last expiry not passed. */
  predicate Owns(s: State, i: nat)
    requires i < |s.acqs|
  {
    s.acqs[i].Won() && s.acqs[i].released == 0 && s.now <= s.acqs[i].lease
  }

  /** `j` won the key of `i` after `i` did. */
  predicate Later(s: State, i: nat, j: nat)
    requires i < |s.acqs| && j < |s.acqs|
  {
    s.acqs[i].key == s.acqs[j].key && s.acqs[i].Won() && s.acqs[j].Won() && s.acqs[i].wonOrder < s.acqs[j].wonOrder
  }

  /** The fences drawn so far for lock `k`, as its fence key counts them. */
  function Counter(s: State, k: string): nat {
    if FenceKey(k) in s.db && s.db[FenceKey(k)].value.Integer? && s.db[FenceKey(k)].value.n >= 0
    then s.db[FenceKey(k)].value.n
    else 0
  }

  /** A stored lock entry belongs to the last winner of its key and carries that winner's
      lease; the fence counter is a positive integer that never expires. */
  predicate KeyOk(s: State, k: string) {
    && (k in s.db ==>
          && k in s.holder
          && s.holder[k] < |s.acqs|
          && var a := s.acqs[s.holder[k]];
             a.key == k && a.Won() && a.released == 0 && s.db[k] == Entry(Text(a.token), Some(a.lease)))
    && (FenceKey(k) in s.db ==>
          var e := s.db[FenceKey(k)]; e.value.Integer? && e.value.n >= 1 && e.expiry == None)
  }

  predicate AcqOk(s: State, i: nat)
    requires i < |s.acqs|
  {
    var a := s.acqs[i];
    && a.key in s.names
    && (Owns(s, i) ==> a.key in s.db && a.key in s.holder && s.holder[a.key] == i)
    && (a.Won() ==> a.wonOrder < s.order)
    && a.released <= 1
    && (a.phase.SetSent? ==> a.released == 0)
    // Until the caller has a lock object nobody can extend or release it.
    && (a.Won() && !a.phase.Returned? ==> a.lease == a.wonAt + a.ttl && a.released == 0)
    && (a.Fenced() ==>
          && a.incrOrder < s.order
          && 1 <= a.fence <= Counter(s, a.key)
          && (a.heldAtIncr <==> a.incrAt <= a.wonAt + a.ttl))
  }

  /** Tokens differ, and an acquisition overtaken by a later winner no longer owns. */
  predicate PairOwnership(s: State, i: nat, j: nat)
    requires i < |s.acqs| && j < |s.acqs|
  {
    && s.acqs[i].token != s.acqs[j].token
    && (Later(s, i, j) ==> !Owns(s, i))
  }

  /** Fences follow the order of the INCRs, and an INCR made in time precedes every later winner's. */
  predicate PairFences(s: State, i: nat, j: nat)
    requires i < |s.acqs| && j < |s.acqs|
  {
    var a, b := s.acqs[i], s.acqs[j];
    a.key == b.key && a.Fenced() && b.Fenced() ==>
      && a.fence != b.fence
      && (a.fence < b.fence <==> a.incrOrder < b.incrOrder)
      && (a.wonOrder < b.wonOrder && a.heldAtIncr ==> a.fence < b.fence)
  }

  predicate PairOk(s: State, i: nat, j: nat)
    requires i < |s.acqs| && j < |s.acqs|
  {
    PairOwnership(s, i, j) && PairFences(s, i, j)
  }

  predicate RequestOk(s: State, r: Request) {
    r.id < |s.acqs| && s.acqs[r.id].phase.Returned?
  }

  ghost predicate Inv(s: State) {
    && NoAlias(s.names)
    && (forall k :: k in s.names ==> KeyOk(s, k))
    && (forall i :: 0 <= i < |s.acqs| ==> AcqOk(s, i))
    && (forall i, j :: 0 <= i < |s.acqs| && 0 <= j < |s.acqs| && i != j ==> PairOk(s, i, j))
    && (forall r :: r in s.pending ==> RequestOk(s, r))
  }

  lemma FenceKeyInjective(j: string, k: string)
    requires FenceKey(j) == FenceKey(k)
    ensures j == k
  {
    assert FenceKey(j)[6..] == j && FenceKey(k)[6..] == k;
  }

  /** The server agrees with the history: a token is stored exactly while its acquisition owns. */
  lemma StoredIffOwns(s: State, i: nat)
    requires Inv(s) && i < |s.acqs|
    ensures Stored(s, i) <==> Owns(s, i)
  {
    assert AcqOk(s, i) && KeyOk(s, s.acqs[i].key);
    forall j | 0 <= j < |s.acqs| && j != i ensures s.acqs[j].token != s.acqs[i].token {
      assert PairOk(s, i, j);
    }
  }

  lemma InitInv(names: set<string>)
    requires NoAlias(names)
    ensures Inv(Init(names))
  {
  }

  // ----- every step keeps it -----

  lemma TickInv(s: State, ms: nat)
    requires Inv(s)
    ensures Inv(Apply(s, Tick(ms)))
  {
    var s' := s.(now := s.now + ms);
    forall k | k in s.names ensures KeyOk(s', k) { assert KeyOk(s, k); }
    forall i | 0 <= i < |s.acqs| ensures AcqOk(s', i) { assert AcqOk(s, i); }
    forall i, j | 0 <= i < |s.acqs| && 0 <= j < |s.acqs| && i != j ensures PairOk(s', i, j) {
      assert PairOk(s, i, j);
    }
    forall r | r in s'.pending ensures RequestOk(s', r) { assert RequestOk(s, r); }
  }

  lemma BeginInv(s: State, key: string, token: string, ttl: nat)
    requires Inv(s) && Enabled(s, Begin(key, token, ttl))
    ensures Inv(Apply(s, Begin(key, token, ttl)))
  {
    var s' := Apply(s, Begin(key, token, ttl));
    forall k | k in s.names ensures KeyOk(s', k) { assert KeyOk(s, k); }
    forall i | 0 <= i < |s'.acqs| ensures AcqOk(s', i) {
      if i < |s.acqs| { assert AcqOk(s, i); }
    }
    forall i, j | 0 <= i < |s'.acqs| && 0 <= j < |s'.acqs| && i != j ensures PairOk(s', i, j) {
      if i < |s.acqs| && j < |s.acqs| { assert PairOk(s, i, j); }
    }
    forall r | r in s'.pending ensures RequestOk(s', r) { assert RequestOk(s, r); }
  }

  /** A client's own step: a reply arrives, and the phase moves on. */
  lemma DeliverInv(s: State, id: nat, phase: Phase)
    requires Inv(s) && id < |s.acqs|
    requires (s.acqs[id].phase.SetWon? && phase == IncrSent) || (s.acqs[id].phase.IncrDone? && phase == Returned)
    ensures Inv(s.(acqs := s.acqs[id := s.acqs[id].(phase := phase)]))
  {
    var s' := s.(acqs := s.acqs[id := s.acqs[id].(phase := phase)]);
    forall k | k in s.names ensures KeyOk(s', k) { assert KeyOk(s, k); }
    forall i | 0 <= i < |s'.acqs| ensures AcqOk(s', i) { assert AcqOk(s, i); }
    forall i, j | 0 <= i < |s'.acqs| && 0 <= j < |s'.acqs| && i != j ensures PairOk(s', i, j) {
      assert PairOk(s, i, j);
    }
    forall r | r in s'.pending ensures RequestOk(s', r) { assert RequestOk(s, r); }
  }

  lemma MessageInv(s: State, pending: multiset<Request>)
    requires Inv(s) && forall r :: r in pending ==> RequestOk(s, r)
    ensures Inv(s.(pending := pending))
  {
    var s' := s.(pending := pending);
    forall k | k in s.names ensures KeyOk(s', k) { assert KeyOk(s, k); }
    forall i | 0 <= i < |s'.acqs| ensures AcqOk(s', i) { assert AcqOk(s, i); }
    forall i, j | 0 <= i < |s'.acqs| && 0 <= j < |s'.acqs| && i != j ensures PairOk(s', i, j) {
      assert PairOk(s, i, j);
    }
    forall r | r in s'.pending ensures RequestOk(s', r) { assert RequestOk(s, r); }
  }

  lemma ForeignInv(s: State, key: string, db: Db)
    requires Inv(s) && key !in s.names && !IsFenceKey(s.names, key)
    requires db - {key} == s.db - {key}
    ensures Inv(s.(db := db))
  {
    var s' := s.(db := db);
    forall k | k in s.names ensures KeyOk(s', k) && Counter(s', k) == Counter(s, k) && SameEntry(s.db, db, k) {
      assert KeyOk(s, k);
      SameElsewhere(s.db, db, key, k);
      SameElsewhere(s.db, db, key, FenceKey(k));
    }
    forall i | 0 <= i < |s'.acqs| ensures AcqOk(s', i) { assert AcqOk(s, i); }
    forall i, j | 0 <= i < |s'.acqs| && 0 <= j < |s'.acqs| && i != j ensures PairOk(s', i, j) {
      assert PairOk(s, i, j);
    }
    forall r | r in s'.pending ensures RequestOk(s', r) { assert RequestOk(s, r); }
  }

  predicate SameEntry(db: Db, db': Db, k: string) {
    (k in db <==> k in db') && (k in db ==> db[k] == db'[k])
  }

  lemma SameElsewhere(db: Db, db': Db, key: string, k: string)
    requires db' - {key} == db - {key} && k != key
    ensures SameEntry(db, db', k)
  {
    assert k in db <==> k in db - {key};
    assert k in db' <==> k in db' - {key};
    if k in db {
      assert db[k] == (db - {key})[k] == (db' - {key})[k] == db'[k];
    }
  }

  lemma SetKeys(s: State, id: nat, k: string)
    requires Inv(s) && Enabled(s, ExecSet(id)) && k in s.names
    ensures KeyOk(DoSet(s, id), k) && Counter(DoSet(s, id), k) == Counter(s, k)
  {
    var key := s.acqs[id].key;
    assert AcqOk(s, id) && KeyOk(s, key) && KeyOk(s, k);
    assert FenceKey(k) != key;
  }

  lemma SetAcq(s: State, id: nat, i: nat)
    requires Inv(s) && Enabled(s, ExecSet(id)) && i < |s.acqs|
    ensures AcqOk(DoSet(s, id), i)
  {
    var key := s.acqs[id].key;
    assert AcqOk(s, id) && AcqOk(s, i) && KeyOk(s, key);
    SetKeys(s, id, s.acqs[i].key);
    StoredIffOwns(s, i);
    hide Inv;
  }

  lemma SetOwnership(s: State, id: nat, i: nat, j: nat)
    requires Inv(s) && Enabled(s, ExecSet(id)) && i < |s.acqs| && j < |s.acqs| && i != j
    ensures PairOwnership(DoSet(s, id), i, j)
  {
    assert PairOk(s, i, j) && AcqOk(s, i) && AcqOk(s, j) && AcqOk(s, id);
    StoredIffOwns(s, i);
    hide Inv;
  }

  lemma SetPair(s: State, id: nat, i: nat, j: nat)
    requires Inv(s) && Enabled(s, ExecSet(id)) && i < |s.acqs| && j < |s.acqs| && i != j
    ensures PairOk(DoSet(s, id), i, j)
  {
    assert PairOk(s, i, j);
    SetOwnership(s, id, i, j);
  }

  lemma SetInv(s: State, id: nat)
    requires Inv(s) && Enabled(s, ExecSet(id))
    ensures Inv(DoSet(s, id))
  {
    var s' := DoSet(s, id);
    forall k | k in s.names ensures KeyOk(s', k) { SetKeys(s, id, k); }
    forall i | 0 <= i < |s'.acqs| ensures AcqOk(s', i) { SetAcq(s, id, i); }
    forall i, j | 0 <= i < |s'.acqs| && 0 <= j < |s'.acqs| && i != j ensures PairOk(s', i, j) {
      SetPair(s, id, i, j);
    }
    forall q | q in s'.pending ensures RequestOk(s', q) { assert RequestOk(s, q); }
  }

  lemma IncrKeys(s: State, id: nat, k: string)
    requires Inv(s) && Enabled(s, ExecIncr(id)) && k in s.names
    ensures KeyOk(DoIncr(s, id), k) && Counter(s, k) <= Counter(DoIncr(s, id), k)
    ensures SameEntry(s.db, DoIncr(s, id).db, k)
  {
    var key := s.acqs[id].key;
    assert AcqOk(s, id) && KeyOk(s, key) && KeyOk(s, k);
    assert FenceKey(key) != k;
    if k != key && FenceKey(k) == FenceKey(key) { FenceKeyInjective(k, key); }
  }

  lemma IncrAcq(s: State, id: nat, i: nat)
    requires Inv(s) && Enabled(s, ExecIncr(id)) && i < |s.acqs|
    ensures AcqOk(DoIncr(s, id), i)
  {
    assert AcqOk(s, id) && AcqOk(s, i) && KeyOk(s, s.acqs[id].key);
    IncrKeys(s, id, s.acqs[i].key);
    StoredIffOwns(s, id);
  }

  lemma IncrDraws(s: State, id: nat)
    requires Inv(s) && Enabled(s, ExecIncr(id)) && DoIncr(s, id).acqs[id].phase.IncrDone?
    ensures DoIncr(s, id).acqs[id].fence == Counter(s, s.acqs[id].key) + 1
    ensures DoIncr(s, id).acqs[id].heldAtIncr <==> Owns(s, id)
  {
    assert AcqOk(s, id) && KeyOk(s, s.acqs[id].key);
    StoredIffOwns(s, id);
  }

  /** An INCR fails exactly when the fence counter has reached the largest 64-bit integer. */
  lemma IncrFailsExactly(s: State, id: nat)
    requires Inv(s) && Enabled(s, ExecIncr(id))
    ensures |DoIncr(s, id).acqs| == |s.acqs|
    ensures var a := DoIncr(s, id).acqs[id];
            && (a.key, a.token, a.ttl, a.wonAt)
               == (s.acqs[id].key, s.acqs[id].token, s.acqs[id].ttl, s.acqs[id].wonAt)
            && if Counter(s, s.acqs[id].key) < I64_MAX
            then a.phase == IncrDone && a.fence == Counter(s, s.acqs[id].key) + 1
            else a.phase == IncrRefused
  {
    assert AcqOk(s, id) && KeyOk(s, s.acqs[id].key);
    hide Inv;
  }

  lemma IncrPair(s: State, id: nat, i: nat, j: nat)
    requires Inv(s) && Enabled(s, ExecIncr(id)) && i < |s.acqs| && j < |s.acqs| && i != j
    ensures PairOk(DoIncr(s, id), i, j)
  {
    var s' := DoIncr(s, id);
    assert PairOk(s, i, j);
    assert PairOwnership(s', i, j);
    if s'.acqs[id].phase.IncrDone? && (id == i || id == j) {
      assert AcqOk(s, i) && AcqOk(s, j);
      IncrDraws(s, id);
      hide Inv, IncrBy;
    }
  }

  lemma IncrInv(s: State, id: nat)
    requires Inv(s) && Enabled(s, ExecIncr(id))
    ensures Inv(DoIncr(s, id))
  {
    var s' := DoIncr(s, id);
    forall k | k in s.names ensures KeyOk(s', k) { IncrKeys(s, id, k); }
    forall i | 0 <= i < |s'.acqs| ensures AcqOk(s', i) { IncrAcq(s, id, i); }
    forall i, j | 0 <= i < |s'.acqs| && 0 <= j < |s'.acqs| && i != j ensures PairOk(s', i, j) {
      IncrPair(s, id, i, j);
    }
    forall q | q in s'.pending ensures RequestOk(s', q) { assert RequestOk(s, q); }
  }

  lemma RequestKeys(s: State, r: Request, k: string)
    requires Inv(s) && Enabled(s, Exec(r)) && k in s.names
    ensures KeyOk(DoRequest(s, r), k) && Counter(DoRequest(s, r), k) == Counter(s, k)
  {
    var key := s.acqs[r.id].key;
    assert AcqOk(s, r.id) && KeyOk(s, key) && KeyOk(s, k);
    assert FenceKey(k) != key;
    StoredIffOwns(s, r.id);
  }

  lemma RequestAcq(s: State, r: Request, i: nat)
    requires Inv(s) && Enabled(s, Exec(r)) && i < |s.acqs|
    ensures AcqOk(DoRequest(s, r), i)
  {
    assert AcqOk(s, r.id) && AcqOk(s, i) && KeyOk(s, s.acqs[r.id].key) && RequestOk(s, r);
    RequestKeys(s, r, s.acqs[i].key);
    StoredIffOwns(s, r.id);
  }

  lemma RequestPair(s: State, r: Request, i: nat, j: nat)
    requires Inv(s) && Enabled(s, Exec(r)) && i < |s.acqs| && j < |s.acqs| && i != j
    ensures PairOk(DoRequest(s, r), i, j)
  {
    assert PairOk(s, i, j) && AcqOk(s, i) && AcqOk(s, r.id) && RequestOk(s, r);
    StoredIffOwns(s, r.id);
  }

  lemma RequestInv(s: State, r: Request)
    requires Inv(s) && Enabled(s, Exec(r))
    ensures Inv(DoRequest(s, r))
  {
    var s' := DoRequest(s, r);
    forall k | k in s.names ensures KeyOk(s', k) { RequestKeys(s, r, k); }
    forall i | 0 <= i < |s'.acqs| ensures AcqOk(s', i) { RequestAcq(s, r, i); }
    forall i, j | 0 <= i < |s'.acqs| && 0 <= j < |s'.acqs| && i != j ensures PairOk(s', i, j) {
      RequestPair(s, r, i, j);
    }
    forall q | q in s'.pending ensures RequestOk(s', q) { assert RequestOk(s, q); }
  }

  lemma StepInv(s: State, step: Step)
    requires Inv(s) && Enabled(s, step)
    ensures Inv(Apply(s, step))
  {
    match step
    case Tick(ms) => TickInv(s, ms);
    case Begin(key, token, ttl) => BeginInv(s, key, token, ttl);
    case ExecSet(id) => SetInv(s, id);
    case DeliverSet(id) => DeliverInv(s, id, IncrSent);
    case ExecIncr(id) => IncrInv(s, id);
    case DeliverIncr(id) => DeliverInv(s, id, Returned);
    case Send(r) => MessageInv(s, s.pending + multiset{r});
    case Lose(r) => MessageInv(s, s.pending - multiset{r});
    case Exec(r) => RequestInv(s, r);
    case Foreign(key, Some(e)) => ForeignInv(s, key, s.db[key := e]);
    case Foreign(key, None) => ForeignInv(s, key, s.db - {key});
  }

  lemma {:induction false} RunInv(s: State, steps: seq<Step>)
    requires Inv(s) && Run(s, steps)
    ensures Inv(After(s, steps))
    decreases |steps|
  {
    if steps != [] {
      StepInv(s, steps[0]);
      RunInv(Apply(s, steps[0]), steps[1..]);
    }
  }
}
