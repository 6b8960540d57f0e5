/** The key-value commands, their effect on the server, and their retry classification. */
module KvCommands {
  import opened Common
  import opened Keyspace

  datatype Command =
    | Get(key: string)
    | Set(key: string, text: string)
    | SetEx(key: string, text: string, ttl: nat)
    | Del(key: string)
    | Exists(key: string)
    | Incr(key: string, delta: int)
    | Expire(key: string, ttl: nat)
    | Ttl(key: string)
    | Mget(keys: seq<string>)
    | Mset(items: seq<(string, string)>)

  datatype Reply =
    | Found(value: Option<Value>)
    | Stored
    | Flag(yes: bool)
    | Number(n: int)
    | Remaining(millis: Option<nat>)
    | Many(values: seq<Option<Value>>)

  datatype RetrySafety = ReadOnly | Idempotent | AmbiguousWrite | NeverAutomatic

  function Safety(cmd: Command): RetrySafety {
    match cmd
    case Get(_) | Exists(_) | Ttl(_) | Mget(_) => ReadOnly
    case Set(_, _) | SetEx(_, _, _) | Del(_) | Expire(_, _) | Mset(_) => AmbiguousWrite
    case Incr(_, _) => NeverAutomatic
  }

  predicate AllowsRetry(safety: RetrySafety) {
    safety.ReadOnly? || safety.Idempotent?
  }

  /** A ttl is checked before the command is sent: `PSETEX` takes an unsigned 64-bit number
      of milliseconds, `PEXPIRE` a signed one. */
  predicate Sendable(cmd: Command) {
    match cmd
    case SetEx(_, _, ttl) => TtlMillis(ttl).Ok?
    case Expire(_, ttl) => TtlMillis(ttl).Ok? && TtlMillis(ttl).value <= I64_MAX
    case Incr(_, delta) => I64_MIN <= delta <= I64_MAX
    case _ => true
  }

  function ValueAt(db: Db, now: nat, key: string): Option<Value> {
    var e := Lookup(db, now, key);
    if e.Some? then Some(e.value.value) else None
  }

  function StoreAll(db: Db, items: seq<(string, string)>): Db {
    if items == [] then db
    else StoreAll(db, items[..|items| - 1])[items[|items| - 1].0 := Entry(Text(items[|items| - 1].1), None)]
  }

  /** One atomic execution at the server instant `now`. */
  function Execute(db: Db, now: nat, cmd: Command): (Db, Result<Reply>)
    requires Sendable(cmd)
  {
    match cmd
    case Get(key) => (db, Ok(Found(ValueAt(db, now, key))))
    case Set(key, text) => (db[key := Entry(Text(text), None)], Ok(Stored))
    case SetEx(key, text, ttl) => (db[key := Entry(Text(text), Some(now + TtlMillis(ttl).value))], Ok(Stored))
    case Del(key) =>
      if Lookup(db, now, key).Some? then (db - {key}, Ok(Flag(true))) else (db, Ok(Flag(false)))
    case Exists(key) => (db, Ok(Flag(Lookup(db, now, key).Some?)))
    case Incr(key, delta) =>
      var (db', n) := IncrBy(db, now, key, delta);
      (db', if n.Some? then Ok(Number(n.value)) else Err(Internal))
    case Expire(key, ttl) =>
      if Lookup(db, now, key).Some? then
        (db[key := db[key].(expiry := Some(now + TtlMillis(ttl).value))], Ok(Flag(true)))
      else (db, Ok(Flag(false)))
    case Ttl(key) =>
      (match Lookup(db, now, key)
       case None => (db, Err(Missing))
       case Some(Entry(_, None)) => (db, Ok(Remaining(None)))
       case Some(Entry(_, Some(expiry))) =>
         (db, Ok(Remaining(Some(if now < expiry then expiry - now else 0)))))
    case Mget(keys) => (db, Ok(Many(seq(|keys|, i requires 0 <= i < |keys| => ValueAt(db, now, keys[i])))))
    case Mset(items) => (StoreAll(db, items), Ok(Stored))
  }

  ghost predicate NeverWrites(cmd: Command)
    requires Sendable(cmd)
  {
    forall db: Db, now: nat :: Execute(db, now, cmd).0 == db
  }

  /** The classification is exact: apart from an empty MSET, which is answered without
      being sent, automatic retry is allowed for exactly the commands that never change the
      server's state. */
  lemma RetryOnlyForReads(cmd: Command)
    requires Sendable(cmd) && cmd != Mset([])
    ensures AllowsRetry(Safety(cmd)) <==> NeverWrites(cmd)
  {
    if !AllowsRetry(Safety(cmd)) {
      var empty: Db := map[];
      match cmd {
        case Set(key, _) => assert key in Execute(empty, 0, cmd).0;
        case SetEx(key, _, _) => assert key in Execute(empty, 0, cmd).0;
        case Incr(key, _) => assert key in Execute(empty, 0, cmd).0;
        case Mset(items) => assert items[|items| - 1].0 in Execute(empty, 0, cmd).0;
        case Del(key) =>
          var db := map[key := Entry(Integer(0), None)];
          assert key in db && key !in Execute(db, 0, cmd).0;
        case Expire(key, _) =>
          var db := map[key := Entry(Integer(0), None)];
          assert db[key].expiry != Execute(db, 0, cmd).0[key].expiry;
      }
    }
  }

  // ----- what the replies mean -----

  function After(db: Db, now: nat, cmd: Command): Db
    requires Sendable(cmd)
  {
    Execute(db, now, cmd).0
  }

  function ReplyTo(db: Db, now: nat, cmd: Command): Result<Reply>
    requires Sendable(cmd)
  {
    Execute(db, now, cmd).1
  }

  /** What is set can be read: for good, or until the ttl has passed; other keys stay. */
  lemma ReadYourWrites(db: Db, at: nat, now: nat, key: string, other: string, text: string, ttl: nat)
    requires at <= now && other != key
    ensures ReplyTo(After(db, at, Set(key, text)), now, Get(key)) == Ok(Found(Some(Text(text))))
    ensures ReplyTo(After(db, at, Set(key, text)), now, Get(other)) == ReplyTo(db, now, Get(other))
    ensures TtlMillis(ttl).Ok? ==>
              var after := After(db, at, SetEx(key, text, ttl));
              && ReplyTo(after, now, Get(key))
                 == Ok(Found(if now <= at + TtlMillis(ttl).value then Some(Text(text)) else None))
              && ReplyTo(after, now, Get(other)) == ReplyTo(db, now, Get(other))
  {
  }

  /** `PTTL`: missing keys are an error, keys without an expiry have none, and the others have
      what is left of the ttl they were given. */
  lemma TimeToLive(db: Db, at: nat, now: nat, key: string, text: string, ttl: nat)
    requires at <= now && TtlMillis(ttl).Ok? && TtlMillis(ttl).value <= I64_MAX
    ensures ReplyTo(db, at, Ttl(key)) == Err(Missing) <==> ReplyTo(db, at, Exists(key)) == Ok(Flag(false))
    ensures ReplyTo(After(db, at, Set(key, text)), now, Ttl(key)) == Ok(Remaining(None))
    ensures var left := at + TtlMillis(ttl).value - now;
            var reply := if left >= 0 then Ok(Remaining(Some(left))) else Err(Missing);
            && ReplyTo(After(db, at, SetEx(key, text, ttl)), now, Ttl(key)) == reply
            && (ReplyTo(db, at, Expire(key, ttl)) == Ok(Flag(true)) ==>
                  ReplyTo(After(db, at, Expire(key, ttl)), now, Ttl(key)) == reply)
  {
  }

  /** `DEL` and `PEXPIRE` say whether the key was there; the former removes it, the latter
      leaves its value until the new ttl has passed. */
  lemma ExistenceReplies(db: Db, at: nat, now: nat, key: string, other: string, ttl: nat)
    requires at <= now && other != key && TtlMillis(ttl).Ok? && TtlMillis(ttl).value <= I64_MAX
    ensures ReplyTo(db, at, Exists(key)) == Ok(Flag(ReplyTo(db, at, Get(key)) != Ok(Found(None))))
    ensures ReplyTo(db, at, Del(key)) == ReplyTo(db, at, Expire(key, ttl)) == ReplyTo(db, at, Exists(key))
    ensures ReplyTo(After(db, at, Del(key)), now, Get(key)) == Ok(Found(None))
    ensures ReplyTo(After(db, at, Expire(key, ttl)), now, Get(key))
            == if now <= at + TtlMillis(ttl).value then ReplyTo(db, at, Get(key)) else Ok(Found(None))
    ensures ReplyTo(After(db, at, Del(key)), now, Get(other)) == ReplyTo(db, now, Get(other))
    ensures ReplyTo(After(db, at, Expire(key, ttl)), now, Get(other)) == ReplyTo(db, now, Get(other))
  {
  }

  /** `INCRBY` counts a missing key from zero, adds up, and refuses texts and 64-bit overflow
      without effect. */
  lemma IncrementsAddUp(db: Db, now: nat, key: string, delta: int, text: string, before: Option<int>)
    requires I64_MIN <= delta <= I64_MAX
    ensures var incr, found := Incr(key, delta), ReplyTo(db, now, Get(key));
            var sum := delta + if before.Some? then before.value else 0;
            && (found == Ok(Found(Some(Text(text)))) ==>
                  ReplyTo(db, now, incr) == Err(Internal) && After(db, now, incr) == db)
            && (found == Ok(Found(if before.Some? then Some(Integer(before.value)) else None)) ==>
                  if I64_MIN <= sum <= I64_MAX
                  then && ReplyTo(db, now, incr) == Ok(Number(sum))
                       && ReplyTo(After(db, now, incr), now, Get(key)) == Ok(Found(Some(Integer(sum))))
                  else ReplyTo(db, now, incr) == Err(Internal) && After(db, now, incr) == db)
  {
  }

  /** `MGET` answers as many single reads, and `MSET` does what its items set one by one. */
  lemma ManyAtOnce(db: Db, now: nat, keys: seq<string>, items: seq<(string, string)>, key: string, text: string)
    ensures ReplyTo(db, now, Mget(keys)).Ok? && ReplyTo(db, now, Mget(keys)).value.Many?
    ensures var values := ReplyTo(db, now, Mget(keys)).value.values;
            |values| == |keys| && forall i :: 0 <= i < |keys| ==> ReplyTo(db, now, Get(keys[i])) == Ok(Found(values[i]))
    ensures After(db, now, Mset([])) == db
    ensures After(db, now, Mset(items + [(key, text)])) == After(After(db, now, Mset(items)), now, Set(key, text))
  {
    assert (items + [(key, text)])[..|items|] == items;
  }

  /** The ttls that are sent, in nanoseconds: from one millisecond on, as far as the command's
      64-bit integer reaches; the other commands are always sent. */
  lemma SendableTtls(key: string, text: string, ttl: nat)
    ensures Sendable(SetEx(key, text, ttl)) <==> NANOS_PER_MILLI <= ttl < 0x1_0000_0000_0000_0000 * NANOS_PER_MILLI
    ensures Sendable(Expire(key, ttl)) <==> NANOS_PER_MILLI <= ttl < 0x8000_0000_0000_0000 * NANOS_PER_MILLI
    ensures Sendable(Set(key, text)) && Sendable(Del(key)) && Sendable(Get(key)) && Sendable(Ttl(key))
  {
  }
}
