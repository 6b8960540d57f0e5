/** The server's keyspace as the library's commands see it. Every command is one atomic
    step on the keyspace at a server instant `now`, in milliseconds; an entry whose expiry
    has passed is invisible. */
module Keyspace {
  import opened Common
  import Words

  const I64_MAX: int := 0x7FFF_FFFF_FFFF_FFFF
  const I64_MIN: int := -0x8000_0000_0000_0000

  datatype Value = Text(text: string) | Integer(n: int)

  datatype Entry = Entry(value: Value, expiry: Option<nat>)

  type Db = map<string, Entry>

  predicate Live(e: Entry, now: nat) {
    e.expiry.Some? ==> now <= e.expiry.value
  }

  function Lookup(db: Db, now: nat, key: string): Option<Entry> {
    if key in db && Live(db[key], now) then Some(db[key]) else None
  }

  const NANOS_PER_MILLI: nat := 1_000_000

  /** A ttl in nanoseconds as whole milliseconds; zero, sub-millisecond and 64-bit overflow are refused. */
  function TtlMillis(ttl: nat): (r: Result<nat>)
    ensures r.Ok? <==> NANOS_PER_MILLI <= ttl < Words.TWO64 * NANOS_PER_MILLI
    ensures r.Ok? ==> 0 < r.value < Words.TWO64 && r.value * NANOS_PER_MILLI <= ttl < (r.value + 1) * NANOS_PER_MILLI
    ensures r.Err? ==> r.error == Config
  {
    if ttl == 0 || ttl / NANOS_PER_MILLI == 0 then Err(Config)
    else if ttl / NANOS_PER_MILLI >= Words.TWO64 then Err(Config)
    else Ok(ttl / NANOS_PER_MILLI)
  }

  // ----- the lock's commands -----

  /** `SET key token NX PX ttl`. The winner's token is what the key holds from now until the
      ttl has passed, and then no longer; a loser finds another entry and leaves it. No other
      key is touched either way. */
  function SetNxPx(db: Db, now: nat, key: string, token: string, ttl: nat): (r: (Db, bool))
    ensures r.1 ==> forall t :: now <= t ==> (Holds(r.0, t, key, token) <==> t <= now + ttl)
    ensures r.1 ==> forall t :: now + ttl < t ==> Lookup(r.0, t, key).None?
    ensures !r.1 ==> Lookup(db, now, key).Some? && forall t :: Lookup(r.0, t, key) == Lookup(db, t, key)
    ensures forall k, t :: k != key ==> Lookup(r.0, t, k) == Lookup(db, t, k)
  {
    if Lookup(db, now, key).None? then (db[key := Entry(Text(token), Some(now + ttl))], true)
    else (db, false)
  }

  /** `INCRBY key delta`: a missing key counts from zero and keeps no expiry; a text value
      or an overflow is refused without effect. */
  function IncrBy(db: Db, now: nat, key: string, delta: int): (Db, Option<int>) {
    match Lookup(db, now, key)
    case None =>
      if I64_MIN <= delta <= I64_MAX then (db[key := Entry(Integer(delta), None)], Some(delta))
      else (db, None)
    case Some(Entry(Text(_), _)) => (db, None)
    case Some(Entry(Integer(n), expiry)) =>
      if I64_MIN <= n + delta <= I64_MAX then (db[key := Entry(Integer(n + delta), expiry)], Some(n + delta))
      else (db, None)
  }

  predicate Holds(db: Db, now: nat, key: string, token: string) {
    var e := Lookup(db, now, key);
    e.Some? && e.value.value == Text(token)
  }

  /** The release script: delete the key only while it holds `token`. */
  function CompareAndDelete(db: Db, now: nat, key: string, token: string): (Db, int) {
    if Holds(db, now, key, token) then (db - {key}, 1) else (db, 0)
  }

  /** The extend script: renew the expiry only while the key holds `token`. */
  function CompareAndExpire(db: Db, now: nat, key: string, token: string, ttl: nat): (Db, int) {
    if Holds(db, now, key, token) then (db[key := db[key].(expiry := Some(now + ttl))], 1) else (db, 0)
  }
}
