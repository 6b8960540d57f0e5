/** Shared vocabulary: optional values, results and the library's error kinds. */
module Common {

  datatype Option<+T> = None | Some(value: T)

  /** The error kinds of the library; the message texts carry no behaviour. */
  datatype RedisError =
    | Config
    | Connection
    | Backend
    | Serialization
    | Io
    | Timeout
    | Unsupported
    | Transient
    | Conflict
    | Missing
    | Internal
  {
    predicate IsRetryable() {
      Connection? || Transient? || Timeout? || Io?
    }
  }

  datatype Result<+T> = Ok(value: T) | Err(error: RedisError)

  /** Durations and instants, in seconds, over exact arithmetic. */
  type Duration = d: real | d >= 0.0

  function Min(a: Duration, b: Duration): Duration {
    if a <= b then a else b
  }

  /** `Duration::saturating_sub`. */
  function SaturatingSub(a: Duration, b: Duration): Duration {
    if a <= b then 0.0 else a - b
  }
}
