/** Retry configuration and the exponential backoff, over exact arithmetic. */
module Backoff {
  import opened Common
  import opened Words

  /** A floating-point argument: either a finite value, or NaN or an infinity. */
  datatype Float = Finite(value: real) | NotFinite

  datatype RetryConfig = RetryConfig(
    maxAttempts: U32,
    initialBackoff: Duration,
    maxBackoff: Duration,
    multiplier: real,
    jitter: bool,
    deadline: Option<Duration>)
  {
    /** What every configuration built by the constructors and setters satisfies. */
    predicate Valid() {
      && maxAttempts >= 1
      && initialBackoff <= maxBackoff
      && multiplier >= 1.0
    }

    /** Every setter changes its own setting and keeps the others. */
    function WithMultiplier(m: Float): (c: RetryConfig)
      requires Valid()
      ensures c.Valid() && c.(multiplier := multiplier) == this
      ensures m.Finite? && m.value > 1.0 ==> c.multiplier == m.value
      ensures m.NotFinite? || m.value <= 1.0 ==> c.multiplier == 1.0
    {
      this.(multiplier := if m.Finite? && m.value > 1.0 then m.value else 1.0)
    }

    function WithDeadline(d: Duration): (c: RetryConfig)
      requires Valid()
      ensures c.Valid() && c.(deadline := deadline) == this && c.deadline == Some(d)
    {
      this.(deadline := Some(d))
    }

    function WithoutJitter(): (c: RetryConfig)
      requires Valid()
      ensures c.Valid() && c.(jitter := jitter) == this && !c.jitter
    {
      this.(jitter := false)
    }
  }

  /** At least one attempt, otherwise as many as asked for; jitter and no deadline. */
  predicate AsAsked(c: RetryConfig, maxAttempts: U32) {
    c.Valid() && c.maxAttempts == (if maxAttempts == 0 then 1 else maxAttempts) && c.jitter && c.deadline.None?
  }

  function Fixed(maxAttempts: U32, delay: Duration): (c: RetryConfig)
    ensures AsAsked(c, maxAttempts)
    ensures c.initialBackoff == c.maxBackoff == delay
  {
    RetryConfig(if maxAttempts < 1 then 1 else maxAttempts, delay, delay, 1.0, true, None)
  }

  function Exponential(maxAttempts: U32, initial: Duration, maxBackoff: Duration): (c: RetryConfig)
    ensures AsAsked(c, maxAttempts)
    ensures c.maxBackoff == maxBackoff && c.multiplier == 2.0
    ensures initial <= maxBackoff ==> c.initialBackoff == initial
    ensures maxBackoff < initial ==> c.initialBackoff == maxBackoff
  {
    RetryConfig(if maxAttempts < 1 then 1 else maxAttempts, Min(initial, maxBackoff), maxBackoff, 2.0, true, None)
  }

  function Power(m: real, n: nat): (p: real)
    requires m >= 1.0
    ensures p >= 1.0
  {
    if n == 0 then 1.0
    else
      GrowsBy(Power(m, n - 1), m);
      Power(m, n - 1) * m
  }

  lemma GrowsBy(p: real, m: real)
    requires p >= 0.0 && m >= 1.0
    ensures p * m >= p
  {
    assert p * m - p == p * (m - 1.0);
  }

  /** `initial * multiplier^n`. */
  function Growth(c: RetryConfig, n: nat): (d: Duration)
    requires c.Valid()
    ensures d >= c.initialBackoff
  {
    GrowsBy(c.initialBackoff, Power(c.multiplier, n));
    c.initialBackoff * Power(c.multiplier, n)
  }

  lemma GrowthStep(c: RetryConfig, n: nat)
    requires c.Valid()
    ensures Growth(c, n + 1) == Growth(c, n) * c.multiplier
    ensures Growth(c, n) <= Growth(c, n + 1)
  {
    Associate(c.initialBackoff, Power(c.multiplier, n), c.multiplier);
    GrowsBy(Growth(c, n), c.multiplier);
  }

  lemma Associate(a: real, b: real, c: real)
    ensures a * (b * c) == (a * b) * c
  {
  }

  lemma {:induction false} GrowthMonotone(c: RetryConfig, m: nat, n: nat)
    requires c.Valid() && m <= n
    ensures Growth(c, m) <= Growth(c, n)
    decreases n
  {
    if m < n {
      GrowthMonotone(c, m, n - 1);
      GrowthStep(c, n - 1);
    }
  }

  /** The documented backoff: nothing before the first failure, then exponential up to the cap. */
  function ClosedForm(c: RetryConfig, attempt: nat): (d: Duration)
    requires c.Valid()
    ensures d <= c.maxBackoff
  {
    if attempt == 0 then 0.0 else Min(c.maxBackoff, Growth(c, attempt - 1))
  }

  /** The loop, with its early exit, computes the closed form for every configuration. */
  method BackoffFor(c: RetryConfig, attempt: U32) returns (delay: Duration)
    requires c.Valid()
    ensures delay == ClosedForm(c, attempt)
  {
    if attempt == 0 {
      return 0.0;
    }
    var cap := c.maxBackoff;
    delay := c.initialBackoff;
    var index := 1;
    while index < attempt
      invariant 1 <= index <= attempt
      invariant delay == Growth(c, index - 1)
    {
      GrowthStep(c, index - 1);
      var scaled := delay * c.multiplier;
      if scaled >= cap {
        GrowthMonotone(c, index, attempt - 1);
        return cap;
      }
      delay := scaled;
      index := index + 1;
    }
    delay := Min(delay, cap);
  }

  lemma BackoffMonotone(c: RetryConfig, m: nat, n: nat)
    requires c.Valid() && m <= n
    ensures ClosedForm(c, m) <= ClosedForm(c, n) <= c.maxBackoff
    ensures 0 < m ==> c.initialBackoff <= ClosedForm(c, m)
  {
    if 0 < m {
      GrowthMonotone(c, m - 1, n - 1);
    }
  }

  /** The backoffs one after another: none before a failure, then the initial one, then the
      previous one times the multiplier, up to the cap. */
  lemma BackoffSteps(c: RetryConfig, attempt: nat)
    requires c.Valid()
    ensures ClosedForm(c, 0) == 0.0 && ClosedForm(c, 1) == c.initialBackoff
    ensures attempt >= 1 ==>
              IsCapped(ClosedForm(c, attempt + 1), c.maxBackoff, ClosedForm(c, attempt) * c.multiplier)
  {
    assert Power(c.multiplier, 0) == 1.0;
    if attempt >= 1 {
      GrowthStep(c, attempt - 1);
      GrowsBy(c.maxBackoff, c.multiplier);
      if ClosedForm(c, attempt) == c.maxBackoff {
        assert Growth(c, attempt) >= c.maxBackoff;
      }
    }
  }

  /** `initial * multiplier^(attempt-1)`. */
  function Uncapped(initial: Duration, multiplier: real, attempt: nat): real
    requires multiplier >= 1.0 && attempt >= 1
  {
    initial * Power(multiplier, attempt - 1)
  }

  /** The documented formula holds for the arguments of the constructor, also for an initial
      backoff above the cap: the wait is the uncapped one, up to the cap. */
  lemma DocumentedBackoff(maxAttempts: U32, initial: Duration, maxBackoff: Duration, m: Float, attempt: nat)
    requires attempt >= 1
    ensures var c := Exponential(maxAttempts, initial, maxBackoff);
            var factor := if m.Finite? && m.value > 1.0 then m.value else 1.0;
            && IsCapped(ClosedForm(c, attempt), maxBackoff, Uncapped(initial, 2.0, attempt))
            && IsCapped(ClosedForm(c.WithMultiplier(m), attempt), maxBackoff, Uncapped(initial, factor, attempt))
  {
    hide ClosedForm, IsCapped, Uncapped;
    var c := Exponential(maxAttempts, initial, maxBackoff);
    CappedFormula(c, initial, attempt);
    CappedFormula(c.WithMultiplier(m), initial, attempt);
  }

  lemma CappedFormula(c: RetryConfig, initial: Duration, attempt: nat)
    requires c.Valid() && attempt >= 1 && c.initialBackoff == Min(initial, c.maxBackoff)
    ensures IsCapped(ClosedForm(c, attempt), c.maxBackoff, Uncapped(initial, c.multiplier, attempt))
  {
    var p := Power(c.multiplier, attempt - 1);
    hide Power, IsCapped;
    CapFirst(initial, c.maxBackoff, p);
  }

  /** `d` is the smaller of `cap` and `x`. */
  predicate IsCapped(d: real, cap: real, x: real) {
    d <= cap && d <= x && (d == cap || d == x)
  }

  lemma CapFirst(initial: Duration, cap: Duration, p: real)
    requires p >= 1.0
    ensures Min(initial, cap) * p >= 0.0 && IsCapped(Min(cap, Min(initial, cap) * p), cap, initial * p)
  {
    GrowsBy(initial, p);
    GrowsBy(cap, p);
  }

  lemma JitterAside(c: RetryConfig, attempt: nat)
    requires c.Valid()
    ensures ClosedForm(c.WithoutJitter(), attempt) == ClosedForm(c, attempt)
  {
  }

  /** A fixed-interval configuration waits the same time after every failure. */
  lemma {:induction false} FixedIsConstant(maxAttempts: U32, delay: Duration, attempt: nat)
    requires attempt >= 1
    ensures ClosedForm(Fixed(maxAttempts, delay), attempt) == delay
  {
    BackoffMonotone(Fixed(maxAttempts, delay), attempt, attempt);
  }
}
