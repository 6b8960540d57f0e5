/** The deterministic jitter: a seed derived from the operation name and the attempt
    number, mixed by splitmix64, then reduced to a factor between one half and one. */
module Jitter {
  import opened Common
  import opened Words

  type Bytes = seq<Byte>
  type Byte = n: nat | n < 256

  const GAMMA: U64 := 0x9E37_79B9_7F4A_7C15
  const MUL1: U64 := 0xBF58_476D_1CE4_E5B9
  const MUL2: U64 := 0x94D0_49BB_1331_11EB
  // Inverses modulo 2^64 of the multipliers.
  const INV1: U64 := 0x96DE_1B17_3F11_9089
  const INV2: U64 := 0x3196_42B2_D24D_8EC3
  const INV31: U64 := 0xEF7B_DEF7_BDEF_7BDF

  // ----- the seed -----

  function HashFrom(seed: U64, op: Bytes): U64 {
    if op == [] then seed
    else WrappingAdd(WrappingMul(HashFrom(seed, op[..|op| - 1]), 31), op[|op| - 1])
  }

  ghost function Pow31(n: nat): nat {
    if n == 0 then 1 else Pow31(n - 1) * 31
  }

  /** The hash of the name alone, as an unbounded number. */
  ghost function NameHash(op: Bytes): nat {
    if op == [] then 0 else NameHash(op[..|op| - 1]) * 31 + op[|op| - 1]
  }

  /** Computes the seed byte by byte; the result is `attempt * 31^|op|` plus a hash of
      the name alone, modulo 2^64. */
  method JitterSeed(attempt: U32, op: Bytes) returns (seed: U64)
    ensures seed == HashFrom(attempt, op)
    ensures seed == (attempt * Pow31(|op|) + NameHash(op)) % TWO64
  {
    seed := attempt;
    for i := 0 to |op|
      invariant seed == HashFrom(attempt, op[..i])
    {
      assert op[..i + 1][..i] == op[..i];
      seed := WrappingAdd(WrappingMul(seed, 31), op[i]);
    }
    assert op[..|op|] == op;
    SeedClosedForm(attempt, op);
  }

  lemma {:induction false} SeedClosedForm(start: U64, op: Bytes)
    ensures HashFrom(start, op) == (start * Pow31(|op|) + NameHash(op)) % TWO64
  {
    if op != [] {
      var front, last := op[..|op| - 1], op[|op| - 1];
      SeedClosedForm(start, front);
      HornerStep(start * Pow31(|front|) + NameHash(front), last);
      Distribute(start, Pow31(|front|), NameHash(front), last);
    }
  }

  lemma Distribute(a: int, p: int, h: int, b: int)
    ensures (a * p + h) * 31 + b == a * (p * 31) + (h * 31 + b)
  {
  }

  lemma {:induction false} HashConcat(start: U64, first: Bytes, rest: Bytes)
    ensures HashFrom(start, first + rest) == HashFrom(HashFrom(start, first), rest)
  {
    if rest == [] {
      assert first + rest == first;
    } else {
      var front := rest[..|rest| - 1];
      assert (first + rest)[..|first + rest| - 1] == first + front;
      HashConcat(start, first, front);
    }
  }

  /** Every byte of the name matters: two names that differ in one byte never share a seed. */
  lemma EveryByteMatters(attempt: U64, first: Bytes, a: Byte, b: Byte, rest: Bytes)
    requires a != b
    ensures HashFrom(attempt, first + [a] + rest) != HashFrom(attempt, first + [b] + rest)
  {
    hide HashFrom;
    HashConcat(attempt, first + [a], rest);
    HashConcat(attempt, first + [b], rest);
    HashAppend(attempt, first, a);
    HashAppend(attempt, first, b);
    LastByteMatters(WrappingMul(HashFrom(attempt, first), 31), a, b);
    if HashFrom(attempt, first + [a] + rest) == HashFrom(attempt, first + [b] + rest) {
      SeedInjective(HashFrom(attempt, first + [a]), HashFrom(attempt, first + [b]), rest);
    }
  }

  lemma HashAppend(start: U64, op: Bytes, byte: Byte)
    ensures HashFrom(start, op + [byte]) == WrappingAdd(WrappingMul(HashFrom(start, op), 31), byte)
  {
    assert (op + [byte])[..|op + [byte]| - 1] == op;
  }

  lemma LastByteMatters(x: U64, a: Byte, b: Byte)
    requires a != b
    ensures WrappingAdd(x, a) != WrappingAdd(x, b)
  {
  }

  lemma HashStepInjective(a: U64, b: U64, byte: Byte)
    requires WrappingAdd(WrappingMul(a, 31), byte) == WrappingAdd(WrappingMul(b, 31), byte)
    ensures a == b
  {
    AddInverse(WrappingMul(a, 31), byte);
    AddInverse(WrappingMul(b, 31), byte);
    assert WrappingMul(31, INV31) == 1;
    MulInverse(a, 31, INV31);
    MulInverse(b, 31, INV31);
  }

  lemma {:induction false} SeedInjective(a: U64, b: U64, op: Bytes)
    requires HashFrom(a, op) == HashFrom(b, op)
    ensures a == b
  {
    if op != [] {
      var front := op[..|op| - 1];
      HashStepInjective(HashFrom(a, front), HashFrom(b, front), op[|op| - 1]);
      SeedInjective(a, b, front);
    }
  }

  // ----- splitmix64 -----

  function Mix1(x: U64): U64 { WrappingMul(XorShift(x, 30), MUL1) }
  function Mix2(x: U64): U64 { WrappingMul(XorShift(x, 27), MUL2) }
  function Mix3(x: U64): U64 { XorShift(x, 31) }

  function Mix(seed: U64): U64 {
    Mix3(Mix2(Mix1(WrappingAdd(seed, GAMMA))))
  }

  // Each round undone: multiply by the inverse, then cancel the shifted copies.
  function Unmix1(y: U64): U64 { UnxorShift(WrappingMul(y, INV1), 30) }
  function Unmix2(y: U64): U64 { UnxorShift(WrappingMul(y, INV2), 27) }
  function Unmix3(y: U64): U64 { UnxorShift(y, 31) }

  function Unmix(y: U64): U64 {
    WrappingSub(Unmix1(Unmix2(Unmix3(y))), GAMMA)
  }

  lemma InverseMultipliers()
    ensures WrappingMul(MUL1, INV1) == 1 && WrappingMul(INV1, MUL1) == 1
    ensures WrappingMul(MUL2, INV2) == 1 && WrappingMul(INV2, MUL2) == 1
  {
  }

  lemma Round1Inverse(x: U64)
    ensures Unmix1(Mix1(x)) == x && Mix1(Unmix1(x)) == x
  {
    InverseMultipliers();
    MulInverse(XorShift(x, 30), MUL1, INV1);
    MulInverse(x, INV1, MUL1);
    XorShiftInverse(x, 30);
    XorShiftInverse(WrappingMul(x, INV1), 30);
  }

  lemma Round2Inverse(x: U64)
    ensures Unmix2(Mix2(x)) == x && Mix2(Unmix2(x)) == x
  {
    InverseMultipliers();
    MulInverse(XorShift(x, 27), MUL2, INV2);
    MulInverse(x, INV2, MUL2);
    XorShiftInverse(x, 27);
    XorShiftInverse(WrappingMul(x, INV2), 27);
  }

  lemma Round3Inverse(x: U64)
    ensures Unmix3(Mix3(x)) == x && Mix3(Unmix3(x)) == x
  {
    XorShiftInverse(x, 31);
  }

  /** splitmix64 is a permutation of the 64-bit words: `Unmix` is its two-sided inverse. */
  lemma MixIsPermutation(x: U64)
    ensures Unmix(Mix(x)) == x && Mix(Unmix(x)) == x
  {
    var a := WrappingAdd(x, GAMMA);
    AddInverse(x, GAMMA);
    Round1Inverse(a);
    Round2Inverse(Mix1(a));
    Round3Inverse(Mix2(Mix1(a)));
    var b := Unmix1(Unmix2(Unmix3(x)));
    AddInverse(b, GAMMA);
    Round3Inverse(x);
    Round2Inverse(Unmix3(x));
    Round1Inverse(Unmix2(Unmix3(x)));
  }

  /** No two attempts of one run share a seed or a mixed state, whatever the operation name. */
  lemma AttemptsNeverShareState(i: U32, j: U32, op: Bytes)
    requires i != j
    ensures HashFrom(i, op) != HashFrom(j, op)
    ensures Mix(HashFrom(i, op)) != Mix(HashFrom(j, op))
  {
    if HashFrom(i, op) == HashFrom(j, op) {
      SeedInjective(i, j, op);
    }
    MixIsPermutation(HashFrom(i, op));
    MixIsPermutation(HashFrom(j, op));
  }

  // ----- the jittered delay -----

  function Factor(permille: nat): (factor: real)
    requires permille <= 1000
    ensures 0.5 <= factor <= 1.0
  {
    0.5 + permille as real / 2000.0
  }

  /** `Duration::mul_f64` by a factor between one half and one. */
  function Scale(backoff: Duration, factor: real): (delay: Duration)
    requires 0.5 <= factor <= 1.0
    ensures backoff / 2.0 <= delay <= backoff
  {
    Scaled(backoff, factor);
    backoff * factor
  }

  lemma Scaled(d: Duration, f: real)
    requires 0.5 <= f <= 1.0
    ensures d / 2.0 <= d * f <= d
  {
    assert d - d * f == d * (1.0 - f);
    assert d * f - d / 2.0 == d * (f - 0.5);
  }

  /** The jittered delay stays between half the backoff and the whole of it. */
  function JitteredDelay(backoff: Duration, seed: U64): (delay: Duration)
    ensures backoff / 2.0 <= delay <= backoff
  {
    Scale(backoff, Factor(Mix(seed) % 1001))
  }

  /** The seed's mixed state alone picks the delay, from a thousand and one equal steps between
      half the backoff and the whole of it, and every step is picked by some seed. */
  lemma JitterReachesAll(backoff: Duration, seed: U64, permille: nat)
    requires permille <= 1000
    ensures JitteredDelay(backoff, seed) == backoff / 2.0 + backoff * (Mix(seed) % 1001) as real / 2000.0
    ensures JitteredDelay(backoff, Unmix(permille)) == backoff / 2.0 + backoff * permille as real / 2000.0
  {
    hide Mix, Unmix;
    DelayAt(backoff, seed);
    DelayAt(backoff, Unmix(permille));
    MixIsPermutation(permille);
  }

  lemma DelayAt(backoff: Duration, seed: U64)
    ensures JitteredDelay(backoff, seed) == backoff / 2.0 + backoff * (Mix(seed) % 1001) as real / 2000.0
  {
    hide Mix;
    Halves(backoff, (Mix(seed) % 1001) as real);
  }

  lemma Halves(d: real, p: real)
    ensures d * (0.5 + p / 2000.0) == d / 2.0 + d * p / 2000.0
  {
    assert d * (0.5 + p / 2000.0) == d * 0.5 + d * (p / 2000.0);
    assert d * (p / 2000.0) == d * p / 2000.0;
  }

  method Jittered(backoff: Duration, seed: U64) returns (delay: Duration)
    ensures delay == JitteredDelay(backoff, seed)
  {
    var x := WrappingAdd(seed, GAMMA);
    x := WrappingMul(XorShift(x, 30), MUL1);
    x := WrappingMul(XorShift(x, 27), MUL2);
    x := XorShift(x, 31);
    delay := Scale(backoff, Factor(x % 1001));
  }
}
