/** 64-bit words as natural numbers below 2^64: wrapping arithmetic is written with an
    explicit remainder, exclusive-or and right shift bit by bit. */
module Words {

  const TWO64: nat := 0x1_0000_0000_0000_0000

  type U32 = n: nat | n < 0x1_0000_0000
  type U64 = n: nat | n < TWO64

  function WrappingAdd(a: U64, b: U64): U64 {
    (a + b) % TWO64
  }

  function WrappingMul(a: U64, b: U64): U64 {
    (a * b) % TWO64
  }

  function WrappingSub(a: U64, b: U64): U64 {
    (a + TWO64 - b) % TWO64
  }

  function Xor(a: nat, b: nat): nat
    decreases a + b
  {
    if a == 0 && b == 0 then 0
    else (if a % 2 == b % 2 then 0 else 1) + 2 * Xor(a / 2, b / 2)
  }

  function Shr(x: nat, k: nat): nat
    decreases k
  {
    if k == 0 then x else Shr(x / 2, k - 1)
  }

  ghost function Pow2(k: nat): nat {
    if k == 0 then 1 else 2 * Pow2(k - 1)
  }

  // ----- wrapping arithmetic -----

  /** Multiplying by the inverse modulo 2^64 undoes a wrapping multiplication. */
  lemma MulInverse(x: U64, c: U64, d: U64)
    requires WrappingMul(c, d) == 1
    ensures WrappingMul(WrappingMul(x, c), d) == x
  {
    var q, t := x * c / TWO64, c * d / TWO64;
    calc {
      (x * c % TWO64) * d;
      (x * c - TWO64 * q) * d;
      { Regroup(x, c, d, TWO64, q); }
      x * (c * d) - TWO64 * (q * d);
      x * (TWO64 * t + 1) - TWO64 * (q * d);
      { Collect(x, t, q * d, TWO64); }
      x + TWO64 * (x * t - q * d);
    }
    ModShift(x, x * t - q * d);
  }

  lemma Regroup(x: int, c: int, d: int, m: int, q: int)
    ensures (x * c - m * q) * d == x * (c * d) - m * (q * d)
  {
  }

  lemma Collect(x: int, t: int, u: int, m: int)
    ensures x * (m * t + 1) - m * u == x + m * (x * t - u)
  {
  }

  lemma ModShift(x: U64, k: int)
    ensures (x + TWO64 * k) % TWO64 == x
  {
  }

  lemma AddInverse(x: U64, c: U64)
    ensures WrappingSub(WrappingAdd(x, c), c) == x
    ensures WrappingAdd(WrappingSub(x, c), c) == x
  {
  }

  /** A wrapping multiply-and-add depends on its operand only modulo 2^64. */
  lemma HornerStep(y: nat, b: nat)
    requires b < TWO64
    ensures WrappingAdd(WrappingMul(y % TWO64, 31), b) == (y * 31 + b) % TWO64
  {
    var q, w := y / TWO64, (y % TWO64) * 31;
    assert y * 31 + b == w % TWO64 + b + TWO64 * (31 * q + w / TWO64);
    ModDrop(w % TWO64 + b, 31 * q + w / TWO64);
  }

  lemma ModDrop(x: nat, k: nat)
    ensures (x + TWO64 * k) % TWO64 == x % TWO64
  {
    ModShift(x % TWO64, x / TWO64 + k);
  }

  // ----- exclusive-or and shifts -----

  lemma {:induction false} XorSelf(a: nat)
    ensures Xor(a, a) == 0
  {
    if a > 0 { XorSelf(a / 2); }
  }

  lemma {:induction false} XorZero(a: nat)
    ensures Xor(a, 0) == a && Xor(0, a) == a
  {
    if a > 0 { XorZero(a / 2); }
  }

  lemma XorBit(a: nat, b: nat)
    ensures Xor(a, b) % 2 == (if a % 2 == b % 2 then 0 else 1) && Xor(a, b) / 2 == Xor(a / 2, b / 2)
  {
  }

  lemma XorAssociativeBit(a: nat, b: nat, c: nat)
    ensures Xor(Xor(a, b), c) % 2 == Xor(a, Xor(b, c)) % 2
  {
    XorBit(a, b);
    XorBit(b, c);
    XorBit(Xor(a, b), c);
    XorBit(a, Xor(b, c));
  }

  lemma XorHalves(a: nat, b: nat, c: nat)
    ensures Xor(Xor(a, b), c) / 2 == Xor(Xor(a / 2, b / 2), c / 2)
    ensures Xor(a, Xor(b, c)) / 2 == Xor(a / 2, Xor(b / 2, c / 2))
  {
    XorBit(a, b);
    XorBit(b, c);
    XorBit(Xor(a, b), c);
    XorBit(a, Xor(b, c));
  }

  lemma SameWord(x: nat, y: nat)
    requires x / 2 == y / 2 && x % 2 == y % 2
    ensures x == y
  {
  }

  lemma {:induction false} XorAssociative(a: nat, b: nat, c: nat)
    ensures Xor(Xor(a, b), c) == Xor(a, Xor(b, c))
    decreases a + b + c
  {
    if a > 0 || b > 0 || c > 0 {
      XorAssociative(a / 2, b / 2, c / 2);
      XorHalves(a, b, c);
      XorAssociativeBit(a, b, c);
      SameWord(Xor(Xor(a, b), c), Xor(a, Xor(b, c)));
    }
  }

  lemma {:induction false} XorBound(a: nat, b: nat, k: nat)
    requires a < Pow2(k) && b < Pow2(k)
    ensures Xor(a, b) < Pow2(k)
    decreases k
  {
    if k > 0 {
      XorBound(a / 2, b / 2, k - 1);
      XorBit(a, b);
    }
  }

  /** A right shift is the quotient by a power of two, and drops the remainder. */
  lemma {:induction false} ShrDivides(x: nat, k: nat) returns (dropped: nat)
    ensures dropped < Pow2(k) && x == Shr(x, k) * Pow2(k) + dropped
    decreases k
  {
    if k == 0 {
      dropped := 0;
    } else {
      var rest := ShrDivides(x / 2, k - 1);
      dropped := 2 * rest + x % 2;
      assert Shr(x, k) * (2 * Pow2(k - 1)) == 2 * (Shr(x, k) * Pow2(k - 1));
    }
  }

  lemma {:induction false} ShrXor(a: nat, b: nat, k: nat)
    ensures Shr(Xor(a, b), k) == Xor(Shr(a, k), Shr(b, k))
    decreases k
  {
    if k > 0 {
      XorBit(a, b);
      ShrXor(a / 2, b / 2, k - 1);
    }
  }

  lemma {:induction false} ShrShr(x: nat, j: nat, k: nat)
    ensures Shr(Shr(x, j), k) == Shr(x, j + k)
    decreases j
  {
    if j > 0 { ShrShr(x / 2, j - 1, k); }
  }

  lemma {:induction false} ShrAll(x: nat, k: nat, n: nat)
    requires x < Pow2(n) && n <= k
    ensures Shr(x, k) == 0
    decreases k
  {
    if k > 0 { ShrAll(x / 2, k - 1, if n > 0 then n - 1 else 0); }
  }

  lemma {:induction false} ShrSmaller(x: nat, k: nat)
    ensures Shr(x, k) <= x
    decreases k
  {
    if k > 0 { ShrSmaller(x / 2, k - 1); }
  }

  lemma Pow2Is64()
    ensures Pow2(64) == TWO64
  {
    assert Pow2(8) == 0x100;
    Pow2Add(8, 8);
    Pow2Add(16, 16);
    Pow2Add(32, 32);
  }

  lemma {:induction false} Pow2Add(j: nat, k: nat)
    ensures Pow2(j + k) == Pow2(j) * Pow2(k)
  {
    if j > 0 {
      Pow2Add(j - 1, k);
      assert Pow2(j - 1) * 2 * Pow2(k) == 2 * (Pow2(j - 1) * Pow2(k));
    }
  }

  /** `x ^ (x >> k)`. */
  function XorShift(x: U64, k: nat): U64 {
    XorShiftIsWord(x, x, k);
    Xor(x, Shr(x, k))
  }

  lemma XorShiftIsWord(x: U64, y: U64, k: nat)
    ensures Xor(x, Shr(y, k)) < TWO64
  {
    Pow2Is64();
    ShrSmaller(y, k);
    XorBound(x, Shr(y, k), 64);
  }

  /** Undoes `XorShift(_, k)` when three shifts by `k` clear the word. */
  function UnxorShift(y: U64, k: nat): U64 {
    XorShiftIsWord(y, y, k);
    XorShiftIsWord(Xor(y, Shr(y, k)), y, 2 * k);
    Xor(Xor(y, Shr(y, k)), Shr(y, 2 * k))
  }

  lemma XorShiftInverse(x: U64, k: nat)
    requires 64 <= 3 * k
    ensures UnxorShift(XorShift(x, k), k) == x && XorShift(UnxorShift(x, k), k) == x
  {
    var x1, x2, x3 := Shr(x, k), Shr(x, 2 * k), Shr(x, 3 * k);
    Pow2Is64();
    ShrAll(x, 3 * k, 64);
    ShrShr(x, k, k);
    ShrShr(x, k, 2 * k);
    ShrShr(x, 2 * k, k);
    // Forward: y = x ^ x1, so y >> k = x1 ^ x2 and y >> 2k = x2 ^ x3.
    ShrXor(x, x1, k);
    ShrXor(x, x1, 2 * k);
    Telescope(x, x1, x2, x3);
    // Backward: z = x ^ x1 ^ x2, so z >> k = x1 ^ x2 ^ x3.
    ShrXor(Xor(x, x1), x2, k);
    TelescopeBack(x, x1, x2, x3);
  }

  lemma Cancel(a: nat, b: nat, c: nat)
    ensures Xor(Xor(a, b), Xor(b, c)) == Xor(a, c)
  {
    XorAssociative(a, b, Xor(b, c));
    XorAssociative(b, b, c);
    XorSelf(b);
    XorZero(c);
  }

  lemma Telescope(x: nat, x1: nat, x2: nat, x3: nat)
    requires x3 == 0
    ensures Xor(Xor(Xor(x, x1), Xor(x1, x2)), Xor(x2, x3)) == x
  {
    Cancel(x, x1, x2);
    Cancel(x, x2, x3);
    XorZero(x);
  }

  lemma TelescopeBack(x: nat, x1: nat, x2: nat, x3: nat)
    requires x3 == 0
    ensures Xor(Xor(Xor(x, x1), x2), Xor(Xor(x1, x2), x3)) == x
  {
    XorZero(Xor(x1, x2));
    XorAssociative(x, x1, x2);
    XorAssociative(x, Xor(x1, x2), Xor(x1, x2));
    XorSelf(Xor(x1, x2));
    XorZero(x);
  }
}
