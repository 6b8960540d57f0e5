/** Lock tokens: the generator, its printed form, and the constant-time comparison. */
module Tokens {
  import opened Common
  import opened Words
  import opened Text

  // ----- printing in hexadecimal -----

  predicate IsHexDigit(c: char) {
    '0' <= c <= '9' || 'a' <= c <= 'f'
  }

  predicate AllHex(s: string) {
    forall i :: 0 <= i < |s| ==> IsHexDigit(s[i])
  }

  function HexChar(d: nat): (c: char)
    requires d < 16
    ensures IsHexDigit(c)
  {
    if d < 10 then (d + '0' as int) as char else (d - 10 + 'a' as int) as char
  }

  function HexDigit(c: char): nat
    requires IsHexDigit(c)
  {
    if c <= '9' then c as int - '0' as int else c as int - 'a' as int + 10
  }

  function Hex(n: nat): (s: string)
    ensures s != "" && AllHex(s)
  {
    if n < 16 then [HexChar(n)] else Hex(n / 16) + [HexChar(n % 16)]
  }

  function HexValue(s: string): nat
    requires AllHex(s)
  {
    if s == "" then 0 else HexValue(s[..|s| - 1]) * 16 + HexDigit(s[|s| - 1])
  }

  lemma {:induction false} HexRoundTrip(n: nat)
    ensures HexValue(Hex(n)) == n
  {
    if n >= 16 {
      HexRoundTrip(n / 16);
      assert Hex(n)[..|Hex(n)| - 1] == Hex(n / 16);
    } else {
      assert Hex(n)[..0] == "";
    }
  }

  /** No leading zeros are printed. */
  lemma {:induction false} HexIsShortest(n: nat)
    ensures |Hex(n)| > 1 ==> Hex(n)[0] != '0'
  {
    if n >= 16 {
      HexIsShortest(n / 16);
    }
  }

  // ----- the token's text -----

  /** `lk-{nanos:x}-{pid:x}-{seq:x}`. */
  function Token(nanos: nat, pid: U32, seqNo: U64): string {
    "lk-" + Fields(nanos, pid, seqNo)
  }

  function Fields(nanos: nat, pid: U32, seqNo: U64): string {
    Hex(nanos) + "-" + (Hex(pid) + "-" + Hex(seqNo))
  }

  /** Reads a token back; `None` for any other text. */
  function ParseToken(s: string): Option<(nat, nat, nat)> {
    if !("lk-" <= s) then None
    else
      match FindChar(s[3..], '-')
      case None => None
      case Some(i) =>
        var nanos, rest := s[3..][..i], s[3..][i + 1..];
        match FindChar(rest, '-')
        case None => None
        case Some(j) =>
          var pid, seqNo := rest[..j], rest[j + 1..];
          if AllHex(nanos) && AllHex(pid) && AllHex(seqNo)
          then Some((HexValue(nanos), HexValue(pid), HexValue(seqNo)))
          else None
  }

  lemma FirstDash(field: string, rest: string)
    requires AllHex(field)
    ensures FindChar(field + "-" + rest, '-') == Some(|field|)
    ensures (field + "-" + rest)[..|field|] == field && (field + "-" + rest)[|field| + 1..] == rest
  {
    var s := field + "-" + rest;
    Pieces(field, "-", rest);
    assert s[|field|] == '-';
  }

  lemma ReadFields(a: string, b: string, c: string)
    requires AllHex(a) && AllHex(b) && AllHex(c)
    ensures ParseToken("lk-" + (a + "-" + (b + "-" + c))) == Some((HexValue(a), HexValue(b), HexValue(c)))
  {
    var fields := a + "-" + (b + "-" + c);
    assert ("lk-" + fields)[3..] == fields;
    FirstDash(a, b + "-" + c);
    FirstDash(b, c);
  }

  /** Printing a token loses nothing: it parses back to the clock reading, process and sequence number. */
  lemma TokenRoundTrip(nanos: nat, pid: U32, seqNo: U64)
    ensures ParseToken(Token(nanos, pid, seqNo)) == Some((nanos, pid, seqNo))
  {
    ReadFields(Hex(nanos), Hex(pid), Hex(seqNo));
    HexRoundTrip(nanos);
    HexRoundTrip(pid);
    HexRoundTrip(seqNo);
  }

  /** Two tokens are equal only if all three of their parts are. */
  lemma TokenInjective(nanos: nat, pid: U32, seqNo: U64, nanos': nat, pid': U32, seqNo': U64)
    requires Token(nanos, pid, seqNo) == Token(nanos', pid', seqNo')
    ensures nanos == nanos' && pid == pid' && seqNo == seqNo'
  {
    TokenRoundTrip(nanos, pid, seqNo);
    TokenRoundTrip(nanos', pid', seqNo');
  }

  // ----- the generator -----

  /** The sequence number drawn by the `i`-th call after the counter stood at `start`. */
  function Drawn(start: U64, i: nat): U64 {
    (start + i) % TWO64
  }

  class TokenSource {
    var counter: U64

    constructor ()
      ensures counter == 0
    {
      counter := 0;
    }

    /** `generate_lock_token`: one atomic fetch-and-add, then a clock reading. Whatever order
        concurrent calls read the clock in, they draw successive numbers. */
    method Generate(nanos: nat, pid: U32) returns (token: string)
      modifies this
      ensures counter == Drawn(old(counter), 1)
      ensures token == Token(nanos, pid, old(counter)) && ParseToken(token) == Some((nanos, pid, old(counter)))
    {
      var seqNo := counter;
      counter := WrappingAdd(counter, 1);
      token := Token(nanos, pid, seqNo);
      TokenRoundTrip(nanos, pid, seqNo);
    }
  }

  /** The token of the `i`-th call of a process, whenever it happens to read the clock. */
  function TokenAt(start: U64, pid: U32, clock: nat -> nat, i: nat): string {
    Token(clock(i), pid, Drawn(start, i))
  }

  /** The calls of one process yield pairwise distinct tokens, whatever the clock readings and
      the interleaving, exactly as long as there are at most 2^64 of them. */
  lemma DistinctExactly(start: U64, pid: U32, n: nat)
    ensures (forall clock: nat -> nat, i: nat, j: nat :: i < j < n ==>
               TokenAt(start, pid, clock, i) != TokenAt(start, pid, clock, j))
            <==> n <= TWO64
  {
    if n <= TWO64 {
      forall clock: nat -> nat, i: nat, j: nat | i < j < n
        ensures TokenAt(start, pid, clock, i) != TokenAt(start, pid, clock, j)
      {
        if TokenAt(start, pid, clock, i) == TokenAt(start, pid, clock, j) {
          TokenInjective(clock(i), pid, Drawn(start, i), clock(j), pid, Drawn(start, j));
          SameDraw(start, i, j);
        }
      }
    } else {
      var stopped: nat -> nat := (k: nat) => 0;
      assert Drawn(start, 0) == Drawn(start, TWO64);
      assert TokenAt(start, pid, stopped, 0) == TokenAt(start, pid, stopped, TWO64);
    }
  }

  lemma SameDraw(start: U64, i: nat, j: nat)
    requires i < j && Drawn(start, i) == Drawn(start, j)
    ensures j - i >= TWO64
  {
  }

  // ----- comparing tokens -----

  /** `constant_time_eq`: the accumulator is zero at the end exactly when all bytes agree. */
  method ConstantTimeEq(left: seq<bv8>, right: seq<bv8>) returns (equal: bool)
    ensures equal <==> left == right
  {
    if |left| != |right| {
      return false;
    }
    var diff: bv8 := 0;
    for i := 0 to |left|
      invariant diff == 0 <==> left[..i] == right[..i]
    {
      StillZero(diff, left[i], right[i]);
      assert left[..i + 1] == left[..i] + [left[i]] && right[..i + 1] == right[..i] + [right[i]];
      diff := diff | (left[i] ^ right[i]);
    }
    assert left[..|left|] == left && right[..|right|] == right;
    equal := diff == 0;
  }

  lemma StillZero(diff: bv8, a: bv8, b: bv8)
    ensures diff | (a ^ b) == 0 <==> diff == 0 && a == b
  {
  }
}
