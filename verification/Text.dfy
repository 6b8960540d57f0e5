/** The string operations the parsers rely on, each with the contract its callers use. */
module Text {
  import opened Common

  /** The Unicode `White_Space` characters. */
  predicate IsSpace(c: char) {
    || '\U{9}' <= c <= '\U{D}'
    || c in {' ', '\U{85}', '\U{A0}', '\U{1680}', '\U{2028}', '\U{2029}', '\U{202F}', '\U{205F}', '\U{3000}'}
    || '\U{2000}' <= c <= '\U{200A}'
  }

  // ----- searching -----

  predicate OccursAt(s: string, pat: string, i: nat) {
    i + |pat| <= |s| && s[i..i + |pat|] == pat
  }

  function Find(s: string, pat: string): (r: Option<nat>)
    ensures r.Some? ==> OccursAt(s, pat, r.value) && forall i :: 0 <= i < r.value ==> !OccursAt(s, pat, i)
    ensures r.None? ==> forall i: nat :: !OccursAt(s, pat, i)
  {
    FindFrom(s, pat, 0)
  }

  function FindFrom(s: string, pat: string, from: nat): (r: Option<nat>)
    requires from <= |s|
    ensures r.Some? ==> from <= r.value && OccursAt(s, pat, r.value)
                        && forall i :: from <= i < r.value ==> !OccursAt(s, pat, i)
    ensures r.None? ==> forall i :: from <= i ==> !OccursAt(s, pat, i)
    decreases |s| - from
  {
    if OccursAt(s, pat, from) then Some(from)
    else if from == |s| then None
    else FindFrom(s, pat, from + 1)
  }

  function FindChar(s: string, c: char): (r: Option<nat>)
    ensures r.Some? ==> r.value < |s| && s[r.value] == c && c !in s[..r.value]
    ensures r.None? <==> c !in s
  {
    if s == "" then None
    else if s[0] == c then Some(0)
    else
      match FindChar(s[1..], c)
      case None => None
      case Some(i) =>
        assert s[..i + 1] == [s[0]] + s[1..][..i];
        Some(i + 1)
  }

  function RFindChar(s: string, c: char): (r: Option<nat>)
    ensures r.Some? ==> r.value < |s| && s[r.value] == c && c !in s[r.value + 1..]
    ensures r.None? <==> c !in s
    decreases |s|
  {
    if s == "" then None
    else if s[|s| - 1] == c then Some(|s| - 1)
    else
      var front := s[..|s| - 1];
      assert s == front + [s[|s| - 1]];
      match RFindChar(front, c)
      case None => None
      case Some(i) =>
        assert s[i + 1..] == front[i + 1..] + [s[|s| - 1]];
        Some(i)
  }

  lemma OccursInSuffix(s: string, pat: string, cut: nat, i: nat)
    requires cut <= |s| && OccursAt(s[cut..], pat, i)
    ensures OccursAt(s, pat, cut + i)
  {
    assert s[cut..][i..i + |pat|] == s[cut + i..cut + i + |pat|];
  }

  // ----- trimming -----

  function TrimStart(s: string): (r: string)
    ensures |r| <= |s| && r == s[|s| - |r|..]
    ensures r == "" || !IsSpace(r[0])
  {
    if s != "" && IsSpace(s[0]) then
      assert forall k :: 0 <= k <= |s| - 1 ==> s[1..][k..] == s[k + 1..];
      TrimStart(s[1..])
    else s
  }

  function TrimEnd(s: string): (r: string)
    ensures |r| <= |s| && r == s[..|r|]
    ensures r == "" || !IsSpace(r[|r| - 1])
    decreases |s|
  {
    if s != "" && IsSpace(s[|s| - 1]) then TrimEnd(s[..|s| - 1]) else s
  }

  function Trim(s: string): string {
    TrimEnd(TrimStart(s))
  }

  predicate Trimmed(s: string) {
    s == "" || (!IsSpace(s[0]) && !IsSpace(s[|s| - 1]))
  }

  lemma TrimIsTrimmed(s: string)
    ensures Trimmed(Trim(s))
  {
  }

  lemma TrimmedIsFixed(s: string)
    requires Trimmed(s)
    ensures Trim(s) == s
  {
  }

  predicate AllSpace(s: string) {
    forall i :: 0 <= i < |s| ==> IsSpace(s[i])
  }

  lemma {:induction false} TrimStartRemoves(s: string, i: nat)
    requires i < |s| - |TrimStart(s)|
    ensures IsSpace(s[i])
  {
    if i > 0 && IsSpace(s[0]) {
      TrimStartRemoves(s[1..], i - 1);
    }
  }

  lemma {:induction false} TrimEndRemoves(s: string, i: nat)
    requires |TrimEnd(s)| <= i < |s|
    ensures IsSpace(s[i])
    decreases |s|
  {
    if i < |s| - 1 && IsSpace(s[|s| - 1]) {
      TrimEndRemoves(s[..|s| - 1], i);
    }
  }

  lemma TrimStartCuts(s: string)
    ensures var k := |s| - |TrimStart(s)|; AllSpace(s[..k]) && TrimStart(s) == s[k..]
  {
    forall i | 0 <= i < |s| - |TrimStart(s)| ensures IsSpace(s[i]) { TrimStartRemoves(s, i); }
  }

  lemma TrimEndCuts(s: string)
    ensures AllSpace(s[|TrimEnd(s)|..]) && TrimEnd(s) == s[..|TrimEnd(s)|]
  {
    forall i | |TrimEnd(s)| <= i < |s| ensures IsSpace(s[i]) { TrimEndRemoves(s, i); }
  }

  /** What lies where when a text is cut at its start, and the rest at its end. */
  lemma CutBoth(s: string, start: string, middle: string)
    requires |middle| <= |start| <= |s| && start == s[|s| - |start|..] && middle == start[..|middle|]
    requires AllSpace(s[..|s| - |start|]) && AllSpace(start[|middle|..]) && Trimmed(middle)
    ensures exists from: nat, to: nat :: CutsAt(s, middle, from, to)
  {
    var from := |s| - |start|;
    assert s[from + |middle|..] == start[|middle|..];
    assert CutsAt(s, middle, from, from + |middle|);
  }

  /** Trimming removes white space at both ends, all of it, and nothing else. */
  lemma TrimRemovesBlanks(s: string)
    ensures exists from: nat, to: nat :: CutsAt(s, Trim(s), from, to)
  {
    hide TrimStart, TrimEnd, AllSpace, Trimmed;
    var start := TrimStart(s);
    TrimStartCuts(s);
    TrimEndCuts(start);
    TrimIsTrimmed(s);
    CutBoth(s, start, TrimEnd(start));
  }

  /** `middle` is what is left of `s` between white space, and has none at its ends. */
  ghost predicate CutsAt(s: string, middle: string, from: nat, to: nat) {
    from <= to <= |s| && middle == s[from..to] && Trimmed(middle) && AllSpace(s[..from]) && AllSpace(s[to..])
  }

  lemma TrimStartFixed(s: string)
    ensures TrimStart(s) == s <==> s == "" || !IsSpace(s[0])
  {
  }

  /** Trimming reaches neither past a middle part that begins and ends with other characters. */
  lemma TrimAround(a: string, middle: string, b: string)
    requires middle != "" && !IsSpace(middle[0]) && !IsSpace(middle[|middle| - 1])
    ensures Trim(a + middle + b) == TrimStart(a) + middle + TrimEnd(b)
  {
    hide TrimStart, TrimEnd, IsSpace;
    var left := TrimStart(a) + middle;
    Reassociate(a, middle, b);
    Reassociate(TrimStart(a), middle, b);
    TrimStartBefore(a, middle + b);
    LastOf(TrimStart(a), middle);
    TrimEndAfter(left, b);
  }

  lemma TrimEndFixed(s: string)
    requires s == "" || !IsSpace(s[|s| - 1])
    ensures TrimEnd(s) == s
  {
  }

  lemma TrimLead(a: string, middle: string)
    requires middle != "" && !IsSpace(middle[0]) && !IsSpace(middle[|middle| - 1])
    ensures Trim(a + middle) == TrimStart(a) + middle
  {
    hide Trim, TrimStart, IsSpace;
    TrimStartBefore(a, middle);
    TrimOf(a + middle, TrimStart(a), middle);
  }

  lemma TrimOf(s: string, start: string, middle: string)
    requires TrimStart(s) == start + middle && middle != "" && !IsSpace(middle[|middle| - 1])
    ensures Trim(s) == start + middle
  {
    hide TrimStart, TrimEnd, IsSpace;
    LastOf(start, middle);
    TrimEndFixed(start + middle);
  }

  lemma LastOf(a: string, b: string)
    requires b != ""
    ensures (a + b)[|a + b| - 1] == b[|b| - 1]
  {
  }

  /** A concatenation of three parts taken apart again. */
  lemma Pieces(a: string, b: string, c: string)
    ensures (a + b + c)[..|a|] == a && (a + b + c)[|a|..|a| + |b|] == b && (a + b + c)[|a| + |b|..] == c
  {
  }

  lemma Reassociate<T>(a: seq<T>, b: seq<T>, c: seq<T>)
    ensures a + b + c == a + (b + c)
  {
  }

  lemma {:induction false} TrimStartBefore(a: string, b: string)
    requires b != "" && !IsSpace(b[0])
    ensures TrimStart(a + b) == TrimStart(a) + b
  {
    if a == "" {
      assert a + b == b;
    } else if IsSpace(a[0]) {
      assert (a + b)[1..] == a[1..] + b;
      TrimStartBefore(a[1..], b);
    }
  }

  lemma {:induction false} TrimEndAfter(a: string, b: string)
    requires a != "" && !IsSpace(a[|a| - 1])
    ensures TrimEnd(a + b) == a + TrimEnd(b)
    decreases |b|
  {
    if b == "" {
      assert a + b == a;
    } else if IsSpace(b[|b| - 1]) {
      assert (a + b)[..|a + b| - 1] == a + b[..|b| - 1];
      TrimEndAfter(a, b[..|b| - 1]);
    }
  }

  // ----- numbers -----

  predicate IsDigit(c: char) {
    '0' <= c <= '9'
  }

  predicate AllDigits(s: string) {
    forall i :: 0 <= i < |s| ==> IsDigit(s[i])
  }

  function DigitChar(d: nat): char
    requires d < 10
  {
    (d + '0' as int) as char
  }

  function Decimal(n: nat): (s: string)
    ensures s != "" && AllDigits(s)
  {
    if n < 10 then [DigitChar(n)] else Decimal(n / 10) + [DigitChar(n % 10)]
  }

  function DigitsValue(s: string): nat
    requires AllDigits(s)
  {
    if s == "" then 0 else DigitsValue(s[..|s| - 1]) * 10 + (s[|s| - 1] as int - '0' as int)
  }

  lemma DigitsAppend(front: string, d: nat)
    requires AllDigits(front) && d < 10
    ensures AllDigits(front + [DigitChar(d)]) && DigitsValue(front + [DigitChar(d)]) == DigitsValue(front) * 10 + d
  {
    var s := front + [DigitChar(d)];
    assert s[..|s| - 1] == front;
  }

  lemma DecimalAppend(n: nat, d: nat)
    requires d < 10
    ensures Decimal(n * 10 + d) == if n == 0 then [DigitChar(d)] else Decimal(n) + [DigitChar(d)]
  {
  }

  lemma {:induction false} DecimalRoundTrip(n: nat)
    ensures DigitsValue(Decimal(n)) == n
  {
    if n >= 10 {
      DecimalRoundTrip(n / 10);
      assert Decimal(n)[..|Decimal(n)| - 1] == Decimal(n / 10);
    }
  }
}
