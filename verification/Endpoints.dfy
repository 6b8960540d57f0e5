/** Endpoint parsing, node lists and the redaction of credentials in seed URLs. */
module Endpoints {
  import opened Common
  import opened Text

  // ----- redaction -----

  function Url(scheme: string, creds: string, host: string): string {
    scheme + "://" + creds + "@" + host
  }

  /** Credentials with everything after the first colon masked, or masked entirely. */
  function Masked(creds: string): string {
    match FindChar(creds, ':')
    case Some(colon) => creds[..colon] + ":***"
    case None => "***"
  }

  function RedactTrimmed(s: string): string {
    match Find(s, "://")
    case None => s
    case Some(end) =>
      var rest := s[end + 3..];
      match RFindChar(rest, '@')
      case None => s
      case Some(at) => Url(s[..end], Masked(rest[..at]), rest[at + 1..])
  }

  function Redact(raw: string): string {
    RedactTrimmed(Trim(raw))
  }

  /** `scheme` ends at the first "://" of whatever starts with `scheme + "://"`. */
  predicate IsScheme(scheme: string) {
    forall i :: 0 <= i < |scheme| ==> !OccursAt(scheme + "://", "://", i)
  }

  lemma SchemeFound(scheme: string, rest: string)
    requires IsScheme(scheme)
    ensures Find(scheme + "://" + rest, "://") == Some(|scheme|)
  {
    var s := scheme + "://" + rest;
    assert s[|scheme|..|scheme| + 3] == "://";
    forall i | 0 <= i < |scheme| ensures !OccursAt(s, "://", i) {
      assert s[i..i + 3] == (scheme + "://")[i..i + 3];
      assert !OccursAt(scheme + "://", "://", i);
    }
    assert OccursAt(s, "://", |scheme|);
  }

  lemma LastAtFound(creds: string, host: string)
    requires '@' !in host
    ensures RFindChar(creds + "@" + host, '@') == Some(|creds|)
  {
    var rest := creds + "@" + host;
    assert rest[|creds|] == '@' && rest[|creds| + 1..] == host;
  }

  lemma FirstColonFound(user: string, pw: string)
    requires ':' !in user
    ensures Masked(user + ":" + pw) == user + ":***"
  {
    var creds := user + ":" + pw;
    assert creds[|user|] == ':' && creds[..|user|] == user;
    assert FindChar(creds, ':') == Some(|user|);
  }

  lemma MaskedTwice(creds: string)
    ensures Masked(Masked(creds)) == Masked(creds)
  {
    var colon := FindChar(creds, ':');
    if colon.Some? {
      FirstColonFound(creds[..colon.value], "***");
      assert creds[..colon.value] + ":" + "***" == creds[..colon.value] + ":***";
    }
  }

  lemma UrlIsSchemeAndRest(scheme: string, creds: string, host: string)
    ensures Url(scheme, creds, host) == scheme + "://" + (creds + "@" + host)
  {
    var start := scheme + "://";
    Reassociate(start, creds, "@");
    Reassociate(start, creds + "@", host);
  }

  lemma RedactAt(s: string, end: nat, rest: string, at: nat)
    requires Find(s, "://") == Some(end) && rest == s[end + 3..] && RFindChar(rest, '@') == Some(at)
    ensures RedactTrimmed(s) == Url(s[..end], Masked(rest[..at]), rest[at + 1..])
  {
  }

  lemma RedactUrl(scheme: string, creds: string, host: string)
    requires IsScheme(scheme) && '@' !in host
    ensures RedactTrimmed(Url(scheme, creds, host)) == Url(scheme, Masked(creds), host)
  {
    var rest := creds + "@" + host;
    UrlIsSchemeAndRest(scheme, creds, host);
    SchemeFound(scheme, rest);
    Pieces(scheme, "://", rest);
    LastAtFound(creds, host);
    Pieces(creds, "@", host);
    RedactAt(scheme + "://" + rest, |scheme|, rest, |creds|);
  }

  lemma SchemePrefix(s: string, end: nat)
    requires Find(s, "://") == Some(end)
    ensures IsScheme(s[..end]) && s == s[..end] + "://" + s[end + 3..]
  {
    var scheme := s[..end];
    assert s[..end + 3] == scheme + "://";
    forall i | 0 <= i < |scheme| ensures !OccursAt(scheme + "://", "://", i) {
      assert (scheme + "://")[i..i + 3] == s[i..i + 3];
      assert !OccursAt(s, "://", i);
    }
  }

  lemma AtSplits(rest: string, at: nat)
    requires RFindChar(rest, '@') == Some(at)
    ensures rest == rest[..at] + "@" + rest[at + 1..] && '@' !in rest[at + 1..]
  {
  }

  /** A text that redaction changes is a URL with credentials. */
  lemma Parts(s: string) returns (scheme: string, creds: string, host: string)
    ensures RedactTrimmed(s) != s ==> IsScheme(scheme) && '@' !in host && s == Url(scheme, creds, host)
  {
    scheme, creds, host := "", "", "";
    var found := Find(s, "://");
    if found.Some? {
      var rest := s[found.value + 3..];
      var last := RFindChar(rest, '@');
      if last.Some? {
        SchemePrefix(s, found.value);
        AtSplits(rest, last.value);
        scheme, creds, host := s[..found.value], rest[..last.value], rest[last.value + 1..];
        UrlIsSchemeAndRest(scheme, creds, host);
      }
    }
  }

  lemma UrlStaysTrimmed(scheme: string, creds: string, masked: string, host: string)
    requires Trimmed(Url(scheme, creds, host))
    ensures Trimmed(Url(scheme, masked, host))
  {
    var s, r := Url(scheme, creds, host), Url(scheme, masked, host);
    assert r[0] == s[0];
    assert r[|r| - 1] == s[|s| - 1];
  }

  /** Redaction is idempotent on every string. */
  lemma RedactIdempotent(raw: string)
    ensures Redact(Redact(raw)) == Redact(raw)
  {
    var s := Trim(raw);
    TrimIsTrimmed(raw);
    var scheme, creds, host := Parts(s);
    var r := RedactTrimmed(s);
    if r != s {
      RedactUrl(scheme, creds, host);
      UrlStaysTrimmed(scheme, creds, Masked(creds), host);
      RedactUrl(scheme, Masked(creds), host);
      MaskedTwice(creds);
    }
    TrimmedIsFixed(r);
  }

  /** The password has no influence on the redacted text, whatever characters it contains. */
  lemma RedactHidesPassword(scheme: string, user: string, pw: string, other: string, host: string)
    requires IsScheme(scheme) && ':' !in user && '@' !in host
    ensures Redact(Url(scheme, user + ":" + pw, host)) == Redact(Url(scheme, user + ":" + other, host))
    ensures Redact(Url(scheme, user + ":" + pw, host)) == Url(TrimStart(scheme), user + ":***", TrimEnd(host))
  {
    RedactRaw(scheme, user, pw, host);
    RedactRaw(scheme, user, other, host);
  }

  /** Credentials without a colon are masked altogether. */
  lemma RedactHidesToken(scheme: string, token: string, host: string)
    requires IsScheme(scheme) && ':' !in token && '@' !in host
    ensures Redact(Url(scheme, token, host)) == Url(TrimStart(scheme), "***", TrimEnd(host))
  {
    TrimUrl(scheme, token, host);
    SchemeSuffix(scheme);
    assert '@' !in TrimEnd(host);
    RedactUrl(TrimStart(scheme), token, TrimEnd(host));
  }

  /** Whatever is no URL with credentials is only trimmed. */
  lemma RedactLeavesTheRest(raw: string, scheme: string, host: string)
    requires (Trim(raw) == scheme + "://" + host && IsScheme(scheme) && '@' !in host)
             || (forall i: nat :: !OccursAt(Trim(raw), "://", i))
    ensures Redact(raw) == Trim(raw)
  {
    hide Trim;
    var s := Trim(raw);
    var found := Find(s, "://");
    if found.Some? {
      assert s == scheme + "://" + host;
      SchemeFound(scheme, host);
      Pieces(scheme, "://", host);
    }
  }

  lemma UrlAround(scheme: string, creds: string, host: string)
    ensures Url(scheme, creds, host) == scheme + ("://" + creds + "@") + host
  {
    Reassociate(scheme, "://", creds);
    Reassociate(scheme, "://" + creds, "@");
  }

  lemma TrimUrl(scheme: string, creds: string, host: string)
    ensures Trim(Url(scheme, creds, host)) == Url(TrimStart(scheme), creds, TrimEnd(host))
  {
    UrlAround(scheme, creds, host);
    UrlAround(TrimStart(scheme), creds, TrimEnd(host));
    TrimAround(scheme, "://" + creds + "@", host);
  }

  lemma RedactRaw(scheme: string, user: string, pw: string, host: string)
    requires IsScheme(scheme) && ':' !in user && '@' !in host
    ensures Redact(Url(scheme, user + ":" + pw, host)) == Url(TrimStart(scheme), user + ":***", TrimEnd(host))
  {
    TrimUrl(scheme, user + ":" + pw, host);
    SchemeSuffix(scheme);
    assert '@' !in TrimEnd(host);
    RedactUrl(TrimStart(scheme), user + ":" + pw, TrimEnd(host));
    FirstColonFound(user, pw);
  }

  lemma SchemeSuffix(scheme: string)
    requires IsScheme(scheme)
    ensures IsScheme(TrimStart(scheme))
  {
    hide IsSpace, TrimStart, OccursAt;
    var short, whole := TrimStart(scheme), scheme + "://";
    var cut := |scheme| - |short|;
    assert whole[cut..] == short + "://";
    forall i | 0 <= i < |short| ensures !OccursAt(short + "://", "://", i) {
      if OccursAt(whole[cut..], "://", i) {
        OccursInSuffix(whole, "://", cut, i);
      }
    }
  }

  // ----- host and port -----

  /** Parsing an unsigned 16-bit number: an optional plus sign, then digits, no overflow. */
  function ParsePort(s: string): Option<nat> {
    var digits := if |s| > 1 && s[0] == '+' then s[1..] else s;
    if digits != "" && AllDigits(digits) && DigitsValue(digits) < 0x1_0000 then Some(DigitsValue(digits)) else None
  }

  /** `host]:port`, the text after an opening bracket. */
  function ParseBracketed(rest: string): Result<(string, nat)> {
    match Find(rest, "]:")
    case None => Err(Config)
    case Some(i) =>
      match ParsePort(rest[i + 2..])
      case Some(port) => Ok((rest[..i], port))
      case None => Err(Config)
  }

  function ParsePlain(addr: string): Result<(string, nat)> {
    match RFindChar(addr, ':')
    case None => Ok((addr, 6379))
    case Some(i) =>
      if i == 0 then Ok((addr, 6379))
      else
        match ParsePort(addr[i + 1..])
        case Some(port) => Ok((addr[..i], port))
        case None => Err(Config)
  }

  function ParseHostPort(raw: string): Result<(string, nat)> {
    var addr := Trim(raw);
    if addr != "" && addr[0] == '[' then ParseBracketed(addr[1..]) else ParsePlain(addr)
  }

  lemma PortRoundTrip(port: nat)
    requires port < 0x1_0000
    ensures ParsePort(Decimal(port)) == Some(port)
    ensures ':' !in Decimal(port) && !IsSpace(Decimal(port)[|Decimal(port)| - 1])
  {
    DecimalRoundTrip(port);
    assert forall c :: c in Decimal(port) ==> IsDigit(c);
  }

  function Zeros(n: nat): (s: string)
    ensures |s| == n && AllDigits(s)
  {
    if n == 0 then "" else Zeros(n - 1) + "0"
  }

  lemma {:induction false} ZerosValue(n: nat)
    ensures DigitsValue(Zeros(n)) == 0
  {
    if n > 0 {
      ZerosValue(n - 1);
      DigitsAppend(Zeros(n - 1), 0);
    }
  }

  lemma {:induction false} PaddedValue(n: nat, port: nat)
    ensures AllDigits(Zeros(n) + Decimal(port)) && DigitsValue(Zeros(n) + Decimal(port)) == port
    decreases port
  {
    hide Zeros, DigitsValue, Decimal;
    DecimalAppend(port / 10, port % 10);
    if port < 10 {
      ZerosValue(n);
      DigitsAppend(Zeros(n), port);
    } else {
      PaddedValue(n, port / 10);
      Reassociate(Zeros(n), Decimal(port / 10), [DigitChar(port % 10)]);
      DigitsAppend(Zeros(n) + Decimal(port / 10), port % 10);
    }
  }

  /** Digits are the decimal number they denote behind zeros. */
  lemma {:induction false} LeadingZeros(digits: string)
    requires digits != "" && AllDigits(digits)
    ensures var decimal := Decimal(DigitsValue(digits));
            |digits| >= |decimal| && digits == Zeros(|digits| - |decimal|) + decimal
    decreases |digits|
  {
    var front, d := digits[..|digits| - 1], digits[|digits| - 1] as int - '0' as int;
    var v := DigitsValue(front);
    assert digits == front + [DigitChar(d)];
    DigitsAppend(front, d);
    DecimalAppend(v, d);
    ZeroInDecimal();
    hide DigitsValue, Decimal, Zeros;
    if front == "" {
      assert v == 0;
      OneZeroMore(0);
    } else {
      LeadingZeros(front);
      var k := |front| - |Decimal(v)|;
      OneZeroMore(k);
      Reassociate(Zeros(k), Decimal(v), [DigitChar(d)]);
    }
  }

  lemma ZeroInDecimal()
    ensures Decimal(0) == "0" && DigitsValue("") == 0
  {
  }

  lemma OneZeroMore(n: nat)
    ensures Zeros(n + 1) == Zeros(n) + "0" && Zeros(0) == ""
  {
  }

  /** `text` is the decimal form of `port` behind zeros and perhaps a plus sign. */
  ghost predicate IsPort(text: string, port: nat) {
    exists n: nat :: text == Zeros(n) + Decimal(port) || text == "+" + (Zeros(n) + Decimal(port))
  }

  lemma PortRead(text: string, port: nat)
    requires ParsePort(text) == Some(port)
    ensures port < 0x1_0000 && IsPort(text, port)
  {
    hide Zeros, Decimal, DigitsValue, AllDigits;
    var digits := if |text| > 1 && text[0] == '+' then text[1..] else text;
    LeadingZeros(digits);
    PlusApart(text);
    var n: nat := |digits| - |Decimal(port)|;
    assert digits == Zeros(n) + Decimal(port);
  }

  lemma PlusApart(text: string)
    ensures |text| > 1 && text[0] == '+' ==> text == "+" + text[1..]
  {
  }

  lemma PortPadded(n: nat, port: nat)
    requires port < 0x1_0000
    ensures ParsePort(Zeros(n) + Decimal(port)) == Some(port)
    ensures ParsePort("+" + (Zeros(n) + Decimal(port))) == Some(port)
  {
    hide Zeros, Decimal, DigitsValue;
    var padded := Zeros(n) + Decimal(port);
    PaddedValue(n, port);
    assert IsDigit(padded[0]) && ("+" + padded)[1..] == padded;
  }

  /** A text is a port exactly if it is the decimal form of a 16-bit number, possibly behind
      zeros and a plus sign. */
  lemma PortExactly(text: string, port: nat)
    ensures ParsePort(text) == Some(port) <==> port < 0x1_0000 && IsPort(text, port)
  {
    if ParsePort(text) == Some(port) {
      PortRead(text, port);
    }
    if port < 0x1_0000 && IsPort(text, port) {
      var n: nat :| text == Zeros(n) + Decimal(port) || text == "+" + (Zeros(n) + Decimal(port));
      PortPadded(n, port);
    }
  }

  lemma TrimPrinted(host: string, digits: string)
    requires digits != "" && !IsSpace(digits[|digits| - 1])
    ensures Trim(host + ":" + digits) == TrimStart(host) + ":" + digits
  {
    hide Trim, TrimStart;
    var tail := ":" + digits;
    assert tail[0] == ':' && tail[|tail| - 1] == digits[|digits| - 1];
    Reassociate(host, ":", digits);
    Reassociate(TrimStart(host), ":", digits);
    TrimLead(host, tail);
  }

  lemma LastColonFound(host: string, digits: string)
    requires ':' !in digits
    ensures RFindChar(host + ":" + digits, ':') == Some(|host|)
  {
    Pieces(host, ":", digits);
    assert (host + ":" + digits)[|host|] == ':';
  }

  /** In a printed endpoint "]:" can only occur in the host or at its end. */
  lemma BracketInHost(tail: string, digits: string, i: nat)
    requires ':' !in digits && OccursAt(tail + ":" + digits, "]:", i)
    ensures i < |tail|
  {
    var rest := tail + ":" + digits;
    assert rest[i..i + 2][1] == ':';
    assert forall j :: |tail| < j < |rest| ==> rest[j] == digits[j - |tail| - 1];
  }

  lemma BracketedIsShort(tail: string, digits: string)
    requires ':' !in digits
    ensures var r := ParseBracketed(tail + ":" + digits); r.Ok? ==> |r.value.0| < |tail|
  {
    var rest := tail + ":" + digits;
    var i := Find(rest, "]:");
    if i.Some? {
      BracketInHost(tail, digits, i.value);
    }
  }

  lemma PlainParses(short: string, digits: string, port: nat)
    requires ParsePort(digits) == Some(port) && ':' !in digits
    ensures ParsePlain(short + ":" + digits) == if short == "" then Ok((":" + digits, 6379)) else Ok((short, port))
  {
    LastColonFound(short, digits);
    Pieces(short, ":", digits);
    assert short == "" ==> short + ":" + digits == ":" + digits;
  }

  lemma PrintedHead(short: string, digits: string)
    requires short != ""
    ensures var addr := short + ":" + digits; addr[0] == short[0] && addr[1..] == short[1..] + ":" + digits
  {
  }

  lemma ParseTrimmed(raw: string, addr: string)
    requires Trim(raw) == addr
    ensures ParseHostPort(raw) == if addr != "" && addr[0] == '[' then ParseBracketed(addr[1..]) else ParsePlain(addr)
  {
  }

  /** What is parsed is the printed endpoint without the host's leading white space. */
  lemma ParsePrinted(host: string, short: string, digits: string)
    requires short == TrimStart(host) && digits != "" && !IsSpace(digits[|digits| - 1])
    ensures ParseHostPort(host + ":" + digits)
            == if short != "" && short[0] == '[' then ParseBracketed(short[1..] + ":" + digits)
               else ParsePlain(short + ":" + digits)
  {
    TrimPrinted(host, digits);
    ParseTrimmed(host + ":" + digits, short + ":" + digits);
    if short != "" {
      PrintedHead(short, digits);
    } else {
      assert (short + ":" + digits)[0] == ':';
    }
  }

  /** Printing a host and a port and parsing the text gives them back exactly when the host
      is non-empty and starts with neither white space nor a bracket; bare IPv6 is included. */
  lemma HostPortRoundTrip(host: string, port: nat)
    requires port < 0x1_0000
    ensures ParseHostPort(host + ":" + Decimal(port)) == Ok((host, port))
            <==> host != "" && !IsSpace(host[0]) && host[0] != '['
  {
    var short, digits := TrimStart(host), Decimal(port);
    PortRoundTrip(port);
    ParsePrinted(host, short, digits);
    TrimStartFixed(host);
    if short != "" && short[0] == '[' {
      BracketedIsShort(short[1..], digits);
    } else {
      PlainParses(short, digits, port);
    }
  }

  /** A text without a colon is a host on the default port. */
  lemma DefaultPort(raw: string)
    requires ':' !in raw && (Trim(raw) == "" || Trim(raw)[0] != '[')
    ensures ParseHostPort(raw) == Ok((Trim(raw), 6379))
  {
    var start := TrimStart(raw);
    assert ':' !in start;
    assert ':' !in TrimEnd(start);
  }

  /** A bracket that is not closed in front of a port is refused. */
  lemma OpenBracketRefused(raw: string)
    requires Trim(raw) != "" && Trim(raw)[0] == '[' && forall i: nat :: !OccursAt(Trim(raw)[1..], "]:", i)
    ensures ParseHostPort(raw) == Err(Config)
  {
    hide Trim, OccursAt;
  }

  /** Without a host in front of its only colon the whole text counts as one. */
  lemma MissingHostIsKept(text: string)
    requires text != "" && !IsSpace(text[|text| - 1]) && ':' !in text
    ensures ParseHostPort(":" + text) == Ok((":" + text, 6379))
  {
    assert "" + ":" + text == ":" + text;
    ParsePrinted("", "", text);
    LastColonFound("", text);
  }

  /** A host that is followed by anything but a port is refused, in either form. */
  lemma BadPortRefused(host: string, text: string)
    requires text != "" && !IsSpace(text[|text| - 1]) && ':' !in text && ParsePort(text).None?
    ensures host != "" && !IsSpace(host[0]) && host[0] != '[' ==> ParseHostPort(host + ":" + text) == Err(Config)
    ensures (forall i :: 0 <= i < |host| ==> !OccursAt(host, "]:", i)) ==>
              ParseHostPort("[" + (host + "]:" + text)) == Err(Config)
  {
    hide ParsePort, ParseHostPort, ParseBracketed, ParsePlain, OccursAt;
    if host != "" && !IsSpace(host[0]) && host[0] != '[' {
      TrimStartFixed(host);
      ParsePrinted(host, host, text);
      BadPlainPort(host, text);
    }
    if forall i :: 0 <= i < |host| ==> !OccursAt(host, "]:", i) {
      LastOf(host + "]:", text);
      BracketedIsTrimmed(host + "]:" + text);
      BadBracketedPort(host, text);
    }
  }

  lemma BadPlainPort(host: string, text: string)
    requires host != "" && ':' !in text && ParsePort(text).None?
    ensures ParsePlain(host + ":" + text) == Err(Config)
  {
    hide ParsePort;
    LastColonFound(host, text);
    Pieces(host, ":", text);
  }

  lemma BadBracketedPort(host: string, text: string)
    requires ParsePort(text).None? && forall i :: 0 <= i < |host| ==> !OccursAt(host, "]:", i)
    ensures ParseBracketed(host + "]:" + text) == Err(Config)
  {
    BracketFound(host, text);
    Pieces(host, "]:", text);
    hide ParsePort, OccursAt;
  }

  lemma BracketFound(host: string, digits: string)
    ensures var r := Find(host + "]:" + digits, "]:");
            r.Some? && r.value <= |host|
            && (r.value == |host| <==> forall i :: 0 <= i < |host| ==> !OccursAt(host, "]:", i))
  {
    var rest := host + "]:" + digits;
    Pieces(host, "]:", digits);
    assert OccursAt(rest, "]:", |host|);
    forall i | 0 <= i < |host| ensures OccursAt(rest, "]:", i) == OccursAt(host, "]:", i) {
      if i + 2 <= |host| {
        assert rest[i..i + 2] == host[i..i + 2];
      } else {
        assert rest[i..i + 2][1] == ']';
      }
    }
  }

  /** The bracketed form gives back every host that does not itself contain "]:", and only those. */
  lemma BracketRoundTrip(host: string, port: nat)
    requires port < 0x1_0000
    ensures ParseHostPort("[" + (host + "]:" + Decimal(port))) == Ok((host, port))
            <==> forall i :: 0 <= i < |host| ==> !OccursAt(host, "]:", i)
  {
    var digits := Decimal(port);
    var rest := host + "]:" + digits;
    PortRoundTrip(port);
    BracketFound(host, digits);
    Pieces(host, "]:", digits);
    BracketedIsTrimmed(rest);
  }

  lemma BracketIsNoSpace()
    ensures !IsSpace('[')
  {
  }

  lemma BracketedIsTrimmed(rest: string)
    requires rest != "" && !IsSpace(rest[|rest| - 1])
    ensures ParseHostPort("[" + rest) == ParseBracketed(rest)
  {
    hide Trim, IsSpace, ParseHostPort, ParseBracketed, ParsePlain;
    var addr := "[" + rest;
    assert addr[|addr| - 1] == rest[|rest| - 1] && addr[1..] == rest;
    BracketIsNoSpace();
    TrimmedIsFixed(addr);
    ParseTrimmed(addr, addr);
  }

  // ----- node lists -----

  function Split(s: string): (parts: seq<string>)
    ensures parts != []
    ensures forall i :: 0 <= i < |parts| ==> ',' !in parts[i]
    decreases |s|
  {
    match FindChar(s, ',')
    case None => [s]
    case Some(i) => [s[..i]] + Split(s[i + 1..])
  }

  function Clean(parts: seq<string>): seq<string> {
    if parts == [] then []
    else if Trim(parts[0]) == "" then Clean(parts[1..])
    else [Trim(parts[0])] + Clean(parts[1..])
  }

  function SplitNodes(raw: string): seq<string> {
    Clean(Split(raw))
  }

  function Join(items: seq<string>): string {
    if items == [] then ""
    else if |items| == 1 then items[0]
    else items[0] + "," + Join(items[1..])
  }

  predicate IsNode(item: string) {
    item != "" && ',' !in item && Trimmed(item)
  }

  predicate AllNodes(items: seq<string>) {
    forall i :: 0 <= i < |items| ==> IsNode(items[i])
  }

  lemma TrimmedPart(part: string)
    requires ',' !in part
    ensures Trim(part) != "" ==> IsNode(Trim(part))
  {
    TrimIsTrimmed(part);
    var start := TrimStart(part);
    assert ',' !in start;
    assert ',' !in TrimEnd(start);
  }

  lemma {:induction false} CleanGivesNodes(parts: seq<string>)
    requires forall i :: 0 <= i < |parts| ==> ',' !in parts[i]
    ensures AllNodes(Clean(parts))
  {
    hide Trim, IsNode;
    if parts != [] {
      CleanGivesNodes(parts[1..]);
      TrimmedPart(parts[0]);
    }
  }

  lemma SplitCons(first: string, rest: string)
    requires ',' !in first
    ensures Split(first + "," + rest) == [first] + Split(rest)
  {
    var s := first + "," + rest;
    Pieces(first, ",", rest);
    assert s[|first|] == ',';
    assert FindChar(s, ',') == Some(|first|);
  }

  lemma CleanCons(first: string, parts: seq<string>)
    requires IsNode(first)
    ensures Clean([first] + parts) == [first] + Clean(parts)
  {
    TrimmedIsFixed(first);
    assert ([first] + parts)[1..] == parts;
  }

  lemma {:induction false} SplitJoin(items: seq<string>)
    requires AllNodes(items)
    ensures SplitNodes(Join(items)) == items
  {
    if items == [] {
      assert Split("") == [""];
      assert Clean([""]) == [];
    } else {
      var first := items[0];
      assert IsNode(first);
      assert items == [first] + items[1..];
      if |items| == 1 {
        assert Split(first) == [first] + [];
        CleanCons(first, []);
      } else {
        SplitJoin(items[1..]);
        SplitCons(first, Join(items[1..]));
        CleanCons(first, Split(Join(items[1..])));
      }
    }
  }

  lemma {:induction false} CleanConcat(first: seq<string>, rest: seq<string>)
    ensures Clean(first + rest) == Clean(first) + Clean(rest)
  {
    if first == [] {
      assert first + rest == rest;
    } else {
      assert (first + rest)[0] == first[0] && (first + rest)[1..] == first[1..] + rest;
      CleanConcat(first[1..], rest);
      if Trim(first[0]) != "" {
        hide Clean, Trim;
        Reassociate([Trim(first[0])], Clean(first[1..]), Clean(rest));
      }
    }
  }

  /** Splitting at any comma: the nodes on its left, then those on its right. */
  lemma {:induction false} SplitAtComma(left: string, right: string)
    ensures Split(left + "," + right) == Split(left) + Split(right)
    decreases |left|
  {
    match FindChar(left, ',')
    case None => SplitCons(left, right);
    case Some(i) =>
      var head, tail := left[..i], left[i + 1..];
      assert left == head + "," + tail;
      Regroup(head, tail, right);
      SplitCons(head, tail + "," + right);
      SplitAtComma(tail, right);
  }

  lemma Regroup(head: string, tail: string, right: string)
    ensures head + "," + tail + "," + right == head + "," + (tail + "," + right)
  {
    Reassociate(head + ",", tail, ",");
    Reassociate(head + ",", tail + ",", right);
  }

  /** What `split_nodes` does with every text: the nodes on either side of a comma in order, and
      of a text without comma what trimming leaves, unless that is nothing. */
  lemma NodesOfAnyText(left: string, right: string, single: string)
    requires ',' !in single
    ensures SplitNodes(left + "," + right) == SplitNodes(left) + SplitNodes(right)
    ensures SplitNodes(single) == if Trim(single) == "" then [] else [Trim(single)]
  {
    hide Clean, Split, Trim;
    SplitAtComma(left, right);
    CleanConcat(Split(left), Split(right));
    SingleNode(single);
  }

  lemma SingleNode(single: string)
    requires ',' !in single
    ensures SplitNodes(single) == if Trim(single) == "" then [] else [Trim(single)]
  {
    hide Trim;
    assert Split(single) == [single];
    assert [single][1..] == [] && Clean([]) == [];
  }

  /** A list is what `split_nodes` returns for some text exactly when its items are non-empty,
      trimmed and free of commas; joining such a list with commas and splitting gives it back. */
  lemma SplitNodesRoundTrip(items: seq<string>)
    ensures AllNodes(items) <==> exists raw :: SplitNodes(raw) == items
    ensures AllNodes(items) ==> SplitNodes(Join(items)) == items
  {
    if AllNodes(items) {
      SplitJoin(items);
    }
    if raw :| SplitNodes(raw) == items {
      CleanGivesNodes(Split(raw));
    }
  }
}
