/** SSH endpoints (`parse_native_endpoint` in src/cli.rs and `Provider::label` in src/auth_from.rs):
    `[user@]host[:port]`, with brackets around a host that holds colons. */
module Endpoint {
  import opened ByteStrings

  datatype NativeEndpoint = NativeEndpoint(user: Option<string>, host: string, port: Option<nat>)

  datatype Refusal =
    | BadName | BadUser | BadPort | ZeroPort | MismatchedBrackets | TextAfterBrackets
    | Unbracketed | EmptyHost | DashHost | BadHost | NotPlain

  // ----- Characters and numbers ---------------------------------------------------------

  predicate AsciiSpace(c: char) { c == ' ' || c == '\t' || c == '\n' || c == '\r' || c == 12 as char }

  predicate Digit(c: char) { '0' <= c <= '9' }

  predicate Alphanumeric(c: char) { Digit(c) || 'a' <= c <= 'z' || 'A' <= c <= 'Z' }

  /** The last position of `c`, for `rsplit_once`. */
  function LastIndex(s: string, c: char): (i: Option<nat>)
    ensures i.Some? ==> i.value < |s| && s[i.value] == c && c !in s[i.value + 1..]
    ensures i.None? ==> c !in s
  {
    if s == [] then None
    else if s[|s| - 1] == c then Some(|s| - 1)
    else
      var i := LastIndex(s[..|s| - 1], c);
      assert s == s[..|s| - 1] + [s[|s| - 1]];
      assert i.Some? ==> s[i.value + 1..] == s[..|s| - 1][i.value + 1..] + [s[|s| - 1]];
      i
  }

  /** The first position of `c`, for `find`. */
  function FirstIndex(s: string, c: char): (i: Option<nat>)
    ensures i.Some? ==> i.value < |s| && s[i.value] == c && c !in s[..i.value]
    ensures i.None? ==> c !in s
  {
    if s == [] then None
    else if s[0] == c then Some(0)
    else
      match FirstIndex(s[1..], c)
      case None => None
      case Some(i) => assert s[..i + 1] == [s[0]] + s[1..][..i]; Some(i + 1)
  }

  lemma {:induction false} LastIndexBetween(before: string, c: char, after: string)
    requires c !in after
    ensures LastIndex(before + [c] + after, c) == Some(|before|)
  {
    var s := before + [c] + after;
    if after == [] {
      assert s[|s| - 1] == c;
    } else {
      LastIndexBetween(before, c, after[..|after| - 1]);
      assert s[..|s| - 1] == before + [c] + after[..|after| - 1];
      assert s[|s| - 1] == after[|after| - 1];
    }
  }

  lemma {:induction false} FirstIndexBetween(before: string, c: char, after: string)
    requires c !in before
    ensures FirstIndex(before + [c] + after, c) == Some(|before|)
  {
    var s := before + [c] + after;
    if before != [] {
      FirstIndexBetween(before[1..], c, after);
      assert s[1..] == before[1..] + [c] + after;
    }
  }

  lemma LastIndexNone(s: string, c: char)
    requires c !in s
    ensures LastIndex(s, c) == None
  {
  }

  predicate Digits(s: string) { s != [] && forall i | 0 <= i < |s| :: Digit(s[i]) }

  function DigitValue(c: char): nat { if Digit(c) then c as int - '0' as int else 0 }

  function Value(s: string): nat
  {
    if s == [] then 0 else 10 * Value(s[..|s| - 1]) + DigitValue(s[|s| - 1])
  }

  /** `str::parse::<u16>`: decimal digits, after at most one plus sign. */
  function ParseU16(s: string): Option<nat>
  {
    var digits := if |s| > 1 && s[0] == '+' then s[1..] else s;
    if Digits(digits) && Value(digits) < 65536 then Some(Value(digits)) else None
  }

  function Decimal(n: nat): string
  {
    (if n < 10 then [] else Decimal(n / 10)) + [('0' as int + n % 10) as char]
  }

  lemma {:induction false} DecimalDigits(n: nat)
    ensures Digits(Decimal(n)) && Value(Decimal(n)) == n
  {
    if n >= 10 { DecimalDigits(n / 10); }
    var s := Decimal(n);
    assert s[..|s| - 1] == if n < 10 then [] else Decimal(n / 10);
  }

  lemma ParseDecimal(n: nat)
    requires n < 65536
    ensures ParseU16(Decimal(n)) == Some(n)
  {
    DecimalDigits(n);
    assert Digit(Decimal(n)[0]);
  }

  // ----- Parsing ------------------------------------------------------------------------

  /** `destination::validate_name`. */
  predicate ValidName(name: string)
  {
    1 <= |name| <= 64 && forall i | 0 <= i < |name| :: Alphanumeric(name[i]) || name[i] == '-' || name[i] == '_'
  }

  predicate UserChar(c: char) { !(c == 0 as char || AsciiSpace(c) || c == '/' || c == '@') }

  predicate HostChar(c: char) { !(c == 0 as char || AsciiSpace(c) || c == '/' || c == '[' || c == ']') }

  function ParsePort(s: string): Result<nat, Refusal>
  {
    match ParseU16(s)
    case None => Err(BadPort)
    case Some(port) => if port == 0 then Err(ZeroPort) else Ok(port)
  }

  /** What follows an opening bracket. */
  function ParseBracketed(b: string): Result<(string, Option<nat>), Refusal>
  {
    match FirstIndex(b, ']')
    case None => Err(MismatchedBrackets)
    case Some(close) =>
      var host, suffix := b[..close], b[close + 1..];
      if suffix == [] then Ok((host, None))
      else if suffix[0] != ':' then Err(TextAfterBrackets)
      else match ParsePort(suffix[1..])
        case Err(refusal) => Err(refusal)
        case Ok(port) => Ok((host, Some(port)))
  }

  function ParsePlain(a: string): Result<(string, Option<nat>), Refusal>
  {
    match LastIndex(a, ':')
    case None => Ok((a, None))
    case Some(i) =>
      if ':' in a[..i] then Err(Unbracketed)
      else match ParsePort(a[i + 1..])
        case Err(refusal) => Err(refusal)
        case Ok(port) => Ok((a[..i], Some(port)))
  }

  function ParseAuthority(a: string): Result<(string, Option<nat>), Refusal>
  {
    if a != [] && a[0] == '[' then ParseBracketed(a[1..]) else ParsePlain(a)
  }

  function CheckHost(host: string): Result<(), Refusal>
  {
    if host == [] then Err(EmptyHost)
    else if host[0] == '-' then Err(DashHost)
    else if exists i | 0 <= i < |host| :: !HostChar(host[i]) then Err(BadHost)
    else Ok(())
  }

  function WithUser(user: Option<string>, authority: string): Result<NativeEndpoint, Refusal>
  {
    match ParseAuthority(authority)
    case Err(refusal) => Err(refusal)
    case Ok((host, port)) =>
      match CheckHost(host)
      case Err(refusal) => Err(refusal)
      case Ok(_) => Ok(NativeEndpoint(user, host, port))
  }

  /** An empty user cannot arise: a spec whose last `@` comes first begins with `@`. */
  function ParseEndpoint(spec: string): Result<NativeEndpoint, Refusal>
  {
    if spec != [] && spec[0] == '@' then
      if ValidName(spec[1..]) then Ok(NativeEndpoint(None, spec, None)) else Err(BadName)
    else
      match LastIndex(spec, '@')
      case None => WithUser(None, spec)
      case Some(i) =>
        if exists k | 0 <= k < i :: !UserChar(spec[k]) then Err(BadUser)
        else WithUser(Some(spec[..i]), spec[i + 1..])
  }

  // ----- Printing -----------------------------------------------------------------------

  function HostText(host: string): string { if ':' in host then ['['] + host + [']'] else host }

  function PortText(port: Option<nat>): string { if port.Some? then [':'] + Decimal(port.value) else [] }

  function Label(e: NativeEndpoint): string
  {
    (if e.user.Some? then e.user.value + ['@'] else []) + (HostText(e.host) + PortText(e.port))
  }

  /** `Provider::label` for an SSH endpoint, which builds the text in place. */
  method LabelText(e: NativeEndpoint) returns (text: string)
    ensures text == Label(e)
  {
    text := if ':' in e.host then ['['] + e.host + [']'] else e.host;
    ghost var host := text;
    if e.user.Some? { text := e.user.value + ['@'] + text; }
    ghost var user := if e.user.Some? then e.user.value + ['@'] else [];
    assert text == user + host;
    if e.port.Some? { text := text + ([':'] + Decimal(e.port.value)); }
    assert text == user + (host + PortText(e.port));
  }

  // ----- The round trip -----------------------------------------------------------------

  predicate WellFormed(e: NativeEndpoint)
  {
    && (e.user.Some? ==> e.user.value != [] && forall i | 0 <= i < |e.user.value| :: UserChar(e.user.value[i]))
    && CheckHost(e.host).Ok? && '@' !in e.host
    && (e.port.Some? ==> 0 < e.port.value < 65536)
  }

  lemma AuthorityParts(a: string)
    requires ParseAuthority(a).Ok?
    ensures var (host, port) := ParseAuthority(a).value;
            && (forall c :: c in host ==> c in a)
            && (port.Some? ==> 0 < port.value < 65536)
  {
  }

  /** What the parser returns for a spec that does not begin with `@` is well formed. */
  lemma ParsedIsWellFormed(spec: string)
    requires ParseEndpoint(spec).Ok? && !(spec != [] && spec[0] == '@')
    ensures WellFormed(ParseEndpoint(spec).value)
  {
    match LastIndex(spec, '@')
    case None => AuthorityParts(spec);
    case Some(i) => AuthorityParts(spec[i + 1..]);
  }

  lemma PortTextDigits(port: Option<nat>)
    requires port.Some? ==> 0 < port.value < 65536
    ensures forall c :: c in PortText(port) ==> c == ':' || Digit(c)
    ensures port.Some? ==> ParsePort(Decimal(port.value)) == Ok(port.value) && ':' !in Decimal(port.value)
  {
    if port.Some? {
      DecimalDigits(port.value);
      ParseDecimal(port.value);
    }
  }

  lemma BracketedRoundTrip(host: string, port: Option<nat>)
    requires ']' !in host && (port.Some? ==> 0 < port.value < 65536)
    ensures ParseBracketed(host + [']'] + PortText(port)) == Ok((host, port))
  {
    var b := host + [']'] + PortText(port);
    PortTextDigits(port);
    FirstIndexBetween(host, ']', PortText(port));
    assert b[..|host|] == host && b[|host| + 1..] == PortText(port);
    if port.Some? { assert PortText(port)[1..] == Decimal(port.value); }
  }

  lemma PlainRoundTrip(host: string, port: Option<nat>)
    requires ':' !in host && (port.Some? ==> 0 < port.value < 65536)
    ensures ParsePlain(host + PortText(port)) == Ok((host, port))
  {
    var a := host + PortText(port);
    PortTextDigits(port);
    if port.Some? {
      assert a == host + [':'] + Decimal(port.value);
      LastIndexBetween(host, ':', Decimal(port.value));
      assert a[..|host|] == host && a[|host| + 1..] == Decimal(port.value);
    } else {
      assert a == host;
      LastIndexNone(host, ':');
    }
  }

  lemma HostChars(host: string)
    requires CheckHost(host).Ok?
    ensures host != [] && '[' !in host && ']' !in host
  {
  }

  /** How the authority's parser takes a printed host and what follows it. */
  lemma AuthorityAsHost(host: string, suffix: string)
    requires host != [] && '[' !in host
    ensures ParseAuthority(HostText(host) + suffix) ==
            if ':' in host then ParseBracketed(host + [']'] + suffix) else ParsePlain(host + suffix)
  {
    var a := HostText(host) + suffix;
    if ':' in host {
      assert a[0] == '[' && a[1..] == host + [']'] + suffix;
    } else {
      assert a[0] == host[0];
    }
  }

  lemma AuthorityRoundTrip(host: string, port: Option<nat>)
    requires host != [] && '[' !in host && ']' !in host && (port.Some? ==> 0 < port.value < 65536)
    ensures ParseAuthority(HostText(host) + PortText(port)) == Ok((host, port))
  {
    AuthorityAsHost(host, PortText(port));
    if ':' in host { BracketedRoundTrip(host, port); } else { PlainRoundTrip(host, port); }
  }

  lemma ParseWithUser(user: string, authority: string)
    requires user != [] && '@' !in authority && forall i | 0 <= i < |user| :: UserChar(user[i])
    ensures var s := user + ['@'] + authority; s[0] != '@' && ParseEndpoint(s) == WithUser(Some(user), authority)
  {
    var s := user + ['@'] + authority;
    LastIndexBetween(user, '@', authority);
    assert forall i | 0 <= i < |user| :: s[i] == user[i];
    assert s[..|user|] == user && s[|user| + 1..] == authority;
  }

  lemma ParseWithoutUser(authority: string)
    requires authority != [] && '@' !in authority
    ensures authority[0] != '@' && ParseEndpoint(authority) == WithUser(None, authority)
  {
    LastIndexNone(authority, '@');
  }

  lemma AuthorityText(host: string, port: Option<nat>)
    requires host != [] && '@' !in host && (port.Some? ==> 0 < port.value < 65536)
    ensures var a := HostText(host) + PortText(port); a != [] && '@' !in a
  {
    PortTextDigits(port);
  }

  /** Printing an endpoint and parsing it again gives the same user, host and port. */
  lemma LabelParsesBack(e: NativeEndpoint)
    requires WellFormed(e)
    ensures ParseEndpoint(Label(e)) == Ok(e) && Label(e) != [] && Label(e)[0] != '@'
  {
    var authority := HostText(e.host) + PortText(e.port);
    HostChars(e.host);
    AuthorityText(e.host, e.port);
    assert WithUser(e.user, authority) == Ok(e) by { AuthorityRoundTrip(e.host, e.port); }
    if e.user.Some? {
      ParseWithUser(e.user.value, authority);
    } else {
      ParseWithoutUser(authority);
      assert [] + authority == authority;
    }
  }

  /** The parser returns exactly the well-formed endpoints, and reads each one's label back. */
  lemma EndpointRoundTrip(spec: string)
    requires ParseEndpoint(spec).Ok? && !(spec != [] && spec[0] == '@')
    ensures ParseEndpoint(Label(ParseEndpoint(spec).value)) == ParseEndpoint(spec)
  {
    ParsedIsWellFormed(spec);
    LabelParsesBack(ParseEndpoint(spec).value);
  }
}
