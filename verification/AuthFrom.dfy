/** Saved authorization choices (`Provider`, `Config`, `spelling` and `host_key` in src/auth_from.rs,
    and `parse_auth_from` in src/cli.rs): what one edit does to the configuration, and when what was
    saved can be read back. */
module AuthFrom {
  import opened ByteStrings
  import opened Endpoint

  datatype Provider = Return(name: string) | Ssh(endpoint: NativeEndpoint)

  datatype Choice = Auto | OwnSsh | FromProvider(provider: Provider)

  const AUTO: string := "auto"
  const SSH: string := "ssh"

  predicate PlainHostChar(c: char) { Alphanumeric(c) || c == '.' || c == '_' || c == '-' || c == ':' }

  predicate PlainUserChar(c: char) { Alphanumeric(c) || c == '.' || c == '_' || c == '-' }

  /** `destination::ssh::validate_endpoint`. */
  predicate PlainEndpoint(e: NativeEndpoint)
  {
    && e.host != [] && e.host[0] != '-' && (forall i | 0 <= i < |e.host| :: PlainHostChar(e.host[i]))
    && (e.user.Some? ==>
          && e.user.value != [] && e.user.value[0] != '-'
          && forall i | 0 <= i < |e.user.value| :: PlainUserChar(e.user.value[i]))
    && |e.host| + (if e.user.Some? then |e.user.value| else 0) <= 512
    && e.port != Some(0)
  }

  function ParseProvider(value: string): Result<Provider, Refusal>
  {
    if value != [] && value[0] == '@' then
      if ValidName(value[1..]) then Ok(Return(value[1..])) else Err(BadName)
    else
      match ParseEndpoint(value)
      case Err(refusal) => Err(refusal)
      case Ok(e) => if PlainEndpoint(e) then Ok(Ssh(e)) else Err(NotPlain)
  }

  function ParseChoice(value: string): Result<Choice, Refusal>
  {
    if value == AUTO then Ok(Auto)
    else if value == SSH then Ok(OwnSsh)
    else match ParseProvider(value)
      case Err(refusal) => Err(refusal)
      case Ok(p) => Ok(FromProvider(p))
  }

  function Spelling(c: Choice): string
  {
    match c
    case Auto => AUTO
    case OwnSsh => SSH
    case FromProvider(Return(name)) => ['@'] + name
    case FromProvider(Ssh(e)) => Label(e)
  }

  // ----- Reading a spelling back --------------------------------------------------------

  /** A choice that the command line can give. */
  ghost predicate Parsed(c: Choice) { exists value: string :: ParseChoice(value) == Ok(c) }

  /** A server named by a keyword alone: it can be typed in brackets, but is saved without them. */
  predicate NamedByKeyword(c: Choice)
  {
    && c.FromProvider? && c.provider.Ssh?
    && (c.provider.endpoint == NativeEndpoint(None, AUTO, None)
        || c.provider.endpoint == NativeEndpoint(None, SSH, None))
  }

  /** A word with no punctuation of the grammar is a host. */
  lemma WordIsHost(word: string)
    requires CheckHost(word).Ok? && '@' !in word && ':' !in word
    ensures ParseEndpoint(word) == Ok(NativeEndpoint(None, word, None))
  {
    HostChars(word);
    LastIndexNone(word, '@');
    LastIndexNone(word, ':');
  }

  lemma KeywordsAreHosts()
    ensures ParseEndpoint(AUTO) == Ok(NativeEndpoint(None, AUTO, None))
    ensures ParseEndpoint(SSH) == Ok(NativeEndpoint(None, SSH, None))
  {
    WordIsHost(AUTO);
    WordIsHost(SSH);
  }

  lemma LabelIsKeyword(e: NativeEndpoint)
    requires WellFormed(e)
    ensures Label(e) == AUTO || Label(e) == SSH <==> NamedByKeyword(FromProvider(Ssh(e)))
  {
    LabelParsesBack(e);
    KeywordsAreHosts();
    if NamedByKeyword(FromProvider(Ssh(e))) { assert Label(e) == e.host; }
  }

  /** What was chosen is what its saved spelling reads as, exactly unless it is a server whose label
      is a keyword; such a choice reads back as the keyword, and never fails to read. */
  lemma SpellingReadsBack(value: string)
    requires ParseChoice(value).Ok?
    ensures var c := ParseChoice(value).value;
            && ParseChoice(Spelling(c)).Ok?
            && (ParseChoice(Spelling(c)) == Ok(c) <==> !NamedByKeyword(c))
  {
    var c := ParseChoice(value).value;
    if c.FromProvider? {
      match c.provider
      case Return(name) => assert Spelling(c)[1..] == name;
      case Ssh(e) =>
        ParsedIsWellFormed(value);
        LabelParsesBack(e);
        LabelIsKeyword(e);
    }
  }

  /** `[ssh]` names a server, and is saved as the keyword that means this machine's own access. */
  lemma KeywordServerIsLost()
    ensures exists value: string ::
              && ParseChoice(value).Ok? && NamedByKeyword(ParseChoice(value).value)
              && ParseChoice(Spelling(ParseChoice(value).value)) == Ok(OwnSsh)
  {
    var value := ['['] + SSH + [']'];
    var e := NativeEndpoint(None, SSH, None);
    assert value[1..] == SSH + [']'] + PortText(None);
    BracketedRoundTrip(SSH, None);
    LastIndexNone(value, '@');
    assert ParseEndpoint(value) == Ok(e);
    assert PlainEndpoint(e);
    assert ParseChoice(value) == Ok(FromProvider(Ssh(e))) && Label(e) == SSH;
  }

  // ----- Hosts --------------------------------------------------------------------------

  /** `host_key`; `isIpv6` stands for the standard library's IPv6 parser. */
  function HostKey(isIpv6: string -> bool, value: string): Result<string, Refusal>
  {
    if isIpv6(value) then Ok(value)
    else match ParseEndpoint(value)
      case Err(refusal) => Err(refusal)
      case Ok(e) =>
        if e.user.Some? || e.port.Some? || (e.host != [] && e.host[0] == '-')
           || exists i | 0 <= i < |e.host| :: !PlainHostChar(e.host[i])
        then Err(NotPlain)
        else Ok(e.host)
  }

  lemma WordIsKey(isIpv6: string -> bool, word: string)
    requires CheckHost(word).Ok? && ':' !in word && forall i | 0 <= i < |word| :: PlainHostChar(word[i])
    ensures HostKey(isIpv6, word) == Ok(word)
  {
    assert '@' !in word;
    WordIsHost(word);
  }

  lemma ColonIsNotAWord(word: string)
    requires ':' in word && '[' !in word
    ensures ParseEndpoint(word).Ok? ==> ParseEndpoint(word).value.port.Some? || ParseEndpoint(word).value.user.Some?
  {
    if word[0] != '@' && LastIndex(word, '@').None? {
      assert ParseAuthority(word) == ParsePlain(word);
    }
  }

  lemma KeyHost(isIpv6: string -> bool, value: string)
    requires HostKey(isIpv6, value).Ok? && !isIpv6(value)
    ensures CheckHost(HostKey(isIpv6, value).value).Ok?
    ensures forall i | 0 <= i < |HostKey(isIpv6, value).value| :: PlainHostChar(HostKey(isIpv6, value).value[i])
  {
  }

  /** A host that `--for` accepts is saved under a name that is accepted again as itself, exactly
      when the name has no colon or is an IPv6 address. */
  lemma KeyIsStable(isIpv6: string -> bool, value: string)
    requires HostKey(isIpv6, value).Ok?
    ensures var key := HostKey(isIpv6, value).value;
            HostKey(isIpv6, key) == Ok(key) <==> ':' !in key || isIpv6(key)
  {
    var key := HostKey(isIpv6, value).value;
    if !isIpv6(key) {
      KeyHost(isIpv6, value);
      if ':' in key { ColonIsNotAWord(key); } else { WordIsKey(isIpv6, key); }
    }
  }

  /** `[a:b]` is accepted and saved as `a:b`, which is then refused. */
  lemma UnstableKeyHappens(isIpv6: string -> bool)
    requires !isIpv6("[a:b]") && !isIpv6("a:b")
    ensures HostKey(isIpv6, "[a:b]") == Ok("a:b") && HostKey(isIpv6, "a:b") != Ok("a:b")
  {
    var value := ['['] + "a:b" + [']'];
    assert value == "[a:b]";
    assert value[1..] == "a:b" + [']'] + PortText(None);
    BracketedRoundTrip("a:b", None);
    LastIndexNone(value, '@');
    assert ParseEndpoint(value) == Ok(NativeEndpoint(None, "a:b", None));
    KeyIsStable(isIpv6, value);
  }

  // ----- The configuration --------------------------------------------------------------

  /** `extensions` keeps the JSON text of fields this version does not know. */
  datatype Config = Config(
    version: Option<nat>, default_: Option<string>, hosts: map<string, string>, extensions: map<string, string>)

  const EMPTY: Config := Config(None, None, map[], map[])

  predicate ValidConfig(isIpv6: string -> bool, c: Config)
  {
    && (c.version.Some? ==> c.version.value == 1)
    && (c.default_.Some? ==> ParseChoice(c.default_.value).Ok?)
    && forall h | h in c.hosts :: HostKey(isIpv6, h) == Ok(h) && ParseChoice(c.hosts[h]).Ok?
  }

  function Selected(c: Config, host: string): Result<Choice, Refusal>
  {
    ParseChoice(if host in c.hosts then c.hosts[host] else if c.default_.Some? then c.default_.value else AUTO)
  }

  /** One edit: the choice for a host or, without one, the default; no value removes the choice. */
  datatype Edit = Edit(host: Option<string>, value: Option<Choice>)

  function Apply(c: Config, edit: Edit): Config
  {
    match (edit.host, edit.value)
    case (None, None) => c.(default_ := None)
    case (None, Some(v)) => c.(default_ := Some(Spelling(v)))
    case (Some(h), Some(v)) => c.(hosts := c.hosts[h := Spelling(v)])
    case (Some(h), None) => c.(hosts := c.hosts - {h})
  }

  /** An edit as the command line makes them. */
  ghost predicate Entered(isIpv6: string -> bool, edit: Edit)
  {
    && (edit.host.Some? ==> exists v: string :: HostKey(isIpv6, v) == Ok(edit.host.value))
    && (edit.value.Some? ==> Parsed(edit.value.value))
  }

  /** An edit leaves a readable configuration readable exactly unless it saves a choice under a host
      with colons that is not an IPv6 address. */
  lemma EditKeepsValid(isIpv6: string -> bool, c: Config, edit: Edit)
    requires ValidConfig(isIpv6, c) && Entered(isIpv6, edit)
    ensures ValidConfig(isIpv6, Apply(c, edit)) <==>
            edit.host.None? || edit.value.None? || ':' !in edit.host.value || isIpv6(edit.host.value)
  {
    if edit.value.Some? {
      var value: string :| ParseChoice(value) == Ok(edit.value.value);
      SpellingReadsBack(value);
    }
    if edit.host.Some? {
      var v: string :| HostKey(isIpv6, v) == Ok(edit.host.value);
      KeyIsStable(isIpv6, v);
      if edit.value.Some? { assert edit.host.value in Apply(c, edit).hosts; }
    }
  }

  /** After an edit the host it names gets the choice it gives, exactly unless a keyword names that
      choice's server; and every other host keeps its own choice. */
  lemma EditSelects(c: Config, edit: Edit, other: string)
    requires edit.host.Some? && edit.value.Some? && Parsed(edit.value.value)
    ensures Selected(Apply(c, edit), edit.host.value) == Ok(edit.value.value) <==> !NamedByKeyword(edit.value.value)
    ensures other != edit.host.value ==> Selected(Apply(c, edit), other) == Selected(c, other)
  {
    var value: string :| ParseChoice(value) == Ok(edit.value.value);
    SpellingReadsBack(value);
  }

  // ----- Many edits ---------------------------------------------------------------------

  function ApplyAll(c: Config, edits: seq<Edit>): Config
  {
    if edits == [] then c else Apply(ApplyAll(c, edits[..|edits| - 1]), edits[|edits| - 1])
  }

  /** The last of the edits that speaks of `host`, or of the default. */
  function LastFor(edits: seq<Edit>, host: Option<string>): Option<Edit>
  {
    if edits == [] then None
    else if edits[|edits| - 1].host == host then Some(edits[|edits| - 1])
    else LastFor(edits[..|edits| - 1], host)
  }

  /** After any edits each override, and the default, is what the last edit of it gave, or what it was
      before; the version and unknown fields are as they were. */
  lemma {:induction false} LastEditStands(c: Config, edits: seq<Edit>, host: string)
    ensures var c' := ApplyAll(c, edits);
            && c'.version == c.version && c'.extensions == c.extensions
            && (match LastFor(edits, Some(host))
                case None =>
                  && (host in c'.hosts <==> host in c.hosts)
                  && (host in c.hosts ==> c'.hosts[host] == c.hosts[host])
                case Some(e) =>
                  && (host in c'.hosts <==> e.value.Some?)
                  && (e.value.Some? ==> c'.hosts[host] == Spelling(e.value.value)))
            && (match LastFor(edits, None)
                case None => c'.default_ == c.default_
                case Some(e) => c'.default_ == (if e.value.Some? then Some(Spelling(e.value.value)) else None))
  {
    if edits != [] { LastEditStands(c, edits[..|edits| - 1], host); }
  }
}
