/** One connection of the constrained SSH-agent broker (`serve_client`, `upstream_request` and
    `replay_session_bind` in src/agent_broker.rs): a client binds sessions, lists identities and asks
    for signatures; an upstream agent is told of the same bindings and does the signing; the first
    request that is refused ends the connection.

    What is allowed is left to `Rules`, about which nothing is assumed here. What the broker accepts
    and sends is kept in a log, and the guarantee is about every log that any client and any agent can
    bring about. */
module BrokerConnection {
  import opened ByteStrings
  import opened SshWire

  datatype Credential = Key(key: bytes) | Certificate(key: bytes, body: bytes, forUser: bool)

  datatype Identity = Identity(credential: Credential, comment: string)

  datatype SessionBind = SessionBind(hostKey: bytes, sessionId: bytes, signature: bytes, forwarding: bool)

  datatype SignRequest = SignRequest(credential: Credential, data: bytes, flags: nat)

  datatype Response =
    | Success | Failure | ExtensionFailure | Identities(ids: seq<Identity>) | Signature(sig: bytes) | Other

  datatype Rules = Rules(
    parseBind: bytes -> Parsed<SessionBind>,
    canAdd: (seq<SessionBind>, SessionBind) -> bool,
    encodeBind: SessionBind -> Option<bytes>,
    verifiable: Credential -> bool,
    encodeIdentities: seq<Identity> -> Option<bytes>,
    parseSign: bytes -> Parsed<SignRequest>,
    listed: (seq<Identity>, Credential) -> bool,
    authorized: (seq<SessionBind>, SignRequest) -> bool,
    verified: (SignRequest, bytes) -> bool,
    decodeResponse: bytes -> Option<Response>)

  // ----- The log ------------------------------------------------------------------------

  datatype Event =
    | Accepted(binding: SessionBind)                      // a binding was validated
    | SentBind(binding: SessionBind)                      // ... and sent to the agent
    | SentRequest(frame: bytes)                           // an identities or sign request was sent to the agent
    | ToldSuccess
    | ToldIdentities(ids: seq<Identity>)
    | ToldSignature(request: SignRequest, response: bytes)
    | Refused                                             // the broker's own refusal

  function AcceptedIn(log: seq<Event>): seq<SessionBind>
  {
    if log == [] then []
    else
      var e := log[|log| - 1];
      AcceptedIn(log[..|log| - 1]) + if e.Accepted? then [e.binding] else []
  }

  function SentIn(log: seq<Event>): seq<SessionBind>
  {
    if log == [] then []
    else
      var e := log[|log| - 1];
      SentIn(log[..|log| - 1]) + if e.SentBind? then [e.binding] else []
  }

  /** The identities the client was told of last. */
  function ToldIn(log: seq<Event>): Option<seq<Identity>>
  {
    if log == [] then None
    else if log[|log| - 1].ToldIdentities? then Some(log[|log| - 1].ids)
    else ToldIn(log[..|log| - 1])
  }

  predicate NoRefusal(log: seq<Event>) { forall i | 0 <= i < |log| :: !log[i].Refused? }

  /** What must have happened before an event. */
  predicate Justified(rules: Rules, before: seq<Event>, e: Event)
  {
    && NoRefusal(before)
    && match e
       case Accepted(b) => rules.canAdd(AcceptedIn(before), b)
       case SentRequest(_) => SentIn(before) == AcceptedIn(before) != []
       case ToldIdentities(ids) =>
         forall i | 0 <= i < |ids| :: rules.verifiable(ids[i].credential) && ids[i].comment == ""
       case ToldSignature(q, response) =>
         && ToldIn(before).Some? && rules.listed(ToldIn(before).value, q.credential)
         && rules.authorized(AcceptedIn(before), q) && rules.verified(q, response)
       case _ => true
  }

  predicate SafeLog(rules: Rules, log: seq<Event>)
  {
    log == [] || (SafeLog(rules, log[..|log| - 1]) && Justified(rules, log[..|log| - 1], log[|log| - 1]))
  }

  /** Every event of a safe log is justified by those before it. */
  lemma {:induction false} SafeAt(rules: Rules, log: seq<Event>, i: nat)
    requires SafeLog(rules, log) && i < |log|
    ensures SafeLog(rules, log[..i]) && Justified(rules, log[..i], log[i])
  {
    if i < |log| - 1 {
      var before := log[..|log| - 1];
      SafeAt(rules, before, i);
      assert before[..i] == log[..i];
    }
  }

  lemma AppendSafe(rules: Rules, log: seq<Event>, e: Event)
    requires SafeLog(rules, log) && Justified(rules, log, e)
    ensures SafeLog(rules, log + [e])
    ensures AcceptedIn(log + [e]) == AcceptedIn(log) + if e.Accepted? then [e.binding] else []
    ensures SentIn(log + [e]) == SentIn(log) + if e.SentBind? then [e.binding] else []
    ensures ToldIn(log + [e]) == if e.ToldIdentities? then Some(e.ids) else ToldIn(log)
  {
    assert (log + [e])[..|log|] == log;
  }

  lemma {:induction false} ToldWasLogged(log: seq<Event>)
    ensures ToldIn(log).Some? ==> exists j | 0 <= j < |log| :: log[j] == ToldIdentities(ToldIn(log).value)
  {
    if log != [] {
      ToldWasLogged(log[..|log| - 1]);
      if log[|log| - 1].ToldIdentities? { assert log[|log| - 1] == ToldIdentities(ToldIn(log).value); }
    }
  }

  /** `decode_identities_response`; an agent that fails has no identities. */
  function IdentitiesIn(rules: Rules, answer: Option<bytes>): Option<seq<Identity>>
  {
    match answer
    case None => None
    case Some(frame) =>
      match rules.decodeResponse(frame)
      case Some(Identities(found)) => Some(found)
      case Some(Failure) => Some([])
      case _ => None
  }

  function Retained(rules: Rules, ids: seq<Identity>): seq<Identity>
  {
    if ids == [] then []
    else
      var c := ids[|ids| - 1].credential;
      Retained(rules, ids[..|ids| - 1]) + if rules.verifiable(c) then [Identity(c, "")] else []
  }

  /** The client is told of exactly the verifiable credentials, and of nothing said about them. */
  lemma {:induction false} RetainedExactly(rules: Rules, ids: seq<Identity>)
    ensures forall i | 0 <= i < |Retained(rules, ids)| ::
              rules.verifiable(Retained(rules, ids)[i].credential) && Retained(rules, ids)[i].comment == ""
    ensures forall c: Credential ::
              Identity(c, "") in Retained(rules, ids) <==>
              rules.verifiable(c) && exists id :: id in ids && id.credential == c
  {
    if ids != [] {
      var before, last := ids[..|ids| - 1], ids[|ids| - 1];
      RetainedExactly(rules, before);
      assert ids == before + [last];
      assert forall id :: id in ids <==> id in before || id == last;
    }
  }

  // ----- What the broker does -----------------------------------------------------------

  /** The broker's variables, what the agent will still answer, and the log. An answer of None, or no
      further answer, is a lost connection to the agent. */
  datatype Connection = Connection(
    answers: seq<Option<bytes>>, bindings: seq<SessionBind>, connected: bool, advertised: Option<seq<Identity>>,
    open: bool, log: seq<Event>)

  function Fresh(answers: seq<Option<bytes>>): Connection { Connection(answers, [], false, None, true, []) }

  function Answer(c: Connection): Option<bytes> { if c.answers == [] then None else c.answers[0] }

  function Later(answers: seq<Option<bytes>>): seq<Option<bytes>> { if answers == [] then [] else answers[1..] }

  function Noting(c: Connection, e: Event): Connection { c.(log := c.log + [e]) }

  function Refusing(c: Connection): Connection { Noting(c, Refused).(open := false) }

  /** An agent may reject a binding; only an answer of another kind is an error. */
  predicate Acknowledged(rules: Rules, answer: Option<bytes>)
  {
    answer.Some? &&
    var response := rules.decodeResponse(answer.value);
    response.Some? && (response.value.Success? || response.value.Failure? || response.value.ExtensionFailure?)
  }

  function Replaying(rules: Rules, c: Connection, b: SessionBind): (Connection, bool)
  {
    if rules.encodeBind(b).None? then (c, false)
    else (Noting(c, SentBind(b)).(answers := Later(c.answers)), Acknowledged(rules, Answer(c)))
  }

  /** A new connection to the agent begins with every binding so far: here, with `n` of them. */
  function Connecting(rules: Rules, c: Connection, n: nat): (Connection, bool)
    requires n <= |c.bindings|
  {
    if n == 0 then (c, true)
    else
      var (before, ok) := Connecting(rules, c, n - 1);
      if ok then Replaying(rules, before, c.bindings[n - 1]) else (before, false)
  }

  function Requesting(c: Connection, frame: bytes): (Connection, Option<bytes>)
  {
    (Noting(c, SentRequest(frame)).(answers := Later(c.answers)), Answer(c))
  }

  /** `upstream_request`: connects on first use, and sends one request. */
  function Asking(rules: Rules, listens: bool, c: Connection, frame: bytes): (Connection, Option<bytes>)
  {
    if c.connected then Requesting(c, frame)
    else if !listens then (c, None)
    else
      var (ready, ok) := Connecting(rules, c, |c.bindings|);
      if ok then Requesting(ready.(connected := true), frame) else (ready, None)
  }

  function Listing(rules: Rules, listens: bool, c: Connection, frame: bytes): Connection
  {
    var (asked, answer) := Asking(rules, listens, c, frame);
    var ids := IdentitiesIn(rules, answer);
    if ids.None? || rules.encodeIdentities(Retained(rules, ids.value)).None? then asked.(open := false)
    else
      var kept := Retained(rules, ids.value);
      Noting(asked, ToldIdentities(kept)).(advertised := Some(kept))
  }

  /** The request is one the broker may forward now. */
  predicate MaySign(rules: Rules, c: Connection, request: Parsed<SignRequest>)
  {
    && request.Just? && c.advertised.Some?
    && rules.listed(c.advertised.value, request.value.credential)
    && rules.authorized(c.bindings, request.value)
  }

  function Signing(rules: Rules, listens: bool, c: Connection, frame: bytes): Connection
  {
    var request := rules.parseSign(frame);
    if !MaySign(rules, c, request) then Refusing(c)
    else
      var (asked, answer) := Asking(rules, listens, c, frame);
      if answer.None? then asked.(open := false)
      else if rules.verified(request.value, answer.value) then Noting(asked, ToldSignature(request.value, answer.value))
      else Refusing(asked)
  }

  /** `BindState::add`. */
  function Adding(rules: Rules, c: Connection, b: SessionBind): (Connection, bool)
  {
    if rules.canAdd(c.bindings, b) then (Noting(c, Accepted(b)).(bindings := c.bindings + [b]), true) else (c, false)
  }

  function Binding(rules: Rules, c: Connection, frame: bytes): Connection
  {
    var b := rules.parseBind(frame);
    if b.Nothing? then Refusing(c)
    else
      var (added, valid) := Adding(rules, c, b.value);
      if !valid then Refusing(added)
      else
        var (done, ok) := if c.connected then Replaying(rules, added, b.value) else (added, true);
        if ok then Noting(done, ToldSuccess) else Refusing(done)
  }

  /** One frame from the client. */
  function Handling(rules: Rules, listens: bool, c: Connection, frame: bytes): Connection
  {
    if frame == [] then c.(open := false)
    else if frame[0] == 11 && |frame| == 1 && c.bindings != [] then Listing(rules, listens, c, frame)
    else if frame[0] == 13 then Signing(rules, listens, c, frame)
    else if frame[0] == 27 then Binding(rules, c, frame)
    else Refusing(c)
  }

  /** The connection after the client's frames, or those up to the one that ends it. */
  function Serving(rules: Rules, listens: bool, c: Connection, frames: seq<bytes>): Connection
  {
    if frames == [] then c
    else
      var before := Serving(rules, listens, c, frames[..|frames| - 1]);
      if before.open then Handling(rules, listens, before, frames[|frames| - 1]) else before
  }

  // ----- Every log is safe --------------------------------------------------------------

  /** The variables agree with the log, and nothing was refused. */
  ghost predicate Ready(rules: Rules, c: Connection)
  {
    && SafeLog(rules, c.log) && NoRefusal(c.log)
    && c.bindings == AcceptedIn(c.log) && c.advertised == ToldIn(c.log)
  }

  /** While the connection is open, the agent knows the bindings. */
  ghost predicate Inv(rules: Rules, c: Connection)
  {
    && SafeLog(rules, c.log)
    && (c.open ==>
          && Ready(rules, c) && SentIn(c.log) == (if c.connected then c.bindings else [])
          && (c.advertised.Some? ==> c.connected && c.bindings != []))
  }

  lemma NotingIsSafe(rules: Rules, c: Connection, e: Event)
    requires SafeLog(rules, c.log) && Justified(rules, c.log, e)
    ensures var log := Noting(c, e).log;
            && SafeLog(rules, log) && (!e.Refused? ==> NoRefusal(log))
            && AcceptedIn(log) == AcceptedIn(c.log) + (if e.Accepted? then [e.binding] else [])
            && SentIn(log) == SentIn(c.log) + (if e.SentBind? then [e.binding] else [])
            && ToldIn(log) == if e.ToldIdentities? then Some(e.ids) else ToldIn(c.log)
  {
    AppendSafe(rules, c.log, e);
  }

  predicate SameButLog(c: Connection, c': Connection)
  {
    c'.bindings == c.bindings && c'.connected == c.connected && c'.advertised == c.advertised && c'.open == c.open
  }

  lemma ReplayingIsSafe(rules: Rules, c: Connection, b: SessionBind)
    requires Ready(rules, c)
    ensures var (c', ok) := Replaying(rules, c, b);
            Ready(rules, c') && SameButLog(c, c') && (ok ==> SentIn(c'.log) == SentIn(c.log) + [b])
  {
    NotingIsSafe(rules, c, SentBind(b));
  }

  lemma {:induction false} ConnectingIsSafe(rules: Rules, c: Connection, n: nat)
    requires Ready(rules, c) && SentIn(c.log) == [] && n <= |c.bindings|
    ensures var (c', ok) := Connecting(rules, c, n);
            Ready(rules, c') && SameButLog(c, c') && (ok ==> SentIn(c'.log) == c.bindings[..n])
  {
    if n > 0 {
      ConnectingIsSafe(rules, c, n - 1);
      ReplayingIsSafe(rules, Connecting(rules, c, n - 1).0, c.bindings[n - 1]);
      assert c.bindings[..n] == c.bindings[..n - 1] + [c.bindings[n - 1]];
    }
  }

  lemma RequestingIsSafe(rules: Rules, c: Connection, frame: bytes)
    requires Ready(rules, c) && SentIn(c.log) == c.bindings != []
    ensures var c' := Requesting(c, frame).0;
            Ready(rules, c') && SentIn(c'.log) == c'.bindings && SameButLog(c, c')
  {
    NotingIsSafe(rules, c, SentRequest(frame));
  }

  lemma AskingIsSafe(rules: Rules, listens: bool, c: Connection, frame: bytes)
    requires Inv(rules, c) && c.open && c.bindings != []
    ensures var (c', answer) := Asking(rules, listens, c, frame);
            && Ready(rules, c') && SameButLog(c.(connected := c'.connected), c')
            && (answer.Some? ==> c'.connected && SentIn(c'.log) == c'.bindings)
  {
    if c.connected {
      RequestingIsSafe(rules, c, frame);
    } else if listens {
      ConnectingIsSafe(rules, c, |c.bindings|);
      var (ready, ok) := Connecting(rules, c, |c.bindings|);
      assert c.bindings[..|c.bindings|] == c.bindings;
      if ok { RequestingIsSafe(rules, ready.(connected := true), frame); }
    }
  }

  lemma RefusingIsSafe(rules: Rules, c: Connection)
    requires Ready(rules, c)
    ensures Inv(rules, Refusing(c))
  {
    NotingIsSafe(rules, c, Refused);
  }

  lemma ListingIsSafe(rules: Rules, listens: bool, c: Connection, frame: bytes)
    requires Inv(rules, c) && c.open && c.bindings != []
    ensures Inv(rules, Listing(rules, listens, c, frame))
  {
    AskingIsSafe(rules, listens, c, frame);
    var (asked, answer) := Asking(rules, listens, c, frame);
    var ids := IdentitiesIn(rules, answer);
    if ids.Some? {
      RetainedExactly(rules, ids.value);
      NotingIsSafe(rules, asked, ToldIdentities(Retained(rules, ids.value)));
    }
  }

  lemma SigningIsSafe(rules: Rules, listens: bool, c: Connection, frame: bytes)
    requires Inv(rules, c) && c.open
    ensures Inv(rules, Signing(rules, listens, c, frame))
  {
    var request := rules.parseSign(frame);
    if !MaySign(rules, c, request) {
      RefusingIsSafe(rules, c);
    } else {
      AskingIsSafe(rules, listens, c, frame);
      var (asked, answer) := Asking(rules, listens, c, frame);
      if answer.Some? {
        RefusingIsSafe(rules, asked);
        if rules.verified(request.value, answer.value) {
          NotingIsSafe(rules, asked, ToldSignature(request.value, answer.value));
        }
      }
    }
  }

  lemma AddingIsSafe(rules: Rules, c: Connection, b: SessionBind)
    requires Inv(rules, c) && c.open
    ensures var c' := Adding(rules, c, b).0;
            Ready(rules, c') && SentIn(c'.log) == SentIn(c.log)
  {
    if rules.canAdd(c.bindings, b) { NotingIsSafe(rules, c, Accepted(b)); }
  }

  lemma BindingIsSafe(rules: Rules, c: Connection, frame: bytes)
    requires Inv(rules, c) && c.open
    ensures Inv(rules, Binding(rules, c, frame))
  {
    var b := rules.parseBind(frame);
    if b.Nothing? {
      RefusingIsSafe(rules, c);
    } else {
      var (added, valid) := Adding(rules, c, b.value);
      AddingIsSafe(rules, c, b.value);
      ReplayingIsSafe(rules, added, b.value);
      RefusingIsSafe(rules, added);
      if valid {
        var (done, ok) := if c.connected then Replaying(rules, added, b.value) else (added, true);
        RefusingIsSafe(rules, done);
        NotingIsSafe(rules, done, ToldSuccess);
      }
    }
  }

  lemma HandlingIsSafe(rules: Rules, listens: bool, c: Connection, frame: bytes)
    requires Inv(rules, c) && c.open
    ensures Inv(rules, Handling(rules, listens, c, frame))
  {
    if frame != [] {
      if frame[0] == 11 && |frame| == 1 && c.bindings != [] {
        ListingIsSafe(rules, listens, c, frame);
      } else if frame[0] == 13 {
        SigningIsSafe(rules, listens, c, frame);
      } else if frame[0] == 27 {
        BindingIsSafe(rules, c, frame);
      } else {
        RefusingIsSafe(rules, c);
      }
    }
  }

  lemma {:induction false} ServingKeepsInv(rules: Rules, listens: bool, answers: seq<Option<bytes>>, frames: seq<bytes>)
    ensures Inv(rules, Serving(rules, listens, Fresh(answers), frames))
  {
    if frames != [] {
      var before := Serving(rules, listens, Fresh(answers), frames[..|frames| - 1]);
      ServingKeepsInv(rules, listens, answers, frames[..|frames| - 1]);
      if before.open { HandlingIsSafe(rules, listens, before, frames[|frames| - 1]); }
    }
  }

  /** Whatever the client sends and the agent answers, the log of the whole connection is safe. */
  lemma EveryLogIsSafe(rules: Rules, listens: bool, answers: seq<Option<bytes>>, frames: seq<bytes>)
    ensures SafeLog(rules, Serving(rules, listens, Fresh(answers), frames).log)
  {
    ServingKeepsInv(rules, listens, answers, frames);
  }

  // ----- The broker ---------------------------------------------------------------------

  class Broker {
    const rules: Rules
    const listens: bool                     // whether the upstream agent can be connected to
    var answers: seq<Option<bytes>>
    var bindings: seq<SessionBind>
    var connected: bool
    var advertised: Option<seq<Identity>>
    var open: bool
    var log: seq<Event>

    ghost function Abstract(): Connection
      reads this
    {
      Connection(answers, bindings, connected, advertised, open, log)
    }

    constructor (rules: Rules, listens: bool, answers: seq<Option<bytes>>)
      ensures Abstract() == Fresh(answers) && this.rules == rules && this.listens == listens
    {
      this.rules, this.listens, this.answers := rules, listens, answers;
      bindings, connected, advertised, open, log := [], false, None, true, [];
    }

    method Note(e: Event)
      modifies this`log
      ensures Abstract() == Noting(old(Abstract()), e)
    {
      log := log + [e];
    }

    method Refuse()
      modifies this`log, this`open
      ensures Abstract() == Refusing(old(Abstract()))
    {
      Note(Refused);
      open := false;
    }

    method ReadAnswer() returns (answer: Option<bytes>)
      modifies this`answers
      ensures answer == Answer(old(Abstract())) && answers == Later(old(answers))
    {
      if answers == [] { return None; }
      answer := answers[0];
      answers := answers[1..];
    }

    method ReplaySessionBind(b: SessionBind) returns (ok: bool)
      modifies this`answers, this`log
      ensures (Abstract(), ok) == Replaying(rules, old(Abstract()), b)
    {
      if rules.encodeBind(b).None? { return false; }
      Note(SentBind(b));
      var answer := ReadAnswer();
      if answer.None? { return false; }
      match rules.decodeResponse(answer.value)
      case Some(Success) => ok := true;
      case Some(Failure) => ok := true;
      case Some(ExtensionFailure) => ok := true;
      case _ => ok := false;
    }

    method Connect() returns (ok: bool)
      modifies this`answers, this`log
      ensures (Abstract(), ok) == Connecting(rules, old(Abstract()), |bindings|)
    {
      ok := true;
      var i := 0;
      while ok && i < |bindings|
        invariant i <= |bindings|
        invariant ok ==> (Abstract(), true) == Connecting(rules, old(Abstract()), i)
        invariant !ok ==> (Abstract(), false) == Connecting(rules, old(Abstract()), |bindings|)
        decreases |bindings| - i, ok
      {
        ok := ReplaySessionBind(bindings[i]);
        i := i + 1;
        if !ok { FailedConnecting(rules, old(Abstract()), i, |bindings|); }
      }
    }

    /** `upstream_request`. */
    method UpstreamRequest(frame: bytes) returns (answer: Option<bytes>)
      modifies this`answers, this`log, this`connected
      ensures (Abstract(), answer) == Asking(rules, listens, old(Abstract()), frame)
    {
      if !connected {
        if !listens { return None; }
        var ok := Connect();
        if !ok { return None; }
        connected := true;
      }
      Note(SentRequest(frame));
      answer := ReadAnswer();
    }

    /** Keeps the identities that can be verified, and clears their comments. */
    method Retain(ids: seq<Identity>) returns (kept: seq<Identity>)
      ensures kept == Retained(rules, ids)
    {
      kept := [];
      for n := 0 to |ids|
        invariant kept == Retained(rules, ids[..n])
      {
        assert ids[..n + 1][..n] == ids[..n];
        if rules.verifiable(ids[n].credential) { kept := kept + [Identity(ids[n].credential, "")]; }
      }
      assert ids[..|ids|] == ids;
    }

    method HandleIdentities(frame: bytes)
      modifies this
      ensures Abstract() == Listing(rules, listens, old(Abstract()), frame)
    {
      var answer := UpstreamRequest(frame);
      var ids := IdentitiesIn(rules, answer);
      if ids.None? { open := false; return; }
      var kept := Retain(ids.value);
      if rules.encodeIdentities(kept).None? { open := false; return; }
      advertised := Some(kept);
      Note(ToldIdentities(kept));
    }

    method HandleSign(frame: bytes)
      modifies this
      ensures Abstract() == Signing(rules, listens, old(Abstract()), frame)
    {
      var request := rules.parseSign(frame);
      if request.Nothing? || advertised.None? { Refuse(); return; }
      var q := request.value;
      if !rules.listed(advertised.value, q.credential) || !rules.authorized(bindings, q) { Refuse(); return; }
      var answer := UpstreamRequest(frame);
      if answer.None? { open := false; return; }
      if !rules.verified(q, answer.value) { Refuse(); return; }
      Note(ToldSignature(q, answer.value));
    }

    /** `BindState::add`. */
    method Add(b: SessionBind) returns (ok: bool)
      modifies this`bindings, this`log
      ensures (Abstract(), ok) == Adding(rules, old(Abstract()), b)
    {
      if !rules.canAdd(bindings, b) { return false; }
      Note(Accepted(b));
      bindings := bindings + [b];
      return true;
    }

    method HandleBind(frame: bytes)
      modifies this
      ensures Abstract() == Binding(rules, old(Abstract()), frame)
    {
      var b := rules.parseBind(frame);
      if b.Nothing? { Refuse(); return; }
      var ok := Add(b.value);
      if ok && connected { ok := ReplaySessionBind(b.value); }
      if !ok { Refuse(); return; }
      Note(ToldSuccess);
    }

    method Handle(frame: bytes)
      modifies this
      ensures Abstract() == Handling(rules, listens, old(Abstract()), frame)
    {
      if frame == [] {
        open := false;
      } else if frame[0] == 11 && |frame| == 1 && bindings != [] {
        HandleIdentities(frame);
      } else if frame[0] == 13 {
        HandleSign(frame);
      } else if frame[0] == 27 {
        HandleBind(frame);
      } else {
        Refuse();
      }
    }

    /** `serve_client`: the whole connection. */
    method Serve(frames: seq<bytes>)
      requires open
      modifies this
      ensures Abstract() == Serving(rules, listens, old(Abstract()), frames)
    {
      for i := 0 to |frames|
        invariant open && Abstract() == Serving(rules, listens, old(Abstract()), frames[..i])
      {
        assert frames[..i + 1][..i] == frames[..i];
        Handle(frames[i]);
        if !open {
          ClosedStays(rules, listens, old(Abstract()), frames, i + 1);
          return;
        }
      }
      assert frames[..|frames|] == frames;
    }
  }

  /** After a replay fails, the rest are not tried. */
  lemma {:induction false} FailedConnecting(rules: Rules, c: Connection, i: nat, n: nat)
    requires i <= n <= |c.bindings| && !Connecting(rules, c, i).1
    ensures Connecting(rules, c, n) == Connecting(rules, c, i)
  {
    if i < n { FailedConnecting(rules, c, i, n - 1); }
  }

  /** After the connection is closed, no frame is read. */
  lemma {:induction false} ClosedStays(rules: Rules, listens: bool, c: Connection, frames: seq<bytes>, i: nat)
    requires i <= |frames| && !Serving(rules, listens, c, frames[..i]).open
    ensures Serving(rules, listens, c, frames) == Serving(rules, listens, c, frames[..i])
    decreases |frames|
  {
    if i < |frames| {
      var front := frames[..|frames| - 1];
      assert front[..i] == frames[..i];
      ClosedStays(rules, listens, c, front, i);
    } else {
      assert frames[..i] == frames;
    }
  }
}
