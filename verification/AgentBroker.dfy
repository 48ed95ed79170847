/** What the constrained SSH-agent broker allows (`BindState`, `parse_sign_request`,
    `parse_session_bind`, `credentials_equal_on_wire` and `verify_agent_sign_response` in
    src/agent_broker.rs), and what that guarantees of every connection.

    Keys, certificates and signatures belong to libraries. `Library` holds their functions, about
    which nothing is assumed. */
module AgentBroker {
  import opened ByteStrings
  import opened SshWire
  import opened BrokerConnection

  datatype Library = Library(
    decodeCredential: bytes -> Option<Credential>,
    encodeCredential: Credential -> Option<bytes>,
    verifiable: Credential -> bool,
    decodeKey: bytes -> Option<bytes>,
    encodeKey: bytes -> Option<bytes>,
    decodeSignature: bytes -> Option<bytes>,
    bindVerifies: SessionBind -> bool,
    encodeBind: SessionBind -> Option<bytes>,
    encodeIdentities: seq<Identity> -> Option<bytes>,
    decodeResponse: bytes -> Option<Response>,
    verifies: (bytes, bytes, bytes) -> bool)  // key, data, signature

  /** `allows` stands for the host-key algorithms and RSA sizes the policy accepts. */
  datatype HostPolicy = HostPolicy(loginUser: bytes, hostKeys: set<bytes>, allows: SessionBind -> bool)

  datatype Policy = Policy(coordinator: Option<HostPolicy>, peer: HostPolicy)

  const SERVICE: bytes := Ascii("ssh-connection")
  const HOSTBOUND: bytes := Ascii("publickey-hostbound-v00@openssh.com")

  // ----- Requests -----------------------------------------------------------------------

  function ParseSignRequest(lib: Library, frame: bytes): Parsed<SignRequest>
  {
    var f :- ParseSignFrame(frame);
    match lib.decodeCredential(f.credential)
    case None => Nothing
    case Some(credential) => Just(SignRequest(credential, f.data, f.flags))
  }

  function ParseSessionBind(lib: Library, frame: bytes): Parsed<SessionBind>
  {
    var f :- ParseBindFrame(frame);
    match (lib.decodeKey(f.hostKey), lib.decodeSignature(f.signature))
    case (Some(key), Some(signature)) => Just(SessionBind(key, f.sessionId, signature, f.forwarding))
    case _ => Nothing
  }

  // ----- Bindings -----------------------------------------------------------------------

  predicate AuthorizesBinding(host: HostPolicy, b: SessionBind) { b.hostKey in host.hostKeys && host.allows(b) }

  /** `BindState::add` accepts `b` after `bindings`. */
  predicate CanAdd(lib: Library, policy: Policy, bindings: seq<SessionBind>, b: SessionBind)
  {
    && 0 < |b.sessionId| <= 64
    && lib.bindVerifies(b)
    && (if policy.coordinator.Some? then
          if |bindings| == 0 then b.forwarding && AuthorizesBinding(policy.coordinator.value, b)
          else |bindings| == 1 && !b.forwarding && AuthorizesBinding(policy.peer, b)
        else |bindings| == 0 && !b.forwarding && AuthorizesBinding(policy.peer, b))
    && forall i | 0 <= i < |bindings| :: bindings[i].sessionId != b.sessionId
  }

  // ----- Authorization ------------------------------------------------------------------

  predicate EqualOnWire(lib: Library, a: Credential, b: Credential)
  {
    lib.encodeCredential(a).Some? && lib.encodeCredential(a) == lib.encodeCredential(b)
  }

  predicate Listed(lib: Library, ids: seq<Identity>, credential: Credential)
  {
    exists i | 0 <= i < |ids| :: EqualOnWire(lib, ids[i].credential, credential)
  }

  /** `certificate_matches_signing_key`. */
  predicate CertificateFor(lib: Library, named: bytes, key: bytes)
  {
    match lib.decodeCredential(named)
    case Some(c) => c.Certificate? && c.forUser && c.key == key && lib.verifiable(c)
    case None => false
  }

  /** The login names the requested credential, or a user certificate for the requested plain key. */
  predicate CredentialMatches(lib: Library, named: bytes, credential: Credential)
  {
    && lib.encodeCredential(credential).Some?
    && (named == lib.encodeCredential(credential).value
        || (credential.Key? && CertificateFor(lib, named, credential.key)))
  }

  /** The login that `f` spells out is the one for `peer`, and asks for what the request says. */
  predicate AllowsLogin(lib: Library, policy: Policy, peer: SessionBind, q: SignRequest, f: HostboundUserauth)
  {
    && f.request.sessionId == peer.sessionId
    && f.request.user == policy.peer.loginUser
    && f.request.service == SERVICE
    && f.request.method_ == HOSTBOUND
    && CredentialMatches(lib, f.key.credential, q.credential)
    && lib.encodeKey(peer.hostKey) == Some(f.key.hostKey)
    && ValidateAlgorithm(f.key.algorithm, f.key.credential, q.flags).Just?
  }

  /** `BindState::authorize`, for an ambient agent. */
  predicate Authorize(lib: Library, policy: Policy, bindings: seq<SessionBind>, q: SignRequest)
  {
    && |bindings| == (if policy.coordinator.Some? then 2 else 1)
    && match ParseUserauth(q.data)
       case Nothing => false
       case Just(f) => AllowsLogin(lib, policy, bindings[|bindings| - 1], q, f)
  }

  /** `verify_agent_sign_response`: a signature must verify; the agent's own failure is passed on. */
  predicate VerifiedResponse(lib: Library, q: SignRequest, response: bytes)
  {
    match lib.decodeResponse(response)
    case Some(Signature(sig)) => lib.verifies(q.credential.key, q.data, sig)
    case Some(Failure) => true
    case _ => false
  }

  function RulesFor(lib: Library, policy: Policy): Rules
  {
    Rules(
      frame => ParseSessionBind(lib, frame),
      (bindings, b) => CanAdd(lib, policy, bindings, b),
      lib.encodeBind,
      lib.verifiable,
      lib.encodeIdentities,
      frame => ParseSignRequest(lib, frame),
      (ids, credential) => Listed(lib, ids, credential),
      (bindings, q) => Authorize(lib, policy, bindings, q),
      (q, response) => VerifiedResponse(lib, q, response),
      lib.decodeResponse)
  }

  // ----- Paths --------------------------------------------------------------------------

  /** Each binding could be added after those before it. */
  predicate GoodBindings(lib: Library, policy: Policy, bindings: seq<SessionBind>)
  {
    || bindings == []
    || var before := bindings[..|bindings| - 1];
       GoodBindings(lib, policy, before) && CanAdd(lib, policy, before, bindings[|bindings| - 1])
  }

  /** A path that may sign: a forwarding coordinator and then a peer, or a peer alone; every binding
      proved by its host key, and no session used twice. */
  predicate CompletePath(lib: Library, policy: Policy, bindings: seq<SessionBind>)
  {
    && |bindings| == (if policy.coordinator.Some? then 2 else 1)
    && (policy.coordinator.Some? ==>
          && bindings[0].forwarding && bindings[0].hostKey in policy.coordinator.value.hostKeys
          && lib.bindVerifies(bindings[0]) && bindings[0].sessionId != bindings[1].sessionId)
    && var last := bindings[|bindings| - 1];
       !last.forwarding && last.hostKey in policy.peer.hostKeys && lib.bindVerifies(last)
  }

  /** No path is longer than a coordinator and a peer, and its sessions differ. */
  lemma SessionsDiffer(lib: Library, policy: Policy, bindings: seq<SessionBind>)
    requires GoodBindings(lib, policy, bindings)
    ensures |bindings| <= 2 && (|bindings| == 2 ==> bindings[0].sessionId != bindings[1].sessionId)
  {
    if |bindings| == 2 { assert bindings[..1][0] == bindings[0]; }
  }

  lemma GoodBindingsComplete(lib: Library, policy: Policy, bindings: seq<SessionBind>)
    requires GoodBindings(lib, policy, bindings)
    requires |bindings| == if policy.coordinator.Some? then 2 else 1
    ensures CompletePath(lib, policy, bindings)
  {
    if |bindings| == 2 {
      SessionsDiffer(lib, policy, bindings);
      var first := bindings[..1];
      assert GoodBindings(lib, policy, first) && CanAdd(lib, policy, [], first[0]) by {
        assert first[..0] == [];
      }
    }
  }

  /** The data of a request is the encoding of a login that it may ask for. */
  ghost predicate SpellsLogin(lib: Library, policy: Policy, peer: SessionBind, q: SignRequest)
  {
    exists f: HostboundUserauth :: Encodable(f) && q.data == SigningData(f) && AllowsLogin(lib, policy, peer, q, f)
  }

  lemma AuthorizedSpellsLogin(lib: Library, policy: Policy, path: seq<SessionBind>, q: SignRequest)
    requires GoodBindings(lib, policy, path) && Authorize(lib, policy, path, q)
    ensures CompletePath(lib, policy, path) && SpellsLogin(lib, policy, path[|path| - 1], q)
  {
    GoodBindingsComplete(lib, policy, path);
    ParseUserauthExactly(q.data, ParseUserauth(q.data).value);
  }

  // ----- What every connection guarantees -----------------------------------------------

  lemma {:induction false} AcceptedAreGood(lib: Library, policy: Policy, log: seq<Event>)
    requires SafeLog(RulesFor(lib, policy), log)
    ensures GoodBindings(lib, policy, AcceptedIn(log))
    ensures forall b :: b in AcceptedIn(log) ==> Accepted(b) in log
  {
    if log != [] {
      var before, e := log[..|log| - 1], log[|log| - 1];
      AcceptedAreGood(lib, policy, before);
      if e.Accepted? {
        var bindings := AcceptedIn(before);
        assert (bindings + [e.binding])[..|bindings|] == bindings;
      }
    }
  }

  /** What a client sent and an agent answered, or whether there is one. */
  datatype Connected = Connected(listens: bool, answers: seq<Option<bytes>>, frames: seq<bytes>)

  /** What a connection to the broker brings about. */
  function LogOf(lib: Library, policy: Policy, run: Connected): seq<Event>
  {
    Serving(RulesFor(lib, policy), run.listens, Fresh(run.answers), run.frames).log
  }

  lemma JustifiedAt(lib: Library, policy: Policy, run: Connected, i: nat)
    requires i < |LogOf(lib, policy, run)|
    ensures var log := LogOf(lib, policy, run);
            SafeLog(RulesFor(lib, policy), log[..i]) && Justified(RulesFor(lib, policy), log[..i], log[i])
  {
    EveryLogIsSafe(RulesFor(lib, policy), run.listens, run.answers, run.frames);
    SafeAt(RulesFor(lib, policy), LogOf(lib, policy, run), i);
  }

  /** Every signature a client receives verifies under the key of a credential it was told of
      earlier on the connection. */
  lemma ReleasedUnderAdvertisedKey(lib: Library, policy: Policy, run: Connected, i: nat, sig: bytes)
    requires var log := LogOf(lib, policy, run);
             i < |log| && log[i].ToldSignature? && lib.decodeResponse(log[i].response) == Some(Signature(sig))
    ensures var log := LogOf(lib, policy, run);
            && lib.verifies(log[i].request.credential.key, log[i].request.data, sig)
            && exists j, k ::
                 && 0 <= j < i && log[j].ToldIdentities? && 0 <= k < |log[j].ids|
                 && EqualOnWire(lib, log[j].ids[k].credential, log[i].request.credential)
                 && lib.verifiable(log[j].ids[k].credential)
  {
    var log := LogOf(lib, policy, run);
    JustifiedAt(lib, policy, run, i);
    var before, q := log[..i], log[i].request;
    ToldWasLogged(before);
    var j :| 0 <= j < i && before[j] == ToldIdentities(ToldIn(before).value);
    var k :| 0 <= k < |log[j].ids| && EqualOnWire(lib, log[j].ids[k].credential, q.credential);
    JustifiedAt(lib, policy, run, j);
  }

  /** ... and its data is the encoding of a login for the session, host key and user of the last
      binding of a complete path of bindings accepted before. */
  lemma ReleasedOnCompletePath(lib: Library, policy: Policy, run: Connected, i: nat)
    requires var log := LogOf(lib, policy, run); i < |log| && log[i].ToldSignature?
    ensures var log := LogOf(lib, policy, run);
            var path := AcceptedIn(log[..i]);
            && CompletePath(lib, policy, path)
            && (forall b :: b in path ==> Accepted(b) in log[..i])
            && SpellsLogin(lib, policy, path[|path| - 1], log[i].request)
  {
    var log := LogOf(lib, policy, run);
    JustifiedAt(lib, policy, run, i);
    AcceptedAreGood(lib, policy, log[..i]);
    AuthorizedSpellsLogin(lib, policy, AcceptedIn(log[..i]), log[i].request);
  }

  /** Whenever the agent is sent an identities or sign request, the session-binds it has been sent
      before are the validated bindings, in their order, and no two name one session. */
  lemma AgentKnowsTheBindings(lib: Library, policy: Policy, run: Connected, i: nat)
    requires var log := LogOf(lib, policy, run); i < |log| && log[i].SentRequest?
    ensures var before := LogOf(lib, policy, run)[..i];
            && SentIn(before) == AcceptedIn(before) != []
            && forall a, b | 0 <= a < b < |SentIn(before)| :: SentIn(before)[a].sessionId != SentIn(before)[b].sessionId
  {
    var before := LogOf(lib, policy, run)[..i];
    JustifiedAt(lib, policy, run, i);
    AcceptedAreGood(lib, policy, before);
    SessionsDiffer(lib, policy, SentIn(before));
  }

  /** The broker's own refusal is the last thing that happens: nothing more is signed, asked or told. */
  lemma RefusalIsLast(lib: Library, policy: Policy, run: Connected, i: nat)
    requires var log := LogOf(lib, policy, run); i < |log| && log[i].Refused?
    ensures i == |LogOf(lib, policy, run)| - 1
  {
    var log := LogOf(lib, policy, run);
    JustifiedAt(lib, policy, run, |log| - 1);
    assert forall k | 0 <= k < |log| - 1 :: log[..|log| - 1][k] == log[k];
  }
}
