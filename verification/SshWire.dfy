/** The broker's wire reader (`SshCursor`, `HostboundUserauth::parse`, `parse_sign_request`,
    `parse_session_bind` and `validate_signature_algorithm` in src/agent_broker.rs): strings as in
    section 5 of RFC 4251, the request of section 7 of RFC 4252 with OpenSSH's host-bound extension,
    and the RSA names of section 3 of RFC 8332. */
module SshWire {
  import opened ByteStrings

  /** `Nothing` is any refusal: the broker answers them all alike. */
  datatype Parsed<+T> = Nothing | Just(value: T) {
    predicate IsFailure() { Nothing? }
    function PropagateFailure<U>(): Parsed<U>
      requires Nothing?
    {
      Nothing
    }
    function Extract(): T
      requires Just?
    {
      value
    }
  }

  const MAX_STRING: nat := 0x1_0000_0000

  /** A string on the wire: its length in four bytes, then its bytes. */
  function Str(s: bytes): bytes { ToBe(|s|, 4) + s }

  // ----- Taking fields off the front of the data ----------------------------------------

  function TakeByte(data: bytes): Parsed<(u8, bytes)>
  {
    if data == [] then Nothing else Just((data[0], data[1..]))
  }

  function TakeFixed(data: bytes, length: nat): Parsed<(bytes, bytes)>
  {
    if |data| < length then Nothing else Just((data[..length], data[length..]))
  }

  function TakeString(data: bytes): Parsed<(bytes, bytes)>
  {
    if |data| < 4 then Nothing else TakeFixed(data[4..], FromBe(data[..4]))
  }

  lemma Pow256Four()
    ensures Pow256(4) == MAX_STRING
  {
  }

  /** Taking a string succeeds exactly when the data begins with that string's wire form. */
  lemma TakeStringExactly(data: bytes, s: bytes, rest: bytes)
    ensures TakeString(data) == Just((s, rest)) <==> |s| < MAX_STRING && data == Str(s) + rest
  {
    Pow256Four();
    if TakeString(data) == Just((s, rest)) {
      ToBeFromBe(data[..4]);
      assert data == data[..4] + (s + rest);
      assert data == Str(s) + rest;
    }
    if |s| < MAX_STRING && data == Str(s) + rest {
      FromBeToBe(|s|, 4);
      assert data[..4] == ToBe(|s|, 4);
      assert data[4..] == s + rest;
      assert (s + rest)[..|s|] == s && (s + rest)[|s|..] == rest;
    }
  }

  // ----- The cursor ---------------------------------------------------------------------

  class SshCursor {
    const data: bytes
    var offset: nat

    ghost predicate Valid()
      reads this
    {
      offset <= |data|
    }

    ghost function Rest(): bytes
      reads this
      requires Valid()
    {
      data[offset..]
    }

    constructor (data: bytes)
      ensures Valid() && this.data == data && Rest() == data
    {
      this.data := data;
      offset := 0;
    }

    method Byte() returns (value: Parsed<u8>)
      requires Valid()
      modifies this
      ensures Valid()
      ensures match TakeByte(old(Rest()))
              case Just((v, rest)) => value == Just(v) && Rest() == rest
              case Nothing => value == Nothing && offset == old(offset)
    {
      if offset >= |data| { return Nothing; }
      value := Just(data[offset]);
      offset := offset + 1;
    }

    method Fixed(length: nat) returns (value: Parsed<bytes>)
      requires Valid()
      modifies this
      ensures Valid()
      ensures match TakeFixed(old(Rest()), length)
              case Just((v, rest)) => value == Just(v) && Rest() == rest
              case Nothing => value == Nothing && offset == old(offset)
    {
      var end := offset + length;
      if end > |data| { return Nothing; }
      assert Rest()[..length] == data[offset..end];
      value := Just(data[offset..end]);
      offset := end;
    }

    /** A failure may leave the cursor after the length, but never past the end. */
    method String() returns (value: Parsed<bytes>)
      requires Valid()
      modifies this
      ensures Valid() && offset >= old(offset)
      ensures match TakeString(old(Rest()))
              case Just((v, rest)) => value == Just(v) && Rest() == rest
              case Nothing => value == Nothing
    {
      var end := offset + 4;
      if end > |data| { return Nothing; }
      var length := FromBe(data[offset..end]);
      assert Rest()[..4] == data[offset..end] && Rest()[4..] == data[end..];
      offset := end;
      end := offset + length;
      if end > |data| { return Nothing; }
      assert data[offset..][..length] == data[offset..end];
      value := Just(data[offset..end]);
      offset := end;
    }

    method AtEnd() returns (end: bool)
      requires Valid()
      ensures end <==> Rest() == []
    {
      end := offset == |data|;
    }
  }

  // ----- Host-bound user authentication -------------------------------------------------

  /** The request that opens the signing data, and the public-key part that closes it. */
  datatype Request = Request(sessionId: bytes, user: bytes, service: bytes, method_: bytes)
  datatype KeyPart = KeyPart(algorithm: bytes, credential: bytes, hostKey: bytes)
  datatype HostboundUserauth = HostboundUserauth(request: Request, key: KeyPart)

  predicate Encodable(f: HostboundUserauth) { RequestFits(f.request) && KeyPartFits(f.key) }

  predicate RequestFits(q: Request)
  {
    |q.sessionId| < MAX_STRING && |q.user| < MAX_STRING && |q.service| < MAX_STRING && |q.method_| < MAX_STRING
  }

  predicate KeyPartFits(k: KeyPart)
  {
    |k.algorithm| < MAX_STRING && |k.credential| < MAX_STRING && |k.hostKey| < MAX_STRING
  }

  function RequestData(q: Request, rest: bytes): bytes
  {
    Str(q.sessionId) + ([50] + (Str(q.user) + (Str(q.service) + (Str(q.method_) + rest))))
  }

  function KeyPartData(k: KeyPart): bytes
  {
    [1] + (Str(k.algorithm) + (Str(k.credential) + (Str(k.hostKey) + [])))
  }

  /** The data a client signs to log in with these fields. */
  function SigningData(f: HostboundUserauth): bytes { RequestData(f.request, KeyPartData(f.key)) }

  function TakeRequest(data: bytes): Parsed<(Request, bytes)>
  {
    var (sessionId, r) :- TakeString(data);
    var (kind, r) :- TakeByte(r);
    if kind != 50 then Nothing
    else
      var (user, r) :- TakeString(r);
      var (service, r) :- TakeString(r);
      var (method_, r) :- TakeString(r);
      Just((Request(sessionId, user, service, method_), r))
  }

  function ParseKeyPart(data: bytes): Parsed<KeyPart>
  {
    var (signed, r) :- TakeByte(data);
    if signed != 1 then Nothing
    else
      var (algorithm, r) :- TakeString(r);
      var (credential, r) :- TakeString(r);
      var (hostKey, r) :- TakeString(r);
      if r != [] then Nothing else Just(KeyPart(algorithm, credential, hostKey))
  }

  function ParseUserauth(data: bytes): Parsed<HostboundUserauth>
  {
    var (request, r) :- TakeRequest(data);
    var key :- ParseKeyPart(r);
    Just(HostboundUserauth(request, key))
  }

  /** `HostboundUserauth::parse`, through the cursor. */
  method ParseUserauthAtCursor(data: bytes) returns (parsed: Parsed<HostboundUserauth>)
    ensures parsed == ParseUserauth(data)
  {
    var input := new SshCursor(data);
    var sessionId :- input.String();
    var kind :- input.Byte();
    if kind != 50 { return Nothing; }
    var user :- input.String();
    var service :- input.String();
    var method_ :- input.String();
    assert TakeRequest(data) == Just((Request(sessionId, user, service, method_), input.Rest()));
    var signed :- input.Byte();
    if signed != 1 { return Nothing; }
    var algorithm :- input.String();
    var credential :- input.String();
    var hostKey :- input.String();
    var end := input.AtEnd();
    if !end { return Nothing; }
    return Just(HostboundUserauth(Request(sessionId, user, service, method_), KeyPart(algorithm, credential, hostKey)));
  }

  lemma RequestTaken(data: bytes, q: Request, rest: bytes)
    requires TakeRequest(data) == Just((q, rest))
    ensures RequestFits(q) && data == RequestData(q, rest)
  {
    var r0 := TakeString(data).value.1;
    TakeStringExactly(data, q.sessionId, r0);
    var r1 := r0[1..];
    assert r0 == [50] + r1;
    var r2 := TakeString(r1).value.1;
    TakeStringExactly(r1, q.user, r2);
    var r3 := TakeString(r2).value.1;
    TakeStringExactly(r2, q.service, r3);
    TakeStringExactly(r3, q.method_, rest);
  }

  lemma RequestTakes(q: Request, rest: bytes)
    requires RequestFits(q)
    ensures TakeRequest(RequestData(q, rest)) == Just((q, rest))
  {
    var r3 := Str(q.method_) + rest;
    var r2 := Str(q.service) + r3;
    var r1 := Str(q.user) + r2;
    TakeStringExactly(RequestData(q, rest), q.sessionId, [50] + r1);
    assert ([50] + r1)[1..] == r1;
    TakeStringExactly(r1, q.user, r2);
    TakeStringExactly(r2, q.service, r3);
    TakeStringExactly(r3, q.method_, rest);
  }

  lemma KeyPartParsed(data: bytes, k: KeyPart)
    requires ParseKeyPart(data) == Just(k)
    ensures KeyPartFits(k) && data == KeyPartData(k)
  {
    var r0 := data[1..];
    assert data == [1] + r0;
    var r1 := TakeString(r0).value.1;
    TakeStringExactly(r0, k.algorithm, r1);
    var r2 := TakeString(r1).value.1;
    TakeStringExactly(r1, k.credential, r2);
    TakeStringExactly(r2, k.hostKey, []);
  }

  lemma KeyPartParses(k: KeyPart)
    requires KeyPartFits(k)
    ensures ParseKeyPart(KeyPartData(k)) == Just(k)
  {
    var r2 := Str(k.hostKey) + [];
    var r1 := Str(k.credential) + r2;
    var r0 := Str(k.algorithm) + r1;
    assert KeyPartData(k)[1..] == r0;
    TakeStringExactly(r0, k.algorithm, r1);
    TakeStringExactly(r1, k.credential, r2);
    TakeStringExactly(r2, k.hostKey, []);
  }

  /** Parsing succeeds with given fields exactly when the data is their encoding. */
  lemma ParseUserauthExactly(data: bytes, f: HostboundUserauth)
    ensures ParseUserauth(data) == Just(f) <==> Encodable(f) && data == SigningData(f)
  {
    if ParseUserauth(data) == Just(f) {
      var rest := TakeRequest(data).value.1;
      RequestTaken(data, f.request, rest);
      KeyPartParsed(rest, f.key);
    }
    if Encodable(f) {
      RequestTakes(f.request, KeyPartData(f.key));
      KeyPartParses(f.key);
    }
  }

  /** Different fields never share signing data. */
  lemma SigningDataInjective(f: HostboundUserauth, g: HostboundUserauth)
    requires Encodable(f) && Encodable(g) && SigningData(f) == SigningData(g)
    ensures f == g
  {
    ParseUserauthExactly(SigningData(f), f);
    ParseUserauthExactly(SigningData(f), g);
  }

  // ----- Agent requests -----------------------------------------------------------------

  /** A sign request before its credential is decoded. */
  datatype SignFrame = SignFrame(credential: bytes, data: bytes, flags: nat)

  function ParseSignFrame(frame: bytes): Parsed<SignFrame>
  {
    var (id, r) :- TakeByte(frame);
    if id != 13 then Nothing
    else
      var (credential, r) :- TakeString(r);
      var (data, r) :- TakeString(r);
      var (flags, r) :- TakeFixed(r, 4);
      if r != [] then Nothing else Just(SignFrame(credential, data, FromBe(flags)))
  }

  const SESSION_BIND: bytes := Ascii("session-bind@openssh.com")

  /** A session-bind before its key and signature are decoded. */
  datatype BindFrame = BindFrame(hostKey: bytes, sessionId: bytes, signature: bytes, forwarding: bool)

  function ParseBindFrame(frame: bytes): Parsed<BindFrame>
  {
    var (id, r) :- TakeByte(frame);
    if id != 27 then Nothing
    else
      var (name, r) :- TakeString(r);
      if name != SESSION_BIND then Nothing
      else
        var (hostKey, r) :- TakeString(r);
        var (sessionId, r) :- TakeString(r);
        var (signature, r) :- TakeString(r);
        var (forwarding, r) :- TakeByte(r);
        if r != [] then Nothing else Just(BindFrame(hostKey, sessionId, signature, forwarding != 0))
  }

  // ----- Signature algorithms -----------------------------------------------------------

  const RSA: bytes := Ascii("ssh-rsa")
  const RSA_CERT: bytes := Ascii("ssh-rsa-cert-v01@openssh.com")
  const RSA_256: bytes := Ascii("rsa-sha2-256")
  const RSA_512: bytes := Ascii("rsa-sha2-512")
  const RSA_256_CERT: bytes := Ascii("rsa-sha2-256-cert-v01@openssh.com")
  const RSA_512_CERT: bytes := Ascii("rsa-sha2-512-cert-v01@openssh.com")

  /** The agent flags that ask for `algorithm` from a key of this type. */
  function ExpectedFlags(keyType: bytes, algorithm: bytes): Parsed<nat>
  {
    if (keyType == RSA && algorithm == RSA) || (keyType == RSA_CERT && algorithm == RSA_CERT) then Nothing
    else if (keyType == RSA && algorithm == RSA_256) || (keyType == RSA_CERT && algorithm == RSA_256_CERT) then Just(2)
    else if (keyType == RSA && algorithm == RSA_512) || (keyType == RSA_CERT && algorithm == RSA_512_CERT) then Just(4)
    else if keyType == algorithm then Just(0)
    else Nothing
  }

  function ValidateAlgorithm(algorithm: bytes, credential: bytes, flags: nat): Parsed<()>
  {
    var (keyType, _) :- TakeString(credential);
    var expected :- ExpectedFlags(keyType, algorithm);
    if flags == expected then Just(()) else Nothing
  }

  /** An accepted algorithm fixes the flags, and the flags with the key type fix the algorithm: an RSA
      key never signs with SHA-1, and any other key signs under its own name without flags. */
  lemma AlgorithmAndFlagsAgree(algorithm: bytes, credential: bytes, flags: nat)
    requires ValidateAlgorithm(algorithm, credential, flags).Just?
    ensures TakeString(credential).Just?
    ensures var keyType := TakeString(credential).value.0;
            algorithm == (if keyType == RSA then (if flags == 2 then RSA_256 else RSA_512)
                          else if keyType == RSA_CERT then (if flags == 2 then RSA_256_CERT else RSA_512_CERT)
                          else keyType)
            && (if keyType == RSA || keyType == RSA_CERT then flags == 2 || flags == 4 else flags == 0)
  {
  }
}
