/** The record a receiver keeps of a used directive, and the file names it is kept under
    (`redeem_record`, `validate_redeem_record` and `hex` in src/delegation.rs). */
module ReplayRecord {
  import opened ByteStrings

  const MAX_UNIX_TIMESTAMP: int := 253_402_300_799
  const RECORD_LEN: nat := 80
  /** "SYQCLM" and two NUL bytes. */
  const MAGIC: bytes := [83, 89, 81, 67, 76, 77, 0, 0]

  type RequestId = b: bytes | |b| == 32 witness seq(32, _ => 1)
  type Digest = b: bytes | |b| == 32 witness seq(32, _ => 1)

  datatype RecordError = TimestampOutOfRange | Malformed | InvalidTimestamp | WrongRequest | DifferentDirective

  predicate Timestamp(at: int) { 0 <= at <= MAX_UNIX_TIMESTAMP }

  /** `RequestId::validate`: the all-zero ID is refused. */
  predicate ValidRequest(request: RequestId) { exists i | 0 <= i < |request| :: request[i] != 0 }

  // ----- The record ---------------------------------------------------------------------

  /** `i64::from_be_bytes`: two's complement. */
  function SignedBe64(b: bytes): int
    requires |b| == 8
  {
    var n := FromBe(b);
    if n < 0x8000_0000_0000_0000 then n else n - 0x1_0000_0000_0000_0000
  }

  function RecordBytes(request: RequestId, digest: Digest, at: nat): (record: bytes)
    ensures |record| == RECORD_LEN
  {
    MAGIC + ToBe(at, 8) + request + digest
  }

  function RedeemRecord(request: RequestId, digest: Digest, at: int): Result<bytes, RecordError>
  {
    if !Timestamp(at) then Err(TimestampOutOfRange) else Ok(RecordBytes(request, digest, at))
  }

  function ValidateRecord(record: bytes, request: RequestId, digest: Digest): Result<(), RecordError>
  {
    if |record| != RECORD_LEN || record[..8] != MAGIC then Err(Malformed)
    else if !Timestamp(SignedBe64(record[8..16])) then Err(InvalidTimestamp)
    else if record[16..48] != request then Err(WrongRequest)
    else if record[48..80] != digest then Err(DifferentDirective)
    else Ok(())
  }

  lemma SignedBe64Of(at: int)
    requires Timestamp(at)
    ensures SignedBe64(ToBe(at, 8)) == at
  {
    assert Pow256(8) == 0x1_0000_0000_0000_0000;
    FromBeToBe(at, 8);
  }

  lemma RecordFields(request: RequestId, digest: Digest, at: nat)
    ensures var r := RecordBytes(request, digest, at);
            r[..8] == MAGIC && r[8..16] == ToBe(at, 8) && r[16..48] == request && r[48..80] == digest
  {
  }

  /** The reader accepts a byte string for a request and directive exactly when the writer, given
      some time in range, writes it for them. */
  lemma AcceptedExactlyWhenWritten(record: bytes, request: RequestId, digest: Digest)
    ensures ValidateRecord(record, request, digest).Ok?
       <==> exists at: int :: RedeemRecord(request, digest, at) == Ok(record)
  {
    if ValidateRecord(record, request, digest).Ok? {
      var at := SignedBe64(record[8..16]);
      ToBeFromBe(record[8..16]);
      assert record == record[..8] + record[8..16] + record[16..48] + record[48..80];
      assert RedeemRecord(request, digest, at) == Ok(record);
    }
    forall at: int | RedeemRecord(request, digest, at) == Ok(record)
      ensures ValidateRecord(record, request, digest).Ok?
    {
      RecordFields(request, digest, at);
      SignedBe64Of(at);
    }
  }

  /** Checking a genuine record against any request and directive gives one of three answers:
      accepted, another request, or the same request used by another directive. */
  lemma GenuineRecordAnswer(request: RequestId, digest: Digest, at: int, request': RequestId, digest': Digest)
    requires Timestamp(at)
    ensures ValidateRecord(RecordBytes(request, digest, at), request', digest') ==
            if request != request' then Err(WrongRequest)
            else if digest != digest' then Err(DifferentDirective)
            else Ok(())
  {
    RecordFields(request, digest, at);
    SignedBe64Of(at);
  }

  // ----- File names ---------------------------------------------------------------------

  function HexDigit(value: int): char
    requires 0 <= value < 16
  {
    if value < 10 then ('0' as int + value) as char else ('a' as int + value - 10) as char
  }

  function Hex(b: bytes): (s: string)
    ensures |s| == 2 * |b|
  {
    if b == [] then [] else [HexDigit(b[0] / 16), HexDigit(b[0] % 16)] + Hex(b[1..])
  }

  function DigitValue(c: char): int
  {
    if '0' <= c <= '9' then c as int - '0' as int
    else if 'a' <= c <= 'f' then c as int - 'a' as int + 10
    else 0
  }

  function Unhex(s: string): bytes
  {
    if |s| < 2 then [] else [16 * DigitValue(s[0]) + DigitValue(s[1])] + Unhex(s[2..])
  }

  lemma {:induction false} UnhexHex(b: bytes)
    ensures Unhex(Hex(b)) == b
  {
    if b != [] {
      UnhexHex(b[1..]);
      assert Hex(b)[2..] == Hex(b[1..]);
      assert DigitValue(HexDigit(b[0] / 16)) == b[0] / 16;
      assert DigitValue(HexDigit(b[0] % 16)) == b[0] % 16;
    }
  }

  /** `hex`, as the loop that pushes two digits for every byte. */
  method HexText(b: bytes) returns (out: string)
    ensures out == Hex(b)
  {
    out := "";
    for i := 0 to |b|
      invariant out + Hex(b[i..]) == Hex(b)
    {
      assert b[i..][1..] == b[i + 1..];
      out := out + [HexDigit(b[i] / 16)];
      out := out + [HexDigit(b[i] % 16)];
    }
    assert b[|b|..] == [];
  }

  type Nonce = b: bytes | |b| == 16 witness seq(16, _ => 0)

  /** The names a receiver gives to records, by what they are made from. */
  datatype Name = Final(request: RequestId) | Temporary(request: RequestId, nonce: Nonce)

  function Spelling(name: Name): string
  {
    match name
    case Final(request) => "redeemed-" + Hex(request)
    case Temporary(request, nonce) => ".redeemed-" + Hex(request) + "-" + Hex(nonce) + ".tmp"
  }

  /** Two names are spelled alike only if they are the same name, so a directory may be keyed by
      either; and the final names are those that begin "redeemed-". */
  lemma SpellingIsFaithful(a: Name, b: Name)
    ensures Spelling(a) == Spelling(b) <==> a == b
    ensures "redeemed-" <= Spelling(a) <==> a.Final?
  {
    UnhexHex(a.request);
    UnhexHex(b.request);
    SpellingParts(a);
    SpellingParts(b);
    if a.Temporary? && b.Temporary? {
      UnhexHex(a.nonce);
      UnhexHex(b.nonce);
    }
  }

  lemma SpellingParts(name: Name)
    ensures name.Final? ==> Spelling(name)[0] == 'r' && Spelling(name)[9..] == Hex(name.request)
    ensures name.Temporary? ==>
              && Spelling(name)[0] == '.' && Spelling(name)[10..74] == Hex(name.request)
              && Spelling(name)[75..107] == Hex(name.nonce)
  {
  }
}
