/** The textual form of an SSH signature (`canonical_sshsig_armor` and `validate_canonical_sshsig` in
    src/delegation.rs): base64 as in section 4 of RFC 4648, in lines of 70 between two fixed lines. */
module SshsigArmor {
  import opened ByteStrings

  const MAX_SIGNATURE_BYTES: nat := 16384
  const WIDTH: nat := 70
  const PAD: u8 := 61
  const BEGIN: bytes := Ascii("-----BEGIN SSH SIGNATURE-----")
  const END: bytes := Ascii("-----END SSH SIGNATURE-----")
  const MAGIC: bytes := Ascii("SSHSIG")

  // ----- Base64 -------------------------------------------------------------------------

  predicate Sextet(v: int) { 0 <= v < 64 }

  function Digit(v: int): u8
    requires Sextet(v)
  {
    if v < 26 then 65 + v else if v < 52 then 71 + v else if v < 62 then v - 4 else if v == 62 then 43 else 47
  }

  function DigitValue(c: u8): (v: Option<int>)
    ensures v.Some? ==> Sextet(v.value) && Digit(v.value) == c
  {
    if 65 <= c <= 90 then Some(c - 65)
    else if 97 <= c <= 122 then Some(c - 71)
    else if 48 <= c <= 57 then Some(c + 4)
    else if c == 43 then Some(62)
    else if c == 47 then Some(63)
    else None
  }

  /** Three bytes as four sextets, and back. */
  function First(a: u8): int { a / 4 }
  function Second(a: u8, b: u8): int { a % 4 * 16 + b / 16 }
  function Third(b: u8, c: u8): int { b % 16 * 4 + c / 64 }
  function Fourth(c: u8): int { c % 64 }

  function Bytes(x: int, y: int, z: int, w: int): bytes
    requires Sextet(x) && Sextet(y) && Sextet(z) && Sextet(w)
  {
    [x * 4 + y / 16, y % 16 * 16 + z / 4, z % 4 * 64 + w]
  }

  lemma DivMod(q: int, r: int, k: int)
    requires 0 <= r < k && (k == 4 || k == 16 || k == 64)
    ensures (q * k + r) / k == q && (q * k + r) % k == r
  {
  }

  lemma BytesOfSextets(a: u8, b: u8, c: u8)
    ensures Sextet(First(a)) && Sextet(Second(a, b)) && Sextet(Third(b, c)) && Sextet(Fourth(c))
    ensures Bytes(First(a), Second(a, b), Third(b, c), Fourth(c)) == [a, b, c]
  {
    DivMod(a % 4, b / 16, 16);
    DivMod(b % 16, c / 64, 4);
  }

  lemma SextetsOfBytes(x: int, y: int, z: int, w: int)
    requires Sextet(x) && Sextet(y) && Sextet(z) && Sextet(w)
    ensures var b := Bytes(x, y, z, w);
            First(b[0]) == x && Second(b[0], b[1]) == y && Third(b[1], b[2]) == z && Fourth(b[2]) == w
  {
    DivMod(x, y / 16, 4);
    DivMod(y % 16, z / 4, 16);
    DivMod(z % 4, w, 64);
  }

  function EncodeGroup(a: u8, b: u8, c: u8): bytes
  {
    [Digit(First(a)), Digit(Second(a, b)), Digit(Third(b, c)), Digit(Fourth(c))]
  }

  function Encode(raw: bytes): bytes
  {
    if |raw| == 0 then []
    else if |raw| == 1 then [Digit(First(raw[0])), Digit(Second(raw[0], 0)), PAD, PAD]
    else if |raw| == 2 then [Digit(First(raw[0])), Digit(Second(raw[0], raw[1])), Digit(Third(raw[1], 0)), PAD]
    else EncodeGroup(raw[0], raw[1], raw[2]) + Encode(raw[3..])
  }

  function DecodeGroup(a: u8, b: u8, c: u8, d: u8): Option<bytes>
  {
    match (DigitValue(a), DigitValue(b), DigitValue(c), DigitValue(d))
    case (Some(x), Some(y), Some(z), Some(w)) => Some(Bytes(x, y, z, w))
    case _ => None
  }

  /** The last four characters when they end in padding: one or two bytes, with no stray bits. */
  function DecodePadded(a: u8, b: u8, c: u8): Option<bytes>
  {
    if c == PAD then
      match (DigitValue(a), DigitValue(b))
      case (Some(x), Some(y)) => if y % 16 != 0 then None else Some([Bytes(x, y, 0, 0)[0]])
      case _ => None
    else
      match (DigitValue(a), DigitValue(b), DigitValue(c))
      case (Some(x), Some(y), Some(z)) =>
        if z % 4 != 0 then None else Some([Bytes(x, y, z, 0)[0], Bytes(x, y, z, 0)[1]])
      case _ => None
  }

  function Decode(s: bytes): Option<bytes>
  {
    if s == [] then Some([])
    else if |s| < 4 then None
    else if |s| == 4 && s[3] == PAD then DecodePadded(s[0], s[1], s[2])
    else match (DecodeGroup(s[0], s[1], s[2], s[3]), Decode(s[4..]))
      case (Some(group), Some(rest)) => Some(group + rest)
      case _ => None
  }

  lemma DigitInjective(v: int)
    requires Sextet(v)
    ensures DigitValue(Digit(v)) == Some(v) && Digit(v) != PAD
  {
  }

  lemma GroupRoundTrip(a: u8, b: u8, c: u8)
    ensures var e := EncodeGroup(a, b, c); DecodeGroup(e[0], e[1], e[2], e[3]) == Some([a, b, c]) && e[3] != PAD
  {
    BytesOfSextets(a, b, c);
    DigitInjective(First(a));
    DigitInjective(Second(a, b));
    DigitInjective(Third(b, c));
    DigitInjective(Fourth(c));
  }

  lemma GroupCanonical(a: u8, b: u8, c: u8, d: u8)
    requires DecodeGroup(a, b, c, d).Some?
    ensures var g := DecodeGroup(a, b, c, d).value; |g| == 3 && EncodeGroup(g[0], g[1], g[2]) == [a, b, c, d]
  {
    SextetsOfBytes(DigitValue(a).value, DigitValue(b).value, DigitValue(c).value, DigitValue(d).value);
  }

  lemma OneByte(a: u8)
    ensures DecodePadded(Digit(First(a)), Digit(Second(a, 0)), PAD) == Some([a])
  {
    BytesOfSextets(a, 0, 0);
    DigitInjective(First(a));
    DigitInjective(Second(a, 0));
    DivMod(a % 4, 0, 16);
  }

  lemma TwoBytes(a: u8, b: u8)
    ensures DecodePadded(Digit(First(a)), Digit(Second(a, b)), Digit(Third(b, 0))) == Some([a, b])
  {
    BytesOfSextets(a, b, 0);
    DigitInjective(First(a));
    DigitInjective(Second(a, b));
    DigitInjective(Third(b, 0));
    DivMod(b % 16, 0, 4);
  }

  lemma OneByteCanonical(x: int, y: int)
    requires Sextet(x) && Sextet(y) && y % 16 == 0
    ensures var a := Bytes(x, y, 0, 0)[0]; First(a) == x && Second(a, 0) == y
  {
    SextetsOfBytes(x, y, 0, 0);
    assert Bytes(x, y, 0, 0)[1] == 0;
  }

  lemma TwoBytesCanonical(x: int, y: int, z: int)
    requires Sextet(x) && Sextet(y) && Sextet(z) && z % 4 == 0
    ensures var g := Bytes(x, y, z, 0); First(g[0]) == x && Second(g[0], g[1]) == y && Third(g[1], 0) == z
  {
    SextetsOfBytes(x, y, z, 0);
    assert Bytes(x, y, z, 0)[2] == 0;
  }

  lemma PaddedCanonical(a: u8, b: u8, c: u8)
    requires DecodePadded(a, b, c).Some?
    ensures Encode(DecodePadded(a, b, c).value) == [a, b, c, PAD]
  {
    var x, y := DigitValue(a).value, DigitValue(b).value;
    if c == PAD {
      OneByteCanonical(x, y);
    } else {
      TwoBytesCanonical(x, y, DigitValue(c).value);
    }
  }

  lemma DecodeStep(g: bytes, s: bytes, group: bytes, rest: bytes)
    requires |g| == 4 && g[3] != PAD && DecodeGroup(g[0], g[1], g[2], g[3]) == Some(group) && Decode(s) == Some(rest)
    ensures Decode(g + s) == Some(group + rest)
  {
    assert (g + s)[4..] == s;
  }

  lemma {:induction false} DecodeEncode(raw: bytes)
    ensures Decode(Encode(raw)) == Some(raw)
  {
    if |raw| == 1 {
      OneByte(raw[0]);
      assert raw == [raw[0]];
    } else if |raw| == 2 {
      TwoBytes(raw[0], raw[1]);
      assert raw == [raw[0], raw[1]];
    } else if |raw| >= 3 {
      DecodeEncode(raw[3..]);
      GroupRoundTrip(raw[0], raw[1], raw[2]);
      DecodeStep(EncodeGroup(raw[0], raw[1], raw[2]), Encode(raw[3..]), [raw[0], raw[1], raw[2]], raw[3..]);
      assert raw == [raw[0], raw[1], raw[2]] + raw[3..];
    }
  }

  /** Decoding accepts only what encoding writes: no other spelling of the same bytes. */
  lemma {:induction false} EncodeDecode(s: bytes)
    requires Decode(s).Some?
    ensures Encode(Decode(s).value) == s
  {
    if s != [] {
      if |s| == 4 && s[3] == PAD {
        PaddedCanonical(s[0], s[1], s[2]);
      } else {
        EncodeDecode(s[4..]);
        GroupCanonical(s[0], s[1], s[2], s[3]);
        var rest := Decode(s[4..]).value;
        var raw := Decode(s).value;
        assert raw[3..] == rest;
        assert s == [s[0], s[1], s[2], s[3]] + s[4..];
      }
    }
  }

  predicate Printable(b: bytes) { forall i | 0 <= i < |b| :: 32 <= b[i] < 127 }

  lemma {:induction false} EncodePrintable(raw: bytes)
    ensures Printable(Encode(raw)) && (raw != [] ==> Encode(raw) != [])
  {
    if |raw| >= 3 { EncodePrintable(raw[3..]); }
  }

  // ----- Lines --------------------------------------------------------------------------

  /** `slice::chunks`. */
  function Chunks(s: bytes, width: nat): seq<bytes>
    requires width > 0
  {
    if s == [] then [] else if |s| <= width then [s] else [s[..width]] + Chunks(s[width..], width)
  }

  /** Each line followed by a newline. */
  function Terminated(lines: seq<bytes>): bytes
  {
    if lines == [] then [] else lines[0] + [NEWLINE] + Terminated(lines[1..])
  }

  /** `str::lines` of a text that ends in a newline and has no carriage returns. */
  function Lines(text: bytes): seq<bytes>
    requires text != [] && text[|text| - 1] == NEWLINE
  {
    Split(text[..|text| - 1], NEWLINE)
  }

  lemma {:induction false} TerminatedIsJoin(lines: seq<bytes>)
    requires lines != []
    ensures Terminated(lines) == Join(lines, NEWLINE) + [NEWLINE]
  {
    if |lines| > 1 { TerminatedIsJoin(lines[1..]); }
  }

  lemma LinesTerminated(lines: seq<bytes>)
    requires lines != [] && forall i | 0 <= i < |lines| :: NEWLINE !in lines[i]
    ensures Terminated(lines) != [] && Terminated(lines)[|Terminated(lines)| - 1] == NEWLINE
    ensures Lines(Terminated(lines)) == lines
  {
    TerminatedIsJoin(lines);
    SplitJoin(lines, NEWLINE);
    assert Terminated(lines)[..|Terminated(lines)| - 1] == Join(lines, NEWLINE);
  }

  lemma TerminatedLines(text: bytes)
    requires text != [] && text[|text| - 1] == NEWLINE
    ensures Terminated(Lines(text)) == text
  {
    TerminatedIsJoin(Lines(text));
    JoinSplit(text[..|text| - 1], NEWLINE);
  }

  lemma {:induction false} TerminatedAcross(a: seq<bytes>, b: seq<bytes>)
    ensures Terminated(a + b) == Terminated(a) + Terminated(b)
  {
    if a == [] {
      assert a + b == b;
    } else {
      TerminatedAcross(a[1..], b);
      assert (a + b)[1..] == a[1..] + b;
    }
  }

  /** No empty line, every line but the last of full width, and the last no wider. */
  predicate Wrapped(lines: seq<bytes>)
  {
    && (forall i | 0 <= i < |lines| :: lines[i] != [])
    && (forall i | 0 <= i < |lines| :: if i + 1 == |lines| then |lines[i]| <= WIDTH else |lines[i]| == WIDTH)
  }

  lemma {:induction false} ChunksWrapped(s: bytes)
    ensures Wrapped(Chunks(s, WIDTH)) && Concat(Chunks(s, WIDTH)) == s
  {
    if |s| > WIDTH {
      ChunksWrapped(s[WIDTH..]);
      var chunks := Chunks(s, WIDTH);
      assert chunks[1..] == Chunks(s[WIDTH..], WIDTH);
      assert s == s[..WIDTH] + s[WIDTH..];
    } else if s != [] {
      assert Chunks(s, WIDTH)[1..] == [];
    }
  }

  lemma {:induction false} WrappedAreChunks(lines: seq<bytes>)
    requires Wrapped(lines)
    ensures Chunks(Concat(lines), WIDTH) == lines
  {
    if lines != [] {
      var rest := lines[1..];
      assert Wrapped(rest) by {
        assert forall i | 0 <= i < |rest| :: rest[i] == lines[i + 1];
      }
      WrappedAreChunks(rest);
      assert lines == [lines[0]] + rest;
      var s := Concat(lines);
      if rest == [] {
        assert s == lines[0];
      } else {
        assert |lines[0]| == WIDTH && Concat(rest) != [] by {
          assert rest[0] == lines[1] && rest[0] != [];
        }
        assert s[..WIDTH] == lines[0] && s[WIDTH..] == Concat(rest);
      }
    }
  }

  // ----- The armor ----------------------------------------------------------------------

  function ArmorLines(raw: bytes): seq<bytes> { [BEGIN] + Chunks(Encode(raw), WIDTH) + [END] }

  function Armor(raw: bytes): bytes { Terminated(ArmorLines(raw)) }

  /** `canonical_sshsig_armor`, as the loop that appends one chunk and one newline at a time. */
  method ArmorText(raw: bytes) returns (out: bytes)
    ensures out == Armor(raw)
  {
    var encoded := Encode(raw);
    out := BEGIN + [NEWLINE];
    var i := 0;
    while i < |encoded|
      invariant 0 <= i <= |encoded|
      invariant out + Terminated(Chunks(encoded[i..], WIDTH)) ==
                BEGIN + [NEWLINE] + Terminated(Chunks(encoded, WIDTH))
    {
      var next := if i + WIDTH < |encoded| then i + WIDTH else |encoded|;
      ghost var chunks := Chunks(encoded[i..], WIDTH);
      assert chunks[0] == encoded[i..next];
      assert chunks[1..] == Chunks(encoded[next..], WIDTH) by {
        if next < |encoded| { assert encoded[i..][WIDTH..] == encoded[next..]; }
      }
      out := out + encoded[i..next];
      out := out + [NEWLINE];
      i := next;
    }
    out := out + END + [NEWLINE];
    assert encoded[|encoded|..] == [];
    ArmorParts(raw);
  }

  lemma ArmorParts(raw: bytes)
    ensures Armor(raw) == BEGIN + [NEWLINE] + Terminated(Chunks(Encode(raw), WIDTH)) + END + [NEWLINE]
  {
    var chunks := Chunks(Encode(raw), WIDTH);
    TerminatedAcross([BEGIN] + chunks, [END]);
    TerminatedAcross([BEGIN], chunks);
    assert Terminated([BEGIN]) == BEGIN + [NEWLINE] && Terminated([END]) == END + [NEWLINE];
  }

  // ----- Validation ---------------------------------------------------------------------

  datatype Refusal = Length | NotUtf8 | Noncanonical | MalformedArmor | EmptyLine | Wrapping | BadBase64 | BadPayload

  predicate Continuation(c: u8) { 0x80 <= c <= 0xBF }

  /** Well-formed UTF-8, as `str::from_utf8` checks it. */
  predicate Utf8(b: bytes)
  {
    if b == [] then true
    else if b[0] < 0x80 then Utf8(b[1..])
    else if 0xC2 <= b[0] <= 0xDF then |b| >= 2 && Continuation(b[1]) && Utf8(b[2..])
    else if 0xE0 <= b[0] <= 0xEF then
      && |b| >= 3 && Continuation(b[1]) && Continuation(b[2])
      && (b[0] == 0xE0 ==> b[1] >= 0xA0) && (b[0] == 0xED ==> b[1] <= 0x9F) && Utf8(b[3..])
    else
      && 0xF0 <= b[0] <= 0xF4 && |b| >= 4 && Continuation(b[1]) && Continuation(b[2]) && Continuation(b[3])
      && (b[0] == 0xF0 ==> b[1] >= 0x90) && (b[0] == 0xF4 ==> b[1] <= 0x8F) && Utf8(b[4..])
  }

  /** The magic and version 1, as a big-endian 32-bit number. */
  predicate Payload(raw: bytes)
  {
    |raw| >= 10 && raw[..6] == MAGIC && FromBe(raw[6..10]) == 1
  }

  /** Everything but the final comparison: the payload a text carries. */
  function Unarmor(signature: bytes): Result<bytes, Refusal>
  {
    if signature == [] || |signature| > MAX_SIGNATURE_BYTES then Err(Length)
    else if !Utf8(signature) then Err(NotUtf8)
    else if RETURN in signature || signature[|signature| - 1] != NEWLINE then Err(Noncanonical)
    else
      var lines := Lines(signature);
      if |lines| < 3 || lines[0] != BEGIN || lines[|lines| - 1] != END then Err(MalformedArmor)
      else
        var encoded := lines[1..|lines| - 1];
        if exists i | 0 <= i < |encoded| :: encoded[i] == [] then Err(EmptyLine)
        else if !Wrapped(encoded) then Err(Wrapping)
        else match Decode(Concat(encoded))
          case None => Err(BadBase64)
          case Some(raw) => if !Payload(raw) then Err(BadPayload) else Ok(raw)
  }

  function Validate(signature: bytes): Result<(), Refusal>
  {
    match Unarmor(signature)
    case Err(refusal) => Err(refusal)
    case Ok(raw) => if Armor(raw) != signature then Err(Noncanonical) else Ok(())
  }

  /** The final comparison never refuses: a text that passes every other check is already the armor
      of its payload. */
  lemma ComparisonNeverRefuses(signature: bytes)
    requires Unarmor(signature).Ok?
    ensures Armor(Unarmor(signature).value) == signature
  {
    var lines := Lines(signature);
    var encoded := lines[1..|lines| - 1];
    WrappedAreChunks(encoded);
    EncodeDecode(Concat(encoded));
    assert lines == [BEGIN] + encoded + [END];
    TerminatedLines(signature);
  }

  lemma {:induction false} PlainText(b: bytes)
    requires forall i | 0 <= i < |b| :: b[i] == NEWLINE || 32 <= b[i] < 127
    ensures Utf8(b) && RETURN !in b
  {
    if b != [] { PlainText(b[1..]); }
  }

  lemma {:induction false} TerminatedPlain(lines: seq<bytes>)
    requires forall i | 0 <= i < |lines| :: Printable(lines[i])
    ensures forall i | 0 <= i < |Terminated(lines)| ::
              Terminated(lines)[i] == NEWLINE || 32 <= Terminated(lines)[i] < 127
  {
    if lines != [] { TerminatedPlain(lines[1..]); }
  }

  lemma {:induction false} ChunksPrintable(s: bytes)
    requires Printable(s)
    ensures forall i | 0 <= i < |Chunks(s, WIDTH)| :: Printable(Chunks(s, WIDTH)[i])
  {
    if |s| > WIDTH { ChunksPrintable(s[WIDTH..]); }
  }

  lemma FixedLinesPrintable()
    ensures Printable(BEGIN) && Printable(END)
  {
  }

  lemma ArmorLinesPrintable(raw: bytes)
    ensures forall i | 0 <= i < |ArmorLines(raw)| :: Printable(ArmorLines(raw)[i])
    ensures Armor(raw) != [] && Armor(raw)[|Armor(raw)| - 1] == NEWLINE
    ensures Lines(Armor(raw)) == ArmorLines(raw)
  {
    EncodePrintable(raw);
    ChunksPrintable(Encode(raw));
    FixedLinesPrintable();
    LinesTerminated(ArmorLines(raw));
  }

  /** Every payload's armor is read back as that payload, if it is not too long. */
  lemma UnarmorArmor(raw: bytes)
    requires Payload(raw) && |Armor(raw)| <= MAX_SIGNATURE_BYTES
    ensures Unarmor(Armor(raw)) == Ok(raw)
  {
    ArmorLinesPrintable(raw);
    TerminatedPlain(ArmorLines(raw));
    PlainText(Armor(raw));
    EncodePrintable(raw);
    ChunksWrapped(Encode(raw));
    DecodeEncode(raw);
    var chunks := Chunks(Encode(raw), WIDTH);
    var lines := ArmorLines(raw);
    assert lines[1..|lines| - 1] == chunks;
  }

  /** A text is accepted exactly when it is the armor of a payload and not too long. */
  lemma AcceptedExactlyWhenArmor(signature: bytes)
    ensures Validate(signature).Ok?
       <==> |signature| <= MAX_SIGNATURE_BYTES && exists raw: bytes :: Payload(raw) && signature == Armor(raw)
  {
    if Validate(signature).Ok? {
      var raw := Unarmor(signature).value;
      assert Payload(raw) && signature == Armor(raw);
    }
    forall raw: bytes | Payload(raw) && signature == Armor(raw) && |signature| <= MAX_SIGNATURE_BYTES
      ensures Validate(signature).Ok?
    {
      UnarmorArmor(raw);
    }
  }

  /** Two payloads never share an armor. */
  lemma ArmorInjective(raw: bytes, raw': bytes)
    requires Armor(raw) == Armor(raw')
    ensures raw == raw'
  {
    ArmorLinesPrintable(raw);
    ArmorLinesPrintable(raw');
    var lines := ArmorLines(raw);
    assert lines[1..|lines| - 1] == Chunks(Encode(raw), WIDTH) == Chunks(Encode(raw'), WIDTH);
    ChunksWrapped(Encode(raw));
    ChunksWrapped(Encode(raw'));
    DecodeEncode(raw);
    DecodeEncode(raw');
  }
}
