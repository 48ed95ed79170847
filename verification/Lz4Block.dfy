/** The size bound on LZ4 frames (`lz4_decoded_size` in src/compression.rs) as a theorem about the
    block format: the "Compressed block format" section of the LZ4 Block Format Description. */
module Lz4Block {
  import opened ByteStrings

  const MAX_RATIO: nat := 255
  const I32_MAX: nat := 0x7FFF_FFFF

  // ----- The block format ---------------------------------------------------------------

  /** Further length bytes: each 255 says that another follows. */
  function ReadMore(length: nat, s: bytes): (r: Option<(nat, bytes)>)
    ensures r.Some? ==> |r.value.1| < |s| && r.value.0 <= length + 255 * (|s| - |r.value.1|)
    decreases |s|
  {
    if s == [] then None
    else if s[0] == 255 then ReadMore(length + 255, s[1..])
    else Some((length + s[0], s[1..]))
  }

  /** A length begun by four bits of a token. */
  function ReadLength(nibble: nat, s: bytes): (r: Option<(nat, bytes)>)
    ensures r.Some? ==> |r.value.1| <= |s| && r.value.0 <= nibble + 255 * (|s| - |r.value.1|)
  {
    if nibble < 15 then Some((nibble, s)) else ReadMore(nibble, s)
  }

  function Offset(low: u8, high: u8): int { low + 256 * high }

  /** Copies a match byte by byte, so that it may overlap what it writes. */
  function CopyMatch(output: bytes, offset: nat, length: nat): (r: bytes)
    requires 0 < offset <= |output|
    ensures |r| == |output| + length && output <= r
    decreases length
  {
    if length == 0 then output else CopyMatch(output + [output[|output| - offset]], offset, length - 1)
  }

  /** What a block decodes to, with what its end restrictions speak of: the literals of the last
      sequence, and where the last match begins. */
  datatype Decoded = Decoded(output: bytes, lastLiterals: nat, lastMatch: Option<nat>)

  /** Sequences from `s` on: a token, literals and, except in the last, an offset and a match. */
  function Sequences(s: bytes, output: bytes, lastMatch: Option<nat>): Option<Decoded>
    decreases |s|
  {
    if s == [] then None
    else match ReadLength(s[0] / 16, s[1..])
      case None => None
      case Some((literals, rest)) =>
        if |rest| < literals then None
        else
          var output := output + rest[..literals];
          var rest := rest[literals..];
          if rest == [] then Some(Decoded(output, literals, lastMatch))
          else if |rest| < 2 then None
          else
            var offset := Offset(rest[0], rest[1]);
            if offset == 0 || offset > |output| then None
            else match ReadLength(s[0] % 16, rest[2..])
              case None => None
              case Some((length, rest')) =>
                Sequences(rest', CopyMatch(output, offset, 4 + length), Some(|output|))
  }

  function Decode(block: bytes): Option<Decoded> { Sequences(block, [], None) }

  /** After a match, the last sequence holds at least five literals, and that match begins at least
      twelve bytes before the end. */
  predicate ValidBlock(block: bytes)
  {
    match Decode(block)
    case None => false
    case Some(d) => d.lastMatch.Some? ==> d.lastLiterals >= 5 && d.lastMatch.value + 12 <= |d.output|
  }

  // ----- No block holds more ------------------------------------------------------------

  /** A sequence of `total` bytes, less what is left of it after its literals and after its match. */
  lemma Growth(total: nat, afterLiterals: nat, afterMatch: nat, literals: nat, length: nat)
    requires total >= 1 + literals + afterLiterals && afterLiterals >= 2 + afterMatch
    requires length <= 15 + 255 * (afterLiterals - 2 - afterMatch)
    ensures literals + 4 + length + MAX_RATIO * afterMatch <= MAX_RATIO * total
  {
  }

  lemma {:induction false} SequencesBound(s: bytes, output: bytes, lastMatch: Option<nat>)
    requires Sequences(s, output, lastMatch).Some?
    ensures |Sequences(s, output, lastMatch).value.output| <= |output| + MAX_RATIO * |s|
    decreases |s|
  {
    var (literals, rest) := ReadLength(s[0] / 16, s[1..]).value;
    var output1, rest1 := output + rest[..literals], rest[literals..];
    if rest1 != [] {
      var offset := Offset(rest1[0], rest1[1]);
      var (length, rest2) := ReadLength(s[0] % 16, rest1[2..]).value;
      SequencesBound(rest2, CopyMatch(output1, offset, 4 + length), Some(|output1|));
      Growth(|s|, |rest1|, |rest2|, literals, length);
    }
  }

  /** A block decodes to at most 255 times its own length. */
  lemma DecodesWithinRatio(block: bytes)
    requires Decode(block).Some?
    ensures |Decode(block).value.output| <= MAX_RATIO * |block|
  {
    SequencesBound(block, [], None);
  }

  // ----- The check ----------------------------------------------------------------------

  datatype Refusal = MissingPrefix | ExceedsLimit | ExceedsBlock

  /** `u32::from_le_bytes`. */
  function FromLe(b: bytes): nat { if b == [] then 0 else b[0] + 256 * FromLe(b[1..]) }

  function ToLe(n: nat, k: nat): (b: bytes)
    ensures |b| == k
  {
    if k == 0 then [] else [n % 256] + ToLe(n / 256, k - 1)
  }

  lemma {:induction false} FromLeToLe(n: nat, k: nat)
    requires n < Pow256(k)
    ensures FromLe(ToLe(n, k)) == n
  {
    if k > 0 {
      FromLeToLe(n / 256, k - 1);
      assert ToLe(n, k)[1..] == ToLe(n / 256, k - 1);
    }
  }

  function DecodedSize(body: bytes, limit: nat): Result<nat, Refusal>
  {
    if |body| < 4 then Err(MissingPrefix)
    else
      var size := FromLe(body[..4]);
      if size >= limit || size > I32_MAX then Err(ExceedsLimit)
      else if size > (|body| - 4) * MAX_RATIO then Err(ExceedsBlock)
      else Ok(size)
  }

  /** A frame that declares its block's true size is accepted whenever that size is within the other
      limits: the ratio check refuses no genuine block. */
  lemma GenuineFrameAccepted(block: bytes, limit: nat)
    requires Decode(block).Some? && |Decode(block).value.output| <= I32_MAX
    ensures var size := |Decode(block).value.output|;
            DecodedSize(ToLe(size, 4) + block, limit) == if size < limit then Ok(size) else Err(ExceedsLimit)
  {
    var size := |Decode(block).value.output|;
    DecodesWithinRatio(block);
    assert Pow256(4) == 0x1_0000_0000;
    FromLeToLe(size, 4);
    assert (ToLe(size, 4) + block)[..4] == ToLe(size, 4);
  }

  /** What is allocated before decoding is below the limit and at most 255 bytes per byte received;
      and a frame refused for its ratio could not have decoded to what it declares. */
  lemma AllocationBounded(body: bytes, limit: nat)
    ensures DecodedSize(body, limit).Ok? ==>
              DecodedSize(body, limit).value < limit && DecodedSize(body, limit).value <= MAX_RATIO * |body|
    ensures DecodedSize(body, limit) == Err(ExceedsBlock) ==>
              Decode(body[4..]).None? || |Decode(body[4..]).value.output| < FromLe(body[..4])
  {
    if |body| >= 4 && Decode(body[4..]).Some? { DecodesWithinRatio(body[4..]); }
  }

  // ----- The ratio is the least ---------------------------------------------------------

  /** One literal, a match of 19 + 255 * e bytes at offset 1, and twelve literals. */
  function Dense(e: nat): bytes
  {
    [31, 0, 1, 0] + Run(e) + ([0, 192] + Zeros())
  }

  function Run(e: nat): bytes { seq(e, _ => 255) }

  function Zeros(): bytes { seq(12, _ => 0) }

  lemma {:induction false} ReadRun(length: nat, e: nat, rest: bytes)
    ensures ReadMore(length, Run(e) + ([0] + rest)) == Some((length + 255 * e, rest))
    decreases e
  {
    var s := Run(e) + ([0] + rest);
    if e == 0 {
      assert s == [0] + rest && s[1..] == rest;
    } else {
      ReadRun(length + 255, e - 1, rest);
      assert s[1..] == Run(e - 1) + ([0] + rest);
    }
  }

  lemma DenseDecodes(e: nat)
    ensures ValidBlock(Dense(e)) && |Decode(Dense(e)).value.output| == 255 * e + 32 && |Dense(e)| == e + 18
  {
    var s, tail := Dense(e), [192] + Zeros();
    assert s[1..][1..] == [1, 0] + Run(e) + ([0, 192] + Zeros());
    assert [0, 192] + Zeros() == [0] + tail;
    assert s[1..][1..][2..] == Run(e) + ([0] + tail);
    ReadRun(15, e, tail);
    var output := CopyMatch([0], 1, 4 + (15 + 255 * e));
    assert [] + s[1..][..1] == [0];
    assert Decode(s) == Sequences(tail, output, Some(1));
    assert tail[1..] == Zeros() && tail[1..][12..] == [] && |tail[1..][..12]| == 12;
    assert Sequences(tail, output, Some(1)) == Some(Decoded(output + Zeros()[..12], 12, Some(1)));
  }

  /** No smaller ratio would do: for each there are valid blocks that decode to more. */
  lemma RatioIsLeast(ratio: nat)
    requires ratio < MAX_RATIO
    ensures exists block: bytes :: ValidBlock(block) && |Decode(block).value.output| > ratio * |block|
  {
    var e := 4541;
    DenseDecodes(e);
    assert ratio * |Dense(e)| <= 254 * |Dense(e)|;
  }
}
