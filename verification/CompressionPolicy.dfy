/** The choice of codec for one channel (`Policy` in src/compression.rs): writes accumulate into
    samples, and each sample's rate may move the codec, with hysteresis. Rates are exact. */
module CompressionPolicy {

  const MIN_SAMPLE_BYTES: nat := 65536
  const SAMPLE_BYTES: nat := 4_194_304
  const SAMPLE_TIME: nat := 100_000_000           // nanoseconds
  const USIZE_MAX: nat := 0xFFFF_FFFF_FFFF_FFFF
  const DURATION_MAX: nat := 0xFFFF_FFFF_FFFF_FFFF * 1_000_000_000 + 999_999_999

  datatype Mode = Lz4 | Zstd1 | Zstd3

  /** A write, or several taken together: bytes and nanoseconds. */
  datatype Write = Write(bytes: nat, elapsed: nat)

  datatype State = State(mode: Mode, legacy: bool, bytes: nat, elapsed: nat)

  function Initial(legacy: bool): State { State(if legacy then Zstd1 else Lz4, legacy, 0, 0) }

  function SaturatingAdd(a: nat, b: nat, max: nat): nat { if a + b > max then max else a + b }

  /** MiB per second. */
  function Rate(w: Write): real
    requires w.elapsed > 0
  {
    w.bytes as real / (w.elapsed as real / 1_000_000_000.0) / 1_048_576.0
  }

  predicate Decisive(w: Write)
  {
    !(w.bytes < MIN_SAMPLE_BYTES || (w.bytes < SAMPLE_BYTES && w.elapsed < SAMPLE_TIME))
  }

  function NextMode(mode: Mode, rate: real): Mode
  {
    if rate < 6.0 then Zstd3
    else if rate > 200.0 then Lz4
    else if mode == Lz4 && rate < 150.0 then Zstd1
    else if mode == Zstd3 && rate > 10.0 then Zstd1
    else mode
  }

  predicate Ignored(s: State, w: Write) { s.legacy || w.elapsed == 0 }

  function Accumulated(s: State, w: Write): Write
  {
    Write(SaturatingAdd(s.bytes, w.bytes, USIZE_MAX), SaturatingAdd(s.elapsed, w.elapsed, DURATION_MAX))
  }

  function Observe(s: State, w: Write): State
  {
    if Ignored(s, w) then s
    else
      var sample := Accumulated(s, w);
      if !Decisive(sample) then s.(bytes := sample.bytes, elapsed := sample.elapsed)
      else s.(mode := NextMode(s.mode, Rate(sample)), bytes := 0, elapsed := 0)
  }

  class Policy {
    var mode: Mode
    const legacy: bool
    var bytes: nat
    var elapsed: nat

    ghost function Abstract(): State
      reads this
    {
      State(mode, legacy, bytes, elapsed)
    }

    constructor (legacy: bool)
      ensures Abstract() == Initial(legacy)
    {
      this.legacy := legacy;
      mode := if legacy then Zstd1 else Lz4;
      bytes, elapsed := 0, 0;
    }

    /** `Policy::observe`: says whether the codec changed. */
    method ObserveWrite(written: nat, took: nat) returns (changed: bool)
      modifies this
      ensures Abstract() == Observe(old(Abstract()), Write(written, took))
      ensures changed <==> mode != old(mode)
    {
      if legacy || took == 0 { return false; }
      bytes := SaturatingAdd(bytes, written, USIZE_MAX);
      elapsed := SaturatingAdd(elapsed, took, DURATION_MAX);
      if bytes < MIN_SAMPLE_BYTES || (bytes < SAMPLE_BYTES && elapsed < SAMPLE_TIME) { return false; }
      var rate := bytes as real / (elapsed as real / 1_000_000_000.0) / 1_048_576.0;
      bytes, elapsed := 0, 0;
      var next := if rate < 6.0 then Zstd3
                  else if rate > 200.0 then Lz4
                  else if mode == Lz4 && rate < 150.0 then Zstd1
                  else if mode == Zstd3 && rate > 10.0 then Zstd1
                  else mode;
      changed := next != mode;
      mode := next;
    }
  }

  // ----- Runs ---------------------------------------------------------------------------

  function After(s: State, writes: seq<Write>): State
    decreases |writes|
  {
    if writes == [] then s else After(Observe(s, writes[0]), writes[1..])
  }

  /** How often the codec changes. */
  function Changes(s: State, writes: seq<Write>): nat
    decreases |writes|
  {
    if writes == [] then 0
    else (if Observe(s, writes[0]).mode != s.mode then 1 else 0) + Changes(Observe(s, writes[0]), writes[1..])
  }

  /** The sample that the first write completes, if it completes one. */
  function Completed(s: State, w: Write): seq<Write>
  {
    if !Ignored(s, w) && Decisive(Accumulated(s, w)) then [Accumulated(s, w)] else []
  }

  /** The samples that decided, in order. */
  function Samples(s: State, writes: seq<Write>): seq<Write>
    decreases |writes|
  {
    if writes == [] then [] else Completed(s, writes[0]) + Samples(Observe(s, writes[0]), writes[1..])
  }

  /** A decisive sample is large enough, and large or long enough to be a rate. */
  lemma {:induction false} SamplesAreDecisive(s: State, writes: seq<Write>)
    ensures forall i | 0 <= i < |Samples(s, writes)| ::
              Decisive(Samples(s, writes)[i]) && Samples(s, writes)[i].elapsed > 0
    decreases |writes|
  {
    if writes != [] { SamplesAreDecisive(Observe(s, writes[0]), writes[1..]); }
  }

  predicate Extreme(sample: Write) { sample.elapsed > 0 && (Rate(sample) < 6.0 || Rate(sample) > 200.0) }

  function Extremes(samples: seq<Write>): nat
  {
    if samples == [] then 0 else (if Extreme(samples[0]) then 1 else 0) + Extremes(samples[1..])
  }

  /** Only level-1 zstd is where a rate between the extremes leads, once. */
  function Unsettled(mode: Mode): nat { if mode == Zstd1 then 0 else 1 }

  /** Hysteresis bounds the codec's changes over any run: at most one, plus two for every sample
      below 6 or above 200. */
  lemma {:induction false} ChangesBounded(s: State, writes: seq<Write>)
    ensures Changes(s, writes) + Unsettled(After(s, writes).mode)
         <= Unsettled(s.mode) + 2 * Extremes(Samples(s, writes))
    decreases |writes|
  {
    if writes != [] {
      var s', rest := Observe(s, writes[0]), Samples(Observe(s, writes[0]), writes[1..]);
      ChangesBounded(s', writes[1..]);
      if Completed(s, writes[0]) != [] {
        assert (Completed(s, writes[0]) + rest)[1..] == rest;
      } else {
        assert [] + rest == rest;
      }
    }
  }

  lemma {:induction false} NoExtremes(samples: seq<Write>)
    ensures Extremes(samples) == 0 <==> forall i | 0 <= i < |samples| :: !Extreme(samples[i])
  {
    if samples != [] {
      NoExtremes(samples[1..]);
      assert samples == [samples[0]] + samples[1..];
    }
  }

  /** On a channel whose samples all lie from 6 to 200 MiB/s the codec changes at most once, and
      level-1 zstd is never left. */
  lemma ModerateRunSettles(s: State, writes: seq<Write>)
    requires forall i | 0 <= i < |Samples(s, writes)| :: !Extreme(Samples(s, writes)[i])
    ensures Changes(s, writes) <= 1
    ensures s.mode == Zstd1 ==> Changes(s, writes) == 0 && After(s, writes).mode == Zstd1
    ensures Changes(s, writes) == 1 ==> After(s, writes).mode == Zstd1
  {
    NoExtremes(Samples(s, writes));
    ChangesBounded(s, writes);
  }

  /** A codec is reached, or left, only on a sample of the right side of its threshold. */
  lemma {:induction false} CrossingNeedsASample(s: State, writes: seq<Write>)
    ensures s.mode != Lz4 && After(s, writes).mode == Lz4 ==>
              exists i | 0 <= i < |Samples(s, writes)| ::
                Samples(s, writes)[i].elapsed > 0 && Rate(Samples(s, writes)[i]) > 200.0
    ensures s.mode != Zstd3 && After(s, writes).mode == Zstd3 ==>
              exists i | 0 <= i < |Samples(s, writes)| ::
                Samples(s, writes)[i].elapsed > 0 && Rate(Samples(s, writes)[i]) < 6.0
    ensures s.mode == Lz4 && After(s, writes).mode != Lz4 ==>
              exists i | 0 <= i < |Samples(s, writes)| ::
                Samples(s, writes)[i].elapsed > 0 && Rate(Samples(s, writes)[i]) < 150.0
    ensures s.mode == Zstd3 && After(s, writes).mode != Zstd3 ==>
              exists i | 0 <= i < |Samples(s, writes)| ::
                Samples(s, writes)[i].elapsed > 0 && Rate(Samples(s, writes)[i]) > 10.0
    decreases |writes|
  {
    if writes != [] {
      var s', first := Observe(s, writes[0]), Completed(s, writes[0]);
      CrossingNeedsASample(s', writes[1..]);
      var rest, all := Samples(s', writes[1..]), Samples(s, writes);
      assert forall i | 0 <= i < |rest| :: rest[i] == all[i + |first|];
      if first != [] { assert all[0] == first[0] && Observe(s, writes[0]).mode == NextMode(s.mode, Rate(first[0])); }
    }
  }

  /** Legacy channels always use level-1 zstd. */
  lemma {:induction false} LegacyNeverChanges(s: State, writes: seq<Write>)
    requires s.legacy
    ensures After(s, writes) == s && Changes(s, writes) == 0 && Samples(s, writes) == []
  {
    if writes != [] { LegacyNeverChanges(s, writes[1..]); }
  }

  function TotalBytes(writes: seq<Write>): nat
  {
    if writes == [] then 0 else writes[0].bytes + TotalBytes(writes[1..])
  }

  function TimedBytes(writes: seq<Write>): nat
  {
    if writes == [] then 0
    else (if writes[0].elapsed == 0 then 0 else writes[0].bytes) + TimedBytes(writes[1..])
  }

  /** No written byte is counted twice or lost: every timed byte is in one sample or still pending. */
  lemma {:induction false} BytesConserved(s: State, writes: seq<Write>)
    requires !s.legacy && s.bytes + TimedBytes(writes) <= USIZE_MAX
    ensures s.bytes + TimedBytes(writes) == TotalBytes(Samples(s, writes)) + After(s, writes).bytes
    decreases |writes|
  {
    if writes != [] {
      var s', first := Observe(s, writes[0]), Completed(s, writes[0]);
      BytesConserved(s', writes[1..]);
      var rest := Samples(s', writes[1..]);
      assert (first + rest)[|first|..] == rest;
      if first == [] { assert first + rest == rest; }
    }
  }
}
