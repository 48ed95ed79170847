/** The shared bandwidth pacer (`BandwidthLimit` in src/bwlimit.rs). Workers reserve, one after
    another under a mutex, the next free interval of a virtual clock; the times they bring need not be
    in order. Times are exact reals. */
module BandwidthPacer {
  import opened ByteStrings

  /** One call in lock order: the caller's time and the bytes it will send. */
  datatype Reservation = Reservation(now: real, bytes: nat)

  function Max(a: real, b: real): real { if a < b then b else a }

  /** The time `bytes` take at `rate`. */
  function Duration(rate: nat, bytes: nat): real
    requires rate > 0
  {
    bytes as real / rate as real
  }

  lemma DurationAdds(rate: nat, a: nat, b: nat)
    requires rate > 0
    ensures Duration(rate, a + b) == Duration(rate, a) + Duration(rate, b)
    ensures Duration(rate, a) >= 0.0 && rate as real * Duration(rate, a) == a as real
  {
  }

  /** When the n-th reservation starts. */
  function Start(rate: nat, history: seq<Reservation>, n: nat): real
    requires rate > 0 && n < |history|
  {
    if n == 0 then history[0].now
    else Max(Start(rate, history, n - 1) + Duration(rate, history[n - 1].bytes), history[n].now)
  }

  /** When the n-th reservation ends, which is when a prepaid one is admitted. */
  function End(rate: nat, history: seq<Reservation>, n: nat): real
    requires rate > 0 && n < |history|
  {
    Start(rate, history, n) + Duration(rate, history[n].bytes)
  }

  lemma {:induction false} StartOfPrefix(rate: nat, history: seq<Reservation>, more: seq<Reservation>, n: nat)
    requires rate > 0 && n < |history|
    ensures Start(rate, history + more, n) == Start(rate, history, n)
  {
    if n > 0 { StartOfPrefix(rate, history, more, n - 1); }
  }

  // ----- The limiter --------------------------------------------------------------------

  class BandwidthLimit {
    const bytesPerSec: nat
    var next: Option<real>
    ghost var history: seq<Reservation>

    ghost predicate Valid()
      reads this
    {
      && bytesPerSec > 0
      && next == if history == [] then None else Some(End(bytesPerSec, history, |history| - 1))
    }

    constructor (bytesPerSec: nat)
      requires bytesPerSec > 0
      ensures Valid() && history == [] && this.bytesPerSec == bytesPerSec
    {
      this.bytesPerSec, next, history := bytesPerSec, None, [];
    }

    method ReserveAt(now: real, bytes: nat) returns (at: real)
      requires Valid()
      modifies this
      ensures Valid() && history == old(history) + [Reservation(now, bytes)]
      ensures at == Start(bytesPerSec, history, |history| - 1)
    {
      ghost var before := history;
      var duration := bytes as real / bytesPerSec as real;
      at := if next.None? then now else Max(next.value, now);
      next := Some(at + duration);
      history := history + [Reservation(now, bytes)];
      if before != [] { StartOfPrefix(bytesPerSec, before, [Reservation(now, bytes)], |before| - 1); }
    }

    method ReservePrepaidAt(now: real, bytes: nat) returns (at: real)
      requires Valid()
      modifies this
      ensures Valid() && history == old(history) + [Reservation(now, bytes)]
      ensures at == End(bytesPerSec, history, |history| - 1)
    {
      at := ReserveAt(now, bytes);
      at := at + bytes as real / bytesPerSec as real;
    }
  }

  // ----- The n-th start -----------------------------------------------------------------

  /** Bytes of reservations `from` up to but not including `to`. */
  function Bytes(history: seq<Reservation>, from: nat, to: nat): nat
    requires from <= to <= |history|
  {
    if from == to then 0 else Bytes(history, from, to - 1) + history[to - 1].bytes
  }

  /** The n-th start is the earliest fair one: the latest, over all earlier callers, of the caller's
      time plus the time that everyone from that caller on has reserved since. */
  lemma {:induction false} StartIsLatestBacklog(rate: nat, history: seq<Reservation>, n: nat)
    requires rate > 0 && n < |history|
    ensures forall k | 0 <= k <= n ::
              history[k].now + Duration(rate, Bytes(history, k, n)) <= Start(rate, history, n)
    ensures exists k | 0 <= k <= n ::
              history[k].now + Duration(rate, Bytes(history, k, n)) == Start(rate, history, n)
  {
    assert Duration(rate, Bytes(history, n, n)) == 0.0;
    if n > 0 {
      StartIsLatestBacklog(rate, history, n - 1);
      forall k | 0 <= k < n
        ensures Duration(rate, Bytes(history, k, n))
             == Duration(rate, Bytes(history, k, n - 1)) + Duration(rate, history[n - 1].bytes)
      {
        DurationAdds(rate, Bytes(history, k, n - 1), history[n - 1].bytes);
      }
      if Start(rate, history, n) != history[n].now {
        var k :|
          0 <= k <= n - 1 && history[k].now + Duration(rate, Bytes(history, k, n - 1)) == Start(rate, history, n - 1);
        assert history[k].now + Duration(rate, Bytes(history, k, n)) == Start(rate, history, n);
      } else {
        assert history[n].now + Duration(rate, Bytes(history, n, n)) == Start(rate, history, n);
      }
    }
  }

  /** Reservations never overlap: what was reserved before a start has gone by at that start. */
  lemma {:induction false} StartsAreSpaced(rate: nat, history: seq<Reservation>, i: nat, j: nat)
    requires rate > 0 && i <= j < |history|
    ensures Start(rate, history, i) + Duration(rate, Bytes(history, i, j)) <= Start(rate, history, j)
  {
    if i == j {
      assert Duration(rate, Bytes(history, i, j)) == 0.0;
    } else {
      StartsAreSpaced(rate, history, i, j - 1);
      DurationAdds(rate, Bytes(history, i, j - 1), history[j - 1].bytes);
    }
  }

  // ----- Windows ------------------------------------------------------------------------

  predicate StartsIn(rate: nat, history: seq<Reservation>, n: nat, from: real, to: real)
    requires rate > 0 && n < |history|
  {
    from <= Start(rate, history, n) <= to
  }

  /** The bytes of the first `n` reservations that start in a window. */
  function StartedIn(rate: nat, history: seq<Reservation>, n: nat, from: real, to: real): nat
    requires rate > 0 && n <= |history|
  {
    if n == 0 then 0
    else StartedIn(rate, history, n - 1, from, to)
         + if StartsIn(rate, history, n - 1, from, to) then history[n - 1].bytes else 0
  }

  /** Finds the last reservation that starts in the window, and bounds the ones before it. */
  lemma {:induction false} LastInWindow(rate: nat, history: seq<Reservation>, n: nat, from: real, to: real)
    returns (last: Option<nat>)
    requires rate > 0 && n <= |history|
    ensures last.None? ==> StartedIn(rate, history, n, from, to) == 0
                           && forall k | 0 <= k < n :: !StartsIn(rate, history, k, from, to)
    ensures last.Some? ==>
              && last.value < n && StartsIn(rate, history, last.value, from, to)
              && (forall k | last.value < k < n :: !StartsIn(rate, history, k, from, to))
              && Duration(rate, StartedIn(rate, history, n, from, to))
                 <= Start(rate, history, last.value) - from + Duration(rate, history[last.value].bytes)
  {
    if n == 0 { return None; }
    last := LastInWindow(rate, history, n - 1, from, to);
    if StartsIn(rate, history, n - 1, from, to) {
      var sum := StartedIn(rate, history, n - 1, from, to);
      DurationAdds(rate, sum, history[n - 1].bytes);
      if last.Some? {
        var j := last.value;
        StartsAreSpaced(rate, history, j, n - 1);
        BytesAtLeast(rate, history, j, n - 1);
      } else {
        assert Duration(rate, sum) == 0.0;
      }
      last := Some(n - 1);
    }
  }

  lemma {:induction false} BytesAtLeast(rate: nat, history: seq<Reservation>, i: nat, j: nat)
    requires rate > 0 && i < j <= |history|
    ensures Duration(rate, Bytes(history, i, j)) >= Duration(rate, history[i].bytes)
  {
    DurationAdds(rate, Bytes(history, i, j - 1), history[j - 1].bytes);
    if i + 1 < j {
      BytesAtLeast(rate, history, i, j - 1);
    } else {
      assert Bytes(history, i, j) == history[i].bytes;
    }
  }

  lemma Scale(rate: nat, bytes: nat, time: real, extra: nat)
    requires rate > 0 && Duration(rate, bytes) <= time + Duration(rate, extra)
    ensures bytes as real <= rate as real * time + extra as real
  {
    DurationAdds(rate, bytes, 0);
    DurationAdds(rate, extra, 0);
    var r := rate as real;
    assert r * Duration(rate, bytes) <= r * (time + Duration(rate, extra));
    assert r * (time + Duration(rate, extra)) == r * time + r * Duration(rate, extra);
  }

  /** The bytes that start in any window are at most the rate times its length, plus the request
      that starts last in it. */
  lemma WindowBound(rate: nat, history: seq<Reservation>, from: real, to: real) returns (last: Option<nat>)
    requires rate > 0 && from <= to
    ensures last.None? ==> StartedIn(rate, history, |history|, from, to) == 0
    ensures last.Some? ==>
              && last.value < |history| && StartsIn(rate, history, last.value, from, to)
              && (forall k | last.value < k < |history| :: !StartsIn(rate, history, k, from, to))
              && StartedIn(rate, history, |history|, from, to) as real
                 <= rate as real * (to - from) + history[last.value].bytes as real
  {
    last := LastInWindow(rate, history, |history|, from, to);
    if last.Some? {
      var sum, extra := StartedIn(rate, history, |history|, from, to), history[last.value].bytes;
      ScaleWindow(rate, sum, Start(rate, history, last.value), from, to, extra);
    }
  }

  lemma ScaleWindow(rate: nat, sum: nat, start: real, from: real, to: real, extra: nat)
    requires rate > 0 && start <= to && Duration(rate, sum) <= start - from + Duration(rate, extra)
    ensures sum as real <= rate as real * (to - from) + extra as real
  {
    Scale(rate, sum, to - from, extra);
  }

  // ----- Prepaid requests ---------------------------------------------------------------

  /** The bytes of the first `n` reservations that are paid for by time `t`. */
  function AdmittedBy(rate: nat, history: seq<Reservation>, n: nat, t: real): nat
    requires rate > 0 && n <= |history|
  {
    if n == 0 then 0
    else AdmittedBy(rate, history, n - 1, t) + if End(rate, history, n - 1) <= t then history[n - 1].bytes else 0
  }

  lemma {:induction false} AdmittedAtMostReserved(rate: nat, history: seq<Reservation>, n: nat, t: real)
    requires rate > 0 && n <= |history|
    ensures AdmittedBy(rate, history, n, t) <= Bytes(history, 0, n)
    ensures n > 0 && AdmittedBy(rate, history, n, t) > 0 ==>
              Duration(rate, AdmittedBy(rate, history, n, t)) <= t - Start(rate, history, 0)
  {
    if n > 0 {
      AdmittedAtMostReserved(rate, history, n - 1, t);
      if End(rate, history, n - 1) <= t {
        StartsAreSpaced(rate, history, 0, n - 1);
        var admitted, reserved := AdmittedBy(rate, history, n, t), Bytes(history, 0, n);
        DurationAdds(rate, Bytes(history, 0, n - 1), history[n - 1].bytes);
        DurationAdds(rate, admitted, reserved - admitted);
        DurationAdds(rate, reserved - admitted, 0);
      }
    }
  }

  /** Prepaid requests admitted by time `t` hold at most the rate times the time since the first
      start: not even the first request is free. */
  lemma PrepaidBound(rate: nat, history: seq<Reservation>, t: real)
    requires rate > 0 && history != []
    ensures AdmittedBy(rate, history, |history|, t) == 0
         || AdmittedBy(rate, history, |history|, t) as real <= rate as real * (t - Start(rate, history, 0))
  {
    AdmittedAtMostReserved(rate, history, |history|, t);
    var admitted := AdmittedBy(rate, history, |history|, t);
    if admitted > 0 {
      assert Duration(rate, 0) == 0.0;
      Scale(rate, admitted, t - Start(rate, history, 0), 0);
    }
  }
}
