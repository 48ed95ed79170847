/** The clock and the replay store together (`verify_and_redeem` in src/delegation.rs): which
    directives a store has recorded, at what times, and with what answer to the caller. */
module DirectiveRedemption {
  import opened ByteStrings
  import opened ReplayRecord
  import opened ReplayProtocol
  import Clock = ReceiverClock

  // ----- Recorded times -----------------------------------------------------------------

  /** What a call validates under the lock, and when. */
  datatype Observation = Observation(ctx: Clock.Context, directive: Clock.Directive, at: Clock.Instant)

  /** Every call stamps with the time that its directive's validation under the lock returns. */
  ghost predicate StampsAreValidations(steps: seq<Step>, observed: map<Pid, Observation>)
  {
    forall step: Step | step in steps && step.Act? && step.event.Stamp? ::
      && step.pid in observed
      && var o := observed[step.pid];
         Clock.ValidateAt(o.ctx, o.directive, o.at) == Ok(step.event.now)
  }

  /** In every state of every run, each record that a final name is or may become bound to was
      written by a call for its own directive, while the directive was bound to the receiver and in
      its window, with the latest time it could then have been. */
  lemma RecordedInWindow(
    states: seq<State>, steps: seq<Step>, i: nat, name: Name, file: Inode, observed: map<Pid, Observation>)
    returns (p: Pid)
    requires Run(states, steps) && i < |states| && StampsAreValidations(steps, observed)
    requires name.Final? && Some(file) in Possible(states[i].disk, name)
    ensures Wrote(states[i], p, name, file) && p in observed
    ensures var o := observed[p];
            && Clock.ValidateAt(o.ctx, o.directive, o.at) == Ok(states[i].calls[p].temp.value.at)
            && Clock.Bound(o.ctx, o.directive)
            && Clock.Opens(o.ctx, o.directive) <= o.at <= Clock.Closes(o.ctx, o.directive)
  {
    p := EveryEntryIsARecord(states, steps, i, name, file);
    var stamp := Act(p, Stamp(states[i].calls[p].temp.value.at));
    assert stamp in steps;
    Clock.ValidExactlyInWindow(observed[p].ctx, observed[p].directive, observed[p].at);
  }

  // ----- Answers ------------------------------------------------------------------------

  /** At step `i` call `p` returns. */
  ghost predicate ReturnsAt(states: seq<State>, steps: seq<Step>, i: nat, p: Pid)
    requires i < |steps| < |states|
  {
    && p in states[i].calls && !Finished(states[i].calls[p])
    && p in states[i + 1].calls && states[i + 1].calls[p].pc.Returned?
  }

  /** What the store made of a call that returns at step `i`. */
  ghost function StoreOf(states: seq<State>, steps: seq<Step>, i: nat, p: Pid): Clock.Store
    requires i < |steps| < |states| && p in states[i + 1].calls
  {
    if states[i + 1].calls[p].pc == Returned(Redeemed) then Clock.Stored
    else if exists k: nat :: k < i && LinkedAt(states, steps, k, p) then Clock.FailedAfterLink
    else Clock.FailedBeforeLink
  }

  /** A machine crash leaves no call running. */
  lemma CrashEnds(states: seq<State>, steps: seq<Step>, j: nat, i: nat, p: Pid)
    requires Run(states, steps) && j < i < |states| && steps[j].Crash? && p in states[j].calls
    ensures p in states[i].calls && Finished(states[i].calls[p])
  {
    FinishedStays(states, steps, j + 1, i, p);
  }

  lemma NoCrashWhileRunning(states: seq<State>, steps: seq<Step>, k: nat, i: nat, p: Pid)
    requires Run(states, steps) && k < i < |steps| && LinkedAt(states, steps, k, p) && ReturnsAt(states, steps, i, p)
    ensures NameSurvives(steps, k, i + 1, Final(states[i + 1].calls[p].request))
  {
    forall j | k < j < i + 1
      ensures !steps[j].Crash?
    {
      CallsStay(states, steps, k + 1, j, p);
      if j < i && steps[j].Crash? { CrashEnds(states, steps, j, i, p); }
    }
  }

  /** A call that returns has left its record exactly when the store reports success, or failed
      after its link. */
  lemma RecordedExactlyAs(states: seq<State>, steps: seq<Step>, i: nat, p: Pid)
    requires Run(states, steps) && i < |steps| && ReturnsAt(states, steps, i, p)
    ensures LeftRecord(states[i + 1], p) <==> !StoreOf(states, steps, i, p).FailedBeforeLink?
  {
    RunKeepsInv(states, steps, i + 1);
    var s := states[i + 1];
    assert CallKnows(s.disk, s.calls[p]);
    assert Binding(s.disk, Final(s.calls[p].request)) in Possible(s.disk, Final(s.calls[p].request));
    LeavesRecordExactly(states, steps, i + 1, p);
    forall k: nat | k < i && LinkedAt(states, steps, k, p)
      ensures NameSurvives(steps, k, i + 1, Final(s.calls[p].request))
    {
      NoCrashWhileRunning(states, steps, k, i, p);
    }
  }

  /** For an attempt whose call reached the store: it is refused, and its directive recorded, exactly
      when the call failed after its link, or succeeded and the last observation came late. */
  lemma RefusedWithRecordExactly(
    states: seq<State>, steps: seq<Step>, i: nat, p: Pid, ctx: Clock.Context, d: Clock.Directive, a: Clock.Attempt)
    requires Run(states, steps) && i < |steps| && ReturnsAt(states, steps, i, p)
    requires a.store == StoreOf(states, steps, i, p) && Clock.BeforeRecording(ctx, d, a).Ok?
    requires a.first <= a.underLock <= a.verified && d.startBy <= d.finishBy && Timestamp(d.finishBy)
    ensures Clock.VerifyAndRedeem(ctx, d, a).recorded.Some? <==> LeftRecord(states[i + 1], p)
    ensures Clock.VerifyAndRedeem(ctx, d, a).result.Err? && LeftRecord(states[i + 1], p) <==>
            if states[i + 1].calls[p].pc == Returned(Redeemed) then Clock.Late(ctx, d, a.verified)
            else exists k: nat :: k < i && LinkedAt(states, steps, k, p)
  {
    RecordedExactlyAs(states, steps, i, p);
    Clock.RecordedButRefused(ctx, d, a);
    Clock.SuccessWasValidThroughout(ctx, d, a, a.verified);
  }

  /** A store that fails after its link: a run in which a call returns a failure and its request is
      recorded. */
  lemma FailedAfterLinkHappens(request: RequestId, digest: Digest, at: int, nonce: Nonce)
    returns (states: seq<State>, steps: seq<Step>)
    requires ValidRequest(request) && Timestamp(at)
    ensures Run(states, steps) && LeftRecord(states[|steps|], 0)
    ensures states[|steps|].calls[0].pc == Returned(Failed) && states[|steps|].calls[0].request == request
  {
    var s := State(true, Disk(map[], map[], map[], {}), map[]);
    states, steps := RestingStoreCanFailRecorded(s, 0, request, digest, at, nonce, 0);
  }
}
