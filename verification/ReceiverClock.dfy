/** The receiver's clock (`ReceiverContext`, `execution_deadline` and `verify_and_redeem` in
    src/delegation.rs): a wall clock read once in whole seconds, carried forward by a monotonic
    clock, and the times a directive may be used. Instants count nanoseconds. */
module ReceiverClock {
  import opened ByteStrings
  import opened ReplayRecord

  const NS: int := 1_000_000_000
  const MAX_CLOCK_SKEW_SECS: int := 300
  const I64_MAX: int := 0x7FFF_FFFF_FFFF_FFFF

  type i64 = x: int | -0x8000_0000_0000_0000 <= x <= 0x7FFF_FFFF_FFFF_FFFF
  type Instant = int

  datatype Refusal =
    | ClockWentBack | DurationRange | TimeOverflow | BadIdentity | ClockRange | SkewRange
    | OtherBuild | OtherEnrollment | OtherGeneration | OtherAccount
    | IssuedInFuture | NotYetValid | StartByPassed | FinishByPassed
    | Undecodable | AlreadyUsed | BadSignature | Underivable | StoreFailed

  datatype Directive = Directive(
    build: string, enrollment: bytes, generation: nat, account: string,
    issuedAt: i64, notBefore: i64, startBy: i64, finishBy: i64)

  /** `identityValid` stands for the checks of the receiver's own enrollment ID and account name. */
  datatype Context = Context(
    build: string, enrollment: bytes, generation: nat, login: string, identityValid: bool,
    unixSeconds: i64, monotonic: Instant, skew: i64)

  function CheckedAdd(a: i64, b: i64): Option<i64>
  {
    if -0x8000_0000_0000_0000 <= a + b <= I64_MAX then Some(a + b) else None
  }

  function Max(a: int, b: int): int { if a < b then b else a }

  function Min(a: int, b: int): int { if a < b then a else b }

  function WallTimeBounds(ctx: Context, t: Instant): Result<(i64, i64), Refusal>
  {
    var elapsed := t - ctx.monotonic;
    if elapsed < 0 then Err(ClockWentBack)
    else if elapsed / NS > I64_MAX then Err(DurationRange)
    else
      var ceiling := elapsed / NS + if elapsed % NS != 0 then 1 else 0;
      if ceiling > I64_MAX then Err(DurationRange)
      else match (CheckedAdd(ctx.unixSeconds, elapsed / NS), CheckedAdd(ctx.unixSeconds, ceiling))
        case (Some(earliest), Some(latest)) => Ok((earliest, latest))
        case _ => Err(TimeOverflow)
  }

  /** Returns the latest the time can be now. */
  function ValidateAt(ctx: Context, d: Directive, t: Instant): Result<i64, Refusal>
  {
    match WallTimeBounds(ctx, t)
    case Err(refusal) => Err(refusal)
    case Ok((earliest, latest)) =>
      if !ctx.identityValid then Err(BadIdentity)
      else if !Timestamp(earliest) || !Timestamp(latest) then Err(ClockRange)
      else if !(0 <= ctx.skew <= MAX_CLOCK_SKEW_SECS) then Err(SkewRange)
      else if d.build != ctx.build then Err(OtherBuild)
      else if d.enrollment != ctx.enrollment then Err(OtherEnrollment)
      else if d.generation != ctx.generation then Err(OtherGeneration)
      else if d.account != ctx.login then Err(OtherAccount)
      else if d.issuedAt > earliest + ctx.skew then Err(IssuedInFuture)
      else if earliest + ctx.skew < d.notBefore then Err(NotYetValid)
      else if latest - ctx.skew > d.startBy then Err(StartByPassed)
      else Ok(latest)
  }

  function ExecutionDeadline(finishBy: i64, skew: i64, now: i64, verifiedAt: Instant): Result<Instant, Refusal>
  {
    match CheckedAdd(finishBy, skew)
    case None => Err(TimeOverflow)
    case Some(limit) =>
      var remaining := limit - now;
      if remaining < -0x8000_0000_0000_0000 || remaining > I64_MAX then Err(TimeOverflow)
      else if remaining <= 0 then Err(FinishByPassed)
      else Ok(verifiedAt + remaining * NS)
  }

  // ----- What the receiver can know -----------------------------------------------------

  /** The wall clock showed `trueNanos` when it was read as `unixSeconds`. */
  predicate Consistent(ctx: Context, trueNanos: int) { trueNanos / NS == ctx.unixSeconds }

  /** The whole second the wall clock would show at `t`. */
  function TrueSecond(ctx: Context, trueNanos: int, t: Instant): int
  {
    (trueNanos + (t - ctx.monotonic)) / NS
  }

  lemma CarryBounds(a: int, b: int)
    ensures a / NS + b / NS <= (a + b) / NS
    ensures (a + b) / NS <= a / NS + b / NS + if b % NS != 0 then 1 else 0
  {
    assert a == NS * (a / NS) + a % NS && b == NS * (b / NS) + b % NS;
    assert a + b == NS * (a / NS + b / NS) + (a % NS + b % NS);
  }

  /** The two bounds enclose the true time, and each is the true time for some reading of the clock
      within the second that was read: they cannot be narrowed. */
  lemma BoundsAreExact(ctx: Context, t: Instant, earliest: i64, latest: i64)
    requires WallTimeBounds(ctx, t) == Ok((earliest, latest))
    ensures forall w: int | Consistent(ctx, w) :: earliest <= TrueSecond(ctx, w, t) <= latest
    ensures exists w: int :: Consistent(ctx, w) && TrueSecond(ctx, w, t) == earliest
    ensures exists w: int :: Consistent(ctx, w) && TrueSecond(ctx, w, t) == latest
  {
    var elapsed := t - ctx.monotonic;
    forall w: int | Consistent(ctx, w)
      ensures earliest <= TrueSecond(ctx, w, t) <= latest
    {
      CarryBounds(w, elapsed);
    }
    var first, last := ctx.unixSeconds * NS, ctx.unixSeconds * NS + NS - 1;
    assert first + elapsed == NS * (ctx.unixSeconds + elapsed / NS) + elapsed % NS;
    assert Consistent(ctx, first) && TrueSecond(ctx, first, t) == earliest;
    assert Consistent(ctx, last);
    if elapsed % NS == 0 {
      assert last + elapsed == NS * (ctx.unixSeconds + elapsed / NS) + (NS - 1);
    } else {
      assert last + elapsed == NS * (ctx.unixSeconds + elapsed / NS + 1) + (elapsed % NS - 1);
    }
    assert TrueSecond(ctx, last, t) == latest;
  }

  /** The checks that do not depend on the time. */
  predicate Bound(ctx: Context, d: Directive)
  {
    && ctx.identityValid && 0 <= ctx.skew <= MAX_CLOCK_SKEW_SECS
    && d.build == ctx.build && d.enrollment == ctx.enrollment
    && d.generation == ctx.generation && d.account == ctx.login
  }

  /** The receiver would use the directive if it knew that the time was `now`. */
  predicate AcceptableAt(ctx: Context, d: Directive, now: int)
  {
    Timestamp(now) && Max(d.issuedAt, d.notBefore) - ctx.skew <= now <= d.startBy + ctx.skew
  }

  /** A directive validates exactly when it is bound to this receiver and acceptable at every time
      that the observation leaves possible: no favourable fraction of a second is assumed. */
  lemma ValidExactlyWhenEveryTimeIs(ctx: Context, d: Directive, t: Instant)
    requires WallTimeBounds(ctx, t).Ok?
    ensures ValidateAt(ctx, d, t).Ok?
       <==> Bound(ctx, d) && forall w: int | Consistent(ctx, w) :: AcceptableAt(ctx, d, TrueSecond(ctx, w, t))
  {
    var (earliest, latest) := WallTimeBounds(ctx, t).value;
    BoundsAreExact(ctx, t, earliest, latest);
    if Bound(ctx, d) && forall w: int | Consistent(ctx, w) :: AcceptableAt(ctx, d, TrueSecond(ctx, w, t)) {
      var w :| Consistent(ctx, w) && TrueSecond(ctx, w, t) == earliest;
      var w' :| Consistent(ctx, w') && TrueSecond(ctx, w', t) == latest;
      assert AcceptableAt(ctx, d, TrueSecond(ctx, w, t)) && AcceptableAt(ctx, d, TrueSecond(ctx, w', t));
    }
  }

  // ----- The window ---------------------------------------------------------------------

  function Opens(ctx: Context, d: Directive): Instant
  {
    ctx.monotonic + Max(0, Max(0, Max(d.issuedAt, d.notBefore) - ctx.skew) - ctx.unixSeconds) * NS
  }

  function Closes(ctx: Context, d: Directive): Instant
  {
    ctx.monotonic + Min(Min(MAX_UNIX_TIMESTAMP, d.startBy + ctx.skew) - ctx.unixSeconds, I64_MAX) * NS
  }

  /** The instants at which a bound directive validates are exactly one closed interval, whose ends
      follow from the clock reading and the directive. */
  lemma ValidExactlyInWindow(ctx: Context, d: Directive, t: Instant)
    ensures ValidateAt(ctx, d, t).Ok? <==> Bound(ctx, d) && Opens(ctx, d) <= t <= Closes(ctx, d)
  {
  }

  /** The deadline falls in the last whole second of the finish-by time plus the skew, or in the
      second before it, whatever the clock's unread fraction was. */
  lemma DeadlineKeepsFinishBy(ctx: Context, d: Directive, verifiedAt: Instant, now: i64, deadline: Instant, w: int)
    requires ValidateAt(ctx, d, verifiedAt) == Ok(now) && Consistent(ctx, w)
    requires ExecutionDeadline(d.finishBy, ctx.skew, now, verifiedAt) == Ok(deadline)
    ensures deadline > verifiedAt
    ensures d.finishBy + ctx.skew - 1 <= TrueSecond(ctx, w, deadline) <= d.finishBy + ctx.skew
  {
  }

  // ----- Verifying and redeeming --------------------------------------------------------

  /** What the replay store made of the directive: recorded it, failed without a record, or failed
      after the record had been linked. */
  datatype Store = Stored | FailedBeforeLink | FailedAfterLink

  /** One attempt to use a directive: when each observation is made, and what the checks that this
      model leaves to others answer. `signs` judges the signature at a time. */
  datatype Attempt = Attempt(
    decoded: bool, first: Instant, unused: bool, signs: int -> bool, derives: bool,
    underLock: Instant, store: Store, verified: Instant)

  /** `recorded` is the time this attempt wrote into the replay store, if it did. */
  datatype Verdict = Verdict(recorded: Option<int>, result: Result<Instant, Refusal>)

  function SaturatingSub(a: i64, b: i64): i64
  {
    Max(-0x8000_0000_0000_0000, Min(I64_MAX, a - b))
  }

  /** Everything `verify_and_redeem` does before the store is asked to record the directive. */
  function BeforeRecording(ctx: Context, d: Directive, a: Attempt): Result<i64, Refusal>
  {
    if !a.decoded then Err(Undecodable)
    else match ValidateAt(ctx, d, a.first)
      case Err(refusal) => Err(refusal)
      case Ok(latest) =>
        if !a.unused then Err(AlreadyUsed)
        else if !a.signs(SaturatingSub(latest, ctx.skew)) then Err(BadSignature)
        else if !a.derives then Err(Underivable)
        else ValidateAt(ctx, d, a.underLock)
  }

  function VerifyAndRedeem(ctx: Context, d: Directive, a: Attempt): Verdict
  {
    match BeforeRecording(ctx, d, a)
    case Err(refusal) => Verdict(None, Err(refusal))
    case Ok(redeemedAt) =>
      if a.store.FailedBeforeLink? || !Timestamp(redeemedAt) then Verdict(None, Err(StoreFailed))
      else if a.store.FailedAfterLink? then Verdict(Some(redeemedAt), Err(StoreFailed))
      else match ValidateAt(ctx, d, a.verified)
        case Err(refusal) => Verdict(Some(redeemedAt), Err(refusal))
        case Ok(now) => Verdict(Some(redeemedAt), ExecutionDeadline(d.finishBy, ctx.skew, now, a.verified))
  }

  /** A success was valid at every instant from the first check to the last, and was recorded with a
      time that the record format admits; that format's own range check can never be what refuses. */
  lemma SuccessWasValidThroughout(ctx: Context, d: Directive, a: Attempt, t: Instant)
    requires a.first <= a.underLock <= a.verified
    ensures BeforeRecording(ctx, d, a).Ok? ==> Timestamp(BeforeRecording(ctx, d, a).value)
    ensures VerifyAndRedeem(ctx, d, a).result.Ok? ==>
              && VerifyAndRedeem(ctx, d, a).recorded.Some?
              && (a.first <= t <= a.verified ==> ValidateAt(ctx, d, t).Ok?)
  {
  }

  /** The last observation comes after the window, or leaves no whole second to finish in. */
  predicate Late(ctx: Context, d: Directive, verified: Instant)
  {
    || verified > Closes(ctx, d)
    || verified - ctx.monotonic > (d.finishBy + ctx.skew - 1 - ctx.unixSeconds) * NS
  }

  /** A directive can be recorded and still refused, in spite of the promise that nothing is recorded
      for a directive that any check refuses. For ordered observations of a directive whose times are
      in order, that happens exactly when the store was reached and either failed after its link, or
      recorded the directive and the last observation came late. */
  lemma RecordedButRefused(ctx: Context, d: Directive, a: Attempt)
    requires a.first <= a.underLock <= a.verified && d.startBy <= d.finishBy && Timestamp(d.finishBy)
    ensures var v := VerifyAndRedeem(ctx, d, a);
            v.recorded.Some? && v.result.Err? <==>
              && BeforeRecording(ctx, d, a).Ok?
              && (a.store.FailedAfterLink? || (a.store.Stored? && Late(ctx, d, a.verified)))
  {
  }

  /** Two seconds pass between the recording and the last check of a directive that was valid for one. */
  lemma RecordedButRefusedHappens()
    ensures exists ctx: Context, d: Directive, a: Attempt ::
              && a.first <= a.underLock <= a.verified
              && VerifyAndRedeem(ctx, d, a) == Verdict(Some(1000), Err(StartByPassed))
  {
    var ctx := Context("b", [1], 1, "user", true, 1000, 0, 0);
    var d := Directive("b", [1], 1, "user", 999, 999, 1001, 2000);
    var a := Attempt(true, 0, true, _ => true, true, 0, Stored, 2 * NS);
    assert ValidateAt(ctx, d, 0) == Ok(1000);
    assert ValidateAt(ctx, d, 2 * NS) == Err(StartByPassed);
    assert VerifyAndRedeem(ctx, d, a) == Verdict(Some(1000), Err(StartByPassed));
  }
}
