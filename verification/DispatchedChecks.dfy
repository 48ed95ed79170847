/** Results of dispatched test runs (scripts/dispatched_checks.py): the latest result of each check,
    the shortcut that reads only the runs from the first unsuccessful one on, and the time windows
    that give a branch's runs to its pull requests. */
module DispatchedChecks {
  import opened ByteStrings

  /** An ISO time as its code points; empty when there is none. */
  type Time = seq<int>

  datatype Conclusion = Failure | TimedOut | Success | Skipped | Other(text: string)

  /** `conclusion` is absent, null or empty while a job or run is unfinished. */
  datatype Job = Job(name: string, conclusion: Option<Conclusion>, id: nat, url: Option<string>)

  datatype Run = Run(
    id: nat, workflow: string, branch: string, head: string, created: Time, completed: bool,
    conclusion: Option<Conclusion>, url: Option<string>)

  datatype Check = Check(workflow: string, job: string)

  datatype Event = Event(job: Job, run: Run)

  datatype Entry = Entry(check: Check, conclusion: Option<Conclusion>, jobId: nat, head: string, url: Option<string>)

  predicate Failed(c: Option<Conclusion>) { c == Some(Failure) || c == Some(TimedOut) }

  predicate Decisive(c: Option<Conclusion>) { Failed(c) || c == Some(Success) }

  predicate Reported(c: Option<Conclusion>) { c.Some? && !c.value.Skipped? }

  function CheckOf(e: Event): Check { Check(e.run.workflow, e.job.name) }

  function EntryOf(e: Event): Entry
  {
    Entry(CheckOf(e), e.job.conclusion, e.job.id, e.run.head,
          if e.job.url.Some? && e.job.url.value != [] then e.job.url else e.run.url)
  }

  // ----- Oldest first -------------------------------------------------------------------

  predicate Ordered(runs: seq<Run>)
  {
    forall i, j | 0 <= i < j < |runs| :: !LexLess(runs[j].created, runs[i].created)
  }

  /** After every run that was not created later. */
  function Place(run: Run, runs: seq<Run>): seq<Run>
  {
    if runs == [] || !LexLess(run.created, runs[|runs| - 1].created) then runs + [run]
    else Place(run, runs[..|runs| - 1]) + [runs[|runs| - 1]]
  }

  /** Python's stable `sorted` by creation time. */
  function Sorted(runs: seq<Run>): seq<Run>
  {
    if runs == [] then [] else Place(runs[|runs| - 1], Sorted(runs[..|runs| - 1]))
  }

  /** The runs created at one time, as they come. */
  function CreatedAt(runs: seq<Run>, time: Time): seq<Run>
  {
    if runs == [] then []
    else CreatedAt(runs[..|runs| - 1], time) + if runs[|runs| - 1].created == time then [runs[|runs| - 1]] else []
  }

  lemma {:induction false} PlaceHolds(run: Run, runs: seq<Run>)
    ensures multiset(Place(run, runs)) == multiset(runs) + multiset{run}
  {
    if runs != [] {
      assert runs == runs[..|runs| - 1] + [runs[|runs| - 1]];
      PlaceHolds(run, runs[..|runs| - 1]);
    }
  }

  lemma OrderedMore(runs: seq<Run>, last: Run)
    requires Ordered(runs) && forall i | 0 <= i < |runs| :: !LexLess(last.created, runs[i].created)
    ensures Ordered(runs + [last])
  {
  }

  /** What is after `front` and not before `run` is after `run` placed in `front`. */
  lemma AfterPlaced(run: Run, front: seq<Run>, last: Run)
    requires !LexLess(last.created, run.created)
    requires forall i | 0 <= i < |front| :: !LexLess(last.created, front[i].created)
    ensures forall i | 0 <= i < |Place(run, front)| :: !LexLess(last.created, Place(run, front)[i].created)
  {
    PlaceHolds(run, front);
    forall i | 0 <= i < |Place(run, front)|
      ensures !LexLess(last.created, Place(run, front)[i].created)
    {
      assert Place(run, front)[i] in multiset(front) + multiset{run};
    }
  }

  lemma {:induction false} PlaceOrders(run: Run, runs: seq<Run>)
    requires Ordered(runs)
    ensures Ordered(Place(run, runs))
  {
    if runs != [] {
      var last, front := runs[|runs| - 1], runs[..|runs| - 1];
      if LexLess(run.created, last.created) {
        PlaceOrders(run, front);
        LexAsymmetric(run.created, last.created);
        AfterPlaced(run, front, last);
        OrderedMore(Place(run, front), last);
      } else {
        forall i | 0 <= i < |runs|
          ensures !LexLess(run.created, runs[i].created)
        {
          LexMixed(runs[i].created, last.created, run.created);
        }
        OrderedMore(runs, run);
      }
    }
  }

  lemma {:induction false} PlaceIsStable(run: Run, runs: seq<Run>, time: Time)
    requires Ordered(runs)
    ensures CreatedAt(Place(run, runs), time) == CreatedAt(runs, time) + if run.created == time then [run] else []
  {
    if runs != [] && LexLess(run.created, runs[|runs| - 1].created) {
      var last, front := runs[|runs| - 1], runs[..|runs| - 1];
      PlaceIsStable(run, front, time);
      LexIrreflexive(time);
      assert Place(run, runs)[..|Place(run, runs)| - 1] == Place(run, front);
    } else {
      assert (runs + [run])[..|runs|] == runs;
    }
  }

  /** Sorting puts the same runs oldest first, and keeps those created together as they came. */
  lemma {:induction false} SortedSorts(runs: seq<Run>, time: Time)
    ensures Ordered(Sorted(runs)) && multiset(Sorted(runs)) == multiset(runs)
    ensures CreatedAt(Sorted(runs), time) == CreatedAt(runs, time)
  {
    if runs != [] {
      var last, front := runs[|runs| - 1], runs[..|runs| - 1];
      assert runs == front + [last];
      SortedSorts(front, time);
      PlaceHolds(last, Sorted(front));
      PlaceOrders(last, Sorted(front));
      PlaceIsStable(last, Sorted(front), time);
    }
  }

  lemma {:induction false} SortedIsIdempotent(runs: seq<Run>)
    requires Ordered(runs)
    ensures Sorted(runs) == runs
  {
    if runs != [] {
      var last, front := runs[|runs| - 1], runs[..|runs| - 1];
      assert runs == front + [last];
      SortedIsIdempotent(front);
    }
  }

  /** No run of `more` was created before one of `runs`. */
  predicate Later(runs: seq<Run>, more: seq<Run>)
  {
    forall i, j | 0 <= i < |runs| && 0 <= j < |more| :: !LexLess(more[j].created, runs[i].created)
  }

  lemma {:induction false} PlaceBehind(run: Run, runs: seq<Run>, more: seq<Run>)
    requires forall i | 0 <= i < |runs| :: !LexLess(run.created, runs[i].created)
    ensures Place(run, runs + more) == runs + Place(run, more)
    decreases |more|
  {
    var all := runs + more;
    if more == [] {
      assert all == runs;
    } else {
      assert all[..|all| - 1] == runs + more[..|more| - 1];
      PlaceBehind(run, runs, more[..|more| - 1]);
    }
  }

  lemma LaterThanSorted(run: Run, runs: seq<Run>)
    requires forall i | 0 <= i < |runs| :: !LexLess(run.created, runs[i].created)
    ensures forall i | 0 <= i < |Sorted(runs)| :: !LexLess(run.created, Sorted(runs)[i].created)
  {
    SortedSorts(runs, []);
    forall i | 0 <= i < |Sorted(runs)|
      ensures !LexLess(run.created, Sorted(runs)[i].created)
    {
      assert Sorted(runs)[i] in multiset(runs);
    }
  }

  lemma {:induction false} SortedInTurn(runs: seq<Run>, more: seq<Run>)
    requires Later(runs, more)
    ensures Sorted(runs + more) == Sorted(runs) + Sorted(more)
    decreases |more|
  {
    var all := runs + more;
    if more == [] {
      assert all == runs;
    } else {
      var last, front := more[|more| - 1], more[..|more| - 1];
      assert all[..|all| - 1] == runs + front;
      SortedInTurn(runs, front);
      LaterThanSorted(last, runs);
      PlaceBehind(last, Sorted(runs), Sorted(front));
    }
  }

  // ----- The latest result of each check ------------------------------------------------

  function JobsOf(jobs: map<nat, seq<Job>>, run: Run): seq<Job>
  {
    if run.id in jobs then jobs[run.id] else []
  }

  function RunEvents(run: Run, jobs: seq<Job>): seq<Event>
  {
    if jobs == [] then [] else RunEvents(run, jobs[..|jobs| - 1]) + [Event(jobs[|jobs| - 1], run)]
  }

  function EventsOf(runs: seq<Run>, jobs: map<nat, seq<Job>>): seq<Event>
  {
    if runs == [] then []
    else EventsOf(runs[..|runs| - 1], jobs) + RunEvents(runs[|runs| - 1], JobsOf(jobs, runs[|runs| - 1]))
  }

  /** The last event of a check that passed or failed. */
  function LastDecisive(events: seq<Event>, check: Check): Option<Event>
  {
    if events == [] then None
    else
      var e := events[|events| - 1];
      if CheckOf(e) == check && Decisive(e.job.conclusion) then Some(e) else LastDecisive(events[..|events| - 1], check)
  }

  /** The last event of a check that finished and was not skipped. */
  function LastReported(events: seq<Event>, check: Check): Option<Event>
  {
    if events == [] then None
    else
      var e := events[|events| - 1];
      if CheckOf(e) == check && Reported(e.job.conclusion) then Some(e) else LastReported(events[..|events| - 1], check)
  }

  /** The result of a check: its last pass or failure or, without one, its last report. */
  function LatestOf(events: seq<Event>, check: Check): Option<Event>
  {
    if LastDecisive(events, check).Some? then LastDecisive(events, check) else LastReported(events, check)
  }

  /** The checks with a report, in order of first appearance. */
  function Checks(events: seq<Event>): seq<Check>
  {
    if events == [] then []
    else
      var e, before := events[|events| - 1], Checks(events[..|events| - 1]);
      if Reported(e.job.conclusion) && CheckOf(e) !in before then before + [CheckOf(e)] else before
  }

  function Entries(events: seq<Event>, checks: seq<Check>): seq<Entry>
  {
    if checks == [] then []
    else
      Entries(events, checks[..|checks| - 1])
      + match LatestOf(events, checks[|checks| - 1])
        case Some(e) => [EntryOf(e)]
        case None => []
  }

  function Results(events: seq<Event>): seq<Entry> { Entries(events, Checks(events)) }

  /** The dictionary after the events so far. */
  ghost predicate Tracks(events: seq<Event>, keys: seq<Check>, latest: map<Check, Event>)
  {
    && keys == Checks(events)
    && forall c: Check :: LatestOf(events, c) == if c in latest then Some(latest[c]) else None
  }

  lemma {:induction false} LatestFacts(events: seq<Event>, check: Check)
    ensures LastDecisive(events, check).Some? ==>
              && CheckOf(LastDecisive(events, check).value) == check
              && Decisive(LastDecisive(events, check).value.job.conclusion) && LastReported(events, check).Some?
    ensures LastReported(events, check).Some? ==>
              && CheckOf(LastReported(events, check).value) == check
              && Reported(LastReported(events, check).value.job.conclusion)
    ensures LastDecisive(events, check).None? && LastReported(events, check).Some? ==>
              !Decisive(LastReported(events, check).value.job.conclusion)
    ensures check in Checks(events) <==> LastReported(events, check).Some?
  {
    if events != [] { LatestFacts(events[..|events| - 1], check); }
  }

  /** One turn of the inner loop. */
  lemma TracksOneMore(events: seq<Event>, e: Event, keys: seq<Check>, latest: map<Check, Event>)
    requires Tracks(events, keys, latest)
    ensures var key, c := CheckOf(e), e.job.conclusion;
            var taken := Decisive(c) || (Reported(c) && (key !in latest || !Decisive(latest[key].job.conclusion)));
            Tracks(events + [e],
                   if taken && key !in latest then keys + [key] else keys,
                   if taken then latest[key := e] else latest)
  {
    var key := CheckOf(e);
    assert (events + [e])[..|events|] == events;
    LatestFacts(events, key);
    assert LatestOf(events, key) == if key in latest then Some(latest[key]) else None;
  }

  lemma TracksResults(events: seq<Event>, keys: seq<Check>, latest: map<Check, Event>, n: nat)
    requires Tracks(events, keys, latest) && n < |keys|
    ensures keys[n] in latest
    ensures Entries(events, keys[..n + 1]) == Entries(events, keys[..n]) + [EntryOf(latest[keys[n]])]
  {
    assert keys[..n + 1][..n] == keys[..n] && keys[..n + 1][n] == keys[n];
    LatestFacts(events, keys[n]);
    assert LatestOf(events, keys[n]) == if keys[n] in latest then Some(latest[keys[n]]) else None;
  }

  lemma RunEventsMore(run: Run, jobs: seq<Job>, j: nat)
    requires j < |jobs|
    ensures RunEvents(run, jobs[..j + 1]) == RunEvents(run, jobs[..j]) + [Event(jobs[j], run)]
  {
    assert jobs[..j + 1][..j] == jobs[..j];
  }

  lemma EventsMore(runs: seq<Run>, jobs: map<nat, seq<Job>>, i: nat)
    requires i < |runs|
    ensures EventsOf(runs[..i + 1], jobs) == EventsOf(runs[..i], jobs) + RunEvents(runs[i], JobsOf(jobs, runs[i]))
  {
    assert runs[..i + 1][..i] == runs[..i];
  }

  lemma Associates<T>(a: seq<T>, b: seq<T>, c: seq<T>)
    ensures a + b + c == a + (b + c)
  {
  }

  /** The loops of `check_results` over the dictionary. */
  method LatestResults(runs: seq<Run>, jobs: map<nat, seq<Job>>) returns (keys: seq<Check>, latest: map<Check, Event>)
    ensures Tracks(EventsOf(Sorted(runs), jobs), keys, latest)
  {
    keys, latest := [], map[];
    var sorted := Sorted(runs);
    for i := 0 to |sorted|
      invariant Tracks(EventsOf(sorted[..i], jobs), keys, latest)
    {
      var run := sorted[i];
      var js := JobsOf(jobs, run);
      ghost var before := EventsOf(sorted[..i], jobs);
      assert before + RunEvents(run, js[..0]) == before;
      for j := 0 to |js|
        invariant Tracks(before + RunEvents(run, js[..j]), keys, latest)
      {
        var e := Event(js[j], run);
        var key, conclusion := CheckOf(e), e.job.conclusion;
        TracksOneMore(before + RunEvents(run, js[..j]), e, keys, latest);
        RunEventsMore(run, js, j);
        Associates(before, RunEvents(run, js[..j]), [e]);
        if Decisive(conclusion)
           || (Reported(conclusion) && (key !in latest || !Decisive(latest[key].job.conclusion)))
        {
          if key !in latest { keys := keys + [key]; }
          latest := latest[key := e];
        }
      }
      assert js[..|js|] == js;
      EventsMore(sorted, jobs, i);
    }
    assert sorted[..|sorted|] == sorted;
  }

  /** `check_results`: for every check, its last pass or failure, else its last report. */
  method CheckResults(runs: seq<Run>, jobs: map<nat, seq<Job>>) returns (entries: seq<Entry>)
    ensures entries == Results(EventsOf(Sorted(runs), jobs))
  {
    var keys, latest := LatestResults(runs, jobs);
    ghost var events := EventsOf(Sorted(runs), jobs);
    entries := [];
    for n := 0 to |keys|
      invariant entries == Entries(events, keys[..n])
    {
      TracksResults(events, keys, latest, n);
      entries := entries + [EntryOf(latest[keys[n]])];
    }
    assert keys[..|keys|] == keys;
  }

  lemma {:induction false} DecisiveAt(events: seq<Event>, check: Check) returns (i: int)
    ensures -1 <= i < |events|
    ensures i == -1 <==> LastDecisive(events, check).None?
    ensures i >= 0 ==>
              && LastDecisive(events, check) == Some(events[i])
              && CheckOf(events[i]) == check && Decisive(events[i].job.conclusion)
    ensures forall j | i < j < |events| && CheckOf(events[j]) == check :: !Decisive(events[j].job.conclusion)
  {
    if events == [] {
      i := -1;
    } else {
      var front, e := events[..|events| - 1], events[|events| - 1];
      if CheckOf(e) == check && Decisive(e.job.conclusion) {
        i := |front|;
      } else {
        i := DecisiveAt(front, check);
        assert forall j | 0 <= j < |front| :: front[j] == events[j];
      }
    }
  }

  lemma {:induction false} ReportedAt(events: seq<Event>, check: Check) returns (i: int)
    ensures -1 <= i < |events|
    ensures i == -1 <==> LastReported(events, check).None?
    ensures i >= 0 ==>
              && LastReported(events, check) == Some(events[i])
              && CheckOf(events[i]) == check && Reported(events[i].job.conclusion)
    ensures forall j | i < j < |events| && CheckOf(events[j]) == check :: !Reported(events[j].job.conclusion)
  {
    if events == [] {
      i := -1;
    } else {
      var front, e := events[..|events| - 1], events[|events| - 1];
      if CheckOf(e) == check && Reported(e.job.conclusion) {
        i := |front|;
      } else {
        i := ReportedAt(front, check);
        assert forall j | 0 <= j < |front| :: front[j] == events[j];
      }
    }
  }

  /** What was kept is the last: no later event of the check passed or failed and, when none ever
      did, none was reported later. */
  lemma LatestIsLast(events: seq<Event>, check: Check) returns (i: int)
    ensures i == -1 <==> LatestOf(events, check).None?
    ensures i == -1 ==>
              forall j | 0 <= j < |events| && CheckOf(events[j]) == check :: !Reported(events[j].job.conclusion)
    ensures i != -1 ==>
              && 0 <= i < |events| && LatestOf(events, check) == Some(events[i]) && CheckOf(events[i]) == check
              && (forall j | i < j < |events| && CheckOf(events[j]) == check :: !Decisive(events[j].job.conclusion))
              && (Decisive(events[i].job.conclusion)
                  || forall j | 0 <= j < |events| && CheckOf(events[j]) == check ::
                       !Decisive(events[j].job.conclusion) && (i < j ==> !Reported(events[j].job.conclusion)))
  {
    LatestFacts(events, check);
    i := DecisiveAt(events, check);
    if i == -1 { i := ReportedAt(events, check); }
  }

  lemma {:induction false} EntriesHold(events: seq<Event>, checks: seq<Check>, entry: Entry)
    ensures entry in Entries(events, checks) <==>
            && entry.check in checks && LatestOf(events, entry.check).Some?
            && entry == EntryOf(LatestOf(events, entry.check).value)
  {
    if checks != [] {
      var front, c := checks[..|checks| - 1], checks[|checks| - 1];
      assert checks == front + [c];
      EntriesHold(events, front, entry);
      LatestFacts(events, c);
    }
  }

  lemma ResultsHold(events: seq<Event>, entry: Entry)
    ensures entry in Results(events) <==>
            LatestOf(events, entry.check).Some? && entry == EntryOf(LatestOf(events, entry.check).value)
  {
    EntriesHold(events, Checks(events), entry);
    LatestFacts(events, entry.check);
  }

  // ----- The shortcut -------------------------------------------------------------------

  predicate Green(run: Run) { run.completed && run.conclusion == Some(Success) }

  /** How many runs lead, oldest first, that completed successfully. */
  function LeadingGreen(runs: seq<Run>): (n: nat)
    ensures n <= |runs|
    ensures forall i | 0 <= i < n :: Green(runs[i])
    ensures n < |runs| ==> !Green(runs[n])
  {
    if runs == [] || !Green(runs[0]) then 0 else 1 + LeadingGreen(runs[1..])
  }

  function Undecided(runs: seq<Run>): seq<Run>
  {
    Sorted(runs)[LeadingGreen(Sorted(runs))..]
  }

  function Dropped(runs: seq<Run>): seq<Run>
  {
    Sorted(runs)[..LeadingGreen(Sorted(runs))]
  }

  function OnlyFailed(entries: seq<Entry>): seq<Entry>
  {
    if entries == [] then []
    else
      var e := entries[|entries| - 1];
      OnlyFailed(entries[..|entries| - 1]) + if Failed(e.conclusion) then [e] else []
  }

  /** What `failed_checks` reports. */
  function Reports(runs: seq<Run>, jobs: map<nat, seq<Job>>): seq<Entry>
  {
    OnlyFailed(Results(EventsOf(Undecided(runs), jobs)))
  }

  /** What reading every run would report. */
  function FullReports(runs: seq<Run>, jobs: map<nat, seq<Job>>): seq<Entry>
  {
    OnlyFailed(Results(EventsOf(Sorted(runs), jobs)))
  }

  lemma UndecidedStaysSorted(runs: seq<Run>)
    ensures Sorted(Undecided(runs)) == Undecided(runs)
  {
    SortedSorts(runs, []);
    SortedIsIdempotent(Undecided(runs));
  }

  method KeepFailed(entries: seq<Entry>) returns (failed: seq<Entry>)
    ensures failed == OnlyFailed(entries)
  {
    failed := [];
    for i := 0 to |entries|
      invariant failed == OnlyFailed(entries[..i])
    {
      assert entries[..i + 1][..i] == entries[..i];
      if Failed(entries[i].conclusion) { failed := failed + [entries[i]]; }
    }
    assert entries[..|entries|] == entries;
  }

  /** `failed_checks`; its runs are already oldest first when `check_results` sorts them again. */
  method FailedChecks(runs: seq<Run>, jobs: map<nat, seq<Job>>) returns (failed: seq<Entry>)
    ensures failed == Reports(runs, jobs)
  {
    UndecidedStaysSorted(runs);
    var entries := CheckResults(Undecided(runs), jobs);
    failed := KeepFailed(entries);
  }

  lemma {:induction false} OnlyFailedHolds(entries: seq<Entry>, entry: Entry)
    ensures entry in OnlyFailed(entries) <==> entry in entries && Failed(entry.conclusion)
  {
    if entries != [] {
      assert entries == entries[..|entries| - 1] + [entries[|entries| - 1]];
      OnlyFailedHolds(entries[..|entries| - 1], entry);
    }
  }

  /** The last pass or failure of the check is a failure. */
  predicate Failing(events: seq<Event>, check: Check)
  {
    LastDecisive(events, check).Some? && Failed(LastDecisive(events, check).value.job.conclusion)
  }

  lemma FailuresHold(events: seq<Event>, entry: Entry)
    ensures entry in OnlyFailed(Results(events)) <==>
            Failing(events, entry.check) && entry == EntryOf(LastDecisive(events, entry.check).value)
  {
    OnlyFailedHolds(Results(events), entry);
    ResultsHold(events, entry);
    LatestFacts(events, entry.check);
  }

  lemma {:induction false} DecisiveAcross(before: seq<Event>, after: seq<Event>, check: Check)
    ensures LastDecisive(before + after, check) ==
            if LastDecisive(after, check).Some? then LastDecisive(after, check) else LastDecisive(before, check)
    decreases |after|
  {
    var all := before + after;
    if after == [] {
      assert all == before;
    } else {
      assert all[..|all| - 1] == before + after[..|after| - 1];
      DecisiveAcross(before, after[..|after| - 1], check);
    }
  }

  lemma {:induction false} EventsAcross(runs: seq<Run>, more: seq<Run>, jobs: map<nat, seq<Job>>)
    ensures EventsOf(runs + more, jobs) == EventsOf(runs, jobs) + EventsOf(more, jobs)
    decreases |more|
  {
    var all := runs + more;
    if more == [] {
      assert all == runs;
    } else {
      assert all[..|all| - 1] == runs + more[..|more| - 1];
      EventsAcross(runs, more[..|more| - 1], jobs);
      var last := more[|more| - 1];
      Associates(EventsOf(runs, jobs), EventsOf(more[..|more| - 1], jobs), RunEvents(last, JobsOf(jobs, last)));
    }
  }

  /** Event `i` is followed by a pass or failure of the same check. */
  predicate Superseded(events: seq<Event>, i: nat)
    requires i < |events|
  {
    exists j :: i < j < |events| && CheckOf(events[j]) == CheckOf(events[i]) && Decisive(events[j].job.conclusion)
  }

  predicate Covered(before: seq<Event>, after: seq<Event>)
  {
    forall i: nat | i < |before| && Failed(before[i].job.conclusion) :: Superseded(before + after, i)
  }

  lemma {:induction false} NoneDecisive(events: seq<Event>, check: Check)
    requires forall j | 0 <= j < |events| && CheckOf(events[j]) == check :: !Decisive(events[j].job.conclusion)
    ensures LastDecisive(events, check).None?
  {
    if events != [] { NoneDecisive(events[..|events| - 1], check); }
  }

  lemma LastIsNotSuperseded(before: seq<Event>, after: seq<Event>, check: Check) returns (i: int)
    requires LastDecisive(after, check).None? && LastDecisive(before, check).Some?
    ensures 0 <= i < |before| && LastDecisive(before, check) == Some(before[i]) && !Superseded(before + after, i)
  {
    i := DecisiveAt(before, check);
    var none := DecisiveAt(after, check);
    var all := before + after;
    forall j | i < j < |all| && CheckOf(all[j]) == check
      ensures !Decisive(all[j].job.conclusion)
    {
      assert all[j] == if j < |before| then before[j] else after[j - |before|];
    }
  }

  /** Only a failure among the first events that nothing follows is missed. */
  lemma MissedExactly(before: seq<Event>, after: seq<Event>, check: Check)
    ensures Failing(after, check) ==>
              Failing(before + after, check) && LastDecisive(after, check) == LastDecisive(before + after, check)
    ensures Covered(before, after) && Failing(before + after, check) ==> Failing(after, check)
  {
    DecisiveAcross(before, after, check);
    if Failing(before + after, check) && LastDecisive(after, check).None? {
      var i := LastIsNotSuperseded(before, after, check);
    }
  }

  lemma MissedWhenNotCovered(before: seq<Event>, after: seq<Event>, i: nat)
    requires i < |before| && Failed(before[i].job.conclusion) && !Superseded(before + after, i)
    ensures var check := CheckOf(before[i]); Failing(before + after, check) && !Failing(after, check)
  {
    var all, check := before + after, CheckOf(before[i]);
    assert all[i] == before[i];
    var k := DecisiveAt(all, check);
    assert k == i;
    assert forall m | 0 <= m < |after| :: all[|before| + m] == after[m];
    NoneDecisive(after, check);
  }

  function AsSet<T>(s: seq<T>): set<T> { set x | x in s }

  lemma SortedSplits(runs: seq<Run>, jobs: map<nat, seq<Job>>)
    ensures EventsOf(Sorted(runs), jobs) == EventsOf(Dropped(runs), jobs) + EventsOf(Undecided(runs), jobs)
  {
    assert Sorted(runs) == Dropped(runs) + Undecided(runs);
    EventsAcross(Dropped(runs), Undecided(runs), jobs);
  }

  /** `failed_checks` reports the failures that reading every run would report exactly when every
      failed job of the leading successful runs is followed by a pass or failure of its check. */
  lemma ShortcutAgreesExactly(runs: seq<Run>, jobs: map<nat, seq<Job>>)
    ensures AsSet(Reports(runs, jobs)) == AsSet(FullReports(runs, jobs)) <==>
            Covered(EventsOf(Dropped(runs), jobs), EventsOf(Undecided(runs), jobs))
  {
    var before, after := EventsOf(Dropped(runs), jobs), EventsOf(Undecided(runs), jobs);
    SortedSplits(runs, jobs);
    if Covered(before, after) {
      forall entry: Entry
        ensures entry in Reports(runs, jobs) <==> entry in FullReports(runs, jobs)
      {
        FailuresHold(after, entry);
        FailuresHold(before + after, entry);
        MissedExactly(before, after, entry.check);
      }
    } else {
      var i: nat :| i < |before| && Failed(before[i].job.conclusion) && !Superseded(before + after, i);
      MissedWhenNotCovered(before, after, i);
      var entry := EntryOf(LastDecisive(before + after, CheckOf(before[i])).value);
      LatestFacts(before + after, CheckOf(before[i]));
      FailuresHold(after, entry);
      FailuresHold(before + after, entry);
      assert entry in AsSet(FullReports(runs, jobs)) && entry !in AsSet(Reports(runs, jobs));
    }
  }

  lemma {:induction false} EventRun(runs: seq<Run>, jobs: map<nat, seq<Job>>, i: nat)
    requires i < |EventsOf(runs, jobs)|
    ensures var e := EventsOf(runs, jobs)[i]; e.run in runs && e.job in JobsOf(jobs, e.run)
  {
    if runs != [] {
      var front, run := runs[..|runs| - 1], runs[|runs| - 1];
      var n := |EventsOf(front, jobs)|;
      if i < n { EventRun(front, jobs, i); } else { RunEvent(run, JobsOf(jobs, run), i - n); }
    }
  }

  lemma {:induction false} RunEvent(run: Run, jobs: seq<Job>, i: nat)
    requires i < |RunEvents(run, jobs)|
    ensures RunEvents(run, jobs)[i].run == run && RunEvents(run, jobs)[i].job in jobs
  {
    if i < |RunEvents(run, jobs[..|jobs| - 1])| { RunEvent(run, jobs[..|jobs| - 1], i); }
  }

  /** So it does when no job of a run that completed successfully failed. */
  lemma ShortcutAgreesWhenGreenMeansPassed(runs: seq<Run>, jobs: map<nat, seq<Job>>)
    requires forall run, job | run in runs && Green(run) && job in JobsOf(jobs, run) :: !Failed(job.conclusion)
    ensures AsSet(Reports(runs, jobs)) == AsSet(FullReports(runs, jobs))
  {
    var before := EventsOf(Dropped(runs), jobs);
    SortedSorts(runs, []);
    forall i: nat | i < |before|
      ensures !Failed(before[i].job.conclusion)
    {
      EventRun(Dropped(runs), jobs, i);
      var k :| 0 <= k < |Dropped(runs)| && Dropped(runs)[k] == before[i].run;
      assert Sorted(runs)[k] in multiset(runs);
    }
    ShortcutAgreesExactly(runs, jobs);
  }

  /** A successful run may hold a failed job, and then the shortcut misses it. */
  lemma ShortcutMisses()
    ensures exists runs, jobs :: FullReports(runs, jobs) != [] && Reports(runs, jobs) == []
  {
    var job := Job("tests", Some(Failure), 1, None);
    var run := Run(7, "ci.yml", "task", "", [], true, Some(Success), None);
    var jobs := map[7 := [job]];
    assert Sorted([run]) == [run] && RunEvents(run, [job]) == [Event(job, run)];
    assert EventsOf([run], jobs) == [Event(job, run)];
    assert LeadingGreen([run]) == 1;
    FailuresHold([Event(job, run)], EntryOf(Event(job, run)));
    assert FullReports([run], jobs) != [];
  }

  /** Jobs need fetching only for the undecided runs. */
  lemma {:induction false} OnlyTheseJobsMatter(runs: seq<Run>, jobs: map<nat, seq<Job>>, fetched: map<nat, seq<Job>>)
    requires forall run | run in runs :: JobsOf(jobs, run) == JobsOf(fetched, run)
    ensures EventsOf(runs, jobs) == EventsOf(runs, fetched)
  {
    if runs != [] { OnlyTheseJobsMatter(runs[..|runs| - 1], jobs, fetched); }
  }

  lemma FetchingUndecidedSuffices(runs: seq<Run>, jobs: map<nat, seq<Job>>, fetched: map<nat, seq<Job>>)
    requires forall run | run in Undecided(runs) :: JobsOf(jobs, run) == JobsOf(fetched, run)
    ensures Reports(runs, jobs) == Reports(runs, fetched)
  {
    OnlyTheseJobsMatter(Undecided(runs), jobs, fetched);
  }

  // ----- Later runs ---------------------------------------------------------------------

  predicate ReportsCheck(runs: seq<Run>, jobs: map<nat, seq<Job>>, check: Check)
  {
    Failing(EventsOf(Undecided(runs), jobs), check)
  }

  lemma ReportsCheckHolds(runs: seq<Run>, jobs: map<nat, seq<Job>>, check: Check)
    ensures ReportsCheck(runs, jobs, check) <==> exists entry :: entry in Reports(runs, jobs) && entry.check == check
  {
    var events := EventsOf(Undecided(runs), jobs);
    if Failing(events, check) {
      var entry := EntryOf(LastDecisive(events, check).value);
      LatestFacts(events, check);
      FailuresHold(events, entry);
    }
    forall entry | entry in Reports(runs, jobs) && entry.check == check
      ensures Failing(events, check)
    {
      FailuresHold(events, entry);
    }
  }

  lemma {:induction false} GreenAcross(runs: seq<Run>, more: seq<Run>)
    requires LeadingGreen(runs) < |runs|
    ensures LeadingGreen(runs + more) == LeadingGreen(runs)
  {
    if Green(runs[0]) {
      assert (runs + more)[1..] == runs[1..] + more;
      GreenAcross(runs[1..], more);
    }
  }

  lemma DropInTurn<T>(a: seq<T>, b: seq<T>, n: nat)
    requires n <= |a|
    ensures (a + b)[n..] == a[n..] + b
  {
  }

  lemma UndecidedInTurn(runs: seq<Run>, more: seq<Run>)
    requires Later(runs, more) && Undecided(runs) != []
    ensures Undecided(runs + more) == Undecided(runs) + Sorted(more)
  {
    SortedInTurn(runs, more);
    GreenAcross(Sorted(runs), Sorted(more));
    DropInTurn(Sorted(runs), Sorted(more), LeadingGreen(Sorted(runs)));
  }

  /** After later runs, a reported check is still reported exactly unless the last of its passes and
      failures in them is a pass. */
  lemma FailureStaysUntilPassed(runs: seq<Run>, more: seq<Run>, jobs: map<nat, seq<Job>>, check: Check)
    requires Later(runs, more) && ReportsCheck(runs, jobs, check)
    ensures var last := LastDecisive(EventsOf(Sorted(more), jobs), check);
            ReportsCheck(runs + more, jobs, check) <==> (last.Some? ==> last.value.job.conclusion != Some(Success))
  {
    var later := EventsOf(Sorted(more), jobs);
    UndecidedInTurn(runs, more);
    EventsAcross(Undecided(runs), Sorted(more), jobs);
    DecisiveAcross(EventsOf(Undecided(runs), jobs), later, check);
    LatestFacts(later, check);
  }

  // ----- Runs added anywhere ------------------------------------------------------------

  /** A run that is added to a list, and the place it takes there. */
  datatype Added = Added(at: nat, run: Run)

  function Insert<T>(s: seq<T>, at: nat, x: T): seq<T>
  {
    if at <= |s| then s[..at] + [x] + s[at..] else s + [x]
  }

  /** The runs with others added one by one, each at any place. */
  function WithAdded(runs: seq<Run>, added: seq<Added>): seq<Run>
  {
    if added == [] then runs
    else Insert(WithAdded(runs, added[..|added| - 1]), added[|added| - 1].at, added[|added| - 1].run)
  }

  lemma OrderedPrefix(a: seq<Run>, b: seq<Run>)
    requires Ordered(a + b)
    ensures Ordered(a)
  {
    forall i, j | 0 <= i < j < |a|
      ensures !LexLess(a[j].created, a[i].created)
    {
      assert (a + b)[i] == a[i] && (a + b)[j] == a[j];
    }
  }

  lemma PlaceAtEnd(run: Run, runs: seq<Run>, x: Run)
    requires Ordered(runs + [x]) && !LexLess(run.created, x.created)
    ensures Place(run, runs) == runs + [run]
  {
    if runs != [] {
      assert (runs + [x])[|runs|] == x && (runs + [x])[|runs| - 1] == runs[|runs| - 1];
      LexMixed(runs[|runs| - 1].created, x.created, run.created);
    }
  }

  lemma InsertMore<T>(s: seq<T>, at: nat, x: T, last: T)
    requires at <= |s|
    ensures Insert(s, at, x) + [last] == Insert(s + [last], at, x)
  {
  }

  lemma InsertBetween<T>(front: seq<T>, x: T, back: seq<T>)
    ensures Insert(front + back, |front|, x) == front + [x] + back
  {
  }

  lemma WithoutLast<T>(front: seq<T>, back: seq<T>, last: T)
    ensures front + (back + [last]) == front + back + [last]
    ensures (front + back + [last])[..|front + back|] == front + back
  {
  }

  lemma PlaceAroundLast(run: Run, front: seq<Run>, x: Run) returns (at: nat)
    requires Ordered(front + [x])
    ensures at <= |Place(run, front)| && Place(run, front + [x]) == Insert(Place(run, front), at, x)
  {
    var all := front + [x];
    assert all[|all| - 1] == x && all[..|all| - 1] == front;
    if LexLess(run.created, x.created) {
      at := |Place(run, front)|;
    } else {
      at := |front|;
      PlaceAtEnd(run, front, x);
      InsertBetween(front, x, [run]);
    }
  }

  lemma PlaceMore(run: Run, runs: seq<Run>, last: Run)
    ensures Place(run, runs + [last]) ==
            if LexLess(run.created, last.created) then Place(run, runs) + [last] else runs + [last] + [run]
  {
    assert (runs + [last])[..|runs|] == runs;
  }

  /** Placing a run in a list with one more leaves that one more. */
  lemma {:induction false} PlaceAround(run: Run, front: seq<Run>, x: Run, back: seq<Run>) returns (at: nat)
    requires Ordered(front + [x] + back)
    ensures at <= |Place(run, front + back)|
    ensures Place(run, front + [x] + back) == Insert(Place(run, front + back), at, x)
    decreases |back|
  {
    if back == [] {
      assert front + [x] + back == front + [x] && front + back == front;
      at := PlaceAroundLast(run, front, x);
    } else {
      var last, rest := back[|back| - 1], back[..|back| - 1];
      assert back == rest + [last];
      WithoutLast(front + [x], rest, last);
      WithoutLast(front, rest, last);
      PlaceMore(run, front + [x] + rest, last);
      PlaceMore(run, front + rest, last);
      if LexLess(run.created, last.created) {
        OrderedPrefix(front + [x] + rest, [last]);
        at := PlaceAround(run, front, x, rest);
        InsertMore(Place(run, front + rest), at, x, last);
      } else {
        at := |front|;
        InsertBetween(front, x, rest);
        InsertMore(front + rest, at, x, last);
        InsertMore(front + rest + [last], at, x, run);
      }
    }
  }

  lemma SplitInsert<T>(s: seq<T>, at: nat, x: T)
    requires at <= |s|
    ensures Insert(s, at, x) == s[..at] + [x] + s[at..] && s == s[..at] + s[at..]
  {
  }

  lemma SortedMore(runs: seq<Run>, last: Run)
    ensures Sorted(runs + [last]) == Place(last, Sorted(runs))
  {
    assert (runs + [last])[..|runs|] == runs;
  }

  lemma InsertsOneMore(more: seq<Run>, less: seq<Run>, x: Run, k: nat, last: Run) returns (at: nat)
    requires k <= |Sorted(less)| && Sorted(more) == Insert(Sorted(less), k, x)
    ensures at <= |Sorted(less + [last])| && Sorted(more + [last]) == Insert(Sorted(less + [last]), at, x)
  {
    var sorted := Sorted(less);
    SplitInsert(sorted, k, x);
    SortedSorts(more, []);
    at := PlaceAround(last, sorted[..k], x, sorted[k..]);
    SortedMore(more, last);
    SortedMore(less, last);
  }

  /** Sorting with one run more, wherever it is in the list, inserts it in what sorting gave. */
  lemma {:induction false} SortedInserts(front: seq<Run>, x: Run, back: seq<Run>) returns (at: nat)
    ensures at <= |Sorted(front + back)|
    ensures Sorted(front + [x] + back) == Insert(Sorted(front + back), at, x)
    decreases |back|
  {
    if back == [] {
      assert front + [x] + back == front + [x] && front + back == front;
      SortedMore(front, x);
      at := PlaceInserts(x, Sorted(front));
    } else {
      var last, rest := back[|back| - 1], back[..|back| - 1];
      assert back == rest + [last];
      WithoutLast(front + [x], rest, last);
      WithoutLast(front, rest, last);
      var k := SortedInserts(front, x, rest);
      at := InsertsOneMore(front + [x] + rest, front + rest, x, k, last);
    }
  }

  lemma {:induction false} PlaceInserts(run: Run, runs: seq<Run>) returns (at: nat)
    ensures at <= |runs| && Place(run, runs) == Insert(runs, at, run)
  {
    if runs == [] || !LexLess(run.created, runs[|runs| - 1].created) {
      at := |runs|;
    } else {
      at := PlaceInserts(run, runs[..|runs| - 1]);
    }
  }

  /** No job of the run passed the check. */
  predicate NoPass(run: Run, jobs: map<nat, seq<Job>>, check: Check)
  {
    forall job | job in JobsOf(jobs, run) && Check(run.workflow, job.name) == check :: job.conclusion != Some(Success)
  }

  lemma {:induction false} NoPassEvents(run: Run, jobs: seq<Job>, check: Check)
    requires forall job | job in jobs && Check(run.workflow, job.name) == check :: job.conclusion != Some(Success)
    ensures var last := LastDecisive(RunEvents(run, jobs), check); last.Some? ==> Failed(last.value.job.conclusion)
  {
    if jobs != [] {
      var front, job := jobs[..|jobs| - 1], jobs[|jobs| - 1];
      NoPassEvents(run, front, check);
      assert RunEvents(run, jobs)[..|RunEvents(run, jobs)| - 1] == RunEvents(run, front);
    }
  }

  lemma OneRun(run: Run, jobs: map<nat, seq<Job>>)
    ensures EventsOf([run], jobs) == RunEvents(run, JobsOf(jobs, run))
  {
    assert [run][..|[run]| - 1] == [] && EventsOf([run][..0], jobs) == [];
  }

  /** A run in which nothing passed the check may come anywhere. */
  lemma FailingAround(front: seq<Run>, x: Run, back: seq<Run>, jobs: map<nat, seq<Job>>, check: Check)
    requires Failing(EventsOf(front + back, jobs), check) && NoPass(x, jobs, check)
    ensures Failing(EventsOf(front + [x] + back, jobs), check)
  {
    EventsAcross(front, back, jobs);
    EventsAcross(front, [x], jobs);
    EventsAcross(front + [x], back, jobs);
    OneRun(x, jobs);
    NoPassEvents(x, JobsOf(jobs, x), check);
    DecisiveAcross(EventsOf(front, jobs), EventsOf(back, jobs), check);
    DecisiveAcross(EventsOf(front, jobs), EventsOf([x], jobs), check);
    DecisiveAcross(EventsOf(front + [x], jobs), EventsOf(back, jobs), check);
  }

  /** Runs in front do not matter. */
  lemma FailingBehind(front: seq<Run>, back: seq<Run>, jobs: map<nat, seq<Job>>, check: Check)
    requires Failing(EventsOf(back, jobs), check)
    ensures Failing(EventsOf(front + back, jobs), check)
  {
    EventsAcross(front, back, jobs);
    DecisiveAcross(EventsOf(front, jobs), EventsOf(back, jobs), check);
  }

  lemma {:induction false} LeadingGreenAt(runs: seq<Run>, n: nat)
    requires n < |runs| && !Green(runs[n]) && forall i | 0 <= i < n :: Green(runs[i])
    ensures LeadingGreen(runs) == n
  {
    if n > 0 { LeadingGreenAt(runs[1..], n - 1); }
  }

  /** From the first run on that is not green. */
  function Rest(sorted: seq<Run>): seq<Run> { sorted[LeadingGreen(sorted)..] }

  lemma InsertBehind<T>(s: seq<T>, at: nat, x: T, g: nat)
    requires g < at <= |s|
    ensures Insert(s, at, x)[g..] == Insert(s[g..], at - g, x)
    ensures forall i | 0 <= i <= g :: Insert(s, at, x)[i] == s[i]
  {
  }

  lemma InsertBefore<T>(s: seq<T>, at: nat, x: T, g: nat)
    requires at <= g < |s|
    ensures Insert(s, at, x)[g + 1..] == s[g..] && Insert(s, at, x)[at..] == [x] + s[at..g] + s[g..]
    ensures forall i | 0 <= i <= g :: Insert(s, at, x)[if i < at then i else i + 1] == s[i]
    ensures Insert(s, at, x)[at] == x
  {
  }

  /** What is undecided after an insertion is what was, with the new run in it, or behind some runs. */
  lemma RestAfterInsert(sorted: seq<Run>, at: nat, x: Run) returns (front: seq<Run>, k: nat)
    requires Rest(sorted) != [] && at <= |sorted|
    ensures k <= |Rest(sorted)|
    ensures
      || Rest(Insert(sorted, at, x)) == front + Rest(sorted)
      || Rest(Insert(sorted, at, x)) == Insert(Rest(sorted), k, x)
  {
    var g, all := LeadingGreen(sorted), Insert(sorted, at, x);
    front, k := [], 0;
    if at > g {
      InsertBehind(sorted, at, x, g);
      LeadingGreenAt(all, g);
      k := at - g;
    } else {
      InsertBefore(sorted, at, x, g);
      if Green(x) {
        GreenBefore(sorted, at, x, g);
        assert [] + Rest(sorted) == Rest(sorted);
      } else {
        assert forall i | 0 <= i < at :: all[i] == sorted[i];
        LeadingGreenAt(all, at);
        front := [x] + sorted[at..g];
      }
    }
  }

  lemma GreenBefore(sorted: seq<Run>, at: nat, x: Run, g: nat)
    requires Green(x) && at <= g < |sorted| && !Green(sorted[g]) && forall i | 0 <= i < g :: Green(sorted[i])
    ensures LeadingGreen(Insert(sorted, at, x)) == g + 1
  {
    var all := Insert(sorted, at, x);
    forall i | 0 <= i < g + 1
      ensures Green(all[i])
    {
      assert all[i] == if i < at then sorted[i] else if i == at then x else sorted[i - 1];
    }
    assert all[g + 1] == sorted[g];
    LeadingGreenAt(all, g + 1);
  }

  lemma OneMoreStaysReported(runs: seq<Run>, at: nat, x: Run, jobs: map<nat, seq<Job>>, check: Check)
    requires ReportsCheck(runs, jobs, check) && NoPass(x, jobs, check)
    ensures ReportsCheck(Insert(runs, at, x), jobs, check)
  {
    var n := if at <= |runs| then at else |runs|;
    assert runs[..n] + runs[n..] == runs && Insert(runs, at, x) == runs[..n] + [x] + runs[n..];
    var place := SortedInserts(runs[..n], x, runs[n..]);
    var front, k := RestAfterInsert(Sorted(runs), place, x);
    var undecided := Undecided(runs);
    if Undecided(Insert(runs, at, x)) == front + undecided {
      FailingBehind(front, undecided, jobs, check);
    } else {
      SplitInsert(undecided, k, x);
      FailingAround(undecided[..k], x, undecided[k..], jobs, check);
    }
  }

  /** Whatever runs are added, wherever they come in the list and in time, a reported check stays
      reported unless a job of one of them passed it. */
  lemma {:induction false} FailureStaysWithoutAPass(
    runs: seq<Run>, added: seq<Added>, jobs: map<nat, seq<Job>>, check: Check)
    requires ReportsCheck(runs, jobs, check)
    requires forall i | 0 <= i < |added| :: NoPass(added[i].run, jobs, check)
    ensures ReportsCheck(WithAdded(runs, added), jobs, check)
  {
    if added != [] {
      var front, last := added[..|added| - 1], added[|added| - 1];
      FailureStaysWithoutAPass(runs, front, jobs, check);
      OneMoreStaysReported(WithAdded(runs, front), last.at, last.run, jobs, check);
    }
  }

  // ----- Windows ------------------------------------------------------------------------

  datatype PullRequest = PullRequest(branch: string, mergedAt: Time)

  predicate Before(pr: PullRequest, branch: string, until: Option<Time>)
  {
    pr.branch == branch && (until.None? || LexLess(pr.mergedAt, until.value))
  }

  /** The latest earlier merge of the branch, or the empty time. */
  function Since(merged: seq<PullRequest>, branch: string, until: Option<Time>): Time
  {
    if merged == [] then []
    else
      var since, pr := Since(merged[..|merged| - 1], branch, until), merged[|merged| - 1];
      if Before(pr, branch, until) && LexLess(since, pr.mergedAt) then pr.mergedAt else since
  }

  predicate InWindow(merged: seq<PullRequest>, branch: string, until: Option<Time>, created: Time)
  {
    LexLess(Since(merged, branch, until), created) && (until.None? || !LexLess(until.value, created))
  }

  function BranchRuns(runs: seq<Run>, branch: string, merged: seq<PullRequest>, until: Option<Time>): seq<Run>
  {
    if runs == [] then []
    else
      var run := runs[|runs| - 1];
      BranchRuns(runs[..|runs| - 1], branch, merged, until)
      + if run.branch == branch && InWindow(merged, branch, until, run.created) then [run] else []
  }

  lemma {:induction false} BranchRunsHolds(
    runs: seq<Run>, branch: string, merged: seq<PullRequest>, until: Option<Time>, run: Run)
    ensures run in BranchRuns(runs, branch, merged, until) <==>
            run in runs && run.branch == branch && InWindow(merged, branch, until, run.created)
  {
    if runs != [] {
      assert runs == runs[..|runs| - 1] + [runs[|runs| - 1]];
      BranchRunsHolds(runs[..|runs| - 1], branch, merged, until, run);
    }
  }

  lemma {:induction false} SinceIsLatest(merged: seq<PullRequest>, branch: string, until: Option<Time>)
    ensures forall i | 0 <= i < |merged| && Before(merged[i], branch, until) ::
              !LexLess(Since(merged, branch, until), merged[i].mergedAt)
    ensures Since(merged, branch, until) == [] ||
            exists i ::
              && 0 <= i < |merged| && Before(merged[i], branch, until)
              && merged[i].mergedAt == Since(merged, branch, until)
  {
    if merged != [] {
      var front, pr := merged[..|merged| - 1], merged[|merged| - 1];
      assert merged == front + [pr];
      SinceIsLatest(front, branch, until);
      LexIrreflexive(pr.mergedAt);
      forall i | 0 <= i < |front| && Before(front[i], branch, until)
        ensures !LexLess(Since(merged, branch, until), front[i].mergedAt)
      {
        LexMixed(front[i].mergedAt, Since(front, branch, until), Since(merged, branch, until));
        LexAsymmetricUnless(Since(front, branch, until), Since(merged, branch, until));
        LexAsymmetricUnless(front[i].mergedAt, Since(merged, branch, until));
      }
    }
  }

  lemma LexAsymmetricUnless(a: Time, b: Time)
    ensures !(LexLess(a, b) && LexLess(b, a))
  {
    if LexLess(a, b) { LexAsymmetric(a, b); }
  }

  /** The end of a window: that of a pull request, or none for the branch as it is now. */
  function End(merged: seq<PullRequest>, window: Option<nat>): Option<Time>
    requires window.Some? ==> window.value < |merged|
  {
    if window.Some? then Some(merged[window.value].mergedAt) else None
  }

  predicate IsWindow(merged: seq<PullRequest>, branch: string, window: Option<nat>)
  {
    window.Some? ==> window.value < |merged| && merged[window.value].branch == branch
  }

  predicate Holds(merged: seq<PullRequest>, branch: string, window: Option<nat>, created: Time)
  {
    IsWindow(merged, branch, window) && InWindow(merged, branch, End(merged, window), created)
  }

  predicate DistinctMerges(merged: seq<PullRequest>, branch: string)
  {
    forall i, j | 0 <= i < j < |merged| && merged[i].branch == branch == merged[j].branch && merged[i].mergedAt != [] ::
      merged[i].mergedAt != merged[j].mergedAt
  }

  /** The earliest merge of the branch that is not before `created`. */
  lemma {:induction false} EarliestFrom(merged: seq<PullRequest>, branch: string, created: Time)
    returns (window: Option<nat>)
    ensures IsWindow(merged, branch, window)
    ensures window.Some? ==> !LexLess(merged[window.value].mergedAt, created)
    ensures forall i | 0 <= i < |merged| && merged[i].branch == branch && !LexLess(merged[i].mergedAt, created) ::
              window.Some? && !LexLess(merged[i].mergedAt, merged[window.value].mergedAt)
  {
    if merged == [] {
      window := None;
    } else {
      var front, pr := merged[..|merged| - 1], merged[|merged| - 1];
      assert merged == front + [pr];
      window := EarliestFrom(front, branch, created);
      LexIrreflexive(pr.mergedAt);
      if pr.branch == branch && !LexLess(pr.mergedAt, created)
         && (window.None? || LexLess(pr.mergedAt, front[window.value].mergedAt)) {
        forall i | 0 <= i < |front| && front[i].branch == branch && !LexLess(front[i].mergedAt, created)
          ensures !LexLess(front[i].mergedAt, pr.mergedAt)
        {
          LexMixed(pr.mergedAt, front[window.value].mergedAt, front[i].mergedAt);
          LexAsymmetricUnless(pr.mergedAt, front[i].mergedAt);
        }
        window := Some(|front|);
      }
    }
  }

  lemma SomeWindowHolds(merged: seq<PullRequest>, branch: string, created: Time) returns (window: Option<nat>)
    requires created != []
    ensures Holds(merged, branch, window, created)
  {
    window := EarliestFrom(merged, branch, created);
    var until := End(merged, window);
    SinceIsLatest(merged, branch, until);
    if Since(merged, branch, until) != [] {
      var i :|
        0 <= i < |merged| && Before(merged[i], branch, until) && merged[i].mergedAt == Since(merged, branch, until);
    }
  }

  lemma WindowsApart(merged: seq<PullRequest>, branch: string, created: Time, v: Option<nat>, w: Option<nat>)
    requires Holds(merged, branch, v, created) && Holds(merged, branch, w, created)
    ensures v == w || (v.Some? && w.Some? && merged[v.value].mergedAt == merged[w.value].mergedAt)
  {
    if v.Some? { EarlierShuts(merged, branch, created, v.value, w); }
    if w.Some? { EarlierShuts(merged, branch, created, w.value, v); }
    if v.Some? && w.Some? { LexTrichotomy(merged[v.value].mergedAt, merged[w.value].mergedAt); }
  }

  lemma EarlierShuts(merged: seq<PullRequest>, branch: string, created: Time, i: nat, window: Option<nat>)
    requires Holds(merged, branch, Some(i), created) && Holds(merged, branch, window, created)
    ensures !Before(merged[i], branch, End(merged, window))
  {
    var until := End(merged, window);
    SinceIsLatest(merged, branch, until);
    LexMixed(merged[i].mergedAt, Since(merged, branch, until), created);
  }

  ghost predicate OneWindow(merged: seq<PullRequest>, branch: string, created: Time)
  {
    && (exists w :: Holds(merged, branch, w, created))
    && (forall v, w | Holds(merged, branch, v, created) && Holds(merged, branch, w, created) :: v == w)
  }

  lemma DistinctGiveOne(merged: seq<PullRequest>, branch: string, created: Time)
    requires DistinctMerges(merged, branch) && created != []
    ensures OneWindow(merged, branch, created)
  {
    var some := SomeWindowHolds(merged, branch, created);
    forall v, w | Holds(merged, branch, v, created) && Holds(merged, branch, w, created)
      ensures v == w
    {
      WindowsApart(merged, branch, created, v, w);
      if v.Some? { HeldIsAfterEmpty(merged, branch, created, v.value); }
    }
  }

  /** The windows of a branch's merged pull requests, with the open one of the branch as it is now,
      give every creation time to exactly one exactly when no two merges have the same time. */
  lemma WindowsPartitionExactly(merged: seq<PullRequest>, branch: string)
    ensures (forall created: Time :: created != [] ==> OneWindow(merged, branch, created)) <==>
            DistinctMerges(merged, branch)
  {
    if DistinctMerges(merged, branch) {
      forall created: Time
        ensures created != [] ==> OneWindow(merged, branch, created)
      {
        if created != [] { DistinctGiveOne(merged, branch, created); }
      }
    } else {
      var i, j :| 0 <= i < j < |merged| && merged[i].branch == branch && merged[j].branch == branch
                  && merged[i].mergedAt != [] && merged[i].mergedAt == merged[j].mergedAt;
      MergeTimeIsHeld(merged, branch, i);
      MergeTimeIsHeld(merged, branch, j);
      assert !OneWindow(merged, branch, merged[i].mergedAt);
    }
  }

  /** A window of the run's branch lists the run. */
  predicate Lists(runs: seq<Run>, merged: seq<PullRequest>, run: Run, window: Option<nat>)
  {
    IsWindow(merged, run.branch, window) && run in BranchRuns(runs, run.branch, merged, End(merged, window))
  }

  /** So every run of the branch that has a creation time is listed in exactly one window. */
  lemma RunIsListedOnce(runs: seq<Run>, merged: seq<PullRequest>, run: Run)
    requires DistinctMerges(merged, run.branch) && run in runs && run.created != []
    ensures exists w :: Lists(runs, merged, run, w) && forall v | Lists(runs, merged, run, v) :: v == w
  {
    DistinctGiveOne(merged, run.branch, run.created);
    forall v: Option<nat>
      ensures Lists(runs, merged, run, v) <==> Holds(merged, run.branch, v, run.created)
    {
      if IsWindow(merged, run.branch, v) { BranchRunsHolds(runs, run.branch, merged, End(merged, v), run); }
    }
  }

  lemma HeldIsAfterEmpty(merged: seq<PullRequest>, branch: string, created: Time, i: nat)
    requires Holds(merged, branch, Some(i), created) && created != []
    ensures merged[i].mergedAt != []
  {
  }

  lemma MergeTimeIsHeld(merged: seq<PullRequest>, branch: string, i: nat)
    requires i < |merged| && merged[i].branch == branch && merged[i].mergedAt != []
    ensures Holds(merged, branch, Some(i), merged[i].mergedAt)
  {
    var until := Some(merged[i].mergedAt);
    SinceIsLatest(merged, branch, until);
    LexIrreflexive(merged[i].mergedAt);
  }
}
