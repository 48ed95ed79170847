/** One-time redemption (`reject_if_redeemed` and `redeem_after_lock` in src/delegation.rs) as the
    steps of any number of concurrent calls over one directory, with I/O errors, killed processes
    and machine crashes between any two steps.

    The directory is kept as it is seen and as a crash may leave it. A machine crash gives every
    name, independently, one of the bindings it has had since the directory was last synced; a file
    keeps its contents only if it was synced after its last write, and otherwise holds anything. */
module ReplayProtocol {
  import opened ByteStrings
  import opened ReplayRecord

  type Pid = nat
  type Inode = nat

  // ----- The directory ------------------------------------------------------------------

  datatype Disk = Disk(
    names: map<Name, Inode>,
    data: map<Inode, bytes>,
    earlier: map<Name, set<Option<Inode>>>,  // bindings since the last directory sync
    clean: set<Inode>)                         // files synced since their last write

  function Binding(d: Disk, name: Name): Option<Inode>
  {
    if name in d.names then Some(d.names[name]) else None
  }

  /** What `name` may be bound to if the machine crashes now. */
  function Possible(d: Disk, name: Name): set<Option<Inode>>
  {
    {Binding(d, name)} + if name in d.earlier then d.earlier[name] else {}
  }

  function Rebind(d: Disk, name: Name, binding: Option<Inode>): Disk
  {
    d.(names := if binding.Some? then d.names[name := binding.value] else d.names - {name},
       earlier := d.earlier[name := Possible(d, name)])
  }

  function SyncDirectory(d: Disk): Disk { d.(earlier := map[]) }

  function WriteFile(d: Disk, file: Inode, contents: bytes): Disk
  {
    d.(data := d.data[file := contents], clean := d.clean - {file})
  }

  ghost predicate CrashLeaves(d: Disk, names: map<Name, Inode>, data: map<Inode, bytes>)
  {
    && data.Keys == d.data.Keys
    && (forall file | file in d.clean && file in data && file in d.data :: data[file] == d.data[file])
    && (forall name: Name ::
          (if name in names then Some(names[name]) else None) in Possible(d, name))
  }

  // ----- Calls --------------------------------------------------------------------------

  datatype Outcome = Redeemed | AlreadyRedeemed | Unreadable(error: RecordError) | TooLong | Failed

  /** Where a call stands: each constructor names what it does next. */
  datatype Pc =
    | Prechecking | Locking | Stamping | Checking(now: int) | Creating(now: int) | Recording
    | Writing(done: nat) | SyncingFile | Linking | SyncingLink | Unlinking | SyncingUnlink
    | CleaningUp(exists_: bool) | Rereading
    | Returned(outcome: Outcome) | Killed

  datatype TemporaryFile = TemporaryFile(name: Name, file: Inode, at: int)

  datatype Call = Call(request: RequestId, digest: Digest, pc: Pc, temp: Option<TemporaryFile>)

  /** `exclusive` says whether the lock keeps other calls out. */
  datatype State = State(exclusive: bool, disk: Disk, calls: map<Pid, Call>)

  predicate Finished(c: Call) { c.pc.Returned? || c.pc.Killed? }

  /** The calls that hold the lock. */
  predicate Critical(c: Call) { !Finished(c) && !c.pc.Prechecking? && !c.pc.Locking? }

  datatype Event =
    | Precheck | Lock | Stamp(now: int) | Check | Create(nonce: Nonce, file: Inode) | Record
    | Write(count: nat) | SyncFile | Link | SyncLink | Unlink | SyncUnlink
    | CleanUp(removed: bool) | Reread | IoError | Kill

  datatype Step =
    | Begin(pid: Pid, request: RequestId, digest: Digest)
    | Act(pid: Pid, event: Event)
    | Crash(names: map<Name, Inode>, data: map<Inode, bytes>)

  /** What reading an existing final name makes of the call. */
  function ReadOutcome(contents: bytes, c: Call): Outcome
  {
    if |contents| > RECORD_LEN then TooLong
    else match ValidateRecord(contents, c.request, c.digest)
      case Ok(_) => AlreadyRedeemed
      case Err(error) => Unreadable(error)
  }

  function Contents(d: Disk, name: Name): Option<bytes>
  {
    if name in d.names && d.names[name] in d.data then Some(d.data[d.names[name]]) else None
  }

  /** A random temporary name either meets an excluding lock or repeats none used before. */
  predicate NameAvailable(s: State, name: Name)
  {
    s.exclusive || forall p | p in s.calls && s.calls[p].temp.Some? :: s.calls[p].temp.value.name != name
  }

  predicate EventEnabled(s: State, c: Call, e: Event)
  {
    match e
    case Precheck => c.pc.Prechecking?
    case Lock => c.pc.Locking? && (s.exclusive ==> forall q | q in s.calls :: !Critical(s.calls[q]))
    case Stamp(_) => c.pc.Stamping?
    case Check => c.pc.Checking?
    case Create(nonce, file) =>
      c.pc.Creating? && file !in s.disk.data
      && NameAvailable(s, Temporary(c.request, nonce))
    case Record => c.pc.Recording? && c.temp.Some?
    case Write(count) => c.pc.Writing? && c.temp.Some? && 0 < count && c.pc.done + count <= RECORD_LEN
                         && Timestamp(c.temp.value.at)
    case SyncFile => c.pc.SyncingFile? && c.temp.Some?
    case Link => c.pc.Linking? && c.temp.Some?
    case SyncLink => c.pc.SyncingLink?
    case Unlink => c.pc.Unlinking? && c.temp.Some?
    case SyncUnlink => c.pc.SyncingUnlink?
    case CleanUp(_) => c.pc.CleaningUp? && c.temp.Some?
    case Reread => c.pc.Rereading?
    case IoError => !Finished(c) && !c.pc.CleaningUp?
    case Kill => !Finished(c)
  }

  ghost predicate Enabled(s: State, step: Step)
  {
    match step
    case Begin(pid, request, _) => pid !in s.calls
    case Act(pid, event) => pid in s.calls && EventEnabled(s, s.calls[pid], event)
    case Crash(names, data) => CrashLeaves(s.disk, names, data)
  }

  function NextCall(d: Disk, c: Call, e: Event): Call
  {
    match e
    case Precheck =>
      if !ValidRequest(c.request) then c.(pc := Returned(Failed))
      else (match Contents(d, Final(c.request))
            case Some(contents) => c.(pc := Returned(ReadOutcome(contents, c)))
            case None => c.(pc := Locking))
    case Lock => c.(pc := Stamping)
    case Stamp(now) => c.(pc := Checking(now))
    case Check =>
      (match Contents(d, Final(c.request))
       case Some(contents) => c.(pc := Returned(ReadOutcome(contents, c)))
       case None => if c.pc.Checking? then c.(pc := Creating(c.pc.now)) else c)
    case Create(nonce, file) =>
      var name := Temporary(c.request, nonce);
      if name in d.names then c.(pc := Returned(Failed))
      else if c.pc.Creating? then c.(pc := Recording, temp := Some(TemporaryFile(name, file, c.pc.now)))
      else c
    case Record =>
      if c.temp.Some? && RedeemRecord(c.request, c.digest, c.temp.value.at).Ok?
      then c.(pc := Writing(0)) else c.(pc := Returned(Failed))
    case Write(count) =>
      if c.pc.Writing? && c.pc.done + count < RECORD_LEN then c.(pc := Writing(c.pc.done + count))
      else c.(pc := SyncingFile)
    case SyncFile => c.(pc := Linking)
    case Link =>
      if Final(c.request) in d.names then c.(pc := CleaningUp(true))
      else if c.temp.Some? && c.temp.value.name in d.names then c.(pc := SyncingLink)
      else c.(pc := CleaningUp(false))
    case SyncLink => c.(pc := Unlinking)
    case Unlink =>
      if c.temp.Some? && c.temp.value.name in d.names then c.(pc := SyncingUnlink)
      else c.(pc := CleaningUp(false))
    case SyncUnlink => c.(pc := Returned(Redeemed))
    case CleanUp(_) =>
      if c.pc.CleaningUp? && c.pc.exists_ then c.(pc := Rereading) else c.(pc := Returned(Failed))
    case Reread =>
      (match Contents(d, Final(c.request))
       case Some(contents) => c.(pc := Returned(ReadOutcome(contents, c)))
       case None => c.(pc := Returned(Failed)))
    case IoError =>
      if c.pc.Recording? || c.pc.Writing? || c.pc.SyncingFile? || c.pc.Linking? || c.pc.SyncingLink?
         || c.pc.Unlinking? || c.pc.SyncingUnlink?
      then c.(pc := CleaningUp(false)) else c.(pc := Returned(Failed))
    case Kill => c.(pc := Killed)
  }

  function NextDisk(d: Disk, c: Call, e: Event): Disk
  {
    match e
    case Create(nonce, file) =>
      var name := Temporary(c.request, nonce);
      if name in d.names then d else WriteFile(Rebind(d, name, Some(file)), file, [])
    case Write(count) =>
      if c.temp.Some? && c.temp.value.at >= 0 && c.pc.Writing? && c.pc.done + count <= RECORD_LEN
      then WriteFile(d, c.temp.value.file,
                     RecordBytes(c.request, c.digest, c.temp.value.at)[..c.pc.done + count])
      else d
    case SyncFile => if c.temp.Some? then d.(clean := d.clean + {c.temp.value.file}) else d
    case Link =>
      // No-replace: an existing final name is an error and stays as it is.
      if Final(c.request) !in d.names && c.temp.Some? && c.temp.value.name in d.names
      then Rebind(d, Final(c.request), Some(d.names[c.temp.value.name])) else d
    case SyncLink => SyncDirectory(d)
    case Unlink =>
      if c.temp.Some? && c.temp.value.name in d.names then Rebind(d, c.temp.value.name, None) else d
    case SyncUnlink => SyncDirectory(d)
    case CleanUp(removed) => if removed && c.temp.Some? then Rebind(d, c.temp.value.name, None) else d
    case _ => d
  }

  ghost function Apply(s: State, step: Step): State
    requires Enabled(s, step)
  {
    match step
    case Begin(pid, request, digest) =>
      s.(calls := s.calls[pid := Call(request, digest, Prechecking, None)])
    case Act(pid, event) =>
      var c := s.calls[pid];
      s.(disk := NextDisk(s.disk, c, event), calls := s.calls[pid := NextCall(s.disk, c, event)])
    case Crash(names, data) =>
      // Every running call dies; what survived is now what is on the disk.
      s.(disk := Disk(names, data, map[], data.Keys),
         calls := map p | p in s.calls :: if Finished(s.calls[p]) then s.calls[p] else s.calls[p].(pc := Killed))
  }

  ghost predicate Initial(s: State)
  {
    s.disk == Disk(map[], map[], map[], {}) && s.calls == map[]
  }

  /** A run: any number of calls, interleaved, failing and crashing in any way. */
  ghost predicate Run(states: seq<State>, steps: seq<Step>)
  {
    && |states| == |steps| + 1
    && Initial(states[0])
    && forall i | 0 <= i < |steps| :: Enabled(states[i], steps[i]) && states[i + 1] == Apply(states[i], steps[i])
  }

  // ----- The invariant ------------------------------------------------------------------

  /** A file that holds a complete, synced record of a call with this request. */
  ghost predicate HoldsRecord(d: Disk, file: Inode, request: RequestId, digest: Digest, at: int)
  {
    Timestamp(at) && file in d.clean && file in d.data && d.data[file] == RecordBytes(request, digest, at)
  }

  ghost predicate IsRecordFile(d: Disk, name: Name, file: Inode)
  {
    exists request: RequestId, digest: Digest, at: int ::
      name == Final(request) && HoldsRecord(d, file, request, digest, at)
  }

  /** Whatever a final name is or may become bound to holds a complete record for it. */
  ghost predicate FinalNamesHoldRecords(d: Disk)
  {
    forall name: Name, file: Inode | name.Final? && Some(file) in Possible(d, name) :: IsRecordFile(d, name, file)
  }

  predicate Early(pc: Pc)
  {
    pc.Prechecking? || pc.Locking? || pc.Stamping? || pc.Checking? || pc.Creating?
  }

  predicate Unpublished(pc: Pc) { pc.Recording? || pc.Writing? || pc.SyncingFile? || pc.Linking? }

  predicate Published(pc: Pc) { pc.Unlinking? || pc.SyncingUnlink? || pc == Returned(Redeemed) }

  /** What a call may rely on at the point where it stands. */
  ghost predicate CallKnows(d: Disk, c: Call)
  {
    && (Early(c.pc) ==> c.temp.None?)
    && (Unpublished(c.pc) || c.pc.SyncingLink? || Published(c.pc) || c.pc.CleaningUp? ==> c.temp.Some?)
    && (c.temp.Some? ==> c.temp.value.file in d.data && !c.temp.value.name.Final?)
    && (Unpublished(c.pc) ==>
          && Binding(d, c.temp.value.name) == Some(c.temp.value.file)
          && forall name: Name | name.Final? :: Some(c.temp.value.file) !in Possible(d, name))
    && (c.pc.Recording? ==> d.data[c.temp.value.file] == [])
    && (c.pc.Writing? ==>
          && Timestamp(c.temp.value.at) && c.pc.done < RECORD_LEN
          && d.data[c.temp.value.file] == RecordBytes(c.request, c.digest, c.temp.value.at)[..c.pc.done])
    && (c.pc.SyncingFile? ==>
          && Timestamp(c.temp.value.at)
          && d.data[c.temp.value.file] == RecordBytes(c.request, c.digest, c.temp.value.at))
    && (c.pc.Linking? || c.pc.SyncingLink? || Published(c.pc) ==>
          HoldsRecord(d, c.temp.value.file, c.request, c.digest, c.temp.value.at))
    && (c.pc.SyncingLink? ==> Binding(d, Final(c.request)) == Some(c.temp.value.file))
    && (Published(c.pc) ==> Possible(d, Final(c.request)) == {Some(c.temp.value.file)})
  }

  /** Calls use files of their own, running ones names of their own, and an excluding lock excludes. */
  predicate PairApart(exclusive: bool, c: Call, other: Call)
  {
    && (c.temp.Some? && other.temp.Some? ==> c.temp.value.file != other.temp.value.file)
    && (Critical(c) && Critical(other) ==>
          && !exclusive
          && (c.temp.Some? && other.temp.Some? ==> c.temp.value.name != other.temp.value.name))
  }

  ghost predicate CallsApart(s: State)
  {
    forall p, q | p in s.calls && q in s.calls && p != q :: PairApart(s.exclusive, s.calls[p], s.calls[q])
  }

  ghost predicate BoundFilesExist(d: Disk)
  {
    && (forall name: Name, file: Inode | Some(file) in Possible(d, name) :: file in d.data)
    && d.clean <= d.data.Keys
  }

  ghost predicate Inv(s: State)
  {
    && BoundFilesExist(s.disk)
    && FinalNamesHoldRecords(s.disk)
    && (forall p | p in s.calls :: CallKnows(s.disk, s.calls[p]))
    && CallsApart(s)
  }

  // ----- Each step keeps the invariant --------------------------------------------------

  lemma CrashKeepsInv(s: State, step: Step)
    requires Inv(s) && step.Crash? && Enabled(s, step)
    ensures Inv(Apply(s, step))
  {
    var s' := Apply(s, step);
    var d, d' := s.disk, s'.disk;
    forall name: Name
      ensures Possible(d', name) == {Binding(d', name)} && Binding(d', name) in Possible(d, name)
    {}
    forall name: Name, file: Inode | name.Final? && Some(file) in Possible(d', name)
      ensures IsRecordFile(d', name, file)
    {
      assert IsRecordFile(d, name, file);
      var request: RequestId, digest: Digest, at: int :|
        name == Final(request) && HoldsRecord(d, file, request, digest, at);
      assert HoldsRecord(d', file, request, digest, at);
    }
    forall p | p in s'.calls
      ensures CallKnows(d', s'.calls[p])
    {
      assert CallKnows(d, s.calls[p]);
    }
  }

  /** The part of the directory that a call relies on is the same in `d'` as in `d`. */
  ghost predicate SameFor(d: Disk, d': Disk, c: Call)
  {
    && d.data.Keys <= d'.data.Keys
    && (c.temp.Some? && c.temp.value.file in d.data ==>
          && d'.data[c.temp.value.file] == d.data[c.temp.value.file]
          && (c.temp.value.file in d.clean ==> c.temp.value.file in d'.clean))
    && (Unpublished(c.pc) && c.temp.Some? ==>
          && Binding(d', c.temp.value.name) == Binding(d, c.temp.value.name)
          && forall name: Name | name.Final? && Some(c.temp.value.file) in Possible(d', name) ::
               Some(c.temp.value.file) in Possible(d, name))
    && (c.pc.SyncingLink? ==> Binding(d', Final(c.request)) == Binding(d, Final(c.request)))
    && (Published(c.pc) ==> Possible(d', Final(c.request)) == Possible(d, Final(c.request)))
  }

  lemma StillKnows(d: Disk, d': Disk, c: Call)
    requires CallKnows(d, c) && SameFor(d, d', c)
    ensures CallKnows(d', c)
  {
  }

  ghost predicate Others(s: State, p: Pid, d': Disk)
  {
    forall q | q in s.calls && q != p :: SameFor(s.disk, d', s.calls[q])
  }

  /** State `s` after call `p` has moved to `c'` and the directory to `d'`. */
  ghost function Moved(s: State, p: Pid, d': Disk, c': Call): State
  {
    s.(disk := d', calls := s.calls[p := c'])
  }

  /** Only a create gives a call a temporary file, a fresh one, and only a lock brings it in. */
  lemma PlaceAfter(s: State, c: Call, e: Event)
    requires EventEnabled(s, c, e)
    ensures var c' := NextCall(s.disk, c, e);
            && (c'.temp == c.temp
                || (e.Create? && Critical(c) && c'.temp.Some? && c'.temp.value.file == e.file
                    && c'.temp.value.name == Temporary(c.request, e.nonce)))
            && (Critical(c') && !Critical(c) ==> e.Lock?)
  {
  }

  lemma PairStaysApart(s: State, p: Pid, e: Event, q: Pid)
    requires Inv(s) && p in s.calls && q in s.calls && p != q && EventEnabled(s, s.calls[p], e)
    ensures PairApart(s.exclusive, NextCall(s.disk, s.calls[p], e), s.calls[q])
  {
    PlaceAfter(s, s.calls[p], e);
    assert CallKnows(s.disk, s.calls[p]) && CallKnows(s.disk, s.calls[q]);
    assert PairApart(s.exclusive, s.calls[p], s.calls[q]);
  }

  lemma CallsStayApart(s: State, p: Pid, e: Event)
    requires Inv(s) && p in s.calls && EventEnabled(s, s.calls[p], e)
    ensures CallsApart(Moved(s, p, NextDisk(s.disk, s.calls[p], e), NextCall(s.disk, s.calls[p], e)))
  {
    forall q | q in s.calls && q != p
      ensures PairApart(s.exclusive, NextCall(s.disk, s.calls[p], e), s.calls[q])
    {
      PairStaysApart(s, p, e, q);
    }
  }

  /** Puts a step's parts together: the directory, the acting call, and all the others. */
  lemma Assemble(s: State, p: Pid, e: Event)
    requires Inv(s) && p in s.calls && EventEnabled(s, s.calls[p], e)
    requires var d' := NextDisk(s.disk, s.calls[p], e);
             && BoundFilesExist(d') && FinalNamesHoldRecords(d') && Others(s, p, d')
             && CallKnows(d', NextCall(s.disk, s.calls[p], e))
    ensures Inv(Moved(s, p, NextDisk(s.disk, s.calls[p], e), NextCall(s.disk, s.calls[p], e)))
  {
    var s' := Moved(s, p, NextDisk(s.disk, s.calls[p], e), NextCall(s.disk, s.calls[p], e));
    forall q | q in s'.calls
      ensures CallKnows(s'.disk, s'.calls[q])
    {
      if q != p { StillKnows(s.disk, s'.disk, s.calls[q]); }
    }
    CallsStayApart(s, p, e);
  }

  predicate Quiet(e: Event)
  {
    e.Precheck? || e.Lock? || e.Stamp? || e.Check? || e.Record? || e.Reread? || e.IoError? || e.Kill?
  }

  /** Events that leave the directory alone leave the call with what it needs to know. */
  lemma QuietKnows(s: State, d: Disk, c: Call, e: Event)
    requires CallKnows(d, c) && Quiet(e) && EventEnabled(s, c, e)
    ensures CallKnows(d, NextCall(d, c, e))
  {
    if e.Record? && NextCall(d, c, e).pc.Writing? {
      var record := RecordBytes(c.request, c.digest, c.temp.value.at);
      assert record[..0] == [];
    }
  }

  /** Files bound to final names before are bound to them now, with the same contents. */
  lemma RecordsStay(d: Disk, d': Disk)
    requires BoundFilesExist(d) && FinalNamesHoldRecords(d)
    requires forall name: Name, file: Inode | name.Final? && Some(file) in Possible(d', name) ::
               && Some(file) in Possible(d, name)
               && (file in d.clean && file in d.data ==>
                     file in d'.clean && file in d'.data && d'.data[file] == d.data[file])
    ensures FinalNamesHoldRecords(d')
  {
    forall name: Name, file: Inode | name.Final? && Some(file) in Possible(d', name)
      ensures IsRecordFile(d', name, file)
    {
      assert IsRecordFile(d, name, file);
      var request: RequestId, digest: Digest, at: int :|
        name == Final(request) && HoldsRecord(d, file, request, digest, at);
      assert HoldsRecord(d', file, request, digest, at);
    }
  }

  /** Changing a temporary name changes no other name. */
  lemma RebindOther(d: Disk, name: Name, binding: Option<Inode>)
    ensures var d' := Rebind(d, name, binding);
            && Possible(d', name) == Possible(d, name) + {binding} && Binding(d', name) == binding
            && forall n: Name | n != name :: Possible(d', n) == Possible(d, n) && Binding(d', n) == Binding(d, n)
  {
  }

  lemma CreateFrame(s: State, p: Pid, name: Name, file: Inode)
    requires Inv(s) && file !in s.disk.data && name.Temporary? && name !in s.disk.names
    ensures var d' := WriteFile(Rebind(s.disk, name, Some(file)), file, []);
            && BoundFilesExist(d') && FinalNamesHoldRecords(d') && Others(s, p, d')
            && Binding(d', name) == Some(file)
            && forall n: Name | n.Final? :: Some(file) !in Possible(d', n)
  {
    var d := s.disk;
    var m := Rebind(d, name, Some(file));
    RebindOther(d, name, Some(file));
    var d' := WriteFile(m, file, []);
    assert forall n: Name :: Possible(d', n) == Possible(m, n) && Binding(d', n) == Binding(m, n);
    RecordsStay(d, d');
    forall q | q in s.calls && q != p
      ensures SameFor(d, d', s.calls[q])
    {
      assert CallKnows(d, s.calls[q]);
    }
  }

  /** Writing or syncing its own unpublished file disturbs nobody else. */
  lemma FileFrame(s: State, p: Pid, d': Disk)
    requires Inv(s) && p in s.calls && s.calls[p].temp.Some? && Unpublished(s.calls[p].pc)
    requires d'.names == s.disk.names && d'.earlier == s.disk.earlier
    requires d'.data.Keys == s.disk.data.Keys && d'.clean <= s.disk.data.Keys
    requires forall f | f in s.disk.data && f != s.calls[p].temp.value.file ::
               d'.data[f] == s.disk.data[f] && (f in s.disk.clean ==> f in d'.clean)
    ensures BoundFilesExist(d') && FinalNamesHoldRecords(d') && Others(s, p, d')
    ensures forall n: Name :: Possible(d', n) == Possible(s.disk, n) && Binding(d', n) == Binding(s.disk, n)
  {
    var d := s.disk;
    assert CallKnows(d, s.calls[p]);
    assert forall n: Name :: Possible(d', n) == Possible(d, n) && Binding(d', n) == Binding(d, n);
    RecordsStay(d, d');
    forall q | q in s.calls && q != p
      ensures SameFor(d, d', s.calls[q])
    {
      assert CallKnows(d, s.calls[q]);
    }
  }

  lemma LinkKeepsRecords(d: Disk, d': Disk, name: Name, file: Inode)
    requires FinalNamesHoldRecords(d) && IsRecordFile(d, name, file)
    requires d' == Rebind(d, name, Some(file))
    ensures FinalNamesHoldRecords(d')
  {
    RebindOther(d, name, Some(file));
    forall n: Name, f: Inode | n.Final? && Some(f) in Possible(d', n)
      ensures IsRecordFile(d', n, f)
    {
      assert IsRecordFile(d, n, f);
      var request: RequestId, digest: Digest, at: int :|
        n == Final(request) && HoldsRecord(d, f, request, digest, at);
      assert HoldsRecord(d', f, request, digest, at);
    }
  }

  /** A link cannot disturb another call: a call that has published has its own final name taken. */
  lemma LinkFrame(s: State, p: Pid, d': Disk)
    requires Inv(s) && p in s.calls && s.calls[p].pc.Linking? && s.calls[p].temp.Some?
    requires Final(s.calls[p].request) !in s.disk.names
    requires d' == Rebind(s.disk, Final(s.calls[p].request), Some(s.calls[p].temp.value.file))
    ensures BoundFilesExist(d') && FinalNamesHoldRecords(d') && Others(s, p, d')
  {
    var d, c := s.disk, s.calls[p];
    var final, file := Final(c.request), c.temp.value.file;
    assert CallKnows(d, c);
    assert HoldsRecord(d, file, c.request, c.digest, c.temp.value.at);
    LinkKeepsRecords(d, d', final, file);
    RebindOther(d, final, Some(file));
    forall q | q in s.calls && q != p
      ensures SameFor(d, d', s.calls[q])
    {
      assert CallKnows(d, s.calls[q]);
      if Published(s.calls[q].pc) {
        assert Binding(d, Final(s.calls[q].request)) in Possible(d, Final(s.calls[q].request));
      }
    }
  }

  lemma SyncFrame(s: State, p: Pid)
    requires Inv(s)
    ensures var d' := SyncDirectory(s.disk);
            && BoundFilesExist(d') && FinalNamesHoldRecords(d') && Others(s, p, d')
            && forall n: Name :: Possible(d', n) == {Binding(s.disk, n)} && Binding(d', n) == Binding(s.disk, n)
  {
    var d, d' := s.disk, SyncDirectory(s.disk);
    forall n: Name
      ensures Possible(d', n) == {Binding(d, n)} && Binding(d', n) == Binding(d, n)
      ensures Possible(d', n) <= Possible(d, n)
    {}
    RecordsStay(d, d');
    forall n: Name, file: Inode | Some(file) in Possible(d', n)
      ensures file in d'.data
    {
      assert Some(file) in Possible(d, n);
    }
    forall q | q in s.calls && q != p
      ensures SameFor(d, d', s.calls[q])
    {
      assert CallKnows(d, s.calls[q]);
    }
  }

  lemma UnlinkFrame(s: State, p: Pid, d': Disk)
    requires Inv(s) && p in s.calls && Critical(s.calls[p]) && s.calls[p].temp.Some?
    requires d' == Rebind(s.disk, s.calls[p].temp.value.name, None)
    ensures BoundFilesExist(d') && FinalNamesHoldRecords(d') && Others(s, p, d')
    ensures Possible(d', Final(s.calls[p].request)) == Possible(s.disk, Final(s.calls[p].request))
  {
    var d, c := s.disk, s.calls[p];
    assert CallKnows(d, c);
    RebindOther(d, c.temp.value.name, None);
    RecordsStay(d, d');
    forall q | q in s.calls && q != p
      ensures SameFor(d, d', s.calls[q])
    {
      assert CallKnows(d, s.calls[q]);
    }
  }

  /** What an event leaves the directory and the acting call with. */
  ghost predicate LeavesRight(s: State, p: Pid, e: Event)
    requires p in s.calls
  {
    var d' := NextDisk(s.disk, s.calls[p], e);
    && BoundFilesExist(d') && FinalNamesHoldRecords(d') && Others(s, p, d')
    && CallKnows(d', NextCall(s.disk, s.calls[p], e))
  }

  lemma CreateLeavesRight(s: State, p: Pid, e: Event)
    requires Inv(s) && p in s.calls && EventEnabled(s, s.calls[p], e) && e.Create?
    ensures LeavesRight(s, p, e)
  {
    var d, c := s.disk, s.calls[p];
    assert CallKnows(d, c);
    if Temporary(c.request, e.nonce) !in d.names {
      CreateFrame(s, p, Temporary(c.request, e.nonce), e.file);
    }
  }

  lemma FileEventLeavesRight(s: State, p: Pid, e: Event)
    requires Inv(s) && p in s.calls && EventEnabled(s, s.calls[p], e) && (e.Write? || e.SyncFile?)
    ensures LeavesRight(s, p, e)
  {
    var d, c := s.disk, s.calls[p];
    assert CallKnows(d, c);
    FileFrame(s, p, NextDisk(d, c, e));
    var record := RecordBytes(c.request, c.digest, c.temp.value.at);
    assert record[..RECORD_LEN] == record;
  }

  lemma LinkLeavesRight(s: State, p: Pid)
    requires Inv(s) && p in s.calls && EventEnabled(s, s.calls[p], Link)
    ensures LeavesRight(s, p, Link)
  {
    var d, c := s.disk, s.calls[p];
    assert CallKnows(d, c);
    if Final(c.request) !in d.names {
      LinkFrame(s, p, NextDisk(d, c, Link));
      RebindOther(d, Final(c.request), Some(c.temp.value.file));
    }
  }

  lemma SyncLeavesRight(s: State, p: Pid, e: Event)
    requires Inv(s) && p in s.calls && EventEnabled(s, s.calls[p], e) && (e.SyncLink? || e.SyncUnlink?)
    ensures LeavesRight(s, p, e)
  {
    assert CallKnows(s.disk, s.calls[p]);
    SyncFrame(s, p);
  }

  lemma UnlinkLeavesRight(s: State, p: Pid, e: Event)
    requires Inv(s) && p in s.calls && EventEnabled(s, s.calls[p], e) && (e.Unlink? || e.CleanUp?)
    ensures LeavesRight(s, p, e)
  {
    var d, c := s.disk, s.calls[p];
    assert CallKnows(d, c);
    if NextDisk(d, c, e) != d { UnlinkFrame(s, p, NextDisk(d, c, e)); }
  }

  lemma EventKeepsInv(s: State, p: Pid, e: Event)
    requires Inv(s) && p in s.calls && EventEnabled(s, s.calls[p], e)
    ensures Inv(Moved(s, p, NextDisk(s.disk, s.calls[p], e), NextCall(s.disk, s.calls[p], e)))
  {
    match e {
      case Create(_, _) => CreateLeavesRight(s, p, e);
      case Write(_) => FileEventLeavesRight(s, p, e);
      case SyncFile => FileEventLeavesRight(s, p, e);
      case Link => LinkLeavesRight(s, p);
      case SyncLink => SyncLeavesRight(s, p, e);
      case SyncUnlink => SyncLeavesRight(s, p, e);
      case Unlink => UnlinkLeavesRight(s, p, e);
      case CleanUp(_) => UnlinkLeavesRight(s, p, e);
      case _ => QuietKnows(s, s.disk, s.calls[p], e);
    }
    Assemble(s, p, e);
  }

  lemma StepKeepsInv(s: State, step: Step)
    requires Inv(s) && Enabled(s, step)
    ensures Inv(Apply(s, step))
  {
    match step
    case Begin(_, _, _) =>
    case Crash(_, _) => CrashKeepsInv(s, step);
    case Act(p, e) => EventKeepsInv(s, p, e);
  }

  // ----- Every run ----------------------------------------------------------------------

  lemma {:induction false} RunKeepsInv(states: seq<State>, steps: seq<Step>, i: nat)
    requires Run(states, steps) && i < |states|
    ensures Inv(states[i])
  {
    if i > 0 {
      RunKeepsInv(states, steps, i - 1);
      StepKeepsInv(states[i - 1], steps[i - 1]);
    }
  }

  ghost predicate HasRedeemed(s: State, p: Pid, request: RequestId)
  {
    p in s.calls && s.calls[p].pc == Returned(Redeemed) && s.calls[p].request == request
  }

  /** A call that has returned stays as it was. */
  lemma {:induction false} FinishedStays(states: seq<State>, steps: seq<Step>, i: nat, j: nat, p: Pid)
    requires Run(states, steps) && i <= j < |states|
    requires p in states[i].calls && Finished(states[i].calls[p])
    ensures p in states[j].calls && states[j].calls[p] == states[i].calls[p]
  {
    if i < j {
      FinishedStays(states, steps, i, j - 1, p);
      StepKeepsFinished(states[j - 1], steps[j - 1], p);
    }
  }

  lemma StepKeepsFinished(s: State, step: Step, p: Pid)
    requires Enabled(s, step) && p in s.calls && Finished(s.calls[p])
    ensures p in Apply(s, step).calls && Apply(s, step).calls[p] == s.calls[p]
  {
    if step.Act? { assert step.pid != p; }
  }

  /** In every run at most one redemption of a request ever succeeds, whether or not the lock
      excludes: two calls that succeeded at any two moments are one call. */
  lemma AtMostOneRedemption(states: seq<State>, steps: seq<Step>, i: nat, j: nat, p: Pid, q: Pid, request: RequestId)
    requires Run(states, steps) && i < |states| && j < |states|
    requires HasRedeemed(states[i], p, request) && HasRedeemed(states[j], q, request)
    ensures p == q
  {
    var k := if i < j then j else i;
    FinishedStays(states, steps, i, k, p);
    FinishedStays(states, steps, j, k, q);
    RunKeepsInv(states, steps, k);
    var s := states[k];
    assert CallKnows(s.disk, s.calls[p]) && CallKnows(s.disk, s.calls[q]);
    assert Some(s.calls[p].temp.value.file) in Possible(s.disk, Final(request));
  }

  /** Once a call has succeeded, its record can be read in every later state, and no crash can
      leave the name unbound or bound to anything else. */
  lemma RedeemedForever(states: seq<State>, steps: seq<Step>, i: nat, j: nat, p: Pid, request: RequestId)
    requires Run(states, steps) && i <= j < |states|
    requires HasRedeemed(states[i], p, request)
    ensures var d := states[j].disk;
            && Final(request) in d.names && d.names[Final(request)] in d.clean
            && Possible(d, Final(request)) == {Some(d.names[Final(request)])}
            && Contents(d, Final(request)).Some?
            && ValidateRecord(Contents(d, Final(request)).value, request, states[i].calls[p].digest).Ok?
  {
    FinishedStays(states, steps, i, j, p);
    RunKeepsInv(states, steps, j);
    var d, c := states[j].disk, states[j].calls[p];
    assert CallKnows(d, c);
    assert Binding(d, Final(request)) in Possible(d, Final(request));
    GenuineRecordAnswer(request, c.digest, c.temp.value.at, request, c.digest);
  }

  /** Reading the store never finds it malformed: in every state of every run, a call that finds
      its request recorded learns that it was used, or was used by another directive. After a
      success, it learns which of the two by comparing the directives. */
  lemma ReplayAnswer(states: seq<State>, steps: seq<Step>, i: nat, c: Call)
    requires Run(states, steps) && i < |states|
    requires Contents(states[i].disk, Final(c.request)).Some?
    ensures var answer := ReadOutcome(Contents(states[i].disk, Final(c.request)).value, c);
            && (answer == AlreadyRedeemed || answer == Unreadable(DifferentDirective))
            && forall p | HasRedeemed(states[i], p, c.request) ::
                 answer == AlreadyRedeemed <==> c.digest == states[i].calls[p].digest
  {
    RunKeepsInv(states, steps, i);
    var s := states[i];
    var d, name := s.disk, Final(c.request);
    assert Binding(d, name) in Possible(d, name);
    assert IsRecordFile(d, name, d.names[name]);
    var request: RequestId, digest: Digest, at: int :|
      name == Final(request) && HoldsRecord(d, d.names[name], request, digest, at);
    GenuineRecordAnswer(request, digest, at, c.request, c.digest);
    forall p | HasRedeemed(s, p, c.request)
      ensures s.calls[p].digest == digest
    {
      assert CallKnows(d, s.calls[p]);
      var at' := s.calls[p].temp.value.at;
      RecordFields(request, digest, at);
      RecordFields(request, s.calls[p].digest, at');
    }
  }

  // ----- Where records come from --------------------------------------------------------

  /** Call `p` wrote the file, for the request that the name spells, and it still holds that record. */
  ghost predicate Wrote(s: State, p: Pid, name: Name, file: Inode)
  {
    && p in s.calls && s.calls[p].temp.Some? && s.calls[p].temp.value.file == file
    && name == Final(s.calls[p].request)
    && HoldsRecord(s.disk, file, s.calls[p].request, s.calls[p].digest, s.calls[p].temp.value.at)
  }

  /** Every file a final name is or may become bound to was written by a call, and is bound now. */
  ghost predicate Attributed(s: State)
  {
    forall name: Name, file: Inode | name.Final? && Some(file) in Possible(s.disk, name) ::
      Binding(s.disk, name) == Some(file) && exists p :: Wrote(s, p, name, file)
  }

  /** The acting call gives its own final name to its file, and otherwise final names stay. */
  lemma FinalNamesAfter(s: State, c: Call, e: Event, name: Name)
    requires CallKnows(s.disk, c) && EventEnabled(s, c, e) && name.Final?
    ensures var d' := NextDisk(s.disk, c, e);
            && (e.Link? && name == Final(c.request) && name !in s.disk.names ==>
                  && Binding(d', name) == Some(c.temp.value.file) && NextCall(s.disk, c, e).pc == SyncingLink
                  && Possible(d', name) == Possible(s.disk, name) + {Some(c.temp.value.file)})
            && (!(e.Link? && name == Final(c.request) && name !in s.disk.names) ==>
                  Binding(d', name) == Binding(s.disk, name) && Possible(d', name) <= Possible(s.disk, name))
  {
  }

  /** No two calls have one temporary file. */
  lemma OneWriter(s: State, p: Pid, q: Pid)
    requires CallsApart(s) && p in s.calls && q in s.calls && s.calls[p].temp.Some? && s.calls[q].temp.Some?
    requires s.calls[p].temp.value.file == s.calls[q].temp.value.file
    ensures p == q
  {
  }

  /** A call keeps its request and directive, and a temporary file once it has one. */
  lemma CallAfter(s: State, c: Call, e: Event)
    requires CallKnows(s.disk, c) && EventEnabled(s, c, e)
    ensures var c' := NextCall(s.disk, c, e);
            c'.request == c.request && c'.digest == c.digest && (c.temp.Some? ==> c'.temp == c.temp)
  {
  }

  /** A file that a final name is bound to is not written again. */
  lemma BoundFilesStay(s: State, p: Pid, e: Event, name: Name, file: Inode)
    requires Inv(s) && p in s.calls && EventEnabled(s, s.calls[p], e)
    requires name.Final? && Some(file) in Possible(s.disk, name) && file in s.disk.clean
    ensures var d' := NextDisk(s.disk, s.calls[p], e);
            file in s.disk.data && file in d'.data && file in d'.clean && d'.data[file] == s.disk.data[file]
  {
    assert CallKnows(s.disk, s.calls[p]);
  }

  lemma EventKeepsAttributed(s: State, p: Pid, e: Event, name: Name, file: Inode)
    requires Inv(s) && Attributed(s) && p in s.calls && EventEnabled(s, s.calls[p], e)
    requires name.Final? && Some(file) in Possible(NextDisk(s.disk, s.calls[p], e), name)
    ensures var s' := Apply(s, Act(p, e));
            Binding(s'.disk, name) == Some(file) && exists q :: Wrote(s', q, name, file)
  {
    var s' := Apply(s, Act(p, e));
    assert CallKnows(s.disk, s.calls[p]);
    FinalNamesAfter(s, s.calls[p], e, name);
    CallAfter(s, s.calls[p], e);
    if Some(file) in Possible(s.disk, name) {
      var q :| Wrote(s, q, name, file);
      BoundFilesStay(s, p, e, name, file);
      assert Wrote(s', q, name, file);
    } else {
      assert Wrote(s', p, name, file);
    }
  }

  lemma CrashKeepsAttributed(s: State, step: Step, name: Name, file: Inode)
    requires Inv(s) && Attributed(s) && step.Crash? && Enabled(s, step)
    requires name.Final? && Some(file) in Possible(Apply(s, step).disk, name)
    ensures var s' := Apply(s, step);
            Binding(s'.disk, name) == Some(file) && exists q :: Wrote(s', q, name, file)
  {
    var s' := Apply(s, step);
    assert Binding(s'.disk, name) in Possible(s.disk, name);
    var q :| Wrote(s, q, name, file);
    assert Wrote(s', q, name, file);
  }

  lemma StepKeepsAttributed(s: State, step: Step)
    requires Inv(s) && Attributed(s) && Enabled(s, step)
    ensures Attributed(Apply(s, step))
  {
    var s' := Apply(s, step);
    forall name: Name, file: Inode | name.Final? && Some(file) in Possible(s'.disk, name)
      ensures Binding(s'.disk, name) == Some(file) && exists q :: Wrote(s', q, name, file)
    {
      match step
      case Act(p, e) => EventKeepsAttributed(s, p, e, name, file);
      case Crash(_, _) => CrashKeepsAttributed(s, step, name, file);
      case Begin(_, _, _) =>
        var q :| Wrote(s, q, name, file);
        assert Wrote(s', q, name, file);
    }
  }

  lemma {:induction false} RunKeepsAttributed(states: seq<State>, steps: seq<Step>, i: nat)
    requires Run(states, steps) && i < |states|
    ensures Attributed(states[i])
  {
    if i > 0 {
      RunKeepsAttributed(states, steps, i - 1);
      RunKeepsInv(states, steps, i - 1);
      StepKeepsAttributed(states[i - 1], steps[i - 1]);
    }
  }

  /** The times that a call carries are ones it was given under the lock. */
  ghost predicate CarriesStamps(steps: seq<Step>, p: Pid, c: Call)
  {
    && (c.pc.Checking? || c.pc.Creating? ==> Act(p, Stamp(c.pc.now)) in steps)
    && (c.temp.Some? ==> Act(p, Stamp(c.temp.value.at)) in steps)
  }

  lemma EventKeepsStamps(s: State, steps: seq<Step>, p: Pid, e: Event)
    requires p in s.calls && EventEnabled(s, s.calls[p], e) && CarriesStamps(steps, p, s.calls[p])
    ensures CarriesStamps(steps + [Act(p, e)], p, NextCall(s.disk, s.calls[p], e))
  {
    assert Act(p, e) in steps + [Act(p, e)] && steps <= steps + [Act(p, e)];
  }

  lemma {:induction false} RunCarriesStamps(states: seq<State>, steps: seq<Step>, i: nat, p: Pid)
    requires Run(states, steps) && i < |states| && p in states[i].calls
    ensures CarriesStamps(steps[..i], p, states[i].calls[p])
  {
    if i > 0 {
      var s, step := states[i - 1], steps[i - 1];
      assert steps[..i] == steps[..i - 1] + [step];
      if p in s.calls {
        RunCarriesStamps(states, steps, i - 1, p);
        if step.Act? && step.pid == p { EventKeepsStamps(s, steps[..i - 1], p, step.event); }
      }
    }
  }

  /** In every state of every run, whatever a `redeemed-` name is bound to, or would be bound to
      after a crash, is a complete record that one call wrote: for the one request the name spells,
      for that call's directive, and with a time it was given under the lock. */
  lemma EveryEntryIsARecord(states: seq<State>, steps: seq<Step>, i: nat, name: Name, file: Inode) returns (p: Pid)
    requires Run(states, steps) && i < |states|
    requires name.Final? && Some(file) in Possible(states[i].disk, name)
    ensures Wrote(states[i], p, name, file)
    ensures var c := states[i].calls[p];
            && ValidateRecord(states[i].disk.data[file], c.request, c.digest).Ok?
            && Act(p, Stamp(c.temp.value.at)) in steps[..i]
            && forall other: RequestId | name == Final(other) :: other == c.request
    ensures forall q | Wrote(states[i], q, name, file) :: q == p
  {
    RunKeepsInv(states, steps, i);
    RunKeepsAttributed(states, steps, i);
    var s := states[i];
    p :| Wrote(s, p, name, file);
    var c := s.calls[p];
    RunCarriesStamps(states, steps, i, p);
    GenuineRecordAnswer(c.request, c.digest, c.temp.value.at, c.request, c.digest);
    forall q | Wrote(s, q, name, file)
      ensures q == p
    {
      OneWriter(s, p, q);
    }
  }

  // ----- Failing with a record ----------------------------------------------------------

  /** The final name of call `p` is bound to the record it wrote. */
  ghost predicate LeftRecord(s: State, p: Pid)
  {
    && p in s.calls && s.calls[p].temp.Some?
    && Binding(s.disk, Final(s.calls[p].request)) == Some(s.calls[p].temp.value.file)
  }

  /** At step `k` call `p` made its link. */
  ghost predicate LinkedAt(states: seq<State>, steps: seq<Step>, k: nat, p: Pid)
    requires k < |steps| < |states|
  {
    steps[k] == Act(p, Link) && p in states[k + 1].calls && states[k + 1].calls[p].pc == SyncingLink
  }

  predicate SyncsDirectory(step: Step) { step.Act? && (step.event.SyncLink? || step.event.SyncUnlink?) }

  /** Between steps `k` and `j` the directory was synced. */
  predicate SyncedBetween(steps: seq<Step>, k: nat, j: nat)
    requires k <= j <= |steps|
  {
    exists m :: k < m < j && SyncsDirectory(steps[m])
  }

  /** Every crash since step `k` came after a directory sync, or happened to keep the name. */
  predicate NameSurvives(steps: seq<Step>, k: nat, i: nat, name: Name)
    requires k < i <= |steps|
  {
    forall j | k < j < i && steps[j].Crash? :: SyncedBetween(steps, k, j) || name in steps[j].names
  }

  lemma LeftAfterStep(s: State, step: Step, p: Pid)
    requires Inv(s) && Attributed(s) && Enabled(s, step) && LeftRecord(Apply(s, step), p) && !LeftRecord(s, p)
    ensures step == Act(p, Link) && Apply(s, step).calls[p].pc == SyncingLink
  {
    var s' := Apply(s, step);
    var name, file := Final(s'.calls[p].request), s'.calls[p].temp.value.file;
    match step
    case Begin(_, _, _) =>
    case Crash(_, _) =>
    case Act(q, e) =>
      assert CallKnows(s.disk, s.calls[q]) && CallKnows(s.disk, s.calls[p]);
      FinalNamesAfter(s, s.calls[q], e, name);
      CallAfter(s, s.calls[q], e);
      PlaceAfter(s, s.calls[q], e);
      if s.calls[q].temp.Some? && s.calls[q].temp.value.file == file && s.calls[p].temp.Some? { OneWriter(s, p, q); }
      assert Binding(s.disk, name) in Possible(s.disk, name);
  }

  lemma SurvivesOneMore(steps: seq<Step>, k: nat, i: nat, name: Name)
    requires k < i < |steps| && NameSurvives(steps, k, i, name) && (steps[i].Crash? ==> name in steps[i].names)
    ensures NameSurvives(steps, k, i + 1, name)
  {
  }

  lemma LeftAcrossStep(s: State, step: Step, p: Pid)
    requires Inv(s) && Enabled(s, step) && LeftRecord(s, p) && LeftRecord(Apply(s, step), p)
    ensures var name := Final(s.calls[p].request);
            name == Final(Apply(s, step).calls[p].request) && (step.Crash? ==> name in step.names)
  {
    LeftStaysOwn(s, step, p);
  }

  lemma {:induction false} LeftWasLinked(states: seq<State>, steps: seq<Step>, i: nat, p: Pid) returns (k: nat)
    requires Run(states, steps) && i < |states| && LeftRecord(states[i], p)
    ensures k < i && LinkedAt(states, steps, k, p) && NameSurvives(steps, k, i, Final(states[i].calls[p].request))
  {
    var j := i - 1;
    RunKeepsInv(states, steps, j);
    RunKeepsAttributed(states, steps, j);
    if LeftRecord(states[j], p) {
      k := LeftWasLinked(states, steps, j, p);
      LeftAcrossStep(states[j], steps[j], p);
      SurvivesOneMore(steps, k, j, Final(states[j].calls[p].request));
    } else {
      k := j;
      LeftAfterStep(states[j], steps[j], p);
    }
  }

  lemma LeftStaysOwn(s: State, step: Step, p: Pid)
    requires Inv(s) && Enabled(s, step) && LeftRecord(s, p)
    ensures var c, c' := s.calls[p], Apply(s, step).calls[p]; c'.request == c.request && c'.temp == c.temp
  {
    assert CallKnows(s.disk, s.calls[p]);
    if step.Act? && step.pid == p { CallAfter(s, s.calls[p], step.event); }
  }

  lemma LeftStays(s: State, step: Step, p: Pid)
    requires Inv(s) && Attributed(s) && Enabled(s, step) && LeftRecord(s, p)
    requires step.Crash? ==> Final(s.calls[p].request) in step.names
    ensures LeftRecord(Apply(s, step), p)
  {
    var s' := Apply(s, step);
    var name := Final(s.calls[p].request);
    LeftStaysOwn(s, step, p);
    match step
    case Begin(_, _, _) =>
    case Crash(_, _) => assert Binding(s'.disk, name) in Possible(s.disk, name);
    case Act(q, e) =>
      assert CallKnows(s.disk, s.calls[q]);
      FinalNamesAfter(s, s.calls[q], e, name);
  }

  /** The name cannot be lost. */
  ghost predicate Settled(s: State, p: Pid)
  {
    LeftRecord(s, p) && Possible(s.disk, Final(s.calls[p].request)) == {Some(s.calls[p].temp.value.file)}
  }

  lemma SettledStays(s: State, step: Step, p: Pid)
    requires Inv(s) && Attributed(s) && Enabled(s, step)
    requires Settled(s, p) || (LeftRecord(s, p) && SyncsDirectory(step))
    ensures Settled(Apply(s, step), p)
  {
    var s' := Apply(s, step);
    var name := Final(s.calls[p].request);
    if step.Crash? {
      assert (if name in step.names then Some(step.names[name]) else None) in Possible(s.disk, name);
    }
    LeftStays(s, step, p);
    LeftStaysOwn(s, step, p);
    assert Binding(s'.disk, name) in Possible(s'.disk, name);
    if step.Act? && !SyncsDirectory(step) {
      assert CallKnows(s.disk, s.calls[step.pid]);
      FinalNamesAfter(s, s.calls[step.pid], step.event, name);
    }
  }

  lemma LinkedLeavesAtOnce(states: seq<State>, steps: seq<Step>, k: nat, p: Pid)
    requires Run(states, steps) && k < |steps| && LinkedAt(states, steps, k, p)
    ensures LeftRecord(states[k + 1], p)
  {
    RunKeepsInv(states, steps, k + 1);
    assert CallKnows(states[k + 1].disk, states[k + 1].calls[p]);
  }

  /** One step more of a run in which the record was left. */
  lemma LeavesOneMore(s: State, step: Step, p: Pid, synced: bool)
    requires Inv(s) && Attributed(s) && Enabled(s, step) && LeftRecord(s, p) && (synced ==> Settled(s, p))
    requires step.Crash? ==> synced || Final(s.calls[p].request) in step.names
    ensures LeftRecord(Apply(s, step), p) && (synced || SyncsDirectory(step) ==> Settled(Apply(s, step), p))
  {
    if synced || SyncsDirectory(step) { SettledStays(s, step, p); } else { LeftStays(s, step, p); }
  }

  lemma SyncedOneMore(steps: seq<Step>, k: nat, i: nat)
    requires k < i < |steps|
    ensures SyncedBetween(steps, k, i + 1) <==> SyncedBetween(steps, k, i) || SyncsDirectory(steps[i])
  {
    if SyncsDirectory(steps[i]) { assert k < i < i + 1 && SyncsDirectory(steps[i]); }
  }

  lemma {:induction false} LinkedLeaves(states: seq<State>, steps: seq<Step>, k: nat, i: nat, p: Pid)
    requires Run(states, steps) && k < i < |states| && LinkedAt(states, steps, k, p) && p in states[i].calls
    requires NameSurvives(steps, k, i, Final(states[i].calls[p].request))
    ensures LeftRecord(states[i], p)
    ensures SyncedBetween(steps, k, i) ==> Settled(states[i], p)
  {
    if i == k + 1 {
      LinkedLeavesAtOnce(states, steps, k, p);
    } else {
      var j := i - 1;
      CallsStay(states, steps, k + 1, j, p);
      RunKeepsInv(states, steps, j);
      RunKeepsAttributed(states, steps, j);
      RequestStays(states[j], steps[j], p);
      LinkedLeaves(states, steps, k, j, p);
      SyncedOneMore(steps, k, j);
      LeavesOneMore(states[j], steps[j], p, SyncedBetween(steps, k, j));
    }
  }

  lemma RequestStays(s: State, step: Step, p: Pid)
    requires Inv(s) && Enabled(s, step) && p in s.calls
    ensures p in Apply(s, step).calls && Apply(s, step).calls[p].request == s.calls[p].request
  {
    if step.Act? && step.pid == p {
      assert CallKnows(s.disk, s.calls[p]);
      CallAfter(s, s.calls[p], step.event);
    }
  }

  lemma {:induction false} CallsStay(states: seq<State>, steps: seq<Step>, i: nat, j: nat, p: Pid)
    requires Run(states, steps) && i <= j < |states| && p in states[i].calls
    ensures p in states[j].calls
  {
    if i < j { CallsStay(states, steps, i, j - 1, p); }
  }

  /** A call leaves its record, however it ends, exactly when it made its link and every machine
      crash since then came after a directory sync or happened to keep the name. So a call that
      fails, or is killed, after its link has used its request all the same. */
  lemma LeavesRecordExactly(states: seq<State>, steps: seq<Step>, i: nat, p: Pid)
    requires Run(states, steps) && i < |states| && p in states[i].calls
    ensures LeftRecord(states[i], p) <==>
            exists k: nat :: k < i && LinkedAt(states, steps, k, p)
                             && NameSurvives(steps, k, i, Final(states[i].calls[p].request))
  {
    if LeftRecord(states[i], p) {
      var k := LeftWasLinked(states, steps, i, p);
    }
    forall k: nat | k < i && LinkedAt(states, steps, k, p)
                    && NameSurvives(steps, k, i, Final(states[i].calls[p].request))
      ensures LeftRecord(states[i], p)
    {
      LinkedLeaves(states, steps, k, i, p);
    }
  }

  // ----- What the lock adds -------------------------------------------------------------

  predicate BeforeLink(pc: Pc) { pc.Creating? || Unpublished(pc) }

  ghost predicate NotYetLinked(s: State)
  {
    s.exclusive ==> forall p | p in s.calls && BeforeLink(s.calls[p].pc) :: Final(s.calls[p].request) !in s.disk.names
  }

  /** Only a link gives a final name to the directory, and only the linking call's own. */
  lemma NewFinalNames(d: Disk, c: Call, e: Event, name: Name)
    requires name.Final? && name in NextDisk(d, c, e).names && name !in d.names
    ensures e.Link? && name == Final(c.request)
  {
  }

  lemma ReachesBeforeLink(s: State, step: Step)
    requires Inv(s) && NotYetLinked(s) && s.exclusive && step.Act? && Enabled(s, step)
    requires BeforeLink(Apply(s, step).calls[step.pid].pc)
    ensures Final(s.calls[step.pid].request) !in s.disk.names && Critical(s.calls[step.pid])
  {
    var name := Final(s.calls[step.pid].request);
    assert Binding(s.disk, name) in Possible(s.disk, name);
    if step.event.Check? {
      assert Contents(s.disk, name).None?;
    } else {
      assert BeforeLink(s.calls[step.pid].pc);
    }
  }

  lemma OtherStaysUnlinked(s: State, step: Step, p: Pid)
    requires CallsApart(s) && NotYetLinked(s) && s.exclusive && step.Act? && Enabled(s, step)
    requires p in s.calls && p != step.pid && BeforeLink(s.calls[p].pc)
    ensures Final(s.calls[p].request) !in NextDisk(s.disk, s.calls[step.pid], step.event).names
  {
    var c, name := s.calls[step.pid], Final(s.calls[p].request);
    if name in NextDisk(s.disk, c, step.event).names {
      NewFinalNames(s.disk, c, step.event, name);
      assert Critical(c) && Critical(s.calls[p]);
      assert false;
    }
  }

  lemma StepKeepsNotYetLinked(s: State, step: Step)
    requires Inv(s) && NotYetLinked(s) && Enabled(s, step)
    ensures NotYetLinked(Apply(s, step))
  {
    if s.exclusive && step.Act? {
      var s' := Apply(s, step);
      forall p | p in s'.calls && BeforeLink(s'.calls[p].pc)
        ensures Final(s'.calls[p].request) !in s'.disk.names
      {
        if p == step.pid {
          ReachesBeforeLink(s, step);
          var name := Final(s'.calls[p].request);
          if name in s'.disk.names { NewFinalNames(s.disk, s.calls[p], step.event, name); }
        } else {
          OtherStaysUnlinked(s, step, p);
        }
      }
    }
  }

  lemma {:induction false} RunKeepsNotYetLinked(states: seq<State>, steps: seq<Step>, i: nat)
    requires Run(states, steps) && i < |states|
    ensures NotYetLinked(states[i])
  {
    if i > 0 {
      RunKeepsNotYetLinked(states, steps, i - 1);
      RunKeepsInv(states, steps, i - 1);
      StepKeepsNotYetLinked(states[i - 1], steps[i - 1]);
    }
  }

  /** When the lock excludes, the no-replace link never finds the final name taken: the check made
      under the lock still holds when the link is made, in spite of errors, kills and crashes. */
  lemma LockedLinkNeverCollides(states: seq<State>, steps: seq<Step>, i: nat)
    requires Run(states, steps) && i < |steps|
    requires states[i].exclusive && steps[i].Act? && steps[i].event.Link?
    ensures states[i + 1].calls[steps[i].pid].pc == SyncingLink
  {
    RunKeepsInv(states, steps, i);
    RunKeepsNotYetLinked(states, steps, i);
    assert CallKnows(states[i].disk, states[i].calls[steps[i].pid]);
  }

  // ----- A store at rest still works ----------------------------------------------------

  ghost predicate Path(states: seq<State>, steps: seq<Step>)
  {
    && |states| == |steps| + 1
    && forall i | 0 <= i < |steps| :: Enabled(states[i], steps[i]) && states[i + 1] == Apply(states[i], steps[i])
  }

  lemma Extend(states: seq<State>, steps: seq<Step>, step: Step) returns (states': seq<State>)
    requires Path(states, steps) && Enabled(states[|steps|], step)
    ensures Path(states', steps + [step]) && states' == states + [Apply(states[|steps|], step)]
  {
    states' := states + [Apply(states[|steps|], step)];
  }

  /** From state `s`, only call `pid` has acted: it stands at `c` and the directory is `d`. */
  ghost predicate At(s: State, states: seq<State>, steps: seq<Step>, pid: Pid, c: Call, d: Disk)
  {
    && Path(states, steps) && states[0] == s
    && states[|steps|] == State(s.exclusive, d, s.calls[pid := c])
  }

  lemma Do(s: State, states: seq<State>, steps: seq<Step>, pid: Pid, c: Call, d: Disk, e: Event)
    returns (states': seq<State>, steps': seq<Step>)
    requires At(s, states, steps, pid, c, d) && EventEnabled(State(s.exclusive, d, s.calls[pid := c]), c, e)
    ensures At(s, states', steps', pid, NextCall(d, c, e), NextDisk(d, c, e))
  {
    steps' := steps + [Act(pid, e)];
    states' := Extend(states, steps, Act(pid, e));
    assert s.calls[pid := c][pid := NextCall(d, c, e)] == s.calls[pid := NextCall(d, c, e)];
  }

  lemma PathToCreating(s: State, pid: Pid, request: RequestId, digest: Digest, at: int)
    returns (states: seq<State>, steps: seq<Step>)
    requires pid !in s.calls && ValidRequest(request) && Final(request) !in s.disk.names
    requires forall p | p in s.calls :: Finished(s.calls[p])
    ensures At(s, states, steps, pid, Call(request, digest, Creating(at), None), s.disk)
  {
    var d, c := s.disk, Call(request, digest, Prechecking, None);
    states, steps := [s, Apply(s, Begin(pid, request, digest))], [Begin(pid, request, digest)];
    states, steps := Do(s, states, steps, pid, c, d, Precheck);
    states, steps := Do(s, states, steps, pid, c.(pc := Locking), d, Lock);
    states, steps := Do(s, states, steps, pid, c.(pc := Stamping), d, Stamp(at));
    states, steps := Do(s, states, steps, pid, c.(pc := Checking(at)), d, Check);
  }

  lemma PathToLinking(s: State, states: seq<State>, steps: seq<Step>, pid: Pid, c: Call, nonce: Nonce, file: Inode)
    returns (states': seq<State>, steps': seq<Step>, d: Disk)
    requires c.pc.Creating? && Timestamp(c.pc.now) && pid !in s.calls && c.temp.None?
    requires At(s, states, steps, pid, c, s.disk)
    requires file !in s.disk.data && Temporary(c.request, nonce) !in s.disk.names
    requires NameAvailable(s, Temporary(c.request, nonce))
    ensures At(s, states', steps', pid,
               c.(pc := Linking, temp := Some(TemporaryFile(Temporary(c.request, nonce), file, c.pc.now))), d)
    ensures d.names == s.disk.names[Temporary(c.request, nonce) := file]
  {
    var name := Temporary(c.request, nonce);
    states', steps' := Do(s, states, steps, pid, c, s.disk, Create(nonce, file));
    d := NextDisk(s.disk, c, Create(nonce, file));
    var c' := c.(pc := Recording, temp := Some(TemporaryFile(name, file, c.pc.now)));
    states', steps' := Do(s, states', steps', pid, c', d, Record);
    states', steps' := Do(s, states', steps', pid, c'.(pc := Writing(0)), d, Write(RECORD_LEN));
    d := NextDisk(d, c'.(pc := Writing(0)), Write(RECORD_LEN));
    states', steps' := Do(s, states', steps', pid, c'.(pc := SyncingFile), d, SyncFile);
    d := NextDisk(d, c'.(pc := SyncingFile), SyncFile);
  }

  lemma PathToRedeemed(s: State, states: seq<State>, steps: seq<Step>, pid: Pid, c: Call, d: Disk)
    returns (states': seq<State>, steps': seq<Step>)
    requires c.pc.Linking? && c.temp.Some? && At(s, states, steps, pid, c, d)
    requires c.temp.value.name in d.names && Final(c.request) !in d.names
    ensures Path(states', steps') && states'[0] == s && HasRedeemed(states'[|steps'|], pid, c.request)
  {
    states', steps' := Do(s, states, steps, pid, c, d, Link);
    var d' := NextDisk(d, c, Link);
    states', steps' := Do(s, states', steps', pid, c.(pc := SyncingLink), d', SyncLink);
    d' := SyncDirectory(d');
    states', steps' := Do(s, states', steps', pid, c.(pc := Unlinking), d', Unlink);
    d' := NextDisk(d', c.(pc := Unlinking), Unlink);
    states', steps' := Do(s, states', steps', pid, c.(pc := SyncingUnlink), d', SyncUnlink);
  }

  /** Whatever was interrupted before, a store at rest in which a request is not recorded still
      lets a new call redeem it, given a temporary name that is free. */
  lemma RestingStoreCanRedeem(
    s: State, pid: Pid, request: RequestId, digest: Digest, at: int, nonce: Nonce, file: Inode)
    returns (states: seq<State>, steps: seq<Step>)
    requires Inv(s) && forall p | p in s.calls :: Finished(s.calls[p])
    requires pid !in s.calls && file !in s.disk.data && Timestamp(at) && ValidRequest(request)
    requires Final(request) !in s.disk.names
    requires Temporary(request, nonce) !in s.disk.names && NameAvailable(s, Temporary(request, nonce))
    ensures Path(states, steps) && states[0] == s && HasRedeemed(states[|steps|], pid, request)
  {
    var c := Call(request, digest, Creating(at), None);
    states, steps := PathToCreating(s, pid, request, digest, at);
    var d;
    states, steps, d := PathToLinking(s, states, steps, pid, c, nonce, file);
    var temp := TemporaryFile(Temporary(request, nonce), file, at);
    states, steps := PathToRedeemed(s, states, steps, pid, c.(pc := Linking, temp := Some(temp)), d);
  }

  /** ... and as well lets a call make its link, get an error from the directory sync, clean up and
      report a failure, with the request recorded. */
  lemma RestingStoreCanFailRecorded(
    s: State, pid: Pid, request: RequestId, digest: Digest, at: int, nonce: Nonce, file: Inode)
    returns (states: seq<State>, steps: seq<Step>)
    requires Inv(s) && forall p | p in s.calls :: Finished(s.calls[p])
    requires pid !in s.calls && file !in s.disk.data && Timestamp(at) && ValidRequest(request)
    requires Final(request) !in s.disk.names
    requires Temporary(request, nonce) !in s.disk.names && NameAvailable(s, Temporary(request, nonce))
    ensures Path(states, steps) && states[0] == s && LeftRecord(states[|steps|], pid)
    ensures states[|steps|].calls[pid].pc == Returned(Failed) && states[|steps|].calls[pid].request == request
  {
    states, steps := PathToCreating(s, pid, request, digest, at);
    var d;
    states, steps, d := PathToLinking(s, states, steps, pid, Call(request, digest, Creating(at), None), nonce, file);
    var temp := TemporaryFile(Temporary(request, nonce), file, at);
    states, steps := PathToFailed(s, states, steps, pid, Call(request, digest, Linking, Some(temp)), d);
  }

  lemma PathToFailed(s: State, states: seq<State>, steps: seq<Step>, pid: Pid, c: Call, d: Disk)
    returns (states': seq<State>, steps': seq<Step>)
    requires c.pc.Linking? && c.temp.Some? && c.temp.value.name.Temporary? && At(s, states, steps, pid, c, d)
    requires Binding(d, c.temp.value.name) == Some(c.temp.value.file) && Final(c.request) !in d.names
    ensures Path(states', steps') && states'[0] == s && LeftRecord(states'[|steps'|], pid)
    ensures states'[|steps'|].calls[pid] == c.(pc := Returned(Failed))
  {
    states', steps' := Do(s, states, steps, pid, c, d, Link);
    var d' := NextDisk(d, c, Link);
    states', steps' := Do(s, states', steps', pid, c.(pc := SyncingLink), d', IoError);
    states', steps' := Do(s, states', steps', pid, c.(pc := CleaningUp(false)), d', CleanUp(true));
  }
}
