/** Concurrent edits of the saved preferences (`update_inner` and `read_inner` in src/auth_from.rs):
    editors lock the directory, read the file, write a temporary file, and rename it over the old one;
    readers take no lock. Editors may fail or be killed between any two steps. */
module Preferences {
  import opened ByteStrings
  import opened AuthFrom

  type Pid = nat
  type Inode = nat

  const MAX_CONFIG_BYTES: nat := 128 * 1024

  /** A configuration and the length of its text, which a user may have laid out in any way. */
  datatype Document = Document(config: Config, length: nat)

  /** `valid` is the check every reader makes of what it has parsed, and `size` the length of the text
      that an editor writes. */
  datatype Format = Format(valid: Config -> bool, size: Config -> nat)

  /** A file as a reader finds it: not a configuration, partly written, or whole. */
  datatype Contents = Broken | Partial | Whole(document: Document)

  datatype Pc =
    | Locking | Reading | Creating(next: Config) | Writing(next: Config, file: Inode)
    | Syncing(next: Config, file: Inode)
    | Renaming(next: Config, file: Inode) | Saved(result: Config, at: nat) | Stopped

  /** `at` is how many edits had taken effect when the reader opened the file. */
  datatype Reader = Opening | Opened(file: Option<Inode>, at: nat) | Finished(result: Option<Config>, at: nat)

  datatype Editor = Editor(edit: Edit, pc: Pc)

  /** `order` lists the edits that took effect, in the order they did. */
  datatype State = State(
    path: Option<Inode>, files: map<Inode, Contents>, editors: map<Pid, Editor>, readers: map<Pid, Reader>,
    order: seq<Edit>)

  datatype Step =
    | Begin(pid: Pid, edit: Edit) | Lock(pid: Pid) | Read(pid: Pid) | Create(pid: Pid, file: Inode) | Write(pid: Pid)
    | Sync(pid: Pid) | Rename(pid: Pid) | Stop(pid: Pid)
    | BeginRead(pid: Pid) | Open(pid: Pid) | Finish(pid: Pid)

  predicate Critical(e: Editor) { !e.pc.Locking? && !e.pc.Saved? && !e.pc.Stopped? }

  const MISSING: Document := Document(EMPTY, 0)

  /** What a file says: a missing one is the empty configuration, an unreadable one nothing. */
  function View(files: map<Inode, Contents>, path: Option<Inode>): Option<Document>
  {
    match path
    case None => Some(MISSING)
    case Some(file) => if file in files && files[file].Whole? then Some(files[file].document) else None
  }

  predicate Readable(f: Format, d: Document) { d.length <= MAX_CONFIG_BYTES && f.valid(d.config) }

  /** `read_inner`, of what a file says. */
  function Checked(f: Format, view: Option<Document>): Option<Config>
  {
    if view.Some? && Readable(f, view.value) then Some(view.value.config) else None
  }

  function Written(f: Format, c: Config): Document { Document(c, f.size(c)) }

  predicate EditorCan(s: State, e: Editor, step: Step)
  {
    match step
    case Lock(_) => e.pc.Locking? && forall q | q in s.editors :: !Critical(s.editors[q])
    case Read(_) => e.pc.Reading?
    case Create(_, file) => e.pc.Creating? && file !in s.files
    case Write(_) => e.pc.Writing?
    case Sync(_) => e.pc.Syncing?
    case Rename(_) => e.pc.Renaming?
    case Stop(_) => !e.pc.Saved? && !e.pc.Stopped?
    case _ => false
  }

  predicate Enabled(s: State, step: Step)
  {
    match step
    case Begin(pid, _) => pid !in s.editors
    case BeginRead(pid) => pid !in s.readers
    case Open(pid) => pid in s.readers && s.readers[pid].Opening?
    case Finish(pid) => pid in s.readers && s.readers[pid].Opened?
    case _ => step.pid in s.editors && EditorCan(s, s.editors[step.pid], step)
  }

  function NextPc(f: Format, s: State, e: Editor, step: Step): Pc
  {
    match step
    case Lock(_) => Reading
    case Read(_) =>
      (match Checked(f, View(s.files, s.path))
       case Some(c) => Creating(Apply(c, e.edit))
       case None => Stopped)
    case Create(_, file) => if e.pc.Creating? then Writing(e.pc.next, file) else e.pc
    case Write(_) => if e.pc.Writing? then Syncing(e.pc.next, e.pc.file) else e.pc
    case Sync(_) => if e.pc.Syncing? then Renaming(e.pc.next, e.pc.file) else e.pc
    case Rename(_) => if e.pc.Renaming? then Saved(e.pc.next, |s.order| + 1) else e.pc
    case _ => Stopped
  }

  function NextState(f: Format, s: State, step: Step): State
    requires Enabled(s, step)
  {
    match step
    case Begin(pid, edit) => s.(editors := s.editors[pid := Editor(edit, Locking)])
    case BeginRead(pid) => s.(readers := s.readers[pid := Opening])
    case Open(pid) => s.(readers := s.readers[pid := Opened(s.path, |s.order|)])
    case Finish(pid) =>
      var r := s.readers[pid];
      s.(readers := s.readers[pid := Finished(Checked(f, View(s.files, r.file)), r.at)])
    case _ =>
      var e := s.editors[step.pid];
      var s' := s.(editors := s.editors[step.pid := Editor(e.edit, NextPc(f, s, e, step))]);
      match step
      case Create(_, file) => s'.(files := s.files[file := Partial])
      case Write(_) => if e.pc.Writing? then s'.(files := s.files[e.pc.file := Whole(Written(f, e.pc.next))]) else s'
      case Rename(_) =>
        if e.pc.Renaming? then s'.(path := Some(e.pc.file), order := s.order + [e.edit]) else s'
      case _ => s'
  }

  /** Nobody at work yet, over any file or none. */
  predicate Initial(s: State)
  {
    && s.editors == map[] && s.readers == map[] && s.order == []
    && (s.path.Some? ==> s.path.value in s.files)
  }

  ghost predicate Run(f: Format, states: seq<State>, steps: seq<Step>)
  {
    && |states| == |steps| + 1 && Initial(states[0])
    && forall i | 0 <= i < |steps| :: Enabled(states[i], steps[i]) && states[i + 1] == NextState(f, states[i], steps[i])
  }

  // ----- The invariant ------------------------------------------------------------------

  /** What the file says after the first `k` edits, if it said anything at the start. */
  function Version(f: Format, base: Option<Document>, order: seq<Edit>, k: nat): Option<Document>
    requires k <= |order|
  {
    match base
    case None => None
    case Some(d) => if k == 0 then Some(d) else Some(Written(f, ApplyAll(d.config, order[..k])))
  }

  function OwnFile(pc: Pc): Option<Inode>
  {
    if pc.Writing? || pc.Syncing? || pc.Renaming? then Some(pc.file) else None
  }

  function NextOf(pc: Pc): Option<Config>
  {
    if pc.Creating? || pc.Writing? || pc.Syncing? || pc.Renaming? then Some(pc.next) else None
  }

  /** What is known of an editor that holds the lock and has read the file. */
  ghost predicate NextIsRight(f: Format, base: Option<Document>, s: State, e: Editor)
  {
    NextOf(e.pc).Some? ==>
      && base.Some? && Checked(f, Version(f, base, s.order, |s.order|)).Some?
      && NextOf(e.pc).value == Apply(ApplyAll(base.value.config, s.order), e.edit)
  }

  /** What is known of an editor's temporary file: nobody else has it. */
  ghost predicate FileIsOwn(f: Format, s: State, e: Editor)
  {
    && (OwnFile(e.pc).Some? ==>
          && OwnFile(e.pc).value in s.files && s.path != OwnFile(e.pc)
          && forall r | r in s.readers && s.readers[r].Opened? :: s.readers[r].file != OwnFile(e.pc))
    && (e.pc.Syncing? || e.pc.Renaming? ==> s.files[e.pc.file] == Whole(Written(f, e.pc.next)))
  }

  ghost predicate SavedIsRight(f: Format, base: Option<Document>, order: seq<Edit>, e: Editor)
  {
    e.pc.Saved? ==>
      && 0 < e.pc.at <= |order| && order[e.pc.at - 1] == e.edit
      && Version(f, base, order, e.pc.at) == Some(Written(f, e.pc.result))
  }

  ghost predicate EditorKnows(f: Format, base: Option<Document>, s: State, e: Editor)
  {
    NextIsRight(f, base, s, e) && FileIsOwn(f, s, e) && SavedIsRight(f, base, s.order, e)
  }

  ghost predicate ReaderKnows(f: Format, base: Option<Document>, s: State, r: Reader)
  {
    && (r.Opened? ==>
          && r.at <= |s.order| && (r.file.Some? ==> r.file.value in s.files)
          && View(s.files, r.file) == Version(f, base, s.order, r.at))
    && (r.Finished? ==> r.at <= |s.order| && r.result == Checked(f, Version(f, base, s.order, r.at)))
  }

  /** Every configuration that an edit was made to had passed the check. */
  ghost predicate EditedWereValid(f: Format, base: Option<Document>, order: seq<Edit>)
  {
    forall k: nat | k < |order| :: Checked(f, Version(f, base, order, k)).Some?
  }

  ghost predicate Exclusive(editors: map<Pid, Editor>)
  {
    forall p, q | p in editors && q in editors && Critical(editors[p]) && Critical(editors[q]) :: p == q
  }

  ghost predicate Inv(f: Format, base: Option<Document>, s: State)
  {
    && (s.path.Some? ==> s.path.value in s.files)
    && View(s.files, s.path) == Version(f, base, s.order, |s.order|)
    && (forall p | p in s.editors :: EditorKnows(f, base, s, s.editors[p]))
    && Exclusive(s.editors)
    && (forall r | r in s.readers :: ReaderKnows(f, base, s, s.readers[r]))
    && EditedWereValid(f, base, s.order)
  }

  /** An edit more leaves the earlier versions as they were. */
  lemma VersionStays(f: Format, base: Option<Document>, order: seq<Edit>, edit: Edit, k: nat)
    requires k <= |order|
    ensures Version(f, base, order + [edit], k) == Version(f, base, order, k)
  {
    assert (order + [edit])[..k] == order[..k];
  }

  lemma VersionOf(f: Format, base: Option<Document>, order: seq<Edit>, edit: Edit)
    requires base.Some?
    ensures Version(f, base, order + [edit], |order| + 1) ==
            Some(Written(f, Apply(ApplyAll(base.value.config, order), edit)))
    ensures Version(f, base, order, |order|).Some?
    ensures Version(f, base, order, |order|).value.config == ApplyAll(base.value.config, order)
  {
    var order' := order + [edit];
    assert order'[..|order| + 1] == order' && order'[..|order|] == order && order[..|order|] == order;
  }

  /** A step that changes one editor's place and nothing else. */
  lemma PlaceChangeKeepsInv(f: Format, base: Option<Document>, s: State, pid: Pid, e: Editor)
    requires Inv(f, base, s) && EditorKnows(f, base, s, e)
    requires Critical(e) ==> forall q | q in s.editors && q != pid :: !Critical(s.editors[q])
    ensures Inv(f, base, s.(editors := s.editors[pid := e]))
  {
    var s' := s.(editors := s.editors[pid := e]);
    forall p | p in s'.editors
      ensures EditorKnows(f, base, s', s'.editors[p])
    {
      if p != pid { assert EditorKnows(f, base, s, s.editors[p]); }
    }
    forall r | r in s'.readers
      ensures ReaderKnows(f, base, s', s'.readers[r])
    {
      assert ReaderKnows(f, base, s, s.readers[r]);
    }
  }

  lemma QuietStepKeepsInv(f: Format, base: Option<Document>, s: State, step: Step)
    requires Inv(f, base, s) && Enabled(s, step)
    requires step.Lock? || step.Read? || step.Sync? || step.Stop?
    ensures Inv(f, base, NextState(f, s, step))
  {
    var e := s.editors[step.pid];
    assert EditorKnows(f, base, s, e);
    if base.Some? { VersionOf(f, base, s.order, e.edit); }
    PlaceChangeKeepsInv(f, base, s, step.pid, Editor(e.edit, NextPc(f, s, e, step)));
  }

  lemma BeginKeepsInv(f: Format, base: Option<Document>, s: State, pid: Pid, edit: Edit)
    requires Inv(f, base, s) && pid !in s.editors
    ensures Inv(f, base, NextState(f, s, Begin(pid, edit)))
  {
    PlaceChangeKeepsInv(f, base, s, pid, Editor(edit, Locking));
  }

  lemma ReaderStepKeepsInv(f: Format, base: Option<Document>, s: State, step: Step)
    requires Inv(f, base, s) && Enabled(s, step) && (step.BeginRead? || step.Open? || step.Finish?)
    ensures Inv(f, base, NextState(f, s, step))
  {
    var s' := NextState(f, s, step);
    if step.Finish? { assert ReaderKnows(f, base, s, s.readers[step.pid]); }
    forall p | p in s'.editors
      ensures EditorKnows(f, base, s', s'.editors[p])
    {
      assert EditorKnows(f, base, s, s.editors[p]);
    }
    forall r | r in s'.readers
      ensures ReaderKnows(f, base, s', s'.readers[r])
    {
      if r in s.readers { assert ReaderKnows(f, base, s, s.readers[r]); }
    }
  }

  lemma RenameKeepsEditors(f: Format, base: Option<Document>, s: State, step: Step, p: Pid)
    requires Inv(f, base, s) && Enabled(s, step) && step.Rename? && p in s.editors
    ensures var s' := NextState(f, s, step);
            EditorKnows(f, base, s', s'.editors[p])
  {
    var e := s.editors[step.pid];
    assert EditorKnows(f, base, s, e) && EditorKnows(f, base, s, s.editors[p]);
    if p != step.pid {
      assert !Critical(s.editors[p]);
      if s.editors[p].pc.Saved? { VersionStays(f, base, s.order, e.edit, s.editors[p].pc.at); }
    } else {
      VersionOf(f, base, s.order, e.edit);
    }
  }

  lemma RenameKeepsValid(f: Format, base: Option<Document>, order: seq<Edit>, edit: Edit)
    requires EditedWereValid(f, base, order) && base.Some? && Checked(f, Version(f, base, order, |order|)).Some?
    ensures EditedWereValid(f, base, order + [edit])
  {
    forall k: nat | k < |order + [edit]|
      ensures Checked(f, Version(f, base, order + [edit], k)).Some?
    {
      VersionStays(f, base, order, edit, k);
      VersionOf(f, base, order, edit);
    }
  }

  lemma RenameKeepsInv(f: Format, base: Option<Document>, s: State, step: Step)
    requires Inv(f, base, s) && Enabled(s, step) && step.Rename?
    ensures Inv(f, base, NextState(f, s, step))
  {
    var s' := NextState(f, s, step);
    var e := s.editors[step.pid];
    assert EditorKnows(f, base, s, e);
    VersionOf(f, base, s.order, e.edit);
    RenameKeepsValid(f, base, s.order, e.edit);
    forall p | p in s'.editors
      ensures EditorKnows(f, base, s', s'.editors[p])
    {
      RenameKeepsEditors(f, base, s, step, p);
    }
    forall r | r in s'.readers
      ensures ReaderKnows(f, base, s', s'.readers[r])
    {
      assert ReaderKnows(f, base, s, s.readers[r]);
      if !s.readers[r].Opening? { VersionStays(f, base, s.order, e.edit, s.readers[r].at); }
    }
  }

  lemma FileStepKeepsInv(f: Format, base: Option<Document>, s: State, step: Step)
    requires Inv(f, base, s) && Enabled(s, step) && (step.Create? || step.Write?)
    ensures Inv(f, base, NextState(f, s, step))
  {
    var s' := NextState(f, s, step);
    assert EditorKnows(f, base, s, s.editors[step.pid]);
    forall p | p in s'.editors
      ensures EditorKnows(f, base, s', s'.editors[p])
    {
      assert EditorKnows(f, base, s, s.editors[p]);
      if p != step.pid { assert !Critical(s.editors[p]); }
    }
    forall r | r in s'.readers
      ensures ReaderKnows(f, base, s', s'.readers[r])
    {
      assert ReaderKnows(f, base, s, s.readers[r]);
    }
  }

  lemma StepKeepsInv(f: Format, base: Option<Document>, s: State, step: Step)
    requires Inv(f, base, s) && Enabled(s, step)
    ensures Inv(f, base, NextState(f, s, step))
  {
    match step
    case Begin(pid, edit) => BeginKeepsInv(f, base, s, pid, edit);
    case Rename(_) => RenameKeepsInv(f, base, s, step);
    case Create(_, _) => FileStepKeepsInv(f, base, s, step);
    case Write(_) => FileStepKeepsInv(f, base, s, step);
    case BeginRead(_) => ReaderStepKeepsInv(f, base, s, step);
    case Open(_) => ReaderStepKeepsInv(f, base, s, step);
    case Finish(_) => ReaderStepKeepsInv(f, base, s, step);
    case _ => QuietStepKeepsInv(f, base, s, step);
  }

  // ----- Every run ----------------------------------------------------------------------

  lemma {:induction false} RunKeepsInv(f: Format, states: seq<State>, steps: seq<Step>, i: nat)
    requires Run(f, states, steps) && i < |states|
    ensures Inv(f, View(states[0].files, states[0].path), states[i])
  {
    if i == 0 {
      var base := View(states[0].files, states[0].path);
      if base.Some? { assert states[0].order[..0] == []; }
    } else {
      RunKeepsInv(f, states, steps, i - 1);
      StepKeepsInv(f, View(states[0].files, states[0].path), states[i - 1], steps[i - 1]);
    }
  }

  /** The editors that have locked the directory, in that order. */
  function Lockers(steps: seq<Step>): seq<Pid>
  {
    if steps == [] then []
    else
      var step, before := steps[|steps| - 1], Lockers(steps[..|steps| - 1]);
      if step.Lock? then before + [step.pid] else before
  }

  /** The edits of those that have saved theirs. */
  function Effects(editors: map<Pid, Editor>, pids: seq<Pid>): seq<Edit>
  {
    if pids == [] then []
    else
      var pid, before := pids[|pids| - 1], Effects(editors, pids[..|pids| - 1]);
      if pid in editors && editors[pid].pc.Saved? then before + [editors[pid].edit] else before
  }

  lemma {:induction false} EffectsStay(editors: map<Pid, Editor>, editors': map<Pid, Editor>, pids: seq<Pid>)
    requires forall j | 0 <= j < |pids| ::
               && pids[j] in editors && pids[j] in editors' && editors'[pids[j]].edit == editors[pids[j]].edit
               && (editors'[pids[j]].pc.Saved? <==> editors[pids[j]].pc.Saved?)
    ensures Effects(editors', pids) == Effects(editors, pids)
  {
    if pids != [] { EffectsStay(editors, editors', pids[..|pids| - 1]); }
  }

  /** Only the last to lock can be at work, and the order is that of locking. */
  ghost predicate InLockOrder(s: State, pids: seq<Pid>)
  {
    && s.order == Effects(s.editors, pids)
    && (forall j | 0 <= j < |pids| :: pids[j] in s.editors && !s.editors[pids[j]].pc.Locking?)
    && (forall j, k | 0 <= j < k < |pids| :: pids[j] != pids[k])
    && (forall p | p in s.editors && Critical(s.editors[p]) :: pids != [] && pids[|pids| - 1] == p)
  }

  lemma LockKeepsLockOrder(f: Format, s: State, step: Step, pids: seq<Pid>)
    requires InLockOrder(s, pids) && Enabled(s, step) && step.Lock?
    ensures InLockOrder(NextState(f, s, step), pids + [step.pid])
  {
    var s' := NextState(f, s, step);
    EffectsStay(s.editors, s'.editors, pids);
    assert (pids + [step.pid])[..|pids|] == pids;
  }

  lemma RenameKeepsLockOrder(f: Format, s: State, step: Step, pids: seq<Pid>)
    requires InLockOrder(s, pids) && Enabled(s, step) && step.Rename?
    ensures InLockOrder(NextState(f, s, step), pids)
  {
    var s' := NextState(f, s, step);
    EffectsStay(s.editors, s'.editors, pids[..|pids| - 1]);
  }

  lemma StepKeepsLockOrder(f: Format, s: State, step: Step, pids: seq<Pid>)
    requires InLockOrder(s, pids) && Enabled(s, step) && !step.Lock? && !step.Rename?
    ensures InLockOrder(NextState(f, s, step), pids)
  {
    EffectsStay(s.editors, NextState(f, s, step).editors, pids);
  }

  lemma {:induction false} RunKeepsLockOrder(f: Format, states: seq<State>, steps: seq<Step>, i: nat)
    requires Run(f, states, steps) && i < |states|
    ensures InLockOrder(states[i], Lockers(steps[..i]))
  {
    if i > 0 {
      var s, step := states[i - 1], steps[i - 1];
      RunKeepsLockOrder(f, states, steps, i - 1);
      assert steps[..i][..i - 1] == steps[..i - 1] && steps[..i][i - 1] == step;
      match step
      case Lock(_) => LockKeepsLockOrder(f, s, step, Lockers(steps[..i - 1]));
      case Rename(_) => RenameKeepsLockOrder(f, s, step, Lockers(steps[..i - 1]));
      case _ => StepKeepsLockOrder(f, s, step, Lockers(steps[..i - 1]));
    }
  }

  /** In every state of every run the file is what the edits that took effect make of the first
      configuration, one by one in the order in which their editors locked the directory. Each was
      made to what passed the check, so nothing takes effect on a file that does not. */
  lemma EditsAreSerial(f: Format, states: seq<State>, steps: seq<Step>, i: nat)
    requires Run(f, states, steps) && i < |states|
    ensures var base, s := View(states[0].files, states[0].path), states[i];
            && s.order == Effects(s.editors, Lockers(steps[..i]))
            && View(s.files, s.path) == Version(f, base, s.order, |s.order|)
            && (base.Some? ==> View(s.files, s.path).value.config == ApplyAll(base.value.config, s.order))
            && (s.order != [] ==> base.Some?)
            && forall k: nat | k < |s.order| :: Checked(f, Version(f, base, s.order, k)).Some?
  {
    RunKeepsInv(f, states, steps, i);
    RunKeepsLockOrder(f, states, steps, i);
    var base, s := View(states[0].files, states[0].path), states[i];
    if base.Some? { VersionOf(f, base, s.order, Edit(None, None)); }
    if s.order != [] { assert Checked(f, Version(f, base, s.order, 0)).Some?; }
  }

  /** An edit reported as saved is in the order, at its place, and reports what was saved; and a
      reader sees the whole result of a first part of the order, or refuses that result. */
  lemma EveryoneSeesAVersion(f: Format, states: seq<State>, steps: seq<Step>, i: nat, pid: Pid)
    requires Run(f, states, steps) && i < |states|
    ensures var base, s := View(states[0].files, states[0].path), states[i];
            && (pid in s.editors && s.editors[pid].pc.Saved? ==>
                  var pc := s.editors[pid].pc;
                  && 0 < pc.at <= |s.order| && s.order[pc.at - 1] == s.editors[pid].edit
                  && Version(f, base, s.order, pc.at) == Some(Written(f, pc.result)))
            && (pid in s.readers && s.readers[pid].Finished? ==>
                  && s.readers[pid].at <= |s.order|
                  && s.readers[pid].result == Checked(f, Version(f, base, s.order, s.readers[pid].at)))
  {
    RunKeepsInv(f, states, steps, i);
    var base, s := View(states[0].files, states[0].path), states[i];
    if pid in s.editors { assert EditorKnows(f, base, s, s.editors[pid]); }
    if pid in s.readers { assert ReaderKnows(f, base, s, s.readers[pid]); }
  }

  /** A reader that had not opened the file in state `i`, seen later. */
  ghost predicate OpenedSince(s: State, s': State, reader: Pid)
  {
    && s.order <= s'.order
    && (reader in s'.readers && !s'.readers[reader].Opening? ==> |s.order| <= s'.readers[reader].at <= |s'.order|)
  }

  lemma {:induction false} RunKeepsOpenedSince(
    f: Format, states: seq<State>, steps: seq<Step>, i: nat, j: nat, reader: Pid)
    requires Run(f, states, steps) && i <= j < |states|
    requires reader in states[i].readers ==> states[i].readers[reader].Opening?
    ensures OpenedSince(states[i], states[j], reader)
  {
    if i < j {
      RunKeepsOpenedSince(f, states, steps, i, j - 1, reader);
      assert Enabled(states[j - 1], steps[j - 1]);
    }
  }

  /** Reads are fresh: a reader that opens the file after an edit was reported as saved sees a version
      with that edit in it, and no version later than its own end. */
  lemma ReadsAreFresh(f: Format, states: seq<State>, steps: seq<Step>, i: nat, j: nat, reader: Pid, editor: Pid)
    requires Run(f, states, steps) && i <= j < |states|
    requires reader in states[i].readers ==> states[i].readers[reader].Opening?
    requires reader in states[j].readers && states[j].readers[reader].Finished?
    requires editor in states[i].editors && states[i].editors[editor].pc.Saved?
    ensures states[i].order <= states[j].order
    ensures states[i].editors[editor].pc.at <= states[j].readers[reader].at <= |states[j].order|
  {
    RunKeepsOpenedSince(f, states, steps, i, j, reader);
    EveryoneSeesAVersion(f, states, steps, i, editor);
  }

  /** So no override is lost: in every state of every run a host's choice is what the last effective
      edit of it gave, and the version and unknown fields are those of the first configuration. */
  lemma NoOverrideIsLost(f: Format, states: seq<State>, steps: seq<Step>, i: nat, host: string)
    requires Run(f, states, steps) && i < |states|
    requires View(states[0].files, states[0].path).Some?
    ensures View(states[i].files, states[i].path).Some?
    ensures var c := View(states[0].files, states[0].path).value.config;
            var c' := View(states[i].files, states[i].path).value.config;
            && c'.version == c.version && c'.extensions == c.extensions
            && (match LastFor(states[i].order, Some(host))
                case None =>
                  && (host in c'.hosts <==> host in c.hosts)
                  && (host in c.hosts ==> c'.hosts[host] == c.hosts[host])
                case Some(e) =>
                  && (host in c'.hosts <==> e.value.Some?)
                  && (e.value.Some? ==> c'.hosts[host] == Spelling(e.value.value)))
  {
    EditsAreSerial(f, states, steps, i);
    LastEditStands(View(states[0].files, states[0].path).value.config, states[i].order, host);
  }

  // ----- When the file stops being readable ---------------------------------------------

  /** Saves a choice under a host with colons that is not an IPv6 address. */
  predicate Unstable(isIpv6: string -> bool, edit: Edit)
  {
    edit.host.Some? && edit.value.Some? && ':' in edit.host.value && !isIpv6(edit.host.value)
  }

  /** The edit at place `k` is unstable, or leaves more text than a reader takes. */
  predicate Spoils(isIpv6: string -> bool, size: Config -> nat, base: Config, order: seq<Edit>, k: nat)
    requires k < |order|
  {
    Unstable(isIpv6, order[k]) || size(ApplyAll(base, order[..k + 1])) > MAX_CONFIG_BYTES
  }

  ghost predicate AllEntered(isIpv6: string -> bool, s: State)
  {
    && (forall p | p in s.editors :: Entered(isIpv6, s.editors[p].edit))
    && (forall k | 0 <= k < |s.order| :: Entered(isIpv6, s.order[k]))
  }

  lemma {:induction false} RunKeepsEntered(
    isIpv6: string -> bool, f: Format, states: seq<State>, steps: seq<Step>, i: nat)
    requires Run(f, states, steps) && i < |states|
    requires forall j | 0 <= j < |steps| && steps[j].Begin? :: Entered(isIpv6, steps[j].edit)
    ensures AllEntered(isIpv6, states[i])
  {
    if i > 0 {
      RunKeepsEntered(isIpv6, f, states, steps, i - 1);
      assert Enabled(states[i - 1], steps[i - 1]);
    }
  }

  function FormatOf(isIpv6: string -> bool, size: Config -> nat): Format
  {
    Format(c => ValidConfig(isIpv6, c), size)
  }

  lemma ReadableAfter(
    isIpv6: string -> bool, size: Config -> nat, base: Document, order: seq<Edit>, k: nat)
    requires k < |order| && Entered(isIpv6, order[k])
    requires Checked(FormatOf(isIpv6, size), Version(FormatOf(isIpv6, size), Some(base), order, k)).Some?
    ensures var f := FormatOf(isIpv6, size);
            Checked(f, Version(f, Some(base), order, k + 1)).Some? <==> !Spoils(isIpv6, size, base.config, order, k)
  {
    assert order[..k + 1][..k] == order[..k] && order[..0] == [];
    EditKeepsValid(isIpv6, ApplyAll(base.config, order[..k]), order[k]);
  }

  /** When every edit comes from the command line and the first file is readable, the file is
      unreadable exactly after an edit that is unstable or leaves it too long, and no edit ever takes
      effect again. */
  lemma UnreadableExactly(
    isIpv6: string -> bool, size: Config -> nat, states: seq<State>, steps: seq<Step>, i: nat)
    requires var f := FormatOf(isIpv6, size);
             && Run(f, states, steps) && i < |states| && Checked(f, View(states[0].files, states[0].path)).Some?
    requires forall j | 0 <= j < |steps| && steps[j].Begin? :: Entered(isIpv6, steps[j].edit)
    ensures var base, s := View(states[0].files, states[0].path).value.config, states[i];
            && (Checked(FormatOf(isIpv6, size), View(s.files, s.path)).None? <==>
                  exists k: nat :: k < |s.order| && Spoils(isIpv6, size, base, s.order, k))
            && forall k: nat | k < |s.order| && Spoils(isIpv6, size, base, s.order, k) :: k == |s.order| - 1
  {
    var f := FormatOf(isIpv6, size);
    EditsAreSerial(f, states, steps, i);
    RunKeepsEntered(isIpv6, f, states, steps, i);
    var base, order := View(states[0].files, states[0].path).value, states[i].order;
    forall k: nat | k < |order|
      ensures Checked(f, Version(f, Some(base), order, k + 1)).Some? <==> !Spoils(isIpv6, size, base.config, order, k)
    {
      ReadableAfter(isIpv6, size, base, order, k);
    }
    forall k: nat | k < |order| - 1
      ensures !Spoils(isIpv6, size, base.config, order, k)
    {
      var next := k + 1;
      assert Checked(f, Version(f, Some(base), order, next)).Some?;
    }
    if order != [] {
      var last := |order| - 1;
      assert Checked(f, Version(f, Some(base), order, last + 1)).Some? <==>
             !Spoils(isIpv6, size, base.config, order, last);
    }
  }

  /** Saving `auto` for a host whose name is as long as the limit is one such edit, since the
      text holds the name. */
  lemma LongHostSpoils(isIpv6: string -> bool, size: Config -> nat, host: string)
    requires forall c: Config, h: string | h in c.hosts :: size(c) > |h|
    requires |host| == MAX_CONFIG_BYTES && forall i | 0 <= i < |host| :: host[i] == 'a'
    ensures var edit := Edit(Some(host), Some(Auto));
            Entered(isIpv6, edit) && !Unstable(isIpv6, edit) && Spoils(isIpv6, size, EMPTY, [edit], 0)
  {
    var edit := Edit(Some(host), Some(Auto));
    WordIsKey(isIpv6, host);
    assert ParseChoice(AUTO) == Ok(Auto);
    assert [edit][..1] == [edit] && [edit][..|[edit]| - 1] == [];
    assert host in ApplyAll(EMPTY, [edit]).hosts;
  }
}
