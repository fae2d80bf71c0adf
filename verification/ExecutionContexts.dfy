/**
 Session bindings and execution workspaces: two records published under an undo log,
 with generation numbers as concurrency tokens and recovery whenever the lock is taken.
 The lock itself is taken as held.
 */
module ExecutionContexts {
  import opened Wrappers
  import opened FileBatches

  datatype Lifecycle = Creating | Active | CleanupReady | Closed

  /** `place` stands for paths, branch and base revision. */
  datatype Workspace = Workspace(
    id: string, repository: string, place: string, epic: Option<string>, lifecycle: Lifecycle, generation: nat)

  datatype Session = Session(host: string, key: string)

  datatype BindingState = Bound | Released

  datatype Binding = Binding(
    session: Session, repository: string, workspaceId: string, epic: Option<string>,
    state: BindingState, generation: nat, workspaceGeneration: nat)

  /** The undo log: what to put back. */
  datatype Transaction = Transaction(
    workspaceId: string, session: Session, workspace: Option<Workspace>, binding: Option<Binding>)

  datatype Path = WorkspaceFile(id: string) | BindingFile(session: Session) | TransactionFile

  datatype Record = WorkspaceRecord(workspace: Workspace) | BindingRecord(binding: Binding) | TransactionRecord(transaction: Transaction)

  type Records = map<Path, Record>

  function WorkspaceIn(r: Records, id: string): Option<Workspace> {
    if WorkspaceFile(id) in r && r[WorkspaceFile(id)].WorkspaceRecord? then Some(r[WorkspaceFile(id)].workspace) else None
  }

  function BindingIn(r: Records, session: Session): Option<Binding> {
    if BindingFile(session) in r && r[BindingFile(session)].BindingRecord? then Some(r[BindingFile(session)].binding) else None
  }

  function AsWorkspace(w: Option<Workspace>): Option<Record> {
    match w case None => None case Some(x) => Some(WorkspaceRecord(x))
  }

  function AsBinding(b: Option<Binding>): Option<Record> {
    match b case None => None case Some(x) => Some(BindingRecord(x))
  }

  /** Every record lies at the path its own fields name. */
  predicate WellKeyed(p: Path, record: Record) {
    match p
    case WorkspaceFile(id) => record.WorkspaceRecord? && record.workspace.id == id && record.workspace.generation > 0
    case BindingFile(session) => record.BindingRecord? && record.binding.session == session && record.binding.generation > 0
    case TransactionFile =>
      && record.TransactionRecord?
      && var t := record.transaction;
         && (t.workspace.Some? ==> t.workspace.value.id == t.workspaceId && t.workspace.value.generation > 0)
         && (t.binding.Some? ==> t.binding.value.session == t.session && t.binding.value.generation > 0)
  }

  ghost predicate WellFormed(r: Records) {
    forall p :: p in r ==> WellKeyed(p, r[p])
  }

  // ---- The undo log ----

  /** The records after a complete rollback. */
  function Restored(r: Records, t: Transaction): Records {
    Put(Put(Put(r, WorkspaceFile(t.workspaceId), AsWorkspace(t.workspace)),
        BindingFile(t.session), AsBinding(t.binding)), TransactionFile, None)
  }

  /** What the next holder of the lock works on: the records, or what the undo log restores. */
  function Committed(r: Records): Records {
    if TransactionFile in r && r[TransactionFile].TransactionRecord? then Restored(r, r[TransactionFile].transaction) else r
  }

  function Both(r: Records, w: Option<Workspace>, b: Option<Binding>, id: string, session: Session): Records {
    Put(Put(r, WorkspaceFile(id), AsWorkspace(w)), BindingFile(session), AsBinding(b))
  }

  /** Both records new. */
  function Published(r: Records, w: Workspace, b: Binding): Records {
    Both(r, Some(w), Some(b), w.id, b.session)
  }

  /** While the log is there, any mixture of the two records is undone. */
  ghost predicate InFlight(before: Records, t: Transaction, r: Records) {
    && WellFormed(r)
    && Get(r, TransactionFile) == Some(TransactionRecord(t))
    && Get(before, TransactionFile) == None
    && t.workspace == WorkspaceIn(before, t.workspaceId) && t.binding == BindingIn(before, t.session)
    && forall p: Path {:trigger Get(r, p)} ::
         p != TransactionFile && p != WorkspaceFile(t.workspaceId) && p != BindingFile(t.session) ==> Get(r, p) == Get(before, p)
  }

  lemma InFlightIsUndone(before: Records, t: Transaction, r: Records)
    requires WellFormed(before) && InFlight(before, t, r)
    ensures Committed(r) == before
  {
    var after := Restored(r, t);
    forall p: Path ensures Get(after, p) == Get(before, p) {
      if p == WorkspaceFile(t.workspaceId) || p == BindingFile(t.session) {
        assert p in before ==> WellKeyed(p, before[p]);
      } else {
        assert Get(r, p) == Get(r, p);
      }
    }
    SameGetSameFiles(after, before);
  }

  /** The records while a rollback is on its way. */
  ghost predicate PartlyRestored(start: Records, t: Transaction, r: Records) {
    || r == start
    || r == Put(start, WorkspaceFile(t.workspaceId), AsWorkspace(t.workspace))
    || r == Both(start, t.workspace, t.binding, t.workspaceId, t.session)
    || r == Restored(start, t)
  }

  /** How far a rollback of two records that are both there got. */
  ghost predicate RestoredByScript(start: Records, t: Transaction, script: seq<Fault>, r: Records) {
    match FaultAt(script, 0)
    case Works =>
      if TookEffect(FaultAt(script, 1)) then r in {Both(start, t.workspace, t.binding, t.workspaceId, t.session), Restored(start, t)}
      else r == Put(start, WorkspaceFile(t.workspaceId), AsWorkspace(t.workspace))
    case Throws(true) => r == Put(start, WorkspaceFile(t.workspaceId), AsWorkspace(t.workspace))
    case _ => r == start
  }

  lemma RestoringStaysInFlight(before: Records, t: Transaction, start: Records, r: Records)
    requires WellFormed(before) && InFlight(before, t, start) && PartlyRestored(start, t, r)
    ensures r == before || InFlight(before, t, r)
  {
    InFlightIsUndone(before, t, start);
    if r != Restored(start, t) {
      forall p: Path | p != TransactionFile && p != WorkspaceFile(t.workspaceId) && p != BindingFile(t.session)
        ensures Get(r, p) == Get(before, p)
      {
        assert Get(start, p) == Get(before, p);
      }
    }
  }

  /** A log found on the disk is the log of what it restores. */
  lemma LogIsInFlight(r: Records)
    requires WellFormed(r) && TransactionFile in r
    ensures InFlight(Committed(r), r[TransactionFile].transaction, r) && WellFormed(Committed(r))
  {
    var t := r[TransactionFile].transaction;
    assert WellKeyed(TransactionFile, r[TransactionFile]);
    var before := Committed(r);
    forall p | p in before ensures WellKeyed(p, before[p]) {
      if p in r { assert WellKeyed(p, r[p]); }
    }
  }

  // ---- Publishing ----

  function LogOf(r: Records, w: Workspace, b: Binding): Transaction {
    Transaction(w.id, b.session, WorkspaceIn(r, w.id), BindingIn(r, b.session))
  }

  /** A commit whose removal of the log was reported as failed, caught half-way through its rollback. */
  function Torn(r: Records, w: Workspace, b: Binding): Records {
    Both(r, WorkspaceIn(r, w.id), Some(b), w.id, b.session)
  }

  /** What becomes of a publication. */
  datatype Fate = BothOld | BothNew | Mixed

  /**
   The fate of a publication by its faults: the log, the two records, the removal of the
   log, and after an ordinary failure the two records put back.
   */
  function FateOf(script: seq<Fault>): Fate {
    var f := FirstFault(script, 4);
    if f == 4 then BothNew
    else if f < 3 || FaultAt(script, 3) != Throws(true) then BothOld
    else
      match FaultAt(script, 4)
      case Works => if TookEffect(FaultAt(script, 5)) then BothOld else Mixed
      case Throws(true) => Mixed
      case _ => BothNew
  }

  function AfterFate(before: Records, w: Workspace, b: Binding, fate: Fate): Records {
    match fate
    case BothOld => before
    case BothNew => Published(before, w, b)
    case Mixed => Torn(before, w, b)
  }

  /**
   The three fates can be told apart by the records, so a publication is torn exactly when
   removing the log took effect and threw, and then putting the workspace back threw after
   taking effect, or worked while putting the binding back had no effect.
   */
  lemma FatesAreExact(before: Records, w: Workspace, b: Binding, script: seq<Fault>, after: Records)
    requires CanPublish(before, w, b) && WorkspaceIn(before, w.id) != Some(w) && BindingIn(before, b.session) != Some(b)
    requires after == AfterFate(before, w, b, FateOf(script))
    ensures after == Torn(before, w, b) <==>
      && FirstFault(script, 4) == 3 && FaultAt(script, 3) == Throws(true)
      && (FaultAt(script, 4) == Throws(true) || (FaultAt(script, 4) == Works && FaultAt(script, 5) in {Throws(false), Dies}))
    ensures after == Published(before, w, b) <==>
      || FirstFault(script, 4) == 4
      || (FirstFault(script, 4) == 3 && FaultAt(script, 3) == Throws(true) && FaultAt(script, 4) in {Throws(false), Dies})
  {
    CommittedReads(before, Some(w), Some(b), w.id, b.session);
    CommittedReads(before, WorkspaceIn(before, w.id), Some(b), w.id, b.session);
  }

  ghost predicate CanPublish(r: Records, w: Workspace, b: Binding) {
    WellFormed(r) && TransactionFile !in r && w.generation > 0 && b.generation > 0
  }

  /** After the last step only the two records have changed. */
  lemma PublishedRecords(before: Records, w: Workspace, b: Binding, r: Records)
    requires CanPublish(before, w, b) && InFlight(before, LogOf(before, w, b), r)
    requires Get(r, WorkspaceFile(w.id)) == Some(WorkspaceRecord(w)) && Get(r, BindingFile(b.session)) == Some(BindingRecord(b))
    ensures Put(r, TransactionFile, None) == Published(before, w, b)
  {
    forall p: Path ensures Get(Put(r, TransactionFile, None), p) == Get(Published(before, w, b), p) {
      if p != TransactionFile && p != WorkspaceFile(w.id) && p != BindingFile(b.session) {
        assert Get(r, p) == Get(before, p);
      }
    }
    SameGetSameFiles(Put(r, TransactionFile, None), Published(before, w, b));
  }

  /** Rolling back a commit that had in fact happened passes through the torn records. */
  lemma RestoringPublished(before: Records, w: Workspace, b: Binding, r: Records)
    requires CanPublish(before, w, b)
    requires PartlyRestored(Published(before, w, b), LogOf(before, w, b), r)
    ensures r in {Published(before, w, b), Torn(before, w, b), before}
    ensures r == Put(Published(before, w, b), WorkspaceFile(w.id), AsWorkspace(WorkspaceIn(before, w.id))) ==> r == Torn(before, w, b)
  {
    var t := LogOf(before, w, b);
    var start := Published(before, w, b);
    PutBackGets(before, w, b);
    forall p: Path ensures Get(Put(start, WorkspaceFile(w.id), AsWorkspace(t.workspace)), p) == Get(Torn(before, w, b), p) {}
    SameGetSameFiles(Put(start, WorkspaceFile(w.id), AsWorkspace(t.workspace)), Torn(before, w, b));
  }

  lemma PutBackGets(before: Records, w: Workspace, b: Binding)
    requires CanPublish(before, w, b)
    ensures
      var t := LogOf(before, w, b);
      && Both(Published(before, w, b), t.workspace, t.binding, w.id, b.session) == before
      && Restored(Published(before, w, b), t) == before
  {
    var t := LogOf(before, w, b);
    var r := Both(Published(before, w, b), t.workspace, t.binding, w.id, b.session);
    forall p: Path ensures Get(r, p) == Get(before, p) {
      assert p in before ==> WellKeyed(p, before[p]);
    }
    SameGetSameFiles(r, before);
    assert Put(r, TransactionFile, None) == before;
  }

  // ---- What the operations decide ----

  /** What Git and the issue store say: worktrees in place with their lock, and canonical Epics. */
  datatype Environment = Environment(
    repository: string, inPlace: Workspace -> bool, isEpic: (string, string) -> bool)

  predicate TopologyOk(env: Environment, w: Workspace) {
    && w.repository == env.repository
    && (w.lifecycle == Active || w.lifecycle == CleanupReady)
    && env.inPlace(w)
    && (w.epic.Some? ==> env.isEpic(w.place, w.epic.value))
  }

  predicate Matches(env: Environment, b: Binding, w: Workspace) {
    && b.repository == env.repository && b.repository == w.repository
    && b.workspaceId == w.id && b.epic == w.epic && b.workspaceGeneration == w.generation
  }

  function NewBinding(session: Session, w: Workspace): Binding {
    Binding(session, w.repository, w.id, w.epic, Bound, 1, w.generation)
  }

  function Rebound(b: Binding, w: Workspace): Binding {
    Binding(b.session, w.repository, w.id, w.epic, Bound, b.generation + 1, w.generation)
  }

  function ReleasedBinding(b: Binding): Binding {
    b.(state := Released, generation := b.generation + 1)
  }

  /** A session resolves to its workspace exactly when binding and workspace agree and Git confirms it. */
  predicate Resolves(env: Environment, r: Records, session: Session, expected: Option<nat>) {
    var b := BindingIn(r, session);
    && b.Some? && b.value.state == Bound
    && (expected == None || expected.value == b.value.generation)
    && var w := WorkspaceIn(r, b.value.workspaceId);
       w.Some? && Matches(env, b.value, w.value) && TopologyOk(env, w.value)
  }

  ghost predicate EpicFree(r: Records, epic: string, except: Option<string>) {
    forall id :: WorkspaceFile(id) in r && Some(id) != except ==>
      WorkspaceIn(r, id).Some? ==> WorkspaceIn(r, id).value.epic != Some(epic)
  }

  ghost predicate MayAttach(env: Environment, r: Records, session: Session, epic: string, bindingGeneration: nat, workspaceGeneration: nat) {
    && Resolves(env, r, session, Some(bindingGeneration))
    && var w := WorkspaceIn(r, BindingIn(r, session).value.workspaceId).value;
       w.generation == workspaceGeneration && w.epic == None && env.isEpic(w.place, epic) && EpicFree(r, epic, Some(w.id))
  }

  function AttachedWorkspace(w: Workspace, epic: string): Workspace {
    w.(epic := Some(epic), generation := w.generation + 1)
  }

  /** The binding a bind leads to; the current one when nothing has to be written. */
  function BindTo(env: Environment, r: Records, session: Session, id: string, expectedBinding: Option<nat>, expectedWorkspace: Option<nat>): Option<Binding> {
    var w := WorkspaceIn(r, id);
    if w == None || expectedWorkspace != Some(w.value.generation) || !TopologyOk(env, w.value) then None
    else
      match BindingIn(r, session)
      case None => if expectedBinding.Some? then None else Some(NewBinding(session, w.value))
      case Some(b) =>
        if b.workspaceId == id && b.state == Bound then
          if (expectedBinding.Some? && expectedBinding.value != b.generation) || !Matches(env, b, w.value) then None
          else Some(b)
        else if expectedBinding != Some(b.generation) then None
        else Some(Rebound(b, w.value))
  }

  // ---- Steps of the committed records ----

  ghost predicate UniqueEpics(r: Records) {
    forall i, j ::
      (WorkspaceIn(r, i).Some? && WorkspaceIn(r, j).Some? && WorkspaceIn(r, i).value.epic.Some?
       && WorkspaceIn(r, i).value.epic == WorkspaceIn(r, j).value.epic) ==> i == j
  }

  ghost predicate WorkspaceAdvances(x: Option<Workspace>, y: Option<Workspace>) {
    || x == y
    || (x == None && y.Some?)
    || (x.Some? && y.Some? && y.value.generation == x.value.generation + 1 && (x.value.epic.Some? ==> y.value.epic == x.value.epic))
  }

  ghost predicate BindingAdvances(x: Option<Binding>, y: Option<Binding>) {
    || x == y
    || (x == None && y.Some?)
    || (x.Some? && y.Some? && y.value.generation == x.value.generation + 1)
  }

  /** No record is lost or goes back, and an attached Epic stays. */
  ghost predicate Advances(r: Records, after: Records) {
    && (forall id :: WorkspaceAdvances(WorkspaceIn(r, id), WorkspaceIn(after, id)))
    && (forall session :: BindingAdvances(BindingIn(r, session), BindingIn(after, session)))
  }

  ghost predicate Sound(r: Records) {
    WellFormed(r) && TransactionFile !in r && UniqueEpics(r)
  }

  lemma CommittedReads(r: Records, w: Option<Workspace>, b: Option<Binding>, id: string, session: Session)
    ensures var after := Both(r, w, b, id, session);
      && WorkspaceIn(after, id) == w && BindingIn(after, session) == b
      && (forall other :: other != id ==> WorkspaceIn(after, other) == WorkspaceIn(r, other))
      && (forall other :: other != session ==> BindingIn(after, other) == BindingIn(r, other))
      && (Get(after, TransactionFile) == Get(r, TransactionFile))
  {
  }

  /** Conditions under which replacing the two records is one sound step. */
  ghost predicate SoundStep(r: Records, w: Option<Workspace>, b: Option<Binding>, id: string, session: Session) {
    && WorkspaceAdvances(WorkspaceIn(r, id), w) && BindingAdvances(BindingIn(r, session), b)
    && (w.Some? ==> w.value.id == id && w.value.generation > 0)
    && (b.Some? ==> b.value.session == session && b.value.generation > 0)
    && (w.Some? && w.value.epic.Some? && WorkspaceIn(r, id) != w ==> EpicFree(r, w.value.epic.value, Some(id)))
  }

  lemma StepIsSound(r: Records, w: Option<Workspace>, b: Option<Binding>, id: string, session: Session)
    requires Sound(r) && SoundStep(r, w, b, id, session)
    ensures Sound(Both(r, w, b, id, session)) && Advances(r, Both(r, w, b, id, session))
  {
    var after := Both(r, w, b, id, session);
    CommittedReads(r, w, b, id, session);
    forall p | p in after ensures WellKeyed(p, after[p]) {
      if p in r { assert WellKeyed(p, r[p]); }
    }
    forall i, j | WorkspaceIn(after, i).Some? && WorkspaceIn(after, j).Some? && WorkspaceIn(after, i).value.epic.Some?
        && WorkspaceIn(after, i).value.epic == WorkspaceIn(after, j).value.epic
      ensures i == j
    {
      StepKeepsEpics(r, w, b, id, session, i, j);
    }
  }

  lemma StepKeepsEpics(r: Records, w: Option<Workspace>, b: Option<Binding>, id: string, session: Session, i: string, j: string)
    requires UniqueEpics(r) && SoundStep(r, w, b, id, session)
    requires
      var after := Both(r, w, b, id, session);
      WorkspaceIn(after, i).Some? && WorkspaceIn(after, j).Some? && WorkspaceIn(after, i).value.epic.Some?
        && WorkspaceIn(after, i).value.epic == WorkspaceIn(after, j).value.epic
    ensures i == j
  {
    CommittedReads(r, w, b, id, session);
  }

  // ---- The store ----

  class ExecutionContextStore {
    const disk: Disk<Path, Record>

    constructor (disk: Disk<Path, Record>)
      ensures this.disk == disk
    {
      this.disk := disk;
    }

    /** Write a record, or remove it; removing what is not there touches nothing. */
    method Write(path: Path, record: Option<Record>) returns (fault: Fault)
      modifies disk
      ensures disk.files == if fault == Works || fault == Throws(true) then Put(old(disk.files), path, record) else old(disk.files)
      ensures (record.Some? || path in old(disk.files)) ==> fault == FaultAt(old(disk.faults), 0) && disk.faults == Skip(old(disk.faults), 1)
    {
      if record == None && path !in disk.files {
        assert Put(disk.files, path, None) == disk.files;
        return Works;
      }
      fault := disk.Publish(path, record);
    }

    /** Put both records back and remove the log, stopping at the first failure. */
    method Rollback(t: Transaction) returns (o: Outcome)
      modifies disk
      ensures o in {Applied, Died, RollbackFailed}
      ensures PartlyRestored(old(disk.files), t, disk.files)
      ensures o.Applied? ==> disk.files == Restored(old(disk.files), t)
      ensures WorkspaceFile(t.workspaceId) in old(disk.files) && BindingFile(t.session) in old(disk.files) ==>
        RestoredByScript(old(disk.files), t, old(disk.faults), disk.files)
    {
      var fault := Write(WorkspaceFile(t.workspaceId), AsWorkspace(t.workspace));
      if fault != Works {
        return if fault == Dies then Died else RollbackFailed;
      }
      fault := Write(BindingFile(t.session), AsBinding(t.binding));
      if fault != Works {
        return if fault == Dies then Died else RollbackFailed;
      }
      fault := Write(TransactionFile, None);
      o := if fault == Works then Applied else if fault == Dies then Died else RollbackFailed;
    }

    /** Undo a transaction left behind. It may fail or die itself; what is committed stays the same. */
    method Recover() returns (o: Outcome)
      requires WellFormed(disk.files)
      modifies disk
      ensures o in {Applied, Died, RollbackFailed}
      ensures WellFormed(Committed(old(disk.files))) && Committed(disk.files) == Committed(old(disk.files))
      ensures o.Applied? ==> disk.files == Committed(old(disk.files)) && TransactionFile !in disk.files
      ensures Step(old(disk.files), Recovers, disk.files)
    {
      if TransactionFile !in disk.files {
        return Applied;
      }
      ghost var start := disk.files;
      ghost var before := Committed(start);
      LogIsInFlight(start);
      var t := disk.files[TransactionFile].transaction;
      o := Rollback(t);
      RestoringStaysInFlight(before, t, start, disk.files);
      if InFlight(before, t, disk.files) {
        InFlightIsUndone(before, t, disk.files);
      }
    }

    /** The three steps after the log has been written; `steps` of them worked. */
    method WriteBoth(ghost before: Records, w: Workspace, b: Binding) returns (fault: Fault, ghost steps: nat)
      requires CanPublish(before, w, b) && InFlight(before, LogOf(before, w, b), disk.files)
      modifies disk
      ensures steps == FirstFault(old(disk.faults), 3) && fault == (if steps == 3 then Works else FaultAt(old(disk.faults), steps))
      ensures fault == Works ==> disk.files == Published(before, w, b)
      ensures fault != Works && !(steps == 2 && fault == Throws(true)) ==> InFlight(before, LogOf(before, w, b), disk.files)
      ensures steps == 2 && fault == Throws(true) ==> disk.files == Published(before, w, b) && disk.faults == Skip(old(disk.faults), 3)
    {
      ghost var script := disk.faults;
      ghost var start := disk.files;
      fault := Write(WorkspaceFile(w.id), Some(WorkspaceRecord(w)));
      WritingStaysInFlight(before, w, b, start, disk.files);
      steps := 0;
      if fault != Works {
        FirstFaultIs(script, 3, 0);
        return;
      }
      ghost var middle := disk.files;
      fault := Write(BindingFile(b.session), Some(BindingRecord(b)));
      WritingStaysInFlight(before, w, b, middle, disk.files);
      steps := 1;
      if fault != Works {
        FirstFaultIs(script, 3, 1);
        return;
      }
      PublishedRecords(before, w, b, disk.files);
      fault := Write(TransactionFile, None);
      steps := if fault == Works then 3 else 2;
      FirstFaultIs(script, 3, steps);
    }

    /**
     Publish a workspace and a binding together. What the next holder of the lock sees is
     decided by the faults: both records new or both old, with one exception: removing the
     log took effect but was reported as failed, and the rollback then stopped between its
     two steps. A second attempt may start from whatever the first one left.
     */
    method Publish(w: Workspace, b: Binding, t: Transaction, ghost before: Records) returns (o: Outcome)
      requires CanPublish(before, w, b) && t == LogOf(before, w, b)
      requires Leftover(before, w, b, disk.files)
      modifies disk
      ensures o in {Applied, RolledBack, RollbackFailed, Died}
      ensures o.Applied? <==> FirstFault(old(disk.faults), 4) == 4
      ensures o.Applied? ==> disk.files == Published(before, w, b)
      ensures o.RolledBack? ==> disk.files == before
      ensures Leftover(before, w, b, disk.files)
      ensures Committed(disk.files) ==
        if TookEffect(FaultAt(old(disk.faults), 0)) then AfterFate(before, w, b, FateOf(old(disk.faults)))
        else Committed(old(disk.files))
      ensures old(disk.files) == before ==> Committed(disk.files) == AfterFate(before, w, b, FateOf(old(disk.faults)))
    {
      ghost var start, script := disk.files, disk.faults;
      var fault := Write(TransactionFile, Some(TransactionRecord(t)));
      LogMakesInFlight(before, w, b, start);
      if fault != Works {
        FirstFaultIs(script, 4, 0);
        return if fault == Dies then Died else RollbackFailed;
      }
      FirstFaultConcat(script, 1, 3);
      o := PublishLogged(before, w, b, t, script);
    }

    /** The log is written. */
    method PublishLogged(ghost before: Records, w: Workspace, b: Binding, t: Transaction, ghost script: seq<Fault>) returns (o: Outcome)
      requires CanPublish(before, w, b) && t == LogOf(before, w, b) && InFlight(before, t, disk.files)
      requires FaultAt(script, 0) == Works && FirstFault(script, 4) == 1 + FirstFault(Skip(script, 1), 3) && disk.faults == Skip(script, 1)
      modifies disk
      ensures o in {Applied, RolledBack, RollbackFailed, Died}
      ensures o.Applied? <==> FirstFault(script, 4) == 4
      ensures o.Applied? ==> disk.files == Published(before, w, b)
      ensures o.RolledBack? ==> disk.files == before
      ensures Leftover(before, w, b, disk.files)
      ensures Committed(disk.files) == AfterFate(before, w, b, FateOf(script))
    {
      var fault;
      ghost var steps;
      fault, steps := WriteBoth(before, w, b);
      if fault == Works {
        return Applied;
      }
      ghost var middle := disk.files;
      if fault == Dies {
        InFlightIsUndone(before, t, middle);
        return Died;
      }
      SkipSkip(script, 1, 3);
      var undone := Rollback(t);
      UndoneIsCommitted(before, w, b, middle, disk.files);
      if middle == Published(before, w, b) {
        UndoneByScript(before, w, b, Skip(script, 4), disk.files);
      }
      o := if undone == Applied then RolledBack else undone;
    }

    // ---- Operations under the lock, after recovery ----

    method ResolveSession(env: Environment, session: Session, expected: Option<nat>) returns (r: Result<(Workspace, Binding)>)
      requires Sound(disk.files)
      ensures r.Ok? <==> Resolves(env, disk.files, session, expected)
      ensures r.Ok? ==> BindingIn(disk.files, session) == Some(r.value.1) && WorkspaceIn(disk.files, r.value.1.workspaceId) == Some(r.value.0)
    {
      var binding := BindingIn(disk.files, session);
      if binding == None || binding.value.state != Bound {
        return Err(UnsafeState);
      }
      if expected.Some? && expected.value != binding.value.generation {
        return Err(Conflict);
      }
      var workspace := WorkspaceIn(disk.files, binding.value.workspaceId);
      if workspace == None {
        return Err(UnsafeState);
      }
      if !Matches(env, binding.value, workspace.value) {
        return Err(Conflict);
      }
      if !TopologyOk(env, workspace.value) {
        return Err(UnsafeState);
      }
      r := Ok((workspace.value, binding.value));
    }

    method CheckEpicFree(epic: string, except: Option<string>) returns (free: bool)
      ensures free <==> EpicFree(disk.files, epic, except)
    {
      var pending := disk.files.Keys;
      while pending != {}
        invariant pending <= disk.files.Keys
        invariant forall id :: WorkspaceFile(id) in disk.files && WorkspaceFile(id) !in pending && Some(id) != except ==>
          WorkspaceIn(disk.files, id).Some? ==> WorkspaceIn(disk.files, id).value.epic != Some(epic)
        decreases |pending|
      {
        var p :| p in pending;
        pending := pending - {p};
        if p.WorkspaceFile? && Some(p.id) != except && WorkspaceIn(disk.files, p.id).Some? && WorkspaceIn(disk.files, p.id).value.epic == Some(epic) {
          return false;
        }
      }
      free := true;
    }

    /** Attach the workspace of a session to an Epic that has none. */
    method AttachEpic(env: Environment, session: Session, epic: string, bindingGeneration: nat, workspaceGeneration: nat) returns (o: Outcome)
      requires Sound(disk.files)
      modifies disk
      ensures o.Rejected? <==> !MayAttach(env, old(disk.files), session, epic, bindingGeneration, workspaceGeneration)
      ensures o.Rejected? ==> disk.files == old(disk.files)
      ensures !o.Rejected? ==>
        var b := BindingIn(old(disk.files), session).value;
        var w := AttachedWorkspace(WorkspaceIn(old(disk.files), b.workspaceId).value, epic);
        && Leftover(old(disk.files), w, Rebound(b, w), disk.files)
        && (o.Applied? ==> disk.files == Published(old(disk.files), w, Rebound(b, w)))
        && Committed(disk.files) == AfterFate(old(disk.files), w, Rebound(b, w), FateOf(old(disk.faults)))
      ensures Step(old(disk.files), Attaches(env, session, epic, bindingGeneration, workspaceGeneration), disk.files)
    {
      var context := ResolveSession(env, session, Some(bindingGeneration));
      if context.Err? {
        return Rejected(context.error);
      }
      var (workspace, binding) := context.value;
      if workspace.generation != workspaceGeneration || workspace.epic != None {
        return Rejected(Conflict);
      }
      if !env.isEpic(workspace.place, epic) {
        return Rejected(Authority);
      }
      var free := CheckEpicFree(epic, Some(workspace.id));
      if !free {
        return Rejected(Conflict);
      }
      var next := AttachedWorkspace(workspace, epic);
      var nextBinding := Rebound(binding, next);
      ReadsAreKeyed(disk.files, workspace.id, session);
      AttachIsSound(env, disk.files, session, epic, bindingGeneration, workspaceGeneration);
      o := Publish(next, nextBinding, Transaction(workspace.id, session, Some(workspace), Some(binding)), disk.files);
    }

    /** Write one binding; whatever happens it is the old one or the new one. */
    method WriteBinding(b: Binding) returns (o: Outcome)
      modifies disk
      ensures o in {Applied, RollbackFailed, Died}
      ensures o.Applied? ==> disk.files == old(disk.files)[BindingFile(b.session) := BindingRecord(b)]
      ensures disk.files in {old(disk.files), old(disk.files)[BindingFile(b.session) := BindingRecord(b)]}
    {
      var fault := Write(BindingFile(b.session), Some(BindingRecord(b)));
      o := if fault == Works then Applied else if fault == Dies then Died else RollbackFailed;
    }

    /** Bind a session to a workspace at the exact generations the caller has seen. */
    method BindSession(env: Environment, session: Session, id: string, expectedBinding: Option<nat>, expectedWorkspace: Option<nat>) returns (o: Outcome)
      requires Sound(disk.files)
      modifies disk
      ensures o.Rejected? <==> BindTo(env, old(disk.files), session, id, expectedBinding, expectedWorkspace) == None
      ensures o.Rejected? ==> disk.files == old(disk.files)
      ensures o.Applied? ==>
        && BindingIn(disk.files, session) == BindTo(env, old(disk.files), session, id, expectedBinding, expectedWorkspace)
        && Resolves(env, disk.files, session, None)
      ensures Step(old(disk.files), Binds(env, session, id, expectedBinding, expectedWorkspace), disk.files)
    {
      var workspace := WorkspaceIn(disk.files, id);
      if workspace == None {
        return Rejected(UnsafeState);
      }
      ReadsAreKeyed(disk.files, id, session);
      var w := workspace.value;
      if expectedWorkspace != Some(w.generation) {
        return Rejected(Conflict);
      }
      if !TopologyOk(env, w) {
        return Rejected(UnsafeState);
      }
      var current := BindingIn(disk.files, session);
      if current.Some? && current.value.workspaceId == id && current.value.state == Bound {
        if expectedBinding.Some? && expectedBinding.value != current.value.generation {
          return Rejected(Conflict);
        }
        if !Matches(env, current.value, w) {
          return Rejected(Conflict);
        }
        return Applied;
      }
      if current.Some? && expectedBinding != Some(current.value.generation) {
        return Rejected(Conflict);
      }
      if current == None && expectedBinding.Some? {
        return Rejected(Conflict);
      }
      o := WriteBinding(if current.Some? then Rebound(current.value, w) else NewBinding(session, w));
    }

    /**
     Reserve a workspace, create its worktree, and publish it with a first binding. `git` is
     what creating the worktree does; `recoverable` says that a worktree found after a failure
     is ours, so the publication is tried once more.
     */
    method AllocateProvisional(session: Session, id: string, repository: string, place: string, available: bool, git: Fault, recoverable: bool) returns (o: Outcome)
      requires Sound(disk.files) && WorkspaceFile(id) !in disk.files
      modifies disk
      ensures o.Rejected? <==> BindingIn(old(disk.files), session).Some? || !available
      ensures o.Rejected? ==> disk.files == old(disk.files)
      ensures o.Applied? ==>
        var w := Workspace(id, repository, place, None, Active, 2);
        disk.files == Published(old(disk.files), w, NewBinding(session, w))
      ensures git == Dies && !o.Rejected? ==> BindingIn(disk.files, session) == None && TransactionFile !in disk.files
      ensures Step(old(disk.files), Allocates(session, id, repository, place), disk.files)
    {
      ghost var start := disk.files;
      if BindingIn(disk.files, session).Some? || !available {
        return Rejected(Conflict);
      }
      var creating := Workspace(id, repository, place, None, Creating, 1);
      ReserveIsSound(start, creating, session);
      var fault := Write(WorkspaceFile(id), Some(WorkspaceRecord(creating)));
      if fault != Works {
        return if fault == Dies then Died else RollbackFailed;
      }
      if git == Dies {
        return Died;
      }
      ghost var reserved := disk.files;
      var active := creating.(lifecycle := Active, generation := 2);
      var binding := NewBinding(session, active);
      var log := Transaction(id, session, Some(creating), None);
      ActivationIsSound(start, creating, session);
      o := RollbackFailed;
      if git == Works {
        o := Publish(active, binding, log, reserved);
      }
      if o != Applied && o != Died && recoverable {
        o := Publish(active, binding, log, reserved);
      }
    }

    /** Take over the workspace of an Epic that the older records still hold. */
    method AdoptV1(env: Environment, session: Session, epic: string, id: string, legacy: Option<Workspace>, primary: string, adoptable: Workspace -> bool) returns (o: Outcome)
      requires Sound(disk.files) && WorkspaceFile(id) !in disk.files
      modifies disk
      ensures !o.Rejected? <==>
        && BindingIn(old(disk.files), session) == None && env.isEpic(primary, epic)
        && legacy.Some? && adoptable(legacy.value) && legacy.value.lifecycle in {Active, CleanupReady}
        && EpicFree(old(disk.files), epic, None)
      ensures o.Rejected? ==> disk.files == old(disk.files)
      ensures !o.Rejected? ==>
        var w := Workspace(id, env.repository, legacy.value.place, Some(epic), legacy.value.lifecycle, 1);
        && Leftover(old(disk.files), w, NewBinding(session, w), disk.files)
        && (o.Applied? ==> disk.files == Published(old(disk.files), w, NewBinding(session, w)))
        && Committed(disk.files) == AfterFate(old(disk.files), w, NewBinding(session, w), FateOf(old(disk.faults)))
      ensures Step(old(disk.files), Adopts(session, epic, id, env.repository, legacy), disk.files)
    {
      if BindingIn(disk.files, session).Some? {
        return Rejected(Conflict);
      }
      if !env.isEpic(primary, epic) {
        return Rejected(Authority);
      }
      if legacy == None || !adoptable(legacy.value) || legacy.value.lifecycle !in {Active, CleanupReady} {
        return Rejected(UnsafeState);
      }
      var free := CheckEpicFree(epic, None);
      if !free {
        return Rejected(Conflict);
      }
      var w := Workspace(id, env.repository, legacy.value.place, Some(epic), legacy.value.lifecycle, 1);
      PublicationKeepsSound(disk.files, w, NewBinding(session, w));
      o := Publish(w, NewBinding(session, w), Transaction(id, session, None, None), disk.files);
    }

    method ReleaseSession(session: Session, expected: nat) returns (o: Outcome)
      requires Sound(disk.files)
      modifies disk
      ensures o.Rejected? <==>
        var b := BindingIn(old(disk.files), session); b == None || b.value.state != Bound || b.value.generation != expected
      ensures o.Rejected? ==> disk.files == old(disk.files)
      ensures o.Applied? ==>
        && BindingIn(disk.files, session) == Some(ReleasedBinding(BindingIn(old(disk.files), session).value))
        && forall env, e :: !Resolves(env, disk.files, session, e)
      ensures Step(old(disk.files), Releases(session, expected), disk.files)
    {
      var binding := BindingIn(disk.files, session);
      if binding == None || binding.value.state != Bound {
        return Rejected(UnsafeState);
      }
      if binding.value.generation != expected {
        return Rejected(Conflict);
      }
      ReadsAreKeyed(disk.files, "", session);
      o := WriteBinding(ReleasedBinding(binding.value));
    }
  }

  /** What the lock protects: the disk stays readable, and the committed records move by one sound step. */
  ghost predicate KeptSound(before: Records, r: Records) {
    WellFormed(r) && Sound(Committed(r)) && Advances(before, Committed(r))
  }

  function Reserved(r: Records, w: Workspace): Records {
    r[WorkspaceFile(w.id) := WorkspaceRecord(w)]
  }

  lemma ReserveIsSound(r: Records, creating: Workspace, session: Session)
    requires Sound(r) && WorkspaceFile(creating.id) !in r && creating.generation > 0 && creating.epic == None
    ensures KeptSound(r, r) && KeptSound(r, Reserved(r, creating)) && Sound(Reserved(r, creating))
    ensures BindingIn(Reserved(r, creating), session) == BindingIn(r, session)
  {
    var after := Reserved(r, creating);
    forall p | p in after ensures WellKeyed(p, after[p]) {
      if p in r { assert WellKeyed(p, r[p]); }
    }
    assert forall id :: id != creating.id ==> WorkspaceIn(after, id) == WorkspaceIn(r, id);
  }

  lemma ActivationIsSound(r: Records, creating: Workspace, session: Session)
    requires Sound(r) && WorkspaceFile(creating.id) !in r && creating.generation == 1 && creating.epic == None
    requires BindingIn(r, session) == None
    ensures
      var active := creating.(lifecycle := Active, generation := 2);
      && Sound(Reserved(r, creating))
      && SoundStep(Reserved(r, creating), Some(active), Some(NewBinding(session, active)), creating.id, session)
      && CanPublish(Reserved(r, creating), active, NewBinding(session, active))
      && Published(Reserved(r, creating), active, NewBinding(session, active)) == Published(r, active, NewBinding(session, active))
  {
    ReserveIsSound(r, creating, session);
    var active := creating.(lifecycle := Active, generation := 2);
    assert WorkspaceIn(Reserved(r, creating), creating.id) == Some(creating);
    PublicationKeepsSound(Reserved(r, creating), active, NewBinding(session, active));
  }

  /** Reserving and activating together are still one step for every reader of the old records. */
  lemma ActivationLeftover(r: Records, creating: Workspace, session: Session, now: Records)
    requires Sound(r) && WorkspaceFile(creating.id) !in r && creating.generation == 1 && creating.epic == None
    requires BindingIn(r, session) == None
    requires
      var active := creating.(lifecycle := Active, generation := 2);
      now == Reserved(r, creating) || Leftover(Reserved(r, creating), active, NewBinding(session, active), now)
    ensures KeptSound(r, now)
  {
    var active := creating.(lifecycle := Active, generation := 2);
    var middle := Reserved(r, creating);
    ReserveIsSound(r, creating, session);
    ActivationIsSound(r, creating, session);
    LeftoverKeepsSound(middle, active, NewBinding(session, active), now);
    FromNothing(r, creating, session, Committed(now));
  }

  lemma FromNothing(r: Records, creating: Workspace, session: Session, after: Records)
    requires WorkspaceFile(creating.id) !in r && BindingIn(r, session) == None
    requires Advances(Reserved(r, creating), after)
    ensures Advances(r, after)
  {
    var middle := Reserved(r, creating);
    forall id ensures WorkspaceAdvances(WorkspaceIn(r, id), WorkspaceIn(after, id)) {
      assert WorkspaceAdvances(WorkspaceIn(middle, id), WorkspaceIn(after, id));
      assert id != creating.id ==> WorkspaceIn(middle, id) == WorkspaceIn(r, id);
    }
    forall s ensures BindingAdvances(BindingIn(r, s), BindingIn(after, s)) {
      assert BindingAdvances(BindingIn(middle, s), BindingIn(after, s));
      assert BindingIn(middle, s) == BindingIn(r, s);
    }
  }

  lemma ReadsAreKeyed(r: Records, id: string, session: Session)
    requires WellFormed(r)
    ensures WorkspaceIn(r, id).Some? ==> WorkspaceIn(r, id).value.id == id && WorkspaceIn(r, id).value.generation > 0
    ensures BindingIn(r, session).Some? ==> BindingIn(r, session).value.session == session && BindingIn(r, session).value.generation > 0
  {
    if WorkspaceFile(id) in r { assert WellKeyed(WorkspaceFile(id), r[WorkspaceFile(id)]); }
    if BindingFile(session) in r { assert WellKeyed(BindingFile(session), r[BindingFile(session)]); }
  }

  lemma OneBindingKeepsSound(r: Records, b: Binding)
    requires Sound(r) && BindingAdvances(BindingIn(r, b.session), Some(b)) && b.generation > 0
    ensures KeptSound(r, r) && KeptSound(r, r[BindingFile(b.session) := BindingRecord(b)])
  {
    var after := r[BindingFile(b.session) := BindingRecord(b)];
    forall p | p in after ensures WellKeyed(p, after[p]) {
      if p in r { assert WellKeyed(p, r[p]); }
    }
    assert forall id :: WorkspaceIn(after, id) == WorkspaceIn(r, id);
  }

  /** A publication whose new records advance keeps everything sound, even torn. */
  lemma PublicationKeepsSound(before: Records, w: Workspace, b: Binding)
    requires Sound(before) && SoundStep(before, Some(w), Some(b), w.id, b.session)
    ensures CanPublish(before, w, b)
    ensures Sound(Published(before, w, b)) && Advances(before, Published(before, w, b))
    ensures Sound(Torn(before, w, b)) && Advances(before, Torn(before, w, b))
  {
    ReadsAreKeyed(before, w.id, b.session);
    StepIsSound(before, Some(w), Some(b), w.id, b.session);
    StepIsSound(before, WorkspaceIn(before, w.id), Some(b), w.id, b.session);
  }

  lemma LeftoverKeepsSound(before: Records, w: Workspace, b: Binding, r: Records)
    requires Sound(before) && SoundStep(before, Some(w), Some(b), w.id, b.session)
    requires Leftover(before, w, b, r)
    ensures KeptSound(before, r)
  {
    PublicationKeepsSound(before, w, b);
    LeftoverIsCommitted(before, w, b, r);
  }

  /** What a publication of these two records can leave on the disk. */
  ghost predicate Leftover(before: Records, w: Workspace, b: Binding, r: Records) {
    || InFlight(before, LogOf(before, w, b), r)
    || r in {before, Published(before, w, b), Torn(before, w, b)}
  }

  /** To the next holder of the lock it is both old, both new, or torn. */
  lemma LeftoverIsCommitted(before: Records, w: Workspace, b: Binding, r: Records)
    requires CanPublish(before, w, b) && Leftover(before, w, b, r)
    ensures Committed(r) in {before, Published(before, w, b), Torn(before, w, b)}
    ensures WellFormed(r)
  {
    var t := LogOf(before, w, b);
    if InFlight(before, t, r) {
      InFlightIsUndone(before, t, r);
    }
  }

  lemma WritingStaysInFlight(before: Records, w: Workspace, b: Binding, start: Records, r: Records)
    requires CanPublish(before, w, b) && InFlight(before, LogOf(before, w, b), start)
    requires r in {start, start[WorkspaceFile(w.id) := WorkspaceRecord(w)], start[BindingFile(b.session) := BindingRecord(b)]}
    ensures InFlight(before, LogOf(before, w, b), r)
  {
    var t := LogOf(before, w, b);
    forall p: Path | p != TransactionFile && p != WorkspaceFile(w.id) && p != BindingFile(b.session)
      ensures Get(r, p) == Get(before, p)
    {
      assert Get(start, p) == Get(before, p);
    }
  }

  lemma LogMakesInFlight(before: Records, w: Workspace, b: Binding, start: Records)
    requires CanPublish(before, w, b) && Leftover(before, w, b, start)
    ensures InFlight(before, LogOf(before, w, b), start[TransactionFile := TransactionRecord(LogOf(before, w, b))])
    ensures Committed(start[TransactionFile := TransactionRecord(LogOf(before, w, b))]) == before
  {
    var t := LogOf(before, w, b);
    var r := start[TransactionFile := TransactionRecord(t)];
    forall p: Path | p != TransactionFile && p != WorkspaceFile(w.id) && p != BindingFile(b.session)
      ensures Get(r, p) == Get(before, p)
    {
      assert Get(r, p) == Get(start, p);
    }
    InFlightIsUndone(before, t, r);
  }

  lemma UndoneIsCommitted(before: Records, w: Workspace, b: Binding, start: Records, r: Records)
    requires CanPublish(before, w, b) && PartlyRestored(start, LogOf(before, w, b), r)
    requires start == Published(before, w, b) || InFlight(before, LogOf(before, w, b), start)
    ensures Leftover(before, w, b, r)
    ensures start != Published(before, w, b) ==> Committed(r) == before
    ensures r == Restored(start, LogOf(before, w, b)) ==> r == before
  {
    var t := LogOf(before, w, b);
    if InFlight(before, t, start) {
      RestoringStaysInFlight(before, t, start, r);
      InFlightIsUndone(before, t, start);
      if r != before {
        InFlightIsUndone(before, t, r);
      }
    } else {
      RestoringPublished(before, w, b, r);
      PutBackGets(before, w, b);
    }
  }

  /** Rolling back a commit that had in fact happened, by the faults on the way. */
  lemma UndoneByScript(before: Records, w: Workspace, b: Binding, script: seq<Fault>, r: Records)
    requires CanPublish(before, w, b) && RestoredByScript(Published(before, w, b), LogOf(before, w, b), script, r)
    ensures r == match FaultAt(script, 0)
      case Works => if TookEffect(FaultAt(script, 1)) then before else Torn(before, w, b)
      case Throws(true) => Torn(before, w, b)
      case _ => Published(before, w, b)
  {
    var t := LogOf(before, w, b);
    var middle := Put(Published(before, w, b), WorkspaceFile(w.id), AsWorkspace(t.workspace));
    assert PartlyRestored(Published(before, w, b), t, middle);
    RestoringPublished(before, w, b, middle);
    PutBackGets(before, w, b);
  }

  // ---- Runs ----

  /** What a holder of the lock does: recovery, and then one operation. */
  datatype Operation =
    | Recovers
    | Attaches(env: Environment, session: Session, epic: string, bindingGeneration: nat, workspaceGeneration: nat)
    | Binds(env: Environment, session: Session, id: string, expectedBinding: Option<nat>, expectedWorkspace: Option<nat>)
    | Allocates(session: Session, id: string, repository: string, place: string)
    | Adopts(session: Session, epic: string, id: string, repository: string, legacy: Option<Workspace>)
    | Releases(session: Session, expected: nat)

  /** Everything an operation can leave on the disk, however it ends: refused, failed, dead or applied. */
  ghost predicate Step(r: Records, op: Operation, after: Records) {
    match op
    case Recovers => WellFormed(after) && Committed(after) == Committed(r)
    case _ => TransactionFile !in r && (after == r || Changes(r, op, after))
  }

  /** The records an accepted operation can leave. */
  ghost predicate Changes(r: Records, op: Operation, after: Records) {
    match op
    case Recovers => false
    case Attaches(env, session, epic, bindingGeneration, workspaceGeneration) =>
      && MayAttach(env, r, session, epic, bindingGeneration, workspaceGeneration)
      && var b := BindingIn(r, session).value;
         var w := AttachedWorkspace(WorkspaceIn(r, b.workspaceId).value, epic);
         Leftover(r, w, Rebound(b, w), after)
    case Binds(env, session, id, expectedBinding, expectedWorkspace) =>
      var b := BindTo(env, r, session, id, expectedBinding, expectedWorkspace);
      b.Some? && after == r[BindingFile(session) := BindingRecord(b.value)]
    case Allocates(session, id, repository, place) =>
      && WorkspaceFile(id) !in r && BindingIn(r, session) == None
      && var creating := Workspace(id, repository, place, None, Creating, 1);
         var active := creating.(lifecycle := Active, generation := 2);
         after == Reserved(r, creating) || Leftover(Reserved(r, creating), active, NewBinding(session, active), after)
    case Adopts(session, epic, id, repository, legacy) =>
      && WorkspaceFile(id) !in r && BindingIn(r, session) == None && legacy.Some? && EpicFree(r, epic, None)
      && var w := Workspace(id, repository, legacy.value.place, Some(epic), legacy.value.lifecycle, 1);
         Leftover(r, w, NewBinding(session, w), after)
    case Releases(session, expected) =>
      var b := BindingIn(r, session);
      && b.Some? && b.value.state == Bound && b.value.generation == expected
      && after == r[BindingFile(session) := BindingRecord(ReleasedBinding(b.value))]
  }

  lemma AttachIsSound(env: Environment, r: Records, session: Session, epic: string, bindingGeneration: nat, workspaceGeneration: nat)
    requires Sound(r) && MayAttach(env, r, session, epic, bindingGeneration, workspaceGeneration)
    ensures
      var b := BindingIn(r, session).value;
      var w := AttachedWorkspace(WorkspaceIn(r, b.workspaceId).value, epic);
      && w.id == b.workspaceId && b.session == session && CanPublish(r, w, Rebound(b, w))
      && SoundStep(r, Some(w), Some(Rebound(b, w)), w.id, session)
  {
    ReadsAreKeyed(r, BindingIn(r, session).value.workspaceId, session);
  }

  lemma BindIsSound(env: Environment, r: Records, session: Session, id: string, expectedBinding: Option<nat>, expectedWorkspace: Option<nat>)
    requires Sound(r) && BindTo(env, r, session, id, expectedBinding, expectedWorkspace).Some?
    ensures
      var b := BindTo(env, r, session, id, expectedBinding, expectedWorkspace).value;
      b.session == session && b.generation > 0 && BindingAdvances(BindingIn(r, session), Some(b))
  {
    ReadsAreKeyed(r, id, session);
  }

  /** The disk stays readable, and what is committed moves by at most one sound step. */
  lemma StepKeepsSound(r: Records, op: Operation, after: Records)
    requires WellFormed(r) && Sound(Committed(r)) && Step(r, op, after)
    ensures KeptSound(Committed(r), after)
  {
    if op.Recovers? || after == r {
    } else {
      match op
      case Attaches(env, session, epic, bindingGeneration, workspaceGeneration) =>
        AttachIsSound(env, r, session, epic, bindingGeneration, workspaceGeneration);
        var b := BindingIn(r, session).value;
        var w := AttachedWorkspace(WorkspaceIn(r, b.workspaceId).value, epic);
        LeftoverKeepsSound(r, w, Rebound(b, w), after);
      case Binds(env, session, id, expectedBinding, expectedWorkspace) =>
        BindIsSound(env, r, session, id, expectedBinding, expectedWorkspace);
        OneBindingKeepsSound(r, BindTo(env, r, session, id, expectedBinding, expectedWorkspace).value);
      case Allocates(session, id, repository, place) =>
        ActivationLeftover(r, Workspace(id, repository, place, None, Creating, 1), session, after);
      case Adopts(session, epic, id, repository, legacy) =>
        var w := Workspace(id, repository, legacy.value.place, Some(epic), legacy.value.lifecycle, 1);
        LeftoverKeepsSound(r, w, NewBinding(session, w), after);
      case Releases(session, expected) =>
        ReadsAreKeyed(r, "", session);
        OneBindingKeepsSound(r, ReleasedBinding(BindingIn(r, session).value));
    }
  }

  /** The disk as successive holders of the lock leave it, from the empty store on. */
  ghost predicate IsRun(disks: seq<Records>, ops: seq<Operation>) {
    && |disks| == |ops| + 1 && disks[0] == map[]
    && forall n :: 0 <= n < |ops| ==> Step(disks[n], ops[n], disks[n + 1])
  }

  function CommittedStates(disks: seq<Records>): (states: seq<Records>)
    ensures |states| == |disks| && forall n :: 0 <= n < |disks| ==> states[n] == Committed(disks[n])
  {
    seq(|disks|, n requires 0 <= n < |disks| => Committed(disks[n]))
  }

  lemma {:induction false} RunsStaySound(disks: seq<Records>, ops: seq<Operation>, n: nat)
    requires IsRun(disks, ops) && n < |disks|
    ensures WellFormed(disks[n]) && Sound(Committed(disks[n]))
  {
    if n > 0 {
      RunsStaySound(disks, ops, n - 1);
      assert Step(disks[n - 1], ops[n - 1], disks[n - 1 + 1]);
      StepKeepsSound(disks[n - 1], ops[n - 1], disks[n]);
    }
  }

  /**
   Over every run, through failures, deaths and recoveries, the committed records are sound
   and only advance.
   */
  lemma RunsAreHistories(disks: seq<Records>, ops: seq<Operation>)
    requires IsRun(disks, ops)
    ensures IsHistory(CommittedStates(disks))
  {
    var states := CommittedStates(disks);
    forall n | 0 <= n < |states| ensures Sound(states[n]) {
      RunsStaySound(disks, ops, n);
    }
    forall n | 0 <= n < |states| - 1 ensures Advances(states[n], states[n + 1]) {
      RunsStaySound(disks, ops, n);
      StepKeepsSound(disks[n], ops[n], disks[n + 1]);
    }
  }

  // ---- Histories of committed records ----

  /** The committed records as successive holders of the lock see them. */
  ghost predicate IsHistory(states: seq<Records>) {
    && |states| > 0
    && (forall i :: 0 <= i < |states| ==> Sound(states[i]))
    && forall i :: 0 <= i < |states| - 1 ==> Advances(states[i], states[i + 1])
  }

  lemma {:induction false} BindingsOnlyAdvance(states: seq<Records>, i: nat, j: nat, session: Session)
    requires IsHistory(states) && i <= j < |states| && BindingIn(states[i], session).Some?
    ensures BindingIn(states[j], session).Some?
    ensures
      var b, c := BindingIn(states[i], session).value, BindingIn(states[j], session).value;
      b == c || b.generation < c.generation
    decreases j
  {
    if i < j {
      BindingsOnlyAdvance(states, i, j - 1, session);
      assert BindingAdvances(BindingIn(states[j - 1], session), BindingIn(states[j - 1 + 1], session));
    }
  }

  lemma {:induction false} WorkspacesOnlyAdvance(states: seq<Records>, i: nat, j: nat, id: string)
    requires IsHistory(states) && i <= j < |states| && WorkspaceIn(states[i], id).Some?
    ensures WorkspaceIn(states[j], id).Some?
    ensures
      var v, w := WorkspaceIn(states[i], id).value, WorkspaceIn(states[j], id).value;
      v.generation <= w.generation && (v.epic.Some? ==> w.epic == v.epic)
    decreases j
  {
    if i < j {
      WorkspacesOnlyAdvance(states, i, j - 1, id);
      assert WorkspaceAdvances(WorkspaceIn(states[j - 1], id), WorkspaceIn(states[j - 1 + 1], id));
    }
  }

  /** A committed binding generation never comes back for a different record of its session. */
  lemma GenerationsAreNotReused(states: seq<Records>, i: nat, j: nat, session: Session)
    requires IsHistory(states) && i < |states| && j < |states|
    requires BindingIn(states[i], session).Some? && BindingIn(states[j], session).Some?
    requires BindingIn(states[i], session).value.generation == BindingIn(states[j], session).value.generation
    ensures BindingIn(states[i], session) == BindingIn(states[j], session)
  {
    if i <= j {
      BindingsOnlyAdvance(states, i, j, session);
    } else {
      BindingsOnlyAdvance(states, j, i, session);
    }
  }

  /** An Epic has at most one workspace at any time, and the workspace once attached keeps it. */
  lemma EpicsStay(states: seq<Records>, i: nat, j: nat, id: string, other: string)
    requires IsHistory(states) && i <= j < |states|
    requires WorkspaceIn(states[i], id).Some? && WorkspaceIn(states[i], id).value.epic.Some?
    ensures WorkspaceIn(states[j], id).Some? && WorkspaceIn(states[j], id).value.epic == WorkspaceIn(states[i], id).value.epic
    ensures WorkspaceIn(states[j], other).Some? && WorkspaceIn(states[j], other).value.epic == WorkspaceIn(states[i], id).value.epic ==> other == id
  {
    WorkspacesOnlyAdvance(states, i, j, id);
  }

  /** A binding whose workspace has moved on never resolves again until the binding itself changes. */
  lemma StaleUntilRebound(states: seq<Records>, i: nat, j: nat, env: Environment, session: Session, expected: Option<nat>)
    requires IsHistory(states) && i <= j < |states|
    requires BindingIn(states[i], session).Some?
    requires
      var b := BindingIn(states[i], session).value;
      WorkspaceIn(states[i], b.workspaceId).Some? && b.workspaceGeneration < WorkspaceIn(states[i], b.workspaceId).value.generation
    requires BindingIn(states[j], session) == BindingIn(states[i], session)
    ensures !Resolves(env, states[j], session, expected)
  {
    WorkspacesOnlyAdvance(states, i, j, BindingIn(states[i], session).value.workspaceId);
  }

  /**
   Over every run: a committed generation of a session means one record, no two workspaces
   hold an Epic, an attached Epic stays, and a binding its workspace has left behind does
   not resolve until it changes.
   */
  lemma RunsKeepGenerationsAndEpics(disks: seq<Records>, ops: seq<Operation>, i: nat, j: nat)
    requires IsRun(disks, ops) && i <= j < |disks|
    ensures forall s: Session ::
      var x, y := BindingIn(Committed(disks[i]), s), BindingIn(Committed(disks[j]), s);
      x.Some? && y.Some? && x.value.generation == y.value.generation ==> x == y
    ensures forall id: string ::
      var x, y := WorkspaceIn(Committed(disks[i]), id), WorkspaceIn(Committed(disks[j]), id);
      x.Some? && x.value.epic.Some? ==> y.Some? && y.value.epic == x.value.epic
    ensures UniqueEpics(Committed(disks[j]))
    ensures forall s: Session, env: Environment, expected: Option<nat> ::
      var x := BindingIn(Committed(disks[i]), s);
      && x.Some? && BindingIn(Committed(disks[j]), s) == x
      && WorkspaceIn(Committed(disks[i]), x.value.workspaceId).Some?
      && x.value.workspaceGeneration < WorkspaceIn(Committed(disks[i]), x.value.workspaceId).value.generation
      ==> !Resolves(env, Committed(disks[j]), s, expected)
  {
    var states := CommittedStates(disks);
    RunsAreHistories(disks, ops);
    assert Sound(states[j]);
    forall s: Session | BindingIn(states[i], s).Some? && BindingIn(states[j], s).Some? && BindingIn(states[i], s).value.generation == BindingIn(states[j], s).value.generation
      ensures BindingIn(states[i], s) == BindingIn(states[j], s)
    {
      GenerationsAreNotReused(states, i, j, s);
    }
    forall id: string | WorkspaceIn(states[i], id).Some? && WorkspaceIn(states[i], id).value.epic.Some?
      ensures WorkspaceIn(states[j], id).Some? && WorkspaceIn(states[j], id).value.epic == WorkspaceIn(states[i], id).value.epic
    {
      EpicsStay(states, i, j, id, id);
    }
    forall s: Session, env: Environment, expected: Option<nat> |
        && BindingIn(states[i], s).Some? && BindingIn(states[j], s) == BindingIn(states[i], s)
        && WorkspaceIn(states[i], BindingIn(states[i], s).value.workspaceId).Some?
        && BindingIn(states[i], s).value.workspaceGeneration < WorkspaceIn(states[i], BindingIn(states[i], s).value.workspaceId).value.generation
      ensures !Resolves(env, states[j], s, expected)
    {
      StaleUntilRebound(states, i, j, env, s, expected);
    }
  }

  /**
   Attaching an Epic makes the binding of every other session of that workspace stale, and
   such a session cannot bind the workspace again without releasing first.
   */
  lemma AttachMakesOthersStale(env: Environment, r: Records, session: Session, epic: string, other: Session, expected: Option<nat>, expectedWorkspace: Option<nat>)
    requires Sound(r) && Resolves(env, r, session, None) && Resolves(env, r, other, None) && other != session
    requires BindingIn(r, other).value.workspaceId == BindingIn(r, session).value.workspaceId
    ensures
      var b := BindingIn(r, session).value;
      var w := AttachedWorkspace(WorkspaceIn(r, b.workspaceId).value, epic);
      var after := Published(r, w, Rebound(b, w));
      && Resolves(env, after, other, expected) == false
      && BindTo(env, after, other, w.id, expected, expectedWorkspace) == None
      && (TopologyOk(env, w) ==> Resolves(env, after, session, None))
  {
    var b := BindingIn(r, session).value;
    var old_ := WorkspaceIn(r, b.workspaceId).value;
    var w := AttachedWorkspace(old_, epic);
    ReadsAreKeyed(r, b.workspaceId, session);
    CommittedReads(r, Some(w), Some(Rebound(b, w)), w.id, session);
  }

  /** The one mixed state: the binding is ahead of its workspace, so the session does not resolve. */
  lemma TornDoesNotResolve(env: Environment, before: Records, w: Workspace, b: Binding, expected: Option<nat>)
    requires CanPublish(before, w, b) && b.workspaceId == w.id && b.workspaceGeneration == w.generation
    requires WorkspaceIn(before, w.id).Some? ==> WorkspaceIn(before, w.id).value.generation < w.generation
    ensures TransactionFile !in Torn(before, w, b) && Committed(Torn(before, w, b)) == Torn(before, w, b)
    ensures !Resolves(env, Torn(before, w, b), b.session, expected)
  {
    CommittedReads(before, WorkspaceIn(before, w.id), Some(b), w.id, b.session);
  }

  /**
   A torn commit: the first binding of a store is published, removing the log takes effect
   but throws, the workspace is put back, and the process dies. What stays is a binding
   without its workspace.
   */
  method TornCommit(w: Workspace, session: Session) returns (store: ExecutionContextStore, o: Outcome)
    requires w.generation > 0
    ensures !o.Applied? && store.disk.files == map[BindingFile(session) := BindingRecord(NewBinding(session, w))]
    ensures forall env, expected :: !Resolves(env, store.disk.files, session, expected)
  {
    var script := [Works, Works, Works, Throws(true), Works, Dies];
    var disk := new Disk(map[], script);
    store := new ExecutionContextStore(disk);
    var b := NewBinding(session, w);
    assert FirstFault(script, 4) == 3 by { FirstFaultIs(script, 4, 3); }
    o := store.Publish(w, b, Transaction(w.id, session, None, None), map[]);
    TornIsBindingOnly(w, b, store.disk.files);
  }

  lemma TornIsBindingOnly(w: Workspace, b: Binding, r: Records)
    requires w.generation > 0 && b.generation > 0
    requires Leftover(map[], w, b, r) && Committed(r) == Torn(map[], w, b)
    ensures r == map[BindingFile(b.session) := BindingRecord(b)]
  {
    CommittedReads(map[], None, Some(b), w.id, b.session);
    CommittedReads(map[], Some(w), Some(b), w.id, b.session);
    if InFlight(map[], LogOf(map[], w, b), r) {
      InFlightIsUndone(map[], LogOf(map[], w, b), r);
    }
  }
}
