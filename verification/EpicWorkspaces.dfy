/**
 The worktree of one Epic: a durable record moving through four states between Git
 commands, any of which can fail or be the step at which the process dies.
 */
module EpicWorkspaces {
  import opened Wrappers
  import opened FileBatches

  datatype Lifecycle = Creating | Active | CleanupReady | Closed

  datatype StateRecord = StateRecord(state: Lifecycle, cleanupStarted: bool)

  datatype Lock = Unlocked | Ours | Foreign

  /** How Git lists the worktree at the Epic's path. */
  datatype Entry = Entry(onBranch: bool, prunable: bool, lock: Lock)

  /** The worktree table, the directory and the branch of the Epic. */
  datatype Git = Git(entry: Option<Entry>, present: bool, clean: bool, branchExists: bool)

  datatype Blocker = WorkspaceMissing | RegistrationMissing | BranchMismatch | Prunable | LockMismatch | Dirty | ClosedPresent

  function Blockers(r: StateRecord, git: Git): set<Blocker> {
    if r.state == Closed then
      (if git.entry.Some? || git.present then {ClosedPresent} else {})
    else
      (if git.present then {} else {WorkspaceMissing})
      + match git.entry
        case None => {RegistrationMissing}
        case Some(e) =>
          (if e.onBranch then {} else {BranchMismatch})
          + (if e.prunable then {Prunable} else {})
          + (if e.lock == Ours then {} else {LockMismatch})
          + (if git.present && !git.clean then {Dirty} else {})
  }

  /** Cleanup tolerates a missing lock once it has begun, and a missing worktree then means it is complete. */
  function CleanupStatus(r: StateRecord, git: Git): (s: (set<Blocker>, bool)) {
    if git.entry == None && !git.present then
      if r.cleanupStarted then ({}, true) else ({RegistrationMissing}, false)
    else
      ((if git.entry == None then {RegistrationMissing} else {})
       + (if git.present then {} else {WorkspaceMissing})
       + (match git.entry
          case None => {}
          case Some(e) =>
            (if e.onBranch then {} else {BranchMismatch})
            + (if e.prunable then {Prunable} else {})
            + (if e.lock == Ours || (r.cleanupStarted && e.lock == Unlocked) then {} else {LockMismatch})
            + (if git.present && !git.clean then {Dirty} else {})), false)
  }

  // ---- What the states promise ----

  function Rank(r: Option<StateRecord>): nat {
    match r
    case None => 0
    case Some(x) => match x.state case Creating => 1 case Active => 2 case CleanupReady => 3 case Closed => 4
  }

  /** States only move forward, and a cleanup once begun stays begun. */
  ghost predicate Forward(before: Option<StateRecord>, after: Option<StateRecord>) {
    && Rank(before) <= Rank(after)
    && (before.Some? && before.value.cleanupStarted ==> after.value.cleanupStarted)
  }

  /** One stored change: the same state or the next one. */
  ghost predicate OneStep(before: Option<StateRecord>, after: StateRecord) {
    Forward(before, Some(after)) && Rank(Some(after)) <= Rank(before) + 1
  }

  /** A worktree on its branch, present, clean and neither prunable nor locked by someone else. */
  ghost predicate Removable(git: Git, lock: Lock) {
    git.present && git.clean && git.entry == Some(Entry(true, false, lock))
  }

  /** A cleanup that can be carried on to its end. */
  ghost predicate CleanupCanFinish(record: Option<StateRecord>, git: Git) {
    && record.Some? && record.value.state == CleanupReady && git.branchExists
    && (|| Removable(git, Ours)
        || (record.value.cleanupStarted && Removable(git, Unlocked))
        || (record.value.cleanupStarted && git.entry == None && !git.present))
  }

  /** A cleanup that is not refused; without its branch it removes the worktree and then cannot close. */
  ghost predicate CleanupStarts(record: Option<StateRecord>, git: Git) {
    && record.Some? && record.value.state == CleanupReady
    && (|| Removable(git, Ours)
        || (record.value.cleanupStarted && Removable(git, Unlocked))
        || (record.value.cleanupStarted && git.entry == None && !git.present && git.branchExists))
  }

  /** A creation that can be carried on: the worktree exists and at most its lock is missing. */
  ghost predicate CreationCanFinish(record: Option<StateRecord>, git: Git) {
    record == Some(StateRecord(Creating, false)) && (Removable(git, Ours) || Removable(git, Unlocked))
  }

  datatype Issue = Issue(record: Option<StateRecord>, git: Git)

  /** Removal is issued only after the start of the cleanup is stored, for a clean worktree on its branch. */
  ghost predicate RemovedSafely(i: Issue) {
    i.record == Some(StateRecord(CleanupReady, true)) && Removable(i.git, Unlocked)
  }

  class EpicWorkspace {
    var record: Option<StateRecord>
    var git: Git
    /** What the coming commands and writes do. */
    var faults: seq<Fault>
    /** Where removals were issued. */
    ghost var removals: seq<Issue>

    ghost predicate Valid()
      reads this
    {
      forall i :: i in removals ==> RemovedSafely(i)
    }

    constructor (git: Git, faults: seq<Fault>)
      ensures record == None && this.git == git && this.faults == faults && Valid()
    {
      record, this.git, this.faults, removals := None, git, faults, [];
    }

    method Next() returns (fault: Fault)
      modifies this`faults
      ensures fault == FaultAt(old(faults), 0) && faults == Skip(old(faults), 1)
    {
      fault := FaultAt(faults, 0);
      faults := Skip(faults, 1);
    }

    method WriteState(r: StateRecord) returns (fault: Fault)
      requires OneStep(record, r)
      modifies this`faults, this`record
      ensures fault == FaultAt(old(faults), 0) && faults == Skip(old(faults), 1)
      ensures record == if fault == Works || fault == Throws(true) then Some(r) else old(record)
    {
      fault := Next();
      if fault == Works || fault == Throws(true) {
        record := Some(r);
      }
    }

    /** A Git command that takes the tables to `after`. */
    method Run(after: Git) returns (fault: Fault)
      modifies this`faults, this`git
      ensures fault == FaultAt(old(faults), 0) && faults == Skip(old(faults), 1)
      ensures git == if fault == Works || fault == Throws(true) then after else old(git)
    {
      fault := Next();
      if fault == Works || fault == Throws(true) {
        git := after;
      }
    }

    method Remove() returns (fault: Fault)
      requires Valid() && RemovedSafely(Issue(record, git))
      modifies this`faults, this`git, this`removals
      ensures Valid()
      ensures fault == FaultAt(old(faults), 0) && faults == Skip(old(faults), 1)
      ensures git == if fault == Works || fault == Throws(true) then old(git).(entry := None, present := false) else old(git)
    {
      removals := removals + [Issue(record, git)];
      fault := Run(git.(entry := None, present := false));
    }

    // ---- Cleanup ----

    /** The record is closed only after the worktree is gone and its branch still there. */
    method CloseRemoved(r: StateRecord) returns (o: Outcome)
      requires Valid() && record == Some(r) && r == StateRecord(CleanupReady, true)
      requires git.entry == None && !git.present
      modifies this`faults, this`record
      ensures Valid()
      ensures o.Rejected? <==> !git.branchExists
      ensures o.Rejected? ==> record == old(record)
      ensures !o.Rejected? ==> faults == Skip(old(faults), 1) && (o.Applied? <==> FaultAt(old(faults), 0) == Works)
      ensures record == old(record) || record == Some(StateRecord(Closed, true))
      ensures o.Applied? ==> record == Some(StateRecord(Closed, true))
    {
      if !git.branchExists {
        return Rejected(Synchronization);
      }
      var fault := WriteState(StateRecord(Closed, true));
      o := OutcomeOf(fault);
    }

    /** Unlock if need be, then remove. */
    method UnlockAndRemove() returns (fault: Fault, ghost steps: nat)
      requires Valid() && record == Some(StateRecord(CleanupReady, true)) && (Removable(git, Ours) || Removable(git, Unlocked))
      modifies this`faults, this`git, this`removals
      ensures Valid()
      ensures 1 <= steps <= 2 && faults == Skip(old(faults), steps)
      ensures git.branchExists == old(git).branchExists
      ensures fault == Works ==> git.entry == None && !git.present && steps == if Removable(old(git), Ours) then 2 else 1
      ensures fault != Works ==> Removable(git, Ours) || Removable(git, Unlocked) || (git.entry == None && !git.present)
      ensures FirstFault(old(faults), 2) == 2 ==> fault == Works
    {
      ghost var script := faults;
      steps := 1;
      if git.entry.value.lock == Ours {
        fault := Run(git.(entry := Some(git.entry.value.(lock := Unlocked))));
        assert fault == FaultAt(script, 0);
        if fault != Works {
          return;
        }
        steps := 2;
      }
      fault := Remove();
      assert fault == FaultAt(script, steps - 1);
    }

    /**
     Begin, unlock, remove, close. From any state a cleanup can be left in, it either
     reaches `closed` or leaves such a state again, and nothing but a fault stops it.
     */
    method Cleanup(fromPrimary: bool) returns (o: Outcome)
      requires Valid()
      modifies this
      ensures Valid() && Forward(old(record), record)
      ensures o.Rejected? ==> record == old(record) && git == old(git)
      ensures o.Applied? ==> record == Some(StateRecord(Closed, true)) && git.entry == None && !git.present && git.branchExists
      ensures fromPrimary && CleanupCanFinish(old(record), old(git)) ==>
        && !o.Rejected?
        && (o.Applied? || CleanupCanFinish(record, git) || record == Some(StateRecord(Closed, true)))
        && (FirstFault(old(faults), 4) == 4 ==> o.Applied?)
        && (if old(faults) == [] then faults == [] else |faults| < |old(faults)|)
      ensures o.Rejected? <==> !(fromPrimary && CleanupStarts(old(record), old(git)))
    {
      if record == None || record.value.state != CleanupReady || !fromPrimary {
        return Rejected(UnsafeState);
      }
      var r := record.value;
      var (blockers, complete) := CleanupStatus(r, git);
      CleanupVerdict(r, git);
      if complete {
        o := CloseRemoved(r);
        return;
      }
      if blockers != {} {
        return Rejected(UnsafeState);
      }
      o := RemoveWorktree(r);
    }

    method RemoveWorktree(r: StateRecord) returns (o: Outcome)
      requires Valid() && record == Some(r) && r.state == CleanupReady
      requires Removable(git, Ours) || (r.cleanupStarted && Removable(git, Unlocked))
      modifies this
      ensures Valid() && Forward(Some(r), record) && !o.Rejected?
      ensures o.Applied? ==> record == Some(StateRecord(Closed, true)) && git.entry == None && !git.present && git.branchExists
      ensures old(git).branchExists ==>
        && (o.Applied? || CleanupCanFinish(record, git) || record == Some(StateRecord(Closed, true)))
        && (FirstFault(old(faults), 4) == 4 ==> o.Applied?)
        && (if old(faults) == [] then faults == [] else |faults| < |old(faults)|)
    {
      ghost var script := faults;
      var fault := Works;
      ghost var begun := 0;
      if !r.cleanupStarted {
        fault := WriteState(StateRecord(CleanupReady, true));
        if fault != Works {
          return OutcomeOf(fault);
        }
        begun := 1;
      }
      assert record == Some(StateRecord(CleanupReady, true));
      ghost var steps;
      fault, steps := UnlockAndRemove();
      FourSteps(script, begun, steps);
      if fault != Works {
        return OutcomeOf(fault);
      }
      o := CloseRemoved(StateRecord(CleanupReady, true));
      if o.Rejected? {
        o := RollbackFailed;
      }
    }

    /** Run again after every crash or failure: the cleanup reaches `closed`. */
    method RerunCleanup()
      requires Valid() && CleanupCanFinish(record, git)
      modifies this
      ensures Valid() && record == Some(StateRecord(Closed, true))
    {
      while record != Some(StateRecord(Closed, true))
        invariant Valid()
        invariant CleanupCanFinish(record, git) || record == Some(StateRecord(Closed, true))
        decreases |faults|, if record == Some(StateRecord(Closed, true)) then 0 else 1
      {
        if faults == [] {
          FirstFaultIs([], 4, 4);
        }
        var o := Cleanup(true);
      }
    }

    // ---- Creation and readiness ----

    /** The lock command fails on a worktree that is locked already. */
    method LockWorktree() returns (fault: Fault)
      requires git.entry.Some?
      modifies this`faults, this`git
      ensures old(git).entry.value.lock != Unlocked ==> fault == Throws(false) && git == old(git)
      ensures old(git).entry.value.lock == Unlocked ==>
        && fault == FaultAt(old(faults), 0) && faults == Skip(old(faults), 1)
        && git == if fault == Works || fault == Throws(true) then old(git).(entry := Some(old(git).entry.value.(lock := Ours))) else old(git)
    {
      if git.entry.value.lock != Unlocked {
        return Throws(false);
      }
      fault := Run(git.(entry := Some(git.entry.value.(lock := Ours))));
    }

    /** Record, worktree, lock, activation. */
    method CreateWorkspace(authority: bool) returns (o: Outcome)
      requires Valid() && record == None
      modifies this
      ensures Valid() && Forward(None, record)
      ensures o.Rejected? <==> !(authority && Vacant(old(git)))
      ensures o.Rejected? ==> record == None && git == old(git)
      ensures o.Applied? ==> record == Some(StateRecord(Active, false)) && Removable(git, Ours)
      // A run that stopped can be carried on, unless it stopped between the record and the worktree.
      ensures !o.Rejected? ==>
        || (record == None && Vacant(git))
        || (record == Some(StateRecord(Active, false)) && Removable(git, Ours))
        || CreationCanFinish(record, git)
        || Abandoned(record, git)
      ensures !o.Rejected? ==>
        (Abandoned(record, git) <==>
          FaultAt(old(faults), 0) == Throws(true) || (FaultAt(old(faults), 0) == Works && FaultAt(old(faults), 1) in {Dies, Throws(false)}))
    {
      if !authority || git.entry.Some? || git.present || git.branchExists {
        return Rejected(Conflict);
      }
      ghost var script := faults;
      var creating := StateRecord(Creating, false);
      var fault := WriteState(creating);
      if fault != Works {
        return OutcomeOf(fault);
      }
      fault := Run(Git(Some(Entry(true, false, Unlocked)), true, true, true));
      assert fault == FaultAt(script, 1);
      if fault == Works {
        fault := LockWorktree();
      }
      if fault == Dies {
        return Died;
      }
      if Blockers(creating, git) != {} {
        assert git.entry.Some? ==> git.entry.value.lock != Ours;
        return RollbackFailed;
      }
      CreatedUnblocked(git);
      fault := WriteState(StateRecord(Active, false));
      o := OutcomeOf(fault);
    }

    /** Carry on a creation, or check a workspace that exists. */
    method EnsureExisting(cwdOk: bool) returns (o: Outcome)
      requires Valid() && record.Some?
      modifies this
      ensures Valid() && Forward(old(record), record)
      ensures o.Rejected? ==> record == old(record) && git == old(git)
      ensures o.Applied? ==> record.value.state != Closed && record.value.state != Creating && Blockers(record.value, git) == {}
      ensures cwdOk && CreationCanFinish(old(record), old(git)) ==>
        && !o.Rejected?
        && (CreationCanFinish(record, git) || (record == Some(StateRecord(Active, false)) && Removable(git, Ours)))
        && (FirstFault(old(faults), 2) == 2 ==> o.Applied? && record == Some(StateRecord(Active, false)))
      ensures Abandoned(old(record), old(git)) ==> o.Rejected?
    {
      var r := record.value;
      if r.state == Closed || !cwdOk {
        return Rejected(UnsafeState);
      }
      CreationBlockers(record, git);
      ghost var script := faults;
      if r.state == Creating && Blockers(r, git) == {LockMismatch} {
        OnlyLockMissing(r, git);
        var fault := LockWorktree();
        if fault != Works {
          return OutcomeOf(fault);
        }
      }
      if Blockers(r, git) != {} {
        return Rejected(UnsafeState);
      }
      if r.state == Creating {
        SkipSkip(script, 1, 0);
        var fault := WriteState(r.(state := Active));
        return OutcomeOf(fault);
      }
      o := Applied;
    }

    /** A clean, unblocked, active workspace becomes ready for cleanup. */
    method MarkCleanupReady(fromWorkspace: bool) returns (o: Outcome)
      requires Valid()
      modifies this
      ensures Valid() && Forward(old(record), record) && git == old(git)
      ensures o.Rejected? <==>
        !(fromWorkspace && old(record).Some? && old(record).value.state == Active && Blockers(old(record).value, git) == {} && git.clean)
      ensures o.Rejected? ==> record == old(record)
      ensures o.Applied? ==> record == Some(old(record).value.(state := CleanupReady)) && (git.branchExists ==> CleanupCanFinish(record, git))
    {
      if record == None || record.value.state != Active || !fromWorkspace {
        return Rejected(UnsafeState);
      }
      if Blockers(record.value, git) != {} || !git.clean {
        return Rejected(UnsafeState);
      }
      ActiveUnblocked(record.value, git);
      var fault := WriteState(record.value.(state := CleanupReady));
      o := OutcomeOf(fault);
    }
  }

  lemma ActiveUnblocked(r: StateRecord, git: Git)
    requires r.state != Closed && Blockers(r, git) == {} && git.clean
    ensures Removable(git, Ours)
  {
    var b := Blockers(r, git);
    assert WorkspaceMissing !in b && RegistrationMissing !in b && BranchMismatch !in b && Prunable !in b && LockMismatch !in b;
  }

  lemma CreationBlockers(record: Option<StateRecord>, git: Git)
    ensures CreationCanFinish(record, git) ==>
      Blockers(record.value, git) == if Removable(git, Ours) then {} else {LockMismatch}
    ensures Abandoned(record, git) ==> RegistrationMissing in Blockers(record.value, git)
  {
  }

  lemma OnlyLockMissing(r: StateRecord, git: Git)
    requires r.state == Creating && Blockers(r, git) == {LockMismatch}
    ensures git.entry.Some? && git.entry.value.lock != Ours
    ensures git.entry.value.lock == Unlocked ==> Blockers(r, git.(entry := Some(git.entry.value.(lock := Ours)))) == {}
  {
    var b := Blockers(r, git);
    assert WorkspaceMissing !in b && RegistrationMissing !in b && BranchMismatch !in b && Prunable !in b && Dirty !in b;
  }

  ghost predicate Vacant(git: Git) {
    git.entry == None && !git.present && !git.branchExists
  }

  /** The record says `creating`, but there is no worktree. */
  ghost predicate Abandoned(record: Option<StateRecord>, git: Git) {
    record == Some(StateRecord(Creating, false)) && Vacant(git)
  }

  lemma CreatedUnblocked(git: Git)
    requires Blockers(StateRecord(Creating, false), git) == {}
    ensures Removable(git, Ours)
  {
    var b := Blockers(StateRecord(Creating, false), git);
    assert WorkspaceMissing !in b && RegistrationMissing !in b && BranchMismatch !in b && Prunable !in b && LockMismatch !in b && Dirty !in b;
  }

  /** A failed step is an error of the operation; the next run starts from what it left. */
  function OutcomeOf(fault: Fault): Outcome {
    match fault case Works => Applied case Throws(_) => RollbackFailed case Dies => Died
  }

  lemma CleanupVerdict(r: StateRecord, git: Git)
    requires r.state == CleanupReady
    ensures
      var (blockers, complete) := CleanupStatus(r, git);
      && (complete <==> r.cleanupStarted && git.entry == None && !git.present)
      && (blockers == {} && !complete <==> Removable(git, Ours) || (r.cleanupStarted && Removable(git, Unlocked)))
  {
    var (blockers, complete) := CleanupStatus(r, git);
    assert WorkspaceMissing in blockers || BranchMismatch in blockers || Prunable in blockers || LockMismatch in blockers
        || Dirty in blockers || RegistrationMissing in blockers || blockers == {};
  }

  lemma FourSteps(script: seq<Fault>, begun: nat, steps: nat)
    requires begun <= 1 && 1 <= steps <= 2
    ensures FirstFault(script, 4) == 4 ==>
      && FaultAt(script, 0) == Works && FirstFault(Skip(script, begun), 2) == 2
      && FaultAt(Skip(Skip(script, begun), steps), 0) == Works
  {
    if FirstFault(script, 4) == 4 {
      var later := Skip(script, begun);
      SkipSkip(script, begun, 0);
      SkipSkip(script, begun, 1);
      SkipSkip(script, begun, steps);
      assert FaultAt(later, 0) == Works && FaultAt(later, 1) == Works && FaultAt(later, steps) == Works;
      FirstFaultIs(later, 2, 2);
      SkipSkip(later, steps, 0);
    }
  }
}
