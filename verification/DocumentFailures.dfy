/**
 What a move of a lineage leaves when a publish throws: which files hold, whether the
 versions outlive the removal of the journal, and whether recovery is refused afterwards.
 */
module DocumentFailures {
  import opened Wrappers
  import opened FileBatches
  import opened DocumentCatalog
  import opened DocumentMoves

  // ---- A journal that could not be published ----

  /** The backups are written, and the journal if its publish took effect. */
  function Prepared(base: Files, journal: MoveJournal, reached: bool): Files {
    var backedUp := Apply(base, BackupWrites(journal.entries));
    if reached then Put(backedUp, JournalFile, Some(Journal(journal))) else backedUp
  }

  /** Taking the backups back, as far as it went. */
  ghost predicate TakenBack(config: StorageConfig, base: Files, journal: MoveJournal, reached: bool, script: seq<Fault>, files: Files) {
    var deletes := InPathOrder(config.leq, BackupDeletes(journal.entries));
    && Between(Prepared(base, journal, reached), BackupDeletes(journal.entries), files)
    && LeftByScript(Prepared(base, journal, reached), deletes, script, false, files)
    && (FirstFault(script, |deletes|) == |deletes| ==> files == if reached then base[JournalFile := Journal(journal)] else base)
  }

  /** Every disk on the way: the journal as it is, each backup there or deleted, all else as before. */
  lemma PartlyTakenBack(config: StorageConfig, base: Files, journal: MoveJournal, reached: bool, t: Files)
    requires DecodesAsJournal(config, Journal(journal)) && Quiescent(base)
    requires Between(Prepared(base, journal, reached), BackupDeletes(journal.entries), t)
    ensures JournalFile in t <==> reached
    ensures BackupsOf(journal.entries, t)
    ensures forall p: Path {:trigger Get(t, p)} :: p.DocumentFile? ==> Get(t, p) == Get(base, p)
    ensures reached ==> Get(t, JournalFile) == Some(Journal(journal))
    ensures !reached ==> OnlyBackups(base, journal.entries, t)
  {
    var full := Apply(base, BackupWrites(journal.entries));
    var prepared := Prepared(base, journal, reached);
    BackupPaths(config, journal);
    ApplyBetween(base, BackupWrites(journal.entries));
    BackupPrefix(config, base, journal, full);
    forall p: Path | !p.BackupFile? ensures Get(t, p) == Get(prepared, p) {
      assert forall i :: 0 <= i < |journal.entries| ==> BackupDeletes(journal.entries)[i].path != p;
    }
    forall p: Path | !p.BackupFile? && p != JournalFile ensures Get(t, p) == Get(base, p) {
      assert Get(full, p) == Get(base, p);
    }
    assert Get(t, JournalFile) == Get(prepared, JournalFile) && Get(full, JournalFile) == Get(base, JournalFile);
    forall i: BackupIndex | BackupFile(i) in t ensures 1 <= i <= |journal.entries| && t[BackupFile(i)] == ContentOf(journal.entries[i - 1]) {
      BackupStaysOrGoes(journal, prepared, t, i);
      assert Get(prepared, BackupFile(i)) == Get(full, BackupFile(i));
    }
  }

  lemma BackupStaysOrGoes(journal: MoveJournal, s: Files, t: Files, i: BackupIndex)
    requires Between(s, BackupDeletes(journal.entries), t)
    ensures Get(t, BackupFile(i)) == Get(s, BackupFile(i)) || Get(t, BackupFile(i)) == None
  {
    var d := BackupDeletes(journal.entries);
    if j :| 0 <= j < |d| && d[j].path == BackupFile(i) {
      assert Get(t, d[j].path) == Get(s, d[j].path) || Get(t, d[j].path) == d[j].bytes;
    }
  }

  ghost predicate KeepsBackups(journal: MoveJournal, t: Files) {
    forall e :: e in journal.entries ==> e.backup in t
  }

  /**
   Recovery after a journal that could not be published, from every disk on the way to
   taking the backups back: it is refused for good if the journal is there and a backup is
   not; otherwise it leads back to the store before the move.
   */
  lemma JournalNeedsBackups(config: StorageConfig, base: Files, journal: MoveJournal, reached: bool, links: set<Path>, t: Files)
    requires EntriesPlanned(config, base, journal) && Quiescent(base) && CatalogValid(config, DocsOf(base))
    requires Between(Prepared(base, journal, reached), BackupDeletes(journal.entries), t)
    ensures JournalFile !in t || KeepsBackups(journal, t) ==> Recoverable(base, journal, false, t) && RecoveredAs(config, base, links, t)
    ensures JournalFile in t && !KeepsBackups(journal, t) ==> RecoveryPlan(config, t, links) == Err(Durability)
  {
    PartlyTakenBack(config, base, journal, reached, t);
    if JournalFile !in t {
      BackupsOnlyStep(config, base, journal.entries, links, t, 0);
    } else if KeepsBackups(journal, t) {
      BackedUpIsSettled(config, base, journal, t);
      SettledIsMidMove(config, base, journal, t);
      JournaledStep(config, base, journal, links, t, 0);
    } else {
      var e :| e in journal.entries && e.backup !in t;
      assert !EntryRecoverable(config, t, journal, e);
      assert Get(t, JournalFile) == Some(Journal(journal));
    }
  }

  lemma BackedUpIsSettled(config: StorageConfig, base: Files, journal: MoveJournal, t: Files)
    requires DecodesAsJournal(config, Journal(journal)) && KeepsBackups(journal, t) && BackupsOf(journal.entries, t)
    requires Get(t, JournalFile) == Some(Journal(journal))
    requires forall p: Path {:trigger Get(t, p)} :: p.DocumentFile? ==> Get(t, p) == Get(base, p)
    ensures Settled(base, journal, t)
  {
    BackupPaths(config, journal);
    forall e | e in journal.entries ensures Get(t, e.backup) == Some(ContentOf(e)) {
      var i :| 0 <= i < |journal.entries| && journal.entries[i] == e;
      assert e.backup == BackupFile(i + 1) && BackupFile(i + 1) in t;
    }
  }

  // ---- A batch that could not be written ----

  /** The journal and the backups gone, a version survives only at its source or its destination. */
  lemma CleanupKeepsVersions(config: StorageConfig, base: Files, journal: MoveJournal, s: Files)
    requires DecodesAsJournal(config, Journal(journal)) && MidMove(base, journal, s)
    ensures Survives(journal.entries, Apply(s, Cleanup(config, journal)))
        <==> forall e :: e in journal.entries ==>
               Get(s, e.source) == Some(ContentOf(e)) || Get(s, e.destination) == Some(ContentOf(e))
  {
    var after := Apply(s, Cleanup(config, journal));
    forall e | e in journal.entries
      ensures Get(after, e.source) == Get(s, e.source) && Get(after, e.destination) == Get(s, e.destination) && Get(after, e.backup) == None
    {
      BackupPaths(config, journal);
      CleanupAt(config, journal, s, e.source);
      CleanupAt(config, journal, s, e.destination);
      CleanupAt(config, journal, s, e.backup);
    }
  }

  lemma CleanupAt(config: StorageConfig, journal: MoveJournal, s: Files, p: Path)
    requires DecodesAsJournal(config, Journal(journal))
    ensures p.DocumentFile? ==> Get(Apply(s, Cleanup(config, journal)), p) == Get(s, p)
    ensures (exists e :: e in journal.entries && e.backup == p) ==> Get(Apply(s, Cleanup(config, journal)), p) == None
  {
    var first, d := [JournalDelete(journal)], BackupDeletes(journal.entries);
    var ordered := InPathOrder(config.leq, d);
    BackupPaths(config, journal);
    ApplyConcat(s, first, ordered);
    ApplyOne(s, first[0]);
    ApplyPermuted(Apply(s, first), d, ordered);
    if i :| 0 <= i < |d| && d[i].path == p {
      ApplyAt(Apply(s, first), d, i);
    } else {
      ApplyElsewhere(Apply(s, first), d, p);
      BackupsAllDeleted(journal, p);
    }
  }

  lemma BackupsAllDeleted(journal: MoveJournal, p: Path)
    requires forall i :: 0 <= i < |BackupDeletes(journal.entries)| ==> BackupDeletes(journal.entries)[i].path != p
    ensures forall e :: e in journal.entries ==> e.backup != p
  {
    forall e | e in journal.entries ensures e.backup != p {
      var i :| 0 <= i < |journal.entries| && journal.entries[i] == e;
      assert BackupDeletes(journal.entries)[i].path == e.backup;
    }
  }

  /** Some version was deleted at its source for good and not created at its destination. */
  ghost predicate LosesVersion(config: StorageConfig, journal: MoveJournal, f: nat, fault: Fault, rest: seq<Fault>) {
    var writes := InPathOrder(config.leq, MoveWrites(journal.entries));
    exists e, i, j ::
      && e in journal.entries && 0 <= i < |writes| && 0 <= j < |writes|
      && writes[i] == Delete(e) && writes[j] == Create(e)
      && Stays(fault, rest, f, false, i) && !Stays(fault, rest, f, false, j)
  }

  /** Where a version is after a failed batch, by what took effect of its two publishes. */
  lemma VersionAfterFailure(config: StorageConfig, base: Files, journal: MoveJournal, start: Files, f: nat, fault: Fault, rest: seq<Fault>, s: Files, e: MoveEntry, i: nat, j: nat)
    requires EntriesPlanned(config, base, journal) && Settled(base, journal, start) && e in journal.entries
    requires LeftBy(start, InPathOrder(config.leq, MoveWrites(journal.entries)), f, fault, rest, false, s)
    requires
      var writes := InPathOrder(config.leq, MoveWrites(journal.entries));
      i < |writes| && j < |writes| && writes[i] == Delete(e) && writes[j] == Create(e)
    ensures Get(s, e.source) == Some(ContentOf(e)) <==> !Stays(fault, rest, f, false, i)
    ensures Get(s, e.destination) == Some(ContentOf(e)) <==> Stays(fault, rest, f, false, j)
  {
    var writes := InPathOrder(config.leq, MoveWrites(journal.entries));
    BackupPaths(config, journal);
    assert EntryPlanned(config, base, journal, e);
    assert Get(start, e.source) == Get(base, e.source) && Get(start, e.destination) == Get(base, e.destination);
    assert Get(s, writes[i].path) == if Stays(fault, rest, f, false, i) then None else Get(start, e.source);
    assert Get(s, writes[j].path) == if Stays(fault, rest, f, false, j) then Some(ContentOf(e)) else Get(start, e.destination);
  }

  lemma BothOrdered(config: StorageConfig, entries: seq<MoveEntry>, e: MoveEntry) returns (i: nat, j: nat)
    requires e in entries
    ensures
      var writes := InPathOrder(config.leq, MoveWrites(entries));
      i < |writes| && j < |writes| && writes[i] == Delete(e) && writes[j] == Create(e)
  {
    var writes := InPathOrder(config.leq, MoveWrites(entries));
    MoveWritesAre(entries);
    assert Delete(e) in multiset(MoveWrites(entries)) && Create(e) in multiset(MoveWrites(entries));
    assert Delete(e) in multiset(writes) && Create(e) in multiset(writes);
    i :| 0 <= i < |writes| && writes[i] == Delete(e);
    j :| 0 <= j < |writes| && writes[j] == Create(e);
  }

  /**
   A failed batch whose journal and backups are removed all the same keeps every version
   exactly unless for some version the deletion took effect and was not undone while the
   creation did not, or was undone: a condition on the faults alone.
   */
  lemma FailedMoveKeepsVersions(config: StorageConfig, base: Files, journal: MoveJournal, start: Files, f: nat, fault: Fault, rest: seq<Fault>, s: Files)
    requires EntriesPlanned(config, base, journal) && Settled(base, journal, start)
    requires LeftBy(start, InPathOrder(config.leq, MoveWrites(journal.entries)), f, fault, rest, false, s)
    ensures Survives(journal.entries, Apply(s, Cleanup(config, journal))) <==> !LosesVersion(config, journal, f, fault, rest)
  {
    FailedIsMidMove(config, base, journal, start, f, fault, rest, s);
    CleanupKeepsVersions(config, base, journal, s);
    forall e | e in journal.entries && Nowhere(s, e) ensures LosesVersion(config, journal, f, fault, rest) {
      LostByFaults(config, base, journal, start, f, fault, rest, s, e);
    }
    if LosesVersion(config, journal, f, fault, rest) {
      var e := FaultsLose(config, base, journal, start, f, fault, rest, s);
    }
  }

  /** At neither of its two document paths. */
  ghost predicate Nowhere(s: Files, e: MoveEntry) {
    Get(s, e.source) != Some(ContentOf(e)) && Get(s, e.destination) != Some(ContentOf(e))
  }

  lemma LostByFaults(config: StorageConfig, base: Files, journal: MoveJournal, start: Files, f: nat, fault: Fault, rest: seq<Fault>, s: Files, e: MoveEntry)
    requires EntriesPlanned(config, base, journal) && Settled(base, journal, start) && e in journal.entries
    requires LeftBy(start, InPathOrder(config.leq, MoveWrites(journal.entries)), f, fault, rest, false, s)
    requires Nowhere(s, e)
    ensures LosesVersion(config, journal, f, fault, rest)
  {
    var i, j := BothOrdered(config, journal.entries, e);
    VersionAfterFailure(config, base, journal, start, f, fault, rest, s, e, i, j);
  }

  lemma FaultsLose(config: StorageConfig, base: Files, journal: MoveJournal, start: Files, f: nat, fault: Fault, rest: seq<Fault>, s: Files)
    returns (e: MoveEntry)
    requires EntriesPlanned(config, base, journal) && Settled(base, journal, start)
    requires LeftBy(start, InPathOrder(config.leq, MoveWrites(journal.entries)), f, fault, rest, false, s)
    requires LosesVersion(config, journal, f, fault, rest)
    ensures e in journal.entries && Nowhere(s, e)
  {
    var writes := InPathOrder(config.leq, MoveWrites(journal.entries));
    var i, j;
    e, i, j :|
      && e in journal.entries && 0 <= i < |writes| && 0 <= j < |writes|
      && writes[i] == Delete(e) && writes[j] == Create(e)
      && Stays(fault, rest, f, false, i) && !Stays(fault, rest, f, false, j);
    VersionAfterFailure(config, base, journal, start, f, fault, rest, s, e, i, j);
  }

  lemma FailedIsMidMove(config: StorageConfig, base: Files, journal: MoveJournal, start: Files, f: nat, fault: Fault, rest: seq<Fault>, s: Files)
    requires EntriesPlanned(config, base, journal) && Settled(base, journal, start)
    requires LeftBy(start, InPathOrder(config.leq, MoveWrites(journal.entries)), f, fault, rest, false, s)
    ensures MidMove(base, journal, s)
  {
    var writes := InPathOrder(config.leq, MoveWrites(journal.entries));
    SettledIsMidMove(config, base, journal, start);
    LeftIsBetween(start, writes, f, fault, rest, false, s);
    BetweenPermuted(start, writes, MoveWrites(journal.entries), s);
    MovePrefix(config, base, journal, start, s);
  }

  // ---- The whole move ----

  /** The batch and what was made of the journal afterwards. */
  ghost predicate FinishLeft(config: StorageConfig, base: Files, journal: MoveJournal, start: Files, script: seq<Fault>, files: Files) {
    var n := |MoveWrites(journal.entries)|;
    var f := FirstFault(script, n);
    if f == n then BatchWritten(base, journal, start, files)
    else BatchFailed(config, base, journal, start, f, FaultAt(script, f), Skip(script, f + 1), files)
  }

  ghost predicate BatchLeft(config: StorageConfig, journal: MoveJournal, start: Files, f: nat, fault: Fault, rest: seq<Fault>, files: Files) {
    exists s ::
      && LeftBy(start, InPathOrder(config.leq, MoveWrites(journal.entries)), f, fault, rest, false, s)
      && CleanupLeft(journal, s, files)
  }

  /** The rollback came to its end, and the journal and the backups were then removed. */
  predicate Cleaned(journal: MoveJournal, f: nat, fault: Fault, rest: seq<Fault>) {
    && fault.Throws? && (forall m :: 0 <= m < f ==> !FaultAt(rest, m).Dies?)
    && FirstFault(Skip(rest, f), |journal.entries| + 1) == |journal.entries| + 1
  }

  /** A batch that failed: what is left of it, of the versions and of the decision. */
  ghost predicate BatchFailed(config: StorageConfig, base: Files, journal: MoveJournal, start: Files, f: nat, fault: Fault, rest: seq<Fault>, files: Files) {
    // The batch holds what took effect and was not undone, and the journal went or not.
    && BatchLeft(config, journal, start, f, fault, rest, files)
    // Without its journal it keeps every version exactly unless the faults lose one.
    && (Cleaned(journal, f, fault, rest) ==> (Survives(journal.entries, files) <==> !LosesVersion(config, journal, f, fault, rest)))
    // A rolled-back move leaves the old store, except for the failing publish if it took effect.
    && (f < 2 * |journal.entries| && Cleaned(journal, f, fault, rest) && FirstFault(rest, f) == f ==>
          files == WithStray(base, Stray(InPathOrder(config.leq, MoveWrites(journal.entries)), f, fault)))
    // The journal is still there exactly after a death, or if its deletion had no effect.
    && (JournalFile in files <==> JournalKept(f, fault, rest))
    // Recovery decides it exactly if the journal is there, or nothing of the batch holds, or all of it.
    && DecidedExactly(base, journal, f, fault, rest, files)
  }

  /** The process died before the cleanup, or the deletion of the journal had no effect. */
  predicate JournalKept(f: nat, fault: Fault, rest: seq<Fault>) {
    fault.Dies? || (exists m :: 0 <= m < f && FaultAt(rest, m).Dies?) || !TookEffect(FaultAt(rest, f))
  }

  /** None of the `n` publishes holds. */
  predicate NoneStay(n: nat, f: nat, fault: Fault, rest: seq<Fault>) {
    forall i :: 0 <= i < n ==> !Stays(fault, rest, f, false, i)
  }

  /** All of the `n` publishes hold. */
  predicate AllStay(n: nat, f: nat, fault: Fault, rest: seq<Fault>) {
    forall i :: 0 <= i < n ==> Stays(fault, rest, f, false, i)
  }

  ghost predicate DecidedExactly(base: Files, journal: MoveJournal, f: nat, fault: Fault, rest: seq<Fault>, files: Files) {
    var n := |MoveWrites(journal.entries)|;
    && (Recoverable(base, journal, false, files) <==> JournalFile in files || NoneStay(n, f, fault, rest))
    && (Recoverable(base, journal, true, files) <==> JournalFile !in files && AllStay(n, f, fault, rest))
  }

  /** A batch that worked, and the removal of its journal as far as that went. */
  ghost predicate BatchWritten(base: Files, journal: MoveJournal, start: Files, files: Files) {
    && CleanupLeft(journal, Apply(start, MoveWrites(journal.entries)), files)
    && Recoverable(base, journal, JournalFile !in files, files)
  }

  /** Backups and journal. */
  ghost predicate PrepareLeft(config: StorageConfig, base: Files, journal: MoveJournal, script: seq<Fault>, files: Files) {
    var backups := InPathOrder(config.leq, BackupWrites(journal.entries));
    var n := |backups|;
    && LeftByScript(base, backups, script, false, files)
    && (FirstFault(script, n) == n && FaultAt(script, n).Throws? ==>
          TakenBack(config, base, journal, FaultAt(script, n) == Throws(true), Skip(script, n + 1), files))
    && (FirstFault(script, n) == n && FaultAt(script, n).Dies? ==> files == Prepared(base, journal, false))
  }

  /** What a move that starts from `base` leaves, wherever its first fault lies. */
  ghost predicate MoveLeft(config: StorageConfig, base: Files, journal: MoveJournal, script: seq<Fault>, files: Files) {
    var n := |journal.entries| + 1;
    if FirstFault(script, n) < n then PrepareLeft(config, base, journal, script, files)
    else FinishLeft(config, base, journal, Prepared(base, journal, true), Skip(script, n), files)
  }

  lemma ReadyToMove(config: StorageConfig, base: Files, journal: MoveJournal)
    requires Quiescent(base) && DecodesAsJournal(config, Journal(journal))
    ensures Settled(base, journal, Prepared(base, journal, true))
  {
    JournalWritten(config, base, journal);
  }

  /** The whole batch or none of it, and then a cleanup that may have failed: the move is still decided. */
  lemma CleanedMoveIsRecoverable(config: StorageConfig, base: Files, journal: MoveJournal, start: Files, done: bool, files: Files)
    requires EntriesPlanned(config, base, journal) && Quiescent(base) && Settled(base, journal, start)
    requires CleanupLeft(journal, if done then Apply(start, MoveWrites(journal.entries)) else start, files)
    ensures Recoverable(base, journal, done && JournalFile !in files, files)
  {
    SettledIsMidMove(config, base, journal, start);
    if done {
      CompletedMove(config, base, journal, start);
      BackupPaths(config, journal);
      MovedQuiescent(base, journal);
      CleanupLeftIsBackups(config, Moved(base, journal), journal, Apply(start, MoveWrites(journal.entries)), files);
      if OnlyBackups(Moved(base, journal), journal.entries, files) {
        assert Get(files, JournalFile) == Get(Moved(base, journal), JournalFile);
      }
    } else {
      CleanupLeftIsBackups(config, base, journal, start, files);
    }
  }

  lemma CompletedMove(config: StorageConfig, base: Files, journal: MoveJournal, start: Files)
    requires EntriesPlanned(config, base, journal) && Settled(base, journal, start)
    ensures Settled(Moved(base, journal), journal, Apply(start, MoveWrites(journal.entries)))
    ensures MidMove(base, journal, Apply(start, MoveWrites(journal.entries)))
  {
    var w := MoveWrites(journal.entries);
    MoveComplete(config, base, journal, start);
    SettledIsMidMove(config, base, journal, start);
    MoveWritesDistinct(journal.entries);
    ApplyBetween(start, w);
    MovePrefix(config, base, journal, start, Apply(start, w));
  }

  // ---- Which failed moves recovery decides ----

  /** Where the documents stand after a failed batch, as a whole. */
  lemma DocumentsByFaults(config: StorageConfig, base: Files, journal: MoveJournal, start: Files, f: nat, fault: Fault, rest: seq<Fault>, s: Files)
    requires EntriesPlanned(config, base, journal) && Settled(base, journal, start)
    requires LeftBy(start, InPathOrder(config.leq, MoveWrites(journal.entries)), f, fault, rest, false, s)
    ensures SameDocuments(s, base) <==> NoneStay(|MoveWrites(journal.entries)|, f, fault, rest)
    ensures SameDocuments(s, Moved(base, journal)) <==> AllStay(|MoveWrites(journal.entries)|, f, fault, rest)
  {
    var writes := InPathOrder(config.leq, MoveWrites(journal.entries));
    forall i | 0 <= i < |writes| ensures ChangesPath(start, base, Moved(base, journal), writes[i]) {
      MoveWriteAt(config, base, journal, start, i);
    }
    forall p: Path | p.DocumentFile? && forall i :: 0 <= i < |writes| ==> writes[i].path != p
      ensures Get(start, p) == Get(base, p) && Get(start, p) == Get(Moved(base, journal), p)
    {
      MissedDocument(config, base, journal, start, p);
    }
    NoneByFaults(start, base, Moved(base, journal), writes, f, fault, rest, s);
    AllByFaults(start, base, Moved(base, journal), writes, f, fault, rest, s);
  }

  /** A publish takes its path from what it is in `base` to what it is in `moved`. */
  ghost predicate ChangesPath(start: Files, base: Files, moved: Files, w: Write) {
    w.path.DocumentFile? && Get(start, w.path) == Get(base, w.path) && Get(base, w.path) != w.bytes && Get(moved, w.path) == w.bytes
  }

  lemma NoneByFaults(start: Files, base: Files, moved: Files, writes: seq<Write>, f: nat, fault: Fault, rest: seq<Fault>, s: Files)
    requires LeftBy(start, writes, f, fault, rest, false, s)
    requires forall i :: 0 <= i < |writes| ==> ChangesPath(start, base, moved, writes[i])
    requires forall p: Path {:trigger Get(start, p)} :: p.DocumentFile? && (forall i :: 0 <= i < |writes| ==> writes[i].path != p) ==> Get(start, p) == Get(base, p)
    ensures SameDocuments(s, base) <==> NoneStay(|writes|, f, fault, rest)
  {
    if NoneStay(|writes|, f, fault, rest) {
      forall p: Path | p.DocumentFile? ensures Get(s, p) == Get(base, p) {
        if i :| 0 <= i < |writes| && writes[i].path == p {
          assert ChangesPath(start, base, moved, writes[i]) && !Stays(fault, rest, f, false, i);
        } else {
          assert Get(s, p) == Get(start, p);
        }
      }
    }
    if SameDocuments(s, base) {
      forall i | 0 <= i < |writes| ensures !Stays(fault, rest, f, false, i) {
        assert ChangesPath(start, base, moved, writes[i]) && Get(s, writes[i].path) == Get(base, writes[i].path);
      }
    }
  }

  lemma AllByFaults(start: Files, base: Files, moved: Files, writes: seq<Write>, f: nat, fault: Fault, rest: seq<Fault>, s: Files)
    requires LeftBy(start, writes, f, fault, rest, false, s)
    requires forall i :: 0 <= i < |writes| ==> ChangesPath(start, base, moved, writes[i])
    requires forall p: Path {:trigger Get(start, p)} :: p.DocumentFile? && (forall i :: 0 <= i < |writes| ==> writes[i].path != p) ==> Get(start, p) == Get(moved, p)
    ensures SameDocuments(s, moved) <==> AllStay(|writes|, f, fault, rest)
  {
    if AllStay(|writes|, f, fault, rest) {
      forall p: Path | p.DocumentFile? ensures Get(s, p) == Get(moved, p) {
        if i :| 0 <= i < |writes| && writes[i].path == p {
          assert ChangesPath(start, base, moved, writes[i]) && Stays(fault, rest, f, false, i);
        } else {
          assert Get(s, p) == Get(start, p);
        }
      }
    }
    if SameDocuments(s, moved) {
      forall i | 0 <= i < |writes| ensures Stays(fault, rest, f, false, i) {
        assert ChangesPath(start, base, moved, writes[i]) && Get(s, writes[i].path) == Get(moved, writes[i].path);
      }
    }
  }

  ghost predicate SameDocuments(s: Files, t: Files) {
    forall p: Path {:trigger Get(s, p)} :: p.DocumentFile? ==> Get(s, p) == Get(t, p)
  }

  /** Each publish of the batch changes its path. */
  lemma MoveWriteAt(config: StorageConfig, base: Files, journal: MoveJournal, start: Files, i: nat)
    requires EntriesPlanned(config, base, journal) && Settled(base, journal, start) && i < |MoveWrites(journal.entries)|
    ensures ChangesPath(start, base, Moved(base, journal), InPathOrder(config.leq, MoveWrites(journal.entries))[i])
  {
    var w := InPathOrder(config.leq, MoveWrites(journal.entries))[i];
    var e := EntryOfWrite(config, journal.entries, w);
    BackupPaths(config, journal);
    assert EntryPlanned(config, base, journal, e);
    MovedGet(base, journal);
    assert Get(start, e.source) == Get(base, e.source) && Get(start, e.destination) == Get(base, e.destination);
  }

  lemma EntryOfWrite(config: StorageConfig, entries: seq<MoveEntry>, w: Write) returns (e: MoveEntry)
    requires w in InPathOrder(config.leq, MoveWrites(entries))
    ensures e in entries && (w == Create(e) || w == Delete(e))
  {
    SameElements(config.leq, MoveWrites(entries));
    MoveWritesAre(entries);
    e :| e in entries && (w == Create(e) || w == Delete(e));
  }

  lemma MissedDocument(config: StorageConfig, base: Files, journal: MoveJournal, start: Files, p: Path)
    requires EntriesPlanned(config, base, journal) && Settled(base, journal, start) && p.DocumentFile?
    requires forall i :: 0 <= i < |MoveWrites(journal.entries)| ==> InPathOrder(config.leq, MoveWrites(journal.entries))[i].path != p
    ensures Get(start, p) == Get(base, p) == Get(Moved(base, journal), p)
  {
    forall e | e in journal.entries ensures e.source != p && e.destination != p {
      var i, j := BothOrdered(config, journal.entries, e);
    }
    MovedGet(base, journal);
  }

  /**
   A failed batch, and a cleanup that went as far as it went: recovery puts it back exactly
   if the journal is there or nothing of the batch holds, and keeps it exactly if the
   journal is gone and all of it holds. Otherwise neither store is left.
   */
  lemma FailedBatchDecided(config: StorageConfig, base: Files, journal: MoveJournal, start: Files, f: nat, fault: Fault, rest: seq<Fault>, files: Files)
    requires EntriesPlanned(config, base, journal) && Quiescent(base) && Settled(base, journal, start)
    requires BatchLeft(config, journal, start, f, fault, rest, files)
    ensures DecidedExactly(base, journal, f, fault, rest, files)
  {
    var s :|
      && LeftBy(start, InPathOrder(config.leq, MoveWrites(journal.entries)), f, fault, rest, false, s)
      && CleanupLeft(journal, s, files);
    FailedIsMidMove(config, base, journal, start, f, fault, rest, s);
    BackupPaths(config, journal);
    MovedQuiescent(base, journal);
    if files == s {
      JournalIsNoBackup(base, journal, files);
      JournalIsNoBackup(Moved(base, journal), journal, files);
    } else {
      DocumentsByFaults(config, base, journal, start, f, fault, rest, s);
      CleanedStore(config, journal, base, s, files);
      CleanedStore(config, journal, Moved(base, journal), s, files);
    }
  }

  lemma JournalIsNoBackup(base: Files, journal: MoveJournal, files: Files)
    requires Quiescent(base)
    ensures OnlyBackups(base, journal.entries, files) ==> JournalFile !in files
  {
    if OnlyBackups(base, journal.entries, files) {
      assert Get(files, JournalFile) == Get(base, JournalFile);
    }
  }

  /** With the journal gone, what is left is a store with leftover backups exactly if the documents are those of that store. */
  lemma CleanedStore(config: StorageConfig, journal: MoveJournal, base: Files, s: Files, files: Files)
    requires DecodesAsJournal(config, Journal(journal)) && Quiescent(base) && Journaled(journal, s)
    requires Between(Put(s, JournalFile, None), BackupDeletes(journal.entries), files)
    ensures JournalFile !in files
    ensures OnlyBackups(base, journal.entries, files) <==> SameDocuments(s, base)
  {
    CleanedFiles(config, journal, s, files);
    if SameDocuments(s, base) {
      forall p: Path | !p.BackupFile? ensures Get(files, p) == Get(base, p) {
        assert p.DocumentFile? ==> Get(files, p) == Get(s, p);
      }
    }
    if OnlyBackups(base, journal.entries, files) {
      forall p: Path | p.DocumentFile? ensures Get(s, p) == Get(base, p) {
        assert Get(files, p) == Get(s, p) && Get(files, p) == Get(base, p);
      }
    }
  }

  lemma CleanedFiles(config: StorageConfig, journal: MoveJournal, s: Files, files: Files)
    requires DecodesAsJournal(config, Journal(journal)) && Journaled(journal, s)
    requires Between(Put(s, JournalFile, None), BackupDeletes(journal.entries), files)
    ensures Get(files, JournalFile) == None && SameDocuments(files, s) && BackupsOf(journal.entries, files)
  {
    var gone := Put(s, JournalFile, None);
    BackupPaths(config, journal);
    forall p: Path | !p.BackupFile? ensures Get(files, p) == Get(gone, p) {
      assert forall i :: 0 <= i < |BackupDeletes(journal.entries)| ==> BackupDeletes(journal.entries)[i].path != p;
    }
    forall i: BackupIndex | BackupFile(i) in files ensures 1 <= i <= |journal.entries| && files[BackupFile(i)] == ContentOf(journal.entries[i - 1]) {
      BackupStaysOrGoes(journal, gone, files, i);
      assert Get(gone, BackupFile(i)) == Get(s, BackupFile(i));
    }
  }

  // ---- The whole move by its faults ----

  /** Taking back the backups stopped before any of them was gone for good. */
  predicate BackupsKept(n: nat, rest: seq<Fault>) {
    var g := FirstFault(rest, n);
    g < n && NoneStay(n, g, FaultAt(rest, g), Skip(rest, g + 1))
  }

  /** The batch worked, or its journal is still there, or nothing or all of it holds. */
  predicate DecidedBatch(n: nat, script: seq<Fault>) {
    var f := FirstFault(script, n);
    var fault, rest := FaultAt(script, f), Skip(script, f + 1);
    f == n || JournalKept(f, fault, rest) || NoneStay(n, f, fault, rest) || AllStay(n, f, fault, rest)
  }

  /** The faults under which a move of this journal can still be decided. */
  predicate DecidedByFaults(journal: MoveJournal, script: seq<Fault>) {
    var n := |journal.entries|;
    var f := FirstFault(script, n + 1);
    if f < n then true
    else if f == n then FaultAt(script, n) != Throws(true) || BackupsKept(n, Skip(script, n + 1))
    else DecidedBatch(|MoveWrites(journal.entries)|, Skip(script, n + 1))
  }

  ghost predicate Decidable(base: Files, journal: MoveJournal, files: Files) {
    Recoverable(base, journal, true, files) || Recoverable(base, journal, false, files)
  }

  /**
   Exactly which moves recovery decides, wherever they stop: all that stop before the
   journal; at the journal, all but those that leave it there without its backups, on which
   recovery is refused; in the batch, those whose journal stays, or of whose batch nothing or
   everything holds; and all that stop after the batch.
   */
  lemma MoveLeftIsDecided(config: StorageConfig, base: Files, journal: MoveJournal, script: seq<Fault>, files: Files)
    requires Planned(config, base, journal) && MoveLeft(config, base, journal, script, files)
    ensures Decidable(base, journal, files) <==> DecidedByFaults(journal, script)
    ensures FirstFault(script, |journal.entries| + 1) == |journal.entries| && !DecidedByFaults(journal, script) ==>
      forall links :: RecoveryPlan(config, files, links) == Err(Durability)
  {
    var n := |journal.entries|;
    if FirstFault(script, n + 1) < n {
      BackupsFailed(config, base, journal, script, files);
    } else if FirstFault(script, n + 1) == n {
      StoppedAtJournal(config, base, journal, script, n, FaultAt(script, n), Skip(script, n + 1), files);
    } else {
      FinishIsDecided(config, base, journal, script, Prepared(base, journal, true), n + 1, Skip(script, n + 1), files);
    }
  }

  lemma FinishIsDecided(config: StorageConfig, base: Files, journal: MoveJournal, script: seq<Fault>, start: Files, n: nat, rest: seq<Fault>, files: Files)
    requires n == |journal.entries| + 1 && FirstFault(script, n) == n && rest == Skip(script, n) && start == Prepared(base, journal, true)
    requires MoveLeft(config, base, journal, script, files)
    ensures Decidable(base, journal, files) <==> DecidedBatch(|MoveWrites(journal.entries)|, rest)
  {
    assert FinishLeft(config, base, journal, start, rest, files);
    BatchIsDecided(config, base, journal, start, rest, files);
  }

  lemma BatchIsDecided(config: StorageConfig, base: Files, journal: MoveJournal, start: Files, script: seq<Fault>, files: Files)
    requires FinishLeft(config, base, journal, start, script, files)
    ensures Decidable(base, journal, files) <==> DecidedBatch(|MoveWrites(journal.entries)|, script)
  {
  }

  lemma StoppedAtJournal(config: StorageConfig, base: Files, journal: MoveJournal, script: seq<Fault>, n: nat, fault: Fault, rest: seq<Fault>, files: Files)
    requires EntriesPlanned(config, base, journal) && Quiescent(base) && CatalogValid(config, DocsOf(base))
    requires n == |journal.entries| && FirstFault(script, n + 1) == n && fault == FaultAt(script, n) && rest == Skip(script, n + 1)
    requires MoveLeft(config, base, journal, script, files)
    ensures Decidable(base, journal, files) <==> fault != Throws(true) || BackupsKept(n, rest)
    ensures !Decidable(base, journal, files) ==> forall links :: RecoveryPlan(config, files, links) == Err(Durability)
  {
    FirstFaultIs(script, n, n);
    assert PrepareLeft(config, base, journal, script, files);
    if fault == Throws(true) {
      TakenBackIs(config, base, journal, n, FirstFault(rest, n), rest, files);
      JournalThrew(config, base, journal, n, FirstFault(rest, n), rest, files);
    } else {
      JournalNotReached(config, base, journal, files);
    }
  }

  lemma BackupsFailed(config: StorageConfig, base: Files, journal: MoveJournal, script: seq<Fault>, files: Files)
    requires EntriesPlanned(config, base, journal) && Quiescent(base)
    requires FirstFault(script, |journal.entries| + 1) < |journal.entries| && MoveLeft(config, base, journal, script, files)
    ensures OnlyBackups(base, journal.entries, files)
  {
    var w := BackupWrites(journal.entries);
    FirstFaultIs(script, |journal.entries|, FirstFault(script, |journal.entries| + 1));
    LeftByScriptIsBetween(base, InPathOrder(config.leq, w), script, false, files);
    SortedBetween(config.leq, base, w, files);
    BackupPrefix(config, base, journal, files);
  }

  lemma SortedBetween(leq: (Path, Path) -> bool, base: Files, w: seq<Write>, files: Files)
    requires Between(base, InPathOrder(leq, w), files)
    ensures Between(base, w, files)
  {
    BetweenPermuted(base, InPathOrder(leq, w), w, files);
  }

  /** The journal was published all the same, and its backups were taken back as far as that went. */
  lemma JournalThrew(config: StorageConfig, base: Files, journal: MoveJournal, n: nat, g: nat, rest: seq<Fault>, files: Files)
    requires EntriesPlanned(config, base, journal) && Quiescent(base) && CatalogValid(config, DocsOf(base))
    requires n == |journal.entries| && g == FirstFault(rest, n) && Between(Prepared(base, journal, true), BackupDeletes(journal.entries), files)
    requires g == n ==> files == base[JournalFile := Journal(journal)]
    requires g < n ==>
      LeftBy(Prepared(base, journal, true), InPathOrder(config.leq, BackupDeletes(journal.entries)), g, FaultAt(rest, g), Skip(rest, g + 1), false, files)
    ensures Decidable(base, journal, files) <==> BackupsKept(n, rest)
    ensures !Decidable(base, journal, files) ==> forall links :: RecoveryPlan(config, files, links) == Err(Durability)
  {
    assert KeepsBackups(journal, files) <==> BackupsKept(n, rest) by {
      BackupsByFaults(config, base, journal, n, g, rest, files);
    }
    JournalReached(config, base, journal, files);
  }

  lemma JournalNotReached(config: StorageConfig, base: Files, journal: MoveJournal, files: Files)
    requires EntriesPlanned(config, base, journal) && Quiescent(base)
    requires Between(Prepared(base, journal, false), BackupDeletes(journal.entries), files)
    ensures Decidable(base, journal, files)
  {
    PartlyTakenBack(config, base, journal, false, files);
  }

  /** The journal is on the disk although its publish threw. */
  lemma JournalReached(config: StorageConfig, base: Files, journal: MoveJournal, files: Files)
    requires EntriesPlanned(config, base, journal) && Quiescent(base) && CatalogValid(config, DocsOf(base))
    requires Between(Prepared(base, journal, true), BackupDeletes(journal.entries), files)
    ensures Decidable(base, journal, files) <==> KeepsBackups(journal, files)
    ensures !KeepsBackups(journal, files) ==> forall links :: RecoveryPlan(config, files, links) == Err(Durability)
  {
    PartlyTakenBack(config, base, journal, true, files);
    if KeepsBackups(journal, files) {
      BackedUpIsSettled(config, base, journal, files);
      SettledIsMidMove(config, base, journal, files);
    } else {
      JournalAloneIsUndecided(config, base, journal, files);
      forall links ensures RecoveryPlan(config, files, links) == Err(Durability) {
        JournalNeedsBackups(config, base, journal, true, links, files);
      }
    }
  }

  lemma JournalAloneIsUndecided(config: StorageConfig, base: Files, journal: MoveJournal, files: Files)
    requires EntriesPlanned(config, base, journal) && Quiescent(base) && JournalFile in files && !KeepsBackups(journal, files)
    ensures !Decidable(base, journal, files)
  {
    BackupPaths(config, journal);
    MovedQuiescent(base, journal);
    JournalIsNoBackup(base, journal, files);
    JournalIsNoBackup(Moved(base, journal), journal, files);
  }

  /** Every backup is there exactly if no deletion of one holds. */
  lemma BackupsByFaults(config: StorageConfig, base: Files, journal: MoveJournal, n: nat, g: nat, rest: seq<Fault>, files: Files)
    requires DecodesAsJournal(config, Journal(journal)) && Quiescent(base) && n == |journal.entries| && g == FirstFault(rest, n)
    requires g == n ==> files == base[JournalFile := Journal(journal)]
    requires g < n ==>
      LeftBy(Prepared(base, journal, true), InPathOrder(config.leq, BackupDeletes(journal.entries)), g, FaultAt(rest, g), Skip(rest, g + 1), false, files)
    ensures KeepsBackups(journal, files) <==> BackupsKept(n, rest)
  {
    if g == n {
      NoBackups(config, base, journal);
    } else {
      BackupsLeft(config, base, journal, g, FaultAt(rest, g), Skip(rest, g + 1), files);
    }
  }

  lemma TakenBackIs(config: StorageConfig, base: Files, journal: MoveJournal, n: nat, g: nat, rest: seq<Fault>, files: Files)
    requires n == |journal.entries| && g == FirstFault(rest, n) && TakenBack(config, base, journal, true, rest, files)
    ensures Between(Prepared(base, journal, true), BackupDeletes(journal.entries), files)
    ensures g == n ==> files == base[JournalFile := Journal(journal)]
    ensures g < n ==>
      LeftBy(Prepared(base, journal, true), InPathOrder(config.leq, BackupDeletes(journal.entries)), g, FaultAt(rest, g), Skip(rest, g + 1), false, files)
  {
  }

  lemma NoBackups(config: StorageConfig, base: Files, journal: MoveJournal)
    requires DecodesAsJournal(config, Journal(journal)) && Quiescent(base)
    ensures !KeepsBackups(journal, base[JournalFile := Journal(journal)])
  {
    BackupPaths(config, journal);
    assert journal.entries[0].backup == BackupFile(1) && journal.entries[0] in journal.entries;
  }

  lemma BackupsLeft(config: StorageConfig, base: Files, journal: MoveJournal, g: nat, fault: Fault, rest: seq<Fault>, files: Files)
    requires DecodesAsJournal(config, Journal(journal)) && Quiescent(base)
    requires LeftBy(Prepared(base, journal, true), InPathOrder(config.leq, BackupDeletes(journal.entries)), g, fault, rest, false, files)
    ensures KeepsBackups(journal, files) <==> NoneStay(|journal.entries|, g, fault, rest)
  {
    BackupsAreDeletes(config, journal, files);
    PreparedBackups(config, base, journal);
    BackupsAreDeletes(config, journal, Prepared(base, journal, true));
    DeletesByFaults(Prepared(base, journal, true), InPathOrder(config.leq, BackupDeletes(journal.entries)), g, fault, rest, files);
  }

  lemma DeletesByFaults(start: Files, deletes: seq<Write>, g: nat, fault: Fault, rest: seq<Fault>, files: Files)
    requires LeftBy(start, deletes, g, fault, rest, false, files)
    requires forall i :: 0 <= i < |deletes| ==> deletes[i].bytes == None && deletes[i].path in start
    ensures (forall i :: 0 <= i < |deletes| ==> deletes[i].path in files) <==> NoneStay(|deletes|, g, fault, rest)
  {
    forall i | 0 <= i < |deletes| ensures deletes[i].path in files <==> !Stays(fault, rest, g, false, i) {
      assert Get(files, deletes[i].path) == if Stays(fault, rest, g, false, i) then None else Get(start, deletes[i].path);
    }
  }

  lemma BackupsAreDeletes(config: StorageConfig, journal: MoveJournal, files: Files)
    ensures
      var deletes := InPathOrder(config.leq, BackupDeletes(journal.entries));
      && |deletes| == |journal.entries| && (forall i :: 0 <= i < |deletes| ==> deletes[i].bytes == None)
      && (KeepsBackups(journal, files) <==> forall i :: 0 <= i < |deletes| ==> deletes[i].path in files)
  {
    var deletes := InPathOrder(config.leq, BackupDeletes(journal.entries));
    forall i | 0 <= i < |deletes| ensures deletes[i].bytes == None && exists e :: e in journal.entries && deletes[i].path == e.backup {
      DeleteIsOfBackup(config, journal, i);
    }
    forall e | e in journal.entries ensures exists i :: 0 <= i < |deletes| && deletes[i].path == e.backup {
      var i := BackupIsDeleted(config, journal, e);
    }
  }

  lemma DeleteIsOfBackup(config: StorageConfig, journal: MoveJournal, i: nat)
    requires i < |journal.entries|
    ensures
      var w := InPathOrder(config.leq, BackupDeletes(journal.entries))[i];
      w.bytes == None && exists e :: e in journal.entries && w.path == e.backup
  {
    var d := BackupDeletes(journal.entries);
    var deletes := InPathOrder(config.leq, d);
    assert deletes[i] in multiset(deletes) && deletes[i] in multiset(d);
    var k :| 0 <= k < |d| && d[k] == deletes[i];
    assert journal.entries[k] in journal.entries;
  }

  lemma BackupIsDeleted(config: StorageConfig, journal: MoveJournal, e: MoveEntry) returns (i: nat)
    requires e in journal.entries
    ensures i < |journal.entries| && InPathOrder(config.leq, BackupDeletes(journal.entries))[i].path == e.backup
  {
    var d := BackupDeletes(journal.entries);
    var deletes := InPathOrder(config.leq, d);
    var k :| 0 <= k < |d| && journal.entries[k] == e;
    assert d[k] in multiset(d) && d[k] in multiset(deletes);
    i :| 0 <= i < |deletes| && deletes[i] == d[k];
  }

  lemma PreparedBackups(config: StorageConfig, base: Files, journal: MoveJournal)
    requires DecodesAsJournal(config, Journal(journal)) && Quiescent(base)
    ensures KeepsBackups(journal, Prepared(base, journal, true))
  {
    JournalWritten(config, base, journal);
  }
}
