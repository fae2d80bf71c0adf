/** The document store: the moves and the recovery of `DocumentMoves`, run against a disk that can fail. */
module DocumentStore {
  import opened Wrappers
  import opened FileBatches
  import opened DocumentCatalog
  import opened DocumentMoves
  import opened DocumentPlans
  import opened DocumentEdits
  import opened DocumentFailures
  import opened DocumentMixtures
  import opened DocumentRuns
  import Identities

  // ---- Batches that pass their checks ----

  /** The journal and the backups are what the journal says they are. */
  ghost predicate CleanupReady(journal: MoveJournal, files: Files) {
    && Get(files, JournalFile) == Some(Journal(journal))
    && forall e :: e in journal.entries ==> Get(files, e.backup) == Some(ContentOf(e))
  }

  lemma BackupDeletesAdmissible(config: StorageConfig, journal: MoveJournal, files: Files)
    requires DecodesAsJournal(config, Journal(journal))
    requires forall e :: e in journal.entries ==> Get(files, e.backup) == Some(ContentOf(e))
    ensures Admissible(files, BackupDeletes(journal.entries), MAX_BATCH)
  {
    var d := BackupDeletes(journal.entries);
    BackupPaths(config, journal);
    forall w | w in d ensures Expects(files, w) {
      var i :| 0 <= i < |d| && d[i] == w;
      var e := journal.entries[i];
      assert e in journal.entries && Get(files, e.backup) == Some(ContentOf(e));
      assert V1(ContentOf(e)) == e.revision;
    }
  }

  lemma OrphansAdmissible(files: Files)
    requires 0 < |Orphans(files, 0)| <= MAX_VERSIONS
    ensures Admissible(files, Orphans(files, 0), MAX_BATCH)
  {
    OrphansAre(files, 0, 999);
  }

  lemma RollbackUnlessRepeated(files: Files, entries: seq<MoveEntry>)
    requires 0 < |entries| <= MAX_VERSIONS
    ensures 0 < |RollbackWrites(files, entries)| <= MAX_BATCH
    ensures forall w :: w in RollbackWrites(files, entries) ==> Expects(files, w)
    ensures Admissible(files, RollbackWrites(files, entries), MAX_BATCH) <==> DistinctPaths(RollbackWrites(files, entries))
  {
    RollbackAre(files, entries);
    assert PutBack(files, entries[0]) in RollbackWrites(files, entries);
  }

  lemma JournalStaysOrGoes(journal: MoveJournal, s: Files, t: Files)
    requires Between(s, [JournalDelete(journal)], t)
    ensures t == s || t == Put(s, JournalFile, None)
    ensures CleanupLeft(journal, s, t)
  {
    var d := [JournalDelete(journal)];
    var gone := Put(s, JournalFile, None);
    assert Get(t, d[0].path) == Get(s, JournalFile) || Get(t, d[0].path) == None;
    forall p: Path | p != JournalFile ensures Get(t, p) == Get(s, p) {
      WritesMiss(d, p);
    }
    if Get(t, JournalFile) == Get(s, JournalFile) {
      SameGetSameFiles(t, s);
    } else {
      SameGetSameFiles(t, gone);
      ApplyNothing(gone, BackupDeletes(journal.entries));
    }
  }

  /** The journal goes exactly if its deletion took effect. */
  lemma JournalByFault(journal: MoveJournal, start: Files, script: seq<Fault>, files: Files)
    requires JournalFile in start && LeftByScript(start, [JournalDelete(journal)], script, false, files)
    requires FirstFault(script, 1) == 1 ==> files == Apply(start, [JournalDelete(journal)])
    ensures JournalFile in files <==> !TookEffect(FaultAt(script, 0))
  {
    var w := [JournalDelete(journal)];
    if FirstFault(script, 1) == 1 {
      ApplyOne(start, w[0]);
    } else {
      assert Get(files, w[0].path) == if Stays(FaultAt(script, 0), Skip(script, 1), 0, false, 0) then w[0].bytes else Get(start, w[0].path);
    }
  }

  lemma BackupDeletesMissJournal(config: StorageConfig, journal: MoveJournal, s: Files, t: Files)
    requires DecodesAsJournal(config, Journal(journal)) && Between(s, BackupDeletes(journal.entries), t)
    ensures Get(t, JournalFile) == Get(s, JournalFile)
  {
    BackupPaths(config, journal);
    assert forall i :: 0 <= i < |BackupDeletes(journal.entries)| ==> BackupDeletes(journal.entries)[i].path != JournalFile;
  }

  lemma ApplyNothing(s: Files, writes: seq<Write>)
    ensures Between(s, writes, s)
  {
  }

  lemma RollbackGrows(files: Files, entries: seq<MoveEntry>, i: nat)
    requires i < |entries|
    ensures RollbackWrites(files, entries[..i + 1])
         == RollbackWrites(files, entries[..i]) + ([PutBack(files, entries[i])] + Withdraw(files, entries[i]))
  {
    assert entries[..i + 1][..i] == entries[..i];
  }

  lemma OverlayGrows(docs: Files, entries: seq<MoveEntry>, i: nat)
    requires i < |entries|
    ensures Apply(docs, OverlayWrites(entries[..i + 1]))
         == Put(Put(Apply(docs, OverlayWrites(entries[..i])), entries[i].source, Some(ContentOf(entries[i]))), entries[i].destination, None)
  {
    assert entries[..i + 1][..i] == entries[..i];
    OverlaidEntry(docs, entries[..i], entries[i]);
  }

  lemma RollbackKeepsJournal(config: StorageConfig, journal: MoveJournal, files: Files)
    requires DecodesAsJournal(config, Journal(journal))
    requires DistinctPaths(RollbackWrites(files, journal.entries))
    requires CleanupReady(journal, files)
    ensures CleanupReady(journal, Apply(files, RollbackWrites(files, journal.entries)))
  {
    var w := RollbackWrites(files, journal.entries);
    RollbackAre(files, journal.entries);
    BackupPaths(config, journal);
    forall p: Path | !p.DocumentFile? ensures Get(Apply(files, w), p) == Get(files, p) {
      WritesMiss(w, p);
      ApplyElsewhere(files, w, p);
    }
  }

  lemma BackupsAreContents(config: StorageConfig, journal: MoveJournal, files: Files)
    requires Get(files, JournalFile) == Some(Journal(journal))
    requires forall e :: e in journal.entries ==> EntryRecoverable(config, files, journal, e)
    ensures CleanupReady(journal, files)
  {
    forall e | e in journal.entries ensures Get(files, e.backup) == Some(ContentOf(e)) {
      assert V1(files[e.backup]) == e.revision;
    }
  }

  /** An operation refused as planned leaves the disk alone; otherwise it carries out the planned writes. */
  ghost predicate FollowsPlan(plan: Result<seq<Write>>, start: Files, script: seq<Fault>, o: Outcome, end: Files, rest: seq<Fault>) {
    match plan
    case Err(category) => o == Rejected(category) && end == start && rest == script
    case Ok(writes) => !o.Rejected? && RanTo(start, script, writes, o, end, rest)
  }

  lemma JournalAbsent(config: StorageConfig, base: Files, journal: MoveJournal)
    requires DecodesAsJournal(config, Journal(journal)) && Quiescent(base)
    ensures Admissible(Apply(base, BackupWrites(journal.entries)), [JournalWrite(journal)], MAX_BATCH)
  {
    BackupPaths(config, journal);
    ApplyElsewhere(base, BackupWrites(journal.entries), JournalFile);
  }

  /** A single publish that failed left the journal on the disk or did not. */
  lemma LeftByOne(config: StorageConfig, base: Files, journal: MoveJournal, fault: Fault, rest: seq<Fault>, files: Files)
    requires fault != Works && LeftBy(Prepared(base, journal, false), [JournalWrite(journal)], 0, fault, rest, false, files)
    ensures files == Prepared(base, journal, TookEffect(fault))
  {
    var start, target := Prepared(base, journal, false), Prepared(base, journal, TookEffect(fault));
    var w := [JournalWrite(journal)];
    assert Get(files, w[0].path) == if Stays(fault, rest, 0, false, 0) then w[0].bytes else Get(start, w[0].path);
    forall p: Path ensures Get(files, p) == Get(target, p) {
      if p != JournalFile {
        assert forall i :: 0 <= i < |w| ==> w[i].path != p;
      }
    }
    SameGetSameFiles(files, target);
  }

  lemma BackedUpThenRan(config: StorageConfig, base: Files, journal: MoveJournal, script: seq<Fault>, rest: seq<Fault>, n: nat, o: Outcome, files: Files, faults: seq<Fault>)
    requires DecodesAsJournal(config, Journal(journal))
    requires n == |journal.entries| && FirstFault(script, n) == n && rest == Skip(script, n)
    requires RanTo(Prepared(base, journal, false), rest, [JournalWrite(journal)], o, files, faults)
    ensures RanTo(base, script, Prepare(config, journal), o, files, faults)
  {
    var w := BackupWrites(journal.entries);
    var backups := InPathOrder(config.leq, w);
    BackupPaths(config, journal);
    ApplyPermuted(base, w, backups);
    RanToThen(base, script, backups, [JournalWrite(journal)], o, files, faults);
  }

  lemma JournalStopped(config: StorageConfig, base: Files, journal: MoveJournal, script: seq<Fault>, n: nat, fault: Fault, later: seq<Fault>, files: Files)
    requires n == |journal.entries| && FirstFault(script, n) == n && fault == FaultAt(script, n) && later == Skip(script, n + 1)
    requires fault.Throws? ==> TakenBack(config, base, journal, fault == Throws(true), later, files)
    requires fault.Dies? ==> files == Prepared(base, journal, false)
    ensures PrepareLeft(config, base, journal, script, files)
  {
  }

  /** The account of one publish. */
  lemma OneStep(start: Files, script: seq<Fault>, w: Write, o: Outcome, end: Files, rest: seq<Fault>)
    requires FaultAt(script, 0) == Works ==> o == Applied && end == Put(start, w.path, w.bytes) && rest == Skip(script, 1)
    requires FaultAt(script, 0) != Works ==> o != Applied && (FaultAt(script, 0).Dies? ==> o == Died && end == start)
    ensures RanTo(start, script, [w], o, end, rest)
  {
    ApplyOne(start, w);
    assert FirstFault(script, 1) == if FaultAt(script, 0) == Works then 1 else 0;
  }

  lemma BackupsStay(config: StorageConfig, base: Files, journal: MoveJournal, files: Files)
    requires DecodesAsJournal(config, Journal(journal)) && (files == Prepared(base, journal, true) || files == Prepared(base, journal, false))
    ensures forall e :: e in journal.entries ==> Get(files, e.backup) == Some(ContentOf(e))
  {
    BackupPaths(config, journal);
    var w := BackupWrites(journal.entries);
    forall e | e in journal.entries ensures Get(files, e.backup) == Some(ContentOf(e)) {
      var i :| 0 <= i < |w| && journal.entries[i] == e;
      ApplyAt(base, w, i);
    }
  }

  lemma BackupsTakenBack(config: StorageConfig, base: Files, journal: MoveJournal, reached: bool, files: Files)
    requires DecodesAsJournal(config, Journal(journal)) && Quiescent(base) && files == Prepared(base, journal, reached)
    ensures Apply(files, BackupDeletes(journal.entries)) == if reached then base[JournalFile := Journal(journal)] else base
  {
    var d, w := BackupDeletes(journal.entries), BackupWrites(journal.entries);
    var target := if reached then base[JournalFile := Journal(journal)] else base;
    BackupPaths(config, journal);
    forall p: Path ensures Get(Apply(files, d), p) == Get(target, p) {
      if i :| 0 <= i < |d| && d[i].path == p {
        ApplyAt(files, d, i);
      } else {
        assert forall i :: 0 <= i < |d| ==> w[i].path == d[i].path;
        ApplyElsewhere(files, d, p);
        ApplyElsewhere(base, w, p);
      }
    }
    SameGetSameFiles(Apply(files, d), target);
  }

  /** The disk once leftover backups are gone. */
  function WithoutOrphans(files: Files): Files {
    Apply(files, Orphans(files, 0))
  }

  /** What a move leaves that may first have had to delete leftover backups. */
  ghost predicate LeftOnWay(config: StorageConfig, start: Files, journal: MoveJournal, script: seq<Fault>, files: Files) {
    LeftAfter(config, start, InPathOrder(config.leq, Orphans(start, 0)), WithoutOrphans(start), journal, script, files)
  }

  /** A batch that leads from `start` to `base`, and then a move of `base`. */
  ghost predicate LeftAfter(config: StorageConfig, start: Files, first: seq<Write>, base: Files, journal: MoveJournal, script: seq<Fault>, files: Files) {
    if FirstFault(script, |first|) < |first| then LeftByScript(start, first, script, false, files)
    else MoveLeft(config, base, journal, Skip(script, |first|), files)
  }

  lemma StoppedOnWay(config: StorageConfig, start: Files, first: seq<Write>, base: Files, journal: MoveJournal, script: seq<Fault>, files: Files)
    requires FirstFault(script, |first| + (|journal.entries| + 1)) < |first| + (|journal.entries| + 1)
    requires FirstFault(script, |first|) == |first| && PrepareLeft(config, base, journal, Skip(script, |first|), files)
    ensures LeftAfter(config, start, first, base, journal, script, files)
  {
    FirstFaultConcat(script, |first|, |journal.entries| + 1);
  }

  lemma FinishedOnWay(config: StorageConfig, start: Files, first: seq<Write>, base: Files, journal: MoveJournal, script: seq<Fault>, after: seq<Fault>, n: nat, prepared: Files, rest: seq<Fault>, files: Files)
    requires FirstFault(script, |first|) == |first| && after == Skip(script, |first|)
    requires n == |journal.entries| + 1 && FirstFault(after, n) == n && rest == Skip(after, n)
    requires prepared == Prepared(base, journal, true) && FinishLeft(config, base, journal, prepared, rest, files)
    ensures LeftAfter(config, start, first, base, journal, script, files)
  {
    assert MoveLeft(config, base, journal, after, files);
  }

  lemma PreparedThenRan(config: StorageConfig, start: Files, first: seq<Write>, journal: MoveJournal, script: seq<Fault>, after: seq<Fault>, n: nat, prepared: Files, rest: seq<Fault>, o: Outcome, files: Files, faults: seq<Fault>)
    requires n == |journal.entries| + 1 && WorkedTwice(script, |first|, n, after, rest)
    requires prepared == Apply(start, first + Prepare(config, journal))
    requires RanTo(prepared, rest, Finish(config, journal), o, files, faults)
    ensures RanTo(start, script, first + Prepare(config, journal) + Finish(config, journal), o, files, faults)
  {
    assert |first + Prepare(config, journal)| == |first| + n;
    RanToThen(start, script, first + Prepare(config, journal), Finish(config, journal), o, files, faults);
  }

  /** The first `m` publishes of the script work, and the `n` after them. */
  predicate WorkedTwice(script: seq<Fault>, m: nat, n: nat, after: seq<Fault>, rest: seq<Fault>) {
    && FirstFault(script, m) == m && after == Skip(script, m)
    && FirstFault(after, n) == n && rest == Skip(after, n)
    && FirstFault(script, m + n) == m + n && rest == Skip(script, m + n)
  }

  lemma PreparedOnWay(config: StorageConfig, start: Files, first: seq<Write>, journal: MoveJournal, script: seq<Fault>, files: Files, rest: seq<Fault>)
    requires RanTo(start, script, first + Prepare(config, journal), Applied, files, rest)
    ensures WorkedTwice(script, |first|, |journal.entries| + 1, Skip(script, |first|), rest)
    ensures files == Apply(start, first + Prepare(config, journal))
  {
    FirstFaultSplits(script, |first|, |journal.entries| + 1);
  }

  lemma WithoutOrphansQuiescent(files: Files)
    requires JournalFile !in files
    ensures Quiescent(WithoutOrphans(files))
    ensures DocsOf(WithoutOrphans(files)) == DocsOf(files)
  {
    var w := Orphans(files, 0);
    OrphansAre(files, 0, 999);
    forall p: Path | !p.BackupFile? ensures Get(WithoutOrphans(files), p) == Get(files, p) {
      WritesMiss(w, p);
      ApplyElsewhere(files, w, p);
    }
    SameDocs(files, WithoutOrphans(files));
    assert Get(WithoutOrphans(files), JournalFile) == Get(files, JournalFile);
    forall i: BackupIndex ensures BackupFile(i) !in WithoutOrphans(files) {
      if x :| x in w && x.path == BackupFile(i) {
        ApplyIn(files, w, x);
      } else {
        WritesMiss(w, BackupFile(i));
        ApplyElsewhere(files, w, BackupFile(i));
      }
    }
  }

  lemma BackupWritesAdmissible(config: StorageConfig, journal: MoveJournal, base: Files)
    requires DecodesAsJournal(config, Journal(journal)) && Quiescent(base)
    ensures Admissible(base, BackupWrites(journal.entries), MAX_BATCH)
  {
    BackupPaths(config, journal);
  }

  lemma {:induction false} NoOrphans(files: Files, from: nat)
    requires from <= 1000 && forall i: BackupIndex :: BackupFile(i) !in files
    ensures Orphans(files, from) == []
    decreases 1000 - from
  {
    if from < 1000 {
      NoOrphans(files, from + 1);
    }
  }

  /** A move of a store without leftovers starts at once. */
  lemma NothingOnWay(config: StorageConfig, start: Files, journal: MoveJournal, script: seq<Fault>, files: Files)
    requires Quiescent(start) && LeftOnWay(config, start, journal, script, files)
    ensures MoveLeft(config, start, journal, script, files) && WithoutOrphans(start) == start
  {
    NoOrphans(start, 0);
    assert WithoutOrphans(start) == start;
    assert Skip(script, 0) == script;
  }

  lemma RanOnWay(config: StorageConfig, start: Files, links: set<Path>, id: string, revision: Revision<Content>, destination: Location, l: seq<Entity>, script: seq<Fault>, files: Files)
    requires MayMove(config, DocsOf(start), links, id, revision, destination, l) && |l| <= MAX_VERSIONS
    requires LeftOnWay(config, start, JournalOf(config, id, l, destination), script, files)
    ensures Quiescent(start) ==> MoveRan(config, start, links, id, revision, destination, l, script, files)
  {
    if Quiescent(start) {
      NothingOnWay(config, start, JournalOf(config, id, l, destination), script, files);
    }
  }

  lemma MoveAdmissible(config: StorageConfig, base: Files, journal: MoveJournal, files: Files)
    requires EntriesPlanned(config, base, journal) && Settled(base, journal, files)
    ensures Admissible(files, MoveWrites(journal.entries), MAX_BATCH)
  {
    var w := MoveWrites(journal.entries);
    MoveWritesDistinct(journal.entries);
    MoveWritesAre(journal.entries);
    BackupPaths(config, journal);
    forall x | x in w ensures Expects(files, x) {
      var e :| e in journal.entries && (x == Create(e) || x == Delete(e));
      assert EntryPlanned(config, base, journal, e);
      assert Get(files, e.source) == Get(base, e.source) && Get(files, e.destination) == Get(base, e.destination);
    }
  }

  /** Removing the journal after a failed move makes whatever is on the disk the new store. */
  lemma CleanupAfterFailure(config: StorageConfig, base: Files, journal: MoveJournal, start: Files, stray: Option<Write>)
    requires DecodesAsJournal(config, Journal(journal)) && Quiescent(base) && Settled(base, journal, start)
    requires stray.Some? ==> stray.value in InPathOrder(config.leq, MoveWrites(journal.entries))
    ensures Apply(WithStray(start, stray), Cleanup(config, journal)) == WithStray(base, stray)
  {
    if stray.Some? {
      SameElements(config.leq, MoveWrites(journal.entries));
      MoveWritesAre(journal.entries);
    }
    BackupPaths(config, journal);
    StrayIsSettled(base, journal, start, stray);
    CleanupWhole(config, WithStray(base, stray), journal, WithStray(start, stray));
  }

  lemma MoveInAnyOrder(config: StorageConfig, journal: MoveJournal, start: Files)
    requires EntriesApart(journal.entries)
    ensures Apply(start, InPathOrder(config.leq, MoveWrites(journal.entries))) == Apply(start, MoveWrites(journal.entries))
  {
    MoveWritesDistinct(journal.entries);
    ApplyPermuted(start, MoveWrites(journal.entries), InPathOrder(config.leq, MoveWrites(journal.entries)));
  }

  lemma BatchKeepsCleanup(config: StorageConfig, base: Files, journal: MoveJournal, start: Files, f: nat, fault: Fault, rest: seq<Fault>, files: Files)
    requires EntriesPlanned(config, base, journal) && Settled(base, journal, start)
    requires LeftBy(start, InPathOrder(config.leq, MoveWrites(journal.entries)), f, fault, rest, false, files)
    ensures CleanupReady(journal, files)
  {
    FailedIsMidMove(config, base, journal, start, f, fault, rest, files);
  }

  lemma Abandoned(config: StorageConfig, base: Files, journal: MoveJournal, start: Files, f: nat, fault: Fault, rest: seq<Fault>, middle: Files, failure: Outcome, cleaned: bool, files: Files)
    requires EntriesPlanned(config, base, journal) && Quiescent(base) && Settled(base, journal, start)
    requires f < 2 * |journal.entries| && fault.Throws? && !failure.Died?
    requires (failure.RolledBack? <==> FirstFault(rest, f) == f) && (forall m :: 0 <= m < f ==> !FaultAt(rest, m).Dies?)
    requires LeftBy(start, InPathOrder(config.leq, MoveWrites(journal.entries)), f, fault, rest, false, middle)
    requires failure.RolledBack? ==> middle == WithStray(start, Stray(InPathOrder(config.leq, MoveWrites(journal.entries)), f, fault))
    requires CleanupLeft(journal, middle, files) && (cleaned ==> files == Apply(middle, Cleanup(config, journal)))
    requires cleaned <==> FirstFault(Skip(rest, f), |journal.entries| + 1) == |journal.entries| + 1
    requires JournalFile in files <==> !TookEffect(FaultAt(rest, f))
    ensures BatchFailed(config, base, journal, start, f, fault, rest, files)
  {
    assert BatchLeft(config, journal, start, f, fault, rest, files);
    assert DecidedExactly(base, journal, f, fault, rest, files) by {
      FailedBatchDecided(config, base, journal, start, f, fault, rest, files);
    }
    if cleaned {
      assert Survives(journal.entries, files) <==> !LosesVersion(config, journal, f, fault, rest) by {
        FailedMoveKeepsVersions(config, base, journal, start, f, fault, rest, middle);
      }
      if failure == RolledBack {
        CleanupAfterFailure(config, base, journal, start, Stray(InPathOrder(config.leq, MoveWrites(journal.entries)), f, fault));
      }
    }
  }

  lemma DiedInBatch(config: StorageConfig, base: Files, journal: MoveJournal, start: Files, f: nat, fault: Fault, rest: seq<Fault>, files: Files)
    requires EntriesPlanned(config, base, journal) && Quiescent(base) && Settled(base, journal, start)
    requires LeftBy(start, InPathOrder(config.leq, MoveWrites(journal.entries)), f, fault, rest, false, files)
    requires fault.Dies? || exists m :: 0 <= m < f && FaultAt(rest, m).Dies?
    ensures BatchFailed(config, base, journal, start, f, fault, rest, files)
  {
    FailedIsMidMove(config, base, journal, start, f, fault, rest, files);
    assert CleanupLeft(journal, files, files);
    assert BatchLeft(config, journal, start, f, fault, rest, files);
    FailedBatchDecided(config, base, journal, start, f, fault, rest, files);
  }

  lemma CleanupWhole(config: StorageConfig, base: Files, journal: MoveJournal, s: Files)
    requires DecodesAsJournal(config, Journal(journal)) && Quiescent(base) && Settled(base, journal, s)
    ensures Apply(s, Cleanup(config, journal)) == base
  {
    var cleanup := Cleanup(config, journal);
    CleanupPrefix(config, base, journal, s, |cleanup|);
    assert cleanup[..|cleanup|] == cleanup;
  }

  lemma StrayIsSettled(base: Files, journal: MoveJournal, start: Files, stray: Option<Write>)
    requires Quiescent(base) && Settled(base, journal, start)
    requires stray.Some? ==> stray.value.path.DocumentFile?
    requires forall e :: e in journal.entries ==> e.backup.BackupFile?
    ensures Quiescent(WithStray(base, stray)) && Settled(WithStray(base, stray), journal, WithStray(start, stray))
  {
    var here, there := WithStray(start, stray), WithStray(base, stray);
    forall p: Path | !p.DocumentFile? ensures Get(here, p) == Get(start, p) && Get(there, p) == Get(base, p) {}
    forall p: Path | p.DocumentFile? ensures Get(here, p) == Get(there, p) {
      assert Get(start, p) == Get(base, p);
    }
    assert Get(there, JournalFile) == Get(base, JournalFile);
    forall i: BackupIndex ensures BackupFile(i) !in there && Get(here, BackupFile(i)) == Get(start, BackupFile(i)) {
      assert Get(there, BackupFile(i)) == Get(base, BackupFile(i));
    }
  }

  lemma NoLineageToMove(config: StorageConfig, docs: Files, links: set<Path>, id: string, revision: Revision<Content>, destination: Location)
    requires !(CatalogValid(config, docs) && Identities.IsPrefixedIdentity(id, config.prefix, 5) && HasId(docs, id))
    ensures forall l :: !MayMove(config, docs, links, id, revision, destination, l)
  {
    forall l | MayMove(config, docs, links, id, revision, destination, l) ensures false {
      LineageHasId(docs, id, l);
    }
  }

  lemma NoLineageToEdit(config: StorageConfig, docs: Files, id: string, revision: Revision<Content>)
    requires !(CatalogValid(config, docs) && Identities.IsPrefixedIdentity(id, config.prefix, 5) && HasId(docs, id))
    ensures forall l :: !MayEdit(config, docs, id, revision, l)
  {
    forall l | MayEdit(config, docs, id, revision, l) ensures false {
      LineageHasId(docs, id, l);
    }
  }

  lemma LineageHasId(docs: Files, id: string, l: seq<Entity>)
    requires IsLineage(l, docs, id)
    ensures HasId(docs, id)
  {
    assert l[0].path in docs && docs[l[0].path].metadata.id == id;
  }

  lemma LineageUnique(docs: Files, id: string, l: seq<Entity>)
    requires forall p :: p in docs ==> docs[p].Document? && p.DocumentFile?
    requires LineagesValid(docs) && IsLineage(l, docs, id)
    ensures forall m :: IsLineage(m, docs, id) ==> m == l
  {
    forall m: seq<Entity> | IsLineage(m, docs, id) ensures m == l {
      NoLonger(docs, id, l, m);
      NoLonger(docs, id, m, l);
      forall k | 0 <= k < |l| ensures m[k] == l[k] {
        assert docs[m[k].path] == m[k].content && docs[l[k].path] == l[k].content;
      }
    }
  }

  lemma NoLonger(docs: Files, id: string, l: seq<Entity>, m: seq<Entity>)
    requires IsLineage(l, docs, id) && IsLineage(m, docs, id)
    ensures |m| <= |l|
  {
    var last := m[|m| - 1];
    assert docs[last.path] == last.content;
    assert Entity(last.path, docs[last.path]) in l;
  }

  /** The journal of moving this lineage, every version of it and nothing else. */
  ghost predicate JournalsMove(config: StorageConfig, docs: Files, links: set<Path>, id: string, revision: Revision<Content>, destination: Location, journal: MoveJournal) {
    exists l :: MayMove(config, docs, links, id, revision, destination, l) && |l| <= MAX_VERSIONS && journal == JournalOf(config, id, l, destination)
  }

  lemma DrawnFor(config: StorageConfig, docs: Files, links: set<Path>, id: string, revision: Revision<Content>, destination: Location, l: seq<Entity>)
    requires MayMove(config, docs, links, id, revision, destination, l) && |l| <= MAX_VERSIONS
    ensures JournalsMove(config, docs, links, id, revision, destination, JournalOf(config, id, l, destination))
  {
  }

  lemma PlannedMoveFits(config: StorageConfig, files: Files, links: set<Path>, id: string, revision: Revision<Content>, destination: Location, l: seq<Entity>)
    requires MayMove(config, DocsOf(files), links, id, revision, destination, l) && |l| <= MAX_VERSIONS
    ensures
      var journal := JournalOf(config, id, l, destination);
      var replacements := MoveWrites(journal.entries);
      && DistinctPaths(replacements)
      && (forall w :: w in replacements ==> Expects(DocsOf(files), w) && ProposalFits(config, w))
      && CatalogValid(config, Apply(DocsOf(files), replacements))
      && DocsOf(Moved(files, journal)) == Apply(DocsOf(files), replacements)
  {
    var docs := DocsOf(files);
    var journal := JournalOf(config, id, l, destination);
    LineageSited(config, docs, id, l, Other(destination));
    EntriesOfJournal(config, id, l, destination);
    MoveWritesDistinct(journal.entries);
    JournalDecodes(config, id, l, destination);
    BackupPaths(config, journal);
    MovedDocs(files, journal);
    MovedValid(config, docs, id, l, destination);
    MoveWritesFit(config, docs, id, destination, l);
  }

  lemma MoveWritesFit(config: StorageConfig, docs: Files, id: string, destination: Location, l: seq<Entity>)
    requires CatalogValid(config, docs) && IsLineage(l, docs, id) && LiesIn(l, Other(destination)) && |l| <= MAX_VERSIONS
    ensures forall w :: w in MoveWrites(JournalOf(config, id, l, destination).entries) ==> Expects(docs, w) && ProposalFits(config, w)
  {
    forall k | 0 <= k < |l| ensures EntryFits(config, docs, EntryOf(config, l[k], destination, k + 1)) {
      EntryOfFits(config, docs, id, destination, l, k);
    }
    JournalEntriesFit(config, docs, id, l, destination);
    EntriesFit(config, docs, JournalOf(config, id, l, destination).entries);
  }

  ghost predicate EntryFits(config: StorageConfig, docs: Files, e: MoveEntry) {
    && Expects(docs, Create(e)) && ProposalFits(config, Create(e))
    && Expects(docs, Delete(e)) && ProposalFits(config, Delete(e))
  }

  lemma JournalEntriesFit(config: StorageConfig, docs: Files, id: string, l: seq<Entity>, destination: Location)
    requires |l| <= MAX_VERSIONS && forall k :: 0 <= k < |l| ==> l[k].content.Document?
    requires forall k :: 0 <= k < |l| ==> EntryFits(config, docs, EntryOf(config, l[k], destination, k + 1))
    ensures forall e :: e in JournalOf(config, id, l, destination).entries ==> EntryFits(config, docs, e)
  {
    var entries := JournalOf(config, id, l, destination).entries;
    forall e | e in entries ensures EntryFits(config, docs, e) {
      var k :| 0 <= k < |entries| && entries[k] == e;
      assert e == EntryOf(config, l[k], destination, k + 1);
    }
  }

  lemma EntriesFit(config: StorageConfig, docs: Files, entries: seq<MoveEntry>)
    requires forall e :: e in entries ==> EntryFits(config, docs, e)
    ensures forall w :: w in MoveWrites(entries) ==> Expects(docs, w) && ProposalFits(config, w)
  {
    MoveWritesAre(entries);
    forall w | w in MoveWrites(entries) ensures Expects(docs, w) && ProposalFits(config, w) {
      var e :| e in entries && (w == Create(e) || w == Delete(e));
      assert EntryFits(config, docs, e);
    }
  }

  lemma EntryOfFits(config: StorageConfig, docs: Files, id: string, destination: Location, l: seq<Entity>, k: BackupIndex)
    requires CatalogValid(config, docs) && IsLineage(l, docs, id) && LiesIn(l, Other(destination)) && k < |l|
    requires k < 999
    ensures EntryFits(config, docs, EntryOf(config, l[k], destination, k + 1))
  {
    DestinationFree(config, docs, id, l, destination, k);
    assert WellFiled(config, l[k].path, docs[l[k].path]);
  }

  lemma FinishedIsMoved(config: StorageConfig, base: Files, journal: MoveJournal)
    requires EntriesPlanned(config, base, journal) && Quiescent(base)
    ensures Apply(Apply(base, Prepare(config, journal)), Finish(config, journal)) == Moved(base, journal)
  {
    var steps := MoveSteps(config, journal);
    ApplyConcat(base, Prepare(config, journal), Finish(config, journal));
    CrashedMoveIsRecoverable(config, base, journal, |steps|);
    assert steps[..|steps|] == steps;
  }

  lemma StepsInOrder(config: StorageConfig, journal: MoveJournal, first: seq<Write>)
    ensures first + Prepare(config, journal) + Finish(config, journal) == first + MoveSteps(config, journal)
  {
    Associates(first, Prepare(config, journal), Finish(config, journal));
  }

  lemma Associates<T>(a: seq<T>, b: seq<T>, c: seq<T>)
    ensures (a + b) + c == a + (b + c)
  {
  }

  lemma StepsAreMoved(config: StorageConfig, start: Files, journal: MoveJournal)
    requires JournalFile !in start && EntriesPlanned(config, WithoutOrphans(start), journal)
    ensures Apply(start, InPathOrder(config.leq, Orphans(start, 0)) + MoveSteps(config, journal)) == Moved(WithoutOrphans(start), journal)
  {
    var base := WithoutOrphans(start);
    var orphans := Orphans(start, 0);
    WithoutOrphansQuiescent(start);
    OrphansAre(start, 0, 999);
    ApplyConcat(start, InPathOrder(config.leq, orphans), MoveSteps(config, journal));
    SortedPrefixBetween(config.leq, start, orphans, |orphans|);
    assert InPathOrder(config.leq, orphans)[..|orphans|] == InPathOrder(config.leq, orphans);
    ApplyConcat(base, Prepare(config, journal), Finish(config, journal));
    FinishedIsMoved(config, base, journal);
  }

  lemma RecoveredHasNoJournal(config: StorageConfig, files: Files, links: set<Path>)
    requires RecoveryPlan(config, files, links).Ok?
    ensures JournalFile !in Apply(files, RecoveryPlan(config, files, links).value)
  {
    if JournalFile in files {
      PlannedWithJournal(config, files, links);
      JournalGone(config, files, files[JournalFile].journal);
    } else {
      OrphansMissJournal(config, files);
      PlannedWithoutJournal(config, files, links);
    }
  }

  lemma PlannedWithJournal(config: StorageConfig, files: Files, links: set<Path>)
    requires JournalFile in files && RecoveryPlan(config, files, links).Ok?
    ensures DecodesAsJournal(config, files[JournalFile])
    ensures RecoveryPlan(config, files, links).value
      == InPathOrder(config.leq, RollbackWrites(files, files[JournalFile].journal.entries)) + Cleanup(config, files[JournalFile].journal)
  {
  }

  lemma PlannedWithoutJournal(config: StorageConfig, files: Files, links: set<Path>)
    requires JournalFile !in files && RecoveryPlan(config, files, links).Ok?
    ensures RecoveryPlan(config, files, links).value in {[], InPathOrder(config.leq, Orphans(files, 0))}
  {
  }

  lemma OrphansMissJournal(config: StorageConfig, files: Files)
    requires JournalFile !in files
    ensures JournalFile !in Apply(files, InPathOrder(config.leq, Orphans(files, 0)))
  {
    var w := Orphans(files, 0);
    OrphansAre(files, 0, 999);
    var ordered := InPathOrder(config.leq, w);
    forall x | x in ordered ensures x.path != JournalFile {
      assert x in multiset(ordered) && x in multiset(w);
    }
    WritesMiss(ordered, JournalFile);
    ApplyElsewhere(files, InPathOrder(config.leq, w), JournalFile);
  }

  lemma JournalGone(config: StorageConfig, files: Files, journal: MoveJournal)
    requires DecodesAsJournal(config, Journal(journal))
    ensures JournalFile !in Apply(files, InPathOrder(config.leq, RollbackWrites(files, journal.entries)) + Cleanup(config, journal))
  {
    var rollback := InPathOrder(config.leq, RollbackWrites(files, journal.entries));
    var first, rest := [JournalDelete(journal)], InPathOrder(config.leq, BackupDeletes(journal.entries));
    var middle := Apply(files, rollback);
    ApplyConcat(files, rollback, first + rest);
    ApplyConcat(middle, first, rest);
    ApplyOne(middle, first[0]);
    BackupPaths(config, journal);
    forall w | w in rest ensures w.path != JournalFile {
      assert w in multiset(rest) && w in multiset(BackupDeletes(journal.entries));
    }
    WritesMiss(rest, JournalFile);
    ApplyElsewhere(Apply(middle, first), rest, JournalFile);
  }

  // ---- Edits ----

  /** The batch was written, or failed and left exactly what took effect and was not undone. */
  ghost predicate Wrote(config: StorageConfig, start: Files, script: seq<Fault>, writes: seq<Write>, o: Outcome, files: Files, rest: seq<Fault>) {
    && RanTo(start, script, InPathOrder(config.leq, writes), o, files, rest)
    && LeftByScript(start, InPathOrder(config.leq, writes), script, false, files)
  }

  /** All or nothing of a batch was written. */
  ghost predicate Whole(start: Files, writes: seq<Write>, files: Files) {
    files == start || files == Apply(start, writes)
  }

  lemma WholeEdit(config: StorageConfig, links: set<Path>, start: Files, op: Operation, writes: seq<Write>, files: Files)
    requires Whole(start, writes, files) && forall w :: w in writes ==> w.path.DocumentFile?
    requires Step(config, links, DocsOf(start), op, Apply(DocsOf(start), writes))
    ensures EditRan(config, links, start, op, files)
  {
    EditsKeepControl(start, writes);
  }

  /** A planned batch of documents that is one step of the catalogue. */
  ghost predicate CanCommit(config: StorageConfig, links: set<Path>, docs: Files, op: Operation, writes: seq<Write>) {
    && CatalogValid(config, docs) && Plannable(config, docs, writes)
    && 1 <= |writes| <= 2 && (forall w :: w in writes ==> w.path.DocumentFile?)
    && Step(config, links, docs, op, Apply(docs, writes))
  }

  lemma UpdateCommits(config: StorageConfig, links: set<Path>, docs: Files, id: string, revision: Revision<Content>, changes: Changes, now: string, l: seq<Entity>, writes: seq<Write>)
    requires MayUpdate(config, docs, links, id, revision, changes, now, l)
    requires writes == UpdateWrites(config, l[|l| - 1], changes, now) && Plannable(config, docs, writes)
    ensures CanCommit(config, links, docs, UpdateDoc(id, revision, changes, now), writes)
  {
    UpdateWritesDocuments(config, l[|l| - 1], changes, now);
    UpdateStep(config, links, docs, id, revision, changes, now, l, Apply(docs, writes));
  }

  lemma UpdateWritesDocuments(config: StorageConfig, current: Entity, changes: Changes, now: string)
    requires current.content.Document? && current.path.DocumentFile?
    ensures forall w :: w in UpdateWrites(config, current, changes, now) ==> w.path.DocumentFile?
  {
  }

  lemma UpdateStep(config: StorageConfig, links: set<Path>, docs: Files, id: string, revision: Revision<Content>, changes: Changes, now: string, l: seq<Entity>, after: Files)
    requires Updated(config, docs, id, revision, changes, now, l, after)
    ensures Step(config, links, docs, UpdateDoc(id, revision, changes, now), after)
  {
  }

  lemma VersionStep(config: StorageConfig, docs: Files, id: string, revision: Revision<Content>, changes: Changes, now: string, l: seq<Entity>, after: Files)
    requires Versioned(config, docs, id, revision, changes, now, l, after)
    ensures Step(config, {}, docs, AddVersion(id, revision, changes, now), after)
  {
  }

  /** What a create demands. */
  ghost predicate MayCreate(config: StorageConfig, docs: Files, m: Metadata, body: string) {
    && CatalogValid(config, docs) && Identities.IsPrefixedIdentity(m.id, config.prefix, 5)
    && !HasId(docs, m.id) && |docs| < MAX_DOCUMENTS && Readable(config, Document(m, body))
  }

  /** What an update demands: an edit that renames its file needs it unlinked. */
  ghost predicate MayUpdate(config: StorageConfig, docs: Files, links: set<Path>, id: string, revision: Revision<Content>, changes: Changes, now: string, l: seq<Entity>) {
    && MayEdit(config, docs, id, revision, l)
    && l[|l| - 1].content.Document?
    && Readable(config, Changed(l[|l| - 1].content, changes, now, false))
    && (|UpdateWrites(config, l[|l| - 1], changes, now)| == 2 ==> l[|l| - 1].path !in links)
  }

  ghost predicate MayVersion(config: StorageConfig, docs: Files, id: string, revision: Revision<Content>, changes: Changes, now: string, l: seq<Entity>) {
    && MayEdit(config, docs, id, revision, l)
    && l[|l| - 1].content.Document?
    && Readable(config, Changed(l[|l| - 1].content, changes, now, true))
    && |l| < MAX_VERSIONS && |docs| < MAX_DOCUMENTS
  }

  lemma DocumentBatchAdmissible(files: Files, writes: seq<Write>)
    requires 1 <= |writes| <= 2 && DistinctPaths(writes) && forall w :: w in writes ==> w.path.DocumentFile?
    requires forall w :: w in writes ==> Expects(DocsOf(files), w)
    ensures Admissible(files, writes, MAX_BATCH)
  {
  }

  class DocumentStore {
    const config: StorageConfig
    const disk: Disk<Path, Content>

    constructor (config: StorageConfig, disk: Disk<Path, Content>)
      ensures this.config == config && this.disk == disk
    {
      this.config := config;
      this.disk := disk;
    }

    /** Delete the journal, which commits or abandons the move, and then its backups. */
    method CleanupMoveJournal(journal: MoveJournal) returns (o: Outcome)
      requires DecodesAsJournal(config, Journal(journal))
      requires CleanupReady(journal, disk.files)
      modifies disk
      ensures !o.Rejected?
      ensures RanTo(old(disk.files), old(disk.faults), Cleanup(config, journal), o, disk.files, disk.faults)
      ensures o.Applied? ==> disk.files == Apply(old(disk.files), Cleanup(config, journal))
      ensures CleanupLeft(journal, old(disk.files), disk.files)
      ensures JournalFile in disk.files <==> !TookEffect(FaultAt(old(disk.faults), 0))
    {
      ghost var start, script := disk.files, disk.faults;
      var first := [JournalDelete(journal)];
      ghost var rest := InPathOrder(config.leq, BackupDeletes(journal.entries));
      assert InPathOrder(config.leq, first) == first;
      o := disk.ApplyBatch(config.leq, first, MAX_BATCH, false);
      JournalStaysOrGoes(journal, start, disk.files);
      JournalByFault(journal, start, script, disk.files);
      if o != Applied {
        RanToShort(start, script, first, rest, o, disk.files, disk.faults);
        return;
      }
      ghost var middle := disk.files;
      ApplyOne(start, first[0]);
      BackupPaths(config, journal);
      forall e | e in journal.entries ensures Get(middle, e.backup) == Some(ContentOf(e)) {
        assert Get(middle, e.backup) == Get(start, e.backup);
      }
      BackupDeletesAdmissible(config, journal, middle);
      o := disk.ApplyBatch(config.leq, BackupDeletes(journal.entries), MAX_BATCH, false);
      RanToThen(start, script, first, rest, o, disk.files, disk.faults);
      BackupDeletesMissJournal(config, journal, middle, disk.files);
      if o == Applied {
        FirstFaultConcat(script, 1, |rest|);
      }
    }

    /** Finish or undo whatever an interrupted move left behind; every operation runs this first. */
    method Recover(links: set<Path>) returns (o: Outcome)
      modifies disk
      ensures FollowsPlan(RecoveryPlan(config, old(disk.files), links), old(disk.files), old(disk.faults), o, disk.files, disk.faults)
      // However it ends, the next recovery can still decide the same way.
      ensures RecoveryLeft(old(disk.files), disk.files)
    {
      if JournalFile !in disk.files {
        o := RecoverOrphans(links);
      } else if !DecodesAsJournal(config, disk.files[JournalFile]) {
        o := Rejected(Schema);
      } else {
        o := RecoverMove(disk.files[JournalFile].journal, links);
      }
    }

    method RecoverOrphans(links: set<Path>) returns (o: Outcome)
      requires JournalFile !in disk.files
      modifies disk
      ensures FollowsPlan(PlanWithoutJournal(config, old(disk.files), links), old(disk.files), old(disk.faults), o, disk.files, disk.faults)
      ensures RecoveryLeft(old(disk.files), disk.files)
    {
      var orphans := Orphans(disk.files, 0);
      if |orphans| > MAX_VERSIONS {
        return Rejected(ResourceLimit);
      }
      if !LinksResolve(DocsOf(disk.files), links) {
        return Rejected(Synchronization);
      }
      if orphans == [] {
        return Applied;
      }
      var snapshot := Discover(config, disk.files);
      if snapshot.Err? {
        return Rejected(PathSafety);
      }
      OrphansAdmissible(disk.files);
      o := disk.ApplyBatch(config.leq, orphans, MAX_BATCH, false);
    }

    method RecoverMove(journal: MoveJournal, links: set<Path>) returns (o: Outcome)
      requires DecodesAsJournal(config, Journal(journal))
      requires Get(disk.files, JournalFile) == Some(Journal(journal))
      modifies disk
      ensures FollowsPlan(PlanWithJournal(config, old(disk.files), journal, links), old(disk.files), old(disk.faults), o, disk.files, disk.faults)
      ensures JournaledRecoveryLeft(journal, old(disk.files), disk.files)
    {
      var replacements, overlaid, ok := ReadJournal(journal);
      if !ok {
        return Rejected(Durability);
      }
      if !LinksResolve(overlaid, links) {
        return Rejected(Synchronization);
      }
      var snapshot := DiscoverDocs(config, overlaid);
      if snapshot.Err? {
        return Rejected(PathSafety);
      }
      BackupsAreContents(config, journal, disk.files);
      o := RollBackMove(journal, replacements);
    }

    /** Check every journal entry against the disk while collecting the rollback and its overlay. */
    method ReadJournal(journal: MoveJournal) returns (replacements: seq<Write>, overlaid: Files, ok: bool)
      ensures ok <==> forall e :: e in journal.entries ==> EntryRecoverable(config, disk.files, journal, e)
      ensures ok ==> replacements == RollbackWrites(disk.files, journal.entries)
      ensures ok ==> overlaid == Apply(DocsOf(disk.files), OverlayWrites(journal.entries))
    {
      var entries := journal.entries;
      replacements, overlaid := [], DocsOf(disk.files);
      for i := 0 to |entries|
        invariant forall k :: 0 <= k < i ==> EntryRecoverable(config, disk.files, journal, entries[k])
        invariant replacements == RollbackWrites(disk.files, entries[..i])
        invariant overlaid == Apply(DocsOf(disk.files), OverlayWrites(entries[..i]))
      {
        var e := entries[i];
        if !EntryRecoverable(config, disk.files, journal, e) {
          return replacements, overlaid, false;
        }
        var backup := disk.files[e.backup];
        assert backup == ContentOf(e) by { assert V1(backup) == e.revision; }
        RollbackGrows(disk.files, entries, i);
        OverlayGrows(DocsOf(disk.files), entries, i);
        replacements := replacements
          + ([Replacement(e.source, Some(backup), if e.source in disk.files then MustMatch(V1(disk.files[e.source])) else MustBeAbsent)]
             + Withdraw(disk.files, e));
        overlaid := Put(Put(overlaid, e.source, Some(backup)), e.destination, None);
      }
      assert entries[..|entries|] == entries;
      ok := true;
    }

    method RollBackMove(journal: MoveJournal, replacements: seq<Write>) returns (o: Outcome)
      requires DecodesAsJournal(config, Journal(journal)) && CleanupReady(journal, disk.files)
      requires replacements == RollbackWrites(disk.files, journal.entries)
      modifies disk
      ensures !DistinctPaths(replacements) ==> o == Rejected(PathSafety) && disk.files == old(disk.files) && disk.faults == old(disk.faults)
      ensures DistinctPaths(replacements) ==>
        && !o.Rejected?
        && RanTo(old(disk.files), old(disk.faults), InPathOrder(config.leq, replacements) + Cleanup(config, journal), o, disk.files, disk.faults)
      ensures JournaledRecoveryLeft(journal, old(disk.files), disk.files)
    {
      ghost var start, script := disk.files, disk.faults;
      ghost var ordered := InPathOrder(config.leq, replacements);
      RollbackUnlessRepeated(start, journal.entries);
      o := disk.ApplyBatch(config.leq, replacements, MAX_BATCH, false);
      if o.Rejected? {
        return;
      }
      if o != Applied {
        RanToShort(start, script, ordered, Cleanup(config, journal), o, disk.files, disk.faults);
        return;
      }
      RollbackKeepsJournal(config, journal, start);
      o := CleanupMoveJournal(journal);
      RanToThen(start, script, ordered, Cleanup(config, journal), o, disk.files, disk.faults);
    }

    // ---- Moving a lineage ----

    /**
     Publish the journal; when that throws, take the backups back, as far as that works. If
     the journal had reached the disk all the same, it stays there.
     */
    method WriteJournal(journal: MoveJournal, ghost base: Files) returns (o: Outcome)
      requires DecodesAsJournal(config, Journal(journal)) && Quiescent(base)
      requires disk.files == Apply(base, BackupWrites(journal.entries))
      modifies disk
      ensures !o.Rejected?
      ensures RanTo(old(disk.files), old(disk.faults), [JournalWrite(journal)], o, disk.files, disk.faults)
      ensures o.Applied? ==> disk.files == Put(old(disk.files), JournalFile, Some(Journal(journal)))
      ensures FaultAt(old(disk.faults), 0).Throws? ==>
        && TakenBack(config, base, journal, FaultAt(old(disk.faults), 0) == Throws(true), Skip(old(disk.faults), 1), disk.files)
        && (o.RolledBack? <==> FirstFault(Skip(old(disk.faults), 1), |journal.entries|) == |journal.entries|)
      ensures FaultAt(old(disk.faults), 0).Dies? ==> disk.files == old(disk.files)
    {
      ghost var start, script := disk.files, disk.faults;
      o := PublishJournal(journal, base);
      if o != Applied && o != Died {
        o := TakeBackBackups(journal, base, FaultAt(script, 0) == Throws(true));
      }
      OneStep(start, script, JournalWrite(journal), o, disk.files, disk.faults);
    }

    method PublishJournal(journal: MoveJournal, ghost base: Files) returns (o: Outcome)
      requires DecodesAsJournal(config, Journal(journal)) && Quiescent(base)
      requires disk.files == Prepared(base, journal, false)
      modifies disk
      ensures FaultAt(old(disk.faults), 0) != Dies ==> disk.faults == Skip(old(disk.faults), 1)
      ensures disk.files == Prepared(base, journal, TookEffect(FaultAt(old(disk.faults), 0)))
      ensures o == match FaultAt(old(disk.faults), 0) case Works => Applied case Throws(_) => RolledBack case Dies => Died
    {
      ghost var start, script := disk.files, disk.faults;
      var write := [JournalWrite(journal)];
      JournalAbsent(config, base, journal);
      assert InPathOrder(config.leq, write) == write;
      o := disk.ApplyBatch(config.leq, write, MAX_BATCH, false);
      ApplyOne(start, write[0]);
      if o != Applied {
        assert FirstFault(script, 1) == 0;
        LeftByOne(config, base, journal, FaultAt(script, 0), Skip(script, 1), disk.files);
      }
    }

    method TakeBackBackups(journal: MoveJournal, ghost base: Files, ghost reached: bool) returns (o: Outcome)
      requires DecodesAsJournal(config, Journal(journal)) && Quiescent(base)
      requires disk.files == Prepared(base, journal, reached)
      modifies disk
      ensures o == RolledBack || o == RollbackFailed || o == Died
      ensures TakenBack(config, base, journal, reached, old(disk.faults), disk.files)
      ensures o.RolledBack? <==> FirstFault(old(disk.faults), |journal.entries|) == |journal.entries|
    {
      BackupsStay(config, base, journal, disk.files);
      BackupDeletesAdmissible(config, journal, disk.files);
      BackupsTakenBack(config, base, journal, reached, disk.files);
      var tidied := disk.ApplyBatch(config.leq, BackupDeletes(journal.entries), MAX_BATCH, false);
      o := if tidied == Applied then RolledBack else if tidied == Died then Died else RollbackFailed;
    }

    method CleanupOrphanBackups() returns (o: Outcome)
      requires |Orphans(disk.files, 0)| <= MAX_VERSIONS
      modifies disk
      ensures !o.Rejected?
      ensures RanTo(old(disk.files), old(disk.faults), InPathOrder(config.leq, Orphans(old(disk.files), 0)), o, disk.files, disk.faults)
      ensures LeftByScript(old(disk.files), InPathOrder(config.leq, Orphans(old(disk.files), 0)), old(disk.faults), false, disk.files)
      ensures o.Applied? ==> disk.files == WithoutOrphans(old(disk.files))
      ensures o.Applied? <==> FirstFault(old(disk.faults), |Orphans(old(disk.files), 0)|) == |Orphans(old(disk.files), 0)|
    {
      var orphans := Orphans(disk.files, 0);
      if orphans == [] {
        return Applied;
      }
      OrphansAdmissible(disk.files);
      o := disk.ApplyBatch(config.leq, orphans, MAX_BATCH, false);
    }

    /** Leftover backups go, then the backups of this move are written, then its journal. */
    method StartMoveJournal(journal: MoveJournal) returns (o: Outcome)
      requires DecodesAsJournal(config, Journal(journal))
      requires JournalFile !in disk.files && |Orphans(disk.files, 0)| <= MAX_VERSIONS
      modifies disk
      ensures !o.Rejected?
      ensures
        var base := WithoutOrphans(old(disk.files));
        var orphans := InPathOrder(config.leq, Orphans(old(disk.files), 0));
        && Quiescent(base)
        && RanTo(old(disk.files), old(disk.faults), orphans + Prepare(config, journal), o, disk.files, disk.faults)
        && (o.Applied? ==> disk.files == Prepared(base, journal, true))
        && (!o.Applied? ==> LeftOnWay(config, old(disk.files), journal, old(disk.faults), disk.files))
    {
      ghost var start, script := disk.files, disk.faults;
      ghost var orphans := InPathOrder(config.leq, Orphans(start, 0));
      WithoutOrphansQuiescent(start);
      ghost var base := WithoutOrphans(start);
      o := CleanupOrphanBackups();
      if o != Applied {
        RanToShort(start, script, orphans, Prepare(config, journal), o, disk.files, disk.faults);
        return;
      }
      o := PrepareMove(journal, base);
      RanToThen(start, script, orphans, Prepare(config, journal), o, disk.files, disk.faults);
      if o != Applied {
        StoppedOnWay(config, start, orphans, base, journal, script, disk.files);
      }
    }

    /** The backups and then the journal. */
    method PrepareMove(journal: MoveJournal, ghost base: Files) returns (o: Outcome)
      requires DecodesAsJournal(config, Journal(journal)) && Quiescent(base) && disk.files == base
      modifies disk
      ensures !o.Rejected?
      ensures RanTo(base, old(disk.faults), Prepare(config, journal), o, disk.files, disk.faults)
      ensures PrepareLeft(config, base, journal, old(disk.faults), disk.files)
      ensures o.Applied? ==> disk.files == Prepared(base, journal, true)
    {
      ghost var script := disk.faults;
      o := WriteBackups(journal, base);
      if o != Applied {
        RanToShort(base, script, InPathOrder(config.leq, BackupWrites(journal.entries)), [JournalWrite(journal)], o, disk.files, disk.faults);
        return;
      }
      ghost var rest := disk.faults;
      o := WriteJournal(journal, base);
      BackedUpThenRan(config, base, journal, script, rest, |journal.entries|, o, disk.files, disk.faults);
      SkipSkip(script, |journal.entries|, 0);
      SkipSkip(script, |journal.entries|, 1);
      JournalStopped(config, base, journal, script, |journal.entries|, FaultAt(rest, 0), Skip(rest, 1), disk.files);
    }

    method WriteBackups(journal: MoveJournal, ghost base: Files) returns (o: Outcome)
      requires DecodesAsJournal(config, Journal(journal)) && Quiescent(base) && disk.files == base
      modifies disk
      ensures !o.Rejected?
      ensures RanTo(base, old(disk.faults), InPathOrder(config.leq, BackupWrites(journal.entries)), o, disk.files, disk.faults)
      ensures LeftByScript(base, InPathOrder(config.leq, BackupWrites(journal.entries)), old(disk.faults), false, disk.files)
      ensures o.Applied? ==>
        && disk.files == Prepared(base, journal, false) && disk.faults == Skip(old(disk.faults), |journal.entries|)
        && FirstFault(old(disk.faults), |journal.entries|) == |journal.entries|
    {
      BackupWritesAdmissible(config, journal, base);
      o := disk.ApplyBatch(config.leq, BackupWrites(journal.entries), MAX_BATCH, false);
    }

    /** After an ordinary failure the journal and the backups go, whether or not the rollback worked. */
    method AbandonMove(journal: MoveJournal, ghost base: Files, ghost start: Files, ghost f: nat, ghost fault: Fault, ghost rest: seq<Fault>, ghost failure: Outcome)
      requires EntriesPlanned(config, base, journal) && Quiescent(base) && Settled(base, journal, start)
      requires f < 2 * |journal.entries| && fault.Throws? && !failure.Died? && EndsAsUndone(rest, f, failure, disk.faults)
      requires LeftBy(start, InPathOrder(config.leq, MoveWrites(journal.entries)), f, fault, rest, false, disk.files)
      requires failure.RolledBack? ==> disk.files == WithStray(start, Stray(InPathOrder(config.leq, MoveWrites(journal.entries)), f, fault))
      modifies disk
      ensures BatchFailed(config, base, journal, start, f, fault, rest, disk.files)
    {
      ghost var middle := disk.files;
      BatchKeepsCleanup(config, base, journal, start, f, fault, rest, middle);
      SkipSkip(rest, f, 0);
      var tidied := CleanupMoveJournal(journal);
      Abandoned(config, base, journal, start, f, fault, rest, middle, failure, tidied == Applied, disk.files);
    }

    /** The creates and deletes of a journaled move, and the end of its journal. */
    method RunMove(journal: MoveJournal, ghost base: Files) returns (o: Outcome)
      requires EntriesPlanned(config, base, journal) && Quiescent(base)
      requires Settled(base, journal, disk.files)
      modifies disk
      ensures !o.Rejected?
      ensures RanTo(old(disk.files), old(disk.faults), Finish(config, journal), o, disk.files, disk.faults)
      ensures FinishLeft(config, base, journal, old(disk.files), old(disk.faults), disk.files)
    {
      ghost var start, script := disk.files, disk.faults;
      MoveAdmissible(config, base, journal, start);
      o := disk.ApplyBatch(config.leq, MoveWrites(journal.entries), MAX_BATCH, false);
      if o == Applied {
        o := EndWrittenMove(journal, base, start, script);
      } else {
        EndFailedMove(journal, base, start, script, FirstFault(script, |MoveWrites(journal.entries)|), o);
      }
    }

    /** The batch worked: its journal goes, which commits the move, and then the backups. */
    method EndWrittenMove(journal: MoveJournal, ghost base: Files, ghost start: Files, ghost script: seq<Fault>) returns (o: Outcome)
      requires EntriesPlanned(config, base, journal) && Quiescent(base) && Settled(base, journal, start)
      requires disk.files == Apply(start, MoveWrites(journal.entries))
      requires FirstFault(script, |MoveWrites(journal.entries)|) == |MoveWrites(journal.entries)|
      requires disk.faults == Skip(script, |MoveWrites(journal.entries)|)
      modifies disk
      ensures !o.Rejected?
      ensures RanTo(start, script, Finish(config, journal), o, disk.files, disk.faults)
      ensures BatchWritten(base, journal, start, disk.files)
    {
      ghost var writes := InPathOrder(config.leq, MoveWrites(journal.entries));
      CompletedMove(config, base, journal, start);
      MoveInAnyOrder(config, journal, start);
      o := CleanupMoveJournal(journal);
      CleanedMoveIsRecoverable(config, base, journal, start, true, disk.files);
      RanToThen(start, script, writes, Cleanup(config, journal), o, disk.files, disk.faults);
    }

    /** The batch failed: dead, it leaves its journal; otherwise the journal goes. */
    method EndFailedMove(journal: MoveJournal, ghost base: Files, ghost start: Files, ghost script: seq<Fault>, ghost f: nat, failure: Outcome)
      requires EntriesPlanned(config, base, journal) && Quiescent(base) && Settled(base, journal, start)
      requires f == FirstFault(script, |MoveWrites(journal.entries)|) < |MoveWrites(journal.entries)| && !failure.Rejected?
      requires RanTo(start, script, InPathOrder(config.leq, MoveWrites(journal.entries)), failure, disk.files, disk.faults)
      requires LeftBy(start, InPathOrder(config.leq, MoveWrites(journal.entries)), f, FaultAt(script, f), Skip(script, f + 1), false, disk.files)
      requires FaultAt(script, f).Throws? ==> EndsAsUndone(Skip(script, f + 1), f, failure, disk.faults)
      requires FaultAt(script, f).Throws? && failure.RolledBack? ==>
        disk.files == WithStray(start, Stray(InPathOrder(config.leq, MoveWrites(journal.entries)), f, FaultAt(script, f)))
      modifies disk
      ensures RanTo(start, script, Finish(config, journal), failure, disk.files, disk.faults)
      ensures BatchFailed(config, base, journal, start, f, FaultAt(script, f), Skip(script, f + 1), disk.files)
    {
      ghost var writes := InPathOrder(config.leq, MoveWrites(journal.entries));
      if failure == Died {
        DiedInBatch(config, base, journal, start, f, FaultAt(script, f), Skip(script, f + 1), disk.files);
      } else {
        AbandonMove(journal, base, start, f, FaultAt(script, f), Skip(script, f + 1), failure);
      }
      RanToShort(start, script, writes, Cleanup(config, journal), failure, disk.files, disk.faults);
    }

    /** All versions of an identity in a valid catalogue. */
    method RequireLineage(id: string) returns (r: Result<seq<Entity>>)
      ensures r.Ok? ==>
        && CatalogValid(config, DocsOf(disk.files)) && Identities.IsPrefixedIdentity(id, config.prefix, 5)
        && IsLineage(r.value, DocsOf(disk.files), id)
        && forall m :: IsLineage(m, DocsOf(disk.files), id) ==> m == r.value
      ensures r.Err? ==>
        !(CatalogValid(config, DocsOf(disk.files)) && Identities.IsPrefixedIdentity(id, config.prefix, 5) && HasId(DocsOf(disk.files), id))
    {
      if !Identities.IsPrefixedIdentity(id, config.prefix, 5) {
        return Err(Schema);
      }
      var catalog := Discover(config, disk.files);
      if catalog.Err? {
        return Err(catalog.error);
      }
      if id !in catalog.value.byId {
        return Err(Schema);
      }
      LineageUnique(DocsOf(disk.files), id, catalog.value.byId[id]);
      r := Ok(catalog.value.byId[id]);
    }

    /** The lineage a move may take, or why it may not. */
    method RequireMovableLineage(id: string, revision: Revision<Content>, destination: Location, links: set<Path>)
      returns (r: Result<seq<Entity>>)
      ensures r.Ok? ==> MayMove(config, DocsOf(disk.files), links, id, revision, destination, r.value)
      ensures r.Err? ==> forall l :: !MayMove(config, DocsOf(disk.files), links, id, revision, destination, l)
    {
      r := RequireLineage(id);
      if r.Err? {
        NoLineageToMove(config, DocsOf(disk.files), links, id, revision, destination);
        return;
      }
      var l := r.value;
      if !LiesIn(l, Other(destination)) {
        return Err(IdentityAmbiguity);
      }
      if V1(l[|l| - 1].content) != revision {
        return Err(StaleRevision);
      }
      if destination == Archive && exists k :: 0 <= k < |l| && l[k].path in links {
        return Err(DomainInvariant);
      }
    }

    /** The batch of a move, a create and a delete for each version. */
    method MoveReplacements(id: string, l: seq<Entity>, destination: Location) returns (replacements: seq<Write>)
      requires |l| <= MAX_VERSIONS && forall k :: 0 <= k < |l| ==> l[k].content.Document?
      ensures replacements == MoveWrites(JournalOf(config, id, l, destination).entries)
    {
      ghost var entries := JournalOf(config, id, l, destination).entries;
      replacements := [];
      for k := 0 to |l|
        invariant replacements == MoveWrites(entries[..k])
      {
        assert entries[..k + 1][..k] == entries[..k];
        var target := DocumentPath(config, destination, l[k].content.metadata);
        replacements := replacements
          + [Replacement(target, Some(l[k].content), MustBeAbsent), Replacement(l[k].path, None, MustMatch(V1(l[k].content)))];
      }
      assert entries[..|l|] == entries;
    }

    /**
     Archive or restore a lineage. It is refused exactly when the caller may not move it;
     otherwise it carries out the planned move, and every account of `MoveSteps` applies.
     */
    method MoveLineage(id: string, revision: Revision<Content>, destination: Location, links: set<Path>)
      returns (o: Outcome, journal: Option<MoveJournal>)
      requires JournalFile !in disk.files
      modifies disk
      ensures o.Rejected? <==>
        || |Orphans(old(disk.files), 0)| > MAX_VERSIONS
        || forall l :: !MayMove(config, DocsOf(old(disk.files)), links, id, revision, destination, l)
      ensures o.Rejected? ==> disk.files == old(disk.files) && disk.faults == old(disk.faults) && journal == None
      ensures !o.Rejected? ==>
        && journal.Some?
        && Planned(config, WithoutOrphans(old(disk.files)), journal.value)
        && JournalsMove(config, DocsOf(old(disk.files)), links, id, revision, destination, journal.value)
        && RanTo(old(disk.files), old(disk.faults), InPathOrder(config.leq, Orphans(old(disk.files), 0)) + MoveSteps(config, journal.value), o, disk.files, disk.faults)
        && LeftOnWay(config, old(disk.files), journal.value, old(disk.faults), disk.files)
      ensures o.Applied? ==>
        && disk.files == Moved(WithoutOrphans(old(disk.files)), journal.value)
        && Step(config, links, DocsOf(old(disk.files)), MoveDoc(id, revision, destination), DocsOf(disk.files))
      // From a store without leftovers it is one event of the life of the store.
      ensures Quiescent(old(disk.files)) && !o.Rejected? ==>
        exists l :: MoveRan(config, old(disk.files), links, id, revision, destination, l, old(disk.faults), disk.files)
    {
      ghost var start, script := disk.files, disk.faults;
      ghost var base := WithoutOrphans(start);
      var lineage := RequireMovableLineage(id, revision, destination, links);
      if lineage.Err? {
        return Rejected(lineage.error), None;
      }
      if |Orphans(disk.files, 0)| > MAX_VERSIONS {
        return Rejected(ResourceLimit), None;
      }
      var l := lineage.value;
      WithoutOrphansQuiescent(start);
      AllowedMoveIsPlanned(config, base, links, id, revision, destination, l);
      var drawn := JournalOf(config, id, l, destination);
      DrawnFor(config, DocsOf(start), links, id, revision, destination, l);
      journal := Some(drawn);
      var proposed := PlanMove(id, revision, l, destination, links);
      o := CarryOutMove(drawn);
      RanOnWay(config, start, links, id, revision, destination, l, script, disk.files);
      if o == Applied {
        StepsAreMoved(config, start, drawn);
        MoveIsStep(config, links, base, id, revision, destination, l);
      }
    }

    /** Journal, batch and cleanup of a planned move. */
    method CarryOutMove(journal: MoveJournal) returns (o: Outcome)
      requires JournalFile !in disk.files && |Orphans(disk.files, 0)| <= MAX_VERSIONS
      requires EntriesPlanned(config, WithoutOrphans(disk.files), journal)
      modifies disk
      ensures !o.Rejected?
      ensures RanTo(old(disk.files), old(disk.faults), InPathOrder(config.leq, Orphans(old(disk.files), 0)) + MoveSteps(config, journal), o, disk.files, disk.faults)
      ensures LeftOnWay(config, old(disk.files), journal, old(disk.faults), disk.files)
    {
      ghost var start, script := disk.files, disk.faults;
      ghost var base := WithoutOrphans(start);
      ghost var orphans := InPathOrder(config.leq, Orphans(start, 0));
      o := StartMoveJournal(journal);
      StepsInOrder(config, journal, orphans);
      if o != Applied {
        RanToShort(start, script, orphans + Prepare(config, journal), Finish(config, journal), o, disk.files, disk.faults);
        return;
      }
      PreparedOnWay(config, start, orphans, journal, script, disk.files, disk.faults);
      o := EndMove(journal, start, orphans, base, script, Skip(script, |orphans|), |journal.entries| + 1);
    }

    /** The rest of a move whose journal is there, as part of the whole. */
    method EndMove(journal: MoveJournal, ghost start: Files, ghost first: seq<Write>, ghost base: Files, ghost script: seq<Fault>, ghost after: seq<Fault>, ghost n: nat) returns (o: Outcome)
      requires EntriesPlanned(config, base, journal) && Quiescent(base)
      requires disk.files == Prepared(base, journal, true) == Apply(start, first + Prepare(config, journal))
      requires n == |journal.entries| + 1 && WorkedTwice(script, |first|, n, after, disk.faults)
      modifies disk
      ensures !o.Rejected?
      ensures RanTo(start, script, first + Prepare(config, journal) + Finish(config, journal), o, disk.files, disk.faults)
      ensures LeftAfter(config, start, first, base, journal, script, disk.files)
    {
      ghost var prepared, rest := disk.files, disk.faults;
      o := RunOnWay(journal, start, first, base, script, after, n);
      PreparedThenRan(config, start, first, journal, script, after, n, prepared, rest, o, disk.files, disk.faults);
    }

    method RunOnWay(journal: MoveJournal, ghost start: Files, ghost first: seq<Write>, ghost base: Files, ghost script: seq<Fault>, ghost after: seq<Fault>, ghost n: nat) returns (o: Outcome)
      requires EntriesPlanned(config, base, journal) && Quiescent(base)
      requires disk.files == Prepared(base, journal, true)
      requires n == |journal.entries| + 1 && WorkedTwice(script, |first|, n, after, disk.faults)
      modifies disk
      ensures !o.Rejected?
      ensures RanTo(old(disk.files), old(disk.faults), Finish(config, journal), o, disk.files, disk.faults)
      ensures LeftAfter(config, start, first, base, journal, script, disk.files)
    {
      ghost var prepared, rest := disk.files, disk.faults;
      o := RunPrepared(journal, base);
      FinishedOnWay(config, start, first, base, journal, script, after, n, prepared, rest, disk.files);
    }

    method RunPrepared(journal: MoveJournal, ghost base: Files) returns (o: Outcome)
      requires EntriesPlanned(config, base, journal) && Quiescent(base)
      requires disk.files == Prepared(base, journal, true)
      modifies disk
      ensures !o.Rejected?
      ensures RanTo(old(disk.files), old(disk.faults), Finish(config, journal), o, disk.files, disk.faults)
      ensures FinishLeft(config, base, journal, old(disk.files), old(disk.faults), disk.files)
    {
      ReadyToMove(config, base, journal);
      o := RunMove(journal, base);
    }

    /** Planning a move never refuses it: the catalogue it leads to is valid. */
    method PlanMove(id: string, revision: Revision<Content>, l: seq<Entity>, destination: Location, links: set<Path>)
      returns (proposed: Catalog)
      requires MayMove(config, DocsOf(disk.files), links, id, revision, destination, l) && |l| <= MAX_VERSIONS
      ensures Describes(proposed, DocsOf(Moved(disk.files, JournalOf(config, id, l, destination))))
    {
      var replacements := MoveReplacements(id, l, destination);
      PlannedMoveFits(config, disk.files, links, id, revision, destination, l);
      var catalog := Discover(config, disk.files);
      var r := ProposeCatalog(config, catalog.value, replacements, DocsOf(disk.files));
      proposed := r.value;
    }

    // ---- Creating, updating and versioning ----

    /** Plan a batch of document files and, if the plan is valid, write it. */
    method Commit(writes: seq<Write>) returns (o: Outcome)
      requires CatalogValid(config, DocsOf(disk.files))
      requires 1 <= |writes| <= 2 && DistinctPaths(writes) && forall w :: w in writes ==> w.path.DocumentFile?
      modifies disk
      ensures o.Rejected? <==> !Plannable(config, DocsOf(old(disk.files)), writes)
      ensures o.Rejected? ==> disk.files == old(disk.files) && disk.faults == old(disk.faults)
      ensures !o.Rejected? ==> Wrote(config, old(disk.files), old(disk.faults), writes, o, disk.files, disk.faults)
      // What was planned is what the disk then holds.
      ensures o.Applied? ==> DocsOf(disk.files) == Apply(DocsOf(old(disk.files)), writes)
      // Unless just one of two writes holds, all or nothing was written.
      ensures |writes| == 1 || !Halved(old(disk.faults)) ==> Whole(old(disk.files), writes, disk.files)
    {
      var refusal := RefusePlan(writes);
      if refusal.Some? {
        return Rejected(refusal.value);
      }
      o := WriteDocuments(writes);
    }

    method RefusePlan(writes: seq<Write>) returns (refusal: Option<Category>)
      requires CatalogValid(config, DocsOf(disk.files)) && DistinctPaths(writes)
      ensures refusal == None <==> Plannable(config, DocsOf(disk.files), writes)
    {
      var catalog := Discover(config, disk.files);
      var proposed := ProposeCatalog(config, catalog.value, writes, DocsOf(disk.files));
      refusal := if proposed.Err? then Some(proposed.error) else None;
    }

    method WriteDocuments(writes: seq<Write>) returns (o: Outcome)
      requires 1 <= |writes| <= 2 && DistinctPaths(writes) && forall w :: w in writes ==> w.path.DocumentFile?
      requires forall w :: w in writes ==> Expects(DocsOf(disk.files), w)
      modifies disk
      ensures !o.Rejected?
      ensures Wrote(config, old(disk.files), old(disk.faults), writes, o, disk.files, disk.faults)
      ensures o.Applied? ==> DocsOf(disk.files) == Apply(DocsOf(old(disk.files)), writes)
      ensures |writes| == 1 || !Halved(old(disk.faults)) ==> Whole(old(disk.files), writes, disk.files)
    {
      ghost var start, script := disk.files, disk.faults;
      DocumentBatchAdmissible(disk.files, writes);
      DocsOfApply(disk.files, writes);
      o := disk.ApplyBatch(config.leq, writes, MAX_BATCH, false);
      if o != Applied {
        EditLeft(config.leq, start, writes, script, disk.files);
      }
    }

    method RefuseCatalog() returns (refusal: Option<Category>)
      ensures refusal == None <==> CatalogValid(config, DocsOf(disk.files))
    {
      var catalog := Discover(config, disk.files);
      refusal := if catalog.Err? then Some(catalog.error) else None;
    }

    method CreateDocument(m: Metadata, body: string) returns (o: Outcome)
      requires m.version == 1
      modifies disk
      ensures o.Rejected? <==> !MayCreate(config, DocsOf(old(disk.files)), m, body)
      ensures o.Rejected? ==> disk.files == old(disk.files)
      ensures !o.Rejected? ==> Wrote(config, old(disk.files), old(disk.faults), CreateWrites(config, m, body), o, disk.files, disk.faults)
      ensures o.Applied? ==> Step(config, {}, DocsOf(old(disk.files)), CreateDoc(m, body), DocsOf(disk.files))
      ensures EditRan(config, {}, old(disk.files), CreateDoc(m, body), disk.files)
    {
      ghost var start := disk.files;
      var refusal := RefuseCatalog();
      if refusal.Some? {
        return Rejected(refusal.value);
      }
      if !Identities.IsPrefixedIdentity(m.id, config.prefix, 5) {
        return Rejected(Schema);
      }
      CreateAccepted(config, DocsOf(disk.files), m, body);
      o := Commit(CreateWrites(config, m, body));
      if !o.Rejected? {
        WholeEdit(config, {}, start, CreateDoc(m, body), CreateWrites(config, m, body), disk.files);
      }
    }

    /** The active lineage an edit may change, or why it may not. */
    method CurrentActive(id: string, revision: Revision<Content>) returns (r: Result<seq<Entity>>)
      ensures r.Ok? ==> MayEdit(config, DocsOf(disk.files), id, revision, r.value)
      ensures r.Ok? ==> forall l :: MayEdit(config, DocsOf(disk.files), id, revision, l) ==> l == r.value
      ensures r.Err? ==> forall l :: !MayEdit(config, DocsOf(disk.files), id, revision, l)
    {
      r := RequireLineage(id);
      if r.Err? {
        NoLineageToEdit(config, DocsOf(disk.files), id, revision);
        return;
      }
      var l := r.value;
      if !LiesIn(l, Active) {
        return Err(Schema);
      }
      if V1(l[|l| - 1].content) != revision {
        return Err(StaleRevision);
      }
    }

    /** An update renames its file only while no issue links to it. */
    method UpdateDocument(id: string, revision: Revision<Content>, changes: Changes, now: string, links: set<Path>) returns (o: Outcome)
      modifies disk
      ensures o.Rejected? <==> forall l :: !MayUpdate(config, DocsOf(old(disk.files)), links, id, revision, changes, now, l)
      ensures o.Rejected? ==> disk.files == old(disk.files)
      ensures !o.Rejected? ==>
        exists l ::
          && MayUpdate(config, DocsOf(old(disk.files)), links, id, revision, changes, now, l)
          && Wrote(config, old(disk.files), old(disk.faults), UpdateWrites(config, l[|l| - 1], changes, now), o, disk.files, disk.faults)
      ensures o.Applied? ==> Step(config, links, DocsOf(old(disk.files)), UpdateDoc(id, revision, changes, now), DocsOf(disk.files))
      // An update that renames its file may leave half of it.
      ensures !Halved(old(disk.faults)) || (forall l :: MayUpdate(config, DocsOf(old(disk.files)), links, id, revision, changes, now, l) ==> |UpdateWrites(config, l[|l| - 1], changes, now)| == 1) ==>
        EditRan(config, links, old(disk.files), UpdateDoc(id, revision, changes, now), disk.files)
    {
      var plan := PlanUpdate(id, revision, changes, now, links);
      if plan.Err? {
        return Rejected(plan.error);
      }
      o := CommitPlanned(plan.value, links, UpdateDoc(id, revision, changes, now));
    }

    /** The batch of an allowed update, or why it is refused. */
    method PlanUpdate(id: string, revision: Revision<Content>, changes: Changes, now: string, links: set<Path>)
      returns (r: Result<seq<Write>>)
      ensures r.Err? ==> forall l :: !MayUpdate(config, DocsOf(disk.files), links, id, revision, changes, now, l)
      ensures r.Ok? ==>
        && CanCommit(config, links, DocsOf(disk.files), UpdateDoc(id, revision, changes, now), r.value)
        && exists l :: MayUpdate(config, DocsOf(disk.files), links, id, revision, changes, now, l) && r.value == UpdateWrites(config, l[|l| - 1], changes, now)
    {
      var lineage := UpdatableLineage(id, revision, changes, now, links);
      if lineage.Err? {
        return Err(lineage.error);
      }
      var l := lineage.value;
      r := Ok(UpdateWrites(config, l[|l| - 1], changes, now));
      UpdateCommits(config, links, DocsOf(disk.files), id, revision, changes, now, l, r.value);
    }

    /** Write the planned batch of one operation. */
    method CommitPlanned(writes: seq<Write>, ghost links: set<Path>, ghost op: Operation) returns (o: Outcome)
      requires CanCommit(config, links, DocsOf(disk.files), op, writes)
      modifies disk
      ensures !o.Rejected? && Wrote(config, old(disk.files), old(disk.faults), writes, o, disk.files, disk.faults)
      ensures o.Applied? ==> Step(config, links, DocsOf(old(disk.files)), op, DocsOf(disk.files))
      ensures |writes| == 1 || !Halved(old(disk.faults)) ==> EditRan(config, links, old(disk.files), op, disk.files)
    {
      ghost var start, script := disk.files, disk.faults;
      o := Commit(writes);
      if |writes| == 1 || !Halved(script) {
        WholeEdit(config, links, start, op, writes, disk.files);
      }
    }

    method UpdatableLineage(id: string, revision: Revision<Content>, changes: Changes, now: string, links: set<Path>)
      returns (r: Result<seq<Entity>>)
      ensures r.Err? ==> forall l :: !MayUpdate(config, DocsOf(disk.files), links, id, revision, changes, now, l)
      ensures r.Ok? ==>
        && MayUpdate(config, DocsOf(disk.files), links, id, revision, changes, now, r.value)
        && Plannable(config, DocsOf(disk.files), UpdateWrites(config, r.value[|r.value| - 1], changes, now))
    {
      r := CurrentActive(id, revision);
      if r.Err? {
        return;
      }
      var l := r.value;
      var current := l[|l| - 1];
      UpdateAccepted(config, DocsOf(disk.files), id, revision, l, changes, now);
      if !Readable(config, Changed(current.content, changes, now, false)) {
        return Err(CanonicalForm);
      }
      if |UpdateWrites(config, current, changes, now)| == 2 && current.path in links {
        r := Err(DomainInvariant);
      }
    }

    /** The next version is accepted if it can be read back and the lineage and the catalogue have room. */
    method VersionDocument(id: string, revision: Revision<Content>, changes: Changes, now: string) returns (o: Outcome)
      modifies disk
      ensures o.Rejected? <==> forall l :: !MayVersion(config, DocsOf(old(disk.files)), id, revision, changes, now, l)
      ensures o.Rejected? ==> disk.files == old(disk.files)
      ensures !o.Rejected? ==>
        exists l ::
          && MayVersion(config, DocsOf(old(disk.files)), id, revision, changes, now, l)
          && Wrote(config, old(disk.files), old(disk.faults), VersionWrites(config, l[|l| - 1], changes, now), o, disk.files, disk.faults)
      ensures o.Applied? ==> Step(config, {}, DocsOf(old(disk.files)), AddVersion(id, revision, changes, now), DocsOf(disk.files))
      ensures EditRan(config, {}, old(disk.files), AddVersion(id, revision, changes, now), disk.files)
    {
      ghost var start := disk.files;
      ghost var docs := DocsOf(disk.files);
      var lineage := CurrentActive(id, revision);
      if lineage.Err? {
        return Rejected(lineage.error);
      }
      var l := lineage.value;
      VersionAccepted(config, docs, id, revision, l, changes, now);
      o := Commit(VersionWrites(config, l[|l| - 1], changes, now));
      if !o.Rejected? {
        assert MayVersion(config, docs, id, revision, changes, now, l);
        VersionStep(config, docs, id, revision, changes, now, l, Apply(docs, VersionWrites(config, l[|l| - 1], changes, now)));
        WholeEdit(config, {}, start, AddVersion(id, revision, changes, now), VersionWrites(config, l[|l| - 1], changes, now), disk.files);
      }
    }

    /**
     The public move: recovery first, then the move. Refused recovery changes nothing; a
     recovery or a move that fails is accounted for step by step; and a completed move is
     exactly the move of the recovered store in one step.
     */
    method ChangeLocation(id: string, revision: Revision<Content>, destination: Location, links: set<Path>)
      returns (o: Outcome, journal: Option<MoveJournal>)
      modifies disk
      ensures
        var plan := RecoveryPlan(config, old(disk.files), links);
        plan.Err? ==> o == Rejected(plan.error) && disk.files == old(disk.files) && journal == None
      ensures
        var plan := RecoveryPlan(config, old(disk.files), links);
        plan.Ok? && FirstFault(old(disk.faults), |plan.value|) < |plan.value| ==>
          && !o.Rejected? && journal == None && RecoveryLeft(old(disk.files), disk.files)
          && RanTo(old(disk.files), old(disk.faults), plan.value, o, disk.files, disk.faults)
      ensures
        var plan := RecoveryPlan(config, old(disk.files), links);
        plan.Ok? && FirstFault(old(disk.faults), |plan.value|) == |plan.value| ==>
          ChangedLocation(Apply(old(disk.files), plan.value), Skip(old(disk.faults), |plan.value|), o, journal, id, revision, destination, links)
    {
      journal := None;
      RecoverablePlan(links);
      o := Recover(links);
      if o == Applied {
        o, journal := MoveLineage(id, revision, destination, links);
      }
    }

    /** The move of a recovered store, as far as it went. */
    ghost predicate ChangedLocation(recovered: Files, script: seq<Fault>, o: Outcome, journal: Option<MoveJournal>, id: string, revision: Revision<Content>, destination: Location, links: set<Path>)
      reads disk
    {
      match journal
      case None =>
        && o.Rejected? && disk.files == recovered
        && (|Orphans(recovered, 0)| > MAX_VERSIONS || forall l :: !MayMove(config, DocsOf(recovered), links, id, revision, destination, l))
      case Some(j) =>
        && !o.Rejected? && JournalsMove(config, DocsOf(recovered), links, id, revision, destination, j) && Planned(config, WithoutOrphans(recovered), j)
        && RanTo(recovered, script, InPathOrder(config.leq, Orphans(recovered, 0)) + MoveSteps(config, j), o, disk.files, disk.faults)
        && LeftOnWay(config, recovered, j, script, disk.files)
        && (Quiescent(recovered) ==> exists l :: MoveRan(config, recovered, links, id, revision, destination, l, script, disk.files))
        && (o.Applied? ==> disk.files == Moved(WithoutOrphans(recovered), j))
    }

    lemma RecoverablePlan(links: set<Path>)
      ensures RecoveryPlan(config, disk.files, links).Ok? ==>
        JournalFile !in Apply(disk.files, RecoveryPlan(config, disk.files, links).value)
    {
      if RecoveryPlan(config, disk.files, links).Ok? {
        RecoveredHasNoJournal(config, disk.files, links);
      }
    }
  }
}
