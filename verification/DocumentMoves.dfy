/**
 The journaled move of a document lineage and the recovery that every later
 operation runs first. A move writes backups, then a journal, then the batch of
 creates and deletes, then deletes the journal and finally the backups.
 */
module DocumentMoves {
  import opened Wrappers
  import opened FileBatches
  import opened DocumentCatalog
  import Identities

  // ---- What a move writes ----

  function ContentOf(e: MoveEntry): Content { e.revision.bytes }

  function BackupWrites(entries: seq<MoveEntry>): seq<Write> {
    seq(|entries|, i requires 0 <= i < |entries| => Replacement(entries[i].backup, Some(ContentOf(entries[i])), MustBeAbsent))
  }

  function JournalWrite(journal: MoveJournal): Write {
    Replacement(JournalFile, Some(Journal(journal)), MustBeAbsent)
  }

  function Create(e: MoveEntry): Write { Replacement(e.destination, Some(ContentOf(e)), MustBeAbsent) }

  function Delete(e: MoveEntry): Write { Replacement(e.source, None, MustMatch(e.revision)) }

  /** For each version, create the destination and delete the source. */
  function MoveWrites(entries: seq<MoveEntry>): (w: seq<Write>)
    ensures |w| == 2 * |entries|
  {
    if entries == [] then []
    else
      var e := entries[|entries| - 1];
      MoveWrites(entries[..|entries| - 1]) + [Create(e), Delete(e)]
  }

  function JournalDelete(journal: MoveJournal): Write {
    Replacement(JournalFile, None, MustMatch(V1(Journal(journal))))
  }

  function BackupDeletes(entries: seq<MoveEntry>): seq<Write> {
    seq(|entries|, i requires 0 <= i < |entries| => Replacement(entries[i].backup, None, MustMatch(entries[i].revision)))
  }

  /** Every step of a move that starts without leftovers, in the order of the disk writes. */
  function MoveSteps(config: StorageConfig, journal: MoveJournal): seq<Write> {
    Prepare(config, journal) + Finish(config, journal)
  }

  function Prepare(config: StorageConfig, journal: MoveJournal): (w: seq<Write>)
    ensures |w| == |journal.entries| + 1
  {
    InPathOrder(config.leq, BackupWrites(journal.entries)) + [JournalWrite(journal)]
  }

  function Finish(config: StorageConfig, journal: MoveJournal): (w: seq<Write>)
    ensures |w| == 2 * |journal.entries| + |Cleanup(config, journal)|
  {
    InPathOrder(config.leq, MoveWrites(journal.entries)) + Cleanup(config, journal)
  }

  function Cleanup(config: StorageConfig, journal: MoveJournal): seq<Write> {
    [JournalDelete(journal)] + InPathOrder(config.leq, BackupDeletes(journal.entries))
  }

  /** The number of steps before the journal is deleted. */
  function CommitPoint(journal: MoveJournal): nat {
    |journal.entries| + 1 + 2 * |journal.entries|
  }

  /** The specification of the whole protocol: the lineage changes place in one step. */
  function Moved(files: Files, journal: MoveJournal): Files {
    Apply(files, MoveWrites(journal.entries))
  }

  // ---- What recovery writes ----

  /** Leftover backups without a journal, in the order of their names. */
  function Orphans(files: Files, from: nat): (w: seq<Write>)
    requires from <= 1000
    decreases 1000 - from
  {
    if from == 1000 then []
    else if BackupFile(from) in files then
      [Replacement(BackupFile(from), None, MustMatch(V1(files[BackupFile(from)])))] + Orphans(files, from + 1)
    else Orphans(files, from + 1)
  }

  predicate DecodesAsJournal(config: StorageConfig, c: Content) {
    && c.Journal?
    && Identities.IsPrefixedIdentity(c.journal.id, config.prefix, 5)
    && c.journal.source != c.journal.destination
    && 0 < |c.journal.entries| <= MAX_VERSIONS
    && forall i :: 0 <= i < |c.journal.entries| ==> EntryDecodes(c.journal.entries, i)
  }

  predicate EntryDecodes(entries: seq<MoveEntry>, i: nat)
    requires i < |entries| <= MAX_VERSIONS
  {
    && entries[i].backup == BackupFile(i + 1)
    && entries[i].source.DocumentFile?
    && entries[i].destination.DocumentFile?
  }

  /** The backup is the journaled revision at the journaled paths, and neither path holds anything else. */
  predicate EntryRecoverable(config: StorageConfig, files: Files, journal: MoveJournal, e: MoveEntry) {
    && e.backup in files
    && files[e.backup].Document?
    && V1(files[e.backup]) == e.revision
    && var m := files[e.backup].metadata;
       && m.id == journal.id
       && Identities.IsPrefixedIdentity(m.id, config.prefix, 5)
       && e.source == DocumentPath(config, journal.source, m)
       && e.destination == DocumentPath(config, journal.destination, m)
       && (e.source in files ==> V1(files[e.source]) == e.revision)
       && (e.destination in files ==> V1(files[e.destination]) == e.revision)
  }

  function PutBack(files: Files, e: MoveEntry): Write {
    Replacement(e.source, Some(ContentOf(e)), if e.source in files then MustMatch(V1(files[e.source])) else MustBeAbsent)
  }

  function Withdraw(files: Files, e: MoveEntry): seq<Write> {
    if e.destination in files then [Replacement(e.destination, None, MustMatch(V1(files[e.destination])))] else []
  }

  /** Put every version back at its source and delete its destination if it is there. */
  function RollbackWrites(files: Files, entries: seq<MoveEntry>): seq<Write> {
    if entries == [] then []
    else
      var e := entries[|entries| - 1];
      RollbackWrites(files, entries[..|entries| - 1]) + ([PutBack(files, e)] + Withdraw(files, e))
  }

  /** The overlay under which recovery validates the tree it is about to write. */
  function OverlayWrites(entries: seq<MoveEntry>): seq<Write> {
    if entries == [] then []
    else
      var e := entries[|entries| - 1];
      OverlayWrites(entries[..|entries| - 1])
      + [Replacement(e.source, Some(ContentOf(e)), Unchecked), Replacement(e.destination, None, Unchecked)]
  }

  /** Every document an issue links to is an active document of the catalogue. */
  predicate LinksResolve(docs: Files, links: set<Path>) {
    forall l :: l in links ==> l in docs && l.DocumentFile? && l.location == Active
  }

  /** What recovery will write from this state of the disk, or why it refuses. */
  ghost function RecoveryPlan(config: StorageConfig, files: Files, links: set<Path>): Result<seq<Write>> {
    if JournalFile !in files then PlanWithoutJournal(config, files, links)
    else if !DecodesAsJournal(config, files[JournalFile]) then Err(Schema)
    else PlanWithJournal(config, files, files[JournalFile].journal, links)
  }

  ghost function PlanWithoutJournal(config: StorageConfig, files: Files, links: set<Path>): Result<seq<Write>> {
    var orphans := Orphans(files, 0);
    if |orphans| > MAX_VERSIONS then Err(ResourceLimit)
    else if !LinksResolve(DocsOf(files), links) then Err(Synchronization)
    else if orphans == [] then Ok([])
    else if !CatalogValid(config, DocsOf(files)) then Err(PathSafety)
    else Ok(InPathOrder(config.leq, orphans))
  }

  ghost function PlanWithJournal(config: StorageConfig, files: Files, journal: MoveJournal, links: set<Path>): Result<seq<Write>> {
    var rollback := RollbackWrites(files, journal.entries);
    var overlaid := Apply(DocsOf(files), OverlayWrites(journal.entries));
    if exists e :: e in journal.entries && !EntryRecoverable(config, files, journal, e) then Err(Durability)
    else if !LinksResolve(overlaid, links) then Err(Synchronization)
    else if !CatalogValid(config, overlaid) || !DistinctPaths(rollback) then Err(PathSafety)
    else Ok(InPathOrder(config.leq, rollback) + Cleanup(config, journal))
  }

  // ---- The states a move can leave behind ----

  ghost predicate Quiescent(files: Files) {
    JournalFile !in files && forall i: BackupIndex :: BackupFile(i) !in files
  }

  /** The journal describes a move that is possible from this quiescent, valid store. */
  ghost predicate Planned(config: StorageConfig, base: Files, journal: MoveJournal) {
    && Quiescent(base)
    && CatalogValid(config, DocsOf(base))
    && CatalogValid(config, DocsOf(Moved(base, journal)))
    && EntriesPlanned(config, base, journal)
  }

  ghost predicate EntriesPlanned(config: StorageConfig, base: Files, journal: MoveJournal) {
    && DecodesAsJournal(config, Journal(journal))
    && EntriesApart(journal.entries)
    && forall e :: e in journal.entries ==> EntryPlanned(config, base, journal, e)
  }

  ghost predicate EntryPlanned(config: StorageConfig, base: Files, journal: MoveJournal, e: MoveEntry) {
    && ContentOf(e).Document?
    && ContentOf(e).metadata.id == journal.id
    && e.source == DocumentPath(config, journal.source, ContentOf(e).metadata)
    && e.destination == DocumentPath(config, journal.destination, ContentOf(e).metadata)
    && Get(base, e.source) == Some(ContentOf(e))
    && e.destination !in base
  }

  ghost predicate EntriesApart(entries: seq<MoveEntry>) {
    && (forall i, j :: 0 <= i < j < |entries| ==> entries[i].source != entries[j].source)
    && (forall i, j :: 0 <= i < j < |entries| ==> entries[i].destination != entries[j].destination)
    && (forall i, j :: 0 <= i < |entries| && 0 <= j < |entries| ==> entries[i].source != entries[j].destination)
  }

  ghost predicate BackupsOf(entries: seq<MoveEntry>, s: Files) {
    forall i: BackupIndex :: BackupFile(i) in s ==>
      1 <= i <= |entries| && s[BackupFile(i)] == ContentOf(entries[i - 1])
  }

  /** The base store, with perhaps some backups of this move left over. */
  ghost predicate OnlyBackups(base: Files, entries: seq<MoveEntry>, s: Files) {
    && Quiescent(base)
    && BackupsOf(entries, s)
    && forall p: Path {:trigger Get(s, p)} :: !p.BackupFile? ==> Get(s, p) == Get(base, p)
  }

  ghost predicate Journaled(journal: MoveJournal, s: Files) {
    && Get(s, JournalFile) == Some(Journal(journal))
    && BackupsOf(journal.entries, s)
    && forall e :: e in journal.entries ==> Get(s, e.backup) == Some(ContentOf(e))
  }

  /** Journal and backups complete; each version at its source, its destination, both or neither. */
  ghost predicate MidMove(base: Files, journal: MoveJournal, s: Files) {
    && Journaled(journal, s)
    && (forall e :: e in journal.entries ==>
          && (Get(s, e.source) == None || Get(s, e.source) == Some(ContentOf(e)))
          && (Get(s, e.destination) == None || Get(s, e.destination) == Some(ContentOf(e))))
    && forall p: Path {:trigger Get(s, p)} :: p.DocumentFile? && Untouched(journal.entries, p) ==> Get(s, p) == Get(base, p)
  }

  /** Journal and backups complete, and the documents are those of `base`. */
  ghost predicate Settled(base: Files, journal: MoveJournal, s: Files) {
    && Journaled(journal, s)
    && forall p: Path {:trigger Get(s, p)} :: p.DocumentFile? ==> Get(s, p) == Get(base, p)
  }

  ghost predicate Untouched(entries: seq<MoveEntry>, p: Path) {
    forall e :: e in entries ==> e.source != p && e.destination != p
  }

  /** Each version exists with its exact bytes at its source, its destination or its backup. */
  ghost predicate Survives(entries: seq<MoveEntry>, s: Files) {
    forall e :: e in entries ==>
      var c := Some(ContentOf(e));
      Get(s, e.source) == c || Get(s, e.destination) == c || Get(s, e.backup) == c
  }

  // ---- Paths of the batches ----

  lemma {:induction false} MoveWritesAre(entries: seq<MoveEntry>)
    ensures forall e :: e in entries ==> Create(e) in MoveWrites(entries) && Delete(e) in MoveWrites(entries)
    ensures forall w :: w in MoveWrites(entries) ==> exists e :: e in entries && (w == Create(e) || w == Delete(e))
  {
    if entries != [] {
      var init, last := entries[..|entries| - 1], entries[|entries| - 1];
      assert entries == init + [last];
      MoveWritesAre(init);
    }
  }

  lemma ApartPrefix(entries: seq<MoveEntry>, n: nat)
    requires EntriesApart(entries) && n <= |entries|
    ensures EntriesApart(entries[..n])
    ensures n < |entries| ==> forall e :: e in entries[..n] ==>
      && e.source != entries[n].source && e.source != entries[n].destination
      && e.destination != entries[n].source && e.destination != entries[n].destination
  {
  }

  lemma {:induction false} MoveWritesDistinct(entries: seq<MoveEntry>)
    requires EntriesApart(entries)
    ensures DistinctPaths(MoveWrites(entries))
  {
    if entries != [] {
      var n := |entries| - 1;
      ApartPrefix(entries, n);
      MoveWritesDistinct(entries[..n]);
      MoveWritesAre(entries[..n]);
      DistinctConcat(MoveWrites(entries[..n]), [Create(entries[n]), Delete(entries[n])]);
    }
  }

  lemma MovedGet(base: Files, journal: MoveJournal)
    requires EntriesApart(journal.entries)
    ensures forall e :: e in journal.entries ==>
      Get(Moved(base, journal), e.destination) == Some(ContentOf(e)) && Get(Moved(base, journal), e.source) == None
    ensures forall p: Path {:trigger Get(Moved(base, journal), p)} ::
      Untouched(journal.entries, p) ==> Get(Moved(base, journal), p) == Get(base, p)
  {
    var w := MoveWrites(journal.entries);
    MoveWritesDistinct(journal.entries);
    MoveWritesAre(journal.entries);
    forall e | e in journal.entries
      ensures Get(Moved(base, journal), e.destination) == Some(ContentOf(e)) && Get(Moved(base, journal), e.source) == None
    {
      ApplyIn(base, w, Create(e));
      ApplyIn(base, w, Delete(e));
    }
    forall p: Path | Untouched(journal.entries, p) ensures Get(Moved(base, journal), p) == Get(base, p) {
      WritesMiss(w, p);
      ApplyElsewhere(base, w, p);
    }
  }

  lemma WritesMiss(writes: seq<Write>, p: Path)
    requires forall w :: w in writes ==> w.path != p
    ensures forall i :: 0 <= i < |writes| ==> writes[i].path != p
  {
    forall i | 0 <= i < |writes| ensures writes[i].path != p {
      assert writes[i] in writes;
    }
  }

  /** Only document files are touched, so a move keeps a store quiescent. */
  lemma MovedQuiescent(base: Files, journal: MoveJournal)
    requires EntriesApart(journal.entries) && Quiescent(base)
    requires forall e :: e in journal.entries ==> e.source.DocumentFile? && e.destination.DocumentFile?
    ensures Quiescent(Moved(base, journal))
  {
    MovedGet(base, journal);
    assert Get(Moved(base, journal), JournalFile) == None;
    forall i: BackupIndex ensures BackupFile(i) !in Moved(base, journal) {
      assert Get(Moved(base, journal), BackupFile(i)) == None;
    }
  }

  lemma BackupPaths(config: StorageConfig, journal: MoveJournal)
    requires DecodesAsJournal(config, Journal(journal))
    ensures DistinctPaths(BackupWrites(journal.entries)) && DistinctPaths(BackupDeletes(journal.entries))
    ensures forall e :: e in journal.entries ==> e.backup.BackupFile? && e.source.DocumentFile? && e.destination.DocumentFile?
    ensures forall i :: 0 <= i < |journal.entries| ==> journal.entries[i].backup == BackupFile(i + 1)
  {
    var entries := journal.entries;
    forall i | 0 <= i < |entries| ensures entries[i].backup == BackupFile(i + 1) {
      assert EntryDecodes(entries, i);
    }
    forall e | e in entries ensures e.backup.BackupFile? && e.source.DocumentFile? && e.destination.DocumentFile? {
      var i :| 0 <= i < |entries| && entries[i] == e;
      assert EntryDecodes(entries, i);
    }
  }

  // ---- Before the journal ----

  lemma BackupPrefix(config: StorageConfig, base: Files, journal: MoveJournal, s: Files)
    requires Quiescent(base) && DecodesAsJournal(config, Journal(journal))
    requires Between(base, BackupWrites(journal.entries), s)
    ensures OnlyBackups(base, journal.entries, s)
  {
    var entries := journal.entries;
    var w := BackupWrites(entries);
    BackupPaths(config, journal);
    forall p: Path | !p.BackupFile? ensures Get(s, p) == Get(base, p) {
      assert forall i :: 0 <= i < |w| ==> w[i].path != p;
    }
    forall i: BackupIndex | BackupFile(i) in s
      ensures 1 <= i <= |entries| && s[BackupFile(i)] == ContentOf(entries[i - 1])
    {
      assert Get(s, BackupFile(i)) != Get(base, BackupFile(i));
      if j :| 0 <= j < |w| && w[j].path == BackupFile(i) {
        assert i == j + 1 && Get(s, w[j].path) == w[j].bytes;
      }
    }
  }

  lemma JournalWritten(config: StorageConfig, base: Files, journal: MoveJournal)
    requires Quiescent(base) && DecodesAsJournal(config, Journal(journal))
    ensures Settled(base, journal, Put(Apply(base, BackupWrites(journal.entries)), JournalFile, Some(Journal(journal))))
  {
    var entries := journal.entries;
    var w := BackupWrites(entries);
    var full := Apply(base, w);
    BackupPaths(config, journal);
    ApplyPrefixBetween(base, w, |w|);
    assert w[..|w|] == w;
    BackupPrefix(config, base, journal, full);
    var s := Put(full, JournalFile, Some(Journal(journal)));
    forall p: Path | p != JournalFile ensures Get(s, p) == Get(full, p) {}
    forall e | e in entries ensures Get(s, e.backup) == Some(ContentOf(e)) {
      var i :| 0 <= i < |entries| && entries[i] == e;
      ApplyAt(base, w, i);
    }
  }

  // ---- While the journal exists ----

  lemma SettledIsMidMove(config: StorageConfig, base: Files, journal: MoveJournal, s: Files)
    requires EntriesPlanned(config, base, journal) && Settled(base, journal, s)
    ensures MidMove(base, journal, s)
  {
    BackupPaths(config, journal);
    forall e | e in journal.entries
      ensures Get(s, e.source) == Some(ContentOf(e)) && Get(s, e.destination) == None
    {
      assert EntryPlanned(config, base, journal, e);
    }
  }

  /** Writing some of the creates and deletes keeps a store in the middle of its move. */
  lemma MovePrefix(config: StorageConfig, base: Files, journal: MoveJournal, s: Files, t: Files)
    requires DecodesAsJournal(config, Journal(journal)) && EntriesApart(journal.entries)
    requires MidMove(base, journal, s) && Between(s, MoveWrites(journal.entries), t)
    ensures MidMove(base, journal, t)
  {
    var w := MoveWrites(journal.entries);
    MoveWritesAre(journal.entries);
    BackupPaths(config, journal);
    KeepsOthers(journal, s, w, t);
    MovePrefixAll(journal.entries, s, w, t);
    KeptUntouched(base, journal, s, t);
  }

  lemma MovePrefixAll(entries: seq<MoveEntry>, s: Files, w: seq<Write>, t: Files)
    requires forall e :: e in entries ==> Create(e) in w && Delete(e) in w
    requires Between(s, w, t)
    requires forall e :: e in entries ==>
      && (Get(s, e.source) == None || Get(s, e.source) == Some(ContentOf(e)))
      && (Get(s, e.destination) == None || Get(s, e.destination) == Some(ContentOf(e)))
    ensures forall e :: e in entries ==>
      && (Get(t, e.source) == None || Get(t, e.source) == Some(ContentOf(e)))
      && (Get(t, e.destination) == None || Get(t, e.destination) == Some(ContentOf(e)))
  {
    forall e | e in entries
      ensures Get(t, e.source) == None || Get(t, e.source) == Some(ContentOf(e))
      ensures Get(t, e.destination) == None || Get(t, e.destination) == Some(ContentOf(e))
    {
      var i :| 0 <= i < |w| && w[i] == Create(e);
      var j :| 0 <= j < |w| && w[j] == Delete(e);
    }
  }

  /** A batch on the sources and destinations leaves journal, backups and other documents alone. */
  lemma KeepsOthers(journal: MoveJournal, s: Files, w: seq<Write>, t: Files)
    requires forall e :: e in journal.entries ==> e.backup.BackupFile? && e.source.DocumentFile? && e.destination.DocumentFile?
    requires forall x :: x in w ==> exists e :: e in journal.entries && (x.path == e.source || x.path == e.destination)
    requires Between(s, w, t)
    ensures forall p: Path {:trigger Get(t, p)} :: Untouched(journal.entries, p) ==> Get(t, p) == Get(s, p)
    ensures Journaled(journal, s) ==> Journaled(journal, t)
  {
    forall p: Path | Untouched(journal.entries, p) ensures Get(t, p) == Get(s, p) {
      WritesMiss(w, p);
    }
    if Journaled(journal, s) {
      assert Get(t, JournalFile) == Get(s, JournalFile);
      forall i: BackupIndex ensures Get(t, BackupFile(i)) == Get(s, BackupFile(i)) {
        assert Untouched(journal.entries, BackupFile(i));
      }
    }
  }

  /** The whole batch of creates and deletes takes the documents of `base` to those of `Moved`. */
  lemma MoveComplete(config: StorageConfig, base: Files, journal: MoveJournal, s: Files)
    requires DecodesAsJournal(config, Journal(journal)) && EntriesApart(journal.entries)
    requires Settled(base, journal, s)
    ensures Settled(Moved(base, journal), journal, Apply(s, MoveWrites(journal.entries)))
  {
    MoveKeepsJournal(config, journal, s);
    SameMove(base, journal, s);
    assert Apply(s, MoveWrites(journal.entries)) == Moved(s, journal);
  }

  lemma MoveKeepsJournal(config: StorageConfig, journal: MoveJournal, s: Files)
    requires DecodesAsJournal(config, Journal(journal)) && EntriesApart(journal.entries) && Journaled(journal, s)
    ensures Journaled(journal, Apply(s, MoveWrites(journal.entries)))
  {
    var w := MoveWrites(journal.entries);
    assert Between(s, w, Apply(s, w)) by {
      MoveWritesDistinct(journal.entries);
      ApplyBetween(s, w);
    }
    assert forall x :: x in w ==> exists e :: e in journal.entries && (x.path == e.source || x.path == e.destination) by {
      MoveWritesAre(journal.entries);
    }
    BackupPaths(config, journal);
    KeepsOthers(journal, s, w, Apply(s, w));
  }

  /** Stores with the same documents have the same documents after the move. */
  lemma SameMove(base: Files, journal: MoveJournal, s: Files)
    requires EntriesApart(journal.entries)
    requires forall p: Path {:trigger Get(s, p)} :: p.DocumentFile? ==> Get(s, p) == Get(base, p)
    ensures forall p: Path {:trigger Get(Moved(s, journal), p)} :: p.DocumentFile? ==> Get(Moved(s, journal), p) == Get(Moved(base, journal), p)
  {
    MovedGet(base, journal);
    MovedGet(s, journal);
    forall p: Path | p.DocumentFile? ensures Get(Moved(s, journal), p) == Get(Moved(base, journal), p) {
      if Untouched(journal.entries, p) {
        assert Get(Moved(s, journal), p) == Get(s, p);
        assert Get(Moved(base, journal), p) == Get(base, p);
      }
    }
  }

  // ---- After the journal ----

  lemma JournalDeleted(base: Files, journal: MoveJournal, s: Files)
    requires Quiescent(base) && Settled(base, journal, s)
    ensures OnlyBackups(base, journal.entries, Put(s, JournalFile, None))
  {
    var t := Put(s, JournalFile, None);
    forall p: Path | p != JournalFile ensures Get(t, p) == Get(s, p) {}
  }

  lemma BackupDeletesCover(config: StorageConfig, journal: MoveJournal, s: Files)
    requires DecodesAsJournal(config, Journal(journal)) && BackupsOf(journal.entries, s)
    ensures var d := BackupDeletes(journal.entries);
      && DistinctPaths(d)
      && (forall w :: w in d ==> w.path.BackupFile? && w.bytes == None)
      && forall i: BackupIndex :: BackupFile(i) in s ==> exists w :: w in d && w.path == BackupFile(i)
  {
    BackupPaths(config, journal);
    var d := BackupDeletes(journal.entries);
    forall i: BackupIndex | BackupFile(i) in s ensures exists w :: w in d && w.path == BackupFile(i) {
      assert d[i - 1] in d && d[i - 1].path == BackupFile(i);
    }
  }

  lemma CleanupPrefix(config: StorageConfig, base: Files, journal: MoveJournal, s: Files, k: nat)
    requires Quiescent(base) && DecodesAsJournal(config, Journal(journal))
    requires Settled(base, journal, s)
    requires 0 < k <= |Cleanup(config, journal)|
    ensures OnlyBackups(base, journal.entries, Apply(s, Cleanup(config, journal)[..k]))
    ensures k == |Cleanup(config, journal)| ==> Apply(s, Cleanup(config, journal)[..k]) == base
  {
    var d := BackupDeletes(journal.entries);
    var ordered := InPathOrder(config.leq, d);
    var t := Put(s, JournalFile, None);
    JournalDeleted(base, journal, s);
    BackupDeletesCover(config, journal, t);
    SortedPrefixBetween(config.leq, t, d, k - 1);
    DeletedPrefix(base, journal.entries, t, d, Apply(t, ordered[..k - 1]));
    CleanupSplits(config, journal, s, k);
    if k == |Cleanup(config, journal)| {
      AllDeleted(base, journal.entries, t, d);
    }
  }

  lemma CleanupSplits(config: StorageConfig, journal: MoveJournal, s: Files, k: nat)
    requires 0 < k <= |Cleanup(config, journal)|
    ensures
      var ordered := InPathOrder(config.leq, BackupDeletes(journal.entries));
      Apply(s, Cleanup(config, journal)[..k]) == Apply(Put(s, JournalFile, None), ordered[..k - 1])
  {
    var ordered := InPathOrder(config.leq, BackupDeletes(journal.entries));
    var first := [JournalDelete(journal)];
    ApplyOne(s, JournalDelete(journal));
    assert Cleanup(config, journal)[..k] == first + ordered[..k - 1];
    ApplyConcat(s, first, ordered[..k - 1]);
  }

  lemma DeletedPrefix(base: Files, entries: seq<MoveEntry>, s: Files, d: seq<Write>, t: Files)
    requires OnlyBackups(base, entries, s)
    requires forall w :: w in d ==> w.path.BackupFile? && w.bytes == None
    requires Between(s, d, t)
    ensures OnlyBackups(base, entries, t)
  {
    forall p: Path | !p.BackupFile? ensures Get(t, p) == Get(s, p) {
      WritesMiss(d, p);
    }
    forall i: BackupIndex | BackupFile(i) in t
      ensures 1 <= i <= |entries| && t[BackupFile(i)] == ContentOf(entries[i - 1])
    {
      if j :| 0 <= j < |d| && d[j].path == BackupFile(i) {
        assert d[j] in d && Get(t, d[j].path) == Get(s, d[j].path);
      } else {
        assert Get(t, BackupFile(i)) == Get(s, BackupFile(i));
      }
      assert Get(s, BackupFile(i)) == Get(t, BackupFile(i));
    }
  }

  lemma AllDeleted(base: Files, entries: seq<MoveEntry>, s: Files, d: seq<Write>)
    requires OnlyBackups(base, entries, s) && DistinctPaths(d)
    requires forall w :: w in d ==> w.path.BackupFile? && w.bytes == None
    requires forall i: BackupIndex :: BackupFile(i) in s ==> exists w :: w in d && w.path == BackupFile(i)
    ensures Apply(s, d) == base
  {
    forall p: Path ensures Get(Apply(s, d), p) == Get(base, p) {
      if w :| w in d && w.path == p {
        ApplyIn(s, d, w);
      } else {
        WritesMiss(d, p);
        ApplyElsewhere(s, d, p);
        assert p.BackupFile? ==> p !in s;
      }
    }
    SameGetSameFiles(Apply(s, d), base);
  }

  // ---- Recovery ----

  lemma {:induction false} OrphansAre(files: Files, from: nat, n: nat)
    requires from <= 1000
    requires forall i: BackupIndex :: BackupFile(i) in files ==> i <= n
    ensures forall w :: w in Orphans(files, from) ==>
      w.path.BackupFile? && from <= w.path.index && w.path in files && w.bytes == None
      && w.expected == MustMatch(V1(files[w.path]))
    ensures forall i: BackupIndex :: from <= i && BackupFile(i) in files ==> exists w :: w in Orphans(files, from) && w.path == BackupFile(i)
    ensures DistinctPaths(Orphans(files, from))
    ensures |Orphans(files, from)| <= if from <= n then n + 1 - from else 0
    decreases 1000 - from
  {
    if from < 1000 {
      OrphansAre(files, from + 1, n);
      if BackupFile(from) in files {
        var w := Replacement(BackupFile(from), None, MustMatch(V1(files[BackupFile(from)])));
        DistinctConcat([w], Orphans(files, from + 1));
        assert w in Orphans(files, from);
      }
      forall i: BackupIndex | from <= i && BackupFile(i) in files
        ensures exists w :: w in Orphans(files, from) && w.path == BackupFile(i)
      {
        if i != from {
          var w :| w in Orphans(files, from + 1) && w.path == BackupFile(i);
          assert w in Orphans(files, from);
        }
      }
    }
  }

  lemma NoBackupZero(s: Files, entries: seq<MoveEntry>)
    requires BackupsOf(entries, s)
    ensures Orphans(s, 0) == Orphans(s, 1)
  {
  }

  /** Without a journal, recovery removes the backups and nothing else, from whatever is left of them. */
  lemma OrphanRecovery(config: StorageConfig, base: Files, entries: seq<MoveEntry>, s: Files, links: set<Path>, k: nat)
    requires OnlyBackups(base, entries, s) && |entries| <= MAX_VERSIONS
    requires CatalogValid(config, DocsOf(base)) && LinksResolve(DocsOf(base), links)
    ensures RecoveryPlan(config, s, links).Ok?
    ensures Apply(s, RecoveryPlan(config, s, links).value) == base
    ensures k <= |RecoveryPlan(config, s, links).value| ==>
      OnlyBackups(base, entries, Apply(s, RecoveryPlan(config, s, links).value[..k]))
  {
    OrphanPlan(config, base, entries, s, links);
    var orphans := Orphans(s, 0);
    OrphansAre(s, 1, |entries|);
    NoBackupZero(s, entries);
    var ordered := InPathOrder(config.leq, orphans);
    SortedPrefixBetween(config.leq, s, orphans, |orphans|);
    assert ordered[..|ordered|] == ordered;
    OrphansCover(s, entries, orphans);
    AllDeleted(base, entries, s, orphans);
    if k <= |orphans| {
      SortedPrefixBetween(config.leq, s, orphans, k);
      DeletedPrefix(base, entries, s, orphans, Apply(s, ordered[..k]));
    }
  }

  lemma OrphanPlan(config: StorageConfig, base: Files, entries: seq<MoveEntry>, s: Files, links: set<Path>)
    requires OnlyBackups(base, entries, s) && |entries| <= MAX_VERSIONS
    requires CatalogValid(config, DocsOf(base))
    ensures RecoveryPlan(config, s, links)
         == if LinksResolve(DocsOf(base), links) then Ok(InPathOrder(config.leq, Orphans(s, 0))) else Err(Synchronization)
  {
    assert Get(s, JournalFile) == Get(base, JournalFile);
    FewOrphans(s, entries);
    SameDocs(base, s);
    PlanOfOrphans(config, s, links);
  }

  lemma FewOrphans(s: Files, entries: seq<MoveEntry>)
    requires BackupsOf(entries, s) && |entries| <= MAX_VERSIONS
    ensures |Orphans(s, 0)| <= MAX_VERSIONS
  {
    OrphansAre(s, 1, |entries|);
    NoBackupZero(s, entries);
  }

  lemma PlanOfOrphans(config: StorageConfig, s: Files, links: set<Path>)
    requires JournalFile !in s && |Orphans(s, 0)| <= MAX_VERSIONS
    requires CatalogValid(config, DocsOf(s))
    ensures RecoveryPlan(config, s, links)
         == if LinksResolve(DocsOf(s), links) then Ok(InPathOrder(config.leq, Orphans(s, 0))) else Err(Synchronization)
  {
  }

  lemma OrphansCover(s: Files, entries: seq<MoveEntry>, orphans: seq<Write>)
    requires BackupsOf(entries, s)
    requires forall i: BackupIndex :: 1 <= i && BackupFile(i) in s ==> exists w :: w in orphans && w.path == BackupFile(i)
    ensures forall i: BackupIndex :: BackupFile(i) in s ==> exists w :: w in orphans && w.path == BackupFile(i)
  {
  }

  lemma SameDocs(a: Files, b: Files)
    requires forall p: Path {:trigger Get(b, p)} :: p.DocumentFile? ==> Get(b, p) == Get(a, p)
    ensures DocsOf(a) == DocsOf(b)
  {
    forall p: Path ensures Get(DocsOf(a), p) == Get(DocsOf(b), p) {
      if p.DocumentFile? {
        assert Get(b, p) == Get(a, p);
      }
    }
    SameGetSameFiles(DocsOf(a), DocsOf(b));
  }

  lemma {:induction false} RollbackAre(files: Files, entries: seq<MoveEntry>)
    ensures forall e :: e in entries ==> PutBack(files, e) in RollbackWrites(files, entries)
    ensures forall e, w :: e in entries && w in Withdraw(files, e) ==> w in RollbackWrites(files, entries)
    ensures forall w :: w in RollbackWrites(files, entries) ==>
      exists e :: e in entries && (w == PutBack(files, e) || w in Withdraw(files, e))
    ensures |RollbackWrites(files, entries)| <= 2 * |entries|
  {
    if entries != [] {
      var init, last := entries[..|entries| - 1], entries[|entries| - 1];
      assert entries == init + [last];
      RollbackAre(files, init);
    }
  }

  lemma RollbackOfOne(files: Files, e: MoveEntry)
    requires e.source != e.destination
    ensures DistinctPaths([PutBack(files, e)] + Withdraw(files, e))
    ensures forall w :: w in [PutBack(files, e)] + Withdraw(files, e) ==> w.path == e.source || w.path == e.destination
  {
  }

  lemma RollbackApart(files: Files, init: seq<MoveEntry>, e: MoveEntry)
    requires forall f :: f in init ==> f.source !in {e.source, e.destination} && f.destination !in {e.source, e.destination}
    requires e.source != e.destination
    ensures forall v, w :: v in RollbackWrites(files, init) && w in [PutBack(files, e)] + Withdraw(files, e) ==> v.path != w.path
  {
    RollbackAre(files, init);
    RollbackOfOne(files, e);
    forall v | v in RollbackWrites(files, init) ensures v.path != e.source && v.path != e.destination {
      var f :| f in init && (v == PutBack(files, f) || v in Withdraw(files, f));
    }
  }

  lemma {:induction false} RollbackDistinct(files: Files, entries: seq<MoveEntry>)
    requires EntriesApart(entries)
    ensures DistinctPaths(RollbackWrites(files, entries))
  {
    if entries != [] {
      var n := |entries| - 1;
      ApartPrefix(entries, n);
      RollbackDistinct(files, entries[..n]);
      RollbackApart(files, entries[..n], entries[n]);
      RollbackOfOne(files, entries[n]);
      DistinctConcat(RollbackWrites(files, entries[..n]), [PutBack(files, entries[n])] + Withdraw(files, entries[n]));
    }
  }

  lemma {:induction false} OverlayGet(docs: Files, entries: seq<MoveEntry>)
    requires EntriesApart(entries)
    ensures forall e :: e in entries ==>
      && Get(Apply(docs, OverlayWrites(entries)), e.source) == Some(ContentOf(e))
      && Get(Apply(docs, OverlayWrites(entries)), e.destination) == None
    ensures forall p: Path {:trigger Get(Apply(docs, OverlayWrites(entries)), p)} ::
      Untouched(entries, p) ==> Get(Apply(docs, OverlayWrites(entries)), p) == Get(docs, p)
  {
    if entries != [] {
      var n := |entries| - 1;
      var init, e := entries[..n], entries[n];
      assert entries == init + [e];
      ApartPrefix(entries, n);
      OverlayGet(docs, init);
      var before := Apply(docs, OverlayWrites(init));
      var put, drop := Replacement(e.source, Some(ContentOf(e)), Unchecked), Replacement(e.destination, None, Unchecked);
      ApplyConcat(docs, OverlayWrites(init), [put, drop]);
      ApplyTwo(before, put, drop);
      OverlayStep(docs, init, e, before);
    }
  }

  lemma OverlayStep(docs: Files, init: seq<MoveEntry>, e: MoveEntry, before: Files)
    requires e.source != e.destination
    requires forall f :: f in init ==> f.source !in {e.source, e.destination} && f.destination !in {e.source, e.destination}
    requires forall f :: f in init ==> Get(before, f.source) == Some(ContentOf(f)) && Get(before, f.destination) == None
    requires forall p: Path {:trigger Get(before, p)} :: Untouched(init, p) ==> Get(before, p) == Get(docs, p)
    ensures
      var after := Put(Put(before, e.source, Some(ContentOf(e))), e.destination, None);
      && (forall f :: f in init + [e] ==> Get(after, f.source) == Some(ContentOf(f)) && Get(after, f.destination) == None)
      && forall p: Path {:trigger Get(after, p)} :: Untouched(init + [e], p) ==> Get(after, p) == Get(docs, p)
  {
    var after := Put(Put(before, e.source, Some(ContentOf(e))), e.destination, None);
    forall p: Path | p != e.source && p != e.destination ensures Get(after, p) == Get(before, p) {}
    forall p: Path | Untouched(init + [e], p) ensures Get(after, p) == Get(docs, p) {
      assert e in init + [e];
      assert Untouched(init, p);
      assert Get(before, p) == Get(docs, p);
    }
  }

  lemma EntriesRecoverable(config: StorageConfig, base: Files, journal: MoveJournal, s: Files)
    requires EntriesPlanned(config, base, journal) && MidMove(base, journal, s)
    ensures forall e :: e in journal.entries ==> EntryRecoverable(config, s, journal, e)
  {
    BackupPaths(config, journal);
    forall e | e in journal.entries ensures EntryRecoverable(config, s, journal, e) {
      EntryRecoverableAt(config, base, journal, s, e);
    }
  }

  lemma EntryRecoverableAt(config: StorageConfig, base: Files, journal: MoveJournal, s: Files, e: MoveEntry)
    requires EntryPlanned(config, base, journal, e)
    requires Identities.IsPrefixedIdentity(journal.id, config.prefix, 5)
    requires Get(s, e.backup) == Some(ContentOf(e))
    requires Get(s, e.source) == None || Get(s, e.source) == Some(ContentOf(e))
    requires Get(s, e.destination) == None || Get(s, e.destination) == Some(ContentOf(e))
    ensures EntryRecoverable(config, s, journal, e)
  {
    assert V1(ContentOf(e)) == e.revision;
  }

  /** The overlay recovery validates is the catalogue from before the move. */
  lemma OverlayIsBase(config: StorageConfig, base: Files, journal: MoveJournal, s: Files)
    requires EntriesPlanned(config, base, journal) && MidMove(base, journal, s)
    ensures Apply(DocsOf(s), OverlayWrites(journal.entries)) == DocsOf(base)
  {
    var overlaid := Apply(DocsOf(s), OverlayWrites(journal.entries));
    OverlayGet(DocsOf(s), journal.entries);
    BackupPaths(config, journal);
    forall p: Path ensures Get(overlaid, p) == Get(DocsOf(base), p) {
      if Untouched(journal.entries, p) {
        if p.DocumentFile? {
          assert Get(s, p) == Get(base, p);
        }
        assert Get(overlaid, p) == Get(DocsOf(s), p);
      } else {
        var e :| e in journal.entries && (p == e.source || p == e.destination);
        assert EntryPlanned(config, base, journal, e);
        assert Get(DocsOf(base), p) == Get(base, p);
      }
    }
    SameGetSameFiles(overlaid, DocsOf(base));
  }

  /** Sources lie on the side of the journal's source, destinations on the other. */
  lemma RecoverableApart(config: StorageConfig, s: Files, journal: MoveJournal)
    requires DecodesAsJournal(config, Journal(journal))
    requires forall e :: e in journal.entries ==> EntryRecoverable(config, s, journal, e)
    ensures forall e, f :: e in journal.entries && f in journal.entries ==> e.source != f.destination
    ensures forall e :: e in journal.entries ==> e.source.DocumentFile? && e.destination.DocumentFile?
  {
    forall e, f | e in journal.entries && f in journal.entries ensures e.source != f.destination {
      assert EntryRecoverable(config, s, journal, e) && EntryRecoverable(config, s, journal, f);
    }
    forall e | e in journal.entries ensures e.source.DocumentFile? && e.destination.DocumentFile? {
      assert EntryRecoverable(config, s, journal, e);
    }
  }

  /** Rolling back adds only sources. */
  lemma {:induction false} RollbackAddsSources(s: Files, entries: seq<MoveEntry>)
    ensures forall p :: p in Apply(s, RollbackWrites(s, entries)) ==> p in s || exists e :: e in entries && e.source == p
  {
    if entries != [] {
      var n := |entries| - 1;
      var init, e := entries[..n], entries[n];
      RollbackAddsSources(s, init);
      ApplyConcat(s, RollbackWrites(s, init), [PutBack(s, e)] + Withdraw(s, e));
      RollbackOfEntry(s, init, e);
      forall p | p in Apply(s, RollbackWrites(s, entries)) ensures p in s || exists f :: f in entries && f.source == p {
        if p == e.source {
          assert e in entries;
        } else if p !in s {
          var f :| f in init && f.source == p;
          assert f in entries;
        }
      }
    }
  }

  lemma RollbackOfEntry(s: Files, init: seq<MoveEntry>, e: MoveEntry)
    ensures
      var before := Apply(s, RollbackWrites(s, init));
      Apply(s, RollbackWrites(s, init) + ([PutBack(s, e)] + Withdraw(s, e)))
      == if e.destination in s then Put(Put(before, e.source, Some(ContentOf(e))), e.destination, None) else Put(before, e.source, Some(ContentOf(e)))
  {
    var before := Apply(s, RollbackWrites(s, init));
    ApplyConcat(s, RollbackWrites(s, init), [PutBack(s, e)] + Withdraw(s, e));
    if e.destination in s {
      ApplyTwo(before, PutBack(s, e), Withdraw(s, e)[0]);
      assert [PutBack(s, e)] + Withdraw(s, e) == [PutBack(s, e), Withdraw(s, e)[0]];
    } else {
      ApplyOne(before, PutBack(s, e));
      assert [PutBack(s, e)] + Withdraw(s, e) == [PutBack(s, e)];
    }
  }

  /** A destination that is not there needs no deletion. */
  lemma WithdrawnEntry(s: Files, init: seq<MoveEntry>, e: MoveEntry)
    requires e.source != e.destination && forall f :: f in init ==> f.source != e.destination
    ensures Apply(s, RollbackWrites(s, init) + ([PutBack(s, e)] + Withdraw(s, e)))
         == Put(Put(Apply(s, RollbackWrites(s, init)), e.source, Some(ContentOf(e))), e.destination, None)
  {
    RollbackAddsSources(s, init);
    RollbackOfEntry(s, init, e);
    var put := Put(Apply(s, RollbackWrites(s, init)), e.source, Some(ContentOf(e)));
    if e.destination !in s {
      assert e.destination !in put;
      assert put - {e.destination} == put;
    }
  }

  lemma OverlaidEntry(docs: Files, init: seq<MoveEntry>, e: MoveEntry)
    ensures Apply(docs, OverlayWrites(init) + [Replacement(e.source, Some(ContentOf(e)), Unchecked), Replacement(e.destination, None, Unchecked)])
         == Put(Put(Apply(docs, OverlayWrites(init)), e.source, Some(ContentOf(e))), e.destination, None)
  {
    var put, drop := Replacement(e.source, Some(ContentOf(e)), Unchecked), Replacement(e.destination, None, Unchecked);
    ApplyConcat(docs, OverlayWrites(init), [put, drop]);
    ApplyTwo(Apply(docs, OverlayWrites(init)), put, drop);
  }

  lemma DocsOfSwap(t: Files, e: MoveEntry)
    requires e.source.DocumentFile? && e.destination.DocumentFile?
    ensures DocsOf(Put(Put(t, e.source, Some(ContentOf(e))), e.destination, None))
         == Put(Put(DocsOf(t), e.source, Some(ContentOf(e))), e.destination, None)
  {
  }

  /** Rolling back writes what the overlay shows. */
  lemma {:induction false} RollbackShowsOverlay(s: Files, entries: seq<MoveEntry>)
    requires forall e, f :: e in entries && f in entries ==> e.source != f.destination
    requires forall e :: e in entries ==> e.source.DocumentFile? && e.destination.DocumentFile?
    ensures DocsOf(Apply(s, RollbackWrites(s, entries))) == Apply(DocsOf(s), OverlayWrites(entries))
  {
    if entries != [] {
      var n := |entries| - 1;
      var init, e := entries[..n], entries[n];
      assert e in entries && forall f :: f in init ==> f in entries;
      RollbackShowsOverlay(s, init);
      WithdrawnEntry(s, init, e);
      OverlaidEntry(DocsOf(s), init, e);
      DocsOfSwap(Apply(s, RollbackWrites(s, init)), e);
    }
  }

  lemma CleanupKeepsDocs(config: StorageConfig, journal: MoveJournal, t: Files)
    requires DecodesAsJournal(config, Journal(journal))
    ensures DocsOf(Apply(t, Cleanup(config, journal))) == DocsOf(t)
  {
    var d := BackupDeletes(journal.entries);
    var cleanup := Cleanup(config, journal);
    BackupPaths(config, journal);
    forall w | w in cleanup ensures !w.path.DocumentFile? {
      if w != JournalDelete(journal) {
        assert w in multiset(InPathOrder(config.leq, d)) && w in multiset(d);
        var i :| 0 <= i < |d| && d[i] == w;
        assert journal.entries[i].backup == BackupFile(i + 1);
      }
    }
    forall p: Path | p.DocumentFile? ensures Get(Apply(t, cleanup), p) == Get(t, p) {
      WritesMiss(cleanup, p);
      ApplyElsewhere(t, cleanup, p);
    }
    SameDocs(t, Apply(t, Cleanup(config, journal)));
  }

  /**
   The overlay recovery validates shows exactly the documents it then writes, for every
   journal it accepts, whoever wrote it; so what recovery leaves is a valid catalogue.
   */
  lemma OverlayIsRecovered(config: StorageConfig, s: Files, links: set<Path>)
    requires JournalFile in s && RecoveryPlan(config, s, links).Ok?
    ensures s[JournalFile].Journal?
    ensures DocsOf(Apply(s, RecoveryPlan(config, s, links).value)) == Apply(DocsOf(s), OverlayWrites(s[JournalFile].journal.entries))
    ensures CatalogValid(config, DocsOf(Apply(s, RecoveryPlan(config, s, links).value)))
  {
    var journal := s[JournalFile].journal;
    var rollback := RollbackWrites(s, journal.entries);
    var ordered := InPathOrder(config.leq, rollback);
    RecoverableApart(config, s, journal);
    RollbackShowsOverlay(s, journal.entries);
    ApplyPermuted(s, rollback, ordered);
    ApplyConcat(s, ordered, Cleanup(config, journal));
    CleanupKeepsDocs(config, journal, Apply(s, ordered));
  }

  lemma RollbackPrefix(config: StorageConfig, base: Files, journal: MoveJournal, s: Files, t: Files)
    requires DecodesAsJournal(config, Journal(journal)) && EntriesApart(journal.entries)
    requires MidMove(base, journal, s) && Between(s, RollbackWrites(s, journal.entries), t)
    ensures MidMove(base, journal, t)
  {
    var w := RollbackWrites(s, journal.entries);
    RollbackAre(s, journal.entries);
    BackupPaths(config, journal);
    KeepsOthers(journal, s, w, t);
    RollbackPrefixAll(journal.entries, s, w, t);
    KeptUntouched(base, journal, s, t);
  }

  lemma KeptUntouched(base: Files, journal: MoveJournal, s: Files, t: Files)
    requires forall p: Path {:trigger Get(t, p)} :: Untouched(journal.entries, p) ==> Get(t, p) == Get(s, p)
    requires forall p: Path {:trigger Get(s, p)} :: p.DocumentFile? && Untouched(journal.entries, p) ==> Get(s, p) == Get(base, p)
    ensures forall p: Path {:trigger Get(t, p)} :: p.DocumentFile? && Untouched(journal.entries, p) ==> Get(t, p) == Get(base, p)
  {
    forall p: Path | p.DocumentFile? && Untouched(journal.entries, p) ensures Get(t, p) == Get(base, p) {
      assert Get(t, p) == Get(s, p);
    }
  }

  lemma RollbackPrefixAll(entries: seq<MoveEntry>, s: Files, w: seq<Write>, t: Files)
    requires EntriesApart(entries)
    requires forall e :: e in entries ==> PutBack(s, e) in w
    requires forall e, x :: e in entries && x in Withdraw(s, e) ==> x in w
    requires forall x :: x in w ==> exists f :: f in entries && (x == PutBack(s, f) || x in Withdraw(s, f))
    requires Between(s, w, t)
    requires forall e :: e in entries ==>
      && (Get(s, e.source) == None || Get(s, e.source) == Some(ContentOf(e)))
      && (Get(s, e.destination) == None || Get(s, e.destination) == Some(ContentOf(e)))
    ensures forall e :: e in entries ==>
      && (Get(t, e.source) == None || Get(t, e.source) == Some(ContentOf(e)))
      && (Get(t, e.destination) == None || Get(t, e.destination) == Some(ContentOf(e)))
  {
    forall e | e in entries
      ensures Get(t, e.source) == None || Get(t, e.source) == Some(ContentOf(e))
      ensures Get(t, e.destination) == None || Get(t, e.destination) == Some(ContentOf(e))
    {
      RollbackPrefixAt(entries, s, w, t, e);
    }
  }

  lemma RollbackPrefixAt(entries: seq<MoveEntry>, s: Files, w: seq<Write>, t: Files, e: MoveEntry)
    requires EntriesApart(entries) && e in entries
    requires PutBack(s, e) in w && (forall x :: x in Withdraw(s, e) ==> x in w)
    requires forall x :: x in w ==> exists f :: f in entries && (x == PutBack(s, f) || x in Withdraw(s, f))
    requires Between(s, w, t)
    requires Get(s, e.source) == None || Get(s, e.source) == Some(ContentOf(e))
    requires Get(s, e.destination) == None || Get(s, e.destination) == Some(ContentOf(e))
    ensures Get(t, e.source) == None || Get(t, e.source) == Some(ContentOf(e))
    ensures Get(t, e.destination) == None || Get(t, e.destination) == Some(ContentOf(e))
  {
    var i :| 0 <= i < |w| && w[i] == PutBack(s, e);
    assert Get(t, w[i].path) == Get(s, w[i].path) || Get(t, w[i].path) == w[i].bytes;
    if e.destination in s {
      var x := Withdraw(s, e)[0];
      assert x in Withdraw(s, e);
      var j :| 0 <= j < |w| && w[j] == x;
      assert Get(t, w[j].path) == Get(s, w[j].path) || Get(t, w[j].path) == w[j].bytes;
    } else {
      WithdrawnStaysAway(entries, s, w, t, e);
    }
  }

  lemma WithdrawnStaysAway(entries: seq<MoveEntry>, s: Files, w: seq<Write>, t: Files, e: MoveEntry)
    requires EntriesApart(entries) && e in entries && e.destination !in s
    requires forall x :: x in w ==> exists f :: f in entries && (x == PutBack(s, f) || x in Withdraw(s, f))
    requires Between(s, w, t)
    ensures Get(t, e.destination) == None
  {
    forall x | x in w ensures x.path != e.destination {
      var f :| f in entries && (x == PutBack(s, f) || x in Withdraw(s, f));
      assert f.source != e.destination;
    }
    WritesMiss(w, e.destination);
    assert Get(t, e.destination) == Get(s, e.destination);
  }

  lemma RollbackComplete(config: StorageConfig, base: Files, journal: MoveJournal, s: Files)
    requires EntriesPlanned(config, base, journal) && MidMove(base, journal, s)
    ensures Settled(base, journal, Apply(s, RollbackWrites(s, journal.entries)))
  {
    var w := RollbackWrites(s, journal.entries);
    var t := Apply(s, w);
    RollbackDistinct(s, journal.entries);
    ApplyPrefixBetween(s, w, |w|);
    assert w[..|w|] == w;
    RollbackPrefix(config, base, journal, s, t);
    BackupPaths(config, journal);
    forall p: Path | p.DocumentFile? ensures Get(t, p) == Get(base, p) {
      if !Untouched(journal.entries, p) {
        var e :| e in journal.entries && (p == e.source || p == e.destination);
        assert EntryPlanned(config, base, journal, e);
        RolledBackAt(journal.entries, s, e);
      }
    }
  }

  lemma RolledBackAt(entries: seq<MoveEntry>, s: Files, e: MoveEntry)
    requires EntriesApart(entries) && e in entries
    ensures Get(Apply(s, RollbackWrites(s, entries)), e.source) == Some(ContentOf(e))
    ensures Get(Apply(s, RollbackWrites(s, entries)), e.destination) == None
  {
    RollbackDistinct(s, entries);
    assert PutBack(s, e) in RollbackWrites(s, entries) by {
      RollbackAre(s, entries);
    }
    ApplyIn(s, RollbackWrites(s, entries), PutBack(s, e));
    WithdrawnAt(entries, s, e);
  }

  lemma WithdrawnAt(entries: seq<MoveEntry>, s: Files, e: MoveEntry)
    requires EntriesApart(entries) && e in entries && DistinctPaths(RollbackWrites(s, entries))
    ensures Get(Apply(s, RollbackWrites(s, entries)), e.destination) == None
  {
    var w := RollbackWrites(s, entries);
    RollbackAre(s, entries);
    if e.destination in s {
      assert Withdraw(s, e)[0] in Withdraw(s, e);
      ApplyIn(s, w, Withdraw(s, e)[0]);
    } else {
      ApplyBetween(s, w);
      WithdrawnStaysAway(entries, s, w, Apply(s, w), e);
    }
  }

  lemma JournalPlan(config: StorageConfig, base: Files, journal: MoveJournal, s: Files, links: set<Path>)
    requires EntriesPlanned(config, base, journal) && MidMove(base, journal, s)
    requires CatalogValid(config, DocsOf(base))
    ensures RecoveryPlan(config, s, links)
         == if LinksResolve(DocsOf(base), links)
            then Ok(InPathOrder(config.leq, RollbackWrites(s, journal.entries)) + Cleanup(config, journal))
            else Err(Synchronization)
  {
    EntriesRecoverable(config, base, journal, s);
    OverlayIsBase(config, base, journal, s);
    RollbackDistinct(s, journal.entries);
    assert Get(s, JournalFile) == Some(Journal(journal));
  }

  /** With a journal, recovery puts the lineage back; it commits to nothing until the journal is gone. */
  lemma JournalRecovery(config: StorageConfig, base: Files, journal: MoveJournal, s: Files, k: nat)
    requires EntriesPlanned(config, base, journal) && MidMove(base, journal, s) && Quiescent(base)
    ensures
      var plan := InPathOrder(config.leq, RollbackWrites(s, journal.entries)) + Cleanup(config, journal);
      && Apply(s, plan) == base
      && (k <= |plan| ==> MidMove(base, journal, Apply(s, plan[..k])) || OnlyBackups(base, journal.entries, Apply(s, plan[..k])))
  {
    RollbackDistinct(s, journal.entries);
    var w := RollbackWrites(s, journal.entries);
    var ordered := InPathOrder(config.leq, w);
    var cleanup := Cleanup(config, journal);
    SortedPrefixBetween(config.leq, s, w, |w|);
    assert ordered[..|ordered|] == ordered;
    RollbackComplete(config, base, journal, s);
    CleanupPrefix(config, base, journal, Apply(s, w), |cleanup|);
    assert cleanup[..|cleanup|] == cleanup;
    ApplyConcat(s, ordered, cleanup);
    if k <= |ordered| {
      ApplyPrefixOfConcat(s, ordered, cleanup, k);
      SortedPrefixBetween(config.leq, s, w, k);
      RollbackPrefix(config, base, journal, s, Apply(s, ordered[..k]));
    } else if k <= |ordered + cleanup| {
      ApplyPrefixOfConcat(s, ordered, cleanup, k);
      CleanupPrefix(config, base, journal, Apply(s, w), k - |ordered|);
    }
  }

  // ---- Runs with crashes ----

  /** Recovery from `s`, dying after `k` of its writes. */
  ghost function CrashedRecovery(config: StorageConfig, links: set<Path>, s: Files, k: nat): Files {
    match RecoveryPlan(config, s, links)
    case Err(_) => s
    case Ok(plan) => Apply(s, if k <= |plan| then plan[..k] else plan)
  }

  /** A recovery that meets these links and dies after so many of its writes. */
  datatype Attempt = Attempt(links: set<Path>, writes: nat)

  /** One recovery after the other. Issues may be linked and unlinked in between. */
  ghost function CrashedRecoveries(config: StorageConfig, s: Files, attempts: seq<Attempt>): Files {
    if attempts == [] then s
    else
      var last := attempts[|attempts| - 1];
      CrashedRecovery(config, last.links, CrashedRecoveries(config, s, attempts[..|attempts| - 1]), last.writes)
  }

  /** The disk when a move dies after `k` of its writes. */
  function CrashedMove(config: StorageConfig, base: Files, journal: MoveJournal, k: nat): Files
    requires k <= |MoveSteps(config, journal)|
  {
    Apply(base, MoveSteps(config, journal)[..k])
  }

  /** The store after the move has been decided: all of it or none of it. */
  function Decided(base: Files, journal: MoveJournal, committed: bool): Files {
    if committed then Moved(base, journal) else base
  }

  ghost predicate Recoverable(base: Files, journal: MoveJournal, committed: bool, s: Files) {
    || OnlyBackups(Decided(base, journal, committed), journal.entries, s)
    || (!committed && MidMove(base, journal, s))
  }

  lemma CrashedMoveIsRecoverable(config: StorageConfig, base: Files, journal: MoveJournal, k: nat)
    requires EntriesPlanned(config, base, journal) && Quiescent(base)
    requires k <= |MoveSteps(config, journal)|
    ensures Recoverable(base, journal, k > CommitPoint(journal), CrashedMove(config, base, journal, k))
    ensures k == |MoveSteps(config, journal)| ==> CrashedMove(config, base, journal, k) == Moved(base, journal)
  {
    CrashSplits(config, base, journal, k);
    if k <= |Prepare(config, journal)| {
      PrepareCrash(config, base, journal, k);
    } else {
      PrepareCrash(config, base, journal, |Prepare(config, journal)|);
      FinishCrash(config, base, journal, Apply(base, Prepare(config, journal)), k - |Prepare(config, journal)|);
    }
  }

  lemma CrashSplits(config: StorageConfig, base: Files, journal: MoveJournal, k: nat)
    requires k <= |MoveSteps(config, journal)|
    ensures
      var prepare, finish := Prepare(config, journal), Finish(config, journal);
      && prepare[..|prepare|] == prepare
      && CrashedMove(config, base, journal, k)
         == if k <= |prepare| then Apply(base, prepare[..k]) else Apply(Apply(base, prepare), finish[..k - |prepare|])
  {
    ApplyPrefixOfConcat(base, Prepare(config, journal), Finish(config, journal), k);
  }

  lemma PrepareCrash(config: StorageConfig, base: Files, journal: MoveJournal, k: nat)
    requires EntriesPlanned(config, base, journal) && Quiescent(base)
    requires k <= |Prepare(config, journal)|
    ensures k < |Prepare(config, journal)| ==> OnlyBackups(base, journal.entries, Apply(base, Prepare(config, journal)[..k]))
    ensures k == |Prepare(config, journal)| ==>
      && Settled(base, journal, Apply(base, Prepare(config, journal)[..k]))
      && MidMove(base, journal, Apply(base, Prepare(config, journal)[..k]))
  {
    var w := BackupWrites(journal.entries);
    var ordered := InPathOrder(config.leq, w);
    BackupPaths(config, journal);
    ApplyPrefixOfConcat(base, ordered, [JournalWrite(journal)], k);
    if k <= |ordered| {
      SortedPrefixBetween(config.leq, base, w, k);
      BackupPrefix(config, base, journal, Apply(base, ordered[..k]));
    } else {
      assert [JournalWrite(journal)][..1] == [JournalWrite(journal)];
      ApplyOne(Apply(base, ordered), JournalWrite(journal));
      SortedPrefixBetween(config.leq, base, w, |w|);
      assert ordered[..|ordered|] == ordered;
      JournalWritten(config, base, journal);
      SettledIsMidMove(config, base, journal, Apply(base, Prepare(config, journal)[..k]));
    }
  }

  lemma FinishCrash(config: StorageConfig, base: Files, journal: MoveJournal, start: Files, k: nat)
    requires EntriesPlanned(config, base, journal) && Quiescent(base)
    requires Settled(base, journal, start) && MidMove(base, journal, start)
    requires k <= |Finish(config, journal)|
    ensures Recoverable(base, journal, k > 2 * |journal.entries|, Apply(start, Finish(config, journal)[..k]))
    ensures k == |Finish(config, journal)| ==> Apply(start, Finish(config, journal)[..k]) == Moved(base, journal)
  {
    var ordered := InPathOrder(config.leq, MoveWrites(journal.entries));
    ApplyPrefixOfConcat(start, ordered, Cleanup(config, journal), k);
    MovesCrash(config, base, journal, start, if k <= |ordered| then k else |ordered|);
    if k > |ordered| {
      assert ordered[..|ordered|] == ordered;
      BackupPaths(config, journal);
      MovedQuiescent(base, journal);
      CleanupPrefix(config, Moved(base, journal), journal, Apply(start, ordered), k - |ordered|);
    }
  }

  lemma MovesCrash(config: StorageConfig, base: Files, journal: MoveJournal, start: Files, k: nat)
    requires EntriesPlanned(config, base, journal) && Quiescent(base)
    requires Settled(base, journal, start) && MidMove(base, journal, start)
    requires k <= |MoveWrites(journal.entries)|
    ensures
      var t := Apply(start, InPathOrder(config.leq, MoveWrites(journal.entries))[..k]);
      MidMove(base, journal, t) && (k == |MoveWrites(journal.entries)| ==> Settled(Moved(base, journal), journal, t))
  {
    var w := MoveWrites(journal.entries);
    var ordered := InPathOrder(config.leq, w);
    MoveWritesDistinct(journal.entries);
    SortedPrefixBetween(config.leq, start, w, k);
    MovePrefix(config, base, journal, start, Apply(start, ordered[..k]));
    MoveComplete(config, base, journal, start);
  }

  /** The documents issues link to are active before and after the move. */
  ghost predicate LinksKept(base: Files, journal: MoveJournal, links: set<Path>) {
    && LinksResolve(DocsOf(base), links)
    && (journal.destination == Archive ==> forall e :: e in journal.entries ==> e.source !in links)
  }

  lemma LinksStillResolve(config: StorageConfig, base: Files, journal: MoveJournal, links: set<Path>)
    requires EntriesPlanned(config, base, journal) && LinksKept(base, journal, links)
    ensures LinksResolve(DocsOf(Moved(base, journal)), links)
  {
    MovedGet(base, journal);
    forall l | l in links ensures l in DocsOf(Moved(base, journal)) {
      forall e | e in journal.entries ensures e.source != l && e.destination != l {
        assert EntryPlanned(config, base, journal, e);
        assert e.destination !in base;
      }
      assert Get(Moved(base, journal), l) == Get(base, l);
    }
  }

  /** Links that were resolved and kept clear of an archived lineage are resolved whatever was decided. */
  lemma KeptLinksResolve(config: StorageConfig, base: Files, journal: MoveJournal, links: set<Path>, committed: bool)
    requires EntriesPlanned(config, base, journal) && LinksKept(base, journal, links)
    ensures LinksResolve(DocsOf(Decided(base, journal, committed)), links)
  {
    LinksStillResolve(config, base, journal, links);
  }

  /** Recovery is refused exactly if a link does not resolve in `store`; otherwise `store` is what it leaves. */
  ghost predicate RecoveredAs(config: StorageConfig, store: Files, links: set<Path>, s: Files) {
    match RecoveryPlan(config, s, links)
    case Ok(plan) => LinksResolve(DocsOf(store), links) && Apply(s, plan) == store
    case Err(category) => !LinksResolve(DocsOf(store), links) && category == Synchronization
  }

  /**
   From every state of a decided move, recovery is refused exactly if an issue links to
   something that is not an active document of the decided store; otherwise it leads there,
   and dying on the way it leaves such a state again.
   */
  lemma RecoveryStep(config: StorageConfig, base: Files, journal: MoveJournal, links: set<Path>, committed: bool, s: Files, k: nat)
    requires Planned(config, base, journal)
    requires Recoverable(base, journal, committed, s)
    ensures RecoveredAs(config, Decided(base, journal, committed), links, s)
    ensures Recoverable(base, journal, committed, CrashedRecovery(config, links, s, k))
  {
    if MidMove(base, journal, s) && !committed {
      JournaledStep(config, base, journal, links, s, k);
    } else {
      BackupsOnlyStep(config, Decided(base, journal, committed), journal.entries, links, s, k);
    }
  }

  lemma JournaledStep(config: StorageConfig, base: Files, journal: MoveJournal, links: set<Path>, s: Files, k: nat)
    requires EntriesPlanned(config, base, journal) && Quiescent(base) && CatalogValid(config, DocsOf(base))
    requires MidMove(base, journal, s)
    ensures RecoveredAs(config, base, links, s)
    ensures MidMove(base, journal, CrashedRecovery(config, links, s, k)) || OnlyBackups(base, journal.entries, CrashedRecovery(config, links, s, k))
  {
    var plan := RecoveryPlan(config, s, links);
    JournalPlan(config, base, journal, s, links);
    JournalRecovery(config, base, journal, s, k);
    if plan.Ok? {
      JournalRecovery(config, base, journal, s, |plan.value|);
      assert plan.value[..|plan.value|] == plan.value;
    }
  }

  lemma BackupsOnlyStep(config: StorageConfig, base: Files, entries: seq<MoveEntry>, links: set<Path>, s: Files, k: nat)
    requires OnlyBackups(base, entries, s) && |entries| <= MAX_VERSIONS && CatalogValid(config, DocsOf(base))
    ensures RecoveredAs(config, base, links, s)
    ensures OnlyBackups(base, entries, CrashedRecovery(config, links, s, k))
  {
    var plan := RecoveryPlan(config, s, links);
    OrphanPlan(config, base, entries, s, links);
    if plan.Ok? {
      OrphanRecovery(config, base, entries, s, links, k);
      OrphanRecovery(config, base, entries, s, links, |plan.value|);
      assert plan.value[..|plan.value|] == plan.value;
    }
  }

  lemma {:induction false} RecoveriesStayRecoverable(config: StorageConfig, base: Files, journal: MoveJournal, committed: bool, s: Files, attempts: seq<Attempt>)
    requires Planned(config, base, journal)
    requires Recoverable(base, journal, committed, s)
    ensures Recoverable(base, journal, committed, CrashedRecoveries(config, s, attempts))
  {
    if attempts != [] {
      var n := |attempts| - 1;
      RecoveriesStayRecoverable(config, base, journal, committed, s, attempts[..n]);
      RecoveryStep(config, base, journal, attempts[n].links, committed, CrashedRecoveries(config, s, attempts[..n]), attempts[n].writes);
    }
  }

  lemma RecoverableSurvives(config: StorageConfig, base: Files, journal: MoveJournal, committed: bool, s: Files)
    requires EntriesPlanned(config, base, journal) && Recoverable(base, journal, committed, s)
    ensures Survives(journal.entries, s)
  {
    BackupPaths(config, journal);
    MovedGet(base, journal);
    forall e | e in journal.entries
      ensures Get(s, e.source) == Some(ContentOf(e)) || Get(s, e.destination) == Some(ContentOf(e)) || Get(s, e.backup) == Some(ContentOf(e))
    {
      assert EntryPlanned(config, base, journal, e);
      if !MidMove(base, journal, s) {
        assert Get(s, e.source) == Get(Decided(base, journal, committed), e.source);
        assert Get(s, e.destination) == Get(Decided(base, journal, committed), e.destination);
      }
    }
  }

  // ---- Recoveries that fail in any way ----

  /** What removing the journal and the backups can leave, however many of its publishes throw. */
  ghost predicate CleanupLeft(journal: MoveJournal, s: Files, t: Files) {
    t == s || Between(Put(s, JournalFile, None), BackupDeletes(journal.entries), t)
  }

  /** What a recovery can leave, whether it dies, throws, or throws again while undoing its own batch. */
  ghost predicate RecoveryLeft(s: Files, t: Files) {
    || t == s
    || (JournalFile !in s && Between(s, Orphans(s, 0), t))
    || (JournalFile in s && s[JournalFile].Journal? && JournaledRecoveryLeft(s[JournalFile].journal, s, t))
  }

  ghost predicate JournaledRecoveryLeft(journal: MoveJournal, s: Files, t: Files) {
    var rollback := RollbackWrites(s, journal.entries);
    t == s || Between(s, rollback, t) || CleanupLeft(journal, Apply(s, rollback), t)
  }

  lemma CleanupLeftIsBackups(config: StorageConfig, base: Files, journal: MoveJournal, s: Files, t: Files)
    requires Quiescent(base) && DecodesAsJournal(config, Journal(journal))
    requires Settled(base, journal, s) && CleanupLeft(journal, s, t)
    ensures t == s || OnlyBackups(base, journal.entries, t)
  {
    if t != s {
      JournalDeleted(base, journal, s);
      BackupDeletesCover(config, journal, Put(s, JournalFile, None));
      DeletedPrefix(base, journal.entries, Put(s, JournalFile, None), BackupDeletes(journal.entries), t);
    }
  }

  /** However a recovery ends, the next one starts from a state of the same decided move. */
  lemma FailedRecoveryStaysRecoverable(config: StorageConfig, base: Files, journal: MoveJournal, committed: bool, s: Files, t: Files)
    requires EntriesPlanned(config, base, journal) && Quiescent(base)
    requires Recoverable(base, journal, committed, s) && RecoveryLeft(s, t)
    ensures Recoverable(base, journal, committed, t)
  {
    if t != s {
      if MidMove(base, journal, s) && !committed {
        assert Get(s, JournalFile) == Some(Journal(journal));
        JournaledLeftIsRecoverable(config, base, journal, s, t);
      } else {
        assert Get(s, JournalFile) == Get(Decided(base, journal, committed), JournalFile);
        OrphansAre(s, 0, 999);
        DeletedPrefix(Decided(base, journal, committed), journal.entries, s, Orphans(s, 0), t);
      }
    }
  }

  lemma JournaledLeftIsRecoverable(config: StorageConfig, base: Files, journal: MoveJournal, s: Files, t: Files)
    requires EntriesPlanned(config, base, journal) && Quiescent(base)
    requires MidMove(base, journal, s) && JournaledRecoveryLeft(journal, s, t)
    ensures MidMove(base, journal, t) || OnlyBackups(base, journal.entries, t)
  {
    var rollback := RollbackWrites(s, journal.entries);
    if Between(s, rollback, t) {
      RollbackPrefix(config, base, journal, s, t);
    } else if t != s {
      RollbackComplete(config, base, journal, s);
      SettledIsMidMove(config, base, journal, Apply(s, rollback));
      CleanupLeftIsBackups(config, base, journal, Apply(s, rollback), t);
    }
  }

  /** One recovery after the other, each failing in some way or other. */
  ghost predicate FailingRecoveries(states: seq<Files>) {
    |states| > 0 && forall i :: 0 < i < |states| ==> RecoveryLeft(states[i - 1], states[i])
  }

  lemma {:induction false} FailingRecoveriesStayRecoverable(config: StorageConfig, base: Files, journal: MoveJournal, committed: bool, states: seq<Files>)
    requires EntriesPlanned(config, base, journal) && Quiescent(base)
    requires FailingRecoveries(states) && Recoverable(base, journal, committed, states[0])
    ensures Recoverable(base, journal, committed, states[|states| - 1])
  {
    var n := |states| - 1;
    if n > 0 {
      FailingRecoveriesStayRecoverable(config, base, journal, committed, states[..n]);
      FailedRecoveryStaysRecoverable(config, base, journal, committed, states[n - 1], states[n]);
    }
  }

  /**
   A lineage move refines one atomic step. It may die after any of its writes, and any
   number of recoveries may die after any of theirs, with issues linked and unlinked in
   between. At every such point each version still exists with its exact bytes. The next
   recovery leaves exactly the store before the move or exactly the store after it, as the
   deletion of the journal decided, and it is refused if and only if an issue links to
   something that is not an active document of that store.
   */
  lemma MoveRefinesAtomicStep(config: StorageConfig, base: Files, journal: MoveJournal, k: nat, attempts: seq<Attempt>, links: set<Path>)
    requires Planned(config, base, journal)
    requires k <= |MoveSteps(config, journal)|
    ensures
      var s := CrashedRecoveries(config, CrashedMove(config, base, journal, k), attempts);
      var decided := Decided(base, journal, k > CommitPoint(journal));
      && Survives(journal.entries, s)
      && RecoveredAs(config, decided, links, s)
    ensures k == |MoveSteps(config, journal)| ==> CrashedMove(config, base, journal, k) == Moved(base, journal)
  {
    var committed := k > CommitPoint(journal);
    var s := CrashedRecoveries(config, CrashedMove(config, base, journal, k), attempts);
    CrashedMoveIsRecoverable(config, base, journal, k);
    RecoveriesStayRecoverable(config, base, journal, committed, CrashedMove(config, base, journal, k), attempts);
    RecoverableSurvives(config, base, journal, committed, s);
    RecoveryStep(config, base, journal, links, committed, s, 0);
  }

  /**
   The move stays atomic when recoveries do not only die: after a crash of the move and
   any number of recoveries that threw or died at any publish, their own rollbacks
   included, each version still exists and the next recovery leaves the same decided store,
   refused exactly as above.
   */
  lemma FailingRecoveriesKeepTheDecision(config: StorageConfig, base: Files, journal: MoveJournal, links: set<Path>, k: nat, states: seq<Files>)
    requires Planned(config, base, journal)
    requires k <= |MoveSteps(config, journal)|
    requires FailingRecoveries(states) && states[0] == CrashedMove(config, base, journal, k)
    ensures
      var s := states[|states| - 1];
      var decided := Decided(base, journal, k > CommitPoint(journal));
      && Survives(journal.entries, s)
      && RecoveredAs(config, decided, links, s)
  {
    var committed := k > CommitPoint(journal);
    var s := states[|states| - 1];
    CrashedMoveIsRecoverable(config, base, journal, k);
    FailingRecoveriesStayRecoverable(config, base, journal, committed, states);
    RecoverableSurvives(config, base, journal, committed, s);
    RecoveryStep(config, base, journal, links, committed, s, 0);
  }

  /** Links an issue may get while the disk is in this state: to active documents of a valid catalogue. */
  ghost predicate MayLink(config: StorageConfig, s: Files, links: set<Path>) {
    CatalogValid(config, DocsOf(s)) && LinksResolve(DocsOf(s), links)
  }

  /**
   A restore that dies between its batch and the deletion of its journal leaves a valid
   catalogue with the lineage active. An issue can then be linked to it, since issue
   operations run no recovery, and from then on recovery is refused.
   */
  lemma LinkBlocksRecovery(config: StorageConfig, base: Files, journal: MoveJournal, e: MoveEntry)
    requires Planned(config, base, journal) && journal.destination == Active && e in journal.entries
    ensures
      var s := CrashedMove(config, base, journal, CommitPoint(journal));
      && MayLink(config, s, {e.destination})
      && RecoveryPlan(config, s, {e.destination}) == Err(Synchronization)
  {
    var s := CrashedMove(config, base, journal, CommitPoint(journal));
    RestoredButJournaled(config, base, journal);
    CrashedMoveIsRecoverable(config, base, journal, CommitPoint(journal));
    RestoredLink(config, base, journal, e);
    RecoveryStep(config, base, journal, {e.destination}, false, s, 0);
  }

  lemma RestoredLink(config: StorageConfig, base: Files, journal: MoveJournal, e: MoveEntry)
    requires EntriesPlanned(config, base, journal) && journal.destination == Active && e in journal.entries
    ensures LinksResolve(DocsOf(Moved(base, journal)), {e.destination}) && !LinksResolve(DocsOf(base), {e.destination})
  {
    MovedGet(base, journal);
    assert EntryPlanned(config, base, journal, e);
    assert Get(Moved(base, journal), e.destination) == Some(ContentOf(e));
    assert e.destination in {e.destination};
  }

  lemma RestoredButJournaled(config: StorageConfig, base: Files, journal: MoveJournal)
    requires EntriesPlanned(config, base, journal) && Quiescent(base)
    ensures DocsOf(CrashedMove(config, base, journal, CommitPoint(journal))) == DocsOf(Moved(base, journal))
  {
    var prepare := Prepare(config, journal);
    var ordered := InPathOrder(config.leq, MoveWrites(journal.entries));
    var n := |ordered|;
    CrashSplits(config, base, journal, CommitPoint(journal));
    PrepareCrash(config, base, journal, |prepare|);
    var start := Apply(base, prepare);
    ApplyPrefixOfConcat(start, ordered, Cleanup(config, journal), n);
    MovesCrash(config, base, journal, start, n);
    var t := Apply(start, ordered[..n]);
    SameDocs(Moved(base, journal), t);
  }
}
