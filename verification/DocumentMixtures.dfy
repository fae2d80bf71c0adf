/**
 Catalogues between two stores: what is left when some publishes of a batch hold and others
 do not, and exactly when that is a valid catalogue.
 */
module DocumentMixtures {
  import opened Wrappers
  import opened FileBatches
  import opened DocumentCatalog
  import opened DocumentMoves
  import opened DocumentPlans
  import opened DocumentEdits
  import opened DocumentFailures

  // ---- A lineage partly moved ----

  ghost predicate AtSource(s: Files, e: MoveEntry) { Get(s, e.source) == Some(ContentOf(e)) }

  ghost predicate AtDestination(s: Files, e: MoveEntry) { Get(s, e.destination) == Some(ContentOf(e)) }

  ghost predicate Present(s: Files, e: MoveEntry) { AtSource(s, e) || AtDestination(s, e) }

  /** Each version at its source, its destination, both or neither, and every other document as before. */
  ghost predicate MixedDocuments(base: Files, journal: MoveJournal, s: Files) {
    && (forall e :: e in journal.entries ==>
          && (Get(s, e.source) == None || AtSource(s, e))
          && (Get(s, e.destination) == None || AtDestination(s, e)))
    && forall p: Path {:trigger Get(s, p)} :: p.DocumentFile? && Untouched(journal.entries, p) ==> Get(s, p) == Get(base, p)
  }

  /** No version at its source while one, the same or another, is at its destination. */
  ghost predicate OneSided(entries: seq<MoveEntry>, s: Files) {
    forall e, d :: e in entries && d in entries && AtSource(s, e) ==> !AtDestination(s, d)
  }

  function VersionOf(e: MoveEntry): int {
    if ContentOf(e).Document? then ContentOf(e).metadata.version else 0
  }

  /** No version without those before it. */
  ghost predicate NoGap(entries: seq<MoveEntry>, s: Files) {
    forall e, d :: e in entries && d in entries && VersionOf(d) < VersionOf(e) && Present(s, e) ==> Present(s, d)
  }

  function Place(e: MoveEntry, moved: bool): Path {
    if moved then e.destination else e.source
  }

  /** The move takes along every version of its lineage. */
  ghost predicate Covers(base: Files, journal: MoveJournal) {
    && (forall p :: p in DocsOf(base) ==> base[p].Document?)
    && forall p :: p in DocsOf(base) && base[p].Document? && base[p].metadata.id == journal.id ==> !Untouched(journal.entries, p)
  }

  lemma PlannedCovers(config: StorageConfig, base: Files, journal: MoveJournal)
    requires Planned(config, base, journal)
    ensures Covers(base, journal)
  {
    forall p | p in DocsOf(base) && base[p].Document? && base[p].metadata.id == journal.id ensures !Untouched(journal.entries, p) {
      Covered(config, base, journal, p);
    }
  }

  lemma Covered(config: StorageConfig, base: Files, journal: MoveJournal, p: Path)
    requires Planned(config, base, journal)
    requires p in DocsOf(base) && base[p].Document? && base[p].metadata.id == journal.id
    ensures !Untouched(journal.entries, p)
  {
    LiesAtSource(config, base, journal, p);
    if Untouched(journal.entries, p) {
      LiesAtDestination(config, base, journal, p);
    }
  }

  lemma LiesAtSource(config: StorageConfig, base: Files, journal: MoveJournal, p: Path)
    requires EntriesPlanned(config, base, journal) && CatalogValid(config, DocsOf(base))
    requires p in DocsOf(base) && base[p].Document? && base[p].metadata.id == journal.id
    ensures p.location == journal.source
  {
    var e := journal.entries[0];
    assert EntryPlanned(config, base, journal, e) && EntryDecodes(journal.entries, 0);
    OneLocation(config, DocsOf(base), p, e.source);
  }

  lemma LiesAtDestination(config: StorageConfig, base: Files, journal: MoveJournal, p: Path)
    requires EntriesPlanned(config, base, journal) && CatalogValid(config, DocsOf(Moved(base, journal))) && Untouched(journal.entries, p)
    requires p in DocsOf(base) && base[p].Document? && base[p].metadata.id == journal.id
    ensures p.location == journal.destination
  {
    var e := journal.entries[0];
    assert EntryPlanned(config, base, journal, e) && EntryDecodes(journal.entries, 0);
    MovedGet(base, journal);
    assert Get(Moved(base, journal), p) == Get(base, p) && Get(Moved(base, journal), e.destination) == Some(ContentOf(e));
    OneLocation(config, DocsOf(Moved(base, journal)), p, e.destination);
  }

  lemma OneLocation(config: StorageConfig, docs: Files, p: Path, q: Path)
    requires CatalogValid(config, docs) && p in docs && q in docs && docs[p].metadata.id == docs[q].metadata.id
    ensures p.location == q.location
  {
  }

  /** Where the versions of the lineage are in the store before or after the move. */
  lemma PathOfVersion(config: StorageConfig, base: Files, journal: MoveJournal, moved: bool, p: Path) returns (e: MoveEntry)
    requires EntriesPlanned(config, base, journal) && Covers(base, journal) && p in DocsOf(Decided(base, journal, moved))
    requires Decided(base, journal, moved)[p].Document? && Decided(base, journal, moved)[p].metadata.id == journal.id
    ensures e in journal.entries && Place(e, moved) == p && Decided(base, journal, moved)[p] == ContentOf(e)
  {
    MovedGet(base, journal);
    assert Get(Decided(base, journal, moved), p) == Some(Decided(base, journal, moved)[p]);
    assert Untouched(journal.entries, p) ==> Get(Moved(base, journal), p) == Get(base, p);
    e :| e in journal.entries && (e.source == p || e.destination == p);
    assert EntryPlanned(config, base, journal, e);
  }

  /** `y` is part of `x`. */
  ghost predicate PartOf(y: Files, x: Files) {
    forall p {:trigger p in y} :: p in y ==> p in x && x[p] == y[p]
  }

  ghost predicate Gapless(y: Files) {
    forall p :: p in y && y[p].Document? && y[p].metadata.version > 1 ==> HasVersion(y, y[p].metadata.id, y[p].metadata.version - 1)
  }

  /** A part of a valid catalogue is valid if it has no gap. */
  lemma PartValid(config: StorageConfig, x: Files, y: Files)
    requires CatalogValid(config, x) && PartOf(y, x) && Gapless(y)
    ensures CatalogValid(config, y)
  {
    PartSize(x, y);
    PartFiled(config, x, y);
    PartLineages(x, y);
  }

  lemma PartSize(x: Files, y: Files)
    requires PartOf(y, x)
    ensures |y| <= |x|
  {
    assert y.Keys <= x.Keys;
    assert x.Keys == y.Keys + (x.Keys - y.Keys);
  }

  lemma PartFiled(config: StorageConfig, x: Files, y: Files)
    requires WellFiledDocs(config, x) && PartOf(y, x)
    ensures WellFiledDocs(config, y)
  {
    forall p | p in y ensures WellFiled(config, p, y[p]) {
      assert WellFiled(config, p, x[p]);
    }
  }

  lemma PartLineages(x: Files, y: Files)
    requires forall p :: p in x ==> x[p].Document? && p.DocumentFile?
    requires LineagesValid(x) && PartOf(y, x) && Gapless(y)
    requires forall p :: p in y ==> y[p].Document? && p.DocumentFile?
    ensures LineagesValid(y)
  {
    forall p, q | p in y && q in y && y[p].metadata.id == y[q].metadata.id
      ensures p.location == q.location && y[p].metadata.createdAt == y[q].metadata.createdAt
      ensures y[p].metadata.version == y[q].metadata.version ==> p == q
    {
      assert x[p] == y[p] && x[q] == y[q];
    }
    forall p | p in y ensures 1 <= y[p].metadata.version <= MAX_VERSIONS {
      assert x[p] == y[p];
    }
  }

  /** A one-sided mixture is part of the store before or of the store after the move. */
  lemma OneSidedPart(config: StorageConfig, base: Files, journal: MoveJournal, s: Files, moved: bool)
    requires EntriesPlanned(config, base, journal) && MixedDocuments(base, journal, s)
    requires moved ==> forall e :: e in journal.entries ==> !AtSource(s, e)
    requires !moved ==> forall e :: e in journal.entries ==> !AtDestination(s, e)
    ensures PartOf(DocsOf(s), DocsOf(Decided(base, journal, moved)))
  {
    MovedGet(base, journal);
    forall p | p in DocsOf(s) ensures Get(Decided(base, journal, moved), p) == Get(s, p) {
      if Untouched(journal.entries, p) {
        assert Get(s, p) == Get(base, p) && Get(Moved(base, journal), p) == Get(base, p);
      } else {
        var e :| e in journal.entries && (e.source == p || e.destination == p);
        assert EntryPlanned(config, base, journal, e);
        assert Get(s, p) != None;
      }
    }
  }

  lemma VersionBelow(config: StorageConfig, base: Files, journal: MoveJournal, s: Files, moved: bool, p: Path, q: Path)
    requires EntriesPlanned(config, base, journal) && Covers(base, journal) && MixedDocuments(base, journal, s) && NoGap(journal.entries, s)
    requires PartOf(DocsOf(s), DocsOf(Decided(base, journal, moved)))
    requires p in DocsOf(s) && q in DocsOf(Decided(base, journal, moved))
    requires
      var c, d := s[p], Decided(base, journal, moved)[q];
      c.Document? && d.Document? && d.metadata.id == c.metadata.id && d.metadata.version == c.metadata.version - 1
    ensures q in DocsOf(s) && s[q] == Decided(base, journal, moved)[q]
  {
    assert DocsOf(Decided(base, journal, moved))[p] == DocsOf(s)[p];
    if s[p].metadata.id == journal.id {
      var e := PathOfVersion(config, base, journal, moved, p);
      var d := PathOfVersion(config, base, journal, moved, q);
      SameSide(config, base, journal, s, moved, e, d);
    } else {
      OtherStays(config, base, journal, s, moved, q);
    }
  }

  lemma SameSide(config: StorageConfig, base: Files, journal: MoveJournal, s: Files, moved: bool, e: MoveEntry, d: MoveEntry)
    requires EntriesPlanned(config, base, journal) && NoGap(journal.entries, s)
    requires PartOf(DocsOf(s), DocsOf(Decided(base, journal, moved)))
    requires e in journal.entries && d in journal.entries && VersionOf(d) < VersionOf(e) && Get(s, Place(e, moved)) == Some(ContentOf(e))
    ensures Get(s, Place(d, moved)) == Some(ContentOf(d))
  {
    assert Present(s, e);
    assert Present(s, d);
    MovedGet(base, journal);
    BackupPaths(config, journal);
    assert EntryPlanned(config, base, journal, d);
    assert d.source in s ==> d.source in DocsOf(s);
    assert d.destination in s ==> d.destination in DocsOf(s);
  }

  lemma OtherStays(config: StorageConfig, base: Files, journal: MoveJournal, s: Files, moved: bool, q: Path)
    requires EntriesPlanned(config, base, journal) && MixedDocuments(base, journal, s)
    requires q in DocsOf(Decided(base, journal, moved))
    requires Decided(base, journal, moved)[q].Document? && Decided(base, journal, moved)[q].metadata.id != journal.id
    ensures Get(s, q) == Get(Decided(base, journal, moved), q)
  {
    MovedGet(base, journal);
    assert Get(Decided(base, journal, moved), q) == Some(Decided(base, journal, moved)[q]);
    forall e | e in journal.entries ensures e.source != q && e.destination != q {
      assert EntryPlanned(config, base, journal, e);
    }
    assert Get(s, q) == Get(base, q) && Get(Moved(base, journal), q) == Get(base, q);
  }

  lemma MixedGapless(config: StorageConfig, base: Files, journal: MoveJournal, s: Files, moved: bool)
    requires EntriesPlanned(config, base, journal) && Covers(base, journal) && MixedDocuments(base, journal, s) && NoGap(journal.entries, s)
    requires PartOf(DocsOf(s), DocsOf(Decided(base, journal, moved))) && Gapless(DocsOf(Decided(base, journal, moved)))
    ensures Gapless(DocsOf(s))
  {
    var x, y := DocsOf(Decided(base, journal, moved)), DocsOf(s);
    forall p | p in y && y[p].Document? && y[p].metadata.version > 1
      ensures HasVersion(y, y[p].metadata.id, y[p].metadata.version - 1)
    {
      assert x[p] == y[p];
      var q :| q in x && x[q].Document? && x[q].metadata.id == y[p].metadata.id && x[q].metadata.version == y[p].metadata.version - 1;
      VersionBelow(config, base, journal, s, moved, p, q);
      assert q in y;
    }
  }

  lemma ValidIsGapless(config: StorageConfig, docs: Files)
    requires CatalogValid(config, docs)
    ensures Gapless(docs)
  {
  }

  lemma MixedIsValid(config: StorageConfig, base: Files, journal: MoveJournal, s: Files)
    requires Planned(config, base, journal) && MixedDocuments(base, journal, s)
    requires OneSided(journal.entries, s) && NoGap(journal.entries, s)
    ensures CatalogValid(config, DocsOf(s))
  {
    var moved := exists d :: d in journal.entries && AtDestination(s, d);
    OneSidedPart(config, base, journal, s, moved);
    PlannedCovers(config, base, journal);
    ValidIsGapless(config, DocsOf(Decided(base, journal, moved)));
    MixedGapless(config, base, journal, s, moved);
    PartValid(config, DocsOf(Decided(base, journal, moved)), DocsOf(s));
  }

  lemma {:induction false} VersionsDown(docs: Files, id: string, v: int, w: int)
    requires Gapless(docs) && HasVersion(docs, id, v) && 1 <= w <= v
    ensures HasVersion(docs, id, w)
    decreases v
  {
    if w < v {
      var p :| p in docs && docs[p].Document? && docs[p].metadata.id == id && docs[p].metadata.version == v;
      VersionsDown(docs, id, v - 1, w);
    }
  }

  lemma ValidIsOneSided(config: StorageConfig, base: Files, journal: MoveJournal, s: Files)
    requires EntriesPlanned(config, base, journal) && CatalogValid(config, DocsOf(s))
    ensures OneSided(journal.entries, s)
  {
    BackupPaths(config, journal);
    forall e, d | e in journal.entries && d in journal.entries && AtSource(s, e) ensures !AtDestination(s, d) {
      assert EntryPlanned(config, base, journal, e) && EntryPlanned(config, base, journal, d);
      if AtDestination(s, d) {
        OneLocation(config, DocsOf(s), e.source, d.destination);
      }
    }
  }

  /** The versions of the lineage in a mixture are those of its entries. */
  lemma VersionIsEntry(config: StorageConfig, base: Files, journal: MoveJournal, s: Files, q: Path) returns (e: MoveEntry)
    requires EntriesPlanned(config, base, journal) && Covers(base, journal) && MixedDocuments(base, journal, s)
    requires q in DocsOf(s) && s[q].Document? && s[q].metadata.id == journal.id
    ensures e in journal.entries && Present(s, e) && s[q] == ContentOf(e)
  {
    assert Get(s, q) == Some(s[q]);
    assert Untouched(journal.entries, q) ==> Get(s, q) == Get(base, q);
    e :| e in journal.entries && (e.source == q || e.destination == q);
  }

  /** Two entries of one version are at the same paths. */
  lemma OneEntryPerVersion(config: StorageConfig, base: Files, journal: MoveJournal, e: MoveEntry, d: MoveEntry)
    requires EntriesPlanned(config, base, journal) && CatalogValid(config, DocsOf(base))
    requires e in journal.entries && d in journal.entries && VersionOf(e) == VersionOf(d)
    ensures e.source == d.source && e.destination == d.destination && ContentOf(e) == ContentOf(d)
  {
    BackupPaths(config, journal);
    assert EntryPlanned(config, base, journal, e) && EntryPlanned(config, base, journal, d);
    SamePath(config, DocsOf(base), e.source, d.source);
  }

  lemma SamePath(config: StorageConfig, docs: Files, p: Path, q: Path)
    requires CatalogValid(config, docs) && p in docs && q in docs
    requires docs[p].metadata.id == docs[q].metadata.id && docs[p].metadata.version == docs[q].metadata.version
    ensures p == q
  {
  }

  lemma EntryVersion(config: StorageConfig, base: Files, journal: MoveJournal, e: MoveEntry)
    requires EntriesPlanned(config, base, journal) && CatalogValid(config, DocsOf(base)) && e in journal.entries
    ensures VersionOf(e) >= 1
  {
    BackupPaths(config, journal);
    assert EntryPlanned(config, base, journal, e);
    assert DocsOf(base)[e.source] == ContentOf(e);
  }

  lemma ValidHasNoGap(config: StorageConfig, base: Files, journal: MoveJournal, s: Files)
    requires Planned(config, base, journal) && MixedDocuments(base, journal, s) && Gapless(DocsOf(s))
    ensures NoGap(journal.entries, s)
  {
    PlannedCovers(config, base, journal);
    forall e, d | e in journal.entries && d in journal.entries && VersionOf(d) < VersionOf(e) && Present(s, e) ensures Present(s, d) {
      EntryVersion(config, base, journal, d);
      PresentVersion(config, base, journal, s, e);
      VersionsDown(DocsOf(s), journal.id, VersionOf(e), VersionOf(d));
      var q :| q in DocsOf(s) && s[q].Document? && s[q].metadata.id == journal.id && s[q].metadata.version == VersionOf(d);
      var x := VersionIsEntry(config, base, journal, s, q);
      OneEntryPerVersion(config, base, journal, x, d);
    }
  }

  lemma PresentVersion(config: StorageConfig, base: Files, journal: MoveJournal, s: Files, e: MoveEntry)
    requires EntriesPlanned(config, base, journal) && e in journal.entries && Present(s, e)
    ensures HasVersion(DocsOf(s), journal.id, VersionOf(e))
  {
    BackupPaths(config, journal);
    assert EntryPlanned(config, base, journal, e);
    var p := if AtSource(s, e) then e.source else e.destination;
    assert p in DocsOf(s) && DocsOf(s)[p] == ContentOf(e);
  }

  /** A partly moved lineage leaves a valid catalogue exactly if it is on one side and has no gap. */
  lemma MixedCatalog(config: StorageConfig, base: Files, journal: MoveJournal, s: Files)
    requires Planned(config, base, journal) && MixedDocuments(base, journal, s)
    ensures CatalogValid(config, DocsOf(s)) <==> OneSided(journal.entries, s) && NoGap(journal.entries, s)
  {
    if CatalogValid(config, DocsOf(s)) {
      ValidIsOneSided(config, base, journal, s);
      ValidIsGapless(config, DocsOf(s));
      ValidHasNoGap(config, base, journal, s);
    } else if OneSided(journal.entries, s) && NoGap(journal.entries, s) {
      MixedIsValid(config, base, journal, s);
    }
  }

  // ---- By the faults ----

  /** The publish of this write holds after a failed batch. */
  ghost predicate Holds(config: StorageConfig, journal: MoveJournal, f: nat, fault: Fault, rest: seq<Fault>, w: Write) {
    var writes := InPathOrder(config.leq, MoveWrites(journal.entries));
    exists i :: 0 <= i < |writes| && writes[i] == w && Stays(fault, rest, f, false, i)
  }

  /** The lineage is on one side and without a gap, by the faults. */
  ghost predicate KeepsCatalog(config: StorageConfig, journal: MoveJournal, f: nat, fault: Fault, rest: seq<Fault>) {
    && (forall e, d :: e in journal.entries && d in journal.entries && !Holds(config, journal, f, fault, rest, Delete(e)) ==>
          !Holds(config, journal, f, fault, rest, Create(d)))
    && forall e, d :: e in journal.entries && d in journal.entries && VersionOf(d) < VersionOf(e) && Remains(config, journal, f, fault, rest, e) ==>
         Remains(config, journal, f, fault, rest, d)
  }

  ghost predicate Remains(config: StorageConfig, journal: MoveJournal, f: nat, fault: Fault, rest: seq<Fault>, e: MoveEntry) {
    !Holds(config, journal, f, fault, rest, Delete(e)) || Holds(config, journal, f, fault, rest, Create(e))
  }

  lemma PlacesByFaults(config: StorageConfig, base: Files, journal: MoveJournal, start: Files, f: nat, fault: Fault, rest: seq<Fault>, s: Files, e: MoveEntry)
    requires EntriesPlanned(config, base, journal) && Settled(base, journal, start) && e in journal.entries
    requires LeftBy(start, InPathOrder(config.leq, MoveWrites(journal.entries)), f, fault, rest, false, s)
    ensures AtSource(s, e) <==> !Holds(config, journal, f, fault, rest, Delete(e))
    ensures AtDestination(s, e) <==> Holds(config, journal, f, fault, rest, Create(e))
  {
    var writes := InPathOrder(config.leq, MoveWrites(journal.entries));
    var i, j := BothOrdered(config, journal.entries, e);
    VersionAfterFailure(config, base, journal, start, f, fault, rest, s, e, i, j);
    forall k | 0 <= k < |writes| && writes[k] == Delete(e) ensures Stays(fault, rest, f, false, k) <==> !AtSource(s, e) {
      VersionAfterFailure(config, base, journal, start, f, fault, rest, s, e, k, j);
    }
    forall k | 0 <= k < |writes| && writes[k] == Create(e) ensures Stays(fault, rest, f, false, k) <==> AtDestination(s, e) {
      VersionAfterFailure(config, base, journal, start, f, fault, rest, s, e, i, k);
    }
  }

  lemma SidesByFaults(config: StorageConfig, base: Files, journal: MoveJournal, start: Files, f: nat, fault: Fault, rest: seq<Fault>, s: Files)
    requires EntriesPlanned(config, base, journal) && Settled(base, journal, start)
    requires LeftBy(start, InPathOrder(config.leq, MoveWrites(journal.entries)), f, fault, rest, false, s)
    ensures KeepsCatalog(config, journal, f, fault, rest) <==> OneSided(journal.entries, s) && NoGap(journal.entries, s)
  {
    forall e | e in journal.entries
      ensures AtSource(s, e) <==> !Holds(config, journal, f, fault, rest, Delete(e))
      ensures AtDestination(s, e) <==> Holds(config, journal, f, fault, rest, Create(e))
    {
      PlacesByFaults(config, base, journal, start, f, fault, rest, s, e);
    }
    SidesAgree(config, journal, f, fault, rest, s);
  }

  lemma SidesAgree(config: StorageConfig, journal: MoveJournal, f: nat, fault: Fault, rest: seq<Fault>, s: Files)
    requires forall e :: e in journal.entries ==> (AtSource(s, e) <==> !Holds(config, journal, f, fault, rest, Delete(e)))
    requires forall e :: e in journal.entries ==> (AtDestination(s, e) <==> Holds(config, journal, f, fault, rest, Create(e)))
    ensures KeepsCatalog(config, journal, f, fault, rest) <==> OneSided(journal.entries, s) && NoGap(journal.entries, s)
  {
  }

  /**
   A failed batch, and a cleanup that went as far as it went. The documents are those from
   before the move exactly if nothing of the batch holds, those of the moved store exactly if
   all of it holds, and a valid catalogue exactly if by the faults no version is left at its
   source while one is at its destination and no version is lost below one that is not.
   */
  lemma FailedMoveCatalog(config: StorageConfig, base: Files, journal: MoveJournal, start: Files, f: nat, fault: Fault, rest: seq<Fault>, files: Files)
    requires Planned(config, base, journal) && Settled(base, journal, start)
    requires BatchLeft(config, journal, start, f, fault, rest, files)
    ensures SameDocuments(files, base) <==> NoneStay(|MoveWrites(journal.entries)|, f, fault, rest)
    ensures SameDocuments(files, Moved(base, journal)) <==> AllStay(|MoveWrites(journal.entries)|, f, fault, rest)
    ensures CatalogValid(config, DocsOf(files)) <==> KeepsCatalog(config, journal, f, fault, rest)
  {
    var s :|
      && LeftBy(start, InPathOrder(config.leq, MoveWrites(journal.entries)), f, fault, rest, false, s)
      && CleanupLeft(journal, s, files);
    FailedIsMidMove(config, base, journal, start, f, fault, rest, s);
    DocumentsByFaults(config, base, journal, start, f, fault, rest, s);
    SidesByFaults(config, base, journal, start, f, fault, rest, s);
    MixedCatalog(config, base, journal, s);
    CleanupKeepsDocuments(config, journal, s, files);
    LikeDocuments(s, files, base);
    LikeDocuments(s, files, Moved(base, journal));
  }

  lemma CleanupKeepsDocuments(config: StorageConfig, journal: MoveJournal, s: Files, files: Files)
    requires DecodesAsJournal(config, Journal(journal)) && Journaled(journal, s) && CleanupLeft(journal, s, files)
    ensures SameDocuments(files, s) && DocsOf(files) == DocsOf(s)
  {
    if files != s {
      CleanedFiles(config, journal, s, files);
    }
    SameDocs(s, files);
  }

  lemma LikeDocuments(s: Files, files: Files, x: Files)
    requires SameDocuments(files, s)
    ensures SameDocuments(files, x) <==> SameDocuments(s, x)
  {
    forall p: Path | p.DocumentFile? ensures Get(files, p) == Get(s, p) {}
  }

  // ---- An edit that could not be written ----

  /** Exactly one of two publishes holds after a failed batch. */
  predicate Halved(script: seq<Fault>) {
    var f := FirstFault(script, 2);
    var fault, rest := FaultAt(script, f), Skip(script, f + 1);
    f < 2 && Stays(fault, rest, f, false, 0) != Stays(fault, rest, f, false, 1)
  }

  /**
   Which faults do that: the first publish threw after taking effect; or it worked, the
   second died, or it threw and took effect exactly if undoing the first did.
   */
  lemma HalvedByFaults(script: seq<Fault>)
    ensures Halved(script) <==>
      match FaultAt(script, 0)
      case Throws(effect) => effect
      case Dies => false
      case Works =>
        match FaultAt(script, 1)
        case Works => false
        case Dies => true
        case Throws(effect) => effect == TookEffect(FaultAt(script, 2))
  {
    var f := if FaultAt(script, 0) != Works then 0 else if FaultAt(script, 1) != Works then 1 else 2;
    FirstFaultIs(script, 2, f);
    SkipSkip(script, 1, 0);
    SkipSkip(script, 2, 0);
  }

  /** Of one write nothing or all holds; of two nothing, all, or just one. */
  lemma OneWriteLeft(start: Files, w: seq<Write>, script: seq<Fault>, files: Files)
    requires |w| == 1 && FirstFault(script, 1) < 1 && LeftByScript(start, w, script, false, files)
    ensures files == start || files == Apply(start, w)
  {
    var fault, rest := FaultAt(script, 0), Skip(script, 1);
    ApplyOne(start, w[0]);
    assert Get(files, w[0].path) == if Stays(fault, rest, 0, false, 0) then w[0].bytes else Get(start, w[0].path);
    var target := if Stays(fault, rest, 0, false, 0) then Apply(start, w) else start;
    forall p: Path ensures Get(files, p) == Get(target, p) {
      if p != w[0].path {
        WritesMiss(w, p);
      }
    }
    SameGetSameFiles(files, target);
  }

  lemma TwoWritesLeft(start: Files, w: seq<Write>, f: nat, fault: Fault, rest: seq<Fault>, files: Files)
    requires |w| == 2 && w[0].path != w[1].path && LeftBy(start, w, f, fault, rest, false, files)
    ensures files ==
      var first := if Stays(fault, rest, f, false, 0) then Put(start, w[0].path, w[0].bytes) else start;
      if Stays(fault, rest, f, false, 1) then Put(first, w[1].path, w[1].bytes) else first
  {
    var first := if Stays(fault, rest, f, false, 0) then Put(start, w[0].path, w[0].bytes) else start;
    var target := if Stays(fault, rest, f, false, 1) then Put(first, w[1].path, w[1].bytes) else first;
    assert Get(files, w[0].path) == if Stays(fault, rest, f, false, 0) then w[0].bytes else Get(start, w[0].path);
    assert Get(files, w[1].path) == if Stays(fault, rest, f, false, 1) then w[1].bytes else Get(start, w[1].path);
    forall p: Path ensures Get(files, p) == Get(target, p) {
      if p != w[0].path && p != w[1].path {
        WritesMiss(w, p);
      }
    }
    SameGetSameFiles(files, target);
  }

  /** A failed edit left the old store, the new one, or one of two writes alone. */
  lemma EditLeft(leq: (Path, Path) -> bool, start: Files, w: seq<Write>, script: seq<Fault>, files: Files)
    requires 1 <= |w| <= 2 && DistinctPaths(w) && FirstFault(script, |w|) < |w|
    requires LeftByScript(start, InPathOrder(leq, w), script, false, files)
    ensures |w| == 1 || !Halved(script) ==> files == start || files == Apply(start, w)
    ensures |w| == 2 && Halved(script) ==> files == Apply(start, [w[0]]) || files == Apply(start, [w[1]])
  {
    var s := InPathOrder(leq, w);
    if |w| == 1 {
      OneInOrder(leq, w);
      OneWriteLeft(start, w, script, files);
    } else {
      var f := FirstFault(script, 2);
      PairLeft(leq, start, w, f, FaultAt(script, f), Skip(script, f + 1), files);
    }
  }

  lemma PairLeft(leq: (Path, Path) -> bool, start: Files, w: seq<Write>, f: nat, fault: Fault, rest: seq<Fault>, files: Files)
    requires |w| == 2 && DistinctPaths(w) && LeftBy(start, InPathOrder(leq, w), f, fault, rest, false, files)
    ensures if Stays(fault, rest, f, false, 0) == Stays(fault, rest, f, false, 1)
      then files == start || files == Apply(start, w)
      else files == Apply(start, [w[0]]) || files == Apply(start, [w[1]])
  {
    var s := InPathOrder(leq, w);
    PermutationKeepsDistinct(w, s);
    TwoWritesLeft(start, s, f, fault, rest, files);
    assert Apply(start, w) == Put(Put(start, s[0].path, s[0].bytes), s[1].path, s[1].bytes) by {
      ApplyPermuted(start, s, w);
      assert s == [s[0], s[1]];
      ApplyTwo(start, s[0], s[1]);
    }
    EachOfTwo(leq, w);
    ApplyOne(start, w[0]);
    ApplyOne(start, w[1]);
  }

  lemma EachOfTwo(leq: (Path, Path) -> bool, w: seq<Write>)
    requires |w| == 2
    ensures var s := InPathOrder(leq, w); s[0] in {w[0], w[1]} && s[1] in {w[0], w[1]}
  {
    var s := InPathOrder(leq, w);
    assert s[0] in multiset(s) && s[1] in multiset(s);
    assert s[0] in multiset(w) && s[1] in multiset(w);
  }

  /**
   An accepted update whose batch failed, by throwing or dying anywhere, leaves a valid
   catalogue with the newest version exactly if it keeps its file or just one of its writes
   does not hold. Then it left the old catalogue or the updated one. Otherwise either both
   files are there and the catalogue is invalid, or neither is and the newest version is gone.
   */
  lemma FailedUpdateCatalog(config: StorageConfig, docs: Files, id: string, revision: Revision<Content>, l: seq<Entity>, changes: Changes, now: string, script: seq<Fault>, after: Files)
    requires MayEdit(config, docs, id, revision, l) && l[|l| - 1].content.Document?
    requires Readable(config, Changed(l[|l| - 1].content, changes, now, false))
    requires
      var w := UpdateWrites(config, l[|l| - 1], changes, now);
      FirstFault(script, |w|) < |w| && LeftByScript(docs, InPathOrder(config.leq, w), script, false, after)
    ensures
      var w := UpdateWrites(config, l[|l| - 1], changes, now);
      && (Intact(config, after, id, |l|) <==> |w| == 1 || !Halved(script))
      && (|w| == 1 || !Halved(script) ==> after == docs || after == Apply(docs, w))
      && (|w| == 2 && Halved(script) ==>
            || (after == Apply(docs, [w[0]]) && !CatalogValid(config, after))
            || (after == Apply(docs, [w[1]]) && CatalogValid(config, after) && !HasVersion(after, id, |l|)))
  {
    var w := UpdateWrites(config, l[|l| - 1], changes, now);
    UpdateBatchLeft(config, docs, l[|l| - 1], changes, now, script, after);
    UpdateLeft(config, docs, id, revision, l, changes, now, |w| == 1 || !Halved(script), after);
  }

  /** The same on the disk: what `Commit` leaves of an update is as good as its documents. */
  lemma FailedUpdateOnDisk(config: StorageConfig, start: Files, id: string, revision: Revision<Content>, l: seq<Entity>, changes: Changes, now: string, script: seq<Fault>, files: Files)
    requires MayEdit(config, DocsOf(start), id, revision, l) && l[|l| - 1].content.Document?
    requires Readable(config, Changed(l[|l| - 1].content, changes, now, false))
    requires
      var w := UpdateWrites(config, l[|l| - 1], changes, now);
      FirstFault(script, |w|) < |w| && LeftByScript(start, InPathOrder(config.leq, w), script, false, files)
    ensures Intact(config, DocsOf(files), id, |l|) <==> |UpdateWrites(config, l[|l| - 1], changes, now)| == 1 || !Halved(script)
  {
    UpdateDocumentsLeft(config, start, l[|l| - 1], changes, now, script, files);
    FailedUpdateCatalog(config, DocsOf(start), id, revision, l, changes, now, script, DocsOf(files));
  }

  lemma UpdateDocumentsLeft(config: StorageConfig, start: Files, current: Entity, changes: Changes, now: string, script: seq<Fault>, files: Files)
    requires current.content.Document? && current.path.DocumentFile?
    requires LeftByScript(start, InPathOrder(config.leq, UpdateWrites(config, current, changes, now)), script, false, files)
    ensures LeftByScript(DocsOf(start), InPathOrder(config.leq, UpdateWrites(config, current, changes, now)), script, false, DocsOf(files))
  {
    var w := UpdateWrites(config, current, changes, now);
    assert forall x :: x in InPathOrder(config.leq, w) ==> x.path.DocumentFile? by {
      SameElements(config.leq, w);
    }
    DocumentsLeft(start, InPathOrder(config.leq, w), script, files);
  }

  /** The documents of a disk after a failed batch of documents are what the batch leaves of them. */
  lemma DocumentsLeft(start: Files, w: seq<Write>, script: seq<Fault>, files: Files)
    requires forall x :: x in w ==> x.path.DocumentFile?
    requires LeftByScript(start, w, script, false, files)
    ensures LeftByScript(DocsOf(start), w, script, false, DocsOf(files))
  {
    var f := FirstFault(script, |w|);
    if f < |w| {
      var fault, rest := FaultAt(script, f), Skip(script, f + 1);
      forall i | 0 <= i < |w|
        ensures Get(DocsOf(files), w[i].path) == if Stays(fault, rest, f, false, i) then w[i].bytes else Get(DocsOf(start), w[i].path)
      {
        assert w[i] in w;
        assert Get(files, w[i].path) == if Stays(fault, rest, f, false, i) then w[i].bytes else Get(start, w[i].path);
      }
      forall p: Path | forall i :: 0 <= i < |w| ==> w[i].path != p ensures Get(DocsOf(files), p) == Get(DocsOf(start), p) {
        assert Get(files, p) == Get(start, p);
      }
    }
  }

  lemma UpdateBatchLeft(config: StorageConfig, docs: Files, current: Entity, changes: Changes, now: string, script: seq<Fault>, after: Files)
    requires current.content.Document?
    requires
      var w := UpdateWrites(config, current, changes, now);
      FirstFault(script, |w|) < |w| && LeftByScript(docs, InPathOrder(config.leq, w), script, false, after)
    ensures
      var w := UpdateWrites(config, current, changes, now);
      if |w| == 1 || !Halved(script) then after == docs || after == Apply(docs, w)
      else after == Apply(docs, [w[0]]) || after == Apply(docs, [w[1]])
  {
    EditLeft(config.leq, docs, UpdateWrites(config, current, changes, now), script, after);
  }

  lemma UpdateLeft(config: StorageConfig, docs: Files, id: string, revision: Revision<Content>, l: seq<Entity>, changes: Changes, now: string, whole: bool, after: Files)
    requires MayEdit(config, docs, id, revision, l) && l[|l| - 1].content.Document?
    requires Readable(config, Changed(l[|l| - 1].content, changes, now, false))
    requires
      var w := UpdateWrites(config, l[|l| - 1], changes, now);
      if whole then after == docs || after == Apply(docs, w)
      else |w| == 2 && (after == Apply(docs, [w[0]]) || after == Apply(docs, [w[1]]))
    ensures Intact(config, after, id, |l|) <==> whole
    ensures
      var w := UpdateWrites(config, l[|l| - 1], changes, now);
      whole
      || (after == Apply(docs, [w[0]]) && !CatalogValid(config, after))
      || (|w| == 2 && after == Apply(docs, [w[1]]) && CatalogValid(config, after) && !HasVersion(after, id, |l|))
  {
    if whole {
      WholeUpdate(config, docs, id, revision, l, changes, now, after);
    } else {
      HalfUpdate(config, docs, id, revision, l, changes, now, after);
    }
  }

  lemma WholeUpdate(config: StorageConfig, docs: Files, id: string, revision: Revision<Content>, l: seq<Entity>, changes: Changes, now: string, after: Files)
    requires MayEdit(config, docs, id, revision, l) && l[|l| - 1].content.Document?
    requires Readable(config, Changed(l[|l| - 1].content, changes, now, false))
    requires after == docs || after == Apply(docs, UpdateWrites(config, l[|l| - 1], changes, now))
    ensures Intact(config, after, id, |l|)
  {
    if after == docs {
      CurrentIsIntact(config, docs, id, revision, l);
    } else {
      UpdateIsIntact(config, docs, id, revision, l, changes, now);
    }
  }

  lemma HalfUpdate(config: StorageConfig, docs: Files, id: string, revision: Revision<Content>, l: seq<Entity>, changes: Changes, now: string, after: Files)
    requires MayEdit(config, docs, id, revision, l) && l[|l| - 1].content.Document?
    requires
      var w := UpdateWrites(config, l[|l| - 1], changes, now);
      |w| == 2 && (after == Apply(docs, [w[0]]) || after == Apply(docs, [w[1]]))
    ensures !Intact(config, after, id, |l|)
    ensures
      var w := UpdateWrites(config, l[|l| - 1], changes, now);
      || (after == Apply(docs, [w[0]]) && !CatalogValid(config, after))
      || (after == Apply(docs, [w[1]]) && CatalogValid(config, after) && !HasVersion(after, id, |l|))
  {
    RenameCrash(config, docs, id, revision, l, changes, now);
  }

  lemma CurrentIsIntact(config: StorageConfig, docs: Files, id: string, revision: Revision<Content>, l: seq<Entity>)
    requires MayEdit(config, docs, id, revision, l)
    ensures Intact(config, docs, id, |l|)
  {
    CurrentVersion(config, docs, id, revision, l);
    assert docs[l[|l| - 1].path] == l[|l| - 1].content;
  }
}
