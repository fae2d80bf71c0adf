/**
 Concrete stores for the document results that come with a condition: a restore whose
 recovery a link blocks, a move that loses a version, a journal left without its backups,
 and a rename that uncovers an old version.
 */
module DocumentExamples {
  import opened Wrappers
  import opened FileBatches
  import opened DocumentCatalog
  import opened DocumentMoves
  import opened DocumentPlans
  import opened DocumentEdits
  import opened DocumentFailures
  import opened DocumentMixtures
  import Store = DocumentStore
  import Identities

  const ID := "doc-00001"
  const TIME := "2025-01-01T00:00:00.000Z"

  /** The control directory, then the archive, then the active documents; within each by name. */
  function Rank(p: Path): nat {
    match p
    case BackupFile(_) => 0
    case JournalFile => 1
    case DocumentFile(location, _) => if location == Archive then 2 else 3
  }

  predicate PathOrder(a: Path, b: Path) {
    if Rank(a) != Rank(b) then Rank(a) < Rank(b)
    else if a.BackupFile? && b.BackupFile? then a.index <= b.index
    else if a.DocumentFile? && b.DocumentFile? then Identities.CodePointOrder(a.name, b.name) <= 0
    else true
  }

  /** Titles of lower-case letters are their own slugs. */
  function PlainConfig(): StorageConfig {
    StorageConfig("doc-", title => title, (a, b) => PathOrder(a, b), (m, body) => true)
  }

  function Doc(title: string, version: nat): Content {
    Document(Metadata(ID, title, "hld", "draft", version, TIME, TIME, None, None), "")
  }

  function At(location: Location, title: string, version: nat): Path {
    DocumentPath(PlainConfig(), location, Doc(title, version).metadata)
  }

  function Version(location: Location, version: nat): Entity {
    Entity(At(location, "plan", version), Doc("plan", version))
  }

  /** A store with one version of one document. */
  function One(location: Location): Files {
    map[At(location, "plan", 1) := Doc("plan", 1)]
  }

  /** A store with two versions of one document. */
  function Two(location: Location): Files {
    map[At(location, "plan", 1) := Doc("plan", 1), At(location, "plan", 2) := Doc("plan", 2)]
  }

  lemma IdentityFits()
    ensures Identities.IsPrefixedIdentity(ID, "doc-", 5)
  {
    assert ID[|"doc-"|..] == "00001";
  }

  lemma VersionsApart(location: Location, first: string, second: string)
    ensures At(location, first, 1) != At(location, second, 2)
  {
    if At(location, first, 1) == At(location, second, 2) {
      FilenameTellsVersion(PlainConfig(), Doc(first, 1).metadata, Doc(second, 2).metadata);
    }
  }

  lemma OneIsValid(location: Location)
    ensures CatalogValid(PlainConfig(), One(location)) && Quiescent(One(location)) && DocsOf(One(location)) == One(location)
    ensures IsLineage([Version(location, 1)], One(location), ID)
  {
    IdentityFits();
    OneFileValid(PlainConfig(), At(location, "plan", 1), Doc("plan", 1), ID);
  }

  lemma OneFileValid(config: StorageConfig, p: Path, c: Content, id: string)
    requires WellFiled(config, p, c) && c.metadata.id == id && c.metadata.version == 1
    ensures
      var docs := map[p := c];
      CatalogValid(config, docs) && Quiescent(docs) && DocsOf(docs) == docs && IsLineage([Entity(p, c)], docs, id)
  {
    var docs := map[p := c];
    assert docs.Keys == {p};
    assert DocsOf(docs) == docs;
  }

  lemma TwoIsValid(location: Location)
    ensures CatalogValid(PlainConfig(), Two(location)) && Quiescent(Two(location)) && DocsOf(Two(location)) == Two(location)
    ensures IsLineage([Version(location, 1), Version(location, 2)], Two(location), ID)
  {
    IdentityFits();
    VersionsApart(location, "plan", "plan");
    TwoFilesValid(PlainConfig(), At(location, "plan", 1), Doc("plan", 1), At(location, "plan", 2), Doc("plan", 2), ID);
  }

  /** Two versions of one document at two paths. */
  ghost predicate AreVersions(config: StorageConfig, p: Path, c: Content, q: Path, d: Content, id: string) {
    && p != q && WellFiled(config, p, c) && WellFiled(config, q, d) && p.location == q.location
    && c.metadata.id == id && d.metadata.id == id && c.metadata.createdAt == d.metadata.createdAt
    && c.metadata.version == 1 && d.metadata.version == 2
  }

  lemma TwoFilesValid(config: StorageConfig, p: Path, c: Content, q: Path, d: Content, id: string)
    requires AreVersions(config, p, c, q, d, id)
    ensures
      var docs := map[p := c, q := d];
      CatalogValid(config, docs) && Quiescent(docs) && DocsOf(docs) == docs && IsLineage([Entity(p, c), Entity(q, d)], docs, id)
  {
    TwoFilesOnly(config, p, c, q, d, id);
    TwoFilesAgree(config, p, c, q, d, id);
    TwoFilesLineage(config, p, c, q, d, id);
  }

  lemma TwoFilesOnly(config: StorageConfig, p: Path, c: Content, q: Path, d: Content, id: string)
    requires AreVersions(config, p, c, q, d, id)
    ensures var docs := map[p := c, q := d];
      |docs| <= MAX_DOCUMENTS && WellFiledDocs(config, docs) && Quiescent(docs) && DocsOf(docs) == docs
  {
    var docs := map[p := c, q := d];
    assert docs.Keys == {p, q};
    assert DocsOf(docs) == docs;
  }

  lemma TwoFilesAgree(config: StorageConfig, p: Path, c: Content, q: Path, d: Content, id: string)
    requires AreVersions(config, p, c, q, d, id)
    ensures LineagesValid(map[p := c, q := d])
  {
    var docs := map[p := c, q := d];
    assert docs[p] == c && docs[q] == d;
    assert HasVersion(docs, id, 1);
  }

  lemma TwoFilesLineage(config: StorageConfig, p: Path, c: Content, q: Path, d: Content, id: string)
    requires AreVersions(config, p, c, q, d, id)
    ensures IsLineage([Entity(p, c), Entity(q, d)], map[p := c, q := d], id)
  {
    var docs := map[p := c, q := d];
    var l := [Entity(p, c), Entity(q, d)];
    assert docs[p] == c && docs[q] == d;
    assert l[0] == Entity(p, c) && l[1] == Entity(q, d);
  }

  // ---- A link to a restored document ----

  lemma MayMoveOne(location: Location)
    ensures MayMove(PlainConfig(), DocsOf(One(location)), {}, ID, V1(Doc("plan", 1)), Other(location), [Version(location, 1)])
  {
    IdentityFits();
    OneIsValid(location);
  }

  lemma MayMoveTwo(location: Location)
    ensures MayMove(PlainConfig(), DocsOf(Two(location)), {}, ID, V1(Doc("plan", 2)), Other(location), [Version(location, 1), Version(location, 2)])
  {
    IdentityFits();
    TwoIsValid(location);
  }

  function RestoreJournal(): MoveJournal {
    JournalOf(PlainConfig(), ID, [Version(Archive, 1)], Active)
  }

  /** A restore that dies before its journal is deleted; the active document is then linked; recovery is refused. */
  lemma LinkedRestoreIsStuck()
    ensures
      var s := CrashedMove(PlainConfig(), One(Archive), RestoreJournal(), CommitPoint(RestoreJournal()));
      var linked := {At(Active, "plan", 1)};
      MayLink(PlainConfig(), s, linked) && RecoveryPlan(PlainConfig(), s, linked) == Err(Synchronization)
  {
    RestoreIsPlanned();
    RestoreEntries();
    LinkBlocksRecovery(PlainConfig(), One(Archive), RestoreJournal(), RestoreJournal().entries[0]);
  }

  lemma RestoreIsPlanned()
    ensures Planned(PlainConfig(), One(Archive), RestoreJournal())
  {
    MayMoveOne(Archive);
    OneIsValid(Archive);
    AllowedMoveIsPlanned(PlainConfig(), One(Archive), {}, ID, V1(Doc("plan", 1)), Active, [Version(Archive, 1)]);
  }

  lemma OneEntry(config: StorageConfig, id: string, e: Entity, destination: Location)
    requires e.content.Document?
    ensures JournalOf(config, id, [e], destination).entries == [EntryOf(config, e, destination, 1)]
  {
    assert |JournalOf(config, id, [e], destination).entries| == 1;
  }

  lemma RestoreEntries()
    ensures RestoreJournal().entries == [EntryOf(PlainConfig(), Version(Archive, 1), Active, 1)]
  {
    OneEntry(PlainConfig(), ID, Version(Archive, 1), Active);
  }

  // ---- A version lost by a failed move ----

  lemma TwoSwapped(leq: (Path, Path) -> bool, x: Write, y: Write)
    requires !leq(x.path, y.path)
    ensures InPathOrder(leq, [x, y]) == [y, x]
  {
    assert [x, y][1..] == [y] && [y][1..] == [];
    assert InsertByPath(leq, y, []) == [y];
    assert InPathOrder(leq, [y]) == [y];
    assert [y][1..] == [] && InsertByPath(leq, x, [y]) == [y] + InsertByPath(leq, x, []);
  }

  lemma DeletedFirst(e: MoveEntry)
    requires e.source.DocumentFile? && e.destination.DocumentFile?
    requires e.source.location == Archive && e.destination.location == Active
    ensures InPathOrder(PlainConfig().leq, MoveWrites([e])) == [Delete(e), Create(e)]
  {
    assert [e][..0] == [];
    assert MoveWrites([e]) == [Create(e), Delete(e)];
    TwoSwapped(PlainConfig().leq, Create(e), Delete(e));
  }

  /** The deletion works, the creation throws without effect, and undoing the deletion throws too. */
  lemma LosingFaults(journal: MoveJournal, e: MoveEntry)
    requires journal.entries == [e] && e.source.DocumentFile? && e.destination.DocumentFile?
    requires e.source.location == Archive && e.destination.location == Active
    ensures LosesVersion(PlainConfig(), journal, 1, Throws(false), [Throws(false)])
    ensures Cleaned(journal, 1, Throws(false), [Throws(false)])
  {
    DeletedFirst(e);
    var writes := InPathOrder(PlainConfig().leq, MoveWrites(journal.entries));
    assert writes[0] == Delete(e) && writes[1] == Create(e) && e in journal.entries;
    assert Skip([Throws(false)], 1) == [];
    assert Stays(Throws(false), [Throws(false)], 1, false, 0) && !Stays(Throws(false), [Throws(false)], 1, false, 1);
    FirstFaultIs([], 2, 2);
  }

  lemma LosingScript(config: StorageConfig, base: Files, journal: MoveJournal, files: Files)
    requires |journal.entries| == 1
    requires MoveLeft(config, base, journal, [Works, Works, Works, Throws(false), Throws(false)], files)
    ensures BatchFailed(config, base, journal, Prepared(base, journal, true), 1, Throws(false), [Throws(false)], files)
  {
    var script, rest := [Works, Works, Works, Throws(false), Throws(false)], [Works, Throws(false), Throws(false)];
    FirstFaultIs(script, 2, 2);
    assert Skip(script, 2) == rest;
    FirstFaultIs(rest, 2, 1);
    assert Skip(rest, 2) == [Throws(false)];
  }

  /** A move that is allowed, run on a store without leftovers with these faults. */
  method RunFaultyMove(config: StorageConfig, base: Files, script: seq<Fault>, id: string, revision: Revision<Content>, destination: Location, ghost l: seq<Entity>)
    returns (disk: Disk<Path, Content>, o: Outcome, journal: Option<MoveJournal>)
    requires Quiescent(base) && MayMove(config, DocsOf(base), {}, id, revision, destination, l)
    ensures |l| <= MAX_VERSIONS && !o.Rejected? && journal == Some(JournalOf(config, id, l, destination))
    ensures Planned(config, base, journal.value) && MoveLeft(config, base, journal.value, script, disk.files)
  {
    disk := new Disk(base, script);
    var store := new Store.DocumentStore(config, disk);
    Store.NoOrphans(base, 0);
    o, journal := store.MoveLineage(id, revision, destination, {});
    Store.NothingOnWay(config, base, journal.value, script, disk.files);
    OneJournal(config, DocsOf(base), id, revision, destination, l, journal.value);
  }

  lemma OneJournal(config: StorageConfig, docs: Files, id: string, revision: Revision<Content>, destination: Location, l: seq<Entity>, journal: MoveJournal)
    requires MayMove(config, docs, {}, id, revision, destination, l) && Store.JournalsMove(config, docs, {}, id, revision, destination, journal)
    ensures |l| <= MAX_VERSIONS && journal == JournalOf(config, id, l, destination)
  {
    Store.LineageUnique(docs, id, l);
  }

  /** Restoring one version by the operation of the store, and the version is nowhere. */
  method LostByFailedRestore() returns (disk: Disk<Path, Content>, o: Outcome)
    ensures !o.Rejected?
    ensures Get(disk.files, At(Archive, "plan", 1)) != Some(Doc("plan", 1))
    ensures Get(disk.files, At(Active, "plan", 1)) != Some(Doc("plan", 1))
    ensures Get(disk.files, BackupFile(1)) != Some(Doc("plan", 1))
  {
    MayMoveOne(Archive);
    OneIsValid(Archive);
    var script := [Works, Works, Works, Throws(false), Throws(false)];
    var journal;
    disk, o, journal := RunFaultyMove(PlainConfig(), One(Archive), script, ID, V1(Doc("plan", 1)), Active, [Version(Archive, 1)]);
    LostVersion(disk.files);
  }

  lemma LostVersion(files: Files)
    requires MoveLeft(PlainConfig(), One(Archive), RestoreJournal(), [Works, Works, Works, Throws(false), Throws(false)], files)
    ensures Get(files, At(Archive, "plan", 1)) != Some(Doc("plan", 1))
    ensures Get(files, At(Active, "plan", 1)) != Some(Doc("plan", 1))
    ensures Get(files, BackupFile(1)) != Some(Doc("plan", 1))
  {
    RestoreEntries();
    LosesOnlyVersion(PlainConfig(), One(Archive), RestoreJournal(), EntryOf(PlainConfig(), Version(Archive, 1), Active, 1), files);
  }

  lemma LosesOnlyVersion(config: StorageConfig, base: Files, journal: MoveJournal, e: MoveEntry, files: Files)
    requires config == PlainConfig() && journal.entries == [e] && e.source.DocumentFile? && e.destination.DocumentFile?
    requires e.source.location == Archive && e.destination.location == Active
    requires MoveLeft(config, base, journal, [Works, Works, Works, Throws(false), Throws(false)], files)
    ensures Get(files, e.source) != Some(ContentOf(e)) && Get(files, e.destination) != Some(ContentOf(e))
    ensures Get(files, e.backup) != Some(ContentOf(e))
  {
    LosingScript(config, base, journal, files);
    LosingFaults(journal, e);
    LosingIsLost(config, base, journal, Prepared(base, journal, true), files);
    assert !Survives([e], files);
  }

  lemma LosingIsLost(config: StorageConfig, base: Files, journal: MoveJournal, start: Files, files: Files)
    requires BatchFailed(config, base, journal, start, 1, Throws(false), [Throws(false)], files)
    requires Cleaned(journal, 1, Throws(false), [Throws(false)]) && LosesVersion(config, journal, 1, Throws(false), [Throws(false)])
    ensures !Survives(journal.entries, files)
  {
  }

  // ---- A version in two places after a failed move ----

  lemma CreatedFirst(e: MoveEntry)
    requires e.source.DocumentFile? && e.destination.DocumentFile?
    requires e.source.location == Active && e.destination.location == Archive
    ensures InPathOrder(PlainConfig().leq, MoveWrites([e])) == [Create(e), Delete(e)]
  {
    assert [e][..0] == [];
    assert MoveWrites([e]) == [Create(e), Delete(e)];
    TwoInOrder(PlainConfig().leq, Create(e), Delete(e));
  }

  lemma TwoInOrder(leq: (Path, Path) -> bool, x: Write, y: Write)
    requires leq(x.path, y.path)
    ensures InPathOrder(leq, [x, y]) == [x, y]
  {
    assert [x, y][1..] == [y] && [y][1..] == [];
    assert InsertByPath(leq, y, []) == [y];
    assert InPathOrder(leq, [y]) == [y];
  }

  /** The creation takes effect and throws; nothing is left to undo, and the cleanup works. */
  lemma DoublingScript(config: StorageConfig, base: Files, journal: MoveJournal, e: MoveEntry, files: Files)
    requires config == PlainConfig() && journal.entries == [e] && e.source.DocumentFile? && e.destination.DocumentFile?
    requires e.source.location == Active && e.destination.location == Archive
    requires MoveLeft(config, base, journal, [Works, Works, Throws(true)], files)
    ensures files == Put(base, e.destination, Some(ContentOf(e)))
  {
    DoublingFaults(config, base, journal, files);
    CreatedFirst(e);
    FirstFaultIs([], 2, 2);
    FirstFaultIs([], 0, 0);
    assert Cleaned(journal, 0, Throws(true), []);
  }

  lemma DoublingFaults(config: StorageConfig, base: Files, journal: MoveJournal, files: Files)
    requires |journal.entries| == 1 && MoveLeft(config, base, journal, [Works, Works, Throws(true)], files)
    ensures BatchFailed(config, base, journal, Prepared(base, journal, true), 0, Throws(true), [], files)
  {
    var script := [Works, Works, Throws(true)];
    FirstFaultIs(script, 2, 2);
    assert Skip(script, 2) == [Throws(true)];
    FirstFaultIs([Throws(true)], 2, 0);
    assert Skip([Throws(true)], 1) == [];
  }

  /** Archiving one version by the operation of the store: it stands in both places, and no journal is left to undo it. */
  method DoubledByFailedArchive() returns (disk: Disk<Path, Content>, o: Outcome)
    ensures !o.Rejected? && JournalFile !in disk.files && !CatalogValid(PlainConfig(), DocsOf(disk.files))
    ensures Get(disk.files, At(Active, "plan", 1)) == Get(disk.files, At(Archive, "plan", 1)) == Some(Doc("plan", 1))
  {
    MayMoveOne(Active);
    OneIsValid(Active);
    var script := [Works, Works, Throws(true)];
    var journal;
    disk, o, journal := RunFaultyMove(PlainConfig(), One(Active), script, ID, V1(Doc("plan", 1)), Archive, [Version(Active, 1)]);
    var e := EntryOf(PlainConfig(), Version(Active, 1), Archive, 1);
    OneEntry(PlainConfig(), ID, Version(Active, 1), Archive);
    DoublingScript(PlainConfig(), One(Active), journal.value, e, disk.files);
    Doubled(PlainConfig(), One(Active), Version(Active, 1), e.destination, disk.files);
  }

  lemma Doubled(config: StorageConfig, base: Files, current: Entity, p: Path, files: Files)
    requires Quiescent(base) && current.path.DocumentFile? && current.content.Document? && Get(base, current.path) == Some(current.content)
    requires p.DocumentFile? && p != current.path && files == Put(base, p, Some(current.content))
    ensures JournalFile !in files && !CatalogValid(config, DocsOf(files))
    ensures Get(files, current.path) == Get(files, p) == Some(current.content)
  {
    TwiceFiled(config, DocsOf(base), current, p, current.content);
    assert DocsOf(files) == DocsOf(base)[p := current.content];
  }

  // ---- A journal without its backups ----

  function ArchiveJournal(): MoveJournal {
    JournalOf(PlainConfig(), ID, [Version(Active, 1), Version(Active, 2)], Archive)
  }

  /** The journal takes effect and throws; of its two backups one is taken back before the process dies. */
  lemma HalfTakenBack(config: StorageConfig, base: Files, journal: MoveJournal, links: set<Path>, files: Files)
    requires Planned(config, base, journal) && |journal.entries| == 2
    requires MoveLeft(config, base, journal, [Works, Works, Throws(true), Works, Dies], files)
    ensures RecoveryPlan(config, files, links) == Err(Durability)
  {
    StuckScript(config, base, journal, files);
    PartlyTakenBack(config, base, journal, true, files);
    BackupGone(config, base, journal, files);
    JournalNeedsBackups(config, base, journal, true, links, files);
  }

  lemma StuckScript(config: StorageConfig, base: Files, journal: MoveJournal, files: Files)
    requires |journal.entries| == 2 && MoveLeft(config, base, journal, [Works, Works, Throws(true), Works, Dies], files)
    ensures TakenBack(config, base, journal, true, [Works, Dies], files)
  {
    var script := [Works, Works, Throws(true), Works, Dies];
    FirstFaultIs(script, 3, 2);
    FirstFaultIs(script, 2, 2);
    assert Skip(script, 3) == [Works, Dies];
  }

  lemma BackupGone(config: StorageConfig, base: Files, journal: MoveJournal, files: Files)
    requires |journal.entries| == 2 && TakenBack(config, base, journal, true, [Works, Dies], files)
    ensures !KeepsBackups(journal, files)
  {
    var deletes := InPathOrder(config.leq, BackupDeletes(journal.entries));
    FirstFaultIs([Works, Dies], 2, 1);
    assert Held(Dies, Skip([Works, Dies], 2), 1, false, 0, 0);
    assert Get(files, deletes[0].path) == deletes[0].bytes;
    assert deletes[0] in multiset(deletes) && deletes[0] in multiset(BackupDeletes(journal.entries));
    var i :| 0 <= i < 2 && BackupDeletes(journal.entries)[i] == deletes[0];
    assert journal.entries[i].backup !in files;
  }

  /** Archiving two versions, and every later recovery is refused whatever the links. */
  method StuckJournal() returns (disk: Disk<Path, Content>, o: Outcome)
    ensures !o.Rejected?
    ensures forall links :: RecoveryPlan(PlainConfig(), disk.files, links) == Err(Durability)
  {
    MayMoveTwo(Active);
    TwoIsValid(Active);
    var script := [Works, Works, Throws(true), Works, Dies];
    var journal;
    disk, o, journal := RunFaultyMove(PlainConfig(), Two(Active), script, ID, V1(Doc("plan", 2)), Archive, [Version(Active, 1), Version(Active, 2)]);
    forall links ensures RecoveryPlan(PlainConfig(), disk.files, links) == Err(Durability) {
      HalfTakenBack(PlainConfig(), Two(Active), ArchiveJournal(), links, disk.files);
    }
  }

  // ---- An interrupted rename ----

  /** A new title. */
  function Retitle(): Changes {
    Changes(Some("plot"), None, None, None, None, None)
  }

  lemma MayEditTwo()
    ensures MayEdit(PlainConfig(), Two(Active), ID, V1(Doc("plan", 2)), [Version(Active, 1), Version(Active, 2)])
  {
    IdentityFits();
    TwoIsValid(Active);
  }

  lemma RetitleRenames()
    ensures At(Active, "plot", 2) != At(Active, "plan", 2)
    ensures Changed(Doc("plan", 2), Retitle(), TIME, false) == Doc("plot", 2)
    ensures UpdateWrites(PlainConfig(), Version(Active, 2), Retitle(), TIME)
         == [Replacement(At(Active, "plot", 2), Some(Doc("plot", 2)), MustBeAbsent),
             Replacement(At(Active, "plan", 2), None, MustMatch(V1(Doc("plan", 2))))]
  {
    var i := |ID| + 3;
    assert At(Active, "plot", 2).name[i] == 'o' && At(Active, "plan", 2).name[i] == 'a';
  }

  /**
   Renaming version 2 by a new title: the deletion comes first in path order, and after a
   crash between the two writes version 2 is gone, the catalogue is valid, and version 1
   can be edited.
   */
  lemma RenameLosesNewest()
    ensures
      var steps := InPathOrder(PlainConfig().leq, UpdateWrites(PlainConfig(), Version(Active, 2), Retitle(), TIME));
      var crashed := Apply(Two(Active), steps[..1]);
      && CatalogValid(PlainConfig(), crashed) && !HasVersion(crashed, ID, 2)
      && MayEdit(PlainConfig(), crashed, ID, V1(Doc("plan", 1)), [Version(Active, 1)])
  {
    MayEditTwo();
    RetitleRenames();
    OldNameFirst();
    var w := UpdateWrites(PlainConfig(), Version(Active, 2), Retitle(), TIME);
    var l := [Version(Active, 1), Version(Active, 2)];
    TwoSwapped(PlainConfig().leq, w[0], w[1]);
    assert [w[1], w[0]][..1] == [w[1]];
    RenameCrash(PlainConfig(), Two(Active), ID, V1(Doc("plan", 2)), l, Retitle(), TIME);
    ApplyOne(Two(Active), w[1]);
    UncoveredIsEditable(PlainConfig(), Two(Active), ID, V1(Doc("plan", 2)), l);
    assert l[..1] == [Version(Active, 1)];
  }

  lemma OldNameFirst()
    ensures !PathOrder(At(Active, "plot", 2), At(Active, "plan", 2))
  {
    var tail := "-v" + Decimal(2) + ".md";
    assert At(Active, "plot", 2).name == ID + "-" + "plot" + tail && At(Active, "plan", 2).name == ID + "-" + "plan" + tail;
    PlotAfterPlan(ID, tail);
  }

  lemma PlotAfterPlan(id: string, tail: string)
    ensures Identities.CodePointOrder(id + "-" + "plot" + tail, id + "-" + "plan" + tail) > 0
  {
    var x, y := "ot" + tail, "an" + tail;
    Identities.OrderOfExtensions(id + "-pl", x, y);
    assert id + "-" + "plot" + tail == id + "-pl" + x && id + "-" + "plan" + tail == id + "-pl" + y;
    assert x[0] == 'o' && y[0] == 'a';
  }

  /** The same rename run by the operation of the store: the deletion takes effect and throws, and version 2 is gone. */
  method RenameThrows() returns (disk: Disk<Path, Content>, o: Outcome)
    ensures !o.Rejected? && !o.Applied?
    ensures CatalogValid(PlainConfig(), DocsOf(disk.files)) && !HasVersion(DocsOf(disk.files), ID, 2)
  {
    MayRetitle();
    ghost var l := [Version(Active, 1), Version(Active, 2)];
    disk, o := RunUpdate(PlainConfig(), Two(Active), [Throws(true)], ID, V1(Doc("plan", 2)), Retitle(), TIME, l);
    DeletedAlone(PlainConfig(), Two(Active), ID, V1(Doc("plan", 2)), Retitle(), TIME, l, o, disk.files, disk.faults);
  }

  lemma MayRetitle()
    ensures
      var l := [Version(Active, 1), Version(Active, 2)];
      var w := UpdateWrites(PlainConfig(), l[|l| - 1], Retitle(), TIME);
      && Store.MayUpdate(PlainConfig(), DocsOf(Two(Active)), {}, ID, V1(Doc("plan", 2)), Retitle(), TIME, l)
      && |w| == 2 && w[0].path.DocumentFile? && w[1].path.DocumentFile? && !PlainConfig().leq(w[0].path, w[1].path)
  {
    MayEditTwo();
    TwoIsValid(Active);
    RetitleRenames();
    OldNameFirst();
  }

  /** An update that is allowed, run on a store of documents with these faults. */
  method RunUpdate(config: StorageConfig, base: Files, script: seq<Fault>, id: string, revision: Revision<Content>, changes: Changes, now: string, ghost l: seq<Entity>)
    returns (disk: Disk<Path, Content>, o: Outcome)
    requires Store.MayUpdate(config, DocsOf(base), {}, id, revision, changes, now, l)
    ensures !o.Rejected? && Store.Wrote(config, base, script, UpdateWrites(config, l[|l| - 1], changes, now), o, disk.files, disk.faults)
  {
    disk := new Disk(base, script);
    var store := new Store.DocumentStore(config, disk);
    o := store.UpdateDocument(id, revision, changes, now, {});
    Store.LineageUnique(DocsOf(base), id, l);
  }

  lemma DeletedAlone(config: StorageConfig, base: Files, id: string, revision: Revision<Content>, changes: Changes, now: string, l: seq<Entity>, o: Outcome, files: Files, faults: seq<Fault>)
    requires MayEdit(config, DocsOf(base), id, revision, l) && l[|l| - 1].content.Document?
    requires
      var w := UpdateWrites(config, l[|l| - 1], changes, now);
      && |w| == 2 && w[0].path.DocumentFile? && w[1].path.DocumentFile? && !config.leq(w[0].path, w[1].path)
      && Store.Wrote(config, base, [Throws(true)], w, o, files, faults)
    ensures !o.Applied? && CatalogValid(config, DocsOf(files)) && !HasVersion(DocsOf(files), id, |l|)
  {
    var w := UpdateWrites(config, l[|l| - 1], changes, now);
    SecondHolds(config, base, w, o, files, faults);
    DocsOfApply(base, [w[1]]);
    RenameCrash(config, DocsOf(base), id, revision, l, changes, now);
  }

  /** The first publish in path order throws after taking effect: it holds and the other does not. */
  lemma SecondHolds(config: StorageConfig, base: Files, w: seq<Write>, o: Outcome, files: Files, faults: seq<Fault>)
    requires |w| == 2 && w[0].path != w[1].path && !config.leq(w[0].path, w[1].path)
    requires Store.Wrote(config, base, [Throws(true)], w, o, files, faults)
    ensures !o.Applied? && files == Apply(base, [w[1]])
  {
    var fault, rest := Throws(true), Skip([Throws(true)], 1);
    FirstFaultIs([Throws(true)], 2, 0);
    TwoSwapped(config.leq, w[0], w[1]);
    assert w == [w[0], w[1]];
    assert LeftBy(base, [w[1], w[0]], 0, fault, rest, false, files);
    TwoWritesLeft(base, [w[1], w[0]], 0, fault, rest, files);
    assert Stays(fault, rest, 0, false, 0) && !Stays(fault, rest, 0, false, 1);
    ApplyOne(base, w[1]);
  }
}
