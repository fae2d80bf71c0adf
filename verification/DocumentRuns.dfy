/**
 Runs of a document store over its whole life: completed edits, moves that die or fail
 somewhere, and recoveries that fail in turn until one completes.
 */
module DocumentRuns {
  import opened Wrappers
  import opened FileBatches
  import opened DocumentCatalog
  import opened DocumentMoves
  import opened DocumentPlans
  import opened DocumentEdits
  import opened DocumentFailures

  // ---- Events ----

  /** The batch of an edit touches documents only. */
  lemma EditsKeepControl(files: Files, writes: seq<Write>)
    requires forall w :: w in writes ==> w.path.DocumentFile?
    ensures SameControl(files, Apply(files, writes)) && DocsOf(Apply(files, writes)) == Apply(DocsOf(files), writes)
  {
    DocsOfApply(files, writes);
    forall p: Path | !p.DocumentFile? ensures Get(Apply(files, writes), p) == Get(files, p) {
      WritesMiss(writes, p);
      ApplyElsewhere(files, writes, p);
    }
  }

  /**
   What happens between two settled stores: an operation, or a move under these faults and
   the recoveries after it.
   */
  datatype Event =
    | Edited(links: set<Path>, op: Operation)
    | Interrupted(id: string, revision: Revision<Content>, destination: Location, l: seq<Entity>, script: seq<Fault>, disks: seq<Files>, links: set<Path>, later: set<Path>)

  /** Only documents change. */
  ghost predicate SameControl(s: Files, t: Files) {
    forall p: Path {:trigger Get(t, p)} :: !p.DocumentFile? ==> Get(t, p) == Get(s, p)
  }

  /** An allowed move of the lineage `l`, run under these faults. */
  ghost predicate MoveRan(config: StorageConfig, s: Files, links: set<Path>, id: string, revision: Revision<Content>, destination: Location, l: seq<Entity>, script: seq<Fault>, disk: Files) {
    && MayMove(config, DocsOf(s), links, id, revision, destination, l) && |l| <= MAX_VERSIONS
    && MoveLeft(config, s, JournalOf(config, id, l, destination), script, disk)
  }

  /** An operation of the catalogue that completed or left the store as it was. */
  ghost predicate EditRan(config: StorageConfig, links: set<Path>, s: Files, op: Operation, t: Files) {
    t == s || (Step(config, links, DocsOf(s), op, DocsOf(t)) && SameControl(s, t))
  }

  /**
   From one settled store to the next: an operation that completed or left the store as it
   was, or an allowed move that stopped wherever recovery can decide it, recoveries that all
   failed in some way, and one that was accepted and completed. Issues may be linked and
   unlinked in between.
   */
  ghost predicate Happens(config: StorageConfig, s: Files, e: Event, t: Files) {
    match e
    case Edited(links, op) => EditRan(config, links, s, op, t)
    case Interrupted(id, revision, destination, l, script, disks, links, later) =>
      && FailingRecoveries(disks) && MoveRan(config, s, links, id, revision, destination, l, script, disks[0])
      && DecidedByFaults(JournalOf(config, id, l, destination), script)
      && RecoveryPlan(config, disks[|disks| - 1], later).Ok?
      && t == Apply(disks[|disks| - 1], RecoveryPlan(config, disks[|disks| - 1], later).value)
  }

  ghost predicate IsSettled(config: StorageConfig, s: Files) {
    Quiescent(s) && CatalogValid(config, DocsOf(s))
  }

  lemma MoveIsStep(config: StorageConfig, links: set<Path>, base: Files, id: string, revision: Revision<Content>, destination: Location, l: seq<Entity>)
    requires MayMove(config, DocsOf(base), links, id, revision, destination, l) && |l| <= MAX_VERSIONS
    requires EntriesPlanned(config, base, JournalOf(config, id, l, destination))
    ensures Step(config, links, DocsOf(base), MoveDoc(id, revision, destination), DocsOf(Moved(base, JournalOf(config, id, l, destination))))
  {
    var journal := JournalOf(config, id, l, destination);
    BackupPaths(config, journal);
    MovedDocs(base, journal);
    assert MovedAway(config, links, DocsOf(base), id, revision, destination, l, DocsOf(Moved(base, journal)));
  }

  /** However it was interrupted, a recovered move happened in one step or not at all. */
  lemma InterruptedIsAtomic(config: StorageConfig, s: Files, e: Event, t: Files)
    requires IsSettled(config, s) && e.Interrupted? && Happens(config, s, e, t)
    ensures t == s || Step(config, e.links, DocsOf(s), MoveDoc(e.id, e.revision, e.destination), DocsOf(t))
    ensures Quiescent(t)
  {
    var journal := JournalOf(config, e.id, e.l, e.destination);
    AllowedMoveIsPlanned(config, s, e.links, e.id, e.revision, e.destination, e.l);
    MoveLeftIsDecided(config, s, journal, e.script, e.disks[0]);
    var committed := Recoverable(s, journal, true, e.disks[0]);
    RecoveredIsDecided(config, s, journal, committed, e.disks, e.later, t);
    if committed {
      BackupPaths(config, journal);
      MovedQuiescent(s, journal);
      MoveIsStep(config, e.links, s, e.id, e.revision, e.destination, e.l);
    }
  }

  lemma RecoveredIsDecided(config: StorageConfig, base: Files, journal: MoveJournal, committed: bool, disks: seq<Files>, links: set<Path>, t: Files)
    requires Planned(config, base, journal) && FailingRecoveries(disks) && Recoverable(base, journal, committed, disks[0])
    requires RecoveryPlan(config, disks[|disks| - 1], links).Ok?
    requires t == Apply(disks[|disks| - 1], RecoveryPlan(config, disks[|disks| - 1], links).value)
    ensures t == Decided(base, journal, committed)
  {
    FailingRecoveriesStayRecoverable(config, base, journal, committed, disks);
    RecoveryStep(config, base, journal, links, committed, disks[|disks| - 1], 0);
  }

  lemma EditedStaysSettled(config: StorageConfig, s: Files, links: set<Path>, op: Operation, t: Files)
    requires IsSettled(config, s) && Step(config, links, DocsOf(s), op, DocsOf(t)) && SameControl(s, t)
    ensures IsSettled(config, t)
  {
    StepKeepsValid(config, links, DocsOf(s), op, DocsOf(t));
    assert Get(t, JournalFile) == Get(s, JournalFile);
    forall i: BackupIndex ensures BackupFile(i) !in t {
      assert Get(t, BackupFile(i)) == Get(s, BackupFile(i));
    }
  }

  lemma StepKeepsHistory(config: StorageConfig, links: set<Path>, docs: Files, op: Operation, after: Files)
    requires Step(config, links, docs, op, after) && CatalogValid(config, docs)
    ensures KeepsHistory(docs, after)
  {
    forall c | Superseded(docs, c) ensures Superseded(after, c) {
      StepKeepsSuperseded(config, links, docs, op, after, c);
    }
  }

  lemma EventKeepsHistory(config: StorageConfig, s: Files, e: Event, t: Files)
    requires IsSettled(config, s) && Happens(config, s, e, t)
    ensures IsSettled(config, t) && KeepsHistory(DocsOf(s), DocsOf(t))
  {
    match e
    case Edited(links, op) =>
      if t != s {
        EditedStaysSettled(config, s, links, op, t);
        StepKeepsHistory(config, links, DocsOf(s), op, DocsOf(t));
      }
    case Interrupted(id, revision, destination, _, _, _, links, _) =>
      InterruptedIsAtomic(config, s, e, t);
      if t != s {
        StepKeepsValid(config, links, DocsOf(s), MoveDoc(id, revision, destination), DocsOf(t));
        StepKeepsHistory(config, links, DocsOf(s), MoveDoc(id, revision, destination), DocsOf(t));
      }
  }

  // ---- Runs ----

  ghost predicate HappensAt(config: StorageConfig, stores: seq<Files>, events: seq<Event>, n: nat)
    requires |stores| == |events| + 1 && n < |events|
  {
    Happens(config, stores[n], events[n], stores[n + 1])
  }

  ghost predicate IsLife(config: StorageConfig, stores: seq<Files>, events: seq<Event>) {
    && |stores| == |events| + 1
    && forall n {:trigger HappensAt(config, stores, events, n)} :: 0 <= n < |events| ==> HappensAt(config, stores, events, n)
  }

  /** `IsSettled` as a value: an induction carries it along without looking inside. */
  ghost function SettledOf(config: StorageConfig): Files -> bool {
    s => IsSettled(config, s)
  }

  ghost function HistoryOf(): (Files, Files) -> bool {
    (s, t) => KeepsHistory(DocsOf(s), DocsOf(t))
  }

  lemma HistoryIsPreorder(keeps: (Files, Files) -> bool)
    requires keeps == HistoryOf()
    ensures forall a {:trigger keeps(a, a)} :: keeps(a, a)
    ensures forall a, b, c {:trigger keeps(a, b), keeps(b, c)} :: keeps(a, b) && keeps(b, c) ==> keeps(a, c)
  {
  }

  lemma NextSettled(config: StorageConfig, stores: seq<Files>, events: seq<Event>, settled: Files -> bool, keeps: (Files, Files) -> bool, n: nat)
    requires IsLife(config, stores, events) && n < |events| && settled == SettledOf(config) && keeps == HistoryOf()
    requires settled(stores[n])
    ensures settled(stores[n + 1]) && keeps(stores[n], stores[n + 1])
  {
    assert HappensAt(config, stores, events, n);
    EventKeepsHistory(config, stores[n], events[n], stores[n + 1]);
  }

  lemma AllNext(config: StorageConfig, stores: seq<Files>, events: seq<Event>, settled: Files -> bool, keeps: (Files, Files) -> bool)
    requires IsLife(config, stores, events) && settled == SettledOf(config) && keeps == HistoryOf()
    ensures forall n {:trigger settled(stores[n])} :: 0 <= n < |events| && settled(stores[n]) ==>
      settled(stores[n + 1]) && keeps(stores[n], stores[n + 1])
  {
    forall n | 0 <= n < |events| && settled(stores[n]) ensures settled(stores[n + 1]) && keeps(stores[n], stores[n + 1]) {
      NextSettled(config, stores, events, settled, keeps, n);
    }
  }

  /** What every step keeps and adds, a run keeps and adds. */
  lemma {:induction false} Inductively(stores: seq<Files>, settled: Files -> bool, keeps: (Files, Files) -> bool, i: nat, j: nat)
    requires i <= j < |stores| && settled(stores[i])
    requires forall n {:trigger settled(stores[n])} :: 0 <= n < |stores| - 1 && settled(stores[n]) ==> settled(stores[n + 1]) && keeps(stores[n], stores[n + 1])
    requires forall a {:trigger keeps(a, a)} :: keeps(a, a)
    requires forall a, b, c {:trigger keeps(a, b), keeps(b, c)} :: keeps(a, b) && keeps(b, c) ==> keeps(a, c)
    ensures settled(stores[j]) && keeps(stores[i], stores[j])
    decreases j
  {
    if i < j {
      Inductively(stores, settled, keeps, i, j - 1);
      assert keeps(stores[j - 1], stores[j - 1 + 1]);
    } else {
      assert keeps(stores[i], stores[i]);
    }
  }

  lemma LifeKeeps(config: StorageConfig, stores: seq<Files>, events: seq<Event>, settled: Files -> bool, keeps: (Files, Files) -> bool, i: nat, j: nat)
    requires IsLife(config, stores, events) && settled == SettledOf(config) && keeps == HistoryOf()
    requires settled(stores[0]) && i <= j < |stores|
    ensures settled(stores[j]) && keeps(stores[i], stores[j])
  {
    AllNext(config, stores, events, settled, keeps);
    HistoryIsPreorder(keeps);
    Inductively(stores, settled, keeps, 0, i);
    Inductively(stores, settled, keeps, i, j);
  }

  /**
   Over the whole life of a store, through interrupted moves and failing recoveries, every
   settled store is a valid catalogue without leftovers, and what was superseded once stays
   there with its exact content.
   */
  lemma LifeKeepsHistory(config: StorageConfig, stores: seq<Files>, events: seq<Event>, i: nat, j: nat)
    requires IsLife(config, stores, events) && IsSettled(config, stores[0]) && i <= j < |stores|
    ensures IsSettled(config, stores[j]) && KeepsHistory(DocsOf(stores[i]), DocsOf(stores[j]))
  {
    LifeKeeps(config, stores, events, SettledOf(config), HistoryOf(), i, j);
  }
}
