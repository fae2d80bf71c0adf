/**
 What a document operation decides before it writes: which lineage a move takes,
 that the planned catalogue is valid, and that planning on the catalogue agrees
 with rediscovering the disk afterwards.
 */
module DocumentPlans {
  import opened Wrappers
  import opened FileBatches
  import opened DocumentCatalog
  import opened DocumentMoves
  import Identities

  function Other(location: Location): Location {
    if location == Active then Archive else Active
  }

  function EntryOf(config: StorageConfig, e: Entity, destination: Location, index: BackupIndex): MoveEntry
    requires e.content.Document?
  {
    MoveEntry(e.path, DocumentPath(config, destination, e.content.metadata), BackupFile(index), V1(e.content))
  }

  /** The journal of moving a lineage; backups are numbered from one. */
  function JournalOf(config: StorageConfig, id: string, l: seq<Entity>, destination: Location): MoveJournal
    requires |l| <= MAX_VERSIONS && forall k :: 0 <= k < |l| ==> l[k].content.Document?
  {
    MoveJournal(id, Other(destination), destination,
      seq(|l|, k requires 0 <= k < |l| => EntryOf(config, l[k], destination, k + 1)))
  }

  /** The lineage lies completely on the other side. */
  predicate LiesIn(l: seq<Entity>, location: Location) {
    forall k :: 0 <= k < |l| ==> l[k].path.DocumentFile? && l[k].path.location == location
  }

  /** What a move demands of the catalogue and of its caller. */
  ghost predicate MayMove(config: StorageConfig, docs: Files, links: set<Path>, id: string, revision: Revision<Content>, destination: Location, l: seq<Entity>) {
    && CatalogValid(config, docs)
    && Identities.IsPrefixedIdentity(id, config.prefix, 5)
    && IsLineage(l, docs, id)
    && LiesIn(l, Other(destination))
    && V1(l[|l| - 1].content) == revision
    && (destination == Archive ==> forall k :: 0 <= k < |l| ==> l[k].path !in links)
  }

  // ---- A file name tells the identity ----

  lemma NoDashInSuffix(value: string, prefix: string, i: nat)
    requires Identities.IsPrefixedIdentity(value, prefix, 5) && |prefix| <= i < |value|
    ensures value[i] != '-'
  {
    var suffix := value[|prefix|..];
    assert value[i] == suffix[i - |prefix|];
  }

  lemma SplitAtDash(a: string, x: string, b: string, y: string, n: nat)
    requires n <= |a| && n <= |b|
    requires forall i :: n <= i < |a| ==> a[i] != '-'
    requires forall i :: n <= i < |b| ==> b[i] != '-'
    requires a + "-" + x == b + "-" + y
    ensures a == b
  {
    var s := a + "-" + x;
    assert s[|a|] == '-' && s[|b|] == (b + "-" + y)[|b|] == '-';
    if |a| == |b| {
      assert a == s[..|a|] && b == (b + "-" + y)[..|b|];
    }
  }

  lemma FilenameTellsIdentity(config: StorageConfig, m: Metadata, n: Metadata)
    requires Identities.IsPrefixedIdentity(m.id, config.prefix, 5) && Identities.IsPrefixedIdentity(n.id, config.prefix, 5)
    requires Filename(config, m) == Filename(config, n)
    ensures m.id == n.id
  {
    forall i | |config.prefix| <= i < |m.id| ensures m.id[i] != '-' { NoDashInSuffix(m.id, config.prefix, i); }
    forall i | |config.prefix| <= i < |n.id| ensures n.id[i] != '-' { NoDashInSuffix(n.id, config.prefix, i); }
    var x := config.slug(m.title) + "-v" + Decimal(if m.version < 0 then 0 else m.version) + ".md";
    var y := config.slug(n.title) + "-v" + Decimal(if n.version < 0 then 0 else n.version) + ".md";
    assert Filename(config, m) == m.id + "-" + x;
    assert Filename(config, n) == n.id + "-" + y;
    SplitAtDash(m.id, x, n.id, y, |config.prefix|);
  }

  /** No document can be in the way of a lineage that changes sides. */
  lemma DestinationFree(config: StorageConfig, docs: Files, id: string, l: seq<Entity>, destination: Location, k: nat)
    requires CatalogValid(config, docs) && IsLineage(l, docs, id) && LiesIn(l, Other(destination)) && k < |l|
    ensures DocumentPath(config, destination, l[k].content.metadata) !in docs
  {
    var p := DocumentPath(config, destination, l[k].content.metadata);
    if p in docs {
      assert WellFiled(config, p, docs[p]) && WellFiled(config, l[k].path, docs[l[k].path]);
      FilenameTellsIdentity(config, docs[p].metadata, l[k].content.metadata);
    }
  }

  // ---- The planned move ----

  /** Versions of one lineage lie at distinct canonical paths of one location. */
  ghost predicate Sited(config: StorageConfig, l: seq<Entity>, location: Location) {
    && |l| <= MAX_VERSIONS
    && (forall k :: 0 <= k < |l| ==> l[k].content.Document? && l[k].path == DocumentPath(config, location, l[k].content.metadata))
    && (forall j, k :: 0 <= j < k < |l| ==> l[j].path != l[k].path)
  }

  lemma LineageSited(config: StorageConfig, docs: Files, id: string, l: seq<Entity>, location: Location)
    requires CatalogValid(config, docs) && IsLineage(l, docs, id) && LiesIn(l, location)
    ensures Sited(config, l, location)
  {
    var last := l[|l| - 1];
    assert docs[last.path].metadata.version == |l|;
    forall k | 0 <= k < |l| ensures l[k].path == DocumentPath(config, location, l[k].content.metadata) {
      assert WellFiled(config, l[k].path, docs[l[k].path]);
    }
  }

  lemma EntriesOfJournal(config: StorageConfig, id: string, l: seq<Entity>, destination: Location)
    requires Sited(config, l, Other(destination))
    ensures EntriesApart(JournalOf(config, id, l, destination).entries)
  {
    var entries := JournalOf(config, id, l, destination).entries;
    forall i, j | 0 <= i < j < |entries| ensures entries[i].destination != entries[j].destination && entries[i].source != entries[j].source {
      assert l[i].path != l[j].path;
    }
  }

  lemma JournalEntriesPlanned(config: StorageConfig, base: Files, id: string, l: seq<Entity>, destination: Location)
    requires Sited(config, l, Other(destination)) && |l| > 0
    requires Identities.IsPrefixedIdentity(id, config.prefix, 5)
    requires forall k :: 0 <= k < |l| ==> l[k].content.metadata.id == id && Get(base, l[k].path) == Some(l[k].content)
    requires forall k :: 0 <= k < |l| ==> DocumentPath(config, destination, l[k].content.metadata) !in base
    ensures EntriesPlanned(config, base, JournalOf(config, id, l, destination))
  {
    EntriesOfJournal(config, id, l, destination);
    JournalDecodes(config, id, l, destination);
    var journal := JournalOf(config, id, l, destination);
    forall e | e in journal.entries ensures EntryPlanned(config, base, journal, e) {
      var k :| 0 <= k < |journal.entries| && journal.entries[k] == e;
      assert l[k].path == DocumentPath(config, Other(destination), l[k].content.metadata);
    }
  }

  lemma JournalDecodes(config: StorageConfig, id: string, l: seq<Entity>, destination: Location)
    requires Sited(config, l, Other(destination)) && |l| > 0
    requires Identities.IsPrefixedIdentity(id, config.prefix, 5)
    ensures DecodesAsJournal(config, Journal(JournalOf(config, id, l, destination)))
  {
    var entries := JournalOf(config, id, l, destination).entries;
    forall i | 0 <= i < |entries| ensures EntryDecodes(entries, i) {
      assert l[i].path == DocumentPath(config, Other(destination), l[i].content.metadata);
    }
  }

  /** Planning on the documents alone is the same as moving on the disk. */
  lemma MovedDocs(base: Files, journal: MoveJournal)
    requires EntriesApart(journal.entries)
    requires forall e :: e in journal.entries ==> e.source.DocumentFile? && e.destination.DocumentFile?
    ensures DocsOf(Moved(base, journal)) == Apply(DocsOf(base), MoveWrites(journal.entries))
  {
    MovedGet(base, journal);
    MovedGet(DocsOf(base), journal);
    var planned := Moved(DocsOf(base), journal);
    forall p: Path ensures Get(DocsOf(Moved(base, journal)), p) == Get(planned, p) {
      if Untouched(journal.entries, p) {
        assert Get(planned, p) == Get(DocsOf(base), p);
        assert Get(Moved(base, journal), p) == Get(base, p);
      } else {
        var e :| e in journal.entries && (p == e.source || p == e.destination);
        assert Get(Moved(base, journal), p) == Get(planned, p);
      }
    }
    SameGetSameFiles(DocsOf(Moved(base, journal)), planned);
  }

  lemma {:induction false} MovedCount(docs: Files, entries: seq<MoveEntry>)
    requires EntriesApart(entries)
    requires forall e :: e in entries ==> e.source in docs && e.destination !in docs
    ensures |Apply(docs, MoveWrites(entries))| == |docs|
  {
    if entries != [] {
      var n := |entries| - 1;
      var init, e := entries[..n], entries[n];
      ApartPrefix(entries, n);
      MovedCount(docs, init);
      var before := Apply(docs, MoveWrites(init));
      assert e in entries;
      MovesMiss(docs, init, e);
      ApplyConcat(docs, MoveWrites(init), [Create(e), Delete(e)]);
      ApplyTwo(before, Create(e), Delete(e));
      SwapCount(before, e);
    }
  }

  lemma MovesMiss(docs: Files, init: seq<MoveEntry>, e: MoveEntry)
    requires forall f :: f in init ==> f.source !in {e.source, e.destination} && f.destination !in {e.source, e.destination}
    ensures Get(Apply(docs, MoveWrites(init)), e.source) == Get(docs, e.source)
    ensures Get(Apply(docs, MoveWrites(init)), e.destination) == Get(docs, e.destination)
  {
    var w := MoveWrites(init);
    MoveWritesAre(init);
    WritesMiss(w, e.source);
    WritesMiss(w, e.destination);
    ApplyElsewhere(docs, w, e.source);
    ApplyElsewhere(docs, w, e.destination);
  }

  lemma SwapCount(before: Files, e: MoveEntry)
    requires e.source in before && e.destination !in before
    ensures |Put(Put(before, e.destination, Some(ContentOf(e))), e.source, None)| == |before|
  {
    var middle := before[e.destination := ContentOf(e)];
    assert middle.Keys == before.Keys + {e.destination};
    assert (middle - {e.source}).Keys == middle.Keys - {e.source};
  }

  /** After the move, the documents are the other lineages where they were, and this one on the other side. */
  ghost predicate Relocated(config: StorageConfig, docs: Files, id: string, l: seq<Entity>, destination: Location, after: Files) {
    && (forall p :: p in after ==> InPlace(docs, id, p, after) || exists k :: 0 <= k < |l| && Arrived(config, l, destination, k, p, after))
    && (forall p :: p in docs && docs[p].Document? && docs[p].metadata.id != id ==> p in after && after[p] == docs[p])
    && (forall k :: 0 <= k < |l| ==> l[k].content.Document? && Get(after, DocumentPath(config, destination, l[k].content.metadata)) == Some(l[k].content))
  }

  ghost predicate InPlace(docs: Files, id: string, p: Path, after: Files) {
    p in after && p in docs && docs[p].Document? && docs[p].metadata.id != id && after[p] == docs[p]
  }

  ghost predicate Arrived(config: StorageConfig, l: seq<Entity>, destination: Location, k: nat, p: Path, after: Files)
    requires k < |l|
  {
    && p in after && l[k].content.Document?
    && p == DocumentPath(config, destination, l[k].content.metadata) && after[p] == l[k].content
  }

  lemma MoveRelocates(config: StorageConfig, docs: Files, id: string, l: seq<Entity>, destination: Location)
    requires CatalogValid(config, docs) && IsLineage(l, docs, id) && LiesIn(l, Other(destination))
    requires Sited(config, l, Other(destination))
    ensures Relocated(config, docs, id, l, destination, Apply(docs, MoveWrites(JournalOf(config, id, l, destination).entries)))
  {
    EntriesOfJournal(config, id, l, destination);
    OthersStay(config, docs, id, l, destination);
    AllArrive(config, docs, id, l, destination);
    forall p | p in Apply(docs, MoveWrites(JournalOf(config, id, l, destination).entries))
      ensures var after := Apply(docs, MoveWrites(JournalOf(config, id, l, destination).entries));
        InPlace(docs, id, p, after) || exists k :: 0 <= k < |l| && Arrived(config, l, destination, k, p, after)
    {
      RelocatedFrom(config, docs, id, l, destination, p);
    }
  }

  lemma OthersStay(config: StorageConfig, docs: Files, id: string, l: seq<Entity>, destination: Location)
    requires CatalogValid(config, docs) && IsLineage(l, docs, id) && LiesIn(l, Other(destination)) && |l| <= MAX_VERSIONS
    ensures
      var after := Apply(docs, MoveWrites(JournalOf(config, id, l, destination).entries));
      forall p :: p in docs && docs[p].Document? && docs[p].metadata.id != id ==> p in after && after[p] == docs[p]
  {
    var entries := JournalOf(config, id, l, destination).entries;
    forall p | p in docs && docs[p].Document? && docs[p].metadata.id != id
      ensures Get(Apply(docs, MoveWrites(entries)), p) == Get(docs, p)
    {
      OthersUntouched(config, docs, id, l, destination, p);
      MissedByMove(docs, entries, p);
    }
  }

  lemma AllArrive(config: StorageConfig, docs: Files, id: string, l: seq<Entity>, destination: Location)
    requires |l| <= MAX_VERSIONS && (forall k :: 0 <= k < |l| ==> l[k].content.Document?)
    requires EntriesApart(JournalOf(config, id, l, destination).entries)
    ensures forall k :: 0 <= k < |l| ==>
      Get(Apply(docs, MoveWrites(JournalOf(config, id, l, destination).entries)), DocumentPath(config, destination, l[k].content.metadata)) == Some(l[k].content)
  {
    forall k | 0 <= k < |l|
      ensures Get(Apply(docs, MoveWrites(JournalOf(config, id, l, destination).entries)), DocumentPath(config, destination, l[k].content.metadata)) == Some(l[k].content)
    {
      MovedAt(docs, JournalOf(config, id, l, destination).entries, k);
    }
  }

  lemma MovedAt(docs: Files, entries: seq<MoveEntry>, k: nat)
    requires EntriesApart(entries) && k < |entries|
    ensures Get(Apply(docs, MoveWrites(entries)), entries[k].destination) == Some(ContentOf(entries[k]))
    ensures Get(Apply(docs, MoveWrites(entries)), entries[k].source) == None
  {
    var e := entries[k];
    MoveWritesDistinct(entries);
    MoveWritesAre(entries);
    assert e in entries;
    ApplyIn(docs, MoveWrites(entries), Create(e));
    ApplyIn(docs, MoveWrites(entries), Delete(e));
  }

  lemma MissedByMove(docs: Files, entries: seq<MoveEntry>, p: Path)
    requires Untouched(entries, p)
    ensures Get(Apply(docs, MoveWrites(entries)), p) == Get(docs, p)
  {
    MoveWritesAre(entries);
    WritesMiss(MoveWrites(entries), p);
    ApplyElsewhere(docs, MoveWrites(entries), p);
  }

  lemma RelocatedFrom(config: StorageConfig, docs: Files, id: string, l: seq<Entity>, destination: Location, p: Path)
    requires WellFiledDocs(config, docs) && IsLineage(l, docs, id) && Sited(config, l, Other(destination))
    requires EntriesApart(JournalOf(config, id, l, destination).entries)
    requires p in Apply(docs, MoveWrites(JournalOf(config, id, l, destination).entries))
    ensures var after := Apply(docs, MoveWrites(JournalOf(config, id, l, destination).entries));
      InPlace(docs, id, p, after) || exists k :: 0 <= k < |l| && Arrived(config, l, destination, k, p, after)
  {
    var entries := JournalOf(config, id, l, destination).entries;
    if Untouched(entries, p) {
      MissedByMove(docs, entries, p);
      UntouchedIsOther(config, docs, id, l, destination, p);
    } else {
      ArrivedFrom(config, docs, id, l, destination, p);
    }
  }

  lemma ArrivedFrom(config: StorageConfig, docs: Files, id: string, l: seq<Entity>, destination: Location, p: Path)
    requires |l| <= MAX_VERSIONS && forall i :: 0 <= i < |l| ==> l[i].content.Document?
    requires EntriesApart(JournalOf(config, id, l, destination).entries) && !Untouched(JournalOf(config, id, l, destination).entries, p)
    requires p in Apply(docs, MoveWrites(JournalOf(config, id, l, destination).entries))
    ensures exists k :: 0 <= k < |l| && Arrived(config, l, destination, k, p, Apply(docs, MoveWrites(JournalOf(config, id, l, destination).entries)))
  {
    var entries := JournalOf(config, id, l, destination).entries;
    var e :| e in entries && (p == e.source || p == e.destination);
    var k :| 0 <= k < |entries| && entries[k] == e;
    MovedAt(docs, entries, k);
    ArrivedAt(config, docs, id, l, destination, k);
  }

  lemma ArrivedAt(config: StorageConfig, docs: Files, id: string, l: seq<Entity>, destination: Location, k: nat)
    requires k < |l| <= MAX_VERSIONS && forall i :: 0 <= i < |l| ==> l[i].content.Document?
    requires Get(Apply(docs, MoveWrites(JournalOf(config, id, l, destination).entries)), DocumentPath(config, destination, l[k].content.metadata)) == Some(l[k].content)
    ensures Arrived(config, l, destination, k, DocumentPath(config, destination, l[k].content.metadata),
              Apply(docs, MoveWrites(JournalOf(config, id, l, destination).entries)))
  {
  }

  lemma OthersUntouched(config: StorageConfig, docs: Files, id: string, l: seq<Entity>, destination: Location, p: Path)
    requires CatalogValid(config, docs) && IsLineage(l, docs, id) && LiesIn(l, Other(destination)) && |l| <= MAX_VERSIONS
    requires p in docs && docs[p].metadata.id != id
    ensures Untouched(JournalOf(config, id, l, destination).entries, p)
  {
    forall k | 0 <= k < |l| ensures l[k].path != p && DocumentPath(config, destination, l[k].content.metadata) != p {
      DestinationFree(config, docs, id, l, destination, k);
    }
    PathsUntouched(config, id, l, destination, p);
  }

  lemma PathsUntouched(config: StorageConfig, id: string, l: seq<Entity>, destination: Location, p: Path)
    requires |l| <= MAX_VERSIONS && forall k :: 0 <= k < |l| ==> l[k].content.Document?
    requires forall k :: 0 <= k < |l| ==> l[k].path != p && DocumentPath(config, destination, l[k].content.metadata) != p
    ensures Untouched(JournalOf(config, id, l, destination).entries, p)
  {
    var entries := JournalOf(config, id, l, destination).entries;
    forall e | e in entries ensures e.source != p && e.destination != p {
      var k :| 0 <= k < |entries| && entries[k] == e;
    }
  }

  lemma UntouchedIsOther(config: StorageConfig, docs: Files, id: string, l: seq<Entity>, destination: Location, p: Path)
    requires IsLineage(l, docs, id) && |l| <= MAX_VERSIONS
    requires p in docs && docs[p].Document? && Untouched(JournalOf(config, id, l, destination).entries, p)
    ensures docs[p].metadata.id != id
  {
    if docs[p].metadata.id == id {
      SourceTouched(config, docs, id, l, destination, p);
    }
  }

  lemma SourceTouched(config: StorageConfig, docs: Files, id: string, l: seq<Entity>, destination: Location, p: Path)
    requires IsLineage(l, docs, id) && |l| <= MAX_VERSIONS
    requires p in docs && docs[p].Document? && docs[p].metadata.id == id
    ensures !Untouched(JournalOf(config, id, l, destination).entries, p)
  {
    var entries := JournalOf(config, id, l, destination).entries;
    var k :| 0 <= k < |l| && l[k] == Entity(p, docs[p]);
    assert entries[k] in entries && entries[k].source == p;
  }

  lemma RelocatedWellFiled(config: StorageConfig, docs: Files, id: string, l: seq<Entity>, destination: Location, after: Files)
    requires CatalogValid(config, docs) && IsLineage(l, docs, id)
    requires Relocated(config, docs, id, l, destination, after)
    ensures WellFiledDocs(config, after)
  {
    forall p | p in after ensures WellFiled(config, p, after[p]) {
      if InPlace(docs, id, p, after) {
        assert WellFiled(config, p, docs[p]);
      } else {
        var k :| 0 <= k < |l| && Arrived(config, l, destination, k, p, after);
        assert WellFiled(config, l[k].path, docs[l[k].path]);
      }
    }
  }

  lemma RelocatedPairs(config: StorageConfig, docs: Files, id: string, l: seq<Entity>, destination: Location, after: Files, p: Path, q: Path)
    requires CatalogValid(config, docs) && IsLineage(l, docs, id)
    requires Relocated(config, docs, id, l, destination, after)
    requires p in after && q in after && after[p].Document? && after[q].Document? && after[p].metadata.id == after[q].metadata.id
    requires p.DocumentFile? && q.DocumentFile?
    ensures p.location == q.location
    ensures after[p].metadata.createdAt == after[q].metadata.createdAt
    ensures after[p].metadata.version == after[q].metadata.version ==> p == q
  {
    if !InPlace(docs, id, p, after) && !InPlace(docs, id, q, after) {
      var i :| 0 <= i < |l| && Arrived(config, l, destination, i, p, after);
      var j :| 0 <= j < |l| && Arrived(config, l, destination, j, q, after);
      assert docs[l[i].path] == l[i].content && docs[l[j].path] == l[j].content;
    }
  }

  lemma RelocatedVersions(config: StorageConfig, docs: Files, id: string, l: seq<Entity>, destination: Location, after: Files, p: Path)
    requires WellFiledDocs(config, docs) && LineagesValid(docs) && IsLineage(l, docs, id)
    requires Relocated(config, docs, id, l, destination, after)
    requires p in after && after[p].Document?
    ensures 1 <= after[p].metadata.version <= MAX_VERSIONS
    ensures after[p].metadata.version > 1 ==> HasVersion(after, after[p].metadata.id, after[p].metadata.version - 1)
  {
    if InPlace(docs, id, p, after) {
      VersionInPlace(docs, id, after, p);
    } else {
      var k :| 0 <= k < |l| && Arrived(config, l, destination, k, p, after);
      ArrivedVersions(config, docs, id, l, destination, after, p, k);
    }
  }

  lemma VersionInPlace(docs: Files, id: string, after: Files, p: Path)
    requires (forall q :: q in docs ==> docs[q].Document? && q.DocumentFile?) && LineagesValid(docs) && InPlace(docs, id, p, after)
    requires forall q :: q in docs && docs[q].Document? && docs[q].metadata.id != id ==> q in after && after[q] == docs[q]
    ensures 1 <= docs[p].metadata.version <= MAX_VERSIONS
    ensures docs[p].metadata.version > 1 ==> HasVersion(after, docs[p].metadata.id, docs[p].metadata.version - 1)
  {
    if docs[p].metadata.version > 1 {
      OthersKeepVersions(docs, id, after, docs[p].metadata.id, docs[p].metadata.version - 1);
    }
  }

  lemma ArrivedVersions(config: StorageConfig, docs: Files, id: string, l: seq<Entity>, destination: Location, after: Files, p: Path, k: nat)
    requires (forall q :: q in docs ==> docs[q].Document? && q.DocumentFile?) && LineagesValid(docs) && IsLineage(l, docs, id)
    requires k < |l| && Arrived(config, l, destination, k, p, after)
    requires k > 0 ==> Get(after, DocumentPath(config, destination, l[k - 1].content.metadata)) == Some(l[k - 1].content)
    ensures 1 <= after[p].metadata.version <= MAX_VERSIONS
    ensures after[p].metadata.version > 1 ==> HasVersion(after, after[p].metadata.id, after[p].metadata.version - 1)
  {
    assert docs[l[k].path] == l[k].content;
    if k > 0 {
      ArrivedVersion(config, docs, id, l, destination, after, k - 1);
    }
  }

  lemma ArrivedVersion(config: StorageConfig, docs: Files, id: string, l: seq<Entity>, destination: Location, after: Files, k: nat)
    requires IsLineage(l, docs, id) && k < |l|
    requires Get(after, DocumentPath(config, destination, l[k].content.metadata)) == Some(l[k].content)
    ensures HasVersion(after, id, k + 1)
  {
    var q := DocumentPath(config, destination, l[k].content.metadata);
    assert q in after && after[q] == l[k].content;
  }

  lemma OthersKeepVersions(docs: Files, id: string, after: Files, other: string, version: int)
    requires forall p :: p in docs && docs[p].Document? && docs[p].metadata.id != id ==> p in after && after[p] == docs[p]
    requires other != id && HasVersion(docs, other, version)
    ensures HasVersion(after, other, version)
  {
    var q :| q in docs && docs[q].Document? && docs[q].metadata.id == other && docs[q].metadata.version == version;
    assert q in after && after[q] == docs[q];
  }

  /** Moving a whole lineage keeps the catalogue valid, so planning never refuses a move. */
  lemma MovedValid(config: StorageConfig, docs: Files, id: string, l: seq<Entity>, destination: Location)
    requires CatalogValid(config, docs) && IsLineage(l, docs, id) && LiesIn(l, Other(destination))
    requires |l| <= MAX_VERSIONS
    ensures CatalogValid(config, Apply(docs, MoveWrites(JournalOf(config, id, l, destination).entries)))
  {
    var after := Apply(docs, MoveWrites(JournalOf(config, id, l, destination).entries));
    LineageSited(config, docs, id, l, Other(destination));
    MoveRelocates(config, docs, id, l, destination);
    RelocatedWellFiled(config, docs, id, l, destination, after);
    MovedSize(config, docs, id, l, destination);
    RelocatedLineages(config, docs, id, l, destination, after);
  }

  lemma RelocatedLineages(config: StorageConfig, docs: Files, id: string, l: seq<Entity>, destination: Location, after: Files)
    requires CatalogValid(config, docs) && IsLineage(l, docs, id)
    requires Relocated(config, docs, id, l, destination, after) && WellFiledDocs(config, after)
    ensures LineagesValid(after)
  {
    forall p, q | p in after && q in after && after[p].metadata.id == after[q].metadata.id
      ensures p.location == q.location
      ensures after[p].metadata.createdAt == after[q].metadata.createdAt
      ensures after[p].metadata.version == after[q].metadata.version ==> p == q
    {
      RelocatedPairs(config, docs, id, l, destination, after, p, q);
    }
    forall p | p in after
      ensures 1 <= after[p].metadata.version <= MAX_VERSIONS
      ensures after[p].metadata.version > 1 ==> HasVersion(after, after[p].metadata.id, after[p].metadata.version - 1)
    {
      RelocatedVersions(config, docs, id, l, destination, after, p);
    }
  }

  lemma MovedSize(config: StorageConfig, docs: Files, id: string, l: seq<Entity>, destination: Location)
    requires CatalogValid(config, docs) && IsLineage(l, docs, id) && LiesIn(l, Other(destination))
    requires Sited(config, l, Other(destination))
    ensures |Apply(docs, MoveWrites(JournalOf(config, id, l, destination).entries))| == |docs|
  {
    EntriesOfJournal(config, id, l, destination);
    forall k | 0 <= k < |l| ensures l[k].path in docs && DocumentPath(config, destination, l[k].content.metadata) !in docs {
      DestinationFree(config, docs, id, l, destination, k);
    }
    EntriesSwap(config, docs, id, l, destination);
    MovedCount(docs, JournalOf(config, id, l, destination).entries);
  }

  lemma EntriesSwap(config: StorageConfig, docs: Files, id: string, l: seq<Entity>, destination: Location)
    requires |l| <= MAX_VERSIONS && forall k :: 0 <= k < |l| ==> l[k].content.Document?
    requires forall k :: 0 <= k < |l| ==> l[k].path in docs && DocumentPath(config, destination, l[k].content.metadata) !in docs
    ensures forall e :: e in JournalOf(config, id, l, destination).entries ==> e.source in docs && e.destination !in docs
  {
    var entries := JournalOf(config, id, l, destination).entries;
    forall e | e in entries ensures e.source in docs && e.destination !in docs {
      var k :| 0 <= k < |entries| && entries[k] == e;
    }
  }

  /** Whatever a caller is allowed to move, the journal drawn up for it is a planned move of the store. */
  lemma AllowedMoveIsPlanned(config: StorageConfig, base: Files, links: set<Path>, id: string, revision: Revision<Content>, destination: Location, l: seq<Entity>)
    requires Quiescent(base) && MayMove(config, DocsOf(base), links, id, revision, destination, l)
    ensures |l| <= MAX_VERSIONS
    ensures Planned(config, base, JournalOf(config, id, l, destination))
    ensures LinksResolve(DocsOf(base), links) ==> LinksKept(base, JournalOf(config, id, l, destination), links)
  {
    LineageSited(config, DocsOf(base), id, l, Other(destination));
    var journal := JournalOf(config, id, l, destination);
    forall k | 0 <= k < |l| ensures DocumentPath(config, destination, l[k].content.metadata) !in base {
      DestinationFree(config, DocsOf(base), id, l, destination, k);
    }
    JournalEntriesPlanned(config, base, id, l, destination);
    BackupPaths(config, journal);
    MovedDocs(base, journal);
    MovedValid(config, DocsOf(base), id, l, destination);
    AllowedKeepsLinks(config, DocsOf(base), links, id, l, destination);
  }

  lemma AllowedKeepsLinks(config: StorageConfig, docs: Files, links: set<Path>, id: string, l: seq<Entity>, destination: Location)
    requires |l| <= MAX_VERSIONS && forall k :: 0 <= k < |l| ==> l[k].content.Document?
    requires destination == Archive ==> forall k :: 0 <= k < |l| ==> l[k].path !in links
    ensures destination == Archive ==> forall e :: e in JournalOf(config, id, l, destination).entries ==> e.source !in links
  {
    var entries := JournalOf(config, id, l, destination).entries;
    forall e | destination == Archive && e in entries ensures e.source !in links {
      var k :| 0 <= k < |entries| && entries[k] == e;
    }
  }
}
