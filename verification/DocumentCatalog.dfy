/**
 Canonical documents on a disk, and the catalogue discovered from them. The bytes
 of a canonical file are represented by what they decode to; every other file is
 `Foreign`.
 */
module DocumentCatalog {
  import opened Wrappers
  import opened FileBatches
  import Identities

  const MAX_DOCUMENTS := 2000
  const MAX_VERSIONS := 100
  const MAX_BATCH := 2 * MAX_DOCUMENTS

  datatype Location = Active | Archive

  datatype Metadata = Metadata(
    id: string, title: string, kind: string, status: string, version: int,
    createdAt: string, updatedAt: string, createdBy: Option<string>, custom: Option<string>)

  datatype Content =
    | Document(metadata: Metadata, body: string)  // the content after the title, normalised
    | Journal(journal: MoveJournal)
    | Foreign(text: string)

  datatype MoveJournal = MoveJournal(id: string, source: Location, destination: Location, entries: seq<MoveEntry>)

  datatype MoveEntry = MoveEntry(source: Path, destination: Path, backup: Path, revision: Revision<Content>)

  /** Backup files are named by three digits. */
  type BackupIndex = i: nat | i < 1000

  datatype Path =
    | DocumentFile(location: Location, name: string)
    | JournalFile
    | BackupFile(index: BackupIndex)

  type Files = map<Path, Content>
  type Write = Replacement<Path, Content>

  /**
   `slug` stands for the Unicode-normalising slug of a title, `leq` for the path order of a
   batch, and `readable` says that metadata and content encode to a text the decoder accepts.
   */
  datatype StorageConfig = StorageConfig(
    prefix: string, slug: string -> string, leq: (Path, Path) -> bool, readable: (Metadata, string) -> bool)

  function Decimal(n: nat): string {
    if n < 10 then [Digit(n)] else Decimal(n / 10) + [Digit(n % 10)]
  }

  function Digit(n: nat): char
    requires n < 10
  {
    "0123456789"[n]
  }

  function Filename(config: StorageConfig, m: Metadata): string {
    m.id + "-" + config.slug(m.title) + "-v" + Decimal(if m.version < 0 then 0 else m.version) + ".md"
  }

  function DocumentPath(config: StorageConfig, location: Location, m: Metadata): Path {
    DocumentFile(location, Filename(config, m))
  }

  function DocsOf(files: Files): Files {
    map p | p in files && p.DocumentFile? :: files[p]
  }

  // ---- Valid catalogues ----

  /** A document file whose bytes decode, with an identity of this store, under its canonical name. */
  predicate WellFiled(config: StorageConfig, p: Path, c: Content) {
    && p.DocumentFile? && c.Document?
    && config.readable(c.metadata, c.body)
    && Identities.IsPrefixedIdentity(c.metadata.id, config.prefix, 5)
    && p.name == Filename(config, c.metadata)
  }

  ghost predicate WellFiledDocs(config: StorageConfig, docs: Files) {
    forall p :: p in docs ==> WellFiled(config, p, docs[p])
  }

  ghost predicate HasVersion(docs: Files, id: string, version: int) {
    exists p :: p in docs && docs[p].Document? && docs[p].metadata.id == id && docs[p].metadata.version == version
  }

  /** Per identity: versions 1..n without a gap or a duplicate, one location, one creation time. */
  ghost predicate LineagesValid(docs: Files)
    requires forall p :: p in docs ==> docs[p].Document? && p.DocumentFile?
  {
    && (forall p, q :: p in docs && q in docs && docs[p].metadata.id == docs[q].metadata.id ==>
          && p.location == q.location
          && docs[p].metadata.createdAt == docs[q].metadata.createdAt
          && (docs[p].metadata.version == docs[q].metadata.version ==> p == q))
    && (forall p :: p in docs ==>
          && 1 <= docs[p].metadata.version <= MAX_VERSIONS
          && (docs[p].metadata.version > 1 ==> HasVersion(docs, docs[p].metadata.id, docs[p].metadata.version - 1)))
  }

  ghost predicate CatalogValid(config: StorageConfig, docs: Files) {
    && |docs| <= MAX_DOCUMENTS
    && WellFiledDocs(config, docs)
    && LineagesValid(docs)
  }

  // ---- Entities, their order and their grouping ----

  datatype Entity = Entity(path: Path, content: Content)

  datatype Catalog = Catalog(entities: seq<Entity>, byId: map<string, seq<Entity>>)

  ghost predicate AreDocuments(entities: seq<Entity>) {
    forall e :: e in entities ==> e.content.Document? && e.path.DocumentFile?
  }

  ghost predicate DistinctEntities(entities: seq<Entity>) {
    forall i, j :: 0 <= i < j < |entities| ==> entities[i].path != entities[j].path
  }

  /** The entities list each document of the map once and nothing else. */
  ghost predicate Lists(entities: seq<Entity>, docs: Files) {
    && DistinctEntities(entities)
    && (forall e :: e in entities ==> e.path in docs && docs[e.path] == e.content)
    && (forall p :: p in docs ==> Entity(p, docs[p]) in entities)
  }

  function CompareEntity(config: StorageConfig, a: Entity, b: Entity): int
    requires a.content.Document? && b.content.Document?
  {
    var byIdentity := Identities.ComparePrefixedIdentities(a.content.metadata.id, b.content.metadata.id, config.prefix);
    if byIdentity != 0 then byIdentity else a.content.metadata.version - b.content.metadata.version
  }

  lemma CompareEntityTransitive(config: StorageConfig, a: Entity, b: Entity, c: Entity)
    requires a.content.Document? && b.content.Document? && c.content.Document?
    requires CompareEntity(config, a, b) <= 0 && CompareEntity(config, b, c) <= 0
    ensures CompareEntity(config, a, c) <= 0
  {
    var x, y, z := a.content.metadata.id, b.content.metadata.id, c.content.metadata.id;
    Identities.IdentityOrderIsTotal(x, y, z, config.prefix);
    Identities.IdentityOrderIsTotal(y, z, x, config.prefix);
  }

  ghost predicate InOrder(config: StorageConfig, s: seq<Entity>)
    requires AreDocuments(s)
  {
    forall i, j :: 0 <= i < j < |s| ==> CompareEntity(config, s[i], s[j]) <= 0
  }

  method SortEntities(config: StorageConfig, entities: seq<Entity>) returns (s: seq<Entity>)
    requires AreDocuments(entities)
    ensures multiset(s) == multiset(entities)
    ensures AreDocuments(s) && InOrder(config, s)
  {
    s := [];
    for n := 0 to |entities|
      invariant multiset(s) == multiset(entities[..n])
      invariant AreDocuments(s) && InOrder(config, s)
    {
      var e := entities[n];
      assert entities[..n + 1] == entities[..n] + [e];
      var i := InsertionPoint(config, s, e);
      InsertionKeepsOrder(config, s, i, e);
      InsertionKeepsElements(s, i, e);
      s := s[..i] + [e] + s[i..];
    }
    assert entities[..|entities|] == entities;
  }

  /** Walk down from the end to the last entity that does not come after `e`. */
  method InsertionPoint(config: StorageConfig, s: seq<Entity>, e: Entity) returns (i: nat)
    requires AreDocuments(s) && e.content.Document?
    ensures i <= |s| && (i > 0 ==> CompareEntity(config, s[i - 1], e) <= 0)
    ensures AllFrom(config, s, i, e)
  {
    i := |s|;
    while i > 0 && CompareEntity(config, s[i - 1], e) > 0
      invariant 0 <= i <= |s|
      invariant AllFrom(config, s, i, e)
    {
      AllFromBefore(config, s, i, e);
      i := i - 1;
    }
  }

  /** No entity from index `i` on comes before `e`. */
  ghost predicate AllFrom(config: StorageConfig, s: seq<Entity>, i: nat, e: Entity)
    requires AreDocuments(s) && e.content.Document?
  {
    forall k :: i <= k < |s| ==> CompareEntity(config, e, s[k]) <= 0
  }

  lemma AllFromBefore(config: StorageConfig, s: seq<Entity>, i: nat, e: Entity)
    requires AreDocuments(s) && e.content.Document? && 0 < i <= |s| && AllFrom(config, s, i, e)
    requires CompareEntity(config, s[i - 1], e) > 0
    ensures AllFrom(config, s, i - 1, e)
  {
    EntityOrderAntisymmetric(config, s[i - 1], e);
  }

  lemma InsertionKeepsElements(s: seq<Entity>, i: nat, e: Entity)
    requires i <= |s|
    ensures multiset(s[..i] + [e] + s[i..]) == multiset(s) + multiset{e}
  {
    assert s == s[..i] + s[i..];
  }

  lemma EntityOrderAntisymmetric(config: StorageConfig, a: Entity, b: Entity)
    requires a.content.Document? && b.content.Document?
    ensures CompareEntity(config, a, b) > 0 ==> CompareEntity(config, b, a) <= 0
  {
    Identities.IdentityOrderIsTotal(a.content.metadata.id, b.content.metadata.id, a.content.metadata.id, config.prefix);
    Identities.IdentityOrderIsTotal(b.content.metadata.id, a.content.metadata.id, a.content.metadata.id, config.prefix);
  }

  lemma InsertionKeepsOrder(config: StorageConfig, s: seq<Entity>, i: nat, e: Entity)
    requires AreDocuments(s) && e.content.Document? && e.path.DocumentFile? && InOrder(config, s) && i <= |s|
    requires i > 0 ==> CompareEntity(config, s[i - 1], e) <= 0
    requires AllFrom(config, s, i, e)
    ensures var t := s[..i] + [e] + s[i..]; AreDocuments(t) && InOrder(config, t)
  {
    var t := s[..i] + [e] + s[i..];
    forall k | 0 <= k < i ensures CompareEntity(config, s[k], e) <= 0 {
      if k < i - 1 {
        CompareEntityTransitive(config, s[k], s[i - 1], e);
      }
    }
  }

  /** The sub-sequence of one identity. */
  function OfId(entities: seq<Entity>, id: string): (l: seq<Entity>)
    requires forall e :: e in entities ==> e.content.Document?
    ensures forall e :: e in l <==> e in entities && e.content.metadata.id == id
  {
    if entities == [] then []
    else
      var last := entities[|entities| - 1];
      var rest := OfId(entities[..|entities| - 1], id);
      assert entities == entities[..|entities| - 1] + [last];
      if last.content.metadata.id == id then rest + [last] else rest
  }

  /** Entities of one identity, by version. */
  ghost predicate ByVersion(l: seq<Entity>) {
    && AreDocuments(l) && DistinctEntities(l)
    && forall i, j :: 0 <= i < j < |l| ==> l[i].content.metadata.version <= l[j].content.metadata.version
  }

  lemma {:induction false} OfIdKeepsOrder(config: StorageConfig, entities: seq<Entity>, id: string)
    requires AreDocuments(entities) && InOrder(config, entities) && DistinctEntities(entities)
    ensures ByVersion(OfId(entities, id))
  {
    if entities != [] {
      var n := |entities| - 1;
      var init, last := entities[..n], entities[n];
      assert entities == init + [last];
      OfIdKeepsOrder(config, init, id);
      if last.content.metadata.id == id {
        assert last in entities;
        LastOfId(config, init, last, OfId(init, id), id);
        AppendByVersion(OfId(init, id), last);
      }
    }
  }

  lemma AppendByVersion(rest: seq<Entity>, last: Entity)
    requires ByVersion(rest) && last.content.Document? && last.path.DocumentFile?
    requires forall i :: 0 <= i < |rest| ==> rest[i].content.metadata.version <= last.content.metadata.version && rest[i].path != last.path
    ensures ByVersion(rest + [last])
  {
  }

  lemma LastOfId(config: StorageConfig, init: seq<Entity>, last: Entity, rest: seq<Entity>, id: string)
    requires AreDocuments(init) && last.content.Document? && last.content.metadata.id == id && rest == OfId(init, id)
    requires forall k :: 0 <= k < |init| ==> CompareEntity(config, init[k], last) <= 0 && init[k].path != last.path
    ensures forall i :: 0 <= i < |rest| ==> rest[i].content.Document? && rest[i].content.metadata.version <= last.content.metadata.version && rest[i].path != last.path
  {
    forall i | 0 <= i < |rest|
      ensures rest[i].content.Document? && rest[i].content.metadata.version <= last.content.metadata.version && rest[i].path != last.path
    {
      assert rest[i] in init;
      var k :| 0 <= k < |init| && init[k] == rest[i];
      SameIdByVersion(config, init[k], last);
    }
  }

  lemma SameIdByVersion(config: StorageConfig, a: Entity, b: Entity)
    requires a.content.Document? && b.content.Document? && a.content.metadata.id == b.content.metadata.id
    requires CompareEntity(config, a, b) <= 0
    ensures a.content.metadata.version <= b.content.metadata.version
  {
    Identities.IdentityOrderIsTotal(a.content.metadata.id, a.content.metadata.id, a.content.metadata.id, config.prefix);
  }

  /** What `validateLineage` accepts of a lineage sorted by version. */
  predicate LineageOk(l: seq<Entity>) {
    && |l| <= MAX_VERSIONS
    && (forall i :: 0 <= i < |l| ==> l[i].content.Document? && l[i].path.DocumentFile?)
    && forall i :: 0 <= i < |l| ==>
         && l[i].path.location == l[0].path.location
         && l[i].content.metadata.version == i + 1
         && l[i].content.metadata.createdAt == l[0].content.metadata.createdAt
  }

  method ValidateLineage(l: seq<Entity>) returns (ok: bool)
    requires AreDocuments(l)
    ensures ok <==> LineageOk(l)
  {
    if |l| > MAX_VERSIONS {
      return false;
    }
    for i := 0 to |l|
      invariant forall k :: 0 <= k < i ==>
        && l[k].path.location == l[0].path.location
        && l[k].content.metadata.version == k + 1
        && l[k].content.metadata.createdAt == l[0].content.metadata.createdAt
    {
      assert l[i] in l && l[0] in l;
      if || l[i].path.location != l[0].path.location
         || l[i].content.metadata.version != i + 1
         || l[i].content.metadata.createdAt != l[0].content.metadata.createdAt
      {
        return false;
      }
    }
    ok := true;
  }

  lemma LineagesOkMeansValid(config: StorageConfig, docs: Files, sorted: seq<Entity>)
    requires AreDocuments(sorted) && Lists(sorted, docs)
    requires forall id :: LineageOk(OfId(sorted, id))
    ensures forall p :: p in docs ==> docs[p].Document? && p.DocumentFile?
    ensures LineagesValid(docs)
  {
    forall p | p in docs ensures docs[p].Document? && p.DocumentFile? {
      assert Entity(p, docs[p]) in sorted;
    }
    forall p, q | p in docs && q in docs && docs[p].metadata.id == docs[q].metadata.id
      ensures p.location == q.location
      ensures docs[p].metadata.createdAt == docs[q].metadata.createdAt
      ensures docs[p].metadata.version == docs[q].metadata.version ==> p == q
    {
      var l := OfId(sorted, docs[p].metadata.id);
      assert Entity(p, docs[p]) in l && Entity(q, docs[q]) in l && LineageOk(l);
      var i :| 0 <= i < |l| && l[i] == Entity(p, docs[p]);
      var j :| 0 <= j < |l| && l[j] == Entity(q, docs[q]);
    }
    forall p | p in docs
      ensures 1 <= docs[p].metadata.version <= MAX_VERSIONS
      ensures docs[p].metadata.version > 1 ==> HasVersion(docs, docs[p].metadata.id, docs[p].metadata.version - 1)
    {
      var l := OfId(sorted, docs[p].metadata.id);
      assert Entity(p, docs[p]) in l && LineageOk(l);
      var i :| 0 <= i < |l| && l[i] == Entity(p, docs[p]);
      if i > 0 {
        assert l[i - 1] in l && docs[l[i - 1].path] == l[i - 1].content;
      }
    }
  }

  lemma ValidMeansLineageOk(config: StorageConfig, docs: Files, sorted: seq<Entity>, id: string)
    requires AreDocuments(sorted) && InOrder(config, sorted) && Lists(sorted, docs)
    requires forall p :: p in docs ==> docs[p].Document? && p.DocumentFile?
    requires LineagesValid(docs)
    ensures LineageOk(OfId(sorted, id))
  {
    OfIdKeepsOrder(config, sorted, id);
    var l := OfId(sorted, id);
    assert ListsId(l, docs, id);
    VersionsCount(docs, l, id, |l|);
    LineageFromVersions(docs, l, id);
  }

  /** The documents of one identity, all of them and nothing else. */
  ghost predicate ListsId(l: seq<Entity>, docs: Files, id: string) {
    && (forall i :: 0 <= i < |l| ==> l[i].path in docs && docs[l[i].path] == l[i].content && l[i].content.Document? && l[i].content.metadata.id == id)
    && (forall p :: p in docs && docs[p].Document? && docs[p].metadata.id == id ==> Entity(p, docs[p]) in l)
  }

  lemma {:induction false} VersionsCount(docs: Files, l: seq<Entity>, id: string, n: nat)
    requires forall p :: p in docs ==> docs[p].Document? && p.DocumentFile?
    requires LineagesValid(docs) && ListsId(l, docs, id) && ByVersion(l) && n <= |l|
    ensures forall i :: 0 <= i < n ==> l[i].content.metadata.version == i + 1
  {
    if n > 0 {
      VersionsCount(docs, l, id, n - 1);
      NextVersion(docs, l, id, n - 1);
    }
  }

  /** After versions 1..k comes k + 1: neither a repetition nor a gap is possible. */
  lemma NextVersion(docs: Files, l: seq<Entity>, id: string, k: nat)
    requires forall p :: p in docs ==> docs[p].Document? && p.DocumentFile?
    requires LineagesValid(docs) && ListsId(l, docs, id) && ByVersion(l) && k < |l|
    requires forall i :: 0 <= i < k ==> l[i].content.metadata.version == i + 1
    ensures l[k].content.metadata.version == k + 1
  {
    var v := l[k].content.metadata.version;
    assert docs[l[k].path] == l[k].content;
    if k > 0 {
      assert docs[l[k - 1].path] == l[k - 1].content && l[k - 1].path != l[k].path;
    }
    if v > k + 1 {
      NoGap(docs, l, id, k);
    }
  }

  lemma NoGap(docs: Files, l: seq<Entity>, id: string, k: nat)
    requires ListsId(l, docs, id) && ByVersion(l) && k < |l|
    requires HasVersion(docs, id, l[k].content.metadata.version - 1)
    requires forall i :: 0 <= i < k ==> l[i].content.metadata.version == i + 1
    ensures l[k].content.metadata.version <= k + 1
  {
    var v := l[k].content.metadata.version;
    var p :| p in docs && docs[p].Document? && docs[p].metadata.id == id && docs[p].metadata.version == v - 1;
    var j :| 0 <= j < |l| && l[j] == Entity(p, docs[p]);
    assert j < k;
  }

  lemma LineageFromVersions(docs: Files, l: seq<Entity>, id: string)
    requires forall p :: p in docs ==> docs[p].Document? && p.DocumentFile?
    requires LineagesValid(docs) && ListsId(l, docs, id) && ByVersion(l)
    requires forall i :: 0 <= i < |l| ==> l[i].content.metadata.version == i + 1
    ensures LineageOk(l)
  {
    if l != [] {
      assert docs[l[|l| - 1].path] == l[|l| - 1].content;
    }
    forall i | 0 <= i < |l|
      ensures l[i].path.location == l[0].path.location && l[i].content.metadata.createdAt == l[0].content.metadata.createdAt
    {
      assert docs[l[i].path] == l[i].content && docs[l[0].path] == l[0].content;
    }
  }

  ghost function PathsOf(entities: seq<Entity>): set<Path> {
    set e | e in entities :: e.path
  }

  lemma {:induction false} CountOfDistinct(entities: seq<Entity>)
    requires DistinctEntities(entities)
    ensures |PathsOf(entities)| == |entities|
  {
    if entities == [] {
      assert PathsOf(entities) == {};
    } else {
      var n := |entities| - 1;
      assert entities == entities[..n] + [entities[n]];
      CountOfDistinct(entities[..n]);
      assert PathsOf(entities) == PathsOf(entities[..n]) + {entities[n].path};
    }
  }

  lemma ListsCount(entities: seq<Entity>, docs: Files)
    requires Lists(entities, docs)
    ensures |entities| == |docs|
  {
    CountOfDistinct(entities);
    forall p | p in docs ensures p in PathsOf(entities) {
      assert Entity(p, docs[p]) in entities;
    }
    assert PathsOf(entities) == docs.Keys;
  }

  lemma PermutedLists(a: seq<Entity>, b: seq<Entity>, docs: Files)
    requires multiset(a) == multiset(b) && Lists(a, docs)
    ensures Lists(b, docs)
  {
    forall e ensures e in b <==> e in a {
      assert e in multiset(b) <==> e in multiset(a);
    }
    forall i, j | 0 <= i < j < |b| ensures b[i].path != b[j].path {
      OccursTwice(b, i, j);
      assert b[i] in a && b[j] in a;
      EntityOnce(a, b[i]);
      assert docs[b[i].path] == b[i].content && docs[b[j].path] == b[j].content;
    }
  }

  lemma EntityOnce(a: seq<Entity>, e: Entity)
    requires DistinctEntities(a) && e in a
    ensures multiset(a)[e] == 1
  {
    var k :| 0 <= k < |a| && a[k] == e;
    assert a == a[..k] + [a[k]] + a[k+1..];
  }

  // ---- Building a catalogue ----

  /** The catalogue lists exactly these documents, and each lineage is complete and in version order. */
  ghost predicate Describes(catalog: Catalog, docs: Files) {
    && AreDocuments(catalog.entities)
    && Lists(catalog.entities, docs)
    && (forall id :: id in catalog.byId <==> HasId(docs, id))
    && (forall id :: id in catalog.byId ==> IsLineage(catalog.byId[id], docs, id))
  }

  ghost predicate HasId(docs: Files, id: string) {
    exists p :: p in docs && docs[p].Document? && docs[p].metadata.id == id
  }

  /** All versions of `id`, the first one first. */
  ghost predicate IsLineage(l: seq<Entity>, docs: Files, id: string) {
    && |l| > 0
    && (forall k :: 0 <= k < |l| ==>
          && l[k].path in docs && docs[l[k].path] == l[k].content
          && l[k].path.DocumentFile? && l[k].content.Document?
          && l[k].content.metadata.id == id
          && l[k].content.metadata.version == k + 1)
    && (forall p :: p in docs && docs[p].Document? && docs[p].metadata.id == id ==> Entity(p, docs[p]) in l)
  }

  /** Group sorted entities by identity, keeping their order. */
  method GroupById(sorted: seq<Entity>) returns (byId: map<string, seq<Entity>>)
    requires AreDocuments(sorted)
    ensures forall id :: id in byId <==> OfId(sorted, id) != []
    ensures forall id :: id in byId ==> byId[id] == OfId(sorted, id)
  {
    byId := map[];
    for n := 0 to |sorted|
      invariant forall id :: id in byId <==> OfId(sorted[..n], id) != []
      invariant forall id :: id in byId ==> byId[id] == OfId(sorted[..n], id)
    {
      assert sorted[..n + 1][..n] == sorted[..n];
      var id := sorted[n].content.metadata.id;
      byId := byId[id := (if id in byId then byId[id] else []) + [sorted[n]]];
    }
    assert sorted[..|sorted|] == sorted;
  }

  method ValidateLineages(byId: map<string, seq<Entity>>) returns (ok: bool)
    requires forall id :: id in byId ==> AreDocuments(byId[id])
    ensures ok <==> forall id :: id in byId ==> LineageOk(byId[id])
  {
    var pending := byId.Keys;
    while pending != {}
      invariant pending <= byId.Keys
      invariant forall id :: id in byId && id !in pending ==> LineageOk(byId[id])
      decreases |pending|
    {
      var id :| id in pending;
      ok := ValidateLineage(byId[id]);
      if !ok {
        return;
      }
      pending := pending - {id};
    }
    ok := true;
  }

  method CatalogFromEntities(config: StorageConfig, entities: seq<Entity>, ghost docs: Files) returns (r: Result<Catalog>)
    requires AreDocuments(entities) && Lists(entities, docs) && WellFiledDocs(config, docs)
    ensures r.Ok? <==> CatalogValid(config, docs)
    ensures r.Ok? ==> Describes(r.value, docs)
    ensures r == Err(ResourceLimit) <==> |docs| > MAX_DOCUMENTS
  {
    ListsCount(entities, docs);
    if |entities| > MAX_DOCUMENTS {
      return Err(ResourceLimit);
    }
    var sorted := SortEntities(config, entities);
    PermutedLists(entities, sorted, docs);
    var byId := GroupById(sorted);
    var ok := ValidateLineages(byId);
    LineagesAgree(config, docs, sorted, byId);
    if !ok {
      return Err(IdentityAmbiguity);
    }
    GroupedDescribes(docs, sorted, byId);
    r := Ok(Catalog(sorted, byId));
  }

  lemma LineagesAgree(config: StorageConfig, docs: Files, sorted: seq<Entity>, byId: map<string, seq<Entity>>)
    requires AreDocuments(sorted) && InOrder(config, sorted) && Lists(sorted, docs)
    requires forall p :: p in docs ==> docs[p].Document? && p.DocumentFile?
    requires forall id :: id in byId <==> OfId(sorted, id) != []
    requires forall id :: id in byId ==> byId[id] == OfId(sorted, id)
    ensures LineagesValid(docs) <==> forall id :: id in byId ==> LineageOk(byId[id])
  {
    if LineagesValid(docs) {
      forall id | id in byId ensures LineageOk(byId[id]) {
        ValidMeansLineageOk(config, docs, sorted, id);
      }
    }
    if forall id :: id in byId ==> LineageOk(byId[id]) {
      forall id ensures LineageOk(OfId(sorted, id)) {
        if id in byId { assert LineageOk(byId[id]); }
      }
      LineagesOkMeansValid(config, docs, sorted);
    }
  }

  lemma GroupedDescribes(docs: Files, sorted: seq<Entity>, byId: map<string, seq<Entity>>)
    requires AreDocuments(sorted) && Lists(sorted, docs)
    requires forall id :: id in byId <==> OfId(sorted, id) != []
    requires forall id :: id in byId ==> byId[id] == OfId(sorted, id) && LineageOk(byId[id])
    ensures Describes(Catalog(sorted, byId), docs)
  {
    forall id ensures id in byId <==> HasId(docs, id) {
      var l := OfId(sorted, id);
      if l != [] {
        assert l[0] in l && docs[l[0].path] == l[0].content;
      }
      if HasId(docs, id) {
        var p :| p in docs && docs[p].Document? && docs[p].metadata.id == id;
        assert Entity(p, docs[p]) in l;
      }
    }
    forall id | id in byId ensures IsLineage(byId[id], docs, id) {
      var l := byId[id];
      forall k | 0 <= k < |l| ensures l[k].path in docs && docs[l[k].path] == l[k].content && l[k].content.metadata.id == id {
        assert l[k] in l;
      }
    }
  }

  /** Read the active and the archived documents of a disk. */
  method Discover(config: StorageConfig, files: Files) returns (r: Result<Catalog>)
    ensures r.Ok? <==> CatalogValid(config, DocsOf(files))
    ensures r.Ok? ==> Describes(r.value, DocsOf(files))
  {
    r := DiscoverDocs(config, DocsOf(files));
  }

  method DiscoverDocs(config: StorageConfig, docs: Files) returns (r: Result<Catalog>)
    ensures r.Ok? <==> CatalogValid(config, docs)
    ensures r.Ok? ==> Describes(r.value, docs)
  {
    var pending := docs.Keys;
    var entities: seq<Entity> := [];
    while pending != {}
      invariant pending <= docs.Keys
      invariant AreDocuments(entities) && DistinctEntities(entities)
      invariant forall e :: e in entities ==> e.path in docs && e.path !in pending && docs[e.path] == e.content
      invariant forall p :: p in docs && p !in pending ==> WellFiled(config, p, docs[p]) && Entity(p, docs[p]) in entities
      invariant |entities| + |pending| == |docs.Keys|
      decreases |pending|
    {
      var path :| path in pending;
      if |entities| >= MAX_DOCUMENTS {
        return Err(ResourceLimit);
      }
      if !WellFiled(config, path, docs[path]) {
        return Err(CanonicalForm);
      }
      entities := entities + [Entity(path, docs[path])];
      pending := pending - {path};
    }
    r := CatalogFromEntities(config, entities, docs);
  }

  // ---- Planning ----

  /** A replacement a document operation may propose: canonical content at its own path, or a deletion. */
  predicate ProposalFits(config: StorageConfig, w: Write) {
    w.bytes.Some? ==> WellFiled(config, w.path, w.bytes.value)
  }

  /** The catalogue after a batch, worked out before anything is written. */
  method ProposeCatalog(config: StorageConfig, current: Catalog, replacements: seq<Write>, ghost docs: Files) returns (r: Result<Catalog>)
    requires CatalogValid(config, docs) && Describes(current, docs)
    requires DistinctPaths(replacements)
    ensures r.Ok? <==>
      && (forall w :: w in replacements ==> Expects(docs, w) && ProposalFits(config, w))
      && CatalogValid(config, Apply(docs, replacements))
    ensures r.Ok? ==> Describes(r.value, Apply(docs, replacements))
  {
    var byPath := ByPath(current, docs);
    var replaced := ReplaceByPath(config, byPath, replacements);
    if replaced.Err? {
      return Err(replaced.error);
    }
    var entities := EntitiesOf(replaced.value);
    r := CatalogFromEntities(config, entities, replaced.value);
  }

  /** Check and apply the replacements one by one, in the order they were listed. */
  method ReplaceByPath(config: StorageConfig, docs: Files, replacements: seq<Write>) returns (r: Result<Files>)
    requires WellFiledDocs(config, docs) && DistinctPaths(replacements)
    ensures r.Ok? <==> forall w :: w in replacements ==> Expects(docs, w) && ProposalFits(config, w)
    ensures r.Ok? ==> r.value == Apply(docs, replacements) && WellFiledDocs(config, r.value)
  {
    var byPath := docs;
    for i := 0 to |replacements|
      invariant byPath == Apply(docs, replacements[..i])
      invariant WellFiledDocs(config, byPath)
      invariant forall k :: 0 <= k < i ==> Expects(docs, replacements[k]) && ProposalFits(config, replacements[k])
    {
      var w := replacements[i];
      ReplaceOne(config, docs, replacements, i);
      if !Expects(byPath, w) {
        return Err(if w.expected == MustBeAbsent then IdentityAmbiguity else StaleRevision);
      }
      if !ProposalFits(config, w) {
        return Err(PathSafety);
      }
      byPath := Put(byPath, w.path, w.bytes);
    }
    assert replacements[..|replacements|] == replacements;
    r := Ok(byPath);
  }

  /** One more replacement: its expectation is judged as in the beginning. */
  lemma ReplaceOne(config: StorageConfig, docs: Files, replacements: seq<Write>, i: nat)
    requires DistinctPaths(replacements) && i < |replacements| && WellFiledDocs(config, Apply(docs, replacements[..i]))
    ensures
      var w := replacements[i];
      var byPath := Apply(docs, replacements[..i]);
      && (Expects(byPath, w) <==> Expects(docs, w))
      && Put(byPath, w.path, w.bytes) == Apply(docs, replacements[..i + 1])
      && (ProposalFits(config, w) ==> WellFiledDocs(config, Put(byPath, w.path, w.bytes)))
  {
    var w := replacements[i];
    ApplyElsewhere(docs, replacements[..i], w.path);
    assert Get(Apply(docs, replacements[..i]), w.path) == Get(docs, w.path);
    assert replacements[..i + 1][..i] == replacements[..i];
  }

  method ByPath(current: Catalog, ghost docs: Files) returns (byPath: Files)
    requires Describes(current, docs)
    ensures byPath == docs
  {
    byPath := map[];
    for i := 0 to |current.entities|
      invariant forall k :: 0 <= k < i ==> current.entities[k].path in byPath
      invariant forall p :: p in byPath ==> p in docs && byPath[p] == docs[p]
    {
      var e := current.entities[i];
      assert e in current.entities;
      byPath := byPath[e.path := e.content];
    }
    forall p | p in docs ensures p in byPath {
      assert Entity(p, docs[p]) in current.entities;
    }
  }

  method EntitiesOf(docs: Files) returns (entities: seq<Entity>)
    requires forall p :: p in docs ==> p.DocumentFile? && docs[p].Document?
    ensures AreDocuments(entities) && Lists(entities, docs)
  {
    var pending := docs.Keys;
    entities := [];
    while pending != {}
      invariant pending <= docs.Keys
      invariant AreDocuments(entities) && DistinctEntities(entities)
      invariant forall e :: e in entities ==> e.path in docs && e.path !in pending && docs[e.path] == e.content
      invariant forall p :: p in docs && p !in pending ==> Entity(p, docs[p]) in entities
      decreases |pending|
    {
      var path :| path in pending;
      entities := entities + [Entity(path, docs[path])];
      pending := pending - {path};
    }
  }
}
