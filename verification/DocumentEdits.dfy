/**
 Creating, updating and versioning documents: which requests are accepted, that
 accepted ones keep the catalogue valid, and what a run of operations preserves.
 */
module DocumentEdits {
  import opened Wrappers
  import opened FileBatches
  import opened DocumentCatalog
  import opened DocumentMoves
  import opened DocumentPlans
  import Identities

  /** `None` leaves a field; an author or custom field can also be cleared. */
  datatype Changes = Changes(
    title: Option<string>, kind: Option<string>, status: Option<string>,
    author: Option<Option<string>>, custom: Option<Option<string>>, body: Option<string>)

  function OrElse<T>(change: Option<T>, current: T): T {
    if change.Some? then change.value else current
  }

  function ChangedMetadata(m: Metadata, changes: Changes, now: string, newVersion: bool): Metadata {
    Metadata(m.id, OrElse(changes.title, m.title), OrElse(changes.kind, m.kind), OrElse(changes.status, m.status),
      if newVersion then m.version + 1 else m.version,
      m.createdAt, now, OrElse(changes.author, m.createdBy), OrElse(changes.custom, m.custom))
  }

  function Changed(c: Content, changes: Changes, now: string, newVersion: bool): Content
    requires c.Document?
  {
    Document(ChangedMetadata(c.metadata, changes, now, newVersion), OrElse(changes.body, c.body))
  }

  /** The encoder accepts it and the decoder reads it back. */
  predicate Readable(config: StorageConfig, c: Content)
    requires c.Document?
  {
    config.readable(c.metadata, c.body)
  }

  function CreateWrites(config: StorageConfig, m: Metadata, body: string): seq<Write> {
    [Replacement(DocumentPath(config, Active, m), Some(Document(m, body)), MustBeAbsent)]
  }

  /** A new title changes the file name: the new file is created and the old one deleted. */
  function UpdateWrites(config: StorageConfig, current: Entity, changes: Changes, now: string): (w: seq<Write>)
    requires current.content.Document?
    ensures 1 <= |w| <= 2
  {
    var next := Changed(current.content, changes, now, false);
    var destination := DocumentPath(config, Active, next.metadata);
    if destination == current.path then
      [Replacement(destination, Some(next), MustMatch(V1(current.content)))]
    else
      [Replacement(destination, Some(next), MustBeAbsent), Replacement(current.path, None, MustMatch(V1(current.content)))]
  }

  function VersionWrites(config: StorageConfig, current: Entity, changes: Changes, now: string): (w: seq<Write>)
    requires current.content.Document?
    ensures |w| == 1
  {
    var next := Changed(current.content, changes, now, true);
    [Replacement(DocumentPath(config, Active, next.metadata), Some(next), MustBeAbsent)]
  }

  /** The current version of an active lineage, at the revision the caller has seen. */
  ghost predicate MayEdit(config: StorageConfig, docs: Files, id: string, revision: Revision<Content>, l: seq<Entity>) {
    && CatalogValid(config, docs)
    && Identities.IsPrefixedIdentity(id, config.prefix, 5)
    && IsLineage(l, docs, id)
    && LiesIn(l, Active)
    && V1(l[|l| - 1].content) == revision
  }

  /** The planning step accepts the batch. */
  ghost predicate Plannable(config: StorageConfig, docs: Files, writes: seq<Write>) {
    && DistinctPaths(writes)
    && (forall w :: w in writes ==> Expects(docs, w) && ProposalFits(config, w))
    && CatalogValid(config, Apply(docs, writes))
  }

  // ---- A file name tells the version ----

  lemma SplitAtLastDash(x: string, a: string, y: string, b: string)
    requires forall i :: 0 <= i < |a| ==> a[i] != '-'
    requires forall i :: 0 <= i < |b| ==> b[i] != '-'
    requires x + "-" + a == y + "-" + b
    ensures a == b
  {
    var s, t := x + "-" + a, y + "-" + b;
    assert s[|x|] == '-' && t[|y|] == '-';
    assert forall i :: |x| < i < |s| ==> s[i] == a[i - |x| - 1];
    assert forall i :: |y| < i < |t| ==> t[i] == b[i - |y| - 1];
    assert |x| == |y|;
    assert a == s[|x| + 1..] && b == t[|y| + 1..];
  }

  lemma {:induction false} DecimalDigits(n: nat)
    ensures |Decimal(n)| > 0
    ensures forall i :: 0 <= i < |Decimal(n)| ==> '0' <= Decimal(n)[i] <= '9'
  {
    if n >= 10 {
      DecimalDigits(n / 10);
    }
  }

  lemma {:induction false} DecimalInjective(m: nat, n: nat)
    requires Decimal(m) == Decimal(n)
    ensures m == n
  {
    var a, b := Decimal(m), Decimal(n);
    if m >= 10 { DecimalDigits(m / 10); }
    if n >= 10 { DecimalDigits(n / 10); }
    assert a[|a| - 1] == Digit(m % 10) && b[|b| - 1] == Digit(n % 10);
    if m >= 10 && n >= 10 {
      assert a[..|a| - 1] == Decimal(m / 10) && b[..|b| - 1] == Decimal(n / 10);
      DecimalInjective(m / 10, n / 10);
    }
  }

  function VersionTail(m: Metadata): string
    requires m.version >= 0
  {
    "v" + Decimal(m.version) + ".md"
  }

  lemma TailHasNoDash(m: Metadata)
    requires m.version >= 0
    ensures forall i :: 0 <= i < |VersionTail(m)| ==> VersionTail(m)[i] != '-'
  {
    DecimalDigits(m.version);
  }

  lemma FilenameTellsVersion(config: StorageConfig, m: Metadata, n: Metadata)
    requires m.version >= 0 && n.version >= 0
    requires Filename(config, m) == Filename(config, n)
    ensures m.version == n.version
  {
    TailHasNoDash(m);
    TailHasNoDash(n);
    var x, y := m.id + "-" + config.slug(m.title), n.id + "-" + config.slug(n.title);
    assert Filename(config, m) == x + "-" + VersionTail(m);
    assert Filename(config, n) == y + "-" + VersionTail(n);
    SplitAtLastDash(x, VersionTail(m), y, VersionTail(n));
    TailTellsVersion(m, n);
  }

  lemma TailTellsVersion(m: Metadata, n: Metadata)
    requires m.version >= 0 && n.version >= 0 && VersionTail(m) == VersionTail(n)
    ensures m.version == n.version
  {
    var a, b := VersionTail(m), VersionTail(n);
    assert Decimal(m.version) == a[1..|a| - 3] && Decimal(n.version) == b[1..|b| - 3];
    DecimalInjective(m.version, n.version);
  }

  /** The canonical path of a version belongs to that version alone. */
  lemma PathTellsVersion(config: StorageConfig, docs: Files, location: Location, m: Metadata)
    requires CatalogValid(config, docs) && Identities.IsPrefixedIdentity(m.id, config.prefix, 5) && m.version >= 0
    requires DocumentPath(config, location, m) in docs
    ensures var c := docs[DocumentPath(config, location, m)];
      c.Document? && c.metadata.id == m.id && c.metadata.version == m.version
  {
    var p := DocumentPath(config, location, m);
    assert WellFiled(config, p, docs[p]);
    assert docs[p].metadata.version >= 1;
    FilenameTellsIdentity(config, docs[p].metadata, m);
    FilenameTellsVersion(config, docs[p].metadata, m);
  }

  // ---- Replacing one version ----

  /** `after` is `docs` with the document at `source` replaced by `c` at `destination`. */
  ghost predicate Replaced(docs: Files, source: Path, destination: Path, c: Content, after: Files) {
    && source in docs && docs[source].Document? && c.Document? && source.DocumentFile? && destination.DocumentFile?
    && (destination == source || destination !in docs)
    && destination.location == source.location
    && c.metadata.id == docs[source].metadata.id
    && c.metadata.version == docs[source].metadata.version
    && c.metadata.createdAt == docs[source].metadata.createdAt
    && after == Put(Put(docs, source, None), destination, Some(c))
  }

  /** Where a path of `after` was before. */
  ghost function Origin(source: Path, destination: Path, p: Path): Path {
    if p == destination then source else p
  }

  ghost predicate SameVersion(c: Content, d: Content) {
    && c.Document? && d.Document?
    && c.metadata.id == d.metadata.id && c.metadata.version == d.metadata.version && c.metadata.createdAt == d.metadata.createdAt
  }

  lemma ReplacedOrigin(docs: Files, source: Path, destination: Path, c: Content, after: Files, p: Path)
    requires Replaced(docs, source, destination, c, after)
    requires p in after && (p == destination || docs[p].Document?)
    ensures Origin(source, destination, p) in docs && SameVersion(after[p], docs[Origin(source, destination, p)])
    ensures p.DocumentFile? && Origin(source, destination, p).DocumentFile? ==> p.location == Origin(source, destination, p).location
    ensures p != destination ==> p != source
  {
  }

  lemma ReplacedKeepsVersions(docs: Files, source: Path, destination: Path, c: Content, after: Files, id: string, version: int)
    requires Replaced(docs, source, destination, c, after) && HasVersion(docs, id, version)
    ensures HasVersion(after, id, version)
  {
    var q :| q in docs && docs[q].Document? && docs[q].metadata.id == id && docs[q].metadata.version == version;
    var r := if q == source then destination else q;
    assert r in after && after[r].Document?;
  }

  lemma ReplacedPair(docs: Files, source: Path, destination: Path, c: Content, after: Files, p: Path, q: Path)
    requires forall x :: x in docs ==> docs[x].Document? && x.DocumentFile?
    requires LineagesValid(docs) && Replaced(docs, source, destination, c, after)
    requires p in after && q in after && after[p].Document? && after[q].Document? && after[p].metadata.id == after[q].metadata.id
    ensures p.DocumentFile? && q.DocumentFile? && p.location == q.location
    ensures after[p].metadata.createdAt == after[q].metadata.createdAt
    ensures after[p].metadata.version == after[q].metadata.version ==> p == q
  {
    ReplacedOrigin(docs, source, destination, c, after, p);
    ReplacedOrigin(docs, source, destination, c, after, q);
  }

  lemma ReplacedVersions(docs: Files, source: Path, destination: Path, c: Content, after: Files, p: Path)
    requires forall x :: x in docs ==> docs[x].Document? && x.DocumentFile?
    requires LineagesValid(docs) && Replaced(docs, source, destination, c, after)
    requires p in after && after[p].Document?
    ensures 1 <= after[p].metadata.version <= MAX_VERSIONS
    ensures after[p].metadata.version > 1 ==> HasVersion(after, after[p].metadata.id, after[p].metadata.version - 1)
  {
    ReplacedOrigin(docs, source, destination, c, after, p);
    var o := docs[Origin(source, destination, p)].metadata;
    assert 1 <= o.version <= MAX_VERSIONS;
    if o.version > 1 {
      ReplacedKeepsVersions(docs, source, destination, c, after, o.id, o.version - 1);
    }
  }

  lemma ReplacedDocuments(docs: Files, source: Path, destination: Path, c: Content, after: Files)
    requires forall x :: x in docs ==> docs[x].Document? && x.DocumentFile?
    requires Replaced(docs, source, destination, c, after)
    ensures forall p :: p in after ==> after[p].Document? && p.DocumentFile?
  {
  }

  lemma ReplacedLineages(docs: Files, source: Path, destination: Path, c: Content, after: Files)
    requires forall x :: x in docs ==> docs[x].Document? && x.DocumentFile?
    requires LineagesValid(docs) && Replaced(docs, source, destination, c, after)
    requires forall p :: p in after ==> after[p].Document? && p.DocumentFile?
    ensures LineagesValid(after)
  {
    forall p, q | p in after && q in after && after[p].metadata.id == after[q].metadata.id
      ensures p.location == q.location && after[p].metadata.createdAt == after[q].metadata.createdAt
      ensures after[p].metadata.version == after[q].metadata.version ==> p == q
    {
      ReplacedPair(docs, source, destination, c, after, p, q);
    }
    forall p | p in after
      ensures 1 <= after[p].metadata.version <= MAX_VERSIONS
      ensures after[p].metadata.version > 1 ==> HasVersion(after, after[p].metadata.id, after[p].metadata.version - 1)
    {
      ReplacedVersions(docs, source, destination, c, after, p);
    }
  }

  lemma ReplacedValid(config: StorageConfig, docs: Files, source: Path, destination: Path, c: Content, after: Files)
    requires CatalogValid(config, docs) && Replaced(docs, source, destination, c, after)
    requires WellFiled(config, destination, c)
    ensures CatalogValid(config, after)
  {
    ReplacedDocuments(docs, source, destination, c, after);
    ReplacedLineages(docs, source, destination, c, after);
    ReplacedCount(docs, source, destination, c);
    ReplacedWellFiled(config, docs, source, destination, c, after);
  }

  lemma ReplacedWellFiled(config: StorageConfig, docs: Files, source: Path, destination: Path, c: Content, after: Files)
    requires WellFiledDocs(config, docs) && Replaced(docs, source, destination, c, after)
    requires WellFiled(config, destination, c)
    ensures WellFiledDocs(config, after)
  {
    forall p | p in after ensures WellFiled(config, p, after[p]) {
      if p != destination { assert p in docs && after[p] == docs[p]; }
    }
  }

  lemma ReplacedCount(docs: Files, source: Path, destination: Path, c: Content)
    requires source in docs && (destination == source || destination !in docs)
    ensures |Put(Put(docs, source, None), destination, Some(c))| == |docs|
  {
    var dropped := docs - {source};
    assert dropped.Keys == docs.Keys - {source};
    assert dropped[destination := c].Keys == dropped.Keys + {destination};
  }

  /** What is known of the current version of a lineage. */
  ghost predicate IsCurrent(config: StorageConfig, docs: Files, id: string, current: Entity) {
    && current.path in docs && docs[current.path] == current.content
    && current.content.Document? && current.content.metadata.id == id
    && current.content.metadata.version >= 1
    && current.path == DocumentPath(config, Active, current.content.metadata)
  }

  lemma CurrentVersion(config: StorageConfig, docs: Files, id: string, revision: Revision<Content>, l: seq<Entity>)
    requires MayEdit(config, docs, id, revision, l)
    ensures IsCurrent(config, docs, id, l[|l| - 1])
    ensures l[|l| - 1].content.metadata.version == |l| <= MAX_VERSIONS
    ensures !HasVersion(docs, id, |l| + 1)
  {
    var current := l[|l| - 1];
    assert WellFiled(config, current.path, docs[current.path]);
    assert docs[current.path].metadata.version == |l|;
    if HasVersion(docs, id, |l| + 1) {
      VersionsWithinLineage(docs, id, l, |l| + 1);
    }
  }

  lemma VersionsWithinLineage(docs: Files, id: string, l: seq<Entity>, version: int)
    requires IsLineage(l, docs, id) && HasVersion(docs, id, version)
    ensures version <= |l|
  {
    var p :| p in docs && docs[p].Document? && docs[p].metadata.id == id && docs[p].metadata.version == version;
    var k :| 0 <= k < |l| && l[k] == Entity(p, docs[p]);
  }

  lemma RenamedElsewhere(config: StorageConfig, docs: Files, id: string, current: Entity, m: Metadata)
    requires CatalogValid(config, docs) && Identities.IsPrefixedIdentity(id, config.prefix, 5)
    requires IsCurrent(config, docs, id, current)
    requires m.id == id && m.version == current.content.metadata.version
    ensures DocumentPath(config, Active, m) == current.path || DocumentPath(config, Active, m) !in docs
  {
    var destination := DocumentPath(config, Active, m);
    if destination in docs {
      PathTellsVersion(config, docs, Active, m);
      assert docs[current.path].metadata.id == docs[destination].metadata.id;
    }
  }

  /** The batch of an update replaces the current version, wherever its file name ends up. */
  lemma UpdateReplaces(config: StorageConfig, docs: Files, id: string, current: Entity, changes: Changes, now: string)
    requires IsCurrent(config, docs, id, current)
    requires
      var destination := DocumentPath(config, Active, Changed(current.content, changes, now, false).metadata);
      destination == current.path || destination !in docs
    ensures
      var next := Changed(current.content, changes, now, false);
      Replaced(docs, current.path, DocumentPath(config, Active, next.metadata), next,
        Apply(docs, UpdateWrites(config, current, changes, now)))
  {
    var next := Changed(current.content, changes, now, false);
    var destination := DocumentPath(config, Active, next.metadata);
    var w := UpdateWrites(config, current, changes, now);
    if destination == current.path {
      ApplyOne(docs, w[0]);
      assert docs[destination := next] == (docs - {destination})[destination := next];
    } else {
      ApplyTwo(docs, w[0], w[1]);
      assert docs[destination := next] - {current.path} == (docs - {current.path})[destination := next];
    }
  }

  lemma UpdateFits(config: StorageConfig, docs: Files, id: string, current: Entity, changes: Changes, now: string)
    requires IsCurrent(config, docs, id, current) && Identities.IsPrefixedIdentity(id, config.prefix, 5)
    requires Readable(config, Changed(current.content, changes, now, false))
    requires
      var destination := DocumentPath(config, Active, Changed(current.content, changes, now, false).metadata);
      destination == current.path || destination !in docs
    ensures DistinctPaths(UpdateWrites(config, current, changes, now))
    ensures forall w :: w in UpdateWrites(config, current, changes, now) ==> Expects(docs, w) && ProposalFits(config, w)
    ensures
      var next := Changed(current.content, changes, now, false);
      WellFiled(config, DocumentPath(config, Active, next.metadata), next)
  {
  }

  /** Planning refuses an update of the current version exactly if it cannot be read back; renaming its file is no reason. */
  lemma UpdateAccepted(config: StorageConfig, docs: Files, id: string, revision: Revision<Content>, l: seq<Entity>, changes: Changes, now: string)
    requires MayEdit(config, docs, id, revision, l)
    ensures l[|l| - 1].content.Document?
    ensures Plannable(config, docs, UpdateWrites(config, l[|l| - 1], changes, now))
        <==> Readable(config, Changed(l[|l| - 1].content, changes, now, false))
  {
    CurrentVersion(config, docs, id, revision, l);
    var current := l[|l| - 1];
    var next := Changed(current.content, changes, now, false);
    if Readable(config, next) {
      ReadableUpdate(config, docs, id, current, changes, now);
    } else {
      var w := UpdateWrites(config, current, changes, now);
      assert w[0] in w && !ProposalFits(config, w[0]);
    }
  }

  lemma ReadableUpdate(config: StorageConfig, docs: Files, id: string, current: Entity, changes: Changes, now: string)
    requires CatalogValid(config, docs) && IsCurrent(config, docs, id, current) && Identities.IsPrefixedIdentity(id, config.prefix, 5)
    requires Readable(config, Changed(current.content, changes, now, false))
    ensures Plannable(config, docs, UpdateWrites(config, current, changes, now))
  {
    var next := Changed(current.content, changes, now, false);
    var destination := DocumentPath(config, Active, next.metadata);
    RenamedElsewhere(config, docs, id, current, next.metadata);
    UpdateReplaces(config, docs, id, current, changes, now);
    UpdateFits(config, docs, id, current, changes, now);
    ReplacedValid(config, docs, current.path, destination, next, Apply(docs, UpdateWrites(config, current, changes, now)));
  }

  // ---- Adding one version ----

  /** A new document extends a valid catalogue when it is the next version of its lineage or starts one. */
  ghost predicate Extends(docs: Files, p: Path, c: Content)
    requires forall q :: q in docs ==> docs[q].Document? && q.DocumentFile?
    requires p.DocumentFile? && c.Document?
  {
    && 1 <= c.metadata.version <= MAX_VERSIONS
    && (c.metadata.version > 1 ==> HasVersion(docs, c.metadata.id, c.metadata.version - 1))
    && forall q :: q in docs && docs[q].metadata.id == c.metadata.id ==>
         q.location == p.location && docs[q].metadata.createdAt == c.metadata.createdAt && docs[q].metadata.version != c.metadata.version
  }

  lemma AddedValid(config: StorageConfig, docs: Files, p: Path, c: Content)
    requires CatalogValid(config, docs) && p !in docs && WellFiled(config, p, c)
    ensures CatalogValid(config, docs[p := c]) <==> |docs| < MAX_DOCUMENTS && Extends(docs, p, c)
  {
    AddedWellFiled(config, docs, p, c);
    if Extends(docs, p, c) {
      ExtendedLineages(docs, p, c);
    }
    if LineagesValid(docs[p := c]) {
      LineagesExtended(config, docs, p, c);
    }
  }

  lemma AddedWellFiled(config: StorageConfig, docs: Files, p: Path, c: Content)
    requires WellFiledDocs(config, docs) && p !in docs && WellFiled(config, p, c)
    ensures WellFiledDocs(config, docs[p := c]) && |docs[p := c]| == |docs| + 1
    ensures forall q :: q in docs[p := c] ==> docs[p := c][q].Document? && q.DocumentFile?
  {
    assert docs[p := c].Keys == docs.Keys + {p};
  }

  lemma ExtendedLineages(docs: Files, p: Path, c: Content)
    requires forall x :: x in docs ==> docs[x].Document? && x.DocumentFile?
    requires p.DocumentFile? && c.Document? && p !in docs
    requires LineagesValid(docs) && Extends(docs, p, c)
    ensures LineagesValid(docs[p := c])
  {
    var after := docs[p := c];
    forall q, r | q in after && r in after && after[q].metadata.id == after[r].metadata.id
      ensures q.location == r.location && after[q].metadata.createdAt == after[r].metadata.createdAt
      ensures after[q].metadata.version == after[r].metadata.version ==> q == r
    {
      ExtendedPair(docs, p, c, q, r);
    }
    forall q | q in after
      ensures 1 <= after[q].metadata.version <= MAX_VERSIONS
      ensures after[q].metadata.version > 1 ==> HasVersion(after, after[q].metadata.id, after[q].metadata.version - 1)
    {
      ExtendedVersions(docs, p, c, q);
    }
  }

  lemma ExtendedVersions(docs: Files, p: Path, c: Content, q: Path)
    requires forall x :: x in docs ==> docs[x].Document? && x.DocumentFile?
    requires p.DocumentFile? && c.Document? && p !in docs
    requires LineagesValid(docs) && Extends(docs, p, c) && q in docs[p := c]
    ensures var m := docs[p := c][q].metadata;
      1 <= m.version <= MAX_VERSIONS && (m.version > 1 ==> HasVersion(docs[p := c], m.id, m.version - 1))
  {
    var m := docs[p := c][q].metadata;
    if m.version > 1 {
      AddedKeepsVersions(docs, p, c, m.id, m.version - 1);
    }
  }

  lemma ExtendedPair(docs: Files, p: Path, c: Content, q: Path, r: Path)
    requires forall x :: x in docs ==> docs[x].Document? && x.DocumentFile?
    requires p.DocumentFile? && c.Document? && p !in docs
    requires LineagesValid(docs) && Extends(docs, p, c)
    requires q in docs[p := c] && r in docs[p := c] && docs[p := c][q].metadata.id == docs[p := c][r].metadata.id
    ensures q.location == r.location
    ensures docs[p := c][q].metadata.createdAt == docs[p := c][r].metadata.createdAt
    ensures docs[p := c][q].metadata.version == docs[p := c][r].metadata.version ==> q == r
  {
  }

  lemma AddedKeepsVersions(docs: Files, p: Path, c: Content, id: string, version: int)
    requires HasVersion(docs, id, version)
    requires p !in docs
    ensures HasVersion(docs[p := c], id, version)
  {
    var q :| q in docs && docs[q].Document? && docs[q].metadata.id == id && docs[q].metadata.version == version;
    assert q in docs[p := c] && docs[p := c][q].Document?;
  }

  lemma LineagesExtended(config: StorageConfig, docs: Files, p: Path, c: Content)
    requires WellFiledDocs(config, docs) && p !in docs && WellFiled(config, p, c)
    requires WellFiledDocs(config, docs[p := c]) && LineagesValid(docs[p := c])
    ensures Extends(docs, p, c)
  {
    var after := docs[p := c];
    assert after[p] == c;
    if c.metadata.version > 1 {
      var q :| q in after && after[q].Document? && after[q].metadata.id == c.metadata.id && after[q].metadata.version == c.metadata.version - 1;
      assert q != p && q in docs;
    }
    forall q | q in docs && docs[q].metadata.id == c.metadata.id
      ensures q.location == p.location && docs[q].metadata.createdAt == c.metadata.createdAt && docs[q].metadata.version != c.metadata.version
    {
      assert after[q] == docs[q];
    }
  }

  /** A batch that only creates one file. */
  lemma PlannableCreation(config: StorageConfig, docs: Files, p: Path, c: Content)
    ensures Plannable(config, docs, [Replacement(p, Some(c), MustBeAbsent)])
        <==> p !in docs && WellFiled(config, p, c) && CatalogValid(config, docs[p := c])
  {
    ApplyOne(docs, Replacement(p, Some(c), MustBeAbsent));
    CreationFits(config, docs, p, c);
  }

  lemma CreationFits(config: StorageConfig, docs: Files, p: Path, c: Content)
    ensures
      var writes: seq<Write> := [Replacement(p, Some(c), MustBeAbsent)];
      && DistinctPaths(writes)
      && ((forall w :: w in writes ==> Expects(docs, w) && ProposalFits(config, w)) <==> p !in docs && WellFiled(config, p, c))
  {
    var w: Write := Replacement(p, Some(c), MustBeAbsent);
    assert w in [w];
  }

  /** The path of the next version is free. */
  lemma NextPathFree(config: StorageConfig, docs: Files, id: string, m: Metadata)
    requires CatalogValid(config, docs) && Identities.IsPrefixedIdentity(id, config.prefix, 5)
    requires m.id == id && m.version >= 0 && !HasVersion(docs, id, m.version)
    ensures DocumentPath(config, Active, m) !in docs
  {
    if DocumentPath(config, Active, m) in docs {
      PathTellsVersion(config, docs, Active, m);
    }
  }

  /** A new version is accepted exactly if it can be read back and the lineage and the catalogue have room. */
  lemma VersionAccepted(config: StorageConfig, docs: Files, id: string, revision: Revision<Content>, l: seq<Entity>, changes: Changes, now: string)
    requires MayEdit(config, docs, id, revision, l)
    ensures l[|l| - 1].content.Document?
    ensures Plannable(config, docs, VersionWrites(config, l[|l| - 1], changes, now))
        <==> |l| < MAX_VERSIONS && |docs| < MAX_DOCUMENTS && Readable(config, Changed(l[|l| - 1].content, changes, now, true))
  {
    CurrentVersion(config, docs, id, revision, l);
    var current := l[|l| - 1];
    var next := Changed(current.content, changes, now, true);
    var p := DocumentPath(config, Active, next.metadata);
    NextPathFree(config, docs, id, next.metadata);
    PlannableCreation(config, docs, p, next);
    if Readable(config, next) {
      NextAccepted(config, docs, id, current, p, next);
    }
  }

  lemma NextAccepted(config: StorageConfig, docs: Files, id: string, current: Entity, p: Path, next: Content)
    requires CatalogValid(config, docs) && IsCurrent(config, docs, id, current)
    requires !HasVersion(docs, id, current.content.metadata.version + 1)
    requires p !in docs && WellFiled(config, p, next) && p.location == Active
    requires next.metadata.id == id && next.metadata.version == current.content.metadata.version + 1
    requires next.metadata.createdAt == current.content.metadata.createdAt
    ensures CatalogValid(config, docs[p := next]) <==> next.metadata.version <= MAX_VERSIONS && |docs| < MAX_DOCUMENTS
  {
    AddedValid(config, docs, p, next);
    NextExtends(config, docs, id, current, p, next);
  }

  lemma NextExtends(config: StorageConfig, docs: Files, id: string, current: Entity, p: Path, next: Content)
    requires CatalogValid(config, docs) && IsCurrent(config, docs, id, current)
    requires !HasVersion(docs, id, current.content.metadata.version + 1)
    requires p.DocumentFile? && p.location == Active
    requires next.Document? && next.metadata.id == id && next.metadata.version == current.content.metadata.version + 1
    requires next.metadata.createdAt == current.content.metadata.createdAt
    ensures Extends(docs, p, next) <==> next.metadata.version <= MAX_VERSIONS
  {
    assert HasVersion(docs, id, current.content.metadata.version);
    forall q | q in docs && docs[q].metadata.id == id
      ensures q.location == p.location && docs[q].metadata.createdAt == next.metadata.createdAt && docs[q].metadata.version != next.metadata.version
    {
      assert docs[current.path].metadata.id == docs[q].metadata.id;
    }
  }

  lemma {:induction false} FirstVersionExists(docs: Files, id: string, version: int)
    requires forall p :: p in docs ==> docs[p].Document? && p.DocumentFile?
    requires LineagesValid(docs) && HasVersion(docs, id, version)
    ensures HasVersion(docs, id, 1)
    decreases version
  {
    var p :| p in docs && docs[p].Document? && docs[p].metadata.id == id && docs[p].metadata.version == version;
    assert 1 <= docs[p].metadata.version;
    if version > 1 {
      FirstVersionExists(docs, id, version - 1);
    }
  }

  /** A first version is accepted exactly when it can be read back, its identity is new and the catalogue has room. */
  lemma CreateAccepted(config: StorageConfig, docs: Files, m: Metadata, body: string)
    requires CatalogValid(config, docs) && Identities.IsPrefixedIdentity(m.id, config.prefix, 5) && m.version == 1
    ensures Plannable(config, docs, CreateWrites(config, m, body))
        <==> !HasId(docs, m.id) && |docs| < MAX_DOCUMENTS && Readable(config, Document(m, body))
  {
    var p, c := DocumentPath(config, Active, m), Document(m, body);
    PlannableCreation(config, docs, p, c);
    if p in docs {
      FiledHasId(config, docs, m);
    } else if Readable(config, c) {
      FirstAdded(config, docs, p, c);
    }
  }

  lemma FiledHasId(config: StorageConfig, docs: Files, m: Metadata)
    requires CatalogValid(config, docs) && Identities.IsPrefixedIdentity(m.id, config.prefix, 5) && m.version >= 0
    requires DocumentPath(config, Active, m) in docs
    ensures HasId(docs, m.id)
  {
    PathTellsVersion(config, docs, Active, m);
  }

  lemma FirstAdded(config: StorageConfig, docs: Files, p: Path, c: Content)
    requires CatalogValid(config, docs) && p !in docs && WellFiled(config, p, c) && c.metadata.version == 1
    ensures CatalogValid(config, docs[p := c]) <==> |docs| < MAX_DOCUMENTS && !HasId(docs, c.metadata.id)
  {
    AddedValid(config, docs, p, c);
    FirstExtends(config, docs, p, c);
  }

  lemma FirstExtends(config: StorageConfig, docs: Files, p: Path, c: Content)
    requires CatalogValid(config, docs) && p.DocumentFile? && c.Document? && c.metadata.version == 1
    ensures Extends(docs, p, c) <==> !HasId(docs, c.metadata.id)
  {
    if HasId(docs, c.metadata.id) {
      var q :| q in docs && docs[q].Document? && docs[q].metadata.id == c.metadata.id;
      FirstVersionExists(docs, c.metadata.id, docs[q].metadata.version);
    }
  }

  // ---- Runs of operations ----

  datatype Operation =
    | CreateDoc(metadata: Metadata, body: string)
    | UpdateDoc(id: string, revision: Revision<Content>, changes: Changes, now: string)
    | AddVersion(id: string, revision: Revision<Content>, changes: Changes, now: string)
    | MoveDoc(id: string, revision: Revision<Content>, destination: Location)

  /** One accepted operation, as one step of the catalogue. */
  ghost predicate Step(config: StorageConfig, links: set<Path>, docs: Files, op: Operation, after: Files) {
    match op
    case CreateDoc(m, body) =>
      && CatalogValid(config, docs) && Identities.IsPrefixedIdentity(m.id, config.prefix, 5) && m.version == 1
      && Plannable(config, docs, CreateWrites(config, m, body))
      && after == Apply(docs, CreateWrites(config, m, body))
    case UpdateDoc(id, revision, changes, now) =>
      exists l :: Updated(config, docs, id, revision, changes, now, l, after)
    case AddVersion(id, revision, changes, now) =>
      exists l :: Versioned(config, docs, id, revision, changes, now, l, after)
    case MoveDoc(id, revision, destination) =>
      exists l :: MovedAway(config, links, docs, id, revision, destination, l, after)
  }

  ghost predicate Updated(config: StorageConfig, docs: Files, id: string, revision: Revision<Content>, changes: Changes, now: string, l: seq<Entity>, after: Files) {
    && MayEdit(config, docs, id, revision, l) && l[|l| - 1].content.Document?
    && Plannable(config, docs, UpdateWrites(config, l[|l| - 1], changes, now))
    && after == Apply(docs, UpdateWrites(config, l[|l| - 1], changes, now))
  }

  ghost predicate Versioned(config: StorageConfig, docs: Files, id: string, revision: Revision<Content>, changes: Changes, now: string, l: seq<Entity>, after: Files) {
    && MayEdit(config, docs, id, revision, l) && l[|l| - 1].content.Document?
    && Plannable(config, docs, VersionWrites(config, l[|l| - 1], changes, now))
    && after == Apply(docs, VersionWrites(config, l[|l| - 1], changes, now))
  }

  ghost predicate MovedAway(config: StorageConfig, links: set<Path>, docs: Files, id: string, revision: Revision<Content>, destination: Location, l: seq<Entity>, after: Files) {
    && MayMove(config, docs, links, id, revision, destination, l) && |l| <= MAX_VERSIONS
    && after == Apply(docs, MoveWrites(JournalOf(config, id, l, destination).entries))
  }

  /** A version that a later version of its lineage has replaced. */
  ghost predicate Superseded(docs: Files, c: Content) {
    && c.Document?
    && (exists p :: p in docs && docs[p] == c)
    && HasVersion(docs, c.metadata.id, c.metadata.version + 1)
  }

  lemma AddedKeepsSuperseded(docs: Files, p: Path, d: Content, c: Content)
    requires Superseded(docs, c) && p !in docs
    ensures Superseded(docs[p := d], c)
  {
    var q :| q in docs && docs[q] == c;
    assert q in docs[p := d] && docs[p := d][q] == c;
    AddedKeepsVersions(docs, p, d, c.metadata.id, c.metadata.version + 1);
  }

  lemma ReplacedKeepsSuperseded(docs: Files, source: Path, destination: Path, d: Content, after: Files, c: Content)
    requires Replaced(docs, source, destination, d, after)
    requires !HasVersion(docs, docs[source].metadata.id, docs[source].metadata.version + 1)
    requires Superseded(docs, c)
    ensures Superseded(after, c)
  {
    var q :| q in docs && docs[q] == c;
    assert q in after && after[q] == c;
    ReplacedKeepsVersions(docs, source, destination, d, after, c.metadata.id, c.metadata.version + 1);
  }

  lemma RelocatedKeeps(config: StorageConfig, docs: Files, id: string, l: seq<Entity>, destination: Location, after: Files, p: Path)
    requires IsLineage(l, docs, id) && Relocated(config, docs, id, l, destination, after)
    requires p in docs && docs[p].Document?
    ensures exists q :: q in after && after[q] == docs[p]
  {
    if docs[p].metadata.id == id {
      assert Entity(p, docs[p]) in l;
      var k :| 0 <= k < |l| && l[k] == Entity(p, docs[p]);
      var q := DocumentPath(config, destination, l[k].content.metadata);
      assert Get(after, q) == Some(docs[p]);
      assert q in after && after[q] == docs[p];
    } else {
      assert p in after && after[p] == docs[p];
    }
  }

  lemma RelocatedKeepsSuperseded(config: StorageConfig, docs: Files, id: string, l: seq<Entity>, destination: Location, after: Files, c: Content)
    requires IsLineage(l, docs, id) && Relocated(config, docs, id, l, destination, after)
    requires Superseded(docs, c)
    ensures Superseded(after, c)
  {
    var p :| p in docs && docs[p] == c;
    RelocatedKeeps(config, docs, id, l, destination, after, p);
    var n :| n in docs && docs[n].Document? && docs[n].metadata.id == c.metadata.id && docs[n].metadata.version == c.metadata.version + 1;
    RelocatedKeeps(config, docs, id, l, destination, after, n);
    var m :| m in after && after[m] == docs[n];
  }

  lemma StepKeepsValid(config: StorageConfig, links: set<Path>, docs: Files, op: Operation, after: Files)
    requires Step(config, links, docs, op, after)
    ensures CatalogValid(config, after)
  {
    match op
    case CreateDoc(_, _) =>
    case UpdateDoc(id, revision, changes, now) =>
      var l :| Updated(config, docs, id, revision, changes, now, l, after);
    case AddVersion(_, _, _, _) =>
    case MoveDoc(id, revision, destination) =>
      var l :| MovedAway(config, links, docs, id, revision, destination, l, after);
      MovedValid(config, docs, id, l, destination);
  }

  /** No operation changes the bytes of a superseded version; a move changes only where it lies. */
  lemma StepKeepsSuperseded(config: StorageConfig, links: set<Path>, docs: Files, op: Operation, after: Files, c: Content)
    requires Step(config, links, docs, op, after) && Superseded(docs, c)
    ensures Superseded(after, c)
  {
    match op
    case CreateDoc(m, body) =>
      OneWriteKeepsSuperseded(config, docs, CreateWrites(config, m, body)[0], c);
    case UpdateDoc(id, revision, changes, now) =>
      var l :| Updated(config, docs, id, revision, changes, now, l, after);
      UpdateKeepsSuperseded(config, docs, id, revision, changes, now, l, after, c);
    case AddVersion(id, revision, changes, now) =>
      var l :| Versioned(config, docs, id, revision, changes, now, l, after);
      OneWriteKeepsSuperseded(config, docs, VersionWrites(config, l[|l| - 1], changes, now)[0], c);
    case MoveDoc(id, revision, destination) =>
      var l :| MovedAway(config, links, docs, id, revision, destination, l, after);
      MoveKeepsSuperseded(config, links, docs, id, revision, destination, l, after, c);
  }

  lemma OneWriteKeepsSuperseded(config: StorageConfig, docs: Files, w: Write, c: Content)
    requires Plannable(config, docs, [w]) && w.bytes.Some? && w.expected == MustBeAbsent
    requires Superseded(docs, c)
    ensures Superseded(Apply(docs, [w]), c)
  {
    ApplyOne(docs, w);
    assert w in [w];
    AddedKeepsSuperseded(docs, w.path, w.bytes.value, c);
  }

  lemma MoveKeepsSuperseded(config: StorageConfig, links: set<Path>, docs: Files, id: string, revision: Revision<Content>, destination: Location, l: seq<Entity>, after: Files, c: Content)
    requires MovedAway(config, links, docs, id, revision, destination, l, after) && Superseded(docs, c)
    ensures Superseded(after, c)
  {
    LineageSited(config, docs, id, l, Other(destination));
    MoveRelocates(config, docs, id, l, destination);
    RelocatedKeepsSuperseded(config, docs, id, l, destination, after, c);
  }

  lemma UpdateKeepsSuperseded(config: StorageConfig, docs: Files, id: string, revision: Revision<Content>, changes: Changes, now: string, l: seq<Entity>, after: Files, c: Content)
    requires Updated(config, docs, id, revision, changes, now, l, after) && Superseded(docs, c)
    ensures Superseded(after, c)
  {
    CurrentVersion(config, docs, id, revision, l);
    var current := l[|l| - 1];
    var next := Changed(current.content, changes, now, false);
    RenamedElsewhere(config, docs, id, current, next.metadata);
    UpdateReplaces(config, docs, id, current, changes, now);
    ReplacedKeepsSuperseded(docs, current.path, DocumentPath(config, Active, next.metadata), next, after, c);
  }

  /** The states of a store under a run of accepted operations. */
  ghost predicate IsRun(config: StorageConfig, links: seq<set<Path>>, states: seq<Files>, ops: seq<Operation>) {
    && |states| == |ops| + 1 && |links| == |ops|
    && forall i :: 0 <= i < |ops| ==> Step(config, links[i], states[i], ops[i], states[i + 1])
  }

  /** Every superseded version of `docs` is still there, superseded, with its exact content. */
  ghost predicate KeepsHistory(docs: Files, after: Files) {
    forall c :: Superseded(docs, c) ==> Superseded(after, c)
  }

  lemma {:induction false} HistoryAccumulates(states: seq<Files>, i: nat, j: nat)
    requires i <= j < |states|
    requires forall k :: 0 <= k < |states| - 1 ==> KeepsHistory(states[k], states[k + 1])
    ensures KeepsHistory(states[i], states[j])
    decreases j
  {
    if i < j {
      HistoryAccumulates(states, i, j - 1);
      assert KeepsHistory(states[j - 1], states[j - 1 + 1]);
    }
  }

  /**
   Over every run from a valid catalogue, every state is valid, and once a version has
   been superseded its exact content stays in the catalogue for good.
   */
  lemma RunsKeepHistory(config: StorageConfig, links: seq<set<Path>>, states: seq<Files>, ops: seq<Operation>, i: nat, j: nat)
    requires IsRun(config, links, states, ops) && i <= j < |states|
    requires CatalogValid(config, states[0])
    ensures CatalogValid(config, states[j])
    ensures KeepsHistory(states[i], states[j])
  {
    if j > 0 {
      StepKeepsValid(config, links[j - 1], states[j - 1], ops[j - 1], states[j - 1 + 1]);
    }
    forall k | 0 <= k < |states| - 1 ensures KeepsHistory(states[k], states[k + 1]) {
      forall c | Superseded(states[k], c) ensures Superseded(states[k + 1], c) {
        StepKeepsSuperseded(config, links[k], states[k], ops[k], states[k + 1], c);
      }
    }
    HistoryAccumulates(states, i, j);
  }

  /**
   An update that renames its file is two writes without a journal. Dying between them
   leaves a catalogue that nothing accepts when the new file comes first; when the old
   file goes first, the catalogue is valid and the newest version is gone.
   */
  lemma RenameCrash(config: StorageConfig, docs: Files, id: string, revision: Revision<Content>, l: seq<Entity>, changes: Changes, now: string)
    requires MayEdit(config, docs, id, revision, l) && l[|l| - 1].content.Document?
    requires |UpdateWrites(config, l[|l| - 1], changes, now)| == 2
    ensures
      var w := UpdateWrites(config, l[|l| - 1], changes, now);
      && !CatalogValid(config, Apply(docs, [w[0]]))
      && CatalogValid(config, Apply(docs, [w[1]])) && !HasVersion(Apply(docs, [w[1]]), id, |l|)
  {
    CurrentVersion(config, docs, id, revision, l);
    var current := l[|l| - 1];
    var w := UpdateWrites(config, current, changes, now);
    ApplyOne(docs, w[0]);
    ApplyOne(docs, w[1]);
    TwiceFiled(config, docs, current, w[0].path, w[0].bytes.value);
    CurrentGone(config, docs, id, current);
    DroppedValid(config, docs, id, current);
  }

  /** A batch of document files changes the documents as it changes the disk. */
  lemma {:induction false} DocsOfApply(files: Files, writes: seq<Write>)
    requires forall w :: w in writes ==> w.path.DocumentFile?
    ensures DocsOf(Apply(files, writes)) == Apply(DocsOf(files), writes)
  {
    if writes != [] {
      var n := |writes| - 1;
      assert writes[n] in writes;
      DocsOfApply(files, writes[..n]);
      var before := Apply(files, writes[..n]);
      assert DocsOf(Put(before, writes[n].path, writes[n].bytes)) == Put(DocsOf(before), writes[n].path, writes[n].bytes);
    }
  }

  /** The catalogue is valid and still holds the newest version. */
  ghost predicate Intact(config: StorageConfig, docs: Files, id: string, version: int) {
    CatalogValid(config, docs) && HasVersion(docs, id, version)
  }

  /**
   An accepted update survives a crash after any of its writes, whatever order they take,
   exactly if it keeps its file: then every crash leaves a valid catalogue with the newest
   version. One that renames its file does not, in either order.
   */
  lemma UpdateIsCrashSafe(config: StorageConfig, docs: Files, id: string, revision: Revision<Content>, l: seq<Entity>, changes: Changes, now: string)
    requires MayEdit(config, docs, id, revision, l) && l[|l| - 1].content.Document?
    requires Readable(config, Changed(l[|l| - 1].content, changes, now, false))
    ensures
      var current := l[|l| - 1];
      var steps := InPathOrder(config.leq, UpdateWrites(config, current, changes, now));
      (forall k :: 0 <= k <= |steps| ==> Intact(config, Apply(docs, steps[..k]), id, |l|))
      <==> DocumentPath(config, Active, Changed(current.content, changes, now, false).metadata) == current.path
  {
    var w := UpdateWrites(config, l[|l| - 1], changes, now);
    var ok := (d: Files) => Intact(config, d, id, |l|);
    CurrentVersion(config, docs, id, revision, l);
    assert HasVersion(docs, id, |l|);
    if |w| == 1 {
      UpdateIsIntact(config, docs, id, revision, l, changes, now);
      assert ok(docs) && ok(Apply(docs, w));
      BothPrefixes(config.leq, docs, w, ok);
    } else {
      RenameCrash(config, docs, id, revision, l, changes, now);
      assert !ok(Apply(docs, [w[0]])) && !ok(Apply(docs, [w[1]]));
      FirstOfTwo(config.leq, docs, w, ok);
    }
    PrefixesAgree(config, docs, InPathOrder(config.leq, w), id, |l|, ok);
  }

  lemma PrefixesAgree(config: StorageConfig, docs: Files, steps: seq<Write>, id: string, version: int, ok: Files -> bool)
    requires forall d: Files {:trigger ok(d)} :: ok(d) <==> Intact(config, d, id, version)
    ensures (forall k :: 0 <= k <= |steps| ==> Intact(config, Apply(docs, steps[..k]), id, version))
        <==> (forall k :: 0 <= k <= |steps| ==> ok(Apply(docs, steps[..k])))
  {
  }

  lemma BothPrefixes(leq: (Path, Path) -> bool, docs: Files, w: seq<Write>, ok: Files -> bool)
    requires |w| == 1 && ok(docs) && ok(Apply(docs, w))
    ensures forall k :: 0 <= k <= 1 ==> ok(Apply(docs, InPathOrder(leq, w)[..k]))
  {
    OneInOrder(leq, w);
    assert w[..1] == w && w[..0] == [];
  }

  lemma OneInOrder(leq: (Path, Path) -> bool, w: seq<Write>)
    requires |w| == 1
    ensures InPathOrder(leq, w) == w
  {
    var s := InPathOrder(leq, w);
    assert s[0] in multiset(s) && s[0] in multiset(w);
  }

  lemma FirstOfTwo(leq: (Path, Path) -> bool, docs: Files, w: seq<Write>, ok: Files -> bool)
    requires |w| == 2 && !ok(Apply(docs, [w[0]])) && !ok(Apply(docs, [w[1]]))
    ensures !ok(Apply(docs, InPathOrder(leq, w)[..1]))
  {
    var s := InPathOrder(leq, w);
    assert s[0] in multiset(s) && s[0] in multiset(w);
    assert s[..1] == [s[0]];
  }

  lemma UpdateIsIntact(config: StorageConfig, docs: Files, id: string, revision: Revision<Content>, l: seq<Entity>, changes: Changes, now: string)
    requires MayEdit(config, docs, id, revision, l) && l[|l| - 1].content.Document?
    requires Readable(config, Changed(l[|l| - 1].content, changes, now, false))
    ensures Intact(config, Apply(docs, UpdateWrites(config, l[|l| - 1], changes, now)), id, |l|)
  {
    CurrentVersion(config, docs, id, revision, l);
    var current := l[|l| - 1];
    var next := Changed(current.content, changes, now, false);
    UpdateAccepted(config, docs, id, revision, l, changes, now);
    RenamedElsewhere(config, docs, id, current, next.metadata);
    UpdateReplaces(config, docs, id, current, changes, now);
    assert HasVersion(docs, id, |l|);
    ReplacedKeepsVersions(docs, current.path, DocumentPath(config, Active, next.metadata), next,
      Apply(docs, UpdateWrites(config, current, changes, now)), id, |l|);
  }

  /** After a crash that deleted the old file first, the version before is no longer superseded. */
  lemma CrashUncoversHistory(config: StorageConfig, docs: Files, id: string, revision: Revision<Content>, l: seq<Entity>)
    requires MayEdit(config, docs, id, revision, l) && |l| >= 2
    ensures Superseded(docs, l[|l| - 2].content) && !Superseded(docs - {l[|l| - 1].path}, l[|l| - 2].content)
  {
    CurrentVersion(config, docs, id, revision, l);
    ReplacedByLast(docs, id, l);
    CurrentGone(config, docs, id, l[|l| - 1]);
  }

  /** It is current again, and can be edited: history is not kept across such a crash. */
  lemma UncoveredIsEditable(config: StorageConfig, docs: Files, id: string, revision: Revision<Content>, l: seq<Entity>)
    requires MayEdit(config, docs, id, revision, l) && |l| >= 2
    ensures MayEdit(config, docs - {l[|l| - 1].path}, id, V1(l[|l| - 2].content), l[..|l| - 1])
  {
    DroppedCurrent(config, docs, id, revision, l);
    ShorterLineage(docs, id, l);
    EditableLineage(config, docs - {l[|l| - 1].path}, id, l[..|l| - 1]);
  }

  lemma DroppedCurrent(config: StorageConfig, docs: Files, id: string, revision: Revision<Content>, l: seq<Entity>)
    requires MayEdit(config, docs, id, revision, l)
    ensures CatalogValid(config, docs - {l[|l| - 1].path})
  {
    CurrentVersion(config, docs, id, revision, l);
    DroppedValid(config, docs, id, l[|l| - 1]);
  }

  lemma EditableLineage(config: StorageConfig, docs: Files, id: string, l: seq<Entity>)
    requires CatalogValid(config, docs) && Identities.IsPrefixedIdentity(id, config.prefix, 5)
    requires IsLineage(l, docs, id) && LiesIn(l, Active)
    ensures MayEdit(config, docs, id, V1(l[|l| - 1].content), l)
  {
  }

  lemma ReplacedByLast(docs: Files, id: string, l: seq<Entity>)
    requires IsLineage(l, docs, id) && |l| >= 2
    ensures Superseded(docs, l[|l| - 2].content)
    ensures l[|l| - 2].content.Document? && l[|l| - 2].content.metadata.id == id && l[|l| - 2].content.metadata.version + 1 == |l|
  {
    var c, last := l[|l| - 2], l[|l| - 1];
    assert c.path in docs && docs[c.path] == c.content;
    assert last.path in docs && docs[last.path] == last.content && last.content.metadata.version == c.content.metadata.version + 1;
  }

  lemma ShorterLineage(docs: Files, id: string, l: seq<Entity>)
    requires forall p :: p in docs ==> docs[p].Document? && p.DocumentFile?
    requires LineagesValid(docs) && IsLineage(l, docs, id) && |l| >= 2
    ensures IsLineage(l[..|l| - 1], docs - {l[|l| - 1].path}, id)
  {
    var last := l[|l| - 1];
    var rest, after := l[..|l| - 1], docs - {last.path};
    forall k | 0 <= k < |rest| ensures rest[k].path in after && after[rest[k].path] == rest[k].content {
      assert docs[l[k].path].metadata.version != docs[last.path].metadata.version;
    }
    forall p | p in after && after[p].Document? && after[p].metadata.id == id ensures Entity(p, after[p]) in rest {
      var k :| 0 <= k < |l| && l[k] == Entity(p, docs[p]);
      assert rest[k] == l[k];
    }
  }

  /** An edit of the uncovered version then takes its content out of the catalogue for good. */
  lemma UncoveredIsOverwritten(config: StorageConfig, docs: Files, id: string, revision: Revision<Content>, changes: Changes, now: string, l: seq<Entity>, after: Files)
    requires Updated(config, docs, id, revision, changes, now, l, after)
    requires Changed(l[|l| - 1].content, changes, now, false) != l[|l| - 1].content
    ensures forall p :: p in after ==> after[p] != l[|l| - 1].content
  {
    CurrentVersion(config, docs, id, revision, l);
    var current := l[|l| - 1];
    var next := Changed(current.content, changes, now, false);
    RenamedElsewhere(config, docs, id, current, next.metadata);
    UpdateReplaces(config, docs, id, current, changes, now);
    ReplacedIsGone(docs, current, DocumentPath(config, Active, next.metadata), next, after);
  }

  lemma ReplacedIsGone(docs: Files, current: Entity, destination: Path, next: Content, after: Files)
    requires forall p :: p in docs ==> docs[p].Document? && p.DocumentFile?
    requires LineagesValid(docs) && Replaced(docs, current.path, destination, next, after)
    requires docs[current.path] == current.content && next != current.content
    ensures forall p :: p in after ==> after[p] != current.content
  {
    forall p | p in after ensures after[p] != current.content {
      if p != destination {
        assert p in docs && after[p] == docs[p] && p != current.path;
      }
    }
  }

  lemma TwiceFiled(config: StorageConfig, docs: Files, current: Entity, p: Path, next: Content)
    requires current.path in docs && docs[current.path] == current.content
    requires p != current.path && SameVersion(current.content, next)
    ensures !CatalogValid(config, docs[p := next])
  {
    var created := docs[p := next];
    assert current.path in created && p in created;
  }

  lemma DroppedValid(config: StorageConfig, docs: Files, id: string, current: Entity)
    requires CatalogValid(config, docs) && IsCurrent(config, docs, id, current)
    requires !HasVersion(docs, id, current.content.metadata.version + 1)
    ensures CatalogValid(config, docs - {current.path})
  {
    var rest := docs - {current.path};
    assert rest.Keys == docs.Keys - {current.path};
    assert WellFiledDocs(config, rest);
    forall p | p in rest
      ensures 1 <= rest[p].metadata.version <= MAX_VERSIONS
      ensures rest[p].metadata.version > 1 ==> HasVersion(rest, rest[p].metadata.id, rest[p].metadata.version - 1)
    {
      DroppedVersions(docs, current, p);
    }
  }

  lemma DroppedVersions(docs: Files, current: Entity, p: Path)
    requires forall q :: q in docs ==> docs[q].Document? && q.DocumentFile?
    requires LineagesValid(docs)
    requires current.path in docs && docs[current.path] == current.content && current.content.Document?
    requires !HasVersion(docs, current.content.metadata.id, current.content.metadata.version + 1)
    requires p in docs && p != current.path
    ensures 1 <= docs[p].metadata.version <= MAX_VERSIONS
    ensures docs[p].metadata.version > 1 ==> HasVersion(docs - {current.path}, docs[p].metadata.id, docs[p].metadata.version - 1)
  {
    if docs[p].metadata.version > 1 {
      DroppedKeepsVersion(docs, current, docs[p].metadata.id, docs[p].metadata.version - 1, p);
    }
  }

  lemma DroppedKeepsVersion(docs: Files, current: Entity, id: string, version: int, p: Path)
    requires current.path in docs && docs[current.path] == current.content && current.content.Document?
    requires !HasVersion(docs, current.content.metadata.id, current.content.metadata.version + 1)
    requires p in docs && docs[p].Document? && docs[p].metadata.id == id && docs[p].metadata.version == version + 1
    requires HasVersion(docs, id, version)
    ensures HasVersion(docs - {current.path}, id, version)
  {
    var q :| q in docs && docs[q].Document? && docs[q].metadata.id == id && docs[q].metadata.version == version;
    assert q != current.path;
    assert q in docs - {current.path};
  }

  lemma CurrentGone(config: StorageConfig, docs: Files, id: string, current: Entity)
    requires CatalogValid(config, docs) && IsCurrent(config, docs, id, current)
    ensures !HasVersion(docs - {current.path}, id, current.content.metadata.version)
  {
    var v := current.content.metadata.version;
    var rest := docs - {current.path};
    forall p | p in rest && rest[p].Document? && rest[p].metadata.id == id ensures rest[p].metadata.version != v {
      assert docs[p].metadata.id == docs[current.path].metadata.id;
    }
  }
}
