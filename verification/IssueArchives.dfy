/**
 Archiving a subtree of issues as a batch of files, and what an interrupted batch leaves:
 exactly which mixtures of old and new files are still a valid graph.
 */
module IssueArchives {
  import opened Wrappers
  import opened FileBatches
  import opened Digraphs
  import opened IssueGraph

  /** The place of an issue is the directory of its file. */
  datatype IssueFile = IssueFile(place: Place, id: string)

  type IssueFiles = map<IssueFile, Issue>
  type Write = Replacement<IssueFile, Issue>

  function FilesOf(s: Store): IssueFiles {
    map id | id in s :: IssueFile(s[id].place, id) := s[id].issue
  }

  function Identities(files: IssueFiles): set<string> {
    set f | f in files :: f.id
  }

  /** No issue has two files. */
  ghost predicate Unambiguous(files: IssueFiles) {
    forall id: string :: IssueFile(Active, id) in files ==> IssueFile(Archived, id) !in files
  }

  /** The graph of the files; of an issue with two files the active one. */
  function GraphOf(files: IssueFiles): Store {
    map id | id in Identities(files) :: EntityIn(files, id)
  }

  function EntityIn(files: IssueFiles, id: string): (e: Entity)
    requires id in Identities(files)
    ensures Get(files, IssueFile(e.place, id)) == Some(e.issue)
  {
    if IssueFile(Active, id) in files then Entity(files[IssueFile(Active, id)], Active)
    else
      assert IssueFile(Archived, id) in files by {
        var f :| f in files && f.id == id;
        assert f == IssueFile(f.place, id) && (f.place == Active || f.place == Archived);
      }
      Entity(files[IssueFile(Archived, id)], Archived)
  }

  ghost predicate DiskValid(files: IssueFiles) {
    Unambiguous(files) && Valid(GraphOf(files))
  }

  // ---- The batch ----

  function Create(s: Store, moving: set<string>, id: string): Write
    requires id in s
  {
    Replacement(IssueFile(Archived, id), Some(ArchivedStore(s, moving)[id].issue), MustBeAbsent)
  }

  function Delete(s: Store, id: string): Write
    requires id in s
  {
    Replacement(IssueFile(Active, id), None, MustMatch(V1(s[id].issue)))
  }

  /** For each issue of the list, its archived file is created and its active one deleted. */
  function ArchiveBatch(s: Store, moving: set<string>, order: seq<string>): (w: seq<Write>)
    requires forall id :: id in order ==> id in s
    ensures |w| == 2 * |order|
  {
    if order == [] then []
    else
      var n := |order| - 1;
      ArchiveBatch(s, moving, order[..n]) + [Create(s, moving, order[n]), Delete(s, order[n])]
  }

  /** The active issues of a subtree, each once. */
  ghost predicate Lists(s: Store, moving: set<string>, order: seq<string>) {
    && (forall id :: id in order <==> id in moving)
    && (forall id :: id in moving ==> id in s && s[id].place == Active)
    && forall i, j :: 0 <= i < j < |order| ==> order[i] != order[j]
  }

  lemma {:induction false} BatchAre(s: Store, moving: set<string>, order: seq<string>)
    requires forall id :: id in order ==> id in s
    ensures forall id :: id in order ==> Create(s, moving, id) in ArchiveBatch(s, moving, order) && Delete(s, id) in ArchiveBatch(s, moving, order)
    ensures forall w :: w in ArchiveBatch(s, moving, order) ==> exists id :: id in order && (w == Create(s, moving, id) || w == Delete(s, id))
  {
    if order != [] {
      var n := |order| - 1;
      assert order == order[..n] + [order[n]];
      BatchAre(s, moving, order[..n]);
    }
  }

  lemma {:induction false} BatchDistinct(s: Store, moving: set<string>, order: seq<string>)
    requires forall id :: id in order ==> id in s
    requires forall i, j :: 0 <= i < j < |order| ==> order[i] != order[j]
    ensures DistinctPaths(ArchiveBatch(s, moving, order))
  {
    if order != [] {
      var n := |order| - 1;
      BatchDistinct(s, moving, order[..n]);
      BatchAre(s, moving, order[..n]);
      assert forall id :: id in order[..n] ==> id != order[n];
      DistinctConcat(ArchiveBatch(s, moving, order[..n]), [Create(s, moving, order[n]), Delete(s, order[n])]);
    }
  }

  lemma FileAt(s: Store, f: IssueFile)
    ensures Get(FilesOf(s), f) == if f.id in s && s[f.id].place == f.place then Some(s[f.id].issue) else None
  {
    if f.id in s && s[f.id].place == f.place {
      assert IssueFile(s[f.id].place, f.id) in FilesOf(s);
    }
  }

  /** When every publish works, the files are those of the archived graph. */
  lemma ArchiveComplete(s: Store, moving: set<string>, order: seq<string>)
    requires Lists(s, moving, order)
    ensures Apply(FilesOf(s), ArchiveBatch(s, moving, order)) == FilesOf(ArchivedStore(s, moving))
  {
    var w := ArchiveBatch(s, moving, order);
    BatchAre(s, moving, order);
    BatchDistinct(s, moving, order);
    forall f: IssueFile ensures Get(Apply(FilesOf(s), w), f) == Get(FilesOf(ArchivedStore(s, moving)), f) {
      FileAt(s, f);
      FileAt(ArchivedStore(s, moving), f);
      if f.id in moving {
        ApplyIn(FilesOf(s), w, Create(s, moving, f.id));
        ApplyIn(FilesOf(s), w, Delete(s, f.id));
      } else {
        BatchMisses(s, moving, order, f);
        ApplyElsewhere(FilesOf(s), w, f);
      }
    }
    SameGetSameFiles(Apply(FilesOf(s), w), FilesOf(ArchivedStore(s, moving)));
  }

  lemma BatchMisses(s: Store, moving: set<string>, order: seq<string>, f: IssueFile)
    requires (forall id :: id in order ==> id in s) && f.id !in order
    ensures forall i :: 0 <= i < |ArchiveBatch(s, moving, order)| ==> ArchiveBatch(s, moving, order)[i].path != f
  {
    var w := ArchiveBatch(s, moving, order);
    BatchAre(s, moving, order);
    forall i | 0 <= i < |w| ensures w[i].path != f {
      assert w[i] in w;
    }
  }

  // ---- Part of a graph ----

  /** The same issue, perhaps cut off from its parent. */
  ghost predicate LikeIssue(x: Issue, y: Issue) {
    x == y || x == y.(parent := None)
  }

  ghost predicate PartOf(g: Store, s: Store) {
    forall id :: id in g ==> id in s && LikeIssue(g[id].issue, s[id].issue)
  }

  /** Every issue refers only to issues that are there. */
  ghost predicate Closed(g: Store) {
    forall id :: id in g ==> RefersWithin(g, g[id].issue)
  }

  ghost predicate RefersWithin(g: Store, issue: Issue) {
    && (issue.parent.Some? ==> issue.parent.value in g)
    && issue.dependsOn <= g.Keys && issue.supersedes <= g.Keys && issue.relatesTo <= g.Keys && issue.duplicates <= g.Keys
  }

  /** Part of a valid graph is valid exactly if nothing in it refers to something missing. */
  lemma PartValid(s: Store, g: Store)
    requires Valid(s) && PartOf(g, s)
    ensures Valid(g) <==> Closed(g)
  {
    if Closed(g) {
      forall id | id in g ensures EntityOk(g, id) {
        PartEntityOk(s, g, id);
      }
      TypesForbidHierarchyCycles(g);
      PartAcyclic(s, g);
    }
    if Valid(g) {
      forall id | id in g ensures RefersWithin(g, g[id].issue) {
        assert EntityOk(g, id);
      }
    }
  }

  lemma PartEntityOk(s: Store, g: Store, id: string)
    requires PartOf(g, s) && Closed(g) && id in g && EntityOk(s, id)
    ensures EntityOk(g, id)
  {
    var x, y := g[id].issue, s[id].issue;
    assert RefersWithin(g, x);
    assert ReferencesOk(s, id, y);
    assert TargetsOk(g, id, x.dependsOn) && TargetsOk(g, id, x.supersedes) && TargetsOk(g, id, x.relatesTo) && TargetsOk(g, id, x.duplicates);
    if x.parent.Some? {
      assert LikeIssue(g[x.parent.value].issue, s[x.parent.value].issue);
    }
  }

  lemma PartAcyclic(s: Store, g: Store)
    requires PartOf(g, s) && !HasCycle(Dependencies(s))
    ensures !HasCycle(Dependencies(g))
  {
    assert Subgraph(Dependencies(g), Dependencies(s)) by {
      forall id | id in g ensures g[id].issue.dependsOn == s[id].issue.dependsOn {
        assert LikeIssue(g[id].issue, s[id].issue);
      }
    }
    SubgraphAcyclic(Dependencies(g), Dependencies(s));
  }

  // ---- An interrupted archive ----

  lemma StoppedAt(s: Store, moving: set<string>, order: seq<string>, files: IssueFiles, id: string)
    requires Lists(s, moving, order) && Between(FilesOf(s), ArchiveBatch(s, moving, order), files)
    ensures id !in moving ==> forall place :: Get(files, IssueFile(place, id)) == Get(FilesOf(s), IssueFile(place, id))
    ensures id in moving ==>
      && Get(files, IssueFile(Active, id)) in {None, Some(s[id].issue)}
      && Get(files, IssueFile(Archived, id)) in {None, Some(ArchivedStore(s, moving)[id].issue)}
  {
    var w := ArchiveBatch(s, moving, order);
    if id in moving {
      BatchAre(s, moving, order);
      FileAt(s, IssueFile(Active, id));
      FileAt(s, IssueFile(Archived, id));
      var i :| 0 <= i < |w| && w[i] == Create(s, moving, id);
      var j :| 0 <= j < |w| && w[j] == Delete(s, id);
      assert Get(files, w[i].path) == Get(FilesOf(s), w[i].path) || Get(files, w[i].path) == w[i].bytes;
      assert Get(files, w[j].path) == Get(FilesOf(s), w[j].path) || Get(files, w[j].path) == w[j].bytes;
    } else {
      forall place ensures Get(files, IssueFile(place, id)) == Get(FilesOf(s), IssueFile(place, id)) {
        BatchMisses(s, moving, order, IssueFile(place, id));
      }
    }
  }

  lemma StoppedIsPart(s: Store, moving: set<string>, order: seq<string>, files: IssueFiles)
    requires Lists(s, moving, order) && Between(FilesOf(s), ArchiveBatch(s, moving, order), files)
    ensures PartOf(GraphOf(files), s)
  {
    var g := GraphOf(files);
    forall id | id in g ensures id in s && LikeIssue(g[id].issue, s[id].issue) {
      StoppedAt(s, moving, order, files, id);
      FileAt(s, IssueFile(Active, id));
      FileAt(s, IssueFile(Archived, id));
      assert g[id] == EntityIn(files, id);
      assert Get(files, IssueFile(g[id].place, id)) == Some(g[id].issue);
    }
  }

  /**
   Whatever a crash or a failed rollback leaves of the batch, it is a valid graph exactly if
   no issue has two files and no issue refers to one that has none.
   */
  lemma InterruptedArchive(s: Store, moving: set<string>, order: seq<string>, files: IssueFiles)
    requires Valid(s) && Lists(s, moving, order) && Between(FilesOf(s), ArchiveBatch(s, moving, order), files)
    ensures DiskValid(files) <==> Unambiguous(files) && Closed(GraphOf(files))
  {
    StoppedIsPart(s, moving, order, files);
    PartValid(s, GraphOf(files));
  }

  /** A crash after any prefix of the batch, in whatever order of paths. */
  lemma ArchiveCrash(s: Store, moving: set<string>, order: seq<string>, leq: (IssueFile, IssueFile) -> bool, k: nat)
    requires Valid(s) && Lists(s, moving, order) && k <= |ArchiveBatch(s, moving, order)|
    ensures
      var files := Apply(FilesOf(s), InPathOrder(leq, ArchiveBatch(s, moving, order))[..k]);
      DiskValid(files) <==> Unambiguous(files) && Closed(GraphOf(files))
  {
    var w := ArchiveBatch(s, moving, order);
    BatchDistinct(s, moving, order);
    SortedPrefixBetween(leq, FilesOf(s), w, k);
    InterruptedArchive(s, moving, order, Apply(FilesOf(s), InPathOrder(leq, w)[..k]));
  }
}
