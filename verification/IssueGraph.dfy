/**
 The typed issue graph: parents form a forest, dependencies are acyclic, symmetric
 edges are stored once, and archiving takes a whole subtree.
 */
module IssueGraph {
  import opened Wrappers
  import opened Digraphs
  import opened FileBatches
  import Identities

  datatype IssueType = Initiative | Epic | Story | Task | Bug

  datatype Place = Active | Archived

  /** `content` stands for title, status, people, times, body, comments and metadata. */
  datatype Issue = Issue(
    kind: IssueType, parent: Option<string>, dependsOn: set<string>, relatesTo: set<string>,
    duplicates: set<string>, supersedes: set<string>, content: string)

  datatype Entity = Entity(issue: Issue, place: Place)

  type Store = map<string, Entity>

  function AllowedParents(kind: IssueType): set<IssueType> {
    match kind
    case Initiative => {}
    case Epic => {Initiative}
    case Story => {Epic, Initiative}
    case Task => {Story, Epic}
    case Bug => {Story, Task, Epic}
  }

  function Parents(s: Store): map<string, Option<string>> {
    map id | id in s :: s[id].issue.parent
  }

  function Dependencies(s: Store): Graph<string> {
    map id | id in s :: s[id].issue.dependsOn
  }

  /** What an operation on active issues sees. */
  function ActiveOf(s: Store): Store {
    map id | id in s && s[id].place == Active :: s[id]
  }

  // ---- Valid graphs ----

  predicate ParentOk(s: Store, issue: Issue) {
    issue.parent.Some? ==> issue.parent.value in s && s[issue.parent.value].issue.kind in AllowedParents(issue.kind)
  }

  predicate TargetsOk(s: Store, id: string, targets: set<string>) {
    forall t :: t in targets ==> t != id && t in s
  }

  /** A symmetric edge belongs to the smaller of its two identities. */
  predicate OwnedBy(id: string, targets: set<string>) {
    forall t :: t in targets ==> Identities.Before(id, t)
  }

  predicate ReferencesOk(s: Store, id: string, issue: Issue) {
    && TargetsOk(s, id, issue.dependsOn) && TargetsOk(s, id, issue.supersedes)
    && TargetsOk(s, id, issue.relatesTo) && OwnedBy(id, issue.relatesTo)
    && TargetsOk(s, id, issue.duplicates) && OwnedBy(id, issue.duplicates)
  }

  predicate EntityOk(s: Store, id: string)
    requires id in s
  {
    ParentOk(s, s[id].issue) && ReferencesOk(s, id, s[id].issue)
  }

  ghost predicate Valid(s: Store) {
    && (forall id :: id in s ==> EntityOk(s, id))
    && !HasCycle(ParentGraph(Parents(s)))
    && !HasCycle(Dependencies(s))
  }

  /** No parent link joins an active and an archived issue. */
  ghost predicate NoSplit(s: Store) {
    forall id :: id in s && s[id].issue.parent.Some? && s[id].issue.parent.value in s ==>
      s[s[id].issue.parent.value].place == s[id].place
  }

  // ---- Parent types already make a forest ----

  function Depth(kind: IssueType): nat {
    match kind
    case Initiative => 0
    case Epic => 1
    case Story => 2
    case Task => 3
    case Bug => 4
  }

  lemma {:induction false} DepthFalls(s: Store, p: seq<string>)
    requires forall id :: id in s ==> ParentOk(s, s[id].issue)
    requires IsPath(ParentGraph(Parents(s)), p) && |p| > 1 && p[0] in s
    ensures p[|p| - 1] in s && Depth(s[p[|p| - 1]].issue.kind) < Depth(s[p[0]].issue.kind)
  {
    var g := ParentGraph(Parents(s));
    assert p[0] in g && p[1] in g[p[0]] && ParentOk(s, s[p[0]].issue);
    if |p| > 2 {
      DepthFalls(s, p[1..]);
    }
  }

  /** Resolved parents of allowed types cannot form a cycle: the hierarchy check never decides alone. */
  lemma TypesForbidHierarchyCycles(s: Store)
    requires forall id :: id in s ==> ParentOk(s, s[id].issue)
    ensures !HasCycle(ParentGraph(Parents(s)))
  {
    if p :| IsPath(ParentGraph(Parents(s)), p) && |p| > 1 && p[0] == p[|p| - 1] {
      assert p[0] in ParentGraph(Parents(s));
      DepthFalls(s, p);
    }
  }

  // ---- Validation ----

  /** The report stops growing after one finding too many. */
  function AddFinding(findings: nat): nat {
    if findings <= MAX_FINDINGS then findings + 1 else findings
  }

  method CheckTargets(s: Store, id: string, targets: set<string>, symmetric: bool, findings: nat) returns (found: nat)
    ensures found >= findings
    ensures findings == 0 ==> (found == 0 <==> TargetsOk(s, id, targets) && (symmetric ==> OwnedBy(id, targets)))
  {
    found := findings;
    var pending := targets;
    while pending != {}
      invariant pending <= targets && found >= findings
      invariant findings == 0 ==> (found == 0 <==>
        TargetsOk(s, id, targets - pending) && (symmetric ==> OwnedBy(id, targets - pending)))
      decreases |pending|
    {
      var t :| t in pending;
      assert targets - (pending - {t}) == (targets - pending) + {t};
      pending := pending - {t};
      if t == id || t !in s {
        found := AddFinding(found);
      }
      if symmetric && !Identities.Before(id, t) {
        found := AddFinding(found);
      }
    }
    assert targets - pending == targets;
  }

  method CheckEntity(s: Store, id: string, findings: nat) returns (found: nat)
    requires id in s
    ensures found >= findings
    ensures findings == 0 ==> (found == 0 <==> EntityOk(s, id))
  {
    var issue := s[id].issue;
    found := if ParentOk(s, issue) then findings else AddFinding(findings);
    found := CheckTargets(s, id, issue.dependsOn, false, found);
    found := CheckTargets(s, id, issue.relatesTo, true, found);
    found := CheckTargets(s, id, issue.duplicates, true, found);
    found := CheckTargets(s, id, issue.supersedes, false, found);
  }

  /** The report is empty exactly when the graph is valid, whatever its cap. */
  method Validate(s: Store) returns (findings: nat)
    ensures findings == 0 <==> Valid(s)
  {
    findings := 0;
    var pending := s.Keys;
    while pending != {}
      invariant pending <= s.Keys
      invariant findings == 0 <==> forall id :: id in s && id !in pending ==> EntityOk(s, id)
      decreases |pending|
    {
      var id :| id in pending;
      ghost var before := findings;
      findings := CheckEntity(s, id, findings);
      pending := pending - {id};
    }
    findings := AddCycleFindings(ParentGraph(Parents(s)), findings);
    findings := AddCycleFindings(Dependencies(s), findings);
  }

  // ---- Creating ----

  function NewIssue(kind: IssueType, parent: Option<string>, depends: set<string>, content: string): Entity {
    Entity(Issue(kind, parent, depends, {}, {}, {}, content), Active)
  }

  ghost predicate MayCreate(s: Store, id: string, kind: IssueType, parent: Option<string>, depends: set<string>) {
    && Valid(s) && id !in s
    && depends <= ActiveOf(s).Keys
    && (parent.Some? ==> parent.value in ActiveOf(s) && s[parent.value].issue.kind in AllowedParents(kind))
  }

  lemma CreateKeepsGraph(s: Store, id: string, kind: IssueType, parent: Option<string>, depends: set<string>, content: string)
    requires MayCreate(s, id, kind, parent, depends)
    ensures Valid(s[id := NewIssue(kind, parent, depends, content)])
    ensures NoSplit(s) ==> NoSplit(s[id := NewIssue(kind, parent, depends, content)])
  {
    var after := s[id := NewIssue(kind, parent, depends, content)];
    forall x | x in after ensures EntityOk(after, x) {
      if x != id { assert EntityOk(s, x); }
    }
    TypesForbidHierarchyCycles(after);
    forall x | x in after ensures id !in Dependencies(after)[x] {
      if x != id { assert EntityOk(s, x); }
    }
    NewNodeAcyclic(Dependencies(s), Dependencies(after), id);
    if NoSplit(s) {
      forall x | x in after && after[x].issue.parent.Some? ensures after[after[x].issue.parent.value].place == after[x].place {
        if x != id { assert EntityOk(s, x); }
      }
    }
  }

  // ---- Updating ----

  datatype Changes = Changes(kind: Option<IssueType>, parent: Option<Option<string>>, content: Option<string>)

  function Updated(issue: Issue, changes: Changes): Issue {
    issue.(
      kind := if changes.kind.Some? then changes.kind.value else issue.kind,
      parent := if changes.parent.Some? then changes.parent.value else issue.parent,
      content := if changes.content.Some? then changes.content.value else issue.content)
  }

  predicate ChildrenAccept(s: Store, id: string, kind: IssueType) {
    forall c :: c in s && s[c].issue.parent == Some(id) ==> kind in AllowedParents(s[c].issue.kind)
  }

  /** An active issue at the revision the caller has seen, staying under an active parent. */
  ghost predicate MayTouch(s: Store, id: string, revision: Revision<Issue>, changes: Changes) {
    && Valid(s) && id in ActiveOf(s) && V1(s[id].issue) == revision
    && var next := Updated(s[id].issue, changes); (next.parent.Some? ==> next.parent.value in ActiveOf(s))
  }

  ghost predicate TypesFit(s: Store, id: string, next: Issue) {
    && (next.parent.Some? ==> next.parent.value != id && next.parent.value in s && s[next.parent.value].issue.kind in AllowedParents(next.kind))
    && ChildrenAccept(s, id, next.kind)
  }

  function UpdatedStore(s: Store, id: string, changes: Changes): Store
    requires id in s
  {
    s[id := s[id].(issue := Updated(s[id].issue, changes))]
  }

  lemma UpdateAgreesWithTypes(s: Store, id: string, changes: Changes)
    requires Valid(s) && id in s
    ensures Valid(UpdatedStore(s, id, changes)) <==> TypesFit(s, id, Updated(s[id].issue, changes))
  {
    var after := UpdatedStore(s, id, changes);
    var next := Updated(s[id].issue, changes);
    assert Dependencies(after) == Dependencies(s);
    if TypesFit(s, id, next) {
      FittingUpdate(s, id, changes);
      TypesForbidHierarchyCycles(after);
    }
    if Valid(after) {
      UpdateFits(s, id, changes);
    }
  }

  lemma FittingUpdate(s: Store, id: string, changes: Changes)
    requires (forall x :: x in s ==> EntityOk(s, x)) && id in s && TypesFit(s, id, Updated(s[id].issue, changes))
    ensures forall x :: x in s ==> EntityOk(UpdatedStore(s, id, changes), x)
    ensures forall x :: x in s ==> ParentOk(UpdatedStore(s, id, changes), UpdatedStore(s, id, changes)[x].issue)
  {
    forall x | x in s ensures EntityOk(UpdatedStore(s, id, changes), x) {
      FittingEntity(s, id, changes, x);
    }
  }

  lemma FittingEntity(s: Store, id: string, changes: Changes, x: string)
    requires x in s && EntityOk(s, x) && id in s && EntityOk(s, id) && TypesFit(s, id, Updated(s[id].issue, changes))
    ensures EntityOk(UpdatedStore(s, id, changes), x)
  {
    var after := UpdatedStore(s, id, changes);
    assert after.Keys == s.Keys;
    assert ReferencesOk(s, x, s[x].issue);
  }

  lemma UpdateFits(s: Store, id: string, changes: Changes)
    requires id in s && EntityOk(s, id) && forall x :: x in s ==> EntityOk(UpdatedStore(s, id, changes), x)
    requires !HasCycle(ParentGraph(Parents(UpdatedStore(s, id, changes))))
    ensures TypesFit(s, id, Updated(s[id].issue, changes))
  {
    var after := UpdatedStore(s, id, changes);
    var next := Updated(s[id].issue, changes);
    assert EntityOk(after, id);
    forall c | c in s && s[c].issue.parent == Some(id) ensures next.kind in AllowedParents(s[c].issue.kind) {
      if c != id { assert EntityOk(after, c); }
    }
  }

  lemma UpdateKeepsSplit(s: Store, id: string, revision: Revision<Issue>, changes: Changes)
    requires MayTouch(s, id, revision, changes) && NoSplit(s)
    ensures NoSplit(UpdatedStore(s, id, changes))
  {
    var after := UpdatedStore(s, id, changes);
    forall x | x in after && after[x].issue.parent.Some? && after[x].issue.parent.value in after
      ensures after[after[x].issue.parent.value].place == after[x].place
    {
    }
  }

  /** Once types fit, the parent chosen is never below the issue: the walk up finds no cycle. */
  lemma NoParentBelow(s: Store, id: string, next: Issue)
    requires (forall x :: x in s ==> ParentOk(s, s[x].issue)) && TypesFit(s, id, next) && next.parent.Some?
    ensures !Reaches(ParentGraph(Parents(s)), next.parent.value, id)
  {
    var g := ParentGraph(Parents(s));
    if p :| IsPathFromTo(g, p, next.parent.value, id) {
      var up := p[..|p| - 1];
      var child := p[|p| - 2];
      assert child in g && id in g[child];
      assert IsPath(g, up);
      if |up| > 1 {
        DepthFalls(s, up);
      }
      assert Depth(next.kind) < Depth(s[child].issue.kind) <= Depth(s[next.parent.value].issue.kind);
    }
  }

  // ---- Relating ----

  datatype Relationship = DependsOn | Blocks | RelatesTo | Duplicates | Supersedes

  function Targets(issue: Issue, rel: Relationship): set<string> {
    match rel
    case DependsOn => issue.dependsOn
    case Blocks => issue.dependsOn
    case RelatesTo => issue.relatesTo
    case Duplicates => issue.duplicates
    case Supersedes => issue.supersedes
  }

  function WithTargets(issue: Issue, rel: Relationship, targets: set<string>): Issue {
    match rel
    case DependsOn => issue.(dependsOn := targets)
    case Blocks => issue.(dependsOn := targets)
    case RelatesTo => issue.(relatesTo := targets)
    case Duplicates => issue.(duplicates := targets)
    case Supersedes => issue.(supersedes := targets)
  }

  /** The issue that stores the edge, and the identity it stores: `blocks` is stored by its target. */
  function Owner(rel: Relationship, id: string, target: string): (string, string) {
    if rel == Blocks then (target, id)
    else if (rel == RelatesTo || rel == Duplicates) && Identities.Before(target, id) then (target, id)
    else (id, target)
  }

  function SetReference(issue: Issue, rel: Relationship, value: string, add: bool): Issue {
    WithTargets(issue, rel, if add then Targets(issue, rel) + {value} else Targets(issue, rel) - {value})
  }

  /** The store after the edge has been added or removed. */
  function Related(s: Store, rel: Relationship, id: string, target: string, add: bool): Store {
    var (owner, other) := Owner(rel, id, target);
    if owner in s then s[owner := s[owner].(issue := SetReference(s[owner].issue, rel, other, add))] else s
  }

  ghost predicate MayRelate(s: Store, id: string, target: string) {
    Valid(s) && id != target && id in ActiveOf(s) && target in ActiveOf(s)
  }

  /** The new dependency, if there is one: who will depend on whom. */
  predicate AddsDependency(s: Store, rel: Relationship, id: string, target: string, add: bool) {
    && add && (rel == DependsOn || rel == Blocks)
    && var (owner, other) := Owner(rel, id, target); owner in s && other !in s[owner].issue.dependsOn
  }

  predicate Symmetric(rel: Relationship) { rel == RelatesTo || rel == Duplicates }

  lemma OwnerHolds(s: Store, rel: Relationship, id: string, target: string)
    requires MayRelate(s, id, target)
    ensures var (owner, other) := Owner(rel, id, target);
      && owner in s && other in s && owner != other
      && (Symmetric(rel) ==> Identities.Before(owner, other))
  {
    Identities.OrderIsAntisymmetric(id, target);
  }

  lemma SetReferenceOk(s: Store, owner: string, issue: Issue, rel: Relationship, other: string, add: bool)
    requires ReferencesOk(s, owner, issue)
    requires other in s && owner != other && (Symmetric(rel) ==> Identities.Before(owner, other))
    ensures var next := SetReference(issue, rel, other, add);
      ReferencesOk(s, owner, next) && next.kind == issue.kind && next.parent == issue.parent
  {
  }

  lemma SameKindsOk(s: Store, owner: string, next: Issue, x: string)
    requires owner in s && x in s && EntityOk(s, x) && EntityOk(s, owner)
    requires next.kind == s[owner].issue.kind && next.parent == s[owner].issue.parent && ReferencesOk(s, owner, next)
    ensures EntityOk(s[owner := s[owner].(issue := next)], x)
  {
    var after := s[owner := s[owner].(issue := next)];
    assert after.Keys == s.Keys;
  }

  lemma RelatedReferences(s: Store, owner: string, rel: Relationship, other: string, add: bool)
    requires forall x :: x in s ==> EntityOk(s, x)
    requires owner in s && other in s && owner != other && (Symmetric(rel) ==> Identities.Before(owner, other))
    ensures forall x :: x in s ==> EntityOk(s[owner := s[owner].(issue := SetReference(s[owner].issue, rel, other, add))], x)
  {
    assert EntityOk(s, owner);
    SetReferenceOk(s, owner, s[owner].issue, rel, other, add);
    var next := SetReference(s[owner].issue, rel, other, add);
    forall x | x in s ensures EntityOk(s[owner := s[owner].(issue := next)], x) {
      SameKindsOk(s, owner, next, x);
    }
  }

  lemma RelatedParents(s: Store, owner: string, rel: Relationship, other: string, add: bool)
    requires owner in s
    ensures Parents(s[owner := s[owner].(issue := SetReference(s[owner].issue, rel, other, add))]) == Parents(s)
  {
  }

  lemma RelatedDependencies(s: Store, rel: Relationship, id: string, target: string, add: bool)
    requires MayRelate(s, id, target)
    ensures AddsDependency(s, rel, id, target, add) ==>
      var (owner, other) := Owner(rel, id, target);
      AddsEdge(Dependencies(s), Dependencies(Related(s, rel, id, target, add)), owner, other)
    ensures !AddsDependency(s, rel, id, target, add) ==>
      Subgraph(Dependencies(Related(s, rel, id, target, add)), Dependencies(s))
  {
    var (owner, other) := Owner(rel, id, target);
    OwnerHolds(s, rel, id, target);
    ReferenceDependencies(s, owner, rel, other, add);
  }

  lemma ReferenceDependencies(s: Store, owner: string, rel: Relationship, other: string, add: bool)
    requires owner in s
    ensures
      var after := s[owner := s[owner].(issue := SetReference(s[owner].issue, rel, other, add))];
      if add && (rel == DependsOn || rel == Blocks) && other !in s[owner].issue.dependsOn
      then AddsEdge(Dependencies(s), Dependencies(after), owner, other)
      else Subgraph(Dependencies(after), Dependencies(s))
  {
    var next := SetReference(s[owner].issue, rel, other, add);
    DependenciesSet(s, owner, next);
    if add && (rel == DependsOn || rel == Blocks) && other !in s[owner].issue.dependsOn {
      EdgeAdded(Dependencies(s), owner, other);
    }
  }

  lemma DependenciesSet(s: Store, owner: string, next: Issue)
    requires owner in s
    ensures Dependencies(s[owner := s[owner].(issue := next)]) == Dependencies(s)[owner := next.dependsOn]
  {
  }

  lemma EdgeAdded(g: Graph<string>, u: string, v: string)
    requires u in g
    ensures AddsEdge(g, g[u := g[u] + {v}], u, v)
  {
  }

  /**
   A relationship change keeps the graph valid, except that a new dependency must not be
   reachable the other way round.
   */
  lemma RelateKeepsGraph(s: Store, rel: Relationship, id: string, target: string, add: bool)
    requires MayRelate(s, id, target)
    ensures Valid(Related(s, rel, id, target, add)) <==>
      (AddsDependency(s, rel, id, target, add) ==>
        !Reaches(Dependencies(s), Owner(rel, id, target).1, Owner(rel, id, target).0))
    ensures NoSplit(s) ==> NoSplit(Related(s, rel, id, target, add))
  {
    var after := Related(s, rel, id, target, add);
    var (owner, other) := Owner(rel, id, target);
    OwnerHolds(s, rel, id, target);
    RelatedReferences(s, owner, rel, other, add);
    RelatedParents(s, owner, rel, other, add);
    RelatedDependencies(s, rel, id, target, add);
    if AddsDependency(s, rel, id, target, add) {
      AddEdgeAcyclic(Dependencies(s), Dependencies(after), owner, other);
    } else {
      SubgraphAcyclic(Dependencies(after), Dependencies(s));
    }
  }

  /** What is unreachable among active issues, without leaving them, is unreachable at all. */
  lemma ActiveSearchIsGlobal(s: Store, from: string, target: string)
    requires !Reaches(Dependencies(ActiveOf(s)), from, target) && !ReachesUnknown(Dependencies(ActiveOf(s)), from)
    ensures !Reaches(Dependencies(s), from, target)
  {
    var small, big := Dependencies(ActiveOf(s)), Dependencies(s);
    if p :| IsPathFromTo(big, p, from, target) {
      PathStaysActive(s, p);
    }
  }

  lemma {:induction false} PathStaysActive(s: Store, p: seq<string>)
    requires IsPath(Dependencies(s), p) && !ReachesUnknown(Dependencies(ActiveOf(s)), p[0])
    ensures Reaches(Dependencies(ActiveOf(s)), p[0], p[|p| - 1])
    decreases |p|
  {
    var small, big := Dependencies(ActiveOf(s)), Dependencies(s);
    ReachesSelf(small, p[0]);
    if |p| > 1 {
      var init := p[..|p| - 1];
      assert IsPath(big, init);
      PathStaysActive(s, init);
      var v, w := init[|init| - 1], p[|p| - 1];
      assert v in small && w in big[v];
      EdgeReaches(small, v, w);
      ReachesTransitive(small, p[0], v, w);
    }
  }

  /** The search from the new dependency sees active issues only: it must not meet `id`, nor leave them. */
  ghost predicate SearchAllows(s: Store, id: string, target: string) {
    !Reaches(Dependencies(ActiveOf(s)), target, id) && !ReachesUnknown(Dependencies(ActiveOf(s)), target)
  }

  // ---- Archiving ----

  ghost predicate Below(s: Store, x: string, root: string) {
    Reaches(ParentGraph(Parents(s)), x, root)
  }

  /** The active members of the subtree of `root`. */
  ghost function Subtree(s: Store, root: string): set<string> {
    set x | x in s && s[x].place == Active && Below(s, x, root)
  }

  function Children(s: Store, id: string): set<string> {
    set c | c in s && s[c].issue.parent == Some(id)
  }

  lemma BelowSplits(s: Store, x: string, root: string)
    ensures Below(s, x, root) <==> x == root || exists c :: c in Children(s, root) && Below(s, x, c)
  {
    var g := ParentGraph(Parents(s));
    ReachesSelf(g, root);
    if c :| c in Children(s, root) && Below(s, x, c) {
      EdgeReaches(g, c, root);
      ReachesTransitive(g, x, c, root);
    }
    if Below(s, x, root) && x != root {
      var p :| IsPathFromTo(g, p, x, root);
      var c := p[|p| - 2];
      assert c in g && p[|p| - 2 + 1] in g[c];
      assert IsPathFromTo(g, p[..|p| - 1], x, c);
      assert c in Children(s, root) && Below(s, x, c);
    }
  }

  lemma SubtreeSplits(s: Store, x: string, root: string)
    requires root in s
    ensures x in Subtree(s, root) <==>
      (x == root && s[root].place == Active) || exists c :: c in Children(s, root) && x in Subtree(s, c)
  {
    BelowSplits(s, x, root);
    if x in Subtree(s, root) && x != root {
      var c :| c in Children(s, root) && Below(s, x, c);
      assert x in Subtree(s, c);
    }
  }

  /** Collect an issue and everything below it that is active; archived issues are walked through. */
  method CollectSubtree(s: Store, root: string, collected: set<string>) returns (archived: set<string>)
    requires root in s && forall x :: x in s ==> ParentOk(s, s[x].issue)
    ensures archived == collected + Subtree(s, root)
    decreases 4 - Depth(s[root].issue.kind)
  {
    archived := if s[root].place == Active then collected + {root} else collected;
    var pending := Children(s, root);
    while pending != {}
      invariant pending <= Children(s, root)
      invariant forall x :: x in archived <==>
        || x in collected || (x == root && s[root].place == Active)
        || exists c :: c in Children(s, root) - pending && x in Subtree(s, c)
      decreases |pending|
    {
      var child :| child in pending;
      pending := pending - {child};
      assert ParentOk(s, s[child].issue);
      archived := CollectSubtree(s, child, archived);
    }
    assert Children(s, root) - pending == Children(s, root);
    forall x ensures x in archived <==> x in collected + Subtree(s, root) {
      SubtreeSplits(s, x, root);
    }
  }

  /** The moved issues are archived, and a parent that does not move along is dropped. */
  function ArchivedStore(s: Store, moving: set<string>): Store {
    map id | id in s ::
      if id !in moving then s[id]
      else Entity(
        if s[id].issue.parent.Some? && s[id].issue.parent.value !in moving then s[id].issue.(parent := None) else s[id].issue,
        Archived)
  }

  /** Archiving any set of issues keeps a valid graph valid. */
  lemma ArchiveKeepsValid(s: Store, moving: set<string>)
    requires Valid(s)
    ensures Valid(ArchivedStore(s, moving))
  {
    ArchivedEntitiesOk(s, moving);
    ArchivedDependencies(s, moving);
    TypesForbidHierarchyCycles(ArchivedStore(s, moving));
  }

  lemma ArchivedDependencies(s: Store, moving: set<string>)
    ensures Dependencies(ArchivedStore(s, moving)) == Dependencies(s)
  {
  }

  lemma ArchivedEntitiesOk(s: Store, moving: set<string>)
    requires forall x :: x in s ==> EntityOk(s, x)
    ensures forall x :: x in ArchivedStore(s, moving) ==> EntityOk(ArchivedStore(s, moving), x)
    ensures forall x :: x in ArchivedStore(s, moving) ==> ParentOk(ArchivedStore(s, moving), ArchivedStore(s, moving)[x].issue)
  {
    forall x | x in s ensures EntityOk(ArchivedStore(s, moving), x) {
      ArchivedEntityOk(s, moving, x);
    }
  }

  lemma ArchivedEntityOk(s: Store, moving: set<string>, x: string)
    requires x in s && EntityOk(s, x)
    ensures EntityOk(ArchivedStore(s, moving), x)
  {
    var after := ArchivedStore(s, moving);
    assert after.Keys == s.Keys;
    assert ParentOk(after, after[x].issue);
    assert ReferencesOk(after, x, s[x].issue);
  }

  /** Archiving a whole subtree leaves no parent link between active and archived issues. */
  lemma ArchiveKeepsSplit(s: Store, root: string)
    requires Valid(s) && NoSplit(s)
    ensures NoSplit(ArchivedStore(s, Subtree(s, root)))
  {
    var moving := Subtree(s, root);
    var after := ArchivedStore(s, moving);
    forall x | x in after && after[x].issue.parent.Some? && after[x].issue.parent.value in after
      ensures after[after[x].issue.parent.value].place == after[x].place
    {
      var parent := s[x].issue.parent.value;
      if x !in moving && parent in moving {
        assert HasEdge(ParentGraph(Parents(s)), x, parent);
        EdgeReaches(ParentGraph(Parents(s)), x, parent);
        ReachesTransitive(ParentGraph(Parents(s)), x, parent, root);
      }
    }
  }

  /** Only the root of the archived subtree can lose its parent. */
  lemma OnlyRootIsCutOff(s: Store, root: string, x: string)
    requires Valid(s) && NoSplit(s) && x in Subtree(s, root) && x != root
    ensures ArchivedStore(s, Subtree(s, root))[x].issue == s[x].issue
  {
    var g := ParentGraph(Parents(s));
    var parent := FirstStep(g, x, root);
    assert EntityOk(s, x);
    assert parent in Subtree(s, root);
  }

  // ---- The store ----

  class IssueStore {
    var entities: Store

    constructor ()
      ensures entities == map[]
    {
      entities := map[];
    }

    method CreateIssue(id: string, kind: IssueType, parent: Option<string>, depends: set<string>, content: string) returns (refusal: Option<Category>)
      modifies this
      ensures refusal == None <==> MayCreate(old(entities), id, kind, parent, depends)
      ensures entities == if refusal == None then old(entities)[id := NewIssue(kind, parent, depends, content)] else old(entities)
      ensures refusal == None ==> Step(old(entities), Create(id, kind, parent, depends, content), entities)
    {
      var findings := Validate(entities);
      if findings != 0 {
        return Some(DomainInvariant);
      }
      var active := ActiveOf(entities);
      if !(depends <= active.Keys) {
        return Some(Schema);
      }
      if parent.Some? {
        if parent.value !in active {
          return Some(Schema);
        }
        if active[parent.value].issue.kind !in AllowedParents(kind) {
          return Some(DomainInvariant);
        }
      }
      if id in entities {
        return Some(IdentityAmbiguity);
      }
      entities := entities[id := NewIssue(kind, parent, depends, content)];
      refusal := None;
    }

    method UpdateIssue(id: string, revision: Revision<Issue>, changes: Changes) returns (refusal: Option<Category>)
      requires NoSplit(entities)
      modifies this
      ensures refusal == None <==> MayTouch(old(entities), id, revision, changes) && TypesFit(old(entities), id, Updated(old(entities)[id].issue, changes))
      ensures entities == if refusal == None then UpdatedStore(old(entities), id, changes) else old(entities)
      ensures refusal == None ==> Step(old(entities), Update(id, revision, changes), entities)
    {
      var findings := Validate(entities);
      if findings != 0 {
        return Some(DomainInvariant);
      }
      var active := ActiveOf(entities);
      if id !in active {
        return Some(Schema);
      }
      if V1(active[id].issue) != revision {
        return Some(StaleRevision);
      }
      var next := Updated(active[id].issue, changes);
      refusal := CheckPlace(id, next);
      if refusal == None {
        entities := UpdatedStore(entities, id, changes);
      }
    }

    /** Parent and children of an updated issue, looked up among active issues only. */
    method CheckPlace(id: string, next: Issue) returns (refusal: Option<Category>)
      requires Valid(entities) && NoSplit(entities) && id in ActiveOf(entities)
      ensures refusal == None <==>
        (next.parent.Some? ==> next.parent.value in ActiveOf(entities)) && TypesFit(entities, id, next)
    {
      var active := ActiveOf(entities);
      ActiveSeesChildren(entities, id, next.kind);
      if next.parent.Some? {
        var parent := next.parent.value;
        if parent == id {
          return Some(DomainInvariant);
        }
        if parent !in active {
          return Some(Schema);
        }
        if active[parent].issue.kind !in AllowedParents(next.kind) {
          return Some(DomainInvariant);
        }
        var cyclic := HasHierarchyCycle(Parents(active), id, parent);
        WalkAgreesWithTypes(entities, id, next);
        if cyclic {
          return Some(DomainInvariant);
        }
      }
      if !ChildrenAccept(active, id, next.kind) {
        return Some(DomainInvariant);
      }
      refusal := None;
    }

    /** Add or remove one edge. Only a direct `depends_on` is checked for a cycle. */
    method Relate(id: string, rel: Relationship, target: string, add: bool) returns (refusal: Option<Category>)
      modifies this
      ensures !MayRelate(old(entities), id, target) ==> refusal != None
      ensures MayRelate(old(entities), id, target) && !(rel == DependsOn && AddsDependency(old(entities), rel, id, target, add)) ==> refusal == None
      ensures MayRelate(old(entities), id, target) && rel == DependsOn && AddsDependency(old(entities), rel, id, target, add) ==>
        && (refusal == None <==> SearchAllows(old(entities), id, target))
        && (refusal == Some(DomainInvariant) ==> Reaches(Dependencies(old(entities)), target, id))
        && (refusal.Some? && refusal != Some(DomainInvariant) ==> ReachesUnknown(Dependencies(ActiveOf(old(entities))), target))
      ensures entities == if refusal == None then Related(old(entities), rel, id, target, add) else old(entities)
      ensures refusal == None ==> Step(old(entities), Edge(id, rel, target, add), entities)
    {
      if id == target {
        return Some(DomainInvariant);
      }
      var findings := Validate(entities);
      if findings != 0 {
        return Some(DomainInvariant);
      }
      var active := ActiveOf(entities);
      if id !in active || target !in active {
        return Some(Schema);
      }
      var (owner, other) := Owner(rel, id, target);
      var present := other in Targets(active[owner].issue, rel);
      if present == add {
        NothingToDo(entities, rel, id, target, add);
        return None;
      }
      if add && rel == DependsOn {
        var path := HasDependencyPath(Dependencies(active), target, id);
        if path.Err? {
          return Some(path.error);
        }
        if path.value {
          SubgraphReaches(Dependencies(active), Dependencies(entities), target, id);
          return Some(DomainInvariant);
        }
        ActiveSearchIsGlobal(entities, target, id);
      }
      entities := Related(entities, rel, id, target, add);
      refusal := None;
    }

    /** Archive a subtree; archiving what is archived already changes nothing. */
    method ArchiveTree(root: string) returns (refusal: Option<Category>, archived: set<string>)
      modifies this
      ensures refusal == None <==> Valid(old(entities)) && root in old(entities)
      ensures refusal == None && old(entities)[root].place == Archived ==> archived == {} && entities == old(entities)
      ensures refusal == None && old(entities)[root].place == Active ==>
        archived == Subtree(old(entities), root) && entities == ArchivedStore(old(entities), archived)
      ensures if refusal == None then Step(old(entities), Archive(root), entities) else entities == old(entities)
    {
      archived := {};
      var findings := Validate(entities);
      if findings != 0 {
        return Some(DomainInvariant), {};
      }
      if root !in entities {
        return Some(Schema), {};
      }
      if entities[root].place == Archived {
        return None, {};
      }
      forall x | x in entities ensures ParentOk(entities, entities[x].issue) { assert EntityOk(entities, x); }
      archived := CollectSubtree(entities, root, {});
      entities := ArchivedStore(entities, archived);
      refusal := None;
    }
  }

  lemma ActiveSeesChildren(s: Store, id: string, kind: IssueType)
    requires Valid(s) && NoSplit(s) && id in ActiveOf(s)
    ensures ChildrenAccept(ActiveOf(s), id, kind) <==> ChildrenAccept(s, id, kind)
  {
    forall c | c in s && s[c].issue.parent == Some(id) ensures c in ActiveOf(s) {
      assert s[s[c].issue.parent.value].place == s[c].place;
    }
  }

  lemma WalkAgreesWithTypes(s: Store, id: string, next: Issue)
    requires Valid(s) && id in s && next.parent.Some?
    ensures !HasCycle(ParentGraph(Parents(ActiveOf(s))))
    ensures TypesFit(s, id, next) ==> !Reaches(ParentGraph(Parents(ActiveOf(s))), next.parent.value, id)
  {
    var small, big := ParentGraph(Parents(ActiveOf(s))), ParentGraph(Parents(s));
    SubgraphAcyclic(small, big);
    if TypesFit(s, id, next) {
      forall x | x in s ensures ParentOk(s, s[x].issue) { assert EntityOk(s, x); }
      NoParentBelow(s, id, next);
      if Reaches(small, next.parent.value, id) {
        SubgraphReaches(small, big, next.parent.value, id);
      }
    }
  }

  lemma NothingToDo(s: Store, rel: Relationship, id: string, target: string, add: bool)
    requires var (owner, other) := Owner(rel, id, target);
      owner in s && (other in Targets(s[owner].issue, rel)) == add
    ensures Related(s, rel, id, target, add) == s
    ensures !AddsDependency(s, rel, id, target, add)
  {
    var (owner, other) := Owner(rel, id, target);
    var t := Targets(s[owner].issue, rel);
    assert add ==> t + {other} == t;
    assert !add ==> t - {other} == t;
    assert SetReference(s[owner].issue, rel, other, add) == s[owner].issue;
  }

  // ---- Runs of operations ----

  datatype Operation =
    | Create(id: string, kind: IssueType, parent: Option<string>, depends: set<string>, content: string)
    | Update(id: string, revision: Revision<Issue>, changes: Changes)
    | Edge(id: string, rel: Relationship, target: string, add: bool)
    | Archive(root: string)

  /** One accepted operation of the store. */
  ghost predicate Step(s: Store, op: Operation, after: Store) {
    match op
    case Create(id, kind, parent, depends, content) =>
      MayCreate(s, id, kind, parent, depends) && after == s[id := NewIssue(kind, parent, depends, content)]
    case Update(id, revision, changes) =>
      && MayTouch(s, id, revision, changes) && TypesFit(s, id, Updated(s[id].issue, changes))
      && after == UpdatedStore(s, id, changes)
    case Edge(id, rel, target, add) =>
      && MayRelate(s, id, target)
      && (rel == DependsOn && AddsDependency(s, rel, id, target, add) ==> SearchAllows(s, id, target))
      && after == Related(s, rel, id, target, add)
    case Archive(root) =>
      && Valid(s) && root in s
      && after == if s[root].place == Archived then s else ArchivedStore(s, Subtree(s, root))
  }

  /** The missing check: `id` blocks `target` although `id` already depends on it, directly or not. */
  ghost predicate ClosesCycle(s: Store, op: Operation) {
    && op.Edge? && op.rel == Blocks && AddsDependency(s, Blocks, op.id, op.target, op.add)
    && Reaches(Dependencies(s), op.id, op.target)
  }

  ghost predicate Sound(s: Store) { Valid(s) && NoSplit(s) }

  /** A sound graph stays unsplit, and it stays valid exactly unless a `blocks` closes a cycle. */
  lemma StepKeepsSplit(s: Store, op: Operation, after: Store)
    requires Step(s, op, after) && Sound(s)
    ensures NoSplit(after)
  {
    if op.Edge? {
      RelateKeepsGraph(s, op.rel, op.id, op.target, op.add);
    } else {
      StepKeepsSound(s, op, after);
    }
  }

  /** An accepted operation keeps the graph sound exactly unless it is a `blocks` that closes a cycle. */
  lemma StepKeepsSound(s: Store, op: Operation, after: Store)
    requires Step(s, op, after) && Sound(s)
    ensures Sound(after) <==> !ClosesCycle(s, op)
  {
    match op
    case Create(id, kind, parent, depends, content) =>
      CreateKeepsGraph(s, id, kind, parent, depends, content);
    case Update(id, revision, changes) =>
      UpdateAgreesWithTypes(s, id, changes);
      UpdateKeepsSplit(s, id, revision, changes);
    case Edge(id, rel, target, add) =>
      EdgeKeepsSound(s, id, rel, target, add);
    case Archive(root) =>
      if s[root].place == Active {
        ArchiveKeepsValid(s, Subtree(s, root));
        ArchiveKeepsSplit(s, root);
      }
  }

  lemma EdgeKeepsSound(s: Store, id: string, rel: Relationship, target: string, add: bool)
    requires MayRelate(s, id, target) && NoSplit(s)
    requires rel == DependsOn && AddsDependency(s, rel, id, target, add) ==> SearchAllows(s, id, target)
    ensures Sound(Related(s, rel, id, target, add)) <==> !ClosesCycle(s, Edge(id, rel, target, add))
  {
    RelateKeepsGraph(s, rel, id, target, add);
    if rel == DependsOn && AddsDependency(s, rel, id, target, add) {
      ActiveSearchIsGlobal(s, target, id);
    }
  }

  ghost predicate IsRun(states: seq<Store>, ops: seq<Operation>) {
    && |states| == |ops| + 1
    && forall i :: 0 <= i < |ops| ==> Step(states[i], ops[i], states[i + 1])
  }

  lemma EmptyIsSound()
    ensures Sound(map[])
  {
    assert ParentGraph(Parents(map[])) == map[];
  }

  /** From an empty store, every run without such a `blocks` keeps the graph valid and unsplit. */
  lemma {:induction false} RunsKeepGraph(states: seq<Store>, ops: seq<Operation>, n: nat)
    requires IsRun(states, ops) && states[0] == map[] && n < |states|
    requires forall i :: 0 <= i < |ops| ==> !ClosesCycle(states[i], ops[i])
    ensures Sound(states[n])
  {
    if n == 0 {
      EmptyIsSound();
    } else {
      RunsKeepGraph(states, ops, n - 1);
      StepKeepsSound(states[n - 1], ops[n - 1], states[n]);
    }
  }

  lemma ValidBeforeTheLast(states: seq<Store>, ops: seq<Operation>, n: nat)
    requires IsRun(states, ops) && n < |ops|
    ensures Valid(states[n])
  {
    assert Step(states[n], ops[n], states[n + 1]);
  }

  lemma SplitNext(states: seq<Store>, ops: seq<Operation>, n: nat)
    requires IsRun(states, ops) && n < |ops| && Sound(states[n])
    ensures NoSplit(states[n + 1])
  {
    StepKeepsSplit(states[n], ops[n], states[n + 1]);
  }

  lemma {:induction false} SoundBeforeTheLast(states: seq<Store>, ops: seq<Operation>, n: nat)
    requires IsRun(states, ops) && states[0] == map[] && n < |ops|
    ensures Sound(states[n])
  {
    if n == 0 {
      EmptyIsSound();
    } else {
      SoundBeforeTheLast(states, ops, n - 1);
      SplitNext(states, ops, n - 1);
      ValidBeforeTheLast(states, ops, n);
    }
  }

  /**
   Nothing repairs an invalid graph: every operation is refused on it. So in every run from
   the empty store only the last operation can have broken the graph, and it has exactly if
   it was such a `blocks`.
   */
  lemma OnlyTheLastBreaks(states: seq<Store>, ops: seq<Operation>)
    requires IsRun(states, ops) && states[0] == map[]
    ensures forall n :: 0 <= n < |ops| ==> Sound(states[n])
    ensures Sound(states[|ops|]) <==> (ops == [] || !ClosesCycle(states[|ops| - 1], ops[|ops| - 1]))
  {
    forall n | 0 <= n < |ops| ensures Sound(states[n]) {
      SoundBeforeTheLast(states, ops, n);
    }
    if ops == [] {
      EmptyIsSound();
    } else {
      var n := |ops| - 1;
      StepKeepsSound(states[n], ops[n], states[n + 1]);
    }
  }

  /** `x` blocks `y` while it depends on it: accepted, and nothing is accepted from then on. */
  lemma BlocksClosesCycle(s: Store, x: string, y: string, a: Issue, b: Issue)
    requires x != y && a == Issue(Task, None, {y}, {}, {}, {}, "") && b == Issue(Task, None, {}, {}, {}, {}, "")
    requires s == map[x := Entity(a, Active), y := Entity(b, Active)]
    ensures Valid(s) && Step(s, Edge(x, Blocks, y, true), Related(s, Blocks, x, y, true))
    ensures !Valid(Related(s, Blocks, x, y, true))
  {
    OneDependency(s, x, y, a, b);
    RelateKeepsGraph(s, Blocks, x, y, true);
  }

  lemma BlocksCanCloseCycle(s: Store, a: Issue, b: Issue)
    requires a == Issue(Task, None, {"ISSUE-2"}, {}, {}, {}, "") && b == Issue(Task, None, {}, {}, {}, {}, "")
    requires s == map["ISSUE-1" := Entity(a, Active), "ISSUE-2" := Entity(b, Active)]
    ensures Identities.IsPrefixedIdentity("ISSUE-1", "ISSUE-", 1) && Identities.IsPrefixedIdentity("ISSUE-2", "ISSUE-", 1)
    ensures Valid(s) && Step(s, Edge("ISSUE-1", Blocks, "ISSUE-2", true), Related(s, Blocks, "ISSUE-1", "ISSUE-2", true))
    ensures !Valid(Related(s, Blocks, "ISSUE-1", "ISSUE-2", true))
  {
    TwoIdentities();
    BlocksClosesCycle(s, "ISSUE-1", "ISSUE-2", a, b);
  }

  lemma TwoIdentities()
    ensures Identities.IsPrefixedIdentity("ISSUE-1", "ISSUE-", 1) && Identities.IsPrefixedIdentity("ISSUE-2", "ISSUE-", 1)
    ensures "ISSUE-1" != "ISSUE-2"
  {
    assert "ISSUE-1"[|"ISSUE-"|..] == "1" && "ISSUE-2"[|"ISSUE-"|..] == "2";
    assert "ISSUE-1"[6] != "ISSUE-2"[6];
  }

  lemma OneDependency(s: Store, x: string, y: string, a: Issue, b: Issue)
    requires x != y && a == Issue(Task, None, {y}, {}, {}, {}, "") && b == Issue(Task, None, {}, {}, {}, {}, "")
    requires s == map[x := Entity(a, Active), y := Entity(b, Active)]
    ensures Valid(s) && MayRelate(s, x, y) && AddsDependency(s, Blocks, x, y, true)
    ensures Reaches(Dependencies(s), x, y)
  {
    assert Dependencies(s) == map[x := {y}, y := {}];
    assert EntityOk(s, x) && EntityOk(s, y);
    TypesForbidHierarchyCycles(s);
    OneEdgeAcyclic(Dependencies(s), x, y);
  }

  lemma OneEdgeAcyclic(g: Graph<string>, x: string, y: string)
    requires x != y && g == map[x := {y}, y := {}]
    ensures !HasCycle(g) && Reaches(g, x, y)
  {
    FinishedIsAcyclic(g, map[x := 1, y := 0]);
    EdgeReaches(g, x, y);
  }
}
