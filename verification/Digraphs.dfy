/**
 Finite directed graphs, and the two depth-first searches the stores run over them:
 cycle detection with colours, and reachability with a shared set of seen nodes.
 */
module Digraphs {
  import opened Wrappers

  /** Successors of each node. A successor need not be a node itself. */
  type Graph<V> = map<V, set<V>>

  // ---- Paths ----

  /** Every node but the last has its successor in the path. */
  ghost predicate IsPath<V>(g: Graph<V>, p: seq<V>) {
    |p| > 0 && forall i :: 0 <= i < |p| - 1 ==> p[i] in g && p[i + 1] in g[p[i]]
  }

  ghost predicate IsPathFromTo<V>(g: Graph<V>, p: seq<V>, from: V, to: V) {
    IsPath(g, p) && p[0] == from && p[|p| - 1] == to
  }

  /** Also true of a node and itself. */
  ghost predicate Reaches<V(!new)>(g: Graph<V>, from: V, to: V) {
    exists p :: IsPathFromTo(g, p, from, to)
  }

  ghost predicate HasCycle<V(!new)>(g: Graph<V>) {
    exists p :: IsPath(g, p) && |p| > 1 && p[0] == p[|p| - 1]
  }

  ghost predicate HasEdge<V>(g: Graph<V>, u: V, v: V) {
    u in g && v in g[u]
  }

  lemma ReachesSelf<V(!new)>(g: Graph<V>, v: V)
    ensures Reaches(g, v, v)
  {
    assert IsPathFromTo(g, [v], v, v);
  }

  lemma ReachesTransitive<V(!new)>(g: Graph<V>, a: V, b: V, c: V)
    requires Reaches(g, a, b) && Reaches(g, b, c)
    ensures Reaches(g, a, c)
  {
    var p :| IsPathFromTo(g, p, a, b);
    var q :| IsPathFromTo(g, q, b, c);
    assert IsPathFromTo(g, p + q[1..], a, c);
  }

  lemma EdgeReaches<V(!new)>(g: Graph<V>, a: V, b: V)
    requires HasEdge(g, a, b)
    ensures Reaches(g, a, b)
  {
    assert IsPathFromTo(g, [a, b], a, b);
  }

  lemma CycleThroughEdge<V(!new)>(g: Graph<V>, a: V, b: V)
    requires HasEdge(g, a, b) && Reaches(g, b, a)
    ensures HasCycle(g)
  {
    var p :| IsPathFromTo(g, p, b, a);
    var c := [a] + p;
    assert IsPath(g, c) && |c| > 1 && c[0] == c[|c| - 1];
  }

  /** A cycle is an edge whose target reaches its source. */
  lemma CycleHasEdge<V(!new)>(g: Graph<V>) returns (a: V, b: V)
    requires HasCycle(g)
    ensures HasEdge(g, a, b) && Reaches(g, b, a)
  {
    var p :| IsPath(g, p) && |p| > 1 && p[0] == p[|p| - 1];
    a, b := p[0], p[1];
    assert IsPathFromTo(g, p[1..], b, a);
  }

  /** The first step of a path that has one. */
  lemma FirstStep<V(!new)>(g: Graph<V>, a: V, b: V) returns (x: V)
    requires Reaches(g, a, b) && a != b
    ensures HasEdge(g, a, x) && Reaches(g, x, b)
  {
    var p :| IsPathFromTo(g, p, a, b);
    x := p[1];
    assert IsPathFromTo(g, p[1..], x, b);
  }

  /** A set closed under successors holds everything its members reach. */
  lemma {:induction false} ClosedUnderPath<V(!new)>(g: Graph<V>, s: set<V>, p: seq<V>)
    requires IsPath(g, p) && p[0] in s
    requires forall v :: v in s && v in g ==> g[v] <= s
    ensures p[|p| - 1] in s
  {
    if |p| > 1 {
      ClosedUnderPath(g, s, p[1..]);
    }
  }

  // ---- Changing a graph ----

  ghost predicate Subgraph<V>(small: Graph<V>, big: Graph<V>) {
    forall v :: v in small ==> v in big && small[v] <= big[v]
  }

  lemma SubgraphReaches<V(!new)>(small: Graph<V>, big: Graph<V>, a: V, b: V)
    requires Subgraph(small, big) && Reaches(small, a, b)
    ensures Reaches(big, a, b)
  {
    var p :| IsPathFromTo(small, p, a, b);
    assert IsPathFromTo(big, p, a, b);
  }

  lemma SubgraphAcyclic<V(!new)>(small: Graph<V>, big: Graph<V>)
    requires Subgraph(small, big) && !HasCycle(big)
    ensures !HasCycle(small)
  {
    if HasCycle(small) {
      var a, b := CycleHasEdge(small);
      SubgraphReaches(small, big, b, a);
      CycleThroughEdge(big, a, b);
    }
  }

  /** `big` has the edge from u to v and otherwise only the edges of `small`. */
  ghost predicate AddsEdge<V(!new)>(small: Graph<V>, big: Graph<V>, u: V, v: V) {
    && Subgraph(small, big) && HasEdge(big, u, v)
    && forall a, b :: HasEdge(big, a, b) ==> HasEdge(small, a, b) || (a == u && b == v)
  }

  /** A path over the new edge splits into paths over the old ones around it. */
  lemma {:induction false} PathOverEdge<V(!new)>(small: Graph<V>, big: Graph<V>, u: V, v: V, p: seq<V>)
    requires AddsEdge(small, big, u, v) && IsPath(big, p)
    ensures Reaches(small, p[0], p[|p| - 1]) || (Reaches(small, p[0], u) && Reaches(small, v, p[|p| - 1]))
  {
    if |p| == 1 {
      ReachesSelf(small, p[0]);
    } else {
      PathOverEdge(small, big, u, v, p[1..]);
      assert HasEdge(big, p[0], p[1]);
      if HasEdge(small, p[0], p[1]) {
        EdgeReaches(small, p[0], p[1]);
        if Reaches(small, p[1], p[|p| - 1]) {
          ReachesTransitive(small, p[0], p[1], p[|p| - 1]);
        } else {
          ReachesTransitive(small, p[0], p[1], u);
        }
      } else {
        ReachesSelf(small, u);
      }
    }
  }

  /** Adding an edge to an acyclic graph closes a cycle exactly when its target reaches its source. */
  lemma AddEdgeAcyclic<V(!new)>(small: Graph<V>, big: Graph<V>, u: V, v: V)
    requires AddsEdge(small, big, u, v) && !HasCycle(small)
    ensures HasCycle(big) <==> Reaches(small, v, u)
  {
    if Reaches(small, v, u) {
      SubgraphReaches(small, big, v, u);
      CycleThroughEdge(big, u, v);
    }
    if HasCycle(big) {
      CycleUsesEdge(small, big, u, v);
    }
  }

  lemma CycleUsesEdge<V(!new)>(small: Graph<V>, big: Graph<V>, u: V, v: V)
    requires AddsEdge(small, big, u, v) && !HasCycle(small) && HasCycle(big)
    ensures Reaches(small, v, u)
  {
    var a, b := CycleHasEdge(big);
    var p :| IsPathFromTo(big, p, b, a);
    PathOverEdge(small, big, u, v, p);
    if HasEdge(small, a, b) {
      if Reaches(small, b, a) {
        CycleThroughEdge(small, a, b);
      } else {
        EdgeReaches(small, a, b);
        ReachesTransitive(small, v, a, b);
        ReachesTransitive(small, v, b, u);
      }
    }
  }

  /** A node nothing points at cannot be on a cycle. */
  lemma NewNodeAcyclic<V(!new)>(old_: Graph<V>, now: Graph<V>, n: V)
    requires !HasCycle(old_)
    requires forall v :: v in now && v != n ==> v in old_ && now[v] == old_[v]
    requires forall v :: v in now ==> n !in now[v]
    ensures !HasCycle(now)
  {
    if HasCycle(now) {
      var p :| IsPath(now, p) && |p| > 1 && p[0] == p[|p| - 1];
      forall i | 0 < i < |p| ensures p[i] != n {
        assert p[i - 1 + 1] in now[p[i - 1]];
      }
      assert IsPath(old_, p) by {
        forall i | 0 <= i < |p| - 1 ensures p[i] in old_ && p[i + 1] in old_[p[i]] {
          assert p[i] != n;
        }
      }
    }
  }

  // ---- Cycle detection ----

  datatype Colour = Visiting | Visited

  const MAX_FINDINGS := 100

  ghost function Coloured<V>(states: map<V, Colour>, c: Colour): set<V> {
    set v | v in states && states[v] == c
  }

  /** Finished nodes point only at nodes that finished before them, so there is no cycle among them. */
  ghost predicate Finished<V>(g: Graph<V>, times: map<V, nat>) {
    forall v, w :: v in times && v in g && w in g[v] && w in g ==> w in times && times[w] < times[v]
  }

  lemma {:induction false} TimeFalls<V(!new)>(g: Graph<V>, times: map<V, nat>, p: seq<V>)
    requires Finished(g, times) && g.Keys <= times.Keys
    requires IsPath(g, p) && |p| > 1 && p[|p| - 1] in g
    ensures times[p[|p| - 1]] < times[p[0]]
  {
    assert p[0] in g && p[1] in g[p[0]];
    if |p| > 2 {
      TimeFalls(g, times, p[1..]);
    }
  }

  lemma FinishedIsAcyclic<V(!new)>(g: Graph<V>, times: map<V, nat>)
    requires Finished(g, times) && g.Keys <= times.Keys
    ensures !HasCycle(g)
  {
    if p :| IsPath(g, p) && |p| > 1 && p[0] == p[|p| - 1] {
      TimeFalls(g, times, p);
    }
  }

  /** The nodes being visited, outermost first, form a path that ends in an edge to `id`. */
  ghost predicate OnTheWay<V>(g: Graph<V>, stack: seq<V>, states: map<V, Colour>, id: V) {
    && IsPath(g, stack + [id])
    && (set v | v in stack) == Coloured(states, Visiting)
    && states.Keys <= g.Keys
  }

  lemma BackEdge<V(!new)>(g: Graph<V>, stack: seq<V>, id: V)
    requires IsPath(g, stack + [id]) && id in stack
    ensures HasCycle(g)
  {
    var p := stack + [id];
    var i :| 0 <= i < |stack| && stack[i] == id;
    var c := p[i..];
    assert IsPath(g, c) && |c| > 1 && c[0] == c[|c| - 1];
  }

  /**
   The state of a search that began with `base` findings. As long as it has added none
   and the report has room, the visited nodes are free of cycles.
   */
  ghost predicate SearchOk<V(!new)>(g: Graph<V>, base: nat, states: map<V, Colour>, findings: nat, times: map<V, nat>, clock: nat) {
    && states.Keys <= g.Keys
    && times.Keys == Coloured(states, Visited)
    && (forall v :: v in times ==> times[v] < clock)
    && (findings == base <= MAX_FINDINGS ==> Finished(g, times))
    && (findings > base ==> HasCycle(g))
  }

  /** Nothing was forgotten and no other node is still being visited. */
  ghost predicate Grown<V>(states: map<V, Colour>, findings: nat, after: map<V, Colour>, found: nat) {
    && states.Keys <= after.Keys
    && Coloured(after, Visiting) == Coloured(states, Visiting)
    && Coloured(states, Visited) <= Coloured(after, Visited)
    && findings <= found
  }

  lemma EnterNode<V(!new)>(g: Graph<V>, stack: seq<V>, states: map<V, Colour>, id: V)
    requires OnTheWay(g, stack, states, id) && id in g && id !in states
    ensures Coloured(states[id := Visiting], Visiting) == Coloured(states, Visiting) + {id}
    ensures Coloured(states[id := Visiting], Visited) == Coloured(states, Visited)
    ensures (set v | v in stack + [id]) == Coloured(states[id := Visiting], Visiting)
  {
    assert (set v | v in stack + [id]) == (set v | v in stack) + {id};
  }

  lemma FinishNode<V(!new)>(g: Graph<V>, base: nat, states: map<V, Colour>, findings: nat, times: map<V, nat>, clock: nat, id: V)
    requires SearchOk(g, base, states, findings, times, clock)
    requires id in g && id in Coloured(states, Visiting)
    requires findings == base <= MAX_FINDINGS ==> forall w :: w in g[id] && w in g ==> w in times
    ensures SearchOk(g, base, states[id := Visited], findings, times[id := clock], clock + 1)
    ensures Coloured(states[id := Visited], Visiting) == Coloured(states, Visiting) - {id}
    ensures Coloured(states[id := Visited], Visited) == Coloured(states, Visited) + {id}
  {
  }

  lemma FewerLeft<V>(all: set<V>, before: set<V>, id: V, after: set<V>)
    requires id in all && id !in before && before + {id} <= after
    ensures |all - after| < |all - before|
  {
    assert all - after <= (all - before) - {id};
    SubsetSize(all - after, (all - before) - {id});
  }

  lemma {:induction false} SubsetSize<V>(a: set<V>, b: set<V>)
    requires a <= b
    ensures |a| <= |b|
  {
    if a != {} {
      var x :| x in a;
      SubsetSize(a - {x}, b - {x});
    }
  }

  /** Visit one node. A finding is dropped once the report is full, which leaves it non-empty. */
  method VisitForCycle<V(==,!new)>(g: Graph<V>, id: V, states: map<V, Colour>, findings: nat, ghost base: nat, ghost stack: seq<V>, ghost times: map<V, nat>, ghost clock: nat)
    returns (after: map<V, Colour>, found: nat, ghost times': map<V, nat>, ghost clock': nat)
    requires base <= findings
    requires id in g && OnTheWay(g, stack, states, id) && SearchOk(g, base, states, findings, times, clock)
    ensures SearchOk(g, base, after, found, times', clock') && Grown(states, findings, after, found)
    ensures found == base <= MAX_FINDINGS ==> id in times'
    decreases |g.Keys - states.Keys|, 1
  {
    after, found, times', clock' := states, findings, times, clock;
    if id in states && states[id] == Visited {
      return;
    }
    if id in states {
      assert id in Coloured(states, Visiting);
      BackEdge(g, stack, id);
      if findings <= MAX_FINDINGS {
        found := findings + 1;
      }
      return;
    }
    after := after[id := Visiting];
    EnterNode(g, stack, states, id);
    FewerLeft(g.Keys, states.Keys, id, after.Keys);
    after, found, times', clock' := VisitTargets(g, id, after, findings, base, stack, times, clock);
    FinishNode(g, base, after, found, times', clock', id);
    after, times', clock' := after[id := Visited], times'[id := clock'], clock' + 1;
  }

  method VisitTargets<V(==,!new)>(g: Graph<V>, id: V, states: map<V, Colour>, findings: nat, ghost base: nat, ghost stack: seq<V>, ghost times: map<V, nat>, ghost clock: nat)
    returns (after: map<V, Colour>, found: nat, ghost times': map<V, nat>, ghost clock': nat)
    requires base <= findings
    requires id in g && IsPath(g, stack + [id])
    requires (set v | v in stack + [id]) == Coloured(states, Visiting)
    requires SearchOk(g, base, states, findings, times, clock)
    ensures SearchOk(g, base, after, found, times', clock') && Grown(states, findings, after, found)
    ensures found == base <= MAX_FINDINGS ==> forall w :: w in g[id] && w in g ==> w in times'
    decreases |g.Keys - states.Keys|, 2
  {
    after, found, times', clock' := states, findings, times, clock;
    var pending := g[id];
    while pending != {}
      invariant pending <= g[id]
      invariant SearchOk(g, base, after, found, times', clock') && Grown(states, findings, after, found)
      invariant found == base <= MAX_FINDINGS ==> forall w :: w in g[id] - pending && w in g ==> w in times'
      decreases |pending|
    {
      var target :| target in pending;
      pending := pending - {target};
      if target in g {
        SubsetSize(g.Keys - after.Keys, g.Keys - states.Keys);
        after, found, times', clock' := VisitForCycle(g, target, after, found, base, stack + [id], times', clock');
      }
    }
  }

  /** The search over all nodes: it adds a finding to a report with room exactly when there is a cycle. */
  method AddCycleFindings<V(==,!new)>(g: Graph<V>, findings: nat) returns (found: nat)
    ensures found >= findings
    ensures found > findings ==> HasCycle(g)
    ensures findings <= MAX_FINDINGS && found == findings ==> !HasCycle(g)
  {
    found := findings;
    var states: map<V, Colour> := map[];
    ghost var times: map<V, nat> := map[];
    ghost var clock := 0;
    var pending := g.Keys;
    while pending != {}
      invariant pending <= g.Keys && found >= findings
      invariant SearchOk(g, findings, states, found, times, clock)
      invariant Coloured(states, Visiting) == {}
      invariant found == findings <= MAX_FINDINGS ==> g.Keys - pending <= times.Keys
      decreases |pending|
    {
      var id :| id in pending;
      pending := pending - {id};
      states, found, times, clock := VisitForCycle(g, id, states, found, findings, [], times, clock);
    }
    if found == findings <= MAX_FINDINGS {
      FinishedIsAcyclic(g, times);
    }
  }

  // ---- Reachability with a shared set of seen nodes ----

  /** All seen nodes but the open ones have only seen successors, and the target is not among them. */
  ghost predicate Explored<V>(g: Graph<V>, target: V, seen: set<V>, open: set<V>) {
    && seen <= g.Keys && target !in seen
    && forall v :: v in seen && v !in open ==> g[v] <= seen
  }

  ghost predicate ReachesUnknown<V(!new)>(g: Graph<V>, from: V) {
    exists v :: v !in g && Reaches(g, from, v)
  }

  lemma UnknownThroughEdge<V(!new)>(g: Graph<V>, from: V, next: V)
    requires HasEdge(g, from, next) && ReachesUnknown(g, next)
    ensures ReachesUnknown(g, from)
  {
    var v :| v !in g && Reaches(g, next, v);
    EdgeReaches(g, from, next);
    ReachesTransitive(g, from, next, v);
  }

  /** One level of the search. A node that is not in the graph is an error, like a missing active issue. */
  method SearchPath<V(==,!new)>(g: Graph<V>, from: V, target: V, seen: set<V>, ghost open: set<V>) returns (r: Result<bool>, after: set<V>)
    requires Explored(g, target, seen, open)
    ensures r == Ok(true) ==> Reaches(g, from, target)
    ensures r == Ok(false) ==> seen + {from} <= after && Explored(g, target, after, open)
    ensures r.Err? ==> r == Err(Schema) && ReachesUnknown(g, from)
    decreases |g.Keys - seen|
  {
    after := seen;
    if from == target {
      ReachesSelf(g, from);
      return Ok(true), after;
    }
    if from in seen {
      return Ok(false), after;
    }
    if from !in g {
      ReachesSelf(g, from);
      return Err(Schema), after + {from};
    }
    after := after + {from};
    FewerLeft(g.Keys, seen, from, after);
    var pending := g[from];
    while pending != {}
      invariant pending <= g[from]
      invariant seen + {from} <= after
      invariant Explored(g, target, after, open + {from})
      invariant g[from] - pending <= after
      decreases |pending|
    {
      var dependency :| dependency in pending;
      pending := pending - {dependency};
      SubsetSize(g.Keys - after, g.Keys - (seen + {from}));
      r, after := SearchPath(g, dependency, target, after, open + {from});
      if r != Ok(false) {
        SearchedThrough(g, from, dependency, target, r);
        return;
      }
    }
    r := Ok(false);
  }

  lemma SearchedThrough<V(!new)>(g: Graph<V>, from: V, dependency: V, target: V, r: Result<bool>)
    requires HasEdge(g, from, dependency)
    requires r == Ok(true) ==> Reaches(g, dependency, target)
    requires r.Err? ==> ReachesUnknown(g, dependency)
    ensures r == Ok(true) ==> Reaches(g, from, target)
    ensures r.Err? ==> ReachesUnknown(g, from)
  {
    if r == Ok(true) {
      EdgeReaches(g, from, dependency);
      ReachesTransitive(g, from, dependency, target);
    } else if r.Err? {
      UnknownThroughEdge(g, from, dependency);
    }
  }

  /**
   The whole search is exact: true means the target is reachable, false that it is not
   and that everything reachable is in the graph; it fails only on reaching a node outside.
   */
  method HasDependencyPath<V(==,!new)>(g: Graph<V>, from: V, target: V) returns (r: Result<bool>)
    ensures r == Ok(true) ==> Reaches(g, from, target)
    ensures r == Ok(false) ==> !Reaches(g, from, target) && !ReachesUnknown(g, from)
    ensures r.Err? ==> r == Err(Schema) && ReachesUnknown(g, from)
  {
    var seen;
    r, seen := SearchPath(g, from, target, {}, {});
    if r == Ok(false) {
      forall v | Reaches(g, from, v) ensures v in seen {
        var p :| IsPathFromTo(g, p, from, v);
        ClosedUnderPath(g, seen, p);
      }
    }
  }

  // ---- Following single links ----

  /** The graph of a link that each node may have. */
  function ParentGraph<V>(parents: map<V, Option<V>>): Graph<V> {
    map v | v in parents :: match parents[v] case None => {} case Some(p) => {p}
  }

  /**
   Walk up from `parent`. In a forest the walk is stopped early exactly when it meets
   `child`, so the answer is whether `parent` lies in the subtree of `child`.
   */
  method HasHierarchyCycle<V(==,!new)>(parents: map<V, Option<V>>, child: V, parent: V) returns (cyclic: bool)
    ensures !HasCycle(ParentGraph(parents)) ==> (cyclic <==> Reaches(ParentGraph(parents), parent, child))
  {
    ghost var g := ParentGraph(parents);
    var current := Some(parent);
    var seen := {};
    ReachesSelf(g, parent);
    while current.Some?
      invariant seen <= parents.Keys
      invariant child !in seen
      invariant current.Some? ==> Reaches(g, parent, current.value)
      invariant current.Some? ==> forall v :: v in seen ==> Reaches(g, v, current.value) && (v != current.value || HasCycle(g))
      invariant parent in seen || current == Some(parent)
      invariant forall v :: v in seen ==> g[v] <= seen + (if current.Some? then {current.value} else {})
      decreases |parents.Keys - seen|, if current.Some? then 1 else 0
    {
      if current.value == child {
        return true;
      }
      if current.value in seen {
        return true;
      }
      if current.value !in parents {
        StoppedWalk(g, seen + {current.value}, parent, child);
        return false;
      }
      ghost var before := seen;
      seen := seen + {current.value};
      FewerLeft(parents.Keys, before, current.value, seen);
      WalkStep(parents, before, parent, current.value);
      current := parents[current.value];
    }
    StoppedWalk(g, seen, parent, child);
    cyclic := false;
  }

  lemma StoppedWalk<V(!new)>(g: Graph<V>, seen: set<V>, parent: V, child: V)
    requires parent in seen && child !in seen
    requires forall v :: v in seen && v in g ==> g[v] <= seen
    ensures !Reaches(g, parent, child)
  {
    if Reaches(g, parent, child) {
      var p :| IsPathFromTo(g, p, parent, child);
      ClosedUnderPath(g, seen, p);
    }
  }

  lemma WalkStep<V(!new)>(parents: map<V, Option<V>>, seen: set<V>, parent: V, here: V)
    requires here in parents && Reaches(ParentGraph(parents), parent, here)
    requires forall v :: v in seen ==> Reaches(ParentGraph(parents), v, here)
    ensures parents[here].Some? ==>
      && Reaches(ParentGraph(parents), parent, parents[here].value)
      && forall v :: v in seen + {here} ==>
           Reaches(ParentGraph(parents), v, parents[here].value) && (v != parents[here].value || HasCycle(ParentGraph(parents)))
  {
    var g := ParentGraph(parents);
    if parents[here].Some? {
      var next := parents[here].value;
      EdgeReaches(g, here, next);
      ReachesSelf(g, here);
      ReachesTransitive(g, parent, here, next);
      forall v | v in seen + {here} ensures Reaches(g, v, next) && (v != next || HasCycle(g)) {
        ReachesTransitive(g, v, here, next);
        if v == next {
          CycleThroughEdge(g, here, v);
        }
      }
    }
  }
}
