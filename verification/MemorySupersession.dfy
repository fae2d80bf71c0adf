/**
 Repository memory: records, what they supersede, tombstones, and which records are
 active. Loading checks the whole set; store, supersede and delete add one file each.
 */
module MemorySupersession {
  import opened Wrappers
  import opened Digraphs

  datatype MemoryRecord = MemoryRecord(id: string, folder: string, recordType: string, supersedes: seq<string>, content: string)

  datatype Tombstone = Tombstone(id: string, target: string, reason: string)

  /** The targets of all records, in order and with repetition. */
  function Superseded(records: seq<MemoryRecord>): seq<string> {
    if records == [] then [] else Superseded(records[..|records| - 1]) + records[|records| - 1].supersedes
  }

  function Buried(tombstones: seq<Tombstone>): (s: seq<string>)
    ensures |s| == |tombstones| && forall i :: 0 <= i < |s| ==> s[i] == tombstones[i].target
  {
    seq(|tombstones|, i requires 0 <= i < |tombstones| => tombstones[i].target)
  }

  function RecordIds(records: seq<MemoryRecord>): set<string> {
    set r | r in records :: r.id
  }

  function TombstoneIds(tombstones: seq<Tombstone>): set<string> {
    set t | t in tombstones :: t.id
  }

  function ToSet(s: seq<string>): set<string> {
    set x | x in s
  }

  /** Whatever is superseded or deleted is inactive; every other record is active. */
  function Inactive(records: seq<MemoryRecord>, tombstones: seq<Tombstone>): set<string> {
    ToSet(Superseded(records)) + ToSet(Buried(tombstones))
  }

  function ActiveIds(records: seq<MemoryRecord>, tombstones: seq<Tombstone>): set<string> {
    RecordIds(records) - Inactive(records, tombstones)
  }

  // ---- Valid sets of files ----

  predicate DistinctIds(records: seq<MemoryRecord>, tombstones: seq<Tombstone>) {
    && (forall i, j :: 0 <= i < j < |records| ==> records[i].id != records[j].id)
    && (forall i, j :: 0 <= i < j < |tombstones| ==> tombstones[i].id != tombstones[j].id)
    && RecordIds(records) !! TombstoneIds(tombstones)
  }

  predicate Filed(records: seq<MemoryRecord>) {
    forall i :: 0 <= i < |records| ==> records[i].folder == records[i].recordType
  }

  /** What each record supersedes; the last of two records with one identity counts. */
  function Edges(records: seq<MemoryRecord>): (g: Graph<string>)
    ensures g.Keys == RecordIds(records)
  {
    if records == [] then map[]
    else
      var last := records[|records| - 1];
      assert RecordIds(records) == RecordIds(records[..|records| - 1]) + {last.id} by {
        assert records == records[..|records| - 1] + [last];
      }
      Edges(records[..|records| - 1])[last.id := ToSet(last.supersedes)]
  }

  ghost predicate StateValid(records: seq<MemoryRecord>, tombstones: seq<Tombstone>) {
    && Filed(records) && DistinctIds(records, tombstones)
    && Inactive(records, tombstones) <= RecordIds(records)
    && !HasCycle(Edges(records))
  }

  // ---- The check for cycles ----

  /** What has been visited points only at what was visited before it. */
  ghost predicate Settled<V>(g: Graph<V>, visiting: set<V>, visited: set<V>, times: map<V, nat>, clock: nat) {
    && visiting !! visited && times.Keys == visited
    && Finished(g, times) && forall v :: v in times ==> times[v] < clock
  }

  /** Visit one node; stop at the first node met again on the way. */
  method VisitOnce<V(==,!new)>(g: Graph<V>, id: V, visiting: set<V>, visited: set<V>, ghost stack: seq<V>, ghost times: map<V, nat>, ghost clock: nat)
    returns (ok: bool, after: set<V>, ghost times': map<V, nat>, ghost clock': nat)
    requires IsPath(g, stack + [id]) && (set v | v in stack) == visiting
    requires Settled(g, visiting, visited, times, clock)
    ensures !ok ==> HasCycle(g)
    ensures ok ==> visited + {id} <= after && Settled(g, visiting, after, times', clock')
    decreases |g.Keys - visiting|, 1
  {
    ok, after, times', clock' := true, visited, times, clock;
    if id in visiting {
      BackEdge(g, stack, id);
      return false, after, times', clock';
    }
    if id in visited {
      return;
    }
    if id in g {
      Enter(g, stack, visiting, visited, id, times, clock);
      ok, after, times', clock' := VisitAll(g, id, visiting + {id}, visited, stack, times, clock);
      if !ok {
        return;
      }
    }
    Leave(g, visiting, after, times', clock', id);
    after, times', clock' := after + {id}, times'[id := clock'], clock' + 1;
  }

  lemma Enter<V(!new)>(g: Graph<V>, stack: seq<V>, visiting: set<V>, visited: set<V>, id: V, times: map<V, nat>, clock: nat)
    requires id in g && id !in visiting && id !in visited && (set v | v in stack) == visiting
    requires Settled(g, visiting, visited, times, clock)
    ensures (set v | v in stack + [id]) == visiting + {id}
    ensures |g.Keys - (visiting + {id})| < |g.Keys - visiting|
    ensures Settled(g, visiting + {id}, visited, times, clock)
  {
    FewerLeft(g.Keys, visiting, id, visiting + {id});
  }

  lemma Leave<V>(g: Graph<V>, visiting: set<V>, visited: set<V>, times: map<V, nat>, clock: nat, id: V)
    requires Settled(g, visiting, visited, times, clock) || Settled(g, visiting + {id}, visited, times, clock)
    requires id !in visiting && id !in visited
    requires id in g ==> g[id] <= visited
    ensures Settled(g, visiting, visited + {id}, times[id := clock], clock + 1)
  {
  }

  method VisitAll<V(==,!new)>(g: Graph<V>, id: V, visiting: set<V>, visited: set<V>, ghost stack: seq<V>, ghost times: map<V, nat>, ghost clock: nat)
    returns (ok: bool, after: set<V>, ghost times': map<V, nat>, ghost clock': nat)
    requires id in g && IsPath(g, stack + [id]) && (set v | v in stack + [id]) == visiting
    requires Settled(g, visiting, visited, times, clock)
    ensures !ok ==> HasCycle(g)
    ensures ok ==> visited <= after && Settled(g, visiting, after, times', clock') && g[id] <= after
    decreases |g.Keys - visiting|, 2
  {
    ok, after, times', clock' := true, visited, times, clock;
    var pending := g[id];
    while pending != {}
      invariant pending <= g[id] && visited <= after && g[id] - pending <= after
      invariant Settled(g, visiting, after, times', clock')
      decreases |pending|
    {
      var target :| target in pending;
      pending := pending - {target};
      ok, after, times', clock' := VisitOnce(g, target, visiting, after, stack + [id], times', clock');
      if !ok {
        return;
      }
    }
  }

  /** The check passes exactly when nothing supersedes itself, directly or not. */
  method AssertAcyclic<V(==,!new)>(g: Graph<V>) returns (ok: bool)
    ensures ok <==> !HasCycle(g)
  {
    ok := true;
    var visited: set<V> := {};
    ghost var times: map<V, nat> := map[];
    ghost var clock := 0;
    var pending := g.Keys;
    while pending != {}
      invariant pending <= g.Keys && g.Keys - pending <= visited
      invariant ok && Settled(g, {}, visited, times, clock)
      decreases |pending|
    {
      var id :| id in pending;
      pending := pending - {id};
      ok, visited, times, clock := VisitOnce(g, id, {}, visited, [], times, clock);
      if !ok {
        return;
      }
    }
    FinishedIsAcyclic(g, times);
  }

  // ---- Loading ----

  /** Every identity once, every record in the folder of its type. */
  method CheckIds(records: seq<MemoryRecord>, tombstones: seq<Tombstone>) returns (ok: bool)
    ensures ok <==> Filed(records) && DistinctIds(records, tombstones)
  {
    var ids := {};
    for i := 0 to |records|
      invariant ids == set k | 0 <= k < i :: records[k].id
      invariant forall k :: 0 <= k < i ==> records[k].folder == records[k].recordType
      invariant forall j, k :: 0 <= j < k < i ==> records[j].id != records[k].id
    {
      if records[i].folder != records[i].recordType || records[i].id in ids {
        return false;
      }
      ids := ids + {records[i].id};
    }
    assert ids == RecordIds(records);
    for i := 0 to |tombstones|
      invariant ids == RecordIds(records) + set k | 0 <= k < i :: tombstones[k].id
      invariant forall k :: 0 <= k < i ==> tombstones[k].id !in RecordIds(records)
      invariant forall j, k :: 0 <= j < k < i ==> tombstones[j].id != tombstones[k].id
    {
      if tombstones[i].id in ids {
        assert tombstones[i] in tombstones;
        return false;
      }
      ids := ids + {tombstones[i].id};
    }
    ok := true;
  }

  /** What an operation works on: the set is checked, and the active identities are collected. */
  method LoadState(records: seq<MemoryRecord>, tombstones: seq<Tombstone>) returns (active: Option<set<string>>)
    ensures active.Some? <==> StateValid(records, tombstones)
    ensures active.Some? ==> active.value == ActiveIds(records, tombstones)
  {
    var ok := CheckIds(records, tombstones);
    if !ok || !(Inactive(records, tombstones) <= RecordIds(records)) {
      return None;
    }
    ok := AssertAcyclic(Edges(records));
    if !ok {
      return None;
    }
    active := Some(ActiveIds(records, tombstones));
  }

  /** The loader of the cache: it flags each record while it walks the references. */
  method LoadMemories(records: seq<MemoryRecord>, tombstones: seq<Tombstone>) returns (flags: Option<seq<bool>>)
    ensures flags.Some? <==> StateValid(records, tombstones)
    ensures flags.Some? ==>
      && |flags.value| == |records|
      && forall i :: 0 <= i < |records| ==> (flags.value[i] <==> records[i].id in ActiveIds(records, tombstones))
  {
    var ok := CheckIds(records, tombstones);
    if !ok {
      return None;
    }
    var inactive := {};
    for i := 0 to |records|
      invariant inactive == ToSet(Superseded(records[..i]))
      invariant inactive <= RecordIds(records)
    {
      assert records[..i + 1][..i] == records[..i];
      SupersededPrefix(records, i + 1);
      if !(ToSet(records[i].supersedes) <= RecordIds(records)) {
        return None;
      }
      inactive := inactive + ToSet(records[i].supersedes);
    }
    assert records[..|records|] == records;
    for i := 0 to |tombstones|
      invariant inactive == ToSet(Superseded(records)) + ToSet(Buried(tombstones[..i]))
      invariant inactive <= RecordIds(records)
    {
      BuriedPrefix(tombstones, i + 1);
      assert Buried(tombstones[..i + 1]) == Buried(tombstones[..i]) + [tombstones[i].target];
      if tombstones[i].target !in RecordIds(records) {
        return None;
      }
      inactive := inactive + {tombstones[i].target};
    }
    assert tombstones[..|tombstones|] == tombstones;
    ok := AssertAcyclic(Edges(records));
    if !ok {
      return None;
    }
    flags := Some(seq(|records|, i requires 0 <= i < |records| => records[i].id !in inactive));
  }

  lemma {:induction false} SupersededPrefix(records: seq<MemoryRecord>, n: nat)
    requires n <= |records|
    ensures ToSet(Superseded(records[..n])) <= ToSet(Superseded(records))
    decreases |records| - n
  {
    if n < |records| {
      SupersededPrefix(records, n + 1);
      assert records[..n + 1][..n] == records[..n];
    } else {
      assert records[..n] == records;
    }
  }

  lemma BuriedPrefix(tombstones: seq<Tombstone>, n: nat)
    requires n <= |tombstones|
    ensures ToSet(Buried(tombstones[..n])) <= ToSet(Buried(tombstones))
  {
    forall x | x in ToSet(Buried(tombstones[..n])) ensures x in Buried(tombstones) {
      var i :| 0 <= i < n && Buried(tombstones[..n])[i] == x;
      assert Buried(tombstones)[i] == x;
    }
  }

  // ---- The operations ----

  /** Every record has at most one deactivator and supersedes at most one record. */
  ghost predicate Chained(records: seq<MemoryRecord>, tombstones: seq<Tombstone>) {
    && StateValid(records, tombstones)
    && (forall r :: r in records ==> |r.supersedes| <= 1)
    && NoRepeats(Superseded(records) + Buried(tombstones))
  }

  ghost predicate NoRepeats(s: seq<string>) {
    forall i, j :: 0 <= i < j < |s| ==> s[i] != s[j]
  }

  predicate Taken(records: seq<MemoryRecord>, tombstones: seq<Tombstone>, id: string) {
    id in RecordIds(records) || id in TombstoneIds(tombstones)
  }

  class MemoryStore {
    var records: seq<MemoryRecord>
    var tombstones: seq<Tombstone>

    constructor ()
      ensures records == [] && tombstones == []
    {
      records, tombstones := [], [];
    }

    method Store(r: MemoryRecord) returns (refusal: Option<Category>)
      requires r.folder == r.recordType && r.supersedes == []
      modifies this`records
      ensures refusal == None <==> StateValid(old(records), tombstones) && !Taken(old(records), tombstones, r.id)
      ensures records == if refusal == None then old(records) + [r] else old(records)
      ensures refusal == None ==> Step(State(old(records), tombstones), Stores(r), State(records, tombstones))
    {
      var active := LoadState(records, tombstones);
      if active == None {
        return Some(UnsafeState);
      }
      if Taken(records, tombstones, r.id) {
        return Some(Conflict);
      }
      records := records + [r];
      refusal := None;
    }

    /** The new record takes the place of an active one. */
    method Supersede(target: string, r: MemoryRecord) returns (refusal: Option<Category>)
      requires r.folder == r.recordType && r.supersedes == [target]
      modifies this`records
      ensures refusal == None <==>
        && StateValid(old(records), tombstones)
        && target in ActiveIds(old(records), tombstones) && !Taken(old(records), tombstones, r.id)
      ensures records == if refusal == None then old(records) + [r] else old(records)
      ensures refusal == None ==> Step(State(old(records), tombstones), Supersedes(target, r), State(records, tombstones))
    {
      var active := LoadState(records, tombstones);
      if active == None {
        return Some(UnsafeState);
      }
      if target !in active.value || Taken(records, tombstones, r.id) {
        return Some(Conflict);
      }
      records := records + [r];
      refusal := None;
    }

    /** The record stays; a tombstone makes it inactive. */
    method Delete(t: Tombstone) returns (refusal: Option<Category>)
      modifies this`tombstones
      ensures refusal == None <==>
        && StateValid(records, old(tombstones))
        && t.target in ActiveIds(records, old(tombstones)) && !Taken(records, old(tombstones), t.id)
      ensures tombstones == if refusal == None then old(tombstones) + [t] else old(tombstones)
      ensures refusal == None ==> Step(State(records, old(tombstones)), Deletes(t), State(records, tombstones))
    {
      var active := LoadState(records, tombstones);
      if active == None {
        return Some(UnsafeState);
      }
      if t.target !in active.value || Taken(records, tombstones, t.id) {
        return Some(Conflict);
      }
      tombstones := tombstones + [t];
      refusal := None;
    }
  }

  // ---- Runs of the three operations ----

  datatype State = State(records: seq<MemoryRecord>, tombstones: seq<Tombstone>)

  datatype Operation = Stores(record: MemoryRecord) | Supersedes(target: string, record: MemoryRecord) | Deletes(tombstone: Tombstone)

  /** One accepted operation. */
  ghost predicate Step(s: State, op: Operation, after: State) {
    && StateValid(s.records, s.tombstones)
    && match op
       case Stores(r) =>
         r.folder == r.recordType && r.supersedes == [] && !Taken(s.records, s.tombstones, r.id)
         && after == State(s.records + [r], s.tombstones)
       case Supersedes(target, r) =>
         r.folder == r.recordType && r.supersedes == [target] && target in ActiveIds(s.records, s.tombstones)
         && !Taken(s.records, s.tombstones, r.id) && after == State(s.records + [r], s.tombstones)
       case Deletes(t) =>
         t.target in ActiveIds(s.records, s.tombstones) && !Taken(s.records, s.tombstones, t.id)
         && after == State(s.records, s.tombstones + [t])
  }

  function Change(op: Operation): int {
    match op case Stores(_) => 1 case Supersedes(_, _) => 0 case Deletes(_) => -1
  }

  /** Each operation keeps the chains, and changes the number of active records by 1, 0 or -1. */
  lemma StepKeepsChains(s: State, op: Operation, after: State)
    requires Chained(s.records, s.tombstones) && Step(s, op, after)
    ensures Chained(after.records, after.tombstones)
    ensures |ActiveIds(after.records, after.tombstones)| == |ActiveIds(s.records, s.tombstones)| + Change(op)
  {
    match op
    case Stores(r) => StoredRecord(s.records, s.tombstones, r);
    case Supersedes(target, r) => SupersedingRecord(s.records, s.tombstones, target, r);
    case Deletes(t) => BuryKeepsChains(s.records, s.tombstones, t);
  }

  function Total(ops: seq<Operation>): int {
    if ops == [] then 0 else Total(ops[..|ops| - 1]) + Change(ops[|ops| - 1])
  }

  /** From an empty memory every run keeps the chains, and the active records are those stored minus those deleted. */
  lemma {:induction false} RunsKeepChains(states: seq<State>, ops: seq<Operation>)
    requires |states| == |ops| + 1 && states[0] == State([], [])
    requires forall i :: 0 <= i < |ops| ==> Step(states[i], ops[i], states[i + 1])
    ensures var last := states[|ops|];
      Chained(last.records, last.tombstones) && |ActiveIds(last.records, last.tombstones)| == Total(ops)
  {
    var n := |ops|;
    if n == 0 {
      EmptyIsChained();
    } else {
      RunsKeepChains(states[..n], ops[..n - 1]);
      assert states[..n][n - 1] == states[n - 1];
      StepKeepsChains(states[n - 1], ops[n - 1], states[n - 1 + 1]);
    }
  }

  lemma EmptyIsChained()
    ensures Chained([], []) && ActiveIds([], []) == {}
  {
    assert Edges([]) == map[];
  }

  lemma SwapSize(s: set<string>, x: string, y: string)
    requires x in s && y !in s
    ensures |s - {x} + {y}| == |s|
  {
    assert |s - {x}| == |s| - 1;
    assert y !in s - {x};
  }

  lemma TargetIsActive(records: seq<MemoryRecord>, tombstones: seq<Tombstone>, r: MemoryRecord)
    requires r.supersedes == [] || (|r.supersedes| == 1 && r.supersedes[0] in ActiveIds(records, tombstones))
    ensures ToSet(r.supersedes) <= RecordIds(records)
    ensures r.supersedes == [] || (|r.supersedes| == 1 && r.supersedes[0] !in Inactive(records, tombstones))
  {
  }

  lemma AddKeepsChains(records: seq<MemoryRecord>, tombstones: seq<Tombstone>, r: MemoryRecord)
    requires Chained(records, tombstones) && r.folder == r.recordType
    requires r.supersedes == [] || (|r.supersedes| == 1 && r.supersedes[0] in ActiveIds(records, tombstones))
    requires r.id !in RecordIds(records) && r.id !in TombstoneIds(tombstones)
    ensures Chained(records + [r], tombstones)
  {
    TargetIsActive(records, tombstones, r);
    AddedTargets(records, tombstones, r);
    AddKeepsValid(records, tombstones, r);
    SingleTargets(records, r);
  }

  lemma AddedRecord(records: seq<MemoryRecord>, tombstones: seq<Tombstone>, r: MemoryRecord)
    requires Chained(records, tombstones) && r.folder == r.recordType
    requires r.supersedes == [] || (|r.supersedes| == 1 && r.supersedes[0] in ActiveIds(records, tombstones))
    requires r.id !in RecordIds(records) && r.id !in TombstoneIds(tombstones)
    ensures Chained(records + [r], tombstones)
    ensures r.id !in ActiveIds(records, tombstones)
    ensures ActiveIds(records + [r], tombstones) == ActiveIds(records, tombstones) - ToSet(r.supersedes) + {r.id}
  {
    AddKeepsChains(records, tombstones, r);
    ActiveAfterAdd(records, tombstones, r);
  }

  lemma StoredRecord(records: seq<MemoryRecord>, tombstones: seq<Tombstone>, r: MemoryRecord)
    requires Chained(records, tombstones) && r.folder == r.recordType && r.supersedes == []
    requires r.id !in RecordIds(records) && r.id !in TombstoneIds(tombstones)
    ensures Chained(records + [r], tombstones)
    ensures ActiveIds(records + [r], tombstones) == ActiveIds(records, tombstones) + {r.id}
    ensures |ActiveIds(records + [r], tombstones)| == |ActiveIds(records, tombstones)| + 1
  {
    AddedRecord(records, tombstones, r);
    assert ToSet([]) == {};
  }

  lemma SupersedingRecord(records: seq<MemoryRecord>, tombstones: seq<Tombstone>, target: string, r: MemoryRecord)
    requires Chained(records, tombstones) && r.folder == r.recordType && r.supersedes == [target]
    requires target in ActiveIds(records, tombstones)
    requires r.id !in RecordIds(records) && r.id !in TombstoneIds(tombstones)
    ensures Chained(records + [r], tombstones)
    ensures ActiveIds(records + [r], tombstones) == ActiveIds(records, tombstones) - {target} + {r.id}
    ensures |ActiveIds(records + [r], tombstones)| == |ActiveIds(records, tombstones)|
  {
    AddedRecord(records, tombstones, r);
    assert ToSet([target]) == {target};
    SwapSize(ActiveIds(records, tombstones), target, r.id);
  }

  lemma SingleTargets(records: seq<MemoryRecord>, r: MemoryRecord)
    requires (forall x :: x in records ==> |x.supersedes| <= 1) && |r.supersedes| <= 1
    ensures forall x :: x in records + [r] ==> |x.supersedes| <= 1
  {
  }

  lemma AddKeepsValid(records: seq<MemoryRecord>, tombstones: seq<Tombstone>, r: MemoryRecord)
    requires StateValid(records, tombstones) && r.folder == r.recordType
    requires ToSet(r.supersedes) <= RecordIds(records)
    requires Inactive(records + [r], tombstones) == Inactive(records, tombstones) + ToSet(r.supersedes)
    requires r.id !in RecordIds(records) && r.id !in TombstoneIds(tombstones)
    ensures StateValid(records + [r], tombstones)
  {
    AddedAcyclic(records, tombstones, r);
    IdsAfterAdd(records, r);
    AddedIdsDistinct(records, r);
  }

  lemma AddedIdsDistinct(records: seq<MemoryRecord>, r: MemoryRecord)
    requires r.id !in RecordIds(records) && Filed(records) && r.folder == r.recordType
    requires forall i, j :: 0 <= i < j < |records| ==> records[i].id != records[j].id
    ensures var after := records + [r]; Filed(after) && forall i, j :: 0 <= i < j < |after| ==> after[i].id != after[j].id
  {
    forall i | 0 <= i < |records| ensures records[i].id != r.id {
      assert records[i] in records;
    }
  }

  lemma AddedEdges(records: seq<MemoryRecord>, r: MemoryRecord)
    ensures Edges(records + [r]) == Edges(records)[r.id := ToSet(r.supersedes)]
    ensures Superseded(records + [r]) == Superseded(records) + r.supersedes
  {
    assert (records + [r])[..|records|] == records;
  }

  lemma {:induction false} EdgesAreSuperseded(records: seq<MemoryRecord>, v: string)
    requires v in Edges(records)
    ensures Edges(records)[v] <= ToSet(Superseded(records))
  {
    if records != [] && v != records[|records| - 1].id {
      EdgesAreSuperseded(records[..|records| - 1], v);
    }
  }

  lemma AddedAcyclic(records: seq<MemoryRecord>, tombstones: seq<Tombstone>, r: MemoryRecord)
    requires StateValid(records, tombstones) && r.id !in RecordIds(records) && ToSet(r.supersedes) <= RecordIds(records)
    ensures !HasCycle(Edges(records + [r]))
  {
    var before, now := Edges(records), Edges(records + [r]);
    AddedEdges(records, r);
    forall v | v in now ensures r.id !in now[v] {
      if v != r.id { EdgesAreSuperseded(records, v); }
    }
    NewNodeAcyclic(before, now, r.id);
  }

  lemma AddedTargets(records: seq<MemoryRecord>, tombstones: seq<Tombstone>, r: MemoryRecord)
    requires NoRepeats(Superseded(records) + Buried(tombstones))
    requires r.supersedes == [] || (|r.supersedes| == 1 && r.supersedes[0] !in Inactive(records, tombstones))
    ensures NoRepeats(Superseded(records + [r]) + Buried(tombstones))
    ensures Inactive(records + [r], tombstones) == Inactive(records, tombstones) + ToSet(r.supersedes)
  {
    var a, b := Superseded(records), Buried(tombstones);
    AddedEdges(records, r);
    if r.supersedes == [] {
      assert a + [] == a;
    } else {
      InsertKeepsNoRepeats(a, r.supersedes[0], b);
      assert r.supersedes == [r.supersedes[0]];
    }
  }

  lemma InsertKeepsNoRepeats(a: seq<string>, x: string, b: seq<string>)
    requires NoRepeats(a + b) && x !in a && x !in b
    ensures NoRepeats(a + [x] + b)
  {
    var s, t := a + b, a + [x] + b;
    assert forall i :: 0 <= i < |a| ==> t[i] == a[i] == s[i];
    assert t[|a|] == x;
    assert forall i :: |a| < i < |t| ==> t[i] == b[i - |a| - 1] == s[i - 1];
    forall i, j | 0 <= i < j < |t| ensures t[i] != t[j] {
      if j < |a| {
        assert s[i] != s[j];
      } else if i < |a| < j {
        assert s[i] != s[j - 1];
      } else if i > |a| {
        assert s[i - 1] != s[j - 1];
      }
    }
  }

  lemma AddToDifference(ids: set<string>, inactive: set<string>, x: string, targets: set<string>)
    requires x !in ids && inactive <= ids && targets <= ids
    ensures (ids + {x}) - (inactive + targets) == (ids - inactive) - targets + {x}
  {
  }

  lemma IdsAfterAdd(records: seq<MemoryRecord>, r: MemoryRecord)
    ensures RecordIds(records + [r]) == RecordIds(records) + {r.id}
  {
  }

  lemma ActiveAfterAdd(records: seq<MemoryRecord>, tombstones: seq<Tombstone>, r: MemoryRecord)
    requires Inactive(records, tombstones) <= RecordIds(records) && r.id !in RecordIds(records)
    requires NoRepeats(Superseded(records) + Buried(tombstones))
    requires r.supersedes == [] || (|r.supersedes| == 1 && r.supersedes[0] in ActiveIds(records, tombstones))
    ensures ActiveIds(records + [r], tombstones) == ActiveIds(records, tombstones) - ToSet(r.supersedes) + {r.id}
  {
    AddedTargets(records, tombstones, r);
    IdsAfterAdd(records, r);
    assert ToSet(r.supersedes) <= RecordIds(records);
    AddToDifference(RecordIds(records), Inactive(records, tombstones), r.id, ToSet(r.supersedes));
  }

  lemma BuriedAfter(tombstones: seq<Tombstone>, t: Tombstone)
    ensures Buried(tombstones + [t]) == Buried(tombstones) + [t.target]
    ensures TombstoneIds(tombstones + [t]) == TombstoneIds(tombstones) + {t.id}
  {
  }

  lemma BuriedTargets(records: seq<MemoryRecord>, tombstones: seq<Tombstone>, t: Tombstone)
    requires NoRepeats(Superseded(records) + Buried(tombstones)) && t.target !in Inactive(records, tombstones)
    ensures NoRepeats(Superseded(records) + Buried(tombstones + [t]))
    ensures Inactive(records, tombstones + [t]) == Inactive(records, tombstones) + {t.target}
  {
    var a, b := Superseded(records), Buried(tombstones);
    BuriedAfter(tombstones, t);
    assert a + b + [] == a + b;
    InsertKeepsNoRepeats(a + b, t.target, []);
    assert a + b + [t.target] + [] == a + (b + [t.target]);
  }

  lemma BuryKeepsChains(records: seq<MemoryRecord>, tombstones: seq<Tombstone>, t: Tombstone)
    requires Chained(records, tombstones) && t.target in ActiveIds(records, tombstones)
    requires t.id !in RecordIds(records) && t.id !in TombstoneIds(tombstones)
    ensures Chained(records, tombstones + [t])
    ensures ActiveIds(records, tombstones + [t]) == ActiveIds(records, tombstones) - {t.target}
  {
    BuriedTargets(records, tombstones, t);
    BuriedAfter(tombstones, t);
    BuriedIdsDistinct(tombstones, t);
  }

  lemma BuriedIdsDistinct(tombstones: seq<Tombstone>, t: Tombstone)
    requires t.id !in TombstoneIds(tombstones)
    requires forall i, j :: 0 <= i < j < |tombstones| ==> tombstones[i].id != tombstones[j].id
    ensures var after := tombstones + [t]; forall i, j :: 0 <= i < j < |after| ==> after[i].id != after[j].id
  {
    forall i | 0 <= i < |tombstones| ensures tombstones[i].id != t.id {
      assert tombstones[i] in tombstones;
    }
  }
}
