/**
 Ownership of MCP entries in a host file: the installer changes an entry only when it is
 absent or recognised as its own, and remembers which generic entries it wrote.
 */
module McpOwnership {
  import opened Wrappers

  /** Integers and floats are different types, and neither is a boolean. */
  datatype Json = Null | Bool(b: bool) | Int(i: int) | Float(r: real) | Str(s: string) | Array(items: seq<Json>) | Object(members: map<string, Json>)

  /** Equality by type and then by structure. */
  predicate JsonValuesEqual(left: Json, right: Json)
    decreases left
  {
    match (left, right)
    case (Null, Null) => true
    case (Bool(a), Bool(b)) => a == b
    case (Int(a), Int(b)) => a == b
    case (Float(a), Float(b)) => a == b
    case (Str(a), Str(b)) => a == b
    case (Array(a), Array(b)) => |a| == |b| && forall i :: 0 <= i < |a| ==> JsonValuesEqual(a[i], b[i])
    case (Object(a), Object(b)) => a.Keys == b.Keys && forall k :: k in a.Keys ==> JsonValuesEqual(a[k], b[k])
    case _ => false
  }

  lemma {:induction false} JsonEqualityIsExact(left: Json, right: Json)
    ensures JsonValuesEqual(left, right) <==> left == right
    decreases left
  {
    match (left, right)
    case (Array(a), Array(b)) =>
      if |a| == |b| {
        forall i | 0 <= i < |a| ensures JsonValuesEqual(a[i], b[i]) <==> a[i] == b[i] {
          JsonEqualityIsExact(a[i], b[i]);
        }
        assert a == b <==> forall i :: 0 <= i < |a| ==> a[i] == b[i];
      }
    case (Object(a), Object(b)) =>
      if a.Keys == b.Keys {
        forall k | k in a ensures JsonValuesEqual(a[k], b[k]) <==> a[k] == b[k] {
          JsonEqualityIsExact(a[k], b[k]);
        }
        assert a == b <==> forall k :: k in a ==> a[k] == b[k];
      }
    case _ =>
  }

  type Entries = map<string, Json>
  type Recognized = map<string, seq<Json>>

  /** What the configuration wants under an identifier, and whether that is a generic server. */
  datatype Intent = Intent(definition: Json, generic: bool)
  type Intents = map<string, Intent>

  function Required(intents: Intents): Entries {
    map id | id in intents :: intents[id].definition
  }

  predicate Known(recognized: Recognized, id: string, value: Json) {
    id in recognized && exists i :: 0 <= i < |recognized[id]| && JsonValuesEqual(value, recognized[id][i])
  }

  lemma KnownIsMember(recognized: Recognized, id: string, value: Json)
    ensures Known(recognized, id, value) <==> id in recognized && value in recognized[id]
  {
    if id in recognized {
      forall i | 0 <= i < |recognized[id]| ensures JsonValuesEqual(value, recognized[id][i]) <==> value == recognized[id][i] {
        JsonEqualityIsExact(value, recognized[id][i]);
      }
    }
  }

  /** What becomes of one entry. */
  function EntryAfter(container: Entries, required: Entries, recognized: Recognized, id: string): Option<Json> {
    if id in required then
      if id !in container || Known(recognized, id, container[id]) then Some(required[id]) else Some(container[id])
    else if id !in container || Known(recognized, id, container[id]) then None
    else Some(container[id])
  }

  function EntryIn(entries: Entries, id: string): Option<Json> {
    if id in entries then Some(entries[id]) else None
  }

  ghost predicate IsReconciled(container: Entries, required: Entries, recognized: Recognized, after: Entries) {
    forall id {:trigger EntryIn(after, id)} :: EntryIn(after, id) == EntryAfter(container, required, recognized, id)
  }

  lemma SameEntries(a: Entries, b: Entries)
    requires forall id :: EntryIn(a, id) == EntryIn(b, id)
    ensures a == b
  {
    forall id ensures id in a <==> id in b { assert EntryIn(a, id) == EntryIn(b, id); }
    assert a.Keys == b.Keys;
    forall id | id in a ensures a[id] == b[id] { assert EntryIn(a, id) == EntryIn(b, id); }
  }

  /** Historical definitions together with what was generated before. */
  method MergeRecognized(historical: Recognized, generated: Entries) returns (merged: Recognized)
    ensures forall id, value :: Known(merged, id, value) <==> Known(historical, id, value) || (id in generated && generated[id] == value)
  {
    merged := historical;
    var pending := generated.Keys;
    while pending != {}
      invariant pending <= generated.Keys
      invariant forall id :: id in merged <==> id in historical || (id in generated && id !in pending)
      invariant forall id, value :: id in merged ==>
        (value in merged[id] <==> (id in historical && value in historical[id]) || (id in generated && id !in pending && generated[id] == value))
      decreases |pending|
    {
      var id :| id in pending;
      pending := pending - {id};
      var definitions := if id in merged then merged[id] else [];
      ghost var before := merged;
      if !exists i :: 0 <= i < |definitions| && JsonValuesEqual(generated[id], definitions[i]) {
        definitions := definitions + [generated[id]];
      } else {
        ghost var i :| 0 <= i < |definitions| && JsonValuesEqual(generated[id], definitions[i]);
        JsonEqualityIsExact(generated[id], definitions[i]);
      }
      merged := merged[id := definitions];
    }
    forall id, value ensures Known(merged, id, value) <==> Known(historical, id, value) || (id in generated && generated[id] == value) {
      KnownIsMember(merged, id, value);
      KnownIsMember(historical, id, value);
    }
  }

  /** The generic definitions whose host entry the next install writes or already owns. */
  function NextProvenance(current: Entries, intents: Intents, previous: Entries): Entries {
    map id | id in intents && intents[id].generic
      && (id !in current || (id in previous && JsonValuesEqual(current[id], previous[id]))) :: intents[id].definition
  }

  /** The required entries are settled, and of the retired ones those no longer pending. */
  ghost predicate RetiredSoFar(start: Entries, required: Entries, recognized: Recognized, pending: set<string>, entries: Entries) {
    forall id {:trigger EntryIn(entries, id)} ::
      EntryIn(entries, id)
      == if id in required || (id in recognized && id !in pending) then EntryAfter(start, required, recognized, id) else EntryIn(start, id)
  }

  lemma RetireOne(start: Entries, required: Entries, recognized: Recognized, pending: set<string>, id: string, entries: Entries)
    requires id in pending && pending <= recognized.Keys && RetiredSoFar(start, required, recognized, pending, entries)
    ensures
      var gone := id !in required && id in entries && Known(recognized, id, entries[id]);
      && RetiredSoFar(start, required, recognized, pending - {id}, if gone then entries - {id} else entries)
      && (gone ==> entries - {id} != start)
  {
    var gone := id !in required && id in entries && Known(recognized, id, entries[id]);
    var after := if gone then entries - {id} else entries;
    assert id !in required ==> EntryIn(entries, id) == EntryIn(start, id);
    forall other | other != id ensures EntryIn(after, other) == EntryIn(entries, other) {}
    if gone {
      assert EntryIn(after, id) != EntryIn(start, id);
    }
  }

  class Installer {
    /** The managed container of the host file, and the recorded provenance. */
    var entries: Entries
    var provenance: Entries

    constructor ()
      ensures entries == map[] && provenance == map[]
    {
      entries, provenance := map[], map[];
    }

    /** Write and delete owned entries in place; `changed` says whether the file has to be rewritten. */
    method Reconcile(required: Entries, recognized: Recognized) returns (changed: bool)
      modifies this`entries
      ensures IsReconciled(old(entries), required, recognized, entries)
      ensures changed <==> entries != old(entries)
    {
      ghost var start := entries;
      changed := false;
      var pending := required.Keys;
      while pending != {}
        invariant pending <= required.Keys
        invariant forall id ::
          EntryIn(entries, id) == if id in required && id !in pending then EntryAfter(start, required, recognized, id) else EntryIn(start, id)
        invariant changed <==> entries != start
        decreases |pending|
      {
        var id :| id in pending;
        pending := pending - {id};
        ghost var before := entries;
        assert EntryIn(entries, id) == EntryIn(start, id);
        if id in entries {
          JsonEqualityIsExact(entries[id], required[id]);
        }
        if id in entries && JsonValuesEqual(entries[id], required[id]) {
        } else if id !in entries || Known(recognized, id, entries[id]) {
          entries := entries[id := required[id]];
          changed := true;
          assert EntryIn(entries, id) != EntryIn(start, id);
        }
        assert forall other :: other != id ==> EntryIn(entries, other) == EntryIn(before, other);
      }
      changed := RemoveRetired(required, recognized, start, changed);
    }

    method RemoveRetired(required: Entries, recognized: Recognized, ghost start: Entries, alreadyChanged: bool) returns (changed: bool)
      requires forall id :: EntryIn(entries, id) == if id in required then EntryAfter(start, required, recognized, id) else EntryIn(start, id)
      requires alreadyChanged <==> entries != start
      modifies this`entries
      ensures IsReconciled(start, required, recognized, entries)
      ensures changed <==> entries != start
    {
      changed := alreadyChanged;
      var pending := recognized.Keys;
      while pending != {}
        invariant pending <= recognized.Keys
        invariant RetiredSoFar(start, required, recognized, pending, entries)
        invariant changed <==> entries != start
        decreases |pending|
      {
        var id :| id in pending;
        RetireOne(start, required, recognized, pending, id, entries);
        pending := pending - {id};
        if id !in required && id in entries && Known(recognized, id, entries[id]) {
          entries := entries - {id};
          changed := true;
        }
      }
    }

    /** One installation for one host. */
    method Install(intents: Intents, historical: Recognized) returns (changed: bool)
      modifies this
      ensures IsInstalled(Host(old(entries), old(provenance)), intents, historical, Host(entries, provenance))
      ensures changed <==> entries != old(entries)
    {
      var recognized := MergeRecognized(historical, provenance);
      var next := NextProvenance(entries, intents, provenance);
      changed := Reconcile(Required(intents), recognized);
      provenance := next;
    }
  }

  // ---- Installations and edits ----

  datatype Host = Host(entries: Entries, provenance: Entries)

  /** An installation writes what it may and records what it owns. */
  ghost predicate IsInstalled(h: Host, intents: Intents, historical: Recognized, after: Host) {
    && (exists recognized ::
          && Merges(historical, h.provenance, recognized)
          && IsReconciled(h.entries, Required(intents), recognized, after.entries))
    && after.provenance == NextProvenance(h.entries, intents, h.provenance)
  }

  ghost predicate Merges(historical: Recognized, generated: Entries, merged: Recognized) {
    forall id, value {:trigger Known(merged, id, value)} ::
      Known(merged, id, value) <==> Known(historical, id, value) || (id in generated && generated[id] == value)
  }

  /** An installation changes an entry only if it was absent, historical, or recorded as generated. */
  lemma ChangesOnlyOwned(h: Host, intents: Intents, historical: Recognized, after: Host, id: string)
    requires IsInstalled(h, intents, historical, after)
    requires EntryIn(after.entries, id) != EntryIn(h.entries, id)
    ensures id !in h.entries || Known(historical, id, h.entries[id]) || EntryIn(h.provenance, id) == Some(h.entries[id])
  {
    var recognized :| Merges(historical, h.provenance, recognized) && IsReconciled(h.entries, Required(intents), recognized, after.entries);
    assert EntryIn(after.entries, id) == EntryAfter(h.entries, Required(intents), recognized, id);
  }

  /** After an installation every recorded definition is the host entry. */
  lemma ProvenanceMatches(h: Host, intents: Intents, historical: Recognized, after: Host, id: string)
    requires IsInstalled(h, intents, historical, after) && id in after.provenance
    ensures EntryIn(after.entries, id) == Some(after.provenance[id])
    ensures id in intents && intents[id].generic && after.provenance[id] == intents[id].definition
  {
    var recognized :| Merges(historical, h.provenance, recognized) && IsReconciled(h.entries, Required(intents), recognized, after.entries);
    assert EntryIn(after.entries, id) == EntryAfter(h.entries, Required(intents), recognized, id);
    if id in h.entries {
      JsonEqualityIsExact(h.entries[id], h.provenance[id]);
      assert Known(recognized, id, h.entries[id]);
    }
  }

  /** Installing the same configuration again, with no edit in between, changes neither file. */
  lemma ReinstallIsIdempotent(h: Host, intents: Intents, historical: Recognized, once: Host, twice: Host)
    requires IsInstalled(h, intents, historical, once) && IsInstalled(once, intents, historical, twice)
    ensures twice == once
  {
    forall id ensures EntryIn(twice.entries, id) == EntryIn(once.entries, id) {
      EntrySettles(h, intents, historical, once, twice, id);
    }
    SameEntries(twice.entries, once.entries);
    forall id ensures EntryIn(twice.provenance, id) == EntryIn(once.provenance, id) {
      ProvenanceSettles(h, intents, historical, once, twice, id);
    }
    SameEntries(twice.provenance, once.provenance);
  }

  lemma EntrySettles(h: Host, intents: Intents, historical: Recognized, once: Host, twice: Host, id: string)
    requires IsInstalled(h, intents, historical, once) && IsInstalled(once, intents, historical, twice)
    ensures EntryIn(twice.entries, id) == EntryIn(once.entries, id)
  {
    var r :| Merges(historical, h.provenance, r) && IsReconciled(h.entries, Required(intents), r, once.entries);
    var s :| Merges(historical, once.provenance, s) && IsReconciled(once.entries, Required(intents), s, twice.entries);
    assert EntryIn(once.entries, id) == EntryAfter(h.entries, Required(intents), r, id);
    assert EntryIn(twice.entries, id) == EntryAfter(once.entries, Required(intents), s, id);
    if id in once.provenance {
      ProvenanceMatches(h, intents, historical, once, id);
    }
    if id in once.entries {
      assert Known(s, id, once.entries[id]) <==> Known(historical, id, once.entries[id]) || (id in once.provenance && once.provenance[id] == once.entries[id]);
      assert Known(r, id, once.entries[id]) <==> Known(historical, id, once.entries[id]) || (id in h.provenance && h.provenance[id] == once.entries[id]);
    }
  }

  lemma ProvenanceSettles(h: Host, intents: Intents, historical: Recognized, once: Host, twice: Host, id: string)
    requires IsInstalled(h, intents, historical, once) && IsInstalled(once, intents, historical, twice)
    ensures EntryIn(twice.provenance, id) == EntryIn(once.provenance, id)
  {
    if id in once.provenance {
      ProvenanceMatches(h, intents, historical, once, id);
      JsonEqualityIsExact(once.entries[id], once.provenance[id]);
    } else if id in intents && intents[id].generic {
      var r :| Merges(historical, h.provenance, r) && IsReconciled(h.entries, Required(intents), r, once.entries);
      assert EntryIn(once.entries, id) == EntryAfter(h.entries, Required(intents), r, id);
      assert id in once.entries;
    }
  }

  // ---- Runs ----

  /** Each installation recognises the historical definitions of its own configuration. */
  datatype Event = Installed(intents: Intents, historical: Recognized) | Edited(entries: Entries)

  /** An operator edits the host file, never the provenance. */
  ghost predicate Happens(h: Host, e: Event, after: Host) {
    match e
    case Installed(intents, historical) => IsInstalled(h, intents, historical, after)
    case Edited(entries) => after == Host(entries, h.provenance)
  }

  ghost predicate IsRun(hosts: seq<Host>, events: seq<Event>) {
    && |hosts| == |events| + 1 && hosts[0].provenance == map[]
    && forall n :: 0 <= n < |events| ==> Happens(hosts[n], events[n], hosts[n + 1])
  }

  /** This event installed a generic definition under this identifier and the entry was not that definition before. */
  ghost predicate Writes(before: Host, e: Event, after: Host, id: string, definition: Json) {
    && e.Installed? && EntryIn(before.entries, id) != Some(definition) && EntryIn(after.entries, id) == Some(definition)
    && id in e.intents && e.intents[id] == Intent(definition, true)
  }

  /** Some installation of the run before this point wrote this definition under this identifier. */
  ghost predicate Written(hosts: seq<Host>, events: seq<Event>, n: nat, id: string, definition: Json)
    requires |hosts| == |events| + 1
  {
    exists k :: 0 <= k < n && k < |events| && Writes(hosts[k], events[k], hosts[k + 1], id, definition)
  }

  /** What an installation records it has just written, or it had recorded it before and it was there. */
  lemma RecordedIsWritten(h: Host, intents: Intents, historical: Recognized, after: Host, id: string)
    requires IsInstalled(h, intents, historical, after) && id in after.provenance
    ensures
      || Writes(h, Installed(intents, historical), after, id, after.provenance[id])
      || EntryIn(h.provenance, id) == Some(after.provenance[id])
  {
    ProvenanceMatches(h, intents, historical, after, id);
    if id in h.entries {
      JsonEqualityIsExact(h.entries[id], h.provenance[id]);
    }
  }

  lemma {:induction false} ProvenanceWasWritten(hosts: seq<Host>, events: seq<Event>, n: nat, id: string)
    requires IsRun(hosts, events) && n <= |events| && id in hosts[n].provenance
    ensures Written(hosts, events, n, id, hosts[n].provenance[id])
  {
    if n > 0 {
      assert Happens(hosts[n - 1], events[n - 1], hosts[n]);
      var definition := hosts[n].provenance[id];
      if events[n - 1].Installed? {
        RecordedIsWritten(hosts[n - 1], events[n - 1].intents, events[n - 1].historical, hosts[n], id);
      }
      if !Writes(hosts[n - 1], events[n - 1], hosts[n - 1 + 1], id, definition) {
        ProvenanceWasWritten(hosts, events, n - 1, id);
        var k :| 0 <= k < n - 1 && k < |events| && Writes(hosts[k], events[k], hosts[k + 1], id, definition);
      }
    }
  }

  /**
   Over any interleaving of installations and operator edits, an installation changes an
   entry only if it is absent, a historical definition of that installation, or exactly a
   generic definition that an earlier installation of the run put there.
   */
  lemma RunsChangeOnlyTheirOwn(hosts: seq<Host>, events: seq<Event>, n: nat, id: string)
    requires IsRun(hosts, events) && n < |events| && events[n].Installed?
    requires EntryIn(hosts[n + 1].entries, id) != EntryIn(hosts[n].entries, id)
    ensures
      || id !in hosts[n].entries
      || Known(events[n].historical, id, hosts[n].entries[id])
      || Written(hosts, events, n, id, hosts[n].entries[id])
  {
    assert Happens(hosts[n], events[n], hosts[n + 1]);
    ChangesOnlyOwned(hosts[n], events[n].intents, events[n].historical, hosts[n + 1], id);
    if id in hosts[n].entries && EntryIn(hosts[n].provenance, id) == Some(hosts[n].entries[id]) {
      ProvenanceWasWritten(hosts, events, n, id);
    }
  }
}
