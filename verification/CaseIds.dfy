/** Stable IDs for catalogue entries: allocation by key, the merge into the fixture, and the loop over sources. */
module CaseIds {
  import opened Options

  /** What the fixture keeps of a case; an empty key means the entry has none. */
  datatype Entry = Entry(key: string, tier: Option<string>, body: string)

  datatype Fixture = Fixture(nextId: nat, cases: map<nat, Entry>)

  /** One catalogue entry; `bindTier` overrides the source's own tier. */
  datatype Case = Case(key: string, bindTier: Option<string>, body: string)

  datatype Source = Source(cases: seq<Case>, tier: Option<string>)

  datatype Row = Row(id: nat, item: Case)

  /** Keyed entries have their own keys, and every id is below nextId. */
  ghost predicate WellFormed(f: Fixture) {
    (forall id :: id in f.cases ==> id < f.nextId)
    && forall a, b :: a in f.cases && b in f.cases && f.cases[a].key == f.cases[b].key != "" ==> a == b
  }

  /** The id the fixture binds to a key. */
  ghost predicate Bound(f: Fixture, key: string, id: nat) { key != "" && id in f.cases && f.cases[id].key == key }

  // ---------------------------------------------------------------- allocation

  /** The ids given out so far in one call, over the fixture's own. */
  datatype Ids = Ids(byKey: map<string, nat>, next: nat)

  function Allocate(ids: Ids, c: Case): (Ids, Row) {
    if c.key in ids.byKey then (ids, Row(ids.byKey[c.key], c))
    else (Ids(ids.byKey[c.key := ids.next], ids.next + 1), Row(ids.next, c))
  }

  function AllocateAll(ids: Ids, cases: seq<Case>): (Ids, seq<Row>) {
    if cases == [] then (ids, [])
    else
      var (before, rows) := AllocateAll(ids, cases[..|cases| - 1]);
      var (after, row) := Allocate(before, cases[|cases| - 1]);
      (after, rows + [row])
  }

  predicate DistinctKeys(cases: seq<Case>) { forall i, j :: 0 <= i < j < |cases| ==> cases[i].key != cases[j].key }

  /** The Map the fixture's entries fill, keyless ones skipped. */
  function KeysOf(f: Fixture, below: nat): map<string, nat> {
    if below == 0 then map[]
    else
      var rest, id := KeysOf(f, below - 1), below - 1;
      if id in f.cases && f.cases[id].key != "" then rest[f.cases[id].key := id] else rest
  }

  method AllocateIds(f: Fixture, cases: seq<Case>) returns (ok: bool, rows: seq<Row>, nextId: nat)
    requires forall id :: id in f.cases ==> id < f.nextId
    ensures ok <==> DistinctKeys(cases)
    ensures var (ids, all) := AllocateAll(Ids(KeysOf(f, f.nextId), f.nextId), cases);
            ok ==> rows == all && nextId == ids.next
  {
    var byKey: map<string, nat> := map[];
    for id := 0 to f.nextId
      invariant byKey == KeysOf(f, id)
    {
      if id in f.cases && f.cases[id].key != "" {
        byKey := byKey[f.cases[id].key := id];
      }
    }
    var next := f.nextId;
    rows := [];
    for i := 0 to |cases|
      invariant AllocateAll(Ids(KeysOf(f, f.nextId), f.nextId), cases[..i]) == (Ids(byKey, next), rows)
    {
      var c := cases[i];
      var id := next;
      if c.key in byKey {
        id := byKey[c.key];
      } else {
        next := next + 1;
        byKey := byKey[c.key := id];
      }
      rows := rows + [Row(id, c)];
      assert cases[..i + 1][..i] == cases[..i];
    }
    assert cases[..|cases|] == cases;
    ok := forall i, j :: 0 <= i < j < |cases| ==> cases[i].key != cases[j].key;
    nextId := next;
  }

  // ---------------------------------------------------------------- merging

  /** An empty tier counts as none. */
  function EntryOf(item: Case, tier: Option<string>): Entry {
    Entry(item.key, if item.bindTier.Some? && item.bindTier.value != "" then item.bindTier else tier, item.body)
  }

  function Write(cases: map<nat, Entry>, rows: seq<Row>, tier: Option<string>): map<nat, Entry> {
    if rows == [] then cases
    else
      var last := rows[|rows| - 1];
      Write(cases, rows[..|rows| - 1], tier)[last.id := EntryOf(last.item, tier)]
  }

  method MergeFixture(f: Fixture, rows: seq<Row>, nextId: nat, tier: Option<string>) returns (out: Fixture)
    ensures out == Fixture(nextId, Write(f.cases, rows, tier))
  {
    var cases := f.cases;
    for i := 0 to |rows|
      invariant cases == Write(f.cases, rows[..i], tier)
    {
      assert rows[..i + 1][..i] == rows[..i];
      cases := cases[rows[i].id := EntryOf(rows[i].item, tier)];
    }
    assert rows[..|rows|] == rows;
    return Fixture(nextId, cases);
  }

  /** One source taken in; a repeated key inside it throws before anything is written. */
  function TakeSource(f: Fixture, src: Source): Option<Fixture> {
    if !DistinctKeys(src.cases) then None
    else
      var (ids, rows) := AllocateAll(Ids(KeysOf(f, f.nextId), f.nextId), src.cases);
      Some(Fixture(ids.next, Write(f.cases, rows, src.tier)))
  }

  function TakeAll(f: Fixture, sources: seq<Source>): Option<Fixture> {
    if sources == [] then Some(f)
    else
      var before := TakeAll(f, sources[..|sources| - 1]);
      if before.None? then None else TakeSource(before.value, sources[|sources| - 1])
  }

  /** The main loop: one fixture threaded through every source, written only if none of them throws. */
  method Generate(f: Fixture, sources: seq<Source>) returns (r: Option<Fixture>)
    requires WellFormed(f)
    ensures r == TakeAll(f, sources)
  {
    var fixture := f;
    for i := 0 to |sources|
      invariant TakeAll(f, sources[..i]) == Some(fixture) && WellFormed(fixture)
    {
      assert sources[..i + 1][..i] == sources[..i];
      var ok, rows, nextId := AllocateIds(fixture, sources[i].cases);
      if !ok {
        ThrowsForGood(f, sources, i + 1);
        return None;
      }
      TakeSourceKeepsOrder(fixture, sources[i]);
      fixture := MergeFixture(fixture, rows, nextId, sources[i].tier);
    }
    assert sources[..|sources|] == sources;
    return Some(fixture);
  }

  lemma {:induction false} ThrowsForGood(f: Fixture, sources: seq<Source>, i: nat)
    requires i <= |sources| && TakeAll(f, sources[..i]).None?
    ensures TakeAll(f, sources).None?
    decreases |sources| - i
  {
    if i == |sources| {
      assert sources[..i] == sources;
    } else {
      assert sources[..i + 1][..i] == sources[..i];
      ThrowsForGood(f, sources, i + 1);
    }
  }

  // ---------------------------------------------------------------- one source

  /** The Map holds exactly the bindings of ids below the bound. */
  ghost predicate AreBindings(f: Fixture, keys: map<string, nat>, below: nat) {
    && (forall k :: k in keys ==> Bound(f, k, keys[k]) && keys[k] < below)
    && (forall k, id: nat :: Bound(f, k, id) && id < below ==> k in keys && keys[k] == id)
  }

  lemma {:induction false} KeysAreBindings(f: Fixture, below: nat)
    requires WellFormed(f)
    ensures AreBindings(f, KeysOf(f, below), below)
  {
    if below > 0 {
      KeysAreBindings(f, below - 1);
      var rest := KeysOf(f, below - 1);
      var id: nat := below - 1;
      assert KeysOf(f, below) == if id in f.cases && f.cases[id].key != "" then rest[f.cases[id].key := id] else rest;
    }
  }

  ghost predicate NamesKey(cases: seq<Case>, key: string) { exists i :: 0 <= i < |cases| && cases[i].key == key }

  lemma NamesKeyGrows(cases: seq<Case>)
    requires cases != []
    ensures forall k :: NamesKey(cases[..|cases| - 1], k) ==> NamesKey(cases, k)
    ensures NamesKey(cases, cases[|cases| - 1].key)
  {
    forall k | NamesKey(cases[..|cases| - 1], k) ensures NamesKey(cases, k) {
      var i :| 0 <= i < |cases| - 1 && cases[..|cases| - 1][i].key == k;
      assert cases[i].key == k;
    }
  }

  /** What allocation keeps: old keys keep their ids, new ones get fresh ids in order, rows agree with the Map. */
  ghost predicate Allocated(start: Ids, ids: Ids, cases: seq<Case>, rows: seq<Row>) {
    && |rows| == |cases| && start.next <= ids.next
    && (forall i :: 0 <= i < |rows| ==> rows[i].item == cases[i] && cases[i].key in ids.byKey
                                        && rows[i].id == ids.byKey[cases[i].key])
    && (forall k :: k in start.byKey ==> k in ids.byKey && ids.byKey[k] == start.byKey[k])
    && (forall k :: k in ids.byKey && k !in start.byKey ==>
          start.next <= ids.byKey[k] < ids.next && NamesKey(cases, k))
    && (forall j, k :: (j in ids.byKey && k in ids.byKey && j !in start.byKey && k !in start.byKey
                        && ids.byKey[j] == ids.byKey[k]) ==> j == k)
  }

  lemma {:induction false} AllocationLaw(start: Ids, cases: seq<Case>)
    ensures var (ids, rows) := AllocateAll(start, cases); Allocated(start, ids, cases, rows)
  {
    if cases != [] {
      var n := |cases| - 1;
      var (before, rows) := AllocateAll(start, cases[..n]);
      AllocationLaw(start, cases[..n]);
      AllocationStep(start, before, cases, rows);
    }
  }

  lemma AllocationStep(start: Ids, before: Ids, cases: seq<Case>, rows: seq<Row>)
    requires cases != [] && Allocated(start, before, cases[..|cases| - 1], rows)
    ensures var (ids, row) := Allocate(before, cases[|cases| - 1]); Allocated(start, ids, cases, rows + [row])
  {
    if cases[|cases| - 1].key in before.byKey {
      hide Allocated;
      KnownKeyStep(start, before, cases, rows);
    } else {
      hide Allocated;
      NewKeyStep(start, before, cases, rows);
    }
  }

  lemma KnownKeyStep(start: Ids, before: Ids, cases: seq<Case>, rows: seq<Row>)
    requires cases != [] && Allocated(start, before, cases[..|cases| - 1], rows)
    requires cases[|cases| - 1].key in before.byKey
    ensures var c := cases[|cases| - 1]; Allocated(start, before, cases, rows + [Row(before.byKey[c.key], c)])
  {
    hide NamesKey;
    NamesKeyGrows(cases);
    var n := |cases| - 1;
    assert forall i :: 0 <= i < n ==> cases[..n][i] == cases[i];
  }

  lemma NewKeyStep(start: Ids, before: Ids, cases: seq<Case>, rows: seq<Row>)
    requires cases != [] && Allocated(start, before, cases[..|cases| - 1], rows)
    requires cases[|cases| - 1].key !in before.byKey
    ensures var c := cases[|cases| - 1];
            Allocated(start, Ids(before.byKey[c.key := before.next], before.next + 1), cases,
                      rows + [Row(before.next, c)])
  {
    hide NamesKey;
    NamesKeyGrows(cases);
    var n := |cases| - 1;
    assert forall i :: 0 <= i < n ==> cases[..n][i] == cases[i];
  }

  /** Rows with distinct ids write each id's own entry and leave the others alone. */
  lemma {:induction false} WriteLaw(cases: map<nat, Entry>, rows: seq<Row>, tier: Option<string>)
    requires forall i, j :: 0 <= i < j < |rows| ==> rows[i].id != rows[j].id
    ensures var out := Write(cases, rows, tier);
            && (forall i :: 0 <= i < |rows| ==> rows[i].id in out && out[rows[i].id] == EntryOf(rows[i].item, tier))
            && (forall id :: (forall i :: 0 <= i < |rows| ==> rows[i].id != id) ==>
                  (id in out <==> id in cases) && (id in cases ==> out[id] == cases[id]))
  {
    if rows != [] {
      var n := |rows| - 1;
      WriteLaw(cases, rows[..n], tier);
      assert forall i :: 0 <= i < n ==> rows[..n][i] == rows[i];
    }
  }

  /** The entry is the case's: its key and content, and its own tier or else the source's. */
  predicate Tells(e: Entry, item: Case, tier: Option<string>) {
    && e.key == item.key && e.body == item.body
    && match item.bindTier
       case Some(own) => if own == "" then e.tier == tier else e.tier == Some(own)
       case None => e.tier == tier
  }

  lemma EntryTells(e: Entry, item: Case, tier: Option<string>)
    ensures e == EntryOf(item, tier) <==> Tells(e, item, tier)
  {
  }

  /** The fixture binds the case to exactly its own content. */
  ghost predicate Holds(f: Fixture, item: Case, tier: Option<string>) {
    exists id :: Bound(f, item.key, id) && Tells(f.cases[id], item, tier)
  }

  /**
   * What one source does to one id: an old entry keeps its key, and changes
   * only if the source names that key; a new one has a fresh id and a key the
   * source names.
   */
  ghost predicate EntryLaw(f: Fixture, s: Source, g: Fixture, id: nat) {
    id in g.cases &&
    if id in f.cases then
      g.cases[id].key == f.cases[id].key
      && (f.cases[id].key == "" || !NamesKey(s.cases, f.cases[id].key) ==> g.cases[id] == f.cases[id])
    else id >= f.nextId && NamesKey(s.cases, g.cases[id].key)
  }

  /**
   * One source: a bound key keeps its id and no other id gets it, keyless
   * entries are not touched, every keyed case of the source is bound to exactly
   * its own content, and the fixture stays well formed.
   */
  lemma TakeSourceKeepsOrder(f: Fixture, s: Source)
    requires WellFormed(f) && DistinctKeys(s.cases)
    ensures TakeSource(f, s).Some?
    ensures var g := TakeSource(f, s).value;
            && WellFormed(g) && g.nextId >= f.nextId
            && (forall k, id :: Bound(f, k, id) ==> Bound(g, k, id))
            && (forall id :: id in f.cases || id in g.cases ==> EntryLaw(f, s, g, id))
            && (forall i :: 0 <= i < |s.cases| && s.cases[i].key != "" ==> Holds(g, s.cases[i], s.tier))
  {
    hide AllocateAll, Write, KeysOf, NamesKey, Holds, EntryLaw, Merge, RowsBound;
    var start := Ids(KeysOf(f, f.nextId), f.nextId);
    var (ids, rows) := AllocateAll(start, s.cases);
    var g := TakeSource(f, s).value;
    SourceMerges(f, s, start, ids, rows, g);
    MergedRows(f, s, start, ids, rows, g);
    MergedFixture(f, s, start, ids, rows, g);
    MergedKeys(f, s, start, ids, rows, g);
  }

  lemma SourceMerges(f: Fixture, s: Source, start: Ids, ids: Ids, rows: seq<Row>, g: Fixture)
    requires WellFormed(f) && DistinctKeys(s.cases)
    requires start == Ids(KeysOf(f, f.nextId), f.nextId) && (ids, rows) == AllocateAll(start, s.cases)
    requires g == Fixture(ids.next, Write(f.cases, rows, s.tier))
    ensures Merge(f, s, start, ids, rows, g)
  {
    hide AllocateAll, Write, KeysOf, NamesKey, WellFormed;
    KeysAreBindings(f, f.nextId);
    AllocationLaw(start, s.cases);
    BindingsStayBelow(f);
    RowIdsAreDistinct(f, start, ids, s.cases, rows);
    WriteLaw(f.cases, rows, s.tier);
  }

  lemma BindingsStayBelow(f: Fixture)
    requires WellFormed(f)
    ensures forall k, id: nat :: Bound(f, k, id) ==> id < f.nextId
  {
  }

  /** What allocation and merging of one source establish about each other's results. */
  ghost predicate Merge(f: Fixture, s: Source, start: Ids, ids: Ids, rows: seq<Row>, g: Fixture) {
    && WellFormed(f) && DistinctKeys(s.cases) && Allocated(start, ids, s.cases, rows)
    && start.next == f.nextId && g.nextId == ids.next
    && (forall k :: k in start.byKey ==> Bound(f, k, start.byKey[k]))
    && (forall k, id :: Bound(f, k, id) ==> k in start.byKey && start.byKey[k] == id)
    && (forall i :: 0 <= i < |rows| ==>
          rows[i].id in g.cases && g.cases[rows[i].id] == EntryOf(rows[i].item, s.tier))
    && (forall id :: (forall i :: 0 <= i < |rows| ==> rows[i].id != id) ==>
          (id in g.cases <==> id in f.cases) && (id in f.cases ==> g.cases[id] == f.cases[id]))
  }

  /** Each row's id is bound to its case, and is either the key's old id or a fresh one. */
  ghost predicate RowsBound(f: Fixture, s: Source, rows: seq<Row>, g: Fixture) {
    |rows| == |s.cases| && forall i :: 0 <= i < |rows| ==>
      && rows[i].id in g.cases && g.cases[rows[i].id] == EntryOf(s.cases[i], s.tier)
      && (rows[i].id in f.cases ==> f.cases[rows[i].id].key == s.cases[i].key)
      && (rows[i].id !in f.cases ==> rows[i].id >= f.nextId)
      && rows[i].id < g.nextId
  }

  lemma MergedRows(f: Fixture, s: Source, start: Ids, ids: Ids, rows: seq<Row>, g: Fixture)
    requires Merge(f, s, start, ids, rows, g)
    ensures RowsBound(f, s, rows, g)
  {
    forall i | 0 <= i < |rows|
      ensures rows[i].id in f.cases ==> f.cases[rows[i].id].key == s.cases[i].key
      ensures rows[i].id !in f.cases ==> rows[i].id >= f.nextId
      ensures rows[i].id < ids.next && rows[i].item == s.cases[i]
    {
      var k := s.cases[i].key;
      if k in start.byKey {
        assert Bound(f, k, start.byKey[k]);
      }
    }
  }

  lemma MergedEntry(f: Fixture, s: Source, start: Ids, ids: Ids, rows: seq<Row>, g: Fixture, id: nat)
    requires Merge(f, s, start, ids, rows, g) && RowsBound(f, s, rows, g)
    requires id in f.cases || id in g.cases
    ensures EntryLaw(f, s, g, id) && id < g.nextId
  {
    if i :| 0 <= i < |rows| && rows[i].id == id {
      assert s.cases[i].key == g.cases[id].key;
    }
  }

  lemma MergedFixture(f: Fixture, s: Source, start: Ids, ids: Ids, rows: seq<Row>, g: Fixture)
    requires Merge(f, s, start, ids, rows, g) && RowsBound(f, s, rows, g)
    ensures g.nextId >= f.nextId && forall id :: id in g.cases ==> id < g.nextId
    ensures forall id :: id in f.cases || id in g.cases ==> EntryLaw(f, s, g, id)
    ensures forall k, id :: Bound(f, k, id) ==> Bound(g, k, id)
    ensures forall i :: 0 <= i < |s.cases| && s.cases[i].key != "" ==> Holds(g, s.cases[i], s.tier)
  {
    forall i | 0 <= i < |s.cases| && s.cases[i].key != "" ensures Holds(g, s.cases[i], s.tier) {
      assert Bound(g, s.cases[i].key, rows[i].id);
    }
    assert g.nextId >= f.nextId;
    hide Merge, RowsBound, Holds, NamesKey;
    forall id: nat | id in f.cases || id in g.cases ensures EntryLaw(f, s, g, id) && id < g.nextId {
      MergedEntry(f, s, start, ids, rows, g, id);
    }
    forall k, id: nat | Bound(f, k, id) ensures Bound(g, k, id) {
      assert EntryLaw(f, s, g, id);
    }
  }

  lemma MergedKeys(f: Fixture, s: Source, start: Ids, ids: Ids, rows: seq<Row>, g: Fixture)
    requires Merge(f, s, start, ids, rows, g) && RowsBound(f, s, rows, g)
    ensures forall a, b :: a in g.cases && b in g.cases && g.cases[a].key == g.cases[b].key != "" ==> a == b
  {
    forall a | a in g.cases && g.cases[a].key != ""
      ensures g.cases[a].key in ids.byKey && ids.byKey[g.cases[a].key] == a
    {
      IdOfKey(f, s, start, ids, rows, g, a);
    }
  }

  /** Whatever entry carries a key afterwards, its id is the one the Map holds for the key. */
  lemma IdOfKey(f: Fixture, s: Source, start: Ids, ids: Ids, rows: seq<Row>, g: Fixture, a: nat)
    requires Merge(f, s, start, ids, rows, g) && RowsBound(f, s, rows, g)
    requires a in g.cases && g.cases[a].key != ""
    ensures g.cases[a].key in ids.byKey && ids.byKey[g.cases[a].key] == a
  {
    if i :| 0 <= i < |rows| && rows[i].id == a {
      assert rows[i].id == ids.byKey[s.cases[i].key];
    } else {
      assert Bound(f, g.cases[a].key, a);
    }
  }

  lemma RowIdsAreDistinct(f: Fixture, start: Ids, ids: Ids, cases: seq<Case>, rows: seq<Row>)
    requires WellFormed(f) && DistinctKeys(cases) && Allocated(start, ids, cases, rows)
    requires start.next == f.nextId && forall k :: k in start.byKey ==> Bound(f, k, start.byKey[k])
    ensures forall i, j :: 0 <= i < j < |rows| ==> rows[i].id != rows[j].id
  {
    forall i, j | 0 <= i < j < |rows| ensures rows[i].id != rows[j].id {
      var a, b := cases[i].key, cases[j].key;
      assert a != b;
      assert a in start.byKey ==> rows[i].id < f.nextId;
      assert b in start.byKey ==> rows[j].id < f.nextId;
    }
  }

  // ---------------------------------------------------------------- which ids

  /** How many of the cases the fixture has no id for. */
  ghost function Unbound(f: Fixture, cases: seq<Case>): nat {
    if cases == [] then 0
    else
      var n := |cases| - 1;
      Unbound(f, cases[..n]) + (if exists id :: Bound(f, cases[n].key, id) then 0 else 1)
  }

  /** The i-th case keeps the id its key is bound to; a case without one takes the next free id, in order. */
  ghost predicate IdIs(f: Fixture, cases: seq<Case>, i: nat, id: nat)
    requires i < |cases|
  {
    Bound(f, cases[i].key, id)
    || (id == f.nextId + Unbound(f, cases[..i]) && forall other :: !Bound(f, cases[i].key, other))
  }

  /** The ids and rows of a list of cases, and the ids given out, as counting them says. */
  ghost predicate Numbered(f: Fixture, cases: seq<Case>, ids: Ids, rows: seq<Row>) {
    && ids.next == f.nextId + Unbound(f, cases) && |rows| == |cases|
    && forall i :: 0 <= i < |rows| ==> IdIs(f, cases, i, rows[i].id)
  }

  lemma {:induction false} IdsInOrder(f: Fixture, cases: seq<Case>)
    requires WellFormed(f) && DistinctKeys(cases)
    ensures var (ids, rows) := AllocateAll(Ids(KeysOf(f, f.nextId), f.nextId), cases); Numbered(f, cases, ids, rows)
  {
    hide KeysOf, WellFormed, Numbered, Allocated, AreBindings;
    var start := Ids(KeysOf(f, f.nextId), f.nextId);
    if cases == [] {
      NoneNumbered(f, start);
    } else {
      var n := |cases| - 1;
      IdsInOrder(f, cases[..n]);
      AllocationLaw(start, cases[..n]);
      NotYetAllocated(start, cases);
      KeysAreBindings(f, f.nextId);
      BindingsStayBelow(f);
      var (ids, rows) := AllocateAll(start, cases[..n]);
      BindingOf(f, start.byKey, cases[n].key);
      NumberOneMore(f, cases, ids, rows);
    }
  }

  lemma NoneNumbered(f: Fixture, start: Ids)
    requires start.next == f.nextId
    ensures var (ids, rows) := AllocateAll(start, []); Numbered(f, [], ids, rows)
  {
  }

  lemma BindingOf(f: Fixture, keys: map<string, nat>, key: string)
    requires AreBindings(f, keys, f.nextId) && forall k, id: nat :: Bound(f, k, id) ==> id < f.nextId
    ensures key in keys ==> Bound(f, key, keys[key])
    ensures key !in keys ==> forall id :: !Bound(f, key, id)
  {
  }

  lemma NumberOneMore(f: Fixture, cases: seq<Case>, ids: Ids, rows: seq<Row>)
    requires cases != [] && Numbered(f, cases[..|cases| - 1], ids, rows)
    requires var key := cases[|cases| - 1].key;
             && (key in ids.byKey ==> Bound(f, key, ids.byKey[key]))
             && (key !in ids.byKey ==> forall id :: !Bound(f, key, id))
    ensures var (after, row) := Allocate(ids, cases[|cases| - 1]); Numbered(f, cases, after, rows + [row])
  {
    hide Bound;
    var n := |cases| - 1;
    assert forall i :: 0 <= i < n ==> cases[..n][i] == cases[i] && cases[..n][..i] == cases[..i];
    forall i: nat | i < n ensures IdIs(f, cases, i, rows[i].id) {
      assert IdIs(f, cases[..n], i, rows[i].id);
    }
  }

  /** A key of the last case is in the Map by then only if it was from the start. */
  lemma NotYetAllocated(start: Ids, cases: seq<Case>)
    requires cases != [] && DistinctKeys(cases)
    requires var (ids, rows) := AllocateAll(start, cases[..|cases| - 1]);
             Allocated(start, ids, cases[..|cases| - 1], rows)
    ensures var ids, key := AllocateAll(start, cases[..|cases| - 1]).0, cases[|cases| - 1].key;
            && (key in ids.byKey <==> key in start.byKey)
            && (key in start.byKey ==> ids.byKey[key] == start.byKey[key])
  {
    hide AllocateAll;
  }

  /** The i-th case's own entry stands at the id that is its. */
  ghost predicate Stands(f: Fixture, s: Source, g: Fixture, i: nat)
    requires i < |s.cases|
  {
    exists id :: IdIs(f, s.cases, i, id) && id in g.cases && Tells(g.cases[id], s.cases[i], s.tier)
  }

  /**
   * One source: every case's entry stands at its own id with its own content,
   * keys keeping theirs and the others, keyless ones among them, numbered on
   * from nextId in the order they are listed; nextId moves on by as many.
   */
  lemma CasesAreNumberedInOrder(f: Fixture, s: Source)
    requires WellFormed(f) && DistinctKeys(s.cases)
    ensures TakeSource(f, s).Some?
    ensures var g := TakeSource(f, s).value;
            && g.nextId == f.nextId + Unbound(f, s.cases)
            && forall i :: 0 <= i < |s.cases| ==> Stands(f, s, g, i)
  {
    hide AllocateAll, Write, KeysOf, NamesKey, IdIs, WellFormed, Tells, DistinctKeys;
    var start := Ids(KeysOf(f, f.nextId), f.nextId);
    var (ids, rows) := AllocateAll(start, s.cases);
    var g := TakeSource(f, s).value;
    IdsInOrder(f, s.cases);
    SourceMerges(f, s, start, ids, rows, g);
    MergedRows(f, s, start, ids, rows, g);
    forall i | 0 <= i < |s.cases|
      ensures Stands(f, s, g, i)
    {
      EntryTells(g.cases[rows[i].id], s.cases[i], s.tier);
      assert IdIs(f, s.cases, i, rows[i].id);
    }
  }

  /** Nothing is written if and only if some source lists a key twice. */
  lemma {:induction false} ThrowsIffAKeyRepeats(f: Fixture, sources: seq<Source>)
    ensures TakeAll(f, sources).None?
            <==> exists k, i, j :: 0 <= k < |sources| && 0 <= i < j < |sources[k].cases|
                                   && sources[k].cases[i].key == sources[k].cases[j].key
  {
    hide AllocateAll, Write, KeysOf;
    if sources != [] {
      var n := |sources| - 1;
      ThrowsIffAKeyRepeats(f, sources[..n]);
      assert forall k :: 0 <= k < n ==> sources[..n][k] == sources[k];
      if k, i, j :| 0 <= k < |sources| && 0 <= i < j < |sources[k].cases|
                    && sources[k].cases[i].key == sources[k].cases[j].key && k < n {
        assert sources[..n][k].cases[i].key == sources[..n][k].cases[j].key;
      }
    }
  }

  // ---------------------------------------------------------------- any sequence of catalogues

  /**
   * Over any sequence of catalogues: an id once bound to a key stays bound to
   * it and to no other, so a key dropped and brought back finds its old id;
   * entries without a key are never touched; ids stay below nextId.
   */
  lemma {:induction false} BindingsAreForever(f: Fixture, sources: seq<Source>)
    requires WellFormed(f) && TakeAll(f, sources).Some?
    ensures var g := TakeAll(f, sources).value;
            && WellFormed(g) && g.nextId >= f.nextId
            && (forall k, id :: Bound(f, k, id) ==> Bound(g, k, id))
            && (forall k, id, other :: Bound(f, k, id) && Bound(g, other, id) ==> other == k)
            && (forall id :: id in f.cases && f.cases[id].key == "" ==> id in g.cases && g.cases[id] == f.cases[id])
  {
    hide TakeSource;
    if sources != [] {
      var n := |sources| - 1;
      BindingsAreForever(f, sources[..n]);
      SourceIsDistinct(f, sources);
      var before := TakeAll(f, sources[..n]).value;
      TakeSourceKeepsOrder(before, sources[n]);
      forall id | id in f.cases && f.cases[id].key == ""
        ensures id in TakeAll(f, sources).value.cases && TakeAll(f, sources).value.cases[id] == f.cases[id]
      {
        assert EntryLaw(before, sources[n], TakeAll(f, sources).value, id);
      }
    }
  }

  lemma SourceIsDistinct(f: Fixture, sources: seq<Source>)
    requires sources != [] && TakeAll(f, sources).Some?
    ensures DistinctKeys(sources[|sources| - 1].cases)
  {
  }

  // ---------------------------------------------------------------- running twice

  /** Every case of the source has a key. */
  ghost predicate KeyedCases(s: Source) { forall i :: 0 <= i < |s.cases| ==> s.cases[i].key != "" }

  ghost predicate AllKeyed(sources: seq<Source>) { forall s :: s in sources ==> KeyedCases(s) }

  function FindCase(cases: seq<Case>, key: string): (r: Option<Case>)
    ensures r.Some? <==> exists i :: 0 <= i < |cases| && cases[i].key == key
    ensures r.Some? ==> r.value in cases && r.value.key == key
  {
    if cases == [] then None
    else if cases[|cases| - 1].key == key then Some(cases[|cases| - 1])
    else FindCase(cases[..|cases| - 1], key)
  }

  /** What a source makes of an entry: its own case with that key, or the entry as it was. */
  function Rewrite(e: Entry, s: Source): Entry {
    if e.key != "" && FindCase(s.cases, e.key).Some? then EntryOf(FindCase(s.cases, e.key).value, s.tier) else e
  }

  function RewriteAll(e: Entry, sources: seq<Source>): (r: Entry)
    ensures r.key == e.key
  {
    if sources == [] then e else Rewrite(RewriteAll(e, sources[..|sources| - 1]), sources[|sources| - 1])
  }

  /** After a source, every entry is already what the source makes of it. */
  lemma EntriesAreSettled(f: Fixture, s: Source)
    requires WellFormed(f) && DistinctKeys(s.cases) && KeyedCases(s)
    ensures var g := TakeSource(f, s).value;
            forall id :: id in g.cases ==> Rewrite(g.cases[id], s) == g.cases[id]
  {
    hide TakeSource;
    TakeSourceKeepsOrder(f, s);
    var g := TakeSource(f, s).value;
    forall id | id in g.cases ensures Rewrite(g.cases[id], s) == g.cases[id] {
      EntryIsSettled(g, s, id);
    }
  }

  lemma EntryIsSettled(g: Fixture, s: Source, id: nat)
    requires WellFormed(g) && id in g.cases && forall i :: 0 <= i < |s.cases| ==> Holds(g, s.cases[i], s.tier)
    ensures Rewrite(g.cases[id], s) == g.cases[id]
  {
    var key := g.cases[id].key;
    if key != "" && FindCase(s.cases, key).Some? {
      var item := FindCase(s.cases, key).value;
      var i :| 0 <= i < |s.cases| && s.cases[i] == item;
      assert Holds(g, s.cases[i], s.tier);
    }
  }

  /** Every entry is what rewriting it with all of these sources would give, and every key they name is bound. */
  ghost predicate Settled(g: Fixture, sources: seq<Source>) {
    && (forall id :: id in g.cases ==> RewriteAll(g.cases[id], sources) == g.cases[id])
    && (forall i, j :: 0 <= i < |sources| && 0 <= j < |sources[i].cases| ==> IsBound(g, sources[i].cases[j].key))
  }

  ghost predicate IsBound(g: Fixture, key: string) { exists id :: Bound(g, key, id) }

  lemma {:induction false} FirstRunSettles(f: Fixture, sources: seq<Source>)
    requires WellFormed(f) && AllKeyed(sources) && TakeAll(f, sources).Some?
    ensures WellFormed(TakeAll(f, sources).value) && Settled(TakeAll(f, sources).value, sources)
  {
    hide TakeSource, Settled;
    BindingsAreForever(f, sources);
    if sources == [] {
      NothingToSettle(f);
    } else {
      var n := |sources| - 1;
      FirstRunSettles(f, sources[..n]);
      SourceIsDistinct(f, sources);
      SettleOneMore(TakeAll(f, sources[..n]).value, sources);
    }
  }

  lemma NothingToSettle(f: Fixture)
    ensures Settled(f, [])
  {
  }

  lemma SettleOneMore(before: Fixture, sources: seq<Source>)
    requires sources != [] && WellFormed(before) && AllKeyed(sources)
    requires Settled(before, sources[..|sources| - 1]) && DistinctKeys(sources[|sources| - 1].cases)
    ensures TakeSource(before, sources[|sources| - 1]).Some?
    ensures Settled(TakeSource(before, sources[|sources| - 1]).value, sources)
  {
    hide TakeSource, Rewrite, FindCase, RewriteAll, Holds, NamesKey, WellFormed, IsBound;
    var n := |sources| - 1;
    var s := sources[n];
    TakeSourceKeepsOrder(before, s);
    var g := TakeSource(before, s).value;
    EntriesAreSettled(before, s);
    forall id | id in g.cases ensures RewriteAll(g.cases[id], sources) == g.cases[id] {
      assert EntryLaw(before, s, g, id);
      if !(id in before.cases && before.cases[id] == g.cases[id]) {
        NamedIsKeyed(s, g.cases[id].key);
      }
      SettledEntry(g.cases[id], sources, id in before.cases && before.cases[id] == g.cases[id]);
    }
    forall i, j | 0 <= i < |sources| && 0 <= j < |sources[i].cases| ensures IsBound(g, sources[i].cases[j].key) {
      if i < n {
        assert sources[..n][i] == sources[i];
        StaysBound(before, g, sources[i].cases[j].key);
      } else {
        HeldIsBound(g, s.cases[j], s.tier);
      }
    }
  }

  lemma NamedIsKeyed(s: Source, key: string)
    requires KeyedCases(s) && NamesKey(s.cases, key)
    ensures key != ""
  {
  }

  lemma {:induction false} RewriteAllStep(e: Entry, sources: seq<Source>)
    requires sources != []
    ensures RewriteAll(e, sources) == Rewrite(RewriteAll(e, sources[..|sources| - 1]), sources[|sources| - 1])
    ensures RewriteAll(e, sources[..|sources| - 1]).key == e.key
  {
    hide Rewrite;
  }

  lemma {:induction false} SettledEntry(e: Entry, sources: seq<Source>, kept: bool)
    requires sources != [] && Rewrite(e, sources[|sources| - 1]) == e
    requires kept ==> RewriteAll(e, sources[..|sources| - 1]) == e
    requires kept || (e.key != "" && NamesKey(sources[|sources| - 1].cases, e.key))
    ensures RewriteAll(e, sources) == e
  {
    hide *;
    RewriteAllStep(e, sources);
    if !kept {
      LastWriterWins(RewriteAll(e, sources[..|sources| - 1]), e, sources[|sources| - 1]);
    }
  }

  lemma StaysBound(before: Fixture, g: Fixture, key: string)
    requires IsBound(before, key) && forall k, id :: Bound(before, k, id) ==> Bound(g, k, id)
    ensures IsBound(g, key)
  {
    var id :| Bound(before, key, id);
    assert Bound(g, key, id);
  }

  lemma HeldIsBound(g: Fixture, item: Case, tier: Option<string>)
    requires Holds(g, item, tier)
    ensures IsBound(g, item.key)
  {
  }

  lemma LastWriterWins(a: Entry, b: Entry, s: Source)
    requires a.key == b.key != "" && NamesKey(s.cases, a.key)
    ensures Rewrite(a, s) == Rewrite(b, s)
  {
  }

  ghost function RewriteEach(cases: map<nat, Entry>, s: Source): map<nat, Entry> {
    map id | id in cases :: Rewrite(cases[id], s)
  }

  ghost function Rewritten(x: Fixture, sources: seq<Source>): Fixture {
    Fixture(x.nextId, map id | id in x.cases :: RewriteAll(x.cases[id], sources))
  }

  lemma {:induction false} NoNewIds(ids: Ids, cases: seq<Case>)
    requires forall i :: 0 <= i < |cases| ==> cases[i].key in ids.byKey
    ensures AllocateAll(ids, cases).0 == ids
  {
    if cases != [] {
      NoNewIds(ids, cases[..|cases| - 1]);
    }
  }

  /** Taking in a source whose keys are all bound only rewrites entries in place. */
  lemma BoundSourceRewrites(x: Fixture, s: Source)
    requires WellFormed(x) && DistinctKeys(s.cases) && KeyedCases(s)
    requires forall j :: 0 <= j < |s.cases| ==> IsBound(x, s.cases[j].key)
    ensures TakeSource(x, s) == Some(Fixture(x.nextId, RewriteEach(x.cases, s)))
  {
    hide TakeSource, Rewrite, IsBound, FindCase, NamesKey, Holds;
    NextIdStays(x, s);
    TakeSourceKeepsOrder(x, s);
    EntriesAreSettled(x, s);
    var g := TakeSource(x, s).value;
    KeptIds(x, s, g);
    forall id | id in g.cases ensures g.cases[id] == Rewrite(x.cases[id], s) {
      assert EntryLaw(x, s, g, id);
      RewritesOneEntry(x, g, s, id);
    }
    assert g.cases == RewriteEach(x.cases, s);
  }

  lemma NextIdStays(x: Fixture, s: Source)
    requires WellFormed(x) && DistinctKeys(s.cases)
    requires forall j :: 0 <= j < |s.cases| ==> IsBound(x, s.cases[j].key)
    ensures TakeSource(x, s).Some? && TakeSource(x, s).value.nextId == x.nextId
  {
    hide KeysOf, Write, AllocateAll;
    KeysAreBindings(x, x.nextId);
    forall j | 0 <= j < |s.cases| ensures s.cases[j].key in KeysOf(x, x.nextId) {
      var id :| Bound(x, s.cases[j].key, id);
    }
    NoNewIds(Ids(KeysOf(x, x.nextId), x.nextId), s.cases);
  }

  lemma KeptIds(x: Fixture, s: Source, g: Fixture)
    requires WellFormed(g) && g.nextId == x.nextId
    requires forall id :: id in x.cases || id in g.cases ==> EntryLaw(x, s, g, id)
    ensures g.cases.Keys == x.cases.Keys
  {
    forall id | id in g.cases ensures id in x.cases {
      assert EntryLaw(x, s, g, id);
    }
    forall id | id in x.cases ensures id in g.cases {
      assert EntryLaw(x, s, g, id);
    }
  }

  lemma RewritesOneEntry(x: Fixture, g: Fixture, s: Source, id: nat)
    requires id in x.cases && EntryLaw(x, s, g, id) && Rewrite(g.cases[id], s) == g.cases[id]
    ensures g.cases[id] == Rewrite(x.cases[id], s)
  {
    if x.cases[id].key != "" && NamesKey(s.cases, x.cases[id].key) {
      LastWriterWins(g.cases[id], x.cases[id], s);
    }
  }

  lemma RewritingKeepsShape(x: Fixture, sources: seq<Source>)
    requires WellFormed(x)
    ensures WellFormed(Rewritten(x, sources))
    ensures forall k :: IsBound(x, k) ==> IsBound(Rewritten(x, sources), k)
  {
    forall k | IsBound(x, k) ensures IsBound(Rewritten(x, sources), k) {
      var id :| Bound(x, k, id);
      assert Bound(Rewritten(x, sources), k, id);
    }
  }

  lemma {:induction false} SecondRunRewrites(x: Fixture, sources: seq<Source>)
    requires WellFormed(x) && AllKeyed(sources) && forall s :: s in sources ==> DistinctKeys(s.cases)
    requires forall i, j :: 0 <= i < |sources| && 0 <= j < |sources[i].cases| ==> IsBound(x, sources[i].cases[j].key)
    ensures TakeAll(x, sources) == Some(Rewritten(x, sources))
  {
    hide TakeSource, Rewrite, IsBound, WellFormed;
    if sources == [] {
      assert Rewritten(x, sources).cases == x.cases;
    } else {
      var n := |sources| - 1;
      assert forall i :: 0 <= i < n ==> sources[..n][i] == sources[i];
      SecondRunRewrites(x, sources[..n]);
      RewritingKeepsShape(x, sources[..n]);
      assert sources[n] in sources;
      BoundSourceRewrites(Rewritten(x, sources[..n]), sources[n]);
      assert Rewritten(x, sources).cases == RewriteEach(Rewritten(x, sources[..n]).cases, sources[n]);
    }
  }

  lemma {:induction false} AllDistinct(f: Fixture, sources: seq<Source>)
    requires TakeAll(f, sources).Some?
    ensures forall s :: s in sources ==> DistinctKeys(s.cases)
  {
    if sources != [] {
      var n := |sources| - 1;
      AllDistinct(f, sources[..n]);
      assert sources == sources[..n] + [sources[n]];
    }
  }

  lemma RerunIsUnchanged(f: Fixture, sources: seq<Source>)
    requires WellFormed(f) && AllKeyed(sources) && TakeAll(f, sources).Some?
    ensures var g := TakeAll(f, sources).value; TakeAll(g, sources) == Some(g)
  {
    hide TakeAll, WellFormed;
    var g := TakeAll(f, sources).value;
    FirstRunSettles(f, sources);
    AllDistinct(f, sources);
    SecondRunRewrites(g, sources);
    assert Rewritten(g, sources).cases == g.cases;
  }

  lemma {:induction false} NoEmptyKey(f: Fixture, below: nat)
    ensures "" !in KeysOf(f, below)
  {
    if below > 0 {
      NoEmptyKey(f, below - 1);
    }
  }

  /** The Map never holds an empty key, so a case without one is given a fresh id. */
  lemma EmptyKeyTakesAnId(f: Fixture, s: Source)
    requires TakeSource(f, s).Some?
    ensures TakeSource(f, s).value.nextId >= f.nextId
    ensures !KeyedCases(s) ==> TakeSource(f, s).value.nextId > f.nextId
  {
    hide KeysOf, AllocateAll, Write, NamesKey;
    var start := Ids(KeysOf(f, f.nextId), f.nextId);
    AllocationLaw(start, s.cases);
    NoEmptyKey(f, f.nextId);
  }

  lemma {:induction false} EmptyKeyMovesNextId(f: Fixture, sources: seq<Source>)
    requires TakeAll(f, sources).Some?
    ensures TakeAll(f, sources).value.nextId >= f.nextId
    ensures !AllKeyed(sources) ==> TakeAll(f, sources).value.nextId > f.nextId
  {
    hide TakeSource, KeyedCases;
    if sources != [] {
      var n := |sources| - 1;
      EmptyKeyMovesNextId(f, sources[..n]);
      EmptyKeyTakesAnId(TakeAll(f, sources[..n]).value, sources[n]);
      assert sources == sources[..n] + [sources[n]];
    }
  }

  /**
   * Running again on the same catalogues leaves the fixture exactly as it is,
   * if and only if every case in them has a key: a case with an empty key is
   * taken for a new one on every run.
   */
  lemma RerunIsUnchangedIff(f: Fixture, sources: seq<Source>)
    requires WellFormed(f) && TakeAll(f, sources).Some?
    ensures var g := TakeAll(f, sources).value; TakeAll(g, sources) == Some(g) <==> AllKeyed(sources)
  {
    hide TakeAll, WellFormed, AllKeyed;
    var g := TakeAll(f, sources).value;
    if AllKeyed(sources) {
      RerunIsUnchanged(f, sources);
    } else if TakeAll(g, sources).Some? {
      EmptyKeyMovesNextId(g, sources);
    }
  }

  /** An instance: one case with an empty key takes id 1 on the first run and id 2 on the second. */
  lemma EmptyKeyTakesTwoIds()
    ensures var item, f := Case("", None, "body"), Fixture(1, map[]);
            var sources := [Source([item], None)];
            && WellFormed(f) && TakeAll(f, sources) == Some(Fixture(2, map[1 := Entry("", None, "body")]))
            && TakeAll(TakeAll(f, sources).value, sources)
               == Some(Fixture(3, map[1 := Entry("", None, "body"), 2 := Entry("", None, "body")]))
  {
    var item := Case("", None, "body");
    var s := Source([item], None);
    assert [s][..0] == [];
    TakesOne(Fixture(1, map[]), s);
    TakesOne(Fixture(2, map[1 := EntryOf(item, None)]), s);
  }

  lemma TakesOne(f: Fixture, s: Source)
    requires |s.cases| == 1 && s.cases[0].key == ""
    ensures TakeSource(f, s) == Some(Fixture(f.nextId + 1, f.cases[f.nextId := EntryOf(s.cases[0], s.tier)]))
  {
    hide KeysOf, EntryOf, AllocateAll, Write;
    var ids := Ids(KeysOf(f, f.nextId), f.nextId);
    NoEmptyKey(f, f.nextId);
    OneAllocated(ids, s.cases);
    OneWritten(f.cases, Row(f.nextId, s.cases[0]), s.tier);
  }

  lemma {:induction false} OneAllocated(ids: Ids, cases: seq<Case>)
    requires |cases| == 1 && cases[0].key !in ids.byKey
    ensures AllocateAll(ids, cases)
            == (Ids(ids.byKey[cases[0].key := ids.next], ids.next + 1), [Row(ids.next, cases[0])])
  {
    assert cases[..|cases| - 1] == [];
    assert AllocateAll(ids, []) == (ids, []);
    var (after, row) := Allocate(ids, cases[0]);
    assert AllocateAll(ids, cases) == (after, [] + [row]);
    assert [] + [row] == [row];
  }

  lemma {:induction false} OneWritten(cases: map<nat, Entry>, row: Row, tier: Option<string>)
    ensures Write(cases, [row], tier) == cases[row.id := EntryOf(row.item, tier)]
  {
    hide EntryOf;
    assert [row][..0] == [];
    assert Write(cases, [row][..0], tier) == cases;
  }
}
