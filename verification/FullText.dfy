/**
  The event store across loads, failures and crashes: Load in internal/deployment/loader.go, and the full-text
  index and the event indexes of the Store in internal/database/database.go.
 */
module FullText {
  import opened SetFacts
  import opened Wrappers

  datatype Dataset = Dataset(id: nat, name: string, signature: string)

  /** An event with the text that its row in the full-text index holds. */
  datatype Event = Event(dataset: nat, body: string)

  /** What is in the database file: a transaction takes it from one state to the next, or leaves it. */
  datatype Db = Db(
    datasets: seq<Dataset>,
    events: map<nat, Event>,
    fts: Option<map<nat, string>>,
    ordinary: set<string>,
    indexes: map<nat, string>)

  /** The ordinary indexes on the events, and those that earlier versions have created. */
  const ORDINARY: seq<string> := ["idx_events_time", "idx_events_source_time", "idx_events_dataset_time"]
  const DROPPED: seq<string> := [
    "idx_events_time", "idx_events_source_time", "idx_events_type_time", "idx_events_host_time",
    "idx_events_host_dataset", "idx_events_user_time", "idx_events_dataset_time"]

  function Listed(names: seq<string>): set<string> {
    set i | 0 <= i < |names| :: names[i]
  }

  ghost function Bodies(events: map<nat, Event>): map<nat, string> {
    map id | id in events :: events[id].body
  }

  /** The full-text index, if there is one, has exactly one row for every event, with the event's text. */
  ghost predicate Agrees(db: Db) {
    db.fts.Some? ==> db.fts.value == Bodies(db.events)
  }

  /** Dataset ids are unique, and every event belongs to a dataset that is there. */
  ghost predicate Referential(datasets: seq<Dataset>, events: map<nat, Event>) {
    (forall d, e :: d in datasets && e in datasets && d.id == e.id ==> d == e) &&
    forall k :: k in events ==> Owned(datasets, events[k].dataset)
  }

  /** The events of one dataset. */
  ghost function EventsOf(events: map<nat, Event>, dataset: nat): map<nat, Event> {
    map k | k in events && events[k].dataset == dataset :: events[k]
  }

  /** The events of a dataset are those of a file: one row for each of its texts, and no others. */
  ghost predicate Holds(events: map<nat, Event>, dataset: nat, bodies: seq<string>) {
    exists ids: seq<nat> :: Rows(events, dataset, bodies, ids)
  }

  ghost predicate Rows(events: map<nat, Event>, dataset: nat, bodies: seq<string>, ids: seq<nat>) {
    |ids| == |bodies| && (forall i, j :: 0 <= i < j < |ids| ==> ids[i] != ids[j]) &&
    (forall i :: 0 <= i < |ids| ==> ids[i] in events && events[ids[i]] == Event(dataset, bodies[i])) &&
    forall k :: k in events && events[k].dataset == dataset ==> k in ids
  }

  /** The datasets of that name are still there, each with the events that it had. */
  ghost predicate Keeps(before: Db, after: Db, name: string) {
    forall d :: d in before.datasets && d.name == name ==>
      d in after.datasets && EventsOf(after.events, d.id) == EventsOf(before.events, d.id)
  }

  ghost function Names(datasets: seq<Dataset>): set<string> {
    set i | 0 <= i < |datasets| :: datasets[i].name
  }

  /** A dataset as the manifest configures it, with the events that its file holds. */
  datatype Prepared = Prepared(name: string, signature: string, bodies: seq<string>)

  ghost predicate DistinctNames(prepared: seq<Prepared>) {
    forall i, j :: 0 <= i < j < |prepared| ==> prepared[i].name != prepared[j].name
  }

  ghost predicate Present(datasets: seq<Dataset>, p: Prepared) {
    exists i :: 0 <= i < |datasets| && datasets[i].name == p.name && datasets[i].signature == p.signature
  }

  function ConfiguredNames(prepared: seq<Prepared>): (names: set<string>)
    ensures forall i :: 0 <= i < |prepared| ==> prepared[i].name in names
    ensures forall n :: n in names ==> exists i :: 0 <= i < |prepared| && prepared[i].name == n
  {
    set i | 0 <= i < |prepared| :: prepared[i].name
  }

  // ----- Deleting datasets -------------------------------------------------------------------

  function Retained(datasets: seq<Dataset>, names: set<string>): seq<Dataset> {
    if datasets == [] then []
    else (if datasets[0].name in names then [datasets[0]] else []) + Retained(datasets[1..], names)
  }

  function Without(datasets: seq<Dataset>, name: string): seq<Dataset> {
    if datasets == [] then []
    else (if datasets[0].name != name then [datasets[0]] else []) + Without(datasets[1..], name)
  }

  function Ids(datasets: seq<Dataset>): set<nat> {
    set i | 0 <= i < |datasets| :: datasets[i].id
  }

  /** ON DELETE CASCADE: the events of the datasets that are gone go with them. */
  function Cascade(events: map<nat, Event>, gone: set<nat>): map<nat, Event> {
    map id | id in events && events[id].dataset !in gone :: events[id]
  }

  lemma ListedOneMore(names: seq<string>, i: nat)
    requires i < |names|
    ensures Listed(names[..i + 1]) == Listed(names[..i]) + {names[i]}
  {
    assert forall k :: 0 <= k < i ==> names[..i][k] == names[..i + 1][k];
    assert names[..i + 1][i] == names[i];
  }

  lemma {:induction false} RetainedIs(datasets: seq<Dataset>, names: set<string>)
    ensures forall d :: d in Retained(datasets, names) <==> d in datasets && d.name in names
  {
    if datasets != [] {
      RetainedIs(datasets[1..], names);
      assert datasets == [datasets[0]] + datasets[1..];
    }
  }

  lemma {:induction false} AllRetained(datasets: seq<Dataset>, names: set<string>)
    requires forall i :: 0 <= i < |datasets| ==> datasets[i].name in names
    ensures Retained(datasets, names) == datasets
  {
    if datasets != [] {
      AllRetained(datasets[1..], names);
    }
  }

  lemma {:induction false} WithoutIs(datasets: seq<Dataset>, name: string)
    ensures forall d :: d in Without(datasets, name) <==> d in datasets && d.name != name
  {
    if datasets != [] {
      WithoutIs(datasets[1..], name);
      assert datasets == [datasets[0]] + datasets[1..];
    }
  }

  lemma IdsAre(datasets: seq<Dataset>, id: nat)
    ensures id in Ids(datasets) <==> exists d :: d in datasets && d.id == id
  {
    if id in Ids(datasets) {
      var i :| 0 <= i < |datasets| && datasets[i].id == id;
      assert datasets[i] in datasets;
    }
    if d :| d in datasets && d.id == id {
      var i :| 0 <= i < |datasets| && datasets[i] == d;
    }
  }

  ghost predicate Owned(datasets: seq<Dataset>, dataset: nat) {
    exists d :: d in datasets && d.id == dataset
  }

  /** Datasets go with their events, and the others keep theirs. */
  lemma CascadeIs(before: Db, kept: seq<Dataset>, events: map<nat, Event>)
    requires Referential(before.datasets, before.events)
    requires events == Cascade(before.events, Ids(before.datasets) - Ids(kept))
    ensures forall k :: k in events <==> k in before.events && Owned(kept, before.events[k].dataset)
    ensures forall k :: k in events ==> events[k] == before.events[k]
  {
    hide Ids;
    forall k | k in before.events
      ensures k in events <==> Owned(kept, before.events[k].dataset)
    {
      IdsAre(before.datasets, before.events[k].dataset);
      IdsAre(kept, before.events[k].dataset);
    }
  }

  lemma CascadeKeeps(before: Db, kept: seq<Dataset>, events: map<nat, Event>)
    requires Referential(before.datasets, before.events) && forall d :: d in kept ==> d in before.datasets
    requires events == Cascade(before.events, Ids(before.datasets) - Ids(kept))
    ensures Referential(kept, events)
    ensures forall d :: d in kept ==> EventsOf(events, d.id) == EventsOf(before.events, d.id)
  {
    CascadeIs(before, kept, events);
    hide Cascade, Ids;
    forall d | d in kept
      ensures EventsOf(events, d.id) == EventsOf(before.events, d.id)
    {
      assert forall k :: k in before.events && before.events[k].dataset == d.id ==>
                           Owned(kept, before.events[k].dataset);
    }
    hide EventsOf;
  }

  lemma {:induction false} NamesCount(datasets: seq<Dataset>)
    ensures |Names(datasets)| <= |datasets|
  {
    if datasets != [] {
      var front, last := datasets[..|datasets| - 1], datasets[|datasets| - 1];
      NamesCount(front);
      assert datasets == front + [last];
      assert Names(datasets) == Names(front) + {last.name};
    }
  }

  lemma {:induction false} ConfiguredCount(prepared: seq<Prepared>)
    requires DistinctNames(prepared)
    ensures |ConfiguredNames(prepared)| == |prepared|
  {
    if prepared != [] {
      var front, last := prepared[..|prepared| - 1], prepared[|prepared| - 1];
      ConfiguredCount(front);
      assert prepared == front + [last];
      assert ConfiguredNames(prepared) == ConfiguredNames(front) + {last.name};
      assert last.name !in ConfiguredNames(front);
    }
  }

  /**
    As many datasets as are configured, and each configured one among them: then no other dataset is there,
    even if the table allows two datasets of one name.
   */
  lemma UnchangedStorage(datasets: seq<Dataset>, prepared: seq<Prepared>)
    requires |datasets| == |prepared| && DistinctNames(prepared)
    requires forall i :: 0 <= i < |prepared| ==> Present(datasets, prepared[i])
    ensures Names(datasets) == ConfiguredNames(prepared)
    ensures Retained(datasets, ConfiguredNames(prepared)) == datasets
  {
    var have, want := Names(datasets), ConfiguredNames(prepared);
    NamesCount(datasets);
    ConfiguredCount(prepared);
    assert want <= have by {
      forall n | n in want
        ensures n in have
      {
        var i :| 0 <= i < |prepared| && prepared[i].name == n;
        assert Present(datasets, prepared[i]);
      }
    }
    SubsetOfSameSize(want, have);
    assert forall i :: 0 <= i < |datasets| ==> datasets[i].name in have;
    hide Names, ConfiguredNames;
    AllRetained(datasets, want);
  }

  // ----- Importing a dataset ---------------------------------------------------------------------

  function Removed(datasets: seq<Dataset>, name: string): set<nat> {
    Ids(datasets) - Ids(Without(datasets, name))
  }

  function NewEvents(dataset: nat, ids: seq<nat>, bodies: seq<string>): map<nat, Event>
    requires |ids| == |bodies|
  {
    if ids == [] then map[] else NewEvents(dataset, ids[1..], bodies[1..])[ids[0] := Event(dataset, bodies[0])]
  }

  /** Row ids that no row has. */
  predicate FreshIds(db: Db, p: Prepared, id: nat, ids: seq<nat>) {
    |ids| == |p.bodies| && id !in Ids(Without(db.datasets, p.name)) &&
    (forall i :: 0 <= i < |ids| ==> ids[i] !in Cascade(db.events, Removed(db.datasets, p.name))) &&
    forall i, j :: 0 <= i < j < |ids| ==> ids[i] != ids[j]
  }

  /** The transaction of an import: the dataset of that name is replaced together with its events. */
  function Imported(db: Db, p: Prepared, id: nat, ids: seq<nat>): Db
    requires FreshIds(db, p, id, ids)
  {
    db.(datasets := Without(db.datasets, p.name) + [Dataset(id, p.name, p.signature)],
        events := Cascade(db.events, Removed(db.datasets, p.name)) + NewEvents(id, ids, p.bodies))
  }

  /** What an import does: another dataset takes the place of those of its name, with the events of its file. */
  ghost predicate Replaces(before: Db, after: Db, p: Prepared, id: nat) {
    (forall d :: d in after.datasets <==>
       (d in before.datasets && d.name != p.name) || d == Dataset(id, p.name, p.signature)) &&
    Holds(after.events, id, p.bodies) &&
    (forall n :: n != p.name ==> Keeps(before, after, n)) &&
    after == before.(datasets := after.datasets, events := after.events)
  }

  lemma {:induction false} NewEventsAt(dataset: nat, ids: seq<nat>, bodies: seq<string>, i: nat)
    requires |ids| == |bodies| && i < |ids| && forall i, j :: 0 <= i < j < |ids| ==> ids[i] != ids[j]
    ensures ids[i] in NewEvents(dataset, ids, bodies)
    ensures NewEvents(dataset, ids, bodies)[ids[i]] == Event(dataset, bodies[i])
  {
    if i > 0 {
      NewEventsAt(dataset, ids[1..], bodies[1..], i - 1);
    }
  }

  /** What an import leaves in place. */
  lemma Staying(before: Db, p: Prepared, stay: map<nat, Event>)
    requires Referential(before.datasets, before.events)
    requires stay == Cascade(before.events, Removed(before.datasets, p.name))
    ensures var rest := Without(before.datasets, p.name);
            Referential(rest, stay) && (forall d :: d in rest <==> d in before.datasets && d.name != p.name) &&
            forall d :: d in rest ==> EventsOf(stay, d.id) == EventsOf(before.events, d.id)
  {
    var rest := Without(before.datasets, p.name);
    WithoutIs(before.datasets, p.name);
    hide Referential, Without, EventsOf, Cascade, Ids;
    CascadeKeeps(before, rest, stay);
  }

  /** One more dataset with its events beside others. */
  lemma Joining(rest: seq<Dataset>, stay: map<nat, Event>, d: Dataset, after: map<nat, Event>, ids: seq<nat>)
    requires Referential(rest, stay) && d.id !in Ids(rest)
    requires forall k :: k in after ==> (k in stay && after[k] == stay[k]) || (k in ids && after[k].dataset == d.id)
    requires forall k :: k in stay ==> k in after && after[k] == stay[k]
    ensures Referential(rest + [d], after)
    ensures forall e :: e in rest ==> EventsOf(after, e.id) == EventsOf(stay, e.id)
  {
    IdsAre(rest, d.id);
    hide Ids;
    forall k | k in after
      ensures Owned(rest + [d], after[k].dataset)
    {
      if k in stay {
        var e :| e in rest && e.id == stay[k].dataset;
        assert e in rest + [d];
      } else {
        assert d in rest + [d];
      }
    }
    forall e | e in rest
      ensures EventsOf(after, e.id) == EventsOf(stay, e.id)
    {
      assert e.id != d.id;
    }
  }

  lemma Outside(rest: seq<Dataset>, stay: map<nat, Event>, id: nat)
    requires Referential(rest, stay) && id !in Ids(rest)
    ensures forall k :: k in stay ==> stay[k].dataset != id
  {
    IdsAre(rest, id);
  }

  lemma ImportReplaces(before: Db, p: Prepared, id: nat, ids: seq<nat>)
    requires FreshIds(before, p, id, ids) && Referential(before.datasets, before.events)
    ensures Replaces(before, Imported(before, p, id, ids), p, id)
    ensures Referential(Imported(before, p, id, ids).datasets, Imported(before, p, id, ids).events)
  {
    hide Removed, Cascade, NewEvents, Ids, Referential, Without, EventsOf, Holds;
    var rest, after := Without(before.datasets, p.name), Imported(before, p, id, ids);
    var stay, d := Cascade(before.events, Removed(before.datasets, p.name)), Dataset(id, p.name, p.signature);
    Staying(before, p, stay);
    Outside(rest, stay, id);
    ImportedRows(stay, p, id, ids, after.events);
    Joining(rest, stay, d, after.events, ids);
    ReplacesIs(before, after, p, d, rest, stay);
  }

  lemma ReplacesIs(before: Db, after: Db, p: Prepared, d: Dataset, rest: seq<Dataset>, stay: map<nat, Event>)
    requires after == before.(datasets := rest + [d], events := after.events)
    requires d == Dataset(d.id, p.name, p.signature) && Holds(after.events, d.id, p.bodies)
    requires forall e :: e in rest <==> e in before.datasets && e.name != p.name
    requires forall e :: e in rest ==> EventsOf(stay, e.id) == EventsOf(before.events, e.id)
    requires forall e :: e in rest ==> EventsOf(after.events, e.id) == EventsOf(stay, e.id)
    ensures Replaces(before, after, p, d.id)
  {
    hide EventsOf, Holds;
  }

  lemma ImportedRows(stay: map<nat, Event>, p: Prepared, id: nat, ids: seq<nat>, after: map<nat, Event>)
    requires |ids| == |p.bodies| && (forall i, j :: 0 <= i < j < |ids| ==> ids[i] != ids[j])
    requires (forall i :: 0 <= i < |ids| ==> ids[i] !in stay) && (forall k :: k in stay ==> stay[k].dataset != id)
    requires after == stay + NewEvents(id, ids, p.bodies)
    ensures Holds(after, id, p.bodies)
    ensures forall k :: k in after ==> (k in stay && after[k] == stay[k]) || (k in ids && after[k].dataset == id)
    ensures forall k :: k in stay ==> k in after && after[k] == stay[k]
  {
    NewEventsAre(id, ids, p.bodies);
    forall i | 0 <= i < |ids|
      ensures ids[i] in after && after[ids[i]] == Event(id, p.bodies[i])
    {
      NewEventsAt(id, ids, p.bodies, i);
    }
    hide NewEvents;
    assert forall k :: k in stay ==> k !in ids;
    assert Rows(after, id, p.bodies, ids);
  }

  /** The events that an import removes: those of the datasets of that name. */
  function Leaving(db: Db, p: Prepared): map<nat, Event> {
    map id | id in db.events && db.events[id].dataset in Removed(db.datasets, p.name) :: db.events[id]
  }

  lemma {:induction false} NewEventsAre(dataset: nat, ids: seq<nat>, bodies: seq<string>)
    requires |ids| == |bodies| && forall i, j :: 0 <= i < j < |ids| ==> ids[i] != ids[j]
    ensures forall id :: id in NewEvents(dataset, ids, bodies) <==> id in ids
    ensures |NewEvents(dataset, ids, bodies)| == |ids|
  {
    if ids != [] {
      NewEventsAre(dataset, ids[1..], bodies[1..]);
      assert ids == [ids[0]] + ids[1..];
      var rest := NewEvents(dataset, ids[1..], bodies[1..]);
      assert ids[0] !in rest;
      assert NewEvents(dataset, ids, bodies).Keys == rest.Keys + {ids[0]};
    }
  }

  lemma BodiesOfSum(a: map<nat, Event>, b: map<nat, Event>)
    ensures Bodies(a + b) == Bodies(a) + Bodies(b)
  {}

  /** The index over the events that stay, over those that leave, and over those that come. */
  lemma BodiesOfImported(db: Db, p: Prepared, id: nat, ids: seq<nat>)
    requires FreshIds(db, p, id, ids)
    ensures var stay := Bodies(Cascade(db.events, Removed(db.datasets, p.name)));
            var leave, come := Bodies(Leaving(db, p)), Bodies(NewEvents(id, ids, p.bodies));
            Bodies(db.events) == stay + leave && Bodies(Imported(db, p, id, ids).events) == stay + come &&
            stay.Keys !! leave.Keys && stay.Keys !! come.Keys
  {
    var stay, leave := Cascade(db.events, Removed(db.datasets, p.name)), Leaving(db, p);
    var come := NewEvents(id, ids, p.bodies);
    StayAndLeave(db, p);
    NewEventsAre(id, ids, p.bodies);
    assert stay.Keys !! come.Keys;
    assert Imported(db, p, id, ids).events == stay + come;
    hide *;
    BodiesOfSum(stay, leave);
    BodiesOfSum(stay, come);
    BodiesKeys(stay);
    BodiesKeys(leave);
    BodiesKeys(come);
  }

  lemma BodiesKeys(events: map<nat, Event>)
    ensures Bodies(events).Keys == events.Keys
  {}

  lemma StayAndLeave(db: Db, p: Prepared)
    ensures var stay := Cascade(db.events, Removed(db.datasets, p.name));
            db.events == stay + Leaving(db, p) && stay.Keys !! Leaving(db, p).Keys
  {
    hide Removed;
  }

  lemma SameRest(a: map<nat, string>, b: map<nat, string>, c: map<nat, string>)
    requires a.Keys !! b.Keys && a.Keys !! c.Keys
    ensures a + b == a + c <==> b == c
  {
    if a + b == a + c {
      assert forall k :: k in b <==> k in a + b && k !in a;
      assert forall k :: k in c <==> k in a + c && k !in a;
      assert forall k :: k in b ==> b[k] == (a + b)[k] == (a + c)[k] == c[k];
    }
  }

  /**
    An import does not touch the index. One into a store that has an index keeps the two in agreement if and
    only if the new events take over the very row ids and texts of those they replace.
   */
  lemma ImportAgreesIff(db: Db, p: Prepared, id: nat, ids: seq<nat>)
    requires Agrees(db) && FreshIds(db, p, id, ids)
    ensures Agrees(Imported(db, p, id, ids)) <==>
              db.fts.None? || Bodies(NewEvents(id, ids, p.bodies)) == Bodies(Leaving(db, p))
  {
    BodiesOfImported(db, p, id, ids);
    var stay := Bodies(Cascade(db.events, Removed(db.datasets, p.name)));
    var leave, come := Bodies(Leaving(db, p)), Bodies(NewEvents(id, ids, p.bodies));
    hide *;
    SameRest(stay, leave, come);
    AgreesIs(db);
    AgreesIs(Imported(db, p, id, ids));
    ImportKeepsIndex(db, p, id, ids);
  }

  lemma AgreesIs(db: Db)
    ensures Agrees(db) <==> (db.fts.Some? ==> db.fts.value == Bodies(db.events))
  {}

  lemma ImportKeepsIndex(db: Db, p: Prepared, id: nat, ids: seq<nat>)
    requires FreshIds(db, p, id, ids)
    ensures Imported(db, p, id, ids).fts == db.fts
  {}

  /** Another number of events always leaves the index stale. */
  lemma OtherNumberGoesStale(db: Db, p: Prepared, id: nat, ids: seq<nat>)
    requires Agrees(db) && FreshIds(db, p, id, ids) && db.fts.Some? && |p.bodies| != |Leaving(db, p)|
    ensures !Agrees(Imported(db, p, id, ids))
  {
    ImportAgreesIff(db, p, id, ids);
    NewEventsAre(id, ids, p.bodies);
    var come, leave := NewEvents(id, ids, p.bodies), Leaving(db, p);
    hide *;
    BodiesCount(come);
    BodiesCount(leave);
  }

  lemma BodiesCount(events: map<nat, Event>)
    ensures |Bodies(events)| == |events|
  {
    assert Bodies(events).Keys == events.Keys;
    assert |Bodies(events).Keys| == |Bodies(events)| && |events.Keys| == |events|;
  }

  /** The smallest case: the first event of all, imported into a store with an empty index. */
  lemma DirectImportGoesStale(db: Db, p: Prepared)
    requires db == Db([], map[], Some(map[]), {}, map[]) && |p.bodies| == 1
    ensures Agrees(db) && FreshIds(db, p, 1, [1]) && !Agrees(Imported(db, p, 1, [1]))
  {
    assert Leaving(db, p) == map[];
    OtherNumberGoesStale(db, p, 1, [1]);
  }

  // ----- The store ---------------------------------------------------------------------------------

  class Store {
    var db: Db
    var fullTextIndex: bool
    var fullTextReady: bool
    var fullTextDirty: bool
    var storageSet: bool
    var indexedPaths: seq<string>
    /** The statement that creates an expression index. */
    const sql: (nat, string) -> string
    /** The database after every transaction committed so far: what a crash may fall back to. */
    var log: seq<Db>
    /** How often something outside has failed: a transaction, a file, the parser, or the capabilities of SQLite. */
    ghost var faults: nat

    ghost predicate Logged()
      reads this
    {
      log != [] && log[|log| - 1] == db
    }

    /** At every transaction boundary so far the index agreed with the events, and the events with the datasets. */
    ghost predicate Sound()
      reads this
    {
      forall i :: 0 <= i < |log| ==> Agrees(log[i]) && Referential(log[i].datasets, log[i].events)
    }

    /** Moreover the index is in use only if it is there. */
    ghost predicate Valid()
      reads this
    {
      Logged() && Sound() && (fullTextReady ==> fullTextIndex && db.fts.Some?)
    }

    /** FullTextIndexEnabled */
    predicate Enabled()
      reads this
    {
      fullTextIndex && fullTextReady
    }

    /** Opening a database file that another process has left. */
    constructor (db: Db, sql: (nat, string) -> string)
      requires Agrees(db) && Referential(db.datasets, db.events)
      ensures Valid() && !Enabled() && this.db == db && log == [db] && this.sql == sql
    {
      this.db, this.sql, log := db, sql, [db];
      fullTextIndex, fullTextReady, fullTextDirty, storageSet, indexedPaths := false, false, false, false, [];
    }

    /** Refused for an invalid path or where SQLite lacks FTS5. */
    method ConfigureEventStorage(paths: seq<string>, fullText: bool) returns (ok: bool)
      modifies `faults, `fullTextIndex, `fullTextReady, `fullTextDirty, `storageSet, `indexedPaths
      ensures ok ==>
                fullTextIndex == fullText && !fullTextReady && !fullTextDirty && storageSet && indexedPaths == paths
      ensures !ok ==> faults > old(faults) && storageSet == old(storageSet) && fullTextIndex == old(fullTextIndex)
      ensures !ok ==> fullTextReady == old(fullTextReady) && fullTextDirty == old(fullTextDirty)
      ensures !ok ==> indexedPaths == old(indexedPaths)
      ensures ok ==> faults == old(faults)
    {
      ok := Succeeds();
      if ok {
        indexedPaths, fullTextIndex, fullTextReady, fullTextDirty, storageSet := paths, fullText, false, false, true;
      }
    }

    method MarkFullTextIndexDirty()
      modifies `fullTextReady, `fullTextDirty
      ensures fullTextReady == (old(fullTextReady) && !fullTextIndex)
      ensures fullTextDirty == (old(fullTextDirty) || fullTextIndex)
    {
      if fullTextIndex {
        fullTextReady, fullTextDirty := false, true;
      }
    }

    /** Something outside succeeds or fails. */
    method Succeeds() returns (ok: bool)
      modifies `faults
      ensures faults == old(faults) + if ok then 0 else 1
    {
      ok := *;
      if !ok {
        faults := faults + 1;
      }
    }

    /** A transaction commits, or fails and leaves the database as it is. */
    method Commit(next: Db) returns (ok: bool)
      requires Logged()
      modifies `faults, `db, `log
      ensures Logged()
      ensures ok ==> db == next && log == old(log) + [next]
      ensures !ok ==> db == old(db) && log == old(log)
      ensures faults == old(faults) + if ok then 0 else 1
    {
      ok := Succeeds();
      if ok {
        db, log := next, log + [next];
      }
    }

    method DropFullTextIndex() returns (ok: bool)
      requires Valid()
      modifies `faults, `db, `log, `fullTextReady
      ensures Valid() && old(log) <= log
      ensures ok ==> db == old(db).(fts := None) && !fullTextReady
      ensures !ok ==> db == old(db) && fullTextReady == old(fullTextReady)
      ensures faults >= old(faults) && (ok <==> faults == old(faults))
    {
      ok := Commit(db.(fts := None));
      if ok {
        fullTextReady := false;
      }
    }

    /** The index rebuilt from the events, or taken as it is when it is there and nothing says that it is stale. */
    method SyncFullTextIndex(rebuild: bool) returns (ok: bool)
      requires Valid()
      modifies `faults, `db, `log, `fullTextReady, `fullTextDirty
      ensures Valid() && old(log) <= log
      ensures db == old(db).(fts := db.fts)
      ensures ok ==> db.fts == if fullTextIndex then Some(Bodies(db.events)) else None
      ensures ok ==> Enabled() == fullTextIndex
      ensures !ok ==> db == old(db) && fullTextReady == old(fullTextReady)
      ensures faults >= old(faults) && (ok <==> faults == old(faults))
    {
      assert Agrees(log[|log| - 1]);
      if !fullTextIndex {
        ok := DropFullTextIndex();
        return;
      }
      var ready, dirty, again := fullTextReady, fullTextDirty, rebuild;
      if !again && ready {
        return true;
      }
      if dirty {
        again := true;
      }
      if !again && db.fts.Some? {
        fullTextReady := true;
        return true;
      }
      var rows := map id | id in db.events :: db.events[id].body;
      ok := Commit(db.(fts := Some(rows)));
      if ok {
        fullTextReady, fullTextDirty := true, false;
      }
    }

    /** Every statement is a transaction of its own, so that a failure may leave some indexes dropped. */
    method DropEventIndexes() returns (ok: bool)
      requires Valid()
      modifies `faults, `db, `log
      ensures Valid() && old(log) <= log
      ensures db == old(db).(ordinary := db.ordinary, indexes := db.indexes)
      ensures ok ==> db.ordinary == old(db).ordinary - Listed(DROPPED) && db.indexes == map[]
      ensures db.ordinary <= old(db).ordinary && db.indexes.Keys <= old(db).indexes.Keys
      ensures faults >= old(faults) && (ok <==> faults == old(faults))
    {
      assert Agrees(log[|log| - 1]);
      ok := DropOrdinary();
      var remaining := db.indexes.Keys;
      while ok && remaining != {}
        invariant faults >= old(faults) && (ok <==> faults == old(faults))
        invariant Valid() && old(log) <= log && remaining <= db.indexes.Keys <= old(db).indexes.Keys
        invariant db == old(db).(ordinary := db.ordinary, indexes := db.indexes)
        invariant db.ordinary <= old(db).ordinary
        invariant ok ==> remaining == db.indexes.Keys && db.ordinary == old(db).ordinary - Listed(DROPPED)
        decreases remaining
      {
        assert Agrees(log[|log| - 1]);
        var i :| i in remaining;
        ok := Commit(db.(indexes := db.indexes - {i}));
        remaining := remaining - {i};
      }
    }

    method DropOrdinary() returns (ok: bool)
      requires Valid()
      modifies `faults, `db, `log
      ensures Valid() && old(log) <= log && db == old(db).(ordinary := db.ordinary)
      ensures ok ==> db.ordinary == old(db).ordinary - Listed(DROPPED)
      ensures db.ordinary <= old(db).ordinary
      ensures faults >= old(faults) && (ok <==> faults == old(faults))
    {
      ok := true;
      var i := 0;
      while ok && i < |DROPPED|
        invariant faults >= old(faults) && (ok <==> faults == old(faults))
        invariant Valid() && old(log) <= log && db == old(db).(ordinary := db.ordinary) && 0 <= i <= |DROPPED|
        invariant db.ordinary <= old(db).ordinary
        invariant ok ==> db.ordinary == old(db).ordinary - Listed(DROPPED[..i])
      {
        assert Agrees(log[|log| - 1]);
        ListedOneMore(DROPPED, i);
        ok := Commit(db.(ordinary := db.ordinary - {DROPPED[i]}));
        i := i + 1;
      }
      assert DROPPED[..|DROPPED|] == DROPPED;
    }

    method CreateOrdinaryEventIndexes() returns (ok: bool)
      requires Valid()
      modifies `faults, `db, `log
      ensures Valid() && old(log) <= log && db == old(db).(ordinary := db.ordinary)
      ensures ok ==> db.ordinary == old(db).ordinary + Listed(ORDINARY)
      ensures old(db).ordinary <= db.ordinary
      ensures faults >= old(faults) && (ok <==> faults == old(faults))
    {
      ok := true;
      var i := 0;
      while ok && i < |ORDINARY|
        invariant faults >= old(faults) && (ok <==> faults == old(faults))
        invariant Valid() && old(log) <= log && db == old(db).(ordinary := db.ordinary) && 0 <= i <= |ORDINARY|
        invariant old(db).ordinary <= db.ordinary
        invariant ok ==> db.ordinary == old(db).ordinary + Listed(ORDINARY[..i])
      {
        assert Agrees(log[|log| - 1]);
        ListedOneMore(ORDINARY, i);
        ok := Commit(db.(ordinary := db.ordinary + {ORDINARY[i]}));
        i := i + 1;
      }
      assert ORDINARY[..|ORDINARY|] == ORDINARY;
    }

    function Desired(): (desired: map<nat, string>)
      reads this
      ensures forall i: nat :: i in desired <==> i < |indexedPaths|
      ensures forall i: nat :: i < |indexedPaths| ==> desired[i] == sql(i, indexedPaths[i])
    {
      map i: nat | i < |indexedPaths| :: sql(i, indexedPaths[i])
    }

    /** Then stale expression indexes are dropped and missing ones created, all in one transaction. */
    method CreateEventIndexes() returns (ok: bool)
      requires Valid()
      modifies `faults, `db, `log
      ensures Valid() && old(log) <= log
      ensures db == old(db).(ordinary := db.ordinary,
                             indexes := if ok && storageSet then Desired() else old(db).indexes)
      ensures ok ==> db.ordinary == old(db).ordinary + Listed(ORDINARY)
      ensures old(db).ordinary <= db.ordinary
      ensures faults >= old(faults) && (ok <==> faults == old(faults))
    {
      ok := CreateOrdinaryEventIndexes();
      if ok && storageSet {
        ok := ReconcileExpressionIndexes();
      }
    }

    method ReconcileExpressionIndexes() returns (ok: bool)
      requires Valid()
      modifies `faults, `db, `log
      ensures Valid() && old(log) <= log
      ensures db == old(db).(indexes := if ok then Desired() else old(db).indexes)
      ensures faults >= old(faults) && (ok <==> faults == old(faults))
    {
      assert Agrees(log[|log| - 1]);
      var desired, after := Desired(), db.indexes;
      ghost var wanted := desired;
      var remaining := db.indexes.Keys;
      while remaining != {}
        invariant remaining <= db.indexes.Keys
        invariant forall i :: i in after <==>
                    i in db.indexes && (i in remaining || (i in wanted && wanted[i] == db.indexes[i]))
        invariant forall i :: i in after ==> after[i] == db.indexes[i]
        invariant forall i :: i in desired <==>
                    i in wanted && !(i in db.indexes && i !in remaining && wanted[i] == db.indexes[i])
        invariant forall i :: i in desired ==> desired[i] == wanted[i]
        decreases remaining
      {
        var i :| i in remaining;
        if i in desired && desired[i] == db.indexes[i] {
          desired := desired - {i};
        } else {
          after := after - {i};
        }
        remaining := remaining - {i};
      }
      after := after + desired;
      assert after == wanted;
      ok := Commit(db.(indexes := after));
    }

    /** Replaces one dataset, or fails and leaves the database as it is; an empty input fails. */
    method Import(p: Prepared) returns (ok: bool, ghost id: nat)
      requires Logged() && Sound()
      modifies `faults, `db, `log, `fullTextReady, `fullTextDirty
      ensures Logged() && old(log) <= log
      ensures old(db).fts.None? ==> Sound()
      ensures fullTextReady ==> old(fullTextReady) && !fullTextIndex
      ensures !ok ==> db == old(db) && Sound()
      ensures ok ==> Replaces(old(db), db, p, id) && p.bodies != []
      ensures faults >= old(faults) && (ok ==> faults == old(faults))
      ensures !ok ==> faults > old(faults) || p.bodies == []
    {
      hide Replaces, Agrees, Referential, Imported, FreshIds;
      MarkFullTextIndexDirty();
      var row: nat, rows: seq<nat>;
      ok, row, rows := PickRows(p);
      id := row;
      if !ok || p.bodies == [] {
        ok := false;
        return;
      }
      assert Referential(log[|log| - 1].datasets, log[|log| - 1].events);
      ImportReplaces(db, p, row, rows);
      ImportLeavesIndex(db, p, row, rows);
      ok := Commit(Imported(db, p, row, rows));
    }

    /** SQLite finds row ids that no row has. */
    method PickRows(p: Prepared) returns (ok: bool, row: nat, rows: seq<nat>)
      modifies `faults
      ensures ok ==> FreshIds(db, p, row, rows)
      ensures faults == old(faults) + if ok then 0 else 1
    {
      row, rows := *, *;
      ok := FreshIds(db, p, row, rows);
      if !ok {
        faults := faults + 1;
      }
    }

    method DeleteDatasetsExcept(names: set<string>) returns (ok: bool)
      requires Logged() && Sound()
      modifies `faults, `db, `log
      ensures Logged() && old(log) <= log
      ensures old(db).fts.None? || Retained(old(db).datasets, names) == old(db).datasets ==> Sound()
      ensures !ok ==> db == old(db)
      ensures ok ==> names != {} && db == old(db).(datasets := db.datasets, events := db.events)
      ensures ok ==> forall d :: d in db.datasets <==> d in old(db).datasets && d.name in names
      ensures ok ==> forall k ::
                k in db.events <==>
                k in old(db).events && Owned(db.datasets, old(db).events[k].dataset)
      ensures ok ==> forall n :: n in names ==> Keeps(old(db), db, n)
      ensures ok && Retained(old(db).datasets, names) == old(db).datasets ==> db == old(db)
      ensures faults >= old(faults) && (ok ==> faults == old(faults))
      ensures !ok ==> faults > old(faults) || names == {}
    {
      if names == {} {
        return false;
      }
      assert Agrees(log[|log| - 1]) && Referential(log[|log| - 1].datasets, log[|log| - 1].events);
      var kept := Retained(db.datasets, names);
      var events := Cascade(db.events, Ids(db.datasets) - Ids(kept));
      RetainedIs(db.datasets, names);
      CascadeIs(db, kept, events);
      CascadeKeeps(db, kept, events);
      assert kept == db.datasets ==> events == db.events;
      hide Retained, Cascade, Ids, Referential;
      ok := Commit(db.(datasets := kept, events := events));
    }

    // ----- Loading ---------------------------------------------------------------------------------

    /** The deferred repair after a failure: it may fail as well. */
    method Restore()
      requires Valid()
      modifies `faults, `db, `log, `fullTextReady, `fullTextDirty
      ensures Valid() && old(log) <= log && faults >= old(faults)
      ensures db == old(db).(ordinary := db.ordinary, indexes := db.indexes, fts := db.fts)
      ensures faults == old(faults) ==>
                Listed(ORDINARY) <= db.ordinary && (storageSet ==> db.indexes == Desired()) &&
                Enabled() == fullTextIndex && db.fts == if fullTextIndex then Some(Bodies(db.events)) else None
    {
      var indexes := CreateEventIndexes();
      var fullText := SyncFullTextIndex(true);
    }

    /** Imports every dataset that is missing or has another signature. */
    method ImportChanged(prepared: seq<Prepared>, existing: map<string, Dataset>) returns (ok: bool)
      requires Logged() && Sound() && !fullTextReady && DistinctNames(prepared) && IsByName(existing, db.datasets)
      requires db.fts.Some? ==> AllPresent(existing, prepared)
      modifies `faults, `db, `log, `fullTextReady, `fullTextDirty
      ensures Logged() && Sound() && !fullTextReady && old(log) <= log
      ensures AllPresent(existing, prepared) ==> db == old(db) && fullTextDirty == old(fullTextDirty)
      ensures old(db).fts.None? ==> db.fts.None?
      ensures ok ==> forall i :: 0 <= i < |prepared| ==> Loads(old(db), db, prepared[i])
      ensures faults >= old(faults) && (ok ==> faults == old(faults))
      ensures !ok ==> faults > old(faults) || SomeEmpty(prepared)
    {
      ok := true;
      ghost var start := db;
      var i := 0;
      NothingHandled(db);
      assert prepared[..0] == [];
      while i < |prepared|
        invariant 0 <= i <= |prepared| && Logged() && Sound() && !fullTextReady && old(log) <= log
        invariant AllPresent(existing, prepared) ==> db == start && fullTextDirty == old(fullTextDirty)
        invariant start.fts.None? ==> db.fts.None?
        invariant forall j :: 0 <= j < i ==> Loads(start, db, prepared[j])
        invariant KeepsOthers(start, db, prepared[..i]) && faults == old(faults)
      {
        hide AllPresent, Loads, KeepsOthers, DistinctNames, IsByName, Matched, Agrees, Referential, SomeEmpty;
        ok := ImportMissing(prepared, existing, i, start);
        if !ok {
          EmptyIsSome(prepared, i);
          return;
        }
        i := i + 1;
      }
      assert prepared[..i] == prepared;
    }

    /** One dataset of the manifest: taken as it is, or imported from its file, which may not open or close. */
    method ImportMissing(prepared: seq<Prepared>, existing: map<string, Dataset>, i: nat, ghost start: Db)
      returns (ok: bool)
      requires Logged() && Sound() && !fullTextReady && i < |prepared| && DistinctNames(prepared) &&
                 IsByName(existing, start.datasets)
      requires db.fts.Some? ==> AllPresent(existing, prepared)
      requires KeepsOthers(start, db, prepared[..i]) && forall j :: 0 <= j < i ==> Loads(start, db, prepared[j])
      modifies `faults, `db, `log, `fullTextReady, `fullTextDirty
      ensures Logged() && Sound() && !fullTextReady && old(log) <= log
      ensures AllPresent(existing, prepared) ==> db == old(db) && fullTextDirty == old(fullTextDirty)
      ensures old(db).fts.None? ==> db.fts.None?
      ensures ok ==>
                KeepsOthers(start, db, prepared[..i + 1]) && forall j :: 0 <= j <= i ==> Loads(start, db, prepared[j])
      ensures faults >= old(faults) && (ok ==> faults == old(faults))
      ensures !ok ==> faults > old(faults) || prepared[i].bodies == []
    {
      hide AllPresent, Loads, KeepsOthers, DistinctNames, IsByName, Matched, Agrees, Referential, Replaces;
      var p := prepared[i];
      MatchedIs(existing, start.datasets, p);
      if Matched(existing, p) {
        StillLoads(start, db, prepared, i);
        return true;
      }
      NotAllPresent(existing, prepared, i);
      ok := Succeeds();
      if !ok {
        return;
      }
      ghost var id;
      ghost var before := db;
      ok, id := Import(p);
      if ok {
        ImportLoads(start, before, db, id, prepared, i);
        ReplacesKeepsIndex(before, db, p, id);
        ok := Succeeds();
      }
    }

    /** The datasets by name; a later one takes the place of an earlier one of the same name. */
    method ByName() returns (existing: map<string, Dataset>)
      ensures IsByName(existing, db.datasets)
    {
      existing := map[];
      var i := 0;
      assert db.datasets[..0] == [];
      while i < |db.datasets|
        invariant 0 <= i <= |db.datasets| && IsByName(existing, db.datasets[..i])
      {
        assert db.datasets[..i + 1][..i] == db.datasets[..i];
        existing, i := existing[db.datasets[i].name := db.datasets[i]], i + 1;
      }
      assert db.datasets[..i] == db.datasets;
    }

    /** storageChanged: another number of datasets, or a configured one that is missing or has another signature. */
    method StorageChanged(prepared: seq<Prepared>, existing: map<string, Dataset>) returns (changed: bool)
      ensures changed <==> |db.datasets| != |prepared| || !AllPresent(existing, prepared)
    {
      changed := |db.datasets| != |prepared|;
      var i := 0;
      while i < |prepared|
        invariant 0 <= i <= |prepared| && (forall j :: 0 <= j < i ==> Matched(existing, prepared[j]))
        invariant changed <==> |db.datasets| != |prepared|
      {
        if !Matched(existing, prepared[i]) {
          return true;
        }
        i := i + 1;
      }
    }

    /**
      The manifest is put into effect.  Whatever fails, and wherever, the index stays in agreement.  On success the
      datasets are those of the manifest: unchanged ones with the events they had, the others with those of their
      files, and there are no other events.  It fails only if something outside does, or the manifest is refused.
     */
    method Load(prepared: seq<Prepared>, paths: seq<string>, fullText: bool) returns (ok: bool)
      requires Valid()
      modifies this
      ensures Valid() && old(log) <= log
      ensures ok ==> forall i :: 0 <= i < |prepared| ==> Loads(old(db), db, prepared[i])
      ensures ok ==> Names(db.datasets) <= ConfiguredNames(prepared)
      ensures ok ==> forall k :: k in db.events ==> Owned(db.datasets, db.events[k].dataset)
      ensures ok ==> Enabled() == fullText && db.fts == if fullText then Some(Bodies(db.events)) else None
      ensures ok ==> indexedPaths == paths && db.indexes == Desired() && Listed(ORDINARY) <= db.ordinary
      ensures ok ==> (forall i: nat :: i in db.indexes <==> i < |paths|) &&
                     forall i: nat :: i < |paths| ==> db.indexes[i] == sql(i, paths[i])
      ensures ok ==> prepared != [] && DistinctNames(prepared)
      ensures !ok ==> faults > old(faults) || prepared == [] || !DistinctNames(prepared) || SomeEmpty(prepared)
    {
      if prepared == [] {
        return false;
      }
      ok := NamesOnce(prepared);
      if !ok {
        return;
      }
      ok := ConfigureEventStorage(paths, fullText);
      if !ok {
        return;
      }
      ok := Succeeds();
      if !ok {
        return;
      }
      var existing := ByName();
      var changed := StorageChanged(prepared, existing);
      hide *;
      if changed {
        ok := LoadChanged(prepared, existing);
      } else {
        ok := LoadUnchanged(prepared, existing);
      }
      LastIsReferential();
    }

    lemma LastIsReferential()
      requires Valid()
      ensures forall k :: k in db.events ==> Owned(db.datasets, db.events[k].dataset)
    {
      assert Referential(log[|log| - 1].datasets, log[|log| - 1].events);
    }

    method LoadUnchanged(prepared: seq<Prepared>, existing: map<string, Dataset>) returns (ok: bool)
      requires Valid() && !fullTextReady && storageSet && prepared != [] && DistinctNames(prepared) &&
                 IsByName(existing, db.datasets)
      requires |db.datasets| == |prepared| && AllPresent(existing, prepared)
      modifies `faults, `db, `log, `fullTextReady, `fullTextDirty
      ensures Valid() && old(log) <= log
      ensures db.events == old(db).events && db.datasets == old(db).datasets
      ensures ok ==> Loaded(old(db), prepared)
      ensures faults >= old(faults) && (!ok ==> faults > old(faults) || SomeEmpty(prepared))
    {
      hide Present, DistinctNames, Retained, Names, Agrees, AllPresent, IsByName, Bodies, ConfiguredNames;
      hide Loads, Keeps, Referential, SomeEmpty;
      AllAreThere(existing, db.datasets, prepared);
      UnchangedStorage(db.datasets, prepared);
      ghost var start := db;
      ok := ImportChanged(prepared, existing);
      if !ok {
        return;
      }
      ConfiguredIsSome(prepared);
      ok := DeleteDatasetsExcept(ConfiguredNames(prepared));
      if !ok {
        return;
      }
      NamesRetained(db.datasets, ConfiguredNames(prepared));
      ok := CreateEventIndexes();
      if !ok {
        return;
      }
      ok := SyncFullTextIndex(false);
      LoadsOnlyData(start, start, start, db, prepared);
    }

    /** The datasets of the manifest come and the others go, while there is no index. */
    method ReplaceData(prepared: seq<Prepared>, existing: map<string, Dataset>, ghost start: Db) returns (ok: bool)
      requires Valid() && !fullTextReady && prepared != [] && DistinctNames(prepared) && db.fts.None?
      requires IsByName(existing, db.datasets) && start.datasets == db.datasets && start.events == db.events
      modifies `faults, `db, `log, `fullTextReady, `fullTextDirty
      ensures Valid() && !fullTextReady && old(log) <= log && db.fts.None?
      ensures ok ==> forall i :: 0 <= i < |prepared| ==> Loads(start, db, prepared[i])
      ensures ok ==> Names(db.datasets) <= ConfiguredNames(prepared)
      ensures faults >= old(faults) && (ok ==> faults == old(faults))
      ensures !ok ==> faults > old(faults) || SomeEmpty(prepared)
    {
      hide DistinctNames, Retained, Names, Agrees, IsByName, AllPresent, ConfiguredNames;
      hide Loads, Keeps, Referential, SomeEmpty;
      ghost var dropped := db;
      ok := ImportChanged(prepared, existing);
      if !ok {
        return;
      }
      ghost var imported := db;
      ConfiguredIsSome(prepared);
      ok := DeleteDatasetsExcept(ConfiguredNames(prepared));
      if ok {
        NamesRetained(db.datasets, ConfiguredNames(prepared));
        DeleteKeepsLoads(dropped, imported, db, prepared);
        LoadsOnlyData(dropped, start, db, db, prepared);
      }
    }

    method LoadChanged(prepared: seq<Prepared>, existing: map<string, Dataset>) returns (ok: bool)
      requires Valid() && !fullTextReady && storageSet && prepared != [] && DistinctNames(prepared) &&
                 IsByName(existing, db.datasets)
      modifies `faults, `db, `log, `fullTextReady, `fullTextDirty
      ensures Valid() && old(log) <= log
      ensures ok ==> Loaded(old(db), prepared)
      ensures faults >= old(faults) && (!ok ==> faults > old(faults) || SomeEmpty(prepared))
    {
      hide Present, DistinctNames, Retained, Names, Agrees, IsByName, AllPresent, Bodies, ConfiguredNames;
      hide Loads, Keeps, Referential, SomeEmpty;
      ghost var start := db;
      ok := DropEventIndexes();
      if !ok {
        return;
      }
      ok := DropFullTextIndex();
      if ok {
        ok := ReplaceData(prepared, existing, start);
      }
      ghost var loaded := db;
      if ok {
        ok := CreateEventIndexes();
      }
      if ok {
        ok := SyncFullTextIndex(true);
        LoadsOnlyData(start, start, loaded, db, prepared);
      }
      if !ok {
        Restore();
      }
    }

    ghost predicate Loaded(before: Db, prepared: seq<Prepared>)
      reads this
    {
      (forall i :: 0 <= i < |prepared| ==> Loads(before, db, prepared[i])) &&
          Names(db.datasets) <= ConfiguredNames(prepared) &&
      Enabled() == fullTextIndex && db.fts == (if fullTextIndex then Some(Bodies(db.events)) else None) &&
          db.indexes == Desired() &&
      Listed(ORDINARY) <= db.ordinary
    }

    /** The process ends at any transaction boundary, and another one opens the file. */
    method Crash(boundary: nat)
      requires Valid() && boundary < |log|
      modifies this
      ensures Valid() && !Enabled() && db == old(log)[boundary] && log == old(log)[..boundary + 1]
    {
      db, log := log[boundary], log[..boundary + 1];
      fullTextIndex, fullTextReady, fullTextDirty, storageSet, indexedPaths := false, false, false, false, [];
    }
  }

  method NamesOnce(prepared: seq<Prepared>) returns (once: bool)
    ensures once <==> DistinctNames(prepared)
  {
    var seen: set<string> := {};
    var i := 0;
    while i < |prepared|
      invariant 0 <= i <= |prepared| && seen == ConfiguredNames(prepared[..i]) && DistinctNames(prepared[..i])
    {
      if prepared[i].name in seen {
        var j :| 0 <= j < i && prepared[..i][j].name == prepared[i].name;
        return false;
      }
      assert prepared[..i + 1] == prepared[..i] + [prepared[i]];
      SeenMore(prepared[..i], prepared[i]);
      seen, i := seen + {prepared[i].name}, i + 1;
    }
    assert prepared[..i] == prepared;
    once := true;
  }

  lemma SeenMore(prepared: seq<Prepared>, p: Prepared)
    requires DistinctNames(prepared) && p.name !in ConfiguredNames(prepared)
    ensures DistinctNames(prepared + [p]) && ConfiguredNames(prepared + [p]) == ConfiguredNames(prepared) + {p.name}
  {
    var more := prepared + [p];
    forall n | n in ConfiguredNames(prepared)
      ensures n in ConfiguredNames(more)
    {
      var i :| 0 <= i < |prepared| && prepared[i].name == n;
      assert more[i].name == n;
    }
    assert more[|prepared|].name == p.name;
  }

  datatype Command = LoadManifest(prepared: seq<Prepared>, paths: seq<string>, fullText: bool) | CrashAt(boundary: nat)

  /** Any sequence of loads, each of which may fail anywhere, and of crashes after any committed transaction. */
  method Run(store: Store, commands: seq<Command>)
    requires store.Valid()
    modifies store
    ensures store.Valid() && (store.Enabled() ==> store.db.fts == Some(Bodies(store.db.events)))
  {
    var i := 0;
    while i < |commands|
      invariant store.Valid()
    {
      match commands[i] {
        case LoadManifest(prepared, paths, fullText) => var ok := store.Load(prepared, paths, fullText);
        case CrashAt(boundary) =>
          if boundary < |store.log| {
            store.Crash(boundary);
          }
      }
      i := i + 1;
    }
    if store.Enabled() {
      EnabledMeansAgreement(store);
    }
  }

  /** Whenever the index is in use it has exactly one row for every event, with the event's text. */
  lemma EnabledMeansAgreement(store: Store)
    requires store.Valid() && store.Enabled()
    ensures store.db.fts == Some(Bodies(store.db.events))
  {
    assert Agrees(store.log[|store.log| - 1]);
  }

  // ----- What the load knows of the datasets ---------------------------------------------------------

  /** Of several datasets with one name, the one listed last. */
  ghost function Latest(datasets: seq<Dataset>, name: string): Option<Dataset> {
    if datasets == [] then None
    else
      var last := datasets[|datasets| - 1];
      if last.name == name then Some(last) else Latest(datasets[..|datasets| - 1], name)
  }

  lemma {:induction false} LatestIs(datasets: seq<Dataset>, name: string)
    ensures Latest(datasets, name).Some? ==>
              Latest(datasets, name).value in datasets && Latest(datasets, name).value.name == name
    ensures Latest(datasets, name).None? ==> forall d :: d in datasets ==> d.name != name
  {
    if datasets != [] {
      LatestIs(datasets[..|datasets| - 1], name);
      assert datasets == datasets[..|datasets| - 1] + [datasets[|datasets| - 1]];
    }
  }

  /**
    What a load does with one dataset of the manifest: if it is there with the same signature it stays, with the
    events it had; otherwise there is one with the events of its file.
   */
  ghost predicate Loads(before: Db, after: Db, p: Prepared) {
    match Latest(before.datasets, p.name)
    case Some(d) =>
      if d.signature == p.signature then
        d in after.datasets && EventsOf(after.events, d.id) == EventsOf(before.events, d.id)
      else Reimported(after, p)
    case None => Reimported(after, p)
  }

  ghost predicate Reimported(after: Db, p: Prepared) {
    exists d :: d in after.datasets && d.name == p.name && d.signature == p.signature &&
      Holds(after.events, d.id, p.bodies)
  }

  ghost predicate SomeEmpty(prepared: seq<Prepared>) {
    exists i :: 0 <= i < |prepared| && prepared[i].bodies == []
  }

  lemma EmptyIsSome(prepared: seq<Prepared>, i: nat)
    requires i < |prepared|
    ensures prepared[i].bodies == [] ==> SomeEmpty(prepared)
  {}

  ghost predicate IsByName(existing: map<string, Dataset>, datasets: seq<Dataset>) {
    forall n :: (n in existing <==> Latest(datasets, n).Some?) &&
      (n in existing ==> existing[n] == Latest(datasets, n).value)
  }

  predicate Matched(existing: map<string, Dataset>, p: Prepared) {
    p.name in existing && existing[p.name].signature == p.signature
  }

  lemma MatchedIs(existing: map<string, Dataset>, datasets: seq<Dataset>, p: Prepared)
    requires IsByName(existing, datasets)
    ensures Matched(existing, p) <==>
            Latest(datasets, p.name).Some? && Latest(datasets, p.name).value.signature == p.signature
  {}

  ghost predicate AllPresent(existing: map<string, Dataset>, prepared: seq<Prepared>) {
    forall i :: 0 <= i < |prepared| ==> Matched(existing, prepared[i])
  }

  /** Datasets that do not have one of the names are still there, with their events. */
  ghost predicate KeepsOthers(before: Db, after: Db, handled: seq<Prepared>) {
    forall n :: n !in ConfiguredNames(handled) ==> Keeps(before, after, n)
  }

  lemma NothingHandled(db: Db)
    ensures KeepsOthers(db, db, [])
  {}

  lemma NotAllPresent(existing: map<string, Dataset>, prepared: seq<Prepared>, i: nat)
    requires i < |prepared| && !Matched(existing, prepared[i])
    ensures !AllPresent(existing, prepared)
  {}

  lemma ImportLeavesIndex(before: Db, p: Prepared, id: nat, ids: seq<nat>)
    requires FreshIds(before, p, id, ids)
    ensures before.fts.None? ==> Agrees(Imported(before, p, id, ids))
  {}

  lemma ReplacesKeepsIndex(before: Db, after: Db, p: Prepared, id: nat)
    requires Replaces(before, after, p, id)
    ensures after.fts == before.fts
  {}

  lemma KeepsTransitive(a: Db, b: Db, c: Db, n: string)
    requires Keeps(a, b, n) && Keeps(b, c, n)
    ensures Keeps(a, c, n)
  {}

  lemma HoldsSame(a: map<nat, Event>, b: map<nat, Event>, d: nat, bodies: seq<string>)
    requires Holds(a, d, bodies) && EventsOf(a, d) == EventsOf(b, d)
    ensures Holds(b, d, bodies)
  {
    var ids :| Rows(a, d, bodies, ids);
    assert forall i :: 0 <= i < |ids| ==> ids[i] in EventsOf(a, d) && EventsOf(a, d)[ids[i]] == a[ids[i]];
    assert forall k :: k in b && b[k].dataset == d ==> k in EventsOf(b, d);
    assert Rows(b, d, bodies, ids);
  }

  /** What was done for a dataset stays done while the datasets of its name are kept. */
  lemma LoadsStays(start: Db, before: Db, after: Db, p: Prepared)
    requires Loads(start, before, p) && Keeps(before, after, p.name)
    ensures Loads(start, after, p)
  {
    LatestIs(start.datasets, p.name);
    hide Latest, Holds, EventsOf;
    if Reimported(before, p) {
      var d :| d in before.datasets && d.name == p.name && d.signature == p.signature &&
        Holds(before.events, d.id, p.bodies);
      HoldsSame(before.events, after.events, d.id, p.bodies);
      assert Reimported(after, p);
    }
  }

  lemma Handled(prepared: seq<Prepared>, i: nat)
    requires i < |prepared|
    ensures ConfiguredNames(prepared[..i + 1]) == ConfiguredNames(prepared[..i]) + {prepared[i].name}
    ensures DistinctNames(prepared) ==> prepared[i].name !in ConfiguredNames(prepared[..i])
  {
    assert forall k :: 0 <= k < i ==> prepared[..i + 1][k] == prepared[..i][k] == prepared[k];
    assert prepared[..i + 1][i] == prepared[i];
  }

  lemma StillLoads(start: Db, now: Db, prepared: seq<Prepared>, i: nat)
    requires i < |prepared| && DistinctNames(prepared) && KeepsOthers(start, now, prepared[..i])
    requires var d := Latest(start.datasets, prepared[i].name); d.Some? && d.value.signature == prepared[i].signature
    ensures Loads(start, now, prepared[i]) && KeepsOthers(start, now, prepared[..i + 1])
  {
    Handled(prepared, i);
    LatestIs(start.datasets, prepared[i].name);
    hide Latest, EventsOf, ConfiguredNames, DistinctNames;
    assert Keeps(start, now, prepared[i].name);
  }

  lemma ImportLoads(start: Db, before: Db, after: Db, id: nat, prepared: seq<Prepared>, i: nat)
    requires i < |prepared| && DistinctNames(prepared) && Replaces(before, after, prepared[i], id)
    requires KeepsOthers(start, before, prepared[..i]) && forall j :: 0 <= j < i ==> Loads(start, before, prepared[j])
    requires var d := Latest(start.datasets, prepared[i].name); d.None? || d.value.signature != prepared[i].signature
    ensures KeepsOthers(start, after, prepared[..i + 1]) && forall j :: 0 <= j <= i ==> Loads(start, after, prepared[j])
  {
    var p := prepared[i];
    Handled(prepared, i);
    assert Dataset(id, p.name, p.signature) in after.datasets;
    assert Reimported(after, p);
    forall j | 0 <= j < i
      ensures Loads(start, after, prepared[j])
    {
      LoadsStays(start, before, after, prepared[j]);
    }
    forall n | n !in ConfiguredNames(prepared[..i + 1])
      ensures Keeps(start, after, n)
    {
      KeepsTransitive(start, before, after, n);
    }
  }

  lemma DeleteKeepsLoads(start: Db, before: Db, after: Db, prepared: seq<Prepared>)
    requires forall i :: 0 <= i < |prepared| ==> Loads(start, before, prepared[i])
    requires forall n :: n in ConfiguredNames(prepared) ==> Keeps(before, after, n)
    ensures forall i :: 0 <= i < |prepared| ==> Loads(start, after, prepared[i])
  {
    forall i | 0 <= i < |prepared|
      ensures Loads(start, after, prepared[i])
    {
      LoadsStays(start, before, after, prepared[i]);
    }
  }

  /** Only datasets and events matter for what a load does. */
  lemma LoadsOnlyData(a: Db, b: Db, after: Db, later: Db, prepared: seq<Prepared>)
    requires a.datasets == b.datasets && a.events == b.events
    requires after.datasets == later.datasets && after.events == later.events
    requires forall i :: 0 <= i < |prepared| ==> Loads(a, after, prepared[i])
    ensures forall i :: 0 <= i < |prepared| ==> Loads(b, later, prepared[i])
  {}

  lemma ConfiguredIsSome(prepared: seq<Prepared>)
    requires prepared != []
    ensures ConfiguredNames(prepared) != {}
  {
    assert prepared[0].name in ConfiguredNames(prepared);
  }

  lemma NamesRetained(datasets: seq<Dataset>, names: set<string>)
    requires forall d :: d in datasets ==> d.name in names
    ensures Names(datasets) <= names
  {
    assert forall i :: 0 <= i < |datasets| ==> datasets[i] in datasets;
  }

  lemma AllAreThere(existing: map<string, Dataset>, datasets: seq<Dataset>, prepared: seq<Prepared>)
    requires IsByName(existing, datasets) && AllPresent(existing, prepared)
    ensures forall i :: 0 <= i < |prepared| ==> Present(datasets, prepared[i])
  {
    forall i | 0 <= i < |prepared|
      ensures Present(datasets, prepared[i])
    {
      var n := prepared[i].name;
      assert Matched(existing, prepared[i]);
      LatestIs(datasets, n);
      assert n in existing && existing[n] in datasets;
      var k :| 0 <= k < |datasets| && datasets[k] == existing[n];
    }
  }

}
