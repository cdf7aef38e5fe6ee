/**
  The import as a whole: the pipeline of IngestPipeline with the record functions of IngestRecords and the
  discovery of EmbeddedDiscovery.  What is stored for a record, whatever the schedule?
 */
module EventImport {
  import opened EmbeddedDiscovery
  import opened IngestRecords
  import opened Wrappers
  import Pipeline = IngestPipeline

  /** The input of an import, and what it takes from libraries: the hash, the JSON parser and the mapping. */
  datatype Source = Source(
    hash: string -> Hash,
    decode: Decoder,
    mapping: Mapping,
    records: seq<Raw>,
    decodingFails: bool,
    workers: nat)
  {
    function Value(i: nat): Json
      requires 1 <= i <= |records|
    {
      IngestRecords.Value(records[i - 1])
    }

    predicate Parses(i: nat)
      requires 1 <= i <= |records|
    {
      ParseError(records[i - 1], i).None?
    }
  }

  ghost function DiscoverRecord(source: Source, tree: Tree, raw: Raw, i: nat): (Tree, Result<Row, Error>) {
    var (after, stored) := PrepareDiscovered(source.decode, tree, Value(raw));
    (after, RowOf(source.mapping, stored, i))
  }

  ghost function PrepareRecord(source: Source, tree: Tree, raw: Raw, i: nat): Result<Row, Error> {
    RowOf(source.mapping, PrepareKnown(source.decode, tree, Value(raw)), i)
  }

  function Observe(source: Source, keys: Keys, raw: Raw): (Keys, bool) {
    (keys + {TopLevelKeys(Value(raw))}, Known(source.hash, keys, TopLevelKeys(Value(raw))))
  }

  ghost function EnvOf(source: Source): Pipeline.Env {
    Pipeline.Env(
      (raw: Raw, i: nat) => ParseError(raw, i),
      (keys: Keys, raw: Raw) => Observe(source, keys, raw),
      (tree: Tree, raw: Raw, i: nat) => DiscoverRecord(source, tree, raw, i),
      (tree: Tree, raw: Raw, i: nat) => PrepareRecord(source, tree, raw, i),
      {}, EMPTY, source.records, if source.decodingFails then Some(DecodingFailed) else None, NoEvents, source.workers)
  }

  /** The keys and the tree that record i finds: those of the records before it. */
  ghost function KeysBefore(source: Source, i: nat): Keys
    requires 1 <= i <= |source.records|
  {
    EnvOf(source).History(i - 1).0
  }

  ghost function TreeBefore(source: Source, i: nat): Tree
    requires 1 <= i <= |source.records|
  {
    EnvOf(source).History(i - 1).1
  }

  /** Record i is discovered in full: it is one of the first, or no known list of top-level keys is like its own. */
  ghost predicate Discovered(source: Source, i: nat)
    requires 1 <= i <= |source.records|
  {
    i <= Pipeline.DISCOVERY_SAMPLE || !Known(source.hash, KeysBefore(source, i), TopLevelKeys(source.Value(i)))
  }

  // ----- What an import that succeeds has stored -------------------------------------------------

  /** The rows up to the first failing record. */
  ghost function Ready(expected: seq<Result<Row, Error>>): (rows: seq<Row>)
    ensures Pipeline.RowsMatch(expected, rows)
    ensures |rows| < |expected| ==> expected[|rows|].Err?
  {
    if expected == [] then []
    else
      var front := Ready(expected[..|expected| - 1]);
      if |front| == |expected| - 1 && expected[|front|].Ok? then front + [expected[|front|].value] else front
  }

  lemma CommittedRows(env: Pipeline.Env)
    requires Pipeline.Import(env).Committed?
    ensures Pipeline.Import(env).eventCount == |env.records|
    ensures |Pipeline.Import(env).rows| == |env.records| &&
              Pipeline.RowsMatch(Pipeline.Expected(env), Pipeline.Import(env).rows)
  {
    var rows := Ready(Pipeline.Expected(env));
    if |rows| < |env.records| {
      Pipeline.ImportFails(env, rows);
    } else {
      Pipeline.ImportCompletes(env, rows);
    }
  }

  /** What a finished pipeline has committed, whatever its schedule. */
  ghost predicate Imported(source: Source, actions: seq<Pipeline.Action>, rows: seq<Row>) {
    var env := EnvOf(source);
    env.Valid() && Pipeline.Schedule(env, Pipeline.Init(env), actions) &&
    Pipeline.Run(env, Pipeline.Init(env), actions).decoder == Pipeline.Finished(Pipeline.Committed(rows, |rows|))
  }

  lemma ImportedRow(source: Source, actions: seq<Pipeline.Action>, rows: seq<Row>, i: nat)
    requires Imported(source, actions, rows) && 1 <= i <= |rows|
    ensures |rows| == |source.records| && EnvOf(source).ResultAt(i) == Ok(rows[i - 1])
  {
    var env := EnvOf(source);
    Pipeline.EveryScheduleIsSequential(env, actions);
    CommittedRows(env);
    assert Pipeline.Expected(env)[i - 1] == env.ResultAt(i);
  }

  /** The stored value of record i: prepared with the tree of the records before it. */
  lemma StoredValue(source: Source, rows: seq<Row>, i: nat)
    requires 1 <= i <= |rows| == |source.records| && EnvOf(source).ResultAt(i) == Ok(rows[i - 1])
    ensures rows[i - 1].rawData ==
            if Discovered(source, i) then PrepareDiscovered(source.decode, TreeBefore(source, i), source.Value(i)).1
            else PrepareKnown(source.decode, TreeBefore(source, i), source.Value(i))
  {
    var env := EnvOf(source);
    var (keys, tree) := env.History(i - 1);
    hide PrepareDiscovered, PrepareKnown, Known;
    assert env.FullDiscovery(keys, i) <==> Discovered(source, i);
  }

  /** A stored row has the time and the source that the mapping finds in the stored value. */
  lemma StoredTimeAndSource(source: Source, actions: seq<Pipeline.Action>, rows: seq<Row>, i: nat)
    requires Imported(source, actions, rows) && 1 <= i <= |rows|
    ensures source.mapping(rows[i - 1].rawData) == Some((rows[i - 1].time, rows[i - 1].source))
  {
    ImportedRow(source, actions, rows, i);
    hide PrepareDiscovered, PrepareKnown, Known;
  }

  /** Every imported record is a JSON object of at most 4 MiB. */
  lemma ImportedIsObject(source: Source, actions: seq<Pipeline.Action>, rows: seq<Row>, i: nat)
    requires Imported(source, actions, rows) && 1 <= i <= |rows|
    ensures |rows| == |source.records|
    ensures var raw := source.records[i - 1]; raw.size <= 4194304 && raw.value.Some? && raw.value.value.Object?
  {
    ImportedRow(source, actions, rows, i);
    hide PrepareDiscovered, PrepareKnown, Known;
  }

  /** The error of a record that fails: its own, under its number. */
  ghost function ErrorOf(source: Source, i: nat): Option<Error>
    requires 1 <= i <= |source.records|
  {
    var result := EnvOf(source).ResultAt(i);
    if result.Err? then Some(result.error) else None
  }

  lemma ErrorIs(source: Source, i: nat)
    requires 1 <= i <= |source.records|
    ensures var raw, stored := source.records[i - 1],
                if Discovered(source, i) then PrepareDiscovered(source.decode, TreeBefore(source, i), source.Value(i)).1
                else PrepareKnown(source.decode, TreeBefore(source, i), source.Value(i));
            ErrorOf(source, i) ==
            if raw.size > 4194304 then Some(TooLarge(i))
            else if raw.value.None? || !raw.value.value.Object? then Some(NotAnObject(i))
            else if source.mapping(stored).None? then Some(NoTimeOrSource(i))
            else None
  {
    var env := EnvOf(source);
    var (keys, tree) := env.History(i - 1);
    hide PrepareDiscovered, PrepareKnown, Known;
    assert env.FullDiscovery(keys, i) <==> Discovered(source, i);
  }

  /** A finished pipeline reports the error of the first record that has one, and commits none. */
  lemma FirstErrorIsReported(source: Source, actions: seq<Pipeline.Action>, i: nat)
    requires var env := EnvOf(source);
             env.Valid() && Pipeline.Schedule(env, Pipeline.Init(env), actions) &&
             Pipeline.Run(env, Pipeline.Init(env), actions).decoder.Finished?
    requires 1 <= i <= |source.records| && ErrorOf(source, i).Some?
    requires forall j :: 1 <= j < i ==> ErrorOf(source, j).None?
    ensures Pipeline.Run(EnvOf(source), Pipeline.Init(EnvOf(source)), actions).decoder
         == Pipeline.Finished(Pipeline.Failed(ErrorOf(source, i).value))
  {
    var env := EnvOf(source);
    Pipeline.EveryScheduleIsSequential(env, actions);
    hide Pipeline.Import, Pipeline.Schedule, Pipeline.Run, Pipeline.Init;
    var expected := Pipeline.Expected(env);
    forall j | 0 <= j < |expected|
      ensures expected[j] == env.ResultAt(j + 1)
    {}
    hide EnvOf;
    forall j | 0 <= j < i - 1
      ensures expected[j].Ok?
    {
      assert ErrorOf(source, j + 1).None?;
    }
    var rows := seq(i - 1, j requires 0 <= j < i - 1 => expected[j].value);
    Pipeline.ImportFails(env, rows);
  }

  /**
    Every schedule of the concurrent pipeline stores a record with every embedded string decoded if and only if
    the record is discovered in full, or the tree of the records before it covers it.
   */
  lemma StoredIsExpandedIff(source: Source, actions: seq<Pipeline.Action>, rows: seq<Row>, i: nat)
    requires Imported(source, actions, rows) && 1 <= i <= |rows|
    requires DecodesContainers(source.decode)
    ensures |rows| == |source.records|
    ensures Settled(source.decode, source.Value(i), 0) ==>
              (rows[i - 1].rawData == Expand(source.decode, source.Value(i), 0) <==>
               Discovered(source, i) || Covers(source.decode, TreeBefore(source, i), source.Value(i), 0))
  {
    ImportedRow(source, actions, rows, i);
    if Settled(source.decode, source.Value(i), 0) {
      StoredValue(source, rows, i);
      hide *;
      DiscoveredRecordIsExpanded(source.decode, TreeBefore(source, i), source.Value(i));
      KnownRecordIsExpandedIffCovered(source.decode, TreeBefore(source, i), source.Value(i));
    }
  }

  /** Any other record, however deep, is stored with exactly those strings decoded that stand at marked positions. */
  lemma StoredIsDecodedWhere(source: Source, actions: seq<Pipeline.Action>, rows: seq<Row>, i: nat)
    requires Imported(source, actions, rows) && 1 <= i <= |rows|
    ensures |rows| == |source.records|
    ensures !Discovered(source, i) ==>
              rows[i - 1].rawData == DecodedWhere(source.decode, source.Value(i), TreeBefore(source, i), [], 0)
  {
    ImportedRow(source, actions, rows, i);
    StoredValue(source, rows, i);
    hide *;
    KnownIsDecodedWhere(source.decode, TreeBefore(source, i), source.Value(i));
  }

  /** Marked are the positions of embedded strings in the records discovered before, and no others. */
  lemma {:induction false} TreeMarks(source: Source, i: nat, path: seq<Step>)
    requires 1 <= i <= |source.records|
    ensures Marked(TreeBefore(source, i), path) <==>
            exists j :: 1 <= j < i && source.Parses(j) && Discovered(source, j) &&
              EmbeddedAt(source.decode, source.Value(j), path, 0)
  {
    hide EmbeddedAt, Discovered;
    if i > 1 {
      TreeMarks(source, i - 1, path);
      OneMoreTree(source, i - 1);
      DiscoverMarks(source.decode, source.Value(i - 1), TreeBefore(source, i - 1), 0, path);
      hide TreeBefore, Marked;
    } else {
      EmptyMarksNothing(path);
    }
  }

  /** The tree has no other nodes than these marks need, so that it is determined by them. */
  lemma {:induction false} TreeIsItsMarks(source: Source, i: nat, tree: Node)
    requires 1 <= i <= |source.records| && Lean(tree)
    requires forall path :: Marked(tree, path) <==>
               exists j :: 1 <= j < i && source.Parses(j) && Discovered(source, j) &&
                 EmbeddedAt(source.decode, source.Value(j), path, 0)
    ensures TreeBefore(source, i) == tree
  {
    hide Marked, TreeBefore, Lean, EmbeddedAt, Discovered;
    forall path
      ensures Marked(TreeBefore(source, i), path) <==> Marked(tree, path)
    {
      TreeMarks(source, i, path);
    }
    TreeIsLean(source, i);
    MarksDecideTree(TreeBefore(source, i), tree);
  }

  lemma {:induction false} TreeIsLean(source: Source, i: nat)
    requires 1 <= i <= |source.records|
    ensures Lean(TreeBefore(source, i))
  {
    if i > 1 {
      TreeIsLean(source, i - 1);
      OneMoreTree(source, i - 1);
      DiscoverKeepsLean(source.decode, source.Value(i - 1), TreeBefore(source, i - 1), 0);
      hide TreeBefore, Lean;
    }
  }

  lemma EmptyMarksNothing(path: seq<Step>)
    ensures !Marked(EMPTY, path)
  {}

  lemma OneMoreTree(source: Source, i: nat)
    requires 1 <= i < |source.records|
    ensures TreeBefore(source, i + 1) ==
            if source.Parses(i) && Discovered(source, i) then
              Discover(source.decode, source.Value(i), TreeBefore(source, i), 0).0
            else TreeBefore(source, i)
  {
    var env := EnvOf(source);
    var (keys, tree) := env.History(i - 1);
    hide Discover, Known;
    assert env.History(i) == if env.ParseError(i).Some? then (keys, tree)
                             else (env.observe(keys, env.Record(i)).0,
                                   if env.FullDiscovery(keys, i) then env.discover(tree, env.Record(i), i).0 else tree);
  }

  // ----- What the records before have left ---------------------------------------------------------

  ghost function EarlierKeys(source: Source, i: nat): Keys
    requires 1 <= i <= |source.records|
  {
    set j | 1 <= j < i :: TopLevelKeys(source.Value(j))
  }

  lemma {:induction false} KeysAre(source: Source, i: nat)
    requires 1 <= i <= |source.records|
    requires forall j :: 1 <= j < i ==> source.Parses(j)
    ensures KeysBefore(source, i) == EarlierKeys(source, i)
  {
    var env := EnvOf(source);
    if i > 1 {
      KeysAre(source, i - 1);
      hide Known, DiscoverRecord, PrepareRecord, TopLevelKeys;
      assert source.Parses(i - 1);
      assert env.History(i - 1).0 == env.observe(env.History(i - 2).0, env.Record(i - 1)).0;
      assert EarlierKeys(source, i) == EarlierKeys(source, i - 1) + {TopLevelKeys(source.Value(i - 1))};
    }
  }

  ghost predicate HasMember(v: Json, name: string) {
    v.Object? && exists k :: 0 <= k < |v.members| && v.members[k].key == name
  }

  ghost predicate NamesOnce(v: Json) {
    v.Object? ==> forall k, l :: 0 <= k < l < |v.members| ==> v.members[k].key != v.members[l].key
  }

  ghost predicate SameNames(v: Json, w: Json) {
    forall name :: HasMember(v, name) <==> HasMember(w, name)
  }

  lemma MembersAreKeys(v: Json)
    ensures forall name :: HasMember(v, name) <==> name in KeySet(TopLevelKeys(v))
    ensures NamesOnce(v) ==> Distinct(TopLevelKeys(v))
  {
    forall name
      ensures HasMember(v, name) <==> name in KeySet(TopLevelKeys(v))
    {
      if HasMember(v, name) {
        var k :| 0 <= k < |v.members| && v.members[k].key == name;
        assert TopLevelKeys(v)[k] == name;
      }
    }
  }

  lemma SameNamesAreSameKeys(v: Json, w: Json)
    ensures SameNames(v, w) <==> KeySet(TopLevelKeys(v)) == KeySet(TopLevelKeys(w))
  {
    MembersAreKeys(v);
    MembersAreKeys(w);
    hide HasMember, TopLevelKeys, KeySet;
  }

  /**
    Among records without repeated keys those are discovered in full that are among the first 5000, or bring a set
    of top-level keys that no record before them has.
   */
  lemma DiscoveredIffNewKeys(source: Source, i: nat)
    requires 1 <= i <= |source.records|
    requires forall j :: 1 <= j < i ==> source.Parses(j)
    requires forall j :: 1 <= j <= i ==> NamesOnce(source.Value(j))
    ensures Discovered(source, i) <==>
              i <= 5000 || forall j :: 1 <= j < i ==> !SameNames(source.Value(j), source.Value(i))
  {
    KeysAre(source, i);
    hide TopLevelKeys, Known, KeySet, Distinct, KeysBefore, SameNames, NamesOnce;
    forall j | 1 <= j <= i
      ensures Distinct(TopLevelKeys(source.Value(j)))
      ensures SameNames(source.Value(j), source.Value(i))
         <==> KeySet(TopLevelKeys(source.Value(j))) == KeySet(TopLevelKeys(source.Value(i)))
    {
      MembersAreKeys(source.Value(j));
      SameNamesAreSameKeys(source.Value(j), source.Value(i));
    }
    KnownIsSameSet(source.hash, EarlierKeys(source, i), TopLevelKeys(source.Value(i)));
  }

  /** The tree covers whatever was discovered before. */
  lemma {:induction false} EarlierIsCovered(source: Source, i: nat, j: nat)
    requires 1 <= j < i <= |source.records| && DecodesContainers(source.decode)
    requires source.Parses(j) && Discovered(source, j)
    ensures Settled(source.decode, source.Value(j), 0) ==>
              Covers(source.decode, TreeBefore(source, i), source.Value(j), 0)
    decreases i
  {
    hide *;
    if Settled(source.decode, source.Value(j), 0) {
      if i == j + 1 {
        DiscoveredIsCovered(source, j);
      } else {
        EarlierIsCovered(source, i - 1, j);
        OneMoreRecord(source, i - 1);
        CoversGrows(source.decode, TreeBefore(source, i - 1), TreeBefore(source, i), source.Value(j), 0);
      }
    }
  }

  lemma DiscoveredIsCovered(source: Source, i: nat)
    requires 1 <= i < |source.records| && DecodesContainers(source.decode)
    requires source.Parses(i) && Discovered(source, i) && Settled(source.decode, source.Value(i), 0)
    ensures Covers(source.decode, TreeBefore(source, i + 1), source.Value(i), 0)
  {
    hide *;
    OneMoreRecord(source, i);
    DiscoverVisits(source.decode, source.Value(i), TreeBefore(source, i), 0);
  }

  /** One record changes the tree by its own discovery only. */
  lemma OneMoreRecord(source: Source, i: nat)
    requires 1 <= i < |source.records| && DecodesContainers(source.decode)
    ensures source.Parses(i) && Discovered(source, i) ==>
              TreeBefore(source, i + 1) == Discover(source.decode, source.Value(i), TreeBefore(source, i), 0).0
    ensures Subtree(TreeBefore(source, i), TreeBefore(source, i + 1))
  {
    var env := EnvOf(source);
    var (keys, tree) := env.History(i - 1);
    hide Discover, Known, Subtree;
    assert env.History(i) == if env.ParseError(i).Some? then (keys, tree)
                             else (env.observe(keys, env.Record(i)).0,
                                   if env.FullDiscovery(keys, i) then env.discover(tree, env.Record(i), i).0 else tree);
    SubtreeReflexive(tree);
    DiscoverVisits(source.decode, source.Value(i), tree, 0);
  }
}
