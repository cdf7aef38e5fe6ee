/**
  What the import pipeline does to one record: parseRecord, observeTopLevelKeySet and prepareParsedEvent in
  internal/ingest/ingest.go.
 */
module IngestRecords {
  import opened EmbeddedDiscovery
  import opened Wrappers

  const MAX_EVENT_SIZE: nat := 0x40_0000

  /** The bytes of a record: how many, and the value if they are JSON. */
  datatype Raw = Raw(size: nat, value: Option<Json>)

  datatype Row = Row(time: int, source: string, rawData: Json)

  datatype Error =
    | TooLarge(record: nat)
    | NotAnObject(record: nat)
    | NoTimeOrSource(record: nat)
    | DecodingFailed
    | NoEvents

  /** The top-level keys of the records observed so far, and the tree of embedded paths. */
  type Keys = set<seq<string>>
  type Tree = Node

  function ParseError(raw: Raw, i: nat): Option<Error> {
    if raw.size > MAX_EVENT_SIZE then Some(TooLarge(i))
    else if raw.value.None? || !raw.value.value.Object? then Some(NotAnObject(i))
    else None
  }

  function Value(raw: Raw): Json {
    if raw.value.Some? then raw.value.value else Null
  }

  function TopLevelKeys(v: Json): seq<string> {
    if v.Object? then seq(|v.members|, i requires 0 <= i < |v.members| => v.members[i].key) else []
  }

  /** The time and the source of a stored value, under the mapping of the dataset; None where one is missing. */
  type Mapping = Json -> Option<(int, string)>

  function RowOf(mapping: Mapping, stored: Json, i: nat): Result<Row, Error> {
    match mapping(stored)
    case None => Err(NoTimeOrSource(i))
    case Some((time, source)) => Ok(Row(time, source, stored))
  }
}
