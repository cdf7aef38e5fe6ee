/**
  The concurrent import pipeline of internal/ingest/ingest.go.

  One goroutine decodes records; up to four workers prepare them; two bounded
  channels connect the two sides, and a map reorders the results.  The first part
  defines the sequential loop the pipeline stands for.  The second part is the
  pipeline as a state machine: one action is one channel operation, one computation
  of a worker or one step of the decoder.  The third part proves that every schedule
  is safe, terminates, and ends with the outcome of the sequential loop.
*/
module IngestPipeline {
  import opened IngestRecords
  import opened Wrappers

  /** Records up to this one are always discovered in full. */
  const DISCOVERY_SAMPLE: nat := 5000

  // ----- The sequential reference ------------------------------------------------

  /** What the pipeline calls, and the input it reads.  Records are numbered from 1. */
  datatype Env = Env(
    parseError: (Raw, nat) -> Option<Error>,
    observe: (Keys, Raw) -> (Keys, bool),
    discover: (Tree, Raw, nat) -> (Tree, Result<Row, Error>),
    prepare: (Tree, Raw, nat) -> Result<Row, Error>,
    keys: Keys,
    tree: Tree,
    records: seq<Raw>,
    decoderError: Option<Error>,
    noEvents: Error,
    workers: nat)
  {
    predicate Valid() {
      1 <= workers <= 4
    }

    function Record(i: nat): Raw
      requires 1 <= i <= |records|
    {
      records[i - 1]
    }

    function ParseError(i: nat): Option<Error>
      requires 1 <= i <= |records|
    {
      parseError(Record(i), i)
    }

    /** The key sets and the path tree after records 1..i. */
    ghost function History(i: nat): (Keys, Tree)
      requires i <= |records|
    {
      if i == 0 then (keys, tree)
      else
        var (k, t) := History(i - 1);
        if ParseError(i).Some? then (k, t)
        else (observe(k, Record(i)).0,
              if FullDiscovery(k, i) then discover(t, Record(i), i).0 else t)
    }

    predicate FullDiscovery(k: Keys, i: nat)
      requires 1 <= i <= |records|
    {
      i <= DISCOVERY_SAMPLE || !observe(k, Record(i)).1
    }

    /** The result of record i when the records before it went first. */
    ghost function ResultAt(i: nat): Result<Row, Error>
      requires 1 <= i <= |records|
    {
      var (k, t) := History(i - 1);
      match ParseError(i)
      case Some(e) => Err(e)
      case None =>
        if FullDiscovery(k, i) then discover(t, Record(i), i).1 else prepare(t, Record(i), i)
    }
  }

  datatype Outcome = Committed(rows: seq<Row>, eventCount: nat) | Failed(error: Error)

  /** The import written as one loop: record i, then the records after it. */
  ghost function Sequential(
    env: Env, i: nat, k: Keys, t: Tree, rows: seq<Row>): Outcome
    requires 1 <= i <= |env.records| + 1
    decreases |env.records| + 1 - i
  {
    if i == |env.records| + 1 then
      match env.decoderError
      case Some(e) => Failed(e)
      case None => if i == 1 then Failed(env.noEvents) else Committed(rows, i - 1)
    else
      match env.ParseError(i)
      case Some(e) => Failed(e)
      case None =>
        var k' := env.observe(k, env.Record(i)).0;
        if env.FullDiscovery(k, i) then
          var (t', result) := env.discover(t, env.Record(i), i);
          match result
          case Err(e) => Failed(e)
          case Ok(row) => Sequential(env, i + 1, k', t', rows + [row])
        else
          match env.prepare(t, env.Record(i), i)
          case Err(e) => Failed(e)
          case Ok(row) => Sequential(env, i + 1, k', t, rows + [row])
  }

  ghost function Import(env: Env): Outcome {
    Sequential(env, 1, env.keys, env.tree, [])
  }

  /** The results of all records, each prepared after the records before it. */
  ghost function Expected(env: Env): seq<Result<Row, Error>> {
    seq(|env.records|, i requires 0 <= i < |env.records| => env.ResultAt(i + 1))
  }

  ghost predicate RowsMatch(expected: seq<Result<Row, Error>>, rows: seq<Row>) {
    |rows| <= |expected| && forall i :: 0 <= i < |rows| ==> expected[i] == Ok(rows[i])
  }

  lemma {:induction false} SequentialFrom(env: Env, i: nat, rows: seq<Row>)
    requires i <= |rows| && RowsMatch(Expected(env), rows)
    ensures Sequential(env, i + 1, env.History(i).0, env.History(i).1, rows[..i])
         == Sequential(env, |rows| + 1, env.History(|rows|).0, env.History(|rows|).1, rows)
    decreases |rows| - i
  {
    if i < |rows| {
      assert Expected(env)[i] == env.ResultAt(i + 1);
      assert rows[..i] + [rows[i]] == rows[..i + 1];
      SequentialFrom(env, i + 1, rows);
    } else {
      assert rows[..i] == rows;
    }
  }

  /** The loop stops at the lowest failing record and reports its error. */
  lemma ImportFails(env: Env, rows: seq<Row>)
    requires RowsMatch(Expected(env), rows) && |rows| < |env.records|
    requires Expected(env)[|rows|].Err?
    ensures Import(env) == Failed(Expected(env)[|rows|].error)
  {
    SequentialFrom(env, 0, rows);
  }

  /** Without a failing record the loop commits every row, unless decoding failed or found nothing. */
  lemma ImportCompletes(env: Env, rows: seq<Row>)
    requires RowsMatch(Expected(env), rows) && |rows| == |env.records|
    ensures Import(env) == if env.decoderError.Some? then Failed(env.decoderError.value)
                           else if rows == [] then Failed(env.noEvents)
                           else Committed(rows, |rows|)
  {
    SequentialFrom(env, 0, rows);
  }

  // ----- The pipeline as a state machine ------------------------------------------

  datatype Delivery = Delivery(index: nat, result: Result<Row, Error>)

  datatype Worker = Idle | Busy(index: nat) | Sending(delivery: Delivery)

  /** Why the decoder stopped: the value of decodeErr. */
  datatype Stop = Exhausted | StoppedBy(error: Error) | PipelineStopped

  datatype Decoder =
    | Reading
    | Throttled(index: nat)     // waiting for nextRecord to come close enough
    | Draining(index: nat)      // waiting for the jobs in flight before a discovery
    | Discovering(index: nat)   // changing the shared path tree
    | Dispatching(index: nat)   // offering a job to the workers
    | Finishing(stop: Stop)
    | Finished(outcome: Outcome)

  datatype Place = JobQueue | AtWorker(worker: nat) | ResultQueue

  /** The channels and the workers.  `flight` is a history variable, which no step depends on: where each record is. */
  datatype Channels = Channels(
    jobs: seq<nat>,
    workers: seq<Worker>,
    results: seq<Delivery>,
    flight: map<nat, Place>)

  /** The reorder buffer and the rows handed to writeEvent. */
  datatype Writer = Writer(nextRecord: nat, buffered: map<nat, Result<Row, Error>>, rows: seq<Row>)

  /** `accounted` is a history variable too: the last record that was dispatched or given to the writer. */
  datatype State = State(
    channels: Channels,
    writer: Writer,
    decoder: Decoder,
    delivered: nat,
    pendingJobs: int,
    keys: Keys,
    tree: Tree,
    accounted: nat)

  datatype Action = Decode(receive: bool) | Take(worker: nat) | Compute(worker: nat) | Send(worker: nat)

  ghost function Init(env: Env): State {
    State(Channels([], seq(env.workers, _ => Idle), [], map[]), Writer(1, map[], []),
          Reading, 0, 0, env.keys, env.tree, 0)
  }

  /** The loop of acceptResult: write what is ready, in order, up to a gap or an error. */
  function WriteReady(w: Writer): (Writer, Option<Error>)
    decreases |w.buffered|
  {
    if w.nextRecord !in w.buffered then (w, None)
    else
      var rest := w.buffered - {w.nextRecord};
      match w.buffered[w.nextRecord]
      case Err(e) => (w.(buffered := rest), Some(e))
      case Ok(row) =>
        assert |rest| < |w.buffered| by { Removal(w.buffered, w.nextRecord); }
        WriteReady(Writer(w.nextRecord + 1, rest, w.rows + [row]))
  }

  lemma Removal<V>(m: map<nat, V>, k: nat)
    requires k in m
    ensures |m - {k}| == |m| - 1
  {
    assert (m - {k}).Keys == m.Keys - {k};
  }

  function Accept(w: Writer, d: Delivery): (Writer, Option<Error>) {
    WriteReady(w.(buffered := w.buffered[d.index := d.result]))
  }

  /** A result goes through acceptResult; `decoder` is what happens when it reports no error. */
  function Deliver(s: State, d: Delivery, decoder: Decoder): State {
    var (writer, error) := Accept(s.writer, d);
    s.(writer := writer,
       decoder := if error.None? then decoder
                  else if s.decoder.Finishing? then Finished(Failed(error.value))
                  else Finishing(StoppedBy(error.value)))
  }

  /** Taking the first result off its channel. */
  function Received(c: Channels): Channels
    requires c.results != []
  {
    c.(results := c.results[1..], flight := c.flight - {c.results[0].index})
  }

  function Receive(s: State, decoder: Decoder): State
    requires s.channels.results != []
  {
    Deliver(s.(channels := Received(s.channels), pendingJobs := s.pendingJobs - 1), s.channels.results[0], decoder)
  }

  /** What a receive inside the decode callback leads to: an error that stays buffered stops the decoder. */
  function AfterReceive(s: State): Decoder
    requires s.channels.results != []
  {
    if s.channels.results[0].result.Err? then Finishing(PipelineStopped) else s.decoder
  }

  predicate Behind(env: Env, s: State, index: nat) {
    index - s.writer.nextRecord >= env.workers * 3
  }

  predicate DecoderEnabled(env: Env, s: State, receive: bool) {
    match s.decoder
    case Reading => true
    case Throttled(i) => 1 <= i <= |env.records| && (Behind(env, s, i) ==> s.channels.results != [])
    case Draining(i) => s.pendingJobs > 0 ==> s.channels.results != []
    case Discovering(i) => 1 <= i <= |env.records|
    case Dispatching(i) => if receive then s.channels.results != [] else |s.channels.jobs| < 2 * env.workers
    case Finishing(_) => s.pendingJobs > 0 ==> s.channels.results != []
    case Finished(_) => false
  }

  function DecoderStep(env: Env, s: State, receive: bool): State
    requires DecoderEnabled(env, s, receive)
  {
    match s.decoder
    case Reading =>
      if s.delivered < |env.records| then
        s.(delivered := s.delivered + 1, decoder := Throttled(s.delivered + 1))
      else
        s.(decoder := Finishing(if env.decoderError.Some? then StoppedBy(env.decoderError.value) else Exhausted))
    case Throttled(i) =>
      if Behind(env, s, i) then Receive(s, AfterReceive(s))
      else if env.ParseError(i).Some? then
        Deliver(s.(accounted := i), Delivery(i, Err(env.ParseError(i).value)), Finishing(PipelineStopped))
      else
        s.(keys := env.observe(s.keys, env.Record(i)).0,
           decoder := if env.FullDiscovery(s.keys, i) then Draining(i) else Dispatching(i))
    case Draining(i) =>
      if s.pendingJobs > 0 then Receive(s, s.decoder) else s.(decoder := Discovering(i))
    case Discovering(i) =>
      var (t, result) := env.discover(s.tree, env.Record(i), i);
      Deliver(s.(tree := t, accounted := i), Delivery(i, result), Reading)
    case Dispatching(i) =>
      if receive then Receive(s, AfterReceive(s)) else Dispatch(s, i)
    case Finishing(stop) =>
      if s.pendingJobs > 0 then Receive(s, s.decoder) else s.(decoder := Finished(FinalOutcome(env, s, stop)))
  }

  function Dispatch(s: State, i: nat): State {
    var c := s.channels;
    s.(channels := c.(jobs := c.jobs + [i], flight := c.flight[i := JobQueue]),
       pendingJobs := s.pendingJobs + 1, accounted := i, decoder := Reading)
  }

  /** The checks between the last drain and the commit. */
  function FinalOutcome(env: Env, s: State, stop: Stop): Outcome {
    var w := s.writer;
    if stop.StoppedBy? then Failed(stop.error)
    else if w.nextRecord in w.buffered && w.buffered[w.nextRecord].Err? then Failed(w.buffered[w.nextRecord].error)
    else if s.delivered == 0 then Failed(env.noEvents)
    else Committed(w.rows, s.delivered)
  }

  predicate Enabled(env: Env, s: State, a: Action) {
    var c := s.channels;
    !s.decoder.Finished? &&
    match a
    case Decode(receive) => DecoderEnabled(env, s, receive)
    case Take(w) => w < |c.workers| && c.workers[w].Idle? && c.jobs != []
    case Compute(w) => w < |c.workers| && c.workers[w].Busy? && 1 <= c.workers[w].index <= |env.records|
    case Send(w) => w < |c.workers| && c.workers[w].Sending? && |c.results| < 2 * env.workers
  }

  /** A worker reads whatever the shared tree holds when it computes. */
  function Step(env: Env, s: State, a: Action): State
    requires Enabled(env, s, a)
  {
    match a
    case Decode(receive) => DecoderStep(env, s, receive)
    case Take(w) => s.(channels := TakeJob(s.channels, w))
    case Compute(w) => s.(channels := ComputeResult(env, s.channels, w, s.tree))
    case Send(w) => s.(channels := SendResult(s.channels, w))
  }

  function TakeJob(c: Channels, w: nat): Channels
    requires w < |c.workers| && c.jobs != []
  {
    c.(workers := c.workers[w := Busy(c.jobs[0])], jobs := c.jobs[1..], flight := c.flight[c.jobs[0] := AtWorker(w)])
  }

  function ComputeResult(env: Env, c: Channels, w: nat, tree: Tree): Channels
    requires w < |c.workers| && c.workers[w].Busy? && 1 <= c.workers[w].index <= |env.records|
  {
    var i := c.workers[w].index;
    c.(workers := c.workers[w := Sending(Delivery(i, env.prepare(tree, env.Record(i), i)))])
  }

  function SendResult(c: Channels, w: nat): Channels
    requires w < |c.workers| && c.workers[w].Sending?
  {
    var d := c.workers[w].delivery;
    c.(workers := c.workers[w := Idle], results := c.results + [d], flight := c.flight[d.index := ResultQueue])
  }

  /** One schedule: a sequence of actions, each enabled where it is taken. */
  ghost predicate Schedule(env: Env, s: State, actions: seq<Action>)
    decreases |actions|
  {
    actions == [] || (Enabled(env, s, actions[0]) && Schedule(env, Step(env, s, actions[0]), actions[1..]))
  }

  ghost function Run(env: Env, s: State, actions: seq<Action>): State
    requires Schedule(env, s, actions)
    decreases |actions|
  {
    if actions == [] then s else Run(env, Step(env, s, actions[0]), actions[1..])
  }

  // ----- The invariant --------------------------------------------------------------

  ghost predicate Holds(w: Worker, i: nat) {
    w == Busy(i) || (w.Sending? && w.delivery.index == i)
  }

  ghost predicate InPlace(c: Channels, i: nat, place: Place) {
    match place
    case JobQueue => i in c.jobs
    case AtWorker(w) => w < |c.workers| && Holds(c.workers[w], i)
    case ResultQueue => exists r :: 0 <= r < |c.results| && c.results[r].index == i
  }

  ghost predicate JobsPlaced(jobs: seq<nat>, flight: map<nat, Place>) {
    && (forall j :: 0 <= j < |jobs| ==> jobs[j] in flight && flight[jobs[j]] == JobQueue)
    && (forall j, k :: 0 <= j < k < |jobs| ==> jobs[j] != jobs[k])
  }

  ghost predicate WorkersPlaced(workers: seq<Worker>, flight: map<nat, Place>) {
    forall w, i :: 0 <= w < |workers| && Holds(workers[w], i) ==> i in flight && flight[i] == AtWorker(w)
  }

  ghost predicate ResultsPlaced(results: seq<Delivery>, flight: map<nat, Place>) {
    && (forall r :: 0 <= r < |results| ==> results[r].index in flight && flight[results[r].index] == ResultQueue)
    && (forall r, q :: 0 <= r < q < |results| ==> results[r].index != results[q].index)
  }

  /** `flight` says where each record is, and there is no second copy of it. */
  ghost predicate GoodFlight(c: Channels) {
    && JobsPlaced(c.jobs, c.flight)
    && WorkersPlaced(c.workers, c.flight)
    && ResultsPlaced(c.results, c.flight)
    && AllPlaced(c)
  }

  ghost predicate AllPlaced(c: Channels) {
    forall i :: i in c.flight ==> InPlace(c, i, c.flight[i])
  }

  /** A job waiting for or held by a worker: its result does not depend on when the worker reads the tree. */
  ghost predicate GoodJob(env: Env, expected: seq<Result<Row, Error>>, tree: Tree, i: nat) {
    1 <= i <= |env.records| == |expected| && env.prepare(tree, env.Record(i), i) == expected[i - 1]
  }

  ghost predicate GoodDelivery(expected: seq<Result<Row, Error>>, d: Delivery) {
    1 <= d.index <= |expected| && d.result == expected[d.index - 1]
  }

  ghost predicate GoodWorker(env: Env, expected: seq<Result<Row, Error>>, tree: Tree, w: Worker) {
    match w
    case Idle => true
    case Busy(i) => GoodJob(env, expected, tree, i)
    case Sending(d) => GoodDelivery(expected, d)
  }

  ghost predicate GoodChannels(env: Env, expected: seq<Result<Row, Error>>, tree: Tree, c: Channels) {
    && |c.workers| == env.workers
    && |c.jobs| <= 2 * env.workers
    && |c.results| <= 2 * env.workers
    && (forall j :: 0 <= j < |c.jobs| ==> GoodJob(env, expected, tree, c.jobs[j]))
    && (forall w :: 0 <= w < |c.workers| ==> GoodWorker(env, expected, tree, c.workers[w]))
    && (forall r :: 0 <= r < |c.results| ==> GoodDelivery(expected, c.results[r]))
  }

  /** The reorder buffer: right results, none for a record already written. */
  ghost predicate GoodWriter(expected: seq<Result<Row, Error>>, w: Writer, accounted: nat) {
    && accounted <= |expected|
    && w.nextRecord == |w.rows| + 1 <= accounted + 1
    && RowsMatch(expected, w.rows)
    && (forall i :: i in w.buffered ==> w.nextRecord < i <= accounted && w.buffered[i] == expected[i - 1])
  }

  /** A record in flight is neither written nor buffered. */
  ghost predicate Separate(w: Writer, flight: set<nat>, accounted: nat) {
    forall i :: i in flight ==> w.nextRecord <= i <= accounted && i !in w.buffered
  }

  /** Each record accounted for and not written is buffered or in flight. */
  ghost predicate Covered(w: Writer, flight: set<nat>, accounted: nat) {
    forall i :: w.nextRecord <= i <= accounted ==> i in w.buffered || i in flight
  }

  ghost predicate FailedHere(expected: seq<Result<Row, Error>>, w: Writer, e: Error) {
    1 <= w.nextRecord <= |expected| && expected[w.nextRecord - 1] == Err(e)
  }

  ghost predicate FailureAhead(expected: seq<Result<Row, Error>>, w: Writer, accounted: nat) {
    exists k :: w.nextRecord - 1 <= k < accounted && 0 <= k < |expected| && expected[k].Err?
  }

  /** What holds while record `i` is between being decoded and being accounted for. */
  ghost predicate Admitted(env: Env, s: State, i: nat, full: bool) {
    && 1 <= i == s.delivered == s.accounted + 1 <= |env.records|
    && i < s.writer.nextRecord + 3 * env.workers
    && env.ParseError(i).None?
    && full == env.FullDiscovery(env.History(i - 1).0, i)
    && s.keys == env.History(i).0
    && s.tree == env.History(i - 1).1
  }

  ghost predicate GoodDecoder(env: Env, expected: seq<Result<Row, Error>>, s: State) {
    && s.delivered <= |env.records|
    && match s.decoder
       case Reading => s.accounted == s.delivered && (s.keys, s.tree) == env.History(s.accounted)
       case Throttled(i) => i == s.delivered == s.accounted + 1 && (s.keys, s.tree) == env.History(s.accounted)
       case Draining(i) => Admitted(env, s, i, true)
       case Discovering(i) => Admitted(env, s, i, true) && s.pendingJobs == 0
       case Dispatching(i) => Admitted(env, s, i, false)
       case Finishing(Exhausted) => s.delivered == s.accounted == |env.records| && env.decoderError.None?
       case Finishing(StoppedBy(e)) => s.delivered == s.accounted == |env.records| && env.decoderError == Some(e)
       case Finishing(PipelineStopped) => FailureAhead(expected, s.writer, s.accounted)
       case Finished(_) => false
  }

  /** The pipeline works on, or it stopped at the lowest failing record, or it finished. */
  ghost predicate Working(env: Env, expected: seq<Result<Row, Error>>, s: State) {
    Covered(s.writer, s.channels.flight.Keys, s.accounted) && GoodDecoder(env, expected, s)
  }

  ghost predicate StoppedHere(expected: seq<Result<Row, Error>>, s: State) {
    s.decoder.Finishing? && s.decoder.stop.StoppedBy? && FailedHere(expected, s.writer, s.decoder.stop.error)
  }

  ghost predicate InFlightWell(env: Env, expected: seq<Result<Row, Error>>, s: State) {
    && GoodChannels(env, expected, s.tree, s.channels)
    && GoodFlight(s.channels)
    && s.pendingJobs == |s.channels.flight|
    && GoodWriter(expected, s.writer, s.accounted)
    && s.accounted < s.writer.nextRecord + 3 * env.workers
    && Separate(s.writer, s.channels.flight.Keys, s.accounted)
  }

  ghost predicate Inv(env: Env, expected: seq<Result<Row, Error>>, s: State) {
    && env.Valid()
    && if s.decoder.Finished? then s.decoder.outcome == Import(env)
       else InFlightWell(env, expected, s) && (Working(env, expected, s) || StoppedHere(expected, s))
  }

  // ----- acceptResult -------------------------------------------------------------------

  lemma {:induction false} WriteReadyKeeps(expected: seq<Result<Row, Error>>, w: Writer, accounted: nat)
    requires w.nextRecord == |w.rows| + 1 <= accounted + 1 && accounted <= |expected| && RowsMatch(expected, w.rows)
    requires forall i :: i in w.buffered ==> w.nextRecord <= i <= accounted && w.buffered[i] == expected[i - 1]
    ensures var (w', error) := WriteReady(w);
            && w.nextRecord <= w'.nextRecord
            && GoodWriter(expected, w', accounted)
            && (forall i :: i in w.buffered && w'.nextRecord < i ==> i in w'.buffered)
            && w'.buffered.Keys <= w.buffered.Keys
            && (forall i :: w.nextRecord <= i < w'.nextRecord ==> i in w.buffered)
            && (error.None? ==> w'.nextRecord !in w.buffered)
            && (error.Some? ==> w'.nextRecord in w.buffered && FailedHere(expected, w', error.value))
    decreases |w.buffered|
  {
    if w.nextRecord in w.buffered && w.buffered[w.nextRecord].Ok? {
      Removal(w.buffered, w.nextRecord);
      var next := Writer(w.nextRecord + 1, w.buffered - {w.nextRecord}, w.rows + [w.buffered[w.nextRecord].value]);
      WriteReadyKeeps(expected, next, accounted);
      forall i | w.nextRecord <= i < WriteReady(w).0.nextRecord
        ensures i in w.buffered
      {
        assert i == w.nextRecord || i in next.buffered;
      }
    }
  }

  /** Accepting the result of a record that was in no place leaves the writer good and loses no record. */
  lemma AcceptKeeps(expected: seq<Result<Row, Error>>, w: Writer, d: Delivery, flight: set<nat>, accounted: nat)
    requires GoodWriter(expected, w, accounted) && Separate(w, flight, accounted)
    requires GoodDelivery(expected, d) && w.nextRecord <= d.index <= accounted
    requires d.index !in w.buffered && d.index !in flight
    ensures var (w', error) := Accept(w, d);
            && GoodWriter(expected, w', accounted) && Separate(w', flight, accounted)
            && w.nextRecord <= w'.nextRecord
            && (error.None? && Covered(w, flight + {d.index}, accounted) ==> Covered(w', flight, accounted))
            && (error.Some? ==> FailedHere(expected, w', error.value))
            && (error.None? && d.result.Err? ==> w'.nextRecord <= d.index)
  {
    var b := w.(buffered := w.buffered[d.index := d.result]);
    WriteReadyKeeps(expected, b, accounted);
    var (w', error) := Accept(w, d);
    forall i | i in flight
      ensures w'.nextRecord <= i
    {
      assert i !in b.buffered;
    }
  }

  // ----- One action -----------------------------------------------------------------------

  lemma TakeKeeps(env: Env, expected: seq<Result<Row, Error>>, tree: Tree, c: Channels, w: nat)
    requires GoodChannels(env, expected, tree, c) && GoodFlight(c)
    requires w < |c.workers| && c.workers[w].Idle? && c.jobs != []
    ensures var c' := TakeJob(c, w);
            GoodChannels(env, expected, tree, c') && GoodFlight(c') && c'.flight.Keys == c.flight.Keys
  {
    var c' := TakeJob(c, w);
    forall i | i in c'.flight
      ensures InPlace(c', i, c'.flight[i])
    {
      assert InPlace(c, i, c.flight[i]);
    }
  }

  lemma ComputeKeeps(env: Env, expected: seq<Result<Row, Error>>, tree: Tree, c: Channels, w: nat)
    requires GoodChannels(env, expected, tree, c) && GoodFlight(c)
    requires w < |c.workers| && c.workers[w].Busy?
    ensures var c' := ComputeResult(env, c, w, tree);
            GoodChannels(env, expected, tree, c') && GoodFlight(c') && c'.flight.Keys == c.flight.Keys
  {
    var c' := ComputeResult(env, c, w, tree);
    forall i | i in c'.flight
      ensures InPlace(c', i, c'.flight[i])
    {
      assert InPlace(c, i, c.flight[i]);
    }
  }

  lemma SendKeepsChannels(env: Env, expected: seq<Result<Row, Error>>, tree: Tree, c: Channels, w: nat)
    requires GoodChannels(env, expected, tree, c)
    requires w < |c.workers| && c.workers[w].Sending? && |c.results| < 2 * env.workers
    ensures GoodChannels(env, expected, tree, SendResult(c, w))
  {
    assert GoodWorker(env, expected, tree, c.workers[w]);
  }

  lemma SendKeepsFlight(c: Channels, w: nat)
    requires GoodFlight(c)
    requires w < |c.workers| && c.workers[w].Sending?
    ensures GoodFlight(SendResult(c, w)) && SendResult(c, w).flight.Keys == c.flight.Keys
  {
    var c', d := SendResult(c, w), c.workers[w].delivery;
    hide JobsPlaced, WorkersPlaced, ResultsPlaced, AllPlaced;
    WorkerFreed(c, w);
    ResultPlaced(c.results, c.flight, d);
    AllPlacedSent(c, w);
  }

  lemma WorkerFreed(c: Channels, w: nat)
    requires JobsPlaced(c.jobs, c.flight) && WorkersPlaced(c.workers, c.flight)
    requires w < |c.workers| && c.workers[w].Sending?
    ensures var i, c' := c.workers[w].delivery.index, SendResult(c, w);
            && i in c.flight && c.flight[i] == AtWorker(w)
            && JobsPlaced(c'.jobs, c'.flight) && WorkersPlaced(c'.workers, c'.flight)
  {
    assert Holds(c.workers[w], c.workers[w].delivery.index);
  }

  lemma ResultPlaced(results: seq<Delivery>, flight: map<nat, Place>, d: Delivery)
    requires ResultsPlaced(results, flight) && d.index in flight && !flight[d.index].ResultQueue?
    ensures ResultsPlaced(results + [d], flight[d.index := ResultQueue])
  {}

  lemma AllPlacedSent(c: Channels, w: nat)
    requires AllPlaced(c) && w < |c.workers| && c.workers[w].Sending?
    ensures AllPlaced(SendResult(c, w))
  {
    var c', d := SendResult(c, w), c.workers[w].delivery;
    assert c'.results[|c.results|] == d;
    forall i | i in c'.flight
      ensures InPlace(c', i, c'.flight[i])
    {
      if i != d.index {
        assert InPlace(c, i, c.flight[i]);
        if c.flight[i].ResultQueue? {
          var r :| 0 <= r < |c.results| && c.results[r].index == i;
          assert c'.results[r].index == i;
        }
      }
    }
  }

  lemma ReceiveKeepsFlight(c: Channels)
    requires GoodFlight(c) && c.results != []
    ensures GoodFlight(Received(c))
  {
    RestStaysPlaced(c.results, c.flight);
    AllStayPlaced(c);
  }

  lemma ReceiveKeepsChannels(env: Env, expected: seq<Result<Row, Error>>, tree: Tree, c: Channels)
    requires GoodChannels(env, expected, tree, c) && c.results != []
    ensures GoodChannels(env, expected, tree, Received(c)) && GoodDelivery(expected, c.results[0])
  {}

  lemma ReceiveCounts(c: Channels)
    requires GoodFlight(c) && c.results != []
    ensures var i := c.results[0].index;
            && i in c.flight
            && Received(c).flight.Keys == c.flight.Keys - {i}
            && |Received(c).flight| == |c.flight| - 1
  {
    Removal(c.flight, c.results[0].index);
  }

  lemma RestStaysPlaced(results: seq<Delivery>, flight: map<nat, Place>)
    requires results != [] && ResultsPlaced(results, flight)
    ensures ResultsPlaced(results[1..], flight - {results[0].index})
  {
    forall r | 0 <= r < |results| - 1
      ensures results[1..][r] == results[r + 1] && results[r + 1].index != results[0].index
    {}
  }

  lemma AllStayPlaced(c: Channels)
    requires AllPlaced(c) && c.results != []
    ensures AllPlaced(Received(c))
  {
    forall i | i in Received(c).flight
      ensures InPlace(Received(c), i, Received(c).flight[i])
    {
      RestStaysInPlace(c, i);
    }
  }

  lemma RestStaysInPlace(c: Channels, k: nat)
    requires c.results != [] && k != c.results[0].index
    requires k in c.flight && InPlace(c, k, c.flight[k])
    ensures InPlace(Received(c), k, c.flight[k])
  {
    if c.flight[k].ResultQueue? {
      var r :| 0 <= r < |c.results| && c.results[r].index == k;
      assert Received(c).results[r - 1].index == k;
    }
  }

  /** What a delivery leads to: the pipeline goes on, or it reports the lowest failing record. */
  ghost predicate Delivered(env: Env, expected: seq<Result<Row, Error>>, s: State, decoder: Decoder,
                            error: Option<Error>) {
    && InFlightWell(env, expected, s)
    && (error.None? ==> s.decoder == decoder)
    && (error.Some? ==>
          && FailedHere(expected, s.writer, error.value)
          && s.decoder in {Finishing(StoppedBy(error.value)), Finished(Failed(error.value))})
  }

  lemma ReceivedAccepted(expected: seq<Result<Row, Error>>, c: Channels, w: Writer, accounted: nat)
    returns (error: Option<Error>)
    requires GoodFlight(c) && c.results != [] && GoodDelivery(expected, c.results[0])
    requires GoodWriter(expected, w, accounted) && Separate(w, c.flight.Keys, accounted)
    ensures |Received(c).flight| == |c.flight| - 1
    ensures var (w', e) := Accept(w, c.results[0]);
            && error == e
            && GoodWriter(expected, w', accounted) && Separate(w', Received(c).flight.Keys, accounted)
            && w.nextRecord <= w'.nextRecord
            && (error.None? && Covered(w, c.flight.Keys, accounted) ==> Covered(w', Received(c).flight.Keys, accounted))
            && (error.Some? ==> FailedHere(expected, w', error.value))
            && (error.None? && c.results[0].result.Err? ==> FailureAhead(expected, w', accounted))
  {
    hide Accept, WriteReady, GoodFlight, GoodWriter, RowsMatch, Covered, FailedHere;
    var d := c.results[0];
    ReceiveCounts(c);
    AcceptKeeps(expected, w, d, Received(c).flight.Keys, accounted);
    assert Received(c).flight.Keys + {d.index} == c.flight.Keys;
    error := Accept(w, d).1;
    if error.None? && d.result.Err? {
      assert expected[d.index - 1].Err?;
    }
  }

  lemma ReceiveStep(env: Env, expected: seq<Result<Row, Error>>, s: State, decoder: Decoder)
    returns (error: Option<Error>)
    requires InFlightWell(env, expected, s) && s.channels.results != []
    ensures Delivered(env, expected, Receive(s, decoder), decoder, error)
    ensures s.decoder.Finishing? && error.Some? ==> Receive(s, decoder).decoder.Finished?
    ensures var (w, flight) := (Receive(s, decoder).writer, Receive(s, decoder).channels.flight.Keys);
            && s.writer.nextRecord <= w.nextRecord
            && (error.None? && Covered(s.writer, s.channels.flight.Keys, s.accounted) ==>
                Covered(w, flight, s.accounted))
            && (error.None? && s.channels.results[0].result.Err? ==> FailureAhead(expected, w, s.accounted))
  {
    var c, d := s.channels, s.channels.results[0];
    ReceiveKeepsChannels(env, expected, s.tree, c);
    ReceiveKeepsFlight(c);
    error := ReceivedAccepted(expected, c, s.writer, s.accounted);
  }

  /** The decoder hands the result of the record it is working on to the writer itself. */
  lemma OwnDelivery(env: Env, expected: seq<Result<Row, Error>>, s: State, result: Result<Row, Error>, decoder: Decoder)
    returns (error: Option<Error>)
    requires InFlightWell(env, expected, s) && Covered(s.writer, s.channels.flight.Keys, s.accounted)
    requires s.accounted < |expected| && result == expected[s.accounted]
    requires s.accounted + 1 < s.writer.nextRecord + 3 * env.workers
    ensures var s' := Deliver(s.(accounted := s.accounted + 1), Delivery(s.accounted + 1, result), decoder);
            && Delivered(env, expected, s', decoder, error)
            && (!s.decoder.Finishing? && error.Some? ==> s'.decoder.Finishing?)
            && (error.None? ==> Covered(s'.writer, s'.channels.flight.Keys, s'.accounted))
            && (error.None? && result.Err? ==> FailureAhead(expected, s'.writer, s'.accounted))
  {
    var i := s.accounted + 1;
    AccountsForNext(expected, s.writer, s.channels.flight.Keys, s.accounted);
    hide Accept, WriteReady, GoodChannels, GoodFlight, GoodWriter, RowsMatch, Covered, FailedHere, Separate;
    AcceptKeeps(expected, s.writer, Delivery(i, result), s.channels.flight.Keys, i);
    error := Accept(s.writer, Delivery(i, result)).1;
    if error.None? && result.Err? {
      assert expected[i - 1].Err?;
    }
  }

  ghost predicate Quiet(c: Channels) {
    && c.jobs == [] && c.results == []
    && (forall w :: 0 <= w < |c.workers| ==> c.workers[w].Idle?)
  }

  lemma FlightIsQuietOrNot(c: Channels)
    requires GoodFlight(c)
    ensures Quiet(c) <==> c.flight == map[]
  {
    if w: nat :| w < |c.workers| && !c.workers[w].Idle? {
      var i := if c.workers[w].Busy? then c.workers[w].index else c.workers[w].delivery.index;
      assert Holds(c.workers[w], i);
      assert i in c.flight;
    } else if c.jobs != [] {
      assert c.jobs[0] in c.flight;
    } else if c.results != [] {
      assert c.results[0].index in c.flight;
    } else if i :| i in c.flight {
      InFlightIsNotQuiet(c, i);
    }
  }

  lemma InFlightIsNotQuiet(c: Channels, i: nat)
    requires GoodFlight(c) && i in c.flight
    ensures !Quiet(c)
  {
    assert InPlace(c, i, c.flight[i]);
  }

  /** Where the decoder can be found after one of its steps that did not end the run. */
  lemma DecoderKeeps(env: Env, expected: seq<Result<Row, Error>>, s: State, receive: bool)
    requires Inv(env, expected, s) && expected == Expected(env)
    requires Enabled(env, s, Decode(receive)) && Working(env, expected, s)
    ensures Inv(env, expected, DecoderStep(env, s, receive))
  {
    hide GoodChannels, GoodFlight, GoodWriter, Separate, Covered, RowsMatch, Expected, Import, Accept, Deliver,
        Dispatch, FinalOutcome;
    match s.decoder
    case Reading =>
    case Throttled(i) => ThrottledKeeps(env, expected, s, i);
    case Draining(i) =>
      if s.pendingJobs > 0 {
        ReceivedWhileDraining(env, expected, s);
      }
    case Discovering(i) => DiscoveryKeeps(env, expected, s, i);
    case Dispatching(i) =>
      if receive {
        ReceivedInCallback(env, expected, s);
      } else {
        DispatchKeeps(env, expected, s, i);
      }
    case Finishing(stop) =>
      if s.pendingJobs > 0 {
        ReceivedAtEnd(env, expected, s);
      } else {
        FinalOutcomeIsSequential(env, expected, s, stop);
      }
  }

  lemma ThrottledKeeps(env: Env, expected: seq<Result<Row, Error>>, s: State, i: nat)
    requires Inv(env, expected, s) && expected == Expected(env) && Working(env, expected, s)
    requires s.decoder == Throttled(i) && Enabled(env, s, Decode(false))
    ensures Inv(env, expected, DecoderStep(env, s, false))
  {
    hide GoodChannels, GoodFlight, GoodWriter, Separate, Covered, RowsMatch, Expected, Import, Accept, Deliver;
    if Behind(env, s, i) {
      ReceivedInCallback(env, expected, s);
    } else if env.ParseError(i).Some? {
      var result := Err(env.ParseError(i).value);
      ParseErrorExpected(env, i);
      var error := OwnDelivery(env, expected, s, result, Finishing(PipelineStopped));
      Untouched(s.(accounted := i), Delivery(i, result), Finishing(PipelineStopped));
    }
  }

  lemma Untouched(s: State, d: Delivery, decoder: Decoder)
    ensures var s' := Deliver(s, d, decoder);
            s' == s.(writer := s'.writer, decoder := s'.decoder)
  {}

  lemma ParseErrorExpected(env: Env, i: nat)
    requires 1 <= i <= |env.records| && env.ParseError(i).Some?
    ensures |Expected(env)| == |env.records| && Expected(env)[i - 1] == Err(env.ParseError(i).value)
  {}

  lemma ReceivedWhileDraining(env: Env, expected: seq<Result<Row, Error>>, s: State)
    requires Inv(env, expected, s) && expected == Expected(env) && Working(env, expected, s)
    requires s.decoder.Draining? && s.channels.results != []
    ensures Inv(env, expected, Receive(s, s.decoder))
  {
    hide GoodChannels, GoodFlight, GoodWriter, Separate, Covered, RowsMatch, Expected, Import, Accept;
    var error := ReceiveStep(env, expected, s, s.decoder);
  }

  lemma ReceivedInCallback(env: Env, expected: seq<Result<Row, Error>>, s: State)
    requires Inv(env, expected, s) && expected == Expected(env) && Working(env, expected, s)
    requires (s.decoder.Throttled? || s.decoder.Dispatching?) && s.channels.results != []
    ensures Inv(env, expected, Receive(s, AfterReceive(s)))
  {
    hide GoodChannels, GoodFlight, GoodWriter, Separate, Covered, RowsMatch, Expected, Import, Accept;
    var error := ReceiveStep(env, expected, s, AfterReceive(s));
  }

  lemma ExpectedLength(env: Env)
    ensures |Expected(env)| == |env.records|
  {}

  lemma ReceivedAtEnd(env: Env, expected: seq<Result<Row, Error>>, s: State)
    requires Inv(env, expected, s) && expected == Expected(env)
    requires s.decoder.Finishing? && s.channels.results != []
    ensures Inv(env, expected, Receive(s, s.decoder))
  {
    hide GoodChannels, GoodFlight, Separate, Covered, Import, Expected, Accept, Received;
    var error := ReceiveStep(env, expected, s, s.decoder);
    if error.Some? {
      ExpectedLength(env);
      ImportFails(env, Receive(s, s.decoder).writer.rows);
    }
  }

  lemma QuietTakesAnyTree(env: Env, expected: seq<Result<Row, Error>>, s: State, tree: Tree)
    requires InFlightWell(env, expected, s) && s.pendingJobs == 0
    ensures InFlightWell(env, expected, s.(tree := tree))
  {
    FlightIsQuietOrNot(s.channels);
    assert GoodChannels(env, expected, tree, s.channels);
  }

  lemma DiscoveryKeeps(env: Env, expected: seq<Result<Row, Error>>, s: State, i: nat)
    requires Inv(env, expected, s) && expected == Expected(env) && Working(env, expected, s)
    requires s.decoder == Discovering(i)
    ensures Inv(env, expected, DecoderStep(env, s, false))
  {
    var (t, result) := env.discover(s.tree, env.Record(i), i);
    assert result == env.ResultAt(i) == expected[i - 1];
    assert env.History(i).1 == t;
    QuietTakesAnyTree(env, expected, s, t);
    var error := OwnDelivery(env, expected, s.(tree := t), result, Reading);
  }

  lemma DispatchKeepsFlight(c: Channels, i: nat)
    requires GoodFlight(c) && i !in c.flight
    ensures var c' := c.(jobs := c.jobs + [i], flight := c.flight[i := JobQueue]);
            GoodFlight(c') && |c'.flight| == |c.flight| + 1 && c'.flight.Keys == c.flight.Keys + {i}
  {
    var c' := c.(jobs := c.jobs + [i], flight := c.flight[i := JobQueue]);
    hide JobsPlaced, WorkersPlaced, ResultsPlaced, AllPlaced;
    Addition(c.flight, i, JobQueue);
    JobQueued(c.jobs, c.flight, i);
    OthersPlaced(c.workers, c.results, c.flight, i);
    AllPlacedQueued(c, i);
  }

  lemma Addition<V>(m: map<nat, V>, k: nat, v: V)
    requires k !in m
    ensures |m[k := v]| == |m| + 1
  {
    assert m[k := v] - {k} == m;
    Removal(m[k := v], k);
  }

  lemma OthersPlaced(workers: seq<Worker>, results: seq<Delivery>, flight: map<nat, Place>, i: nat)
    requires WorkersPlaced(workers, flight) && ResultsPlaced(results, flight) && i !in flight
    ensures WorkersPlaced(workers, flight[i := JobQueue]) && ResultsPlaced(results, flight[i := JobQueue])
  {}

  lemma JobQueued(jobs: seq<nat>, flight: map<nat, Place>, i: nat)
    requires JobsPlaced(jobs, flight) && i !in flight
    ensures JobsPlaced(jobs + [i], flight[i := JobQueue])
  {}

  lemma AllPlacedQueued(c: Channels, i: nat)
    requires AllPlaced(c) && i !in c.flight
    ensures AllPlaced(c.(jobs := c.jobs + [i], flight := c.flight[i := JobQueue]))
  {
    var c' := c.(jobs := c.jobs + [i], flight := c.flight[i := JobQueue]);
    assert c'.jobs[|c.jobs|] == i;
    forall k | k in c'.flight
      ensures InPlace(c', k, c'.flight[k])
    {
      if k != i {
        assert InPlace(c, k, c.flight[k]);
      }
    }
  }

  lemma DispatchKeeps(env: Env, expected: seq<Result<Row, Error>>, s: State, i: nat)
    requires Inv(env, expected, s) && expected == Expected(env) && Working(env, expected, s)
    requires s.decoder == Dispatching(i) && |s.channels.jobs| < 2 * env.workers
    ensures Inv(env, expected, Dispatch(s, i))
  {
    hide GoodFlight, GoodChannels, GoodJob, GoodWriter, Separate, Covered, RowsMatch, Expected, Import;
    OrdinaryJob(env, s, i);
    AccountsForNext(expected, s.writer, s.channels.flight.Keys, s.accounted);
    DispatchKeepsChannels(env, expected, s.tree, s.channels, i);
    DispatchKeepsFlight(s.channels, i);
  }

  lemma OrdinaryJob(env: Env, s: State, i: nat)
    requires Admitted(env, s, i, false)
    ensures GoodJob(env, Expected(env), s.tree, i) && (s.keys, s.tree) == env.History(i)
  {
    assert Expected(env)[i - 1] == env.ResultAt(i);
  }

  lemma AccountsForNext(expected: seq<Result<Row, Error>>, w: Writer, flight: set<nat>, accounted: nat)
    requires GoodWriter(expected, w, accounted) && Separate(w, flight, accounted) && Covered(w, flight, accounted)
    requires accounted < |expected|
    ensures var next := accounted + 1;
            && next !in flight && next !in w.buffered && w.nextRecord <= next
            && GoodWriter(expected, w, next)
            && Separate(w, flight, next)
            && Separate(w, flight + {next}, next)
            && Covered(w, flight + {next}, next)
  {}

  lemma DispatchKeepsChannels(env: Env, expected: seq<Result<Row, Error>>, tree: Tree, c: Channels, i: nat)
    requires GoodChannels(env, expected, tree, c) && GoodJob(env, expected, tree, i) && |c.jobs| < 2 * env.workers
    ensures GoodChannels(env, expected, tree, c.(jobs := c.jobs + [i], flight := c.flight[i := JobQueue]))
  {}

  /** After the last drain no record is missing, so the outcome is that of the loop. */
  lemma FinalOutcomeIsSequential(env: Env, expected: seq<Result<Row, Error>>, s: State, stop: Stop)
    requires Inv(env, expected, s) && expected == Expected(env)
    requires s.decoder == Finishing(stop) && s.pendingJobs == 0
    ensures FinalOutcome(env, s, stop) == Import(env)
  {
    var w := s.writer;
    if StoppedHere(expected, s) {
      ImportFails(env, w.rows);
    } else {
      assert s.channels.flight == map[];
      assert w.nextRecord !in w.buffered;
      assert w.nextRecord == s.accounted + 1;
      ImportCompletes(env, w.rows);
    }
  }

  lemma ChannelStepKeeps(env: Env, expected: seq<Result<Row, Error>>, s: State, c: Channels)
    requires Inv(env, expected, s) && !s.decoder.Finished?
    requires GoodChannels(env, expected, s.tree, c) && GoodFlight(c) && c.flight.Keys == s.channels.flight.Keys
    requires |c.flight| == |s.channels.flight|
    ensures Inv(env, expected, s.(channels := c))
  {
    hide GoodChannels, GoodFlight, GoodWriter, Separate, Covered, Import, FailureAhead;
  }

  lemma SameSize(a: map<nat, Place>, b: map<nat, Place>)
    requires a.Keys == b.Keys
    ensures |a| == |b|
  {
    assert |a| == |a.Keys| && |b| == |b.Keys|;
  }

  lemma WorkerStepKeeps(env: Env, expected: seq<Result<Row, Error>>, s: State, a: Action)
    requires Inv(env, expected, s) && Enabled(env, s, a) && !a.Decode?
    ensures Inv(env, expected, Step(env, s, a))
  {
    hide GoodChannels, GoodFlight, GoodWriter, Separate, Covered, Import, GoodDecoder, StoppedHere, Inv, TakeJob,
        ComputeResult, SendResult;
    var c := s.channels;
    InvChannels(env, expected, s);
    match a
    case Take(w) =>
      TakeKeeps(env, expected, s.tree, c, w);
      SameSize(TakeJob(c, w).flight, c.flight);
      ChannelStepKeeps(env, expected, s, TakeJob(c, w));
    case Compute(w) =>
      ComputeKeeps(env, expected, s.tree, c, w);
      SameSize(ComputeResult(env, c, w, s.tree).flight, c.flight);
      ChannelStepKeeps(env, expected, s, ComputeResult(env, c, w, s.tree));
    case Send(w) =>
      SendKeepsChannels(env, expected, s.tree, c, w);
      SendKeepsFlight(c, w);
      SameSize(SendResult(c, w).flight, c.flight);
      ChannelStepKeeps(env, expected, s, SendResult(c, w));
  }

  lemma InvChannels(env: Env, expected: seq<Result<Row, Error>>, s: State)
    requires Inv(env, expected, s) && !s.decoder.Finished?
    ensures GoodChannels(env, expected, s.tree, s.channels) && GoodFlight(s.channels)
  {}

  lemma StepKeepsInv(env: Env, expected: seq<Result<Row, Error>>, s: State, a: Action)
    requires Inv(env, expected, s) && expected == Expected(env) && Enabled(env, s, a)
    ensures Inv(env, expected, Step(env, s, a))
  {
    hide GoodChannels, GoodFlight, GoodWriter, Separate, Covered, Import, GoodDecoder, Expected, Deliver, Dispatch;
    if !a.Decode? {
      WorkerStepKeeps(env, expected, s, a);
    } else if Working(env, expected, s) {
      DecoderKeeps(env, expected, s, a.receive);
    } else if s.pendingJobs > 0 {
      ReceivedAtEnd(env, expected, s);
    } else {
      FinalOutcomeIsSequential(env, expected, s, s.decoder.stop);
    }
  }

  // ----- Every schedule -----------------------------------------------------------------

  lemma InitInv(env: Env)
    requires env.Valid()
    ensures Inv(env, Expected(env), Init(env))
  {}

  lemma {:induction false} RunKeepsInv(env: Env, s: State, actions: seq<Action>)
    requires Inv(env, Expected(env), s) && Schedule(env, s, actions)
    ensures Inv(env, Expected(env), Run(env, s, actions))
    decreases |actions|
  {
    if actions != [] {
      hide Inv, Expected, Enabled, Step;
      StepKeepsInv(env, Expected(env), s, actions[0]);
      RunKeepsInv(env, Step(env, s, actions[0]), actions[1..]);
    }
  }

  /** Safety: whatever the schedule, a finished pipeline reports what the sequential loop reports. */
  lemma EveryScheduleIsSequential(env: Env, actions: seq<Action>)
    requires env.Valid() && Schedule(env, Init(env), actions)
    ensures var s := Run(env, Init(env), actions);
            s.decoder.Finished? ==> s.decoder.outcome == Import(env)
  {
    InitInv(env);
    RunKeepsInv(env, Init(env), actions);
  }

  /** Progress: while the pipeline is not finished some action is enabled. */
  lemma NoDeadlock(env: Env, s: State) returns (a: Action)
    requires Inv(env, Expected(env), s) && !s.decoder.Finished?
    ensures Enabled(env, s, a)
  {
    var c := s.channels;
    if !Quiet(c) {
      a := ChannelAction(env, s);
      if c.results != [] {
        a := Decode(true);
        DecoderReceives(env, s);
        if !Enabled(env, s, a) {
          a := Decode(false);
        }
      }
    } else {
      a := Decode(false);
      QuietDecoder(env, s);
    }
  }

  lemma ChannelAction(env: Env, s: State) returns (a: Action)
    requires Inv(env, Expected(env), s) && !s.decoder.Finished? && !Quiet(s.channels)
    ensures s.channels.results == [] ==> Enabled(env, s, a)
  {
    var c := s.channels;
    if w: nat :| w < |c.workers| && c.workers[w].Busy? {
      assert GoodWorker(env, Expected(env), s.tree, c.workers[w]);
      a := Compute(w);
    } else if w: nat :| w < |c.workers| && c.workers[w].Sending? {
      a := Send(w);
    } else {
      a := Take(0);
    }
  }

  lemma DecoderReceives(env: Env, s: State)
    requires Inv(env, Expected(env), s) && !s.decoder.Finished? && s.channels.results != []
    ensures Enabled(env, s, Decode(true))
  {
    hide GoodChannels, GoodFlight, GoodWriter, Separate, Covered, Expected, Import;
  }

  lemma QuietDecoder(env: Env, s: State)
    requires Inv(env, Expected(env), s) && !s.decoder.Finished? && Quiet(s.channels)
    ensures Enabled(env, s, Decode(false))
  {
    FlightIsQuietOrNot(s.channels);
    assert s.pendingJobs == 0;
    if s.decoder.Throttled? && Behind(env, s, s.decoder.index) {
      BackPressureWaitsForAPendingRecord(env, s);
    }
    hide GoodChannels, GoodFlight, GoodWriter, Separate, Covered, Expected, Import;
  }

  /** The back-pressure loop only waits while record `nextRecord` itself is in flight. */
  lemma BackPressureWaitsForAPendingRecord(env: Env, s: State)
    requires Inv(env, Expected(env), s) && s.decoder.Throttled? && Behind(env, s, s.decoder.index)
    ensures s.writer.nextRecord in s.channels.flight && s.pendingJobs > 0
  {
    assert s.writer.nextRecord !in s.writer.buffered;
    assert s.channels.flight != map[];
  }

  /** The shared tree changes only while no worker runs and no job or result is under way. */
  lemma TreeChangesOnlyWhenQuiet(env: Env, s: State, a: Action)
    requires Inv(env, Expected(env), s) && Enabled(env, s, a)
    requires s.decoder.Discovering? || Step(env, s, a).tree != s.tree
    ensures Quiet(s.channels) && s.pendingJobs == 0
  {
    assert s.decoder.Discovering?;
    FlightIsQuietOrNot(s.channels);
  }

  /** At most three records per worker are dispatched or buffered at once. */
  lemma ReorderBound(env: Env, s: State)
    requires Inv(env, Expected(env), s) && !s.decoder.Finished?
    ensures |s.channels.flight| + |s.writer.buffered| <= 3 * env.workers
  {
    var w, flight := s.writer, s.channels.flight.Keys;
    var all := flight + w.buffered.Keys;
    assert forall i :: i in all ==> w.nextRecord <= i < w.nextRecord + 3 * env.workers;
    RangeBound(all, w.nextRecord, 3 * env.workers);
    assert flight !! w.buffered.Keys;
  }

  lemma {:induction false} RangeBound(a: set<nat>, lo: nat, n: nat)
    requires forall i :: i in a ==> lo <= i < lo + n
    ensures |a| <= n
  {
    if n == 0 {
      assert a == {};
    } else {
      RangeBound(a - {lo + n - 1}, lo, n - 1);
    }
  }

  // ----- Termination ---------------------------------------------------------------------

  ghost function WorkerWeight(w: Worker): nat {
    match w case Idle => 0 case Busy(_) => 3 case Sending(_) => 2
  }

  ghost function Weight(workers: seq<Worker>): nat {
    if workers == [] then 0 else WorkerWeight(workers[0]) + Weight(workers[1..])
  }

  lemma {:induction false} WeightChanges(workers: seq<Worker>, w: nat, worker: Worker)
    requires w < |workers|
    ensures Weight(workers[w := worker]) + WorkerWeight(workers[w]) == Weight(workers) + WorkerWeight(worker)
  {
    var changed := workers[w := worker];
    if w == 0 {
      assert changed[1..] == workers[1..];
    } else {
      assert changed[1..] == workers[1..][w - 1 := worker];
      WeightChanges(workers[1..], w - 1, worker);
    }
  }

  ghost function DecoderWeight(d: Decoder): nat {
    match d
    case Reading => 2
    case Throttled(_) => 18
    case Draining(_) => 16
    case Discovering(_) => 15
    case Dispatching(_) => 16
    case Finishing(_) => 1
    case Finished(_) => 0
  }

  /** The work left: an upper bound on the number of actions any schedule can still take. */
  ghost function Rank(env: Env, s: State): int {
    20 * (|env.records| - s.delivered) + DecoderWeight(s.decoder)
    + 4 * |s.channels.jobs| + Weight(s.channels.workers) + |s.channels.results|
  }

  lemma StepLowersRank(env: Env, s: State, a: Action)
    requires Enabled(env, s, a)
    ensures Rank(env, Step(env, s, a)) < Rank(env, s)
    ensures s.delivered <= |env.records| ==> Step(env, s, a).delivered <= |env.records|
  {
    var c := s.channels;
    hide WriteReady;
    match a
    case Decode(receive) =>
    case Take(w) => WeightChanges(c.workers, w, Busy(c.jobs[0]));
    case Compute(w) =>
      var i := c.workers[w].index;
      WeightChanges(c.workers, w, Sending(Delivery(i, env.prepare(s.tree, env.Record(i), i))));
    case Send(w) => WeightChanges(c.workers, w, Idle);
  }

  lemma {:induction false} RunLowersRank(env: Env, s: State, actions: seq<Action>)
    requires Schedule(env, s, actions) && s.delivered <= |env.records|
    ensures Rank(env, Run(env, s, actions)) + |actions| <= Rank(env, s)
    ensures Run(env, s, actions).delivered <= |env.records|
    decreases |actions|
  {
    if actions != [] {
      hide Enabled, Step, Rank;
      StepLowersRank(env, s, actions[0]);
      RunLowersRank(env, Step(env, s, actions[0]), actions[1..]);
    }
  }

  lemma {:induction false} InitWeight(n: nat)
    ensures Weight(seq(n, _ => Idle)) == 0
  {
    if n > 0 {
      assert seq(n, _ => Idle)[1..] == seq(n - 1, _ => Idle);
      InitWeight(n - 1);
    }
  }

  /**
    Liveness: no schedule takes more than 20 actions a record and two more, and a schedule that
    cannot be continued has finished, with the outcome of the sequential loop.
   */
  lemma EveryScheduleFinishes(env: Env, actions: seq<Action>)
    requires env.Valid() && Schedule(env, Init(env), actions)
    ensures |actions| <= 20 * |env.records| + 2
    ensures var s := Run(env, Init(env), actions);
            (forall a :: !Enabled(env, s, a)) ==> s.decoder == Finished(Import(env))
  {
    InitInv(env);
    RunKeepsInv(env, Init(env), actions);
    RunLowersRank(env, Init(env), actions);
    InitWeight(env.workers);
    var s := Run(env, Init(env), actions);
    if !s.decoder.Finished? {
      var a := NoDeadlock(env, s);
    }
  }

  // ----- After a failure ------------------------------------------------------------------------

  /** While records are read and handed out, no failing result waits behind a gap. */
  ghost predicate Unspoiled(s: State) {
    s.decoder.Reading? || s.decoder.Throttled? || s.decoder.Discovering? || s.decoder.Dispatching? ==>
      NoFailure(s.writer)
  }

  ghost predicate NoFailure(w: Writer) {
    forall i :: i in w.buffered ==> w.buffered[i].Ok?
  }

  lemma {:induction false} WriteReadyOnlyTakes(w: Writer)
    requires NoFailure(w)
    ensures NoFailure(WriteReady(w).0)
    decreases |w.buffered|
  {
    if w.nextRecord in w.buffered {
      Removal(w.buffered, w.nextRecord);
      var rows := w.rows + [w.buffered[w.nextRecord].value];
      WriteReadyOnlyTakes(Writer(w.nextRecord + 1, w.buffered - {w.nextRecord}, rows));
    }
  }

  lemma ReceivedUnspoiled(s: State)
    requires s.channels.results != [] && NoFailure(s.writer)
    ensures Unspoiled(Receive(s, AfterReceive(s)))
  {
    var d := s.channels.results[0];
    if d.result.Ok? {
      WriteReadyOnlyTakes(s.writer.(buffered := s.writer.buffered[d.index := d.result]));
    }
    hide WriteReady;
  }

  /** With nothing in flight everything accounted for is written. */
  lemma QuietIsWritten(env: Env, expected: seq<Result<Row, Error>>, s: State)
    requires Inv(env, expected, s) && Working(env, expected, s) && s.pendingJobs <= 0
    ensures s.writer.buffered == map[] && s.writer.nextRecord == s.accounted + 1
  {
    assert s.channels.flight == map[];
    assert s.writer.nextRecord !in s.writer.buffered;
  }

  lemma DiscoveredUnspoiled(env: Env, expected: seq<Result<Row, Error>>, s: State, i: nat)
    requires Inv(env, expected, s) && Working(env, expected, s) && s.decoder == Discovering(i)
    ensures Unspoiled(DecoderStep(env, s, false))
  {
    QuietIsWritten(env, expected, s);
    assert i == s.accounted + 1;
    var (t, result) := env.discover(s.tree, env.Record(i), i);
    var w := s.writer.(buffered := s.writer.buffered[i := result]);
    assert w.buffered - {i} == map[];
    if result.Ok? {
      WriteReadyOnlyTakes(w);
    }
  }

  lemma StepStaysUnspoiled(env: Env, s: State, a: Action)
    requires Inv(env, Expected(env), s) && Enabled(env, s, a) && Unspoiled(s)
    ensures Unspoiled(Step(env, s, a))
  {
    hide Inv, Expected, Accept;
    if a.Decode? {
      match s.decoder
      case Reading =>
      case Throttled(i) =>
        if Behind(env, s, i) {
          ReceivedUnspoiled(s);
        }
      case Draining(i) =>
        if s.pendingJobs <= 0 {
          StillWorking(env, s);
          QuietIsWritten(env, Expected(env), s);
        }
      case Discovering(i) =>
        StillWorking(env, s);
        DiscoveredUnspoiled(env, Expected(env), s, i);
      case Dispatching(i) =>
        if a.receive {
          ReceivedUnspoiled(s);
        }
      case Finishing(stop) =>
    }
  }

  lemma StillWorking(env: Env, s: State)
    requires Inv(env, Expected(env), s) && !s.decoder.Finishing? && !s.decoder.Finished?
    ensures Working(env, Expected(env), s)
  {
    hide Working, InFlightWell, Expected;
  }

  lemma {:induction false} RunStaysUnspoiled(env: Env, s: State, actions: seq<Action>)
    requires Inv(env, Expected(env), s) && Schedule(env, s, actions) && Unspoiled(s)
    ensures Unspoiled(Run(env, s, actions))
    decreases |actions|
  {
    if actions != [] {
      hide Inv, Expected, Enabled, Step, Unspoiled;
      StepKeepsInv(env, Expected(env), s, actions[0]);
      StepStaysUnspoiled(env, s, actions[0]);
      RunStaysUnspoiled(env, Step(env, s, actions[0]), actions[1..]);
    }
  }

  /** Once a failing result was received, no further record is read, handed out or discovered. */
  lemma NothingAfterFailure(env: Env, actions: seq<Action>, a: Action)
    requires env.Valid() && Schedule(env, Init(env), actions) && Enabled(env, Run(env, Init(env), actions), a)
    ensures var s := Run(env, Init(env), actions);
            var next := Step(env, s, a);
            next.delivered > s.delivered || next.accounted > s.accounted ==>
              forall i :: i in s.writer.buffered ==> s.writer.buffered[i].Ok?
  {
    InitInv(env);
    RunStaysUnspoiled(env, Init(env), actions);
    hide Expected, Inv, Accept;
  }

  // ----- The writer -------------------------------------------------------------------------

  /** Rows are inserted 128 at a time. */
  const INSERT_BATCH: nat := 128

  /** The fields behind acceptResult and writeEvent: the reorder buffer and the insert batch. */
  class EventWriter {
    var nextRecord: nat
    var buffered: map<nat, Result<Row, Error>>
    var inserted: seq<Row>
    var pendingValues: seq<Row>

    ghost predicate Valid()
      reads this
    {
      |pendingValues| < 128 && |inserted| % 128 == 0
    }

    /** The abstract writer: what is inserted and what waits for the next insert are one sequence. */
    ghost function Contents(): Writer
      reads this
    {
      Writer(nextRecord, buffered, inserted + pendingValues)
    }

    constructor ()
      ensures Valid() && Contents() == Writer(1, map[], [])
    {
      nextRecord, buffered, inserted, pendingValues := 1, map[], [], [];
    }

    method WriteEvent(row: Row)
      requires Valid()
      modifies this`inserted, this`pendingValues
      ensures Valid() && inserted + pendingValues == old(inserted + pendingValues) + [row]
    {
      pendingValues := pendingValues + [row];
      if |pendingValues| == INSERT_BATCH {
        inserted, pendingValues := inserted + pendingValues, [];
      }
    }

    /** Buffers one result and writes every record that is now next in order. */
    method AcceptResult(d: Delivery) returns (error: Option<Error>)
      requires Valid()
      modifies this
      ensures Valid() && (Contents(), error) == Accept(old(Contents()), d)
    {
      buffered := buffered[d.index := d.result];
      while nextRecord in buffered
        invariant Valid() && WriteReady(Contents()) == Accept(old(Contents()), d)
        decreases |buffered|
      {
        var ready := buffered[nextRecord];
        Removal(buffered, nextRecord);
        ghost var before := Contents();
        buffered := buffered - {nextRecord};
        match ready {
          case Err(e) => return Some(e);
          case Ok(row) =>
            WriteEvent(row);
            nextRecord := nextRecord + 1;
            assert WriteReady(before) == WriteReady(Contents());
        }
      }
      error := None;
    }

    /** The last flush: nothing is left out of the transaction. */
    method FlushEvents() returns (rows: seq<Row>)
      requires Valid()
      modifies this`inserted, this`pendingValues
      ensures rows == inserted == old(Contents()).rows && pendingValues == []
    {
      inserted, pendingValues := inserted + pendingValues, [];
      rows := inserted;
    }
  }
}
