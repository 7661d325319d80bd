/**
 * The streaming pipeline as a state machine over all interleavings: the
 * producer goroutine of FetchAndParse/FetchAndParseV2 (batch/v1.go,
 * batch/v2.go), the wrapper goroutine of wrapBatchRecords (batch_bridge.go),
 * the channels between them, and the consumer of a QueryResult (bucket.go).
 */
module Pipeline {
  import opened Text
  import opened V2Encode
  import opened V2Decode

  /** The capacity of both record channels; both error channels hold one. */
  const CAPACITY: nat := 100

  /** `v2` selects the producer, `continuous` the query. */
  datatype Config = Config(v2: bool, continuous: bool)

  /** What a fetch brings: a batch, 204, or a hard error. */
  datatype Reply = Batch(records: seq<RecordView>) | NoContent | Hard(error: string)

  /** Where the producer is; closing comes in two steps, records first. */
  datatype Producer =
    | Sending(pending: seq<RecordView>)
    | Fetching
    | Polling
    | Failing(error: string)
    | Stopping
    | RecordsClosed
    | Exited

  /** Where the wrapper is. */
  datatype Wrapper =
    | Receiving
    | Checking(record: RecordView)
    | Offering(record: RecordView)
    | Awaiting
    | Forwarding(error: string)
    | Leaving
    | OutClosed
    | Gone

  /**
   * `history` lists the replies of all fetches so far, `received` what the
   * consumer has taken from Records(), `taken` the errors that Err() returned,
   * and `drained` whether the consumer has seen Records() closed.
   */
  datatype State = State(
    history: seq<Reply>, cancelled: bool,
    producer: Producer, records: seq<RecordView>, errs: seq<string>,
    wrapper: Wrapper, out: seq<RecordView>, outErrs: seq<string>,
    received: seq<RecordView>, taken: seq<string>, drained: bool)

  /** One step of one of the goroutines, of the consumer, or a cancellation. */
  datatype Action =
    | Cancel
    | SendRecord | FinishBatch | Fetch(reply: Reply) | PollTimer | SendError | StopOnCancel | CloseRecords | CloseErrs
    | Receive | CheckContext | Offer | LeaveOnCancel | SeeRecordsClosed | ReceiveError | SeeErrsClosed | ForwardError
    | CloseOut | CloseOutErrs
    | Take | SeeOutClosed | AskErr

  /** NewReadableRecord and SetLastInBatch: only an empty content type is replaced. */
  function Readable(r: RecordView): (q: RecordView)
    ensures r.contentType != "" ==> q == r
    ensures r.contentType == "" ==> q == r.(contentType := "application/octet-stream")
  {
    r.(contentType := EffectiveType(r.contentType))
  }

  // ---- the producer -------------------------------------------------------------------------

  /** Where the producer goes after a reply inside its loop. */
  function AfterReply(c: Config, reply: Reply): Producer {
    match reply
    case NoContent => if c.continuous then Polling else Stopping
    case Hard(e) => Failing(e)
    case Batch(b) =>
      if b == [] then (if c.v2 && c.continuous then Polling else Stopping) else Sending(b)
  }

  function ProducerAct(c: Config, s: State, a: Action): Option<State> {
    match (s.producer, a)
    case (Sending(pending), SendRecord) =>
      if pending == [] || |s.records| >= CAPACITY then None
      else Some(s.(records := s.records + [pending[0]],
                   producer := if pending[0].last then Stopping else Sending(pending[1..])))
    case (Sending(pending), FinishBatch) => if pending == [] then Some(s.(producer := Fetching)) else None
    case (Sending(pending), StopOnCancel) => if s.cancelled && pending != [] then Some(s.(producer := Stopping)) else None
    case (Fetching, Fetch(reply)) => Some(s.(history := s.history + [reply], producer := AfterReply(c, reply)))
    case (Polling, PollTimer) => Some(s.(producer := Fetching))
    case (Polling, StopOnCancel) => if s.cancelled then Some(s.(producer := Stopping)) else None
    case (Failing(e), SendError) => if |s.errs| >= 1 then None else Some(s.(errs := s.errs + [e], producer := Stopping))
    case (Stopping, CloseRecords) => Some(s.(producer := RecordsClosed))
    case (RecordsClosed, CloseErrs) => Some(s.(producer := Exited))
    case _ => None
  }

  // ---- the wrapper --------------------------------------------------------------------------

  function WrapperAct(s: State, a: Action): Option<State> {
    match (s.wrapper, a)
    case (Receiving, Receive) =>
      if s.records == [] then None else Some(s.(records := s.records[1..], wrapper := Checking(s.records[0])))
    case (Receiving, SeeRecordsClosed) =>
      if s.records == [] && (s.producer.RecordsClosed? || s.producer.Exited?) then Some(s.(wrapper := Awaiting)) else None
    case (Checking(r), CheckContext) => Some(s.(wrapper := if s.cancelled then Leaving else Offering(Readable(r))))
    case (Offering(r), Offer) =>
      if |s.out| >= CAPACITY then None else Some(s.(out := s.out + [r], wrapper := if r.last then Leaving else Receiving))
    case (Offering(r), LeaveOnCancel) => if s.cancelled then Some(s.(wrapper := Leaving)) else None
    case (Awaiting, ReceiveError) =>
      if s.errs == [] then None else Some(s.(errs := s.errs[1..], wrapper := Forwarding(s.errs[0])))
    case (Awaiting, SeeErrsClosed) => if s.errs == [] && s.producer.Exited? then Some(s.(wrapper := Leaving)) else None
    case (Forwarding(e), ForwardError) =>
      if |s.outErrs| >= 1 then None else Some(s.(outErrs := s.outErrs + [e], wrapper := Leaving))
    case (Leaving, CloseOut) => Some(s.(wrapper := OutClosed))
    case (OutClosed, CloseOutErrs) => Some(s.(wrapper := Gone))
    case _ => None
  }

  // ---- the consumer -------------------------------------------------------------------------

  /** The consumer would find Records() closed and empty. */
  predicate RecordsDone(s: State) {
    s.out == [] && (s.wrapper.OutClosed? || s.wrapper.Gone?)
  }

  /** What a call of Err() would return now; it never waits. */
  function ErrResult(s: State): Option<string> {
    if s.outErrs == [] then None else Some(s.outErrs[0])
  }

  function ConsumerAct(s: State, a: Action): Option<State> {
    match a
    case Take => if s.out == [] then None else Some(s.(out := s.out[1..], received := s.received + [s.out[0]]))
    case SeeOutClosed => if RecordsDone(s) && !s.drained then Some(s.(drained := true)) else None
    case AskErr =>
      if s.outErrs == [] then Some(s) else Some(s.(outErrs := s.outErrs[1..], taken := s.taken + [s.outErrs[0]]))
    case _ => None
  }

  // ---- runs ---------------------------------------------------------------------------------

  predicate IsProducerAction(a: Action) {
    a.SendRecord? || a.FinishBatch? || a.Fetch? || a.PollTimer? || a.SendError? || a.StopOnCancel? || a.CloseRecords? || a.CloseErrs?
  }

  predicate IsConsumerAction(a: Action) {
    a.Take? || a.SeeOutClosed? || a.AskErr?
  }

  /** The state after `a`, or None where `a` cannot happen. */
  function Act(c: Config, s: State, a: Action): Option<State> {
    if a.Cancel? then (if s.cancelled then None else Some(s.(cancelled := true)))
    else if IsProducerAction(a) then ProducerAct(c, s, a)
    else if IsConsumerAction(a) then ConsumerAct(s, a)
    else WrapperAct(s, a)
  }

  /**
   * The state in which the goroutines start, after the first fetch; a hard
   * error there is returned to the caller and nothing is started.
   */
  function Start(c: Config, first: Reply): Option<State> {
    match first
    case Hard(_) => None
    case Batch(b) => Some(Fresh([first], Sending(b)))
    case NoContent => Some(Fresh([first], if c.continuous then Sending([]) else Exited))
  }

  function Fresh(history: seq<Reply>, producer: Producer): State {
    State(history, false, producer, [], [], Receiving, [], [], [], [], false)
  }

  /** Runs are arbitrary sequences of possible steps. */
  predicate Reaches(c: Config, s: State, actions: seq<Action>, t: State)
    decreases |actions|
  {
    if actions == [] then s == t
    else Act(c, s, actions[0]).Some? && Reaches(c, Act(c, s, actions[0]).value, actions[1..], t)
  }

  predicate RunOf(c: Config, first: Reply, actions: seq<Action>, t: State) {
    Start(c, first).Some? && Reaches(c, Start(c, first).value, actions, t)
  }

  /** Everything has ended and the consumer knows it. */
  predicate Finished(s: State) {
    s.producer.Exited? && s.wrapper.Gone? && s.drained
  }

  // ---- what should come out -----------------------------------------------------------------

  predicate NoLast(xs: seq<RecordView>) {
    forall i :: 0 <= i < |xs| ==> !xs[i].last
  }

  /** The records up to and including the first that is marked as the last of the query. */
  function Cut(xs: seq<RecordView>): seq<RecordView> {
    if xs == [] then [] else if xs[0].last then [xs[0]] else [xs[0]] + Cut(xs[1..])
  }

  function Readables(xs: seq<RecordView>): (rs: seq<RecordView>)
    ensures |rs| == |xs|
    ensures forall i :: 0 <= i < |xs| ==> rs[i] == Readable(xs[i])
  {
    seq(|xs|, i requires 0 <= i < |xs| => Readable(xs[i]))
  }

  function AllRecords(history: seq<Reply>): seq<RecordView> {
    if history == [] then []
    else
      var last := history[|history| - 1];
      AllRecords(history[..|history| - 1]) + if last.Batch? then last.records else []
  }

  /** All fetched records in order, cut just after the first last one. */
  function Deliverable(history: seq<Reply>): seq<RecordView> {
    Readables(Cut(AllRecords(history)))
  }

  /** The first hard error of a fetch after the first one. */
  function LaterFailure(history: seq<Reply>): Option<string> {
    if |history| <= 1 then None
    else
      var before := LaterFailure(history[..|history| - 1]);
      if before.Some? then before
      else if history[|history| - 1].Hard? then Some(history[|history| - 1].error)
      else None
  }

  /** The result of a reader without goroutines or channels. */
  datatype SequentialRead = Ongoing(records: seq<RecordView>) | Ended(records: seq<RecordView>, error: Option<string>)

  function Answer(c: Config, records: seq<RecordView>, reply: Reply, first: bool): SequentialRead {
    match reply
    case NoContent => if c.continuous then Ongoing(records) else Ended(records, None)
    case Hard(e) => Ended(records, Some(e))
    case Batch(b) =>
      if !NoLast(b) then Ended(records + Readables(Cut(b)), None)
      else if b == [] && !first && !(c.v2 && c.continuous) then Ended(records, None)
      else Ongoing(records + Readables(b))
  }

  /** Reads one reply after the other until one of them ends the query. */
  function Sequentially(c: Config, replies: seq<Reply>): SequentialRead {
    if replies == [] then Ongoing([])
    else
      var before := Sequentially(c, replies[..|replies| - 1]);
      if before.Ended? then before else Answer(c, before.records, replies[|replies| - 1], |replies| == 1)
  }
}
