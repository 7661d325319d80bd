/** The pipeline never gets stuck, ends when it should, and polling is transparent. */
module PipelineProgress {
  import opened Text
  import Headers
  import Bodies
  import opened V2Decode
  import V1Read
  import opened Pipeline
  import opened PipelineSafety

  // ---- progress -------------------------------------------------------------------------------

  /** A step other than a cancellation or a further call of Err(). */
  predicate IsWork(a: Action) {
    !a.Cancel? && !a.AskErr?
  }

  /** The step the producer can always take, except when the channel is full and nothing is cancelled. */
  function ProducerStep(s: State, reply: Reply): Action
    requires !s.producer.Exited?
  {
    match s.producer
    case Sending(pending) => if pending == [] then FinishBatch else if s.cancelled then StopOnCancel else SendRecord
    case Fetching => Fetch(reply)
    case Polling => PollTimer
    case Failing(e) => SendError
    case Stopping => CloseRecords
    case RecordsClosed => CloseErrs
  }

  function WrapperStep(s: State): Action
    requires !s.wrapper.Gone?
  {
    match s.wrapper
    case Receiving => if s.records == [] then SeeRecordsClosed else Receive
    case Checking(_) => CheckContext
    case Offering(_) => if s.cancelled then LeaveOnCancel else Offer
    case Awaiting => if s.errs == [] then SeeErrsClosed else ReceiveError
    case Forwarding(_) => ForwardError
    case Leaving => CloseOut
    case OutClosed => CloseOutErrs
  }

  /** A step that is possible in any unfinished state, with a consumer that keeps receiving. */
  function NextStep(s: State, reply: Reply): Action {
    if s.out != [] then Take
    else if !s.producer.Exited? && !(s.producer.Sending? && |s.records| >= CAPACITY && !s.cancelled) then ProducerStep(s, reply)
    else if !s.wrapper.Gone? then WrapperStep(s)
    else SeeOutClosed
  }

  lemma ProducerCanStep(c: Config, s: State, reply: Reply)
    requires !s.producer.Exited? && (s.producer.Failing? ==> s.errs == [])
    requires s.producer.Sending? && !s.cancelled ==> |s.records| < CAPACITY
    ensures var a := ProducerStep(s, reply);
            IsProducerAction(a) && IsWork(a) && ProducerAct(c, s, a).Some?
  {}

  lemma WrapperCanStep(c: Config, s: State)
    requires !s.wrapper.Gone? && s.out == [] && (s.wrapper.Forwarding? ==> s.outErrs == [])
    requires s.producer.Exited? || (s.wrapper.Receiving? && s.records != []) || s.wrapper.Checking? || s.wrapper.Offering?
             || s.wrapper.Leaving? || s.wrapper.OutClosed?
    ensures var a := WrapperStep(s);
            !a.Cancel? && !IsProducerAction(a) && !IsConsumerAction(a) && WrapperAct(s, a).Some?
  {}

  /** A full record channel means that the wrapper still has work, unless the query was cancelled. */
  lemma {:induction false} FullMeansActive(c: Config, s: State)
    requires Inv(c, s) && s.producer.Sending? && |s.records| >= CAPACITY && !s.cancelled
    ensures Active(s.wrapper)
  {}

  lemma {:induction false} ErrorRoom(c: Config, s: State)
    requires Inv(c, s)
    ensures s.producer.Failing? ==> s.errs == []
    ensures s.wrapper.Forwarding? ==> s.outErrs == []
  {
    assert |s.errs| + (if s.wrapper.Forwarding? then 1 else 0) + |s.outErrs| <= |Errors(s)| <= 1;
  }

  lemma {:induction false} StepIsPossible(c: Config, s: State, reply: Reply)
    requires Inv(c, s) && !Finished(s)
    ensures IsWork(NextStep(s, reply)) && Act(c, s, NextStep(s, reply)).Some?
  {
    hide Inv, ProducerStep, WrapperStep, ProducerAct, WrapperAct;
    ErrorRoom(c, s);
    if s.out != [] {
      assert Act(c, s, Take).Some?;
    } else if !s.producer.Exited? && !(s.producer.Sending? && |s.records| >= CAPACITY && !s.cancelled) {
      ProducerCanStep(c, s, reply);
    } else if !s.wrapper.Gone? {
      if !s.producer.Exited? { FullMeansActive(c, s); }
      WrapperCanStep(c, s);
    } else {
      if !s.producer.Exited? { FullMeansActive(c, s); }
      assert Act(c, s, SeeOutClosed).Some?;
    }
  }

  /**
   * No deadlock: whatever the interleaving so far and whether or not the query
   * was cancelled, an unfinished pipeline has a step to take, and it does not
   * depend on what the next fetch would bring.
   */
  lemma {:induction false} NeverStuck(c: Config, first: Reply, actions: seq<Action>, t: State, reply: Reply)
    requires RunOf(c, first, actions, t) && !Finished(t)
    ensures IsWork(NextStep(t, reply)) && Act(c, t, NextStep(t, reply)).Some?
  {
    hide RunOf, Act, NextStep, Inv;
    RunInv(c, first, actions, t);
    StepIsPossible(c, t, reply);
  }

  // ---- termination ------------------------------------------------------------------------------

  /** What the server answers to fetch `i`: after the script there is nothing left. */
  function Served(script: seq<Reply>, i: nat): Reply {
    if i < |script| then script[i] else Reply.NoContent
  }

  predicate Scripted(history: seq<Reply>, script: seq<Reply>) {
    forall i :: 0 <= i < |history| ==> history[i] == Served(script, i)
  }

  function CountRecords(replies: seq<Reply>): nat {
    if replies == [] then 0
    else (if replies[0].Batch? then |replies[0].records| else 0) + CountRecords(replies[1..])
  }

  /** The replies still to come. */
  function Unread(s: State, script: seq<Reply>): seq<Reply> {
    if |s.history| <= |script| then script[|s.history|..] else []
  }

  function ProducerWork(p: Producer, left: nat): nat {
    match p
    case Sending(pending) => 6 + 2 * left + 5 * |pending|
    case Fetching => 5 + 2 * left
    case Polling => 5 + 2 * left
    case Failing(_) => 4
    case Stopping => 3
    case RecordsClosed => 2
    case Exited => 0
  }

  /** A record in the wrapper's hands has three hops to go when received, two when checked. */
  function WrapperWork(w: Wrapper): nat {
    match w
    case Receiving => 5
    case Checking(_) => 8
    case Offering(_) => 7
    case Awaiting => 4
    case Forwarding(_) => 3
    case Leaving => 2
    case OutClosed => 1
    case Gone => 0
  }

  /** The work left in a query that is not continuous. */
  function Work(s: State, script: seq<Reply>): nat {
    5 * (if Producing(s.producer) then CountRecords(Unread(s, script)) else 0)
    + ProducerWork(s.producer, |Unread(s, script)|)
    + 4 * |s.records| + WrapperWork(s.wrapper) + |s.out|
    + (if s.drained then 0 else 1) + (if s.cancelled then 0 else 1)
  }

  lemma {:induction false} FetchWork(c: Config, s: State, reply: Reply, script: seq<Reply>)
    requires !c.continuous && s.producer.Fetching?
    requires reply == Served(script, |s.history|)
    ensures Work(ProducerAct(c, s, Fetch(reply)).value, script) < Work(s, script)
  {
    var t := ProducerAct(c, s, Fetch(reply)).value;
    if |s.history| < |script| {
      assert Unread(s, script)[0] == reply && Unread(t, script) == Unread(s, script)[1..];
    } else {
      assert Unread(t, script) == [] == Unread(s, script);
    }
  }

  lemma {:induction false} ProducerWorkDecreases(c: Config, s: State, a: Action, script: seq<Reply>)
    requires !c.continuous && !s.producer.Polling? && ProducerAct(c, s, a).Some? && !a.Fetch?
    ensures Work(ProducerAct(c, s, a).value, script) < Work(s, script)
    ensures !ProducerAct(c, s, a).value.producer.Polling?
  {
    hide CountRecords, Unread;
    var t := ProducerAct(c, s, a).value;
    assert Unread(t, script) == Unread(s, script) by { SameLeft(s, t, script); }
  }

  lemma SameLeft(s: State, t: State, script: seq<Reply>)
    requires t.history == s.history
    ensures Unread(t, script) == Unread(s, script)
  {}

  lemma {:induction false} WrapperWorkDecreases(s: State, a: Action, script: seq<Reply>)
    requires WrapperAct(s, a).Some?
    ensures Work(WrapperAct(s, a).value, script) < Work(s, script)
    ensures WrapperAct(s, a).value.producer == s.producer
  {
    hide CountRecords, Unread, ProducerWork;
    SameLeft(s, WrapperAct(s, a).value, script);
  }

  lemma {:induction false} ConsumerWorkDecreases(s: State, a: Action, script: seq<Reply>)
    requires ConsumerAct(s, a).Some? && !a.AskErr?
    ensures Work(ConsumerAct(s, a).value, script) < Work(s, script)
    ensures ConsumerAct(s, a).value.producer == s.producer
  {
    hide CountRecords, Unread, ProducerWork, WrapperWork;
    SameLeft(s, ConsumerAct(s, a).value, script);
  }

  /** Every step other than calling Err() decreases the work left. */
  lemma {:induction false} WorkDecreases(c: Config, s: State, a: Action, script: seq<Reply>)
    requires !c.continuous && !s.producer.Polling? && Act(c, s, a).Some? && !a.AskErr?
    requires Scripted(Act(c, s, a).value.history, script)
    ensures Work(Act(c, s, a).value, script) < Work(s, script)
    ensures !Act(c, s, a).value.producer.Polling?
  {
    hide CountRecords, WrapperAct, ConsumerAct, ProducerWork, WrapperWork;
    if a.Cancel? {
      SameLeft(s, s.(cancelled := true), script);
    } else if a.Fetch? {
      var t := Act(c, s, a).value;
      assert t.history[|s.history|] == a.reply;
      FetchWork(c, s, a.reply, script);
    } else if IsProducerAction(a) {
      ProducerWorkDecreases(c, s, a, script);
    } else if IsConsumerAction(a) {
      ConsumerWorkDecreases(s, a, script);
    } else {
      WrapperWorkDecreases(s, a, script);
    }
  }

  lemma ActHistory(c: Config, s: State, a: Action)
    requires Act(c, s, a).Some?
    ensures s.history <= Act(c, s, a).value.history
  {}

  lemma {:induction false} ReachesHistory(c: Config, s: State, actions: seq<Action>, t: State)
    requires Reaches(c, s, actions, t)
    ensures s.history <= t.history
    decreases |actions|
  {
    hide Act;
    if actions != [] {
      ActHistory(c, s, actions[0]);
      ReachesHistory(c, Act(c, s, actions[0]).value, actions[1..], t);
    }
  }

  lemma {:induction false} ReachesWork(c: Config, s: State, actions: seq<Action>, t: State, script: seq<Reply>)
    requires !c.continuous && !s.producer.Polling? && Reaches(c, s, actions, t) && Scripted(t.history, script)
    requires forall i :: 0 <= i < |actions| ==> !actions[i].AskErr?
    ensures |actions| + Work(t, script) <= Work(s, script)
    decreases |actions|
  {
    hide Act, Work;
    if actions != [] {
      var next := Act(c, s, actions[0]).value;
      ReachesHistory(c, next, actions[1..], t);
      WorkDecreases(c, s, actions[0], script);
      ReachesWork(c, next, actions[1..], t, script);
    }
  }

  /**
   * Termination: a query that is not continuous, against a server that has
   * finitely many batches, takes a bounded number of steps, however they
   * interleave. With NeverStuck, every run comes to its end.
   */
  lemma {:induction false} RunsAreBounded(c: Config, first: Reply, actions: seq<Action>, t: State, script: seq<Reply>)
    requires !c.continuous && RunOf(c, first, actions, t) && Scripted(t.history, script)
    requires forall i :: 0 <= i < |actions| ==> !actions[i].AskErr?
    ensures |actions| <= 5 * CountRecords(script) + 2 * |script| + 13
  {
    var s := Start(c, first).value;
    ReachesHistory(c, s, actions, t);
    assert s.history == [first] && t.history[0] == first;
    ReachesWork(c, s, actions, t, script);
    if |script| >= 1 {
      assert Unread(s, script) == script[1..];
    }
  }

  // ---- polling ------------------------------------------------------------------------------------

  /** A reply after which a continuous query just waits and asks again. */
  predicate Idle(c: Config, reply: Reply) {
    reply.NoContent? || (c.v2 && reply == Batch([]))
  }

  function Busy(c: Config, replies: seq<Reply>): seq<Reply> {
    if replies == [] then []
    else
      var last := replies[|replies| - 1];
      Busy(c, replies[..|replies| - 1]) + if Idle(c, last) then [] else [last]
  }

  /** What a fetch that did not panic hands to the producer. */
  function ReplyOf(outcome: Outcome<RecordView>): Reply
    requires !outcome.Panicked?
  {
    match outcome
    case NoContent(_) => Reply.NoContent
    case Failed(e) => Hard(e)
    case Fetched(records) => Batch(records)
  }

  /** Replies that the reader of the protocol can give: the v1 reader never gives an empty batch. */
  predicate Genuine(c: Config, replies: seq<Reply>) {
    !c.v2 ==> forall i :: 0 <= i < |replies| ==> replies[i] != Batch([])
  }

  /** Whatever a v1 response holds, reading it gives a genuine reply. */
  lemma ReadRepliesAreGenuine(c: Config, status: int, headers: Headers.Header, s: Bodies.Stream, head: bool,
                              cancelled: bool, entry: string, ths: Result<seq<V1Read.TimeHeader>>)
    ensures var outcome := V1Read.ReadV1(status, headers, s, head, cancelled, entry, ths);
            !c.v2 && !outcome.Panicked? ==> Genuine(c, [ReplyOf(outcome)])
  {
    hide V1Read.ReadV1;
    V1Read.NeverEmpty(status, headers, s, head, cancelled, entry, ths);
  }

  lemma IdleChangesNothing(c: Config, records: seq<RecordView>, reply: Reply, first: bool)
    requires c.continuous && Idle(c, reply)
    ensures Answer(c, records, reply, first) == Ongoing(records)
  {
    assert Readables([]) == [];
    assert records + [] == records;
  }

  lemma {:induction false} BusyStart(c: Config, replies: seq<Reply>)
    ensures |Busy(c, replies)| <= |replies|
  {
    if |replies| > 1 {
      BusyStart(c, replies[..|replies| - 1]);
    }
  }

  lemma {:induction false} AllIdle(c: Config, replies: seq<Reply>)
    requires c.continuous && Busy(c, replies) == []
    ensures Sequentially(c, replies) == Ongoing([])
  {
    if replies != [] {
      AllIdle(c, replies[..|replies| - 1]);
      IdleChangesNothing(c, [], replies[|replies| - 1], |replies| == 1);
    }
  }

  /**
   * Poll transparency: in a continuous query the replies that bring nothing
   * change neither what is delivered nor how the query ends.
   */
  lemma {:induction false} PollingIsTransparent(c: Config, replies: seq<Reply>)
    requires c.continuous && Genuine(c, replies)
    ensures Sequentially(c, replies) == Sequentially(c, Busy(c, replies))
  {
    if replies != [] {
      var init, last := replies[..|replies| - 1], replies[|replies| - 1];
      PollingIsTransparent(c, init);
      if Idle(c, last) {
        PollIdle(c, replies);
      } else {
        PollBusy(c, replies);
      }
    }
  }

  lemma {:induction false} PollIdle(c: Config, replies: seq<Reply>)
    requires c.continuous && replies != [] && Idle(c, replies[|replies| - 1])
    ensures Busy(c, replies) == Busy(c, replies[..|replies| - 1])
    ensures Sequentially(c, replies) == Sequentially(c, replies[..|replies| - 1])
  {
    var before := Sequentially(c, replies[..|replies| - 1]);
    IdleChangesNothing(c, before.records, replies[|replies| - 1], |replies| == 1);
    assert Busy(c, replies[..|replies| - 1]) + [] == Busy(c, replies[..|replies| - 1]);
  }

  lemma {:induction false} PollBusy(c: Config, replies: seq<Reply>)
    requires c.continuous && replies != [] && !Idle(c, replies[|replies| - 1]) && Genuine(c, replies)
    requires Sequentially(c, replies[..|replies| - 1]) == Sequentially(c, Busy(c, replies[..|replies| - 1]))
    ensures Sequentially(c, replies) == Sequentially(c, Busy(c, replies))
  {
    hide Answer, Sequentially, Busy, Idle;
    var init, last := replies[..|replies| - 1], replies[|replies| - 1];
    var busy := Busy(c, init);
    BusySnoc(c, replies);
    ReadingSnoc(c, replies);
    ReadingSnoc(c, busy + [last]);
    assert (busy + [last])[..|busy|] == busy;
    if busy == [] {
      AllIdle(c, init);
      FirstBusy(c, last, |replies| == 1);
    } else {
      BusyStart(c, init);
    }
  }

  lemma {:induction false} BusySnoc(c: Config, replies: seq<Reply>)
    requires replies != [] && !Idle(c, replies[|replies| - 1])
    ensures Busy(c, replies) == Busy(c, replies[..|replies| - 1]) + [replies[|replies| - 1]]
  {}

  lemma {:induction false} ReadingSnoc(c: Config, replies: seq<Reply>)
    requires replies != []
    ensures var before := Sequentially(c, replies[..|replies| - 1]);
            Sequentially(c, replies)
            == if before.Ended? then before else Answer(c, before.records, replies[|replies| - 1], |replies| == 1)
  {
    hide Answer;
  }

  /** The first reply that brings something counts the same wherever it comes. */
  lemma FirstBusy(c: Config, reply: Reply, first: bool)
    requires c.continuous && !Idle(c, reply) && Genuine(c, [reply])
    ensures Answer(c, [], reply, first) == Answer(c, [], reply, true)
  {
    assert [reply][0] == reply;
  }

  /** Two completed runs of a continuous query that differ only in idle replies deliver the same. */
  lemma {:induction false} IdleRepliesDoNotMatter(c: Config, first: Reply, actions: seq<Action>, t: State,
                                                  first': Reply, actions': seq<Action>, t': State)
    requires c.continuous && RunOf(c, first, actions, t) && RunOf(c, first', actions', t')
    requires Genuine(c, t.history) && Genuine(c, t'.history)
    requires !t.cancelled && !t'.cancelled && RecordsDone(t) && RecordsDone(t')
    requires Busy(c, t.history) == Busy(c, t'.history)
    ensures t.received == t'.received && LaterFailure(t.history) == LaterFailure(t'.history)
  {
    hide RunOf, Sequentially, Busy, LaterFailure, Genuine;
    RefinesSequential(c, first, actions, t);
    RefinesSequential(c, first', actions', t');
    PollingIsTransparent(c, t.history);
    PollingIsTransparent(c, t'.history);
  }

  /** What a query may have delivered at any time does not depend on idle replies either. */
  lemma {:induction false} DeliverableIgnoresIdle(c: Config, history: seq<Reply>)
    ensures Deliverable(Busy(c, history)) == Deliverable(history)
  {
    BusyRecords(c, history);
  }

  lemma {:induction false} BusyRecords(c: Config, history: seq<Reply>)
    ensures AllRecords(Busy(c, history)) == AllRecords(history)
  {
    if history != [] {
      var init, last := history[..|history| - 1], history[|history| - 1];
      BusyRecords(c, init);
      if Idle(c, last) {
        assert Busy(c, history) == Busy(c, init);
      } else {
        AllRecordsSnoc(Busy(c, init), last);
      }
    }
  }
}
