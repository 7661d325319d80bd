/**
 * What a query delivers, said about the fetched records themselves, and how a
 * cancelled query comes to its end.
 */
module PipelineDelivery {
  import opened Text
  import Headers
  import Bodies
  import opened V2Decode
  import V1Read
  import Responses
  import opened Pipeline
  import opened PipelineSafety
  import opened PipelineProgress

  // ---- what the consumer receives -----------------------------------------------------------------

  /** The record as fetched; only a missing content type is filled in. */
  ghost predicate SameRecord(got: RecordView, fetched: RecordView) {
    if fetched.contentType == "" then got == fetched.(contentType := "application/octet-stream") else got == fetched
  }

  ghost predicate SameRecords(got: seq<RecordView>, fetched: seq<RecordView>) {
    |got| <= |fetched| && forall i :: 0 <= i < |got| ==> SameRecord(got[i], fetched[i])
  }

  lemma {:induction false} ReadablesAreSame(xs: seq<RecordView>)
    ensures SameRecords(Readables(xs), xs)
  {
    hide Readable;
    forall i | 0 <= i < |xs| ensures SameRecord(Readables(xs)[i], xs[i]) {
      assert Readables(xs)[i] == Readable(xs[i]);
    }
  }

  lemma {:induction false} SamePrefix(got: seq<RecordView>, all: seq<RecordView>, fetched: seq<RecordView>)
    requires got <= all && SameRecords(all, fetched)
    ensures SameRecords(got, fetched)
  {
    hide SameRecord;
    assert forall i :: 0 <= i < |got| ==> got[i] == all[i];
  }

  /**
   * At any time of any run the consumer has the first fetched records, each as
   * it was fetched; all of them up to the last record of the query once
   * Records() is closed, unless the query was cancelled.
   */
  lemma {:induction false} ReceivedAsFetched(c: Config, first: Reply, actions: seq<Action>, t: State)
    requires RunOf(c, first, actions, t)
    ensures SameRecords(t.received + t.out, Cut(AllRecords(t.history)))
    ensures !t.cancelled && RecordsDone(t) ==>
              |t.received| == |Cut(AllRecords(t.history))| && SameRecords(t.received, Cut(AllRecords(t.history)))
  {
    hide RunOf, AllRecords, Cut, SameRecord, Readables;
    ReceivedIsPrefix(c, first, actions, t);
    var cut := Cut(AllRecords(t.history));
    ReadablesAreSame(cut);
    SamePrefix(t.received + t.out, Readables(cut), cut);
    if !t.cancelled && RecordsDone(t) {
      ErrorIsVisible(c, first, actions, t);
    }
  }

  // ---- the replies of the readers -----------------------------------------------------------------

  ghost predicate TypedReply(reply: Reply) {
    reply.Batch? ==> Responses.Typed(reply.records)
  }

  ghost predicate TypedHistory(history: seq<Reply>) {
    forall i :: 0 <= i < |history| ==> TypedReply(history[i])
  }

  lemma {:induction false} TypedRecords(history: seq<Reply>)
    requires TypedHistory(history)
    ensures Responses.Typed(AllRecords(history))
  {
    if history != [] {
      var init := history[..|history| - 1];
      TypedRecords(init);
      assert history == init + [history[|history| - 1]];
      AllRecordsSnoc(init, history[|history| - 1]);
      assert TypedReply(history[|history| - 1]);
    }
  }

  lemma SameIfTyped(got: seq<RecordView>, fetched: seq<RecordView>)
    requires SameRecords(got, fetched) && Responses.Typed(fetched)
    ensures got <= fetched
  {
    forall i | 0 <= i < |got| ensures got[i] == fetched[i] {
      assert SameRecord(got[i], fetched[i]);
    }
  }

  /** With content types, which the readers of both protocols always give, the records come through unchanged. */
  lemma {:induction false} TypedComeUnchanged(c: Config, first: Reply, actions: seq<Action>, t: State)
    requires RunOf(c, first, actions, t) && TypedHistory(t.history)
    ensures t.received <= t.received + t.out <= Cut(AllRecords(t.history))
    ensures !t.cancelled && RecordsDone(t) ==> t.received == Cut(AllRecords(t.history))
  {
    hide RunOf, AllRecords, Cut, SameRecords, TypedHistory;
    ReceivedAsFetched(c, first, actions, t);
    TypedRecords(t.history);
    CutShape(AllRecords(t.history));
    var cut := Cut(AllRecords(t.history));
    assert Responses.Typed(cut);
    SameIfTyped(t.received + t.out, cut);
    if !t.cancelled && RecordsDone(t) {
      SameIfTyped(t.received, cut);
    }
  }

  /** The replies that reading a response can give, by the protocol of the query. */
  ghost predicate ReadReply(c: Config, headers: Headers.Header, reply: Reply) {
    if c.v2 then
      exists status, s, head, cancelled, hs ::
        var outcome := ReadBatch(status, headers, s, head, cancelled, hs);
        !outcome.Panicked? && reply == ReplyOf(outcome)
    else
      exists status, s, head, cancelled, entry, ths ::
        var outcome := V1Read.ReadV1(status, headers, s, head, cancelled, entry, ths);
        !outcome.Panicked? && reply == ReplyOf(outcome)
  }

  /** Whatever a server answers, its records have a type, and only the final one can end the query, if the mark says so. */
  lemma {:induction false} RepliesAreTypedAndMarked(c: Config, headers: Headers.Header, reply: Reply)
    requires ReadReply(c, headers, reply)
    ensures TypedReply(reply)
    ensures reply.Batch? ==> Responses.Marked(reply.records, Headers.Get(headers, Headers.LAST))
  {
    hide ReadBatch, V1Read.ReadV1, Responses.Typed, Responses.Marked;
    if reply.Batch? {
      if c.v2 {
        var status, s, head, cancelled, hs :|
          !ReadBatch(status, headers, s, head, cancelled, hs).Panicked?
          && reply == ReplyOf(ReadBatch(status, headers, s, head, cancelled, hs));
        Responses.ReadsTyped(status, headers, s, head, cancelled, hs, reply.records);
        Responses.LastMarkDecides(status, headers, s, head, cancelled, hs, reply.records);
      } else {
        var status, s, head, cancelled, entry, ths :|
          !V1Read.ReadV1(status, headers, s, head, cancelled, entry, ths).Panicked?
          && reply == ReplyOf(V1Read.ReadV1(status, headers, s, head, cancelled, entry, ths));
        Responses.ReadsTypedV1(status, headers, s, head, cancelled, entry, ths, reply.records);
        Responses.LastMarkDecidesV1(status, headers, s, head, cancelled, entry, ths, reply.records);
      }
    }
  }

  ghost predicate ReadHistory(c: Config, heads: seq<Headers.Header>, history: seq<Reply>) {
    |heads| == |history| && forall i :: 0 <= i < |history| ==> ReadReply(c, heads[i], history[i])
  }

  /** No response before the final one says that the query has ended. */
  ghost predicate UnmarkedBefore(heads: seq<Headers.Header>) {
    forall i :: 0 <= i < |heads| - 1 ==> !SaysTrue(Headers.Get(heads[i], Headers.LAST))
  }

  lemma {:induction false} UnmarkedHaveNoLast(c: Config, heads: seq<Headers.Header>, history: seq<Reply>)
    requires ReadHistory(c, heads, history)
    requires forall i :: 0 <= i < |heads| ==> !SaysTrue(Headers.Get(heads[i], Headers.LAST))
    ensures NoLast(AllRecords(history))
  {
    hide ReadReply, SaysTrue, TypedReply;
    if history != [] {
      var n := |history| - 1;
      UnmarkedHaveNoLast(c, heads[..n], history[..n]);
      assert history == history[..n] + [history[n]];
      AllRecordsSnoc(history[..n], history[n]);
      RepliesAreTypedAndMarked(c, heads[n], history[n]);
    }
  }

  /** Only the final record of a sequence may be a last one. */
  lemma {:induction false} NothingIsCut(xs: seq<RecordView>, ys: seq<RecordView>)
    requires NoLast(xs) && forall i :: 0 <= i < |ys| - 1 ==> !ys[i].last
    ensures Cut(xs + ys) == xs + ys
  {
    CutOfBoth(xs, ys);
    if ys != [] {
      var n := |ys| - 1;
      CutOfBoth(ys[..n], [ys[n]]);
      assert ys == ys[..n] + [ys[n]];
    }
  }

  /**
   * From the responses of the server to the hands of the consumer: as long as
   * no response but the final one is marked as the end of the query, an
   * uncancelled query delivers every record of every response, unchanged.
   */
  lemma {:induction false} EveryRecordArrives(c: Config, first: Reply, actions: seq<Action>, t: State,
                                              heads: seq<Headers.Header>)
    requires RunOf(c, first, actions, t) && !t.cancelled && RecordsDone(t)
    requires ReadHistory(c, heads, t.history) && UnmarkedBefore(heads)
    ensures t.received == AllRecords(t.history)
  {
    hide RunOf, ReadReply, TypedReply, SaysTrue, AllRecords, Cut;
    forall i | 0 <= i < |t.history| ensures TypedReply(t.history[i]) {
      RepliesAreTypedAndMarked(c, heads[i], t.history[i]);
    }
    TypedComeUnchanged(c, first, actions, t);
    RunInv(c, first, actions, t);
    var n := |t.history| - 1;
    UnmarkedHaveNoLast(c, heads[..n], t.history[..n]);
    assert t.history == t.history[..n] + [t.history[n]];
    AllRecordsSnoc(t.history[..n], t.history[n]);
    RepliesAreTypedAndMarked(c, heads[n], t.history[n]);
    NothingIsCut(AllRecords(t.history[..n]), if t.history[n].Batch? then t.history[n].records else []);
  }

  // ---- which reply ends a query -------------------------------------------------------------------

  /**
   * A reply ends the query if it has a last record, fails, brings no content
   * to a query that is not continuous, or is an empty batch, unless it is the
   * first one or a v2 query is continuous.
   */
  ghost predicate Ends(c: Config, reply: Reply, first: bool) {
    match reply
    case Hard(_) => true
    case NoContent => !c.continuous
    case Batch(b) => (exists i :: 0 <= i < |b| && b[i].last) || (b == [] && !first && !(c.v2 && c.continuous))
  }

  lemma AnswerEndsIff(c: Config, records: seq<RecordView>, reply: Reply, first: bool)
    ensures Answer(c, records, reply, first).Ended? <==> Ends(c, reply, first)
  {}

  ghost predicate OngoingBefore(c: Config, history: seq<Reply>) {
    forall k :: 0 <= k < |history| ==> Sequentially(c, history[..k]).Ongoing?
  }

  lemma {:induction false} StepKeepsOngoing(c: Config, s: State, a: Action)
    requires Inv(c, s) && Act(c, s, a).Some? && OngoingBefore(c, s.history)
    ensures OngoingBefore(c, Act(c, s, a).value.history)
  {
    hide Sequentially, Act, Deliverable, NoLast, LaterFailure, FlowOk, ErrorsOk;
    OverStays(c, s, a);
    var next := Act(c, s, a).value.history;
    if a.Fetch? {
      OnlyFetching(c, s, a);
      forall k | 0 <= k < |next| ensures Sequentially(c, next[..k]).Ongoing? {
        assert next[..k] == if k < |s.history| then s.history[..k] else s.history;
      }
    }
  }

  lemma OnlyFetching(c: Config, s: State, a: Action)
    requires Act(c, s, a).Some? && a.Fetch?
    ensures s.producer.Fetching?
  {}

  lemma {:induction false} ReachesOngoing(c: Config, s: State, actions: seq<Action>, t: State)
    requires Inv(c, s) && Reaches(c, s, actions, t) && OngoingBefore(c, s.history)
    ensures OngoingBefore(c, t.history)
    decreases |actions|
  {
    hide Inv, Act, OngoingBefore;
    if actions != [] {
      ActKeeps(c, s, actions[0]);
      StepKeepsOngoing(c, s, actions[0]);
      ReachesOngoing(c, Act(c, s, actions[0]).value, actions[1..], t);
    }
  }

  lemma {:induction false} ReplyAt(c: Config, history: seq<Reply>, k: nat)
    requires k < |history| && Sequentially(c, history[..k]).Ongoing?
    ensures Sequentially(c, history[..k + 1]).Ended? <==> Ends(c, history[k], k == 0)
  {
    hide Answer, Ends;
    var upTo := history[..k + 1];
    assert upTo[..k] == history[..k] && upTo[k] == history[k];
    ReadingSnoc(c, upTo);
    AnswerEndsIff(c, Sequentially(c, history[..k]).records, history[k], k == 0);
  }

  /** No fetch is made after a reply that ends the query, and an uncancelled query ends with nothing else. */
  lemma {:induction false} QueryEndsAt(c: Config, first: Reply, actions: seq<Action>, t: State)
    requires RunOf(c, first, actions, t)
    ensures forall k :: 0 <= k < |t.history| - 1 ==> !Ends(c, t.history[k], k == 0)
    ensures !t.cancelled && RecordsDone(t) ==> t.history != [] && Ends(c, t.history[|t.history| - 1], |t.history| == 1)
  {
    hide RunOf, Inv, Reaches, Sequentially, Ends, LaterFailure;
    RunInv(c, first, actions, t);
    RunOngoing(c, first, actions, t);
    var h := t.history;
    forall k | 0 <= k < |h| - 1 ensures !Ends(c, h[k], k == 0) {
      ReplyAt(c, h, k);
      assert Sequentially(c, h[..k + 1]).Ongoing?;
    }
    if !t.cancelled && RecordsDone(t) {
      RefinesSequential(c, first, actions, t);
      HistoryIsNotEmpty(c, t);
      assert h[..|h|] == h;
      ReplyAt(c, h, |h| - 1);
    }
  }

  lemma HistoryIsNotEmpty(c: Config, s: State)
    requires Inv(c, s)
    ensures s.history != []
  {}

  lemma {:induction false} RunOngoing(c: Config, first: Reply, actions: seq<Action>, t: State)
    requires RunOf(c, first, actions, t)
    ensures OngoingBefore(c, t.history)
  {
    hide Inv, Reaches, Act;
    StartInv(c, first);
    var s := Start(c, first).value;
    assert s.history == [first] && [first][..0] == [];
    assert Sequentially(c, []) == Ongoing([]);
    ReachesOngoing(c, s, actions, t);
  }

  // ---- cancellation -------------------------------------------------------------------------------

  /** The steps the producer has to take to its end once the query is cancelled. */
  function ProducerSteps(p: Producer): nat {
    match p
    case Sending(pending) => if pending == [] then 5 else 3
    case Fetching => 4
    case Polling => 3
    case Failing(_) => 3
    case Stopping => 2
    case RecordsClosed => 1
    case Exited => 0
  }

  function WrapperSteps(w: Wrapper): nat {
    match w
    case Receiving => 5
    case Awaiting => 4
    case Checking(_) => 3
    case Offering(_) => 3
    case Forwarding(_) => 3
    case Leaving => 2
    case OutClosed => 1
    case Gone => 0
  }

  function StepsToEnd(s: State): nat {
    ProducerSteps(s.producer) + WrapperSteps(s.wrapper)
  }

  /** The next step of a cancelled query: a fetch that is under way fails, and nothing waits for the consumer. */
  function EndingStep(s: State, error: string): Action
    requires s.cancelled && !(s.producer.Exited? && s.wrapper.Gone?)
  {
    if s.producer.Polling? then StopOnCancel
    else if !s.producer.Exited? then ProducerStep(s, Hard(error))
    else WrapperStep(s)
  }

  /** The fetches still to come: one only if the producer is in it, or done with its batch. */
  function FetchesLeft(p: Producer, error: string): seq<Reply> {
    if p.Fetching? || p == Sending([]) then [Hard(error)] else []
  }

  lemma {:induction false} ProducerEnds(c: Config, s: State, error: string)
    requires s.cancelled && !s.producer.Exited? && (s.producer.Failing? ==> s.errs == [])
    ensures var a := EndingStep(s, error);
            && Act(c, s, a).Some? && IsProducerAction(a) && Act(c, s, a).value.cancelled
            && StepsToEnd(Act(c, s, a).value) < StepsToEnd(s)
            && Act(c, s, a).value.history + FetchesLeft(Act(c, s, a).value.producer, error)
               == s.history + FetchesLeft(s.producer, error)
  {}

  lemma {:induction false} WrapperEnds(c: Config, s: State, error: string)
    requires s.cancelled && s.producer.Exited? && !s.wrapper.Gone? && (s.wrapper.Forwarding? ==> s.outErrs == [])
    ensures var a := EndingStep(s, error);
            && Act(c, s, a).Some? && !IsConsumerAction(a) && Act(c, s, a).value.cancelled
            && StepsToEnd(Act(c, s, a).value) < StepsToEnd(s)
            && Act(c, s, a).value.history == s.history && Act(c, s, a).value.producer == s.producer
  {}

  lemma {:induction false} EndFrom(c: Config, s: State, error: string) returns (more: seq<Action>, t: State)
    requires Inv(c, s) && s.cancelled
    ensures Reaches(c, s, more, t) && |more| <= StepsToEnd(s)
    ensures forall i :: 0 <= i < |more| ==> !IsConsumerAction(more[i])
    ensures t.producer.Exited? && t.wrapper.Gone? && t.history == s.history + FetchesLeft(s.producer, error)
    decreases StepsToEnd(s)
  {
    hide Inv, Act, EndingStep, IsProducerAction, StepsToEnd;
    if s.producer.Exited? && s.wrapper.Gone? {
      more, t := [], s;
    } else {
      var a := EndingStep(s, error);
      ErrorRoom(c, s);
      if s.producer.Exited? { WrapperEnds(c, s, error); } else { ProducerEnds(c, s, error); }
      ActKeeps(c, s, a);
      more, t := EndFrom(c, Act(c, s, a).value, error);
      assert ([a] + more)[1..] == more;
      more := [a] + more;
    }
  }

  /**
   * A cancelled query can always come to its end within ten steps of its own
   * goroutines, whether or not the consumer still receives, and without
   * another fetch unless the producer was just about to make one.
   */
  lemma {:induction false} CancelledCanEnd(c: Config, first: Reply, actions: seq<Action>, s: State, error: string)
      returns (more: seq<Action>, t: State)
    requires RunOf(c, first, actions, s) && s.cancelled
    ensures Reaches(c, s, more, t) && |more| <= 10
    ensures forall i :: 0 <= i < |more| ==> !IsConsumerAction(more[i])
    ensures t.producer.Exited? && t.wrapper.Gone?
    ensures t.history == s.history || (t.history == s.history + [Hard(error)] && (s.producer.Fetching? || s.producer == Sending([])))
  {
    hide RunOf, Inv, Reaches;
    RunInv(c, first, actions, s);
    more, t := EndFrom(c, s, error);
  }

  // ---- steps per fetch ----------------------------------------------------------------------------

  /** The steps that a reply can bring with it. */
  function Cost(replies: seq<Reply>): nat {
    if replies == [] then 0
    else
      var last := replies[|replies| - 1];
      Cost(replies[..|replies| - 1])
      + match last
        case Batch(b) => 2 + 5 * |b|
        case NoContent => 2
        case Hard(_) => 0
  }

  function ProducerBurden(p: Producer): nat {
    match p
    case Sending(pending) => 6 + 5 * |pending|
    case Fetching => 5
    case Polling => 6
    case Failing(_) => 4
    case Stopping => 3
    case RecordsClosed => 2
    case Exited => 0
  }

  /** The steps left without a further fetch, with those of a failing one. */
  function Burden(s: State): nat {
    ProducerBurden(s.producer) + 4 * |s.records| + WrapperWork(s.wrapper) + |s.out|
    + (if s.drained then 0 else 1) + (if s.cancelled then 0 else 1)
  }

  lemma {:induction false} CostSnoc(replies: seq<Reply>, reply: Reply)
    ensures Cost(replies + [reply]) == Cost(replies) + Cost([reply])
  {
    assert (replies + [reply])[..|replies|] == replies;
    assert [reply][..0] == [];
  }

  lemma {:induction false} CostOfBoth(a: seq<Reply>, b: seq<Reply>)
    ensures Cost(a + b) == Cost(a) + Cost(b)
  {
    if b == [] {
      assert a + b == a;
    } else {
      var init, last := b[..|b| - 1], b[|b| - 1];
      CostOfBoth(a, init);
      CostSnoc(a + init, last);
      CostSnoc(init, last);
      assert a + b == (a + init) + [last] && b == init + [last];
    }
  }

  lemma {:induction false} FetchBurden(c: Config, s: State, reply: Reply)
    requires s.producer.Fetching?
    ensures Burden(ProducerAct(c, s, Fetch(reply)).value) < Burden(s) + Cost([reply])
  {
    assert [reply][..0] == [];
  }

  lemma ProducerBurdenFalls(c: Config, s: State, a: Action)
    requires ProducerAct(c, s, a).Some? && !a.Fetch?
    ensures Burden(ProducerAct(c, s, a).value) < Burden(s) && ProducerAct(c, s, a).value.history == s.history
  {
    hide WrapperWork;
  }

  lemma WrapperBurdenFalls(s: State, a: Action)
    requires WrapperAct(s, a).Some?
    ensures Burden(WrapperAct(s, a).value) < Burden(s) && WrapperAct(s, a).value.history == s.history
  {
    hide ProducerBurden, Readable;
  }

  lemma ConsumerBurdenFalls(s: State, a: Action)
    requires ConsumerAct(s, a).Some? && !a.AskErr?
    ensures Burden(ConsumerAct(s, a).value) < Burden(s) && ConsumerAct(s, a).value.history == s.history
  {
    hide ProducerBurden, WrapperWork;
  }

  /** Every step but a fetch and a call of Err() makes the burden less; a fetch adds less than its cost. */
  lemma {:induction false} BurdenFalls(c: Config, s: State, a: Action)
    requires Act(c, s, a).Some? && !a.AskErr?
    ensures !a.Fetch? ==> Burden(Act(c, s, a).value) < Burden(s) && Act(c, s, a).value.history == s.history
    ensures a.Fetch? ==> Burden(Act(c, s, a).value) < Burden(s) + Cost([a.reply])
                         && Act(c, s, a).value.history == s.history + [a.reply]
  {
    hide WrapperAct, ConsumerAct, Cost, Burden;
    if a.Cancel? {
      CancelBurden(s);
    } else if a.Fetch? {
      FetchBurden(c, s, a.reply);
    } else if IsProducerAction(a) {
      ProducerBurdenFalls(c, s, a);
    } else if IsConsumerAction(a) {
      ConsumerBurdenFalls(s, a);
    } else {
      WrapperBurdenFalls(s, a);
    }
  }

  lemma CancelBurden(s: State)
    requires !s.cancelled
    ensures Burden(s.(cancelled := true)) < Burden(s)
  {
    hide ProducerBurden, WrapperWork;
  }

  /** The number of steps of any run, cancelled or not, is bounded by what its fetches brought. */
  lemma {:induction false} StepsPerFetch(c: Config, s: State, actions: seq<Action>, t: State)
    requires Reaches(c, s, actions, t) && forall i :: 0 <= i < |actions| ==> !actions[i].AskErr?
    ensures s.history <= t.history
    ensures |actions| + Burden(t) <= Burden(s) + Cost(t.history[|s.history|..])
    decreases |actions|
  {
    hide Act, Burden;
    if actions == [] {
      assert t.history[|s.history|..] == [];
    } else {
      var a := actions[0];
      var next := Act(c, s, a).value;
      BurdenFalls(c, s, a);
      StepsPerFetch(c, next, actions[1..], t);
      if a.Fetch? {
        assert t.history[|s.history|..] == [a.reply] + t.history[|next.history|..];
        CostOfBoth([a.reply], t.history[|next.history|..]);
      }
    }
  }
  /** The producer will make no further fetch. */
  predicate Over(p: Producer) {
    p.Failing? || p.Stopping? || p.RecordsClosed? || p.Exited?
  }

  lemma ProducerOver(c: Config, s: State, a: Action)
    requires ProducerAct(c, s, a).Some?
    ensures Over(s.producer) ==> !a.Fetch? && Over(ProducerAct(c, s, a).value.producer)
    ensures a.Fetch? ==> ProducerAct(c, s, a).value.history == s.history + [a.reply]
    ensures a.Fetch? && a.reply.Hard? ==> Over(ProducerAct(c, s, a).value.producer)
  {}

  lemma OverStays(c: Config, s: State, a: Action)
    requires Act(c, s, a).Some?
    ensures Over(s.producer) ==> !a.Fetch? && Over(Act(c, s, a).value.producer)
    ensures !a.Fetch? ==> Act(c, s, a).value.history == s.history
    ensures a.Fetch? ==> Act(c, s, a).value.history == s.history + [a.reply]
    ensures a.Fetch? && a.reply.Hard? ==> Over(Act(c, s, a).value.producer)
  {
    hide WrapperAct, ConsumerAct, ProducerAct, Burden, Over;
    if a.Cancel? {
    } else if IsProducerAction(a) {
      ProducerOver(c, s, a);
      if !a.Fetch? { ProducerBurdenFalls(c, s, a); }
    } else if IsConsumerAction(a) {
      ConsumerOver(s, a);
    } else {
      WrapperBurdenFalls(s, a);
      WrapperWorkDecreases(s, a, []);
    }
  }

  lemma ConsumerOver(s: State, a: Action)
    requires ConsumerAct(s, a).Some?
    ensures ConsumerAct(s, a).value.history == s.history && ConsumerAct(s, a).value.producer == s.producer
  {}

  lemma {:induction false} FailedFetchEnds(c: Config, s: State, actions: seq<Action>, t: State)
    requires Reaches(c, s, actions, t)
    requires forall i :: |s.history| <= i < |t.history| ==> t.history[i].Hard?
    ensures s.history <= t.history
    ensures |t.history| <= |s.history| + if Over(s.producer) then 0 else 1
    decreases |actions|
  {
    hide Act;
    if actions != [] {
      var next := Act(c, s, actions[0]).value;
      OverStays(c, s, actions[0]);
      ReachesHistory(c, next, actions[1..], t);
      if actions[0].Fetch? {
        assert t.history[|s.history|] == actions[0].reply;
      }
      FailedFetchEnds(c, next, actions[1..], t);
    }
  }

  /**
   * A cancelled query ends: a request made with a cancelled context fails, so
   * at most one more fetch is made, and the steps left are bounded by what the
   * producer still holds. With NeverStuck, it comes to its end.
   */
  lemma {:induction false} CancelledRunsAreBounded(c: Config, first: Reply, actions: seq<Action>, s: State,
                                                   more: seq<Action>, t: State)
    requires RunOf(c, first, actions, s) && s.cancelled && Reaches(c, s, more, t)
    requires forall i :: |s.history| <= i < |t.history| ==> t.history[i].Hard?
    requires forall i :: 0 <= i < |more| ==> !more[i].AskErr?
    ensures |t.history| <= |s.history| + 1
    ensures |more| <= 5 * |Pending(s.producer)| + 515
  {
    hide RunOf, Reaches, FlowOk, ErrorsOk, MeaningOk, AllRecords;
    RunInv(c, first, actions, s);
    FailedFetchEnds(c, s, more, t);
    StepsPerFetch(c, s, more, t);
    FailuresAreFree(t.history[|s.history|..]);
  }

  lemma {:induction false} FailuresAreFree(replies: seq<Reply>)
    requires |replies| <= 1 && forall i :: 0 <= i < |replies| ==> replies[i].Hard?
    ensures Cost(replies) == 0
  {}
}
