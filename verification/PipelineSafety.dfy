/** What every step of the pipeline keeps, and what follows for whole runs. */
module PipelineSafety {
  import opened Text
  import opened V2Decode
  import opened Pipeline

  // ---- cutting ------------------------------------------------------------------------------

  lemma {:induction false} CutOfBoth(xs: seq<RecordView>, ys: seq<RecordView>)
    ensures NoLast(xs) ==> Cut(xs + ys) == xs + Cut(ys)
    ensures !NoLast(xs) ==> Cut(xs + ys) == Cut(xs)
  {
    if xs == [] {
      assert xs + ys == ys;
    } else {
      assert (xs + ys)[1..] == xs[1..] + ys;
      CutOfBoth(xs[1..], ys);
    }
  }

  lemma {:induction false} CutNoLast(xs: seq<RecordView>)
    requires NoLast(xs)
    ensures Cut(xs) == xs
  {
    CutOfBoth(xs, []);
    assert xs + [] == xs;
  }

  /** Only the final element of a cut sequence can be a last record. */
  lemma {:induction false} CutShape(xs: seq<RecordView>)
    ensures Cut(xs) <= xs
    ensures forall i :: 0 <= i < |Cut(xs)| - 1 ==> !Cut(xs)[i].last
    ensures !NoLast(xs) ==> Cut(xs) != [] && Cut(xs)[|Cut(xs)| - 1].last
  {
    if xs != [] && !xs[0].last {
      CutShape(xs[1..]);
    }
  }

  lemma {:induction false} CutGrows(xs: seq<RecordView>, ys: seq<RecordView>)
    ensures Cut(xs) <= Cut(xs + ys)
  {
    CutOfBoth(xs, ys);
    if NoLast(xs) { CutNoLast(xs); }
  }

  lemma NothingToCut()
    ensures Cut([]) == [] && Readables([]) == []
  {}

  lemma ReadablesOfBoth(xs: seq<RecordView>, ys: seq<RecordView>)
    ensures Readables(xs + ys) == Readables(xs) + Readables(ys)
  {}

  lemma ReadablesPrefix(xs: seq<RecordView>, ys: seq<RecordView>)
    requires xs <= ys
    ensures Readables(xs) <= Readables(ys)
  {}

  lemma {:induction false} AllRecordsSnoc(history: seq<Reply>, reply: Reply)
    ensures AllRecords(history + [reply]) == AllRecords(history) + if reply.Batch? then reply.records else []
  {
    assert (history + [reply])[..|history|] == history;
  }

  lemma DeliverableGrows(history: seq<Reply>, reply: Reply)
    ensures Deliverable(history) <= Deliverable(history + [reply])
  {
    AllRecordsSnoc(history, reply);
    var more := if reply.Batch? then reply.records else [];
    CutGrows(AllRecords(history), more);
    ReadablesPrefix(Cut(AllRecords(history)), Cut(AllRecords(history) + more));
  }

  // ---- the invariant --------------------------------------------------------------------------

  predicate Producing(p: Producer) {
    p.Sending? || p.Fetching? || p.Polling? || p.Failing?
  }

  /** The wrapper still moves records. */
  predicate Active(w: Wrapper) {
    w.Receiving? || w.Checking? || w.Offering?
  }

  function Pending(p: Producer): seq<RecordView> {
    if p.Sending? then p.pending else []
  }

  predicate EndsWith(xs: seq<RecordView>, ys: seq<RecordView>) {
    |ys| <= |xs| && xs[|xs| - |ys|..] == ys
  }

  /** The fetched records that the producer has already sent. */
  function Earlier(s: State): seq<RecordView>
    requires EndsWith(AllRecords(s.history), Pending(s.producer))
  {
    AllRecords(s.history)[..|AllRecords(s.history)| - |Pending(s.producer)|]
  }

  predicate PhaseOk(s: State) {
    && (Producing(s.producer) ==> EndsWith(AllRecords(s.history), Pending(s.producer)) && NoLast(Earlier(s)))
    && (s.wrapper.Awaiting? || s.wrapper.Forwarding? ==> s.records == [] && (s.producer.RecordsClosed? || s.producer.Exited?))
    && |s.records| <= CAPACITY && |s.out| <= CAPACITY
  }

  /** Everything between the producer and the consumer's hands, in order. */
  function Through(s: State): seq<RecordView> {
    s.received + s.out + (if s.wrapper.Offering? then [s.wrapper.record] else [])
    + Readables((if s.wrapper.Checking? then [s.wrapper.record] else []) + s.records)
  }

  /** Conservation: no record is lost, duplicated or reordered unless the query is cancelled. */
  predicate FlowOk(s: State)
    requires PhaseOk(s)
  {
    if Active(s.wrapper) then
      if Producing(s.producer) then Through(s) == Readables(Earlier(s))
      else Through(s) <= Deliverable(s.history) && (!s.cancelled ==> Through(s) == Deliverable(s.history))
    else
      && s.received + s.out <= Deliverable(s.history)
      && (!s.cancelled ==> s.received + s.out == Deliverable(s.history) && !Producing(s.producer))
  }

  /** All errors on their way or delivered. */
  function Errors(s: State): seq<string> {
    s.errs + (if s.wrapper.Forwarding? then [s.wrapper.error] else []) + s.outErrs + s.taken
  }

  function FailureList(history: seq<Reply>): seq<string> {
    if LaterFailure(history).Some? then [LaterFailure(history).value] else []
  }

  predicate ErrorsOk(s: State) {
    && (Producing(s.producer) ==>
          Errors(s) == [] && LaterFailure(s.history) == if s.producer.Failing? then Some(s.producer.error) else None)
    && (!Producing(s.producer) ==> Errors(s) == FailureList(s.history))
    && (LaterFailure(s.history).Some? ==> NoLast(AllRecords(s.history)))
    && ((s.wrapper.Leaving? || s.wrapper.OutClosed? || s.wrapper.Gone?) && !s.cancelled ==> s.errs == [])
  }

  /** What the sequential reader makes of the same replies. */
  predicate MeaningOk(c: Config, s: State) {
    && s.history != []
    && (s.producer.Sending? ==> Sequentially(c, s.history)
                                == if NoLast(s.producer.pending) then Ongoing(Deliverable(s.history))
                                   else Ended(Deliverable(s.history), None))
    && (s.producer.Fetching? || s.producer.Polling? ==> Sequentially(c, s.history) == Ongoing(Deliverable(s.history)))
    && (s.producer.Failing? ==> Sequentially(c, s.history) == Ended(Deliverable(s.history), Some(s.producer.error)))
    && (!Producing(s.producer) && !s.cancelled ==>
          Sequentially(c, s.history) == Ended(Deliverable(s.history), LaterFailure(s.history)))
  }

  predicate Inv(c: Config, s: State) {
    PhaseOk(s) && FlowOk(s) && ErrorsOk(s) && MeaningOk(c, s)
  }

  // ---- the stream while the producer is still at work ------------------------------------------

  lemma DeliverableSplit(s: State)
    requires PhaseOk(s) && Producing(s.producer)
    ensures Deliverable(s.history) == Readables(Earlier(s)) + Readables(Cut(Pending(s.producer)))
    ensures NoLast(Pending(s.producer)) <==> NoLast(AllRecords(s.history))
  {
    hide Cut, Readables, AllRecords, Pending;
    var all, rest := AllRecords(s.history), Pending(s.producer);
    assert all == Earlier(s) + rest;
    CutOfBoth(Earlier(s), rest);
    ReadablesOfBoth(Earlier(s), Cut(rest));
    assert forall i :: 0 <= i < |rest| ==> rest[i] == all[|all| - |rest| + i];
  }

  lemma NoErrorsYet(s: State)
    requires Errors(s) == []
    ensures s.errs == [] && s.outErrs == [] && s.taken == [] && !s.wrapper.Forwarding?
  {}

  lemma OneError(s: State, error: string)
    requires s.errs == [error] && s.outErrs == [] && s.taken == [] && !s.wrapper.Forwarding?
    ensures Errors(s) == [error]
  {}

  /** While the producer is at work no last record has been sent. */
  lemma NothingLastYet(s: State)
    requires PhaseOk(s) && FlowOk(s) && Active(s.wrapper) && Producing(s.producer)
    ensures NoLast(Through(s))
  {
    hide Through, AllRecords;
    assert forall i :: 0 <= i < |Earlier(s)| ==> !Earlier(s)[i].last;
  }

  lemma {:induction false} NoLastInDeliverable(history: seq<Reply>)
    requires NoLast(AllRecords(history))
    ensures NoLast(Deliverable(history))
  {
    hide AllRecords;
    CutNoLast(AllRecords(history));
  }

  /** A last record that has come through is the end of the stream, and the producer has stopped. */
  lemma LastEndsDeliverable(s: State, k: nat)
    requires PhaseOk(s) && FlowOk(s) && Active(s.wrapper)
    requires k < |Through(s)| && Through(s)[k].last
    ensures !Producing(s.producer)
    ensures k == |Through(s)| - 1 == |Deliverable(s.history)| - 1
    ensures Through(s) == Deliverable(s.history)
  {
    hide Through, AllRecords, Cut;
    if Producing(s.producer) {
      NothingLastYet(s);
    } else {
      CutShape(AllRecords(s.history));
    }
  }

  // ---- preservation ---------------------------------------------------------------------------

  lemma {:induction false} StartInv(c: Config, first: Reply)
    requires Start(c, first).Some?
    ensures Inv(c, Start(c, first).value)
  {
    hide Sequentially, Readables, AllRecords, Cut;
    var s := Start(c, first).value;
    FirstReply(c, first);
    NothingToCut();
    assert Producing(s.producer) ==> Earlier(s) == [];
  }

  lemma {:induction false} FirstReply(c: Config, first: Reply)
    ensures AllRecords([first]) == if first.Batch? then first.records else []
    ensures first.Batch? ==>
              Sequentially(c, [first])
              == if NoLast(first.records) then Ongoing(Deliverable([first])) else Ended(Deliverable([first]), None)
    ensures first.NoContent? ==> Sequentially(c, [first]) == if c.continuous then Ongoing([]) else Ended([], None)
  {
    var b := if first.Batch? then first.records else [];
    assert [first][..0] == [];
    assert AllRecords([first]) == [] + b;
    if NoLast(b) { CutNoLast(b); }
    assert forall xs: seq<RecordView> :: [] + xs == xs;
  }

  lemma CancelKeeps(c: Config, s: State)
    requires Inv(c, s)
    ensures Inv(c, s.(cancelled := true))
  {
    var t := s.(cancelled := true);
    assert Through(t) == Through(s) && Errors(t) == Errors(s);
    if Active(s.wrapper) && Producing(s.producer) {
      assert Earlier(t) == Earlier(s);
    }
  }

  lemma TakeMoves(s: State)
    requires s.out != []
    ensures var t := ConsumerAct(s, Take).value;
            t.received + t.out == s.received + s.out && Through(t) == Through(s) && Errors(t) == Errors(s)
  {
    hide Readables;
    var t := ConsumerAct(s, Take).value;
    assert s.out == [s.out[0]] + s.out[1..];
    assert t.received + t.out == s.received + s.out;
  }

  lemma TakeKeeps(c: Config, s: State)
    requires Inv(c, s) && ConsumerAct(s, Take).Some?
    ensures Inv(c, ConsumerAct(s, Take).value)
  {
    hide Readables, Sequentially, Deliverable, LaterFailure, AllRecords, NoLast, Through, Errors;
    var t := ConsumerAct(s, Take).value;
    TakeMoves(s);
    assert Producing(s.producer) ==> Earlier(t) == Earlier(s);
  }

  lemma AskErrKeeps(c: Config, s: State)
    requires Inv(c, s) && s.outErrs != []
    ensures Inv(c, ConsumerAct(s, AskErr).value)
  {
    hide Readables, Sequentially, Deliverable, LaterFailure, AllRecords, NoLast;
    var t := ConsumerAct(s, AskErr).value;
    assert Through(t) == Through(s);
    assert |Errors(s)| <= 1;
    assert s.outErrs == [s.outErrs[0]] + s.outErrs[1..];
    assert Errors(t) == Errors(s);
  }

  lemma ConsumerKeeps(c: Config, s: State, a: Action)
    requires Inv(c, s) && ConsumerAct(s, a).Some?
    ensures Inv(c, ConsumerAct(s, a).value)
  {
    hide Inv;
    if a.Take? {
      TakeKeeps(c, s);
    } else if a.SeeOutClosed? {
      DrainKeeps(c, s);
    } else if s.outErrs != [] {
      AskErrKeeps(c, s);
    }
  }

  lemma DrainKeeps(c: Config, s: State)
    requires Inv(c, s)
    ensures Inv(c, s.(drained := true))
  {
    hide Readables, Sequentially, Deliverable, LaterFailure, AllRecords, NoLast;
    var t := s.(drained := true);
    assert Through(t) == Through(s) && Errors(t) == Errors(s);
  }

  /** The steps in which the producer turns to its next fetch. */
  lemma ProducerTurns(c: Config, s: State, a: Action)
    requires Inv(c, s) && ProducerAct(c, s, a).Some? && (a.FinishBatch? || a.PollTimer?)
    ensures Inv(c, ProducerAct(c, s, a).value)
  {
    hide Readables, Sequentially, LaterFailure, AllRecords, Deliverable;
    var t := ProducerAct(c, s, a).value;
    assert Through(t) == Through(s) && Errors(t) == Errors(s);
    assert Earlier(t) == Earlier(s);
  }

  /** The steps in which the producer gives up or closes a channel. */
  lemma ProducerCloses(c: Config, s: State, a: Action)
    requires Inv(c, s) && ProducerAct(c, s, a).Some? && (a.StopOnCancel? || a.CloseRecords? || a.CloseErrs?)
    ensures Inv(c, ProducerAct(c, s, a).value)
  {
    hide Readables, Sequentially, LaterFailure, AllRecords, Cut, NoLast;
    var t := ProducerAct(c, s, a).value;
    assert Through(t) == Through(s) && Errors(t) == Errors(s);
    if Producing(s.producer) {
      DeliverableSplit(s);
    }
  }

  lemma {:induction false} SendErrorKeeps(c: Config, s: State)
    requires Inv(c, s) && ProducerAct(c, s, SendError).Some?
    ensures Inv(c, ProducerAct(c, s, SendError).value)
  {
    hide Readables, Sequentially, LaterFailure, AllRecords, Cut, Errors;
    DeliverableSplit(s);
    var t := ProducerAct(c, s, SendError).value;
    assert Through(t) == Through(s);
    NothingToCut();
    NoErrorsYet(s);
    OneError(t, s.producer.error);
  }

  lemma {:induction false} SendRecordKeeps(c: Config, s: State)
    requires Inv(c, s) && ProducerAct(c, s, SendRecord).Some?
    ensures Inv(c, ProducerAct(c, s, SendRecord).value)
  {
    hide Sequentially, LaterFailure, AllRecords, Readables, Cut, Through, Readable;
    DeliverableSplit(s);
    var t := ProducerAct(c, s, SendRecord).value;
    var r := s.producer.pending[0];
    SendRecordThrough(c, s);
    SendRecordPhase(c, s);
    ReadablesOfBoth(Earlier(s), [r]);
    assert Errors(t) == Errors(s);
    CutOfOne(s.producer.pending);
  }

  lemma {:induction false} CutOfOne(pending: seq<RecordView>)
    requires pending != []
    ensures pending[0].last ==> Cut(pending) == [pending[0]] && !NoLast(pending)
    ensures !pending[0].last ==> Cut(pending) == [pending[0]] + Cut(pending[1..]) && NoLast(pending) == NoLast(pending[1..])
  {}

  lemma SendRecordThrough(c: Config, s: State)
    requires ProducerAct(c, s, SendRecord).Some?
    ensures Through(ProducerAct(c, s, SendRecord).value) == Through(s) + Readables([s.producer.pending[0]])
  {
    var t := ProducerAct(c, s, SendRecord).value;
    var held := if s.wrapper.Checking? then [s.wrapper.record] else [];
    assert held + t.records == (held + s.records) + [s.producer.pending[0]];
    ReadablesOfBoth(held + s.records, [s.producer.pending[0]]);
  }

  lemma SendRecordPhase(c: Config, s: State)
    requires PhaseOk(s) && ProducerAct(c, s, SendRecord).Some?
    ensures PhaseOk(ProducerAct(c, s, SendRecord).value)
    ensures !s.producer.pending[0].last ==> Earlier(ProducerAct(c, s, SendRecord).value) == Earlier(s) + [s.producer.pending[0]]
  {
    hide AllRecords;
    var all, pending := AllRecords(s.history), s.producer.pending;
    var n := |all| - |pending|;
    assert all[n] == pending[0];
    assert Earlier(s) + [pending[0]] == all[..n + 1];
    assert all[n + 1..] == pending[1..];
  }

  /** A reply extends the history, and the producer goes where AfterReply says. */
  lemma {:induction false} FetchKeeps(c: Config, s: State, reply: Reply)
    requires Inv(c, s) && s.producer.Fetching?
    ensures Inv(c, ProducerAct(c, s, Fetch(reply)).value)
  {
    hide Sequentially, LaterFailure;
    var t := ProducerAct(c, s, Fetch(reply)).value;
    FetchPhase(c, s, reply);
    FetchFlow(c, s, reply);
    FetchMeaning(c, s, reply);
    AllRecordsSnoc(s.history, reply);
    LaterFailureSnoc(s.history, reply);
    assert Errors(t) == Errors(s);
    assert Earlier(s) == AllRecords(s.history);
  }

  lemma {:induction false} LaterFailureSnoc(history: seq<Reply>, reply: Reply)
    requires history != [] && LaterFailure(history).None?
    ensures LaterFailure(history + [reply]) == if reply.Hard? then Some(reply.error) else None
  {
    assert (history + [reply])[..|history|] == history;
  }

  lemma FetchPhase(c: Config, s: State, reply: Reply)
    requires Inv(c, s) && s.producer.Fetching?
    ensures PhaseOk(ProducerAct(c, s, Fetch(reply)).value)
    ensures var t := ProducerAct(c, s, Fetch(reply)).value;
            Producing(t.producer) ==> Earlier(t) == AllRecords(s.history)
    ensures Earlier(s) == AllRecords(s.history) && NoLast(AllRecords(s.history))
  {
    hide AllRecords, Sequentially, LaterFailure;
    AllRecordsSnoc(s.history, reply);
  }

  lemma {:induction false} FetchFlow(c: Config, s: State, reply: Reply)
    requires Inv(c, s) && s.producer.Fetching?
    requires PhaseOk(ProducerAct(c, s, Fetch(reply)).value)
    ensures FlowOk(ProducerAct(c, s, Fetch(reply)).value)
  {
    hide Sequentially, LaterFailure, Cut, AllRecords, Readables;
    var t := ProducerAct(c, s, Fetch(reply)).value;
    FetchPhase(c, s, reply);
    DeliverableGrows(s.history, reply);
    AllRecordsSnoc(s.history, reply);
    CutNoLast(AllRecords(s.history));
    assert Through(t) == Through(s);
    assert !Producing(t.producer) ==> AllRecords(t.history) == AllRecords(s.history);
  }

  lemma {:induction false} FetchMeaning(c: Config, s: State, reply: Reply)
    requires Inv(c, s) && s.producer.Fetching?
    ensures MeaningOk(c, ProducerAct(c, s, Fetch(reply)).value)
  {
    hide LaterFailure, Cut, AllRecords, Readables, Sequentially, Answer, Deliverable, NoLast;
    var t := ProducerAct(c, s, Fetch(reply)).value;
    FetchPhase(c, s, reply);
    LaterFailureSnoc(s.history, reply);
    AnswerExtends(c, s.history, reply);
  }

  /** The reader's answer to one more reply, while no last record has been seen. */
  lemma {:induction false} AnswerExtends(c: Config, history: seq<Reply>, reply: Reply)
    requires history != [] && NoLast(AllRecords(history)) && Sequentially(c, history) == Ongoing(Deliverable(history))
    ensures Sequentially(c, history + [reply])
            == match AfterReply(c, reply)
               case Failing(e) => Ended(Deliverable(history + [reply]), Some(e))
               case Polling => Ongoing(Deliverable(history + [reply]))
               case Sending(b) =>
                 if NoLast(b) then Ongoing(Deliverable(history + [reply])) else Ended(Deliverable(history + [reply]), None)
               case _ => Ended(Deliverable(history + [reply]), None)
  {
    hide Cut, AllRecords, Readables;
    var b := if reply.Batch? then reply.records else [];
    assert (history + [reply])[..|history|] == history;
    DeliverableExtends(history, reply);
    NothingToCut();
    if NoLast(b) { CutNoLast(b); }
    assert Deliverable(history) + [] == Deliverable(history);
  }

  lemma {:induction false} DeliverableExtends(history: seq<Reply>, reply: Reply)
    requires NoLast(AllRecords(history))
    ensures Deliverable(history + [reply]) == Deliverable(history) + Readables(Cut(if reply.Batch? then reply.records else []))
  {
    hide AllRecords, Readables, Cut;
    var b := if reply.Batch? then reply.records else [];
    AllRecordsSnoc(history, reply);
    CutOfBoth(AllRecords(history), b);
    CutNoLast(AllRecords(history));
    ReadablesOfBoth(AllRecords(history), Cut(b));
  }

  /** The wrapper's steps inside its record loop. */
  lemma {:induction false} WrapperMoves(c: Config, s: State, a: Action)
    requires Inv(c, s) && WrapperAct(s, a).Some? && Active(s.wrapper) && !a.Offer?
    ensures Inv(c, WrapperAct(s, a).value)
  {
    hide Inv;
    if Active(WrapperAct(s, a).value.wrapper) {
      WrapperKeepsThrough(s, a);
      WrapperContinues(c, s, a);
    } else {
      WrapperStops(c, s, a);
    }
  }

  lemma {:induction false} WrapperContinues(c: Config, s: State, a: Action)
    requires Inv(c, s) && WrapperAct(s, a).Some? && Active(s.wrapper) && !a.Offer?
    requires var t := WrapperAct(s, a).value; Active(t.wrapper) && Through(t) == Through(s)
    ensures Inv(c, WrapperAct(s, a).value)
  {
    hide Sequentially, LaterFailure, AllRecords, Cut, Through, Deliverable, NoLast;
    var t := WrapperAct(s, a).value;
    assert Errors(t) == Errors(s);
    assert Producing(s.producer) ==> Earlier(t) == Earlier(s);
  }

  /** The wrapper leaves its record loop without passing on a last record. */
  lemma {:induction false} WrapperStops(c: Config, s: State, a: Action)
    requires Inv(c, s) && WrapperAct(s, a).Some? && Active(s.wrapper) && !a.Offer?
    requires !Active(WrapperAct(s, a).value.wrapper)
    ensures Inv(c, WrapperAct(s, a).value)
  {
    hide Sequentially, LaterFailure, AllRecords, Cut;
    var t := WrapperAct(s, a).value;
    assert Errors(t) == Errors(s);
    assert s.received + s.out <= Through(s);
    if Producing(s.producer) {
      DeliverableSplit(s);
      assert Earlier(t) == Earlier(s);
    } else if a.SeeRecordsClosed? {
      assert Through(s) == s.received + s.out;
    }
  }

  lemma WrapperKeepsThrough(s: State, a: Action)
    requires WrapperAct(s, a).Some? && Active(s.wrapper) && Active(WrapperAct(s, a).value.wrapper)
    ensures Through(WrapperAct(s, a).value) == Through(s)
  {
    hide Through;
    if a.CheckContext? {
      CheckKeepsThrough(s);
    } else if a.Receive? {
      ReceiveKeepsThrough(s);
    } else {
      OfferKeepsThrough(s);
    }
  }

  lemma CheckKeepsThrough(s: State)
    requires s.wrapper.Checking? && !s.cancelled
    ensures Through(WrapperAct(s, CheckContext).value) == Through(s)
  {
    var r, sent := s.wrapper.record, s.received + s.out;
    ReadablesOfBoth([r], s.records);
    assert Readables([r]) == [Readable(r)];
    hide Readables, Readable;
    assert [] + s.records == s.records && sent + [] == sent;
    assert sent + ([Readable(r)] + Readables(s.records)) == sent + [Readable(r)] + Readables(s.records);
  }

  lemma ReceiveKeepsThrough(s: State)
    requires s.wrapper.Receiving? && s.records != []
    ensures Through(WrapperAct(s, Receive).value) == Through(s)
  {
    assert [s.records[0]] + s.records[1..] == s.records == [] + s.records;
  }

  lemma OfferKeepsThrough(s: State)
    requires s.wrapper.Offering? && !s.wrapper.record.last && |s.out| < CAPACITY
    ensures Through(WrapperAct(s, Offer).value) == Through(s)
  {
    var t := WrapperAct(s, Offer).value;
    assert s.received + t.out == s.received + s.out + [s.wrapper.record];
    assert s.received + s.out + [s.wrapper.record] + [] == s.received + s.out + [s.wrapper.record];
  }

  lemma {:induction false} OfferKeeps(c: Config, s: State)
    requires Inv(c, s) && WrapperAct(s, Offer).Some?
    ensures Inv(c, WrapperAct(s, Offer).value)
  {
    hide Inv;
    if s.wrapper.record.last {
      OfferLastKeeps(c, s);
    } else {
      OfferKeepsThrough(s);
      OfferMoreKeeps(c, s);
    }
  }

  lemma {:induction false} OfferMoreKeeps(c: Config, s: State)
    requires Inv(c, s) && WrapperAct(s, Offer).Some? && !s.wrapper.record.last
    requires Through(WrapperAct(s, Offer).value) == Through(s)
    ensures Inv(c, WrapperAct(s, Offer).value)
  {
    hide Sequentially, LaterFailure, AllRecords, Through, Deliverable, NoLast;
    var t := WrapperAct(s, Offer).value;
    assert Errors(t) == Errors(s);
    assert Producing(s.producer) ==> Earlier(t) == Earlier(s);
  }

  lemma {:induction false} OfferLastKeeps(c: Config, s: State)
    requires Inv(c, s) && WrapperAct(s, Offer).Some? && s.wrapper.record.last
    ensures Inv(c, WrapperAct(s, Offer).value)
  {
    hide Sequentially, LaterFailure, AllRecords, Deliverable, Readables;
    var t := WrapperAct(s, Offer).value;
    var k := |s.received + s.out|;
    assert Errors(t) == Errors(s);
    assert Through(s)[k] == s.wrapper.record;
    assert t.received + t.out == Through(s)[..k + 1];
    LastEndsDeliverable(s, k);
    LastMeansNoFailure(s, k);
    assert Through(s)[..k + 1] == Through(s);
  }

  lemma LastMeansNoFailure(s: State, k: nat)
    requires PhaseOk(s) && FlowOk(s) && ErrorsOk(s) && Active(s.wrapper)
    requires k < |Through(s)| && Through(s)[k].last
    ensures s.errs == []
  {
    hide Through, LaterFailure, AllRecords, Deliverable;
    LastEndsDeliverable(s, k);
    if LaterFailure(s.history).Some? {
      NoLastInDeliverable(s.history);
    }
    assert |s.errs| <= |Errors(s)|;
  }

  /** The wrapper's steps after its record loop. */
  lemma {:induction false} WrapperFinishes(c: Config, s: State, a: Action)
    requires Inv(c, s) && WrapperAct(s, a).Some? && !Active(s.wrapper)
    ensures Inv(c, WrapperAct(s, a).value)
  {
    hide Sequentially, LaterFailure, AllRecords, Cut, Readables, Deliverable;
    var t := WrapperAct(s, a).value;
    if a.ReceiveError? {
      assert |Errors(s)| <= 1;
      assert s.errs == [s.errs[0]];
      assert Errors(t) == Errors(s);
    } else {
      assert Errors(t) == Errors(s);
    }
    if a.ForwardError? {
      assert |Errors(s)| <= 1 && s.errs == [];
    }
  }

  /** Every step, of whatever goroutine, keeps the invariant. */
  lemma {:induction false} ActKeeps(c: Config, s: State, a: Action)
    requires Inv(c, s) && Act(c, s, a).Some?
    ensures Inv(c, Act(c, s, a).value)
  {
    hide Inv;
    if a.Cancel? {
      CancelKeeps(c, s);
    } else if IsProducerAction(a) {
      if a.Fetch? {
        FetchKeeps(c, s, a.reply);
      } else if a.SendRecord? {
        SendRecordKeeps(c, s);
      } else if a.SendError? {
        SendErrorKeeps(c, s);
      } else if a.FinishBatch? || a.PollTimer? {
        ProducerTurns(c, s, a);
      } else {
        ProducerCloses(c, s, a);
      }
    } else if IsConsumerAction(a) {
      ConsumerKeeps(c, s, a);
    } else if !Active(s.wrapper) {
      WrapperFinishes(c, s, a);
    } else if a.Offer? {
      OfferKeeps(c, s);
    } else {
      WrapperMoves(c, s, a);
    }
  }

  lemma {:induction false} ReachesInv(c: Config, s: State, actions: seq<Action>, t: State)
    requires Inv(c, s) && Reaches(c, s, actions, t)
    ensures Inv(c, t)
    decreases |actions|
  {
    hide Inv, Act;
    if actions != [] {
      ActKeeps(c, s, actions[0]);
      ReachesInv(c, Act(c, s, actions[0]).value, actions[1..], t);
    }
  }

  lemma {:induction false} RunInv(c: Config, first: Reply, actions: seq<Action>, t: State)
    requires RunOf(c, first, actions, t)
    ensures Inv(c, t)
  {
    hide Inv, Start, Reaches;
    StartInv(c, first);
    ReachesInv(c, Start(c, first).value, actions, t);
  }

  // ---- the promises -----------------------------------------------------------------------------

  /**
   * Safety over all interleavings, cancelled at any point or not: what the
   * consumer has received, together with what waits for it, is a prefix of the
   * fetched batches concatenated and cut just after the first last record.
   */
  lemma {:induction false} ReceivedIsPrefix(c: Config, first: Reply, actions: seq<Action>, t: State)
    requires RunOf(c, first, actions, t)
    ensures t.received <= t.received + t.out <= Deliverable(t.history)
  {
    hide RunOf, Readables, Cut, AllRecords, Sequentially;
    RunInv(c, first, actions, t);
    assert t.received + t.out <= Through(t);
    if Active(t.wrapper) && Producing(t.producer) {
      DeliverableSplit(t);
    }
  }

  /**
   * Error visibility: once the consumer of an uncancelled query finds
   * Records() closed, everything fetched has come through, and the next
   * Err() returns exactly the hard error of a later fetch, if there was one.
   */
  lemma {:induction false} ErrorIsVisible(c: Config, first: Reply, actions: seq<Action>, t: State)
    requires RunOf(c, first, actions, t) && !t.cancelled && RecordsDone(t)
    ensures t.received == Deliverable(t.history)
    ensures t.taken == [] ==> ErrResult(t) == LaterFailure(t.history)
    ensures t.taken != [] ==> ErrResult(t) == None && LaterFailure(t.history) == Some(t.taken[0])
  {
    hide RunOf, Readables, Cut, AllRecords, Sequentially, LaterFailure;
    RunInv(c, first, actions, t);
    assert t.received + t.out == t.received;
    assert Errors(t) == t.outErrs + t.taken == FailureList(t.history);
    if t.taken == [] {
      assert t.outErrs + t.taken == t.outErrs;
    } else {
      assert |t.outErrs + t.taken| == 1;
      assert t.outErrs + t.taken == t.taken;
    }
  }

  /** At most one error is ever sent, so neither one-place error channel can block its sender. */
  lemma {:induction false} ErrorSendsNeverBlock(c: Config, first: Reply, actions: seq<Action>, t: State)
    requires RunOf(c, first, actions, t)
    ensures |Errors(t)| <= 1
    ensures t.producer.Failing? ==> Act(c, t, SendError).Some?
    ensures t.wrapper.Forwarding? ==> Act(c, t, ForwardError).Some?
  {
    hide RunOf, Readables, Cut, AllRecords, Sequentially, LaterFailure, Deliverable;
    RunInv(c, first, actions, t);
  }

  /**
   * Refinement: an uncancelled query that has come to its end delivered the
   * records, and holds the error, of the sequential reader.
   */
  lemma {:induction false} RefinesSequential(c: Config, first: Reply, actions: seq<Action>, t: State)
    requires RunOf(c, first, actions, t) && !t.cancelled && RecordsDone(t)
    ensures Sequentially(c, t.history) == Ended(t.received, LaterFailure(t.history))
  {
    hide RunOf, Readables, Cut, AllRecords, Sequentially, LaterFailure;
    RunInv(c, first, actions, t);
    ErrorIsVisible(c, first, actions, t);
  }

  /** What the reader made of the replies stays once it has come to an end. */
  lemma {:induction false} EndedStays(c: Config, replies: seq<Reply>, script: seq<Reply>)
    requires replies <= script && Sequentially(c, replies).Ended?
    ensures Sequentially(c, script) == Sequentially(c, replies)
    decreases |script|
  {
    if |script| > |replies| {
      EndedStays(c, replies, script[..|script| - 1]);
    } else {
      assert script == replies;
    }
  }

  /** Whatever the interleaving, the replies the server has in store determine what comes out. */
  lemma {:induction false} ScriptDeterminesOutcome(c: Config, first: Reply, actions: seq<Action>, t: State,
                                                   script: seq<Reply>)
    requires RunOf(c, first, actions, t) && !t.cancelled && RecordsDone(t) && t.history <= script
    ensures Sequentially(c, script) == Ended(t.received, LaterFailure(t.history))
  {
    hide RunOf, Sequentially, LaterFailure;
    RefinesSequential(c, first, actions, t);
    EndedStays(c, t.history, script);
  }
}
