/** A concrete run of the pipeline: one batch arrives and the next fetch fails. */
module PipelineRuns {
  import opened Text
  import opened V2Decode
  import opened Pipeline

  lemma {:induction false} ReachesOneMore(c: Config, s: State, actions: seq<Action>, t: State, a: Action)
    requires Reaches(c, s, actions, t) && Act(c, t, a).Some?
    ensures Reaches(c, s, actions + [a], Act(c, t, a).value)
    decreases |actions|
  {
    hide Act;
    if actions == [] {
      assert [a][1..] == [];
    } else {
      ReachesOneMore(c, Act(c, s, actions[0]).value, actions[1..], t, a);
      assert (actions + [a])[1..] == actions[1..] + [a];
    }
  }

  /** The run state by state: the record comes through, then the error, then everything closes. */
  function Stage(v: RecordView, error: string, k: nat): State
    requires k <= 14
  {
    var one, both := [Batch([v])], [Batch([v]), Hard(error)];
    match k
    case 0 => Fresh(one, Sending([v]))
    case 1 => Fresh(one, Sending([])).(records := [v])
    case 2 => Fresh(one, Sending([])).(wrapper := Checking(v))
    case 3 => Fresh(one, Sending([])).(wrapper := Offering(Readable(v)))
    case 4 => Fresh(one, Sending([])).(out := [Readable(v)])
    case 5 => Fresh(one, Sending([])).(received := [Readable(v)])
    case 6 => Fresh(one, Fetching).(received := [Readable(v)])
    case 7 => Fresh(both, Failing(error)).(received := [Readable(v)])
    case 8 => Fresh(both, Stopping).(received := [Readable(v)], errs := [error])
    case 9 => Fresh(both, RecordsClosed).(received := [Readable(v)], errs := [error])
    case 10 => Fresh(both, Exited).(received := [Readable(v)], errs := [error])
    case 11 => Fresh(both, Exited).(received := [Readable(v)], errs := [error], wrapper := Awaiting)
    case 12 => Fresh(both, Exited).(received := [Readable(v)], wrapper := Forwarding(error))
    case 13 => Fresh(both, Exited).(received := [Readable(v)], outErrs := [error], wrapper := Leaving)
    case _ => Fresh(both, Exited).(received := [Readable(v)], outErrs := [error], wrapper := OutClosed)
  }

  function StageAction(error: string, k: nat): Action {
    match k
    case 0 => SendRecord
    case 1 => Receive
    case 2 => CheckContext
    case 3 => Offer
    case 4 => Take
    case 5 => FinishBatch
    case 6 => Fetch(Hard(error))
    case 7 => SendError
    case 8 => CloseRecords
    case 9 => CloseErrs
    case 10 => SeeRecordsClosed
    case 11 => ReceiveError
    case 12 => ForwardError
    case _ => CloseOut
  }

  lemma Singletons<T>(x: T)
    ensures [x][1..] == [] && [] + [x] == [x]
  {}

  lemma RecordSteps(c: Config, v: RecordView, error: string, k: nat)
    requires !v.last && k < 7
    ensures Act(c, Stage(v, error, k), StageAction(error, k)) == Some(Stage(v, error, k + 1))
  {
    Singletons(v);
    Singletons(Readable(v));
    assert [Batch([v])] + [Hard(error)] == [Batch([v]), Hard(error)];
    hide Readable, ErrResult, Finished;
  }

  lemma ErrorSteps(c: Config, v: RecordView, error: string, k: nat)
    requires !v.last && 7 <= k < 14
    ensures Act(c, Stage(v, error, k), StageAction(error, k)) == Some(Stage(v, error, k + 1))
  {
    Singletons(error);
    hide Readable, ErrResult, Finished;
  }

  lemma {:induction false} RunToStage(c: Config, v: RecordView, error: string, k: nat) returns (actions: seq<Action>)
    requires !v.last && k <= 14
    ensures RunOf(c, Batch([v]), actions, Stage(v, error, k))
  {
    if k == 0 {
      actions := [];
    } else {
      hide Act, Stage, Start;
      actions := RunToStage(c, v, error, k - 1);
      if k <= 7 { RecordSteps(c, v, error, k - 1); } else { ErrorSteps(c, v, error, k - 1); }
      ReachesOneMore(c, Start(c, Batch([v])).value, actions, Stage(v, error, k - 1), StageAction(error, k - 1));
      actions := actions + [StageAction(error, k - 1)];
    }
  }

  lemma FailedHistory(v: RecordView, error: string)
    requires !v.last
    ensures var history := [Batch([v]), Hard(error)];
            AllRecords(history) == [v] && Deliverable(history) == [Readable(v)] && LaterFailure(history) == Some(error)
  {
    var first, history := [Batch([v])], [Batch([v]), Hard(error)];
    assert history[..1] == first && first[..0] == [];
    assert AllRecords(first) == [] + [v] == [v];
    assert AllRecords(history) == [v] + [] == [v];
    assert [v][1..] == [] && Cut([v]) == [v] + [] == [v];
    assert Readables([v]) == [Readable(v)];
    assert LaterFailure(first) == None;
  }

  /**
   * Before Records() is closed Err() may return nil although a later fetch has
   * failed, even to a consumer who has received all there is.
   */
  lemma {:induction false} ErrorNotYetVisible(c: Config, v: RecordView, error: string)
    requires !v.last
    ensures exists actions, t ::
              && RunOf(c, Batch([v]), actions, t) && !t.cancelled && !RecordsDone(t)
              && t.received == Deliverable(t.history) && LaterFailure(t.history) == Some(error) && ErrResult(t) == None
  {
    FailedHistory(v, error);
    var actions := RunToStage(c, v, error, 7);
    hide RunOf, Deliverable, LaterFailure, Readable;
    assert RunOf(c, Batch([v]), actions, Stage(v, error, 7));
  }
}
