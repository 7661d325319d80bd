/**
 * What becomes of attachments when a later fetch of their query fails:
 * ReadAttachments and RemoveAttachments range over Records() and never ask
 * Err() (bucket.go: ReadAttachments, RemoveAttachments).
 */
module AttachmentStream {
  import opened Text
  import opened Headers
  import opened CsvRows
  import opened V2Decode
  import opened Attachments
  import opened AttachmentServer
  import AttachmentWrites
  import opened AttachmentLog
  import AttachmentRuns
  import opened Pipeline
  import PipelineSafety
  import PipelineRuns

  /** The query for attachments: Batch Protocol v1, not continuous. */
  const ONCE := Config(false, false)

  /** A record as the consumer of the query sees it. */
  function AsQueried(v: RecordView): Queried {
    Queried(v.time, v.labels, Ok(v.content), v.last)
  }

  function AllQueried(vs: seq<RecordView>): (rs: seq<Queried>)
    ensures |rs| == |vs|
    ensures forall i :: 0 <= i < |vs| ==> rs[i] == AsQueried(vs[i])
  {
    seq(|vs|, i requires 0 <= i < |vs| => AsQueried(vs[i]))
  }

  /** The fetches have brought the first `n` of the records that the query is about. */
  ghost predicate Brought(history: seq<Reply>, found: Log, n: nat)
    requires n <= |found|
  {
    Delivered(AllQueried(AllRecords(history)), found, n)
  }

  /**
   * The range over Records() has ended: it met the record marked as the last, or
   * the closed channel of an uncancelled query.
   */
  predicate LoopEnded(t: State) {
    (t.received != [] && t.received[|t.received| - 1].last) || (!t.cancelled && RecordsDone(t))
  }

  /** A reply that says that there is nothing more. */
  predicate SaysEnd(reply: Reply) {
    reply.NoContent? || (reply.Batch? && reply.records == [])
  }

  /** The server says that there is nothing more only when that is so. */
  ghost predicate EndsWhenDone(history: seq<Reply>, done: bool) {
    forall i :: 0 <= i < |history| && SaysEnd(history[i]) ==> done
  }

  // ---- what the consumer gets ---------------------------------------------------------------------

  lemma {:induction false} CutAtEnd(xs: seq<RecordView>)
    requires forall i :: 0 <= i < |xs| - 1 ==> !xs[i].last
    ensures Cut(xs) == xs
  {
    if xs != [] {
      assert xs == [xs[0]] + xs[1..];
      if |xs| > 1 { assert !xs[0].last; }
      CutAtEnd(xs[1..]);
    }
  }

  /** Of such records the consumer gets every one, as it was fetched. */
  lemma {:induction false} AllComesThrough(history: seq<Reply>, found: Log, n: nat)
    requires n <= |found| && Brought(history, found, n)
    ensures AllQueried(Deliverable(history)) == AllQueried(AllRecords(history))
    ensures !NoLast(AllRecords(history)) ==> n == |found|
  {
    var all := AllRecords(history);
    hide Shows, AllRecords, Readable;
    forall i | 0 <= i < |all| ensures all[i].last == (i == |found| - 1) {
      assert AllQueried(all)[i].last == (i == |found| - 1);
    }
    CutAtEnd(all);
    forall i | 0 <= i < |all| ensures AllQueried(Readables(all))[i] == AllQueried(all)[i] {}
    assert AllQueried(Readables(all)) == AllQueried(all);
  }

  /** A query that came to its end without a failure has met its last record, or a reply that says so. */
  lemma {:induction false} EndedHow(c: Config, replies: seq<Reply>)
    requires Sequentially(c, replies).Ended? && Sequentially(c, replies).error == None
    ensures !NoLast(AllRecords(replies)) || exists i :: 0 <= i < |replies| && SaysEnd(replies[i])
  {
    hide Readables, Cut;
    var init, reply := replies[..|replies| - 1], replies[|replies| - 1];
    if Sequentially(c, init).Ended? {
      EndedHow(c, init);
      if i :| 0 <= i < |init| && SaysEnd(init[i]) {
        assert SaysEnd(replies[i]);
      } else {
        var k :| 0 <= k < |AllRecords(init)| && AllRecords(init)[k].last;
        assert AllRecords(replies)[k].last;
      }
    } else if !SaysEnd(reply) {
      var k :| 0 <= k < |reply.records| && reply.records[k].last;
      assert AllRecords(replies)[|AllRecords(init)| + k].last;
    }
  }

  lemma {:induction false} LastHas(received: seq<RecordView>, all: seq<RecordView>, found: Log, n: nat)
    requires n <= |found| && Delivered(AllQueried(all), found, n) && received <= all
    requires received != [] && received[|received| - 1].last
    ensures received == all && n == |found|
  {
    hide Shows;
    var k := |received| - 1;
    assert all[k] == received[k] && AllQueried(all)[k].last == (k == |found| - 1);
  }

  /** When the loop has ended, the consumer has what was fetched: all of it, or a later fetch has failed. */
  lemma {:induction false} LoopHas(first: Reply, actions: seq<Action>, t: State, found: Log, n: nat)
    requires RunOf(ONCE, first, actions, t) && LoopEnded(t) && n <= |found| && Brought(t.history, found, n)
    ensures Delivered(AllQueried(t.received), found, n)
    ensures EndsWhenDone(t.history, n == |found|) && LaterFailure(t.history) == None ==> n == |found|
  {
    hide RunOf, Deliverable, LaterFailure, AllRecords, Sequentially, Delivered, RecordsDone;
    AllComesThrough(t.history, found, n);
    if t.received != [] && t.received[|t.received| - 1].last {
      PipelineSafety.ReceivedIsPrefix(ONCE, first, actions, t);
      LastHas(t.received, Deliverable(t.history), found, n);
    } else {
      PipelineSafety.ErrorIsVisible(ONCE, first, actions, t);
      PipelineSafety.RefinesSequential(ONCE, first, actions, t);
      if LaterFailure(t.history) == None {
        EndedHow(ONCE, t.history);
      }
    }
  }

  /** Without a later failure the loop has seen a complete answer, as the theorems about operations take it. */
  lemma {:induction false} LoopIsAnswer(first: Reply, actions: seq<Action>, t: State, log: Log, operands: Option<seq<string>>,
                                        n: nat)
    requires RunOf(ONCE, first, actions, t) && LoopEnded(t) && LaterFailure(t.history) == None
    requires n <= |Filter(log, operands)| && Brought(t.history, Filter(log, operands), n)
    requires EndsWhenDone(t.history, n == |Filter(log, operands)|)
    ensures Answers(AllQueried(t.received), log, operands)
  {
    hide RunOf, LoopEnded, Brought, Delivered, LaterFailure, EndsWhenDone, Filter;
    LoopHas(first, actions, t, Filter(log, operands), n);
  }

  // ---- reading ------------------------------------------------------------------------------------

  /** What ReadAttachments returns is the map of the records fetched, whether or not a later fetch has failed. */
  lemma {:induction false} FetchedIsRead(entry: string, first: Reply, actions: seq<Action>, t: State, log: Log, n: nat,
                                         decodes: bytes -> bool)
    requires entry != "" && RunOf(ONCE, first, actions, t) && LoopEnded(t)
    requires CleanLog(log, decodes) && n <= |log| && Brought(t.history, log, n)
    ensures ReadResult(entry, Ok(AllQueried(t.received)), decodes) == Attached(LogMap(log[..n]))
  {
    hide RunOf, LoopEnded, Brought, Delivered, ReadFrom, LogMap, CleanLog;
    LoopHas(first, actions, t, log, n);
    CleanLogIsSeen(log, decodes);
    ReadsDelivered(AllQueried(t.received), log, n, decodes);
  }

  /**
   * ReadAttachments returns the whole map, without an error, if and only if no
   * later fetch has failed or the records not fetched would not change it.
   */
  lemma {:induction false} ReadIsCompleteIff(entry: string, first: Reply, actions: seq<Action>, t: State, log: Log, n: nat,
                                             decodes: bytes -> bool)
    requires entry != "" && RunOf(ONCE, first, actions, t) && LoopEnded(t)
    requires CleanLog(log, decodes) && n <= |log| && Brought(t.history, log, n) && EndsWhenDone(t.history, n == |log|)
    ensures ReadResult(entry, Ok(AllQueried(t.received)), decodes) == Attached(LogMap(log))
            <==> LaterFailure(t.history) == None || LogMap(log[..n]) == LogMap(log)
  {
    hide RunOf, LoopEnded, Brought, ReadResult, LogMap, CleanLog, LaterFailure, EndsWhenDone;
    FetchedIsRead(entry, first, actions, t, log, n, decodes);
    LoopHas(first, actions, t, log, n);
    if n == |log| { assert log[..n] == log; }
  }

  // ---- removing -----------------------------------------------------------------------------------

  /** RemoveAttachments marks exactly the records fetched. */
  lemma {:induction false} FetchedIsMarked(entry: string, first: Reply, actions: seq<Action>, t: State, found: Log, n: nat,
                                           decodes: bytes -> bool)
    requires RunOf(ONCE, first, actions, t) && LoopEnded(t)
    requires AllClean(found, decodes) && n <= |found| && Brought(t.history, found, n)
    ensures RemoveCalls(entry, AllQueried(t.received)) == KeyCalls(entry, found[..n])
  {
    hide RunOf, LoopEnded, Brought, Delivered, RemoveCalls, KeyCalls, AllClean;
    LoopHas(first, actions, t, found, n);
    CallsAreDelivered(entry, AllQueried(t.received), found, n, decodes);
  }

  lemma {:induction false} KeyCallsOfBoth(entry: string, a: Log, b: Log)
    ensures KeyCalls(entry, a + b) == KeyCalls(entry, a) + KeyCalls(entry, b)
    ensures KeyCalls(entry, b) == [] <==> forall i :: 0 <= i < |b| ==> KEY !in b[i].labels
  {
    hide RemoveCall, KeyCalls;
    if b == [] {
      assert a + b == a;
      NoCallsYet(entry);
      assert KeyCalls(entry, a) + [] == KeyCalls(entry, a);
    } else {
      var init, r := b[..|b| - 1], b[|b| - 1];
      assert a + b == (a + init) + [r] && b == init + [r];
      KeyCallsOfBoth(entry, a, init);
      KeyCallsSnoc(entry, a + init, r);
      KeyCallsSnoc(entry, init, r);
    }
  }

  /**
   * RemoveAttachments marks all records that its query is about, if and only if
   * no later fetch has failed or none of the records not fetched has a name.
   */
  lemma {:induction false} RemovalIsCompleteIff(entry: string, first: Reply, actions: seq<Action>, t: State, found: Log,
                                                n: nat, decodes: bytes -> bool)
    requires RunOf(ONCE, first, actions, t) && LoopEnded(t)
    requires AllClean(found, decodes) && n <= |found| && Brought(t.history, found, n) && EndsWhenDone(t.history, n == |found|)
    ensures RemoveCalls(entry, AllQueried(t.received)) == KeyCalls(entry, found)
            <==> LaterFailure(t.history) == None || forall i :: n <= i < |found| ==> KEY !in found[i].labels
  {
    hide RunOf, LoopEnded, Brought, RemoveCalls, KeyCalls, AllClean, LaterFailure, EndsWhenDone;
    FetchedIsMarked(entry, first, actions, t, found, n, decodes);
    LoopHas(first, actions, t, found, n);
    assert found[..n] + found[n..] == found;
    KeyCallsOfBoth(entry, found[..n], found[n..]);
    assert (forall i :: 0 <= i < |found[n..]| ==> KEY !in found[n..][i].labels)
           <==> forall i :: n <= i < |found| ==> KEY !in found[i].labels by {
      forall i | n <= i < |found| ensures found[i] == found[n..][i - n] {}
    }
  }

  // ---- a lost attachment --------------------------------------------------------------------------

  lemma TwoAreClean(decodes: bytes -> bool) returns (log: Log)
    requires decodes([])
    ensures log == [MetaRecord(0, map[KEY := "a"], []), MetaRecord(1, map[KEY := "b"], [])]
    ensures CleanLog(log, decodes)
  {
    log := [MetaRecord(0, map[KEY := "a"], []), MetaRecord(1, map[KEY := "b"], [])];
    OneIsClean("a", 0, decodes);
    OneIsClean("b", 1, decodes);
    hide CleanRecord;
  }

  lemma OneIsClean(key: string, ts: int, decodes: bytes -> bool)
    requires key == "a" || key == "b"
    requires 0 <= ts <= 1 && decodes([])
    ensures CleanRecord(MetaRecord(ts, map[KEY := key], []), decodes)
  {
    TrimFixed(key);
    AttachmentWrites.OneLabel(key);
    hide Trim, TextLabels;
  }

  lemma {:induction false} TwoMean(log: Log)
    requires log == [MetaRecord(0, map[KEY := "a"], []), MetaRecord(1, map[KEY := "b"], [])]
    ensures LogMap(log[..1]) == map["a" := []] && LogMap(log) == map["a" := [], "b" := []]
  {
    assert log[..0] == [] && log[..1][..0] == [];
    assert log[..1] == [log[0]] && log == log[..1] + [log[1]];
    LogMapSnoc([], log[0]);
    LogMapSnoc(log[..1], log[1]);
    assert [] + [log[0]] == log[..1];
  }

  /** The view of a record in the first of two batches. */
  lemma {:induction false} ViewShows(r: MetaRecord) returns (v: RecordView)
    ensures Shows(AsQueried(v), r) && !v.last
  {
    AttachmentRuns.ShownSomehow(r, false);
    hide AssignAll, Fields, RowFor;
    var q :| Shows(q, r) && q.last == false;
    v := RecordView("e/$meta", q.ts, |q.content.value|, false, true, q.content.value, q.labels, JSON);
    assert AsQueried(v) == q;
  }

  /** The query has ended with an error that was not asked for, and reading its records gave this map. */
  ghost predicate ReadsSilently(log: Log, n: nat, first: Reply, actions: seq<Action>, t: State, error: string, m: Payloads,
                                decodes: bytes -> bool)
    requires n <= |log|
  {
    && RunOf(ONCE, first, actions, t) && !t.cancelled && RecordsDone(t)
    && Brought(t.history, log, n) && LaterFailure(t.history) == Some(error)
    && ReadResult("e", Ok(AllQueried(t.received)), decodes) == Attached(m)
  }

  /** A query can fail after the first record of any longer clean log. */
  lemma {:induction false} FailsAfterOne(log: Log, error: string, decodes: bytes -> bool)
    requires CleanLog(log, decodes) && |log| >= 2
    ensures exists first, actions, t :: ReadsSilently(log, 1, first, actions, t, error, LogMap(log[..1]), decodes)
  {
    hide CleanLog, LogMap, ReadFrom, RunOf, LaterFailure, Shows, AllRecords, ReadResult;
    var v := ViewShows(log[0]);
    var actions := PipelineRuns.RunToStage(ONCE, v, error, 14);
    var t := PipelineRuns.Stage(v, error, 14);
    PipelineRuns.FailedHistory(v, error);
    assert AllQueried([v])[0] == AsQueried(v);
    assert Brought(t.history, log, 1);
    FetchedIsRead("e", Batch([v]), actions, t, log, 1, decodes);
    assert ReadsSilently(log, 1, Batch([v]), actions, t, error, LogMap(log[..1]), decodes);
  }

  /**
   * Of two attachments, fetched one by one, ReadAttachments returns the first
   * alone, without an error, when the second fetch fails.
   */
  lemma {:induction false} LostAttachmentExample()
    ensures var decodes := (data: bytes) => true;
            exists log, first, actions, t ::
              && |log| == 2 && CleanLog(log, decodes) && LogMap(log) == map["a" := [], "b" := []]
              && ReadsSilently(log, 1, first, actions, t, "reset", map["a" := []], decodes)
  {
    var decodes := (data: bytes) => true;
    var log := TwoAreClean(decodes);
    TwoMean(log);
    assert |log| == 2;
    hide CleanLog, LogMap, ReadsSilently;
    FailsAfterOne(log, "reset", decodes);
  }
}
