/** The runs that the attachment theorems speak of exist, and what happens to some entries and names. */
module AttachmentRuns {
  import opened Text
  import opened Ordering
  import opened Decimal
  import opened HeaderList
  import opened Headers
  import opened LabelOps
  import opened LabelDelta
  import opened CsvRows
  import opened V2Encode
  import opened Bodies
  import opened V2Decode
  import opened V2Order
  import opened V2RoundTrip
  import opened V2Update
  import opened V2Meaning
  import V1Batches
  import opened RecordBatches
  import opened Attachments
  import opened AttachmentServer
  import opened AttachmentWrites
  import opened AttachmentLog

  /** Every record can be shown. */
  lemma {:induction false} ShownSomehow(r: MetaRecord, last: bool)
    ensures exists q :: Shows(q, r) && q.last == last
  {
    hide AssignAll, Fields, V1Batches.LabelsText, V1Batches.RowStart;
    var labels := V1Of(r).labels;
    if V1Batches.AsciiLabels1(labels) {
      EnumerationExists(labels);
      var order :| Enumerates(order, labels);
      EnumeratedIn(order, labels);
      var row := V1Batches.RowStart(V1Batches.BatchWrite, V1Of(r)) + V1Batches.LabelsText(labels, order);
      assert V1Batches.PrintsInOrder(row, V1Batches.BatchWrite, V1Of(r), order);
      RowShows(row, r, last);
    } else {
      RowShows("", r, last);
    }
  }

  lemma RowShows(row: string, r: MetaRecord, last: bool)
    requires RowFor(row, r)
    ensures exists q :: Shows(q, r) && q.last == last
  {
    hide AssignAll, Fields, RowFor;
    assert Shows(Queried(r.ts, AssignAll(Fields(row)).labels, Ok(r.data), last), r);
  }

  lemma {:induction false} DeliveredSomehow(found: Log, n: nat)
    requires n <= |found|
    ensures exists rs :: Delivered(rs, found, n)
  {
    hide Shows;
    if n == 0 {
      assert Delivered([], found, 0);
    } else {
      DeliveredSomehow(found, n - 1);
      var rs :| Delivered(rs, found, n - 1);
      ShownSomehow(found[n - 1], n == |found|);
      var q :| Shows(q, found[n - 1]) && q.last == (n == |found|);
      assert Delivered(rs + [q], found, n);
    }
  }

  /** Every query has an answer. */
  lemma {:induction false} AnswerExists(log: Log, operands: Option<seq<string>>)
    ensures exists rs :: Answers(rs, log, operands)
  {
    var found := Filter(log, operands);
    DeliveredSomehow(found, |found|);
    hide Shows;
    var rs :| Delivered(rs, found, |found|);
    assert Answers(rs, log, operands);
  }

  lemma {:induction false} UnderstoodSomehow(records: seq<Rec>)
    requires InModel(records)
    ensures exists outcome :: Understood(outcome, records)
  {
    hide ReadBatch, Sent, EncodeBatch, SortedFrom, Enumerates, InModel;
    ReadingExists(Sent(records, ""));
    var order, hs :| Enumerates(order, Sent(records, "")) && SortedFrom(hs, Sent(records, ""), order);
    var outcome := ReadBatch(200, Sent(records, ""), Whole(EncodeBatch(records).body), false, false, hs);
    assert UnderstoodIn(outcome, records, order, hs) && Understood(outcome, records);
  }

  /** The logs with another one under a name. */
  lemma LogPut(logs: Logs, name: string, log: Log, n: string)
    ensures LogOf(logs[name := log], n) == if n == name then log else LogOf(logs, n)
  {}

  /** What is understood is stored behind the log. */
  lemma {:induction false} LogIsInserted(log: Log, op: Op, records: seq<Rec>, name: string, decodes: bytes -> bool)
    requires op.Write? && Target(op.entry) == Some(name) && Ordered(log) && Possible(log, op, decodes)
    requires op.attachments != map[] && InModel(records)
    requires Lists(records, Run(WriteCalls(op.entry, op.attachments, op.now, op.order)).records)
    ensures InsertedInto(log + Appended(op.entry, op.attachments, op.now, op.order), log, name,
                         ExpectedViews(Sort(records, RecLess), false))
  {
    AppendedOrdered(log, op, decodes);
    SentAreFor(op, records, name, name);
    hide Run, WriteCalls, Lists, Appended, IsStored, ExpectedViews, InModel, Ordered, Sort, Target, IsFor, Enumerates, IsAscii;
    var after := log + Appended(op.entry, op.attachments, op.now, op.order);
    var views := ExpectedViews(Sort(records, RecLess), false);
    forall x ensures x in after <==> x in log || IsStored(x, name, views) { StoredAreArrivals(op, records, x); }
  }

  /** No other log gets anything. */
  lemma {:induction false} InsertedBehind(logs: Logs, op: Op, records: seq<Rec>, name: string, decodes: bytes -> bool)
    requires op.Write? && Target(op.entry) == Some(name) && Ordered(LogOf(logs, name))
    requires Possible(LogOf(logs, name), op, decodes) && op.attachments != map[] && InModel(records)
    requires forall i :: 0 <= i < |op.order| ==> op.order[i] in op.attachments
    requires Lists(records, Run(WriteCalls(op.entry, op.attachments, op.now, op.order)).records)
    ensures Inserted(logs[name := LogOf(logs, name) + Appended(op.entry, op.attachments, op.now, op.order)], logs,
                     Fetched(ExpectedViews(Sort(records, RecLess), false)))
  {
    LogIsInserted(LogOf(logs, name), op, records, name, decodes);
    assert Enumerates(op.order, op.attachments);
    hide *;
    var log := LogOf(logs, name) + Appended(op.entry, op.attachments, op.now, op.order);
    var views := ExpectedViews(Sort(records, RecLess), false);
    forall n ensures InsertedInto(LogOf(logs[name := log], n), LogOf(logs, n), n, views) {
      LogPut(logs, name, log, n);
      if n != name {
        SentAreFor(op, records, name, n);
        NotFor(LogOf(logs, n), n, views);
      }
    }
    AllInserted(logs[name := log], logs, views);
  }

  lemma NotFor(log: Log, name: string, views: seq<RecordView>)
    requires !IsFor(name, views)
    ensures InsertedInto(log, log, name, views)
  {
    hide IsFor;
  }

  lemma AllInserted(after: Logs, logs: Logs, views: seq<RecordView>)
    requires forall name :: InsertedInto(LogOf(after, name), LogOf(logs, name), name, views)
    ensures Inserted(after, logs, Fetched(views))
  {
    hide InsertedInto, LogOf;
  }

  lemma {:induction false} SentAreFor(op: Op, records: seq<Rec>, name: string, n: string)
    requires op.Write? && op.attachments != map[] && Enumerates(op.order, op.attachments) && Target(op.entry) == Some(name)
    requires (forall i :: 0 <= i < |op.order| ==> op.order[i] in op.attachments) && InModel(records)
    requires Lists(records, Run(WriteCalls(op.entry, op.attachments, op.now, op.order)).records)
    ensures IsFor(n, ExpectedViews(Sort(records, RecLess), false)) <==> n == name
  {
    SentCount(op, records);
    SortMembers(records, RecLess);
    SortKeepsModel(records);
    hide Run, WriteCalls, Lists, Enumerates, Sort, InModel, Unescape, MetaEntry, Arrived, Normalize;
    var items := Sort(records, RecLess);
    forall i | 0 <= i < |items| ensures items[i].entry == MetaEntry(op.entry) {
      assert items[i] in items && items[i] in records;
      var j :| 0 <= j < |records| && records[j] == items[i];
      SentEntry(op, records, j);
    }
    assert ExpectedViews(items, false)[0].entry == name;
  }

  lemma StepFrom(logs: Logs, op: Op, after: Logs, records: seq<Rec>, outcome: Outcome<RecordView>,
                 decodes: bytes -> bool)
    requires op.Write? && Possible(TargetLog(logs, op.entry), op, decodes) && op.attachments != map[] && op.entry != ""
    requires WrittenAs(logs, op, after, records, outcome)
    ensures Step(logs, op, after, decodes)
  {
    hide WrittenAs, TargetLog;
  }

  /** A write of quote-free names to an entry that can be read can happen, and does this to its log. */
  lemma {:induction false} WriteHappens(logs: Logs, op: Op, name: string, decodes: bytes -> bool)
    requires op.Write? && IsBytes(op.entry) && op.entry != "" && Target(op.entry) == Some(name)
    requires Ordered(LogOf(logs, name)) && Plain(op) && Possible(LogOf(logs, name), op, decodes) && op.attachments != map[]
    ensures Step(logs, op, logs[name := LogOf(logs, name) + Appended(op.entry, op.attachments, op.now, op.order)], decodes)
  {
    var records := WrittenRecs(op.entry, op.attachments, op.now, op.order);
    WrittenAreListed(op.entry, op.attachments, op.now, op.order);
    SentIsSafe(LogOf(logs, name), op, decodes, records);
    SafeIsInModel(records);
    UnderstoodSomehow(records);
    hide Run, WriteCalls, Lists, Enumerates, SafeBatch, SpanFits, Plain, Appended, ExpectedViews, InModel, Ordered,
         Understood, WrittenRecs, Inserted, Step, Target, LogOf;
    var outcome :| Understood(outcome, records);
    OutcomeIs(LogOf(logs, name), op, decodes, records, outcome);
    OrderIsGiven(LogOf(logs, name), op, decodes);
    InsertedBehind(logs, op, records, name, decodes);
    StepFrom(logs, op, logs[name := LogOf(logs, name) + Appended(op.entry, op.attachments, op.now, op.order)], records,
             outcome, decodes);
  }

  lemma SafeIsInModel(records: seq<Rec>)
    requires SafeBatch(records)
    ensures InModel(records)
  {}

  lemma {:induction false} WrittenAreListed(entry: string, attachments: Payloads, now: int, order: seq<string>)
    requires forall i :: 0 <= i < |order| ==> order[i] in attachments
    ensures Lists(WrittenRecs(entry, attachments, now, order), Run(WriteCalls(entry, attachments, now, order)).records)
  {
    hide Run, WriteCalls, MetaEntry;
    var written, stored := WrittenRecs(entry, attachments, now, order), Run(WriteCalls(entry, attachments, now, order)).records;
    forall i | 0 <= i < |written| ensures KeyOf(written[i]) in stored && stored[KeyOf(written[i])] == written[i] {
      BatchHolds(entry, attachments, now, order, KeyOf(written[i]));
    }
    forall k | k in stored ensures exists i :: 0 <= i < |written| && written[i] == stored[k] && KeyOf(written[i]) == k {
      BatchHolds(entry, attachments, now, order, k);
      assert written[k.ts - now] == stored[k];
    }
  }

  // ---- removals -----------------------------------------------------------------------------------

  /** The records of a batch can be listed. */
  lemma {:induction false} ListingExists(m: Stored)
    requires forall k :: k in m ==> KeyOf(m[k]) == k
    ensures exists items :: Lists(items, m)
  {
    if m == map[] {
      assert Lists([], m);
    } else {
      var k :| k in m;
      ListingExists(m - {k});
      var items :| Lists(items, m - {k});
      ListsSnoc(items, m - {k}, m[k]);
      assert (m - {k})[KeyOf(m[k]) := m[k]] == m;
    }
  }

  lemma {:induction false} MarksInModel(entry: string, log: Log, keys: seq<string>, records: seq<Rec>, decodes: bytes -> bool)
    requires IsBytes(entry) && CleanLog(log, decodes)
    requires Lists(records, Run(KeyCalls(entry, Filter(log, Operands(keys)))).records)
    ensures UpdateInModel(records)
  {
    SentMarks(entry, log, keys, records, decodes);
    TrueIsGood();
    hide Run, KeyCalls, Filter, Operands, CleanLog, IsBytes, IsAscii;
    forall i | 0 <= i < |records|
      ensures IsBytes(records[i].entry) && AsciiLabels(V2Update.Given(records[i].labels))
              && forall k :: k in records[i].labels ==> IsBytes(k) {
      MarkIsGood(entry, records[i].timestamp);
      MarkIsAscii(entry, records[i].timestamp);
    }
  }

  lemma MarkIsAscii(entry: string, ts: int)
    ensures AsciiLabels(V2Update.Given(MarkRec(entry, ts).labels))
  {
    TrueIsGood();
  }

  /** The marked record is what the request makes of it. */
  lemma {:induction false} MarkUpdates(entry: string, items: seq<Rec>, name: string, r: MetaRecord)
    requires SafeUpdates(items) && SpanFits(items) && MarksOf(entry, items, MAX_INT64) && Target(entry) == Some(name)
    ensures UpdatedRecord(if MarkRec(entry, r.ts) in items then r.(labels := r.labels[REMOVE := "true"]) else r, r, name,
                          EncodeUpdate(items).headers)
  {
    GoodIsInMachine(items);
    hide *;
    var h := EncodeUpdate(items).headers;
    if MarkRec(entry, r.ts) in items {
      MarkIsDenoted(entry, items, name, r.ts);
      var key :| HeaderDenotes(h, key, name, r.ts);
      DenotingHeaderMarks(entry, items, name, r, key);
      UpdatedWith(r.(labels := r.labels[REMOVE := "true"]), r, name, h, key);
    } else {
      forall key ensures !HeaderDenotes(h, key, name, r.ts) {
        if HeaderDenotes(h, key, name, r.ts) { DenotingHeaderMarks(entry, items, name, r, key); }
      }
      UpdatedNot(r, name, h);
    }
  }

  lemma UpdatedWith(after: MetaRecord, r: MetaRecord, name: string, h: Header, key: string)
    requires HeaderDenotes(h, key, name, r.ts) && after == r.(labels := UpdatedLabels(h, key, r))
    ensures UpdatedRecord(after, r, name, h)
  {
    hide HeaderDenotes, UpdatedLabels;
  }

  lemma UpdatedNot(r: MetaRecord, name: string, h: Header)
    requires forall key :: !HeaderDenotes(h, key, name, r.ts)
    ensures UpdatedRecord(r, r, name, h)
  {
    hide HeaderDenotes, UpdatedLabels;
  }

  /** The request does this to the logs. */
  lemma {:induction false} MarkedByRequest(logs: Logs, entry: string, name: string, keys: seq<string>, records: seq<Rec>,
                                           decodes: bytes -> bool)
    requires IsBytes(entry) && Target(entry) == Some(name) && CleanLog(LogOf(logs, name), decodes) && records != []
    requires Lists(records, Run(KeyCalls(entry, Filter(LogOf(logs, name), Operands(keys)))).records)
    ensures MarkedAs(logs, KeyCalls(entry, Filter(LogOf(logs, name), Operands(keys))),
                     logs[name := MarkedAll(LogOf(logs, name), keys)], records)
  {
    var log, items := LogOf(logs, name), Sort(records, RecLess);
    MarksInModel(entry, log, keys, records, decodes);
    SortKeepsUpdate(records);
    hide Filter, Operands, CleanLog, Concerns, Lists, DistinctRecs, NamesAreBytes, AsciiUpdates, EncodeUpdate, Sort,
         UpdatedLog, SafeUpdates, SpanFits, MarksOf, MarkRec, Run, KeyCalls, MarkedAll, LogOf, Target, IsBytes;
    SentMarks(entry, log, keys, records, decodes);
    SortedMarks(entry, records);
    MarksAreGood(entry, items);
    forall n ensures UpdatedLog(LogOf(logs[name := MarkedAll(log, keys)], n), LogOf(logs, n), n, EncodeUpdate(items).headers) {
      LogPut(logs, name, MarkedAll(log, keys), n);
      if n == name {
        LogIsMarked(entry, name, log, keys, records, decodes);
      } else {
        LogIsKept(entry, items, n, LogOf(logs, n));
      }
    }
  }

  lemma {:induction false} LogIsMarked(entry: string, name: string, log: Log, keys: seq<string>, records: seq<Rec>,
                                       decodes: bytes -> bool)
    requires Target(entry) == Some(name) && CleanLog(log, decodes)
    requires Lists(records, Run(KeyCalls(entry, Filter(log, Operands(keys)))).records)
    requires var items := Sort(records, RecLess);
             && items != [] && UpdateInModel(items) && MarksOf(entry, items, MAX_INT64) && SafeUpdates(items) && SpanFits(items)
             && forall r :: r in items <==> r in records
    ensures UpdatedLog(MarkedAll(log, keys), log, name, EncodeUpdate(Sort(records, RecLess)).headers)
  {
    hide Filter, Operands, CleanLog, Concerns, Lists, UpdateInModel, EncodeUpdate, Sort, UpdatedRecord, SafeUpdates,
         SpanFits, MarksOf, MarkRec, Run, KeyCalls, MarkedRecord, Target, Ordered;
    CleanIsOrdered(log, decodes);
    forall i: nat | i < |log|
      ensures UpdatedRecord(MarkedAll(log, keys)[i], log[i], name, EncodeUpdate(Sort(records, RecLess)).headers) {
      MarkUpdates(entry, Sort(records, RecLess), name, log[i]);
      MarkedIffConcerned(entry, log, keys, records, i);
      MarkedRecordIs(log[i], keys);
    }
  }

  lemma {:induction false} LogIsKept(entry: string, items: seq<Rec>, n: string, log: Log)
    requires items != [] && UpdateInModel(items) && MarksOf(entry, items, MAX_INT64) && Target(entry) != Some(n)
    ensures UpdatedLog(log, log, n, EncodeUpdate(items).headers)
  {
    MarksAreOf(entry, items);
    hide EncodeUpdate, HeaderDenotes, UpdateInModel, MarksOf, MetaEntry, Target;
    forall i: nat | i < |log| ensures UpdatedRecord(log[i], log[i], n, EncodeUpdate(items).headers) {
      forall key ensures !HeaderDenotes(EncodeUpdate(items).headers, key, n, log[i].ts) {
        NothingDenoted(entry, items, n, key, log[i].ts);
      }
    }
  }

  /** A removal from an entry that a query can address can happen, and does this to its log. */
  lemma {:induction false} RemoveHappens(logs: Logs, op: Op, name: string, decodes: bytes -> bool)
    requires op.Remove? && IsBytes(op.entry) && Addressed(op.entry) == Some(name) && CleanLog(LogOf(logs, name), decodes)
    ensures Step(logs, op, logs[name := MarkedAll(LogOf(logs, name), op.keys)], decodes)
  {
    AddressedIsTarget(op.entry);
    NoPossible(TargetLog(logs, op.entry), op, decodes);
    hide *;
    var log := LogOf(logs, name);
    AnswerExists(log, Operands(op.keys));
    var rs :| Answers(rs, log, Operands(op.keys));
    CallsAreKeyCalls(op.entry, log, op.keys, rs, decodes);
    MarkedSomehow(logs, op.entry, name, op.keys, decodes);
    RemovedBy(logs, op, logs[name := MarkedAll(log, op.keys)], rs);
    StepRemoves(logs, op, logs[name := MarkedAll(log, op.keys)], decodes);
  }

  lemma NoPossible(log: Log, op: Op, decodes: bytes -> bool)
    requires op.Remove?
    ensures Possible(log, op, decodes)
  {}

  lemma StepRemoves(logs: Logs, op: Op, after: Logs, decodes: bytes -> bool)
    requires op.Remove? && Possible(TargetLog(logs, op.entry), op, decodes) && Removed(logs, op, after)
    ensures Step(logs, op, after, decodes)
  {
    hide Possible, TargetLog, Removed;
  }

  lemma {:induction false} MarkedSomehow(logs: Logs, entry: string, name: string, keys: seq<string>, decodes: bytes -> bool)
    requires IsBytes(entry) && Target(entry) == Some(name) && CleanLog(LogOf(logs, name), decodes)
    ensures Marked(logs, KeyCalls(entry, Filter(LogOf(logs, name), Operands(keys))),
                   logs[name := MarkedAll(LogOf(logs, name), keys)])
  {
    hide Filter, Operands, CleanLog, MarkedAll, MarkedAs, KeyCalls, Run, Lists, LogOf, Target, IsBytes, SameLogs;
    var calls := KeyCalls(entry, Filter(LogOf(logs, name), Operands(keys)));
    if calls == [] {
      NothingMarked(logs, entry, name, keys);
    } else {
      StoredUnderOwnKey(calls);
      ListingExists(Run(calls).records);
      var records :| Lists(records, Run(calls).records);
      SomeMark(entry, LogOf(logs, name), keys, records);
      MarkedByRequest(logs, entry, name, keys, records, decodes);
    }
  }

  lemma {:induction false} RemovedBy(logs: Logs, op: Op, after: Logs, rs: seq<Queried>)
    requires op.Remove? && Addressed(op.entry).Some?
    requires Answers(rs, LogOf(logs, Addressed(op.entry).value), Operands(op.keys))
    requires Marked(logs, RemoveCalls(op.entry, rs), after)
    ensures Removed(logs, op, after)
  {
    hide Answers, LogOf, Operands, RemoveCalls, Marked, Addressed;
    assert Asked(Ok(rs), op.entry, logs, Operands(op.keys));
  }

  lemma {:induction false} NothingMarked(logs: Logs, entry: string, name: string, keys: seq<string>)
    requires KeyCalls(entry, Filter(LogOf(logs, name), Operands(keys))) == []
    ensures SameLogs(logs[name := MarkedAll(LogOf(logs, name), keys)], logs)
  {
    hide KeyCalls, Filter, Operands, Concerns, LogOf;
    var log := LogOf(logs, name);
    forall i: nat | i < |log| ensures !Concerns(log[i], keys) { NoCallNoConcern(entry, log, keys, i); }
    assert MarkedAll(log, keys) == log;
    forall n ensures LogOf(logs[name := log], n) == LogOf(logs, n) { LogPut(logs, name, log, n); }
  }

  lemma {:induction false} SomeMark(entry: string, log: Log, keys: seq<string>, records: seq<Rec>)
    requires KeyCalls(entry, Filter(log, Operands(keys))) != []
    requires Lists(records, Run(KeyCalls(entry, Filter(log, Operands(keys)))).records)
    ensures records != []
  {
    hide Filter, Operands, Apply, Recorded, MarkRec;
    var calls := KeyCalls(entry, Filter(log, Operands(keys)));
    KeyCallsRemove(entry, Filter(log, Operands(keys)));
    var call := calls[|calls| - 1];
    assert calls == calls[..|calls| - 1] + [call];
    OneMoreMark(entry, calls[..|calls| - 1], call.ts, Key(MetaEntry(entry), call.ts));
  }

  lemma {:induction false} KeyCallsRemove(entry: string, found: Log)
    ensures var calls := KeyCalls(entry, found);
            forall i :: 0 <= i < |calls| ==> calls[i].AddOnlyLabels? && calls[i] == RemoveCall(entry, calls[i].ts)
  {
    hide MetaEntry;
    if found != [] {
      KeyCallsRemove(entry, found[..|found| - 1]);
      var init, calls := KeyCalls(entry, found[..|found| - 1]), KeyCalls(entry, found);
      assert found == found[..|found| - 1] + [found[|found| - 1]];
      KeyCallsSnoc(entry, found[..|found| - 1], found[|found| - 1]);
      forall i | 0 <= i < |calls| ensures calls[i].AddOnlyLabels? && calls[i] == RemoveCall(entry, calls[i].ts) {
        if i < |init| { assert calls[i] == init[i]; } else { assert calls[i] == RemoveCall(entry, found[|found| - 1].ts); }
      }
    }
  }

  // ---- examples -----------------------------------------------------------------------------------

  /** A write of one empty attachment to an entry that has none so far. */
  lemma {:induction false} FirstWrite(entry: string, name: string, key: string, decodes: bytes -> bool)
    returns (after: Logs)
    requires IsBytes(entry) && entry != "" && Target(entry) == Some(name) && IsAscii(key) && '"' !in key && decodes([])
    ensures Step(map[], Write(entry, map[key := []], 0, [key]), after, decodes)
    ensures Write(entry, map[key := []], 0, [key]).attachments != map[] && CleanLog(LogOf(map[], name), decodes)
    ensures LogMap(LogOf(map[], name)) == map[] && Meaning(map[], Write(entry, map[key := []], 0, [key])) == map[key := []]
    ensures |LogOf(after, name)| == 1
  {
    var op := Write(entry, map[key := []], 0, [key]);
    FirstIsPossible(op, key, decodes);
    NoLogYet(name);
    after := map[][name := [] + Appended(entry, op.attachments, op.now, op.order)];
    LogPut(map[], name, [] + Appended(entry, op.attachments, op.now, op.order), name);
    hide *;
    WriteHappens(map[], op, name, decodes);
  }

  lemma NoLogYet(name: string)
    ensures LogOf(map[], name) == [] && LogMap([]) == map[] && Ordered([])
    ensures forall decodes :: CleanLog([], decodes)
  {}

  lemma FirstIsPossible(op: Op, key: string, decodes: bytes -> bool)
    requires op.Write? && op.attachments == map[key := []] && op.now == 0 && op.order == [key]
    requires IsAscii(key) && '"' !in key && decodes([])
    ensures Plain(op) && Possible([], op, decodes) && op.attachments != map[] && Meaning(map[], op) == map[key := []]
  {
    hide IsAscii;
    assert key in op.attachments;
  }

  lemma {:induction false} AskExists(entry: string, logs: Logs, operands: Option<seq<string>>)
    ensures exists query :: Asked(query, entry, logs, operands)
  {
    hide Answers, Unescape, LogOf;
    if Addressed(entry).Some? {
      AnswerExists(LogOf(logs, Addressed(entry).value), operands);
      var rs :| Answers(rs, LogOf(logs, Addressed(entry).value), operands);
      assert Asked(Ok(rs), entry, logs, operands);
    } else {
      assert Asked(Err(""), entry, logs, operands);
    }
  }

  /**
   * An attachment called `a,\` does not come back: the quoted text keeps the
   * escapes that both directions add.
   */
  lemma {:induction false} LostNameExample()
    ensures var op, decodes := Write("e", map["a,\\" := []], 0, ["a,\\"]), (data: bytes) => true;
            exists after, query ::
              && Step(map[], op, after, decodes) && Asked(query, "e", after, None)
              && ReadResult("e", query, decodes) != Attached(Meaning(map[], op))
  {
    var key, decodes := "a,\\", (data: bytes) => true;
    var op := Write("e", map[key := []], 0, [key]);
    LostName(key);
    PlainEntry();
    hide *;
    var after := FirstWrite("e", "e/$meta", key, decodes);
    AskExists("e", map[], None);
    AskExists("e", after, None);
    var before :| Asked(before, "e", map[], None);
    var query :| Asked(query, "e", after, None);
    OneNotCarried(op, key);
    EmptyIsClean("e", "e/$meta", decodes);
    WriteOverridesIff(map[], op, after, before, query, decodes);
  }

  lemma EmptyIsClean(entry: string, name: string, decodes: bytes -> bool)
    requires Addressed(entry) == Some(name)
    ensures CleanAt(map[], entry, decodes) && MapOf(map[], entry) == map[]
  {
    assert LogOf(map[], name) == [];
  }

  lemma OneNotCarried(op: Op, key: string)
    requires op == Write("e", map[key := []], 0, [key]) && !CarriedKey(key)
    ensures !CarriedKeys(op.attachments) && Meaning(map[], op) != map[]
  {
    hide CarriedKey;
    assert key in op.attachments && key in Meaning(map[], op);
  }

  lemma PlainEntry()
    ensures SingleEntry("e") && IsBytes("e") && Addressed("e") == Some("e/$meta") && Target("e") == Some("e/$meta")
  {
    UnescapePlain("e/$meta");
    hide Unescape;
  }

  lemma LostName(key: string)
    requires key == "a,\\"
    ensures IsAscii(key) && '"' !in key && !CarriedKey(key)
  {
    assert key[0] == 'a' && key[1] == ',' && key[2] == '\\' && |key| == 3;
    assert !IsPlain(key[2]);
  }

  lemma PlainA()
    ensures SingleEntry("A") && IsBytes("A") && Addressed("A") == Some("A/$meta")
  {
    UnescapePlain("A/$meta");
    assert MetaEntry("A") == "A/$meta";
    hide Unescape;
  }

  lemma PercentEntry()
    ensures SingleEntry("%41") && IsBytes("%41") && Addressed("%41") == Some("A/$meta") && Target("%41") == Some("A/$meta")
  {
    PercentExample();
    UnescapeEncode("%41");
    var s := "%41";
    assert |s| == 3 && s[0] == '%' && s[1] == '4' && s[2] == '1';
    assert MetaEntry("A") == "A/$meta";
    hide Unescape, Encode, MetaEntry;
    MetaDecodes(s);
    AddressedIff(s);
  }

  lemma GoodKey()
    ensures CarriedKey("k") && IsAscii("k") && '"' !in "k"
  {
    TrimFixed("k");
  }

  /** Entry `%41` keeps its attachments, and shares them with entry `A`. */
  lemma {:induction false} PercentEntryExample()
    ensures var op, decodes := Write("%41", map["k" := []], 0, ["k"]), (data: bytes) => true;
            exists after, query, other ::
              && Step(map[], op, after, decodes) && Asked(query, "%41", after, None) && Asked(other, "A", after, None)
              && ReadResult("%41", query, decodes) == ReadResult("A", other, decodes) == Attached(map["k" := []])
  {
    var op, decodes := Write("%41", map["k" := []], 0, ["k"]), (data: bytes) => true;
    PercentEntry();
    PlainA();
    GoodKey();
    assert CarriedKeys(op.attachments) && "%41" != "";
    hide *;
    var after := FirstWrite("%41", "A/$meta", "k", decodes);
    AskExists("%41", map[], None);
    AskExists("%41", after, None);
    AskExists("A", after, None);
    var before :| Asked(before, "%41", map[], None);
    var query :| Asked(query, "%41", after, None);
    var other :| Asked(other, "A", after, None);
    EmptyIsClean("%41", "A/$meta", decodes);
    WriteOverridesIff(map[], op, after, before, query, decodes);
    AskedIsRead(query, "%41", after, decodes);
    SharedMap(after, decodes);
    AskedIsRead(other, "A", after, decodes);
  }

  lemma SharedMap(logs: Logs, decodes: bytes -> bool)
    requires Addressed("%41") == Addressed("A") == Some("A/$meta")
    ensures MapOf(logs, "%41") == MapOf(logs, "A") && (CleanAt(logs, "%41", decodes) ==> CleanAt(logs, "A", decodes))
  {
    hide CleanLog, LogMap, LogOf;
  }

  lemma CutEntry()
    ensures SingleEntry("a?b") && IsBytes("a?b") && Addressed("a?b").None? && Target("a?b") == Some("a?b/$meta")
  {
    UnescapePlain("a?b/$meta");
    assert "a?b"[1] == '?' && !InPath("a?b"[1]);
    hide Unescape;
  }

  /** Entry `a?b` is written to but cannot be read: the URL of its query ends at the question mark. */
  lemma {:induction false} CutEntryExample()
    ensures var op, decodes := Write("a?b", map["k" := []], 0, ["k"]), (data: bytes) => true;
            exists after ::
              && Step(map[], op, after, decodes) && |LogOf(after, "a?b/$meta")| == 1
              && forall query :: Asked(query, "a?b", after, None) ==> ReadResult("a?b", query, decodes).Unreadable?
  {
    var decodes := (data: bytes) => true;
    CutEntry();
    GoodKey();
    assert "a?b" != "";
    hide *;
    var after := FirstWrite("a?b", "a?b/$meta", "k", decodes);
    NoClean(after, decodes);
    forall query | Asked(query, "a?b", after, None) ensures ReadResult("a?b", query, decodes).Unreadable? {
      AskedIsRead(query, "a?b", after, decodes);
    }
  }

  lemma NoClean(logs: Logs, decodes: bytes -> bool)
    requires Addressed("a?b").None?
    ensures CleanAt(logs, "a?b", decodes)
  {}
}
