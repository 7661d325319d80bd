/** Writing attachments overrides and adds exactly the given ones, if their names get through and their entry can be queried. */
module AttachmentWrites {
  import opened Text
  import opened Ordering
  import opened Decimal
  import opened HeaderList
  import opened Headers
  import opened LabelOps
  import opened LabelDelta
  import opened V2Encode
  import opened Bodies
  import opened V2Decode
  import opened V2Order
  import opened V2RoundTrip
  import opened V1Rows
  import opened RecordBatches
  import opened Attachments
  import opened AttachmentServer

  // ---- the records of the batch -------------------------------------------------------------------

  /** The record that WriteAttachments adds for one attachment. */
  function WrittenRec(entry: string, key: string, data: bytes, ts: int): Rec {
    Rec(MetaEntry(entry), ts, data, JSON, map[KEY := Printed(key)])
  }

  function WrittenRecs(entry: string, attachments: Payloads, now: int, order: seq<string>): (rs: seq<Rec>)
    requires forall i :: 0 <= i < |order| ==> order[i] in attachments
    ensures |rs| == |order|
    ensures forall i :: 0 <= i < |order| ==> rs[i] == WrittenRec(entry, order[i], attachments[order[i]], now + i)
  {
    seq(|order|, i requires 0 <= i < |order| => WrittenRec(entry, order[i], attachments[order[i]], now + i))
  }

  lemma CallStores(entry: string, key: string, data: bytes, ts: int)
    ensures var call := WriteCall(entry, key, data, ts);
            !call.Clear? && Recorded(call) == Some(WrittenRec(entry, key, data, ts))
  {
    JsonIsGood();
    assert |MetaEntry(entry)| >= |"/$meta"|;
  }

  /** The batch holds exactly the attachments' records, all different. */
  lemma {:induction false} BatchHolds(entry: string, attachments: Payloads, now: int, order: seq<string>, k: Key)
    requires forall i :: 0 <= i < |order| ==> order[i] in attachments
    ensures var stored := Run(WriteCalls(entry, attachments, now, order)).records;
            && (k in stored <==> k.entry == MetaEntry(entry) && 0 <= k.ts - now < |order|)
            && (k in stored ==> stored[k] == WrittenRecs(entry, attachments, now, order)[k.ts - now])
  {
    hide WriteCall, WrittenRec, Recorded;
    if order == [] {
      NoCalls(entry, attachments, now);
    } else {
      var init, key := order[..|order| - 1], order[|order| - 1];
      assert order == init + [key];
      BatchHolds(entry, attachments, now, init, k);
      OneMoreCall(entry, attachments, now, init, key);
      CallStores(entry, key, attachments[key], now + |init|);
      WrittenKey(entry, key, attachments[key], now + |init|);
    }
  }

  lemma WrittenKey(entry: string, key: string, data: bytes, ts: int)
    ensures KeyOf(WrittenRec(entry, key, data, ts)) == Key(MetaEntry(entry), ts)
  {}

  lemma {:induction false} SentAreWritten(entry: string, attachments: Payloads, now: int, order: seq<string>,
                                          records: seq<Rec>, r: Rec)
    requires forall i :: 0 <= i < |order| ==> order[i] in attachments
    requires Lists(records, Run(WriteCalls(entry, attachments, now, order)).records)
    ensures r in records <==> r in WrittenRecs(entry, attachments, now, order)
  {
    hide Run, WriteCalls;
    var stored, written := Run(WriteCalls(entry, attachments, now, order)).records, WrittenRecs(entry, attachments, now, order);
    BatchHolds(entry, attachments, now, order, KeyOf(r));
    if r in written {
      var i :| 0 <= i < |written| && written[i] == r;
      WrittenKey(entry, order[i], attachments[order[i]], now + i);
      assert KeyOf(r) in stored && stored[KeyOf(r)] == r;
    }
  }

  // ---- what arrives -------------------------------------------------------------------------------

  /** The record as the server stores it when its value is safe to print. */
  function Arrival(r: Rec): MetaRecord {
    MetaRecord(r.timestamp, Arrived(Normalize(r.labels)), r.data)
  }

  function Appended(entry: string, attachments: Payloads, now: int, order: seq<string>): (log: Log)
    requires forall i :: 0 <= i < |order| ==> order[i] in attachments
    ensures |log| == |order|
    ensures forall i :: 0 <= i < |order| ==>
              log[i] == Arrival(WrittenRec(entry, order[i], attachments[order[i]], now + i))
  {
    seq(|order|, i requires 0 <= i < |order| => Arrival(WrittenRec(entry, order[i], attachments[order[i]], now + i)))
  }

  lemma ArrivalHolds(entry: string, key: string, data: bytes, ts: int)
    ensures var x := Arrival(WrittenRec(entry, key, data, ts));
            && x.ts == ts && x.data == data
            && x.labels == if Trim(Carried(key)) == "" then map[] else map[KEY := Trim(Carried(key))]
  {
    hide Trim, Carried;
  }

  lemma WrittenIsSafe(entry: string, key: string, data: bytes, ts: int)
    requires IsBytes(MetaEntry(entry)) && IsAscii(key) && '"' !in key && |data| <= MAX_INT64
    ensures var r := WrittenRec(entry, key, data, ts);
            && AsciiRec(r) && SafeRec(r) && IsBytes(r.entry) && (forall k :: k in r.labels ==> IsBytes(k))
            && r.entry != "" && forall k :: k in r.labels ==> k != "" && '%' !in k
  {
    MetaEntryChars(entry);
    JsonIsGood();
  }

  /** The operation's names and payloads are in the domain, and none has a quote. */
  ghost predicate Plain(op: Op) {
    op.Write? && forall k :: k in op.attachments ==> IsAscii(k) && '"' !in k && |op.attachments[k]| <= MAX_INT64
  }

  /** Every record of the batch is one of the written ones. */
  lemma {:induction false} SentOne(log: Log, op: Op, decodes: bytes -> bool, records: seq<Rec>, i: nat)
    requires IsBytes(op.entry) && op.Write? && Possible(log, op, decodes) && Plain(op) && i < |records|
    requires Lists(records, Run(WriteCalls(op.entry, op.attachments, op.now, op.order)).records)
    ensures SafeWritten(records[i]) && op.now <= records[i].timestamp < op.now + |op.order|
  {
    hide Run, WriteCalls, SafeRec, AsciiRec, IsBytes, IsAscii, Lists, MetaEntry, Enumerates;
    MetaEntryChars(op.entry);
    var written := WrittenRecs(op.entry, op.attachments, op.now, op.order);
    SentAreWritten(op.entry, op.attachments, op.now, op.order, records, records[i]);
    assert records[i] in records;
    var j :| 0 <= j < |written| && written[j] == records[i];
    WrittenIsSafe(op.entry, op.order[j], op.attachments[op.order[j]], op.now + j);
  }

  lemma {:induction false} SentCount(op: Op, records: seq<Rec>)
    requires op.Write? && op.attachments != map[] && Enumerates(op.order, op.attachments)
    requires forall i :: 0 <= i < |op.order| ==> op.order[i] in op.attachments
    requires Lists(records, Run(WriteCalls(op.entry, op.attachments, op.now, op.order)).records)
    ensures 0 < |records| <= |op.order|
  {
    hide Run, WriteCalls, Enumerates, MetaEntry;
    var written := WrittenRecs(op.entry, op.attachments, op.now, op.order);
    forall r | r in records ensures r in written { SentAreWritten(op.entry, op.attachments, op.now, op.order, records, r); }
    NoMoreThan(records, written);
    SomethingSent(op);
    SentAreWritten(op.entry, op.attachments, op.now, op.order, records, written[0]);
  }

  lemma {:induction false} SentEntry(op: Op, records: seq<Rec>, i: nat)
    requires op.Write? && (forall j :: 0 <= j < |op.order| ==> op.order[j] in op.attachments) && i < |records|
    requires Lists(records, Run(WriteCalls(op.entry, op.attachments, op.now, op.order)).records)
    ensures records[i].entry == MetaEntry(op.entry) && op.now <= records[i].timestamp < op.now + |op.order|
  {
    hide Run, WriteCalls, Lists, MetaEntry;
    SentAreWritten(op.entry, op.attachments, op.now, op.order, records, records[i]);
    assert records[i] in records;
  }

  lemma ModelFromParts(records: seq<Rec>)
    requires DistinctRecs(records) && forall i :: 0 <= i < |records| ==> SafeWritten(records[i])
    ensures InModel(records) && GoodNames(records) && SafeRecs(records)
  {
    hide SafeRec, AsciiRec, IsBytes, DistinctRecs;
    forall i | 0 <= i < |records| ensures AsciiRec(records[i]) && SafeRec(records[i]) { assert SafeWritten(records[i]); }
  }

  lemma SpanFromParts(records: seq<Rec>, now: int)
    requires 0 <= now && forall i :: 0 <= i < |records| ==> now <= records[i].timestamp <= MAX_INT64
    ensures SpanFits(records) && forall i :: 0 <= i < |records| ==> InInt64(records[i].timestamp)
  {}

  lemma OneName(name: string)
    ensures |{name}| <= MAX_INT64
  {
    assert |{name}| == 1;
  }

  lemma SafeFromParts(records: seq<Rec>, now: int)
    requires DistinctRecs(records) && 0 < |records| <= MAX_INT64 && 0 <= now
    requires forall i :: 0 <= i < |records| ==> SafeWritten(records[i]) && now <= records[i].timestamp <= MAX_INT64
    ensures SafeBatch(records) && SpanFits(records)
  {
    hide SafeWritten, InModel, GoodNames, SafeRecs, LabelNames, DistinctRecs, SpanFits, InInt64;
    SpanFromParts(records, now);
    KeysFromParts(records);
    LabelNamesAre(records, KEY);
    ModelFromParts(records);
    OneName(KEY);
  }

  lemma KeysFromParts(records: seq<Rec>)
    requires forall i :: 0 <= i < |records| ==> SafeWritten(records[i])
    ensures forall i :: 0 <= i < |records| ==> records[i].labels.Keys == {KEY}
  {
    hide SafeRec, AsciiRec, IsBytes;
  }

  lemma {:induction false} SentIsSafe(log: Log, op: Op, decodes: bytes -> bool, records: seq<Rec>)
    requires IsBytes(op.entry) && op.Write? && Possible(log, op, decodes) && Plain(op) && op.attachments != map[]
    requires Lists(records, Run(WriteCalls(op.entry, op.attachments, op.now, op.order)).records)
    ensures SafeBatch(records) && SpanFits(records)
  {
    assert DistinctRecs(records);
    hide Run, WriteCalls, SafeWritten, Lists, Plain, IsBytes, Enumerates, SafeBatch, SpanFits, DistinctRecs;
    SentCount(op, records);
    forall i | 0 <= i < |records| ensures SafeWritten(records[i]) && op.now <= records[i].timestamp <= MAX_INT64 {
      SentOne(log, op, decodes, records, i);
    }
    SafeFromParts(records, op.now);
  }

  ghost predicate SafeWritten(r: Rec) {
    && AsciiRec(r) && SafeRec(r) && IsBytes(r.entry) && (forall k :: k in r.labels ==> IsBytes(k))
    && r.entry != "" && (forall k :: k in r.labels ==> k != "" && '%' !in k)
    && r.labels.Keys == {KEY}
  }

  lemma SomethingSent(op: Op)
    requires op.Write? && op.attachments != map[] && Enumerates(op.order, op.attachments)
    ensures op.order != []
  {
    var k :| k in op.attachments;
    assert k in op.order;
  }

  lemma LabelNamesAre(records: seq<Rec>, name: string)
    requires records != [] && forall i :: 0 <= i < |records| ==> records[i].labels.Keys == {name}
    ensures LabelNames(records) == {name}
  {
    assert name in records[0].labels.Keys;
    forall k | k in LabelNames(records) ensures k == name {
      var i :| 0 <= i < |records| && k in records[i].labels.Keys;
    }
  }

  /** A request without quotes is stored as its arrivals, under the name that the entry is read as. */
  lemma {:induction false} StoredAreArrivals(op: Op, records: seq<Rec>, x: MetaRecord)
    requires op.Write? && InModel(records) && forall i :: 0 <= i < |op.order| ==> op.order[i] in op.attachments
    requires Lists(records, Run(WriteCalls(op.entry, op.attachments, op.now, op.order)).records) && Target(op.entry).Some?
    ensures IsStored(x, Target(op.entry).value, ExpectedViews(Sort(records, RecLess), false))
            <==> x in Appended(op.entry, op.attachments, op.now, op.order)
  {
    hide Run, WriteCalls, Arrived, Normalize, EffectiveType, Unescape;
    var items, views := Sort(records, RecLess), ExpectedViews(Sort(records, RecLess), false);
    var written := WrittenRecs(op.entry, op.attachments, op.now, op.order);
    var appended := Appended(op.entry, op.attachments, op.now, op.order);
    SortMembers(records, RecLess);
    if IsStored(x, Target(op.entry).value, views) {
      var i :| 0 <= i < |views| && views[i].entry == Target(op.entry).value && x == StoredView(views[i]);
      assert items[i] in items && items[i] in records;
      SentAreWritten(op.entry, op.attachments, op.now, op.order, records, items[i]);
      var j :| 0 <= j < |written| && written[j] == items[i];
      assert appended[j] == x;
    }
    if x in appended {
      var j :| 0 <= j < |appended| && appended[j] == x;
      SentAreWritten(op.entry, op.attachments, op.now, op.order, records, written[j]);
      assert written[j] in written && written[j] in records && written[j] in items;
      var i :| 0 <= i < |items| && items[i] == written[j];
      assert views[i].entry == Target(op.entry).value && x == StoredView(views[i]);
    }
  }

  lemma {:induction false} AppendedOrdered(log: Log, op: Op, decodes: bytes -> bool)
    requires Ordered(log) && op.Write? && Possible(log, op, decodes)
    ensures Ordered(log + Appended(op.entry, op.attachments, op.now, op.order))
  {
    hide Arrived, Normalize;
    var all := log + Appended(op.entry, op.attachments, op.now, op.order);
    forall i, j | 0 <= i < j < |all| ensures Precedes(all[i], all[j]) {
      if i < |log| {
        assert j < |log| ==> Precedes(log[i], log[j]);
      }
    }
  }

  lemma PrecedesIsOrder()
    ensures Irreflexive(Precedes) && Transitive(Precedes)
  {}

  lemma {:induction false} SentDecode(op: Op, records: seq<Rec>)
    requires op.Write? && (forall j :: 0 <= j < |op.order| ==> op.order[j] in op.attachments) && Target(op.entry).Some?
    requires Lists(records, Run(WriteCalls(op.entry, op.attachments, op.now, op.order)).records)
    ensures EntriesDecode(records)
  {
    hide Run, WriteCalls, Lists, MetaEntry, Unescape;
    forall i | 0 <= i < |records| ensures Unescape(records[i].entry).Some? { SentEntry(op, records, i); }
  }

  /** Such a request is understood as it was meant, but for the carried texts and the decoded entry. */
  lemma {:induction false} OutcomeIs(log: Log, op: Op, decodes: bytes -> bool, records: seq<Rec>,
                                     outcome: Outcome<RecordView>)
    requires IsBytes(op.entry) && op.Write? && Possible(log, op, decodes) && Plain(op) && op.attachments != map[]
    requires Lists(records, Run(WriteCalls(op.entry, op.attachments, op.now, op.order)).records)
    requires InModel(records) && Understood(outcome, records) && Target(op.entry).Some?
    ensures outcome == Fetched(ExpectedViews(Sort(records, RecLess), false))
  {
    SentIsSafe(log, op, decodes, records);
    SentDecode(op, records);
    var order, hs :| UnderstoodIn(outcome, records, order, hs);
    hide ReadBatch, ExpectedViews, Sent, EncodeBatch, SortedFrom, Enumerates, SafeBatch, SpanFits, Lists, InModel,
         Possible, Plain, Run, WriteCalls, EntriesDecode, Target;
    V2ArrivalIff(records, "", order, hs);
  }

  lemma SomeIsStored(name: string, views: seq<RecordView>)
    ensures IsFor(name, views) <==> exists x :: IsStored(x, name, views)
  {
    if i :| 0 <= i < |views| && views[i].entry == name {
      assert IsStored(StoredView(views[i]), name, views);
    }
  }

  /** What is stored makes the log the old one with the arrivals appended. */
  lemma {:induction false} InsertedAre(log: Log, op: Op, after: Log, records: seq<Rec>, decodes: bytes -> bool)
    requires Ordered(log) && op.Write? && Possible(log, op, decodes) && op.attachments != map[] && InModel(records)
    requires Lists(records, Run(WriteCalls(op.entry, op.attachments, op.now, op.order)).records) && Target(op.entry).Some?
    requires InsertedInto(after, log, Target(op.entry).value, ExpectedViews(Sort(records, RecLess), false))
    ensures after == log + Appended(op.entry, op.attachments, op.now, op.order)
  {
    SomethingSent(op);
    hide Run, WriteCalls, ExpectedViews, IsStored, IsFor, Lists, InModel, Enumerates, Target, Arrival, WrittenRec, Sort,
         IsAscii;
    var expected := log + Appended(op.entry, op.attachments, op.now, op.order);
    var views := ExpectedViews(Sort(records, RecLess), false);
    AppendedOrdered(log, op, decodes);
    PrecedesIsOrder();
    forall x ensures x in expected <==> x in log || IsStored(x, Target(op.entry).value, views) {
      StoredAreArrivals(op, records, x);
    }
    SomeIsStored(Target(op.entry).value, views);
    var first := Appended(op.entry, op.attachments, op.now, op.order)[0];
    StoredAreArrivals(op, records, first);
    assert IsStored(first, Target(op.entry).value, views);
    StrictSortedUnique(after, expected, Precedes);
  }

  /** The request that a write sends, and how the server understands it. */
  lemma RequestOf(logs: Logs, op: Op, after: Logs, decodes: bytes -> bool)
    returns (records: seq<Rec>, outcome: Outcome<RecordView>)
    requires op.Write? && op.entry != "" && op.attachments != map[] && Step(logs, op, after, decodes)
    ensures Possible(TargetLog(logs, op.entry), op, decodes)
    ensures forall i :: 0 <= i < |op.order| ==> op.order[i] in op.attachments
    ensures Lists(records, Run(WriteCalls(op.entry, op.attachments, op.now, op.order)).records)
    ensures InModel(records) && Understood(outcome, records) && Inserted(after, logs, outcome)
  {
    OrderIsGiven(TargetLog(logs, op.entry), op, decodes);
    hide Run, WriteCalls, Lists, InModel, Possible, Understood, Inserted, TargetLog;
    records, outcome :| WrittenAs(logs, op, after, records, outcome);
  }

  /** Whatever the orders of the maps, the log that the entry names is the old one with the arrivals appended. */
  lemma {:induction false} InsertedIsAppended(logs: Logs, op: Op, after: Logs, decodes: bytes -> bool)
    requires op.Write? && IsBytes(op.entry) && op.entry != "" && Target(op.entry).Some? && Plain(op) && op.attachments != map[]
    requires Ordered(TargetLog(logs, op.entry)) && Step(logs, op, after, decodes)
    ensures TargetLog(after, op.entry) == TargetLog(logs, op.entry) + Appended(op.entry, op.attachments, op.now, op.order)
  {
    hide *;
    var records, outcome := RequestOf(logs, op, after, decodes);
    OutcomeIs(TargetLog(logs, op.entry), op, decodes, records, outcome);
    InsertedThere(logs, op, after, outcome);
    InsertedAre(TargetLog(logs, op.entry), op, TargetLog(after, op.entry), records, decodes);
  }

  lemma InsertedThere(logs: Logs, op: Op, after: Logs, outcome: Outcome<RecordView>)
    requires Inserted(after, logs, outcome) && outcome.Fetched? && Target(op.entry).Some?
    ensures InsertedInto(TargetLog(after, op.entry), TargetLog(logs, op.entry), Target(op.entry).value, outcome.records)
  {
    hide InsertedInto, LogOf, Target;
  }

  // ---- the other logs -----------------------------------------------------------------------------

  lemma {:induction false} SentInMachine(log: Log, op: Op, records: seq<Rec>, decodes: bytes -> bool)
    requires op.Write? && op.attachments != map[] && Possible(log, op, decodes)
    requires Lists(records, Run(WriteCalls(op.entry, op.attachments, op.now, op.order)).records)
    ensures records != [] && InMachine(records)
    ensures forall i :: 0 <= i < |records| ==> records[i].entry == MetaEntry(op.entry)
  {
    hide Run, WriteCalls, Lists, MetaEntry, Enumerates, IsAscii;
    SentCount(op, records);
    forall i | 0 <= i < |records| ensures records[i].entry == MetaEntry(op.entry) && InInt64(records[i].timestamp) {
      SentEntry(op, records, i);
    }
  }

  /** The entry list of a batch for one entry is read as its decoded name, or not at all. */
  lemma {:induction false} OneEntryArrives(items: seq<Rec>, e: string)
    requires items != [] && NamesAreBytes(items) && e != "" && forall i :: 0 <= i < |items| ==> items[i].entry == e
    ensures AllBytes(Entries(items)) && Entries(items) != [] && forall k :: 0 <= k < |Entries(items)| ==> Entries(items)[k] == e
    ensures Unescape(e).Some? <==> Decodable(Entries(items))
    ensures ParseList(EncodeList(Entries(items)))
            == if Unescape(e).Some? then Ok(DecodedAll(Entries(items))) else Err("invalid URL escape")
  {
    EntriesAreBytes(items);
    hide ParseList, EncodeList, Entries, Unescape, IsBytes;
    EntryIsIn(items, 0);
    var es := Entries(items);
    forall k | 0 <= k < |es| ensures es[k] == e { EntryIsUsed(items, k); }
    ListArrives(es);
    assert es[0] == e;
  }

  /** The records of a batch for one entry are understood as records of the decoded name, if as any. */
  lemma {:induction false} ViewsAreOfTarget(records: seq<Rec>, e: string, outcome: Outcome<RecordView>, k: nat)
    requires InModel(records) && InMachine(records) && records != [] && Understood(outcome, records) && e != ""
    requires (forall i :: 0 <= i < |records| ==> records[i].entry == e) && outcome.Fetched? && k < |outcome.records|
    ensures Unescape(e) == Some(outcome.records[k].entry)
  {
    var items := Sort(records, RecLess);
    var hs := RowsUnderstood(records, outcome);
    hide *;
    SortKeepsModel(records);
    SortMembers(records, RecLess);
    forall i | 0 <= i < |items| ensures items[i].entry == e { assert items[i] in items && items[i] in records; }
    SameMachine(records, items);
    ItemsOfTarget(items, e, Whole(EncodeBatch(records).body), hs, outcome.records, k);
  }

  lemma SameMachine(records: seq<Rec>, items: seq<Rec>)
    requires InMachine(records) && |items| == |records| && forall r :: r in items <==> r in records
    ensures InMachine(items)
  {
    assert forall i :: 0 <= i < |items| ==> items[i] in records;
  }

  lemma {:induction false} RowsUnderstood(records: seq<Rec>, outcome: Outcome<RecordView>) returns (hs: seq<RecordHeader>)
    requires InModel(records) && records != [] && Understood(outcome, records)
    ensures var items := Sort(records, RecLess);
            && items != [] && InModel(items) && NamesAreBytes(items)
            && outcome == ReadContent(SentHeaders(items, ""), Whole(EncodeBatch(records).body), false, false, hs)
  {
    SortKeepsModel(records);
    hide AsciiRecs, DistinctRecs, NamesAreBytes, Sort, ReadContent, SortedFrom, Enumerates, EncodeItems;
    var order, rows :| UnderstoodIn(outcome, records, order, rows);
    hs := rows;
  }

  lemma {:induction false} ItemsOfTarget(items: seq<Rec>, e: string, s: Stream, hs: seq<RecordHeader>,
                                         views: seq<RecordView>, k: nat)
    requires InModel(items) && NamesAreBytes(items) && InMachine(items) && items != [] && e != "" && k < |views|
    requires forall i :: 0 <= i < |items| ==> items[i].entry == e
    requires ReadContent(SentHeaders(items, ""), s, false, false, hs) == Fetched(views)
    ensures Unescape(e) == Some(views[k].entry)
  {
    hide *;
    SentFixed(items, "");
    StartIs(items);
    EntriesWereRead(SentHeaders(items, ""), s, hs, views);
    OneEntryArrives(items, e);
    FetchedShape(SentHeaders(items, ""), s, hs, DecodedAll(Entries(items)), MinTimestamp(items), views);
  }

  lemma {:induction false} StartIs(items: seq<Rec>)
    requires items != [] && InMachine(items)
    ensures ParseInt(FormatInt(MinTimestamp(items))) == Some(MinTimestamp(items))
  {
    hide ParseInt, FormatInt, MinTimestamp;
    DeltaExact(items, 0);
    FormatParse(MinTimestamp(items));
  }

  /** A write leaves every log but the one that its entry names as it was. */
  lemma {:induction false} WriteKeepsOthers(logs: Logs, op: Op, after: Logs, decodes: bytes -> bool, name: string)
    requires IsBytes(op.entry) && op.Write? && Step(logs, op, after, decodes) && Target(op.entry) != Some(name)
    ensures LogOf(after, name) == LogOf(logs, name)
  {
    hide *;
    if op.entry == "" || op.attachments == map[] {
      NothingWritten(logs, op, after, decodes, name);
    } else {
      var records, outcome := RequestOf(logs, op, after, decodes);
      SentInMachine(TargetLog(logs, op.entry), op, records, decodes);
      MetaEntryChars(op.entry);
      if outcome.Fetched? {
        forall k: nat | k < |outcome.records| ensures Unescape(MetaEntry(op.entry)) == Some(outcome.records[k].entry) {
          ViewsAreOfTarget(records, MetaEntry(op.entry), outcome, k);
        }
      }
      OthersKept(after, logs, op.entry, outcome, name);
    }
  }

  lemma OthersKept(after: Logs, logs: Logs, entry: string, outcome: Outcome<RecordView>, name: string)
    requires Inserted(after, logs, outcome) && Target(entry) != Some(name)
    requires outcome.Fetched? ==>
               forall k: nat :: k < |outcome.records| ==> Unescape(MetaEntry(entry)) == Some(outcome.records[k].entry)
    ensures LogOf(after, name) == LogOf(logs, name)
  {
    hide LogOf, Unescape, MetaEntry, IsStored, Ordered;
    if outcome.Fetched? {
      assert InsertedInto(LogOf(after, name), LogOf(logs, name), name, outcome.records);
    }
  }

  lemma NothingWritten(logs: Logs, op: Op, after: Logs, decodes: bytes -> bool, name: string)
    requires op.Write? && (op.entry == "" || op.attachments == map[]) && Step(logs, op, after, decodes)
    ensures LogOf(after, name) == LogOf(logs, name)
  {
    OrderIsGiven(TargetLog(logs, op.entry), op, decodes);
    hide LogOf, Possible;
    assert Written(logs, op, after);
  }

  // ---- a name that gets altered -------------------------------------------------------------------

  /** The name that a quote-free name is read under in the end; None if its record has none. */
  function ReadKey(k: string): Option<string> {
    var stored := Trim(Carried(k));
    if stored == "" then None else Some(Carried(stored))
  }

  lemma PlainStaysPlain(k: string)
    ensures (forall i :: 0 <= i < |k| ==> IsPlain(k[i])) ==> forall i :: 0 <= i < |Trim(k)| ==> IsPlain(Trim(k)[i])
    ensures ',' in Trim(k) <==> ',' in k
  {
    TrimIsPart(k);
    if forall i :: 0 <= i < |k| ==> IsPlain(k[i]) {
      forall i | 0 <= i < |Trim(k)| ensures IsPlain(Trim(k)[i]) {
        assert Trim(k)[i] in Trim(k);
        var j :| 0 <= j < |k| && k[j] == Trim(k)[i];
      }
    }
    if ',' in k { VisibleInTrim(k, ','); } else { TrimChars(k, ','); }
  }

  lemma TrimIsPart(s: string)
    ensures forall c :: c in Trim(s) ==> c in s
  {
    forall c | c in Trim(s) ensures c in s {
      if c !in s { TrimChars(s, c); }
    }
  }

  /** The names that are read under themselves are exactly the carried ones. */
  lemma {:induction false} ReadKeyIff(k: string)
    requires IsAscii(k) && '"' !in k
    ensures ReadKey(k) == Some(k) <==> CarriedKey(k)
    ensures ReadKey(k).Some? && !CarriedKey(k) && !CarriedKey(ReadKey(k).value) ==>
              Count(ReadKey(k).value, '\\') > Count(k, '\\')
  {
    hide Trim, Carried, GoodText, Count, IsAscii;
    GoodIsUnchanged(k);
    StoredKey(k);
    var stored := Trim(Carried(k));
    GoodIsUnchanged(stored);
    CarriedCounts(k);
    CarriedCounts(stored);
    CountTrim(Carried(k), '\\');
    if GoodText(k) { TrimTwice(k); }
  }

  lemma {:induction false} CarriedCounts(k: string)
    requires LegibleText(k)
    ensures Count(Carried(k), '\\') >= Count(k, '\\')
    ensures !GoodText(k) ==> Count(Carried(k), '\\') > Count(k, '\\')
  {
    EscapeAddsBackslashes(k);
  }

  /** What the server stores is legible, and good if the name was. */
  lemma StoredKey(k: string)
    requires LegibleText(k)
    ensures LegibleText(Trim(Carried(k)))
    ensures GoodText(k) ==> Carried(k) == k && GoodText(Trim(k))
  {
    CarriedIsLegible(k);
    TrimIsPart(Carried(k));
    TrimIsPart(k);
    PlainStaysPlain(k);
    GoodIsUnchanged(k);
    hide Trim, Carried;
    var stored := Trim(Carried(k));
    assert forall i :: 0 <= i < |stored| ==> stored[i] in stored;
    assert forall i :: 0 <= i < |Trim(k)| ==> Trim(k)[i] in Trim(k);
  }

  lemma CarriedIsLegible(k: string)
    requires LegibleText(k)
    ensures IsAscii(Carried(k)) && '"' !in Carried(k)
  {
    EscapeAddsBackslashes(k);
    EscapeIsAscii(k);
  }

  lemma {:induction false} EscapeIsAscii(s: string)
    requires IsAscii(s)
    ensures IsAscii(Escape(s))
  {
    if s != "" {
      EscapeIsAscii(s[1..]);
      assert IsAscii(EscapeChar(s[0]));
    }
  }

  /** Among names that are not all carried there is one that nothing is read under. */
  lemma {:induction false} UnreadName(attachments: Payloads, k: string) returns (u: string)
    requires forall j :: j in attachments ==> IsAscii(j) && '"' !in j
    requires k in attachments && !CarriedKey(k)
    ensures u in attachments && !CarriedKey(u) && forall j :: j in attachments ==> ReadKey(j) != Some(u)
    decreases Count(k, '\\')
  {
    hide Count, CarriedKey, ReadKey;
    if j :| j in attachments && ReadKey(j) == Some(k) {
      ReadKeyIff(j);
      u := UnreadName(attachments, j);
    } else {
      u := k;
    }
  }

  // ---- reading the appended log -------------------------------------------------------------------

  lemma OneLabel(text: string)
    ensures TextLabels(map[KEY := text]).Keys == {KEY} && TextLabels(map[KEY := text])[KEY].text == text
    ensures LegibleText(text) ==> Legible(TextLabels(map[KEY := text]))
    ensures GoodText(text) ==> GoodLabels1(TextLabels(map[KEY := text]))
    ensures Legible(TextLabels(map[]))
  {
    hide LegibleText, GoodText;
  }

  lemma SeenLabels(labels: Labels, ts: int, data: bytes, text: string)
    ensures labels == map[] ==> Seen(MetaRecord(ts, labels, data)) == MetaRecord(ts, map[], data)
    ensures labels == map[KEY := text] ==> Seen(MetaRecord(ts, labels, data)) == MetaRecord(ts, map[KEY := Carried(text)], data)
  {
    hide Carried;
  }

  lemma SeenArrival(entry: string, key: string, data: bytes, ts: int, decodes: bytes -> bool)
    requires IsAscii(key) && '"' !in key && |data| <= MAX_INT64 && decodes(data)
    ensures var x := Arrival(WrittenRec(entry, key, data, ts));
            && LegibleRecord(x, decodes)
            && Seen(x) == MetaRecord(ts, if ReadKey(key).None? then map[] else map[KEY := ReadKey(key).value], data)
  {
    ArrivalHolds(entry, key, data, ts);
    StoredKey(key);
    var x, stored := Arrival(WrittenRec(entry, key, data, ts)), Trim(Carried(key));
    OneLabel(stored);
    SeenLabels(x.labels, ts, data, stored);
    hide Trim, Carried, GoodText, Arrival, IsAscii, TextLabels, Legible, Seen;
  }

  lemma {:induction false} AppendedSnoc(entry: string, log: Log, attachments: Payloads, now: int, init: seq<string>,
                                        key: string)
    requires key in attachments && forall i :: 0 <= i < |init| ==> init[i] in attachments
    ensures forall i :: 0 <= i < |init + [key]| ==> (init + [key])[i] in attachments
    ensures SeenAll(log + Appended(entry, attachments, now, init + [key]))
            == SeenAll(log + Appended(entry, attachments, now, init))
               + [Seen(Arrival(WrittenRec(entry, key, attachments[key], now + |init|)))]
  {
    hide Arrival, WrittenRec, Seen;
  }

  /** `k` is what one of the written names is read as. */
  ghost predicate IsRead(order: seq<string>, k: string) {
    exists i :: 0 <= i < |order| && ReadKey(order[i]) == Some(k)
  }

  lemma IsReadSnoc(init: seq<string>, key: string, k: string)
    ensures IsRead(init + [key], k) <==> IsRead(init, k) || ReadKey(key) == Some(k)
    ensures !IsRead([], k)
  {
    hide ReadKey;
    var order := init + [key];
    if i :| 0 <= i < |init| && ReadKey(init[i]) == Some(k) { assert order[i] == init[i]; }
    if ReadKey(key) == Some(k) { assert order[|init|] == key; }
  }

  /** The map with the attachments of these names put in. */
  function Puts(m: Payloads, attachments: Payloads, order: seq<string>): Payloads
    requires forall i :: 0 <= i < |order| ==> order[i] in attachments
  {
    if order == [] then m
    else Puts(m, attachments, order[..|order| - 1])[order[|order| - 1] := attachments[order[|order| - 1]]]
  }

  lemma {:induction false} PutsAt(m: Payloads, attachments: Payloads, order: seq<string>, k: string)
    requires forall i :: 0 <= i < |order| ==> order[i] in attachments
    ensures k in Puts(m, attachments, order) <==> k in m || k in order
    ensures k in Puts(m, attachments, order) && k !in order ==> Puts(m, attachments, order)[k] == m[k]
    ensures k in order ==> k in attachments && Puts(m, attachments, order)[k] == attachments[k]
  {
    if order != [] {
      assert order == order[..|order| - 1] + [order[|order| - 1]];
      PutsAt(m, attachments, order[..|order| - 1], k);
    }
  }

  lemma {:induction false} PutsAll(m: Payloads, attachments: Payloads, order: seq<string>)
    requires Enumerates(order, attachments) && forall i :: 0 <= i < |order| ==> order[i] in attachments
    ensures Puts(m, attachments, order) == m + attachments
  {
    hide Puts;
    forall k ensures k in Puts(m, attachments, order) <==> k in m + attachments { PutsAt(m, attachments, order, k); }
    forall k | k in Puts(m, attachments, order) ensures Puts(m, attachments, order)[k] == (m + attachments)[k] {
      PutsAt(m, attachments, order, k);
    }
  }

  /** What one more arrival does to what is read. */
  lemma {:induction false} OneMoreRead(log: Log, op: Op, n: nat, decodes: bytes -> bool)
    requires op.Write? && n < |op.order| && Possible(log, op, decodes) && Plain(op)
    ensures var before := LogMap(SeenAll(log + Appended(op.entry, op.attachments, op.now, op.order[..n])));
            LogMap(SeenAll(log + Appended(op.entry, op.attachments, op.now, op.order[..n + 1])))
            == if ReadKey(op.order[n]).None? then before
               else before[ReadKey(op.order[n]).value := op.attachments[op.order[n]]]
  {
    hide Arrival, WrittenRec, Seen, LogMap, ReadKey, Enumerates;
    var init, key := op.order[..n], op.order[n];
    assert op.order[..n + 1] == init + [key];
    AppendedSnoc(op.entry, log, op.attachments, op.now, init, key);
    var x := Arrival(WrittenRec(op.entry, key, op.attachments[key], op.now + |init|));
    LogMapSnoc(SeenAll(log + Appended(op.entry, op.attachments, op.now, init)), Seen(x));
    SeenArrival(op.entry, key, op.attachments[key], op.now + |init|, decodes);
  }

  /** The names read from the appended log are the old ones and those that the written ones are read as. */
  lemma {:induction false} ReadNames(log: Log, op: Op, n: nat, decodes: bytes -> bool, k: string)
    requires op.Write? && n <= |op.order| && Possible(log, op, decodes) && Plain(op)
    ensures k in LogMap(SeenAll(log + Appended(op.entry, op.attachments, op.now, op.order[..n])))
            <==> k in LogMap(SeenAll(log)) || IsRead(op.order[..n], k)
  {
    hide LogMap, SeenAll, Appended, ReadKey, IsRead, Enumerates;
    if n == 0 {
      NothingAppended(log, op);
      IsReadSnoc([], "", k);
    } else {
      assert op.order[..n] == op.order[..n - 1] + [op.order[n - 1]];
      ReadNames(log, op, n - 1, decodes, k);
      IsReadSnoc(op.order[..n - 1], op.order[n - 1], k);
      OneMoreRead(log, op, n - 1, decodes);
    }
  }

  lemma NothingAppended(log: Log, op: Op)
    requires op.Write?
    ensures op.order[..0] == [] && log + Appended(op.entry, op.attachments, op.now, []) == log
  {}

  /** Carried names are read with their own payloads. */
  lemma {:induction false} ReadCarried(log: Log, op: Op, n: nat, decodes: bytes -> bool)
    requires op.Write? && n <= |op.order| && Possible(log, op, decodes) && Plain(op) && CarriedKeys(op.attachments)
    ensures LogMap(SeenAll(log + Appended(op.entry, op.attachments, op.now, op.order[..n])))
            == Puts(LogMap(SeenAll(log)), op.attachments, op.order[..n])
  {
    hide LogMap, SeenAll, Appended, ReadKey, Enumerates, CarriedKey;
    if n == 0 {
      NothingAppended(log, op);
    } else {
      assert op.order[..n][..n - 1] == op.order[..n - 1];
      ReadCarried(log, op, n - 1, decodes);
      OneMoreRead(log, op, n - 1, decodes);
      ReadKeyIff(op.order[n - 1]);
    }
  }

  /** A clean log stands for carried names only. */
  lemma {:induction false} CleanLogHasCarried(log: Log, decodes: bytes -> bool)
    requires CleanLog(log, decodes)
    ensures CarriedKeys(LogMap(log))
  {
    hide CarriedKey, IsRemoved;
    if log != [] {
      CleanLogHasCarried(log[..|log| - 1], decodes);
    }
  }

  lemma {:induction false} AppendedIsLegible(log: Log, op: Op, decodes: bytes -> bool)
    requires LegibleLog(log, decodes) && op.Write? && Possible(log, op, decodes) && Plain(op)
    ensures LegibleLog(log + Appended(op.entry, op.attachments, op.now, op.order), decodes)
  {
    hide Arrival, WrittenRec, LegibleRecord, ReadKey, Seen, Enumerates, IsAscii;
    var all := log + Appended(op.entry, op.attachments, op.now, op.order);
    forall i | 0 <= i < |all| ensures LegibleRecord(all[i], decodes) {
      if i >= |log| {
        var key := op.order[i - |log|];
        SeenArrival(op.entry, key, op.attachments[key], op.now + (i - |log|), decodes);
      }
    }
  }

  lemma {:induction false} AppendedIsClean(log: Log, op: Op, decodes: bytes -> bool)
    requires CleanLog(log, decodes) && op.Write? && Possible(log, op, decodes) && CarriedKeys(op.attachments)
    ensures CleanLog(log + Appended(op.entry, op.attachments, op.now, op.order), decodes)
  {
    AppendedOrdered(log, op, decodes);
    hide Arrival, WrittenRec, CleanRecord, Ordered, CarriedKey, Enumerates;
    var all := log + Appended(op.entry, op.attachments, op.now, op.order);
    forall i | 0 <= i < |all| ensures CleanRecord(all[i], decodes) {
      if i >= |log| {
        var key := op.order[i - |log|];
        ArrivalIsClean(op.entry, key, op.attachments[key], op.now + (i - |log|), decodes);
      }
    }
  }

  lemma ArrivalIsClean(entry: string, key: string, data: bytes, ts: int, decodes: bytes -> bool)
    requires CarriedKey(key) && 0 <= ts < MAX_INT64 && |data| <= MAX_INT64 && decodes(data)
    ensures CleanRecord(Arrival(WrittenRec(entry, key, data, ts)), decodes)
  {
    ArrivalHolds(entry, key, data, ts);
    GoodIsUnchanged(key);
    OneLabel(key);
    hide Trim, Carried, Arrival, GoodText, GoodLabels1, TextLabels;
  }

  // ---- the theorem --------------------------------------------------------------------------------

  /** An attachment that the map does not have makes a difference. */
  lemma NewNameChanges(m: Payloads, op: Op, k: string)
    requires op.Write? && k in op.attachments && k !in m
    ensures k in Meaning(m, op) && Meaning(m, op) != m
  {}

  lemma {:induction false} CarriedWrite(log: Log, op: Op, decodes: bytes -> bool)
    requires CleanLog(log, decodes) && Plain(op) && Possible(log, op, decodes) && CarriedKeys(op.attachments)
    ensures LogMap(SeenAll(log + Appended(op.entry, op.attachments, op.now, op.order))) == Meaning(LogMap(log), op)
    ensures CleanLog(log + Appended(op.entry, op.attachments, op.now, op.order), decodes)
  {
    assert op.order[..|op.order|] == op.order;
    hide CleanLog, LogMap, Appended, SeenAll, Puts, CarriedKeys;
    CleanLogIsSeen(log, decodes);
    ReadCarried(log, op, |op.order|, decodes);
    PutsAll(LogMap(log), op.attachments, op.order);
    AppendedIsClean(log, op, decodes);
  }

  lemma {:induction false} UnreadIsMissing(log: Log, op: Op, decodes: bytes -> bool, u: string)
    requires CleanLog(log, decodes) && Plain(op) && Possible(log, op, decodes) && u !in LogMap(log)
    requires forall j :: j in op.attachments ==> ReadKey(j) != Some(u)
    ensures u !in LogMap(SeenAll(log + Appended(op.entry, op.attachments, op.now, op.order)))
  {
    assert op.order[..|op.order|] == op.order;
    hide CleanLog, LogMap, Appended, SeenAll, ReadKey;
    CleanLogIsSeen(log, decodes);
    ReadNames(log, op, |op.order|, decodes, u);
  }

  /** With a name that is not carried, some name of the write is not read. */
  lemma {:induction false} AlteredWrite(log: Log, op: Op, decodes: bytes -> bool)
    requires CleanLog(log, decodes) && Plain(op) && Possible(log, op, decodes) && !CarriedKeys(op.attachments)
    ensures LogMap(SeenAll(log + Appended(op.entry, op.attachments, op.now, op.order))) != Meaning(LogMap(log), op)
    ensures Meaning(LogMap(log), op) != LogMap(log)
  {
    CleanLogHasCarried(log, decodes);
    var k :| k in op.attachments && !CarriedKey(k);
    var u := UnreadName(op.attachments, k);
    assert u !in LogMap(log);
    hide CleanLog, LogMap, Appended, SeenAll, ReadKey, CarriedKey, CarriedKeys, Meaning, Possible, Plain;
    NewNameChanges(LogMap(log), op, u);
    UnreadIsMissing(log, op, decodes, u);
  }

  /** Without quotes in the names: overridden exactly if all names are carried. */
  lemma {:induction false} PlainWrite(log: Log, op: Op, rs: seq<Queried>, decodes: bytes -> bool)
    requires CleanLog(log, decodes) && op.Write? && Plain(op) && Possible(log, op, decodes)
    requires forall i :: 0 <= i < |op.order| ==> op.order[i] in op.attachments
    requires Answers(rs, log + Appended(op.entry, op.attachments, op.now, op.order), None)
    ensures ReadFrom(map[], rs, decodes) == Attached(Meaning(LogMap(log), op)) <==> CarriedKeys(op.attachments)
    ensures CarriedKeys(op.attachments) ==> CleanLog(log + Appended(op.entry, op.attachments, op.now, op.order), decodes)
    ensures !CarriedKeys(op.attachments) ==> Meaning(LogMap(log), op) != LogMap(log)
  {
    hide Appended, SeenAll, LogMap, Meaning, CleanLog, LegibleLog, Possible, Plain, CarriedKeys, Answers, ReadFrom;
    CleanLogIsSeen(log, decodes);
    AppendedIsLegible(log, op, decodes);
    ReadsLog(rs, log + Appended(op.entry, op.attachments, op.now, op.order), decodes);
    if CarriedKeys(op.attachments) {
      CarriedWrite(log, op, decodes);
    } else {
      AlteredWrite(log, op, decodes);
    }
  }

  /** A name with a quote is lost, whatever the server makes of the request. */
  lemma {:induction false} QuotedWrite(log: Log, op: Op, after: Log, rs: seq<Queried>, decodes: bytes -> bool, k: string)
    requires CleanLog(log, decodes) && op.Write? && k in op.attachments && '"' in k && Answers(rs, after, None)
    ensures ReadFrom(map[], rs, decodes) != Attached(Meaning(LogMap(log), op))
    ensures !CarriedKeys(op.attachments) && Meaning(LogMap(log), op) != LogMap(log)
  {
    CleanLogHasCarried(log, decodes);
    assert !CarriedKey(k);
    hide CarriedKey, Answers, ReadFrom, LogMap, CleanLog;
    AnswerHasNoQuotes(rs, after, None, decodes);
    NewNameChanges(LogMap(log), op, k);
  }

  /** What a write makes of the log that its entry names. */
  ghost predicate WrittenTo(after: Log, log: Log, op: Op)
    requires op.Write? && forall i :: 0 <= i < |op.order| ==> op.order[i] in op.attachments
  {
    && (op.attachments == map[] ==> after == log)
    && (op.attachments != map[] && Plain(op) ==> after == log + Appended(op.entry, op.attachments, op.now, op.order))
  }

  lemma {:induction false} StepWrites(logs: Logs, op: Op, after: Logs, decodes: bytes -> bool)
    requires IsBytes(op.entry) && op.entry != "" && op.Write? && Target(op.entry).Some?
    requires Ordered(TargetLog(logs, op.entry)) && Step(logs, op, after, decodes)
    ensures Possible(TargetLog(logs, op.entry), op, decodes)
    ensures forall i :: 0 <= i < |op.order| ==> op.order[i] in op.attachments
    ensures WrittenTo(TargetLog(after, op.entry), TargetLog(logs, op.entry), op)
  {
    assert Written(logs, op, after);
    OrderIsGiven(TargetLog(logs, op.entry), op, decodes);
    hide Ordered, IsBytes, Target, Possible, WrittenAs, Appended, Plain;
    if op.attachments == map[] {
    } else if Plain(op) {
      hide Step, Written, TargetLog;
      InsertedIsAppended(logs, op, after, decodes);
    }
  }

  /** The theorem for one log. */
  lemma {:induction false} WriteToLog(log: Log, op: Op, after: Log, rs: seq<Queried>, decodes: bytes -> bool)
    requires CleanLog(log, decodes) && op.Write? && Possible(log, op, decodes) && Answers(rs, after, None)
    requires (forall i :: 0 <= i < |op.order| ==> op.order[i] in op.attachments) && WrittenTo(after, log, op)
    ensures ReadFrom(map[], rs, decodes) == Attached(Meaning(LogMap(log), op))
            <==> CarriedKeys(op.attachments) || Meaning(LogMap(log), op) == LogMap(log)
    ensures CarriedKeys(op.attachments) ==> CleanLog(after, decodes)
  {
    hide Answers, ReadFrom, LogMap, CleanLog, CarriedKey, Possible, Appended;
    if op.attachments == map[] {
      assert Meaning(LogMap(log), op) == LogMap(log);
      ReadsCleanLog(rs, log, decodes);
    } else if k :| k in op.attachments && '"' in k {
      QuotedWrite(log, op, after, rs, decodes, k);
    } else {
      QuoteFreeIsPlain(log, op, decodes);
      PlainWrite(log, op, rs, decodes);
    }
  }

  lemma CleanIsOrdered(log: Log, decodes: bytes -> bool)
    requires CleanLog(log, decodes)
    ensures Ordered(log)
  {
    hide Ordered, CleanRecord;
  }

  lemma OrderIsGiven(log: Log, op: Op, decodes: bytes -> bool)
    requires op.Write? && Possible(log, op, decodes)
    ensures forall i :: 0 <= i < |op.order| ==> op.order[i] in op.attachments
  {
    hide Enumerates, IsAscii;
  }

  lemma QuoteFreeIsPlain(log: Log, op: Op, decodes: bytes -> bool)
    requires op.Write? && Possible(log, op, decodes) && forall k :: k in op.attachments ==> '"' !in k
    ensures Plain(op)
  {}

  /**
   * A write overrides and adds exactly the given attachments, in whatever order
   * they were written and the server met their headers, if and only if a query
   * can address the entry, and every name is non-empty, trimmed, free of quotes
   * and, if it has a comma, printable without backslashes, or nothing was to
   * change. Both readings go over the wire. No other log is touched.
   */
  lemma {:induction false} WriteOverridesIff(logs: Logs, op: Op, after: Logs, before: Result<seq<Queried>>,
                                             query: Result<seq<Queried>>, decodes: bytes -> bool)
    requires op.Write? && SingleEntry(op.entry) && CleanAt(logs, op.entry, decodes) && Step(logs, op, after, decodes)
    requires Asked(before, op.entry, logs, None) && Asked(query, op.entry, after, None)
    ensures Addressed(op.entry).Some? ==> ReadResult(op.entry, before, decodes) == Attached(MapOf(logs, op.entry))
    ensures var m := MapOf(logs, op.entry);
            ReadResult(op.entry, query, decodes) == Attached(Meaning(m, op))
            <==> Addressed(op.entry).Some? && (CarriedKeys(op.attachments) || Meaning(m, op) == m)
    ensures CarriedKeys(op.attachments) ==> CleanAt(after, op.entry, decodes)
    ensures forall name :: Target(op.entry) != Some(name) ==> LogOf(after, name) == LogOf(logs, name)
  {
    hide Answers, ReadFrom, LogMap, CleanLog, CarriedKeys, Meaning, Step, IsBytes, Unescape, LogOf, WrittenTo,
         Possible, Ordered;
    AskedIsRead(before, op.entry, logs, decodes);
    if Addressed(op.entry).Some? {
      AddressedIsTarget(op.entry);
      CleanIsOrdered(TargetLog(logs, op.entry), decodes);
      StepWrites(logs, op, after, decodes);
      WriteToLog(TargetLog(logs, op.entry), op, TargetLog(after, op.entry), query.value, decodes);
    }
    forall name | Target(op.entry) != Some(name) ensures LogOf(after, name) == LogOf(logs, name) {
      WriteKeepsOthers(logs, op, after, decodes, name);
    }
  }
}
