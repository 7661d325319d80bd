/** Removing attachments marks exactly the named ones, and over any sequence of operations the log refines a map. */
module AttachmentLog {
  import opened Text
  import opened Ordering
  import opened Decimal
  import opened HeaderList
  import opened Headers
  import opened LabelOps
  import opened LabelDelta
  import opened V2Encode
  import opened V2Decode
  import opened V2Order
  import opened V2Update
  import opened V2Meaning
  import opened V2Denotes
  import opened V1Rows
  import opened RecordBatches
  import opened Attachments
  import opened AttachmentServer
  import opened AttachmentWrites

  // ---- the marks of a removal ---------------------------------------------------------------------

  /** The operation is about this record. */
  predicate Concerns(r: MetaRecord, keys: seq<string>) {
    KEY in r.labels && (keys == [] || r.labels[KEY] in keys)
  }

  function MarkedRecord(r: MetaRecord, keys: seq<string>): MetaRecord {
    if Concerns(r, keys) then r.(labels := r.labels[REMOVE := "true"]) else r
  }

  function MarkedAll(log: Log, keys: seq<string>): (after: Log)
    ensures |after| == |log|
    ensures forall i :: 0 <= i < |log| ==> after[i] == MarkedRecord(log[i], keys)
  {
    seq(|log|, i requires 0 <= i < |log| => MarkedRecord(log[i], keys))
  }

  /** The query for a removal finds exactly the records it is about, and others without a name. */
  lemma MatchesConcerns(r: MetaRecord, keys: seq<string>)
    ensures KEY in r.labels && Matches(r, Operands(keys)) <==> Concerns(r, keys)
  {
    hide Literal, EscapeKey;
    if keys != [] && KEY in r.labels {
      var operands := Operands(keys).value;
      forall i | 0 <= i < |keys| ensures Literal(operands[i]) == keys[i] { LiteralOfEscape(keys[i]); }
      if r.labels[KEY] in keys {
        var i :| 0 <= i < |keys| && keys[i] == r.labels[KEY];
        assert Literal(operands[i]) == r.labels[KEY];
      }
    }
  }

  /** One update for every record that has a key. */
  function KeyCalls(entry: string, found: Log): seq<Call> {
    if found == [] then []
    else
      KeyCalls(entry, found[..|found| - 1])
      + if KEY in found[|found| - 1].labels then [RemoveCall(entry, found[|found| - 1].ts)] else []
  }

  lemma {:induction false} KeyCallsSnoc(entry: string, found: Log, r: MetaRecord)
    ensures KeyCalls(entry, found + [r])
            == KeyCalls(entry, found) + if KEY in r.labels then [RemoveCall(entry, r.ts)] else []
  {
    assert (found + [r])[..|found|] == found;
  }

  ghost predicate AllClean(log: Log, decodes: bytes -> bool) {
    forall i :: 0 <= i < |log| ==> CleanRecord(log[i], decodes)
  }

  /** The updates for the first `i` found records, and those still to come for the other ones delivered. */
  lemma {:induction false} CallsFromQuery(entry: string, rs: seq<Queried>, found: Log, n: nat, decodes: bytes -> bool, i: nat)
    requires i <= n <= |found| && AllClean(found, decodes) && Delivered(rs, found, n)
    ensures KeyCalls(entry, found[..i]) + RemoveCalls(entry, rs[i..]) == KeyCalls(entry, found[..n])
    decreases n - i
  {
    hide Shows, CleanRecord, RemoveCalls, RemoveCall, KeyCalls;
    if i == n {
      assert rs[i..] == [];
      NoCallsYet(entry);
      assert KeyCalls(entry, found[..i]) + [] == KeyCalls(entry, found[..i]);
    } else {
      ShownKey(rs[i], found[i], decodes);
      RemoveCallsAt(entry, rs, i);
      KeyCallsSnoc(entry, found[..i], found[i]);
      assert found[..i + 1] == found[..i] + [found[i]];
      var one := if KEY in found[i].labels then [RemoveCall(entry, found[i].ts)] else [];
      CallsFromQuery(entry, rs, found, n, decodes, i + 1);
      if rs[i].last {
        assert n == i + 1 && one + [] == one;
      } else {
        assert KeyCalls(entry, found[..i]) + (one + RemoveCalls(entry, rs[i + 1..]))
               == KeyCalls(entry, found[..i]) + one + RemoveCalls(entry, rs[i + 1..]);
      }
    }
  }

  /** What has been delivered of an answer is marked, record by record. */
  lemma {:induction false} CallsAreDelivered(entry: string, rs: seq<Queried>, found: Log, n: nat, decodes: bytes -> bool)
    requires n <= |found| && AllClean(found, decodes) && Delivered(rs, found, n)
    ensures RemoveCalls(entry, rs) == KeyCalls(entry, found[..n])
  {
    hide AllClean, Delivered, RemoveCalls, KeyCalls;
    NoCallsYet(entry);
    CallsFromQuery(entry, rs, found, n, decodes, 0);
    assert found[..0] == [] && rs[0..] == rs && [] + RemoveCalls(entry, rs) == RemoveCalls(entry, rs);
  }

  lemma ShownKey(q: Queried, r: MetaRecord, decodes: bytes -> bool)
    requires CleanRecord(r, decodes) && Shows(q, r)
    ensures q.ts == r.ts && (KEY in q.labels <==> KEY in r.labels)
  {
    hide Shows, CleanRecord, LegibleRecord;
    CleanIsSeen(r, decodes);
    ShownLabels(q, r, decodes);
  }

  lemma {:induction false} FilterIsClean(log: Log, operands: Option<seq<string>>, decodes: bytes -> bool)
    requires forall i :: 0 <= i < |log| ==> CleanRecord(log[i], decodes)
    ensures forall i :: 0 <= i < |Filter(log, operands)| ==> CleanRecord(Filter(log, operands)[i], decodes)
  {
    hide CleanRecord, Matches;
    if log != [] {
      FilterIsClean(log[..|log| - 1], operands, decodes);
    }
  }

  /** RemoveAttachments makes one update for every record that has a key among the found ones. */
  lemma {:induction false} CallsAreKeyCalls(entry: string, log: Log, keys: seq<string>, rs: seq<Queried>,
                                            decodes: bytes -> bool)
    requires CleanLog(log, decodes) && Answers(rs, log, Operands(keys))
    ensures RemoveCalls(entry, rs) == KeyCalls(entry, Filter(log, Operands(keys)))
  {
    hide Delivered, CleanRecord, RemoveCalls, KeyCalls, Filter, Operands, Ordered;
    var found := Filter(log, Operands(keys));
    FilterIsClean(log, Operands(keys), decodes);
    CallsAreDelivered(entry, rs, found, |found|, decodes);
    assert found[..|found|] == found;
  }

  lemma {:induction false} NoCallsYet(entry: string)
    ensures KeyCalls(entry, []) == [] && RemoveCalls(entry, []) == [] && Run([]) == State(map[], 0)
  {}

  // ---- the update batch ---------------------------------------------------------------------------

  /** Record `i` has this timestamp and is one the operation is about. */
  ghost predicate Hit(log: Log, keys: seq<string>, ts: int, i: nat) {
    i < |log| && log[i].ts == ts && Concerns(log[i], keys)
  }

  lemma HitSnoc(log: Log, r: MetaRecord, keys: seq<string>, ts: int)
    ensures (exists i :: Hit(log + [r], keys, ts, i))
            <==> (exists i :: Hit(log, keys, ts, i)) || (r.ts == ts && Concerns(r, keys))
  {
    hide Concerns;
    if i: nat :| Hit(log, keys, ts, i) { assert Hit(log + [r], keys, ts, i); }
    if r.ts == ts && Concerns(r, keys) { assert Hit(log + [r], keys, ts, |log|); }
    if i: nat :| Hit(log + [r], keys, ts, i) && i < |log| { assert Hit(log, keys, ts, i); }
  }

  /** The record that RemoveAttachments adds to the update batch. */
  function MarkRec(entry: string, ts: int): Rec {
    Rec(MetaEntry(entry), ts, [], OCTET_STREAM, map[REMOVE := Printed("true")])
  }

  lemma RemovalStores(entry: string, ts: int)
    ensures var call := RemoveCall(entry, ts);
            !call.Clear? && Recorded(call) == Some(MarkRec(entry, ts)) && KeyOf(MarkRec(entry, ts)) == Key(MetaEntry(entry), ts)
  {
    assert |MetaEntry(entry)| >= |"/$meta"|;
  }

  /** One more record in the log adds its removal exactly if the operation is about it. */
  lemma {:induction false} FilterMore(entry: string, init: Log, r: MetaRecord, keys: seq<string>)
    ensures KeyCalls(entry, Filter(init + [r], Operands(keys)))
            == KeyCalls(entry, Filter(init, Operands(keys))) + if Concerns(r, keys) then [RemoveCall(entry, r.ts)] else []
  {
    hide Matches, Operands, Concerns, RemoveCall;
    assert (init + [r])[..|init|] == init;
    MatchesConcerns(r, keys);
    var found := Filter(init, Operands(keys));
    KeyCallsSnoc(entry, found, r);
    ConcernedHasKey(r, keys);
    assert found + [] == found && KeyCalls(entry, found) + [] == KeyCalls(entry, found);
  }

  lemma ConcernedHasKey(r: MetaRecord, keys: seq<string>)
    ensures Concerns(r, keys) ==> KEY in r.labels
  {}

  /** The update batch marks exactly the timestamps of the records that the operation is about. */
  lemma {:induction false} BatchMarks(entry: string, log: Log, keys: seq<string>, k: Key)
    ensures var stored := Run(KeyCalls(entry, Filter(log, Operands(keys)))).records;
            && (k in stored <==> k.entry == MetaEntry(entry) && exists i :: Hit(log, keys, k.ts, i))
            && (k in stored ==> stored[k] == MarkRec(entry, k.ts))
  {
    if log == [] {
      NoCallsYet(entry);
    } else {
      hide *;
      var init, r := log[..|log| - 1], log[|log| - 1];
      assert log == init + [r];
      BatchMarks(entry, init, keys, k);
      var calls := KeyCalls(entry, Filter(init, Operands(keys)));
      FilterMore(entry, init, r, keys);
      HitSnoc(init, r, keys, k.ts);
      if Concerns(r, keys) {
        OneMoreMark(entry, calls, r.ts, k);
      } else {
        assert calls + [] == calls;
      }
    }
  }

  lemma {:induction false} OneMoreMark(entry: string, calls: seq<Call>, ts: int, k: Key)
    ensures var before, after := Run(calls).records, Run(calls + [RemoveCall(entry, ts)]).records;
            && (k in after <==> k in before || k == Key(MetaEntry(entry), ts))
            && (k in after ==> after[k] == if k == Key(MetaEntry(entry), ts) then MarkRec(entry, ts) else before[k])
  {
    hide Run, RemoveCall, Recorded, MarkRec;
    RunSnoc(calls, RemoveCall(entry, ts));
    RemovalStores(entry, ts);
  }

  /** The batch is sent as marks of records that the operation is about, one for each of them. */
  lemma {:induction false} SentAreMarks(entry: string, log: Log, keys: seq<string>, records: seq<Rec>, r: Rec)
    requires Lists(records, Run(KeyCalls(entry, Filter(log, Operands(keys)))).records)
    ensures r in records <==> r == MarkRec(entry, r.timestamp) && exists i :: Hit(log, keys, r.timestamp, i)
  {
    hide Run, KeyCalls, Filter, Operands, Hit;
    BatchMarks(entry, log, keys, KeyOf(r));
    RemovalStores(entry, r.timestamp);
  }

  // ---- numbers and names of the update request ----------------------------------------------------

  lemma {:induction false} TimestampsGrow(log: Log, i: nat, decodes: bytes -> bool)
    requires CleanLog(log, decodes) && i < |log|
    ensures i <= log[i].ts
  {
    hide GoodLabels1, CarriedKey;
    assert CleanRecord(log[i], decodes);
    if i > 0 {
      TimestampsGrow(log, i - 1, decodes);
      assert Precedes(log[i - 1], log[i]);
    }
  }

  lemma LogFits(log: Log, decodes: bytes -> bool)
    requires CleanLog(log, decodes)
    ensures |log| <= MAX_INT64
    ensures forall i :: 0 <= i < |log| ==> 0 <= log[i].ts < MAX_INT64
  {
    if log != [] { TimestampsGrow(log, |log| - 1, decodes); }
    hide GoodLabels1, CarriedKey;
    forall i | 0 <= i < |log| ensures 0 <= log[i].ts < MAX_INT64 { assert CleanRecord(log[i], decodes); }
  }

  /** Every sent record is a mark with a timestamp of the log. */
  ghost predicate MarksOf(entry: string, records: seq<Rec>, bound: int) {
    forall i :: 0 <= i < |records| ==>
      records[i] == MarkRec(entry, records[i].timestamp) && 0 <= records[i].timestamp < bound
  }

  lemma {:induction false} SentMarks(entry: string, log: Log, keys: seq<string>, records: seq<Rec>, decodes: bytes -> bool)
    requires CleanLog(log, decodes) && Lists(records, Run(KeyCalls(entry, Filter(log, Operands(keys)))).records)
    ensures MarksOf(entry, records, MAX_INT64) && |records| <= |log| <= MAX_INT64
  {
    LogFits(log, decodes);
    hide Run, KeyCalls, Filter, Operands, CleanLog, Concerns, MarkRec;
    var marks := seq(|log|, i requires 0 <= i < |log| => MarkRec(entry, log[i].ts));
    forall r | r in records ensures r in marks && r == MarkRec(entry, r.timestamp) && 0 <= r.timestamp < MAX_INT64 {
      SentAreMarks(entry, log, keys, records, r);
      var i: nat :| Hit(log, keys, r.timestamp, i);
      assert marks[i] == r;
    }
    forall i | 0 <= i < |records| ensures records[i] in records {}
    NoMoreThan(records, marks);
  }

  lemma TrueIsGood()
    ensures GoodValue("true") && IsAscii("true") && Trim("true") == "true" && Norm("true") == Some("true")
    ensures GoodText("true") && EqualFold("true", "true")
  {
    TrimFixed("true");
  }

  lemma MarkIsGood(entry: string, ts: int)
    requires IsBytes(entry)
    ensures var r := MarkRec(entry, ts);
            && r.entry != "" && IsBytes(r.entry) && r.labels.Keys == {REMOVE}
            && SafeLabels(V2Update.Given(r.labels)) && forall k :: k in r.labels ==> k != "" && '%' !in k && IsBytes(k)
  {
    MetaEntryChars(entry);
    TrueIsGood();
    GoodIsSafeAndUnchanged("true");
    hide MetaEntry, SafeValue, GoodValue, IsAscii;
  }

  /** Marks make a good update request. */
  lemma {:induction false} MarksAreGood(entry: string, items: seq<Rec>)
    requires IsBytes(entry) && items != [] && |items| <= MAX_INT64 && UpdateInModel(items)
    requires MarksOf(entry, items, MAX_INT64)
    ensures SafeUpdates(items) && SpanFits(items)
  {
    hide SafeLabels, V2Update.Given, UpdateInModel, IsBytes, MarkRec, LabelNames;
    forall i | 0 <= i < |items|
      ensures items[i].labels.Keys == {REMOVE} && items[i].entry != ""
              && SafeLabels(V2Update.Given(items[i].labels)) && forall k :: k in items[i].labels ==> k != "" && '%' !in k {
      MarkIsGood(entry, items[i].timestamp);
    }
    LabelNamesAre(items, REMOVE);
    OneName(REMOVE);
  }

  lemma {:induction false} SortedMarks(entry: string, records: seq<Rec>)
    requires UpdateInModel(records) && records != [] && MarksOf(entry, records, MAX_INT64)
    ensures var items := Sort(records, RecLess);
            && items != [] && |items| == |records| && UpdateInModel(items) && MarksOf(entry, items, MAX_INT64)
            && forall r :: r in items <==> r in records
  {
    SortKeepsUpdate(records);
    SortMembers(records, RecLess);
    hide Sort, AsciiUpdates, DistinctRecs, NamesAreBytes, MarkRec;
    var items := Sort(records, RecLess);
    forall i | 0 <= i < |items| ensures items[i] == MarkRec(entry, items[i].timestamp) && 0 <= items[i].timestamp < MAX_INT64 {
      assert items[i] in items && items[i] in records;
    }
  }

  // ---- what the update does -----------------------------------------------------------------------

  /** An update request for one entry is read with its start time and its entry, decoded, if that can be read. */
  lemma {:induction false} ReadsOwnLists(items: seq<Rec>, e: string)
    requires items != [] && UpdateInModel(items) && e != "" && forall i :: 0 <= i < |items| ==> items[i].entry == e
    ensures var h := EncodeUpdate(items).headers;
            && NamesExactly(h, items) && (Unescape(e).Some? <==> Decodable(Entries(items)))
            && ParseList(Get(h, ENTRIES))
               == if Unescape(e).Some? then Ok(DecodedAll(Entries(items))) else Err("invalid URL escape")
    ensures InMachine(items) ==> ParseInt(Get(EncodeUpdate(items).headers, START_TS)) == Some(MinTimestamp(items))
    ensures forall k :: 0 <= k < |Entries(items)| ==> Entries(items)[k] == e
  {
    hide EncodeUpdate, NamesExactly, ParseList, ParseInt, EncodeList, Entries, MinTimestamp, Get, DistinctRecs,
         NamesAreBytes, AsciiUpdates, EncodeItems, EncodeRemove, Unescape, InMachine;
    BuildersNameExactly(items);
    OneEntryArrives(items, e);
    if InMachine(items) { StartReads(EncodeUpdate(items).headers, items); }
  }

  /** With one entry, the decoded list denotes what the list denotes, under the decoded name. */
  lemma {:induction false} DenotesDecoded(key: string, es: seq<string>, startTS: int, e: string, name: string, ts: int)
    requires (forall k :: 0 <= k < |es| ==> es[k] == e) && Unescape(e).Some? && Decodable(es)
    ensures KeyDenotes(key, DecodedAll(es), startTS, (name, ts))
            <==> KeyDenotes(key, es, startTS, (e, ts)) && Unescape(e) == Some(name)
  {
    hide Unescape, ParseRecordName;
  }

  /** A header of the request can only denote records of the name that the entry is read as. */
  lemma {:induction false} DenotedIsTarget(items: seq<Rec>, e: string, name: string, ts: int, key: string)
    requires items != [] && UpdateInModel(items) && e != "" && forall i :: 0 <= i < |items| ==> items[i].entry == e
    requires HeaderDenotes(EncodeUpdate(items).headers, key, name, ts)
    ensures Unescape(e) == Some(name)
  {
    hide EncodeUpdate, ParseList, ParseInt, Entries, MinTimestamp, Get, ParseRecordName, Unescape, NamesExactly, UpdateInModel;
    ReadsOwnLists(items, e);
  }

  /** Which of them it denotes can be told by the request's own entry list. */
  lemma {:induction false} DenotedIff(items: seq<Rec>, e: string, name: string, ts: int, key: string)
    requires items != [] && UpdateInModel(items) && InMachine(items)
    requires e != "" && forall i :: 0 <= i < |items| ==> items[i].entry == e
    ensures HeaderDenotes(EncodeUpdate(items).headers, key, name, ts)
            <==> key in EncodeUpdate(items).headers && KeyDenotes(key, Entries(items), MinTimestamp(items), (e, ts))
                 && Unescape(e) == Some(name)
  {
    hide EncodeUpdate, ParseList, ParseInt, Entries, MinTimestamp, Get, KeyDenotes, Unescape, NamesExactly, UpdateInModel,
         InMachine, Decodable;
    ReadsOwnLists(items, e);
    if Unescape(e).Some? { DenotesDecoded(key, Entries(items), MinTimestamp(items), e, name, ts); }
  }

  lemma MarkOverlay(labels: Labels, entry: string, ts: int)
    ensures ArrivedOverlay(labels, MarkRec(entry, ts).labels) == labels[REMOVE := "true"]
  {
    TrueIsGood();
    GoodIsSafeAndUnchanged("true");
    hide Trim, Carried, SafeValue, GoodValue;
    assert ArrivedGiven(Printed("true")) == Some("true");
  }

  lemma MarksAreOf(entry: string, items: seq<Rec>)
    requires MarksOf(entry, items, MAX_INT64)
    ensures forall i :: 0 <= i < |items| ==> items[i].entry == MetaEntry(entry) && MetaEntry(entry) != ""
  {
    MetaEntryChars(entry);
    hide MetaEntry;
  }

  /** A header that denotes a record of the log is that of one of the marks. */
  lemma {:induction false} DenotingHeaderIsMark(entry: string, items: seq<Rec>, name: string, ts: int, key: string)
    returns (p: nat)
    requires SafeUpdates(items) && MarksOf(entry, items, MAX_INT64)
    requires HeaderDenotes(EncodeUpdate(items).headers, key, name, ts)
    ensures p < |items| && RecordNames(items)[p] == key && items[p] == MarkRec(entry, ts) && Target(entry) == Some(name)
  {
    GoodIsInMachine(items);
    MetaEntryChars(entry);
    var e, h := MetaEntry(entry), EncodeUpdate(items).headers;
    hide *;
    MarksAreOf(entry, items);
    UpdateNames(items);
    DenotedIff(items, e, name, ts, key);
    TargetIs(entry);
    DenotingIsName(h, items, key, (e, ts));
    p :| 0 <= p < |items| && RecordNames(items)[p] == key;
    NameOfMark(entry, items, p, ts);
  }

  lemma TargetIs(entry: string)
    ensures Target(entry) == Unescape(MetaEntry(entry))
  {
    hide Unescape, MetaEntry;
  }

  lemma {:induction false} NameOfMark(entry: string, items: seq<Rec>, p: nat, ts: int)
    requires p < |items| && InMachine(items) && MarksOf(entry, items, MAX_INT64)
    requires KeyDenotes(RecordNames(items)[p], Entries(items), MinTimestamp(items), (MetaEntry(entry), ts))
    ensures items[p] == MarkRec(entry, ts)
  {
    hide KeyDenotes, RecordNames, Entries, MinTimestamp, InMachine, MarkRec, DeltaFrom;
    KeyDenotesRecord(items, p, (MetaEntry(entry), ts));
    assert items[p] == MarkRec(entry, items[p].timestamp);
  }

  lemma UpdateNames(items: seq<Rec>)
    requires items != [] && UpdateInModel(items)
    ensures NamesExactly(EncodeUpdate(items).headers, items)
  {
    hide NamesExactly, EncodeUpdate, EncodeRemove, EncodeItems;
    BuildersNameExactly(items);
  }

  lemma {:induction false} DenotingIsName(h: Header, items: seq<Rec>, key: string, k: (string, int))
    requires items != [] && NamesExactly(h, items) && key in h
    requires KeyDenotes(key, Entries(items), MinTimestamp(items), k)
    ensures key in RecordNames(items)
  {
    hide ParseRecordName, RecordNames, Entries, MinTimestamp;
    FixedNamesAreNotRecords();
  }

  /** Reading it overlays the removal label. */
  lemma {:induction false} DenotingHeaderMarks(entry: string, items: seq<Rec>, name: string, r: MetaRecord, key: string)
    requires SafeUpdates(items) && MarksOf(entry, items, MAX_INT64)
    requires HeaderDenotes(EncodeUpdate(items).headers, key, name, r.ts)
    ensures MarkRec(entry, r.ts) in items
    ensures UpdatedLabels(EncodeUpdate(items).headers, key, r) == r.labels[REMOVE := "true"]
  {
    hide *;
    var p := DenotingHeaderIsMark(entry, items, name, r.ts, key);
    HeaderOverlays(items, p, r);
    MarkOverlay(r.labels, entry, r.ts);
  }

  lemma {:induction false} HeaderOverlays(items: seq<Rec>, p: nat, r: MetaRecord)
    requires SafeUpdates(items) && p < |items|
    ensures UpdatedLabels(EncodeUpdate(items).headers, RecordNames(items)[p], r) == ArrivedOverlay(r.labels, items[p].labels)
  {
    JsonIsGood();
    hide EncodeUpdate, HeaderOf, ParseLabelTable, ArrivedOverlay, RecordNames, Get, UpdateTable, SafeUpdates;
    UpdateArrives(items, p, ParsedHeader(|r.data|, JSON, r.labels));
  }

  lemma GoodIsInMachine(items: seq<Rec>)
    requires SafeUpdates(items)
    ensures items != [] && InMachine(items) && UpdateInModel(items)
  {}

  lemma {:induction false} MarkIsDenoted(entry: string, items: seq<Rec>, name: string, ts: int)
    requires SafeUpdates(items) && SpanFits(items) && MarksOf(entry, items, MAX_INT64)
    requires MarkRec(entry, ts) in items && Target(entry) == Some(name)
    ensures exists key :: HeaderDenotes(EncodeUpdate(items).headers, key, name, ts)
  {
    GoodIsInMachine(items);
    MarksAreOf(entry, items);
    UpdateNames(items);
    var e, h := MetaEntry(entry), EncodeUpdate(items).headers;
    hide EncodeUpdate, HeaderDenotes, Entries, MinTimestamp, SafeUpdates, NamesExactly, SpanFits, InMachine, KeyDenotes,
         ParseRecordName, MetaEntry, Unescape, UpdateInModel, MarksOf, KeysUnder;
    var p: nat :| p < |items| && items[p] == MarkRec(entry, ts);
    RecordIsUnder(h, items, p);
    var key := UnderMeansDenoted(h, Entries(items), MinTimestamp(items), (e, ts));
    DenotedIff(items, e, name, ts, key);
  }

  lemma UnderMeansDenoted(h: Header, entries: seq<string>, startTS: int, k: (string, int)) returns (key: string)
    requires k in KeysUnder(h, entries, startTS)
    ensures key in h && KeyDenotes(key, entries, startTS, k)
  {
    hide ParseRecordName;
    key :| key in h && KeyDenotes(key, entries, startTS, k);
  }

  /** Exactly the marked records get the removal label. */
  lemma {:induction false} UpdateMarks(entry: string, items: seq<Rec>, name: string, after: MetaRecord, r: MetaRecord)
    requires SafeUpdates(items) && SpanFits(items) && MarksOf(entry, items, MAX_INT64) && Target(entry) == Some(name)
    requires UpdatedRecord(after, r, name, EncodeUpdate(items).headers)
    ensures after == if MarkRec(entry, r.ts) in items then r.(labels := r.labels[REMOVE := "true"]) else r
  {
    var h := EncodeUpdate(items).headers;
    hide EncodeUpdate, HeaderDenotes, UpdatedLabels, SafeUpdates, SpanFits, MarksOf, MarkRec, Target;
    if key :| HeaderDenotes(h, key, name, r.ts) {
      var used :| HeaderDenotes(h, used, name, r.ts) && after == r.(labels := UpdatedLabels(h, used, r));
      DenotingHeaderMarks(entry, items, name, r, used);
    } else if MarkRec(entry, r.ts) in items {
      MarkIsDenoted(entry, items, name, r.ts);
    }
  }

  lemma SameTimestamp(log: Log, i: nat, j: nat)
    requires Ordered(log) && i < |log| && j < |log| && log[i].ts == log[j].ts
    ensures i == j
  {
    assert i < j ==> Precedes(log[i], log[j]);
    assert j < i ==> Precedes(log[j], log[i]);
  }

  lemma {:induction false} MarkedIffConcerned(entry: string, log: Log, keys: seq<string>, records: seq<Rec>, i: nat)
    requires Ordered(log) && i < |log|
    requires Lists(records, Run(KeyCalls(entry, Filter(log, Operands(keys)))).records)
    ensures MarkRec(entry, log[i].ts) in records <==> Concerns(log[i], keys)
  {
    hide Run, KeyCalls, Filter, Operands, Concerns, Lists;
    SentAreMarks(entry, log, keys, records, MarkRec(entry, log[i].ts));
    if Concerns(log[i], keys) { assert Hit(log, keys, log[i].ts, i); }
    if j: nat :| Hit(log, keys, log[i].ts, j) { SameTimestamp(log, i, j); }
  }

  lemma {:induction false} NoCallNoConcern(entry: string, log: Log, keys: seq<string>, i: nat)
    requires KeyCalls(entry, Filter(log, Operands(keys))) == [] && i < |log|
    ensures !Concerns(log[i], keys)
  {
    hide KeyCalls, Filter, Operands, Concerns;
    BatchMarks(entry, log, keys, Key(MetaEntry(entry), log[i].ts));
    NoCallsYet(entry);
    assert !Hit(log, keys, log[i].ts, i);
  }

  /** The request marks exactly the records it is about. */
  lemma {:induction false} RequestMarks(logs: Logs, entry: string, name: string, keys: seq<string>, after: Logs,
                                        records: seq<Rec>, decodes: bytes -> bool)
    requires IsBytes(entry) && Target(entry) == Some(name) && CleanLog(LogOf(logs, name), decodes)
    requires MarkedAs(logs, KeyCalls(entry, Filter(LogOf(logs, name), Operands(keys))), after, records)
    ensures LogOf(after, name) == MarkedAll(LogOf(logs, name), keys)
  {
    hide Filter, Operands, CleanLog, Lists, DistinctRecs, NamesAreBytes, AsciiUpdates, EncodeUpdate, Sort, UpdatedLog,
         MarksOf, Run, KeyCalls, LogOf, Target;
    SortKeepsUpdate(records);
    SentMarks(entry, LogOf(logs, name), keys, records, decodes);
    SortedMarks(entry, records);
    MarksLog(entry, name, LogOf(logs, name), LogOf(after, name), keys, records, decodes);
  }

  lemma {:induction false} MarksLog(entry: string, name: string, log: Log, after: Log, keys: seq<string>,
                                    records: seq<Rec>, decodes: bytes -> bool)
    requires IsBytes(entry) && Target(entry) == Some(name) && CleanLog(log, decodes)
    requires Lists(records, Run(KeyCalls(entry, Filter(log, Operands(keys)))).records) && |records| <= MAX_INT64
    requires var items := Sort(records, RecLess);
             && items != [] && |items| == |records| && UpdateInModel(items) && MarksOf(entry, items, MAX_INT64)
             && (forall r :: r in items <==> r in records) && UpdatedLog(after, log, name, EncodeUpdate(items).headers)
    ensures after == MarkedAll(log, keys)
  {
    hide Filter, Operands, CleanLog, Concerns, Lists, UpdateInModel, EncodeUpdate, Sort, UpdatedRecord, SafeUpdates,
         SpanFits, MarksOf, MarkRec, Run, KeyCalls, MarkedRecord, Target, IsBytes, Ordered;
    CleanIsOrdered(log, decodes);
    var items := Sort(records, RecLess);
    MarksAreGood(entry, items);
    forall i: nat | i < |log| ensures after[i] == MarkedRecord(log[i], keys) {
      UpdateMarks(entry, items, name, after[i], log[i]);
      MarkedIffConcerned(entry, log, keys, records, i);
      MarkedRecordIs(log[i], keys);
    }
  }

  lemma MarkedRecordIs(r: MetaRecord, keys: seq<string>)
    ensures MarkedRecord(r, keys) == if Concerns(r, keys) then r.(labels := r.labels[REMOVE := "true"]) else r
  {}

  /** What a removal sends: the answer of its query decides it. */
  lemma {:induction false} RemovalQueries(logs: Logs, op: Op, after: Logs, decodes: bytes -> bool) returns (rs: seq<Queried>)
    requires op.Remove? && Step(logs, op, after, decodes) && Addressed(op.entry).Some?
    ensures Answers(rs, LogOf(logs, Addressed(op.entry).value), Operands(op.keys))
    ensures Marked(logs, RemoveCalls(op.entry, rs), after)
  {
    assert Removed(logs, op, after);
    hide Step, Answers, RemoveCalls, Operands, Marked, Addressed, LogOf;
    var query :| Asked(query, op.entry, logs, Operands(op.keys))
                 && if query.Err? then SameLogs(after, logs) else Marked(logs, RemoveCalls(op.entry, query.value), after);
    rs := query.value;
  }

  /** A removal marks exactly the records it is about, in the log that its query reads. */
  lemma {:induction false} RemovalIsMarking(logs: Logs, op: Op, after: Logs, decodes: bytes -> bool, name: string)
    requires op.Remove? && IsBytes(op.entry) && Addressed(op.entry) == Some(name) && CleanLog(LogOf(logs, name), decodes)
    requires Step(logs, op, after, decodes)
    ensures LogOf(after, name) == MarkedAll(LogOf(logs, name), op.keys)
  {
    AddressedIsTarget(op.entry);
    var rs := RemovalQueries(logs, op, after, decodes);
    hide Step, Answers, RemoveCalls, Filter, Operands, CleanLog, Concerns, MarkedAs, KeyCalls, LogOf, Addressed, Target,
         IsBytes;
    CallsAreKeyCalls(op.entry, LogOf(logs, name), op.keys, rs, decodes);
    if RemoveCalls(op.entry, rs) == [] {
      forall i: nat | i < |LogOf(logs, name)| ensures !Concerns(LogOf(logs, name)[i], op.keys) {
        NoCallNoConcern(op.entry, LogOf(logs, name), op.keys, i);
      }
      assert MarkedAll(LogOf(logs, name), op.keys) == LogOf(logs, name);
    } else {
      var records: seq<Rec> :| MarkedAs(logs, RemoveCalls(op.entry, rs), after, records);
      RequestMarks(logs, op.entry, name, op.keys, after, records, decodes);
    }
  }

  // ---- the other logs -----------------------------------------------------------------------------

  lemma {:induction false} MarkedForEntry(entry: string, calls: seq<Call>, k: Key)
    requires CallsFor(entry, calls) && k in Run(calls).records
    ensures Run(calls).records[k].entry == MetaEntry(entry)
  {
    hide MetaEntry;
    assert forall i :: 0 <= i < |calls| - 1 ==> calls[..|calls| - 1][i] == calls[i];
    if calls != [] && k in Run(calls[..|calls| - 1]).records {
      MarkedForEntry(entry, calls[..|calls| - 1], k);
    }
  }

  lemma {:induction false} RemoveCallsAreFor(entry: string, rs: seq<Queried>)
    ensures CallsFor(entry, RemoveCalls(entry, rs))
  {
    if rs != [] { RemoveCallsAreFor(entry, rs[1..]); }
  }

  lemma {:induction false} NothingDenoted(entry: string, items: seq<Rec>, name: string, key: string, ts: int)
    requires items != [] && UpdateInModel(items) && Target(entry) != Some(name)
    requires forall i :: 0 <= i < |items| ==> items[i].entry == MetaEntry(entry)
    ensures !HeaderDenotes(EncodeUpdate(items).headers, key, name, ts)
  {
    MetaEntryChars(entry);
    hide EncodeUpdate, HeaderDenotes, MetaEntry, Unescape, UpdateInModel;
    if HeaderDenotes(EncodeUpdate(items).headers, key, name, ts) {
      DenotedIsTarget(items, MetaEntry(entry), name, ts, key);
    }
  }

  lemma {:induction false} NoneDenoted(entry: string, items: seq<Rec>, name: string, log: Log, after: Log)
    requires items != [] && UpdateInModel(items) && Target(entry) != Some(name)
    requires forall i :: 0 <= i < |items| ==> items[i].entry == MetaEntry(entry)
    requires UpdatedLog(after, log, name, EncodeUpdate(items).headers)
    ensures after == log
  {
    hide EncodeUpdate, HeaderDenotes, MetaEntry, Target, UpdateInModel;
    forall i: nat | i < |log| ensures after[i] == log[i] {
      forall key ensures !HeaderDenotes(EncodeUpdate(items).headers, key, name, log[i].ts) {
        NothingDenoted(entry, items, name, key, log[i].ts);
      }
    }
  }

  lemma {:induction false} RequestKeepsOthers(logs: Logs, entry: string, rs: seq<Queried>, after: Logs, records: seq<Rec>,
                                              name: string)
    requires MarkedAs(logs, RemoveCalls(entry, rs), after, records) && Target(entry) != Some(name)
    ensures LogOf(after, name) == LogOf(logs, name)
  {
    hide RemoveCalls, Lists, DistinctRecs, NamesAreBytes, AsciiUpdates, EncodeUpdate, Sort, Run, MetaEntry, LogOf,
         Target, CallsFor, UpdatedLog;
    var items := Sort(records, RecLess);
    SortKeepsUpdate(records);
    SortMembers(records, RecLess);
    RemoveCallsAreFor(entry, rs);
    forall i | 0 <= i < |items| ensures items[i].entry == MetaEntry(entry) {
      assert items[i] in items && items[i] in records;
      SentIsFor(entry, RemoveCalls(entry, rs), records, items[i]);
    }
    NoneDenoted(entry, items, name, LogOf(logs, name), LogOf(after, name));
  }

  ghost predicate CallsFor(entry: string, calls: seq<Call>) {
    forall i :: 0 <= i < |calls| ==> calls[i].AddOnlyLabels? && calls[i].entry == MetaEntry(entry)
  }

  lemma {:induction false} SentIsFor(entry: string, calls: seq<Call>, records: seq<Rec>, r: Rec)
    requires CallsFor(entry, calls) && Lists(records, Run(calls).records) && r in records
    ensures r.entry == MetaEntry(entry)
  {
    hide Run, MetaEntry, CallsFor;
    MarkedForEntry(entry, calls, KeyOf(r));
  }

  /** A removal leaves every log but the one that its query reads as it was. */
  lemma {:induction false} RemovalKeepsOthers(logs: Logs, op: Op, after: Logs, decodes: bytes -> bool, name: string)
    requires op.Remove? && IsBytes(op.entry) && Step(logs, op, after, decodes) && Addressed(op.entry) != Some(name)
    ensures LogOf(after, name) == LogOf(logs, name)
  {
    if Addressed(op.entry).Some? {
      AddressedIsTarget(op.entry);
      var rs := RemovalQueries(logs, op, after, decodes);
      hide Step, Answers, RemoveCalls, MarkedAs, LogOf, Addressed, Target, IsBytes, Operands;
      if RemoveCalls(op.entry, rs) != [] {
        var records: seq<Rec> :| MarkedAs(logs, RemoveCalls(op.entry, rs), after, records);
        RequestKeepsOthers(logs, op.entry, rs, after, records, name);
      }
    } else {
      assert Removed(logs, op, after);
      hide Step, Answers, RemoveCalls, Marked, LogOf;
    }
  }

  // ---- reading the marked log ---------------------------------------------------------------------

  lemma {:induction false} ReadMarked(log: Log, keys: seq<string>, k: string)
    ensures var m := LogMap(MarkedAll(log, keys));
            && (k in m <==> k in LogMap(log) && keys != [] && k !in keys)
            && (k in m ==> m[k] == LogMap(log)[k])
  {
    if log != [] {
      var init, r := log[..|log| - 1], log[|log| - 1];
      ReadMarked(init, keys, k);
      assert MarkedAll(log, keys) == MarkedAll(init, keys) + [MarkedRecord(r, keys)];
      LogMapSnoc(MarkedAll(init, keys), MarkedRecord(r, keys));
      hide LogMap, EqualFold;
      TrueIsGood();
      if Concerns(r, keys) { assert IsRemoved(MarkedRecord(r, keys).labels); }
    }
  }

  lemma {:induction false} MarkedMeans(log: Log, op: Op)
    requires op.Remove?
    ensures LogMap(MarkedAll(log, op.keys)) == Meaning(LogMap(log), op)
  {
    hide LogMap, MarkedAll;
    forall k ensures var m := LogMap(MarkedAll(log, op.keys));
                     && (k in m <==> k in LogMap(log) && op.keys != [] && k !in op.keys)
                     && (k in m ==> m[k] == LogMap(log)[k]) {
      ReadMarked(log, op.keys, k);
    }
  }

  lemma MarkedIsClean(r: MetaRecord, keys: seq<string>, decodes: bytes -> bool)
    requires CleanRecord(r, decodes)
    ensures CleanRecord(MarkedRecord(r, keys), decodes)
  {
    TrueIsGood();
    hide CarriedKey, GoodText, Concerns;
    var labels := MarkedRecord(r, keys).labels;
    forall k | k in labels ensures GoodName(k) && GoodText(labels[k]) {
      if k in r.labels { assert k in TextLabels(r.labels); }
    }
  }

  lemma {:induction false} MarkingStaysClean(log: Log, keys: seq<string>, decodes: bytes -> bool)
    requires CleanLog(log, decodes)
    ensures CleanLog(MarkedAll(log, keys), decodes)
  {
    hide CleanRecord;
    var after := MarkedAll(log, keys);
    forall i | 0 <= i < |after| ensures CleanRecord(after[i], decodes) { MarkedIsClean(log[i], keys, decodes); }
    hide Concerns;
    forall i, j | 0 <= i < j < |after| ensures Precedes(after[i], after[j]) { assert Precedes(log[i], log[j]); }
  }

  /**
   * A removal takes away exactly the named attachments, or all of them, if and
   * only if a query can address the entry. No other log is touched.
   */
  lemma {:induction false} RemoveRemovesIff(logs: Logs, op: Op, after: Logs, query: Result<seq<Queried>>,
                                            decodes: bytes -> bool)
    requires op.Remove? && SingleEntry(op.entry) && CleanAt(logs, op.entry, decodes) && Step(logs, op, after, decodes)
    requires Asked(query, op.entry, after, None)
    ensures ReadResult(op.entry, query, decodes) == Attached(Meaning(MapOf(logs, op.entry), op))
            <==> Addressed(op.entry).Some?
    ensures CleanAt(after, op.entry, decodes)
    ensures forall name :: Addressed(op.entry) != Some(name) ==> LogOf(after, name) == LogOf(logs, name)
  {
    hide Answers, ReadFrom, LogMap, CleanLog, MarkedAll, Meaning, Step, LogOf, Unescape, IsBytes;
    if Addressed(op.entry).Some? {
      var log := LogOf(logs, Addressed(op.entry).value);
      RemovalIsMarking(logs, op, after, decodes, Addressed(op.entry).value);
      MarkedMeans(log, op);
      MarkingStaysClean(log, op.keys, decodes);
    }
    AskedIsRead(query, op.entry, after, decodes);
    forall name | Addressed(op.entry) != Some(name) ensures LogOf(after, name) == LogOf(logs, name) {
      RemovalKeepsOthers(logs, op, after, decodes, name);
    }
  }

  // ---- whole runs ---------------------------------------------------------------------------------

  /** The operation changes this log: a write by the name that is sent, a removal by the one that is queried. */
  predicate IsAbout(op: Op, name: string) {
    if op.Write? then op.entry != "" && Target(op.entry) == Some(name) else Addressed(op.entry) == Some(name)
  }

  /** The map that a log stands for after the operations, of which only those about it count. */
  function Meanings(name: string, m: Payloads, ops: seq<Op>): Payloads {
    if ops == [] then m
    else
      var before, op := Meanings(name, m, ops[..|ops| - 1]), ops[|ops| - 1];
      if IsAbout(op, name) then Meaning(before, op) else before
  }

  /** The logs before, between and after the operations, which may be on different entries. */
  ghost predicate IsRun(logs: seq<Logs>, ops: seq<Op>, decodes: bytes -> bool) {
    |logs| == |ops| + 1 && forall i :: 0 <= i < |ops| ==> Step(logs[i], ops[i], logs[i + 1], decodes)
  }

  /** The operation is on a single entry, and what it writes to this log has names that get through. */
  ghost predicate GetsThrough(op: Op, name: string) {
    SingleEntry(op.entry) && (op.Write? && IsAbout(op, name) ==> CarriedKeys(op.attachments))
  }

  lemma CarriedIsPlain(log: Log, op: Op, decodes: bytes -> bool)
    requires op.Write? && Possible(log, op, decodes) && CarriedKeys(op.attachments)
    ensures Plain(op)
  {
    hide Enumerates;
    forall k | k in op.attachments ensures '"' !in k { assert CarriedKey(k); }
  }

  lemma {:induction false} WriteRefines(logs: Logs, op: Op, after: Logs, decodes: bytes -> bool, name: string)
    requires op.Write? && IsBytes(op.entry) && Step(logs, op, after, decodes) && IsAbout(op, name)
    requires CarriedKeys(op.attachments) && CleanLog(LogOf(logs, name), decodes)
    ensures LogMap(LogOf(after, name)) == Meaning(LogMap(LogOf(logs, name)), op) && CleanLog(LogOf(after, name), decodes)
  {
    var log := LogOf(logs, name);
    CleanIsOrdered(log, decodes);
    StepWrites(logs, op, after, decodes);
    hide LogMap, CleanLog, Meaning, Step, CarriedKey, Appended, SeenAll, Ordered, LogOf, Target, IsBytes, Possible;
    CarriedIsPlain(log, op, decodes);
    if op.attachments == map[] {
      assert Meaning(LogMap(log), op) == LogMap(log);
    } else {
      CarriedWrite(log, op, decodes);
      CleanLogIsSeen(LogOf(after, name), decodes);
    }
  }

  /** One operation does to every log what it means for it. */
  lemma {:induction false} StepRefines(logs: Logs, op: Op, after: Logs, decodes: bytes -> bool, name: string)
    requires Step(logs, op, after, decodes) && GetsThrough(op, name) && CleanLog(LogOf(logs, name), decodes)
    ensures LogMap(LogOf(after, name))
            == if IsAbout(op, name) then Meaning(LogMap(LogOf(logs, name)), op) else LogMap(LogOf(logs, name))
    ensures CleanLog(LogOf(after, name), decodes)
  {
    hide LogMap, CleanLog, MarkedAll, Meaning, Step, Target, Addressed, IsBytes, CarriedKeys, LogOf;
    if op.Write? {
      if IsAbout(op, name) {
        WriteRefines(logs, op, after, decodes, name);
      } else if op.entry == "" {
        NothingWritten(logs, op, after, decodes, name);
      } else {
        WriteKeepsOthers(logs, op, after, decodes, name);
      }
    } else if IsAbout(op, name) {
      RemovalIsMarking(logs, op, after, decodes, name);
      MarkedMeans(LogOf(logs, name), op);
      MarkingStaysClean(LogOf(logs, name), op.keys, decodes);
    } else {
      RemovalKeepsOthers(logs, op, after, decodes, name);
    }
  }

  /**
   * Refinement over whole runs: after any sequence of writes and removals, on
   * this entry or others, what ReadAttachments makes of the answer to its query
   * is exactly the map that the operations about its log have made, whatever
   * the orders in which the attachments were written and the headers were met.
   */
  lemma {:induction false} LogRefinesMap(entry: string, name: string, logs: seq<Logs>, ops: seq<Op>,
                                         query: Result<seq<Queried>>, decodes: bytes -> bool)
    requires IsRun(logs, ops, decodes) && CleanLog(LogOf(logs[0], name), decodes)
    requires forall i :: 0 <= i < |ops| ==> GetsThrough(ops[i], name)
    requires SingleEntry(entry) && Addressed(entry) == Some(name) && Asked(query, entry, logs[|ops|], None)
    ensures ReadResult(entry, query, decodes) == Attached(Meanings(name, LogMap(LogOf(logs[0], name)), ops))
    ensures CleanLog(LogOf(logs[|ops|], name), decodes)
  {
    hide LogMap, Step, CleanLog, Meanings, Answers, ReadFrom, GetsThrough, LogOf, Unescape, IsBytes;
    RunRefines(name, logs, ops, decodes);
    AskedIsRead(query, entry, logs[|ops|], decodes);
  }

  lemma {:induction false} RunRefines(name: string, logs: seq<Logs>, ops: seq<Op>, decodes: bytes -> bool)
    requires IsRun(logs, ops, decodes) && CleanLog(LogOf(logs[0], name), decodes)
    requires forall i :: 0 <= i < |ops| ==> GetsThrough(ops[i], name)
    ensures LogMap(LogOf(logs[|ops|], name)) == Meanings(name, LogMap(LogOf(logs[0], name)), ops)
    ensures CleanLog(LogOf(logs[|ops|], name), decodes)
    decreases |ops|
  {
    hide LogMap, Step, CleanLog, Meaning, GetsThrough, LogOf, IsAbout;
    if ops != [] {
      var n := |ops| - 1;
      RunRefines(name, logs[..n + 1], ops[..n], decodes);
      StepRefines(logs[n], ops[n], logs[n + 1], decodes, name);
    }
  }
}
