/** Batch Protocol v2, write side (record_batch.go: buildRecordBatchWriteRequest). */
module V2Encode {
  import opened Text
  import opened Ordering
  import opened Decimal
  import opened HeaderList
  import opened Headers
  import opened NameTable
  import opened LabelOps
  import opened LabelDelta
  import Bodies

  /** recordBatchRecord. */
  datatype Rec = Rec(entry: string, timestamp: int, data: bytes, contentType: string, labels: LabelMap)

  /** recordBatchMeta. */
  datatype Meta = Meta(contentType: string, labels: Labels)

  /** recordBatchRequest. */
  datatype WriteRequest = WriteRequest(headers: Header, body: bytes, entries: seq<string>, startTS: int,
                                       contentLength: int)

  // ---- sorting and numbering, common to the three builders ------------------------------

  /** The comparison of the three builders: by entry, then by timestamp. */
  predicate RecLess(a: Rec, b: Rec) {
    if a.entry != b.entry then StrLess(a.entry, b.entry) else a.timestamp < b.timestamp
  }

  lemma RecLessIsWeakOrder()
    ensures WeakOrder(RecLess)
  {
    StrLessIsWeakOrder();
    forall a, b, c | !RecLess(a, b) && !RecLess(b, c) ensures !RecLess(a, c) {
      StrConnected(a.entry, b.entry);
      StrConnected(b.entry, c.entry);
    }
  }

  /** The records come from a Go map keyed by entry and timestamp. */
  ghost predicate DistinctRecs(records: seq<Rec>) {
    forall i, j :: 0 <= i < j < |records| ==>
      records[i].entry != records[j].entry || records[i].timestamp != records[j].timestamp
  }

  lemma DistinctByKey(records: seq<Rec>)
    requires DistinctRecs(records)
    ensures Distinct(records, RecLess)
  {
    forall i, j | 0 <= i < j < |records| ensures RecLess(records[i], records[j]) || RecLess(records[j], records[i]) {
      StrConnected(records[i].entry, records[j].entry);
    }
  }

  function EntryNames(items: seq<Rec>): (names: seq<string>)
    ensures |names| == |items|
    ensures forall i :: 0 <= i < |items| ==> names[i] == items[i].entry
  {
    seq(|items|, i requires 0 <= i < |items| => items[i].entry)
  }

  function Entries(items: seq<Rec>): seq<string> {
    InternAll([], EntryNames(items))
  }

  lemma EntryIsIn(items: seq<Rec>, i: nat)
    requires i < |items|
    ensures items[i].entry in Entries(items)
  {
    InternAllMembers([], EntryNames(items), items[i].entry);
    assert EntryNames(items)[i] == items[i].entry;
  }

  function MinTimestamp(items: seq<Rec>): int
    requires items != []
  {
    if |items| == 1 then items[0].timestamp
    else
      var ts := MinTimestamp(items[..|items| - 1]);
      if items[|items| - 1].timestamp < ts then items[|items| - 1].timestamp else ts
  }

  lemma {:induction false} MinTimestampIsLeast(items: seq<Rec>)
    requires items != []
    ensures forall i :: 0 <= i < |items| ==> MinTimestamp(items) <= items[i].timestamp
    ensures exists i :: 0 <= i < |items| && items[i].timestamp == MinTimestamp(items)
  {
    if |items| == 1 {
      assert items[0].timestamp == MinTimestamp(items);
    } else {
      var init := items[..|items| - 1];
      MinTimestampIsLeast(init);
      var k :| 0 <= k < |init| && init[k].timestamp == MinTimestamp(init);
      var last := |items| - 1;
      var w := if items[last].timestamp < MinTimestamp(init) then last else k;
      assert items[k] == init[k];
      assert items[w].timestamp == MinTimestamp(items);
      assert forall i :: 0 <= i < |init| ==> items[i] == init[i];
    }
  }

  /** indexedRecord: a record with the number of its entry. */
  datatype Indexed = Indexed(entryIndex: nat, record: Rec)

  /** The int64 difference that goes into the header name. */
  function DeltaFrom(startTS: int, r: Rec): (d: int)
    ensures InInt64(d)
  {
    Wrap64(r.timestamp - startTS)
  }

  function HeaderName(entryIndex: nat, delta: int): string {
    PREFIX + FormatInt(entryIndex) + ['-'] + FormatInt(delta)
  }

  /** The start timestamp found by scanning the items. */
  method FindStart(items: seq<Rec>) returns (startTS: int)
    requires items != []
    ensures startTS == MinTimestamp(items)
  {
    startTS := items[0].timestamp;
    for i := 1 to |items|
      invariant startTS == MinTimestamp(items[..i])
    {
      assert items[..i + 1][..i] == items[..i];
      if items[i].timestamp < startTS {
        startTS := items[i].timestamp;
      }
    }
    assert items[..|items|] == items;
  }

  ghost function IndexIn(table: seq<string>, r: Rec): Indexed
    requires r.entry in table
  {
    Indexed(Position(table, r.entry), r)
  }

  /** The items, each with the number of its entry in `table`. */
  ghost predicate Numbered(table: seq<string>, items: seq<Rec>, indexed: seq<Indexed>) {
    |indexed| == |items| && forall k :: 0 <= k < |items| ==> items[k].entry in table && indexed[k] == IndexIn(table, items[k])
  }

  lemma NumberedSnoc(table: seq<string>, items: seq<Rec>, indexed: seq<Indexed>, r: Rec)
    requires Numbered(table, items, indexed)
    ensures r.entry in Intern(table, r.entry)
    ensures Numbered(Intern(table, r.entry), items + [r], indexed + [IndexIn(Intern(table, r.entry), r)])
  {
    forall k | 0 <= k < |items| ensures items[k].entry in Intern(table, r.entry)
                                        && indexed[k] == IndexIn(Intern(table, r.entry), items[k]) {
      PositionStable(table, Intern(table, r.entry), items[k].entry);
    }
  }

  /** The items numbered by the final entry list. */
  ghost function IndexAll(items: seq<Rec>): (indexed: seq<Indexed>)
    ensures |indexed| == |items| && Numbered(Entries(items), items, indexed)
  {
    assert forall k :: 0 <= k < |items| ==> items[k].entry in Entries(items) by {
      forall k | 0 <= k < |items| ensures items[k].entry in Entries(items) { EntryIsIn(items, k); }
    }
    seq(|items|, i requires 0 <= i < |items| => IndexIn(Entries(items), items[i]))
  }

  /** The entry names in order of first use, and the numbered records. */
  method NumberEntries(items: seq<Rec>) returns (entries: seq<string>, indexed: seq<Indexed>)
    ensures entries == Entries(items)
    ensures indexed == IndexAll(items)
  {
    hide Position;
    var lookup := new Table();
    indexed := [];
    ghost var names := EntryNames(items);
    for i := 0 to |items|
      invariant lookup.Valid() && fresh(lookup)
      invariant lookup.names == InternAll([], names[..i])
      invariant Numbered(lookup.names, items[..i], indexed)
    {
      assert names[..i + 1][..i] == names[..i];
      assert items[..i + 1] == items[..i] + [items[i]];
      NumberedSnoc(lookup.names, items[..i], indexed, items[i]);
      var idx := lookup.Ensure(items[i].entry);
      indexed := indexed + [Indexed(idx, items[i])];
    }
    assert names[..|names|] == names;
    assert items[..|items|] == items;
    entries := lookup.names;
  }

  /** The sorted copy of the records. */
  method SortRecords(records: seq<Rec>) returns (items: seq<Rec>)
    requires DistinctRecs(records)
    ensures items == Sort(records, RecLess) && |items| == |records|
  {
    RecLessIsWeakOrder();
    DistinctByKey(records);
    items := SortFunc(records, RecLess);
    SortUnique(records, items, RecLess);
    SortElements(records, RecLess);
  }

  // ---- one record -----------------------------------------------------------------------

  function EffectiveType(contentType: string): string {
    if contentType == "" then OCTET_STREAM else contentType
  }

  /** The header value: size, then content type and label delta as far as they are needed. */
  function RowValue(size: nat, contentTypePart: string, delta: string): string {
    var parts := [FormatInt(size)];
    var parts := if contentTypePart != "" || delta != "" then parts + [contentTypePart] else parts;
    Join(if delta != "" then parts + [delta] else parts, ',')
  }

  datatype EncState = EncState(names: seq<string>, last: map<nat, Meta>, headers: Header)

  ghost predicate AsciiRec(r: Rec) {
    AsciiLabels(Normalize(r.labels))
  }

  ghost predicate AsciiRecs(items: seq<Rec>) {
    forall i :: 0 <= i < |items| ==> AsciiRec(items[i])
  }

  ghost predicate AsciiIndexed(indexed: seq<Indexed>) {
    forall i :: 0 <= i < |indexed| ==> AsciiRec(indexed[i].record)
  }

  function PrevLabels(last: map<nat, Meta>, idx: nat): Labels {
    if idx in last then last[idx].labels else map[]
  }

  function TypePart(last: map<nat, Meta>, idx: nat, contentType: string): string {
    if idx in last && last[idx].contentType == contentType then "" else contentType
  }

  /** The header value of a record in an encoder state. */
  ghost function RowOf(st: EncState, r: Rec, idx: nat): string
    requires AsciiRec(r)
  {
    RowValue(|r.data|, TypePart(st.last, idx, EffectiveType(r.contentType)),
             DeltaText(st.names, PrevLabels(st.last, idx), Normalize(r.labels)))
  }

  ghost function EncStep(st: EncState, startTS: int, item: Indexed): EncState
    requires AsciiRec(item.record)
  {
    var idx, r := item.entryIndex, item.record;
    EncState(
      DeltaNames(st.names, PrevLabels(st.last, idx), Normalize(r.labels)),
      st.last[idx := MetaOf(r)],
      Set(st.headers, HeaderName(idx, DeltaFrom(startTS, r)), RowOf(st, r, idx)))
  }

  ghost function BaseHeaders(items: seq<Rec>): Header
    requires items != [] && AllBytes(Entries(items))
  {
    var h := Set(map[], ENTRIES, EncodeList(Entries(items)));
    var h := Set(h, START_TS, FormatInt(MinTimestamp(items)));
    Set(h, CONTENT_TYPE, OCTET_STREAM)
  }

  /** The encoder after its first `n` records. */
  ghost function EncRun(indexed: seq<Indexed>, startTS: int, base: Header, n: nat): EncState
    requires n <= |indexed| && AsciiIndexed(indexed)
  {
    if n == 0 then EncState([], map[], base)
    else EncStep(EncRun(indexed, startTS, base, n - 1), startTS, indexed[n - 1])
  }

  function DataOf(items: seq<Rec>): (parts: seq<bytes>)
    ensures |parts| == |items|
    ensures forall i :: 0 <= i < |items| ==> parts[i] == items[i].data
  {
    seq(|items|, i requires 0 <= i < |items| => items[i].data)
  }

  /** The data of all records, one after the other. */
  function BodyOf(items: seq<Rec>): bytes {
    Bodies.Concat(DataOf(items))
  }

  lemma BodySnoc(items: seq<Rec>, r: Rec)
    ensures BodyOf(items + [r]) == BodyOf(items) + r.data && BodyOf([]) == []
  {
    assert DataOf(items + [r])[..|items|] == DataOf(items);
  }

  ghost predicate NamesAreBytes(items: seq<Rec>) {
    && (forall i :: 0 <= i < |items| ==> IsBytes(items[i].entry))
    && (forall i :: 0 <= i < |items| ==> forall k :: k in items[i].labels ==> IsBytes(k))
  }

  ghost function FinalHeaders(st: EncState, contentLength: int): Header
    requires AllBytes(st.names)
  {
    Set(if st.names != [] then Set(st.headers, LABELS, EncodeList(st.names)) else st.headers,
        CONTENT_LENGTH, FormatInt(contentLength))
  }

  lemma EntriesAreBytes(items: seq<Rec>)
    requires NamesAreBytes(items)
    ensures AllBytes(Entries(items))
  {
    var es := Entries(items);
    forall k | 0 <= k < |es| ensures IsBytes(es[k]) {
      InternAllMembers([], EntryNames(items), es[k]);
      var i :| 0 <= i < |items| && EntryNames(items)[i] == es[k];
    }
  }

  function MetaOf(r: Rec): Meta {
    Meta(EffectiveType(r.contentType), Normalize(r.labels))
  }

  ghost predicate UsedBefore(indexed: seq<Indexed>, n: nat, name: string)
    requires n <= |indexed|
  {
    exists i :: 0 <= i < n && name in indexed[i].record.labels
  }

  ghost predicate SeenBefore(indexed: seq<Indexed>, n: nat, m: Meta)
    requires n <= |indexed|
  {
    exists i :: 0 <= i < n && MetaOf(indexed[i].record) == m
  }

  /** Table names and remembered metadata all come from the records so far. */
  ghost predicate ComesFrom(st: EncState, indexed: seq<Indexed>, n: nat)
    requires n <= |indexed|
  {
    && (forall i :: 0 <= i < |st.names| ==> UsedBefore(indexed, n, st.names[i]))
    && (forall idx :: idx in st.last ==> SeenBefore(indexed, n, st.last[idx]))
  }

  lemma StepComesFrom(st: EncState, startTS: int, indexed: seq<Indexed>, n: nat)
    requires n < |indexed| && AsciiRec(indexed[n].record) && ComesFrom(st, indexed, n)
    ensures ComesFrom(EncStep(st, startTS, indexed[n]), indexed, n + 1)
  {
    var idx, r := indexed[n].entryIndex, indexed[n].record;
    var st' := EncStep(st, startTS, indexed[n]);
    var cur, prev := Normalize(r.labels), PrevLabels(st.last, idx);
    forall i | 0 <= i < |st'.names| ensures UsedBefore(indexed, n + 1, st'.names[i]) {
      var name := st'.names[i];
      InternAllMembers(st.names, ChangedKeys(prev, cur), name);
      ChangedKeysExact(prev, cur);
      if name in st.names {
        assert UsedBefore(indexed, n, name);
      } else if name !in r.labels {
        var k :| 0 <= k < n && MetaOf(indexed[k].record) == st.last[idx];
        assert name in indexed[k].record.labels;
      }
    }
    forall j | j in st'.last ensures SeenBefore(indexed, n + 1, st'.last[j]) {
      if j == idx {
        assert MetaOf(r) == st'.last[j];
      } else {
        assert SeenBefore(indexed, n, st.last[j]);
      }
    }
  }

  lemma {:induction false} RunComesFrom(indexed: seq<Indexed>, startTS: int, base: Header, n: nat)
    requires n <= |indexed| && AsciiIndexed(indexed)
    ensures ComesFrom(EncRun(indexed, startTS, base, n), indexed, n)
    decreases n
  {
    hide EncStep;
    if n > 0 {
      RunComesFrom(indexed, startTS, base, n - 1);
      StepComesFrom(EncRun(indexed, startTS, base, n - 1), startTS, indexed, n - 1);
    }
  }

  lemma {:induction false} TableIsBytes(items: seq<Rec>, startTS: int, base: Header)
    requires AsciiRecs(items) && NamesAreBytes(items)
    ensures AsciiIndexed(IndexAll(items))
    ensures AllBytes(EncRun(IndexAll(items), startTS, base, |items|).names)
  {
    var indexed := IndexAll(items);
    RunComesFrom(indexed, startTS, base, |items|);
    var names := EncRun(indexed, startTS, base, |items|).names;
    forall k | 0 <= k < |names| ensures IsBytes(names[k]) {
      assert UsedBefore(indexed, |items|, names[k]);
    }
  }

  /** All label names that occur in the batch. */
  ghost function LabelNames(items: seq<Rec>): set<string> {
    set i, k | 0 <= i < |items| && k in items[i].labels :: k
  }

  /** Text that the byte-string model of the codec covers. */
  ghost predicate InModel(records: seq<Rec>) {
    DistinctRecs(records) && AsciiRecs(records) && NamesAreBytes(records)
  }

  /** Sorting keeps the records and brings them into the strict order of their keys. */
  lemma {:induction false} SortKeepsRecords(records: seq<Rec>)
    requires DistinctRecs(records)
    ensures var items := Sort(records, RecLess);
            && DistinctRecs(items) && StrictSorted(items, RecLess) && |items| == |records|
            && (forall i :: 0 <= i < |items| ==> items[i] in records) && (NamesAreBytes(records) ==> NamesAreBytes(items))
  {
    RecLessIsWeakOrder();
    DistinctByKey(records);
    SortSorted(records, RecLess);
    SortElements(records, RecLess);
    SortUnique(records, Sort(records, RecLess), RecLess);
    SortMembers(records, RecLess);
    var items := Sort(records, RecLess);
    assert forall i :: 0 <= i < |items| ==> items[i] in items;
    forall i, j | 0 <= i < j < |items|
      ensures items[i].entry != items[j].entry || items[i].timestamp != items[j].timestamp {
      assert RecLess(items[i], items[j]);
      StrIrreflexive(items[i].entry);
    }
  }

  lemma {:induction false} SortKeepsModel(records: seq<Rec>)
    requires InModel(records)
    ensures var items := Sort(records, RecLess);
            InModel(items) && StrictSorted(items, RecLess) && |items| == |records|
  {
    hide Sort, AsciiRec, DistinctRecs, NamesAreBytes;
    SortKeepsRecords(records);
  }

  /** The encoder after all records. */
  ghost function EncEnd(items: seq<Rec>): EncState
    requires items != [] && InModel(items)
  {
    EntriesAreBytes(items);
    EncRun(IndexAll(items), MinTimestamp(items), BaseHeaders(items), |items|)
  }

  ghost function EncodeItems(items: seq<Rec>): WriteRequest
    requires items != [] && InModel(items)
  {
    EntriesAreBytes(items);
    TableIsBytes(items, MinTimestamp(items), BaseHeaders(items));
    WriteRequest(FinalHeaders(EncEnd(items), |BodyOf(items)|), BodyOf(items), Entries(items), MinTimestamp(items), |BodyOf(items)|)
  }

  const EMPTY_HEADERS: Header :=
    map[ENTRIES := [""], START_TS := ["0"], CONTENT_TYPE := [OCTET_STREAM], CONTENT_LENGTH := ["0"]]

  ghost function EncodeBatch(records: seq<Rec>): WriteRequest
    requires InModel(records)
  {
    if records == [] then WriteRequest(EMPTY_HEADERS, [], [], 0, 0)
    else
      SortKeepsModel(records);
      EncodeItems(Sort(records, RecLess))
  }

  /** One turn of the record loop. */
  method EncodeRecord(item: Indexed, startTS: int, lastMeta: map<nat, Meta>, headers: Header, labelTable: Table)
    returns (lastMeta': map<nat, Meta>, headers': Header)
    requires labelTable.Valid() && AsciiRec(item.record)
    modifies labelTable
    ensures labelTable.Valid()
    ensures EncState(labelTable.names, lastMeta', headers')
            == EncStep(EncState(old(labelTable.names), lastMeta, headers), startTS, item)
  {
    hide RowValue, HeaderName, DeltaText, DeltaNames, Normalize, AsciiLabels, Wrap64, Set;
    var r, idx := item.record, item.entryIndex;
    var delta := Wrap64(r.timestamp - startTS);
    var contentType := if r.contentType == "" then OCTET_STREAM else r.contentType;
    var currentLabels := Normalize(r.labels);
    var previous := if idx in lastMeta then Some(lastMeta[idx].labels) else None;
    var labelDelta := BuildLabelDelta(currentLabels, previous, labelTable);
    var contentTypePart := contentType;
    if idx in lastMeta && lastMeta[idx].contentType == contentType {
      contentTypePart := "";
    }
    headers' := Set(headers, HeaderName(idx, delta), RowValue(|r.data|, contentTypePart, labelDelta));
    lastMeta' := lastMeta[idx := Meta(contentType, currentLabels)];
  }

  /** The records behind the numbered ones. */
  function RecordsIn(indexed: seq<Indexed>): (items: seq<Rec>)
    ensures |items| == |indexed|
    ensures forall i :: 0 <= i < |indexed| ==> items[i] == indexed[i].record
  {
    seq(|indexed|, i requires 0 <= i < |indexed| => indexed[i].record)
  }

  /** The record loop of the write builder. */
  method EncodeRecords(indexed: seq<Indexed>, startTS: int, base: Header)
    returns (headers: Header, labelNames: seq<string>, body: bytes)
    requires AsciiIndexed(indexed)
    ensures headers == EncRun(indexed, startTS, base, |indexed|).headers
    ensures labelNames == EncRun(indexed, startTS, base, |indexed|).names
    ensures body == BodyOf(RecordsIn(indexed))
  {
    hide EncStep, BodyOf;
    var labelTable := new Table();
    var lastMeta: map<nat, Meta> := map[];
    headers, body := base, [];
    BodySnoc([], Rec("", 0, [], "", map[]));
    for i := 0 to |indexed|
      invariant labelTable.Valid() && fresh(labelTable)
      invariant EncState(labelTable.names, lastMeta, headers) == EncRun(indexed, startTS, base, i)
      invariant body == BodyOf(RecordsIn(indexed[..i]))
    {
      assert indexed[..i + 1][..i] == indexed[..i];
      assert RecordsIn(indexed[..i + 1]) == RecordsIn(indexed[..i]) + [indexed[i].record];
      BodySnoc(RecordsIn(indexed[..i]), indexed[i].record);
      body := body + indexed[i].record.data;
      lastMeta, headers := EncodeRecord(indexed[i], startTS, lastMeta, headers, labelTable);
    }
    assert indexed[..|indexed|] == indexed;
    labelNames := labelTable.names;
  }

  /** buildRecordBatchWriteRequest. */
  method BuildRecordBatchWriteRequest(records: seq<Rec>) returns (req: WriteRequest)
    requires InModel(records)
    ensures req == EncodeBatch(records)
  {
    if records == [] {
      return WriteRequest(EMPTY_HEADERS, [], [], 0, 0);
    }
    SortKeepsModel(records);
    var items := SortRecords(records);
    EntriesAreBytes(items);
    var startTS := FindStart(items);
    var entries, indexed := NumberEntries(items);
    var entryList := EncodeHeaderList(entries);
    var base := Set(map[], ENTRIES, entryList);
    base := Set(base, START_TS, FormatInt(startTS));
    base := Set(base, CONTENT_TYPE, OCTET_STREAM);
    TableIsBytes(items, startTS, base);
    assert RecordsIn(indexed) == items;
    var headers, labelNames, body := EncodeRecords(indexed, startTS, base);
    if labelNames != [] {
      var labelList := EncodeHeaderList(labelNames);
      headers := Set(headers, LABELS, labelList);
    }
    headers := Set(headers, CONTENT_LENGTH, FormatInt(|body|));
    req := WriteRequest(headers, body, entries, startTS, |body|);
  }
}
