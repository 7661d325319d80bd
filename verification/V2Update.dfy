/**
 * The header-only requests of Batch Protocol v2: label updates and removals
 * (record_batch.go: buildUpdateLabelDelta, buildRecordBatchUpdateRequest,
 * buildRecordBatchRemoveRequest).
 */
module V2Update {
  import opened Text
  import opened Ordering
  import opened Decimal
  import opened HeaderList
  import opened Headers
  import opened NameTable
  import opened LabelOps
  import opened LabelDelta
  import opened V2Encode
  import opened V2Order

  /** recordBatchHeaderRequest. */
  datatype HeaderRequest = HeaderRequest(headers: Header, entries: seq<string>, startTS: int)

  // ---- the delta of one update record --------------------------------------------------------

  /** The labels that an update sets to a non-empty text; all others it names are removals. */
  function Given(labels: LabelMap): Labels {
    map k | k in labels && labels[k].Printed? && labels[k].text != "" :: labels[k].text
  }

  ghost function UpdateNames(names: seq<string>, labels: LabelMap): seq<string> {
    InternAll(names, SortedKeys(labels.Keys))
  }

  ghost function UpdateOps(names: seq<string>, labels: LabelMap): seq<IndexOp> {
    UsesAreIn(names, SortedKeys(labels.Keys));
    OpsFor(UpdateNames(names, labels), SortedKeys(labels.Keys), Given(labels))
  }

  ghost function UpdateText(names: seq<string>, labels: LabelMap): string
    requires AsciiLabels(Given(labels))
  {
    PrintOps(UpdateOps(names, labels))
  }

  lemma PrintPartsSnoc(ops: seq<IndexOp>, op: IndexOp)
    requires AsciiOps(ops) && AsciiOp(op)
    ensures AsciiOps(ops + [op]) && PrintParts(ops + [op]) == PrintParts(ops) + [PrintOp(op)]
  {}

  /** The parts have been collected for these keys. */
  ghost predicate PartsFor(parts: seq<string>, names: seq<string>, now: seq<string>, keys: seq<string>,
                           labels: LabelMap)
    requires AsciiLabels(Given(labels))
  {
    && now == InternAll(names, keys) && AllIn(keys, now)
    && parts == PrintParts(OpsFor(now, keys, Given(labels)))
  }

  lemma PartsForNext(parts: seq<string>, names: seq<string>, now: seq<string>, keys: seq<string>, labels: LabelMap,
                     key: string)
    requires AsciiLabels(Given(labels)) && PartsFor(parts, names, now, keys, labels)
    ensures var next := Intern(now, key);
            key in next && PartsFor(parts + [PrintOp(OpFor(next, key, Given(labels)))], names, next, keys + [key], labels)
  {
    hide Position;
    OneMoreKey(names, keys, key, Given(labels));
    PrintPartsSnoc(OpsFor(now, keys, Given(labels)), OpFor(Intern(now, key), key, Given(labels)));
  }

  lemma EmptyUpdate(names: seq<string>, labels: LabelMap)
    requires labels == map[]
    ensures UpdateNames(names, labels) == names && UpdateOps(names, labels) == []
  {
    assert labels.Keys == {};
    SortedKeysUnique({}, []);
    assert SortedKeys(labels.Keys) == [];
  }

  lemma NoParts(names: seq<string>, labels: LabelMap)
    requires AsciiLabels(Given(labels))
    ensures PartsFor([], names, names, [], labels)
  {}

  lemma {:induction false} AllParts(parts: seq<string>, names: seq<string>, now: seq<string>, keys: seq<string>, labels: LabelMap)
    requires AsciiLabels(Given(labels)) && keys == SortedKeys(labels.Keys) && PartsFor(parts, names, now, keys, labels)
    ensures now == UpdateNames(names, labels) && Join(parts, ',') == UpdateText(names, labels)
  {}

  /** One part of the delta: a removal for nil and empty values, an assignment otherwise. */
  method UpdatePart(idx: nat, value: LabelValue) returns (part: string)
    requires value.Printed? ==> IsAscii(value.text)
    ensures part == PrintOp(IndexOp(idx, if value.Printed? && value.text != "" then Some(value.text) else None))
  {
    if value.Nil? || value.text == "" {
      part := FormatInt(idx) + ['='];
      assert part == part + "";
    } else {
      part := FormatInt(idx) + ['='] + FormatLabelValue(value.text);
    }
  }

  /** One more name: its number, growing the table if it is new, and its part. */
  method AddPart(labels: LabelMap, keys: seq<string>, key: string, table: Table, parts: seq<string>,
                 ghost names: seq<string>) returns (more: seq<string>)
    requires table.Valid() && AsciiLabels(Given(labels)) && key in labels
    requires PartsFor(parts, names, table.names, keys, labels)
    modifies table
    ensures table.Valid() && PartsFor(more, names, table.names, keys + [key], labels)
  {
    hide PartsFor, Position, FormatInt, FormatLabelValue, Given;
    PartsForNext(parts, names, table.names, keys, labels, key);
    GivenIs(labels, key);
    var idx := table.Ensure(key);
    var part := UpdatePart(idx, labels[key]);
    more := parts + [part];
  }

  lemma TakeSnoc(keys: seq<string>, i: nat)
    requires i < |keys|
    ensures keys[..i + 1] == keys[..i] + [keys[i]]
  {}

  lemma WholeTake(keys: seq<string>)
    ensures keys[..|keys|] == keys
  {}

  lemma EmptyTake(keys: seq<string>)
    ensures keys[..0] == []
  {}

  /** The loop over the sorted names: one part each, and the table grown by them. */
  method UpdateParts(labels: LabelMap, keys: seq<string>, table: Table) returns (parts: seq<string>)
    requires table.Valid() && AsciiLabels(Given(labels)) && forall i :: 0 <= i < |keys| ==> keys[i] in labels
    modifies table
    ensures table.Valid() && PartsFor(parts, old(table.names), table.names, keys, labels)
  {
    ghost var names := table.names;
    parts := [];
    hide *;
    NoParts(names, labels);
    EmptyTake(keys);
    for i := 0 to |keys|
      invariant table.Valid() && PartsFor(parts, names, table.names, keys[..i], labels)
    {
      TakeSnoc(keys, i);
      parts := AddPart(labels, keys[..i], keys[i], table, parts, names);
    }
    WholeTake(keys);
  }

  lemma GivenIs(labels: LabelMap, key: string)
    requires key in labels && AsciiLabels(Given(labels))
    ensures key in Given(labels) <==> labels[key].Printed? && labels[key].text != ""
    ensures key in Given(labels) ==> Given(labels)[key] == labels[key].text
    ensures labels[key].Printed? ==> IsAscii(labels[key].text)
  {}

  /** buildUpdateLabelDelta. */
  method BuildUpdateLabelDelta(labels: LabelMap, table: Table) returns (delta: string)
    requires table.Valid() && AsciiLabels(Given(labels))
    modifies table
    ensures table.Valid()
    ensures table.names == UpdateNames(old(table.names), labels)
    ensures delta == UpdateText(old(table.names), labels)
  {
    hide PartsFor, UpdateNames, UpdateText, Given;
    var keys := CollectSorted(labels.Keys);
    if |labels| == 0 {
      EmptyUpdate(table.names, labels);
      NothingToPrint(table.names, labels);
      return "";
    }
    ghost var names := table.names;
    assert forall i :: 0 <= i < |keys| ==> keys[i] in keys;
    var parts := UpdateParts(labels, keys, table);
    AllParts(parts, names, table.names, keys, labels);
    delta := Join(parts, ',');
  }

  lemma NothingToPrint(names: seq<string>, labels: LabelMap)
    requires AsciiLabels(Given(labels)) && UpdateOps(names, labels) == []
    ensures UpdateText(names, labels) == ""
  {}

  // ---- the requests ----------------------------------------------------------------------------

  /** The table after the first `n` records of an update. */
  ghost function UpdateTable(items: seq<Rec>, n: nat): seq<string>
    requires n <= |items|
  {
    if n == 0 then [] else UpdateNames(UpdateTable(items, n - 1), items[n - 1].labels)
  }

  ghost predicate AsciiUpdates(items: seq<Rec>) {
    forall i :: 0 <= i < |items| ==> AsciiLabels(Given(items[i].labels))
  }

  function UpdateRow(delta: string): string {
    if delta == "" then "0" else "0,," + delta
  }

  ghost function UpdateRows(items: seq<Rec>): (rows: seq<string>)
    requires AsciiUpdates(items)
    ensures |rows| == |items|
    ensures forall i :: 0 <= i < |items| ==> rows[i] == UpdateRow(UpdateText(UpdateTable(items, i), items[i].labels))
  {
    seq(|items|, i requires 0 <= i < |items| => UpdateRow(UpdateText(UpdateTable(items, i), items[i].labels)))
  }

  /** The header names of numbered records. */
  ghost function NamesIn(indexed: seq<Indexed>, startTS: int): (names: seq<string>)
    ensures |names| == |indexed|
    ensures forall i :: 0 <= i < |indexed| ==> names[i] == NameAt(indexed, startTS, i)
  {
    seq(|indexed|, i requires 0 <= i < |indexed| => NameAt(indexed, startTS, i))
  }

  /** The header names of the records. */
  ghost function RecordNames(items: seq<Rec>): (names: seq<string>)
    ensures |names| == |items|
    ensures forall i :: 0 <= i < |items| ==> names[i] == NameAt(IndexAll(items), MinTimestamp(items), i)
  {
    if items == [] then [] else NamesIn(IndexAll(items), MinTimestamp(items))
  }

  ghost function WithFixed(h: Header, items: seq<Rec>): Header
    requires items != [] && AllBytes(Entries(items))
  {
    Set(Set(Set(h, ENTRIES, EncodeList(Entries(items))), START_TS, FormatInt(MinTimestamp(items))), CONTENT_LENGTH, "0")
  }

  ghost predicate UpdateInModel(records: seq<Rec>) {
    DistinctRecs(records) && AsciiUpdates(records) && NamesAreBytes(records)
  }

  lemma {:induction false} UpdateTableMembers(items: seq<Rec>, n: nat, name: string)
    requires n <= |items| && name in UpdateTable(items, n)
    ensures exists i :: 0 <= i < n && name in items[i].labels
  {
    if n > 0 {
      InternAllMembers(UpdateTable(items, n - 1), SortedKeys(items[n - 1].labels.Keys), name);
      if name in UpdateTable(items, n - 1) {
        UpdateTableMembers(items, n - 1, name);
      } else {
        assert name in items[n - 1].labels;
      }
    }
  }

  lemma {:induction false} UpdateTableIsBytes(items: seq<Rec>)
    requires NamesAreBytes(items)
    ensures AllBytes(UpdateTable(items, |items|))
  {
    var names := UpdateTable(items, |items|);
    forall k | 0 <= k < |names| ensures IsBytes(names[k]) {
      UpdateTableMembers(items, |items|, names[k]);
    }
  }

  ghost function EncodeUpdate(items: seq<Rec>): HeaderRequest
    requires items != [] && UpdateInModel(items)
  {
    EntriesAreBytes(items);
    UpdateTableIsBytes(items);
    var h := WithFixed(PutAll(map[], RecordNames(items), UpdateRows(items)), items);
    var names := UpdateTable(items, |items|);
    HeaderRequest(if names != [] then Set(h, LABELS, EncodeList(names)) else h, Entries(items), MinTimestamp(items))
  }

  ghost function EncodeRemove(items: seq<Rec>): HeaderRequest
    requires items != [] && NamesAreBytes(items)
  {
    EntriesAreBytes(items);
    HeaderRequest(WithFixed(PutAll(map[], RecordNames(items), seq(|items|, i => "")), items), Entries(items), MinTimestamp(items))
  }

  const EMPTY_UPDATE := HeaderRequest(map[ENTRIES := [""], START_TS := ["0"], CONTENT_LENGTH := ["0"]], [], 0)

  lemma {:induction false} SortKeepsUpdate(records: seq<Rec>)
    requires DistinctRecs(records) && NamesAreBytes(records)
    ensures var items := Sort(records, RecLess);
            && DistinctRecs(items) && NamesAreBytes(items) && StrictSorted(items, RecLess) && |items| == |records|
            && (AsciiUpdates(records) ==> AsciiUpdates(items))
  {
    hide Sort, AsciiLabels, DistinctRecs, NamesAreBytes;
    SortKeepsRecords(records);
  }

  /** One turn of the update loop. */
  method UpdateRecord(r: Rec, headerName: string, headers: Header, table: Table) returns (headers': Header)
    requires table.Valid() && AsciiLabels(Given(r.labels))
    modifies table
    ensures table.Valid() && table.names == UpdateNames(old(table.names), r.labels)
    ensures headers' == Set(headers, headerName, UpdateRow(UpdateText(old(table.names), r.labels)))
  {
    hide UpdateText, UpdateNames;
    var labelDelta := BuildUpdateLabelDelta(r.labels, table);
    if labelDelta == "" {
      headers' := Set(headers, headerName, "0");
    } else {
      headers' := Set(headers, headerName, "0,," + labelDelta);
    }
  }

  /** The name under which the loops file record `i`. */
  lemma {:induction false} RecordNameAt(items: seq<Rec>, i: nat)
    requires i < |items|
    ensures IndexAll(items)[i].record == items[i]
    ensures RecordNames(items)[i] == HeaderName(IndexAll(items)[i].entryIndex, DeltaFrom(MinTimestamp(items), items[i]))
  {
    hide HeaderName, DeltaFrom, MinTimestamp, Entries;
    EntryIsIn(items, i);
    assert IndexAll(items)[i] == IndexIn(Entries(items), items[i]);
  }

  /** The rows of the first `i` records have been filed, and the table is theirs. */
  ghost predicate Filed(headers: Header, table: seq<string>, indexed: seq<Indexed>, items: seq<Rec>, startTS: int, i: nat)
    requires |indexed| == |items| && i <= |items| && AsciiUpdates(items)
  {
    && headers == PutAll(map[], NamesIn(indexed, startTS)[..i], UpdateRows(items)[..i])
    && table == UpdateTable(items, i)
  }

  lemma {:induction false} FiledNext(headers: Header, table: seq<string>, indexed: seq<Indexed>, items: seq<Rec>,
                                     startTS: int, i: nat)
    requires RecordsIn(indexed) == items && i < |items| && AsciiUpdates(items)
    requires Filed(headers, table, indexed, items, startTS, i)
    ensures indexed[i].record == items[i] && AsciiLabels(Given(items[i].labels))
    ensures Filed(Set(headers, HeaderName(indexed[i].entryIndex, DeltaFrom(startTS, items[i])),
                      UpdateRow(UpdateText(table, items[i].labels))),
                  UpdateNames(table, items[i].labels), indexed, items, startTS, i + 1)
  {
    PutAllStep(map[], NamesIn(indexed, startTS), UpdateRows(items), i);
    hide UpdateNames, UpdateText, UpdateRow, HeaderName, DeltaFrom, Given, PutAll;
  }

  lemma {:induction false} FiledEnds(headers: Header, table: seq<string>, indexed: seq<Indexed>, items: seq<Rec>, startTS: int)
    requires |indexed| == |items| && AsciiUpdates(items)
    ensures Filed(map[], [], indexed, items, startTS, 0)
    ensures Filed(headers, table, indexed, items, startTS, |items|) ==>
              headers == PutAll(map[], NamesIn(indexed, startTS), UpdateRows(items)) && table == UpdateTable(items, |items|)
  {
    var names, rows := NamesIn(indexed, startTS), UpdateRows(items);
    PutAllNone(names, rows);
    hide PutAll, NamesIn, UpdateRows;
    assert names[..|items|] == names && rows[..|items|] == rows;
  }

  /** The record loop of the update builder. */
  method UpdateRecords(indexed: seq<Indexed>, items: seq<Rec>, startTS: int)
    returns (headers: Header, labelNames: seq<string>)
    requires RecordsIn(indexed) == items && AsciiUpdates(items)
    ensures headers == PutAll(map[], NamesIn(indexed, startTS), UpdateRows(items))
    ensures labelNames == UpdateTable(items, |items|)
  {
    hide UpdateText, UpdateNames, HeaderName, DeltaFrom, UpdateRow, NamesIn, UpdateRows, PutAll, Filed, UpdateTable;
    var table := new Table();
    headers := map[];
    FiledEnds(headers, table.names, indexed, items, startTS);
    for i := 0 to |indexed|
      invariant table.Valid() && fresh(table)
      invariant Filed(headers, table.names, indexed, items, startTS, i)
    {
      FiledNext(headers, table.names, indexed, items, startTS, i);
      var r := indexed[i].record;
      headers := UpdateRecord(r, HeaderName(indexed[i].entryIndex, DeltaFrom(startTS, r)), headers, table);
    }
    FiledEnds(headers, table.names, indexed, items, startTS);
    labelNames := table.names;
  }

  lemma PutAllNone(names: seq<string>, rows: seq<string>)
    requires |names| == |rows|
    ensures PutAll(map[], names[..0], rows[..0]) == map[]
  {}

  lemma NumbersAll(items: seq<Rec>)
    ensures RecordsIn(IndexAll(items)) == items
  {}

  /** buildRecordBatchUpdateRequest. */
  method BuildRecordBatchUpdateRequest(records: seq<Rec>) returns (req: HeaderRequest)
    requires UpdateInModel(records)
    ensures records == [] ==> req == EMPTY_UPDATE
    ensures records != [] ==>
              (SortKeepsUpdate(records); req == EncodeUpdate(Sort(records, RecLess)))
  {
    if records == [] {
      return EMPTY_UPDATE;
    }
    SortKeepsUpdate(records);
    var items := SortRecords(records);
    EntriesAreBytes(items);
    UpdateTableIsBytes(items);
    var startTS := FindStart(items);
    var entries, indexed := NumberEntries(items);
    NumbersAll(items);
    var headers, labelNames := UpdateRecords(indexed, items, startTS);
    var entryList := EncodeHeaderList(entries);
    headers := Set(headers, ENTRIES, entryList);
    headers := Set(headers, START_TS, FormatInt(startTS));
    headers := Set(headers, CONTENT_LENGTH, "0");
    if labelNames != [] {
      var labelList := EncodeHeaderList(labelNames);
      headers := Set(headers, LABELS, labelList);
    }
    req := HeaderRequest(headers, entries, startTS);
  }

  /** buildRecordBatchRemoveRequest. */
  method BuildRecordBatchRemoveRequest(records: seq<Rec>) returns (req: HeaderRequest)
    requires DistinctRecs(records) && NamesAreBytes(records)
    ensures records == [] ==> req == EMPTY_UPDATE
    ensures records != [] ==>
              (SortKeepsUpdate(records); req == EncodeRemove(Sort(records, RecLess)))
  {
    if records == [] {
      return EMPTY_UPDATE;
    }
    SortKeepsUpdate(records);
    var items := SortRecords(records);
    EntriesAreBytes(items);
    var startTS := FindStart(items);
    var entries, indexed := NumberEntries(items);
    NumbersAll(items);
    var headers := RemoveRecords(indexed, startTS);
    var entryList := EncodeHeaderList(entries);
    headers := Set(headers, ENTRIES, entryList);
    headers := Set(headers, START_TS, FormatInt(startTS));
    headers := Set(headers, CONTENT_LENGTH, "0");
    req := HeaderRequest(headers, entries, startTS);
  }

  /** The record loop of the remove builder. */
  method RemoveRecords(indexed: seq<Indexed>, startTS: int) returns (headers: Header)
    ensures headers == PutAll(map[], NamesIn(indexed, startTS), seq(|indexed|, i => ""))
  {
    hide HeaderName, DeltaFrom;
    headers := map[];
    ghost var names, rows := NamesIn(indexed, startTS), seq(|indexed|, i => "");
    for i := 0 to |indexed|
      invariant headers == PutAll(map[], names[..i], rows[..i])
    {
      assert names[..i + 1][..i] == names[..i] && rows[..i + 1][..i] == rows[..i];
      headers := Set(headers, HeaderName(indexed[i].entryIndex, DeltaFrom(startTS, indexed[i].record)), "");
    }
    assert names[..|names|] == names && rows[..|rows|] == rows;
  }
}
