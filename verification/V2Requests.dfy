/**
 * What frames the three requests of Batch Protocol v2 besides their rows
 * (record_batch.go: buildRecordBatchWriteRequest, buildRecordBatchUpdateRequest,
 * buildRecordBatchRemoveRequest).
 */
module V2Requests {
  import opened Text
  import opened Decimal
  import opened HeaderList
  import opened Headers
  import opened NameTable
  import opened V2Encode
  import opened V2Order
  import opened V2Update
  import opened LabelOps
  import opened LabelDelta
  import opened LabelGrammar
  import opened Ordering
  import V2Decode
  import V2RoundTrip
  import V2Meaning
  import Bodies

  /** The entry list of a request names every entry of the batch once, and its start is the least timestamp. */
  ghost predicate Lists(entries: seq<string>, startTS: int, items: seq<Rec>) {
    && (forall i, j :: 0 <= i < j < |entries| ==> entries[i] != entries[j])
    && (forall entry :: entry in entries <==> exists i :: 0 <= i < |items| && items[i].entry == entry)
    && (forall i :: 0 <= i < |items| ==> startTS <= items[i].timestamp)
    && (exists i :: 0 <= i < |items| && startTS == items[i].timestamp)
  }

  lemma {:induction false} EntriesAreNames(items: seq<Rec>)
    requires items != []
    ensures Lists(Entries(items), MinTimestamp(items), items)
  {
    MinTimestampIsLeast(items);
    InternAllGrows([], EntryNames(items));
    forall entry ensures entry in Entries(items) <==> exists i :: 0 <= i < |items| && items[i].entry == entry {
      InternAllMembers([], EntryNames(items), entry);
      if entry in Entries(items) {
        assert entry in EntryNames(items);
        var i :| 0 <= i < |items| && EntryNames(items)[i] == entry;
      }
      if i :| 0 <= i < |items| && items[i].entry == entry { assert EntryNames(items)[i] in EntryNames(items); }
    }
    hide MinTimestamp, InternAll;
  }

  // ---- writing ------------------------------------------------------------------------------------

  lemma {:induction false} TypeOfBody(items: seq<Rec>)
    requires items != [] && InModel(items)
    ensures Get(EncodeItems(items).headers, CONTENT_TYPE) == OCTET_STREAM
    ensures Get(EncodeItems(items).headers, CONTENT_LENGTH) == FormatInt(|BodyOf(items)|)
    ensures LAST !in EncodeItems(items).headers
  {
    hide EncRun, EncodeList, MinTimestamp, NameAt, IndexAll, BodyOf, FormatInt, IsNameBefore, Entries;
    EntriesAreBytes(items);
    var startTS, base, indexed := MinTimestamp(items), BaseHeaders(items), IndexAll(items);
    TableIsBytes(items, startTS, base);
    FixedNamesDiffer();
    FixedIsNeverAName(indexed, startTS, |items|, CONTENT_TYPE);
    RunHeaderKeys(indexed, startTS, base, |items|, CONTENT_TYPE);
    FixedIsNeverAName(indexed, startTS, |items|, LAST);
    RunHeaderKeys(indexed, startTS, base, |items|, LAST);
  }

  /** A write tells the type and the length of its body, which is all data in the order of the rows; it ends no query. */
  lemma {:induction false} WriteIsFramed(items: seq<Rec>)
    requires items != [] && InModel(items) && |BodyOf(items)| <= MAX_INT64
    ensures var req := EncodeItems(items);
            && Get(req.headers, "content-type") == "application/octet-stream"
            && ParseInt(Get(req.headers, "content-length")) == Some(|req.body|) && req.contentLength == |req.body|
            && req.body == Bodies.Concat(DataOf(items)) && "x-reduct-last" !in req.headers
            && Lists(req.entries, req.startTS, items)
  {
    hide FormatInt, ParseInt, Entries, MinTimestamp, EncEnd, Get;
    TypeOfBody(items);
    EntriesAreNames(items);
    FormatParse(|BodyOf(items)|);
    EntriesAreBytes(items);
    TableIsBytes(items, MinTimestamp(items), BaseHeaders(items));
  }

  // ---- updating and removing ----------------------------------------------------------------------

  lemma {:induction false} FixedOnTop(h: Header, items: seq<Rec>, key: string)
    requires items != [] && AllBytes(Entries(items))
    ensures Get(WithFixed(h, items), CONTENT_LENGTH) == "0"
    ensures key !in {ENTRIES, START_TS, CONTENT_LENGTH} ==>
              (key in WithFixed(h, items) <==> key in h) && Get(WithFixed(h, items), key) == Get(h, key)
  {
    hide EncodeList, MinTimestamp, Entries, FormatInt;
    FixedNamesDiffer();
  }

  lemma NoRecordIsFixed(items: seq<Rec>, key: string)
    requires items != [] && key in {ENTRIES, START_TS, LABELS, LAST, CONTENT_TYPE, CONTENT_LENGTH}
    ensures key !in RecordNames(items)
  {
    hide MinTimestamp, IndexAll, HeaderName, DeltaFrom;
    forall i | 0 <= i < |items| ensures RecordNames(items)[i] != key {
      RecordNameAt(items, i);
      FixedIsNotName(key, IndexAll(items)[i].entryIndex, DeltaFrom(MinTimestamp(items), items[i]));
    }
  }

  /** A removal says nothing about its records but their names, and has no body and no label names. */
  lemma {:induction false} RemovalIsFramed(items: seq<Rec>)
    requires items != [] && NamesAreBytes(items) && InMachine(items) && DistinctRecs(items)
    ensures var req := EncodeRemove(items);
            && (forall i :: 0 <= i < |items| ==>
                  RecordNames(items)[i] in req.headers && Get(req.headers, RecordNames(items)[i]) == "")
            && Get(req.headers, "content-length") == "0" && "content-type" !in req.headers && "x-reduct-labels" !in req.headers
            && Lists(req.entries, req.startTS, items)
  {
    hide MinTimestamp, Entries, RecordNames, PutAll, Get, WithFixed, EncodeList;
    EntriesAreBytes(items);
    EntriesAreNames(items);
    V2Meaning.RecordNamesAreDistinct(items);
    var names, rows := RecordNames(items), seq(|items|, i => "");
    var h := PutAll(map[], names, rows);
    FixedNamesDiffer();
    forall i | 0 <= i < |items| ensures names[i] in WithFixed(h, items) && Get(WithFixed(h, items), names[i]) == "" {
      PutAllValue(map[], names, rows, i);
      NoneAreFixed(items, i);
      FixedOnTop(h, items, names[i]);
      GetSingle(h, names[i], "");
    }
    NoRecordIsFixed(items, CONTENT_TYPE);
    NoRecordIsFixed(items, LABELS);
    PutAllKeys(map[], names, rows, CONTENT_TYPE);
    PutAllKeys(map[], names, rows, LABELS);
    FixedOnTop(h, items, CONTENT_TYPE);
    FixedOnTop(h, items, LABELS);
  }

  lemma NoneAreFixed(items: seq<Rec>, i: nat)
    requires i < |items|
    ensures RecordNames(items)[i] !in {ENTRIES, START_TS, LABELS, LAST, CONTENT_TYPE, CONTENT_LENGTH}
  {
    hide RecordNames;
    NoRecordIsFixed(items, ENTRIES);
    NoRecordIsFixed(items, START_TS);
    NoRecordIsFixed(items, LABELS);
    NoRecordIsFixed(items, LAST);
    NoRecordIsFixed(items, CONTENT_TYPE);
    NoRecordIsFixed(items, CONTENT_LENGTH);
    assert RecordNames(items)[i] in RecordNames(items);
  }

  lemma GetSingle(h: Header, name: string, value: string)
    requires name in h && h[name] == [value]
    ensures Get(h, name) == value
  {}

  /** An update has no body either. */
  lemma {:induction false} UpdateIsFramed(items: seq<Rec>)
    requires items != [] && UpdateInModel(items) && InMachine(items)
    ensures var req := EncodeUpdate(items);
            && Get(req.headers, "content-length") == "0" && "content-type" !in req.headers
            && Lists(req.entries, req.startTS, items)
  {
    hide MinTimestamp, Entries, RecordNames, PutAll, WithFixed, EncodeList, UpdateTable, UpdateText;
    EntriesAreBytes(items);
    UpdateTableIsBytes(items);
    EntriesAreNames(items);
    var h := PutAll(map[], RecordNames(items), UpdateRows(items));
    FixedNamesDiffer();
    NoRecordIsFixed(items, CONTENT_TYPE);
    PutAllKeys(map[], RecordNames(items), UpdateRows(items), CONTENT_TYPE);
    FixedOnTop(h, items, CONTENT_TYPE);
  }

  /** The list means one operation for each given label, in the order of their names: a value, or a removal. */
  ghost predicate NamesGiven(list: string, table: seq<string>, labels: LabelMap, ops: seq<NameOp>) {
    && Means(list, table, ops) && (forall key :: HasKey(ops, key) <==> key in labels)
    && (forall i, j :: 0 <= i < j < |ops| ==> StrLess(ops[i].key, ops[j].key))
    && forall i :: 0 <= i < |ops| ==> ops[i].key in labels && GivesValue(labels[ops[i].key], ops[i].value)
  }

  ghost predicate GivesValue(v: LabelValue, value: Option<string>) {
    match v case Nil => value == None case Printed(text) => ValueIs(Carried(text), value)
  }

  lemma {:induction false} TextNamesGiven(names: seq<string>, labels: LabelMap, table: seq<string>)
    requires AsciiLabels(Given(labels)) && SafeLabels(Given(labels)) && GoodTable(table) && UpdateNames(names, labels) <= table
    ensures labels == map[] ==> UpdateText(names, labels) == ""
    ensures labels != map[] ==> UpdateText(names, labels) != ""
    ensures exists ops :: NamesGiven(UpdateText(names, labels), table, labels, ops)
  {
    hide UpdateText, UpdateNames, SafeLabels, GoodTable, Means, Trim, ParseOps, Carried, ValueIs, StrLess, UpdateOps;
    V2Meaning.UpdateParses(names, labels, table);
    V2Meaning.SortedKeysNoDup(labels);
    var keys, ops := SortedKeys(labels.Keys), ArrivedOps(UpdateOps(names, labels), table);
    ParseIff(UpdateText(names, labels), table, ops);
    forall i | 0 <= i < |ops| ensures ops[i].key in labels && GivesValue(labels[ops[i].key], ops[i].value) {
      if labels[keys[i]].Printed? { TrimmedIs(Carried(labels[keys[i]].text), ops[i].value); }
    }
    forall key ensures HasKey(ops, key) <==> key in labels {
      if key in labels {
        assert key in keys;
        var i :| 0 <= i < |keys| && keys[i] == key;
        assert ops[i].key == key;
      }
    }
    assert NamesGiven(UpdateText(names, labels), table, labels, ops);
    if labels == map[] {
      EmptyUpdate(names, labels);
      NothingToPrint(names, labels);
    } else {
      var k :| k in labels;
      assert k in keys && |UpdateOps(names, labels)| == |ops|;
      SomeText(names, labels);
    }
  }

  lemma SomeText(names: seq<string>, labels: LabelMap)
    requires AsciiLabels(Given(labels)) && UpdateOps(names, labels) != []
    ensures UpdateText(names, labels) != ""
  {
    hide PrintOps;
    PrintedStart(UpdateOps(names, labels));
  }

  /** The row of an update is a zero, and its labels if it has any, each once, with the given value or as a removal. */
  lemma {:induction false} UpdateSaysGiven(items: seq<Rec>, i: nat, table: seq<string>)
    requires V2Meaning.SafeUpdates(items) && i < |items|
    requires V2Decode.ParseLabelTable(EncodeUpdate(items).headers) == Ok(table)
    ensures var row := Get(EncodeUpdate(items).headers, RecordNames(items)[i]);
            if items[i].labels == map[] then row == "0"
            else exists list, ops :: row == "0,," + list && NamesGiven(list, table, items[i].labels, ops)
  {
    hide UpdateText, Get, RecordNames, EncodeUpdate, V2Decode.ParseLabelTable, NamesGiven, GoodTable, V2RoundTrip.GoodNames;
    V2Meaning.UpdateHeadersHold(items, i);
    V2Meaning.UpdateTableIsGood(items);
    V2Meaning.UpdateTableGrows(items, i + 1, |items|);
    TextNamesGiven(UpdateTable(items, i), items[i].labels, table);
  }

  /** Requests for an empty batch name no entry and no record, and start at zero. */
  lemma EmptyRequests()
    ensures EncodeBatch([]).entries == EMPTY_UPDATE.entries == [] && EncodeBatch([]).startTS == EMPTY_UPDATE.startTS == 0
    ensures EncodeBatch([]).body == [] && EncodeBatch([]).contentLength == 0
    ensures EncodeBatch([]).headers.Keys == {"x-reduct-entries", "x-reduct-start-ts", "content-type", "content-length"}
    ensures EMPTY_UPDATE.headers.Keys == {"x-reduct-entries", "x-reduct-start-ts", "content-length"}
    ensures forall h :: h in {EncodeBatch([]).headers, EMPTY_UPDATE.headers} ==>
              Get(h, "x-reduct-entries") == "" && Get(h, "x-reduct-start-ts") == "0" && Get(h, "content-length") == "0"
  {
    FixedNamesDiffer();
  }
}
