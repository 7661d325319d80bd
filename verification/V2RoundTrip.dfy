/**
 * Batch Protocol v2, write and read put together: the delta chain is replayed
 * exactly, the body is cut where it was joined, and the whole batch comes back.
 */
module V2RoundTrip {
  import opened Text
  import opened Ordering
  import opened Decimal
  import opened HeaderList
  import opened Headers
  import opened NameTable
  import opened LabelOps
  import opened LabelDelta
  import opened V2Encode
  import opened Bodies
  import opened V2Decode
  import opened V2Order

  // ---- one header value ---------------------------------------------------------------------

  /** A content type that survives the wire: no comma, nothing to trim. */
  predicate GoodType(contentType: string) {
    contentType != "" && ',' !in contentType && Trim(contentType) == contentType
  }

  ghost predicate SafeRec(r: Rec) {
    && GoodType(EffectiveType(r.contentType))
    && SafeLabels(Normalize(r.labels))
    && |r.data| <= MAX_INT64
  }

  /** What the reader makes of a record: its labels arrive carried, trimmed and without blank ones. */
  function Expected(r: Rec): ParsedHeader {
    ParsedHeader(|r.data|, EffectiveType(r.contentType), Arrived(Normalize(r.labels)))
  }

  /** The two sides remember the same about an entry: its content type, and the image of its labels. */
  ghost predicate SameMeta(meta: Option<Meta>, header: Option<ParsedHeader>) {
    && (meta.Some? <==> header.Some?)
    && (meta.Some? ==> header.value.contentType == meta.value.contentType
                       && header.value.labels == Arrived(meta.value.labels)
                       && GoodType(meta.value.contentType))
  }

  lemma RowShape(size: nat, ctPart: string, delta: string)
    ensures var d := FormatInt(size);
            RowValue(size, ctPart, delta) ==
              if ctPart == "" && delta == "" then d
              else if delta == "" then d + [','] + ctPart
              else d + [','] + (ctPart + [','] + delta)
  {
    var d := FormatInt(size);
    hide FormatInt;
    var two, three := [d, ctPart], [d, ctPart, delta];
    assert [d] + [ctPart] == two && two + [delta] == three;
    assert two[1..] == [ctPart] && three[1..] == [ctPart, delta] && three[1..][1..] == [delta];
    assert [ctPart, delta][1..] == [delta];
    assert Join([ctPart, delta], ',') == ctPart + [','] + delta;
    assert Join(two, ',') == d + [','] + ctPart;
    assert Join(three, ',') == d + [','] + (ctPart + [','] + delta);
  }

  /** The size is read from the text before the first comma. */
  lemma SizeOnly(size: nat, previous: Option<ParsedHeader>, labelNames: seq<string>)
    requires size <= MAX_INT64 && previous.Some?
    ensures HeaderOf(FormatInt(size), previous, labelNames)
            == Ok(ParsedHeader(size, previous.value.contentType, previous.value.labels))
  {
    FormatChars(size);
    FormatParse(size);
    hide Index, Trim, ParseInt;
    assert ',' !in FormatInt(size);
  }

  lemma SizeAndRest(size: nat, rest: string, previous: Option<ParsedHeader>, labelNames: seq<string>)
    requires size <= MAX_INT64
    ensures HeaderOf(FormatInt(size) + [','] + rest, previous, labelNames)
            == HeaderWithType(size, rest, previous, labelNames)
  {
    var d := FormatInt(size);
    FormatChars(size);
    FormatParse(size);
    assert ',' !in d;
    hide Index, Trim, ParseInt, HeaderWithType;
    IndexAfter(d, ',', rest);
    var raw := d + [','] + rest;
    assert raw[..|d|] == d && raw[|d| + 1..] == rest;
  }

  lemma TypeOnly(size: nat, ct: string, previous: Option<ParsedHeader>, labelNames: seq<string>)
    requires GoodType(ct)
    ensures HeaderWithType(size, ct, previous, labelNames) == Ok(ParsedHeader(size, ct, BaseLabels(previous)))
  {
    hide Trim, BaseLabels;
  }

  lemma TypeAndLabels(size: nat, ctPart: string, delta: string, previous: Option<ParsedHeader>, labelNames: seq<string>)
    requires ',' !in ctPart
    ensures HeaderWithType(size, ctPart + [','] + delta, previous, labelNames)
            == var labels := ApplyDelta(delta, BaseLabels(previous), labelNames);
               if labels.Err? then Err(labels.error) else Ok(ParsedHeader(size, TypeOf(ctPart, previous), labels.value))
  {
    hide Index, ApplyDelta, TypeOf, BaseLabels;
    IndexAfter(ctPart, ',', delta);
    var rest := ctPart + [','] + delta;
    assert rest[..|ctPart|] == ctPart && rest[|ctPart| + 1..] == delta;
  }

  lemma EmptyDelta(labels: Labels, labelNames: seq<string>)
    ensures ApplyDelta("", labels, labelNames) == Ok(labels)
  {}

  /**
   * One row of the delta chain, in all its forms: whatever the previous record
   * of the entry was, the reader gets the record's own metadata.
   */
  lemma RowDecodes(names: seq<string>, r: Rec, meta: Option<Meta>, header: Option<ParsedHeader>, final: seq<string>)
    requires SafeRec(r) && AsciiRec(r) && GoodTable(final) && SameMeta(meta, header)
    requires var prev := if meta.Some? then meta.value.labels else map[];
             DeltaNames(names, prev, Normalize(r.labels)) <= final
    ensures var prev := if meta.Some? then meta.value.labels else map[];
            var ct := EffectiveType(r.contentType);
            var ctPart := if meta.Some? && meta.value.contentType == ct then "" else ct;
            HeaderOf(RowValue(|r.data|, ctPart, DeltaText(names, prev, Normalize(r.labels))), header, final)
            == Ok(Expected(r))
  {
    hide Trim, Index, ParseInt, FormatInt, HeaderOf, HeaderWithType, RowValue, ApplyDelta, DeltaText, DeltaNames,
         Normalize, GoodTable;
    var prev := if meta.Some? then meta.value.labels else map[];
    var ct := EffectiveType(r.contentType);
    var ctPart := if meta.Some? && meta.value.contentType == ct then "" else ct;
    var cur := Normalize(r.labels);
    var delta := DeltaText(names, prev, cur);
    DeltaApplies(names, prev, cur, final);
    assert BaseLabels(header) == Arrived(prev);
    RowShape(|r.data|, ctPart, delta);
    if delta == "" {
      EmptyDelta(Arrived(prev), final);
      if ctPart == "" {
        SizeOnly(|r.data|, header, final);
      } else {
        SizeAndRest(|r.data|, ctPart, header, final);
        TypeOnly(|r.data|, ct, header, final);
      }
    } else {
      SizeAndRest(|r.data|, ctPart + [','] + delta, header, final);
      TypeAndLabels(|r.data|, ctPart, delta, header, final);
      TypePartDecodes(ct, ctPart, header);
    }
  }

  lemma TypePartDecodes(ct: string, ctPart: string, header: Option<ParsedHeader>)
    requires GoodType(ct)
    requires ctPart == ct || (ctPart == "" && header.Some? && header.value.contentType == ct)
    ensures TypeOf(ctPart, header) == ct
  {}

  // ---- the delta chain --------------------------------------------------------------------------

  ghost function MetaAt(st: EncState, k: int): Option<Meta> {
    if k >= 0 && k in st.last then Some(st.last[k]) else None
  }

  ghost function HeaderAt(dec: DecState, k: int): Option<ParsedHeader> {
    if k in dec.last then Some(dec.last[k]) else None
  }

  /** For every entry at once, the reader remembers the image of what the writer remembers. */
  ghost predicate Simulates(dec: DecState, st: EncState) {
    forall k: int :: SameMeta(MetaAt(st, k), HeaderAt(dec, k))
  }

  lemma SimulationStep(st: EncState, dec: DecState, startTS: int, item: Indexed, row: RecordHeader,
                       entries: seq<string>, final: seq<string>)
    requires SafeRec(item.record) && AsciiRec(item.record) && GoodTable(final)
    requires Simulates(dec, st)
    requires row.entryIndex == item.entryIndex < |entries|
    requires row.rawValue == RowOf(st, item.record, item.entryIndex)
    requires EncStep(st, startTS, item).names <= final
    ensures var next := DecStep(dec, row, entries, final);
            && next.Ok?
            && next.value.parsed == dec.parsed + [Expected(item.record)]
            && Simulates(next.value, EncStep(st, startTS, item))
  {
    hide RowValue, DeltaText, DeltaNames, HeaderOf, GoodTable, Normalize, Arrived, HeaderName, DeltaFrom;
    var r, idx := item.record, item.entryIndex;
    assert SameMeta(MetaAt(st, idx), HeaderAt(dec, idx));
    RowDecodes(st.names, r, MetaAt(st, idx), HeaderAt(dec, idx), final);
    var next, st' := DecStep(dec, row, entries, final).value, EncStep(st, startTS, item);
    forall k: int ensures SameMeta(MetaAt(st', k), HeaderAt(next, k)) {
      if k != idx {
        assert MetaAt(st', k) == MetaAt(st, k) && HeaderAt(next, k) == HeaderAt(dec, k);
        assert SameMeta(MetaAt(st, k), HeaderAt(dec, k));
      }
    }
  }

  /** The label table only grows, so every number given out early stays good. */
  lemma {:induction false} TableGrows(indexed: seq<Indexed>, startTS: int, base: Header, n: nat, m: nat)
    requires n <= m <= |indexed| && AsciiIndexed(indexed)
    ensures EncRun(indexed, startTS, base, n).names <= EncRun(indexed, startTS, base, m).names
    ensures NoDup(EncRun(indexed, startTS, base, m).names)
    decreases m
  {
    hide DeltaText, RowOf, HeaderName, ChangedKeys, MetaOf, DeltaFrom;
    if m > 0 {
      TableGrows(indexed, startTS, base, if n == m then n - 1 else n, m - 1);
      var st, item := EncRun(indexed, startTS, base, m - 1), indexed[m - 1];
      InternAllGrows(st.names, ChangedKeys(PrevLabels(st.last, item.entryIndex), Normalize(item.record.labels)));
    }
  }

  ghost predicate SafeRecs(items: seq<Rec>) {
    forall i :: 0 <= i < |items| ==> SafeRec(items[i])
  }

  /** `rows` carries the encoder's values for the indexed records. */
  ghost predicate RowsOf(rows: seq<RecordHeader>, indexed: seq<Indexed>, startTS: int, base: Header)
    requires AsciiIndexed(indexed)
  {
    |rows| == |indexed| && forall i :: 0 <= i < |rows| ==>
      rows[i].entryIndex == indexed[i].entryIndex && rows[i].rawValue == RawAt(indexed, startTS, base, i)
  }

  function ExpectedAll(indexed: seq<Indexed>, n: nat): (ps: seq<ParsedHeader>)
    requires n <= |indexed|
    ensures |ps| == n
    ensures forall i :: 0 <= i < n ==> ps[i] == Expected(indexed[i].record)
  {
    seq(n, i requires 0 <= i < n => Expected(indexed[i].record))
  }

  lemma ExpectedSnoc(indexed: seq<Indexed>, n: nat)
    requires n < |indexed|
    ensures ExpectedAll(indexed, n + 1) == ExpectedAll(indexed, n) + [Expected(indexed[n].record)]
  {}

  lemma {:induction false} SimulationStart(indexed: seq<Indexed>, startTS: int, base: Header)
    requires AsciiIndexed(indexed)
    ensures Simulates(DecState(map[], []), EncRun(indexed, startTS, base, 0))
    ensures ExpectedAll(indexed, 0) == []
  {}

  /**
   * Delta-chain simulation: after every record the reader's last header of
   * every entry is the image of the writer's last metadata, and all records so
   * far have been read as they were written.
   */
  lemma {:induction false} DeltaChain(rows: seq<RecordHeader>, indexed: seq<Indexed>, startTS: int, base: Header,
                                      entries: seq<string>, final: seq<string>, n: nat)
    requires n <= |indexed| == |rows| && AsciiIndexed(indexed) && RowsOf(rows, indexed, startTS, base)
    requires forall i :: 0 <= i < |indexed| ==> SafeRec(indexed[i].record) && indexed[i].entryIndex < |entries|
    requires GoodTable(final) && EncRun(indexed, startTS, base, |indexed|).names <= final
    ensures var dec := DecRun(rows, entries, final, n);
            && dec.Ok?
            && Simulates(dec.value, EncRun(indexed, startTS, base, n))
            && dec.value.parsed == ExpectedAll(indexed, n)
    decreases n
  {
    hide *;
    if n == 0 {
      ChainStart(rows, indexed, startTS, base, entries, final);
    } else {
      DeltaChain(rows, indexed, startTS, base, entries, final, n - 1);
      TableGrows(indexed, startTS, base, n, |indexed|);
      ChainNext(rows, indexed, startTS, base, entries, final, n - 1);
    }
  }

  lemma {:induction false} ChainStart(rows: seq<RecordHeader>, indexed: seq<Indexed>, startTS: int, base: Header,
                                      entries: seq<string>, final: seq<string>)
    requires AsciiIndexed(indexed)
    ensures DecRun(rows, entries, final, 0) == Ok(DecState(map[], []))
    ensures Simulates(DecState(map[], []), EncRun(indexed, startTS, base, 0)) && ExpectedAll(indexed, 0) == []
  {
    hide Simulates, EncStep, DecStep, AsciiRec;
    SimulationStart(indexed, startTS, base);
  }

  lemma {:induction false} ChainNext(rows: seq<RecordHeader>, indexed: seq<Indexed>, startTS: int, base: Header,
                                     entries: seq<string>, final: seq<string>, n: nat)
    requires n < |indexed| && AsciiIndexed(indexed) && RowsOf(rows, indexed, startTS, base) && GoodTable(final)
    requires SafeRec(indexed[n].record) && indexed[n].entryIndex < |entries| && n < |rows|
    requires EncRun(indexed, startTS, base, n + 1).names <= final
    requires DecRun(rows, entries, final, n).Ok?
    requires Simulates(DecRun(rows, entries, final, n).value, EncRun(indexed, startTS, base, n))
    requires DecRun(rows, entries, final, n).value.parsed == ExpectedAll(indexed, n)
    ensures DecRun(rows, entries, final, n + 1).Ok?
    ensures Simulates(DecRun(rows, entries, final, n + 1).value, EncRun(indexed, startTS, base, n + 1))
    ensures DecRun(rows, entries, final, n + 1).value.parsed == ExpectedAll(indexed, n + 1)
  {
    hide *;
    EncRunNext(indexed, startTS, base, n);
    DecRunNext(rows, entries, final, n);
    RowAt(rows, indexed, startTS, base, n);
    SimulationStep(EncRun(indexed, startTS, base, n), DecRun(rows, entries, final, n).value, startTS, indexed[n], rows[n],
                   entries, final);
    ExpectedSnoc(indexed, n);
  }

  lemma {:induction false} EncRunNext(indexed: seq<Indexed>, startTS: int, base: Header, n: nat)
    requires n < |indexed| && AsciiIndexed(indexed)
    ensures AsciiRec(indexed[n].record)
    ensures EncRun(indexed, startTS, base, n + 1) == EncStep(EncRun(indexed, startTS, base, n), startTS, indexed[n])
  {
    hide EncStep, AsciiRec;
  }

  lemma {:induction false} DecRunNext(rows: seq<RecordHeader>, entries: seq<string>, final: seq<string>, n: nat)
    requires n < |rows| && DecRun(rows, entries, final, n).Ok?
    ensures DecRun(rows, entries, final, n + 1) == DecStep(DecRun(rows, entries, final, n).value, rows[n], entries, final)
  {
    hide DecStep;
  }

  lemma {:induction false} RowAt(rows: seq<RecordHeader>, indexed: seq<Indexed>, startTS: int, base: Header, n: nat)
    requires AsciiIndexed(indexed) && RowsOf(rows, indexed, startTS, base) && n < |indexed|
    ensures |rows| == |indexed| && AsciiRec(indexed[n].record) && rows[n].entryIndex == indexed[n].entryIndex
    ensures rows[n].rawValue == RowOf(EncRun(indexed, startTS, base, n), indexed[n].record, indexed[n].entryIndex)
  {
    hide EncRun, RowOf, AsciiRec;
  }

  // ---- the body -----------------------------------------------------------------------------------

  function DataSizes(items: seq<Rec>): (sizes: seq<nat>)
    ensures |sizes| == |items|
    ensures forall i :: 0 <= i < |items| ==> sizes[i] == |items[i].data|
  {
    Lengths(DataOf(items))
  }

  /** Every record's window of the joined body is its own data. */
  lemma {:induction false} WindowIsData(items: seq<Rec>, i: nat)
    requires i < |items|
    ensures Offset(DataSizes(items), |items| - 1) <= |BodyOf(items)|
    ensures Window(DataSizes(items), BodyOf(items), i) == items[i].data
  {
    hide Offset, Window, Concat;
    WindowOfConcat(DataOf(items), i);
  }

  // ---- the whole batch ---------------------------------------------------------------------------

  /** The entry that a name sent in the entry list is read as. */
  function EntryRead(entry: string): string {
    var decoded := Unescape(entry);
    if decoded.Some? then decoded.value else entry
  }

  /** The record that the reader should return for item `i` of the batch. */
  function ExpectedView(items: seq<Rec>, last: bool, i: nat): RecordView
    requires i < |items|
  {
    var r := items[i];
    RecordView(EntryRead(r.entry), r.timestamp, |r.data|, last && i == |items| - 1, i == |items| - 1, r.data,
               Arrived(Normalize(r.labels)), EffectiveType(r.contentType))
  }

  function ExpectedViews(items: seq<Rec>, last: bool): (vs: seq<RecordView>)
    ensures |vs| == |items|
    ensures forall i :: 0 <= i < |items| ==> vs[i] == ExpectedView(items, last, i)
  {
    seq(|items|, i requires 0 <= i < |items| => ExpectedView(items, last, i))
  }

  ghost predicate GoodNames(items: seq<Rec>) {
    && (forall i :: 0 <= i < |items| ==> items[i].entry != "")
    && (forall i :: 0 <= i < |items| ==> forall k :: k in items[i].labels ==> k != "" && '%' !in k)
  }

  /** The entries that come back as they are. */
  ghost predicate GoodEntries(items: seq<Rec>) {
    forall i :: 0 <= i < |items| ==> items[i].entry != "" && '%' !in items[i].entry
  }

  /** The entries that the reader can decode. */
  ghost predicate EntriesDecode(items: seq<Rec>) {
    forall i :: 0 <= i < |items| ==> Unescape(items[i].entry).Some?
  }

  /** The batches the format is for: names, types and values that can be told apart, in numbers a machine can hold. */
  ghost predicate SafeItems(items: seq<Rec>) {
    && items != [] && InModel(items) && InMachine(items) && StrictSorted(items, RecLess)
    && GoodNames(items) && SafeRecs(items)
    && |LabelNames(items)| <= MAX_INT64
  }

  lemma EntryIsUsed(items: seq<Rec>, k: nat)
    requires k < |Entries(items)|
    ensures exists i :: 0 <= i < |items| && items[i].entry == Entries(items)[k]
  {
    InternAllMembers([], EntryNames(items), Entries(items)[k]);
    var i :| 0 <= i < |items| && EntryNames(items)[i] == Entries(items)[k];
  }

  lemma EntryListNames(items: seq<Rec>)
    requires GoodNames(items)
    ensures forall k :: 0 <= k < |Entries(items)| ==> Entries(items)[k] != ""
    ensures Decodable(Entries(items)) <==> EntriesDecode(items)
  {
    var es := Entries(items);
    hide Entries, Unescape;
    forall k | 0 <= k < |es| ensures exists i :: 0 <= i < |items| && items[i].entry == es[k] { EntryIsUsed(items, k); }
    forall i | 0 <= i < |items| ensures items[i].entry in es { EntryIsIn(items, i); }
    if Decodable(es) {
      forall i | 0 <= i < |items| ensures Unescape(items[i].entry).Some? { assert items[i].entry in es; }
    }
  }

  lemma GoodLabelTable(items: seq<Rec>)
    requires SafeItems(items)
    ensures GoodTable(EncEnd(items).names)
    ensures forall k :: 0 <= k < |EncEnd(items).names| ==> '%' !in EncEnd(items).names[k]
  {
    hide EncRun;
    EntriesAreBytes(items);
    var startTS, base, indexed := MinTimestamp(items), BaseHeaders(items), IndexAll(items);
    TableIsBytes(items, startTS, base);
    TableGrows(indexed, startTS, base, 0, |items|);
    RunComesFrom(indexed, startTS, base, |items|);
    var names := EncEnd(items).names;
    forall k | 0 <= k < |names| ensures names[k] != "" && '%' !in names[k] && names[k] in LabelNames(items) {
      assert UsedBefore(indexed, |items|, names[k]);
      var i :| 0 <= i < |items| && names[k] in indexed[i].record.labels;
      assert items[i] == indexed[i].record;
    }
    NoDupFits(names, LabelNames(items));
  }

  /** The fixed headers parse back to what the encoder had, the entry names decoded. */
  lemma {:induction false} ListsDecode(items: seq<Rec>, mark: string)
    requires SafeItems(items)
    ensures Get(SentHeaders(items, mark), ENTRIES) != ""
    ensures ParseList(Get(SentHeaders(items, mark), ENTRIES))
            == if Decodable(Entries(items)) then Ok(DecodedAll(Entries(items))) else Err("invalid URL escape")
    ensures Get(SentHeaders(items, mark), START_TS) != ""
    ensures ParseInt(Get(SentHeaders(items, mark), START_TS)) == Some(MinTimestamp(items))
    ensures ParseLabelTable(SentHeaders(items, mark)) == Ok(EncEnd(items).names)
    ensures EqualFold(Get(SentHeaders(items, mark), LAST), "true") == SaysTrue(mark)
  {
    hide Trim, Split, MinTimestamp, FormatNat, ParseInt, EncRun, EncodeList, ParseList, SentHeaders, Get, Entries,
         IndexAll, Decodable;
    SentFixed(items, mark);
    EntryListNames(items);
    EntryIsIn(items, 0);
    ListArrives(Entries(items));
    LabelTableArrives(items);
    MinTimestampIsLeast(items);
    FormatParse(MinTimestamp(items));
    FormatChars(MinTimestamp(items));
    TrueFolds(mark);
  }

  lemma LabelTableArrives(items: seq<Rec>)
    requires SafeItems(items)
    ensures AllBytes(EncEnd(items).names) && ParseList(EncodeList(EncEnd(items).names)) == Ok(EncEnd(items).names)
    ensures EncEnd(items).names != [] ==> EncodeList(EncEnd(items).names) != ""
  {
    hide EncRun, Entries, MinTimestamp, ParseList, EncodeList;
    EntriesAreBytes(items);
    TableIsBytes(items, MinTimestamp(items), BaseHeaders(items));
    GoodLabelTable(items);
    ListRoundTripIff(EncEnd(items).names);
    ListArrives(EncEnd(items).names);
  }

  lemma {:induction false} SentRowsAreRows(items: seq<Rec>)
    requires items != [] && InModel(items)
    ensures AllBytes(Entries(items)) && AsciiIndexed(IndexAll(items)) && |IndexAll(items)| == |items|
    ensures RowsOf(SentRows(items), IndexAll(items), MinTimestamp(items), BaseHeaders(items))
    ensures EncEnd(items).names == EncRun(IndexAll(items), MinTimestamp(items), BaseHeaders(items), |items|).names
  {
    hide EncRun, RawAt, Entries, MinTimestamp, DeltaFrom, EncodeList;
    EntriesAreBytes(items);
    TableIsBytes(items, MinTimestamp(items), BaseHeaders(items));
  }

  lemma IndexedAreGood(items: seq<Rec>)
    requires SafeItems(items)
    ensures forall i :: 0 <= i < |IndexAll(items)| ==>
              SafeRec(IndexAll(items)[i].record) && IndexAll(items)[i].entryIndex < |Entries(items)|
  {
    hide SafeRec, Entries;
    forall i | 0 <= i < |IndexAll(items)|
      ensures SafeRec(IndexAll(items)[i].record) && IndexAll(items)[i].entryIndex < |Entries(items)| {
      IndexBound(items, i);
      assert SafeRec(items[i]);
    }
  }

  /** Replaying the encoder's rows against the decoded lists gives back every record's metadata. */
  lemma {:induction false} RowsReplay(items: seq<Rec>)
    requires SafeItems(items)
    requires Decodable(Entries(items))
    ensures var run := DecRun(SentRows(items), DecodedAll(Entries(items)), EncEnd(items).names, |items|);
            run.Ok? && run.value.parsed == ExpectedAll(IndexAll(items), |items|)
  {
    SentRowsAreRows(items);
    GoodLabelTable(items);
    IndexedAreGood(items);
    hide *;
    DeltaChain(SentRows(items), IndexAll(items), MinTimestamp(items), BaseHeaders(items), DecodedAll(Entries(items)),
               EncEnd(items).names, |items|);
  }

  lemma {:induction false} ExpectedSizes(items: seq<Rec>)
    ensures SizesOf(ExpectedAll(IndexAll(items), |items|)) == DataSizes(items)
    ensures BodySizes(DataSizes(items)) == DataSizes(items)
    ensures !SlicingPanics(DataSizes(items))
    ensures items != [] ==> BufferedSize(DataSizes(items)) <= |BodyOf(items)|
  {
    if items != [] {
      BufferedIsOffset(DataSizes(items));
      WindowIsData(items, 0);
    }
  }

  lemma {:induction false} ContentIsData(items: seq<Rec>, i: nat)
    requires i < |items|
    ensures BufferedSize(DataSizes(items)) <= |BodyOf(items)|
    ensures ContentOf(DataSizes(items), BodyOf(items), false, i) == items[i].data
  {
    hide Offset, BufferedSize, Window;
    ExpectedSizes(items);
    WindowIsData(items, i);
  }

  lemma {:induction false} RowOfItem(items: seq<Rec>, i: nat)
    requires SafeItems(items) && i < |items| && Decodable(Entries(items))
    ensures |SentRows(items)| == |items| && 0 <= SentRows(items)[i].entryIndex < |Entries(items)|
    ensures DecodedAll(Entries(items))[SentRows(items)[i].entryIndex] == EntryRead(items[i].entry)
    ensures Wrap64(MinTimestamp(items) + SentRows(items)[i].delta) == items[i].timestamp
  {
    hide Entries, MinTimestamp, DeltaFrom, RawAt, GoodNames, SafeRecs, EncEnd, LabelNames, Wrap64, InInt64, BaseHeaders,
         IndexAll, Unescape;
    IndexBound(items, i);
    DeltaExact(items, i);
  }

  lemma {:induction false} ViewIsExpected(items: seq<Rec>, last: bool, i: nat)
    requires SafeItems(items) && i < |items| && Decodable(Entries(items))
    ensures |SentRows(items)| == |items| && 0 <= SentRows(items)[i].entryIndex < |DecodedAll(Entries(items))|
    ensures BufferedSize(SizesOf(ExpectedAll(IndexAll(items), |items|))) <= |BodyOf(items)|
    ensures ViewOf(SentRows(items), ExpectedAll(IndexAll(items), |items|), DecodedAll(Entries(items)), MinTimestamp(items),
                   last, BodyOf(items), false, i)
            == ExpectedView(items, last, i)
  {
    hide ContentOf, BufferedSize, Entries, MinTimestamp, SentRows, Arrived, Normalize, BodyOf, SafeItems, DataSizes;
    RowOfItem(items, i);
    ExpectedSizes(items);
    ContentIsData(items, i);
  }

  lemma BuildViewsIs(hs: seq<RecordHeader>, parsed: seq<ParsedHeader>, entries: seq<string>, startTS: int,
                     last: bool, data: bytes, views: seq<RecordView>)
    requires |hs| == |parsed| == |views| && forall i :: 0 <= i < |hs| ==> 0 <= hs[i].entryIndex < |entries|
    requires BufferedSize(SizesOf(parsed)) <= |data| && !SlicingPanics(SizesOf(parsed))
    requires forall i :: 0 <= i < |hs| ==> ViewOf(hs, parsed, entries, startTS, last, data, false, i) == views[i]
    ensures BuildViews(hs, parsed, entries, startTS, last, Whole(data), false) == Fetched(views)
  {
    hide ViewOf, BufferedSize, SlicingPanics;
    assert seq(|hs|, i requires 0 <= i < |hs| => ViewOf(hs, parsed, entries, startTS, last, data, false, i)) == views;
  }

  /** The records built from the replayed headers and the joined body. */
  lemma {:induction false} ViewsAreExpected(items: seq<Rec>, last: bool)
    requires SafeItems(items) && Decodable(Entries(items))
    ensures |SentRows(items)| == |items| && items != []
    ensures forall i :: 0 <= i < |items| ==> 0 <= SentRows(items)[i].entryIndex < |DecodedAll(Entries(items))|
    ensures BuildViews(SentRows(items), ExpectedAll(IndexAll(items), |items|), DecodedAll(Entries(items)), MinTimestamp(items),
                       last, Whole(BodyOf(items)), false)
            == Fetched(ExpectedViews(items, last))
  {
    assert items != [];
    hide *;
    ExpectedSizes(items);
    forall i | 0 <= i < |items|
      ensures 0 <= SentRows(items)[i].entryIndex < |DecodedAll(Entries(items))|
      ensures ViewOf(SentRows(items), ExpectedAll(IndexAll(items), |items|), DecodedAll(Entries(items)), MinTimestamp(items),
                     last, BodyOf(items), false, i) == ExpectedViews(items, last)[i] {
      ViewIsExpected(items, last, i);
    }
    BuildViewsIs(SentRows(items), ExpectedAll(IndexAll(items), |items|), DecodedAll(Entries(items)), MinTimestamp(items),
                 last, BodyOf(items), ExpectedViews(items, last));
  }

  /** Reading the encoder's rows from the sent headers and the joined body. */
  lemma {:induction false} RowsReadBack(items: seq<Rec>, mark: string)
    requires SafeItems(items) && Decodable(Entries(items))
    ensures ReadContent(SentHeaders(items, mark), Whole(BodyOf(items)), false, false, SentRows(items))
            == Fetched(ExpectedViews(items, SaysTrue(mark)))
  {
    hide ParseList, ParseInt, ParseLabelTable, DecRun, BuildViews, Entries, MinTimestamp, SentHeaders, Get, EqualFold,
         ExpectedAll, ExpectedViews, BodyOf, SafeItems, IndexAll, EncEnd, SentRows, Decodable;
    ListsDecode(items, mark);
    RowsReplay(items);
    ViewsAreExpected(items, SaysTrue(mark));
  }

  // ---- the main theorem ---------------------------------------------------------------------------

  /** What a successful read says about each record's entry and time. */
  lemma FetchedShape(headers: Header, s: Stream, hs: seq<RecordHeader>, entries: seq<string>, startTS: int,
                     views: seq<RecordView>)
    requires ParseList(Get(headers, ENTRIES)) == Ok(entries) && ParseInt(Get(headers, START_TS)) == Some(startTS)
    requires ReadContent(headers, s, false, false, hs) == Fetched(views)
    ensures |views| == |hs|
    ensures forall k :: 0 <= k < |hs| ==> 0 <= hs[k].entryIndex < |entries| &&
                                          views[k].entry == entries[hs[k].entryIndex] &&
                                          views[k].time == Wrap64(startTS + hs[k].delta)
  {
    hide ParseList, ParseInt, Get, DecRun, ContentOf, BufferedSize, SlicingPanics, EqualFold, ParseLabelTable;
    if hs != [] {
      var labelNames := ParseLabelTable(headers);
      var run := DecRun(hs, entries, labelNames.value, |hs|);
      DecRunShape(hs, entries, labelNames.value, |hs|);
    }
  }

  /** A record whose delta went negative has no row: its header name is not recognised. */
  lemma {:induction false} FewerAreCollected(items: seq<Rec>, mark: string, order: seq<string>, p: nat)
    requires items != [] && InModel(items) && InMachine(items) && Enumerates(order, SentHeaders(items, mark))
    requires p < |items| && DeltaFrom(MinTimestamp(items), items[p]) < 0
    ensures |Collect(SentHeaders(items, mark), order)| < |items|
  {
    hide SentHeaders, ParseRecordName, Collect, IndexAll, MinTimestamp, DeltaFrom, NameAt, Get, Canonical, InModel, InMachine;
    var sent := SentHeaders(items, mark);
    SentOrderCanonical(items, mark, order);
    CollectDistinct(sent, order);
    var rows := seq(|items|, i requires 0 <= i < |items| =>
      RecordHeader(IndexAll(items)[i].entryIndex, DeltaFrom(MinTimestamp(items), items[i]),
                   Get(sent, NameAt(IndexAll(items), MinTimestamp(items), i))));
    var others := rows[..p] + rows[p + 1..];
    forall x | x in Collect(sent, order) ensures x in others {
      CollectMembers(sent, order, x);
      var key :| key in order && ComesFromKey(x, sent, key);
      SentNamesCanonical(items, mark, key);
      var i: nat :| NamesRecord(items, key, i);
      assert rows[i] == x && others[if i < p then i else i - 1] == x;
    }
    NoMoreThan(Collect(sent, order), others);
  }

  lemma {:induction false} SomeDeltaWraps(items: seq<Rec>)
    requires items != [] && InMachine(items) && !SpanFits(items)
    ensures exists p: nat :: p < |items| && DeltaFrom(MinTimestamp(items), items[p]) < 0
  {
    hide MinTimestamp, DeltaFrom;
    var p, q :| 0 <= p < |items| && 0 <= q < |items| && items[p].timestamp - items[q].timestamp > MAX_INT64;
    DeltaExact(items, p);
    DeltaExact(items, q);
  }

  lemma SafeItemsParts(items: seq<Rec>)
    requires SafeItems(items)
    ensures items != [] && InModel(items) && InMachine(items) && DistinctRecs(items)
  {
    hide InMachine;
  }

  /** When a delta has wrapped, fewer records come back than were sent. */
  lemma {:induction false} WrappedSpanLoses(items: seq<Rec>, mark: string, order: seq<string>, hs: seq<RecordHeader>,
                                            views: seq<RecordView>)
    requires SafeItems(items) && !SpanFits(items) && Enumerates(order, SentHeaders(items, mark))
    requires SortedFrom(hs, SentHeaders(items, mark), order) && |views| == |items|
    ensures ReadContent(SentHeaders(items, mark), Whole(BodyOf(items)), false, false, hs) != Fetched(views)
  {
    SafeItemsParts(items);
    SomeDeltaWraps(items);
    ListsDecode(items, mark);
    hide ReadContent, SentHeaders, Collect, SafeItems, ParseList, ParseInt, InModel, InMachine, MinTimestamp, DeltaFrom,
         SpanFits, Get, Entries;
    var p: nat :| p < |items| && DeltaFrom(MinTimestamp(items), items[p]) < 0;
    FewerAreCollected(items, mark, order, p);
    assert |multiset(hs)| == |multiset(Collect(SentHeaders(items, mark), order))|;
    if ReadContent(SentHeaders(items, mark), Whole(BodyOf(items)), false, false, hs) == Fetched(views) {
      EntriesWereRead(SentHeaders(items, mark), Whole(BodyOf(items)), hs, views);
      FetchedShape(SentHeaders(items, mark), Whole(BodyOf(items)), hs,
                   ParseList(Get(SentHeaders(items, mark), ENTRIES)).value, MinTimestamp(items), views);
    }
  }

  lemma EntriesWereRead(headers: Header, s: Stream, hs: seq<RecordHeader>, views: seq<RecordView>)
    requires ReadContent(headers, s, false, false, hs) == Fetched(views)
    ensures ParseList(Get(headers, ENTRIES)).Ok?
  {
    hide ParseList, Get;
  }

  lemma SameKeySameRecord(items: seq<Rec>, i: nat, p: nat)
    requires DistinctRecs(items) && i < |items| && p < |items|
    requires items[i].entry == items[p].entry && items[i].timestamp == items[p].timestamp
    ensures i == p
  {}

  /** On sorted items: what is read are the records as they arrive, if the span fits and the entries decode. */
  lemma {:induction false} ItemsArrive(items: seq<Rec>, mark: string, order: seq<string>, hs: seq<RecordHeader>)
    requires SafeItems(items) && SpanFits(items) && Enumerates(order, SentHeaders(items, mark))
    requires SortedFrom(hs, SentHeaders(items, mark), order) && Decodable(Entries(items))
    ensures ReadContent(SentHeaders(items, mark), Whole(BodyOf(items)), false, false, hs) == Fetched(ExpectedViews(items, SaysTrue(mark)))
  {
    SafeItemsParts(items);
    OrderRecovery(items, mark, order);
    HeaderLessIsWeakOrder();
    hide ReadContent, SentHeaders, SentRows, Collect, ExpectedViews, Entries, Decodable;
    SortUnique(Collect(SentHeaders(items, mark), order), hs, HeaderLess);
    RowsReadBack(items, mark);
  }

  /** The record as it was given, but for trimming: values trimmed, blank ones dropped. */
  function TrimmedView(items: seq<Rec>, last: bool, i: nat): RecordView
    requires i < |items|
  {
    ExpectedView(items, last, i).(entry := items[i].entry, labels := NormMap(Normalize(items[i].labels)))
  }

  function TrimmedViews(items: seq<Rec>, last: bool): (vs: seq<RecordView>)
    ensures |vs| == |items|
    ensures forall i :: 0 <= i < |items| ==> vs[i] == TrimmedView(items, last, i)
  {
    seq(|items|, i requires 0 <= i < |items| => TrimmedView(items, last, i))
  }

  ghost predicate GoodValues(items: seq<Rec>) {
    forall i :: 0 <= i < |items| ==> GoodLabels(Normalize(items[i].labels))
  }

  lemma ViewTrimmedIff(items: seq<Rec>, last: bool, i: nat)
    requires i < |items| && SafeRec(items[i]) && Unescape(items[i].entry).Some?
    ensures ExpectedView(items, last, i) == TrimmedView(items, last, i)
            <==> GoodLabels(Normalize(items[i].labels)) && '%' !in items[i].entry
  {
    hide Normalize, NormMap, Arrived, GoodLabels, SafeLabels, Unescape;
    ArrivedIsTrimmedIff(Normalize(items[i].labels));
    DecodesToItselfIff(items[i].entry);
  }

  /** Exactly good values and entries without `%` arrive as their trimmed selves. */
  lemma ViewsTrimmedIff(items: seq<Rec>, last: bool)
    requires SafeRecs(items) && GoodNames(items) && EntriesDecode(items)
    ensures ExpectedViews(items, last) == TrimmedViews(items, last) <==> GoodValues(items) && GoodEntries(items)
  {
    hide ExpectedView, TrimmedView, Normalize, GoodLabels, SafeRec, Unescape;
    forall i | 0 <= i < |items|
      ensures ExpectedView(items, last, i) == TrimmedView(items, last, i)
              <==> GoodLabels(Normalize(items[i].labels)) && '%' !in items[i].entry {
      ViewTrimmedIff(items, last, i);
    }
    assert ExpectedViews(items, last) == TrimmedViews(items, last)
           <==> forall i :: 0 <= i < |items| ==> ExpectedViews(items, last)[i] == TrimmedViews(items, last)[i];
  }

  /** With an entry that cannot be decoded nothing is read. */
  lemma {:induction false} UndecodableLoses(items: seq<Rec>, mark: string, hs: seq<RecordHeader>)
    requires SafeItems(items) && !Decodable(Entries(items))
    ensures ReadContent(SentHeaders(items, mark), Whole(BodyOf(items)), false, false, hs) == Failed("invalid URL escape")
  {
    ListsDecode(items, mark);
    hide Entries, Decodable, ParseList, ParseInt, ParseLabelTable, SentHeaders, Get, EqualFold, EncEnd, BodyOf, SafeItems;
  }

  lemma GoodEntriesDecode(items: seq<Rec>)
    requires GoodEntries(items)
    ensures EntriesDecode(items)
  {
    hide Unescape;
    forall i | 0 <= i < |items| ensures Unescape(items[i].entry).Some? { DecodesToItselfIff(items[i].entry); }
  }

  /** The round trip on sorted items: exactly good values for entries without `%` within one int64 span come back. */
  lemma {:induction false} ItemsRoundTripIff(items: seq<Rec>, mark: string, order: seq<string>, hs: seq<RecordHeader>)
    requires SafeItems(items) && Enumerates(order, SentHeaders(items, mark))
    requires SortedFrom(hs, SentHeaders(items, mark), order)
    ensures ReadContent(SentHeaders(items, mark), Whole(BodyOf(items)), false, false, hs) == Fetched(TrimmedViews(items, SaysTrue(mark)))
            <==> SpanFits(items) && GoodValues(items) && GoodEntries(items)
    ensures ReadContent(SentHeaders(items, mark), Whole(BodyOf(items)), false, false, hs) == Fetched(ExpectedViews(items, SaysTrue(mark)))
            <==> SpanFits(items) && EntriesDecode(items)
  {
    assert SafeRecs(items) && GoodNames(items);
    hide *;
    EntryListNames(items);
    if GoodEntries(items) { GoodEntriesDecode(items); }
    if !Decodable(Entries(items)) {
      UndecodableLoses(items, mark, hs);
    } else if SpanFits(items) {
      ItemsArrive(items, mark, order, hs);
      ViewsTrimmedIff(items, SaysTrue(mark));
    } else {
      WrappedSpanLoses(items, mark, order, hs, ExpectedViews(items, SaysTrue(mark)));
      WrappedSpanLoses(items, mark, order, hs, TrimmedViews(items, SaysTrue(mark)));
    }
  }

  /** The batches that Batch Protocol v2 can carry: their values are safe to print. */
  ghost predicate SafeBatch(records: seq<Rec>) {
    && records != [] && InModel(records) && InMachine(records)
    && GoodNames(records) && SafeRecs(records)
    && |LabelNames(records)| <= MAX_INT64
  }

  lemma {:induction false} SortedBatchIsSafe(records: seq<Rec>)
    requires SafeBatch(records)
    ensures SafeItems(Sort(records, RecLess))
    ensures SpanFits(Sort(records, RecLess)) <==> SpanFits(records)
    ensures GoodValues(Sort(records, RecLess)) <==> GoodValues(records)
    ensures GoodEntries(Sort(records, RecLess)) <==> GoodEntries(records)
    ensures EntriesDecode(Sort(records, RecLess)) <==> EntriesDecode(records)
  {
    SafeBatchParts(records);
    hide *;
    SortKeepsModel(records);
    SortMembers(records, RecLess);
    var items := Sort(records, RecLess);
    SameLabelNames(records, items);
    SameRecords(records, items);
    SameSpan(records, items);
    SameConditions(records, items);
    SafeItemsFrom(items);
  }

  lemma SafeBatchParts(records: seq<Rec>)
    requires SafeBatch(records)
    ensures records != [] && InModel(records) && InMachine(records) && GoodNames(records) && SafeRecs(records)
    ensures |LabelNames(records)| <= MAX_INT64
  {
    hide InModel, InMachine, GoodNames, SafeRecs;
  }

  lemma SafeItemsFrom(items: seq<Rec>)
    requires items != [] && InModel(items) && InMachine(items) && StrictSorted(items, RecLess)
    requires GoodNames(items) && SafeRecs(items) && |LabelNames(items)| <= MAX_INT64
    ensures SafeItems(items)
  {
    hide InModel, InMachine, GoodNames, SafeRecs, StrictSorted;
  }

  lemma SameRecords(records: seq<Rec>, items: seq<Rec>)
    requires |items| == |records| && forall r :: r in items <==> r in records
    requires InMachine(records) && GoodNames(records) && SafeRecs(records)
    ensures InMachine(items) && GoodNames(items) && SafeRecs(items)
  {
    hide SafeRec;
    assert forall i :: 0 <= i < |items| ==> items[i] in records;
  }

  lemma SameSpan(records: seq<Rec>, items: seq<Rec>)
    requires forall r :: r in items <==> r in records
    ensures SpanFits(items) <==> SpanFits(records)
  {
    assert forall i :: 0 <= i < |items| ==> items[i] in records;
    assert forall i :: 0 <= i < |records| ==> records[i] in items;
  }

  lemma SameConditions(records: seq<Rec>, items: seq<Rec>)
    requires forall r :: r in items <==> r in records
    ensures GoodValues(items) <==> GoodValues(records)
    ensures GoodEntries(items) <==> GoodEntries(records)
    ensures EntriesDecode(items) <==> EntriesDecode(records)
  {
    hide GoodLabels, Normalize, Unescape;
    assert forall i :: 0 <= i < |items| ==> items[i] in records;
    assert forall i :: 0 <= i < |records| ==> records[i] in items;
  }

  lemma SameLabelNames(records: seq<Rec>, items: seq<Rec>)
    requires forall r :: r in records <==> r in items
    ensures LabelNames(records) == LabelNames(items)
  {
    forall k ensures k in LabelNames(records) <==> k in LabelNames(items) {
      if k in LabelNames(records) {
        var i :| 0 <= i < |records| && k in records[i].labels;
        assert records[i] in items;
      }
      if k in LabelNames(items) {
        var i :| 0 <= i < |items| && k in items[i].labels;
        assert items[i] in records;
      }
    }
  }

  /** The headers a reader gets for a batch, with any text for the end-of-query mark, or none. */
  ghost function Sent(records: seq<Rec>, mark: string): Header
    requires InModel(records)
  {
    if mark != "" then Set(EncodeBatch(records).headers, LAST, mark) else EncodeBatch(records).headers
  }

  /**
   * The whole round trip. For every order in which the response headers may be
   * visited and every result of sorting them, decoding what was encoded returns
   * exactly the records of the batch, in (entry, timestamp) order, label values
   * trimmed and blank ones dropped, if and only if no two timestamps lie more
   * than 2^63-1 apart, every value is good and no entry has a `%`.
   */
  lemma {:induction false} V2RoundTripIff(records: seq<Rec>, mark: string, order: seq<string>, hs: seq<RecordHeader>)
    requires SafeBatch(records)
    requires Enumerates(order, Sent(records, mark)) && SortedFrom(hs, Sent(records, mark), order)
    ensures ReadBatch(200, Sent(records, mark), Whole(EncodeBatch(records).body), false, false, hs)
            == Fetched(TrimmedViews(Sort(records, RecLess), SaysTrue(mark)))
            <==> SpanFits(records) && GoodValues(records) && GoodEntries(records)
  {
    SortedBatchIsSafe(records);
    hide ReadContent, SortedFrom, Enumerates, EncEnd, SafeItems, TrimmedViews, ExpectedViews, FinalHeaders, SpanFits,
         GoodValues, GoodEntries, EntriesDecode;
    ItemsRoundTripIff(Sort(records, RecLess), mark, order, hs);
  }

  /**
   * What arrives of any safe batch: quoting leaves its escapes in the values and
   * entries arrive decoded, if and only if the span fits and the entries decode.
   */
  lemma {:induction false} V2ArrivalIff(records: seq<Rec>, mark: string, order: seq<string>, hs: seq<RecordHeader>)
    requires SafeBatch(records)
    requires Enumerates(order, Sent(records, mark)) && SortedFrom(hs, Sent(records, mark), order)
    ensures ReadBatch(200, Sent(records, mark), Whole(EncodeBatch(records).body), false, false, hs)
            == Fetched(ExpectedViews(Sort(records, RecLess), SaysTrue(mark)))
            <==> SpanFits(records) && EntriesDecode(records)
  {
    SortedBatchIsSafe(records);
    hide ReadContent, SortedFrom, Enumerates, EncEnd, SafeItems, TrimmedViews, ExpectedViews, FinalHeaders, SpanFits,
         GoodValues, GoodEntries, EntriesDecode;
    ItemsRoundTripIff(Sort(records, RecLess), mark, order, hs);
  }

  /** Any response can be visited in some order and its record headers sorted. */
  lemma {:induction false} ReadingExists(headers: Header)
    ensures exists order, hs :: Enumerates(order, headers) && SortedFrom(hs, headers, order)
  {
    EnumerationExists(headers);
    var order :| Enumerates(order, headers);
    HeaderLessIsWeakOrder();
    hide Collect;
    SortSorted(Collect(headers, order), HeaderLess);
    SortElements(Collect(headers, order), HeaderLess);
    assert SortedFrom(Sort(Collect(headers, order), HeaderLess), headers, order);
  }

  /** The label table after the first `n` records. */
  ghost function LabelsAfter(items: seq<Rec>, n: nat): seq<string>
    requires items != [] && InModel(items) && n <= |items|
  {
    SentRowsAreRows(items);
    EncRun(IndexAll(items), MinTimestamp(items), BaseHeaders(items), n).names
  }

  lemma {:induction false} PositionResolves(now: seq<string>, final: seq<string>, key: string)
    requires now <= final && key in now && GoodTable(final)
    ensures ResolveLabelName(FormatInt(Position(now, key)), final) == Ok(key)
  {
    PositionStable(now, final, key);
    FormatParse(Position(now, key));
    hide ParseInt, FormatInt, Position;
  }

  lemma LabelsOnlyGrow(items: seq<Rec>, n: nat, m: nat)
    requires items != [] && InModel(items) && n <= m <= |items|
    ensures LabelsAfter(items, n) <= LabelsAfter(items, m)
    ensures LabelsAfter(items, |items|) == EncEnd(items).names
  {
    SentRowsAreRows(items);
    hide EncRun, MinTimestamp, BaseHeaders, IndexAll;
    TableGrows(IndexAll(items), MinTimestamp(items), BaseHeaders(items), n, m);
  }

  /**
   * Label table stability: a number given out while encoding any record resolves,
   * in the table that is only sent at the end, to the name it was given out for.
   */
  lemma {:induction false} EmittedIndexResolves(items: seq<Rec>, i: nat, key: string)
    requires SafeItems(items) && i < |items|
    requires key in LabelsAfter(items, i + 1)
    ensures LabelsAfter(items, i) <= LabelsAfter(items, i + 1)
    ensures ParseLabelTable(SentHeaders(items, "")) == Ok(EncEnd(items).names)
    ensures ResolveLabelName(FormatInt(Position(LabelsAfter(items, i + 1), key)), EncEnd(items).names) == Ok(key)
  {
    hide LabelsAfter, GoodTable, ParseLabelTable, SentHeaders, EncEnd, ResolveLabelName, Position, FormatInt;
    LabelsOnlyGrow(items, i, i + 1);
    LabelsOnlyGrow(items, i + 1, |items|);
    GoodLabelTable(items);
    ListsDecode(items, "");
    PositionResolves(LabelsAfter(items, i + 1), EncEnd(items).names, key);
  }

  /** One way of visiting and sorting the headers in which the batch does not come back. */
  ghost predicate IsLost(records: seq<Rec>, order: seq<string>, hs: seq<RecordHeader>)
    requires InModel(records)
  {
    && Enumerates(order, Sent(records, "")) && SortedFrom(hs, Sent(records, ""), order)
    && ReadBatch(200, Sent(records, ""), Whole(EncodeBatch(records).body), false, false, hs)
       != Fetched(TrimmedViews(Sort(records, RecLess), false))
  }

  /** Two records 2^64-1 microseconds apart: good in every other way, the batch does not come back. */
  lemma WideSpanExample()
    ensures var records := [Rec("a", MIN_INT64, [], "", map[]), Rec("a", MAX_INT64, [], "", map[])];
            && SafeBatch(records) && GoodValues(records) && GoodEntries(records)
            && (exists order, hs :: IsLost(records, order, hs))
            && (forall order, hs :: Enumerates(order, Sent(records, "")) && SortedFrom(hs, Sent(records, ""), order)
                                    ==> IsLost(records, order, hs))
  {
    var records := [Rec("a", MIN_INT64, [], "", map[]), Rec("a", MAX_INT64, [], "", map[])];
    WideSpanIsGood(records);
    WideSpan(records);
    hide *;
    forall order, hs | Enumerates(order, Sent(records, "")) && SortedFrom(hs, Sent(records, ""), order)
      ensures IsLost(records, order, hs) {
      NotFittingIsLost(records, order, hs);
    }
    ReadingExists(Sent(records, ""));
  }

  lemma WideSpan(records: seq<Rec>)
    requires records == [Rec("a", MIN_INT64, [], "", map[]), Rec("a", MAX_INT64, [], "", map[])]
    ensures !SpanFits(records)
  {
    assert records[1].timestamp - records[0].timestamp > MAX_INT64;
  }

  lemma {:induction false} NotFittingIsLost(records: seq<Rec>, order: seq<string>, hs: seq<RecordHeader>)
    requires SafeBatch(records) && !SpanFits(records)
    requires Enumerates(order, Sent(records, "")) && SortedFrom(hs, Sent(records, ""), order)
    ensures IsLost(records, order, hs)
  {
    V2RoundTripIff(records, "", order, hs);
    hide ReadBatch, SortedFrom, Enumerates, Sent, EncodeBatch, TrimmedViews, SpanFits;
  }

  lemma PlainRecIsGood(r: Rec)
    requires r.entry == "a" && r.data == [] && r.contentType == "" && r.labels == map[]
    ensures AsciiRec(r) && SafeRec(r) && IsBytes(r.entry)
  {
    OctetStreamIsGood();
  }

  lemma PlainBatch(records: seq<Rec>)
    requires |records| == 2 && records[0].timestamp != records[1].timestamp
    requires forall i :: 0 <= i < 2 ==> records[i] == Rec("a", records[i].timestamp, [], "", map[]) && InInt64(records[i].timestamp)
    ensures InModel(records) && InMachine(records) && GoodNames(records) && SafeRecs(records)
  {
    PlainRecIsGood(records[0]);
    PlainRecIsGood(records[1]);
    hide SafeRec, AsciiRec, IsBytes;
  }

  lemma WideSpanIsGood(records: seq<Rec>)
    requires records == [Rec("a", MIN_INT64, [], "", map[]), Rec("a", MAX_INT64, [], "", map[])]
    ensures SafeBatch(records) && GoodValues(records) && GoodEntries(records)
  {
    hide InModel, InMachine, GoodNames, SafeRecs;
    PlainBatch(records);
    assert LabelNames(records) == {};
  }

  lemma OctetStreamIsGood()
    ensures GoodType(OCTET_STREAM)
  {
    TrimFixed(OCTET_STREAM);
  }
}
