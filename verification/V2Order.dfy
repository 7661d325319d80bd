/** The reader recovers the encoder's record order from the unordered header map. */
module V2Order {
  import opened Text
  import opened Ordering
  import opened Decimal
  import opened HeaderList
  import opened Headers
  import opened NameTable
  import opened LabelDelta
  import opened V2Encode
  import opened V2Decode

  // ---- header names -----------------------------------------------------------------------

  lemma PrefixedName(suffix: string)
    requires suffix != "" && (IsDigit(suffix[0]) || suffix[0] == '-')
    ensures HasPrefix(PREFIX + suffix, PREFIX) && (PREFIX + suffix)[|PREFIX|..] == suffix
    ensures !IsReserved(PREFIX + suffix)
  {
    var key := PREFIX + suffix;
    assert key[9] == suffix[0];
    assert ENTRIES[9] == 'e' && START_TS[9] == 's' && LABELS[9] == 'l' && LAST[9] == 'l' && ERROR_PREFIX[9] == 'e';
    assert |ERROR_PREFIX| <= |key| ==> key[..|ERROR_PREFIX|][9] == key[9];
  }

  lemma PlainName(idx: nat, delta: nat)
    ensures var suffix := FormatInt(idx) + ['-'] + FormatInt(delta);
            var k := LastIndex(suffix, '-');
            k >= 0 && suffix[..k] == FormatInt(idx) && suffix[k + 1..] == FormatInt(delta)
  {
    hide LastIndex;
    var d, e := FormatInt(idx), FormatInt(delta);
    FormatChars(delta);
    assert '-' !in e;
    LastIndexBefore(d, '-', e);
    var suffix := d + ['-'] + e;
    assert suffix[..|d|] == d && suffix[|d| + 1..] == e;
  }

  /** A record header name reads back as its entry index and delta, unless the delta went negative. */
  lemma NameRoundTrip(idx: nat, delta: int)
    requires idx <= MAX_INT64 && InInt64(delta)
    ensures ParseRecordName(HeaderName(idx, delta)) == if delta < 0 then None else Some((idx, delta))
  {
    hide LastIndex, ParseInt, IsReserved;
    var d, e := FormatInt(idx), FormatInt(delta);
    var suffix := d + ['-'] + e;
    assert HeaderName(idx, delta) == PREFIX + suffix;
    assert d != "" && IsDigit(d[0]) && suffix[0] == d[0] && e != "" by {
      FormatChars(idx);
      FormatChars(delta);
    }
    PrefixedName(suffix);
    hide FormatInt, HasPrefix;
    if delta >= 0 {
      PlainName(idx, delta);
      FormatParse(idx);
      FormatParse(delta);
    } else {
      NegativeName(idx, delta);
    }
  }

  lemma NegativeName(idx: nat, delta: int)
    requires delta < 0
    ensures var suffix := FormatInt(idx) + ['-'] + FormatInt(delta);
            var k := LastIndex(suffix, '-');
            k == |FormatInt(idx)| + 1 && ParseInt(suffix[..k]).None?
  {
    var d := FormatInt(idx);
    var n := FormatNat(-delta);
    var suffix := d + ['-'] + FormatInt(delta);
    assert suffix == (d + ['-']) + ['-'] + n;
    assert '-' !in n;
    LastIndexBefore(d + ['-'], '-', n);
    var raw := d + ['-'];
    assert suffix[..|d| + 1] == raw;
    FormatChars(idx);
    var body := if raw[0] == '-' || raw[0] == '+' then raw[1..] else raw;
    assert body[|body| - 1] == '-';
  }

  lemma FixedNamesAreNotRecords()
    ensures ParseRecordName(ENTRIES).None? && ParseRecordName(START_TS).None? && ParseRecordName(LABELS).None?
    ensures ParseRecordName(LAST).None? && ParseRecordName(CONTENT_TYPE).None? && ParseRecordName(CONTENT_LENGTH).None?
  {
    assert CONTENT_TYPE[0] != PREFIX[0] && CONTENT_LENGTH[0] != PREFIX[0];
    assert CONTENT_TYPE[..|PREFIX|][0] == CONTENT_TYPE[0];
    assert CONTENT_LENGTH[..|PREFIX|][0] == CONTENT_LENGTH[0];
  }

  lemma NoDash(i: nat)
    ensures '-' !in FormatInt(i)
  {
    FormatChars(i);
  }

  /** Different keys give different names, even when a delta has gone negative. */
  lemma NameInjective(i: nat, d: int, j: nat, e: int)
    requires HeaderName(i, d) == HeaderName(j, e)
    ensures i == j && d == e
  {
    NoDash(i);
    NoDash(j);
    hide FormatInt, Index;
    var s, t := FormatInt(i) + ['-'] + FormatInt(d), FormatInt(j) + ['-'] + FormatInt(e);
    assert HeaderName(i, d) == PREFIX + s && HeaderName(j, e) == PREFIX + t;
    assert (PREFIX + s)[|PREFIX|..] == s && (PREFIX + t)[|PREFIX|..] == t;
    CutUnique(FormatInt(i), FormatInt(d), FormatInt(j), FormatInt(e), '-');
    FormatInjective(i, j);
    FormatInjective(d, e);
  }

  lemma FixedIsNotName(key: string, idx: nat, delta: int)
    requires key in {ENTRIES, START_TS, LABELS, LAST, CONTENT_TYPE, CONTENT_LENGTH}
    ensures HeaderName(idx, delta) != key
  {
    var name := HeaderName(idx, delta);
    FormatChars(idx);
    hide FormatInt;
    assert name[0] == 'x' && name[9] == FormatInt(idx)[0];
    assert FormatInt(idx)[0] in FormatInt(idx);
  }

  // ---- the header map ---------------------------------------------------------------------

  ghost function NameAt(indexed: seq<Indexed>, startTS: int, i: nat): string
    requires i < |indexed|
  {
    HeaderName(indexed[i].entryIndex, DeltaFrom(startTS, indexed[i].record))
  }

  /** The header value written for record `i`. */
  ghost function RawAt(indexed: seq<Indexed>, startTS: int, base: Header, i: nat): string
    requires i < |indexed| && AsciiIndexed(indexed)
  {
    RowOf(EncRun(indexed, startTS, base, i), indexed[i].record, indexed[i].entryIndex)
  }

  lemma {:induction false} RunHeadersStep(indexed: seq<Indexed>, startTS: int, base: Header, n: nat)
    requires n < |indexed| && AsciiIndexed(indexed)
    ensures EncRun(indexed, startTS, base, n + 1).headers
            == Set(EncRun(indexed, startTS, base, n).headers, NameAt(indexed, startTS, n), RawAt(indexed, startTS, base, n))
  {
    hide RowOf, DeltaNames, HeaderName, DeltaFrom, MetaOf, PrevLabels, Normalize;
  }

  ghost predicate IsNameBefore(indexed: seq<Indexed>, startTS: int, n: nat, key: string)
    requires n <= |indexed|
  {
    exists i :: 0 <= i < n && NameAt(indexed, startTS, i) == key
  }

  lemma {:induction false} RunHeaderKeys(indexed: seq<Indexed>, startTS: int, base: Header, n: nat, key: string)
    requires n <= |indexed| && AsciiIndexed(indexed)
    ensures key in EncRun(indexed, startTS, base, n).headers <==> key in base || IsNameBefore(indexed, startTS, n, key)
    ensures !IsNameBefore(indexed, startTS, n, key) && key in base ==>
              EncRun(indexed, startTS, base, n).headers[key] == base[key]
  {
    hide EncStep, NameAt, RawAt;
    if n > 0 {
      RunHeaderKeys(indexed, startTS, base, n - 1, key);
      RunHeadersStep(indexed, startTS, base, n - 1);
    }
  }

  ghost predicate NamesDistinct(indexed: seq<Indexed>, startTS: int) {
    forall i, j :: 0 <= i < j < |indexed| ==> NameAt(indexed, startTS, i) != NameAt(indexed, startTS, j)
  }

  lemma {:induction false} RunHeaderValue(indexed: seq<Indexed>, startTS: int, base: Header, n: nat, i: nat)
    requires i < n <= |indexed| && AsciiIndexed(indexed) && NamesDistinct(indexed, startTS)
    ensures NameAt(indexed, startTS, i) in EncRun(indexed, startTS, base, n).headers
    ensures EncRun(indexed, startTS, base, n).headers[NameAt(indexed, startTS, i)] == [RawAt(indexed, startTS, base, i)]
    decreases n
  {
    hide EncStep, NameAt, RawAt;
    RunHeadersStep(indexed, startTS, base, n - 1);
    if i < n - 1 {
      RunHeaderValue(indexed, startTS, base, n - 1, i);
    }
  }

  /** The headers as the reader gets them: the encoder's, with the end-of-query mark if there is one. */
  ghost function SentHeaders(items: seq<Rec>, mark: string): Header
    requires items != [] && InModel(items)
  {
    if mark != "" then Set(EncodeItems(items).headers, LAST, mark) else EncodeItems(items).headers
  }

  /** The record loop does not touch the fixed headers. */
  lemma {:induction false} FixedFromBase(items: seq<Rec>, key: string)
    requires items != [] && InModel(items) && key in {ENTRIES, START_TS, LABELS, LAST}
    ensures AllBytes(Entries(items)) && Get(EncEnd(items).headers, key) == Get(BaseHeaders(items), key)
  {
    hide EncRun, EncodeList, MinTimestamp, Entries, NameAt, IndexAll, IsNameBefore, BaseHeaders;
    EntriesAreBytes(items);
    var startTS, base, indexed := MinTimestamp(items), BaseHeaders(items), IndexAll(items);
    TableIsBytes(items, startTS, base);
    FixedIsNeverAName(indexed, startTS, |items|, key);
    RunHeaderKeys(indexed, startTS, base, |items|, key);
  }

  lemma {:induction false} BaseGets(items: seq<Rec>)
    requires items != [] && AllBytes(Entries(items))
    ensures Get(BaseHeaders(items), ENTRIES) == EncodeList(Entries(items))
    ensures Get(BaseHeaders(items), START_TS) == FormatInt(MinTimestamp(items))
    ensures Get(BaseHeaders(items), LABELS) == "" && Get(BaseHeaders(items), LAST) == ""
  {
    hide EncodeList, MinTimestamp, Entries, FormatInt, AllBytes;
    FixedNamesDiffer();
  }

  lemma SetGet(h: Header, name: string, value: string, key: string)
    ensures Get(Set(h, name, value), key) == if key == name then value else Get(h, key)
  {}

  lemma FinalGets(st: EncState, n: nat, mark: string, key: string)
    requires AllBytes(st.names) && key in {ENTRIES, START_TS, LABELS, LAST}
    ensures var h := FinalHeaders(st, n);
            Get(if mark != "" then Set(h, LAST, mark) else h, key)
            == if mark != "" && key == LAST then mark
               else if st.names != [] && key == LABELS then EncodeList(st.names)
               else Get(st.headers, key)
  {
    FixedNamesDiffer();
    assert key != CONTENT_LENGTH;
    hide EncodeList, FormatInt, AllBytes, Get, Set;
    var h := if st.names != [] then Set(st.headers, LABELS, EncodeList(st.names)) else st.headers;
    SetGet(st.headers, LABELS, EncodeList(st.names), key);
    SetGet(h, CONTENT_LENGTH, FormatInt(n), key);
    SetGet(FinalHeaders(st, n), LAST, mark, key);
  }

  lemma {:induction false} SentGets(items: seq<Rec>, mark: string, key: string)
    requires items != [] && InModel(items) && key in {ENTRIES, START_TS, LABELS, LAST}
    ensures AllBytes(Entries(items)) && AllBytes(EncEnd(items).names)
    ensures Get(SentHeaders(items, mark), key)
            == if mark != "" && key == LAST then mark
               else if EncEnd(items).names != [] && key == LABELS then EncodeList(EncEnd(items).names)
               else Get(BaseHeaders(items), key)
  {
    EntriesAreBytes(items);
    TableIsBytes(items, MinTimestamp(items), BaseHeaders(items));
    assert AllBytes(EncEnd(items).names);
    hide EncEnd, EncodeList, MinTimestamp, Entries, FormatInt, BodyOf, InModel, AllBytes, Get, FinalHeaders, BaseHeaders;
    FixedFromBase(items, key);
    FinalGets(EncEnd(items), |BodyOf(items)|, mark, key);
  }

  lemma {:induction false} SentFixed(items: seq<Rec>, mark: string)
    requires items != [] && InModel(items)
    ensures AllBytes(Entries(items)) && AllBytes(EncEnd(items).names)
    ensures Get(SentHeaders(items, mark), ENTRIES) == EncodeList(Entries(items))
    ensures Get(SentHeaders(items, mark), START_TS) == FormatInt(MinTimestamp(items))
    ensures Get(SentHeaders(items, mark), LABELS) == if EncEnd(items).names == [] then "" else EncodeList(EncEnd(items).names)
    ensures Get(SentHeaders(items, mark), LAST) == mark
  {
    hide EncEnd, EncodeList, MinTimestamp, Entries, FormatInt, InModel, AllBytes, Get, SentHeaders, BaseHeaders;
    SentGets(items, mark, ENTRIES);
    SentGets(items, mark, START_TS);
    SentGets(items, mark, LABELS);
    SentGets(items, mark, LAST);
    BaseGets(items);
    FixedNamesDiffer();
  }

  lemma FixedNamesDiffer()
    ensures |{ENTRIES, START_TS, LABELS, LAST, CONTENT_TYPE, CONTENT_LENGTH}| == 6
    ensures ENTRIES != START_TS && ENTRIES != LABELS && ENTRIES != LAST && START_TS != LABELS && START_TS != LAST && LABELS != LAST
    ensures CONTENT_TYPE !in {ENTRIES, START_TS, LABELS, LAST} && CONTENT_LENGTH !in {ENTRIES, START_TS, LABELS, LAST}
  {
    assert ENTRIES[9] == 'e' && START_TS[9] == 's' && LABELS[9] == 'l' && LAST[9] == 'l';
    assert LABELS[10] == 'a' && |LABELS| == 15 && |LAST| == 13;
    assert CONTENT_TYPE[0] == 'c' && CONTENT_LENGTH[0] == 'c' && |CONTENT_TYPE| == 12 && |CONTENT_LENGTH| == 14;
    assert ENTRIES[0] == 'x' && START_TS[0] == 'x' && LABELS[0] == 'x' && LAST[0] == 'x';
  }

  lemma FixedIsNeverAName(indexed: seq<Indexed>, startTS: int, n: nat, key: string)
    requires n <= |indexed| && key in {ENTRIES, START_TS, LABELS, LAST, CONTENT_TYPE, CONTENT_LENGTH}
    ensures !IsNameBefore(indexed, startTS, n, key)
  {
    hide HeaderName, DeltaFrom;
    forall i | 0 <= i < n ensures NameAt(indexed, startTS, i) != key {
      FixedIsNotName(key, indexed[i].entryIndex, DeltaFrom(startTS, indexed[i].record));
    }
  }

  /** Every header is one of the fixed ones or the name of a record. */
  lemma {:induction false} SentKeys(items: seq<Rec>, mark: string, key: string)
    requires items != [] && InModel(items)
    ensures key in SentHeaders(items, mark) ==>
              key in {ENTRIES, START_TS, LABELS, LAST, CONTENT_TYPE, CONTENT_LENGTH}
              || IsNameBefore(IndexAll(items), MinTimestamp(items), |items|, key)
  {
    hide EncRun, EncodeList, MinTimestamp, Entries, NameAt, IndexAll, BodyOf, FormatInt, IsNameBefore;
    EntriesAreBytes(items);
    TableIsBytes(items, MinTimestamp(items), BaseHeaders(items));
    RunHeaderKeys(IndexAll(items), MinTimestamp(items), BaseHeaders(items), |items|, key);
  }

  /** Finishing the request leaves every other header alone. */
  lemma FinalKeeps(st: EncState, contentLength: int, mark: string, key: string)
    requires AllBytes(st.names) && key in st.headers
    requires key != LABELS && key != CONTENT_LENGTH && key != LAST
    ensures var h := FinalHeaders(st, contentLength);
            var sent := if mark != "" then Set(h, LAST, mark) else h;
            key in sent && Get(sent, key) == Get(st.headers, key)
  {
    hide EncodeList, FormatInt;
  }

  /** The value under a record's own name. */
  lemma {:induction false} SentValue(items: seq<Rec>, mark: string, i: nat)
    requires items != [] && InModel(items) && i < |items|
    requires NamesDistinct(IndexAll(items), MinTimestamp(items))
    ensures AllBytes(Entries(items)) && AsciiIndexed(IndexAll(items))
    ensures NameAt(IndexAll(items), MinTimestamp(items), i) in SentHeaders(items, mark)
    ensures Get(SentHeaders(items, mark), NameAt(IndexAll(items), MinTimestamp(items), i))
            == RawAt(IndexAll(items), MinTimestamp(items), BaseHeaders(items), i)
  {
    hide EncRun, EncodeList, MinTimestamp, Entries, NameAt, IndexAll, RawAt, FinalHeaders, BaseHeaders, BodyOf;
    EntriesAreBytes(items);
    var startTS, base, indexed := MinTimestamp(items), BaseHeaders(items), IndexAll(items);
    TableIsBytes(items, startTS, base);
    RunHeaderValue(indexed, startTS, base, |items|, i);
    FixedIsNeverAName(indexed, startTS, |items|, LABELS);
    FixedIsNeverAName(indexed, startTS, |items|, CONTENT_LENGTH);
    FixedIsNeverAName(indexed, startTS, |items|, LAST);
    FinalKeeps(EncEnd(items), |BodyOf(items)|, mark, NameAt(indexed, startTS, i));
  }

  // ---- order recovery -----------------------------------------------------------------------

  /** Timestamps are int64 values, and there are no more records than an int can count. */
  ghost predicate InMachine(items: seq<Rec>) {
    |items| <= MAX_INT64 && forall i :: 0 <= i < |items| ==> InInt64(items[i].timestamp)
  }

  /** No two timestamps of the batch are further apart than an int64 can tell. */
  ghost predicate SpanFits(items: seq<Rec>) {
    forall i, j :: 0 <= i < |items| && 0 <= j < |items| ==> items[i].timestamp - items[j].timestamp <= MAX_INT64
  }

  lemma {:induction false} DeltaExact(items: seq<Rec>, i: nat)
    requires i < |items| && InMachine(items)
    ensures var d := items[i].timestamp - MinTimestamp(items);
            && 0 <= d && InInt64(MinTimestamp(items))
            && (d <= MAX_INT64 ==> DeltaFrom(MinTimestamp(items), items[i]) == d)
            && (d > MAX_INT64 ==> DeltaFrom(MinTimestamp(items), items[i]) < 0)
    ensures SpanFits(items) ==> items[i].timestamp - MinTimestamp(items) <= MAX_INT64
    ensures Wrap64(MinTimestamp(items) + DeltaFrom(MinTimestamp(items), items[i])) == items[i].timestamp
  {
    hide MinTimestamp;
    MinTimestampIsLeast(items);
  }

  lemma IndexBound(items: seq<Rec>, i: nat)
    requires i < |items| && InMachine(items)
    ensures IndexAll(items)[i].entryIndex < |Entries(items)| <= |items| <= MAX_INT64
    ensures Entries(items)[IndexAll(items)[i].entryIndex] == items[i].entry
    ensures IndexAll(items)[i].record == items[i]
  {
    InternAllLength([], EntryNames(items));
  }

  lemma EntriesSorted(items: seq<Rec>)
    requires StrictSorted(items, RecLess)
    ensures StrictSorted(Entries(items), StrLess)
  {
    var names := EntryNames(items);
    forall i, j | 0 <= i < j < |names| ensures !StrLess(names[j], names[i]) {
      assert RecLess(items[i], items[j]);
      StrIrreflexive(names[i]);
      if StrLess(names[j], names[i]) {
        StrTransitive(names[i], names[j], names[i]);
      }
    }
    InternSortedUses(names);
  }

  /** Mapping (entry, timestamp) to (entry index, delta) keeps the order of the records. */
  lemma {:induction false} IndexingIsMonotone(items: seq<Rec>, i: nat, j: nat)
    requires i < j < |items| && InMachine(items) && SpanFits(items) && StrictSorted(items, RecLess)
    ensures var a, b := IndexAll(items)[i].entryIndex, IndexAll(items)[j].entryIndex;
            a < b || (a == b && DeltaFrom(MinTimestamp(items), items[i]) < DeltaFrom(MinTimestamp(items), items[j]))
  {
    hide MinTimestamp, DeltaFrom, Position, Entries;
    EntriesSorted(items);
    EntryIsIn(items, i);
    EntryIsIn(items, j);
    SortedPositions(Entries(items), items[i].entry, items[j].entry);
    assert RecLess(items[i], items[j]);
    DeltaExact(items, i);
    DeltaExact(items, j);
  }

  /** The record headers have pairwise distinct names, however far the timestamps lie apart. */
  lemma {:induction false} RecordNamesDistinct(items: seq<Rec>)
    requires items != [] && InMachine(items) && DistinctRecs(items)
    ensures NamesDistinct(IndexAll(items), MinTimestamp(items))
  {
    hide MinTimestamp, DeltaFrom, HeaderName, IndexAll, Entries, InMachine;
    var indexed, startTS := IndexAll(items), MinTimestamp(items);
    forall i, j | 0 <= i < j < |indexed| ensures NameAt(indexed, startTS, i) != NameAt(indexed, startTS, j) {
      IndexBound(items, i);
      IndexBound(items, j);
      DeltaExact(items, i);
      DeltaExact(items, j);
      if NameAt(indexed, startTS, i) == NameAt(indexed, startTS, j) {
        NameInjective(indexed[i].entryIndex, DeltaFrom(startTS, items[i]), indexed[j].entryIndex,
                      DeltaFrom(startTS, items[j]));
      }
    }
  }

  /** The record headers in the encoder's order. */
  ghost function SentRows(items: seq<Rec>): (hs: seq<RecordHeader>)
    requires items != [] && InModel(items)
    ensures |hs| == |items|
  {
    EntriesAreBytes(items);
    var startTS, base, indexed := MinTimestamp(items), BaseHeaders(items), IndexAll(items);
    TableIsBytes(items, startTS, base);
    seq(|items|, i requires 0 <= i < |items| =>
      RecordHeader(indexed[i].entryIndex, DeltaFrom(startTS, items[i]), RawAt(indexed, startTS, base, i)))
  }

  lemma SentRowsSorted(items: seq<Rec>)
    requires items != [] && InModel(items)
    requires InMachine(items) && SpanFits(items) && StrictSorted(items, RecLess)
    ensures StrictSorted(SentRows(items), HeaderLess)
  {
    var hs := SentRows(items);
    forall i, j | 0 <= i < j < |hs| ensures HeaderLess(hs[i], hs[j]) {
      IndexingIsMonotone(items, i, j);
    }
  }

  ghost predicate ComesFromKey(h: RecordHeader, headers: Header, key: string) {
    ParseRecordName(key) == Some((h.entryIndex, h.delta)) && h.rawValue == Get(headers, key)
  }

  lemma {:induction false} CollectMembers(headers: Header, order: seq<string>, h: RecordHeader)
    ensures h in Collect(headers, order) <==> exists key :: key in order && ComesFromKey(h, headers, key)
  {
    hide ParseRecordName, Get;
    if order != [] {
      var init, last := order[..|order| - 1], order[|order| - 1];
      assert order == init + [last];
      CollectMembers(headers, init, h);
      if h in Collect(headers, order) && h !in Collect(headers, init) {
        assert ComesFromKey(h, headers, last);
      }
      if key :| key in order && ComesFromKey(h, headers, key) {
        assert key in init || key == last;
      }
    }
  }

  /** The names parse as the keys they were made from. */
  ghost predicate Canonical(order: seq<string>) {
    forall i :: 0 <= i < |order| && ParseRecordName(order[i]).Some? ==>
      var v := ParseRecordName(order[i]).value;
      v.0 >= 0 && order[i] == HeaderName(v.0, v.1)
  }

  lemma {:induction false} CollectDistinct(headers: Header, order: seq<string>)
    requires Canonical(order) && forall i, j :: 0 <= i < j < |order| ==> order[i] != order[j]
    ensures Distinct(Collect(headers, order), HeaderLess)
  {
    hide ParseRecordName, Get, HeaderName;
    if order != [] {
      var init, last := order[..|order| - 1], order[|order| - 1];
      CollectDistinct(headers, init);
      var hs := Collect(headers, init);
      if ParseRecordName(last).Some? {
        var v := ParseRecordName(last).value;
        var h := RecordHeader(v.0, v.1, Get(headers, last));
        forall i | 0 <= i < |hs| ensures HeaderLess(hs[i], h) || HeaderLess(h, hs[i]) {
          CollectMembers(headers, init, hs[i]);
          var key :| key in init && ComesFromKey(hs[i], headers, key);
          var k :| 0 <= k < |init| && init[k] == key;
          assert order[k] == key && key != last;
        }
      }
    }
  }

  /** `key` is the name of record `i` and parses as the record's number and delta. */
  ghost predicate NamesRecord(items: seq<Rec>, key: string, i: nat) {
    && i < |items|
    && NameAt(IndexAll(items), MinTimestamp(items), i) == key
    && DeltaFrom(MinTimestamp(items), items[i]) >= 0
    && ParseRecordName(key) == Some((IndexAll(items)[i].entryIndex as int, DeltaFrom(MinTimestamp(items), items[i])))
  }

  lemma SentNamesCanonical(items: seq<Rec>, mark: string, key: string)
    requires items != [] && InModel(items) && InMachine(items) && key in SentHeaders(items, mark)
    requires ParseRecordName(key).Some?
    ensures exists i :: NamesRecord(items, key, i)
  {
    hide MinTimestamp, DeltaFrom, HeaderName, IndexAll, ParseRecordName, SentHeaders;
    FixedNamesAreNotRecords();
    SentKeys(items, mark, key);
    var i :| 0 <= i < |items| && NameAt(IndexAll(items), MinTimestamp(items), i) == key;
    IndexBound(items, i);
    DeltaExact(items, i);
    NameRoundTrip(IndexAll(items)[i].entryIndex, DeltaFrom(MinTimestamp(items), items[i]));
    assert NamesRecord(items, key, i);
  }

  lemma SentOrderCanonical(items: seq<Rec>, mark: string, order: seq<string>)
    requires items != [] && InModel(items) && InMachine(items) && Enumerates(order, SentHeaders(items, mark))
    ensures Canonical(order)
  {
    hide MinTimestamp, DeltaFrom, HeaderName, IndexAll, ParseRecordName, SentHeaders;
    forall i | 0 <= i < |order| && ParseRecordName(order[i]).Some?
      ensures var v := ParseRecordName(order[i]).value; v.0 >= 0 && order[i] == HeaderName(v.0, v.1) {
      assert order[i] in order;
      SentNamesCanonical(items, mark, order[i]);
      var k: nat :| NamesRecord(items, order[i], k);
      IndexBound(items, k);
    }
  }

  /** A collected header is one of the rows, and every row is collected. */
  lemma {:induction false} CollectedIsSent(items: seq<Rec>, mark: string, order: seq<string>, h: RecordHeader)
    requires items != [] && InModel(items) && InMachine(items) && SpanFits(items) && StrictSorted(items, RecLess)
    requires Enumerates(order, SentHeaders(items, mark))
    ensures h in Collect(SentHeaders(items, mark), order) <==> h in SentRows(items)
  {
    hide MinTimestamp, DeltaFrom, HeaderName, IndexAll, ParseRecordName, SentHeaders, RawAt, Get, Collect;
    var sent, indexed, startTS := SentHeaders(items, mark), IndexAll(items), MinTimestamp(items);
    RecordNamesDistinct(items);
    CollectMembers(sent, order, h);
    if h in Collect(sent, order) {
      var key :| key in order && ComesFromKey(h, sent, key);
      SentNamesCanonical(items, mark, key);
      var i: nat :| NamesRecord(items, key, i);
      SentValue(items, mark, i);
      assert SentRows(items)[i] == h;
    }
    if h in SentRows(items) {
      var i :| 0 <= i < |items| && SentRows(items)[i] == h;
      SentValue(items, mark, i);
      IndexBound(items, i);
      DeltaExact(items, i);
      NameRoundTrip(indexed[i].entryIndex, DeltaFrom(startTS, items[i]));
      assert ComesFromKey(h, sent, NameAt(indexed, startTS, i));
    }
  }

  /**
   * Order recovery: whatever order the header map is ranged over, collecting and
   * sorting the record headers gives exactly the encoder's rows in its order.
   */
  lemma {:induction false} OrderRecovery(items: seq<Rec>, mark: string, order: seq<string>)
    requires items != [] && InModel(items) && InMachine(items) && SpanFits(items) && StrictSorted(items, RecLess)
    requires Enumerates(order, SentHeaders(items, mark))
    ensures Distinct(Collect(SentHeaders(items, mark), order), HeaderLess)
    ensures Sort(Collect(SentHeaders(items, mark), order), HeaderLess) == SentRows(items)
  {
    hide SentHeaders, SentRows, Collect;
    var collected := Collect(SentHeaders(items, mark), order);
    SentOrderCanonical(items, mark, order);
    CollectDistinct(SentHeaders(items, mark), order);
    var sorted := Sort(collected, HeaderLess);
    HeaderLessIsWeakOrder();
    SortSorted(collected, HeaderLess);
    SortElements(collected, HeaderLess);
    SortUnique(collected, sorted, HeaderLess);
    SortMembers(collected, HeaderLess);
    SentRowsSorted(items);
    forall h ensures h in sorted <==> h in SentRows(items) {
      CollectedIsSent(items, mark, order, h);
    }
    StrictSortedUnique(sorted, SentRows(items), HeaderLess);
  }
}
