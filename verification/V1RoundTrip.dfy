/** What Batch.Write prints, the v1 reader reads back. */
module V1RoundTrip {
  import opened Text
  import opened Ordering
  import opened Decimal
  import opened Headers
  import opened LabelOps
  import opened CsvRows
  import opened Bodies
  import opened V1Batches
  import opened V1Rows
  import opened V1Read
  import opened V2Decode

  // ---- the domain ----------------------------------------------------------------------------

  /** A call of Add with text for labels, in numbers a machine can hold. */
  ghost predicate TextCall(call: Call) {
    && call.Add? && InInt64(call.ts) && |call.data| <= MAX_INT64
    && (call.labels.Some? ==>
          forall k :: k in call.labels.value ==> call.labels.value[k].Text? && IsAscii(call.labels.value[k].text))
  }

  ghost predicate TextRecords(records: V1Records) {
    forall t :: t in records ==> InInt64(t) && TextRecord(records[t])
  }

  ghost predicate GoodRecords(records: V1Records) {
    forall t :: t in records ==> GoodRecord(records[t])
  }

  lemma TextAt(records: V1Records, t: int)
    requires TextRecords(records) && t in records
    ensures InInt64(t) && TextRecord(records[t])
  {}

  lemma GoodAt(records: V1Records, t: int)
    requires GoodRecords(records) && t in records
    ensures GoodRecord(records[t])
  {}

  lemma TextIsAscii(records: V1Records)
    requires TextRecords(records)
    ensures AsciiRecords(records)
  {
    forall t: int | t in records ensures AsciiLabels1(records[t].labels) {
      TextAt(records, t);
    }
  }

  /** A batch filled by Add alone holds records of texts: the default content type is filled in. */
  lemma {:induction false} AddedAreText(calls: seq<Call>)
    requires forall i :: 0 <= i < |calls| ==> TextCall(calls[i])
    ensures TextRecords(Run(calls)) && AsciiRecords(Run(calls))
  {
    if calls != [] {
      AddedAreText(calls[..|calls| - 1]);
    }
    TextIsAscii(Run(calls));
  }

  // ---- the headers ----------------------------------------------------------------------------

  /** The response has the printed rows under their timestamps and no other time header. */
  ghost predicate Carries(h: Header, times: seq<int>, rows: seq<string>) {
    && |times| == |rows|
    && (forall i :: 0 <= i < |times| ==> TimeName(times[i]) in h && h[TimeName(times[i])] == [rows[i]])
    && (forall key :: key in h && IsTimeName(key) ==> NamesTime(times, key))
  }

  ghost predicate NamesTime(times: seq<int>, key: string) {
    exists i :: 0 <= i < |times| && TimeName(times[i]) == key
  }

  lemma TimeNameReads(ts: int)
    requires InInt64(ts)
    ensures IsTimeName(TimeName(ts)) && ParseInt(TimeName(ts)[|TIME_PREFIX|..]) == Some(ts)
  {
    hide ParseInt, FormatInt;
    FormatChars(ts);
    FormatParse(ts);
    assert TimeName(ts)[..|TIME_PREFIX|] == TIME_PREFIX && TimeName(ts)[|TIME_PREFIX|..] == FormatInt(ts);
  }

  lemma TimeNameInjective(a: int, b: int)
    requires TimeName(a) == TimeName(b)
    ensures a == b
  {
    hide FormatInt;
    assert TimeName(a)[|TIME_PREFIX|..] == FormatInt(a) && TimeName(b)[|TIME_PREFIX|..] == FormatInt(b);
    FormatInjective(a, b);
  }

  /** What Print puts into the header carries the rows, and so does it with the other headers added. */
  lemma {:induction false} PrintedCarries(times: seq<int>, rows: seq<string>)
    requires |times| == |rows| && StrictSorted(times, IntLess)
    ensures Carries(PutAll(map[], TimeNames(times), rows), times, rows)
  {
    hide TimeName, PutAll, IsTimeName;
    var names := TimeNames(times);
    forall j, k | 0 <= j < k < |names| ensures names[j] != names[k] {
      assert IntLess(times[j], times[k]);
      if names[j] == names[k] { TimeNameInjective(times[j], times[k]); }
    }
    forall i | 0 <= i < |times|
      ensures TimeName(times[i]) in PutAll(map[], names, rows) && PutAll(map[], names, rows)[TimeName(times[i])] == [rows[i]] {
      PutAllValue(map[], names, rows, i);
    }
    forall key | key in PutAll(map[], names, rows) ensures NamesTime(times, key) {
      PutAllKeys(map[], names, rows, key);
      var i :| 0 <= i < |names| && names[i] == key;
    }
  }

  lemma OtherHeaderCarries(h: Header, times: seq<int>, rows: seq<string>, key: string, value: string)
    requires Carries(h, times, rows) && !IsTimeName(key) && forall i :: 0 <= i < |times| ==> InInt64(times[i])
    ensures Carries(Set(h, key, value), times, rows)
  {
    hide TimeName, IsTimeName;
    forall i | 0 <= i < |times| ensures TimeName(times[i]) != key { TimeNameReads(times[i]); }
  }

  lemma OtherNames()
    ensures !IsTimeName(CONTENT_TYPE) && !IsTimeName(CONTENT_LENGTH) && !IsTimeName(LAST)
  {
    assert CONTENT_TYPE[0] == 'c' && CONTENT_LENGTH[0] == 'c' && |LAST| == 13 && TIME_PREFIX[0] == 'x';
    assert LowerChar('c') != LowerChar('x');
  }

  /** The response to a query for what was written: the printed headers with the general ones beside them. */
  function SentV1(times: seq<int>, rows: seq<string>, length: nat, last: bool): Header
    requires |times| == |rows|
  {
    var h := Set(Set(PutAll(map[], TimeNames(times), rows), CONTENT_TYPE, OCTET_STREAM), CONTENT_LENGTH, FormatInt(length));
    if last then Set(h, LAST, "true") else h
  }

  lemma {:induction false} SentCarries(times: seq<int>, rows: seq<string>, length: nat, last: bool)
    requires |times| == |rows| && StrictSorted(times, IntLess) && forall i :: 0 <= i < |times| ==> InInt64(times[i])
    ensures Carries(SentV1(times, rows, length, last), times, rows)
  {
    hide Carries, PutAll, FormatInt, IsTimeName;
    OtherNames();
    PrintedCarries(times, rows);
    var h := PutAll(map[], TimeNames(times), rows);
    OtherHeaderCarries(h, times, rows, CONTENT_TYPE, OCTET_STREAM);
    OtherHeaderCarries(Set(h, CONTENT_TYPE, OCTET_STREAM), times, rows, CONTENT_LENGTH, FormatInt(length));
    OtherHeaderCarries(Set(Set(h, CONTENT_TYPE, OCTET_STREAM), CONTENT_LENGTH, FormatInt(length)), times, rows, LAST,
                       "true");
  }

  // ---- collecting -----------------------------------------------------------------------------

  function TimeHeaders(times: seq<int>, rows: seq<string>): (ths: seq<TimeHeader>)
    requires |times| == |rows|
    ensures |ths| == |times|
    ensures forall i :: 0 <= i < |times| ==> ths[i] == TimeHeader(times[i], rows[i])
  {
    seq(|times|, i requires 0 <= i < |times| => TimeHeader(times[i], rows[i]))
  }

  ghost predicate Collectable(h: Header, times: seq<int>, rows: seq<string>) {
    && Carries(h, times, rows) && StrictSorted(times, IntLess)
    && (forall i :: 0 <= i < |times| ==> InInt64(times[i]) && rows[i] != "")
  }

  lemma NameReadsRow(h: Header, times: seq<int>, rows: seq<string>, key: string)
    requires Collectable(h, times, rows) && key in h
    ensures !IsTimeName(key) ==> ReadTimeHeader(key, h[key]) == Ok([])
    ensures IsTimeName(key) ==> exists i :: ReadsRow(h, times, rows, key, i)
  {
    hide IsTimeName, TimeName, ParseInt;
    if IsTimeName(key) {
      var i :| 0 <= i < |times| && TimeName(times[i]) == key;
      TimeNameReads(times[i]);
      assert ReadsRow(h, times, rows, key, i);
    }
  }

  ghost predicate ReadsRow(h: Header, times: seq<int>, rows: seq<string>, key: string, i: nat) {
    && |times| == |rows| && i < |times| && key in h && TimeName(times[i]) == key
    && ReadTimeHeader(key, h[key]) == Ok([TimeHeader(times[i], rows[i])])
  }

  /** Row `i` has been met. */
  ghost predicate Met(x: TimeHeader, times: seq<int>, rows: seq<string>, order: seq<string>, i: nat) {
    |times| == |rows| && i < |times| && x == TimeHeader(times[i], rows[i]) && TimeName(times[i]) in order
  }

  lemma {:induction false} CollectsAll(h: Header, times: seq<int>, rows: seq<string>, order: seq<string>)
    requires |times| == |rows| && Collectable(h, times, rows) && forall k :: 0 <= k < |order| ==> order[k] in h
    ensures CollectTimes(h, order).Ok?
    ensures forall x :: x in CollectTimes(h, order).value ==> exists i :: Met(x, times, rows, order, i)
    ensures forall i :: 0 <= i < |times| && TimeName(times[i]) in order ==> TimeHeader(times[i], rows[i]) in CollectTimes(h, order).value
  {
    hide ReadTimeHeader, TimeName, IsTimeName, Collectable;
    if order != [] {
      var init, key := order[..|order| - 1], order[|order| - 1];
      assert order == init + [key];
      CollectsAll(h, times, rows, init);
      NameReadsRow(h, times, rows, key);
      var before := CollectTimes(h, init).value;
      forall x | x in before ensures exists i :: Met(x, times, rows, order, i) {
        var i: nat :| Met(x, times, rows, init, i);
        assert Met(x, times, rows, order, i);
      }
      forall i | 0 <= i < |times| && TimeName(times[i]) in order
        ensures TimeHeader(times[i], rows[i]) in CollectTimes(h, order).value {
        if TimeName(times[i]) !in init { KeyGivesRow(h, times, rows, key, i); }
      }
      if IsTimeName(key) {
        var i: nat :| ReadsRow(h, times, rows, key, i);
        assert Met(TimeHeader(times[i], rows[i]), times, rows, order, i);
      }
    }
  }

  lemma KeyGivesRow(h: Header, times: seq<int>, rows: seq<string>, key: string, i: nat)
    requires Collectable(h, times, rows) && i < |times| && key == TimeName(times[i])
    ensures key in h && IsTimeName(key) && ReadTimeHeader(key, h[key]) == Ok([TimeHeader(times[i], rows[i])])
  {
    hide TimeName, IsTimeName;
    TimeNameReads(times[i]);
  }

  lemma {:induction false} CollectsDistinct(h: Header, times: seq<int>, rows: seq<string>, order: seq<string>)
    requires |times| == |rows| && Collectable(h, times, rows) && forall k :: 0 <= k < |order| ==> order[k] in h
    requires forall i, j :: 0 <= i < j < |order| ==> order[i] != order[j]
    ensures CollectTimes(h, order).Ok? && Distinct(CollectTimes(h, order).value, TimeLess)
  {
    hide ReadTimeHeader, TimeName, IsTimeName, Collectable;
    if order != [] {
      var init, key := order[..|order| - 1], order[|order| - 1];
      CollectsDistinct(h, times, rows, init);
      CollectsAll(h, times, rows, init);
      NameReadsRow(h, times, rows, key);
      var before := CollectTimes(h, init).value;
      if IsTimeName(key) {
        var i: nat :| ReadsRow(h, times, rows, key, i);
        forall k | 0 <= k < |before| ensures before[k].ts != times[i] {
          assert before[k] in before;
          NotMetBefore(times, rows, init, key, before[k], i);
        }
      }
    }
  }

  lemma NotMetBefore(times: seq<int>, rows: seq<string>, init: seq<string>, key: string, x: TimeHeader, i: nat)
    requires (exists j :: Met(x, times, rows, init, j)) && i < |times| && TimeName(times[i]) == key && key !in init
    ensures x.ts != times[i]
  {}

  /** Collecting the time headers in any order and sorting them gives the rows in time order. */
  lemma {:induction false} TimeOrderRecovery(h: Header, times: seq<int>, rows: seq<string>, order: seq<string>)
    requires Collectable(h, times, rows) && Enumerates(order, h)
    ensures forall k :: 0 <= k < |order| ==> order[k] in h
    ensures CollectTimes(h, order).Ok? && Distinct(CollectTimes(h, order).value, TimeLess)
    ensures Sort(CollectTimes(h, order).value, TimeLess) == TimeHeaders(times, rows)
  {
    hide CollectTimes, TimeName, IsTimeName, ReadTimeHeader;
    assert forall k :: 0 <= k < |order| ==> order[k] in order;
    CollectsAll(h, times, rows, order);
    CollectsDistinct(h, times, rows, order);
    var collected := CollectTimes(h, order).value;
    var sorted, expected := Sort(collected, TimeLess), TimeHeaders(times, rows);
    TimeLessIsWeakOrder();
    SortSorted(collected, TimeLess);
    SortElements(collected, TimeLess);
    SortUnique(collected, sorted, TimeLess);
    SortMembers(collected, TimeLess);
    ExpectedSorted(times, rows);
    forall x ensures x in collected <==> x in expected {
      SameMembers(h, times, rows, order, collected, x);
    }
    StrictSortedUnique(sorted, expected, TimeLess);
  }

  lemma ExpectedSorted(times: seq<int>, rows: seq<string>)
    requires |times| == |rows| && StrictSorted(times, IntLess)
    ensures StrictSorted(TimeHeaders(times, rows), TimeLess)
  {
    var ths := TimeHeaders(times, rows);
    forall i, j | 0 <= i < j < |ths| ensures TimeLess(ths[i], ths[j]) {
      assert IntLess(times[i], times[j]);
    }
  }

  lemma SameMembers(h: Header, times: seq<int>, rows: seq<string>, order: seq<string>, collected: seq<TimeHeader>,
                    x: TimeHeader)
    requires Carries(h, times, rows) && Enumerates(order, h)
    requires forall y :: y in collected ==> exists i :: Met(y, times, rows, order, i)
    requires forall i :: 0 <= i < |times| && TimeName(times[i]) in order ==> TimeHeader(times[i], rows[i]) in collected
    ensures x in collected <==> x in TimeHeaders(times, rows)
  {
    hide TimeName, IsTimeName;
    if x in collected {
      var i: nat :| Met(x, times, rows, order, i);
      assert TimeHeaders(times, rows)[i] == x;
    }
    if x in TimeHeaders(times, rows) {
      var i :| 0 <= i < |times| && TimeHeaders(times, rows)[i] == x;
      assert TimeName(times[i]) in h;
    }
  }

  // ---- the whole batch ------------------------------------------------------------------------

  function ExpectedV1(entry: string, records: V1Records, times: seq<int>, last: bool, i: nat): RecordView
    requires i < |times| && times[i] in records
  {
    var r := records[times[i]];
    RecordView(entry, times[i], |r.data|, last && i == |times| - 1, i == |times| - 1, r.data, TextOf(r.labels), r.contentType)
  }

  function ExpectedAllV1(entry: string, records: V1Records, times: seq<int>, last: bool): (views: seq<RecordView>)
    requires forall i :: 0 <= i < |times| ==> times[i] in records
    ensures |views| == |times|
    ensures forall i :: 0 <= i < |times| ==> views[i] == ExpectedV1(entry, records, times, last, i)
  {
    seq(|times|, i requires 0 <= i < |times| => ExpectedV1(entry, records, times, last, i))
  }

  lemma RowReadsBack(records: V1Records, times: seq<int>, rows: seq<string>, i: nat)
    requires GoodRecords(records) && AsciiRecords(records) && PrintsAll(rows, BatchWrite, records, times) && i < |times|
    ensures var r := records[times[i]];
            ParsedRows(TimeHeaders(times, rows))[i] == CsvRow(|r.data|, r.contentType, TextOf(r.labels))
  {
    hide Prints, Fields, AssignAll;
    GoodAt(records, times[i]);
    RowRoundTrip(rows[i], records[times[i]]);
  }

  lemma {:induction false} ContentIsPart(parts: seq<bytes>, sizes: seq<int>, i: nat)
    requires |sizes| == |parts| && (forall k :: 0 <= k < |parts| ==> sizes[k] == |parts[k]|) && i < |parts|
    ensures BufferedSize(sizes) <= |Concat(parts)| && !SlicingPanics(sizes)
    ensures ContentOf(sizes, Concat(parts), false, i) == parts[i]
  {
    hide BufferedSize, Offset, Window, Concat;
    assert BodySizes(sizes) == Lengths(parts);
    WindowOfConcat(parts, i);
    BufferedIsOffset(Lengths(parts));
    BufferedOfBodySizes(sizes);
  }

  lemma {:induction false} ViewIsPrinted(entry: string, records: V1Records, times: seq<int>, rows: seq<string>,
                                          last: bool, i: nat)
    requires GoodRecords(records) && AsciiRecords(records) && PrintsAll(rows, BatchWrite, records, times) && i < |times|
    ensures var ths := TimeHeaders(times, rows);
            var body := Concat(DataAt(records, times));
            && BufferedSize(RowSizes(ParsedRows(ths))) <= |body| && !SlicingPanics(RowSizes(ParsedRows(ths)))
            && ViewAt(entry, ths, ParsedRows(ths), last, body, false, i) == ExpectedV1(entry, records, times, last, i)
  {
    hide ParsedRow, BufferedSize, SlicingPanics, ContentOf, Concat, PrintsAll, TextOf, AsciiRecords;
    PrintedTimes(rows, records, times);
    var rs := ParsedRows(TimeHeaders(times, rows));
    forall k | 0 <= k < |times| ensures RowSizes(rs)[k] == |DataAt(records, times)[k]| { RowReadsBack(records, times, rows, k); }
    RowReadsBack(records, times, rows, i);
    ContentIsPart(DataAt(records, times), RowSizes(rs), i);
    GoodAt(records, times[i]);
  }

  lemma PrintedTimes(rows: seq<string>, records: V1Records, times: seq<int>)
    requires AsciiRecords(records) && PrintsAll(rows, BatchWrite, records, times)
    ensures |rows| == |times| && forall i :: 0 <= i < |times| ==> times[i] in records
  {}

  lemma {:induction false} ViewsArePrinted(entry: string, records: V1Records, times: seq<int>, rows: seq<string>,
                                            last: bool)
    requires GoodRecords(records) && AsciiRecords(records) && PrintsAll(rows, BatchWrite, records, times) && times != []
    ensures |rows| == |times| && forall i :: 0 <= i < |times| ==> times[i] in records
    ensures var ths := TimeHeaders(times, rows);
            Views(entry, ths, ParsedRows(ths), last, Whole(Concat(DataAt(records, times))), false)
            == Fetched(ExpectedAllV1(entry, records, times, last))
  {
    hide ParsedRows, BufferedSize, SlicingPanics, ViewAt, Concat, PrintsAll, AsciiRecords, GoodRecords, ExpectedV1;
    PrintedTimes(rows, records, times);
    var ths, body := TimeHeaders(times, rows), Concat(DataAt(records, times));
    forall i: nat | i < |times|
      ensures BufferedSize(RowSizes(ParsedRows(ths))) <= |body| && !SlicingPanics(RowSizes(ParsedRows(ths)))
              && ViewAt(entry, ths, ParsedRows(ths), last, body, false, i) == ExpectedV1(entry, records, times, last, i) {
      ViewIsPrinted(entry, records, times, rows, last, i);
    }
    ViewIsPrinted(entry, records, times, rows, last, 0);
    assert seq(|ths|, i requires 0 <= i < |ths| => ViewAt(entry, ths, ParsedRows(ths), last, body, false, i))
           == ExpectedAllV1(entry, records, times, last);
  }

  /** The content type of a record is read if it is a good one, whatever the labels are. */
  lemma {:induction false} GoodTypeIsRead(row: string, r: V1Record)
    requires GoodType1(r.contentType) && AsciiLabels1(r.labels) && Prints(row, BatchWrite, r)
    ensures AssignAll(Fields(row)).contentType == r.contentType
  {
    var order :| PrintsInOrder(row, BatchWrite, r, order);
    hide AssignAll, LabelsText, FormatInt, ScanAll, Finish, Enumerates;
    var begin, text := RowStart(BatchWrite, r), LabelsText(r.labels, order);
    TypeIsSecondField(Fields(row));
    if order == [] {
      NoLabelsText(r.labels);
      assert row == begin;
      StartIsTwoFields(r);
    } else {
      LabelsStart(r.labels, order);
      TypeBeforeLabels(row, r, text);
    }
  }

  lemma {:induction false} NoLabelsText(labels: V1Labels)
    requires AsciiLabels1(labels)
    ensures LabelsText(labels, []) == ""
  {}

  lemma TypeBeforeLabels(row: string, r: V1Record, text: string)
    requires GoodType1(r.contentType) && text != "" && text[0] == ',' && row == RowStart(BatchWrite, r) + text
    ensures |Fields(row)| >= 2 && Fields(row)[1] == r.contentType
  {
    FormatChars(|r.data|);
    hide Fields, FormatInt;
    assert text == [','] + text[1..];
    assert row == FormatInt(|r.data|) + [','] + r.contentType + [','] + text[1..];
    FirstTwoFields(FormatInt(|r.data|), r.contentType, text[1..]);
  }

  lemma {:induction false} LabelsStart(labels: V1Labels, order: seq<string>)
    requires AsciiLabels1(labels) && order != [] && forall i :: 0 <= i < |order| ==> order[i] in labels
    ensures LabelsText(labels, order) != "" && LabelsText(labels, order)[0] == ','
  {
    hide FormatLabelValue;
    if |order| > 1 {
      LabelsStart(labels, order[..|order| - 1]);
    } else {
      assert order[..0] == [];
    }
  }

  /** A record whose view is the expected one has been read as itself. */
  lemma {:induction false} ViewTellsRow(entry: string, records: V1Records, times: seq<int>, rows: seq<string>,
                                        last: bool, data: bytes, i: nat)
    requires TextRecords(records) && AsciiRecords(records) && PrintsAll(rows, BatchWrite, records, times) && i < |times|
    requires BufferedSize(RowSizes(ParsedRows(TimeHeaders(times, rows)))) <= |data|
    requires ViewAt(entry, TimeHeaders(times, rows), ParsedRows(TimeHeaders(times, rows)), last, data, false, i)
             == ExpectedV1(entry, records, times, last, i)
    ensures GoodRecord(records[times[i]])
  {
    hide ContentOf, BufferedSize, RowSizes, Prints, AssignAll, Fields, TextOf;
    var r := records[times[i]];
    TextAt(records, times[i]);
    var read := AssignAll(Fields(rows[i]));
    assert ParsedRows(TimeHeaders(times, rows))[i] == read;
    if read.contentType == "" {
      assert r.contentType == OCTET_STREAM;
      OctetStreamIsGood1();
      GoodTypeIsRead(rows[i], r);
    }
    assert ReadsAs(rows[i], r);
    RowRoundTripIff(rows[i], r);
  }

  lemma OctetStreamIsGood1()
    ensures GoodType1(OCTET_STREAM)
  {}

  lemma ViewsTellData(entry: string, ths: seq<TimeHeader>, rows: seq<CsvRow>, last: bool, s: Stream,
                      views: seq<RecordView>)
    requires |ths| == |rows| && Views(entry, ths, rows, last, s, false) == Fetched(views)
    ensures BufferedSize(RowSizes(rows)) <= |s.data| && |views| == |ths|
    ensures forall i :: 0 <= i < |ths| ==> views[i] == ViewAt(entry, ths, rows, last, s.data, false, i)
  {
    hide BufferedSize, RowSizes, ViewAt, SlicingPanics;
  }

  lemma {:induction false} ExpectedMeansGood(entry: string, records: V1Records, times: seq<int>, rows: seq<string>,
                                             last: bool, data: bytes)
    requires TextRecords(records) && AsciiRecords(records) && PrintsAll(rows, BatchWrite, records, times)
    requires IsTimes(times, records) && |rows| == |times| && forall i :: 0 <= i < |times| ==> times[i] in records
    requires Views(entry, TimeHeaders(times, rows), ParsedRows(TimeHeaders(times, rows)), last, Whole(data), false)
             == Fetched(ExpectedAllV1(entry, records, times, last))
    ensures GoodRecords(records)
  {
    hide BufferedSize, RowSizes, ViewAt, Views, ExpectedV1, GoodRecord, PrintsAll, AsciiRecords, TextRecords;
    ViewsTellData(entry, TimeHeaders(times, rows), ParsedRows(TimeHeaders(times, rows)), last, Whole(data),
                  ExpectedAllV1(entry, records, times, last));
    forall i: nat | i < |times| ensures GoodRecord(records[times[i]]) {
      ViewTellsRow(entry, records, times, rows, last, data, i);
    }
    forall t: int | t in records ensures GoodRecord(records[t]) {
      assert t in times;
      var i :| 0 <= i < |times| && times[i] == t;
    }
  }

  lemma RowsAreNotEmpty(records: V1Records, times: seq<int>, rows: seq<string>, i: nat)
    requires AsciiRecords(records) && PrintsAll(rows, BatchWrite, records, times) && i < |times|
    ensures rows[i] != ""
  {
    var r := records[times[i]];
    var order :| PrintsInOrder(rows[i], BatchWrite, r, order);
    hide FormatInt, LabelsText;
    assert RowStart(BatchWrite, r)[|FormatInt(|r.data|)|] == ',';
  }

  /**
   * The v1 round trip: for every batch filled by Add with text labels, for
   * every order in which Write met the labels of each record, and for every
   * order in which the reader meets the headers, reading what Write printed
   * gives exactly the same records in time order, if and only if every content
   * type, label name and label value is good.
   */
  lemma {:induction false} WrittenReadsBackIff(calls: seq<Call>, times: seq<int>, rows: seq<string>, h: Header,
                                               order: seq<string>, entry: string)
    requires forall i :: 0 <= i < |calls| ==> TextCall(calls[i])
    requires IsTimes(times, Run(calls)) && times != [] && AsciiRecords(Run(calls))
    requires PrintsAll(rows, BatchWrite, Run(calls), times) && Carries(h, times, rows) && Enumerates(order, h)
    ensures forall i :: 0 <= i < |times| ==> times[i] in Run(calls)
    ensures forall k :: 0 <= k < |order| ==> order[k] in h
    ensures CollectTimes(h, order).Ok? && Distinct(CollectTimes(h, order).value, TimeLess)
    ensures ReadV1(200, h, Whole(Concat(DataAt(Run(calls), times))), false, false, entry,
                   Ok(Sort(CollectTimes(h, order).value, TimeLess)))
            == Fetched(ExpectedAllV1(entry, Run(calls), times, SaysTrue(Get(h, LAST))))
            <==> GoodRecords(Run(calls))
  {
    hide Run, PrintsAll, Views, ParsedRows, Concat, Sort, CollectTimes, Distinct, EqualFold, Carries, Enumerates,
         AsciiRecords, TextCall, TextRecords, GoodRecords, SaysTrue;
    AddedAreText(calls);
    PrintedTimes(rows, Run(calls), times);
    forall i: nat | i < |times| ensures InInt64(times[i]) && rows[i] != "" {
      RowsAreNotEmpty(Run(calls), times, rows, i);
      TextAt(Run(calls), times[i]);
    }
    TimeOrderRecovery(h, times, rows, order);
    TrueFolds(Get(h, LAST));
    var last, body := SaysTrue(Get(h, LAST)), Concat(DataAt(Run(calls), times));
    if GoodRecords(Run(calls)) {
      ViewsArePrinted(entry, Run(calls), times, rows, last);
    }
    if Views(entry, TimeHeaders(times, rows), ParsedRows(TimeHeaders(times, rows)), last, Whole(body), false)
       == Fetched(ExpectedAllV1(entry, Run(calls), times, last)) {
      ExpectedMeansGood(entry, Run(calls), times, rows, last, body);
    }
  }
}
