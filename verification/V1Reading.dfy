/**
 * What a response of Batch Protocol v1 means, independent of the reader that
 * parses it (batch/v1.go: ParseCSVRow, collectTimeHeaders, readBatchedRecords):
 * for any headers and any body that a server may send.
 */
module V1Reading {
  import opened Text
  import opened Decimal
  import opened Headers
  import opened CsvRows
  import opened Bodies
  import opened V1Batches
  import opened V2Decode
  import opened V1Read
  import opened LabelGrammar
  import opened V2Reading
  import Responses

  // ---- rows ---------------------------------------------------------------------------------------

  predicate Bare(a: string) {
    ',' !in a && '"' !in a
  }

  lemma {:induction false} QuoteOpens(rest: string)
    ensures Fields("\"" + rest) == Fields(rest)
  {
    hide ScanAll;
    ScanOne(START, '"');
    ScanConcat(START, "\"", rest);
  }

  lemma {:induction false} QuotedField(a: string, q: string, rest: string)
    requires Bare(a) && a != "" && '"' !in q
    ensures Fields(a + "\"" + q + "\"" + rest) == [a + q] + Fields(rest)
  {
    hide ScanAll;
    var begun, closed := a + "\"" + q, a + "\"" + q + "\"";
    OpenField(a, q);
    ScanOne(ScanAll(START, begun), '"');
    ScanConcat(START, begun, "\"");
    ScanConcat(START, closed, rest);
    ScanKeepsFields(START, [a + q], rest);
    assert [] + [a + q] == [a + q] + START.fields;
    assert closed == begun + "\"" && a + "\"" + q + "\"" + rest == closed + rest;
    var t := ScanAll(START, rest);
    assert [a + q] + t.fields + [t.escaped + t.current] == [a + q] + (t.fields + [t.escaped + t.current]);
  }

  lemma {:induction false} OpenField(a: string, q: string)
    requires Bare(a) && a != "" && '"' !in q
    ensures ScanAll(START, a + "\"" + q) == Scan([], a, q)
  {
    hide ScanAll;
    ScanText(START, a);
    assert "" + a == a && "" + q == q;
    ScanOne(ScanAll(START, a), '"');
    ScanConcat(START, a, "\"");
    ScanText(Scan([], a, ""), q);
    ScanConcat(START, a + "\"", q);
  }

  lemma {:induction false} LeftOpen(a: string, q: string)
    requires Bare(a) && a != "" && '"' !in q
    ensures Fields(a + "\"" + q) == if q == "" then [] else [a + q]
  {
    OpenField(a, q);
    hide ScanAll;
  }

  lemma BareField(a: string)
    requires Bare(a)
    ensures Fields(a) == if a == "" then [] else [a]
  {
    if a != "" { OneField(a); }
  }

  lemma {:induction false} CommaEnds(a: string, rest: string)
    requires Bare(a)
    ensures Fields(a + "," + rest) == (if a == "" then [] else [a]) + Fields(rest)
  {
    hide Fields;
    FirstField(a + [','] + rest, a, rest);
    assert a + "," + rest == a + [','] + rest;
  }

  /**
   * The fields of a row, by its first comma or quote: a comma ends a field, a
   * quote inside a field hides commas up to the next quote, which ends the
   * field, a quote before a field counts for nothing, and what stands before a
   * quote that is the final character is lost.
   */
  lemma {:induction false} RowFieldsAre(a: string, q: string, rest: string)
    requires Bare(a) && '"' !in q
    ensures Fields(a) == if a == "" then [] else [a]
    ensures Fields(a + "," + rest) == (if a == "" then [] else [a]) + Fields(rest)
    ensures a == "" ==> Fields(a + "\"" + rest) == Fields(rest)
    ensures a != "" ==> Fields(a + "\"" + q + "\"" + rest) == [a + q] + Fields(rest)
    ensures a != "" ==> Fields(a + "\"" + q) == if q == "" then [] else [a + q]
  {
    hide Fields;
    BareField(a);
    CommaEnds(a, rest);
    if a == "" {
      QuoteOpens(rest);
      assert a + "\"" + rest == "\"" + rest;
    } else {
      QuotedField(a, q, rest);
      LeftOpen(a, q);
    }
  }

  /** Every row is of one of these kinds, so nothing else decides about its fields. */
  lemma {:induction false} EveryRowIsCut(row: string)
    ensures || Bare(row)
            || (exists a, rest :: row == a + "," + rest && Bare(a))
            || (exists a, rest :: row == a + "\"" + rest && Bare(a))
  {
    if !Bare(row) {
      var i := FirstMark(row);
      assert row == row[..i] + [row[i]] + row[i + 1..];
    }
  }

  lemma {:induction false} FirstMark(row: string) returns (i: nat)
    requires !Bare(row)
    ensures i < |row| && (row[i] == ',' || row[i] == '"') && Bare(row[..i])
  {
    hide Index;
    var comma, quote := Index(row, ','), Index(row, '"');
    i := if comma == -1 || (quote != -1 && quote < comma) then quote else comma;
    assert comma != -1 ==> forall j :: 0 <= j < comma ==> row[..comma][j] == row[j];
    assert quote != -1 ==> forall j :: 0 <= j < quote ==> row[..quote][j] == row[j];
  }

  /** The final field that has this name decides about a label. */
  ghost predicate NamesField(field: string, key: string, value: string) {
    field == key + "=" + value && '=' !in key
  }

  ghost predicate NamesAt(fields: seq<string>, i: int, key: string, value: string) {
    0 <= i < |fields| && NamesField(fields[i], key, value)
  }

  ghost predicate FieldFor(field: string, key: string) {
    exists value :: NamesField(field, key, value)
  }

  ghost predicate FieldDecides(fields: seq<string>, i: int, key: string) {
    2 <= i < |fields| && FieldFor(fields[i], key) && forall j :: i < j < |fields| ==> !FieldFor(fields[j], key)
  }

  /** What the fields of a row mean: the size if it is a number, the type, and `name=value` labels. */
  ghost predicate FieldsMean(fields: seq<string>, row: CsvRow) {
    && (if |fields| >= 1 && (exists n :: WritesNumber(fields[0], n)) then WritesNumber(fields[0], row.size) else row.size == 0)
    && row.contentType == (if |fields| >= 2 then fields[1] else "")
    && (forall key :: key in row.labels <==> exists i :: FieldDecides(fields, i, key))
    && (forall i, key :: FieldDecides(fields, i, key) ==> key in row.labels && NamesAt(fields, i, key, row.labels[key]))
  }

  lemma {:induction false} FieldSplit(field: string, key: string)
    ensures FieldFor(field, key) <==> '=' in field && key == field[..Index(field, '=')]
    ensures FieldFor(field, key) ==> NamesField(field, key, field[Index(field, '=') + 1..])
    ensures forall value :: NamesField(field, key, value) ==> '=' in field && value == field[Index(field, '=') + 1..]
  {
    hide Index;
    var p := Index(field, '=');
    if p >= 0 { assert field == field[..p] + "=" + field[p + 1..]; }
    forall value | NamesField(field, key, value)
      ensures '=' in field && key == field[..p] && value == field[p + 1..]
    {
      assert field == key + ['='] + value;
      assert field[|key|] == '=';
      IndexAfter(key, '=', value);
    }
    if '=' in field && key == field[..p] { assert NamesField(field, key, field[p + 1..]); }
  }

  lemma {:induction false} AssignStep(fields: seq<string>)
    requires fields != []
    ensures AssignAll(fields) == SetField(AssignAll(fields[..|fields| - 1]), |fields| - 1, fields[|fields| - 1])
  {}

  lemma {:induction false} SizeAndType(fields: seq<string>)
    ensures AssignAll(fields).size == if |fields| >= 1 && ParseInt(fields[0]).Some? then ParseInt(fields[0]).value else 0
    ensures AssignAll(fields).contentType == if |fields| >= 2 then fields[1] else ""
  {
    hide ParseInt, Index;
    if |fields| > 0 {
      SizeAndType(fields[..|fields| - 1]);
    }
  }

  lemma {:induction false} LabelOfFields(fields: seq<string>, key: string)
    ensures key in AssignAll(fields).labels <==> exists i :: FieldDecides(fields, i, key)
    ensures forall i :: FieldDecides(fields, i, key) ==>
              key in AssignAll(fields).labels && NamesAt(fields, i, key, AssignAll(fields).labels[key])
  {
    hide ParseInt, Index, FieldFor, NamesField;
    if |fields| > 0 {
      var n := |fields| - 1;
      var init, last := fields[..n], fields[n];
      LabelOfFields(init, key);
      AssignStep(fields);
      FieldSplit(last, key);
      var before := AssignAll(init);
      hide AssignAll;
      if n >= 2 && FieldFor(last, key) {
        assert FieldDecides(fields, n, key);
        OnlyOneDecides(fields, n, key);
      } else {
        forall i ensures FieldDecides(fields, i, key) <==> FieldDecides(init, i, key) { DecidesInInit(fields, i, key); }
        SetFieldKeeps(before, n, last, key);
      }
    }
  }

  lemma OnlyOneDecides(fields: seq<string>, i: nat, key: string)
    requires FieldDecides(fields, i, key)
    ensures forall j :: FieldDecides(fields, j, key) ==> j == i
  {
    hide FieldFor;
  }

  lemma DecidesInInit(fields: seq<string>, i: int, key: string)
    requires fields != [] && (|fields| >= 3 ==> !FieldFor(fields[|fields| - 1], key))
    ensures FieldDecides(fields, i, key) <==> FieldDecides(fields[..|fields| - 1], i, key)
  {
    hide FieldFor;
  }

  lemma {:induction false} SetFieldKeeps(r: CsvRow, index: nat, field: string, key: string)
    requires index >= 2 ==> !FieldFor(field, key)
    ensures key in SetField(r, index, field).labels <==> key in r.labels
    ensures key in r.labels ==> SetField(r, index, field).labels[key] == r.labels[key]
  {
    FieldSplit(field, key);
    hide Index, ParseInt, FieldFor;
  }

  /** ParseCSVRow reads a row as exactly what its fields mean. */
  lemma {:induction false} RowReadIff(value: string, row: CsvRow)
    ensures AssignAll(Fields(value)) == row <==> FieldsMean(Fields(value), row)
  {
    var fields := Fields(value);
    hide Fields, FieldDecides, NamesAt, ParseInt, WritesNumber;
    SizeAndType(fields);
    if |fields| >= 1 { ParsedNumber(fields[0]); }
    forall key
      ensures key in AssignAll(fields).labels <==> exists i :: FieldDecides(fields, i, key)
      ensures forall i :: FieldDecides(fields, i, key) ==>
                key in AssignAll(fields).labels && NamesAt(fields, i, key, AssignAll(fields).labels[key])
    {
      LabelOfFields(fields, key);
    }
    hide AssignAll;
    if FieldsMean(fields, row) { SameLabels(fields, row, AssignAll(fields)); }
  }

  lemma {:induction false} SameLabels(fields: seq<string>, a: CsvRow, b: CsvRow)
    requires FieldsMean(fields, a) && FieldsMean(fields, b)
    ensures a == b
  {
    hide FieldDecides, Index, FieldFor;
    forall key | key in a.labels ensures key in b.labels && a.labels[key] == b.labels[key] {
      var i: int :| FieldDecides(fields, i, key);
      assert NamesAt(fields, i, key, a.labels[key]) && NamesAt(fields, i, key, b.labels[key]);
      FieldSplit(fields[i], key);
    }
    forall key | key in b.labels ensures key in a.labels {
      var i: int :| FieldDecides(fields, i, key);
    }
    assert a.labels == b.labels;
    if |fields| >= 1 { ParsedNumber(fields[0]); }
  }

  // ---- time headers -------------------------------------------------------------------------------

  /** The text after `x-reduct-time-`, in any case. */
  ghost predicate TimeSuffix(name: string, suffix: string) {
    suffix != "" && exists prefix :: name == prefix + suffix && |prefix| == |"x-reduct-time-"|
                                     && forall i :: 0 <= i < |prefix| ==> SameLetter(prefix[i], "x-reduct-time-"[i])
  }

  /** The records a response header stands for: none, or one; other time headers are errors. */
  ghost predicate GivesTimes(name: string, values: seq<string>, ths: seq<TimeHeader>) {
    if exists suffix :: TimeSuffix(name, suffix) then
      exists suffix, ts :: TimeSuffix(name, suffix) && WritesNumber(suffix, ts)
                           && values != [] && values[0] != "" && ths == [TimeHeader(ts, values[0])]
    else ths == []
  }

  lemma {:induction false} TimeNameIff(name: string, suffix: string)
    ensures TimeSuffix(name, suffix) <==> IsTimeName(name) && suffix == name[|TIME_PREFIX|..]
  {
    if IsTimeName(name) {
      FoldIff(name[..|TIME_PREFIX|], TIME_PREFIX);
      assert name == name[..|TIME_PREFIX|] + name[|TIME_PREFIX|..];
    }
    if TimeSuffix(name, suffix) {
      var prefix :| name == prefix + suffix && |prefix| == |"x-reduct-time-"|
                    && forall i :: 0 <= i < |prefix| ==> SameLetter(prefix[i], "x-reduct-time-"[i]);
      FoldIff(prefix, TIME_PREFIX);
      assert name[..|TIME_PREFIX|] == prefix;
    }
    hide SameLetter, EqualFold;
  }

  /** One turn of the loop of collectTimeHeaders. */
  lemma {:induction false} TimeHeaderIff(name: string, values: seq<string>, ths: seq<TimeHeader>)
    ensures ReadTimeHeader(name, values) == Ok(ths) <==> GivesTimes(name, values, ths)
  {
    hide TimeSuffix, IsTimeName, ParseInt, WritesNumber;
    TimeNameIsLong(name);
    forall suffix ensures TimeSuffix(name, suffix) <==> IsTimeName(name) && suffix == AfterPrefix(name) {
      TimeNameIff(name, suffix);
    }
    if IsTimeName(name) { ParsedNumber(AfterPrefix(name)); }
    assert IsTimeName(name) ==> TimeSuffix(name, AfterPrefix(name));
  }

  function AfterPrefix(name: string): string {
    if |name| > |TIME_PREFIX| then name[|TIME_PREFIX|..] else ""
  }

  lemma TimeNameIsLong(name: string)
    ensures IsTimeName(name) ==> AfterPrefix(name) == name[|TIME_PREFIX|..]
  {}

  ghost predicate HeaderIsGood(headers: Header, name: string)
    requires name in headers
  {
    exists ths :: GivesTimes(name, headers[name], ths)
  }

  /** Exactly the headers that stand for records give time headers, and one bad header is enough for an error. */
  lemma {:induction false} CollectedIff(headers: Header, order: seq<string>)
    requires forall i :: 0 <= i < |order| ==> order[i] in headers
    ensures CollectTimes(headers, order).Ok? <==>
              forall i :: 0 <= i < |order| ==> HeaderIsGood(headers, order[i])
    ensures CollectTimes(headers, order).Ok? ==>
              forall th :: th in CollectTimes(headers, order).value <==>
                exists i :: 0 <= i < |order| && GivesTimes(order[i], headers[order[i]], [th])
  {
    hide ReadTimeHeader, GivesTimes;
    if order != [] {
      var n := |order| - 1;
      CollectedIff(headers, order[..n]);
      var more := ReadTimeHeader(order[n], headers[order[n]]);
      if more.Ok? { TimeHeaderIff(order[n], headers[order[n]], more.value); }
      forall ths ensures more == Ok(ths) <==> GivesTimes(order[n], headers[order[n]], ths) {
        TimeHeaderIff(order[n], headers[order[n]], ths);
      }
      AtMostOne(order[n], headers[order[n]]);
      assert forall i :: 0 <= i < n ==> order[..n][i] == order[i];
      assert more.Ok? <==> HeaderIsGood(headers, order[n]);
      hide HeaderIsGood;
      if CollectTimes(headers, order).Ok? {
        forall th ensures th in CollectTimes(headers, order).value <==>
                            exists i :: 0 <= i < |order| && GivesTimes(order[i], headers[order[i]], [th])
        {
          if i :| 0 <= i < |order| && GivesTimes(order[i], headers[order[i]], [th]) {
            if i < n { assert order[..n][i] == order[i]; }
          }
        }
      }
    }
  }

  lemma AtMostOne(name: string, values: seq<string>)
    ensures ReadTimeHeader(name, values).Ok? ==>
              forall th :: th in ReadTimeHeader(name, values).value <==> ReadTimeHeader(name, values).value == [th]
  {
    hide IsTimeName, ParseInt;
  }

  // ---- the response -------------------------------------------------------------------------------

  ghost predicate V1ViewMeans(v: RecordView, entry: string, th: TimeHeader) {
    exists row :: FieldsMean(Fields(th.value), row)
      && v.entry == entry && v.time == th.ts && v.size == row.size && v.labels == row.labels
      && v.contentType == if row.contentType == "" then "application/octet-stream" else row.contentType
  }

  /** Rows, mark and body stand for these records. */
  ghost predicate V1ResponseMeans(headers: Header, entry: string, ths: seq<TimeHeader>, body: bytes, head: bool,
                                  views: seq<RecordView>) {
    && |views| == |ths| && (forall i :: 0 <= i < |ths| ==> V1ViewMeans(views[i], entry, ths[i]))
    && Responses.Marked(views, Get(headers, LAST)) && Contain(views, body, head)
  }

  lemma {:induction false} ViewAtIff(entry: string, ths: seq<TimeHeader>, last: bool, data: bytes, head: bool, i: nat, v: RecordView)
    requires i < |ths| && (!head ==> BufferedSize(RowSizes(ParsedRows(ths))) <= |data|)
    ensures v == ViewAt(entry, ths, ParsedRows(ths), last, data, head, i) <==>
              && V1ViewMeans(v, entry, ths[i]) && (v.lastInBatch <==> i == |ths| - 1) && (v.last <==> i == |ths| - 1 && last)
              && v.content == ContentOf(RowSizes(ParsedRows(ths)), data, head, i)
  {
    hide BufferedSize, ContentOf, AssignAll, Fields, FieldsMean;
    RowReadIff(ths[i].value, ParsedRow(ths[i]));
    if V1ViewMeans(v, entry, ths[i]) {
      var row :| FieldsMean(Fields(ths[i].value), row)
        && v.entry == entry && v.time == ths[i].ts && v.size == row.size && v.labels == row.labels
        && v.contentType == if row.contentType == "" then "application/octet-stream" else row.contentType;
      RowReadIff(ths[i].value, row);
    }
  }

  lemma {:induction false} SizesAreThose(views: seq<RecordView>, entry: string, ths: seq<TimeHeader>)
    requires |views| == |ths| && forall i :: 0 <= i < |ths| ==> V1ViewMeans(views[i], entry, ths[i])
    ensures forall i :: 0 <= i < |ths| ==> views[i].size == RowSizes(ParsedRows(ths))[i]
  {
    hide AssignAll, Fields, FieldsMean;
    forall i | 0 <= i < |ths| ensures views[i].size == RowSizes(ParsedRows(ths))[i] {
      assert V1ViewMeans(views[i], entry, ths[i]);
      var row :| FieldsMean(Fields(ths[i].value), row)
        && views[i].entry == entry && views[i].time == ths[i].ts && views[i].size == row.size && views[i].labels == row.labels
        && views[i].contentType == if row.contentType == "" then "application/octet-stream" else row.contentType;
      RowReadIff(ths[i].value, row);
    }
  }

  ghost predicate AreV1Views(views: seq<RecordView>, entry: string, ths: seq<TimeHeader>, last: bool, data: bytes, head: bool)
    requires !head ==> BufferedSize(RowSizes(ParsedRows(ths))) <= |data|
  {
    |views| == |ths| && forall i :: 0 <= i < |ths| ==> views[i] == ViewAt(entry, ths, ParsedRows(ths), last, data, head, i)
  }

  lemma {:induction false} ViewsAre(entry: string, ths: seq<TimeHeader>, last: bool, s: Stream, head: bool, views: seq<RecordView>)
    ensures Views(entry, ths, ParsedRows(ths), last, s, head) == Fetched(views) <==>
              var sizes := RowSizes(ParsedRows(ths));
              && (!head ==> BufferedSize(sizes) <= |s.data| && !SlicingPanics(sizes))
              && AreV1Views(views, entry, ths, last, s.data, head)
  {
    hide BufferedSize, SlicingPanics, ViewAt, ParsedRow;
    var sizes := RowSizes(ParsedRows(ths));
    if (!head ==> BufferedSize(sizes) <= |s.data| && !SlicingPanics(sizes))
       && AreV1Views(views, entry, ths, last, s.data, head) {
      assert Views(entry, ths, ParsedRows(ths), last, s, head).records == views;
    }
  }

  lemma {:induction false} V1BuildIff(mark: string, s: Stream, head: bool, entry: string, ths: seq<TimeHeader>,
                                      views: seq<RecordView>)
    requires ths != []
    ensures Views(entry, ths, ParsedRows(ths), EqualFold(mark, "true"), s, head) == Fetched(views) <==>
              && |views| == |ths| && (forall i :: 0 <= i < |ths| ==> V1ViewMeans(views[i], entry, ths[i]))
              && Responses.Marked(views, mark) && Contain(views, s.data, head)
  {
    hide Views, BufferedSize, SlicingPanics, ContentOf, Concat, EqualFold, SaysTrue, ViewAt, V1ViewMeans, ParsedRow;
    TrueFolds(mark);
    var last, sizes := EqualFold(mark, "true"), RowSizes(ParsedRows(ths));
    ViewsAre(entry, ths, last, s, head, views);
    if |views| == |ths| && (forall i :: 0 <= i < |ths| ==> V1ViewMeans(views[i], entry, ths[i]))
       && Responses.Marked(views, mark) && Contain(views, s.data, head) {
      SizesAreThose(views, entry, ths);
      if !head { PartsAreWindows(sizes, s.data, ContentsOf(views)); }
      forall i | 0 <= i < |ths| ensures views[i] == ViewAt(entry, ths, ParsedRows(ths), last, s.data, head, i) {
        HeadIsBare(sizes, s.data, i);
        assert !head ==> views[i].content == ContentsOf(views)[i];
        ViewAtIff(entry, ths, last, s.data, head, i, views[i]);
      }
    }
    if Views(entry, ths, ParsedRows(ths), last, s, head) == Fetched(views) {
      forall i | 0 <= i < |ths|
        ensures V1ViewMeans(views[i], entry, ths[i])
        ensures (views[i].lastInBatch <==> i == |ths| - 1) && (views[i].last <==> i == |ths| - 1 && last)
        ensures views[i].content == ContentOf(sizes, s.data, head, i)
      {
        ViewAtIff(entry, ths, last, s.data, head, i, views[i]);
      }
      SizesAreThose(views, entry, ths);
      if head {
        forall i | 0 <= i < |ths| ensures views[i].content == [] { HeadIsBare(sizes, s.data, i); }
      } else {
        WindowsAreParts(sizes, s.data, ContentsOf(views));
      }
    }
  }

  /**
   * What a fetch gives is exactly what the response means: one record for each
   * of its time headers, and no records where there is none.
   */
  lemma {:induction false} V1ReadIff(status: int, headers: Header, s: Stream, head: bool, cancelled: bool, entry: string,
                                     ths: Result<seq<TimeHeader>>, views: seq<RecordView>)
    ensures ReadV1(status, headers, s, head, cancelled, entry, ths) == Fetched(views) <==>
              status != 204 && !cancelled && ths.Ok? && ths.value != []
              && V1ResponseMeans(headers, entry, ths.value, s.data, head, views)
  {
    hide Views, Get, EqualFold, ParsedRows, V1ViewMeans, Contain, Responses.Marked;
    if ths.Ok? && ths.value != [] {
      V1BuildIff(Get(headers, LAST), s, head, entry, ths.value, views);
    }
  }

  /** A body shorter than its rows say, but for the final one, fails the whole fetch. */
  lemma {:induction false} V1ShortBodyFails(status: int, headers: Header, s: Stream, entry: string, ths: seq<TimeHeader>)
    requires status != 204 && ths != [] && BufferedSize(RowSizes(ParsedRows(ths))) > |s.data|
    ensures var read := ReadV1(status, headers, s, false, false, entry, Ok(ths));
            read.Failed? && TellsShort(read.error, s)
  {
    hide Get, EqualFold, BufferedSize, SlicingPanics, ParsedRow;
  }
}
