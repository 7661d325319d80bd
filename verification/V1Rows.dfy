/** One row of Batch Protocol v1: which records read back from what Batch.Write prints for them. */
module V1Rows {
  import opened Text
  import opened Ordering
  import opened Decimal
  import opened Headers
  import opened LabelOps
  import opened CsvRows
  import opened V1Batches

  // ---- the domain -----------------------------------------------------------------------------

  /** Label names without the characters that have a meaning in a row. */
  predicate GoodName(k: string) {
    ',' !in k && '"' !in k && '=' !in k
  }

  /** Values without quotes; with a comma only text that `%q` leaves as it is. */
  predicate GoodText(v: string) {
    IsAscii(v) && '"' !in v && (',' in v ==> forall i :: 0 <= i < |v| ==> IsPlain(v[i]))
  }

  predicate GoodType1(contentType: string) {
    contentType != "" && ',' !in contentType && '"' !in contentType
  }

  ghost predicate GoodLabels1(labels: V1Labels) {
    forall k :: k in labels ==> GoodName(k) && labels[k].Text? && GoodText(labels[k].text)
  }

  ghost predicate GoodRecord(r: V1Record) {
    GoodType1(r.contentType) && GoodLabels1(r.labels) && |r.data| <= MAX_INT64
  }

  function TextOf(labels: V1Labels): Labels {
    map k | k in labels && labels[k].Text? :: labels[k].text
  }

  /** The texts as a reader gets them: quoting leaves its escapes in. */
  function CarriedText(labels: V1Labels): Labels {
    map k | k in labels && labels[k].Text? :: Carried(labels[k].text)
  }

  /** Labels that a row keeps apart from each other. */
  ghost predicate Legible(labels: V1Labels) {
    forall k :: k in labels ==> GoodName(k) && labels[k].Text? && LegibleText(labels[k].text)
  }

  predicate LegibleText(v: string) {
    IsAscii(v) && '"' !in v
  }

  /** Exactly the good texts arrive unchanged. */
  lemma GoodIsUnchanged(v: string)
    requires LegibleText(v)
    ensures GoodText(v) <==> Carried(v) == v
  {
    if GoodText(v) {
      if ',' in v { EscapeIsIdentity(v); }
    } else {
      EscapeAddsBackslashes(v);
    }
  }

  lemma GoodAreLegible(labels: V1Labels)
    requires GoodLabels1(labels)
    ensures Legible(labels) && AsciiLabels1(labels) && CarriedText(labels) == TextOf(labels)
  {
    hide Carried;
    forall k | k in labels ensures Carried(labels[k].text) == labels[k].text { GoodIsUnchanged(labels[k].text); }
  }

  // ---- one row --------------------------------------------------------------------------------

  lemma {:induction false} NameIsScanned(s: Scan, name: string)
    requires s.escaped == "" && ',' !in name && '"' !in name
    ensures ScanAll(s, [','] + name) == Scan(Finish(s), "", name)
  {
    hide ScanAll;
    assert "" + s.current == s.current && "" + name == name;
    ScanOne(s, ',');
    ScanText(Scan(Finish(s), "", ""), name);
    ScanConcat(s, [','], name);
  }

  lemma {:induction false} ValueIsScanned(fields: seq<string>, name: string, v: string)
    requires name != "" && LegibleText(v)
    ensures var t := ScanAll(Scan(fields, "", name), FormatLabelValue(v));
            t.escaped == "" && Finish(t) == fields + [name + Carried(v)]
  {
    hide ScanAll, Escape;
    if ',' in v {
      EscapeAddsBackslashes(v);
      QuotedValue(Scan(fields, "", name), Escape(v));
    } else {
      ScanText(Scan(fields, "", name), v);
      assert "" + (name + v) == name + v;
    }
  }

  /** A label printed after a settled row adds one field, quoted or not. */
  lemma {:induction false} LabelIsField(s: Scan, k: string, v: string)
    requires s.escaped == "" && GoodName(k) && LegibleText(v)
    ensures var t := ScanAll(s, LabelText(k, Text(v)));
            t.escaped == "" && Finish(t) == Finish(s) + [k + ['='] + Carried(v)]
  {
    hide ScanAll, FormatLabelValue, Finish, Carried;
    var name := k + ['='];
    NameIsScanned(s, name);
    ValueIsScanned(Finish(s), name, v);
    ScanConcat(s, [','] + name, FormatLabelValue(v));
    assert LabelText(k, Text(v)) == ([','] + name) + FormatLabelValue(v);
  }

  lemma {:induction false} QuotedValue(s: Scan, v: string)
    requires s.escaped == "" && s.current != "" && '"' !in v
    ensures ScanAll(s, ['"'] + v + ['"']) == Scan(s.fields + [s.current + v], "", "")
  {
    hide ScanAll;
    ScanOne(s, '"');
    ScanText(Scan(s.fields, s.current, ""), v);
    assert "" + v == v;
    ScanConcat(s, ['"'], v);
    ScanOne(Scan(s.fields, s.current, v), '"');
    ScanConcat(s, ['"'] + v, ['"']);
  }

  ghost function LabelFields(labels: V1Labels, order: seq<string>): (fields: seq<string>)
    requires forall i :: 0 <= i < |order| ==> order[i] in labels && labels[order[i]].Text?
    ensures |fields| == |order|
    ensures forall i :: 0 <= i < |order| ==> fields[i] == order[i] + ['='] + Carried(labels[order[i]].text)
  {
    seq(|order|, i requires 0 <= i < |order| => order[i] + ['='] + Carried(labels[order[i]].text))
  }

  lemma {:induction false} LabelsAreFields(s: Scan, labels: V1Labels, order: seq<string>)
    requires s.escaped == "" && Legible(labels) && AsciiLabels1(labels)
    requires forall i :: 0 <= i < |order| ==> order[i] in labels
    ensures var t := ScanAll(s, LabelsText(labels, order));
            t.escaped == "" && Finish(t) == Finish(s) + LabelFields(labels, order)
  {
    hide LabelText, Finish, ScanChar, Carried, GoodName, LegibleText;
    if order == [] {
      assert Finish(s) + [] == Finish(s);
    } else {
      var init, k := order[..|order| - 1], order[|order| - 1];
      LabelsAreFields(s, labels, init);
      var t := ScanAll(s, LabelsText(labels, init));
      LabelIsField(t, k, labels[k].text);
      ScanConcat(s, LabelsText(labels, init), LabelText(k, labels[k]));
      var field := k + ['='] + Carried(labels[k].text);
      assert LabelFields(labels, order) == LabelFields(labels, init) + [field];
      assert (Finish(s) + LabelFields(labels, init)) + [field] == Finish(s) + (LabelFields(labels, init) + [field]);
    }
  }

  lemma {:induction false} TwoTexts(a: string, b: string)
    requires ',' !in a && '"' !in a && ',' !in b && '"' !in b && a != "" && b != ""
    ensures var t := ScanAll(START, a + [','] + b);
            t.escaped == "" && Finish(t) == [a, b]
  {
    hide ScanAll;
    ScanText(START, a);
    assert "" + a == a && "" + b == b;
    NameIsScanned(Scan([], "", a), b);
    ScanConcat(START, a, [','] + b);
    assert a + [','] + b == a + ([','] + b);
    assert [] + [a] == [a] && [a] + [b] == [a, b];
  }

  lemma {:induction false} StartIsTwoFields(r: V1Record)
    requires GoodType1(r.contentType)
    ensures var t := ScanAll(START, RowStart(BatchWrite, r));
            t.escaped == "" && Finish(t) == [FormatInt(|r.data|), r.contentType]
  {
    FormatChars(|r.data|);
    hide FormatInt, ScanAll, Finish;
    TwoTexts(FormatInt(|r.data|), r.contentType);
  }

  lemma {:induction false} FieldLabels(labels: V1Labels, order: seq<string>, k: string)
    requires Legible(labels) && forall i :: 0 <= i < |order| ==> order[i] in labels
    ensures k in ItemLabels(LabelFields(labels, order)) <==> k in order
    ensures k in order ==> k in labels && ItemLabels(LabelFields(labels, order))[k] == Carried(labels[k].text)
  {
    hide Index, Carried, LegibleText;
    if order != [] {
      var init, last := order[..|order| - 1], order[|order| - 1];
      assert order == init + [last];
      FieldLabels(labels, init, k);
      var fields := LabelFields(labels, order);
      assert fields[..|fields| - 1] == LabelFields(labels, init);
      LastLabel(fields, last, Carried(labels[last].text));
    }
  }

  lemma {:induction false} LastLabel(items: seq<string>, k: string, v: string)
    requires '=' !in k && items != [] && items[|items| - 1] == k + ['='] + v
    ensures ItemLabels(items) == ItemLabels(items[..|items| - 1])[k := v]
  {
    hide Index;
    FieldSplits(k, v);
  }

  lemma FieldSplits(k: string, v: string)
    requires '=' !in k
    ensures var item := k + ['='] + v;
            '=' in item && Index(item, '=') == |k| && item[..|k|] == k && item[|k| + 1..] == v
  {
    hide Index;
    IndexAfter(k, '=', v);
    assert (k + ['='] + v)[|k|] == '=';
  }

  /** Whatever the order of the labels, the row is read as the record's size and type and the carried labels. */
  lemma {:induction false} RowArrives(row: string, r: V1Record)
    requires GoodType1(r.contentType) && |r.data| <= MAX_INT64 && Legible(r.labels)
    requires AsciiLabels1(r.labels) && Prints(row, BatchWrite, r)
    ensures AssignAll(Fields(row)) == CsvRow(|r.data|, r.contentType, CarriedText(r.labels))
    ensures row != ""
  {
    var order :| PrintsInOrder(row, BatchWrite, r, order);
    hide PrintsInOrder, Prints, ScanAll, Finish, ItemLabels, AssignAll, LabelsText, Index, Carried, Legible;
    RowFields(row, r, order);
    var items := LabelFields(r.labels, order);
    var fields := [FormatInt(|r.data|), r.contentType] + items;
    AssignedLabels(fields);
    assert fields[..2] == [FormatInt(|r.data|), r.contentType] && fields[2..] == items;
    TwoFields(fields[..2]);
    FormatParse(|r.data|);
    OrderedLabels(row, r, order);
  }

  /** On good records the row reads back as the record's size, type and labels. */
  lemma RowRoundTrip(row: string, r: V1Record)
    requires GoodRecord(r) && AsciiLabels1(r.labels) && Prints(row, BatchWrite, r)
    ensures AssignAll(Fields(row)) == CsvRow(|r.data|, r.contentType, TextOf(r.labels))
    ensures row != ""
  {
    hide Prints, Fields, AssignAll, GoodLabels1, Legible, TextOf, CarriedText;
    GoodAreLegible(r.labels);
    RowArrives(row, r);
  }

  lemma {:induction false} RowFields(row: string, r: V1Record, order: seq<string>)
    requires GoodType1(r.contentType) && Legible(r.labels) && AsciiLabels1(r.labels) && PrintsInOrder(row, BatchWrite, r, order)
    ensures forall i :: 0 <= i < |order| ==> order[i] in r.labels && r.labels[order[i]].Text?
    ensures Fields(row) == [FormatInt(|r.data|), r.contentType] + LabelFields(r.labels, order)
    ensures row != ""
  {
    hide ScanChar, LabelsText, FormatInt, Carried;
    var begin := RowStart(BatchWrite, r);
    StartIsTwoFields(r);
    LabelsAreFields(ScanAll(START, begin), r.labels, order);
    ScanConcat(START, begin, LabelsText(r.labels, order));
    assert ',' in begin by { assert begin[|FormatInt(|r.data|)|] == ','; }
  }

  lemma {:induction false} OrderedLabels(row: string, r: V1Record, order: seq<string>)
    requires Legible(r.labels) && AsciiLabels1(r.labels) && PrintsInOrder(row, BatchWrite, r, order)
    ensures forall i :: 0 <= i < |order| ==> order[i] in r.labels && r.labels[order[i]].Text?
    ensures ItemLabels(LabelFields(r.labels, order)) == CarriedText(r.labels)
  {
    hide ItemLabels, LabelsText, Carried, LegibleText, GoodName;
    forall k ensures k in ItemLabels(LabelFields(r.labels, order)) <==> k in r.labels { FieldLabels(r.labels, order, k); }
    forall k | k in r.labels ensures ItemLabels(LabelFields(r.labels, order))[k] == Carried(r.labels[k].text) {
      FieldLabels(r.labels, order, k);
    }
  }

  // ---- what no row can carry ------------------------------------------------------------------

  lemma {:induction false} ScanDropsQuotes(row: string)
    ensures var s := ScanAll(START, row);
            '"' !in s.escaped && '"' !in s.current && forall i :: 0 <= i < |s.fields| ==> '"' !in s.fields[i]
  {
    if row != "" {
      ScanDropsQuotes(row[..|row| - 1]);
    }
  }

  lemma {:induction false} FieldsHaveNoQuotes(row: string)
    ensures forall i :: 0 <= i < |Fields(row)| ==> '"' !in Fields(row)[i]
  {
    ScanDropsQuotes(row);
    hide ScanAll;
  }

  lemma {:induction false} AssignedHaveNoQuotes(fields: seq<string>)
    requires forall i :: 0 <= i < |fields| ==> '"' !in fields[i]
    ensures '"' !in AssignAll(fields).contentType
    ensures forall k :: k in AssignAll(fields).labels ==> '"' !in k && '"' !in AssignAll(fields).labels[k]
  {
    hide Index;
    if fields != [] {
      AssignedHaveNoQuotes(fields[..|fields| - 1]);
    }
  }

  /** No row is read as anything with a quote in it. */
  lemma QuotesAreLost(row: string)
    ensures var read := AssignAll(Fields(row));
            '"' !in read.contentType && forall k :: k in read.labels ==> '"' !in k && '"' !in read.labels[k]
  {
    hide AssignAll, Fields;
    FieldsHaveNoQuotes(row);
    AssignedHaveNoQuotes(Fields(row));
  }

  /** No label name is read with an equals sign in it. */
  lemma {:induction false} NamesEndAtEquals(fields: seq<string>)
    ensures forall k :: k in AssignAll(fields).labels ==> '=' !in k
  {
    hide Index;
    if fields != [] {
      NamesEndAtEquals(fields[..|fields| - 1]);
    }
  }

  lemma {:induction false} ScanStarts(row: string)
    ensures var s := ScanAll(START, row);
            && (s.escaped == "" ==> ',' !in s.current) && (s.escaped != "" ==> s.escaped[0] != ',')
            && forall i :: 0 <= i < |s.fields| ==> s.fields[i] != "" && s.fields[i][0] != ','
  {
    if row != "" {
      ScanStarts(row[..|row| - 1]);
    }
  }

  /** No field starts with a comma. */
  lemma {:induction false} FieldsStart(row: string)
    ensures forall i :: 0 <= i < |Fields(row)| ==> Fields(row)[i] != "" && Fields(row)[i][0] != ','
  {
    ScanStarts(row);
    hide ScanAll;
  }

  lemma {:induction false} ScanGrows(s: Scan, row: string)
    ensures s.fields <= ScanAll(s, row).fields
  {
    if row != "" {
      ScanGrows(s, row[..|row| - 1]);
    }
  }

  lemma {:induction false} TypeIsSecondField(fields: seq<string>)
    ensures AssignAll(fields).contentType == if |fields| >= 2 then fields[1] else ""
  {
    hide ParseInt, Index;
    if |fields| >= 2 {
      AssignedLabels(fields);
      TwoFields(fields[..2]);
    } else if |fields| == 1 {
      assert fields[..0] == [];
    }
  }

  /** Two comma-free texts in front of a comma are the first two fields. */
  lemma {:induction false} FirstTwoFields(a: string, b: string, rest: string)
    requires ',' !in a && '"' !in a && ',' !in b && '"' !in b && a != "" && b != ""
    ensures var fields := Fields(a + [','] + b + [','] + rest);
            |fields| >= 2 && fields[1] == b
  {
    var start := a + [','] + b;
    TwoTexts(a, b);
    var t := ScanAll(START, start);
    hide ScanAll;
    ScanOne(t, ',');
    ScanConcat(START, start, [',']);
    var u := ScanAll(START, start + [',']);
    if t.current != "" { assert t.escaped + t.current == t.current; }
    assert u.fields == [a, b];
    ScanConcat(START, start + [','], rest);
    ScanGrows(u, rest);
    assert a + [','] + b + [','] + rest == start + [','] + rest;
  }

  /** A content type with a comma is cut, wherever the comma stands. */
  lemma {:induction false} TypeIsCut(row: string, r: V1Record, rest: string)
    requires ',' in r.contentType && '"' !in r.contentType
    requires row == RowStart(BatchWrite, r) + rest
    ensures AssignAll(Fields(row)).contentType != r.contentType
  {
    var d, kind := FormatInt(|r.data|), r.contentType;
    FormatChars(|r.data|);
    hide FormatInt, AssignAll, Fields, Index;
    TypeIsSecondField(Fields(row));
    if kind[0] == ',' {
      FieldsStart(row);
    } else {
      var p := Index(kind, ',');
      var more := kind[p + 1..] + rest;
      assert kind == kind[..p] + [','] + kind[p + 1..];
      assert row == d + [','] + kind[..p] + [','] + more;
      FirstTwoFields(d, kind[..p], more);
    }
  }

  // ---- names in rows without quotes -----------------------------------------------------------

  /** The part of a field that becomes a label name has no comma. */
  predicate NameIsClean(field: string) {
    '=' in field ==> ',' !in field[..Index(field, '=')]
  }

  /** Outside quotes, with names that stay clean. */
  ghost predicate Tidy(s: Scan) {
    s.escaped == "" && ',' !in s.current && forall i :: 0 <= i < |s.fields| ==> NameIsClean(s.fields[i])
  }

  lemma CommaFreeIsClean(field: string)
    ensures ',' !in field ==> NameIsClean(field)
  {}

  lemma {:induction false} TidyText(s: Scan, text: string)
    requires Tidy(s) && '"' !in text
    ensures Tidy(ScanAll(s, text))
  {
    hide NameIsClean;
    if text != "" {
      var init, c := text[..|text| - 1], text[|text| - 1];
      assert text == init + [c];
      TidyText(s, init);
      CommaFreeIsClean(ScanAll(s, init).current);
    }
  }

  /** After a name and its equals sign the text since the last comma has the equals sign in it. */
  lemma {:induction false} TidyName(s: Scan, name: string)
    requires Tidy(s) && '"' !in name
    ensures Tidy(ScanAll(s, name + ['='])) && '=' in ScanAll(s, name + ['=']).current
  {
    hide ScanAll, NameIsClean;
    TidyText(s, name + ['=']);
    TidyText(s, name);
    ScanConcat(s, name, ['=']);
    ScanOne(ScanAll(s, name), '=');
  }

  lemma CleanStart(start: string, rest: string)
    requires '=' in start && ',' !in start
    ensures NameIsClean(start + rest)
  {
    hide Index;
    var p := Index(start, '=');
    var field := start + rest;
    assert start == start[..p] + ['='] + start[p + 1..];
    assert field == start[..p] + ['='] + (start[p + 1..] + rest);
    IndexAfter(start[..p], '=', start[p + 1..] + rest);
    assert field[..p] == start[..p];
  }

  lemma {:induction false} TidyLabel(s: Scan, k: string, v: string)
    requires Tidy(s) && '"' !in k && LegibleText(v)
    ensures Tidy(ScanAll(s, LabelText(k, Text(v))))
  {
    hide ScanAll, NameIsClean, Escape;
    var name := [','] + k;
    TidyName(s, name);
    var t := ScanAll(s, name + ['=']);
    ScanConcat(s, name + ['='], FormatLabelValue(v));
    assert LabelText(k, Text(v)) == (name + ['=']) + FormatLabelValue(v);
    if ',' in v {
      EscapeAddsBackslashes(v);
      QuotedValue(t, Escape(v));
      CleanStart(t.current, Escape(v));
    } else {
      TidyText(t, v);
    }
  }

  ghost predicate QuoteFreeLabels(labels: V1Labels) {
    forall k :: k in labels ==> '"' !in k && labels[k].Text? && LegibleText(labels[k].text)
  }

  lemma {:induction false} TidyLabels(s: Scan, labels: V1Labels, order: seq<string>)
    requires Tidy(s) && QuoteFreeLabels(labels) && AsciiLabels1(labels)
    requires forall i :: 0 <= i < |order| ==> order[i] in labels
    ensures Tidy(ScanAll(s, LabelsText(labels, order)))
  {
    hide LabelText, Tidy, ScanChar, LegibleText;
    if order != [] {
      var init, k := order[..|order| - 1], order[|order| - 1];
      TidyLabels(s, labels, init);
      TidyLabel(ScanAll(s, LabelsText(labels, init)), k, labels[k].text);
      ScanConcat(s, LabelsText(labels, init), LabelText(k, labels[k]));
    }
  }

  lemma {:induction false} CleanFieldsGiveCleanNames(fields: seq<string>)
    requires forall i :: 0 <= i < |fields| ==> NameIsClean(fields[i])
    ensures forall k :: k in AssignAll(fields).labels ==> ',' !in k
  {
    hide Index;
    if fields != [] {
      CleanFieldsGiveCleanNames(fields[..|fields| - 1]);
      assert NameIsClean(fields[|fields| - 1]);
    }
  }

  /** Without quotes in the record, no label name is read with a comma in it. */
  lemma {:induction false} NamesEndAtCommas(row: string, r: V1Record)
    requires '"' !in r.contentType && QuoteFreeLabels(r.labels) && AsciiLabels1(r.labels) && Prints(row, BatchWrite, r)
    ensures forall k :: k in AssignAll(Fields(row)).labels ==> ',' !in k
  {
    var order :| PrintsInOrder(row, BatchWrite, r, order);
    var begin := RowStart(BatchWrite, r);
    StartHasNoQuotes(r);
    assert Tidy(START);
    hide *;
    TidyText(START, begin);
    TidyLabels(ScanAll(START, begin), r.labels, order);
    ScanConcat(START, begin, LabelsText(r.labels, order));
    TidyFields(row);
    CleanFieldsGiveCleanNames(Fields(row));
  }

  lemma StartHasNoQuotes(r: V1Record)
    requires '"' !in r.contentType
    ensures '"' !in RowStart(BatchWrite, r)
  {
    FormatChars(|r.data|);
    hide FormatInt;
  }

  lemma {:induction false} TidyFields(row: string)
    requires Tidy(ScanAll(START, row))
    ensures forall i :: 0 <= i < |Fields(row)| ==> NameIsClean(Fields(row)[i])
  {
    hide ScanAll, NameIsClean;
    var t := ScanAll(START, row);
    CommaFreeIsClean(t.current);
    assert t.escaped + t.current == t.current;
  }

  // ---- exactly the good records ---------------------------------------------------------------

  /** A record as Add stores it, with text for labels. */
  ghost predicate TextRecord(r: V1Record) {
    && r.contentType != "" && |r.data| <= MAX_INT64
    && forall k :: k in r.labels ==> r.labels[k].Text? && IsAscii(r.labels[k].text)
  }

  /** The row is read as the record. */
  ghost predicate ReadsAs(row: string, r: V1Record) {
    AssignAll(Fields(row)) == CsvRow(|r.data|, r.contentType, TextOf(r.labels))
  }

  lemma {:induction false} TypeMustBeGood(row: string, r: V1Record)
    requires TextRecord(r) && AsciiLabels1(r.labels) && Prints(row, BatchWrite, r) && ReadsAs(row, r)
    ensures GoodType1(r.contentType)
  {
    QuotesAreLost(row);
    if ',' in r.contentType {
      var order :| PrintsInOrder(row, BatchWrite, r, order);
      hide AssignAll, Fields, LabelsText, RowStart;
      TypeIsCut(row, r, LabelsText(r.labels, order));
    }
  }

  lemma {:induction false} NamesMustBeGood(row: string, r: V1Record)
    requires TextRecord(r) && AsciiLabels1(r.labels) && Prints(row, BatchWrite, r) && ReadsAs(row, r)
    ensures Legible(r.labels)
  {
    QuotesAreLost(row);
    NamesEndAtEquals(Fields(row));
    hide AssignAll, Fields, Prints;
    forall k | k in r.labels ensures '"' !in k && '=' !in k && '"' !in r.labels[k].text {
      assert k in TextOf(r.labels);
    }
    assert QuoteFreeLabels(r.labels);
    NamesEndAtCommas(row, r);
    forall k | k in r.labels ensures ',' !in k { assert k in TextOf(r.labels); }
  }

  lemma TextsMustBeGood(labels: V1Labels)
    requires Legible(labels) && CarriedText(labels) == TextOf(labels)
    ensures GoodLabels1(labels)
  {
    hide Carried;
    forall k | k in labels ensures GoodText(labels[k].text) {
      GoodIsUnchanged(labels[k].text);
      assert CarriedText(labels)[k] == TextOf(labels)[k];
    }
  }

  /**
   * A record reads back from its row if and only if its content type has no
   * comma and no quote, its label names have no comma, quote or equals sign,
   * and its values have no quote and, with a comma, nothing that `%q` escapes.
   */
  lemma {:induction false} RowRoundTripIff(row: string, r: V1Record)
    requires TextRecord(r) && AsciiLabels1(r.labels) && Prints(row, BatchWrite, r)
    ensures ReadsAs(row, r) <==> GoodRecord(r)
  {
    if GoodRecord(r) {
      RowRoundTrip(row, r);
    }
    if ReadsAs(row, r) {
      TypeMustBeGood(row, r);
      NamesMustBeGood(row, r);
      RowArrives(row, r);
      TextsMustBeGood(r.labels);
    }
  }

  /** A label called `a=b` is read as a label `a`, in whatever order the labels are printed. */
  lemma {:induction false} LostLabelExample()
    ensures var r := V1Record([], OCTET_STREAM, map["a=b" := Text("c")]);
            && TextRecord(r) && AsciiLabels1(r.labels) && (exists row :: Prints(row, BatchWrite, r))
            && forall row :: Prints(row, BatchWrite, r) ==> !ReadsAs(row, r)
  {
    var r := V1Record([], OCTET_STREAM, map["a=b" := Text("c")]);
    assert "a=b"[1] == '=' && "a=b" in r.labels;
    hide ReadsAs, LabelsText, RowStart;
    assert !GoodRecord(r) && TextRecord(r) && AsciiLabels1(r.labels);
    EnumerationExists(r.labels);
    var order :| Enumerates(order, r.labels);
    EnumeratedIn(order, r.labels);
    var printed := RowStart(BatchWrite, r) + LabelsText(r.labels, order);
    assert PrintsInOrder(printed, BatchWrite, r, order) && Prints(printed, BatchWrite, r);
    forall row | Prints(row, BatchWrite, r) ensures !ReadsAs(row, r) { RowRoundTripIff(row, r); }
  }
}
