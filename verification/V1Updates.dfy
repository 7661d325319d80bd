/**
 * The rows of Batch Protocol v1 that update or remove records (batch.go:
 * Write): what they look like, and which labels can be recovered from them.
 */
module V1Updates {
  import opened Text
  import opened Ordering
  import opened Decimal
  import opened LabelOps
  import opened CsvRows
  import opened V1Batches
  import opened V1Rows

  // ---- pieces between commas ----------------------------------------------------------------------

  /** The text of a label value; what is not text is printed as nothing. */
  function ValueText(l: Label): string {
    if l.Text? then l.text else ""
  }

  ghost predicate CommaFree(labels: V1Labels) {
    forall k :: k in labels ==> ',' !in k && ',' !in ValueText(labels[k])
  }

  ghost function LabelPieces(labels: V1Labels, order: seq<string>): (pieces: seq<string>)
    requires forall i :: 0 <= i < |order| ==> order[i] in labels
    ensures |pieces| == |order|
    ensures forall i :: 0 <= i < |order| ==> pieces[i] == order[i] + "=" + ValueText(labels[order[i]])
  {
    seq(|order|, i requires 0 <= i < |order| => order[i] + "=" + ValueText(labels[order[i]]))
  }

  lemma LabelIsPiece(k: string, l: Label)
    requires ',' !in k && ',' !in ValueText(l) && (l.Text? ==> IsAscii(l.text))
    ensures LabelText(k, l) == [','] + (k + "=" + ValueText(l)) && ',' !in k + "=" + ValueText(l)
  {
    assert [','] + k + ['='] + ValueText(l) == [','] + (k + "=" + ValueText(l));
  }

  lemma {:induction false} SplitSnoc(s: string, sep: char, piece: string)
    requires sep !in piece
    ensures Split(s + [sep] + piece, sep) == Split(s, sep) + [piece]
    decreases |s|
  {
    hide Split, Index;
    SplitAlone(piece, sep);
    if sep !in s {
      SplitAfter(s, sep, piece);
      SplitAlone(s, sep);
    } else {
      var i :| 0 <= i < |s| && s[i] == sep && sep !in s[..i] by { FirstSep(s, sep); }
      var a, b := s[..i], s[i + 1..];
      SplitSnoc(b, sep, piece);
      SplitBoth(s, sep, piece, a, b);
    }
  }

  lemma FirstSep(s: string, sep: char)
    requires sep in s
    ensures exists i :: 0 <= i < |s| && s[i] == sep && sep !in s[..i]
  {
    hide Index;
    var i := Index(s, sep);
    assert s[i] == sep && sep !in s[..i];
  }

  lemma {:induction false} SplitBoth(s: string, sep: char, piece: string, a: string, b: string)
    requires s == a + [sep] + b && sep !in a
    requires Split(b + [sep] + piece, sep) == Split(b, sep) + [piece]
    ensures Split(s + [sep] + piece, sep) == Split(s, sep) + [piece]
  {
    hide Split;
    SplitAfter(a, sep, b);
    var more := b + [sep] + piece;
    SplitAfter(a, sep, more);
    assert s + [sep] + piece == a + [sep] + more;
    assert [a] + (Split(b, sep) + [piece]) == ([a] + Split(b, sep)) + [piece];
  }

  lemma {:induction false} SplitAlone(s: string, sep: char)
    requires sep !in s
    ensures Split(s, sep) == [s]
  {}

  lemma {:induction false} LabelsArePieces(start: string, labels: V1Labels, order: seq<string>)
    requires CommaFree(labels) && AsciiLabels1(labels)
    requires forall i :: 0 <= i < |order| ==> order[i] in labels
    ensures Split(start + LabelsText(labels, order), ',') == Split(start, ',') + LabelPieces(labels, order)
  {
    hide Split, LabelText, ValueText;
    if order == [] {
      assert start + "" == start;
    } else {
      var init, k := order[..|order| - 1], order[|order| - 1];
      LabelsArePieces(start, labels, init);
      LabelIsPiece(k, labels[k]);
      var piece := k + "=" + ValueText(labels[k]);
      SplitSnoc(start + LabelsText(labels, init), ',', piece);
      assert start + (LabelsText(labels, init) + ([','] + piece)) == start + LabelsText(labels, init) + [','] + piece;
      assert LabelPieces(labels, order) == LabelPieces(labels, init) + [piece];
    }
  }

  lemma {:induction false} LabelsStartWithComma(labels: V1Labels, order: seq<string>)
    requires AsciiLabels1(labels) && forall i :: 0 <= i < |order| ==> order[i] in labels
    ensures LabelsText(labels, order) != "" ==> LabelsText(labels, order)[0] == ','
    ensures LabelsText(labels, order) == "" <==> order == []
  {
    hide FormatLabelValue;
    if order != [] {
      LabelsStartWithComma(labels, order[..|order| - 1]);
    }
  }

  /**
   * A row that updates or removes starts with a size of zero and an empty
   * content type, whatever the record holds, and is just that without labels.
   */
  lemma {:induction false} RowTellsNoContent(row: string, t: BatchType, r: V1Record)
    requires AsciiLabels1(r.labels) && Prints(row, t, r) && !t.BatchWrite?
    ensures |Split(row, ',')| >= 2 && Split(row, ',')[0] == "0" && Split(row, ',')[1] == ""
    ensures ParseInt(Split(row, ',')[0]) == Some(0)
    ensures r.labels == map[] ==> row == "0,"
  {
    var order :| PrintsInOrder(row, t, r, order);
    LabelsStartWithComma(r.labels, order);
    ZeroParses();
    hide ParseInt, Index, LabelsText, AsciiLabels1, Split;
    StartOfRow(row, LabelsText(r.labels, order));
    if order != [] { assert order[0] in r.labels; }
  }

  lemma {:induction false} StartOfRow(row: string, rest: string)
    requires row == "0," + rest && (rest != "" ==> rest[0] == ',')
    ensures |Split(row, ',')| >= 2 && Split(row, ',')[0] == "0" && Split(row, ',')[1] == ""
  {
    hide Split;
    assert row == "0" + [','] + rest;
    SplitAfter("0", ',', rest);
    if rest == "" {
      SplitAlone(rest, ',');
    } else {
      SplitAfter("", ',', rest[1..]);
      assert rest == "" + [','] + rest[1..];
    }
  }

  lemma ZeroParses()
    ensures ParseInt("0") == Some(0)
  {
    FormatParse(0);
    FormatZero();
  }

  lemma FormatZero()
    ensures FormatInt(0) == "0"
  {}

  /** What a row starts with: size and type for a write, a zero and no type otherwise. */
  ghost function StartPieces(t: BatchType, r: V1Record): seq<string> {
    if t.BatchWrite? then [FormatInt(|r.data|), r.contentType] else ["0", ""]
  }

  lemma {:induction false} StartSplits(t: BatchType, r: V1Record)
    requires t.BatchWrite? ==> ',' !in r.contentType
    ensures Split(RowStart(t, r), ',') == StartPieces(t, r)
  {
    FormatChars(|r.data|);
    hide Split, FormatInt;
    var first, second := if t.BatchWrite? then FormatInt(|r.data|) else "0", if t.BatchWrite? then r.contentType else "";
    SplitAfter(first, ',', second);
    SplitAlone(second, ',');
    assert first + [','] + second == RowStart(t, r);
    assert [first] + [second] == [first, second];
  }

  /** Without commas in type, names and values the row is its start and one `name=value` for each label. */
  lemma {:induction false} RowPieces(row: string, t: BatchType, r: V1Record)
    requires AsciiLabels1(r.labels) && CommaFree(r.labels) && Prints(row, t, r) && (t.BatchWrite? ==> ',' !in r.contentType)
    ensures exists order :: Enumerates(order, r.labels) && (forall i :: 0 <= i < |order| ==> order[i] in r.labels)
                            && Split(row, ',') == StartPieces(t, r) + LabelPieces(r.labels, order)
  {
    var order :| PrintsInOrder(row, t, r, order);
    StartSplits(t, r);
    hide LabelsText, Split, Index, CommaFree, AsciiLabels1, RowStart, StartPieces;
    LabelsArePieces(RowStart(t, r), r.labels, order);
  }

  // ---- the labels of an update --------------------------------------------------------------------

  /** A row that writes a record with these labels, a type and no data; labels are printed alike in all rows. */
  function Written(labels: V1Labels): V1Record {
    V1Record([], "t", labels)
  }

  lemma {:induction false} SameFields(text: string)
    requires text != "" ==> text[0] == ','
    ensures |Fields("0,t" + text)| >= 2 && |Fields("0," + text)| >= 1
    ensures Fields("0,t" + text)[..2] == ["0", "t"] && Fields("0," + text)[0] == "0"
    ensures Fields("0,t" + text)[2..] == Fields("0," + text)[1..]
  {
    hide Fields;
    assert "0,t" + text == "0" + [','] + ("t" + text) && "0," + text == "0" + [','] + text;
    FirstField("0,t" + text, "0", "t" + text);
    FirstField("0," + text, "0", text);
    if text == "" {
      assert "t" + text == "t";
      OneField("t");
      NoFields();
    } else {
      var rest := text[1..];
      assert "t" + text == "t" + [','] + rest && text == "" + [','] + rest;
      FirstField("t" + text, "t", rest);
      FirstField(text, "", rest);
    }
  }

  lemma NoFields()
    ensures Fields("") == []
  {}

  lemma {:induction false} WrittenReads(row: string, labels: V1Labels)
    requires |Fields(row)| >= 2 && Fields(row)[..2] == ["0", "t"]
    ensures AssignAll(Fields(row)) == CsvRow(0, "t", ItemLabels(Fields(row)[2..]))
  {
    hide Fields, ItemLabels, AssignAll;
    var fields := Fields(row);
    AssignedLabels(fields);
    assert fields[0] == fields[..2][0] && fields[1] == fields[..2][1];
    TwoFields(fields[..2]);
    ZeroParses();
  }

  /** The same labels in the row of a written record. */
  lemma {:induction false} AsWritten(row: string, t: BatchType, r: V1Record) returns (written: string)
    requires AsciiLabels1(r.labels) && Prints(row, t, r) && !t.BatchWrite?
    ensures Prints(written, BatchWrite, Written(r.labels))
    ensures |Fields(row)| >= 1 && Fields(row)[0] == "0"
    ensures AssignAll(Fields(written)) == CsvRow(0, "t", ItemLabels(Fields(row)[1..]))
  {
    var order :| PrintsInOrder(row, t, r, order);
    LabelsStartWithComma(r.labels, order);
    FormatZero();
    hide Fields, ItemLabels, AssignAll, LabelsText, FormatInt;
    var text := LabelsText(r.labels, order);
    written := "0,t" + text;
    assert FormatInt(0) + [','] + "t" == "0,t";
    assert PrintsInOrder(written, BatchWrite, Written(r.labels), order);
    SameFields(text);
    WrittenReads(written, r.labels);
  }

  /**
   * A reader that splits an update row like any other gets its labels back,
   * each with the escapes of `%q`, if no name or value has a quote and no name
   * a comma or an equals sign.
   */
  lemma {:induction false} UpdateArrives(row: string, t: BatchType, r: V1Record)
    requires Legible(r.labels) && AsciiLabels1(r.labels) && Prints(row, t, r) && !t.BatchWrite?
    ensures Fields(row) != [] && Fields(row)[0] == "0"
    ensures ItemLabels(Fields(row)[1..]) == CarriedText(r.labels)
  {
    hide Prints, Fields, ItemLabels, AssignAll, Legible, CarriedText, AsciiLabels1;
    var written := AsWritten(row, t, r);
    RowArrives(written, Written(r.labels));
  }

  /** The labels come back as they were given exactly if names and values are good. */
  lemma {:induction false} UpdateRoundTripIff(row: string, t: BatchType, r: V1Record)
    requires AsciiLabels1(r.labels) && Prints(row, t, r) && !t.BatchWrite?
    requires forall k :: k in r.labels ==> r.labels[k].Text?
    ensures Fields(row) != [] && Fields(row)[0] == "0"
    ensures ItemLabels(Fields(row)[1..]) == TextOf(r.labels) <==> GoodLabels1(r.labels)
  {
    hide Prints, Fields, ItemLabels, AssignAll, TextOf, GoodLabels1;
    var written := AsWritten(row, t, r);
    RowRoundTripIff(written, Written(r.labels));
  }
}
