/**
 * The record header rows of Batch Protocol v1 (batch/v1.go: ParseCSVRow,
 * parseCSVRowPlain, parseCSVRowQuoted, setCSVField) and the slow reference
 * parser that defines what they mean (batch/csv_row_test.go).
 */
module CsvRows {
  import opened Text
  import opened Decimal
  import opened LabelOps

  /** CSVRowResult. */
  datatype CsvRow = CsvRow(size: int, contentType: string, labels: Labels)

  const EMPTY_ROW := CsvRow(0, "", map[])

  // ---- fields ---------------------------------------------------------------------------------

  /** Where the quoted state machine stands: the fields so far, the text before an open quote, the text since. */
  datatype Scan = Scan(fields: seq<string>, escaped: string, current: string)

  const START := Scan([], "", "")

  function ScanChar(s: Scan, c: char): Scan {
    if c == ',' && s.escaped == "" then
      if s.current != "" then Scan(s.fields + [s.current], "", "") else s
    else if c == '"' then
      if s.escaped == "" then Scan(s.fields, s.current, "")
      else Scan(s.fields + [s.escaped + s.current], "", "")
    else s.(current := s.current + [c])
  }

  function ScanAll(s: Scan, row: string): Scan {
    if row == "" then s else ScanChar(ScanAll(s, row[..|row| - 1]), row[|row| - 1])
  }

  function Finish(s: Scan): seq<string> {
    if s.current != "" then s.fields + [s.escaped + s.current] else s.fields
  }

  /** The fields of a row: separated by commas outside quotes, empty ones skipped. */
  function Fields(row: string): seq<string> {
    Finish(ScanAll(START, row))
  }

  /** The fields of a row without quotes: every non-empty piece between commas. */
  function PlainFields(row: string): (fields: seq<string>)
    decreases |row|
  {
    if row == "" then []
    else
      var comma := Index(row, ',');
      if comma == -1 then [row]
      else (if comma == 0 then [] else [row[..comma]]) + PlainFields(row[comma + 1..])
  }

  lemma {:induction false} ScanConcat(s: Scan, a: string, b: string)
    ensures ScanAll(s, a + b) == ScanAll(ScanAll(s, a), b)
  {
    if b == "" {
      assert a + b == a;
    } else {
      assert (a + b)[..|a + b| - 1] == a + b[..|b| - 1];
      ScanConcat(s, a, b[..|b| - 1]);
    }
  }

  lemma {:induction false} ScanOne(s: Scan, c: char)
    ensures ScanAll(s, [c]) == ScanChar(s, c)
  {
    assert [c][..0] == "";
  }

  /** Text without commas and quotes is collected as it is. */
  lemma {:induction false} ScanText(s: Scan, text: string)
    requires '"' !in text && (s.escaped == "" ==> ',' !in text)
    ensures ScanAll(s, text) == s.(current := s.current + text)
  {
    if text == "" {
      assert s.current + "" == s.current;
    } else {
      var init, c := text[..|text| - 1], text[|text| - 1];
      assert text == init + [c];
      ScanText(s, init);
      assert s.current + init + [c] == s.current + text;
    }
  }

  lemma {:induction false} ScanKeepsFields(s: Scan, more: seq<string>, row: string)
    ensures ScanAll(s.(fields := more + s.fields), row) == var t := ScanAll(s, row); t.(fields := more + t.fields)
  {
    if row != "" {
      ScanKeepsFields(s, more, row[..|row| - 1]);
    }
  }

  lemma {:induction false} PlainStep(row: string)
    requires row != ""
    ensures var comma := Index(row, ',');
            && (comma == -1 ==> ',' !in row && PlainFields(row) == [row])
            && (comma >= 0 ==> comma < |row| && ',' !in row[..comma] && row == row[..comma] + [','] + row[comma + 1..]
                               && PlainFields(row) == (if comma == 0 then [] else [row[..comma]]) + PlainFields(row[comma + 1..]))
  {
    hide Index;
    var comma := Index(row, ',');
    if comma >= 0 { assert row == row[..comma] + [row[comma]] + row[comma + 1..]; }
  }

  lemma NoPieces()
    ensures PlainFields("") == []
  {}

  lemma OneField(row: string)
    requires row != "" && ',' !in row && '"' !in row
    ensures Fields(row) == [row]
  {
    ScanText(START, row);
    assert "" + row == row;
  }

  /** The fast and the slow way of splitting agree on every row without quotes. */
  lemma {:induction false} PlainIsQuoted(row: string)
    requires '"' !in row
    ensures PlainFields(row) == Fields(row)
    decreases |row|
  {
    if row != "" {
      PlainStep(row);
      hide Index, PlainFields, Fields;
      var comma := Index(row, ',');
      if comma == -1 {
        OneField(row);
      } else {
        PlainIsQuoted(row[comma + 1..]);
        FirstField(row, row[..comma], row[comma + 1..]);
      }
    }
  }

  lemma {:induction false} FirstField(row: string, field: string, rest: string)
    requires row == field + [','] + rest && ',' !in field && '"' !in field
    ensures Fields(row) == (if field == "" then [] else [field]) + Fields(rest)
  {
    var pushed := if field == "" then [] else [field];
    ScanText(START, field);
    assert "" + field == field;
    ScanOne(ScanAll(START, field), ',');
    ScanConcat(START, field, [',']);
    ScanConcat(START, field + [','], rest);
    assert ScanAll(START, field + [',']) == START.(fields := pushed + START.fields);
    ScanKeepsFields(START, pushed, rest);
  }

  // ---- assigning fields -----------------------------------------------------------------------

  /** setCSVField. */
  function SetField(r: CsvRow, index: nat, field: string): CsvRow {
    if index == 0 then
      var size := ParseInt(field);
      if size.Some? then r.(size := size.value) else r
    else if index == 1 then r.(contentType := field)
    else
      var eq := Index(field, '=');
      if eq >= 0 then r.(labels := r.labels[field[..eq] := field[eq + 1..]]) else r
  }

  /** The row after its fields have been assigned one by one. */
  function AssignAll(fields: seq<string>): CsvRow {
    if fields == [] then EMPTY_ROW
    else SetField(AssignAll(fields[..|fields| - 1]), |fields| - 1, fields[|fields| - 1])
  }

  lemma {:induction false} AssignSnoc(fields: seq<string>, field: string)
    ensures AssignAll(fields + [field]) == SetField(AssignAll(fields), |fields|, field)
  {
    assert (fields + [field])[..|fields|] == fields;
  }

  /** Cuts the first piece off a row. */
  method NextPiece(row: string) returns (field: string, rest: string)
    requires row != ""
    ensures |rest| < |row|
    ensures PlainFields(row) == (if field == "" then [] else [field]) + PlainFields(rest)
  {
    PlainStep(row);
    NoPieces();
    hide Index, PlainFields;
    var comma := Index(row, ',');
    if comma >= 0 {
      field, rest := row[..comma], row[comma + 1..];
    } else {
      field, rest := row, "";
    }
  }

  /** The fields assigned so far and the ones still to come are those of the whole row. */
  ghost predicate Halfway(done: seq<string>, rest: string, row: string) {
    done + PlainFields(rest) == PlainFields(row)
  }

  lemma {:induction false} HalfwayStep(done: seq<string>, before: string, rest: string, row: string, field: string)
    requires Halfway(done, before, row)
    requires PlainFields(before) == (if field == "" then [] else [field]) + PlainFields(rest)
    ensures Halfway(if field == "" then done else done + [field], rest, row)
  {
    hide PlainFields;
    assert done + ([field] + PlainFields(rest)) == done + [field] + PlainFields(rest);
    assert [] + PlainFields(rest) == PlainFields(rest);
  }

  lemma {:induction false} HalfwayEnds(done: seq<string>, row: string)
    ensures done == [] ==> Halfway(done, row, row)
    ensures Halfway(done, "", row) ==> done == PlainFields(row)
  {
    hide PlainFields;
    NoPieces();
    assert [] + PlainFields(row) == PlainFields(row) && done + [] == done;
  }

  /** parseCSVRowPlain. */
  method ParsePlain(row: string) returns (result: CsvRow)
    ensures result == AssignAll(PlainFields(row))
  {
    result := EMPTY_ROW;
    assert AssignAll([]) == EMPTY_ROW;
    hide SetField, PlainFields, Halfway, AssignAll;
    var rest, index := row, 0;
    ghost var done: seq<string> := [];
    HalfwayEnds(done, row);
    while rest != ""
      invariant Halfway(done, rest, row)
      invariant index == |done| && result == AssignAll(done)
      decreases |rest|
    {
      ghost var before := rest;
      var field;
      field, rest := NextPiece(rest);
      HalfwayStep(done, before, rest, row, field);
      if field != "" {
        AssignSnoc(done, field);
        result := SetField(result, index, field);
        done := done + [field];
        index := index + 1;
      }
    }
    HalfwayEnds(done, row);
  }

  /** parseCSVRowQuoted: the state machine that assigns each field as it is completed. */
  method ParseQuoted(row: string) returns (result: CsvRow)
    ensures result == AssignAll(Fields(row))
  {
    hide SetField;
    result := EMPTY_ROW;
    var current, escaped, index := "", "", 0;
    ghost var done: seq<string> := [];
    for i := 0 to |row|
      invariant ScanAll(START, row[..i]) == Scan(done, escaped, current)
      invariant index == |done| && result == AssignAll(done)
    {
      var c := row[i];
      assert row[..i + 1][..i] == row[..i];
      if c == ',' && escaped == "" {
        if current != "" {
          AssignSnoc(done, current);
          result := SetField(result, index, current);
          done := done + [current];
          index := index + 1;
          current := "";
        }
      } else if c == '"' {
        if escaped == "" {
          escaped := current;
          current := "";
        } else {
          AssignSnoc(done, escaped + current);
          result := SetField(result, index, escaped + current);
          done := done + [escaped + current];
          index := index + 1;
          escaped := "";
          current := "";
        }
      } else {
        current := current + [c];
      }
    }
    assert row[..|row|] == row;
    if current != "" {
      AssignSnoc(done, escaped + current);
      if escaped != "" {
        result := SetField(result, index, escaped + current);
      } else {
        assert escaped + current == current;
        result := SetField(result, index, current);
      }
    }
  }

  /** ParseCSVRow: without quotes every field is a piece of the row, and the fast parser takes over. */
  method ParseCSVRow(row: string) returns (result: CsvRow)
    ensures result == AssignAll(Fields(row))
    ensures |Fields(row)| >= 2 ==> Reference(row) == Some(result)
  {
    if '"' !in row {
      PlainIsQuoted(row);
      result := ParsePlain(row);
    } else {
      result := ParseQuoted(row);
    }
    if |Fields(row)| >= 2 {
      ParserMatchesReference(row);
    }
  }

  // ---- the reference ----------------------------------------------------------------------------

  /** The labels of the items: those with an equals sign, split at the first one. */
  function ItemLabels(items: seq<string>): Labels {
    if items == [] then map[]
    else
      var labels, item := ItemLabels(items[..|items| - 1]), items[|items| - 1];
      if '=' in item then labels[item[..Index(item, '=')] := item[Index(item, '=') + 1..]] else labels
  }

  /** What the reference makes of a row, or None where it panics. */
  function Reference(row: string): Option<CsvRow> {
    var items := Fields(row);
    if |items| < 2 then None
    else
      var size := ParseInt(items[0]);
      Some(CsvRow(if size.Some? then size.value else 0, items[1], ItemLabels(items[2..])))
  }

  /** parseCSVRowReference: collects all items first and assigns them afterwards. */
  method ParseCSVRowReference(row: string) returns (result: Option<CsvRow>)
    ensures result == Reference(row)
  {
    hide Index, ParseInt;
    var items: seq<string>, escaped, current := [], "", "";
    for i := 0 to |row|
      invariant ScanAll(START, row[..i]) == Scan(items, escaped, current)
    {
      var c := row[i];
      assert row[..i + 1][..i] == row[..i];
      if c == ',' && escaped == "" {
        if current != "" {
          items := items + [current];
          current := "";
        }
        continue;
      }
      if c == '"' {
        if escaped == "" {
          escaped := current;
          current := "";
        } else {
          items := items + [escaped + current];
          escaped := "";
          current := "";
        }
        continue;
      }
      current := current + [c];
    }
    assert row[..|row|] == row;
    if current != "" {
      assert "" + current == current;
      items := items + [if escaped != "" then escaped + current else current];
    }
    var size, contentType := 0, "";
    if |items| > 0 && ParseInt(items[0]).Some? {
      size := ParseInt(items[0]).value;
    }
    if |items| > 1 {
      contentType := items[1];
    } else {
      return None;
    }
    var labels := ReferenceLabels(items[2..]);
    result := Some(CsvRow(size, contentType, labels));
  }

  method ReferenceLabels(items: seq<string>) returns (labels: Labels)
    ensures labels == ItemLabels(items)
  {
    labels := map[];
    for i := 0 to |items|
      invariant labels == ItemLabels(items[..i])
    {
      assert items[..i + 1][..i] == items[..i];
      if '=' in items[i] {
        var eq := Index(items[i], '=');
        labels := labels[items[i][..eq] := items[i][eq + 1..]];
      }
    }
    assert items[..|items|] == items;
  }

  lemma {:induction false} AssignedLabels(fields: seq<string>)
    requires |fields| >= 2
    ensures AssignAll(fields) == AssignAll(fields[..2]).(labels := ItemLabels(fields[2..]))
  {
    hide Index, ParseInt;
    if |fields| == 2 {
      assert fields[..2] == fields;
      TwoFields(fields);
    } else {
      var init := fields[..|fields| - 1];
      AssignedLabels(init);
      assert init[..2] == fields[..2] && init[2..] == fields[2..][..|fields[2..]| - 1];
      IndexFinds(fields[|fields| - 1], '=');
    }
  }

  lemma {:induction false} IndexFinds(s: string, c: char)
    ensures Index(s, c) >= 0 <==> c in s
  {}

  /** Wherever the reference does not panic, the field-at-a-time parser gives the same row. */
  lemma {:induction false} ParserMatchesReference(row: string)
    ensures Reference(row) == if |Fields(row)| < 2 then None else Some(AssignAll(Fields(row)))
  {
    hide Index, ParseInt, Fields;
    var fields := Fields(row);
    if |fields| >= 2 {
      AssignedLabels(fields);
      TwoFields(fields[..2]);
    }
  }

  lemma {:induction false} TwoFields(fields: seq<string>)
    requires |fields| == 2
    ensures AssignAll(fields) == CsvRow(if ParseInt(fields[0]).Some? then ParseInt(fields[0]).value else 0, fields[1], map[])
  {
    hide ParseInt;
    AssignSnoc([], fields[0]);
    AssignSnoc([fields[0]], fields[1]);
    assert [] + [fields[0]] == [fields[0]] && [fields[0]] + [fields[1]] == fields;
  }
}
