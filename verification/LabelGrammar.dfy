/**
 * The language of label lists in Batch Protocol v2, independent of the parser
 * that reads it (batch/v2.go: parseLabelDeltaOps, resolveLabelName): which
 * texts mean which operations, for any text a server may send.
 */
module LabelGrammar {
  import opened Text
  import opened Decimal
  import opened LabelOps

  /**
   * One item of a list: `name=value`, the value bare or between quotes. Only a
   * quoted value can have white space after it, or no comma before the next item.
   */
  datatype Item = Item(name: string, value: string, quoted: bool, pad: string, comma: bool)

  function Render(item: Item): string {
    item.name + "=" + (if item.quoted then "\"" + item.value + "\"" + item.pad else item.value)
    + if item.comma then "," else ""
  }

  predicate StartsWith(s: string, c: char) {
    s != "" && s[0] == c
  }

  /** What an item may be like in front of `after`. */
  ghost predicate Stands(item: Item, after: string) {
    && '=' !in item.name
    && if item.quoted then
         '"' !in item.value && AllWhite(item.pad) && (item.comma || !StartsWith(Trim(after), ','))
       else
         item.pad == "" && ',' !in item.value && !StartsWith(item.value, '"') && (item.comma || after == "")
  }

  ghost predicate WritesNumber(raw: string, n: int) {
    InInt64(n) && exists sign, k :: Writes(raw, n, sign, k)
  }

  /** With a table a number stands for its entry, which must be there; other names stand for themselves. */
  ghost predicate NamesLabel(raw: string, table: seq<string>, meant: string) {
    if table != [] && (exists n :: WritesNumber(raw, n)) then
      meant != "" && exists n :: WritesNumber(raw, n) && 0 <= n < |table| && table[n] == meant
    else
      meant == raw && !StartsWith(raw, '@')
  }

  /** The text of a value without the white space around it; nothing at all is a removal. */
  ghost predicate ValueIs(text: string, value: Option<string>) {
    if AllWhite(text) then value == None
    else
      value.Some? && value.value != "" && value.value[0] !in WHITE_SPACE && value.value[|value.value| - 1] !in WHITE_SPACE
      && exists a, b :: text == a + value.value + b && AllWhite(a) && AllWhite(b)
  }

  ghost predicate ItemMeans(item: Item, table: seq<string>, op: NameOp) {
    NamesLabel(Trim(item.name), table, op.key) && ValueIs(item.value, op.value)
  }

  ghost predicate Cuts(text: string, item: Item, after: string) {
    text == Render(item) + after && Stands(item, after)
  }

  /** The text means these operations. */
  ghost predicate Means(text: string, table: seq<string>, ops: seq<NameOp>)
    decreases |ops|
  {
    if ops == [] then AllWhite(text)
    else exists item, after :: Cuts(text, item, after) && ItemMeans(item, table, ops[0]) && Means(after, table, ops[1..])
  }

  // ---- white space --------------------------------------------------------------------------------

  lemma {:induction false} WhiteTrims(s: string)
    ensures TrimRight(s) == "" <==> AllWhite(s)
  {
    if s != "" {
      SpaceIff(s[|s| - 1]);
      WhiteTrims(s[..|s| - 1]);
    }
  }

  lemma {:induction false} WhiteIsBlank(s: string)
    ensures Trim(s) == "" <==> AllWhite(s)
  {
    WhiteTrims(s);
    TrimRightEnds(s);
    if TrimRight(s) != "" {
      VisibleInTrimLeft(TrimRight(s), TrimRight(s)[|TrimRight(s)| - 1]);
    }
  }

  lemma {:induction false} TrimRightEnds(s: string)
    ensures TrimRight(s) != "" ==> !IsSpace(TrimRight(s)[|TrimRight(s)| - 1])
    ensures TrimLeft("") == ""
  {}

  lemma {:induction false} TrimLeftConcat(a: string, b: string)
    ensures TrimLeft(a + b) == if TrimLeft(a) == "" then TrimLeft(b) else TrimLeft(a) + b
  {
    if a == "" {
      assert a + b == b;
    } else if IsSpace(a[0]) {
      assert (a + b)[1..] == a[1..] + b;
      TrimLeftConcat(a[1..], b);
    }
  }

  lemma {:induction false} LeftThenTrim(s: string)
    ensures Trim(TrimLeft(s)) == Trim(s)
  {
    TrimLeftExact(s);
    var a :| s == a + TrimLeft(s) && AllWhite(a);
    PadLeft(a, TrimLeft(s));
  }

  lemma {:induction false} PadLeft(a: string, s: string)
    requires AllWhite(a)
    ensures Trim(a + s) == Trim(s)
  {
    WhiteTrims(a);
    TrimRightConcat(a, s);
    WhiteLeft(a);
    TrimLeftConcat(a, TrimRight(s));
    hide TrimLeft, TrimRight;
    if TrimRight(s) == "" { BlankLeft(); }
  }

  lemma BlankLeft()
    ensures TrimLeft("") == ""
  {}

  lemma {:induction false} WhiteLeft(a: string)
    requires AllWhite(a)
    ensures TrimLeft(a) == ""
  {
    if a != "" {
      SpaceIff(a[0]);
      WhiteLeft(a[1..]);
    }
  }

  /** The value after `=`, trimmed or not, is the trimmed text, or a removal. */
  lemma {:induction false} TrimmedIs(text: string, value: Option<string>)
    ensures ValueOrRemoval(Trim(text)) == value <==> ValueIs(text, value)
  {
    WhiteIsBlank(text);
    TrimExact(text);
    hide Trim;
    if !AllWhite(text) && ValueIs(text, value) {
      var a, b :| text == a + value.value + b && AllWhite(a) && AllWhite(b);
      TrimBetween(a, value.value, b);
    }
  }

  lemma {:induction false} TrimBetween(a: string, v: string, b: string)
    requires AllWhite(a) && AllWhite(b) && v != "" && v[0] !in WHITE_SPACE && v[|v| - 1] !in WHITE_SPACE
    ensures Trim(a + v + b) == v
  {
    assert a + v + b == a + (v + b);
    PadLeft(a, v + b);
    SpaceIff(v[0]);
    SpaceIff(v[|v| - 1]);
    WhiteTrims(b);
    TrimRightConcat(v, b);
    TrimVisibleEnd(v);
    TrimVisibleStart(v + b);
  }

  // ---- names --------------------------------------------------------------------------------------

  lemma ParsedNumber(raw: string)
    ensures ParseInt(raw).Some? <==> exists n :: WritesNumber(raw, n)
    ensures forall n :: WritesNumber(raw, n) <==> ParseInt(raw) == Some(n)
  {
    hide ParseInt, Writes;
    forall n ensures WritesNumber(raw, n) <==> ParseInt(raw) == Some(n) { ParseIntIff(raw, n); }
    if ParseInt(raw).Some? { assert WritesNumber(raw, ParseInt(raw).value); }
  }

  /** resolveLabelName gives a label exactly if the name stands for it. */
  lemma {:induction false} ResolvesIff(raw: string, table: seq<string>, meant: string)
    ensures ResolveLabelName(raw, table) == Ok(meant) <==> NamesLabel(raw, table, meant)
  {
    ParsedNumber(raw);
    hide ParseInt, WritesNumber;
  }

  // ---- one item -----------------------------------------------------------------------------------

  /** The text after the equals sign of an item. */
  function ValuePart(item: Item, after: string): string {
    (if item.quoted then "\"" + item.value + "\"" + item.pad else item.value) + (if item.comma then "," else "") + after
  }

  lemma {:induction false} ValueSplits(item: Item, after: string)
    requires Stands(item, after)
    ensures SplitValue(TrimRight(ValuePart(item, after))) == Some((Trim(item.value), Trim(after)))
  {
    hide Trim, TrimRight, SplitValue, AllWhite;
    var v := ValuePart(item, after);
    if item.quoted {
      var suffix := item.pad + (if item.comma then "," else "") + after;
      QuotedRest(item.value, item.pad, item.comma, after);
      assert v == "\"" + item.value + "\"" + suffix;
    } else if item.comma {
      TrimRightConcat(item.value + [','], after);
      CommaStays(item.value);
      PlainMoreSplits(item.value, TrimRight(after));
      TrimAfterTrimRight(after);
      assert v == item.value + [','] + after;
    } else {
      assert v == item.value;
      PlainLastSplits(item.value);
      BlankStays();
    }
  }

  lemma BlankStays()
    ensures Trim("") == ""
  {}

  lemma {:induction false} CommaStays(s: string)
    ensures TrimRight(s + [',']) == s + [',']
    ensures forall t :: (if t == "" then s + [','] else s + [','] + t) == s + [','] + t
  {
    TrimVisibleEnd(s + [',']);
    assert s + [','] + "" == s + [','];
  }

  lemma {:induction false} QuotedRest(value: string, pad: string, comma: bool, after: string)
    requires '"' !in value && AllWhite(pad) && (comma || !StartsWith(Trim(after), ','))
    ensures SplitValue(TrimRight("\"" + value + "\"" + (pad + (if comma then "," else "") + after)))
            == Some((Trim(value), Trim(after)))
  {
    hide Trim, TrimRight, SplitValue, AllWhite;
    var start, suffix := "\"" + value + "\"", pad + (if comma then "," else "") + after;
    TrimRightConcat(start, suffix);
    TrimVisibleEnd(start);
    assert start + "" == start;
    QuotedSplits(value, TrimRight(suffix));
    assert ['"'] + value + ['"'] == start;
    RestAfterQuote(pad, comma, after);
  }

  lemma {:induction false} RestAfterQuote(pad: string, comma: bool, after: string)
    requires AllWhite(pad) && (comma || !StartsWith(Trim(after), ','))
    ensures AfterQuote(TrimRight(pad + (if comma then "," else "") + after)) == Trim(after)
  {
    hide Trim, TrimRight, AllWhite;
    var rest := (if comma then "," else "") + after;
    assert pad + (if comma then "," else "") + after == pad + rest;
    TrimAfterTrimRight(pad + rest);
    PadLeft(pad, rest);
    if comma {
      TrimVisibleStart(rest);
      TrimRightConcat(",", after);
      TrimVisibleEnd(",");
      assert "," + "" == ",";
      assert Trim(rest) == "," + TrimRight(after);
      assert Trim(rest)[1..] == TrimRight(after);
      TrimAfterTrimRight(after);
    } else {
      assert rest == after;
    }
  }

  lemma {:induction false} NameTrims(name: string, v: string)
    requires '=' !in name
    ensures Trim(name + ['='] + v) == TrimLeft(name) + ['='] + TrimRight(v)
    ensures '=' !in TrimLeft(name)
  {
    TrimLeftChars(name, '=');
    NameTrimsRight(name, v);
    var kept := ['='] + TrimRight(v);
    EqualsStays(TrimRight(v));
    hide TrimLeft, TrimRight;
    TrimLeftConcat(name, kept);
    assert name + ['='] + TrimRight(v) == name + kept;
    assert TrimLeft(name) + ['='] + TrimRight(v) == TrimLeft(name) + kept;
    assert "" + kept == kept;
  }

  lemma {:induction false} NameTrimsRight(name: string, v: string)
    ensures TrimRight(name + ['='] + v) == name + ['='] + TrimRight(v)
  {
    var start := name + ['='];
    TrimVisibleEnd(start);
    hide TrimRight;
    TrimRightConcat(start, v);
    assert start + "" == start;
  }

  lemma {:induction false} EqualsStays(v: string)
    ensures TrimLeft(['='] + v) == ['='] + v
  {}

  /** What the parser makes of a text that an item can be cut off. */
  lemma {:induction false} ItemParses(text: string, item: Item, after: string, table: seq<string>)
    requires Cuts(text, item, after)
    ensures var meant := ResolveLabelName(Trim(item.name), table);
            ParseOps(Trim(text), table)
            == if meant.Err? then Err(meant.error)
               else Prepend1(NameOp(meant.value, ValueOrRemoval(Trim(item.value))), ParseOps(Trim(after), table))
  {
    hide Trim, TrimLeft, TrimRight, SplitValue, Index, ResolveLabelName, Stands, ParseOps, Prepend1;
    var v := ValuePart(item, after);
    assert text == item.name + ['='] + v;
    assert '=' !in item.name by { NameOfItem(item, after); }
    NameTrims(item.name, v);
    ValueSplits(item, after);
    LeftThenTrim(item.name);
    ParseAt(TrimLeft(item.name), TrimRight(v), table);
  }

  lemma NameOfItem(item: Item, after: string)
    requires Stands(item, after)
    ensures '=' !in item.name
  {}

  lemma {:induction false} ParseAt(name: string, v: string, table: seq<string>)
    requires '=' !in name
    ensures var meant, split := ResolveLabelName(Trim(name), table), SplitValue(v);
            ParseOps(name + ['='] + v, table)
            == if meant.Err? then Err(meant.error)
               else if split.None? then Err("invalid batched header")
               else Prepend1(NameOp(meant.value, ValueOrRemoval(split.value.0)), ParseOps(split.value.1, table))
  {
    hide Trim, SplitValue, Index, ResolveLabelName;
    var rest := name + ['='] + v;
    IndexAfter(name, '=', v);
    assert rest[..|name|] == name && rest[|name| + 1..] == v;
  }

  // ---- every text ---------------------------------------------------------------------------------

  /** Texts that no item can be cut off: without an equals sign, or with a quote left open. */
  ghost predicate Uncut(text: string) {
    '=' !in text || exists name, open :: text == name + "=\"" + open && '=' !in name && '"' !in open
  }

  lemma {:induction false} SplitAtFirst(s: string, c: char) returns (a: string, b: string)
    requires c in s
    ensures s == a + [c] + b && c !in a
  {
    hide Index;
    var i := Index(s, c);
    a, b := s[..i], s[i + 1..];
  }

  /** A text that is not blank can be cut, or cannot be read. */
  lemma {:induction false} CutOrUncut(text: string)
    ensures Uncut(text) || exists item, after :: Cuts(text, item, after) && |after| < |text|
  {
    hide AllWhite, Trim;
    if '=' in text {
      var name, v := SplitAtFirst(text, '=');
      if StartsWith(v, '"') {
        var quoted := v[1..];
        assert text == name + "=\"" + quoted;
        if '"' in quoted {
          var value, suffix := SplitAtFirst(quoted, '"');
          CutQuoted(text, name, value, suffix);
        }
      } else if ',' in v {
        var value, after := SplitAtFirst(v, ',');
        assert value != "" ==> value[0] == v[0];
        var item := Item(name, value, false, "", true);
        assert Cuts(text, item, after);
      } else {
        var item := Item(name, v, false, "", false);
        assert Cuts(text, item, "");
      }
    }
  }

  lemma {:induction false} CutQuoted(text: string, name: string, value: string, suffix: string)
    requires text == name + "=\"" + (value + ['"'] + suffix) && '=' !in name && '"' !in value
    ensures exists item, after :: Cuts(text, item, after) && |after| < |text|
  {
    NoWhite();
    TrimExact(suffix);
    hide AllWhite, Trim, Render, Stands;
    if StartsWith(Trim(suffix), ',') {
      var a, b :| suffix == a + Trim(suffix) + b && AllWhite(a) && AllWhite(b);
      CutAtComma(text, name, value, a, Trim(suffix), b);
    } else {
      CutAtQuote(text, name, value, suffix);
    }
  }

  lemma {:induction false} CutAtComma(text: string, name: string, value: string, a: string, t: string, b: string)
    requires text == name + "=\"" + (value + ['"'] + (a + t + b)) && '=' !in name && '"' !in value
    requires AllWhite(a) && StartsWith(t, ',')
    ensures exists item, after :: Cuts(text, item, after) && |after| < |text|
  {
    hide AllWhite, Trim;
    var item, after := Item(name, value, true, a, true), t[1..] + b;
    assert t == "," + t[1..];
    assert Render(item) + after == name + "=\"" + (value + ['"'] + (a + ("," + t[1..]) + b));
    assert Cuts(text, item, after);
  }

  lemma {:induction false} CutAtQuote(text: string, name: string, value: string, suffix: string)
    requires text == name + "=\"" + (value + ['"'] + suffix) && '=' !in name && '"' !in value
    requires !StartsWith(Trim(suffix), ',') && AllWhite("")
    ensures exists item, after :: Cuts(text, item, after) && |after| < |text|
  {
    hide AllWhite, Trim;
    var item := Item(name, value, true, "", false);
    assert Render(item) + suffix == name + "=\"" + (value + ['"'] + suffix);
    assert Cuts(text, item, suffix);
  }

  lemma NoWhite()
    ensures AllWhite("")
  {}

  lemma {:induction false} UncutFails(text: string, table: seq<string>)
    requires Uncut(text) && !AllWhite(text)
    ensures ParseOps(Trim(text), table).Err?
  {
    hide Trim, AllWhite, ParseOps;
    if '=' !in text {
      WhiteIsBlank(text);
      TrimChars(text, '=');
      NoEqualsFails(Trim(text), table);
    } else {
      var name, open :| text == name + "=\"" + open && '=' !in name && '"' !in open;
      OpenFails(text, name, open, table);
    }
  }

  lemma {:induction false} NoEqualsFails(rest: string, table: seq<string>)
    requires rest != "" && '=' !in rest
    ensures ParseOps(rest, table).Err?
  {}

  lemma {:induction false} OpenFails(text: string, name: string, open: string, table: seq<string>)
    requires text == name + "=\"" + open && '=' !in name && '"' !in open
    ensures ParseOps(Trim(text), table).Err?
  {
    hide Trim, TrimLeft, TrimRight, SplitValue, ParseOps, ResolveLabelName;
    var v := ['"'] + open;
    assert text == name + ['='] + v;
    NameTrims(name, v);
    TrimRightConcat(['"'], open);
    TrimVisibleEnd(['"']);
    TrimRightChars(open, '"');
    assert ['"'] + "" == ['"'];
    assert TrimRight(v) == ['"'] + TrimRight(open);
    OpenQuote(TrimRight(open));
    ParseAt(TrimLeft(name), TrimRight(v), table);
  }

  lemma OpenQuote(open: string)
    requires '"' !in open
    ensures SplitValue(['"'] + open).None?
  {
    hide Index;
    assert (['"'] + open)[1..] == open;
  }

  /** Prepending one operation. */
  lemma OneMore(op: NameOp, rest: Result<seq<NameOp>>, ops: seq<NameOp>)
    ensures Prepend1(op, rest) == Ok(ops) <==> ops != [] && op == ops[0] && rest == Ok(ops[1..])
  {
    if ops != [] {
      Prepend1Equals(op, rest, ops);
    }
  }

  lemma {:induction false} CutParsesIff(text: string, item: Item, after: string, table: seq<string>, ops: seq<NameOp>)
    requires Cuts(text, item, after)
    ensures ParseOps(Trim(text), table) == Ok(ops) <==>
              ops != [] && ItemMeans(item, table, ops[0]) && ParseOps(Trim(after), table) == Ok(ops[1..])
  {
    ItemParses(text, item, after, table);
    hide ParseOps, Trim, Cuts, Prepend1, ResolveLabelName, ValueOrRemoval, NamesLabel, ValueIs;
    var meant := ResolveLabelName(Trim(item.name), table);
    if meant.Ok? {
      OneMore(NameOp(meant.value, ValueOrRemoval(Trim(item.value))), ParseOps(Trim(after), table), ops);
    }
    if ops != [] {
      ResolvesIff(Trim(item.name), table, ops[0].key);
      TrimmedIs(item.value, ops[0].value);
    }
  }

  /**
   * parseLabelDeltaOps reads exactly the texts of the language, and as what
   * they mean; every other text is refused.
   */
  lemma {:induction false} ParseIff(text: string, table: seq<string>, ops: seq<NameOp>)
    ensures ParseOps(Trim(text), table) == Ok(ops) <==> Means(text, table, ops)
    decreases |ops|, |text|
  {
    hide ParseOps, Trim, Cuts, ItemMeans, Uncut, AllWhite;
    WhiteIsBlank(text);
    if AllWhite(text) {
      NothingParses(table);
    } else {
      CutOrUncut(text);
      if Uncut(text) {
        UncutFails(text, table);
      } else {
        var item, after :| Cuts(text, item, after) && |after| < |text|;
        CutParsesIff(text, item, after, table, ops);
        if ops != [] { ParseIff(after, table, ops[1..]); }
      }
    }
    if item, after :| ops != [] && Cuts(text, item, after) && ItemMeans(item, table, ops[0]) && Means(after, table, ops[1..]) {
      ParseIff(after, table, ops[1..]);
      CutParsesIff(text, item, after, table, ops);
    }
  }

  lemma {:induction false} NothingParses(table: seq<string>)
    ensures ParseOps("", table) == Ok([])
  {}
}
