/**
 * The language of the list headers of Batch Protocol v2, independent of the
 * parser that reads it (batch/v2.go: parseHeaderList; url.PathUnescape): which
 * texts stand for which lists, for any text a server may send.
 */
module ListGrammar {
  import opened Text
  import opened HeaderList
  import opened LabelGrammar

  // ---- percent-encoded text -----------------------------------------------------------------------

  ghost predicate IsDigitOf(c: char, d: nat) {
    d < |HEX| && d < |LOWER_HEX| && (c == HEX[d] || c == LOWER_HEX[d])
  }

  /** A character is spelled as itself or by its number in two hexadecimal digits; a percent sign only so. */
  ghost predicate Spells(piece: string, c: char) {
    || (piece == [c] && c != '%')
    || (|piece| == 3 && piece[0] == '%'
        && exists hi: nat, lo: nat :: IsDigitOf(piece[1], hi) && IsDigitOf(piece[2], lo) && c as int == 16 * hi + lo)
  }

  ghost predicate SpellsAll(text: string, value: string)
    decreases |value|
  {
    if value == "" then text == ""
    else exists piece, rest :: StartsAs(text, piece, rest, value[0]) && SpellsAll(rest, value[1..])
  }

  ghost predicate StartsAs(text: string, piece: string, rest: string, c: char) {
    text == piece + rest && Spells(piece, c)
  }

  lemma DigitIff(c: char)
    ensures IsHex(c) <==> exists d: nat :: IsDigitOf(c, d)
    ensures forall d: nat :: IsDigitOf(c, d) ==> IsHex(c) && HexValue(c) == d
  {
    HexIff(c);
    forall d: nat | IsDigitOf(c, d) ensures IsHex(c) && HexValue(c) == d { HexIs(d); }
    if c in HEX { var d: int :| 0 <= d < |HEX| && HEX[d] == c; HexIs(d); assert IsDigitOf(c, d); }
    if c in LOWER_HEX { var d: int :| 0 <= d < |LOWER_HEX| && LOWER_HEX[d] == c; HexIs(d); assert IsDigitOf(c, d); }
  }

  lemma {:induction false} TripletSpells(piece: string, c: char)
    requires |piece| == 3 && piece[0] == '%'
    ensures Spells(piece, c) <==>
              IsHex(piece[1]) && IsHex(piece[2]) && c as int == HexValue(piece[1]) * 16 + HexValue(piece[2])
  {
    DigitIff(piece[1]);
    DigitIff(piece[2]);
    hide IsHex, HexValue, IsDigitOf, HEX, LOWER_HEX;
    if IsHex(piece[1]) && IsHex(piece[2]) {
      var hi: nat :| IsDigitOf(piece[1], hi);
      var lo: nat :| IsDigitOf(piece[2], lo);
    }
  }

  lemma {:induction false} UnescapePiece(text: string, piece: string, rest: string, c: char)
    requires StartsAs(text, piece, rest, c)
    ensures Unescape(text) == if Unescape(rest).None? then None else Some([c] + Unescape(rest).value)
  {
    hide IsHex, HexValue;
    if |piece| == 3 {
      TripletSpells(piece, c);
      hide Spells;
      assert text[3..] == rest && text[1] == piece[1] && text[2] == piece[2];
    } else {
      hide Spells;
      assert piece == [c] && c != '%' by { SingleSpells(piece, c); }
      assert text[1..] == rest;
    }
  }

  lemma SingleSpells(piece: string, c: char)
    requires Spells(piece, c) && |piece| != 3
    ensures piece == [c] && c != '%'
  {}

  lemma {:induction false} UnescapeCuts(text: string)
    requires text != "" && Unescape(text).Some?
    ensures Unescape(text).value != ""
    ensures exists piece, rest :: StartsAs(text, piece, rest, Unescape(text).value[0]) && |rest| < |text|
  {
    hide IsHex, HexValue, Spells;
    var c := Unescape(text).value[0];
    if text[0] != '%' {
      assert text == [c] + text[1..];
      assert Spells([c], c) by { SpellsItself(c); }
      assert StartsAs(text, [c], text[1..], c);
    } else {
      TripletSpells(text[..3], c);
      assert text == text[..3] + text[3..];
      assert StartsAs(text, text[..3], text[3..], c);
    }
  }

  lemma SpellsItself(c: char)
    requires c != '%'
    ensures Spells([c], c)
  {}

  /** url.PathUnescape gives the value exactly if the text spells it. */
  lemma {:induction false} UnescapeIff(text: string, value: string)
    ensures Unescape(text) == Some(value) <==> SpellsAll(text, value)
    decreases |value|, |text|
  {
    hide Unescape, StartsAs;
    NothingUnescapes();
    if text != "" && Unescape(text).Some? && value != "" {
      UnescapeCuts(text);
      var piece, rest :| StartsAs(text, piece, rest, Unescape(text).value[0]) && |rest| < |text|;
      UnescapePiece(text, piece, rest, Unescape(text).value[0]);
      UnescapeIff(rest, value[1..]);
      SameStart(Unescape(text).value[0], Unescape(rest).value, value);
    }
    if text != "" && Unescape(text).Some? && value == "" { UnescapeCuts(text); }
    if value != "" {
      if piece, rest :| StartsAs(text, piece, rest, value[0]) && SpellsAll(rest, value[1..]) {
        UnescapeIff(rest, value[1..]);
        UnescapePiece(text, piece, rest, value[0]);
        assert value == [value[0]] + value[1..];
      }
    }
  }

  lemma NothingUnescapes()
    ensures Unescape("") == Some("")
  {}

  lemma SameStart(c: char, rest: string, value: string)
    requires value != ""
    ensures [c] + rest == value <==> c == value[0] && rest == value[1..]
  {
    assert value == [value[0]] + value[1..];
    assert ([c] + rest)[1..] == rest;
  }

  // ---- lists --------------------------------------------------------------------------------------

  ghost predicate ItemIs(item: string, value: string) {
    ',' !in item && !AllWhite(item) && SpellsAll(Trim(item), value)
  }

  /** A blank text is the empty list; otherwise no item may be blank. */
  ghost predicate ListIs(text: string, values: seq<string>) {
    if AllWhite(text) then values == [] else ItemsAre(text, values)
  }

  /** The text is these items with commas between them. */
  ghost predicate ItemsAre(text: string, values: seq<string>)
    decreases |values|
  {
    && values != []
    && if |values| == 1 then ItemIs(text, values[0])
       else exists item, rest :: text == item + "," + rest && ItemIs(item, values[0]) && ItemsAre(rest, values[1..])
  }

  lemma {:induction false} ItemDecodes(item: string, value: string)
    requires ',' !in item
    ensures ItemIs(item, value) <==> Trim(item) != "" && Unescape(Trim(item)) == Some(value)
  {
    hide Trim, AllWhite, Unescape, SpellsAll;
    WhiteIsBlank(item);
    UnescapeIff(Trim(item), value);
  }

  lemma {:induction false} OneItem(text: string, values: seq<string>)
    requires ',' !in text
    ensures DecodeItems(Split(text, ',')) == Ok(values) <==> |values| == 1 && ItemIs(text, values[0])
  {
    hide Trim, Unescape, ItemIs, Index;
    assert Split(text, ',') == [text];
    assert [text][1..] == [];
    if |values| == 1 { ItemDecodes(text, values[0]); }
    NoItems();
    if Unescape(Trim(text)).Some? {
      assert [Unescape(Trim(text)).value] + [] == [Unescape(Trim(text)).value];
    }
    assert |values| == 1 ==> values == [values[0]];
  }

  lemma NoItems()
    ensures DecodeItems([]) == Ok([])
  {}

  lemma {:induction false} MoreItems(text: string, item: string, rest: string, values: seq<string>)
    requires text == item + "," + rest && ',' !in item
    ensures DecodeItems(Split(text, ',')) == Ok(values) <==>
              values != [] && ItemIs(item, values[0]) && DecodeItems(Split(rest, ',')) == Ok(values[1..])
  {
    hide Trim, Unescape, ItemIs, Index, Split;
    assert text == item + [','] + rest;
    SplitAfter(item, ',', rest);
    var parts := Split(text, ',');
    assert parts[0] == item && parts[1..] == Split(rest, ',');
    if values != [] {
      ItemDecodes(item, values[0]);
      if Unescape(Trim(item)).Some? && DecodeItems(Split(rest, ',')).Ok? {
        SameFirst(Unescape(Trim(item)).value, DecodeItems(Split(rest, ',')).value, values);
      }
    }
  }

  lemma SameFirst(first: string, rest: seq<string>, values: seq<string>)
    requires values != []
    ensures [first] + rest == values <==> first == values[0] && rest == values[1..]
  {
    assert values == [values[0]] + values[1..];
    assert ([first] + rest)[1..] == rest;
  }

  lemma {:induction false} ItemsIff(text: string, values: seq<string>)
    ensures DecodeItems(Split(text, ',')) == Ok(values) <==> ItemsAre(text, values)
    decreases |values|, |text|
  {
    hide Split, DecodeItems, ItemIs;
    if ',' !in text {
      OneItem(text, values);
    } else {
      var item, rest := SplitAtFirst(text, ',');
      assert text == item + "," + rest;
      MoreItems(text, item, rest, values);
      if values != [] { ItemsIff(rest, values[1..]); }
      NeverNothing(rest);
    }
    if |values| == 1 && ItemIs(text, values[0]) {
      ItemHasNoComma(text, values[0]);
    }
    if |values| > 1 {
      if item, rest :| text == item + "," + rest && ItemIs(item, values[0]) && ItemsAre(rest, values[1..]) {
        ItemHasNoComma(item, values[0]);
        ItemsIff(rest, values[1..]);
        MoreItems(text, item, rest, values);
      }
    }
  }

  lemma ItemHasNoComma(item: string, value: string)
    requires ItemIs(item, value)
    ensures ',' !in item
  {}

  lemma {:induction false} NeverNothing(text: string)
    ensures DecodeItems(Split(text, ',')) != Ok([])
  {
    hide Split, Trim, Unescape;
  }

  lemma {:induction false} PadItem(a: string, item: string, b: string, value: string)
    requires AllWhite(a) && AllWhite(b)
    ensures ItemIs(a + item + b, value) <==> ItemIs(item, value)
  {
    PadLeft(a, item + b);
    assert a + item + b == a + (item + b);
    PadRight(item, b);
    WhiteIsBlank(item);
    WhiteIsBlank(a + item + b);
    NoCommaInWhite(a);
    NoCommaInWhite(b);
    hide Trim, SpellsAll, AllWhite;
    assert ',' in a + item + b <==> ',' in a || ',' in item || ',' in b;
  }

  lemma NoCommaInWhite(a: string)
    requires AllWhite(a)
    ensures ',' !in a
  {
    SpaceIff(',');
  }

  lemma PadRight(s: string, b: string)
    requires AllWhite(b)
    ensures Trim(s + b) == Trim(s)
  {
    WhiteTrims(b);
    TrimRightConcat(s, b);
    TrimAfterTrimRight(s + b);
    TrimAfterTrimRight(s);
  }

  /** White space around a list does not matter. */
  lemma {:induction false} PadItems(a: string, s: string, b: string, values: seq<string>)
    requires AllWhite(a) && AllWhite(b)
    ensures DecodeItems(Split(a + s + b, ',')) == Ok(values) <==> DecodeItems(Split(s, ',')) == Ok(values)
    decreases |s|
  {
    NoCommaInWhite(a);
    NoCommaInWhite(b);
    NoWhite();
    hide DecodeItems, Split, ItemIs, AllWhite;
    if ',' !in s {
      OneItem(s, values);
      OneItem(a + s + b, values);
      if |values| == 1 { PadItem(a, s, b, values[0]); }
    } else {
      var item, rest := SplitAtFirst(s, ',');
      if values != [] {
        PadItems("", rest, b, values[1..]);
        Ungroup("", rest, b);
      }
      PadFirst(a, s, b, item, rest, values);
    }
  }

  lemma Ungroup(a: string, s: string, b: string)
    requires a == ""
    ensures a + s + b == s + b
  {}

  lemma Regroup(a: string, s: string, b: string, item: string, rest: string)
    requires s == item + [','] + rest
    ensures s == item + "," + rest && a + s + b == (a + item) + "," + (rest + b) && a + item + "" == a + item
  {}

  lemma {:induction false} PadFirst(a: string, s: string, b: string, item: string, rest: string, values: seq<string>)
    requires s == item + [','] + rest && ',' !in item && ',' !in a && AllWhite(a) && AllWhite("")
    requires values != [] ==>
               (DecodeItems(Split(rest + b, ',')) == Ok(values[1..]) <==> DecodeItems(Split(rest, ',')) == Ok(values[1..]))
    ensures DecodeItems(Split(a + s + b, ',')) == Ok(values) <==> DecodeItems(Split(s, ',')) == Ok(values)
  {
    hide DecodeItems, Split, ItemIs, AllWhite;
    Regroup(a, s, b, item, rest);
    MoreItems(s, item, rest, values);
    MoreItems(a + s + b, a + item, rest + b, values);
    if values != [] { PadItem(a, item, "", values[0]); }
  }

  /** parseHeaderList reads exactly the texts that are lists, and as what they stand for; every other text is refused. */
  lemma {:induction false} ListIff(text: string, values: seq<string>)
    ensures ParseList(text) == Ok(values) <==> ListIs(text, values)
  {
    WhiteIsBlank(text);
    TrimExact(text);
    hide Trim, AllWhite, DecodeItems, Split, ItemsAre;
    if !AllWhite(text) {
      var a, b :| text == a + Trim(text) + b && AllWhite(a) && AllWhite(b);
      PadItems(a, Trim(text), b, values);
      ItemsIff(text, values);
    }
  }
}
