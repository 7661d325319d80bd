/**
 * Percent coding of names and the comma-separated header lists that carry them
 * (record_batch.go: encodeHeaderList, encodeHeaderComponent, isTchar;
 * batch/v2.go: parseHeaderList).
 */
module HeaderList {
  import opened Text

  /** The `tchar` set of section 5.6.2 of RFC 9110. */
  predicate IsTchar(c: char) {
    || '0' <= c <= '9'
    || 'A' <= c <= 'Z'
    || 'a' <= c <= 'z'
    || c == '!' || c == '#' || c == '$' || c == '%' || c == '&' || c == '\'' || c == '*' || c == '+'
    || c == '-' || c == '.' || c == '^' || c == '_' || c == '`' || c == '|' || c == '~'
  }

  function HexDigit(d: nat): char
    requires d < 16
  {
    if d < 10 then ('0' as int + d) as char else ('A' as int + d - 10) as char
  }

  predicate IsHex(c: char) {
    '0' <= c <= '9' || 'A' <= c <= 'F' || 'a' <= c <= 'f'
  }

  function HexValue(c: char): (d: nat)
    requires IsHex(c)
    ensures d < 16
  {
    if '0' <= c <= '9' then c as int - '0' as int
    else if 'A' <= c <= 'F' then c as int - 'A' as int + 10
    else c as int - 'a' as int + 10
  }

  /** One byte of an encoded component: itself, or a triplet of section 2.1 of RFC 3986. */
  function EncodeByte(c: char): string
    requires c as int < 256
  {
    if IsTchar(c) then [c] else ['%', HexDigit(c as int / 16), HexDigit(c as int % 16)]
  }

  function Encode(s: string): string
    requires IsBytes(s)
  {
    if s == "" then "" else EncodeByte(s[0]) + Encode(s[1..])
  }

  /** `url.PathUnescape`. */
  function Unescape(s: string): Option<string> {
    if s == "" then Some("")
    else if s[0] != '%' then
      var rest := Unescape(s[1..]);
      if rest.None? then None else Some([s[0]] + rest.value)
    else if |s| < 3 || !IsHex(s[1]) || !IsHex(s[2]) then None
    else
      var rest := Unescape(s[3..]);
      if rest.None? then None
      else Some([(HexValue(s[1]) * 16 + HexValue(s[2])) as char] + rest.value)
  }

  lemma HexRoundTrip(d: nat)
    requires d < 16
    ensures IsHex(HexDigit(d)) && HexValue(HexDigit(d)) == d && HexDigit(d) != '%'
  {}

  lemma {:induction false} UnescapePlain(s: string)
    requires '%' !in s
    ensures Unescape(s) == Some(s)
  {
    if s != "" {
      assert s == [s[0]] + s[1..];
      UnescapePlain(s[1..]);
    }
  }

  lemma {:induction false} EncodeFront(c: char, rest: string)
    requires c as int < 256 && IsBytes(rest)
    ensures Encode([c] + rest) == EncodeByte(c) + Encode(rest)
    ensures IsTchar(c) ==> Encode([c] + rest) == [c] + Encode(rest)
    ensures !IsTchar(c) ==> Encode([c] + rest)[0] == '%'
  {
    assert ([c] + rest)[1..] == rest;
  }

  lemma {:induction false} EncodedStart(s: string)
    requires IsBytes(s)
    ensures s == "" <==> Encode(s) == ""
    ensures s != "" ==> (IsHex(Encode(s)[0]) <==> IsHex(s[0]))
    ensures s != "" && IsHex(s[0]) ==> Encode(s) == [s[0]] + Encode(s[1..])
  {
    if s != "" {
      assert s == [s[0]] + s[1..];
      EncodeFront(s[0], s[1..]);
    }
  }

  lemma {:induction false} UnescapeTriplet(c: char, rest: string)
    requires c as int < 256
    ensures var hi, lo := HexDigit(c as int / 16), HexDigit(c as int % 16);
            Unescape(['%', hi, lo] + rest)
            == if Unescape(rest).None? then None else Some([c] + Unescape(rest).value)
  {
    HexRoundTrip(c as int / 16);
    HexRoundTrip(c as int % 16);
    var s := ['%', HexDigit(c as int / 16), HexDigit(c as int % 16)] + rest;
    assert s[3..] == rest;
  }

  predicate StartsTriplet(s: string) {
    |s| >= 3 && s[0] == '%' && IsHex(s[1]) && IsHex(s[2])
  }

  /** The encoder leaves a triplet as it is. */
  lemma {:induction false} EncodeTriplet(s: string)
    requires IsBytes(s) && StartsTriplet(s)
    ensures Encode(s) == ['%', s[1], s[2]] + Encode(s[3..])
  {
    hide Encode, IsHex;
    assert s == [s[0]] + s[1..] && s[1..][1..] == s[2..] && s[2..][1..] == s[3..];
    EncodeFront(s[0], s[1..]);
    EncodedStart(s[1..]);
    EncodedStart(s[2..]);
    assert ['%'] + ([s[1]] + ([s[2]] + Encode(s[3..]))) == ['%', s[1], s[2]] + Encode(s[3..]);
  }

  /** A triplet that is broken stays broken. */
  lemma {:induction false} EncodeBroken(s: string)
    requires IsBytes(s) && s != "" && s[0] == '%' && !StartsTriplet(s)
    ensures Unescape(Encode(s)) == None
  {
    assert s == [s[0]] + s[1..];
    EncodeFront(s[0], s[1..]);
    EncodedStart(s[1..]);
    if |s| >= 2 && IsHex(s[1]) {
      assert s[1..][1..] == s[2..];
      EncodedStart(s[2..]);
    }
    hide Encode, IsHex;
    assert !StartsTriplet(Encode(s));
  }

  /**
   * Encoding does not change what a name is decoded to: whether a name is
   * percent-encoded by the library or put into a URL path as it is, the same
   * entry is addressed.
   */
  lemma {:induction false} UnescapeEncode(s: string)
    requires IsBytes(s)
    ensures Unescape(Encode(s)) == Unescape(s)
  {
    if s == "" {
      assert Encode(s) == "";
    } else if s[0] != '%' {
      UnescapeEncode(s[1..]);
      UnescapeEncodeFront(s[0], s[1..]);
      assert s == [s[0]] + s[1..];
    } else if StartsTriplet(s) {
      hide Encode;
      EncodeTriplet(s);
      UnescapeEncode(s[3..]);
      var e := Encode(s);
      assert e[3..] == Encode(s[3..]) && e[0] == s[0] && e[1] == s[1] && e[2] == s[2];
    } else {
      hide Encode;
      EncodeBroken(s);
    }
  }

  lemma {:induction false} UnescapeChar(c: char, rest: string)
    requires c != '%'
    ensures Unescape([c] + rest) == if Unescape(rest).None? then None else Some([c] + Unescape(rest).value)
  {
    assert ([c] + rest)[1..] == rest;
  }

  /** The first character, encoded, is decoded to itself. */
  lemma {:induction false} UnescapeEncodeFront(c: char, rest: string)
    requires c != '%' && c as int < 256 && IsBytes(rest) && IsBytes([c] + rest) && Unescape(Encode(rest)) == Unescape(rest)
    ensures Unescape(Encode([c] + rest)) == Unescape([c] + rest)
  {
    EncodeFront(c, rest);
    hide Encode, Unescape, IsBytes;
    UnescapeChar(c, rest);
    if IsTchar(c) {
      UnescapeChar(c, Encode(rest));
    } else {
      UnescapeTriplet(c, Encode(rest));
    }
  }

  /** Every `%` that decodes removes exactly two bytes. */
  lemma {:induction false} UnescapeLength(s: string)
    requires Unescape(s).Some?
    ensures |Unescape(s).value| == |s| - 2 * Count(s, '%')
  {
    if s != "" {
      if s[0] != '%' {
        UnescapeLength(s[1..]);
      } else {
        UnescapeLength(s[3..]);
        assert s[1..][1..] == s[2..] && s[2..][1..] == s[3..];
        assert Count(s[1..], '%') == Count(s[2..], '%') == Count(s[3..], '%');
      }
    }
  }

  /**
   * The percent coding characterised exactly: `%` is itself a tchar and stays
   * unescaped, so a name comes back if and only if it has no `%`.
   */
  lemma {:induction false} PercentRoundTripIff(s: string)
    requires IsBytes(s)
    ensures Unescape(Encode(s)) == Some(s) <==> '%' !in s
  {
    UnescapeEncode(s);
    DecodesToItselfIff(s);
  }

  lemma {:induction false} DecodesToItselfIff(s: string)
    ensures Unescape(s) == Some(s) <==> '%' !in s
  {
    if '%' !in s {
      UnescapePlain(s);
    } else if Unescape(s).Some? {
      UnescapeLength(s);
      CountZero(s, '%');
    }
  }

  /** The percent sign is a `tchar` and stays: an entry called `%41` is read as `A`. */
  lemma PercentExample()
    ensures IsBytes("%41") && Encode("%41") == "%41" && Unescape(Encode("%41")) == Some("A")
  {
    var s := "%41";
    assert s[1..] == "41" && s[1..][1..] == "1" && s[3..] == "";
    assert Encode("1") == "1" && Encode("41") == "41";
    assert EncodeByte('%') == ['%'] && Encode(s) == ['%'] + "41" == s;
    assert HexValue(s[1]) * 16 + HexValue(s[2]) == 'A' as int && 65 as char == 'A';
    assert Unescape("") == Some("") && ['A'] + "" == "A";
    assert s[0] == '%' && s[1] == '4' && s[2] == '1' && Unescape(s[3..]) == Some("");
  }

  /** The delimiters that section 5.6.2 of RFC 9110 excludes from a token. */
  const DELIMITERS := "\"(),/:;<=>?@[\\]{}"

  /** The other definition of a token there: visible ASCII without the delimiters. */
  predicate IsToken(s: string) {
    forall i :: 0 <= i < |s| ==> '!' <= s[i] <= '~' && s[i] !in DELIMITERS
  }

  lemma DelimitersAre(c: char)
    ensures c in DELIMITERS <==>
              || c == '"' || c == '(' || c == ')' || c == ',' || c == '/' || c == ':' || c == ';' || c == '<' || c == '='
              || c == '>' || c == '?' || c == '@' || c == '[' || c == '\\' || c == ']' || c == '{' || c == '}'
  {
    var d := DELIMITERS;
    assert |d| == 17 && d[0] == '"' && d[1] == '(' && d[2] == ')' && d[3] == ',' && d[4] == '/' && d[5] == ':' && d[6] == ';'
           && d[7] == '<' && d[8] == '=';
    assert d[9] == '>' && d[10] == '?' && d[11] == '@' && d[12] == '[' && d[13] == '\\' && d[14] == ']' && d[15] == '{'
           && d[16] == '}';
  }

  /** Both definitions are the same. */
  lemma TcharIff(c: char)
    ensures IsTchar(c) <==> '!' <= c <= '~' && c !in DELIMITERS
  {
    DelimitersAre(c);
    hide DELIMITERS;
  }

  const HEX := "0123456789ABCDEF"
  const LOWER_HEX := "0123456789abcdef"

  /** A token character stays, every other byte becomes a percent sign and two upper-case hex digits. */
  lemma {:induction false} ByteIsEncoded(c: char)
    requires c as int < 256
    ensures Encode([c]) == if IsToken([c]) then [c] else ['%', HEX[c as int / 16], HEX[c as int % 16]]
  {
    TcharIff(c);
    HexIs(c as int / 16);
    HexIs(c as int % 16);
    hide IsTchar, HexDigit;
    assert [c][1..] == "" && Encode("") == "";
    assert Encode([c]) == EncodeByte(c) + "" == EncodeByte(c);
  }

  lemma HexIs(d: nat)
    requires d < 16
    ensures |HEX| == |LOWER_HEX| == 16 && HexDigit(d) == HEX[d]
    ensures IsHex(HEX[d]) && HexValue(HEX[d]) == d && IsHex(LOWER_HEX[d]) && HexValue(LOWER_HEX[d]) == d
  {}

  lemma HexIff(c: char)
    ensures IsHex(c) <==> c in HEX || c in LOWER_HEX
  {
    if '0' <= c <= '9' { HexIs(c as int - '0' as int); }
    if 'A' <= c <= 'F' { HexIs(c as int - 'A' as int + 10); }
    if 'a' <= c <= 'f' { HexIs(c as int - 'a' as int + 10); }
    if c in HEX { var d :| 0 <= d < |HEX| && HEX[d] == c; HexIs(d); }
    if c in LOWER_HEX { var d :| 0 <= d < |LOWER_HEX| && LOWER_HEX[d] == c; HexIs(d); }
    hide IsHex;
  }

  /** Encoding goes byte by byte. */
  lemma {:induction false} EncodeConcat(s: string, t: string)
    requires IsBytes(s) && IsBytes(t) && IsBytes(s + t)
    ensures Encode(s + t) == Encode(s) + Encode(t)
  {
    if s == "" {
      assert s + t == t && "" + Encode(t) == Encode(t);
    } else {
      assert (s + t)[1..] == s[1..] + t;
      EncodeConcat(s[1..], t);
      assert EncodeByte(s[0]) + (Encode(s[1..]) + Encode(t)) == (EncodeByte(s[0]) + Encode(s[1..])) + Encode(t);
    }
  }

  /** An encoded component is a token: no comma and no white space. */
  lemma {:induction false} EncodedIsToken(s: string)
    requires IsBytes(s)
    ensures IsToken(Encode(s))
    ensures s == "" <==> Encode(s) == ""
  {
    if s != "" {
      EncodedIsToken(s[1..]);
      EncodedByteIsToken(s[0]);
    }
  }

  lemma EncodedByteIsToken(c: char)
    requires c as int < 256
    ensures IsToken(EncodeByte(c))
  {
    var e := EncodeByte(c);
    forall i | 0 <= i < |e| ensures IsTchar(e[i]) {}
    hide IsTchar, EncodeByte;
    forall i | 0 <= i < |e| ensures '!' <= e[i] <= '~' && e[i] !in DELIMITERS { TcharIff(e[i]); }
  }

  lemma TokenIsPlain(s: string)
    requires IsToken(s)
    ensures ',' !in s && Trim(s) == s
  {
    assert DELIMITERS[3] == ',';
    TrimFixed(s);
  }

  // ---- lists ------------------------------------------------------------------

  predicate AllBytes(values: seq<string>) {
    forall i :: 0 <= i < |values| ==> IsBytes(values[i])
  }

  function EncodeAll(values: seq<string>): (es: seq<string>)
    requires AllBytes(values)
    ensures |es| == |values|
    ensures forall i :: 0 <= i < |es| ==> es[i] == Encode(values[i])
  {
    seq(|values|, i requires 0 <= i < |values| => Encode(values[i]))
  }

  function EncodeList(values: seq<string>): string
    requires AllBytes(values)
  {
    Join(EncodeAll(values), ',')
  }

  /** The items of a list header, decoded in order; fails on an empty or undecodable item. */
  function DecodeItems(parts: seq<string>): Result<seq<string>> {
    if parts == [] then Ok([])
    else
      var item := Trim(parts[0]);
      if item == "" then Err("invalid entries/labels header")
      else
        var decoded := Unescape(item);
        if decoded.None? then Err("invalid URL escape")
        else
          var rest := DecodeItems(parts[1..]);
          if rest.Err? then rest else Ok([decoded.value] + rest.value)
  }

  function ParseList(header: string): Result<seq<string>> {
    var trimmed := Trim(header);
    if trimmed == "" then Ok([]) else DecodeItems(Split(trimmed, ','))
  }

  /** encodeHeaderComponent builds its result byte by byte. */
  method EncodeHeaderComponent(value: string) returns (encoded: string)
    requires IsBytes(value)
    ensures encoded == Encode(value)
  {
    encoded := "";
    assert value[0..] == value;
    for i := 0 to |value|
      invariant encoded + Encode(value[i..]) == Encode(value)
    {
      assert value[i..][1..] == value[i + 1..];
      encoded := encoded + EncodeByte(value[i]);
    }
  }

  /** encodeHeaderList. */
  method EncodeHeaderList(values: seq<string>) returns (header: string)
    requires AllBytes(values)
    ensures header == EncodeList(values)
  {
    var encoded := [];
    for i := 0 to |values|
      invariant encoded == EncodeAll(values)[..i]
    {
      var e := EncodeHeaderComponent(values[i]);
      encoded := encoded + [e];
    }
    assert encoded == EncodeAll(values);
    header := Join(encoded, ',');
  }

  lemma {:induction false} DecodeItemsStep(out: seq<string>, parts: seq<string>)
    requires parts != []
    ensures var item := Trim(parts[0]);
            if item == "" then DecodeItems(parts) == Err("invalid entries/labels header")
            else if Unescape(item).None? then DecodeItems(parts) == Err("invalid URL escape")
            else Prepend(out, DecodeItems(parts)) == Prepend(out + [Unescape(item).value], DecodeItems(parts[1..]))
  {
    var item, rest := Trim(parts[0]), DecodeItems(parts[1..]);
    if item != "" && Unescape(item).Some? && rest.Ok? {
      assert out + ([Unescape(item).value] + rest.value) == out + [Unescape(item).value] + rest.value;
    }
  }

  /** The loop of parseHeaderList over the split items. */
  method DecodeParts(parts: seq<string>) returns (r: Result<seq<string>>)
    ensures r == DecodeItems(parts)
  {
    var out: seq<string> := [];
    assert parts[0..] == parts;
    for i := 0 to |parts|
      invariant Prepend(out, DecodeItems(parts[i..])) == DecodeItems(parts)
    {
      assert parts[i..][1..] == parts[i + 1..] && parts[i..][0] == parts[i];
      DecodeItemsStep(out, parts[i..]);
      var item := Trim(parts[i]);
      if item == "" {
        return Err("invalid entries/labels header");
      }
      var decoded := Unescape(item);
      if decoded.None? {
        return Err("invalid URL escape");
      }
      out := out + [decoded.value];
    }
    assert out + [] == out;
    r := Ok(out);
  }

  /** parseHeaderList. */
  method ParseHeaderList(header: string) returns (r: Result<seq<string>>)
    ensures r == ParseList(header)
  {
    var trimmed := Trim(header);
    if trimmed == "" {
      return Ok([]);
    }
    r := DecodeParts(Split(trimmed, ','));
  }

  /** Every name decodes. */
  predicate Decodable(values: seq<string>) {
    forall i :: 0 <= i < |values| ==> Unescape(values[i]).Some?
  }

  function DecodedAll(values: seq<string>): (out: seq<string>)
    requires Decodable(values)
    ensures |out| == |values|
    ensures forall i :: 0 <= i < |out| ==> out[i] == Unescape(values[i]).value
  {
    seq(|values|, i requires 0 <= i < |values| => Unescape(values[i]).value)
  }

  /** An encoded name decodes to what the name itself decodes to. */
  lemma {:induction false} DecodeEncoded(values: seq<string>)
    requires AllBytes(values) && forall i :: 0 <= i < |values| ==> values[i] != ""
    ensures DecodeItems(EncodeAll(values)) == if Decodable(values) then Ok(DecodedAll(values)) else Err("invalid URL escape")
  {
    if values != [] {
      var es := EncodeAll(values);
      assert values[0] in values;
      EncodedIsToken(values[0]);
      TokenIsPlain(Encode(values[0]));
      UnescapeEncode(values[0]);
      hide Encode, Unescape, IsBytes, Decodable, Trim;
      DecodeEncoded(values[1..]);
      assert es[1..] == EncodeAll(values[1..]);
      DecodedFront(values);
    }
  }

  lemma DecodedFront(values: seq<string>)
    requires values != []
    ensures Decodable(values) <==> Unescape(values[0]).Some? && Decodable(values[1..])
    ensures Decodable(values) ==> DecodedAll(values) == [Unescape(values[0]).value] + DecodedAll(values[1..])
  {
    hide Unescape;
    if Unescape(values[0]).Some? && Decodable(values[1..]) {
      forall i | 0 <= i < |values| ensures Unescape(values[i]).Some? {
        if i > 0 { assert values[1..][i - 1] == values[i]; }
      }
    }
  }

  lemma {:induction false} DecodeRejectsEmpty(parts: seq<string>, i: nat)
    requires i < |parts| && parts[i] == ""
    ensures DecodeItems(parts).Err?
  {
    if i > 0 { DecodeRejectsEmpty(parts[1..], i - 1); }
  }

  /** A joined list of tokens is its own trimmed form and splits back into the tokens. */
  lemma EncodedListSplits(values: seq<string>)
    requires AllBytes(values)
    requires values != []
    ensures Trim(EncodeList(values)) == EncodeList(values)
    ensures Split(EncodeList(values), ',') == EncodeAll(values)
  {
    var es := EncodeAll(values);
    forall i | 0 <= i < |es| ensures ',' !in es[i] && forall c :: c in es[i] ==> !IsSpace(c) {
      EncodedIsToken(values[i]);
      TokenIsPlain(es[i]);
    }
    SplitJoin(es, ',');
    var h := Join(es, ',');
    if h != "" {
      NoSpaceInJoin(es, h[0]);
      NoSpaceInJoin(es, h[|h| - 1]);
    }
    TrimFixed(h);
  }

  lemma {:induction false} NoSpaceInJoin(parts: seq<string>, c: char)
    requires forall i :: 0 <= i < |parts| ==> forall d :: d in parts[i] ==> !IsSpace(d)
    requires c in Join(parts, ',')
    ensures !IsSpace(c)
  {
    JoinChars(parts, ',', c);
  }

  /** What a list of non-empty names is read as: the names decoded, or an error if one of them cannot be. */
  lemma ListArrives(values: seq<string>)
    requires AllBytes(values) && forall i :: 0 <= i < |values| ==> values[i] != ""
    ensures ParseList(EncodeList(values)) == if Decodable(values) then Ok(DecodedAll(values)) else Err("invalid URL escape")
    ensures values != [] ==> EncodeList(values) != ""
  {
    if values != [] {
      EncodedListSplits(values);
      DecodeEncoded(values);
      assert values[0] in values;
      EncodedIsToken(values[0]);
      assert EncodeAll(values)[0] != "";
    }
  }

  /** Decoding leaves exactly the names without `%` as they are. */
  lemma DecodedIsSameIff(values: seq<string>)
    ensures Decodable(values) && DecodedAll(values) == values <==> forall i :: 0 <= i < |values| ==> '%' !in values[i]
  {
    hide Unescape;
    forall i | 0 <= i < |values| ensures Unescape(values[i]) == Some(values[i]) <==> '%' !in values[i] {
      DecodesToItselfIff(values[i]);
    }
    if Decodable(values) {
      assert DecodedAll(values) == values <==> forall i :: 0 <= i < |values| ==> DecodedAll(values)[i] == values[i];
    }
  }

  /**
   * `parseHeaderList` undoes `encodeHeaderList` if and only if every name is
   * non-empty and free of `%`.
   */
  lemma ListRoundTripIff(values: seq<string>)
    requires AllBytes(values)
    ensures ParseList(EncodeList(values)) == Ok(values)
            <==> forall i :: 0 <= i < |values| ==> values[i] != "" && '%' !in values[i]
  {
    hide Encode, Unescape, Trim;
    if i :| 0 <= i < |values| && values[i] == "" {
      EncodedListSplits(values);
      EncodedIsToken(values[i]);
      DecodeRejectsEmpty(EncodeAll(values), i);
    } else {
      ListArrives(values);
      DecodedIsSameIff(values);
    }
  }
}
