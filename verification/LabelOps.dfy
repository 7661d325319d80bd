/**
 * Label operations on the wire: `<index>=<value>` parts joined by commas
 * (record_batch.go: formatLabelValue and the printing in buildLabelDelta;
 * batch/v2.go: parseLabelDeltaOps, resolveLabelName, applyLabelDelta).
 */
module LabelOps {
  import opened Text
  import opened Decimal

  /** The encoder's operation: set the label with this table index, or remove it. */
  datatype IndexOp = IndexOp(idx: nat, value: Option<string>)

  /** The decoder's operation on a label name. */
  datatype NameOp = NameOp(key: string, value: Option<string>)

  type Labels = map<string, string>

  // ---- printing -----------------------------------------------------------------

  /** Printable ASCII that Go's `%q` leaves as it is. */
  predicate IsPlain(c: char) {
    ' ' <= c <= '~' && c != '"' && c != '\\'
  }

  function LowerHex(d: nat): char
    requires d < 16
  {
    if d < 10 then ('0' as int + d) as char else ('a' as int + d - 10) as char
  }

  /** One ASCII byte as `%q` writes it. */
  function EscapeChar(c: char): string
    requires c as int < 128
  {
    if IsPlain(c) then [c]
    else if c == '"' || c == '\\' then ['\\', c]
    else if c as int == 7 then ['\\', 'a']
    else if c as int == 8 then ['\\', 'b']
    else if c as int == 9 then ['\\', 't']
    else if c as int == 10 then ['\\', 'n']
    else if c as int == 11 then ['\\', 'v']
    else if c as int == 12 then ['\\', 'f']
    else if c as int == 13 then ['\\', 'r']
    else ['\\', 'x', LowerHex(c as int / 16), LowerHex(c as int % 16)]
  }

  function Escape(s: string): string
    requires IsAscii(s)
  {
    if s == "" then "" else EscapeChar(s[0]) + Escape(s[1..])
  }

  function Quote(s: string): string
    requires IsAscii(s)
  {
    ['"'] + Escape(s) + ['"']
  }

  function FormatLabelValue(value: string): string
    requires IsAscii(value)
  {
    if ',' in value then Quote(value) else value
  }

  /** The values that the printed form can carry. */
  predicate GoodValue(value: string) {
    if ',' in value then forall i :: 0 <= i < |value| ==> IsPlain(value[i])
    else value == "" || value[0] != '"'
  }

  /** The text that arrives for a value: quoting adds escapes that no reader takes away again. */
  function Carried(value: string): string {
    if ',' in value && IsAscii(value) then Escape(value) else value
  }

  /** The values whose printed form has a clear end. */
  predicate SafeValue(value: string) {
    if ',' in value then '"' !in value else value == "" || value[0] != '"'
  }

  predicate AsciiOp(op: IndexOp) {
    op.value.Some? ==> IsAscii(op.value.value)
  }

  predicate SafeOp(op: IndexOp) {
    op.value.Some? ==> SafeValue(op.value.value)
  }

  predicate GoodOp(op: IndexOp) {
    op.value.Some? ==> GoodValue(op.value.value)
  }

  function ValueText(op: IndexOp): string
    requires AsciiOp(op)
  {
    if op.value.None? then "" else FormatLabelValue(op.value.value)
  }

  function PrintOp(op: IndexOp): string
    requires AsciiOp(op)
  {
    FormatInt(op.idx) + ['='] + ValueText(op)
  }

  predicate AsciiOps(ops: seq<IndexOp>) {
    forall i :: 0 <= i < |ops| ==> AsciiOp(ops[i])
  }

  function PrintParts(ops: seq<IndexOp>): (parts: seq<string>)
    requires AsciiOps(ops)
    ensures |parts| == |ops|
    ensures forall i :: 0 <= i < |ops| ==> parts[i] == PrintOp(ops[i])
  {
    seq(|ops|, i requires 0 <= i < |ops| => PrintOp(ops[i]))
  }

  function PrintOps(ops: seq<IndexOp>): string
    requires AsciiOps(ops)
  {
    Join(PrintParts(ops), ',')
  }

  // ---- parsing ------------------------------------------------------------------

  /** resolveLabelName. */
  function ResolveLabelName(raw: string, labelNames: seq<string>): Result<string> {
    if labelNames != [] && ParseInt(raw).Some? then
      var idx := ParseInt(raw).value;
      if idx < 0 || idx >= |labelNames| || labelNames[idx] == "" then Err("label index is out of range")
      else Ok(labelNames[idx])
    else if raw != "" && raw[0] == '@' then Err("label names must not start with '@'")
    else Ok(raw)
  }

  /** The next operation after a closing quote. */
  function AfterQuote(suffix: string): (next: string)
    ensures |next| <= |suffix|
  {
    var next := Trim(suffix);
    if next != "" && next[0] == ',' then Trim(next[1..]) else next
  }

  /** The trimmed value after `=` and the trimmed text that follows it. */
  function SplitValue(valuePart: string): (r: Option<(string, string)>)
    ensures r.Some? ==> |r.value.1| <= |valuePart|
  {
    if valuePart != "" && valuePart[0] == '"' then
      var quoted := valuePart[1..];
      var endQuote := Index(quoted, '"');
      if endQuote == -1 then None
      else
        Some((Trim(quoted[..endQuote]), AfterQuote(quoted[endQuote + 1..])))
    else
      var comma := Index(valuePart, ',');
      if comma == -1 then Some((Trim(valuePart), ""))
      else Some((Trim(valuePart[..comma]), Trim(valuePart[comma + 1..])))
  }

  function ValueOrRemoval(text: string): Option<string> {
    if text == "" then None else Some(text)
  }

  function ParseOps(rest: string, labelNames: seq<string>): Result<seq<NameOp>>
    decreases |rest|
  {
    if rest == "" then Ok([])
    else
      var eq := Index(rest, '=');
      if eq == -1 then Err("invalid batched header")
      else
        var key := ResolveLabelName(Trim(rest[..eq]), labelNames);
        if key.Err? then Err(key.error)
        else
          var split := SplitValue(rest[eq + 1..]);
          if split.None? then Err("invalid batched header")
          else
            Prepend1(NameOp(key.value, ValueOrRemoval(split.value.0)), ParseOps(split.value.1, labelNames))
  }

  function Prepend1(op: NameOp, rest: Result<seq<NameOp>>): Result<seq<NameOp>> {
    if rest.Err? then rest else Ok([op] + rest.value)
  }

  /** parseLabelDeltaOps: the loop shortens `rest` until nothing is left. */
  method ParseLabelDeltaOps(rawLabels: string, labelNames: seq<string>) returns (r: Result<seq<NameOp>>)
    ensures r == ParseOps(Trim(rawLabels), labelNames)
  {
    var ops: seq<NameOp> := [];
    var rest := Trim(rawLabels);
    while rest != ""
      invariant Prepend(ops, ParseOps(rest, labelNames)) == ParseOps(Trim(rawLabels), labelNames)
      decreases |rest|
    {
      var eq := Index(rest, '=');
      if eq == -1 {
        return Err("invalid batched header");
      }
      var key := ResolveLabelName(Trim(rest[..eq]), labelNames);
      if key.Err? {
        return Err(key.error);
      }
      var split := SplitValue(rest[eq + 1..]);
      if split.None? {
        return Err("invalid batched header");
      }
      var op := NameOp(key.value, ValueOrRemoval(split.value.0));
      PrependSnoc(ops, op, ParseOps(split.value.1, labelNames));
      ops := ops + [op];
      rest := split.value.1;
    }
    assert ops + [] == ops;
    r := Ok(ops);
  }

  lemma PrependSnoc(ops: seq<NameOp>, op: NameOp, rest: Result<seq<NameOp>>)
    ensures Prepend(ops + [op], rest) == Prepend(ops, Prepend1(op, rest))
  {
    if rest.Ok? {
      assert ops + [op] + rest.value == ops + ([op] + rest.value);
    }
  }

  // ---- applying -----------------------------------------------------------------

  function ApplyOp(labels: Labels, op: NameOp): Labels {
    if op.value.None? then labels - {op.key} else labels[op.key := op.value.value]
  }

  function ApplyOps(labels: Labels, ops: seq<NameOp>): Labels
    decreases |ops|
  {
    if ops == [] then labels else ApplyOps(ApplyOp(labels, ops[0]), ops[1..])
  }

  function ApplyDelta(rawLabels: string, base: Labels, labelNames: seq<string>): Result<Labels> {
    var ops := ParseOps(Trim(rawLabels), labelNames);
    if ops.Err? then Err(ops.error) else Ok(ApplyOps(base, ops.value))
  }

  /** applyLabelDelta. */
  method ApplyLabelDelta(rawLabels: string, base: Labels, labelNames: seq<string>) returns (r: Result<Labels>)
    ensures r == ApplyDelta(rawLabels, base, labelNames)
  {
    var labels := base;
    var ops := ParseLabelDeltaOps(rawLabels, labelNames);
    if ops.Err? {
      return Err(ops.error);
    }
    assert ops.value[0..] == ops.value;
    for i := 0 to |ops.value|
      invariant ApplyOps(labels, ops.value[i..]) == ApplyOps(base, ops.value)
    {
      assert ops.value[i..][1..] == ops.value[i + 1..];
      var op := ops.value[i];
      if op.value.None? {
        labels := labels - {op.key};
      } else {
        labels := labels[op.key := op.value.value];
      }
    }
    r := Ok(labels);
  }

  ghost predicate DistinctKeys(ops: seq<NameOp>) {
    forall i, j :: 0 <= i < j < |ops| ==> ops[i].key != ops[j].key
  }

  ghost predicate HasKey(ops: seq<NameOp>, key: string) {
    exists i :: 0 <= i < |ops| && ops[i].key == key
  }

  /** A name that no operation mentions keeps what it had. */
  lemma {:induction false} ApplyUntouched(labels: Labels, ops: seq<NameOp>, key: string)
    requires !HasKey(ops, key)
    ensures key in ApplyOps(labels, ops) <==> key in labels
    ensures key in labels ==> ApplyOps(labels, ops)[key] == labels[key]
    decreases |ops|
  {
    if ops != [] {
      assert ops[0].key != key;
      forall i | 0 <= i < |ops[1..]| ensures ops[1..][i].key != key {
        assert ops[1..][i] == ops[i + 1];
      }
      ApplyUntouched(ApplyOp(labels, ops[0]), ops[1..], key);
    }
  }

  /** With distinct names the effect on one name is that of its own operation, wherever it stands. */
  lemma {:induction false} ApplyTouched(labels: Labels, ops: seq<NameOp>, i: nat)
    requires DistinctKeys(ops) && i < |ops|
    ensures ops[i].key in ApplyOps(labels, ops) <==> ops[i].value.Some?
    ensures ops[i].value.Some? ==> ApplyOps(labels, ops)[ops[i].key] == ops[i].value.value
    decreases |ops|
  {
    if i > 0 {
      ApplyTouched(ApplyOp(labels, ops[0]), ops[1..], i - 1);
    } else {
      assert !HasKey(ops[1..], ops[0].key);
      ApplyUntouched(ApplyOp(labels, ops[0]), ops[1..], ops[0].key);
    }
  }

  // ---- the printer and the parser are inverse ---------------------------------------

  function Norm(value: string): Option<string> {
    ValueOrRemoval(Trim(value))
  }

  /** What the decoder should read for an encoder operation. */
  function Denote(op: IndexOp, names: seq<string>): NameOp
    requires op.idx < |names|
  {
    NameOp(names[op.idx], if op.value.None? then None else Norm(op.value.value))
  }

  predicate InTable(ops: seq<IndexOp>, names: seq<string>) {
    |names| <= MAX_INT64 && forall i :: 0 <= i < |ops| ==> ops[i].idx < |names| && names[ops[i].idx] != ""
  }

  function DenoteAll(ops: seq<IndexOp>, names: seq<string>): (ns: seq<NameOp>)
    requires InTable(ops, names)
    ensures |ns| == |ops|
    ensures forall i :: 0 <= i < |ops| ==> ns[i] == Denote(ops[i], names)
  {
    seq(|ops|, i requires 0 <= i < |ops| => Denote(ops[i], names))
  }

  predicate AllGood(ops: seq<IndexOp>) {
    forall i :: 0 <= i < |ops| ==> GoodOp(ops[i])
  }

  lemma {:induction false} EscapeIsIdentity(v: string)
    requires IsAscii(v) && forall i :: 0 <= i < |v| ==> IsPlain(v[i])
    ensures Escape(v) == v
  {
    if v != "" {
      EscapeIsIdentity(v[1..]);
      assert v == [v[0]] + v[1..];
    }
  }

  /** The characters that have a short escape, and the letters that stand for them. */
  const ESCAPED := "\"\\" + [7 as char, 8 as char, 9 as char, 10 as char, 11 as char, 12 as char, 13 as char]
  const LETTERS := "\"\\abtnvfr"

  /** The escapes of a Go string literal: a letter where there is one, two hexadecimal digits for other unprintable bytes. */
  lemma EscapeByTable(c: char)
    requires c as int < 128
    ensures |ESCAPED| == |LETTERS| == 9
    ensures forall k :: 0 <= k < |ESCAPED| && c == ESCAPED[k] ==> EscapeChar(c) == ['\\', LETTERS[k]]
    ensures c !in ESCAPED && 32 <= c as int <= 126 ==> EscapeChar(c) == [c]
    ensures c !in ESCAPED && !(32 <= c as int <= 126) ==>
              EscapeChar(c) == "\\x" + ["0123456789abcdef"[c as int / 16], "0123456789abcdef"[c as int % 16]]
  {
    var e := ESCAPED;
    assert e[0] == '"' && e[1] == '\\' && forall k :: 2 <= k < 9 ==> e[k] as int == k + 5;
    if c !in e {
      assert c != e[0] && c != e[1] && c != e[2] && c != e[3] && c != e[4] && c != e[5] && c != e[6] && c != e[7] && c != e[8];
      LowerHexIs(c as int / 16);
      LowerHexIs(c as int % 16);
    }
  }

  lemma LowerHexIs(d: nat)
    requires d < 16
    ensures LowerHex(d) == "0123456789abcdef"[d]
  {}

  /** Escaping goes character by character. */
  lemma {:induction false} EscapeConcat(a: string, b: string)
    requires IsAscii(a) && IsAscii(b) && IsAscii(a + b)
    ensures Escape(a + b) == Escape(a) + Escape(b)
  {
    if a == "" {
      assert a + b == b;
    } else {
      assert (a + b)[1..] == a[1..] + b;
      EscapeConcat(a[1..], b);
    }
  }

  /** Escaping adds backslashes and never takes one away. */
  lemma {:induction false} EscapeAddsBackslashes(v: string)
    requires IsAscii(v) && '"' !in v
    ensures '"' !in Escape(v)
    ensures Count(Escape(v), '\\') >= Count(v, '\\')
    ensures (exists i :: 0 <= i < |v| && !IsPlain(v[i])) ==> Count(Escape(v), '\\') > Count(v, '\\')
  {
    if v != "" {
      assert v == [v[0]] + v[1..];
      assert v[0] != '"';
      EscapeAddsBackslashes(v[1..]);
      CountConcat(EscapeChar(v[0]), Escape(v[1..]), '\\');
      EscapeCharBackslash(v[0]);
      if i :| 0 <= i < |v| && !IsPlain(v[i]) {
        assert i == 0 || v[1..][i - 1] == v[i];
      }
    }
  }

  lemma EscapeCharBackslash(c: char)
    requires c as int < 128 && c != '"'
    ensures '"' !in EscapeChar(c)
    ensures IsPlain(c) ==> Count(EscapeChar(c), '\\') == 0 && c != '\\'
    ensures c == '\\' ==> Count(EscapeChar(c), '\\') == 2
    ensures !IsPlain(c) && c != '\\' ==> Count(EscapeChar(c), '\\') >= 1
  {
    var e := EscapeChar(c);
    if c == '\\' {
      assert e[1..] == ['\\'] && e[1..][1..] == "";
      assert Count(e[1..], '\\') == 1;
    }
  }

  /** The text of a value, as it stands before the separator or the end of the list. */
  predicate ValueStands(text: string, valuePart: string, next: string) {
    || (next == "" && valuePart == TrimRight(text))
    || (next != "" && Trim(next) == next && valuePart == text + [','] + next)
  }

  lemma QuotedSplits(body: string, suffix: string)
    requires '"' !in body
    ensures SplitValue(['"'] + body + ['"'] + suffix) == Some((Trim(body), AfterQuote(suffix)))
  {
    var valuePart := ['"'] + body + ['"'] + suffix;
    var quoted := valuePart[1..];
    assert quoted == body + ['"'] + suffix;
    IndexAfter(body, '"', suffix);
    assert quoted[..|body|] == body;
    assert quoted[|body| + 1..] == suffix;
  }

  lemma AfterQuoteComma(next: string)
    requires next != "" && Trim(next) == next
    ensures AfterQuote([','] + next) == next
  {
    var suffix := [','] + next;
    TrimFixed(suffix);
    assert suffix[1..] == next;
  }

  lemma {:induction false} PlainLastSplits(v: string)
    requires ',' !in v && (v == "" || v[0] != '"')
    ensures SplitValue(TrimRight(v)) == Some((Trim(v), ""))
  {
    TrimRightChars(v, ',');
    TrimRightPrefix(v);
    TrimAfterTrimRight(v);
  }

  lemma PlainMoreSplits(v: string, next: string)
    requires ',' !in v && (v == "" || v[0] != '"')
    ensures SplitValue(v + [','] + next) == Some((Trim(v), Trim(next)))
  {
    var valuePart := v + [','] + next;
    IndexAfter(v, ',', next);
    assert valuePart[..|v|] == v && valuePart[|v| + 1..] == next;
  }

  /** Quoted text ends with a quote, so trimming leaves it alone. */
  lemma {:induction false} QuotedStands(v: string, valuePart: string, next: string)
    requires IsAscii(v) && ',' in v
    requires ValueStands(FormatLabelValue(v), valuePart, next)
    ensures valuePart == ['"'] + Escape(v) + ['"'] + (if next == "" then "" else [','] + next)
  {
    TrimVisibleEnd(Quote(v));
    if next == "" {
      assert Quote(v) == Quote(v) + "";
    } else {
      assert Quote(v) + [','] + next == Quote(v) + ([','] + next);
    }
  }

  lemma SafeValueSplits(v: string, valuePart: string, next: string)
    requires IsAscii(v) && SafeValue(v)
    requires ValueStands(FormatLabelValue(v), valuePart, next)
    ensures SplitValue(valuePart) == Some((Trim(Carried(v)), next))
  {
    if ',' in v {
      EscapeAddsBackslashes(v);
      QuotedStands(v, valuePart, next);
      QuotedSplits(Escape(v), if next == "" then "" else [','] + next);
      if next != "" {
        AfterQuoteComma(next);
      }
    } else if next == "" {
      PlainLastSplits(v);
    } else {
      PlainMoreSplits(v, next);
    }
  }

  /** The good values are the safe ones that arrive as they are; trimming does not hide the difference. */
  lemma GoodIsSafeAndUnchanged(v: string)
    requires IsAscii(v)
    ensures GoodValue(v) <==> SafeValue(v) && Carried(v) == v
    ensures GoodValue(v) <==> SafeValue(v) && Trim(Carried(v)) == Trim(v)
  {
    if GoodValue(v) {
      if ',' in v { EscapeIsIdentity(v); }
    } else if SafeValue(v) {
      EscapeAddsBackslashes(v);
      CountTrim(Escape(v), '\\');
      CountTrim(v, '\\');
    }
  }

  lemma GoodValueSplits(v: string, valuePart: string, next: string)
    requires IsAscii(v) && GoodValue(v)
    requires ValueStands(FormatLabelValue(v), valuePart, next)
    ensures SplitValue(valuePart) == Some((Trim(v), next))
  {
    GoodIsSafeAndUnchanged(v);
    SafeValueSplits(v, valuePart, next);
  }

  /** A value outside the good ones is read as something else, or not at all. */
  lemma BadValueMisread(v: string, valuePart: string, next: string)
    requires IsAscii(v) && !GoodValue(v)
    requires ValueStands(FormatLabelValue(v), valuePart, next)
    ensures SplitValue(valuePart).None? || ValueOrRemoval(SplitValue(valuePart).value.0) != Norm(v)
  {
    if '"' in v {
      VisibleInTrim(v, '"');
      StartsWithQuote(v, valuePart, next);
      var quoted := valuePart[1..];
      var endQuote := Index(quoted, '"');
      if endQuote != -1 {
        TrimChars(quoted[..endQuote], '"');
      }
    } else {
      QuotedStands(v, valuePart, next);
      EscapeAddsBackslashes(v);
      QuotedSplits(Escape(v), if next == "" then "" else [','] + next);
      CountTrim(Escape(v), '\\');
      CountTrim(v, '\\');
      VisibleInTrim(v, ',');
    }
  }

  lemma StartsWithQuote(v: string, valuePart: string, next: string)
    requires IsAscii(v) && !GoodValue(v)
    requires ValueStands(FormatLabelValue(v), valuePart, next)
    ensures valuePart != "" && valuePart[0] == '"'
  {
    TrimVisibleStart(FormatLabelValue(v));
  }

  lemma {:induction false} PrintedLast(d: string, f: string)
    requires d != "" && !IsSpace(d[0])
    ensures Trim(d + ['='] + f) == d + ['='] + TrimRight(f)
  {
    TrimRightConcat(d + ['='], f);
    TrimVisibleEnd(d + ['=']);
    TrimVisibleStart(d + ['='] + f);
  }

  lemma PrintedMore(d: string, f: string, tail: string)
    requires d != "" && !IsSpace(d[0]) && tail != "" && !IsSpace(tail[0])
    ensures Trim(d + ['='] + f + [','] + tail) == d + ['='] + (f + [','] + Trim(tail))
  {
    var start := d + ['='] + f + [','];
    TrimRightConcat(start, tail);
    TrimVisibleStart(tail);
    TrimVisibleStart(start + tail);
    assert start + Trim(tail) == d + ['='] + (f + [','] + Trim(tail));
  }

  /** What stands after the first `=` of the trimmed list. */
  ghost function FirstValuePart(ops: seq<IndexOp>): string
    requires AsciiOps(ops) && ops != []
  {
    if |ops| == 1 then TrimRight(ValueText(ops[0]))
    else ValueText(ops[0]) + [','] + Trim(PrintOps(ops[1..]))
  }

  ghost function NextText(ops: seq<IndexOp>): string
    requires AsciiOps(ops) && ops != []
  {
    if |ops| == 1 then "" else Trim(PrintOps(ops[1..]))
  }

  /** The trimmed list starts with the first index; the rest of it is the trimmed tail. */
  lemma PrintedShape(ops: seq<IndexOp>)
    requires AsciiOps(ops) && ops != []
    ensures Trim(PrintOps(ops)) == FormatInt(ops[0].idx) + ['='] + FirstValuePart(ops)
    ensures ValueStands(ValueText(ops[0]), FirstValuePart(ops), NextText(ops))
  {
    var d, f := FormatInt(ops[0].idx), ValueText(ops[0]);
    FormatChars(ops[0].idx);
    if |ops| == 1 {
      PrintedLast(d, f);
    } else {
      var tail := PrintOps(ops[1..]);
      assert PrintParts(ops)[1..] == PrintParts(ops[1..]);
      PrintedStart(ops[1..]);
      PrintedMore(d, f, tail);
      TrimVisibleStart(tail);
      TrimTwice(tail);
    }
  }

  lemma PrintedStart(ops: seq<IndexOp>)
    requires AsciiOps(ops) && ops != []
    ensures PrintOps(ops) != "" && IsDigit(PrintOps(ops)[0])
  {
    FormatChars(ops[0].idx);
    assert PrintParts(ops)[0] == PrintOp(ops[0]);
    assert FormatInt(ops[0].idx)[0] in FormatInt(ops[0].idx);
  }

  /** Parsing the first printed operation: its name is resolved and its value is split off. */
  lemma {:induction false} ParseFirst(ops: seq<IndexOp>, names: seq<string>, valuePart: string)
    requires ops != [] && InTable(ops, names)
    ensures var split := SplitValue(valuePart);
            ParseOps(FormatInt(ops[0].idx) + ['='] + valuePart, names)
            == if split.None? then Err("invalid batched header")
               else Prepend1(NameOp(names[ops[0].idx], ValueOrRemoval(split.value.0)), ParseOps(split.value.1, names))
  {
    var d := FormatInt(ops[0].idx);
    var s := d + ['='] + valuePart;
    FormatChars(ops[0].idx);
    FormatParse(ops[0].idx);
    assert '=' !in d;
    IndexAfter(d, '=', valuePart);
    assert s[..|d|] == d && s[|d| + 1..] == valuePart;
  }

  lemma Prepend1Equals(op: NameOp, rest: Result<seq<NameOp>>, expected: seq<NameOp>)
    requires expected != []
    ensures Prepend1(op, rest) == Ok(expected) <==> op == expected[0] && rest == Ok(expected[1..])
  {
    if rest.Ok? {
      assert ([op] + rest.value)[1..] == rest.value;
      assert expected == [expected[0]] + expected[1..];
    }
  }

  function ValueOf(op: IndexOp): string {
    if op.value.None? then "" else op.value.value
  }

  /** A good first operation parses to itself, and the rest of the list is left. */
  lemma {:induction false} GoodFirst(ops: seq<IndexOp>, names: seq<string>)
    requires AsciiOps(ops) && ops != [] && InTable(ops, names) && GoodOp(ops[0])
    ensures ParseOps(Trim(PrintOps(ops)), names)
            == Prepend1(Denote(ops[0], names), ParseOps(Trim(PrintOps(ops[1..])), names))
  {
    hide ParseOps, PrintOps, FormatLabelValue, SplitValue, Trim;
    PrintedShape(ops);
    ParseFirst(ops, names, FirstValuePart(ops));
    NoValueIsGood();
    GoodValueSplits(ValueOf(ops[0]), FirstValuePart(ops), NextText(ops));
    NextIsTail(ops, names);
  }

  lemma NoValueIsGood()
    ensures GoodValue("") && FormatLabelValue("") == "" && Trim("") == "" && Carried("") == ""
  {}

  /** Any other first operation spoils the result, whatever follows. */
  lemma {:induction false} BadFirst(ops: seq<IndexOp>, names: seq<string>, expected: seq<NameOp>)
    requires AsciiOps(ops) && ops != [] && InTable(ops, names) && !GoodOp(ops[0])
    requires expected != [] && expected[0] == Denote(ops[0], names)
    ensures ParseOps(Trim(PrintOps(ops)), names) != Ok(expected)
  {
    hide ParseOps, PrintOps, FormatLabelValue, SplitValue, Trim, GoodValue;
    PrintedShape(ops);
    var valuePart := FirstValuePart(ops);
    ParseFirst(ops, names, valuePart);
    BadValueMisread(ops[0].value.value, valuePart, NextText(ops));
    var split := SplitValue(valuePart);
    if split.Some? {
      Prepend1Equals(NameOp(names[ops[0].idx], ValueOrRemoval(split.value.0)), ParseOps(split.value.1, names), expected);
    }
  }

  lemma {:induction false} NoOpsRoundTrip(names: seq<string>)
    requires InTable([], names)
    ensures ParseOps(Trim(PrintOps([])), names) == Ok(DenoteAll([], names)) && AllGood([])
  {}

  /**
   * Printing operations and parsing them back gives the same operations, in
   * order, with values trimmed and blank values read as removals, if and only
   * if every value is good.
   */
  lemma {:induction false} OpsRoundTripIff(ops: seq<IndexOp>, names: seq<string>)
    requires AsciiOps(ops) && InTable(ops, names)
    ensures ParseOps(Trim(PrintOps(ops)), names) == Ok(DenoteAll(ops, names)) <==> AllGood(ops)
  {
    hide ParseOps, PrintOps, Trim, GoodOp, AllGood, Prepend1, Denote;
    var expected := DenoteAll(ops, names);
    if ops == [] {
      NoOpsRoundTrip(names);
    } else {
      OpsRoundTripIff(ops[1..], names);
      assert expected[1..] == DenoteAll(ops[1..], names);
      AllGoodCons(ops);
      if GoodOp(ops[0]) {
        GoodFirst(ops, names);
        Prepend1Equals(expected[0], ParseOps(Trim(PrintOps(ops[1..])), names), expected);
      } else {
        BadFirst(ops, names, expected);
      }
    }
  }

  /** The decoders never unescape: a value `a,\` is set to `a,\\`. */
  lemma {:induction false} EscapedValueExample()
    ensures var op := IndexOp(0, Some("a,\\"));
            && AsciiOp(op) && !GoodOp(op)
            && ParseOps(Trim(PrintOps([op])), ["name"]) == Ok([NameOp("name", Some("a,\\\\"))])
  {
    var v, escaped := "a,\\", "a,\\\\";
    var op := IndexOp(0, Some(v));
    assert v[0] == 'a' && v[1] == ',' && v[2] == '\\' && v[1..] == ",\\" && v[1..][1..] == "\\" && !IsPlain(v[2]);
    assert Escape("\\") == "\\\\" && Escape(",\\") == ",\\\\" && Escape(v) == escaped;
    assert escaped[0] == 'a' && escaped[|escaped| - 1] == '\\';
    TrimFixed(escaped);
    hide ParseOps, PrintOps, Trim, Escape, GoodOp;
    SafeOpsArrive([op], ["name"]);
    assert ArrivedOps([op], ["name"]) == [NameOp("name", Some(escaped))];
  }

  // ---- what arrives of any safe value -------------------------------------------------

  /** The value the decoder gets for a safe value: the carried text, trimmed, blank read as a removal. */
  function ArrivedValue(value: string): Option<string> {
    ValueOrRemoval(Trim(Carried(value)))
  }

  function ArrivedOp(op: IndexOp, names: seq<string>): NameOp
    requires op.idx < |names|
  {
    NameOp(names[op.idx], if op.value.None? then None else ArrivedValue(op.value.value))
  }

  function ArrivedOps(ops: seq<IndexOp>, names: seq<string>): (ns: seq<NameOp>)
    requires InTable(ops, names)
    ensures |ns| == |ops|
    ensures forall i :: 0 <= i < |ops| ==> ns[i] == ArrivedOp(ops[i], names)
  {
    seq(|ops|, i requires 0 <= i < |ops| => ArrivedOp(ops[i], names))
  }

  lemma {:induction false} SafeFirst(ops: seq<IndexOp>, names: seq<string>)
    requires AsciiOps(ops) && ops != [] && InTable(ops, names) && SafeOp(ops[0])
    ensures ParseOps(Trim(PrintOps(ops)), names)
            == Prepend1(ArrivedOp(ops[0], names), ParseOps(Trim(PrintOps(ops[1..])), names))
  {
    hide ParseOps, PrintOps, FormatLabelValue, SplitValue, Trim, Carried;
    PrintedShape(ops);
    ParseFirst(ops, names, FirstValuePart(ops));
    NoValueIsGood();
    SafeValueSplits(ValueOf(ops[0]), FirstValuePart(ops), NextText(ops));
    NextIsTail(ops, names);
  }

  /** Operations with safe values parse to their own names, in order, with the carried values. */
  lemma {:induction false} SafeOpsArrive(ops: seq<IndexOp>, names: seq<string>)
    requires AsciiOps(ops) && InTable(ops, names) && forall i :: 0 <= i < |ops| ==> SafeOp(ops[i])
    ensures ParseOps(Trim(PrintOps(ops)), names) == Ok(ArrivedOps(ops, names))
  {
    var expected := ArrivedOps(ops, names);
    if ops == [] {
      assert expected == [];
    } else {
      hide ParseOps, PrintOps, Trim, SafeOp;
      SafeOpsArrive(ops[1..], names);
      assert expected[1..] == ArrivedOps(ops[1..], names);
      SafeFirst(ops, names);
      Prepend1Equals(expected[0], ParseOps(Trim(PrintOps(ops[1..])), names), expected);
    }
  }

  lemma AllGoodCons(ops: seq<IndexOp>)
    requires ops != []
    ensures AllGood(ops) <==> GoodOp(ops[0]) && AllGood(ops[1..])
  {
    assert ops == [ops[0]] + ops[1..];
  }

  lemma {:induction false} NextIsTail(ops: seq<IndexOp>, names: seq<string>)
    requires AsciiOps(ops) && ops != []
    ensures ParseOps(NextText(ops), names) == ParseOps(Trim(PrintOps(ops[1..])), names)
  {}
}
