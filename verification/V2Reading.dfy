/**
 * What a response of Batch Protocol v2 means, independent of the reader that
 * parses it (batch/v2.go: parseRecordHeader, readBatchedRecordsV2): for any
 * headers and any body that a server may send.
 */
module V2Reading {
  import opened Text
  import opened Decimal
  import opened HeaderList
  import opened Headers
  import opened LabelOps
  import opened Bodies
  import opened V2Decode
  import opened LabelGrammar
  import opened ListGrammar
  import Responses

  // ---- labels -------------------------------------------------------------------------------------

  /** The operation that decides about a label: the final one on its name. */
  ghost predicate DecidesLabel(ops: seq<NameOp>, i: int, key: string) {
    0 <= i < |ops| && ops[i].key == key && forall j :: i < j < |ops| ==> ops[j].key != key
  }

  /** The labels after the operations: each as the final operation on it says, or as before. */
  ghost predicate LabelsFollow(base: Labels, ops: seq<NameOp>, labels: Labels) {
    && (forall i, key :: DecidesLabel(ops, i, key) ==>
          (key in labels <==> ops[i].value.Some?) && (key in labels ==> labels[key] == ops[i].value.value))
    && (forall key :: !HasKey(ops, key) ==>
          (key in labels <==> key in base) && (key in labels ==> labels[key] == base[key]))
  }

  lemma {:induction false} FinalDecides(labels: Labels, ops: seq<NameOp>, i: nat, key: string)
    requires DecidesLabel(ops, i, key)
    ensures key in ApplyOps(labels, ops) <==> ops[i].value.Some?
    ensures ops[i].value.Some? ==> ApplyOps(labels, ops)[key] == ops[i].value.value
    decreases |ops|
  {
    if i > 0 {
      FinalDecides(ApplyOp(labels, ops[0]), ops[1..], i - 1, key);
    } else {
      assert !HasKey(ops[1..], key) by {
        forall j | 0 <= j < |ops[1..]| ensures ops[1..][j].key != key { assert ops[1..][j] == ops[j + 1]; }
      }
      ApplyUntouched(ApplyOp(labels, ops[0]), ops[1..], key);
    }
  }

  lemma {:induction false} SomeDecides(ops: seq<NameOp>, key: string, i: nat) returns (d: nat)
    requires i < |ops| && ops[i].key == key
    ensures DecidesLabel(ops, d, key)
    decreases |ops| - i
  {
    if j :| i < j < |ops| && ops[j].key == key {
      d := SomeDecides(ops, key, j);
    } else {
      d := i;
    }
  }

  /** Applying operations one after the other gives exactly the labels that follow. */
  lemma {:induction false} AppliedIff(base: Labels, ops: seq<NameOp>, labels: Labels)
    ensures labels == ApplyOps(base, ops) <==> LabelsFollow(base, ops, labels)
  {
    hide DecidesLabel, HasKey, ApplyOps;
    var applied := ApplyOps(base, ops);
    forall i, key | 0 <= i && DecidesLabel(ops, i, key)
      ensures i < |ops| && (key in applied <==> ops[i].value.Some?) && (key in applied ==> applied[key] == ops[i].value.value)
    {
      DecidesIndex(ops, i, key);
      FinalDecides(base, ops, i, key);
    }
    forall key | !HasKey(ops, key) ensures (key in applied <==> key in base) && (key in applied ==> applied[key] == base[key]) {
      ApplyUntouched(base, ops, key);
    }
    AllIndices(ops);
    assert LabelsFollow(base, ops, applied);
    if LabelsFollow(base, ops, labels) {
      forall key ensures (key in labels <==> key in applied) && (key in labels ==> labels[key] == applied[key]) {
        SameLabel(base, ops, labels, applied, key);
      }
      assert labels == applied;
    }
  }

  lemma DecidesIndex(ops: seq<NameOp>, i: int, key: string)
    requires DecidesLabel(ops, i, key)
    ensures 0 <= i < |ops|
  {}

  lemma AllIndices(ops: seq<NameOp>)
    ensures forall i, key :: DecidesLabel(ops, i, key) ==> 0 <= i < |ops|
  {}

  lemma SameLabel(base: Labels, ops: seq<NameOp>, a: Labels, b: Labels, key: string)
    requires LabelsFollow(base, ops, a) && LabelsFollow(base, ops, b)
    ensures (key in a <==> key in b) && (key in a ==> a[key] == b[key])
  {
    hide DecidesLabel;
    if HasKey(ops, key) {
      var i: int :| 0 <= i < |ops| && ops[i].key == key;
      var d := SomeDecides(ops, key, i);
      assert DecidesLabel(ops, d, key);
    }
  }

  // ---- one row ------------------------------------------------------------------------------------

  ghost predicate TypeIs(text: string, previous: Option<ParsedHeader>, contentType: string) {
    if !AllWhite(text) then ValueIs(text, Some(contentType))
    else if previous.Some? && previous.value.contentType != "" then contentType == previous.value.contentType
    else contentType == "application/octet-stream"
  }

  ghost predicate SizeIs(text: string, size: int) {
    WritesNumber(Trim(text), size)
  }

  ghost predicate TwoParts(raw: string, size: string, kind: string) {
    raw == size + "," + kind && ',' !in size && ',' !in kind
  }

  ghost predicate ThreeParts(raw: string, size: string, kind: string, list: string) {
    raw == size + "," + kind + "," + list && ',' !in size && ',' !in kind
  }

  /** A size alone repeats the type and the labels of the previous row. */
  ghost predicate Repeats(raw: string, previous: Option<ParsedHeader>, h: ParsedHeader) {
    && ',' !in raw && previous.Some? && SizeIs(raw, h.contentLength)
    && h.contentType == previous.value.contentType && h.labels == previous.value.labels
  }

  /** A second part is the type, unless it is blank. */
  ghost predicate Retypes(raw: string, size: string, kind: string, previous: Option<ParsedHeader>, h: ParsedHeader) {
    && TwoParts(raw, size, kind) && SizeIs(size, h.contentLength)
    && TypeIs(kind, previous, h.contentType) && h.labels == BaseLabels(previous)
  }

  /** Everything after a second comma is the list of label changes. */
  ghost predicate Relabels(raw: string, size: string, kind: string, list: string, previous: Option<ParsedHeader>,
                           table: seq<string>, h: ParsedHeader) {
    && ThreeParts(raw, size, kind, list) && SizeIs(size, h.contentLength)
    && TypeIs(kind, previous, h.contentType) && ListMeans(list, previous, table, h.labels)
  }

  /** What a row means after the previous row of its entry. */
  ghost predicate RowMeans(raw: string, previous: Option<ParsedHeader>, table: seq<string>, h: ParsedHeader) {
    || Repeats(raw, previous, h)
    || (exists size, kind :: Retypes(raw, size, kind, previous, h))
    || (exists size, kind, list :: Relabels(raw, size, kind, list, previous, table, h))
  }

  ghost predicate ListMeans(list: string, previous: Option<ParsedHeader>, table: seq<string>, labels: Labels) {
    exists ops :: Means(list, table, ops) && LabelsFollow(BaseLabels(previous), ops, labels)
  }

  lemma {:induction false} SizeIff(text: string, size: int)
    ensures ParseInt(Trim(text)) == Some(size) <==> SizeIs(text, size)
  {
    hide ParseInt, Trim, WritesNumber;
    ParsedNumber(Trim(text));
  }

  lemma {:induction false} TypeIff(text: string, previous: Option<ParsedHeader>, contentType: string)
    ensures TypeOf(text, previous) == contentType <==> TypeIs(text, previous, contentType)
  {
    TrimmedIs(text, Some(contentType));
    WhiteIsBlank(text);
    hide Trim, AllWhite, ValueIs;
  }

  lemma {:induction false} DeltaIff(list: string, previous: Option<ParsedHeader>, table: seq<string>, labels: Labels)
    ensures ApplyDelta(list, BaseLabels(previous), table) == Ok(labels) <==> ListMeans(list, previous, table, labels)
  {
    hide ParseOps, Trim, Means, LabelsFollow, ApplyOps, BaseLabels;
    var parsed, base := ParseOps(Trim(list), table), BaseLabels(previous);
    if parsed.Ok? {
      ParseIff(list, table, parsed.value);
      AppliedIff(base, parsed.value, labels);
    }
    if ops :| Means(list, table, ops) && LabelsFollow(base, ops, labels) {
      ParseIff(list, table, ops);
      AppliedIff(base, ops, labels);
    }
  }

  lemma {:induction false} AloneIff(raw: string, previous: Option<ParsedHeader>, table: seq<string>, h: ParsedHeader)
    requires ',' !in raw
    ensures HeaderOf(raw, previous, table) == Ok(h) <==> Repeats(raw, previous, h)
  {
    SizeIff(raw, h.contentLength);
    hide ParseInt, Trim, SizeIs, HeaderWithType;
  }

  lemma {:induction false} HeaderCuts(raw: string, size: string, rest: string, previous: Option<ParsedHeader>, table: seq<string>)
    requires raw == size + [','] + rest && ',' !in size
    ensures HeaderOf(raw, previous, table)
            == if ParseInt(Trim(size)).None? then Err("invalid content length")
               else HeaderWithType(ParseInt(Trim(size)).value, rest, previous, table)
  {
    hide ParseInt, Trim, HeaderWithType, Index;
    IndexAfter(size, ',', rest);
    assert raw[..|size|] == size && raw[|size| + 1..] == rest;
  }

  lemma {:induction false} TwoPartsIff(raw: string, size: string, kind: string, previous: Option<ParsedHeader>,
                                       table: seq<string>, h: ParsedHeader)
    requires TwoParts(raw, size, kind)
    ensures HeaderOf(raw, previous, table) == Ok(h) <==> Retypes(raw, size, kind, previous, h)
  {
    hide ParseInt, Trim, HeaderOf, Index, TypeOf, BaseLabels, TypeIs, SizeIs;
    assert raw == size + [','] + kind;
    HeaderCuts(raw, size, kind, previous, table);
    SizeIff(size, h.contentLength);
    TypeIff(kind, previous, h.contentType);
  }

  lemma {:induction false} ThreePartsIff(raw: string, size: string, kind: string, list: string, previous: Option<ParsedHeader>,
                                         table: seq<string>, h: ParsedHeader)
    requires ThreeParts(raw, size, kind, list)
    ensures HeaderOf(raw, previous, table) == Ok(h) <==> Relabels(raw, size, kind, list, previous, table, h)
  {
    hide ParseInt, Trim, HeaderOf, Index, TypeOf, BaseLabels, ApplyDelta, TypeIs, SizeIs, ListMeans;
    var rest := kind + [','] + list;
    assert raw == size + [','] + rest;
    HeaderCuts(raw, size, rest, previous, table);
    IndexAfter(kind, ',', list);
    assert rest[..|kind|] == kind && rest[|kind| + 1..] == list;
    SizeIff(size, h.contentLength);
    TypeIff(kind, previous, h.contentType);
    DeltaIff(list, previous, table, h.labels);
  }

  /** parseRecordHeader reads exactly the rows that mean something, and as what they mean. */
  lemma {:induction false} RowIff(raw: string, previous: Option<ParsedHeader>, table: seq<string>, h: ParsedHeader)
    ensures HeaderOf(raw, previous, table) == Ok(h) <==> RowMeans(raw, previous, table, h)
  {
    hide HeaderOf, Repeats, Retypes, Relabels, TwoParts, ThreeParts;
    if ',' !in raw {
      AloneIff(raw, previous, table, h);
    } else {
      var size, rest := SplitAtFirst(raw, ',');
      if ',' in rest {
        var kind, list := SplitAtFirst(rest, ',');
        JoinsThree(raw, size, kind, list);
        ThreePartsIff(raw, size, kind, list, previous, table, h);
      } else {
        JoinsTwo(raw, size, rest);
        TwoPartsIff(raw, size, rest, previous, table, h);
      }
    }
    OthersMean(raw, previous, table, h);
  }

  lemma {:induction false} OthersMean(raw: string, previous: Option<ParsedHeader>, table: seq<string>, h: ParsedHeader)
    ensures RowMeans(raw, previous, table, h) ==> HeaderOf(raw, previous, table) == Ok(h)
  {
    hide HeaderOf, SizeIs, TypeIs, ListMeans, TwoParts, ThreeParts;
    if Repeats(raw, previous, h) {
      AloneIff(raw, previous, table, h);
    }
    if size, kind :| Retypes(raw, size, kind, previous, h) {
      TwoPartsIff(raw, size, kind, previous, table, h);
    }
    if size, kind, list :| Relabels(raw, size, kind, list, previous, table, h) {
      ThreePartsIff(raw, size, kind, list, previous, table, h);
    }
  }

  lemma JoinsTwo(raw: string, size: string, kind: string)
    requires raw == size + [','] + kind && ',' !in size && ',' !in kind
    ensures TwoParts(raw, size, kind)
  {}

  lemma JoinsThree(raw: string, size: string, kind: string, list: string)
    requires raw == size + [','] + (kind + [','] + list) && ',' !in size && ',' !in kind
    ensures ThreeParts(raw, size, kind, list)
  {
    assert raw == size + "," + kind + "," + list;
  }

  // ---- all rows -----------------------------------------------------------------------------------

  /** The header of the latest of the first `n` records of an entry, if there is one. */
  ghost predicate LatestIs(hs: seq<RecordHeader>, parsed: seq<ParsedHeader>, n: nat, entry: int, latest: Option<ParsedHeader>)
    requires n <= |hs| && n <= |parsed|
  {
    if latest.Some? then exists j :: LatestAt(hs, n, entry, j) && latest.value == parsed[j]
    else forall j :: 0 <= j < n ==> hs[j].entryIndex != entry
  }

  ghost predicate LatestAt(hs: seq<RecordHeader>, n: nat, entry: int, j: int)
    requires n <= |hs|
  {
    0 <= j < n && hs[j].entryIndex == entry && forall k :: j < k < n ==> hs[k].entryIndex != entry
  }

  ghost predicate RecordMeans(hs: seq<RecordHeader>, parsed: seq<ParsedHeader>, entries: seq<string>, table: seq<string>, i: nat)
    requires i < |hs| && i < |parsed|
  {
    0 <= hs[i].entryIndex < |entries|
    && exists previous :: LatestIs(hs, parsed, i, hs[i].entryIndex, previous)
                          && RowMeans(hs[i].rawValue, previous, table, parsed[i])
  }

  /** Each row in the light of the rows before it. */
  ghost predicate RowsMean(hs: seq<RecordHeader>, parsed: seq<ParsedHeader>, entries: seq<string>, table: seq<string>, n: nat)
    requires n <= |hs|
  {
    |parsed| == n && forall i :: 0 <= i < n ==> RecordMeans(hs, parsed, entries, table, i)
  }

  lemma LatestIsOne(hs: seq<RecordHeader>, parsed: seq<ParsedHeader>, n: nat, entry: int, a: Option<ParsedHeader>,
                    b: Option<ParsedHeader>)
    requires n <= |hs| && n <= |parsed| && LatestIs(hs, parsed, n, entry, a) && LatestIs(hs, parsed, n, entry, b)
    ensures a == b
  {
    if a.Some? && b.Some? {
      var i: int :| LatestAt(hs, n, entry, i) && a.value == parsed[i];
      var j: int :| LatestAt(hs, n, entry, j) && b.value == parsed[j];
      assert i == j;
    }
  }

  lemma LatestOfPrefix(hs: seq<RecordHeader>, parsed: seq<ParsedHeader>, more: seq<ParsedHeader>, n: nat, entry: int,
                       latest: Option<ParsedHeader>)
    requires n <= |hs| && n <= |parsed| && parsed <= more
    ensures LatestIs(hs, parsed, n, entry, latest) <==> LatestIs(hs, more, n, entry, latest)
  {
    hide LatestAt;
    forall j | LatestAt(hs, n, entry, j) ensures 0 <= j < n && parsed[j] == more[j] { LatestIndex(hs, n, entry, j); }
  }

  lemma LatestIndex(hs: seq<RecordHeader>, n: nat, entry: int, j: int)
    requires n <= |hs| && LatestAt(hs, n, entry, j)
    ensures 0 <= j < n
  {}

  lemma MeansOfPrefix(hs: seq<RecordHeader>, parsed: seq<ParsedHeader>, more: seq<ParsedHeader>, entries: seq<string>,
                      table: seq<string>, i: nat)
    requires i < |hs| && i < |parsed| && parsed <= more
    ensures RecordMeans(hs, parsed, entries, table, i) <==> RecordMeans(hs, more, entries, table, i)
  {
    hide LatestIs, RowMeans;
    assert parsed[i] == more[i];
    forall previous
      ensures LatestIs(hs, parsed, i, hs[i].entryIndex, previous) <==> LatestIs(hs, more, i, hs[i].entryIndex, previous)
    {
      LatestOfPrefix(hs, parsed, more, i, hs[i].entryIndex, previous);
    }
  }

  lemma RowsSnoc(hs: seq<RecordHeader>, parsed: seq<ParsedHeader>, entries: seq<string>, table: seq<string>, n: nat)
    requires 0 < n <= |hs| && |parsed| == n
    ensures RowsMean(hs, parsed, entries, table, n) <==>
              RowsMean(hs, parsed[..n - 1], entries, table, n - 1) && RecordMeans(hs, parsed, entries, table, n - 1)
  {
    hide RecordMeans;
    var init, m := parsed[..n - 1], n - 1;
    forall i | 0 <= i < m ensures RecordMeans(hs, init, entries, table, i) <==> RecordMeans(hs, parsed, entries, table, i) {
      MeansOfPrefix(hs, init, parsed, entries, table, i);
    }
    if RowsMean(hs, init, entries, table, m) && RecordMeans(hs, parsed, entries, table, m) {
      forall i | 0 <= i < n ensures RecordMeans(hs, parsed, entries, table, i) {
        if i < m { assert RecordMeans(hs, init, entries, table, i); }
      }
    }
  }

  ghost predicate HoldsLatest(hs: seq<RecordHeader>, st: DecState, n: nat)
    requires n <= |hs| && n <= |st.parsed|
  {
    forall entry :: LatestIs(hs, st.parsed, n, entry, Known(st, entry))
  }

  function Known(st: DecState, entry: int): Option<ParsedHeader> {
    if entry in st.last then Some(st.last[entry]) else None
  }

  lemma {:induction false} StepHolds(hs: seq<RecordHeader>, st: DecState, n: nat, header: ParsedHeader)
    requires n < |hs| && n == |st.parsed| && HoldsLatest(hs, st, n)
    ensures HoldsLatest(hs, DecState(st.last[hs[n].entryIndex := header], st.parsed + [header]), n + 1)
  {
    var next := DecState(st.last[hs[n].entryIndex := header], st.parsed + [header]);
    forall entry ensures LatestIs(hs, next.parsed, n + 1, entry, Known(next, entry)) {
      LatestStep(hs, st.parsed, n, header, entry, Known(st, entry));
    }
  }

  lemma {:induction false} LatestStep(hs: seq<RecordHeader>, parsed: seq<ParsedHeader>, n: nat, header: ParsedHeader,
                                      entry: int, latest: Option<ParsedHeader>)
    requires n < |hs| && n == |parsed| && LatestIs(hs, parsed, n, entry, latest)
    ensures LatestIs(hs, parsed + [header], n + 1, entry, if entry == hs[n].entryIndex then Some(header) else latest)
  {
    var more := parsed + [header];
    if entry == hs[n].entryIndex {
      assert LatestAt(hs, n + 1, entry, n) && more[n] == header;
    } else if latest.Some? {
      var j :| LatestAt(hs, n, entry, j) && latest.value == parsed[j];
      assert LatestAt(hs, n + 1, entry, j) && more[j] == parsed[j];
    }
  }

  lemma {:induction false} ReplayHolds(hs: seq<RecordHeader>, entries: seq<string>, table: seq<string>, n: nat)
    requires n <= |hs| && DecRun(hs, entries, table, n).Ok?
    ensures |DecRun(hs, entries, table, n).value.parsed| == n
    ensures HoldsLatest(hs, DecRun(hs, entries, table, n).value, n)
  {
    hide HeaderOf, LatestIs;
    if n == 0 {
      NothingKnown(hs);
    } else {
      ReplayHolds(hs, entries, table, n - 1);
      var st := DecRun(hs, entries, table, n - 1).value;
      var header := HeaderOf(hs[n - 1].rawValue, Known(st, hs[n - 1].entryIndex), table);
      StepHolds(hs, st, n - 1, header.value);
    }
  }

  lemma NothingKnown(hs: seq<RecordHeader>)
    ensures HoldsLatest(hs, DecState(map[], []), 0)
  {}

  lemma {:induction false} StepIff(hs: seq<RecordHeader>, st: DecState, entries: seq<string>, table: seq<string>, n: nat,
                                   header: ParsedHeader)
    requires n < |hs| && n == |st.parsed| && HoldsLatest(hs, st, n)
    ensures DecStep(st, hs[n], entries, table).Ok? && DecStep(st, hs[n], entries, table).value.parsed == st.parsed + [header]
            <==> RecordMeans(hs, st.parsed + [header], entries, table, n)
  {
    hide HeaderOf, RowMeans, LatestIs;
    var h, more := hs[n], st.parsed + [header];
    assert more[n] == header;
    RowIff(h.rawValue, Known(st, h.entryIndex), table, header);
    LatestOfPrefix(hs, st.parsed, more, n, h.entryIndex, Known(st, h.entryIndex));
    assert LatestIs(hs, st.parsed, n, h.entryIndex, Known(st, h.entryIndex));
    if previous :| LatestIs(hs, more, n, h.entryIndex, previous) && RowMeans(h.rawValue, previous, table, header) {
      LatestIsOne(hs, more, n, h.entryIndex, previous, Known(st, h.entryIndex));
    }
    if HeaderOf(h.rawValue, Known(st, h.entryIndex), table).Ok? {
      LastAppended(st.parsed, header, HeaderOf(h.rawValue, Known(st, h.entryIndex), table).value);
    }
  }

  lemma LastAppended(parsed: seq<ParsedHeader>, a: ParsedHeader, b: ParsedHeader)
    ensures parsed + [a] == parsed + [b] <==> a == b
  {
    if a != b { assert (parsed + [a])[|parsed|] != (parsed + [b])[|parsed|]; }
  }

  /** The header loop succeeds exactly if every row means something, and then with what the rows mean. */
  lemma {:induction false} ReplayIff(hs: seq<RecordHeader>, entries: seq<string>, table: seq<string>, n: nat,
                                     parsed: seq<ParsedHeader>)
    requires n <= |hs|
    ensures DecRun(hs, entries, table, n).Ok? && DecRun(hs, entries, table, n).value.parsed == parsed
            <==> RowsMean(hs, parsed, entries, table, n)
  {
    hide DecStep, RecordMeans, HoldsLatest;
    if DecRun(hs, entries, table, n).Ok? { ReplayHolds(hs, entries, table, n); }
    if n > 0 && |parsed| == n {
      var init, header := parsed[..n - 1], parsed[n - 1];
      assert parsed == init + [header];
      ReplayIff(hs, entries, table, n - 1, init);
      RowsSnoc(hs, parsed, entries, table, n);
      var before := DecRun(hs, entries, table, n - 1);
      if before.Ok? {
        ReplayHolds(hs, entries, table, n - 1);
        StepIff(hs, before.value, entries, table, n - 1, header);
        StepExtends(before.value, hs[n - 1], entries, table);
      }
    }
  }

  lemma StepExtends(st: DecState, h: RecordHeader, entries: seq<string>, table: seq<string>)
    ensures DecStep(st, h, entries, table).Ok? ==>
              var parsed := DecStep(st, h, entries, table).value.parsed;
              |parsed| == |st.parsed| + 1 && parsed[..|st.parsed|] == st.parsed
  {
    hide HeaderOf;
  }

  // ---- the response -------------------------------------------------------------------------------

  const TWO_TO_THE_64 := 0x1_0000_0000_0000_0000

  function ContentsOf(views: seq<RecordView>): (parts: seq<bytes>)
    ensures |parts| == |views|
    ensures forall i :: 0 <= i < |views| ==> parts[i] == views[i].content
  {
    seq(|views|, i requires 0 <= i < |views| => views[i].content)
  }

  /** Put together the contents are the whole body, each but the final one of the size its row tells. */
  ghost predicate Divide(views: seq<RecordView>, body: bytes) {
    Concat(ContentsOf(views)) == body && forall i :: 0 <= i < |views| - 1 ==> |views[i].content| == views[i].size
  }

  ghost predicate Contain(views: seq<RecordView>, body: bytes, head: bool) {
    if head then forall i :: 0 <= i < |views| ==> views[i].content == [] else Divide(views, body)
  }

  ghost predicate ViewMeans(v: RecordView, h: RecordHeader, row: ParsedHeader, entries: seq<string>, startTS: int)
    requires 0 <= h.entryIndex < |entries|
  {
    && v.entry == entries[h.entryIndex] && InInt64(v.time) && v.time % TWO_TO_THE_64 == (startTS + h.delta) % TWO_TO_THE_64
    && v.size == row.contentLength && v.contentType == row.contentType && v.labels == row.labels
  }

  /** The records that rows and body stand for. */
  ghost predicate RecordsMean(views: seq<RecordView>, hs: seq<RecordHeader>, parsed: seq<ParsedHeader>, entries: seq<string>,
                              startTS: int, mark: string, body: bytes, head: bool)
    requires |hs| == |parsed| && forall i :: 0 <= i < |hs| ==> 0 <= hs[i].entryIndex < |entries|
  {
    && |views| == |hs| && (forall i :: 0 <= i < |hs| ==> ViewMeans(views[i], hs[i], parsed[i], entries, startTS))
    && Responses.Marked(views, mark) && Contain(views, body, head)
  }

  lemma WrapIff(n: int, w: int)
    ensures w == Wrap64(n) <==> InInt64(w) && w % TWO_TO_THE_64 == n % TWO_TO_THE_64
  {}

  lemma {:induction false} WindowsAlike(a: seq<nat>, b: seq<nat>, body: bytes, i: nat)
    requires |a| == |b| && i < |a| && forall j :: 0 <= j < |a| - 1 ==> a[j] == b[j]
    requires Offset(a, |a| - 1) <= |body|
    ensures Offset(b, |b| - 1) <= |body| && Window(a, body, i) == Window(b, body, i)
  {
    SameOffset(a, b, |a| - 1);
    SameOffset(a, b, i);
    if i < |a| - 1 { SameOffset(a, b, i + 1); }
    hide Offset;
  }

  lemma SameOffset(a: seq<nat>, b: seq<nat>, i: nat)
    requires |a| == |b| && i < |a| && forall j :: 0 <= j < |a| - 1 ==> a[j] == b[j]
    ensures Offset(a, i) == Offset(b, i)
  {
    assert a[..i] == b[..i];
  }

  /** The windows of a body are the parts that it is put together of, by the sizes of all but the final one. */
  lemma {:induction false} PartsAreWindows(sizes: seq<int>, body: bytes, parts: seq<bytes>)
    requires |parts| == |sizes| > 0 && Concat(parts) == body
    requires forall i :: 0 <= i < |sizes| - 1 ==> |parts[i]| == sizes[i]
    ensures !SlicingPanics(sizes) && BufferedSize(sizes) <= |body|
    ensures forall i :: 0 <= i < |sizes| ==> parts[i] == ContentOf(sizes, body, false, i)
  {
    hide Offset, BufferedSize, Concat, Window;
    var ns := BodySizes(sizes);
    BufferedIsOffset(ns);
    BufferedOfBodySizes(sizes);
    WindowOfConcat(parts, 0);
    WindowsAlike(Lengths(parts), ns, body, 0);
    forall i | 0 <= i < |sizes| ensures parts[i] == ContentOf(sizes, body, false, i) {
      WindowOfConcat(parts, i);
      WindowsAlike(Lengths(parts), ns, body, i);
    }
  }

  lemma {:induction false} WindowsAreParts(sizes: seq<int>, body: bytes, parts: seq<bytes>)
    requires |parts| == |sizes| > 0 && !SlicingPanics(sizes) && BufferedSize(sizes) <= |body|
    requires forall i :: 0 <= i < |sizes| ==> parts[i] == ContentOf(sizes, body, false, i)
    ensures Concat(parts) == body
    ensures forall i :: 0 <= i < |sizes| - 1 ==> |parts[i]| == sizes[i]
  {
    hide Offset, BufferedSize, Concat;
    var ns := BodySizes(sizes);
    BufferedIsOffset(ns);
    BufferedOfBodySizes(sizes);
    WindowsCover(ns, body);
    assert parts == Windows(ns, body);
    forall i | 0 <= i < |sizes| - 1 ensures |parts[i]| == sizes[i] {
      WindowIs(ns, body, i);
      OffsetStep(ns, i);
      assert sizes[i] >= 0;
    }
  }

  lemma {:induction false} ViewIff(hs: seq<RecordHeader>, parsed: seq<ParsedHeader>, entries: seq<string>, startTS: int,
                                   last: bool, data: bytes, head: bool, i: nat, v: RecordView)
    requires i < |hs| == |parsed| && 0 <= hs[i].entryIndex < |entries|
    requires !head ==> BufferedSize(SizesOf(parsed)) <= |data|
    ensures v == ViewOf(hs, parsed, entries, startTS, last, data, head, i) <==>
              && ViewMeans(v, hs[i], parsed[i], entries, startTS)
              && (v.lastInBatch <==> i == |hs| - 1) && (v.last <==> i == |hs| - 1 && last)
              && v.content == ContentOf(SizesOf(parsed), data, head, i)
  {
    hide BufferedSize, ContentOf, Wrap64;
    WrapIff(startTS + hs[i].delta, v.time);
  }

  /** The views of the reader, one by one. */
  ghost predicate AreViews(views: seq<RecordView>, hs: seq<RecordHeader>, parsed: seq<ParsedHeader>, entries: seq<string>,
                           startTS: int, last: bool, data: bytes, head: bool)
    requires |hs| == |parsed| && forall i :: 0 <= i < |hs| ==> 0 <= hs[i].entryIndex < |entries|
    requires !head ==> BufferedSize(SizesOf(parsed)) <= |data|
  {
    |views| == |hs| && forall i :: 0 <= i < |hs| ==> views[i] == ViewOf(hs, parsed, entries, startTS, last, data, head, i)
  }

  lemma {:induction false} BuiltAreViews(hs: seq<RecordHeader>, parsed: seq<ParsedHeader>, entries: seq<string>, startTS: int,
                                         last: bool, s: Stream, head: bool, views: seq<RecordView>)
    requires |hs| == |parsed| && forall i :: 0 <= i < |hs| ==> 0 <= hs[i].entryIndex < |entries|
    ensures BuildViews(hs, parsed, entries, startTS, last, s, head) == Fetched(views) <==>
              && (!head ==> BufferedSize(SizesOf(parsed)) <= |s.data| && !SlicingPanics(SizesOf(parsed)))
              && AreViews(views, hs, parsed, entries, startTS, last, s.data, head)
  {
    hide BufferedSize, SlicingPanics, ViewOf;
    if (!head ==> BufferedSize(SizesOf(parsed)) <= |s.data| && !SlicingPanics(SizesOf(parsed)))
       && AreViews(views, hs, parsed, entries, startTS, last, s.data, head) {
      assert BuildViews(hs, parsed, entries, startTS, last, s, head).records == views;
    }
  }

  /** Buffering, slicing and assembling give exactly the records that rows and body stand for. */
  lemma {:induction false} BuildIff(hs: seq<RecordHeader>, parsed: seq<ParsedHeader>, entries: seq<string>, startTS: int,
                                    mark: string, s: Stream, head: bool, views: seq<RecordView>)
    requires |hs| == |parsed| > 0 && forall i :: 0 <= i < |hs| ==> 0 <= hs[i].entryIndex < |entries|
    ensures BuildViews(hs, parsed, entries, startTS, EqualFold(mark, "true"), s, head) == Fetched(views)
            <==> RecordsMean(views, hs, parsed, entries, startTS, mark, s.data, head)
  {
    hide BuildViews, BufferedSize, SlicingPanics, ContentOf, Concat, EqualFold, SaysTrue, ViewOf, ViewMeans;
    TrueFolds(mark);
    var last, sizes := EqualFold(mark, "true"), SizesOf(parsed);
    BuiltAreViews(hs, parsed, entries, startTS, last, s, head, views);
    if RecordsMean(views, hs, parsed, entries, startTS, mark, s.data, head) {
      SizesAreTold(views, hs, parsed, entries, startTS);
      if !head { PartsAreWindows(sizes, s.data, ContentsOf(views)); }
      forall i | 0 <= i < |hs| ensures views[i] == ViewOf(hs, parsed, entries, startTS, last, s.data, head, i) {
        HeadIsBare(sizes, s.data, i);
        assert !head ==> views[i].content == ContentsOf(views)[i];
        ViewIff(hs, parsed, entries, startTS, last, s.data, head, i, views[i]);
      }
    }
    if BuildViews(hs, parsed, entries, startTS, last, s, head) == Fetched(views) {
      forall i | 0 <= i < |hs|
        ensures ViewMeans(views[i], hs[i], parsed[i], entries, startTS)
        ensures (views[i].lastInBatch <==> i == |hs| - 1) && (views[i].last <==> i == |hs| - 1 && last)
        ensures views[i].content == ContentOf(sizes, s.data, head, i)
      {
        ViewIff(hs, parsed, entries, startTS, last, s.data, head, i, views[i]);
      }
      if head {
        forall i | 0 <= i < |hs| ensures views[i].content == [] { HeadIsBare(sizes, s.data, i); }
      } else {
        WindowsAreParts(sizes, s.data, ContentsOf(views));
        SizesAreTold(views, hs, parsed, entries, startTS);
      }
    }
  }

  lemma HeadIsBare(sizes: seq<int>, data: bytes, i: nat)
    requires i < |sizes|
    ensures ContentOf(sizes, data, true, i) == []
  {}

  lemma SizesAreTold(views: seq<RecordView>, hs: seq<RecordHeader>, parsed: seq<ParsedHeader>, entries: seq<string>, startTS: int)
    requires |views| == |hs| == |parsed| && forall i :: 0 <= i < |hs| ==> 0 <= hs[i].entryIndex < |entries|
    requires forall i :: 0 <= i < |hs| ==> ViewMeans(views[i], hs[i], parsed[i], entries, startTS)
    ensures forall i :: 0 <= i < |hs| ==> views[i].size == SizesOf(parsed)[i]
  {}

  ghost predicate TableIs(headers: Header, table: seq<string>) {
    if Get(headers, LABELS) == "" then table == [] else ListIs(Get(headers, LABELS), table)
  }

  /** Headers, rows and body stand for these records; a response without rows is an empty batch. */
  ghost predicate ResponseMeans(headers: Header, hs: seq<RecordHeader>, body: bytes, head: bool, views: seq<RecordView>) {
    && Get(headers, ENTRIES) != "" && Get(headers, START_TS) != ""
    && exists entries, table, startTS, parsed ::
         ListsAre(headers, entries, table, startTS)
         && RowsStandFor(views, headers, hs, parsed, entries, table, startTS, body, head)
  }

  ghost predicate ListsAre(headers: Header, entries: seq<string>, table: seq<string>, startTS: int) {
    ListIs(Get(headers, ENTRIES), entries) && TableIs(headers, table) && WritesNumber(Get(headers, START_TS), startTS)
  }

  ghost predicate RowsStandFor(views: seq<RecordView>, headers: Header, hs: seq<RecordHeader>, parsed: seq<ParsedHeader>,
                               entries: seq<string>, table: seq<string>, startTS: int, body: bytes, head: bool) {
    if hs == [] then views == []
    else
      && RowsMean(hs, parsed, entries, table, |hs|)
      && |parsed| == |hs| && (forall i :: 0 <= i < |hs| ==> 0 <= hs[i].entryIndex < |entries|)
      && RecordsMean(views, hs, parsed, entries, startTS, Get(headers, LAST), body, head)
  }

  lemma {:induction false} TableIff(headers: Header, table: seq<string>)
    ensures ParseLabelTable(headers) == Ok(table) <==> TableIs(headers, table)
  {
    hide ParseList, ListIs, Get;
    ListIff(Get(headers, LABELS), table);
  }

  lemma {:induction false} ListsIff(headers: Header, entries: seq<string>, table: seq<string>, startTS: int)
    ensures ListsAre(headers, entries, table, startTS) <==>
              ParseList(Get(headers, ENTRIES)) == Ok(entries) && ParseLabelTable(headers) == Ok(table)
              && ParseInt(Get(headers, START_TS)) == Some(startTS)
  {
    hide ParseList, ParseInt, ParseLabelTable, Get, ListIs, TableIs, WritesNumber;
    ListIff(Get(headers, ENTRIES), entries);
    ParsedNumber(Get(headers, START_TS));
    TableIff(headers, table);
  }

  /** Replaying the rows and building the records, for lists that are parsed. */
  lemma {:induction false} RowsIff(headers: Header, s: Stream, head: bool, hs: seq<RecordHeader>, entries: seq<string>,
                                   table: seq<string>, startTS: int, parsed: seq<ParsedHeader>, views: seq<RecordView>)
    requires hs != []
    ensures RowsStandFor(views, headers, hs, parsed, entries, table, startTS, s.data, head) <==>
              && DecRun(hs, entries, table, |hs|).Ok? && DecRun(hs, entries, table, |hs|).value.parsed == parsed
              && |parsed| == |hs| && (forall i :: 0 <= i < |hs| ==> 0 <= hs[i].entryIndex < |entries|)
              && BuildViews(hs, parsed, entries, startTS, EqualFold(Get(headers, LAST), "true"), s, head) == Fetched(views)
  {
    hide DecRun, Get, EqualFold, BuildViews, RowsMean, RecordsMean;
    ReplayIff(hs, entries, table, |hs|, parsed);
    if |parsed| == |hs| && forall i :: 0 <= i < |hs| ==> 0 <= hs[i].entryIndex < |entries| {
      BuildIff(hs, parsed, entries, startTS, Get(headers, LAST), s, head, views);
    }
  }

  lemma NoRows(headers: Header, hs: seq<RecordHeader>, body: bytes, head: bool, views: seq<RecordView>)
    ensures hs == [] ==> forall parsed, entries, table, startTS ::
              RowsStandFor(views, headers, hs, parsed, entries, table, startTS, body, head) <==> views == []
  {
    hide Get;
  }

  lemma {:induction false} ReadMeans(headers: Header, s: Stream, head: bool, cancelled: bool, hs: seq<RecordHeader>,
                                     views: seq<RecordView>)
    requires ReadContent(headers, s, head, cancelled, hs) == Fetched(views)
    ensures (hs != [] ==> !cancelled) && ResponseMeans(headers, hs, s.data, head, views)
  {
    hide ParseList, ParseInt, ParseLabelTable, DecRun, Get, EqualFold, BuildViews, RowsStandFor, ListsAre;
    NoRows(headers, hs, s.data, head, views);
    var entries, startTS := ParseList(Get(headers, ENTRIES)).value, ParseInt(Get(headers, START_TS)).value;
    var table := ParseLabelTable(headers).value;
    ListsIff(headers, entries, table, startTS);
    if hs == [] {
      assert RowsStandFor(views, headers, hs, [], entries, table, startTS, s.data, head);
    } else {
      DecRunShape(hs, entries, table, |hs|);
      RowsIff(headers, s, head, hs, entries, table, startTS, DecRun(hs, entries, table, |hs|).value.parsed, views);
    }
  }

  lemma {:induction false} MeaningIsRead(headers: Header, s: Stream, head: bool, cancelled: bool, hs: seq<RecordHeader>,
                                         views: seq<RecordView>)
    requires (hs != [] ==> !cancelled) && ResponseMeans(headers, hs, s.data, head, views)
    ensures ReadContent(headers, s, head, cancelled, hs) == Fetched(views)
  {
    hide ParseList, ParseInt, ParseLabelTable, DecRun, Get, EqualFold, BuildViews, RowsStandFor, ListsAre;
    NoRows(headers, hs, s.data, head, views);
    var entries, table, startTS, parsed :|
      ListsAre(headers, entries, table, startTS)
      && RowsStandFor(views, headers, hs, parsed, entries, table, startTS, s.data, head);
    ListsIff(headers, entries, table, startTS);
    if hs != [] { RowsIff(headers, s, head, hs, entries, table, startTS, parsed, views); }
  }

  /**
   * What a fetch gives is exactly what the response means: if it has a meaning
   * these are the records, and otherwise there are none.
   */
  lemma {:induction false} ReadIff(status: int, headers: Header, s: Stream, head: bool, cancelled: bool, hs: seq<RecordHeader>,
                                   views: seq<RecordView>)
    ensures ReadBatch(status, headers, s, head, cancelled, hs) == Fetched(views) <==>
              status != 204 && (hs != [] ==> !cancelled) && ResponseMeans(headers, hs, s.data, head, views)
  {
    hide ReadContent, ResponseMeans;
    if status != 204 && ReadContent(headers, s, head, cancelled, hs) == Fetched(views) {
      ReadMeans(headers, s, head, cancelled, hs, views);
    }
    if (hs != [] ==> !cancelled) && ResponseMeans(headers, hs, s.data, head, views) {
      MeaningIsRead(headers, s, head, cancelled, hs, views);
    }
  }

  /** The sizes of all rows but the final one. */
  function BytesBefore(parsed: seq<ParsedHeader>): nat {
    if |parsed| <= 1 then 0
    else (if parsed[0].contentLength > 0 then parsed[0].contentLength else 0) + BytesBefore(parsed[1..])
  }

  lemma {:induction false} BufferedIs(parsed: seq<ParsedHeader>)
    ensures BufferedSize(SizesOf(parsed)) == BytesBefore(parsed)
  {
    if |parsed| > 1 {
      assert SizesOf(parsed)[1..] == SizesOf(parsed[1..]);
      BufferedIs(parsed[1..]);
    }
  }

  /** How a body that is too short fails: with what broke it off, or because it ended, at once or unexpectedly. */
  ghost predicate TellsShort(error: string, s: Stream) {
    if s.end != "EOF" then error == s.end else error == if s.data == [] then "EOF" else "unexpected EOF"
  }

  /** A body shorter than its rows say, but for the final one, fails the whole fetch. */
  lemma {:induction false} ShortBodyFails(status: int, headers: Header, s: Stream, hs: seq<RecordHeader>, entries: seq<string>,
                                          table: seq<string>, startTS: int, parsed: seq<ParsedHeader>)
    requires status != 204 && hs != [] && Get(headers, ENTRIES) != "" && Get(headers, START_TS) != ""
    requires ListsAre(headers, entries, table, startTS) && RowsMean(hs, parsed, entries, table, |hs|)
    requires BytesBefore(parsed) > |s.data|
    ensures var read := ReadBatch(status, headers, s, false, false, hs);
            read.Failed? && TellsShort(read.error, s)
  {
    hide ParseList, ParseInt, ParseLabelTable, DecRun, Get, EqualFold, ListsAre, RowsMean, BufferedSize, SlicingPanics;
    ListsIff(headers, entries, table, startTS);
    ReplayIff(hs, entries, table, |hs|, parsed);
    BufferedIs(parsed);
  }

  // ---- which headers are rows ---------------------------------------------------------------------

  /** A record header: two numbers after the prefix, with the final dash between them. */
  ghost predicate NamesRecord(key: string, entryIndex: int, delta: int) {
    exists a, b :: NameParts(key, a, b) && WritesNumber(a, entryIndex) && WritesNumber(b, delta)
  }

  ghost predicate NameParts(key: string, a: string, b: string) {
    key == "x-reduct-" + a + "-" + b && '-' !in b
  }

  lemma {:induction false} NumbersStart(s: string, n: int)
    requires WritesNumber(s, n)
    ensures s != "" && s[0] !in "ersl"
  {
    ParsedNumber(s);
    hide WritesNumber;
  }

  lemma {:induction false} NameIsParts(key: string, a: string, b: string)
    requires NameParts(key, a, b)
    ensures |key| > |PREFIX| && HasPrefix(key, PREFIX)
    ensures var suffix := key[|PREFIX|..];
            LastIndex(suffix, '-') == |a| && suffix[..|a|] == a && suffix[|a| + 1..] == b
  {
    CutsAsParts(key, PREFIX, a, b);
  }

  lemma {:induction false} CutsAsParts(key: string, prefix: string, a: string, b: string)
    requires key == prefix + a + "-" + b && '-' !in b
    ensures |key| > |prefix| && HasPrefix(key, prefix)
    ensures var suffix := key[|prefix|..];
            LastIndex(suffix, '-') == |a| && suffix[..|a|] == a && suffix[|a| + 1..] == b
  {
    hide LastIndex;
    var suffix := a + ['-'] + b;
    assert key == prefix + suffix;
    assert key[|prefix|..] == suffix;
    LastIndexBefore(a, '-', b);
    assert suffix[..|a|] == a && suffix[|a| + 1..] == b;
  }

  /** The names that are not rows go on with `entries`, `error`, `start`, `labels` or `last`. */
  lemma ReservedGoOn(key: string)
    requires IsReserved(key)
    ensures |key| > 9 && key[9] in "esl"
  {
    assert |ENTRIES| > 9 && ENTRIES[9] == 'e' && |START_TS| > 9 && START_TS[9] == 's';
    assert |LABELS| > 9 && LABELS[9] == 'l' && |LAST| > 9 && LAST[9] == 'l';
    assert |ERROR_PREFIX| > 9 && ERROR_PREFIX[9] == 'e';
    if HasPrefix(key, ERROR_PREFIX) { assert key[9] == key[..|ERROR_PREFIX|][9]; }
  }

  lemma {:induction false} RecordNamesAreFree(key: string, entryIndex: int, delta: int)
    requires NamesRecord(key, entryIndex, delta)
    ensures !IsReserved(key)
  {
    var a, b :| NameParts(key, a, b) && WritesNumber(a, entryIndex) && WritesNumber(b, delta);
    NumbersStart(a, entryIndex);
    hide WritesNumber;
    assert key[9] == a[0] by { assert |"x-reduct-"| == 9; }
    if IsReserved(key) { ReservedGoOn(key); }
  }

  /** parseRecordHeaders takes a header for a row exactly if its name is two numbers; the reserved names never are. */
  lemma {:induction false} RecordNameIff(key: string, entryIndex: int, delta: int)
    ensures ParseRecordName(key) == Some((entryIndex, delta)) <==> NamesRecord(key, entryIndex, delta)
  {
    hide ParseRecordName, NamesRecord;
    if NamesRecord(key, entryIndex, delta) { PartsAreParsed(key, entryIndex, delta); }
    if ParseRecordName(key) == Some((entryIndex, delta)) { ParsedAreParts(key, entryIndex, delta); }
  }

  lemma {:induction false} PartsAreParsed(key: string, entryIndex: int, delta: int)
    requires NamesRecord(key, entryIndex, delta)
    ensures ParseRecordName(key) == Some((entryIndex, delta))
  {
    RecordNamesAreFree(key, entryIndex, delta);
    hide WritesNumber, IsReserved, ParseRecordName;
    var a, b :| NameParts(key, a, b) && WritesNumber(a, entryIndex) && WritesNumber(b, delta);
    NumbersStart(a, entryIndex);
    NumbersStart(b, delta);
    ParsedNumber(a);
    ParsedNumber(b);
    FreeNameParses(key, a, b, entryIndex, delta);
  }

  lemma FreeNameParses(key: string, a: string, b: string, entryIndex: int, delta: int)
    requires NameParts(key, a, b) && !IsReserved(key) && a != "" && b != ""
    requires ParseInt(a) == Some(entryIndex) && ParseInt(b) == Some(delta)
    ensures ParseRecordName(key) == Some((entryIndex, delta))
  {
    NameIsParts(key, a, b);
    hide IsReserved, LastIndex, ParseInt, NameParts, HasPrefix, PREFIX;
  }

  lemma {:induction false} ParsedAreParts(key: string, entryIndex: int, delta: int)
    requires ParseRecordName(key) == Some((entryIndex, delta))
    ensures NamesRecord(key, entryIndex, delta)
  {
    hide WritesNumber, IsReserved, LastIndex, ParseInt;
    var suffix := key[|PREFIX|..];
    var dash := LastIndex(suffix, '-');
    var a, b := suffix[..dash], suffix[dash + 1..];
    ParsedNumber(a);
    ParsedNumber(b);
    assert key == PREFIX + suffix && suffix == a + ['-'] + b;
    assert key == "x-reduct-" + a + "-" + b;
    assert NameParts(key, a, b);
  }

  /** The rows of a response are exactly its headers with such names. */
  lemma {:induction false} RowsAreHeaders(headers: Header, order: seq<string>, h: RecordHeader)
    ensures h in Collect(headers, order) <==>
              exists key :: key in order && NamesRecord(key, h.entryIndex, h.delta) && h.rawValue == Get(headers, key)
  {
    hide ParseRecordName, NamesRecord, Get;
    if order != [] {
      var init, key := order[..|order| - 1], order[|order| - 1];
      assert order == init + [key];
      RowsAreHeaders(headers, init, h);
      RecordNameIff(key, h.entryIndex, h.delta);
    }
  }
}
