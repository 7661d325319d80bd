/** Batch Protocol v2, read side (batch/v2.go: readBatchedRecordsV2 and its helpers). */
module V2Decode {
  import opened Text
  import opened Ordering
  import opened Decimal
  import opened HeaderList
  import opened Headers
  import opened LabelOps
  import opened Bodies

  /** recordHeader. */
  datatype RecordHeader = RecordHeader(entryIndex: int, delta: int, rawValue: string)

  /** parsedHeader. */
  datatype ParsedHeader = ParsedHeader(contentLength: int, contentType: string, labels: Labels)

  /** batch.Record, with its body as an object to read from. */
  datatype Record = Record(entry: string, time: int, size: int, last: bool, lastInBatch: bool,
                           body: Body, labels: Labels, contentType: string)

  /** A record with the bytes its body will deliver. */
  datatype RecordView = RecordView(entry: string, time: int, size: int, last: bool, lastInBatch: bool,
                                   content: bytes, labels: Labels, contentType: string)

  /** What one fetch gives: 204, a hard error, a run-time panic, or the records. */
  datatype Outcome<+R> = NoContent(message: string) | Failed(error: string) | Panicked | Fetched(records: seq<R>)

  // ---- header names ---------------------------------------------------------------------

  predicate IsReserved(key: string) {
    key == ENTRIES || key == START_TS || key == LABELS || key == LAST || HasPrefix(key, ERROR_PREFIX)
  }

  /** The entry index and the delta of a record header, or None for any other header. */
  function ParseRecordName(key: string): Option<(int, int)> {
    if |key| <= |PREFIX| || !HasPrefix(key, PREFIX) || IsReserved(key) then None
    else
      var suffix := key[|PREFIX|..];
      var lastDash := LastIndex(suffix, '-');
      if lastDash == -1 || suffix[..lastDash] == "" || suffix[lastDash + 1..] == "" then None
      else
        var entryIndex, delta := ParseInt(suffix[..lastDash]), ParseInt(suffix[lastDash + 1..]);
        if entryIndex.None? || delta.None? then None else Some((entryIndex.value, delta.value))
  }

  /** The record headers met in one range over the header map. */
  function Collect(headers: Header, order: seq<string>): seq<RecordHeader> {
    if order == [] then []
    else
      var key := order[|order| - 1];
      var name := ParseRecordName(key);
      Collect(headers, order[..|order| - 1])
      + if name.Some? then [RecordHeader(name.value.0, name.value.1, Get(headers, key))] else []
  }

  predicate HeaderLess(a: RecordHeader, b: RecordHeader) {
    if a.entryIndex != b.entryIndex then a.entryIndex < b.entryIndex else a.delta < b.delta
  }

  lemma HeaderLessIsWeakOrder()
    ensures WeakOrder(HeaderLess)
  {}

  /** `hs` is a possible result of sorting the collected headers. */
  ghost predicate SortedFrom(hs: seq<RecordHeader>, headers: Header, order: seq<string>) {
    Sorted(hs, HeaderLess) && multiset(hs) == multiset(Collect(headers, order))
  }

  /** parseRecordHeaders. */
  method ParseRecordHeaders(headers: Header, order: seq<string>) returns (parsed: seq<RecordHeader>)
    ensures SortedFrom(parsed, headers, order)
    ensures Distinct(Collect(headers, order), HeaderLess) ==> parsed == Sort(Collect(headers, order), HeaderLess)
  {
    parsed := [];
    for i := 0 to |order|
      invariant parsed == Collect(headers, order[..i])
    {
      assert order[..i + 1][..i] == order[..i];
      var name := ParseRecordName(order[i]);
      if name.Some? {
        parsed := parsed + [RecordHeader(name.value.0, name.value.1, Get(headers, order[i]))];
      }
    }
    assert order[..|order|] == order;
    ghost var collected := parsed;
    HeaderLessIsWeakOrder();
    parsed := SortFunc(parsed, HeaderLess);
    if Distinct(collected, HeaderLess) {
      SortUnique(collected, parsed, HeaderLess);
    }
  }

  // ---- one record header -----------------------------------------------------------------

  /** What a record header value means after the previous header of its entry. */
  function HeaderOf(raw: string, previous: Option<ParsedHeader>, labelNames: seq<string>): Result<ParsedHeader> {
    var comma := Index(raw, ',');
    var contentLength := ParseInt(Trim(if comma == -1 then raw else raw[..comma]));
    if contentLength.None? then Err("invalid content length")
    else if comma == -1 then
      if previous.None? then Err("content-type and labels must be provided for the first record of an entry")
      else Ok(ParsedHeader(contentLength.value, previous.value.contentType, previous.value.labels))
    else HeaderWithType(contentLength.value, raw[comma + 1..], previous, labelNames)
  }

  function TypeOf(contentTypeRaw: string, previous: Option<ParsedHeader>): string {
    var contentType := Trim(contentTypeRaw);
    if contentType != "" then contentType
    else if previous.Some? && previous.value.contentType != "" then previous.value.contentType
    else OCTET_STREAM
  }

  function BaseLabels(previous: Option<ParsedHeader>): Labels {
    if previous.Some? then previous.value.labels else map[]
  }

  /** The part after the size: content type, and label delta when there is a second comma. */
  function HeaderWithType(contentLength: int, rest: string, previous: Option<ParsedHeader>,
                          labelNames: seq<string>): Result<ParsedHeader> {
    var comma := Index(rest, ',');
    if comma == -1 then Ok(ParsedHeader(contentLength, TypeOf(rest, previous), BaseLabels(previous)))
    else
      var labels := ApplyDelta(rest[comma + 1..], BaseLabels(previous), labelNames);
      if labels.Err? then Err(labels.error)
      else Ok(ParsedHeader(contentLength, TypeOf(rest[..comma], previous), labels.value))
  }

  /** parseRecordHeader. */
  method ParseRecordHeader(raw: string, previous: Option<ParsedHeader>, labelNames: seq<string>)
    returns (r: Result<ParsedHeader>)
    ensures r == HeaderOf(raw, previous, labelNames)
  {
    hide Index, Trim, ParseInt, ApplyDelta;
    var comma := Index(raw, ',');
    var contentLength := ParseInt(Trim(if comma == -1 then raw else raw[..comma]));
    if contentLength.None? {
      return Err("invalid content length");
    }
    if comma == -1 {
      if previous.None? {
        return Err("content-type and labels must be provided for the first record of an entry");
      }
      return Ok(ParsedHeader(contentLength.value, previous.value.contentType, previous.value.labels));
    }
    var rest := raw[comma + 1..];
    var nextComma := Index(rest, ',');
    var contentType := TypeOf(if nextComma == -1 then rest else rest[..nextComma], previous);
    var labels := if previous.Some? then previous.value.labels else map[];
    if nextComma != -1 {
      var applied := ApplyLabelDelta(rest[nextComma + 1..], labels, labelNames);
      if applied.Err? {
        return Err(applied.error);
      }
      labels := applied.value;
    }
    r := Ok(ParsedHeader(contentLength.value, contentType, labels));
  }

  // ---- replaying the headers ----------------------------------------------------------------

  /** lastHeaderPerEntry and the headers parsed so far. */
  datatype DecState = DecState(last: map<int, ParsedHeader>, parsed: seq<ParsedHeader>)

  function DecStep(st: DecState, h: RecordHeader, entries: seq<string>, labelNames: seq<string>): Result<DecState> {
    if h.entryIndex < 0 || h.entryIndex >= |entries| then Err("entry index out of range")
    else
      var previous := if h.entryIndex in st.last then Some(st.last[h.entryIndex]) else None;
      var header := HeaderOf(h.rawValue, previous, labelNames);
      if header.Err? then Err(header.error)
      else Ok(DecState(st.last[h.entryIndex := header.value], st.parsed + [header.value]))
  }

  /** The decoder after its first `n` headers. */
  function DecRun(hs: seq<RecordHeader>, entries: seq<string>, labelNames: seq<string>, n: nat): Result<DecState>
    requires n <= |hs|
  {
    if n == 0 then Ok(DecState(map[], []))
    else
      var before := DecRun(hs, entries, labelNames, n - 1);
      if before.Err? then before else DecStep(before.value, hs[n - 1], entries, labelNames)
  }

  /** A successful replay has one parsed header per record, and every entry index is in range. */
  lemma {:induction false} DecRunShape(hs: seq<RecordHeader>, entries: seq<string>, labelNames: seq<string>, n: nat)
    requires n <= |hs| && DecRun(hs, entries, labelNames, n).Ok?
    ensures |DecRun(hs, entries, labelNames, n).value.parsed| == n
    ensures forall i :: 0 <= i < n ==> 0 <= hs[i].entryIndex < |entries|
  {
    hide HeaderOf;
    if n > 0 { DecRunShape(hs, entries, labelNames, n - 1); }
  }

  lemma {:induction false} DecRunFails(hs: seq<RecordHeader>, entries: seq<string>, labelNames: seq<string>, n: nat,
                                       m: nat)
    requires n <= m <= |hs| && DecRun(hs, entries, labelNames, n).Err?
    ensures DecRun(hs, entries, labelNames, m) == DecRun(hs, entries, labelNames, n)
    decreases m
  {
    hide DecStep;
    if n < m { DecRunFails(hs, entries, labelNames, n, m - 1); }
  }

  /** The header loop of readBatchedRecordsV2. */
  method ReplayHeaders(hs: seq<RecordHeader>, entries: seq<string>, labelNames: seq<string>)
    returns (r: Result<seq<ParsedHeader>>)
    ensures var run := DecRun(hs, entries, labelNames, |hs|);
            r == if run.Err? then Err(run.error) else Ok(run.value.parsed)
  {
    hide HeaderOf;
    var last: map<int, ParsedHeader> := map[];
    var parsed := [];
    for i := 0 to |hs|
      invariant DecRun(hs, entries, labelNames, i) == Ok(DecState(last, parsed))
    {
      var h := hs[i];
      if h.entryIndex < 0 || h.entryIndex >= |entries| {
        DecRunFails(hs, entries, labelNames, i + 1, |hs|);
        return Err("entry index out of range");
      }
      var previous := if h.entryIndex in last then Some(last[h.entryIndex]) else None;
      var header := ParseRecordHeader(h.rawValue, previous, labelNames);
      if header.Err? {
        DecRunFails(hs, entries, labelNames, i + 1, |hs|);
        return Err(header.error);
      }
      last := last[h.entryIndex := header.value];
      parsed := parsed + [header.value];
    }
    r := Ok(parsed);
  }

  // ---- the whole fetch ------------------------------------------------------------------------

  function SizesOf(parsed: seq<ParsedHeader>): (sizes: seq<int>)
    ensures |sizes| == |parsed|
    ensures forall i :: 0 <= i < |parsed| ==> sizes[i] == parsed[i].contentLength
  {
    seq(|parsed|, i requires 0 <= i < |parsed| => parsed[i].contentLength)
  }

  /** Slicing the buffer panics on a negative size before the last record. */
  predicate SlicingPanics(sizes: seq<int>) {
    exists i :: 0 <= i < |sizes| - 1 && sizes[i] < 0
  }

  /** The window of record `i`; the last record's size plays no part in it. */
  function ContentOf(sizes: seq<int>, data: bytes, head: bool, i: nat): bytes
    requires i < |sizes|
    requires !head ==> BufferedSize(sizes) <= |data|
  {
    if head then []
    else
      BufferedIsOffset(BodySizes(sizes));
      BufferedOfBodySizes(sizes);
      Window(BodySizes(sizes), data, i)
  }

  function BodySizes(sizes: seq<int>): (ns: seq<nat>)
    ensures |ns| == |sizes|
    ensures forall i :: 0 <= i < |sizes| ==> ns[i] == if sizes[i] < 0 then 0 else sizes[i]
  {
    seq(|sizes|, i requires 0 <= i < |sizes| => if sizes[i] < 0 then 0 else sizes[i])
  }

  lemma {:induction false} BufferedOfBodySizes(sizes: seq<int>)
    ensures BufferedSize(BodySizes(sizes)) == BufferedSize(sizes)
  {
    if |sizes| > 1 {
      BufferedOfBodySizes(sizes[1..]);
      assert BodySizes(sizes)[1..] == BodySizes(sizes[1..]);
    }
  }

  function ViewOf(hs: seq<RecordHeader>, parsed: seq<ParsedHeader>, entries: seq<string>, startTS: int,
                  last: bool, data: bytes, head: bool, i: nat): RecordView
    requires i < |hs| == |parsed| && 0 <= hs[i].entryIndex < |entries|
    requires !head ==> BufferedSize(SizesOf(parsed)) <= |data|
  {
    RecordView(entries[hs[i].entryIndex], Wrap64(startTS + hs[i].delta), parsed[i].contentLength,
               last && i == |hs| - 1, i == |hs| - 1, ContentOf(SizesOf(parsed), data, head, i),
               parsed[i].labels, parsed[i].contentType)
  }

  /** Reading and slicing the body of a batch whose headers are all parsed. */
  function BuildViews(hs: seq<RecordHeader>, parsed: seq<ParsedHeader>, entries: seq<string>, startTS: int,
                      last: bool, s: Stream, head: bool): Outcome<RecordView>
    requires |hs| == |parsed| && forall i :: 0 <= i < |hs| ==> 0 <= hs[i].entryIndex < |entries|
  {
    if !head && BufferedSize(SizesOf(parsed)) > |s.data| then Failed(ShortRead(s))
    else if !head && SlicingPanics(SizesOf(parsed)) then Panicked
    else Fetched(seq(|hs|, i requires 0 <= i < |hs| => ViewOf(hs, parsed, entries, startTS, last, s.data, head, i)))
  }

  function ParseLabelTable(headers: Header): Result<seq<string>> {
    if Get(headers, LABELS) == "" then Ok([]) else ParseList(Get(headers, LABELS))
  }

  /** readBatchedRecordsV2 after the 204 check, for one order of the record headers. */
  function ReadContent(headers: Header, s: Stream, head: bool, cancelled: bool,
                       hs: seq<RecordHeader>): Outcome<RecordView> {
    if Get(headers, ENTRIES) == "" then Failed("x-reduct-entries header is required")
    else if Get(headers, START_TS) == "" then Failed("x-reduct-start-ts header is required")
    else
      var entries, startTS, labelNames := ParseList(Get(headers, ENTRIES)), ParseInt(Get(headers, START_TS)), ParseLabelTable(headers);
      if entries.Err? then Failed(entries.error)
      else if startTS.None? then Failed("invalid x-reduct-start-ts header")
      else if labelNames.Err? then Failed(labelNames.error)
      else if hs == [] then Fetched([])
      else if cancelled then Failed("context canceled")
      else
        var run := DecRun(hs, entries.value, labelNames.value, |hs|);
        if run.Err? then Failed(run.error)
        else
          DecRunShape(hs, entries.value, labelNames.value, |hs|);
          BuildViews(hs, run.value.parsed, entries.value, startTS.value,
                     EqualFold(Get(headers, LAST), "true"), s, head)
  }

  /** What one fetch gives, from the status, the headers and the body of its response. */
  function ReadBatch(status: int, headers: Header, s: Stream, head: bool, cancelled: bool,
                     hs: seq<RecordHeader>): Outcome<RecordView> {
    if status == 204 then
      NoContent(if Get(headers, "x-reduct-error") == "" then "No content" else Get(headers, "x-reduct-error"))
    else ReadContent(headers, s, head, cancelled, hs)
  }

  // ---- the same with objects ------------------------------------------------------------------

  ghost function BodyObjects(records: seq<Record>): set<object> {
    set i, o | 0 <= i < |records| && o in records[i].body.Reads() :: o
  }

  ghost function View(r: Record): RecordView
    requires r.body.Valid()
    reads r.body.Reads()
  {
    RecordView(r.entry, r.time, r.size, r.last, r.lastInBatch, r.body.Remaining(), r.labels, r.contentType)
  }

  function BodiesOf(records: seq<Record>): (bodies: seq<Body>)
    ensures |bodies| == |records|
    ensures forall i :: 0 <= i < |records| ==> bodies[i] == records[i].body
  {
    seq(|records|, i requires 0 <= i < |records| => records[i].body)
  }

  /** The records hold what the specification promises, each in a body of its own. */
  ghost predicate Delivers(outcome: Outcome<Record>, expected: Outcome<RecordView>)
    reads if outcome.Fetched? then BodyObjects(outcome.records) else {}
  {
    match outcome
    case NoContent(m) => expected == NoContent(m)
    case Failed(e) => expected == Failed(e)
    case Panicked => expected == Panicked
    case Fetched(records) =>
      && expected.Fetched? && |expected.records| == |records|
      && Independent(BodiesOf(records))
      && (forall i :: 0 <= i < |records| ==> records[i].body.Valid() && View(records[i]) == expected.records[i])
  }

  /** However the records of a batch are used, in whatever order, each gives its own content. */
  method UseRecords(records: seq<Record>, uses: seq<Use>, ghost expected: seq<RecordView>) returns (outs: seq<bytes>)
    requires Delivers(Fetched(records), Fetched(expected))
    requires forall k :: 0 <= k < |uses| ==> Allowed(uses[k], BodiesOf(records))
    modifies AllOwned(BodiesOf(records))
    ensures |outs| == |records| && forall i :: 0 <= i < |records| ==> records[i].body.Valid()
    ensures forall i :: 0 <= i < |records| ==> outs[i] + records[i].body.Remaining() == expected[i].content
  {
    ghost var bodies := BodiesOf(records);
    ghost var takes;
    forall i | 0 <= i < |records| ensures bodies[i].Valid() && bodies[i].Remaining() == expected[i].content {
      assert View(records[i]) == expected[i];
    }
    outs, takes := UseAll(BodiesOf(records), uses);
    assert forall i :: 0 <= i < |records| ==> bodies[i] == records[i].body;
  }

  /** A window of the filled buffer, or the rest of the stream, is the record's content. */
  lemma {:induction false} CutContent(body: Body, buffered: array<bv8>, sizes: seq<int>, response: ResponseBody,
                                      head: bool, i: nat, data: bytes)
    requires i < |sizes|
    requires !head ==> BufferedSize(sizes) <= |data|
    requires !head ==> buffered[..] == data[..BufferedSize(sizes)] && response.data == data[BufferedSize(sizes)..]
    requires CutAt(body, buffered, BodySizes(sizes), response, head, i)
    ensures body.Valid() && body.Remaining() == ContentOf(sizes, data, head, i)
  {
    hide Offset, BufferedSize;
    if !head {
      var ns := BodySizes(sizes);
      BufferedIsOffset(ns);
      BufferedOfBodySizes(sizes);
      if i < |sizes| - 1 {
        OffsetMonotone(ns, i, i + 1);
        OffsetMonotone(ns, i + 1, |sizes| - 1);
        var lo, hi := Offset(ns, i), Offset(ns, i + 1);
        assert buffered[lo..hi] == buffered[..][lo..hi] == data[lo..hi];
      }
    }
  }

  /** Fills the shared buffer with one pass over the response. */
  method FillBuffer(response: ResponseBody, size: nat) returns (buffered: array<bv8>, err: Option<string>)
    modifies response
    ensures fresh(buffered)
    ensures err == if size <= |old(response.data)| then None else Some(ShortRead(old(response.Left())))
    ensures err.None? ==> buffered[..] == old(response.data)[..size] && response.data == old(response.data)[size..]
  {
    buffered, err := new bv8[size], None;
    if size > 0 {
      var n;
      n, err := ReadFull(Response(response), buffered);
      assert n == size ==> buffered[..n] == buffered[..];
    }
  }

  /** The second half of readBatchedRecordsV2: buffer the body, slice it, build the records. */
  method BuildRecords(hs: seq<RecordHeader>, parsed: seq<ParsedHeader>, entries: seq<string>, startTS: int,
                      last: bool, response: ResponseBody, head: bool) returns (outcome: Outcome<Record>)
    requires |hs| == |parsed| && hs != [] && forall i :: 0 <= i < |hs| ==> 0 <= hs[i].entryIndex < |entries|
    modifies response
    ensures Delivers(outcome, BuildViews(hs, parsed, entries, startTS, last, old(response.Left()), head))
  {
    ghost var data := response.data;
    var sizes, total := SizesOf(parsed), |hs|;
    var buffered := new bv8[0];
    if !head {
      var err;
      buffered, err := FillBuffer(response, BufferedSize(sizes));
      if err.Some? {
        return Failed(err.value);
      }
      if SlicingPanics(sizes) {
        return Panicked;
      }
      BufferedIsOffset(BodySizes(sizes));
      BufferedOfBodySizes(sizes);
    }
    var bodies := CutBodies(buffered, BodySizes(sizes), response, head);
    forall i | 0 <= i < total
      ensures bodies[i].Valid() && bodies[i].Remaining() == ContentOf(sizes, data, head, i) {
      CutContent(bodies[i], buffered, sizes, response, head, i, data);
    }
    CutBodiesAreIndependent(bodies, buffered, BodySizes(sizes), response, head);
    var records := AssembleRecords(hs, parsed, entries, startTS, last, bodies);
    assert BodiesOf(records) == bodies;
    outcome := Fetched(records);
  }

  /** The record loop: everything but the body comes from the headers. */
  method AssembleRecords(hs: seq<RecordHeader>, parsed: seq<ParsedHeader>, entries: seq<string>, startTS: int,
                         last: bool, bodies: seq<Body>) returns (records: seq<Record>)
    requires |hs| == |parsed| == |bodies| && forall i :: 0 <= i < |hs| ==> 0 <= hs[i].entryIndex < |entries|
    ensures |records| == |hs|
    ensures forall i :: 0 <= i < |hs| ==>
      records[i] == Record(entries[hs[i].entryIndex], Wrap64(startTS + hs[i].delta), parsed[i].contentLength,
                           last && i == |hs| - 1, i == |hs| - 1, bodies[i], parsed[i].labels, parsed[i].contentType)
  {
    records := [];
    for i := 0 to |hs|
      invariant |records| == i
      invariant forall k :: 0 <= k < i ==>
        records[k] == Record(entries[hs[k].entryIndex], Wrap64(startTS + hs[k].delta), parsed[k].contentLength,
                             last && k == |hs| - 1, k == |hs| - 1, bodies[k], parsed[k].labels, parsed[k].contentType)
    {
      var isLastInBatch := i == |hs| - 1;
      records := records + [Record(entries[hs[i].entryIndex], Wrap64(startTS + hs[i].delta), parsed[i].contentLength,
                                   last && isLastInBatch, isLastInBatch, bodies[i], parsed[i].labels, parsed[i].contentType)];
    }
  }

  /**
   * readBatchedRecordsV2. `order` is the order in which the range over the
   * response headers meets their names.
   */
  method ReadBatchedRecordsV2(status: int, headers: Header, response: ResponseBody, head: bool, cancelled: bool,
                              order: seq<string>)
    returns (outcome: Outcome<Record>)
    modifies response
    ensures exists hs :: SortedFrom(hs, headers, order)
                         && Delivers(outcome, ReadBatch(status, headers, old(response.Left()), head, cancelled, hs))
    ensures Distinct(Collect(headers, order), HeaderLess) ==>
              Delivers(outcome, ReadBatch(status, headers, old(response.Left()), head, cancelled,
                                          Sort(Collect(headers, order), HeaderLess)))
  {
    hide DecRun, BuildViews, ParseList, ParseInt;
    var hs := ParseRecordHeaders(headers, order);
    ghost var data := response.data;
    if status == 204 {
      var message := Get(headers, "x-reduct-error");
      return NoContent(if message == "" then "No content" else message);
    }
    outcome := ReadContentRecords(headers, response, head, cancelled, hs);
  }

  /** readBatchedRecordsV2 after the 204 check. */
  method ReadContentRecords(headers: Header, response: ResponseBody, head: bool, cancelled: bool, hs: seq<RecordHeader>)
    returns (outcome: Outcome<Record>)
    modifies response
    ensures Delivers(outcome, ReadContent(headers, old(response.Left()), head, cancelled, hs))
  {
    hide DecRun, BuildViews, ParseList, ParseInt;
    if Get(headers, ENTRIES) == "" {
      return Failed("x-reduct-entries header is required");
    }
    if Get(headers, START_TS) == "" {
      return Failed("x-reduct-start-ts header is required");
    }
    var entries := ParseHeaderList(Get(headers, ENTRIES));
    if entries.Err? {
      return Failed(entries.error);
    }
    var startTS := ParseInt(Get(headers, START_TS));
    if startTS.None? {
      return Failed("invalid x-reduct-start-ts header");
    }
    var labelNames: Result<seq<string>> := Ok([]);
    if Get(headers, LABELS) != "" {
      labelNames := ParseHeaderList(Get(headers, LABELS));
      if labelNames.Err? {
        return Failed(labelNames.error);
      }
    }
    if hs == [] {
      return Fetched([]);
    }
    if cancelled {
      return Failed("context canceled");
    }
    var parsed := ReplayHeaders(hs, entries.value, labelNames.value);
    if parsed.Err? {
      return Failed(parsed.error);
    }
    DecRunShape(hs, entries.value, labelNames.value, |hs|);
    outcome := BuildRecords(hs, parsed.value, entries.value, startTS.value,
                            EqualFold(Get(headers, LAST), "true"), response, head);
  }
}
