/** Batch Protocol v1, read side (batch/v1.go: collectTimeHeaders, readBatchedRecords). */
module V1Read {
  import opened Text
  import opened Ordering
  import opened Decimal
  import opened Headers
  import opened CsvRows
  import opened Bodies
  import opened V1Batches
  import opened V2Decode

  /** timeHeader. */
  datatype TimeHeader = TimeHeader(ts: int, value: string)

  predicate IsTimeName(name: string) {
    |name| > |TIME_PREFIX| && EqualFold(name[..|TIME_PREFIX|], TIME_PREFIX)
  }

  /** What one response header adds: nothing, a time header, or an error. */
  function ReadTimeHeader(name: string, values: seq<string>): Result<seq<TimeHeader>> {
    if !IsTimeName(name) then Ok([])
    else
      var ts := ParseInt(name[|TIME_PREFIX|..]);
      if ts.None? then Err("invalid timestamp")
      else if values == [] || values[0] == "" then Err("no record found for timestamp")
      else Ok([TimeHeader(ts.value, values[0])])
  }

  /** The time headers met in one range over the response headers, or the first error. */
  ghost function CollectTimes(headers: Header, order: seq<string>): Result<seq<TimeHeader>>
    requires forall i :: 0 <= i < |order| ==> order[i] in headers
  {
    if order == [] then Ok([])
    else
      var before := CollectTimes(headers, order[..|order| - 1]);
      var key := order[|order| - 1];
      if before.Err? then before
      else
        var more := ReadTimeHeader(key, headers[key]);
        if more.Err? then more else Ok(before.value + more.value)
  }

  lemma {:induction false} CollectTimesFails(headers: Header, order: seq<string>, n: nat)
    requires n <= |order| && forall i :: 0 <= i < |order| ==> order[i] in headers
    requires CollectTimes(headers, order[..n]).Err?
    ensures CollectTimes(headers, order) == CollectTimes(headers, order[..n])
    decreases |order| - n
  {
    hide ReadTimeHeader;
    if n == |order| {
      assert order[..n] == order;
    } else {
      assert order[..n + 1][..n] == order[..n];
      CollectTimesFails(headers, order, n + 1);
    }
  }

  predicate TimeLess(a: TimeHeader, b: TimeHeader) {
    a.ts < b.ts
  }

  lemma TimeLessIsWeakOrder()
    ensures WeakOrder(TimeLess)
  {}

  /** `r` is a possible result of collecting and sorting. */
  ghost predicate SortedTimesFrom(r: Result<seq<TimeHeader>>, headers: Header, order: seq<string>)
    requires forall i :: 0 <= i < |order| ==> order[i] in headers
  {
    var collected := CollectTimes(headers, order);
    match collected
    case Err(e) => r == collected
    case Ok(ths) => r.Ok? && Sorted(r.value, TimeLess) && multiset(r.value) == multiset(ths)
  }

  /** collectTimeHeaders. */
  method CollectTimeHeaders(headers: Header, order: seq<string>) returns (r: Result<seq<TimeHeader>>)
    requires forall i :: 0 <= i < |order| ==> order[i] in headers
    ensures SortedTimesFrom(r, headers, order)
    ensures CollectTimes(headers, order).Ok? && Distinct(CollectTimes(headers, order).value, TimeLess) ==>
              r == Ok(Sort(CollectTimes(headers, order).value, TimeLess))
  {
    hide ReadTimeHeader;
    var collected: seq<TimeHeader> := [];
    for i := 0 to |order|
      invariant CollectTimes(headers, order[..i]) == Ok(collected)
    {
      assert order[..i + 1][..i] == order[..i];
      var more := ReadTimeHeader(order[i], headers[order[i]]);
      if more.Err? {
        CollectTimesFails(headers, order, i + 1);
        return Err(more.error);
      }
      collected := collected + more.value;
    }
    assert order[..|order|] == order;
    TimeLessIsWeakOrder();
    var sorted := SortFunc(collected, TimeLess);
    if Distinct(collected, TimeLess) {
      SortUnique(collected, sorted, TimeLess);
    }
    r := Ok(sorted);
  }

  // ---- the whole fetch ------------------------------------------------------------------------

  function ParsedRow(th: TimeHeader): CsvRow {
    AssignAll(Fields(th.value))
  }

  function ParsedRows(ths: seq<TimeHeader>): (rows: seq<CsvRow>)
    ensures |rows| == |ths|
    ensures forall i :: 0 <= i < |ths| ==> rows[i] == ParsedRow(ths[i])
  {
    seq(|ths|, i requires 0 <= i < |ths| => ParsedRow(ths[i]))
  }

  function RowSizes(rows: seq<CsvRow>): (sizes: seq<int>)
    ensures |sizes| == |rows|
    ensures forall i :: 0 <= i < |rows| ==> sizes[i] == rows[i].size
  {
    seq(|rows|, i requires 0 <= i < |rows| => rows[i].size)
  }

  function ViewAt(entry: string, ths: seq<TimeHeader>, rows: seq<CsvRow>, last: bool, data: bytes, head: bool,
                  i: nat): RecordView
    requires i < |ths| == |rows|
    requires !head ==> BufferedSize(RowSizes(rows)) <= |data|
  {
    RecordView(entry, ths[i].ts, rows[i].size, last && i == |ths| - 1, i == |ths| - 1,
               ContentOf(RowSizes(rows), data, head, i), rows[i].labels,
               if rows[i].contentType == "" then OCTET_STREAM else rows[i].contentType)
  }

  function Views(entry: string, ths: seq<TimeHeader>, rows: seq<CsvRow>, last: bool, s: Stream,
                 head: bool): Outcome<RecordView>
    requires |ths| == |rows|
  {
    if !head && BufferedSize(RowSizes(rows)) > |s.data| then Failed(ShortRead(s))
    else if !head && SlicingPanics(RowSizes(rows)) then Panicked
    else Fetched(seq(|ths|, i requires 0 <= i < |ths| => ViewAt(entry, ths, rows, last, s.data, head, i)))
  }

  /** readBatchedRecords, given what collecting and sorting the time headers gave. */
  function ReadV1(status: int, headers: Header, s: Stream, head: bool, cancelled: bool, entry: string,
                  ths: Result<seq<TimeHeader>>): Outcome<RecordView> {
    if status == 204 then
      NoContent(if Get(headers, "x-reduct-error") == "" then "No content" else Get(headers, "x-reduct-error"))
    else if ths.Err? then Failed(ths.error)
    else if ths.value == [] then Failed("no records found")
    else if cancelled then Failed("context canceled")
    else Views(entry, ths.value, ParsedRows(ths.value), EqualFold(Get(headers, LAST), "true"), s, head)
  }

  /** The v1 producer never sees an empty batch: a response without records is a hard error. */
  lemma NeverEmpty(status: int, headers: Header, s: Stream, head: bool, cancelled: bool, entry: string,
                   ths: Result<seq<TimeHeader>>)
    ensures ReadV1(status, headers, s, head, cancelled, entry, ths) != Fetched([])
  {
    hide ParsedRows, BufferedSize, SlicingPanics, ViewAt;
    if ths.Ok? && ths.value != [] {
      var views := Views(entry, ths.value, ParsedRows(ths.value), EqualFold(Get(headers, LAST), "true"), s, head);
      assert views.Fetched? ==> |views.records| > 0;
    }
  }

  /** The parsing loop over the sorted time headers. */
  method ParseRows(ths: seq<TimeHeader>) returns (rows: seq<CsvRow>)
    ensures rows == ParsedRows(ths)
  {
    hide AssignAll, Fields;
    rows := [];
    for i := 0 to |ths|
      invariant |rows| == i
      invariant forall k :: 0 <= k < i ==> rows[k] == ParsedRow(ths[k])
    {
      var row := ParseCSVRow(ths[i].value);
      rows := rows + [row];
    }
  }

  /** The record loop: everything but the body comes from the headers. */
  method AssembleV1(entry: string, ths: seq<TimeHeader>, rows: seq<CsvRow>, last: bool, bodies: seq<Body>)
    returns (records: seq<Record>)
    requires |ths| == |rows| == |bodies|
    ensures |records| == |ths|
    ensures forall i :: 0 <= i < |ths| ==>
      records[i] == Record(entry, ths[i].ts, rows[i].size, last && i == |ths| - 1, i == |ths| - 1, bodies[i], rows[i].labels,
                           if rows[i].contentType == "" then OCTET_STREAM else rows[i].contentType)
  {
    records := [];
    for i := 0 to |ths|
      invariant |records| == i
      invariant forall k :: 0 <= k < i ==>
        records[k] == Record(entry, ths[k].ts, rows[k].size, last && k == |ths| - 1, k == |ths| - 1, bodies[k], rows[k].labels,
                             if rows[k].contentType == "" then OCTET_STREAM else rows[k].contentType)
    {
      var isLastInBatch := i == |ths| - 1;
      var contentType := if rows[i].contentType == "" then OCTET_STREAM else rows[i].contentType;
      records := records + [Record(entry, ths[i].ts, rows[i].size, last && isLastInBatch, isLastInBatch, bodies[i],
                                   rows[i].labels, contentType)];
    }
  }

  /** The second half of readBatchedRecords: buffer the body, slice it, build the records. */
  method BuildV1(entry: string, ths: seq<TimeHeader>, rows: seq<CsvRow>, last: bool, response: ResponseBody, head: bool)
    returns (outcome: Outcome<Record>)
    requires |ths| == |rows| && ths != []
    modifies response
    ensures Delivers(outcome, Views(entry, ths, rows, last, old(response.Left()), head))
  {
    ghost var data := response.data;
    var sizes, total := RowSizes(rows), |ths|;
    var buffered := new bv8[0];
    if !head {
      var err;
      buffered, err := FillBuffer(response, BufferedSize(sizes));
      if err.Some? {
        return Failed(err.value);
      }
      if SlicingPanics(sizes) {
        return Panicked;
      }
      BufferedIsOffset(BodySizes(sizes));
      BufferedOfBodySizes(sizes);
    }
    var bodies := CutBodies(buffered, BodySizes(sizes), response, head);
    forall i | 0 <= i < total
      ensures bodies[i].Valid() && bodies[i].Remaining() == ContentOf(sizes, data, head, i) {
      CutContent(bodies[i], buffered, sizes, response, head, i, data);
    }
    CutBodiesAreIndependent(bodies, buffered, BodySizes(sizes), response, head);
    var records := AssembleV1(entry, ths, rows, last, bodies);
    assert BodiesOf(records) == bodies;
    outcome := Fetched(records);
  }

  /** readBatchedRecords. */
  method ReadBatchedRecords(status: int, headers: Header, response: ResponseBody, head: bool, cancelled: bool,
                            entry: string,
                            order: seq<string>) returns (outcome: Outcome<Record>)
    requires forall i :: 0 <= i < |order| ==> order[i] in headers
    modifies response
    ensures exists r :: SortedTimesFrom(r, headers, order)
                        && Delivers(outcome, ReadV1(status, headers, old(response.Left()), head, cancelled, entry, r))
    ensures CollectTimes(headers, order).Ok? && Distinct(CollectTimes(headers, order).value, TimeLess) ==>
              Delivers(outcome, ReadV1(status, headers, old(response.Left()), head, cancelled, entry,
                                       Ok(Sort(CollectTimes(headers, order).value, TimeLess))))
  {
    hide CollectTimes, Views, SortedTimesFrom, Sort;
    ghost var data := response.data;
    var ths := CollectTimeHeaders(headers, order);
    if status == 204 {
      var message := Get(headers, "x-reduct-error");
      return NoContent(if message == "" then "No content" else message);
    }
    if ths.Err? {
      return Failed(ths.error);
    }
    if ths.value == [] {
      return Failed("no records found");
    }
    var rows := ParseRows(ths.value);
    if cancelled {
      return Failed("context canceled");
    }
    outcome := BuildV1(entry, ths.value, rows, EqualFold(Get(headers, LAST), "true"), response, head);
  }
}
