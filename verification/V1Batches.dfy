/** Batch Protocol v1, write side: a batch for one entry and what it prints (batch.go). */
module V1Batches {
  import opened Text
  import opened Ordering
  import opened Decimal
  import opened Headers
  import opened LabelOps
  import opened Bodies
  import opened Totals

  /** A label value: text, or something that the printing loop does not see as text. */
  datatype Label = Text(text: string) | NotText

  type V1Labels = map<string, Label>

  /** batch.go: Record. */
  datatype V1Record = V1Record(data: bytes, contentType: string, labels: V1Labels)

  type V1Records = map<int, V1Record>

  datatype BatchType = BatchWrite | BatchUpdate | BatchRemove

  const TIME_PREFIX := "x-reduct-time-"

  // ---- the calls ------------------------------------------------------------------------------

  datatype Call =
    | Add(ts: int, data: bytes, contentType: string, labels: Option<V1Labels>)
    | AddOnlyLabels(ts: int, onlyLabels: V1Labels)
    | AddOnlyTimestamp(ts: int)
    | Clear

  /** Only Add fills in the default content type, and only Add counts bytes. */
  function Apply(records: V1Records, call: Call): V1Records {
    match call
    case Add(ts, data, contentType, labels) =>
      records[ts := V1Record(data, if contentType == "" then OCTET_STREAM else contentType,
                             if labels.None? then map[] else labels.value)]
    case AddOnlyLabels(ts, labels) => records[ts := V1Record([], "", labels)]
    case AddOnlyTimestamp(ts) => records[ts := V1Record([], "", map[])]
    case Clear => map[]
  }

  function Run(calls: seq<Call>): V1Records {
    if calls == [] then map[] else Apply(Run(calls[..|calls| - 1]), calls[|calls| - 1])
  }

  /** What a call makes of the counted size: only Add counts bytes, only Clear resets it. */
  function Counted(size: nat, call: Call): nat {
    match call
    case Add(_, data, _, _) => size + |data|
    case Clear => 0
    case _ => size
  }

  function CountedBytes(calls: seq<Call>): nat {
    if calls == [] then 0 else Counted(CountedBytes(calls[..|calls| - 1]), calls[|calls| - 1])
  }

  class Batch {
    const batchType: BatchType
    var records: V1Records
    var totalSize: nat

    constructor (batchType: BatchType)
      ensures this.batchType == batchType && records == map[] && totalSize == 0
    {
      this.batchType := batchType;
      records := map[];
      totalSize := 0;
    }

    method Add(ts: int, data: bytes, contentType: string, labels: Option<V1Labels>)
      modifies this
      ensures records == Apply(old(records), Call.Add(ts, data, contentType, labels))
      ensures totalSize == Counted(old(totalSize), Call.Add(ts, data, contentType, labels))
    {
      var kind := if contentType == "" then OCTET_STREAM else contentType;
      var given := if labels.None? then map[] else labels.value;
      totalSize := totalSize + |data|;
      records := records[ts := V1Record(data, kind, given)];
    }

    method AddOnlyLabels(ts: int, labels: V1Labels)
      modifies this`records
      ensures records == Apply(old(records), Call.AddOnlyLabels(ts, labels))
      ensures totalSize == Counted(old(totalSize), Call.AddOnlyLabels(ts, labels))
    {
      records := records[ts := V1Record([], "", labels)];
    }

    method AddOnlyTimestamp(ts: int)
      modifies this`records
      ensures records == Apply(old(records), Call.AddOnlyTimestamp(ts))
      ensures totalSize == Counted(old(totalSize), Call.AddOnlyTimestamp(ts))
    {
      records := records[ts := V1Record([], "", map[])];
    }

    method Clear()
      modifies this
      ensures records == Apply(old(records), Call.Clear) && totalSize == Counted(old(totalSize), Call.Clear)
    {
      records := map[];
      totalSize := 0;
    }

    /** The part of Write that prints the records into headers and a body. */
    method Print() returns (headers: Header, body: bytes, times: seq<int>, rows: seq<string>)
      requires AsciiRecords(records)
      ensures IsTimes(times, records) && PrintsAll(rows, batchType, records, times)
      ensures headers == PutAll(map[], TimeNames(times), rows)
      ensures body == Concat(DataAt(records, times))
    {
      hide PutAll, Concat;
      var sorted := SortedTimes(records);
      times, rows := sorted, [];
      headers, body := map[], [];
      NothingPrinted(records);
      for i := 0 to |sorted|
        invariant PrintsAll(rows, batchType, records, sorted[..i])
        invariant headers == PutAll(map[], TimeNames(sorted[..i]), rows)
        invariant body == Concat(DataAt(records, sorted[..i]))
      {
        assert sorted[i] in sorted;
        var r := records[sorted[i]];
        var row := FormatRow(batchType, r);
        PrintedOne(batchType, records, sorted, i, rows, row);
        headers := Set(headers, TimeName(sorted[i]), row);
        body := body + r.data;
        rows := rows + [row];
      }
      assert sorted[..|sorted|] == sorted;
    }
  }

  // ---- printing -------------------------------------------------------------------------------

  ghost predicate AsciiRecords(records: V1Records) {
    forall t :: t in records ==> AsciiLabels1(records[t].labels)
  }

  ghost predicate AsciiLabels1(labels: V1Labels) {
    forall k :: k in labels && labels[k].Text? ==> IsAscii(labels[k].text)
  }

  /** Values with a comma are printed with `%q`, values that are not text as nothing. */
  function LabelText(k: string, l: Label): string
    requires l.Text? ==> IsAscii(l.text)
  {
    [','] + k + ['='] + if l.Text? then FormatLabelValue(l.text) else ""
  }

  ghost function LabelsText(labels: V1Labels, order: seq<string>): string
    requires AsciiLabels1(labels) && forall i :: 0 <= i < |order| ==> order[i] in labels
  {
    if order == [] then ""
    else LabelsText(labels, order[..|order| - 1]) + LabelText(order[|order| - 1], labels[order[|order| - 1]])
  }

  function RowStart(t: BatchType, r: V1Record): string {
    if t.BatchWrite? then FormatInt(|r.data|) + [','] + r.contentType else "0,"
  }

  /** The row is what Write prints for the record, for some order of its labels. */
  ghost predicate Prints(row: string, t: BatchType, r: V1Record)
    requires AsciiLabels1(r.labels)
  {
    exists order :: PrintsInOrder(row, t, r, order)
  }

  ghost predicate PrintsInOrder(row: string, t: BatchType, r: V1Record, order: seq<string>)
    requires AsciiLabels1(r.labels)
  {
    Enumerates(order, r.labels) && (forall i :: 0 <= i < |order| ==> order[i] in r.labels)
    && row == RowStart(t, r) + LabelsText(r.labels, order)
  }

  lemma {:induction false} OneMoreLabel(labels: V1Labels, order: seq<string>, k: string)
    requires AsciiLabels1(labels) && k in labels && forall i :: 0 <= i < |order| ==> order[i] in labels
    ensures forall i :: 0 <= i < |order + [k]| ==> (order + [k])[i] in labels
    ensures LabelsText(labels, order + [k]) == LabelsText(labels, order) + LabelText(k, labels[k])
  {
    assert (order + [k])[..|order|] == order;
  }

  lemma {:induction false} NoLabels(labels: V1Labels)
    requires AsciiLabels1(labels)
    ensures LabelsText(labels, []) == ""
  {}

  lemma Distinguished(order: seq<string>, k: string)
    requires k !in order && forall i, j :: 0 <= i < j < |order| ==> order[i] != order[j]
    ensures forall i, j :: 0 <= i < j < |order + [k]| ==> (order + [k])[i] != (order + [k])[j]
    ensures forall j :: j in order + [k] <==> j in order || j == k
  {}

  /** The printing of one record in the loop of Write. */
  method FormatRow(t: BatchType, r: V1Record) returns (row: string)
    requires AsciiLabels1(r.labels)
    ensures Prints(row, t, r)
  {
    hide FormatLabelValue, FormatInt, RowStart, LabelText, LabelsText;
    row := RowStart(t, r);
    NoLabels(r.labels);
    var left := r.labels.Keys;
    ghost var order: seq<string> := [];
    assert row + "" == row;
    while left != {}
      invariant left <= r.labels.Keys
      invariant forall i, j :: 0 <= i < j < |order| ==> order[i] != order[j]
      invariant forall k :: k in order <==> k in r.labels.Keys - left
      invariant forall i :: 0 <= i < |order| ==> order[i] in r.labels
      invariant row == RowStart(t, r) + LabelsText(r.labels, order)
    {
      var k :| k in left;
      left := left - {k};
      assert k !in order && k in r.labels;
      OneMoreLabel(r.labels, order, k);
      Distinguished(order, k);
      assert RowStart(t, r) + (LabelsText(r.labels, order) + LabelText(k, r.labels[k]))
             == row + LabelText(k, r.labels[k]);
      row := row + LabelText(k, r.labels[k]);
      order := order + [k];
    }
    assert PrintsInOrder(row, t, r, order);
  }

  // ---- the whole request -------------------------------------------------------------------------

  predicate IntLess(a: int, b: int) {
    a < b
  }

  /** The timestamps of the batch in increasing order. */
  ghost predicate IsTimes(times: seq<int>, records: V1Records) {
    StrictSorted(times, IntLess) && forall t :: t in times <==> t in records
  }

  /** Ranges over the map in whatever order it yields, then sorts (batch.go: Write). */
  method SortedTimes(records: V1Records) returns (times: seq<int>)
    ensures IsTimes(times, records)
  {
    var left, got := records.Items, [];
    while left != {}
      invariant left <= records.Items
      invariant forall t: int :: t in got <==> t in records && (t, records[t]) !in left
      invariant Distinct(got, IntLess)
    {
      var item :| item in left;
      forall i | 0 <= i < |got| ensures IntLess(got[i], item.0) || IntLess(item.0, got[i]) {
        assert got[i] in got;
      }
      got := got + [item.0];
      left := left - {item};
    }
    times := SortFunc(got, IntLess);
    SortUnique(got, times, IntLess);
    SortMembers(got, IntLess);
  }

  function TimeName(ts: int): string {
    TIME_PREFIX + FormatInt(ts)
  }

  function TimeNames(times: seq<int>): (names: seq<string>)
    ensures |names| == |times|
    ensures forall i :: 0 <= i < |times| ==> names[i] == TimeName(times[i])
  {
    seq(|times|, i requires 0 <= i < |times| => TimeName(times[i]))
  }

  function DataAt(records: V1Records, times: seq<int>): (parts: seq<bytes>)
    requires forall i :: 0 <= i < |times| ==> times[i] in records
    ensures |parts| == |times|
    ensures forall i :: 0 <= i < |times| ==> parts[i] == records[times[i]].data
  {
    seq(|times|, i requires 0 <= i < |times| => records[times[i]].data)
  }

  ghost predicate PrintsAll(rows: seq<string>, t: BatchType, records: V1Records, times: seq<int>)
    requires AsciiRecords(records)
  {
    && |rows| == |times|
    && (forall i :: 0 <= i < |times| ==> times[i] in records)
    && (forall i :: 0 <= i < |times| ==> AsciiLabels1(records[times[i]].labels) && Prints(rows[i], t, records[times[i]]))
  }

  lemma NothingPrinted(records: V1Records)
    ensures TimeNames([]) == [] && PutAll(map[], [], []) == map[] && DataAt(records, []) == [] && Concat([]) == []
  {}

  lemma {:induction false} PrintedOne(t: BatchType, records: V1Records, times: seq<int>, i: nat, rows: seq<string>,
                                      row: string)
    requires AsciiRecords(records) && i < |times| && PrintsAll(rows, t, records, times[..i])
    requires times[i] in records && AsciiLabels1(records[times[i]].labels) && Prints(row, t, records[times[i]])
    ensures PrintsAll(rows + [row], t, records, times[..i + 1])
    ensures PutAll(map[], TimeNames(times[..i + 1]), rows + [row])
            == Set(PutAll(map[], TimeNames(times[..i]), rows), TimeName(times[i]), row)
    ensures Concat(DataAt(records, times[..i + 1])) == Concat(DataAt(records, times[..i])) + records[times[i]].data
  {
    hide Prints, PutAll, Concat, TimeName, AsciiRecords;
    var more := times[..i + 1];
    assert more == times[..i] + [times[i]];
    NamesSnoc(times[..i], times[i]);
    PutAllSnoc(TimeNames(times[..i]), rows, TimeName(times[i]), row);
    DataSnoc(records, times[..i], times[i]);
  }

  lemma NamesSnoc(times: seq<int>, ts: int)
    ensures TimeNames(times + [ts]) == TimeNames(times) + [TimeName(ts)]
  {
    hide TimeName;
  }

  lemma {:induction false} PutAllSnoc(names: seq<string>, values: seq<string>, name: string, value: string)
    requires |names| == |values|
    ensures PutAll(map[], names + [name], values + [value]) == Set(PutAll(map[], names, values), name, value)
  {
    assert (names + [name])[..|names|] == names && (values + [value])[..|values|] == values;
  }

  lemma DataSnoc(records: V1Records, times: seq<int>, ts: int)
    requires ts in records && forall i :: 0 <= i < |times| ==> times[i] in records
    ensures forall i :: 0 <= i < |times + [ts]| ==> (times + [ts])[i] in records
    ensures Concat(DataAt(records, times + [ts])) == Concat(DataAt(records, times)) + records[ts].data
  {
    assert DataAt(records, times + [ts])[..|times|] == DataAt(records, times);
  }

  // ---- what is stored -----------------------------------------------------------------------

  predicate CallsAt(call: Call, t: int) {
    match call
    case Add(ts, _, _, _) => t == ts
    case AddOnlyLabels(ts, _) => t == ts
    case AddOnlyTimestamp(ts) => t == ts
    case Clear => false
  }

  /** The record holds what the call was given; Add alone gives data and fills in a missing type. */
  ghost predicate HoldsGiven(r: V1Record, call: Call) {
    match call
    case Add(_, data, contentType, labels) =>
      r.data == data && r.contentType == (if contentType == "" then "application/octet-stream" else contentType)
      && (labels.Some? ==> r.labels == labels.value) && (labels.None? ==> r.labels == map[])
    case AddOnlyLabels(_, labels) => r.data == [] && r.contentType == "" && r.labels == labels
    case AddOnlyTimestamp(_) => r.data == [] && r.contentType == "" && r.labels == map[]
    case Clear => false
  }

  /** Call `i` is the last one at this time, and nothing was cleared since. */
  ghost predicate LastCall(calls: seq<Call>, i: int, t: int) {
    && 0 <= i < |calls| && CallsAt(calls[i], t)
    && forall j :: i < j < |calls| ==> !calls[j].Clear? && !CallsAt(calls[j], t)
  }

  lemma ApplyGives(records: V1Records, call: Call, t: int)
    ensures CallsAt(call, t) ==> t in Apply(records, call) && HoldsGiven(Apply(records, call)[t], call)
    ensures call.Clear? ==> t !in Apply(records, call)
    ensures !call.Clear? && !CallsAt(call, t) ==>
              (t in Apply(records, call) <==> t in records) && (t in records ==> Apply(records, call)[t] == records[t])
  {}

  lemma LastCallSnoc(calls: seq<Call>, call: Call, i: int, t: int)
    requires !call.Clear? && !CallsAt(call, t)
    ensures LastCall(calls + [call], i, t) <==> LastCall(calls, i, t)
    ensures LastCall(calls, i, t) ==> (calls + [call])[i] == calls[i]
  {
    hide CallsAt;
    var more := calls + [call];
    assert more[|calls|] == call;
    assert forall j :: 0 <= j < |calls| ==> more[j] == calls[j];
  }

  lemma LastCallEnds(calls: seq<Call>, i: int, t: int)
    requires calls != [] && LastCall(calls, i, t)
    ensures !calls[|calls| - 1].Clear?
    ensures CallsAt(calls[|calls| - 1], t) ==> i == |calls| - 1
  {}

  /** After any run the batch holds, at each time, what the last call for that time was given. */
  lemma {:induction false} StoredIsLastCall(calls: seq<Call>, t: int)
    ensures t in Run(calls) <==> exists i :: LastCall(calls, i, t)
    ensures forall i :: LastCall(calls, i, t) ==> t in Run(calls) && HoldsGiven(Run(calls)[t], calls[i])
  {
    hide Apply, CallsAt, HoldsGiven;
    if calls != [] {
      var init, last := calls[..|calls| - 1], calls[|calls| - 1];
      assert calls == init + [last];
      StoredIsLastCall(init, t);
      ApplyGives(Run(init), last, t);
      NeverAtClear(last, t);
      if last.Clear? || CallsAt(last, t) {
        forall i | LastCall(calls, i, t) ensures !last.Clear? && i == |init| { LastCallEnds(calls, i, t); }
        assert !last.Clear? ==> LastCall(calls, |init|, t);
      } else {
        forall i ensures LastCall(calls, i, t) <==> LastCall(init, i, t) { LastCallSnoc(init, last, i, t); }
        forall i | LastCall(calls, i, t) ensures calls[i] == init[i] { LastCallSnoc(init, last, i, t); }
      }
    }
  }

  lemma NeverAtClear(call: Call, t: int)
    ensures call.Clear? ==> !CallsAt(call, t)
  {}

  // ---- sizes --------------------------------------------------------------------------------

  function StoredSizes(records: V1Records): map<int, nat> {
    map t: int | t in records :: |records[t].data|
  }

  /** The bytes of the stored records. */
  ghost function StoredBytes(records: V1Records): nat {
    Total(StoredSizes(records))
  }

  function DataAtTime(records: V1Records, t: int): nat {
    if t in records then |records[t].data| else 0
  }

  /** The bytes of records that a later call replaced, with data or without, since the batch was last cleared. */
  function Overwritten(calls: seq<Call>): nat {
    if calls == [] then 0
    else
      var init := calls[..|calls| - 1];
      match calls[|calls| - 1]
      case Clear => 0
      case Add(t, _, _, _) => Overwritten(init) + DataAtTime(Run(init), t)
      case AddOnlyLabels(t, _) => Overwritten(init) + DataAtTime(Run(init), t)
      case AddOnlyTimestamp(t) => Overwritten(init) + DataAtTime(Run(init), t)
  }

  lemma {:induction false} PutBytes(records: V1Records, t: int, r: V1Record)
    ensures StoredBytes(records[t := r]) + DataAtTime(records, t) == StoredBytes(records) + |r.data|
  {
    hide Total;
    TotalPut(StoredSizes(records), t, |r.data|);
    assert StoredSizes(records[t := r]) == StoredSizes(records)[t := |r.data|];
  }

  lemma NoSizes()
    ensures StoredBytes(map[]) == 0
  {
    TotalOfNothing<int>();
    assert StoredSizes(map[]) == map[];
  }

  /** Size accounting over whole runs: the counted size is the stored bytes plus the overwritten ones. */
  lemma {:induction false} SizeAccounting(calls: seq<Call>)
    ensures CountedBytes(calls) == StoredBytes(Run(calls)) + Overwritten(calls)
  {
    hide StoredBytes;
    if calls == [] || calls[|calls| - 1].Clear? {
      NoSizes();
    } else {
      var init := calls[..|calls| - 1];
      SizeAccounting(init);
      match calls[|calls| - 1]
      case Add(t, data, contentType, labels) => PutBytes(Run(init), t, Run(calls)[t]);
      case AddOnlyLabels(t, labels) => PutBytes(Run(init), t, Run(calls)[t]);
      case AddOnlyTimestamp(t) => PutBytes(Run(init), t, Run(calls)[t]);
    }
  }

  /** The body that Write sends is exactly the stored bytes, so the counted size is never below it. */
  lemma {:induction false} BodyIsStoredBytes(calls: seq<Call>, times: seq<int>)
    requires IsTimes(times, Run(calls)) && forall i :: 0 <= i < |times| ==> times[i] in Run(calls)
    ensures |Concat(DataAt(Run(calls), times))| == StoredBytes(Run(calls)) == CountedBytes(calls) - Overwritten(calls)
  {
    hide Total, Concat, Run, CountedBytes, Overwritten;
    SizeAccounting(calls);
    TimesEnumerate(times, Run(calls));
    TotalInOrder(StoredSizes(Run(calls)), times);
    ConcatLength(DataAt(Run(calls), times));
    assert ValuesAt(StoredSizes(Run(calls)), times) == Lengths(DataAt(Run(calls), times));
  }

  lemma TimesEnumerate(times: seq<int>, records: V1Records)
    requires IsTimes(times, records)
    ensures Enumerates(times, StoredSizes(records))
  {
    forall i, j | 0 <= i < j < |times| ensures times[i] != times[j] { assert IntLess(times[i], times[j]); }
  }
}
