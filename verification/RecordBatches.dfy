/** The batch that a caller fills: what it holds and what it reports as its size (record_batch.go: RecordBatch). */
module RecordBatches {
  import opened Text
  import opened Ordering
  import opened Decimal
  import opened HeaderList
  import opened Headers
  import opened LabelDelta
  import opened V2Encode
  import opened V2Order
  import opened Bodies
  import opened Totals

  /** recordBatchKey. */
  datatype Key = Key(entry: string, ts: int)

  type Stored = map<Key, Rec>

  /** The calls that change a batch. */
  datatype Call =
    | Add(entry: string, ts: int, data: bytes, contentType: string, labels: Option<LabelMap>)
    | AddOnlyLabels(entry: string, ts: int, labels: Option<LabelMap>)
    | AddOnlyTimestamp(entry: string, ts: int)
    | Clear

  datatype State = State(records: Stored, totalSize: nat)

  function KeyOf(r: Rec): Key {
    Key(r.entry, r.timestamp)
  }

  function NewRec(entry: string, ts: int, data: bytes, contentType: string, labels: Option<LabelMap>): Option<Rec> {
    if entry == "" then None
    else Some(Rec(entry, ts, data, EffectiveType(contentType), if labels.None? then map[] else labels.value))
  }

  /** The record a call stores; calls with an empty entry name store nothing. */
  function Recorded(call: Call): Option<Rec> {
    match call
    case Add(entry, ts, data, contentType, labels) => NewRec(entry, ts, data, contentType, labels)
    case AddOnlyLabels(entry, ts, labels) => NewRec(entry, ts, [], "", labels)
    case AddOnlyTimestamp(entry, ts) => NewRec(entry, ts, [], "", Some(map[]))
    case Clear => None
  }

  function Apply(s: State, call: Call): State {
    if call.Clear? then State(map[], 0)
    else if Recorded(call).None? then s
    else
      var r := Recorded(call).value;
      State(s.records[KeyOf(r) := r], s.totalSize + |r.data|)
  }

  function Run(calls: seq<Call>): State {
    if calls == [] then State(map[], 0) else Apply(Run(calls[..|calls| - 1]), calls[|calls| - 1])
  }

  class RecordBatch {
    var records: Stored
    var totalSize: nat

    function Abs(): State
      reads this
    {
      State(records, totalSize)
    }

    constructor ()
      ensures Abs() == State(map[], 0)
    {
      records := map[];
      totalSize := 0;
    }

    method Add(entry: string, ts: int, data: bytes, contentType: string, labels: Option<LabelMap>)
      modifies this
      ensures Abs() == Apply(old(Abs()), Call.Add(entry, ts, data, contentType, labels))
    {
      if entry == "" {
        return;
      }
      var kind := if contentType == "" then OCTET_STREAM else contentType;
      var given := if labels.None? then map[] else labels.value;
      totalSize := totalSize + |data|;
      records := records[Key(entry, ts) := Rec(entry, ts, data, kind, given)];
    }

    method AddOnlyLabels(entry: string, ts: int, labels: Option<LabelMap>)
      modifies this
      ensures Abs() == Apply(old(Abs()), Call.AddOnlyLabels(entry, ts, labels))
    {
      Add(entry, ts, [], "", labels);
    }

    method AddOnlyTimestamp(entry: string, ts: int)
      modifies this
      ensures Abs() == Apply(old(Abs()), Call.AddOnlyTimestamp(entry, ts))
    {
      Add(entry, ts, [], "", Some(map[]));
    }

    method Clear()
      modifies this
      ensures Abs() == Apply(old(Abs()), Call.Clear)
    {
      records := map[];
      totalSize := 0;
    }

    /** The records in the order in which the map happens to give them (record_batch.go: Send). */
    method Items() returns (items: seq<Rec>)
      requires forall k :: k in records ==> KeyOf(records[k]) == k
      ensures Lists(items, records)
    {
      items := [];
      var left := records.Keys;
      while left != {}
        invariant left <= records.Keys
        invariant Lists(items, records - left)
      {
        ListsMore(items, records, left);
        var k :| k in left;
        left := left - {k};
        items := items + [records[k]];
      }
      assert records - left == records;
    }
  }

  // ---- what is stored -----------------------------------------------------------------------

  /** The sequence holds the values of the map, each once. */
  ghost predicate Lists(items: seq<Rec>, m: Stored) {
    && DistinctRecs(items)
    && (forall i :: 0 <= i < |items| ==> KeyOf(items[i]) in m && m[KeyOf(items[i])] == items[i])
    && (forall k :: k in m ==> exists i :: 0 <= i < |items| && items[i] == m[k] && KeyOf(items[i]) == k)
  }

  lemma ListsSnoc(items: seq<Rec>, m: Stored, r: Rec)
    requires Lists(items, m) && KeyOf(r) !in m
    ensures Lists(items + [r], m[KeyOf(r) := r])
  {
    var m' := m[KeyOf(r) := r];
    var items' := items + [r];
    forall k | k in m' ensures exists i :: 0 <= i < |items'| && items'[i] == m'[k] && KeyOf(items'[i]) == k {
      if k == KeyOf(r) {
        assert items'[|items|] == r;
      } else {
        var i :| 0 <= i < |items| && items[i] == m[k] && KeyOf(items[i]) == k;
        assert items'[i] == items[i];
      }
    }
  }

  lemma ListsMore(items: seq<Rec>, m: Stored, left: set<Key>)
    requires left <= m.Keys && Lists(items, m - left)
    requires forall k :: k in m ==> KeyOf(m[k]) == k
    ensures forall k :: k in left ==> Lists(items + [m[k]], m - (left - {k}))
  {
    forall k | k in left ensures Lists(items + [m[k]], m - (left - {k})) {
      ListsSnoc(items, m - left, m[k]);
      assert (m - left)[k := m[k]] == m - (left - {k});
    }
  }

  /** The call is for this key; calls with an empty entry name are for none. */
  predicate CallsFor(call: Call, k: Key) {
    k.entry != "" && match call
                     case Add(entry, ts, _, _, _) => k == Key(entry, ts)
                     case AddOnlyLabels(entry, ts, _) => k == Key(entry, ts)
                     case AddOnlyTimestamp(entry, ts) => k == Key(entry, ts)
                     case Clear => false
  }

  ghost predicate GivenType(got: string, given: string) {
    got == if given == "" then "application/octet-stream" else given
  }

  ghost predicate GivenLabels(got: LabelMap, given: Option<LabelMap>) {
    match given case Some(labels) => got == labels case None => got == map[]
  }

  /** The record holds what the call was given; only Add gives data and a type. */
  ghost predicate HoldsGiven(r: Rec, call: Call) {
    match call
    case Add(entry, ts, data, contentType, labels) =>
      KeyOf(r) == Key(entry, ts) && r.data == data && GivenType(r.contentType, contentType) && GivenLabels(r.labels, labels)
    case AddOnlyLabels(entry, ts, labels) =>
      KeyOf(r) == Key(entry, ts) && r.data == [] && GivenType(r.contentType, "") && GivenLabels(r.labels, labels)
    case AddOnlyTimestamp(entry, ts) =>
      KeyOf(r) == Key(entry, ts) && r.data == [] && GivenType(r.contentType, "") && r.labels == map[]
    case Clear => false
  }

  lemma RecordedIsGiven(call: Call, k: Key)
    ensures Recorded(call).Some? && KeyOf(Recorded(call).value) == k <==> CallsFor(call, k)
    ensures CallsFor(call, k) ==> HoldsGiven(Recorded(call).value, call)
  {}

  /** Call `i` is the last one for `k`, and nothing was cleared since. */
  ghost predicate LastWrite(calls: seq<Call>, i: int, k: Key) {
    && 0 <= i < |calls| && CallsFor(calls[i], k)
    && forall j :: i < j < |calls| ==> !calls[j].Clear? && !CallsFor(calls[j], k)
  }

  /** A call that neither clears nor is for `k` changes nothing about the last write. */
  lemma LastWriteSnoc(calls: seq<Call>, call: Call, i: int, k: Key)
    requires !call.Clear? && !CallsFor(call, k)
    ensures LastWrite(calls + [call], i, k) <==> LastWrite(calls, i, k)
    ensures LastWrite(calls, i, k) ==> (calls + [call])[i] == calls[i]
  {
    hide CallsFor;
    var more := calls + [call];
    assert more[|calls|] == call;
    assert forall j :: 0 <= j < |calls| ==> more[j] == calls[j];
  }

  lemma LastWriteEnds(calls: seq<Call>, i: int, k: Key)
    requires calls != [] && LastWrite(calls, i, k)
    ensures !calls[|calls| - 1].Clear?
    ensures CallsFor(calls[|calls| - 1], k) ==> i == |calls| - 1
  {}

  /** After any run the batch holds, under each key, what the last call for that key was given. */
  lemma {:induction false} StoredIsLastWrite(calls: seq<Call>, k: Key)
    ensures k in Run(calls).records <==> exists i :: LastWrite(calls, i, k)
    ensures forall i :: LastWrite(calls, i, k) ==> k in Run(calls).records && HoldsGiven(Run(calls).records[k], calls[i])
  {
    hide Recorded, CallsFor, HoldsGiven;
    if calls != [] {
      var init, last := calls[..|calls| - 1], calls[|calls| - 1];
      assert calls == init + [last];
      StoredIsLastWrite(init, k);
      RecordedIsGiven(last, k);
      NeverForClear(last, k);
      if last.Clear? || CallsFor(last, k) {
        forall i | LastWrite(calls, i, k) ensures !last.Clear? && i == |init| { LastWriteEnds(calls, i, k); }
        assert !last.Clear? ==> LastWrite(calls, |init|, k);
      } else {
        forall i ensures LastWrite(calls, i, k) <==> LastWrite(init, i, k) { LastWriteSnoc(init, last, i, k); }
        forall i | LastWrite(calls, i, k) ensures calls[i] == init[i] { LastWriteSnoc(init, last, i, k); }
      }
    }
  }

  lemma NeverForClear(call: Call, k: Key)
    ensures call.Clear? ==> !CallsFor(call, k)
  {}

  /** After any run every record is stored under its own key, as Items asks. */
  lemma {:induction false} StoredUnderOwnKey(calls: seq<Call>)
    ensures forall k :: k in Run(calls).records ==> KeyOf(Run(calls).records[k]) == k
  {
    if calls != [] { StoredUnderOwnKey(calls[..|calls| - 1]); }
  }

  // ---- sizes --------------------------------------------------------------------------------

  function StoredSizes(m: Stored): map<Key, nat> {
    map k | k in m :: |m[k].data|
  }

  /** The bytes of the stored records. */
  ghost function StoredBytes(m: Stored): nat {
    Total(StoredSizes(m))
  }

  /** The bytes of records that a later call replaced, since the batch was last cleared. */
  function Overwritten(calls: seq<Call>): nat {
    if calls == [] then 0
    else
      var init, last := calls[..|calls| - 1], calls[|calls| - 1];
      if last.Clear? then 0
      else if Recorded(last).None? then Overwritten(init)
      else
        var k, before := KeyOf(Recorded(last).value), Run(init).records;
        Overwritten(init) + if k in before then |before[k].data| else 0
  }

  lemma {:induction false} PutBytes(m: Stored, k: Key, r: Rec)
    ensures StoredBytes(m[k := r]) + (if k in m then |m[k].data| else 0) == StoredBytes(m) + |r.data|
  {
    hide Total;
    TotalPut(StoredSizes(m), k, |r.data|);
    assert StoredSizes(m[k := r]) == StoredSizes(m)[k := |r.data|];
  }

  /** Size accounting over whole runs: Size() is the stored bytes plus the overwritten ones. */
  lemma {:induction false} SizeAccounting(calls: seq<Call>)
    ensures Run(calls).totalSize == StoredBytes(Run(calls).records) + Overwritten(calls)
  {
    hide StoredBytes;
    if calls == [] || calls[|calls| - 1].Clear? {
      NoSizes();
    } else {
      var init, last := calls[..|calls| - 1], calls[|calls| - 1];
      SizeAccounting(init);
      if Recorded(last).Some? {
        PutBytes(Run(init).records, KeyOf(Recorded(last).value), Recorded(last).value);
      }
    }
  }

  lemma NoSizes()
    ensures StoredBytes(map[]) == 0
  {
    TotalOfNothing<Key>();
    assert StoredSizes(map[]) == map[];
  }

  function KeysOf(items: seq<Rec>): (keys: seq<Key>)
    ensures |keys| == |items|
    ensures forall i :: 0 <= i < |items| ==> keys[i] == KeyOf(items[i])
  {
    seq(|items|, i requires 0 <= i < |items| => KeyOf(items[i]))
  }

  lemma {:induction false} BodyIsStoredBytes(items: seq<Rec>, m: Stored)
    requires Lists(items, m)
    ensures |BodyOf(items)| == StoredBytes(m)
  {
    hide Total, Concat;
    hide Sum;
    var keys, sizes := KeysOf(items), StoredSizes(m);
    forall k ensures k in keys <==> k in sizes {
      if k in m {
        var i :| 0 <= i < |items| && items[i] == m[k] && KeyOf(items[i]) == k;
        assert keys[i] == k;
      }
    }
    TotalInOrder(sizes, keys);
    ConcatLength(DataOf(items));
    assert ValuesAt(sizes, keys) == Lengths(DataOf(items));
  }

  lemma {:induction false} ListsSorted(items: seq<Rec>, m: Stored)
    requires Lists(items, m) && InModel(items)
    ensures Lists(Sort(items, RecLess), m)
  {
    SortKeepsModel(items);
    SortMembers(items, RecLess);
    var sorted := Sort(items, RecLess);
    forall i | 0 <= i < |sorted| ensures KeyOf(sorted[i]) in m && m[KeyOf(sorted[i])] == sorted[i] {
      assert sorted[i] in items;
    }
    forall k | k in m ensures exists i :: 0 <= i < |sorted| && sorted[i] == m[k] && KeyOf(sorted[i]) == k {
      assert m[k] in items && m[k] in sorted;
    }
  }

  /**
   * What Send puts on the wire for any run of calls and any order in which the
   * map gives the records: body and Content-Length are the stored bytes, and
   * Size() is never below them.
   */
  lemma {:induction false} ContentLengthIsStoredBytes(calls: seq<Call>, items: seq<Rec>)
    requires Lists(items, Run(calls).records) && InModel(items)
    ensures var req := EncodeBatch(items);
            && req.contentLength == |req.body| == StoredBytes(Run(calls).records) == Run(calls).totalSize - Overwritten(calls)
            && Get(req.headers, CONTENT_LENGTH) == FormatInt(|req.body|)
  {
    hide StoredBytes, InModel, EncodeItems, Lists, Run, Overwritten;
    SizeAccounting(calls);
    BodyIsStoredBytes(items, Run(calls).records);
    if items == [] {
      EmptyRequest();
    } else {
      SortKeepsModel(items);
      ListsSorted(items, Run(calls).records);
      BodyIsStoredBytes(Sort(items, RecLess), Run(calls).records);
      WrittenLength(Sort(items, RecLess));
    }
  }

  lemma EmptyRequest()
    ensures Get(EMPTY_HEADERS, CONTENT_LENGTH) == FormatInt(0)
  {
    FixedNamesDiffer();
  }

  lemma {:induction false} WrittenLength(items: seq<Rec>)
    requires items != [] && InModel(items)
    ensures var req := EncodeItems(items);
            req.contentLength == |req.body| && req.body == BodyOf(items) && Get(req.headers, CONTENT_LENGTH) == FormatInt(|req.body|)
  {
    hide EncRun, FormatInt, EncodeList, BodyOf, MinTimestamp, IndexAll, BaseHeaders;
    EntriesAreBytes(items);
    TableIsBytes(items, MinTimestamp(items), BaseHeaders(items));
  }
}
