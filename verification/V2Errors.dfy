/** Mapping per-record error headers back to records (record_batch.go: parseRecordBatchErrors). */
module V2Errors {
  import opened Text
  import opened Ordering
  import opened Decimal
  import opened Headers
  import opened V2Encode
  import opened V2Order
  import opened V2RoundTrip

  /** model.APIError. */
  datatype ApiError = ApiError(status: int, message: string)

  /** RecordBatchErrorMap. */
  type ErrorMap = map<string, map<int, ApiError>>

  /** What one response header says: nothing, something unreadable, or an error of a record. */
  datatype ErrorHeader = Skip | Bad | Found(entry: string, ts: int, error: ApiError)

  function ReadError(key: string, values: seq<string>, entries: seq<string>, startTS: int): ErrorHeader {
    if !HasPrefix(key, ERROR_PREFIX) then Skip
    else
      var suffix := key[|ERROR_PREFIX|..];
      var lastDash := LastIndex(suffix, '-');
      if lastDash == -1 then Bad
      else
        var entryIndex, delta := ParseInt(suffix[..lastDash]), ParseInt(suffix[lastDash + 1..]);
        if entryIndex.None? || delta.None? || entryIndex.value < 0 || entryIndex.value >= |entries| then Bad
        else if values == [] then Skip
        else ReadValue(values[0], entries[entryIndex.value], Wrap64(startTS + delta.value))
  }

  /** `<status>,<message>`, where the message may hold further commas. */
  function ReadValue(value: string, entry: string, ts: int): ErrorHeader {
    var comma := Index(value, ',');
    if comma == -1 || ParseInt(value[..comma]).None? then Bad
    else Found(entry, ts, ApiError(ParseInt(value[..comma]).value, value[comma + 1..]))
  }

  function Put(errs: ErrorMap, entry: string, ts: int, e: ApiError): ErrorMap {
    errs[entry := (if entry in errs then errs[entry] else map[])[ts := e]]
  }

  function ErrorStep(errs: ErrorMap, h: ErrorHeader): Result<ErrorMap> {
    match h
    case Skip => Ok(errs)
    case Bad => Err("invalid error header")
    case Found(entry, ts, e) => Ok(Put(errs, entry, ts, e))
  }

  ghost function ErrorRun(headers: Header, order: seq<string>, entries: seq<string>, startTS: int): Result<ErrorMap>
    requires forall i :: 0 <= i < |order| ==> order[i] in headers
  {
    if order == [] then Ok(map[])
    else
      var before := ErrorRun(headers, order[..|order| - 1], entries, startTS);
      var key := order[|order| - 1];
      if before.Err? then before else ErrorStep(before.value, ReadError(key, headers[key], entries, startTS))
  }

  lemma {:induction false} ErrorRunFails(headers: Header, order: seq<string>, entries: seq<string>, startTS: int,
                                         n: nat)
    requires n <= |order| && forall i :: 0 <= i < |order| ==> order[i] in headers
    requires ErrorRun(headers, order[..n], entries, startTS).Err?
    ensures ErrorRun(headers, order, entries, startTS).Err?
    ensures ErrorRun(headers, order, entries, startTS) == ErrorRun(headers, order[..n], entries, startTS)
    decreases |order| - n
  {
    hide ErrorStep, ReadError;
    if n == |order| {
      assert order[..n] == order;
    } else {
      assert order[..n + 1][..n] == order[..n];
      ErrorRunFails(headers, order, entries, startTS, n + 1);
    }
  }

  /** parseRecordBatchErrors. */
  method ParseRecordBatchErrors(headers: Header, order: seq<string>, entries: seq<string>, startTS: int)
    returns (r: Result<ErrorMap>)
    requires forall i :: 0 <= i < |order| ==> order[i] in headers
    ensures r == ErrorRun(headers, order, entries, startTS)
  {
    hide LastIndex, ParseInt, HasPrefix, ReadError;
    var errs: ErrorMap := map[];
    for i := 0 to |order|
      invariant ErrorRun(headers, order[..i], entries, startTS) == Ok(errs)
    {
      var key := order[i];
      assert order[..i + 1][..i] == order[..i];
      var h := ReadErrorHeader(key, headers[key], entries, startTS);
      match h
      case Skip =>
      case Bad =>
        ErrorRunFails(headers, order, entries, startTS, i + 1);
        return Err("invalid error header");
      case Found(entry, ts, e) =>
        var entryErrors := if entry in errs then errs[entry] else map[];
        errs := errs[entry := entryErrors[ts := e]];
    }
    assert order[..|order|] == order;
    r := Ok(errs);
  }

  /** The body of the loop: parse the name, then split the value. */
  method ReadErrorHeader(key: string, values: seq<string>, entries: seq<string>, startTS: int) returns (h: ErrorHeader)
    ensures h == ReadError(key, values, entries, startTS)
  {
    hide LastIndex, ParseInt, Index;
    if !HasPrefix(key, ERROR_PREFIX) {
      return Skip;
    }
    var suffix := key[|ERROR_PREFIX|..];
    var lastDash := LastIndex(suffix, '-');
    if lastDash == -1 {
      return Bad;
    }
    var entryIndex := ParseInt(suffix[..lastDash]);
    var delta := ParseInt(suffix[lastDash + 1..]);
    if entryIndex.None? || delta.None? || entryIndex.value < 0 || entryIndex.value >= |entries| {
      return Bad;
    }
    if values == [] {
      return Skip;
    }
    var comma := Index(values[0], ',');
    if comma == -1 {
      return Bad;
    }
    var code := ParseInt(values[0][..comma]);
    if code.None? {
      return Bad;
    }
    h := Found(entries[entryIndex.value], Wrap64(startTS + delta.value), ApiError(code.value, values[0][comma + 1..]));
  }

  // ---- attribution --------------------------------------------------------------------------

  function ErrorName(entryIndex: nat, delta: int): string {
    ERROR_PREFIX + (FormatInt(entryIndex) + ['-'] + FormatInt(delta))
  }

  function ErrorValue(e: ApiError): string {
    FormatInt(e.status) + [','] + e.message
  }

  /** The name under which the server reports an error of item `i`. */
  ghost function ErrorNameAt(items: seq<Rec>, i: nat): string
    requires i < |items|
  {
    ErrorName(IndexAll(items)[i].entryIndex, DeltaFrom(MinTimestamp(items), items[i]))
  }

  lemma ValueRoundTrip(e: ApiError, entry: string, ts: int)
    requires InInt64(e.status)
    ensures ReadValue(ErrorValue(e), entry, ts) == Found(entry, ts, e)
  {
    var d := FormatInt(e.status);
    FormatChars(e.status);
    FormatParse(e.status);
    assert ',' !in d;
    hide Index, ParseInt, FormatInt;
    IndexAfter(d, ',', e.message);
    assert ErrorValue(e)[..|d|] == d && ErrorValue(e)[|d| + 1..] == e.message;
  }

  lemma ErrorPrefix(suffix: string)
    ensures HasPrefix(ERROR_PREFIX + suffix, ERROR_PREFIX) && (ERROR_PREFIX + suffix)[|ERROR_PREFIX|..] == suffix
  {}

  lemma ErrorReads(idx: nat, delta: int, values: seq<string>, e: ApiError, entries: seq<string>, startTS: int)
    requires idx < |entries| <= MAX_INT64 && InInt64(delta) && InInt64(e.status)
    requires values != [] && values[0] == ErrorValue(e)
    ensures ReadError(ErrorName(idx, delta), values, entries, startTS)
            == if delta < 0 then Bad else Found(entries[idx], Wrap64(startTS + delta), e)
  {
    var suffix := FormatInt(idx) + ['-'] + FormatInt(delta);
    hide LastIndex, ParseInt, HasPrefix, FormatInt, ReadValue, ErrorValue;
    ErrorPrefix(suffix);
    if delta >= 0 {
      PlainName(idx, delta);
      FormatParse(idx);
      FormatParse(delta);
      ValueRoundTrip(e, entries[idx], Wrap64(startTS + delta));
    } else {
      NegativeName(idx, delta);
    }
  }

  /** The response reports exactly these errors; its other headers do not start like error headers. */
  ghost predicate Reports(h: Header, items: seq<Rec>, errors: map<nat, ApiError>) {
    && (forall i :: i in errors ==> i < |items| && InInt64(errors[i].status))
    && (forall i :: i in errors ==> ErrorNameAt(items, i) in h && h[ErrorNameAt(items, i)] != []
                                    && h[ErrorNameAt(items, i)][0] == ErrorValue(errors[i]))
    && (forall key :: key in h && HasPrefix(key, ERROR_PREFIX) ==> exists i :: i in errors && ErrorNameAt(items, i) == key)
  }

  /** Error `i` is filed under its record. */
  ghost predicate FiledAt(errs: ErrorMap, items: seq<Rec>, errors: map<nat, ApiError>, i: nat)
    requires i in errors && i < |items|
  {
    && items[i].entry in errs && items[i].timestamp in errs[items[i].entry]
    && errs[items[i].entry][items[i].timestamp] == errors[i]
  }

  /** Nothing is filed but what was reported. */
  ghost predicate OnlyReported(errs: ErrorMap, items: seq<Rec>, errors: map<nat, ApiError>)
    requires forall i :: i in errors ==> i < |items|
  {
    && (forall entry, ts :: entry in errs && ts in errs[entry] ==>
          exists i :: i in errors && items[i].entry == entry && items[i].timestamp == ts)
    && (forall entry :: entry in errs ==> errs[entry] != map[])
  }

  /** Every reported error met so far is filed under its record, and nothing else is filed. */
  ghost predicate FiledSoFar(errs: ErrorMap, items: seq<Rec>, errors: map<nat, ApiError>, seen: seq<string>)
    requires forall i :: i in errors ==> i < |items|
  {
    && (forall i :: i in errors && ErrorNameAt(items, i) in seen ==> FiledAt(errs, items, errors, i))
    && OnlyReported(errs, items, errors)
  }

  /** The error map attributes exactly the reported errors to exactly their records. */
  ghost predicate Attributes(errs: ErrorMap, items: seq<Rec>, errors: map<nat, ApiError>)
    requires forall i :: i in errors ==> i < |items|
  {
    (forall i :: i in errors ==> FiledAt(errs, items, errors, i)) && OnlyReported(errs, items, errors)
  }

  lemma {:induction false} ReportRead(h: Header, items: seq<Rec>, errors: map<nat, ApiError>, i: nat)
    requires items != [] && InMachine(items) && Reports(h, items, errors) && i in errors
    ensures ReadError(ErrorNameAt(items, i), h[ErrorNameAt(items, i)], Entries(items), MinTimestamp(items))
            == if DeltaFrom(MinTimestamp(items), items[i]) < 0 then Bad
               else Found(items[i].entry, items[i].timestamp, errors[i])
  {
    hide ReadError, ErrorName, ErrorValue, MinTimestamp, DeltaFrom, Entries, IndexAll;
    IndexBound(items, i);
    DeltaExact(items, i);
    ErrorReads(IndexAll(items)[i].entryIndex, DeltaFrom(MinTimestamp(items), items[i]), h[ErrorNameAt(items, i)],
               errors[i], Entries(items), MinTimestamp(items));
  }

  lemma FiledOne(errs: ErrorMap, items: seq<Rec>, errors: map<nat, ApiError>, seen: seq<string>, k: nat)
    requires (forall i :: i in errors ==> i < |items|) && k in errors && DistinctRecs(items)
    requires FiledSoFar(errs, items, errors, seen)
    requires forall i :: i in errors && ErrorNameAt(items, i) == ErrorNameAt(items, k) ==> i == k
    ensures FiledSoFar(Put(errs, items[k].entry, items[k].timestamp, errors[k]), items, errors, seen + [ErrorNameAt(items, k)])
  {
    hide ErrorNameAt;
    var errs' := Put(errs, items[k].entry, items[k].timestamp, errors[k]);
    forall i | i in errors && ErrorNameAt(items, i) in seen + [ErrorNameAt(items, k)]
      ensures FiledAt(errs', items, errors, i) {
      if i != k {
        assert ErrorNameAt(items, i) in seen && FiledAt(errs, items, errors, i);
        assert items[i].entry != items[k].entry || items[i].timestamp != items[k].timestamp;
      }
    }
  }

  lemma FiledSkip(errs: ErrorMap, items: seq<Rec>, errors: map<nat, ApiError>, seen: seq<string>, key: string)
    requires forall i :: i in errors ==> i < |items|
    requires FiledSoFar(errs, items, errors, seen)
    requires forall i :: i in errors ==> ErrorNameAt(items, i) != key
    ensures FiledSoFar(errs, items, errors, seen + [key])
  {
    hide ErrorNameAt;
  }

  /** Two reported errors do not share a header name. */
  lemma {:induction false} ReportNamesDistinct(h: Header, items: seq<Rec>, errors: map<nat, ApiError>, i: nat, k: nat)
    requires items != [] && InMachine(items) && DistinctRecs(items) && Reports(h, items, errors) && i in errors && k in errors
    requires DeltaFrom(MinTimestamp(items), items[i]) >= 0 && DeltaFrom(MinTimestamp(items), items[k]) >= 0
    requires ErrorNameAt(items, i) == ErrorNameAt(items, k)
    ensures i == k
  {
    hide ReadError, ErrorNameAt, MinTimestamp, DeltaFrom, Entries, InMachine;
    ReportRead(h, items, errors, i);
    ReportRead(h, items, errors, k);
    SameKeySameRecord(items, i, k);
  }

  ghost predicate DeltasFit(items: seq<Rec>, errors: map<nat, ApiError>)
    requires items != [] && forall i :: i in errors ==> i < |items|
  {
    forall i :: i in errors ==> DeltaFrom(MinTimestamp(items), items[i]) >= 0
  }

  lemma {:induction false} FiledAll(h: Header, items: seq<Rec>, errors: map<nat, ApiError>, order: seq<string>)
    requires items != [] && InMachine(items) && DistinctRecs(items) && Reports(h, items, errors)
    requires DeltasFit(items, errors)
    requires forall i :: 0 <= i < |order| ==> order[i] in h
    ensures var r := ErrorRun(h, order, Entries(items), MinTimestamp(items));
            r.Ok? && FiledSoFar(r.value, items, errors, order)
  {
    hide ErrorNameAt, ReadError, Put, MinTimestamp, DeltaFrom, Entries, HasPrefix, InMachine, FiledSoFar;
    if order == [] {
      NothingFiled(items, errors);
    } else {
      var init, key := order[..|order| - 1], order[|order| - 1];
      assert order == init + [key];
      FiledAll(h, items, errors, init);
      var errs := ErrorRun(h, init, Entries(items), MinTimestamp(items)).value;
      if HasPrefix(key, ERROR_PREFIX) {
        var k :| k in errors && ErrorNameAt(items, k) == key;
        ReportRead(h, items, errors, k);
        forall i | i in errors && ErrorNameAt(items, i) == ErrorNameAt(items, k) ensures i == k {
          ReportNamesDistinct(h, items, errors, i, k);
        }
        FiledOne(errs, items, errors, init, k);
      } else {
        NotAnErrorName(key, h[key], Entries(items), MinTimestamp(items));
        forall i | i in errors ensures ErrorNameAt(items, i) != key { ErrorNameHasPrefix(items, i); }
        FiledSkip(errs, items, errors, init, key);
      }
    }
  }

  lemma NothingFiled(items: seq<Rec>, errors: map<nat, ApiError>)
    requires forall i :: i in errors ==> i < |items|
    ensures FiledSoFar(map[], items, errors, [])
  {}

  lemma NotAnErrorName(key: string, values: seq<string>, entries: seq<string>, startTS: int)
    requires !HasPrefix(key, ERROR_PREFIX)
    ensures ReadError(key, values, entries, startTS) == Skip
  {}

  lemma ErrorNameHasPrefix(items: seq<Rec>, i: nat)
    requires i < |items|
    ensures HasPrefix(ErrorNameAt(items, i), ERROR_PREFIX)
  {
    hide FormatInt, MinTimestamp, DeltaFrom, IndexAll, HasPrefix;
    ErrorPrefix(FormatInt(IndexAll(items)[i].entryIndex) + ['-'] + FormatInt(DeltaFrom(MinTimestamp(items), items[i])));
  }

  /**
   * Error attribution: for any order of the response headers the errors are
   * mapped back to exactly their records, statuses and messages, if and only
   * if no record that has an error lies more than 2^63-1 after the start.
   */
  lemma {:induction false} ErrorsAttributedIff(h: Header, items: seq<Rec>, errors: map<nat, ApiError>,
                                               order: seq<string>)
    requires items != [] && InMachine(items) && DistinctRecs(items) && Reports(h, items, errors)
    requires Enumerates(order, h)
    ensures (forall i :: 0 <= i < |order| ==> order[i] in h)
    ensures var r := ErrorRun(h, order, Entries(items), MinTimestamp(items));
            (r.Ok? && Attributes(r.value, items, errors))
            <==> forall i :: i in errors ==> items[i].timestamp - MinTimestamp(items) <= MAX_INT64
  {
    hide ErrorNameAt, ReadError, Put, MinTimestamp, DeltaFrom, Entries, HasPrefix, InMachine, ErrorRun;
    assert forall i :: 0 <= i < |order| ==> order[i] in order;
    forall i | i in errors ensures DeltaFrom(MinTimestamp(items), items[i]) >= 0 <==> items[i].timestamp - MinTimestamp(items) <= MAX_INT64 {
      DeltaExact(items, i);
    }
    if DeltasFit(items, errors) {
      FiledAll(h, items, errors, order);
    } else {
      var i :| i in errors && DeltaFrom(MinTimestamp(items), items[i]) < 0;
      WrappedErrorRejects(h, items, errors, order, i);
    }
  }

  lemma {:induction false} WrappedErrorRejects(h: Header, items: seq<Rec>, errors: map<nat, ApiError>,
                                               order: seq<string>, i: nat)
    requires items != [] && InMachine(items) && Reports(h, items, errors) && i in errors
    requires DeltaFrom(MinTimestamp(items), items[i]) < 0
    requires Enumerates(order, h) && forall k :: 0 <= k < |order| ==> order[k] in h
    ensures ErrorRun(h, order, Entries(items), MinTimestamp(items)).Err?
  {
    hide ErrorNameAt, ReadError, Put, MinTimestamp, DeltaFrom, Entries, InMachine, HasPrefix, ErrorValue, InInt64;
    ReportRead(h, items, errors, i);
    var n :| 0 <= n < |order| && order[n] == ErrorNameAt(items, i);
    assert order[..n + 1][..n] == order[..n];
    ErrorRunFails(h, order, Entries(items), MinTimestamp(items), n + 1);
  }

  /** The response reports one error, of record `i`. */
  lemma OneReport(items: seq<Rec>, i: nat, e: ApiError) returns (h: Header, errors: map<nat, ApiError>)
    requires i < |items| && InInt64(e.status)
    ensures errors == map[i := e] && Reports(h, items, errors)
  {
    hide ErrorNameAt, ErrorValue, HasPrefix;
    h, errors := map[ErrorNameAt(items, i) := [ErrorValue(e)]], map[i := e];
  }

  /** A reported error that no order of the headers attributes. */
  ghost predicate IsUnattributed(h: Header, items: seq<Rec>, errors: map<nat, ApiError>)
    requires items != [] && Reports(h, items, errors)
  {
    && (exists order :: Enumerates(order, h))
    && forall order :: Enumerates(order, h) && (forall i :: 0 <= i < |order| ==> order[i] in h) ==>
         var r := ErrorRun(h, order, Entries(items), MinTimestamp(items));
         !(r.Ok? && Attributes(r.value, items, errors))
  }

  /** The error of a record 2^64-1 microseconds after the start is not attributed. */
  lemma {:induction false} WideErrorExample()
    ensures var items := [Rec("a", MIN_INT64, [], "", map[]), Rec("a", MAX_INT64, [], "", map[])];
            && InMachine(items) && DistinctRecs(items)
            && exists h, errors :: Reports(h, items, errors) && IsUnattributed(h, items, errors)
  {
    var items := [Rec("a", MIN_INT64, [], "", map[]), Rec("a", MAX_INT64, [], "", map[])];
    assert items[0].timestamp == MIN_INT64 && items[1].timestamp == MAX_INT64;
    assert InMachine(items) && DistinctRecs(items);
    hide ErrorNameAt, ErrorRun, Entries, Attributes, Reports, MinTimestamp, InMachine, DistinctRecs, FiledAt, OnlyReported;
    MinTimestampIsLeast(items);
    var h, errors := OneReport(items, 1, ApiError(409, ""));
    EnumerationExists(h);
    forall order | Enumerates(order, h) && (forall i :: 0 <= i < |order| ==> order[i] in h)
      ensures var r := ErrorRun(h, order, Entries(items), MinTimestamp(items));
              !(r.Ok? && Attributes(r.value, items, errors)) {
      ErrorsAttributedIff(h, items, errors, order);
      assert 1 in errors;
    }
    assert IsUnattributed(h, items, errors);
  }
}
