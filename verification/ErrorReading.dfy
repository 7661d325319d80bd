/**
 * What the error headers of a response mean, independent of the loop that
 * parses them (record_batch.go: parseRecordBatchErrors): for any headers that a
 * server may send.
 */
module ErrorReading {
  import opened Text
  import opened Decimal
  import opened Headers
  import opened LabelGrammar
  import opened V2Reading
  import opened V2Errors

  ghost predicate ErrorParts(key: string, a: string, b: string) {
    key == "x-reduct-error-" + a + "-" + b && '-' !in b
  }

  /** The name of the error of a record: its entry index and its delta after the prefix, as decimal numbers. */
  ghost predicate NamesError(key: string, entryIndex: int, delta: int) {
    exists a, b :: ErrorParts(key, a, b) && WritesNumber(a, entryIndex) && WritesNumber(b, delta)
  }

  /** `<status>,<message>` up to the first comma. */
  ghost predicate TellsError(value: string, error: ApiError) {
    exists code :: value == code + "," + error.message && ',' !in code && WritesNumber(code, error.status)
  }

  ghost predicate IsErrorOf(key: string, values: seq<string>, entries: seq<string>, startTS: int, entry: string, ts: int,
                            error: ApiError) {
    && values != [] && TellsError(values[0], error) && InInt64(ts)
    && exists entryIndex, delta ::
         NamesError(key, entryIndex, delta) && 0 <= entryIndex < |entries| && entries[entryIndex] == entry
         && ts % TWO_TO_THE_64 == (startTS + delta) % TWO_TO_THE_64
  }

  // ---- names --------------------------------------------------------------------------------------

  lemma {:induction false} ErrorNameCuts(key: string, a: string, b: string)
    requires ErrorParts(key, a, b)
    ensures HasPrefix(key, ERROR_PREFIX)
    ensures var suffix := key[|ERROR_PREFIX|..];
            LastIndex(suffix, '-') == |a| && suffix[..|a|] == a && suffix[|a| + 1..] == b
  {
    CutsAsParts(key, ERROR_PREFIX, a, b);
  }

  lemma {:induction false} CutErrorName(key: string)
    requires HasPrefix(key, ERROR_PREFIX) && LastIndex(key[|ERROR_PREFIX|..], '-') != -1
    ensures var suffix := key[|ERROR_PREFIX|..];
            var dash := LastIndex(suffix, '-');
            ErrorParts(key, suffix[..dash], suffix[dash + 1..])
  {
    hide LastIndex;
    var suffix := key[|ERROR_PREFIX|..];
    var dash := LastIndex(suffix, '-');
    assert key == ERROR_PREFIX + suffix && suffix == suffix[..dash] + "-" + suffix[dash + 1..];
    assert key == "x-reduct-error-" + suffix[..dash] + "-" + suffix[dash + 1..];
  }

  /** The two numbers in the name of an error header, as the parser finds them. */
  function ErrorNumbers(key: string): Option<(int, int)> {
    if !HasPrefix(key, ERROR_PREFIX) then None
    else
      var suffix := key[|ERROR_PREFIX|..];
      var dash := LastIndex(suffix, '-');
      if dash == -1 || ParseInt(suffix[..dash]).None? || ParseInt(suffix[dash + 1..]).None? then None
      else Some((ParseInt(suffix[..dash]).value, ParseInt(suffix[dash + 1..]).value))
  }

  lemma {:induction false} ErrorNumbersIff(key: string, entryIndex: int, delta: int)
    ensures ErrorNumbers(key) == Some((entryIndex, delta)) <==> NamesError(key, entryIndex, delta)
  {
    hide LastIndex, ParseInt, WritesNumber;
    if ErrorNumbers(key).Some? {
      var suffix := key[|ERROR_PREFIX|..];
      var dash := LastIndex(suffix, '-');
      CutErrorName(key);
      ParsedNumber(suffix[..dash]);
      ParsedNumber(suffix[dash + 1..]);
    }
    if a, b :| ErrorParts(key, a, b) && WritesNumber(a, entryIndex) && WritesNumber(b, delta) {
      ErrorNameCuts(key, a, b);
      ParsedNumber(a);
      ParsedNumber(b);
    }
  }

  lemma {:induction false} ValueIff(value: string, entry: string, ts: int, error: ApiError)
    ensures ReadValue(value, entry, ts) == Found(entry, ts, error) <==> TellsError(value, error)
    ensures ReadValue(value, entry, ts) != Skip
    ensures forall entry', ts', error' :: ReadValue(value, entry, ts) == Found(entry', ts', error') ==> entry' == entry && ts' == ts
  {
    hide Index, ParseInt, WritesNumber;
    var comma := Index(value, ',');
    if comma != -1 {
      ParsedNumber(value[..comma]);
      assert value == value[..comma] + "," + value[comma + 1..];
    }
    if code :| value == code + "," + error.message && ',' !in code && WritesNumber(code, error.status) {
      CutUnique(code, error.message, value[..comma], value[comma + 1..], ',');
    }
  }

  /** One header, by the numbers of its name. */
  lemma ReadByNumbers(key: string, values: seq<string>, entries: seq<string>, startTS: int)
    ensures var numbers, h := ErrorNumbers(key), ReadError(key, values, entries, startTS);
            && (!HasPrefix(key, ERROR_PREFIX) ==> h == Skip)
            && (HasPrefix(key, ERROR_PREFIX) && (numbers.None? || !(0 <= numbers.value.0 < |entries|)) ==> h == Bad)
            && (numbers.Some? && 0 <= numbers.value.0 < |entries| ==>
                  h == if values == [] then Skip
                       else ReadValue(values[0], entries[numbers.value.0], Wrap64(startTS + numbers.value.1)))
  {
    hide LastIndex, ParseInt, ReadValue, Wrap64;
  }

  /** A header is read as an error exactly if it is one of a record of the batch. */
  lemma {:induction false} FoundIff(key: string, values: seq<string>, entries: seq<string>, startTS: int, entry: string, ts: int,
                                    error: ApiError)
    ensures ReadError(key, values, entries, startTS) == Found(entry, ts, error)
            <==> IsErrorOf(key, values, entries, startTS, entry, ts, error)
  {
    ReadByNumbers(key, values, entries, startTS);
    NumbersHavePrefix(key);
    hide ReadError, ReadValue, Wrap64, TellsError, NamesError, HasPrefix, ErrorNumbers;
    var numbers := ErrorNumbers(key);
    forall e, d ensures numbers == Some((e, d)) <==> NamesError(key, e, d) { ErrorNumbersIff(key, e, d); }
    if numbers.Some? && 0 <= numbers.value.0 < |entries| && values != [] {
      FoundByNumbers(key, values, entries, startTS, numbers.value.0, numbers.value.1, entry, ts, error);
    }
  }

  lemma {:induction false} FoundByNumbers(key: string, values: seq<string>, entries: seq<string>, startTS: int, e: int, d: int,
                                          entry: string, ts: int, error: ApiError)
    requires values != [] && 0 <= e < |entries| && NamesError(key, e, d)
    requires forall e', d' :: NamesError(key, e', d') ==> e' == e && d' == d
    ensures ReadValue(values[0], entries[e], Wrap64(startTS + d)) == Found(entry, ts, error)
            <==> IsErrorOf(key, values, entries, startTS, entry, ts, error)
  {
    hide ReadValue, Wrap64, TellsError, NamesError;
    WrapIff(startTS + d, ts);
    ValueIff(values[0], entries[e], Wrap64(startTS + d), error);
  }

  lemma NumbersHavePrefix(key: string)
    ensures ErrorNumbers(key).Some? ==> HasPrefix(key, ERROR_PREFIX)
  {}

  /** A header is passed over exactly if it is no error header, or one without a value. */
  lemma {:induction false} SkipIff(key: string, values: seq<string>, entries: seq<string>, startTS: int)
    ensures ReadError(key, values, entries, startTS) == Skip <==>
              !("x-reduct-error-" <= key)
              || (values == [] && exists entryIndex, delta :: NamesError(key, entryIndex, delta) && 0 <= entryIndex < |entries|)
  {
    ReadByNumbers(key, values, entries, startTS);
    assert HasPrefix(key, ERROR_PREFIX) <==> "x-reduct-error-" <= key by { PrefixIs(key, ERROR_PREFIX); }
    NumbersHavePrefix(key);
    hide ReadError, ReadValue, Wrap64, NamesError, HasPrefix, ErrorNumbers;
    var numbers := ErrorNumbers(key);
    forall e, d ensures numbers == Some((e, d)) <==> NamesError(key, e, d) { ErrorNumbersIff(key, e, d); }
    if numbers.Some? && 0 <= numbers.value.0 < |entries| && values != [] {
      ValueIff(values[0], entries[numbers.value.0], Wrap64(startTS + numbers.value.1), ApiError(0, ""));
    }
  }

  lemma PrefixIs(key: string, prefix: string)
    ensures HasPrefix(key, prefix) <==> prefix <= key
  {}

  // ---- all headers --------------------------------------------------------------------------------

  function ErrorAt(errs: ErrorMap, entry: string, ts: int): Option<ApiError> {
    if entry in errs && ts in errs[entry] then Some(errs[entry][ts]) else None
  }

  ghost predicate Understood(headers: Header, key: string, entries: seq<string>, startTS: int)
    requires key in headers
  {
    ReadError(key, headers[key], entries, startTS) != Bad
  }

  lemma PutAt(errs: ErrorMap, entry: string, ts: int, e: ApiError, entry': string, ts': int)
    ensures ErrorAt(Put(errs, entry, ts, e), entry', ts')
            == if entry' == entry && ts' == ts then Some(e) else ErrorAt(errs, entry', ts')
  {}

  /**
   * parseRecordBatchErrors succeeds exactly if it understands every header, and
   * then holds an error for a record exactly if some header is one for it, and
   * only errors that a header tells.
   */
  lemma {:induction false} ErrorsAreThoseTold(headers: Header, order: seq<string>, entries: seq<string>, startTS: int,
                                              entry: string, ts: int)
    requires forall i :: 0 <= i < |order| ==> order[i] in headers
    ensures ErrorRun(headers, order, entries, startTS).Ok? <==>
              forall i :: 0 <= i < |order| ==> Understood(headers, order[i], entries, startTS)
    ensures ErrorRun(headers, order, entries, startTS).Ok? ==>
              var got := ErrorAt(ErrorRun(headers, order, entries, startTS).value, entry, ts);
              && (forall i, e :: 0 <= i < |order| && IsErrorOf(order[i], headers[order[i]], entries, startTS, entry, ts, e) ==>
                    got.Some?)
              && (got.Some? ==> exists i :: 0 <= i < |order|
                                           && IsErrorOf(order[i], headers[order[i]], entries, startTS, entry, ts, got.value))
  {
    hide ReadError, Put, ErrorAt, IsErrorOf;
    if order == [] {
      NoErrors(entry, ts);
    } else {
      var n := |order| - 1;
      var init, key := order[..n], order[n];
      ErrorsAreThoseTold(headers, init, entries, startTS, entry, ts);
      assert forall i :: 0 <= i < n ==> init[i] == order[i];
      var h := ReadError(key, headers[key], entries, startTS);
      forall e ensures h == Found(entry, ts, e) <==> IsErrorOf(key, headers[key], entries, startTS, entry, ts, e) {
        FoundIff(key, headers[key], entries, startTS, entry, ts, e);
      }
      var before := ErrorRun(headers, init, entries, startTS);
      if before.Ok? && h.Found? { PutAt(before.value, h.entry, h.ts, h.error, entry, ts); }
    }
  }

  lemma NoErrors(entry: string, ts: int)
    ensures ErrorAt(map[], entry, ts) == None
  {}
}
