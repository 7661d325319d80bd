/** Which records the requests of Batch Protocol v2 name (record_batch.go: the header names of all three builders). */
module V2Denotes {
  import opened Text
  import opened Decimal
  import opened HeaderList
  import opened Headers
  import opened NameTable
  import opened V2Encode
  import opened V2Decode
  import opened V2Order
  import opened V2RoundTrip
  import opened V2Update

  // ---- what the headers say -----------------------------------------------------------------------

  /** The records that the header names denote, under an entry list and a start time. */
  ghost function KeysUnder(h: Header, entries: seq<string>, startTS: int): set<(string, int)> {
    set key | key in h && ParseRecordName(key).Some? && 0 <= ParseRecordName(key).value.0 < |entries| ::
      (entries[ParseRecordName(key).value.0], Wrap64(startTS + ParseRecordName(key).value.1))
  }

  ghost function RecordKeys(items: seq<Rec>): set<(string, int)> {
    set i | 0 <= i < |items| :: (items[i].entry, items[i].timestamp)
  }

  /** The header has the records' names and, besides them, only fixed ones. */
  ghost predicate NamesExactly(h: Header, items: seq<Rec>)
    requires items != []
  {
    && (forall key :: key in h ==> key in {ENTRIES, START_TS, LABELS, LAST, CONTENT_TYPE, CONTENT_LENGTH} || key in RecordNames(items))
    && (forall i :: 0 <= i < |items| ==> RecordNames(items)[i] in h)
  }

  lemma {:induction false} NameDenotes(items: seq<Rec>, i: nat)
    requires i < |items| && InMachine(items)
    ensures var parsed := ParseRecordName(RecordNames(items)[i]);
            && (parsed.None? <==> DeltaFrom(MinTimestamp(items), items[i]) < 0)
            && (parsed.Some? ==> 0 <= parsed.value.0 < |Entries(items)|
                                 && Entries(items)[parsed.value.0] == items[i].entry
                                 && Wrap64(MinTimestamp(items) + parsed.value.1) == items[i].timestamp)
  {
    hide MinTimestamp, DeltaFrom, Entries, ParseRecordName, IndexAll, HeaderName;
    RecordNameAt(items, i);
    IndexBound(items, i);
    DeltaExact(items, i);
    NameRoundTrip(IndexAll(items)[i].entryIndex, DeltaFrom(MinTimestamp(items), items[i]));
  }

  /** Record `i` has the key and a delta that did not wrap. */
  ghost predicate HasKeyAt(items: seq<Rec>, k: (string, int), i: nat) {
    i < |items| && k == (items[i].entry, items[i].timestamp) && DeltaFrom(MinTimestamp(items), items[i]) >= 0
  }

  ghost predicate KeyDenotes(key: string, entries: seq<string>, startTS: int, k: (string, int)) {
    var parsed := ParseRecordName(key);
    parsed.Some? && 0 <= parsed.value.0 < |entries| && k == (entries[parsed.value.0], Wrap64(startTS + parsed.value.1))
  }

  lemma {:induction false} KeyDenotesRecord(items: seq<Rec>, i: nat, k: (string, int))
    requires i < |items| && InMachine(items)
    requires KeyDenotes(RecordNames(items)[i], Entries(items), MinTimestamp(items), k)
    ensures HasKeyAt(items, k, i)
  {
    hide MinTimestamp, DeltaFrom, Entries, ParseRecordName, RecordNames, InMachine;
    NameDenotes(items, i);
  }

  /** A denoted key belongs to a record whose delta did not wrap. */
  lemma {:induction false} DenotedComesFrom(h: Header, items: seq<Rec>, k: (string, int))
    requires items != [] && InMachine(items) && NamesExactly(h, items)
    requires k in KeysUnder(h, Entries(items), MinTimestamp(items))
    ensures exists i: nat :: HasKeyAt(items, k, i)
  {
    hide MinTimestamp, DeltaFrom, Entries, ParseRecordName, RecordNames, InMachine, HasKeyAt;
    FixedNamesAreNotRecords();
    var key :| key in h && ParseRecordName(key).Some? && KeyDenotes(key, Entries(items), MinTimestamp(items), k);
    assert key !in {ENTRIES, START_TS, LABELS, LAST, CONTENT_TYPE, CONTENT_LENGTH};
    assert key in RecordNames(items);
    var i :| 0 <= i < |items| && RecordNames(items)[i] == key;
    KeyDenotesRecord(items, i, k);
  }

  lemma {:induction false} RecordIsUnder(h: Header, items: seq<Rec>, i: nat)
    requires items != [] && InMachine(items) && NamesExactly(h, items) && SpanFits(items) && i < |items|
    ensures (items[i].entry, items[i].timestamp) in KeysUnder(h, Entries(items), MinTimestamp(items))
  {
    hide MinTimestamp, DeltaFrom, Entries, ParseRecordName, RecordNames, InMachine, SpanFits;
    NameDenotes(items, i);
    DeltaExact(items, i);
    assert RecordNames(items)[i] in h;
  }

  lemma {:induction false} FittingBatchIsDenoted(h: Header, items: seq<Rec>)
    requires items != [] && InMachine(items) && NamesExactly(h, items) && SpanFits(items)
    ensures KeysUnder(h, Entries(items), MinTimestamp(items)) == RecordKeys(items)
  {
    hide MinTimestamp, DeltaFrom, Entries, RecordNames, InMachine, KeysUnder, NamesExactly, SpanFits;
    var denoted := KeysUnder(h, Entries(items), MinTimestamp(items));
    forall i: nat | i < |items| ensures (items[i].entry, items[i].timestamp) in denoted {
      RecordIsUnder(h, items, i);
    }
    forall k | k in denoted ensures k in RecordKeys(items) {
      DenotedComesFrom(h, items, k);
    }
  }

  /** A record whose delta went negative is not denoted. */
  lemma {:induction false} WrappedIsNotDenoted(h: Header, items: seq<Rec>, p: nat)
    requires items != [] && DistinctRecs(items) && InMachine(items) && NamesExactly(h, items)
    requires p < |items| && DeltaFrom(MinTimestamp(items), items[p]) < 0
    ensures (items[p].entry, items[p].timestamp) !in KeysUnder(h, Entries(items), MinTimestamp(items))
  {
    hide MinTimestamp, DeltaFrom, Entries, RecordNames, InMachine, KeysUnder, NamesExactly;
    var k := (items[p].entry, items[p].timestamp);
    if k in KeysUnder(h, Entries(items), MinTimestamp(items)) {
      DenotedComesFrom(h, items, k);
      var i: nat :| HasKeyAt(items, k, i);
      SameKeySameRecord(items, i, p);
    }
  }

  /** The records that a request denotes, read from nothing but its own headers. */
  ghost function DenotedKeys(h: Header): set<(string, int)> {
    var entries, startTS := ParseList(Get(h, ENTRIES)), ParseInt(Get(h, START_TS));
    if entries.Err? || startTS.None? then {} else KeysUnder(h, entries.value, startTS.value)
  }

  /** The header has the entry list, the start time and the record names of the batch. */
  ghost predicate Names(h: Header, items: seq<Rec>)
    requires items != []
  {
    && NamesExactly(h, items) && AllBytes(Entries(items))
    && Get(h, ENTRIES) == EncodeList(Entries(items)) && Get(h, START_TS) == FormatInt(MinTimestamp(items))
  }

  lemma {:induction false} StartReads(h: Header, items: seq<Rec>)
    requires items != [] && InMachine(items) && Names(h, items)
    ensures ParseInt(Get(h, START_TS)) == Some(MinTimestamp(items))
  {
    hide MinTimestamp, ParseInt, FormatInt, NamesExactly, Entries;
    DeltaExact(items, 0);
    FormatParse(MinTimestamp(items));
  }

  lemma EntriesGoodIff(items: seq<Rec>)
    ensures (forall k :: 0 <= k < |Entries(items)| ==> Entries(items)[k] != "" && '%' !in Entries(items)[k])
            <==> GoodEntries(items)
  {
    var es := Entries(items);
    hide Entries;
    forall k | 0 <= k < |es| ensures exists i :: 0 <= i < |items| && items[i].entry == es[k] { EntryIsUsed(items, k); }
    forall i | 0 <= i < |items| ensures items[i].entry in es { EntryIsIn(items, i); }
    if !GoodEntries(items) {
      var i :| 0 <= i < |items| && !(items[i].entry != "" && '%' !in items[i].entry);
      assert items[i].entry in es;
    }
  }

  /** With good entry names the headers read back as the encoder's own entry list and start time. */
  lemma {:induction false} DenotedUnderOwn(h: Header, items: seq<Rec>)
    requires items != [] && InMachine(items) && Names(h, items) && GoodEntries(items)
    ensures DenotedKeys(h) == KeysUnder(h, Entries(items), MinTimestamp(items))
  {
    StartReads(h, items);
    EntriesGoodIff(items);
    ListRoundTripIff(Entries(items));
    hide ParseList, ParseInt, MinTimestamp, Entries, KeysUnder, NamesExactly, EncodeList, FormatInt;
  }

  /** A bad entry name leaves too few or too short names to cover the batch. */
  lemma {:induction false} BadListCannotCover(entries: seq<string>)
    requires NoDup(entries) && entries != [] && AllBytes(entries) && ParseList(EncodeList(entries)).Ok?
    requires exists k :: 0 <= k < |entries| && !(entries[k] != "" && '%' !in entries[k])
    ensures exists k :: 0 <= k < |entries| && entries[k] !in ParseList(EncodeList(entries)).value
  {
    hide ParseList, EncodeList, EncodeAll, DecodeItems, Count, TotalLength;
    var out := ParseList(EncodeList(entries)).value;
    if k :| 0 <= k < |entries| && entries[k] == "" {
      EmptyItemRejects(entries, k);
      assert entries[k] !in out;
    } else {
      ListArrives(entries);
      DecodedLengths(entries);
      var k :| 0 <= k < |entries| && '%' in entries[k];
      CountPositive(entries[k], '%');
      ShorterInTotal(out, entries, k);
      if forall k :: 0 <= k < |entries| ==> entries[k] in out {
        CoverKeepsLength(entries, out);
      }
    }
  }

  lemma {:induction false} EmptyItemRejects(entries: seq<string>, k: nat)
    requires AllBytes(entries) && k < |entries| && entries[k] == "" && ParseList(EncodeList(entries)).Ok?
    ensures ParseList(EncodeList(entries)).value == []
  {
    EncodedListSplits(entries);
    if EncodeList(entries) != "" {
      DecodeRejectsEmpty(EncodeAll(entries), k);
    }
  }

  /** Decoding takes two bytes for every `%`. */
  lemma DecodedLengths(entries: seq<string>)
    requires Decodable(entries)
    ensures forall i :: 0 <= i < |entries| ==> |DecodedAll(entries)[i]| == |entries[i]| - 2 * Count(entries[i], '%')
  {
    hide Unescape, Count;
    forall i | 0 <= i < |entries| ensures |DecodedAll(entries)[i]| == |entries[i]| - 2 * Count(entries[i], '%') {
      UnescapeLength(entries[i]);
    }
  }

  lemma {:induction false} CountPositive(s: string, c: char)
    requires c in s
    ensures Count(s, c) > 0
  {
    CountZero(s, c);
  }

  lemma {:induction false} MisnamedIsNotDenoted(h: Header, items: seq<Rec>)
    requires items != [] && InMachine(items) && Names(h, items) && !GoodEntries(items)
    ensures DenotedKeys(h) != RecordKeys(items)
  {
    StartReads(h, items);
    EntriesGoodIff(items);
    EntryIsIn(items, 0);
    InternAllGrows([], EntryNames(items));
    hide ParseList, MinTimestamp, ParseRecordName, InMachine, FormatInt, EncodeList;
    var es, out := Entries(items), ParseList(Get(h, ENTRIES));
    assert (items[0].entry, items[0].timestamp) in RecordKeys(items);
    if out.Ok? {
      BadListCannotCover(es);
      var k :| 0 <= k < |es| && es[k] !in out.value;
      UncoveredIsNotDenoted(h, items, out.value, k);
    }
  }

  lemma {:induction false} UncoveredIsNotDenoted(h: Header, items: seq<Rec>, entries: seq<string>, k: nat)
    requires items != [] && k < |Entries(items)| && Entries(items)[k] !in entries
    ensures KeysUnder(h, entries, MinTimestamp(items)) != RecordKeys(items)
  {
    EntryIsUsed(items, k);
    hide Entries, MinTimestamp, ParseRecordName, KeysUnder;
    var i :| 0 <= i < |items| && items[i].entry == Entries(items)[k];
    assert (items[i].entry, items[i].timestamp) in RecordKeys(items);
    NotUnder(h, entries, MinTimestamp(items), (items[i].entry, items[i].timestamp));
  }

  lemma NotUnder(h: Header, entries: seq<string>, startTS: int, k: (string, int))
    requires k.0 !in entries
    ensures k !in KeysUnder(h, entries, startTS)
  {
    hide ParseRecordName;
  }

  lemma {:induction false} UnderOwnIff(h: Header, items: seq<Rec>)
    requires items != [] && DistinctRecs(items) && InMachine(items) && NamesExactly(h, items)
    ensures KeysUnder(h, Entries(items), MinTimestamp(items)) == RecordKeys(items) <==> SpanFits(items)
  {
    hide MinTimestamp, DeltaFrom, Entries, InMachine, KeysUnder, NamesExactly, DistinctRecs, SpanFits;
    if SpanFits(items) {
      FittingBatchIsDenoted(h, items);
    } else {
      SomeDeltaWraps(items);
      var p: nat :| p < |items| && DeltaFrom(MinTimestamp(items), items[p]) < 0;
      WrappedIsNotDenoted(h, items, p);
      assert (items[p].entry, items[p].timestamp) in RecordKeys(items);
    }
  }

  /**
   * The headers of a request denote exactly the records of its batch, if and
   * only if no two of their timestamps lie more than 2^63-1 apart and every
   * entry name is non-empty and free of `%`.
   */
  lemma {:induction false} DenotesBatchIff(h: Header, items: seq<Rec>)
    requires items != [] && DistinctRecs(items) && InMachine(items) && Names(h, items)
    ensures DenotedKeys(h) == RecordKeys(items) <==> SpanFits(items) && GoodEntries(items)
  {
    assert NamesExactly(h, items);
    hide *;
    if GoodEntries(items) {
      DenotedUnderOwn(h, items);
      UnderOwnIff(h, items);
    } else {
      MisnamedIsNotDenoted(h, items);
    }
  }

  // ---- the three builders ---------------------------------------------------------------------------

  /** All three builders name exactly the records of the batch, beside their entry list and start time. */
  lemma BuildersNameExactly(items: seq<Rec>)
    requires items != [] && DistinctRecs(items) && NamesAreBytes(items)
    ensures Names(EncodeRemove(items).headers, items)
    ensures AsciiUpdates(items) ==> Names(EncodeUpdate(items).headers, items)
    ensures AsciiRecs(items) ==> Names(EncodeItems(items).headers, items)
  {
    EntriesAreBytes(items);
    hide NamesExactly, Entries, MinTimestamp, EncodeList, FormatInt, EncodeItems, EncodeRemove, EncodeUpdate, EncEnd;
    RemoveNames(items);
    if AsciiUpdates(items) { UpdateNamesExactly(items); }
    if AsciiRecs(items) {
      WriteNames(items);
      SentFixed(items, "");
    }
  }

  lemma {:induction false} FixedRead(h: Header, items: seq<Rec>)
    requires items != [] && AllBytes(Entries(items))
    ensures Get(WithFixed(h, items), ENTRIES) == EncodeList(Entries(items))
    ensures Get(WithFixed(h, items), START_TS) == FormatInt(MinTimestamp(items))
  {
    hide Entries, MinTimestamp, EncodeList, FormatInt;
    FixedNamesDiffer();
  }

  lemma {:induction false} PutAllNames(items: seq<Rec>, rows: seq<string>)
    requires items != [] && AllBytes(Entries(items)) && |rows| == |items|
    ensures NamesExactly(WithFixed(PutAll(map[], RecordNames(items), rows), items), items)
  {
    hide RecordNames, Entries, MinTimestamp, EncodeList, FormatInt, PutAll;
    var names := RecordNames(items);
    forall key ensures key in PutAll(map[], names, rows) <==> key in names { PutAllKeys(map[], names, rows, key); }
  }

  lemma RemoveNames(items: seq<Rec>)
    requires items != [] && NamesAreBytes(items)
    ensures Names(EncodeRemove(items).headers, items)
  {
    EntriesAreBytes(items);
    hide NamesExactly, WithFixed, PutAll, RecordNames, Entries, MinTimestamp, EncodeList, FormatInt;
    var rows := seq(|items|, i => "");
    PutAllNames(items, rows);
    FixedRead(PutAll(map[], RecordNames(items), rows), items);
  }

  lemma LabelsKeepNames(h: Header, items: seq<Rec>, value: string)
    requires items != [] && Names(h, items)
    ensures Names(Set(h, LABELS, value), items)
  {
    hide RecordNames, Entries, EncodeList, MinTimestamp, FormatInt;
    FixedNamesDiffer();
    forall i | 0 <= i < |items| ensures RecordNames(items)[i] in Set(h, LABELS, value) {
      assert RecordNames(items)[i] in h;
    }
  }

  lemma UpdateNamesExactly(items: seq<Rec>)
    requires items != [] && UpdateInModel(items)
    ensures Names(EncodeUpdate(items).headers, items)
  {
    EntriesAreBytes(items);
    UpdateTableIsBytes(items);
    hide WithFixed, PutAll, RecordNames, Entries, UpdateRows, UpdateTable, EncodeList, MinTimestamp, FormatInt,
         NamesExactly;
    PutAllNames(items, UpdateRows(items));
    var h := WithFixed(PutAll(map[], RecordNames(items), UpdateRows(items)), items);
    FixedRead(PutAll(map[], RecordNames(items), UpdateRows(items)), items);
    LabelsKeepNames(h, items, EncodeList(UpdateTable(items, |items|)));
  }

  lemma WriteNames(items: seq<Rec>)
    requires items != [] && InModel(items)
    ensures NamesExactly(EncodeItems(items).headers, items)
  {
    hide EncodeItems, NameAt, IndexAll, MinTimestamp, EncRun, InModel;
    forall key | key in EncodeItems(items).headers
      ensures key in {ENTRIES, START_TS, LABELS, LAST, CONTENT_TYPE, CONTENT_LENGTH} || key in RecordNames(items) {
      SentKeys(items, "", key);
      if i :| 0 <= i < |items| && NameAt(IndexAll(items), MinTimestamp(items), i) == key {
        assert RecordNames(items)[i] == key;
      }
    }
    forall i | 0 <= i < |items| ensures RecordNames(items)[i] in EncodeItems(items).headers {
      WriteNamePresent(items, i);
    }
  }

  lemma WriteNamePresent(items: seq<Rec>, i: nat)
    requires items != [] && InModel(items) && i < |items|
    ensures RecordNames(items)[i] in EncodeItems(items).headers
  {
    SentRowsAreRows(items);
    hide NameAt, IndexAll, MinTimestamp, EncRun, Entries, EncodeList, FormatInt, BodyOf;
    var name := RecordNames(items)[i];
    assert IsNameBefore(IndexAll(items), MinTimestamp(items), |items|, name);
    RunHeaderKeys(IndexAll(items), MinTimestamp(items), BaseHeaders(items), |items|, name);
  }

  /** The removal of a record of entry `%41` denotes a record of another entry. */
  lemma {:induction false} MisnamedExample()
    ensures var items := [Rec("%41", 0, [], "", map[])];
            && NamesAreBytes(items) && DistinctRecs(items) && InMachine(items)
            && DenotedKeys(EncodeRemove(items).headers) != RecordKeys(items)
  {
    var items := [Rec("%41", 0, [], "", map[])];
    assert items[0].entry[0] == '%' && !GoodEntries(items);
    assert NamesAreBytes(items) && DistinctRecs(items) && InMachine(items);
    hide DenotedKeys, RecordKeys, EncodeRemove, Names, GoodEntries, SpanFits, NamesAreBytes, EncodeUpdate, EncodeItems;
    BuildersNameExactly(items);
    DenotesBatchIff(EncodeRemove(items).headers, items);
  }
}
