/**
 * What a batch of Batch Protocol v2 says about each record (record_batch.go:
 * buildRecordBatchWriteRequest): its row names just what differs from the
 * record before it in the same entry, and nothing twice.
 */
module V2Compact {
  import opened Text
  import opened Ordering
  import opened Decimal
  import opened Headers
  import opened LabelOps
  import opened LabelDelta
  import opened LabelGrammar
  import opened V2Encode
  import opened V2Decode
  import V2Order
  import opened V2RoundTrip

  // ---- the metadata the encoder remembers ---------------------------------------------------------

  ghost predicate Seen(indexed: seq<Indexed>, n: nat, k: nat)
    requires n <= |indexed|
  {
    exists j :: 0 <= j < n && indexed[j].entryIndex == k
  }

  lemma {:induction false} LastAfter(indexed: seq<Indexed>, startTS: int, base: Header, n: nat)
    requires n < |indexed| && AsciiIndexed(indexed)
    ensures EncRun(indexed, startTS, base, n + 1).last
            == EncRun(indexed, startTS, base, n).last[indexed[n].entryIndex := MetaOf(indexed[n].record)]
  {
    EncRunNext(indexed, startTS, base, n);
    hide EncRun, RowOf, DeltaNames, MetaOf;
  }

  lemma {:induction false} KnownWasSeen(indexed: seq<Indexed>, startTS: int, base: Header, n: nat, k: nat)
    requires n <= |indexed| && AsciiIndexed(indexed) && k in EncRun(indexed, startTS, base, n).last
    ensures Seen(indexed, n, k)
  {
    hide EncRun, EncStep, MetaOf, AsciiRec;
    if n == 0 {
      NothingKnownYet(indexed, startTS, base);
    } else {
      LastAfter(indexed, startTS, base, n - 1);
      if k != indexed[n - 1].entryIndex { KnownWasSeen(indexed, startTS, base, n - 1, k); }
    }
  }

  lemma {:induction false} NothingKnownYet(indexed: seq<Indexed>, startTS: int, base: Header)
    requires AsciiIndexed(indexed)
    ensures EncRun(indexed, startTS, base, 0).last == map[]
  {}

  /** In the order of the encoder the record before this one is of the same entry. */
  ghost predicate Follows(items: seq<Rec>, i: nat)
    requires i < |items|
  {
    i > 0 && items[i - 1].entry == items[i].entry
  }

  lemma SameEntryIsAdjacent(items: seq<Rec>, j: nat, i: nat)
    requires StrictSorted(items, RecLess) && j < i < |items| && items[j].entry == items[i].entry
    ensures Follows(items, i)
  {
    if j < i - 1 {
      assert RecLess(items[j], items[i - 1]) && RecLess(items[i - 1], items[i]);
      if items[i - 1].entry != items[i].entry {
        StrTransitive(items[j].entry, items[i - 1].entry, items[i].entry);
        StrIrreflexive(items[i].entry);
      }
    }
  }

  /** Before record `i` the encoder knows the metadata of the record it follows, or nothing. */
  lemma {:induction false} KnownBefore(items: seq<Rec>, startTS: int, base: Header, i: nat)
    requires StrictSorted(items, RecLess) && AsciiIndexed(IndexAll(items)) && i < |items|
    ensures var last, k := EncRun(IndexAll(items), startTS, base, i).last, IndexAll(items)[i].entryIndex;
            && (k in last <==> Follows(items, i)) && (k in last ==> last[k] == MetaOf(items[i - 1]))
  {
    var indexed := IndexAll(items);
    var k := indexed[i].entryIndex;
    hide EncRun, MetaOf, IndexAll;
    if Follows(items, i) {
      LastAfter(indexed, startTS, base, i - 1);
      SameIndex(items, i - 1, i);
    }
    if k in EncRun(indexed, startTS, base, i).last {
      KnownWasSeen(indexed, startTS, base, i, k);
      var j :| 0 <= j < i && indexed[j].entryIndex == k;
      SameIndex(items, j, i);
      SameEntryIsAdjacent(items, j, i);
    }
  }

  lemma SameIndex(items: seq<Rec>, j: nat, i: nat)
    requires j < |items| && i < |items|
    ensures IndexAll(items)[j].entryIndex == IndexAll(items)[i].entryIndex <==> items[j].entry == items[i].entry
    ensures IndexAll(items)[j].record == items[j]
  {
    EntryIsIn(items, i);
    EntryIsIn(items, j);
  }

  // ---- the row ------------------------------------------------------------------------------------

  /** The content type of a record, with the default. */
  ghost function TypeFor(r: Rec): string {
    if r.contentType == "" then "application/octet-stream" else r.contentType
  }

  /** The texts of the labels; a value that is nil is sent as a text, too. */
  ghost function TextsOf(labels: LabelMap): Labels {
    map k | k in labels :: match labels[k] case Nil => "<nil>" case Printed(text) => text
  }

  lemma NormalizedAreTexts(labels: LabelMap)
    ensures Normalize(labels) == TextsOf(labels)
  {}

  /** The labels that record `i` is compared with. */
  ghost function LabelsBefore(items: seq<Rec>, i: nat): Labels
    requires i < |items|
  {
    if Follows(items, i) then TextsOf(items[i - 1].labels) else map[]
  }

  /** The type part of the row: nothing when the type is repeated. */
  ghost function NewType(items: seq<Rec>, i: nat): string
    requires i < |items|
  {
    if Follows(items, i) && TypeFor(items[i - 1]) == TypeFor(items[i]) then "" else TypeFor(items[i])
  }

  ghost function RowSent(items: seq<Rec>, mark: string, i: nat): string
    requires items != [] && InModel(items) && i < |items|
  {
    Get(V2Order.SentHeaders(items, mark), V2Order.NameAt(IndexAll(items), MinTimestamp(items), i))
  }

  ghost predicate Differs(a: Labels, b: Labels, key: string) {
    (key in a || key in b) && !(key in a && key in b && a[key] == b[key])
  }

  lemma RowOfState(st: EncState, items: seq<Rec>, i: nat, k: nat)
    requires i < |items| && AsciiRec(items[i]) && (k in st.last <==> Follows(items, i))
    requires k in st.last ==> st.last[k] == MetaOf(items[i - 1])
    ensures RowOf(st, items[i], k)
            == RowValue(|items[i].data|, NewType(items, i),
                        DeltaText(st.names, LabelsBefore(items, i), Normalize(items[i].labels)))
  {
    if i > 0 { NormalizedAreTexts(items[i - 1].labels); }
    hide RowValue, DeltaText, Normalize, TextsOf;
  }

  lemma {:induction false} RowIsOfState(items: seq<Rec>, mark: string, i: nat)
    requires items != [] && InModel(items) && V2Order.InMachine(items) && i < |items|
    ensures HeaderList.AllBytes(Entries(items)) && AsciiIndexed(IndexAll(items)) && IndexAll(items)[i].record == items[i]
    ensures var st := EncRun(IndexAll(items), MinTimestamp(items), BaseHeaders(items), i);
            RowSent(items, mark, i) == RowOf(st, items[i], IndexAll(items)[i].entryIndex) && st.names == LabelsAfter(items, i)
  {
    SentRowsAreRows(items);
    V2Order.RecordNamesDistinct(items);
    V2Order.SentValue(items, mark, i);
    SameIndex(items, i, i);
    hide EncRun, IndexAll, MinTimestamp, BaseHeaders, RowOf, V2Order.SentHeaders, V2Order.NameAt, Entries, Get;
  }

  lemma {:induction false} RowTextIs(items: seq<Rec>, mark: string, i: nat)
    requires items != [] && InModel(items) && V2Order.InMachine(items) && StrictSorted(items, RecLess) && i < |items|
    ensures AsciiLabels(Normalize(items[i].labels))
    ensures RowSent(items, mark, i)
            == RowValue(|items[i].data|, NewType(items, i),
                        DeltaText(LabelsAfter(items, i), LabelsBefore(items, i), Normalize(items[i].labels)))
  {
    hide EncRun, IndexAll, MinTimestamp, BaseHeaders, RowOf, RowSent, Entries, LabelsAfter, RowValue, DeltaText, Normalize,
         NewType, LabelsBefore, Follows;
    RowIsOfState(items, mark, i);
    KnownBefore(items, MinTimestamp(items), BaseHeaders(items), i);
    RowOfState(EncRun(IndexAll(items), MinTimestamp(items), BaseHeaders(items), i), items, i, IndexAll(items)[i].entryIndex);
  }

  // ---- the changes --------------------------------------------------------------------------------

  lemma {:induction false} DiffersIff(a: Labels, b: Labels, key: string)
    ensures Differs(a, b, key) <==> key in ChangedKeys(a, b)
  {
    ChangedKeysExact(a, b);
    hide ChangedKeys;
  }

  lemma {:induction false} DifferSomewhere(a: Labels, b: Labels)
    ensures a == b <==> ChangedKeys(a, b) == []
  {
    forall key ensures Differs(a, b, key) <==> key in ChangedKeys(a, b) { DiffersIff(a, b, key); }
    hide ChangedKeys;
    HasMember(ChangedKeys(a, b));
    if forall key :: !Differs(a, b, key) { SameIfNothingDiffers(a, b); }
  }

  lemma SameIfNothingDiffers(a: Labels, b: Labels)
    requires forall key :: !Differs(a, b, key)
    ensures a == b
  {
    forall key ensures (key in a <==> key in b) && (key in a ==> a[key] == b[key]) { assert !Differs(a, b, key); }
  }

  lemma HasMember(s: seq<string>)
    ensures s != [] <==> exists k :: k in s
  {
    if s != [] { assert s[0] in s; }
  }

  lemma {:induction false} DeltaIsEmptyIff(names: seq<string>, a: Labels, b: Labels)
    requires AsciiLabels(b)
    ensures DeltaText(names, a, b) == "" <==> a == b
  {
    DifferSomewhere(a, b);
    UsesAreIn(names, ChangedKeys(a, b));
    SortKeepsLength(names, a, b);
    DeltaOpsAscii(names, a, b);
    hide ChangedKeys, DeltaOps, UnsortedOps;
    if DeltaOps(names, a, b) != [] { PrintedStart(DeltaOps(names, a, b)); }
  }

  lemma {:induction false} SortKeepsLength(names: seq<string>, a: Labels, b: Labels)
    ensures |DeltaOps(names, a, b)| == |ChangedKeys(a, b)|
  {
    hide ChangedKeys;
    UsesAreIn(names, ChangedKeys(a, b));
    SortElements(UnsortedOps(names, a, b), IdxLess);
  }

  /** The list means one operation for each label that differs, with the new value or as a removal, and nothing else. */
  ghost predicate NamesChanges(list: string, table: seq<string>, a: Labels, b: Labels, ops: seq<NameOp>) {
    && Means(list, table, ops) && DistinctKeys(ops) && (forall key :: HasKey(ops, key) <==> Differs(a, b, key))
    && forall i :: 0 <= i < |ops| ==>
         if ops[i].key in b then ValueIs(Carried(b[ops[i].key]), ops[i].value) else ops[i].value == None
  }

  lemma {:induction false} DeltaNamesChanges(names: seq<string>, a: Labels, b: Labels, table: seq<string>)
    requires AsciiLabels(b) && SafeLabels(b) && GoodTable(table) && DeltaNames(names, a, b) <= table
    ensures exists ops :: NamesChanges(DeltaText(names, a, b), table, a, b, ops)
  {
    hide DeltaText, DeltaNames, DeltaOps, ChangedKeys, SafeLabels, GoodTable, Means, Trim, ParseOps, Carried, ValueIs;
    DeltaParses(names, a, b, table);
    var sorted := DeltaOps(names, a, b);
    var ops := ArrivedOps(sorted, table);
    ParseIff(DeltaText(names, a, b), table, ops);
    forall key ensures HasKey(ops, key) <==> Differs(a, b, key) {
      DiffersIff(a, b, key);
      if key in ChangedKeys(a, b) {
        DeltaOpCovers(names, a, b, table, key);
        var p :| 0 <= p < |sorted| && sorted[p].idx < |table| && table[sorted[p].idx] == key;
        assert ops[p].key == key;
      }
      if HasKey(ops, key) {
        var p :| 0 <= p < |ops| && ops[p].key == key;
        DeltaOpShape(names, a, b, table, p);
      }
    }
    forall i | 0 <= i < |ops|
      ensures if ops[i].key in b then ValueIs(Carried(b[ops[i].key]), ops[i].value) else ops[i].value == None
    {
      DeltaOpShape(names, a, b, table, i);
      if ops[i].key in b { TrimmedIs(Carried(b[ops[i].key]), ops[i].value); }
    }
    assert NamesChanges(DeltaText(names, a, b), table, a, b, ops);
  }

  lemma {:induction false} TableAfter(items: seq<Rec>, mark: string, i: nat, table: seq<string>)
    requires SafeItems(items) && i < |items| && ParseLabelTable(V2Order.SentHeaders(items, mark)) == Ok(table)
    ensures GoodTable(table)
    ensures DeltaNames(LabelsAfter(items, i), LabelsBefore(items, i), Normalize(items[i].labels)) <= table
  {
    hide ParseLabelTable, V2Order.SentHeaders, GoodTable, EncRun, IndexAll, MinTimestamp, BaseHeaders, DeltaNames, Normalize,
         SafeRecs, GoodNames, Entries, EncEnd, LabelsBefore;
    ListsDecode(items, mark);
    GoodLabelTable(items);
    LabelsOnlyGrow(items, i + 1, |items|);
    OneMoreTable(items, i);
  }

  lemma {:induction false} OneMoreTable(items: seq<Rec>, i: nat)
    requires items != [] && InModel(items) && StrictSorted(items, RecLess) && i < |items|
    ensures LabelsAfter(items, i + 1) == DeltaNames(LabelsAfter(items, i), LabelsBefore(items, i), Normalize(items[i].labels))
  {
    SentRowsAreRows(items);
    KnownBefore(items, MinTimestamp(items), BaseHeaders(items), i);
    SameIndex(items, i, i);
    EncRunNext(IndexAll(items), MinTimestamp(items), BaseHeaders(items), i);
    if i > 0 { NormalizedAreTexts(items[i - 1].labels); }
    hide TextsOf, EncRun, IndexAll, MinTimestamp, BaseHeaders, DeltaNames, Normalize, RowOf, Entries;
  }

  /** The row is the size, the type if there is a new one, and the label changes if there are any. */
  ghost predicate Tells(row: string, size: string, kind: string, a: Labels, b: Labels, table: seq<string>) {
    if a == b then row == size + if kind == "" then "" else "," + kind
    else exists list, ops :: row == size + "," + kind + "," + list && NamesChanges(list, table, a, b, ops)
  }

  lemma {:induction false} ShapeTells(row: string, size: nat, kind: string, delta: string, a: Labels, b: Labels, table: seq<string>)
    requires row == RowValue(size, kind, delta) && (delta == "" <==> a == b)
    requires a != b ==> exists ops :: NamesChanges(delta, table, a, b, ops)
    ensures Tells(row, FormatInt(size), kind, a, b, table)
  {
    hide FormatInt, RowValue, NamesChanges;
    RowShape(size, kind, delta);
    var d := FormatInt(size);
    assert d + "" == d && d + [','] + kind == d + ("," + kind);
    assert d + [','] + (kind + [','] + delta) == d + "," + kind + "," + delta;
  }

  /**
   * The row of a record is its size, its type unless the record before it in
   * its entry has the same, and its labels only if they differ from that
   * record's, as a list that names exactly the labels that differ, each once.
   */
  lemma {:induction false} RowSaysWhatChanged(items: seq<Rec>, mark: string, i: nat, table: seq<string>)
    requires SafeItems(items) && i < |items| && ParseLabelTable(V2Order.SentHeaders(items, mark)) == Ok(table)
    ensures Tells(RowSent(items, mark, i), FormatInt(|items[i].data|), NewType(items, i),
                  LabelsBefore(items, i), TextsOf(items[i].labels), table)
  {
    var before, now := LabelsBefore(items, i), Normalize(items[i].labels);
    NormalizedAreTexts(items[i].labels);
    var delta := DeltaText(LabelsAfter(items, i), before, now);
    hide FormatInt, RowSent, ParseLabelTable, NewType, LabelsBefore, Normalize, TextsOf, LabelsAfter, DeltaText, RowValue,
         NamesChanges, Tells, GoodTable, DeltaNames;
    RowTextIs(items, mark, i);
    DeltaIsEmptyIff(LabelsAfter(items, i), before, now);
    TableAfter(items, mark, i, table);
    SafeLabelsAt(items, i);
    DeltaNamesChanges(LabelsAfter(items, i), before, now, table);
    ShapeTells(RowSent(items, mark, i), |items[i].data|, NewType(items, i), delta, before, now, table);
  }

  lemma SafeLabelsAt(items: seq<Rec>, i: nat)
    requires SafeItems(items) && i < |items|
    ensures SafeLabels(Normalize(items[i].labels)) && AsciiLabels(Normalize(items[i].labels))
  {
    hide Normalize;
    assert SafeRec(items[i]) && AsciiRec(items[i]);
  }
}
