/** What the updates of Batch Protocol v2 mean: label overlays. */
module V2Meaning {
  import opened Text
  import opened Ordering
  import opened Decimal
  import opened HeaderList
  import opened Headers
  import opened NameTable
  import opened LabelOps
  import opened LabelDelta
  import opened V2Encode
  import opened V2Decode
  import opened V2Order
  import opened V2RoundTrip
  import opened V2Update

  // ---- updates are overlays -----------------------------------------------------------------

  /** What an update is meant to make of a label: its trimmed value, or a removal for nil and blank. */
  function GivenValue(v: LabelValue): Option<string> {
    if v.Nil? then None else Norm(v.text)
  }

  /** What it makes of a label whose value can be told apart: quoting leaves its escapes in. */
  function ArrivedGiven(v: LabelValue): Option<string> {
    if v.Nil? then None else ArrivedValue(v.text)
  }

  /** The stored labels with the given ones on top: untouched ones kept, values set, removals deleted. */
  function OverlayWith(stored: Labels, values: map<string, Option<string>>): Labels {
    map k | k in stored.Keys + values.Keys && (k in values ==> values[k].Some?)
      :: if k in values then values[k].value else stored[k]
  }

  /** The stored labels after the update as it is meant. */
  function Overlay(stored: Labels, labels: LabelMap): Labels {
    OverlayWith(stored, map k | k in labels :: GivenValue(labels[k]))
  }

  /** The stored labels after the update as it arrives. */
  function ArrivedOverlay(stored: Labels, labels: LabelMap): Labels {
    OverlayWith(stored, ArrivedValues(labels))
  }

  function ArrivedValues(labels: LabelMap): map<string, Option<string>> {
    map k | k in labels :: ArrivedGiven(labels[k])
  }

  lemma ArrivedGivenIff(v: LabelValue)
    requires v.Printed? && v.text != "" ==> IsAscii(v.text) && SafeValue(v.text)
    ensures ArrivedGiven(v) == GivenValue(v) <==> (v.Printed? && v.text != "" ==> GoodValue(v.text))
  {
    NoValueIsGood();
    if v.Printed? && v.text != "" {
      GoodIsSafeAndUnchanged(v.text);
    }
    hide Trim, Carried, GoodValue, SafeValue, IsAscii;
  }

  /** Values that differ show in the overlay, whatever was stored. */
  lemma OverlaysDiffer(stored: Labels, a: map<string, Option<string>>, b: map<string, Option<string>>)
    requires a.Keys == b.Keys
    ensures OverlayWith(stored, a) == OverlayWith(stored, b) <==> a == b
  {
    if k :| k in a && a[k] != b[k] {
      assert k in b.Keys;
      assert k in OverlayWith(stored, a) <==> a[k].Some?;
      assert k in OverlayWith(stored, b) <==> b[k].Some?;
    } else {
      assert forall k :: k in a ==> k in b.Keys && a[k] == b[k];
      assert a == b;
    }
  }

  /** Exactly good values make the update what it is meant to be. */
  lemma OverlayIff(stored: Labels, labels: LabelMap)
    requires SafeLabels(Given(labels)) && forall k :: k in labels ==> k != ""
    ensures ArrivedOverlay(stored, labels) == Overlay(stored, labels) <==> GoodLabels(Given(labels))
  {
    hide GivenValue, ArrivedGiven, SafeValue, GoodValue, IsAscii, OverlayWith;
    var a := ArrivedValues(labels);
    var b := map k | k in labels :: GivenValue(labels[k]);
    assert a.Keys == labels.Keys == b.Keys;
    OverlaysDiffer(stored, a, b);
    forall k | k in labels
      ensures a[k] == b[k] <==> (labels[k].Printed? && labels[k].text != "" ==> GoodValue(labels[k].text)) {
      if labels[k].Printed? && labels[k].text != "" { assert k in Given(labels); }
      ArrivedGivenIff(labels[k]);
    }
    SameGiven(labels);
    assert a == b <==> forall k :: k in labels ==> a[k] == b[k];
  }

  lemma SameGiven(labels: LabelMap)
    requires SafeLabels(Given(labels))
    ensures GoodLabels(Given(labels))
            <==> forall k :: k in labels && labels[k].Printed? && labels[k].text != "" ==> GoodValue(labels[k].text)
  {
    hide SafeValue, GoodValue, IsAscii;
    forall k | k in labels && labels[k].Printed? && labels[k].text != ""
      ensures k in Given(labels) && Given(labels)[k] == labels[k].text {}
  }

  lemma UpdateOpArrives(names: seq<string>, labels: LabelMap, final: seq<string>, i: nat)
    requires UpdateNames(names, labels) <= final && i < |SortedKeys(labels.Keys)|
    ensures |UpdateOps(names, labels)| == |SortedKeys(labels.Keys)|
    ensures var op, key := UpdateOps(names, labels)[i], SortedKeys(labels.Keys)[i];
            && op.idx < |final| && final[op.idx] == key
            && key in labels
            && ArrivedOp(op, final) == NameOp(key, ArrivedGiven(labels[key]))
  {
    NoValueIsGood();
    hide Position, Trim, Carried;
    var keys := SortedKeys(labels.Keys);
    UsesAreIn(names, keys);
    assert keys[i] in keys;
    assert UpdateOps(names, labels)[i] == OpFor(UpdateNames(names, labels), keys[i], Given(labels));
    PositionStable(UpdateNames(names, labels), final, keys[i]);
  }

  /** The printed update parses to its own operations, one for each given name. */
  lemma {:induction false} UpdateParses(names: seq<string>, labels: LabelMap, final: seq<string>)
    requires SafeLabels(Given(labels)) && GoodTable(final) && UpdateNames(names, labels) <= final
    ensures InTable(UpdateOps(names, labels), final)
    ensures ParseOps(Trim(UpdateText(names, labels)), final) == Ok(ArrivedOps(UpdateOps(names, labels), final))
    ensures forall i :: 0 <= i < |SortedKeys(labels.Keys)| ==>
              SortedKeys(labels.Keys)[i] in labels
              && ArrivedOps(UpdateOps(names, labels), final)[i]
                 == NameOp(SortedKeys(labels.Keys)[i], ArrivedGiven(labels[SortedKeys(labels.Keys)[i]]))
    ensures |ArrivedOps(UpdateOps(names, labels), final)| == |SortedKeys(labels.Keys)|
  {
    var ops, keys := UpdateOps(names, labels), SortedKeys(labels.Keys);
    forall i | 0 <= i < |keys| ensures ops[i].idx < |final| && final[ops[i].idx] == keys[i] && keys[i] in labels
                                       && SafeOp(ops[i])
                                       && ArrivedOp(ops[i], final) == NameOp(keys[i], ArrivedGiven(labels[keys[i]])) {
      UpdateOpArrives(names, labels, final, i);
      UpdateOpIsSafe(names, labels, i);
    }
    hide PrintOps, ParseOps, Trim, ArrivedOp, SafeOp, UpdateOps, ArrivedGiven;
    SafeOpsArrive(ops, final);
  }

  lemma UpdateOpIsSafe(names: seq<string>, labels: LabelMap, i: nat)
    requires SafeLabels(Given(labels)) && i < |UpdateOps(names, labels)|
    ensures SafeOp(UpdateOps(names, labels)[i])
  {
    hide Position;
    UsesAreIn(names, SortedKeys(labels.Keys));
    assert UpdateOps(names, labels)[i] == OpFor(UpdateNames(names, labels), SortedKeys(labels.Keys)[i], Given(labels));
  }

  /** The operations give these values to these names, each name once. */
  ghost predicate Gives(named: seq<NameOp>, keys: seq<string>, values: map<string, Option<string>>) {
    && NoDup(keys) && |named| == |keys| && (forall k :: k in keys <==> k in values)
    && forall i :: 0 <= i < |keys| ==> keys[i] in values && named[i] == NameOp(keys[i], values[keys[i]])
  }

  lemma {:induction false} OverlayAt(stored: Labels, values: map<string, Option<string>>, named: seq<NameOp>,
                                     keys: seq<string>, key: string)
    requires Gives(named, keys, values)
    ensures key in ApplyOps(stored, named) <==> key in OverlayWith(stored, values)
    ensures key in ApplyOps(stored, named) ==> ApplyOps(stored, named)[key] == OverlayWith(stored, values)[key]
  {
    hide ApplyOps;
    if key in values {
      assert key in keys;
      var i :| 0 <= i < |keys| && keys[i] == key;
      ApplyTouched(stored, named, i);
    } else {
      assert forall i :: 0 <= i < |keys| ==> keys[i] in values;
      ApplyUntouched(stored, named, key);
    }
  }

  lemma {:induction false} OverlayIs(stored: Labels, values: map<string, Option<string>>, named: seq<NameOp>,
                                     keys: seq<string>)
    requires Gives(named, keys, values)
    ensures ApplyOps(stored, named) == OverlayWith(stored, values)
  {
    hide *;
    forall key ensures key in ApplyOps(stored, named) <==> key in OverlayWith(stored, values)
               ensures key in ApplyOps(stored, named) ==> ApplyOps(stored, named)[key] == OverlayWith(stored, values)[key] {
      OverlayAt(stored, values, named, keys, key);
    }
  }

  lemma SortedKeysNoDup(labels: LabelMap)
    ensures NoDup(SortedKeys(labels.Keys)) && forall k :: k in SortedKeys(labels.Keys) <==> k in labels
  {
    var keys := SortedKeys(labels.Keys);
    forall i, j | 0 <= i < j < |keys| ensures keys[i] != keys[j] {
      StrIrreflexive(keys[i]);
    }
    assert forall i :: 0 <= i < |keys| ==> keys[i] in keys;
  }

  /** An update delta is an overlay of what arrives, although its operations come in name order, not in table order. */
  lemma UpdateApplies(names: seq<string>, labels: LabelMap, final: seq<string>, stored: Labels)
    requires SafeLabels(Given(labels)) && GoodTable(final) && UpdateNames(names, labels) <= final
    ensures ApplyDelta(UpdateText(names, labels), stored, final) == Ok(ArrivedOverlay(stored, labels))
  {
    hide UpdateText, UpdateOps, ParseOps, Trim, ApplyOps, OverlayWith, ArrivedGiven, GoodTable, SafeLabels, UpdateNames,
         ArrivedValues, Gives;
    UpdateParses(names, labels, final);
    UpdateGives(names, labels, final);
    OverlayIs(stored, ArrivedValues(labels), ArrivedOps(UpdateOps(names, labels), final), SortedKeys(labels.Keys));
  }

  lemma UpdateGives(names: seq<string>, labels: LabelMap, final: seq<string>)
    requires SafeLabels(Given(labels)) && GoodTable(final) && UpdateNames(names, labels) <= final
    ensures InTable(UpdateOps(names, labels), final)
    ensures Gives(ArrivedOps(UpdateOps(names, labels), final), SortedKeys(labels.Keys), ArrivedValues(labels))
  {
    hide *;
    UpdateParses(names, labels, final);
    SortedKeysNoDup(labels);
    GivesEach(ArrivedOps(UpdateOps(names, labels), final), SortedKeys(labels.Keys), labels);
  }

  lemma GivesEach(named: seq<NameOp>, keys: seq<string>, labels: LabelMap)
    requires NoDup(keys) && |named| == |keys| && forall k :: k in keys <==> k in labels
    requires forall i :: 0 <= i < |keys| ==> keys[i] in labels && named[i] == NameOp(keys[i], ArrivedGiven(labels[keys[i]]))
    ensures Gives(named, keys, ArrivedValues(labels))
  {
    hide ArrivedGiven, NoDup;
  }

  lemma {:induction false} UpdateTableGrows(items: seq<Rec>, n: nat, m: nat)
    requires n <= m <= |items|
    ensures UpdateTable(items, n) <= UpdateTable(items, m)
    ensures NoDup(UpdateTable(items, m))
    decreases m
  {
    if m > 0 {
      UpdateTableGrows(items, if n == m then n - 1 else n, m - 1);
      InternAllGrows(UpdateTable(items, m - 1), SortedKeys(items[m - 1].labels.Keys));
    }
  }

  /** The updates that can be carried: names as in a write, and values that can be told apart. */
  ghost predicate SafeUpdates(items: seq<Rec>) {
    && items != [] && UpdateInModel(items) && InMachine(items) && |LabelNames(items)| <= MAX_INT64
    && GoodNames(items) && (forall i :: 0 <= i < |items| ==> SafeLabels(Given(items[i].labels)))
  }

  lemma {:induction false} UpdateTableIsGood(items: seq<Rec>)
    requires SafeUpdates(items)
    ensures GoodTable(UpdateTable(items, |items|))
    ensures forall k :: 0 <= k < |UpdateTable(items, |items|)| ==> '%' !in UpdateTable(items, |items|)[k]
  {
    UpdateTableGrows(items, 0, |items|);
    var names := UpdateTable(items, |items|);
    forall k | 0 <= k < |names| ensures names[k] != "" && '%' !in names[k] && names[k] in LabelNames(items) {
      UpdateTableMembers(items, |items|, names[k]);
    }
    NoDupFits(names, LabelNames(items));
  }

  lemma RecordNamesAreDistinct(items: seq<Rec>)
    requires items != [] && InMachine(items) && DistinctRecs(items)
    ensures forall i, j :: 0 <= i < j < |items| ==> RecordNames(items)[i] != RecordNames(items)[j]
  {
    RecordNamesDistinct(items);
    hide NameAt, IndexAll, MinTimestamp;
    var indexed, startTS := IndexAll(items), MinTimestamp(items);
    assert forall i, j :: 0 <= i < j < |items| ==> NameAt(indexed, startTS, i) != NameAt(indexed, startTS, j);
  }

  /** Each update record's value is found under its own name, next to the final label table. */
  lemma {:induction false} UpdateHeadersHold(items: seq<Rec>, i: nat)
    requires SafeUpdates(items) && i < |items|
    ensures Get(EncodeUpdate(items).headers, RecordNames(items)[i])
            == UpdateRow(UpdateText(UpdateTable(items, i), items[i].labels))
    ensures ParseLabelTable(EncodeUpdate(items).headers) == Ok(UpdateTable(items, |items|))
  {
    hide UpdateTable, UpdateText, MinTimestamp, IndexAll, Entries, EncodeList, HeaderName, DeltaFrom, ParseList,
         FormatInt, PutAll, GoodNames;
    EntriesAreBytes(items);
    UpdateTableIsBytes(items);
    RecordNamesAreDistinct(items);
    var names, rows := RecordNames(items), UpdateRows(items);
    PutAllValue(map[], names, rows, i);
    RecordNameAt(items, i);
    var d := DeltaFrom(MinTimestamp(items), items[i]);
    FixedIsNotName(ENTRIES, IndexAll(items)[i].entryIndex, d);
    FixedIsNotName(START_TS, IndexAll(items)[i].entryIndex, d);
    FixedIsNotName(CONTENT_LENGTH, IndexAll(items)[i].entryIndex, d);
    FixedIsNotName(LABELS, IndexAll(items)[i].entryIndex, d);
    LabelsHeader(items);
  }

  lemma NoRecordIsLabels(items: seq<Rec>)
    requires items != []
    ensures LABELS !in RecordNames(items)
  {
    hide MinTimestamp, IndexAll, HeaderName, DeltaFrom;
    forall i | 0 <= i < |items| ensures RecordNames(items)[i] != LABELS {
      RecordNameAt(items, i);
      FixedIsNotName(LABELS, IndexAll(items)[i].entryIndex, DeltaFrom(MinTimestamp(items), items[i]));
    }
  }

  lemma LabelsOnTop(h: Header, names: seq<string>)
    requires LABELS !in h && AllBytes(names) && forall k :: 0 <= k < |names| ==> names[k] != "" && '%' !in names[k]
    ensures ParseLabelTable(if names != [] then Set(h, LABELS, EncodeList(names)) else h) == Ok(names)
  {
    ListRoundTripIff(names);
    ListArrives(names);
    hide EncodeList, ParseList;
  }

  lemma {:induction false} LabelsHeader(items: seq<Rec>)
    requires SafeUpdates(items)
    ensures ParseLabelTable(EncodeUpdate(items).headers) == Ok(UpdateTable(items, |items|))
  {
    EntriesAreBytes(items);
    UpdateTableIsBytes(items);
    UpdateTableIsGood(items);
    hide UpdateTable, UpdateText, MinTimestamp, Entries, EncodeList, ParseLabelTable, FormatInt, PutAll, RecordNames,
         UpdateRows, GoodTable;
    FixedNamesDiffer();
    NoRecordIsLabels(items);
    PutAllKeys(map[], RecordNames(items), UpdateRows(items), LABELS);
    LabelsOnTop(WithFixed(PutAll(map[], RecordNames(items), UpdateRows(items)), items), UpdateTable(items, |items|));
  }

  /**
   * Update semantics: reading an update record's header against any stored
   * record gives that record with its labels overlaid, its type unchanged.
   */
  lemma {:induction false} UpdateArrives(items: seq<Rec>, i: nat, stored: ParsedHeader)
    requires SafeUpdates(items) && i < |items| && stored.contentType != ""
    ensures var h := EncodeUpdate(items).headers;
            && ParseLabelTable(h) == Ok(UpdateTable(items, |items|))
            && HeaderOf(Get(h, RecordNames(items)[i]), Some(stored), UpdateTable(items, |items|))
               == Ok(ParsedHeader(0, stored.contentType, ArrivedOverlay(stored.labels, items[i].labels)))
  {
    UpdateHeadersHold(items, i);
    UpdateTableIsGood(items);
    var final := UpdateTable(items, |items|);
    UpdateTableGrows(items, i + 1, |items|);
    UpdateApplies(UpdateTable(items, i), items[i].labels, final, stored.labels);
    UpdateRowReads(UpdateText(UpdateTable(items, i), items[i].labels), stored, final);
  }

  /** The update means what it says, against any stored record, if and only if its values are good. */
  lemma {:induction false} UpdateMeansOverlayIff(items: seq<Rec>, i: nat, stored: ParsedHeader)
    requires SafeUpdates(items) && i < |items| && stored.contentType != ""
    ensures HeaderOf(Get(EncodeUpdate(items).headers, RecordNames(items)[i]), Some(stored), UpdateTable(items, |items|))
            == Ok(ParsedHeader(0, stored.contentType, Overlay(stored.labels, items[i].labels)))
            <==> GoodLabels(Given(items[i].labels))
  {
    hide EncodeUpdate, HeaderOf, ParseLabelTable, ArrivedOverlay, Overlay, RecordNames, Get, UpdateTable, UpdateInModel,
         InMachine, SafeLabels, GoodLabels, Given;
    UpdateArrives(items, i, stored);
    OverlayIff(stored.labels, items[i].labels);
  }

  /** Both forms of an update row. */
  lemma UpdateRowReads(delta: string, stored: ParsedHeader, final: seq<string>)
    requires stored.contentType != "" && ApplyDelta(delta, stored.labels, final).Ok?
    ensures HeaderOf(UpdateRow(delta), Some(stored), final)
            == Ok(ParsedHeader(0, stored.contentType, ApplyDelta(delta, stored.labels, final).value))
  {
    assert FormatInt(0) == "0";
    hide HeaderOf, HeaderWithType, ApplyDelta, FormatInt;
    if delta == "" {
      SizeOnly(0, Some(stored), final);
      EmptyDelta(stored.labels, final);
    } else {
      assert "0,," + delta == "0" + [','] + ("" + [','] + delta);
      SizeAndRest(0, "" + [','] + delta, Some(stored), final);
      TypeAndLabels(0, "", delta, Some(stored), final);
    }
  }
}
