/**
 * Building label deltas (record_batch.go: buildLabelDelta, buildUpdateLabelDelta,
 * normalizeLabels) and what applying them does (batch/v2.go: applyLabelDelta).
 */
module LabelDelta {
  import opened Text
  import opened Ordering
  import opened Decimal
  import opened LabelOps
  import opened NameTable

  /** A value of a Go `any` label: nil, or something that `fmt.Sprint` prints as `text`. */
  datatype LabelValue = Nil | Printed(text: string)

  type LabelMap = map<string, LabelValue>

  function Sprint(v: LabelValue): string {
    match v
    case Nil => "<nil>"
    case Printed(text) => text
  }

  /** normalizeLabels. */
  function Normalize(labels: LabelMap): Labels {
    map k | k in labels :: Sprint(labels[k])
  }

  ghost predicate AsciiLabels(labels: Labels) {
    forall k :: k in labels ==> IsAscii(labels[k])
  }

  // ---- the operations of a delta ------------------------------------------------------

  predicate Changed(prev: Labels, cur: Labels, key: string) {
    !(key in prev && key in cur && prev[key] == cur[key])
  }

  function ChangedAmong(keys: seq<string>, prev: Labels, cur: Labels): seq<string> {
    if keys == [] then []
    else
      var k := keys[|keys| - 1];
      ChangedAmong(keys[..|keys| - 1], prev, cur) + if Changed(prev, cur, k) then [k] else []
  }

  /** The names whose value differs between two records, in name order. */
  ghost function ChangedKeys(prev: Labels, cur: Labels): seq<string> {
    ChangedAmong(SortedKeys(prev.Keys + cur.Keys), prev, cur)
  }

  function OpFor(names: seq<string>, key: string, cur: Labels): IndexOp
    requires key in names
  {
    IndexOp(Position(names, key), if key in cur then Some(cur[key]) else None)
  }

  ghost predicate AllIn(keys: seq<string>, names: seq<string>) {
    forall i :: 0 <= i < |keys| ==> keys[i] in names
  }

  function OpsFor(names: seq<string>, keys: seq<string>, cur: Labels): (ops: seq<IndexOp>)
    requires AllIn(keys, names)
    ensures |ops| == |keys|
    ensures forall i :: 0 <= i < |keys| ==> ops[i] == OpFor(names, keys[i], cur)
  {
    seq(|keys|, i requires 0 <= i < |keys| => OpFor(names, keys[i], cur))
  }

  lemma {:induction false} UsesAreIn(names: seq<string>, uses: seq<string>)
    ensures AllIn(uses, InternAll(names, uses))
  {
    forall i | 0 <= i < |uses| ensures uses[i] in InternAll(names, uses) {
      InternAllMembers(names, uses, uses[i]);
    }
  }

  predicate IdxLess(a: IndexOp, b: IndexOp) {
    a.idx < b.idx
  }

  /** The label table after the delta. */
  ghost function DeltaNames(names: seq<string>, prev: Labels, cur: Labels): seq<string> {
    InternAll(names, ChangedKeys(prev, cur))
  }

  ghost function UnsortedOps(names: seq<string>, prev: Labels, cur: Labels): seq<IndexOp> {
    UsesAreIn(names, ChangedKeys(prev, cur));
    OpsFor(DeltaNames(names, prev, cur), ChangedKeys(prev, cur), cur)
  }

  /** The operations in the order in which they are printed. */
  ghost function DeltaOps(names: seq<string>, prev: Labels, cur: Labels): seq<IndexOp> {
    Sort(UnsortedOps(names, prev, cur), IdxLess)
  }

  lemma DeltaOpsAscii(names: seq<string>, prev: Labels, cur: Labels)
    requires AsciiLabels(cur)
    ensures AsciiOps(UnsortedOps(names, prev, cur))
    ensures AsciiOps(DeltaOps(names, prev, cur))
  {
    var ops := UnsortedOps(names, prev, cur);
    SortMembers(ops, IdxLess);
    var sorted := DeltaOps(names, prev, cur);
    forall i | 0 <= i < |sorted| ensures AsciiOp(sorted[i]) {
      assert sorted[i] in ops;
    }
  }

  ghost function DeltaText(names: seq<string>, prev: Labels, cur: Labels): string
    requires AsciiLabels(cur)
  {
    DeltaOpsAscii(names, prev, cur);
    PrintOps(DeltaOps(names, prev, cur))
  }

  // ---- properties of the operation list ------------------------------------------------

  lemma {:induction false} ChangedAmongMembers(keys: seq<string>, prev: Labels, cur: Labels, key: string)
    ensures key in ChangedAmong(keys, prev, cur) <==> key in keys && Changed(prev, cur, key)
  {
    if keys != [] {
      assert keys == keys[..|keys| - 1] + [keys[|keys| - 1]];
      ChangedAmongMembers(keys[..|keys| - 1], prev, cur, key);
    }
  }

  lemma {:induction false} ChangedAmongSorted(keys: seq<string>, prev: Labels, cur: Labels)
    requires StrictSorted(keys, StrLess)
    ensures StrictSorted(ChangedAmong(keys, prev, cur), StrLess)
  {
    if keys != [] {
      var init, k := keys[..|keys| - 1], keys[|keys| - 1];
      ChangedAmongSorted(init, prev, cur);
      var cs := ChangedAmong(init, prev, cur);
      forall i | 0 <= i < |cs| ensures StrLess(cs[i], k) {
        ChangedAmongMembers(init, prev, cur, cs[i]);
        assert cs[i] in init;
        var p :| 0 <= p < |init| && init[p] == cs[i];
        assert keys[p] == init[p];
      }
    }
  }

  /** The changed names: each once, and exactly those that differ. */
  lemma ChangedKeysExact(prev: Labels, cur: Labels)
    ensures NoDup(ChangedKeys(prev, cur))
    ensures forall k :: k in ChangedKeys(prev, cur) <==> k in prev.Keys + cur.Keys && Changed(prev, cur, k)
  {
    var keys := SortedKeys(prev.Keys + cur.Keys);
    ChangedAmongSorted(keys, prev, cur);
    var cs := ChangedKeys(prev, cur);
    forall i, j | 0 <= i < j < |cs| ensures cs[i] != cs[j] {
      StrIrreflexive(cs[i]);
    }
    forall k ensures k in cs <==> k in prev.Keys + cur.Keys && Changed(prev, cur, k) {
      ChangedAmongMembers(keys, prev, cur, k);
    }
  }

  lemma OpsDistinct(names: seq<string>, keys: seq<string>, cur: Labels)
    requires AllIn(keys, names) && NoDup(keys)
    ensures Distinct(OpsFor(names, keys, cur), IdxLess)
  {}

  lemma IdxLessIsWeakOrder()
    ensures WeakOrder(IdxLess)
  {}

  // ---- the builder ---------------------------------------------------------------------

  lemma OpsForGrow(names: seq<string>, longer: seq<string>, keys: seq<string>, cur: Labels)
    requires AllIn(keys, names) && names <= longer
    ensures AllIn(keys, longer) && OpsFor(longer, keys, cur) == OpsFor(names, keys, cur)
  {
    forall i | 0 <= i < |keys| ensures keys[i] in longer && OpFor(longer, keys[i], cur) == OpFor(names, keys[i], cur) {
      PositionStable(names, longer, keys[i]);
    }
  }

  /** One more changed key: the table and the operation list both grow at the end. */
  lemma {:induction false} OneMoreKey(names: seq<string>, keys: seq<string>, key: string, cur: Labels)
    ensures var was, now := InternAll(names, keys), InternAll(names, keys + [key]);
            && now == Intern(was, key)
            && AllIn(keys, was) && AllIn(keys + [key], now)
            && OpsFor(now, keys + [key], cur) == OpsFor(was, keys, cur) + [OpFor(now, key, cur)]
  {
    assert (keys + [key])[..|keys + [key]| - 1] == keys;
    UsesAreIn(names, keys);
    UsesAreIn(names, keys + [key]);
    var was, now := InternAll(names, keys), InternAll(names, keys + [key]);
    OpsForGrow(was, now, keys, cur);
    var ops := OpsFor(now, keys + [key], cur);
    forall i | 0 <= i < |keys| ensures ops[i] == OpsFor(was, keys, cur)[i] {
      assert (keys + [key])[i] == keys[i];
      assert OpsFor(now, keys, cur)[i] == OpFor(now, keys[i], cur);
    }
  }

  /** The delta has been collected for the first `i` of the sorted keys. */
  ghost predicate Collected(names: seq<string>, now: seq<string>, ops: seq<IndexOp>,
                            keys: seq<string>, prev: Labels, cur: Labels) {
    var cs := ChangedAmong(keys, prev, cur);
    && now == InternAll(names, cs)
    && AllIn(cs, now)
    && ops == OpsFor(now, cs, cur)
  }

  lemma CollectKey(names: seq<string>, now: seq<string>, ops: seq<IndexOp>,
                   keys: seq<string>, i: nat, prev: Labels, cur: Labels)
    requires i < |keys|
    requires Collected(names, now, ops, keys[..i], prev, cur)
    ensures Changed(prev, cur, keys[i]) ==>
              var next := Intern(now, keys[i]);
              Collected(names, next, ops + [OpFor(next, keys[i], cur)], keys[..i + 1], prev, cur)
    ensures !Changed(prev, cur, keys[i]) ==> Collected(names, now, ops, keys[..i + 1], prev, cur)
  {
    assert keys[..i + 1][..i] == keys[..i];
    var cs := ChangedAmong(keys[..i], prev, cur);
    assert ChangedAmong(keys[..i + 1], prev, cur) == cs + if Changed(prev, cur, keys[i]) then [keys[i]] else [];
    if Changed(prev, cur, keys[i]) {
      OneMoreKey(names, cs, keys[i], cur);
    } else {
      assert cs + [] == cs;
    }
  }

  lemma CollectStart(names: seq<string>, keys: seq<string>, prev: Labels, cur: Labels)
    ensures Collected(names, names, [], keys[..0], prev, cur)
  {}

  lemma CollectEnd(names: seq<string>, now: seq<string>, ops: seq<IndexOp>, prev: Labels, cur: Labels)
    requires Collected(names, now, ops, SortedKeys(prev.Keys + cur.Keys), prev, cur)
    ensures now == DeltaNames(names, prev, cur) && ops == UnsortedOps(names, prev, cur)
  {
    hide InternAll, ChangedAmong, OpsFor;
  }

  /** buildLabelDelta. */
  method BuildLabelDelta(labels: Labels, previous: Option<Labels>, table: Table) returns (delta: string)
    requires table.Valid() && AsciiLabels(labels)
    modifies table
    ensures table.Valid()
    ensures var prev := if previous.None? then map[] else previous.value;
            && table.names == DeltaNames(old(table.names), prev, labels)
            && delta == DeltaText(old(table.names), prev, labels)
  {
    hide Position, InternAll, Intern, OpsFor, PrintOps, ChangedAmong, Collected, DeltaNames, DeltaOps, UnsortedOps;
    ghost var names := table.names;
    ghost var prev := if previous.None? then map[] else previous.value;
    var ops: seq<IndexOp> := [];
    var keys;
    if previous.None? {
      keys := CollectSorted(labels.Keys);
      assert prev.Keys + labels.Keys == labels.Keys;
      CollectStart(names, keys, prev, labels);
      for i := 0 to |keys|
        invariant table.Valid()
        invariant Collected(names, table.names, ops, keys[..i], prev, labels)
      {
        CollectKey(names, table.names, ops, keys, i, prev, labels);
        var idx := table.Ensure(keys[i]);
        assert keys[i] in keys;
        ops := ops + [IndexOp(idx, Some(labels[keys[i]]))];
      }
    } else {
      keys := CollectSorted(previous.value.Keys + labels.Keys);
      CollectStart(names, keys, prev, labels);
      for i := 0 to |keys|
        invariant table.Valid()
        invariant Collected(names, table.names, ops, keys[..i], prev, labels)
      {
        CollectKey(names, table.names, ops, keys, i, prev, labels);
        var key := keys[i];
        if !(key in previous.value && key in labels && previous.value[key] == labels[key]) {
          var idx := table.Ensure(key);
          if key !in labels {
            ops := ops + [IndexOp(idx, None)];
          } else {
            ops := ops + [IndexOp(idx, Some(labels[key]))];
          }
        }
      }
    }
    assert keys[..|keys|] == keys;
    CollectEnd(names, table.names, ops, prev, labels);
    DeltaOpsAscii(names, prev, labels);
    var sorted := SortOps(ops, names, prev, labels);
    delta := PrintOps(sorted);
  }

  method SortOps(ops: seq<IndexOp>, ghost names: seq<string>, ghost prev: Labels, ghost cur: Labels)
    returns (sorted: seq<IndexOp>)
    requires ops == UnsortedOps(names, prev, cur)
    ensures sorted == DeltaOps(names, prev, cur)
  {
    IdxLessIsWeakOrder();
    ChangedKeysExact(prev, cur);
    UsesAreIn(names, ChangedKeys(prev, cur));
    OpsDistinct(DeltaNames(names, prev, cur), ChangedKeys(prev, cur), cur);
    sorted := SortFunc(ops, IdxLess);
    SortUnique(ops, sorted, IdxLess);
  }

  // ---- what a delta means -----------------------------------------------------------------

  /** The labels as the receiver keeps them: values trimmed, blank ones dropped. */
  function NormMap(labels: Labels): Labels {
    map k | k in labels && Trim(labels[k]) != "" :: Trim(labels[k])
  }

  ghost predicate GoodLabels(labels: Labels) {
    forall k :: k in labels ==> k != "" && IsAscii(labels[k]) && GoodValue(labels[k])
  }

  /** The labels as the receiver gets them: carried texts, trimmed, blank ones dropped. */
  function Arrived(labels: Labels): Labels {
    map k | k in labels && Trim(Carried(labels[k])) != "" :: Trim(Carried(labels[k]))
  }

  ghost predicate SafeLabels(labels: Labels) {
    forall k :: k in labels ==> k != "" && IsAscii(labels[k]) && SafeValue(labels[k])
  }

  /** Of safe labels exactly the good ones arrive as their trimmed selves. */
  lemma ArrivedIsTrimmedIff(labels: Labels)
    requires SafeLabels(labels)
    ensures Arrived(labels) == NormMap(labels) <==> GoodLabels(labels)
  {
    hide Trim, Carried, GoodValue, SafeValue, IsAscii;
    forall k | k in labels
      ensures GoodValue(labels[k]) <==> Trim(Carried(labels[k])) == Trim(labels[k])
      ensures Trim(labels[k]) == "" ==> GoodValue(labels[k]) {
      GoodIsSafeAndUnchanged(labels[k]);
      BlankIsGood(labels[k]);
    }
    if k :| k in labels && !GoodValue(labels[k]) {
      assert k in NormMap(labels) && NormMap(labels)[k] == Trim(labels[k]);
    }
  }

  lemma BlankIsGood(v: string)
    requires IsAscii(v) && SafeValue(v)
    ensures Trim(v) == "" ==> GoodValue(v)
  {
    if ',' in v { VisibleInTrim(v, ','); }
  }

  /** The final label table: distinct, non-empty names, and few enough to be numbered by an int64. */
  ghost predicate GoodTable(names: seq<string>) {
    NoDup(names) && |names| <= MAX_INT64 && forall i :: 0 <= i < |names| ==> names[i] != ""
  }

  /** Each operation of the delta sits at the number that the final table gives its name. */
  lemma DeltaOpShape(names: seq<string>, prev: Labels, cur: Labels, final: seq<string>, i: nat)
    requires DeltaNames(names, prev, cur) <= final && i < |DeltaOps(names, prev, cur)|
    ensures var op := DeltaOps(names, prev, cur)[i];
            && op.idx < |final|
            && final[op.idx] in ChangedKeys(prev, cur)
            && op.value == (if final[op.idx] in cur then Some(cur[final[op.idx]]) else None)
  {
    var ops, sorted := UnsortedOps(names, prev, cur), DeltaOps(names, prev, cur);
    SortMembers(ops, IdxLess);
    assert sorted[i] in ops;
    var p :| 0 <= p < |ops| && ops[p] == sorted[i];
    var key := ChangedKeys(prev, cur)[p];
    UsesAreIn(names, ChangedKeys(prev, cur));
    assert ops[p] == OpFor(DeltaNames(names, prev, cur), key, cur);
    PositionStable(DeltaNames(names, prev, cur), final, key);
  }

  lemma DeltaOpCovers(names: seq<string>, prev: Labels, cur: Labels, final: seq<string>, key: string)
    requires DeltaNames(names, prev, cur) <= final && key in ChangedKeys(prev, cur)
    ensures exists i :: 0 <= i < |DeltaOps(names, prev, cur)|
                        && DeltaOps(names, prev, cur)[i].idx < |final|
                        && final[DeltaOps(names, prev, cur)[i].idx] == key
  {
    var ops, sorted := UnsortedOps(names, prev, cur), DeltaOps(names, prev, cur);
    UsesAreIn(names, ChangedKeys(prev, cur));
    var p :| 0 <= p < |ChangedKeys(prev, cur)| && ChangedKeys(prev, cur)[p] == key;
    SortMembers(ops, IdxLess);
    assert ops[p] in sorted;
    var i :| 0 <= i < |sorted| && sorted[i] == ops[p];
    PositionStable(DeltaNames(names, prev, cur), final, key);
  }

  lemma DeltaOpsDistinct(names: seq<string>, prev: Labels, cur: Labels)
    ensures StrictSorted(DeltaOps(names, prev, cur), IdxLess)
  {
    IdxLessIsWeakOrder();
    ChangedKeysExact(prev, cur);
    UsesAreIn(names, ChangedKeys(prev, cur));
    var ops := UnsortedOps(names, prev, cur);
    OpsDistinct(DeltaNames(names, prev, cur), ChangedKeys(prev, cur), cur);
    SortSorted(ops, IdxLess);
    SortElements(ops, IdxLess);
    SortUnique(ops, Sort(ops, IdxLess), IdxLess);
  }

  /** A name the delta does not mention has the same value before and after. */
  lemma UnchangedAgree(prev: Labels, cur: Labels, key: string)
    requires key !in ChangedKeys(prev, cur)
    ensures key in Arrived(prev) <==> key in Arrived(cur)
    ensures key in Arrived(cur) ==> Arrived(prev)[key] == Arrived(cur)[key]
  {
    ChangedKeysExact(prev, cur);
  }

  /** The printed delta parses back, against the final table, to its own operations. */
  lemma {:induction false} DeltaParses(names: seq<string>, prev: Labels, cur: Labels, final: seq<string>)
    requires SafeLabels(cur) && GoodTable(final)
    requires DeltaNames(names, prev, cur) <= final
    ensures InTable(DeltaOps(names, prev, cur), final)
    ensures ParseOps(Trim(DeltaText(names, prev, cur)), final) == Ok(ArrivedOps(DeltaOps(names, prev, cur), final))
    ensures DistinctKeys(ArrivedOps(DeltaOps(names, prev, cur), final))
  {
    var ops := DeltaOps(names, prev, cur);
    DeltaOpsAscii(names, prev, cur);
    forall i | 0 <= i < |ops| ensures ops[i].idx < |final| && final[ops[i].idx] != "" && SafeOp(ops[i]) {
      DeltaOpShape(names, prev, cur, final, i);
    }
    SafeOpsArrive(ops, final);
    var named := ArrivedOps(ops, final);
    DeltaOpsDistinct(names, prev, cur);
    forall i, j | 0 <= i < j < |named| ensures named[i].key != named[j].key {
      assert IdxLess(ops[i], ops[j]);
    }
  }

  /** The effect of the delta on one name. */
  lemma DeltaEffect(names: seq<string>, prev: Labels, cur: Labels, final: seq<string>, key: string)
    requires DeltaNames(names, prev, cur) <= final
    requires InTable(DeltaOps(names, prev, cur), final)
    requires DistinctKeys(ArrivedOps(DeltaOps(names, prev, cur), final))
    ensures var result := ApplyOps(Arrived(prev), ArrivedOps(DeltaOps(names, prev, cur), final));
            && (key in result <==> key in Arrived(cur))
            && (key in result ==> result[key] == Arrived(cur)[key])
  {
    var ops := DeltaOps(names, prev, cur);
    var named := ArrivedOps(ops, final);
    if key in ChangedKeys(prev, cur) {
      DeltaOpCovers(names, prev, cur, final, key);
      var i :| 0 <= i < |ops| && ops[i].idx < |final| && final[ops[i].idx] == key;
      DeltaOpShape(names, prev, cur, final, i);
      ApplyTouched(Arrived(prev), named, i);
    } else {
      forall i | 0 <= i < |named| ensures named[i].key != key {
        DeltaOpShape(names, prev, cur, final, i);
      }
      ApplyUntouched(Arrived(prev), named, key);
      UnchangedAgree(prev, cur, key);
    }
  }

  /**
   * Applying a delta to the receiver's image of the previous labels gives the
   * receiver's image of the current ones, although blank values make the two
   * sides keep different maps.
   */
  lemma DeltaApplies(names: seq<string>, prev: Labels, cur: Labels, final: seq<string>)
    requires SafeLabels(cur) && GoodTable(final)
    requires DeltaNames(names, prev, cur) <= final
    ensures ApplyDelta(DeltaText(names, prev, cur), Arrived(prev), final) == Ok(Arrived(cur))
  {
    hide DeltaText, ParseOps, Trim, DeltaOps, ApplyOps, DeltaNames;
    DeltaParses(names, prev, cur, final);
    var result := ApplyOps(Arrived(prev), ArrivedOps(DeltaOps(names, prev, cur), final));
    forall key ensures key in result <==> key in Arrived(cur)
               ensures key in result ==> result[key] == Arrived(cur)[key] {
      DeltaEffect(names, prev, cur, final, key);
    }
    assert result == Arrived(cur);
  }
}
