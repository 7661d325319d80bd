/**
 * Attachments: a key/value map kept as an append-and-mark log in the
 * `<entry>/$meta` entry (bucket.go: WriteAttachments, ReadAttachments,
 * RemoveAttachments, firstRecordBatchError).
 */
module Attachments {
  import opened Text
  import opened Ordering
  import opened Headers
  import opened LabelOps
  import opened LabelDelta
  import opened RecordBatches
  import opened V2Errors

  /** Attachment names with the JSON text of their payloads. */
  type Payloads = map<string, bytes>

  const KEY := "key"
  const REMOVE := "remove"
  const JSON := "application/json"

  function MetaEntry(entry: string): string {
    entry + "/$meta"
  }

  /** Why an operation failed. */
  datatype Failure =
    | NoEntry
    | NotMarshalled(key: string)
    | NotSent(error: string)
    | NotStored(entry: string, ts: int, reason: ApiError)
    | NotQueried(error: string)
    | NotRead(error: string)
    | NotDecoded(key: string)

  // ---- reading --------------------------------------------------------------------------------

  /** A record as the query delivers it, with what reading its body gives. */
  datatype Queried = Queried(ts: int, labels: Labels, content: Result<bytes>, last: bool)

  datatype Reading = Attached(attachments: Payloads) | Unreadable(failure: Failure)

  predicate IsRemoved(labels: Labels) {
    REMOVE in labels && EqualFold(labels[REMOVE], "true")
  }

  /** What one record does to the attachments read so far. */
  function ReadStep(m: Payloads, q: Queried, decodes: bytes -> bool): Reading {
    if KEY !in q.labels then Attached(m)
    else if IsRemoved(q.labels) then Attached(m - {q.labels[KEY]})
    else if q.content.Err? then Unreadable(NotRead(q.content.error))
    else if !decodes(q.content.value) then Unreadable(NotDecoded(q.labels[KEY]))
    else Attached(m[q.labels[KEY] := q.content.value])
  }

  /** The records after the one marked as the last of the query are not looked at. */
  function ReadFrom(m: Payloads, rs: seq<Queried>, decodes: bytes -> bool): Reading
    decreases |rs|
  {
    if rs == [] then Attached(m)
    else
      var r := ReadStep(m, rs[0], decodes);
      if r.Unreadable? || rs[0].last then r else ReadFrom(r.attachments, rs[1..], decodes)
  }

  lemma {:induction false} ReadFromAt(m: Payloads, rs: seq<Queried>, i: nat, decodes: bytes -> bool)
    requires i < |rs|
    ensures ReadFrom(m, rs[i..], decodes)
            == var r := ReadStep(m, rs[i], decodes);
               if r.Unreadable? || rs[i].last then r else ReadFrom(r.attachments, rs[i + 1..], decodes)
  {
    hide ReadStep;
    assert rs[i..][1..] == rs[i + 1..];
  }

  /** What ReadAttachments returns: its two refusals, or the fold over what the query delivers. */
  function ReadResult(entry: string, query: Result<seq<Queried>>, decodes: bytes -> bool): Reading {
    if entry == "" then Unreadable(NoEntry)
    else if query.Err? then Unreadable(NotQueried(query.error))
    else ReadFrom(map[], query.value, decodes)
  }

  /** ReadAttachments, given what its query delivers; `decodes` tells which texts are JSON. */
  method ReadAttachments(entry: string, query: Result<seq<Queried>>, decodes: bytes -> bool) returns (r: Reading)
    ensures r == ReadResult(entry, query, decodes)
  {
    if entry == "" {
      return Unreadable(NoEntry);
    }
    if query.Err? {
      return Unreadable(NotQueried(query.error));
    }
    hide EqualFold;
    var rs, attachments := query.value, map[];
    assert rs[0..] == rs;
    for i := 0 to |rs|
      invariant ReadFrom(attachments, rs[i..], decodes) == ReadFrom(map[], rs, decodes)
    {
      ReadFromAt(attachments, rs, i, decodes);
      var record := rs[i];
      if KEY !in record.labels {
        if record.last {
          return Attached(attachments);
        }
        continue;
      }
      var key := record.labels[KEY];
      if REMOVE in record.labels && EqualFold(record.labels[REMOVE], "true") {
        attachments := attachments - {key};
        if record.last {
          return Attached(attachments);
        }
        continue;
      }
      if record.content.Err? {
        return Unreadable(NotRead(record.content.error));
      }
      if !decodes(record.content.value) {
        return Unreadable(NotDecoded(key));
      }
      attachments := attachments[key := record.content.value];
      if record.last {
        return Attached(attachments);
      }
    }
    assert rs[|rs|..] == [];
    r := Attached(attachments);
  }

  // ---- sending --------------------------------------------------------------------------------

  /** What an operation puts on the wire. */
  datatype Request = Nothing | Send(batch: RecordBatch)

  /** What RecordBatch.Send returns: an error of its own, or the errors of single records. */
  datatype SendReply = Lost(error: string) | Answered(errors: ErrorMap)

  /** The operation fails exactly if its batch was not sent, or some record of it was refused. */
  ghost predicate TellsReply(failure: Option<Failure>, reply: SendReply) {
    match reply
    case Lost(error) => failure == Some(NotSent(error))
    case Answered(errors) =>
      && (failure.None? <==> forall entry :: entry in errors ==> errors[entry] == map[])
      && (failure.Some? ==> failure.value.NotStored? && failure.value.entry in errors
                            && failure.value.ts in errors[failure.value.entry]
                            && failure.value.reason == errors[failure.value.entry][failure.value.ts])
  }

  /** firstRecordBatchError: whichever error the ranges over the maps meet first. */
  method FirstRecordBatchError(errors: ErrorMap) returns (failure: Option<Failure>)
    ensures TellsReply(failure, Answered(errors))
  {
    var left := errors.Keys;
    while left != {}
      invariant left <= errors.Keys
      invariant forall entry :: entry in errors && entry !in left ==> errors[entry] == map[]
    {
      var entry :| entry in left;
      left := left - {entry};
      if errors[entry] != map[] {
        var item :| item in errors[entry].Items;
        return Some(NotStored(entry, item.0, item.1));
      }
    }
    failure := None;
  }

  method Tell(reply: SendReply) returns (failure: Option<Failure>)
    ensures TellsReply(failure, reply)
  {
    match reply
    case Lost(error) => failure := Some(NotSent(error));
    case Answered(errors) => failure := FirstRecordBatchError(errors);
  }

  // ---- writing --------------------------------------------------------------------------------

  function WriteCall(entry: string, key: string, data: bytes, ts: int): Call {
    Call.Add(MetaEntry(entry), ts, data, JSON, Some(map[KEY := Printed(key)]))
  }

  function WriteCalls(entry: string, attachments: Payloads, now: int, order: seq<string>): (calls: seq<Call>)
    requires forall i :: 0 <= i < |order| ==> order[i] in attachments
    ensures |calls| == |order|
    ensures forall i :: 0 <= i < |order| ==> calls[i] == WriteCall(entry, order[i], attachments[order[i]], now + i)
  {
    seq(|order|, i requires 0 <= i < |order| => WriteCall(entry, order[i], attachments[order[i]], now + i))
  }

  lemma {:induction false} OneMoreCall(entry: string, attachments: Payloads, now: int, order: seq<string>, key: string)
    requires key in attachments && forall i :: 0 <= i < |order| ==> order[i] in attachments
    ensures forall i :: 0 <= i < |order + [key]| ==> (order + [key])[i] in attachments
    ensures Run(WriteCalls(entry, attachments, now, order + [key]))
            == Apply(Run(WriteCalls(entry, attachments, now, order)), WriteCall(entry, key, attachments[key], now + |order|))
  {
    hide Apply, WriteCall;
    var calls := WriteCalls(entry, attachments, now, order + [key]);
    assert calls[..|order|] == WriteCalls(entry, attachments, now, order);
  }

  /** The texts json.Marshal gives; None where it fails. */
  type Marshalled = map<string, Option<bytes>>

  function Texts(payloads: Marshalled): Payloads {
    map k | k in payloads && payloads[k].Some? :: payloads[k].value
  }

  /** The loop of WriteAttachments: consecutive timestamps from `now` on, in whatever order the map yields. */
  method FillBatch(entry: string, payloads: Marshalled, now: int)
    returns (batch: RecordBatch, failure: Option<Failure>, ghost order: seq<string>)
    ensures fresh(batch)
    ensures failure.Some? ==> exists k :: k in payloads && payloads[k].None? && failure == Some(NotMarshalled(k))
    ensures failure.None? ==>
              && (forall k :: k in payloads ==> payloads[k].Some?) && Enumerates(order, Texts(payloads))
              && (forall i :: 0 <= i < |order| ==> order[i] in Texts(payloads))
              && batch.Abs() == Run(WriteCalls(entry, Texts(payloads), now, order))
  {
    hide Run, Apply, Texts;
    batch := new RecordBatch();
    failure, order := None, [];
    var left, ts := payloads.Keys, now;
    NoCalls(entry, Texts(payloads), now);
    while left != {}
      invariant fresh(batch) && left <= payloads.Keys && ts == now + |order|
      invariant forall i, j :: 0 <= i < j < |order| ==> order[i] != order[j]
      invariant forall k :: k in order <==> k in payloads.Keys - left
      invariant forall i :: 0 <= i < |order| ==> order[i] in payloads && payloads[order[i]].Some? && order[i] in Texts(payloads)
      invariant batch.Abs() == Run(WriteCalls(entry, Texts(payloads), now, order))
    {
      var key :| key in left;
      left := left - {key};
      assert key !in order;
      if payloads[key].None? {
        return batch, Some(NotMarshalled(key)), [];
      }
      TextIs(payloads, key);
      OneMoreCall(entry, Texts(payloads), now, order, key);
      batch.Add(MetaEntry(entry), ts, payloads[key].value, JSON, Some(map[KEY := Printed(key)]));
      assert forall j :: j in order + [key] <==> j in order || j == key;
      order := order + [key];
      ts := ts + 1;
    }
    AllTexts(payloads, order);
  }

  lemma TextIs(payloads: Marshalled, key: string)
    requires key in payloads && payloads[key].Some?
    ensures key in Texts(payloads) && Texts(payloads)[key] == payloads[key].value
  {}

  lemma AllTexts(payloads: Marshalled, order: seq<string>)
    requires forall k :: k in order <==> k in payloads
    requires forall i :: 0 <= i < |order| ==> order[i] in payloads && payloads[order[i]].Some?
    ensures forall k :: k in payloads ==> payloads[k].Some?
    ensures forall k :: k in order <==> k in Texts(payloads)
  {
    forall k | k in payloads ensures payloads[k].Some? { assert k in order; }
  }

  /** WriteAttachments. A payload that cannot be marshalled stops it before anything is sent. */
  method WriteAttachments(entry: string, payloads: Marshalled, now: int, reply: SendReply)
    returns (request: Request, failure: Option<Failure>, ghost order: seq<string>)
    ensures entry == "" ==> request == Nothing && failure == Some(NoEntry)
    ensures entry != "" && payloads == map[] ==> request == Nothing && failure == None
    ensures entry != "" && (exists k :: k in payloads && payloads[k].None?) ==>
              request == Nothing && exists k :: k in payloads && payloads[k].None? && failure == Some(NotMarshalled(k))
    ensures entry != "" && payloads != map[] && (forall k :: k in payloads ==> payloads[k].Some?) ==>
              && request.Send? && fresh(request.batch) && Enumerates(order, Texts(payloads))
              && (forall i :: 0 <= i < |order| ==> order[i] in Texts(payloads))
              && request.batch.Abs() == Run(WriteCalls(entry, Texts(payloads), now, order))
              && TellsReply(failure, reply)
  {
    request, order, failure := Nothing, [], None;
    if entry == "" {
      return Nothing, Some(NoEntry), [];
    }
    if payloads == map[] {
      return;
    }
    hide Run, TellsReply, Texts, Enumerates;
    var batch;
    batch, failure, order := FillBatch(entry, payloads, now);
    if failure.Some? {
      return Nothing, failure, [];
    }
    request := Send(batch);
    failure := Tell(reply);
  }

  lemma NoCalls(entry: string, attachments: Payloads, now: int)
    ensures Run(WriteCalls(entry, attachments, now, [])) == State(map[], 0)
  {}

  // ---- removing -------------------------------------------------------------------------------

  /** The query language takes a leading `$` for an operator, so it is doubled. */
  function EscapeKey(key: string): string {
    if HasPrefix(key, "$") then "$" + key else key
  }

  /** The text an operand of the query stands for. */
  function Literal(operand: string): string {
    if HasPrefix(operand, "$$") then operand[1..] else operand
  }

  /** The condition of the query: the escaped keys, or none. */
  function Operands(keys: seq<string>): (operands: Option<seq<string>>)
    ensures operands.Some? ==> |operands.value| == |keys|
  {
    if keys == [] then None else Some(seq(|keys|, i requires 0 <= i < |keys| => EscapeKey(keys[i])))
  }

  /** Whatever the keys, the query compares with exactly these keys. */
  lemma LiteralOfEscape(key: string)
    ensures Literal(EscapeKey(key)) == key
  {
    if HasPrefix(key, "$") {
      var escaped := "$" + key;
      assert key[..1][0] == key[0];
      assert escaped[0] == '$' && escaped[1] == '$';
      assert escaped[..2] == "$$" && escaped[1..] == key;
    } else if |key| >= 2 {
      assert key[..1] == key[..2][..1];
    }
  }

  /** The operands of the query; without keys there is no condition. */
  method EscapeKeys(keys: seq<string>) returns (operands: Option<seq<string>>)
    ensures operands == Operands(keys)
    ensures operands.Some? ==> forall i :: 0 <= i < |keys| ==> Literal(operands.value[i]) == keys[i]
  {
    if keys == [] {
      return None;
    }
    hide Literal, EscapeKey;
    var escaped: seq<string> := [];
    for i := 0 to |keys|
      invariant |escaped| == i
      invariant forall k :: 0 <= k < i ==> escaped[k] == EscapeKey(keys[k]) && Literal(escaped[k]) == keys[k]
    {
      LiteralOfEscape(keys[i]);
      escaped := escaped + [EscapeKey(keys[i])];
    }
    assert escaped == Operands(keys).value;
    operands := Some(escaped);
  }

  /** The mark for one record; a record of a query over Batch Protocol v1 has the entry that was asked for. */
  function RemoveCall(entry: string, ts: int): Call {
    Call.AddOnlyLabels(MetaEntry(entry), ts, Some(map[REMOVE := Printed("true")]))
  }

  /** One update for every record that has a key, up to the one marked as the last of the query. */
  function RemoveCalls(entry: string, rs: seq<Queried>): seq<Call> {
    if rs == [] then []
    else
      (if KEY in rs[0].labels then [RemoveCall(entry, rs[0].ts)] else [])
      + if rs[0].last then [] else RemoveCalls(entry, rs[1..])
  }

  lemma {:induction false} RemoveCallsAt(entry: string, rs: seq<Queried>, i: nat)
    requires i < |rs|
    ensures RemoveCalls(entry, rs[i..])
            == (if KEY in rs[i].labels then [RemoveCall(entry, rs[i].ts)] else [])
               + if rs[i].last then [] else RemoveCalls(entry, rs[i + 1..])
  {
    assert rs[i..][1..] == rs[i + 1..];
  }

  lemma {:induction false} RunSnoc(calls: seq<Call>, call: Call)
    ensures Run(calls + [call]) == Apply(Run(calls), call)
  {
    assert (calls + [call])[..|calls|] == calls;
  }

  /** The updates made so far and those still to come are those for the whole result. */
  ghost predicate Removing(entry: string, made: seq<Call>, rest: seq<Queried>, rs: seq<Queried>) {
    made + RemoveCalls(entry, rest) == RemoveCalls(entry, rs)
  }

  lemma {:induction false} RemovingStep(entry: string, made: seq<Call>, rs: seq<Queried>, i: nat)
    requires i < |rs| && Removing(entry, made, rs[i..], rs)
    ensures var more := made + if KEY in rs[i].labels then [RemoveCall(entry, rs[i].ts)] else [];
            if rs[i].last then more == RemoveCalls(entry, rs) else Removing(entry, more, rs[i + 1..], rs)
  {
    hide RemoveCalls, RemoveCall;
    RemoveCallsAt(entry, rs, i);
    var one := if KEY in rs[i].labels then [RemoveCall(entry, rs[i].ts)] else [];
    if rs[i].last {
      assert one + [] == one;
      assert made + one == RemoveCalls(entry, rs);
    } else {
      assert made + (one + RemoveCalls(entry, rs[i + 1..])) == (made + one) + RemoveCalls(entry, rs[i + 1..]);
      assert Removing(entry, made + one, rs[i + 1..], rs);
    }
  }

  lemma {:induction false} RemovingEnds(entry: string, made: seq<Call>, rs: seq<Queried>)
    ensures Removing(entry, [], rs[0..], rs)
    ensures Removing(entry, made, rs[|rs|..], rs) ==> made == RemoveCalls(entry, rs)
  {
    assert rs[0..] == rs && [] + RemoveCalls(entry, rs) == RemoveCalls(entry, rs);
    assert rs[|rs|..] == [] && made + [] == made;
  }

  /** The loop of RemoveAttachments: a mark for every record that has a key. */
  method MarkRecords(entry: string, rs: seq<Queried>) returns (batch: RecordBatch, recordCount: nat)
    ensures fresh(batch) && batch.Abs() == Run(RemoveCalls(entry, rs)) && recordCount == |RemoveCalls(entry, rs)|
  {
    hide Run, Apply, RemoveCalls, Removing, RemoveCall;
    batch := new RecordBatch();
    recordCount := 0;
    ghost var made: seq<Call> := [];
    NoMarks();
    RemovingEnds(entry, made, rs);
    for i := 0 to |rs|
      invariant fresh(batch) && Removing(entry, made, rs[i..], rs)
      invariant batch.Abs() == Run(made) && recordCount == |made|
    {
      RemovingStep(entry, made, rs, i);
      RunSnoc(made, RemoveCall(entry, rs[i].ts));
      if KEY !in rs[i].labels {
        assert made + [] == made;
        if rs[i].last {
          return;
        }
        continue;
      }
      MarkIs(entry, rs[i].ts);
      batch.AddOnlyLabels(MetaEntry(entry), rs[i].ts, Some(map[REMOVE := Printed("true")]));
      recordCount := recordCount + 1;
      made := made + [RemoveCall(entry, rs[i].ts)];
      if rs[i].last {
        return;
      }
    }
    RemovingEnds(entry, made, rs);
  }

  lemma NoMarks()
    ensures Run([]) == State(map[], 0)
  {}

  lemma MarkIs(entry: string, ts: int)
    ensures RemoveCall(entry, ts) == Call.AddOnlyLabels(MetaEntry(entry), ts, Some(map[REMOVE := Printed("true")]))
  {}

  /** RemoveAttachments, given what its query delivers. */
  method RemoveAttachments(entry: string, keys: seq<string>, query: Result<seq<Queried>>, reply: SendReply)
    returns (operands: Option<seq<string>>, request: Request, failure: Option<Failure>)
    ensures entry == "" ==> request == Nothing && failure == Some(NoEntry)
    ensures entry != "" ==> operands == Operands(keys)
    ensures entry != "" && query.Err? ==> request == Nothing && failure == Some(NotQueried(query.error))
    ensures entry != "" && query.Ok? ==>
              var calls := RemoveCalls(entry, query.value);
              if calls == [] then request == Nothing && failure == None
              else request.Send? && fresh(request.batch) && request.batch.Abs() == Run(calls) && TellsReply(failure, reply)
  {
    if entry == "" {
      return None, Nothing, Some(NoEntry);
    }
    hide Run, RemoveCalls, TellsReply;
    operands := EscapeKeys(keys);
    if query.Err? {
      return operands, Nothing, Some(NotQueried(query.error));
    }
    var batch, recordCount := MarkRecords(entry, query.value);
    if recordCount == 0 {
      return operands, Nothing, None;
    }
    request := Send(batch);
    failure := Tell(reply);
  }
}
