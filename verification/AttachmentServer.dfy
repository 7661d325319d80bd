/**
 * The server behind attachments: the `$meta` logs, what a write and an update
 * request do to them, which of them a query addresses and how it shows it. The
 * server reads requests by the rules of the library's own readers and prints
 * rows by those of its own writer.
 */
module AttachmentServer {
  import opened Text
  import opened Ordering
  import opened Decimal
  import opened HeaderList
  import opened Headers
  import opened LabelOps
  import opened CsvRows
  import opened V2Encode
  import opened Bodies
  import opened V2Decode
  import opened V2RoundTrip
  import opened V2Update
  import opened V2Denotes
  import V1Batches
  import opened V1Rows
  import opened RecordBatches
  import opened Attachments

  /** A record of the meta entry as the server keeps it. */
  datatype MetaRecord = MetaRecord(ts: int, labels: Labels, data: bytes)

  type Log = seq<MetaRecord>

  /** The logs under their entry names. */
  type Logs = map<string, Log>

  /** An entry that was never written has an empty log. */
  function LogOf(logs: Logs, name: string): Log {
    if name in logs then logs[name] else []
  }

  ghost predicate SameLogs(after: Logs, logs: Logs) {
    forall name :: LogOf(after, name) == LogOf(logs, name)
  }

  predicate Precedes(a: MetaRecord, b: MetaRecord) {
    a.ts < b.ts
  }

  ghost predicate Ordered(log: Log) {
    StrictSorted(log, Precedes)
  }

  // ---- which log is meant -----------------------------------------------------------------------

  /** The name that an entry list with this meta entry reads as; None if it cannot be read. */
  function Target(entry: string): Option<string> {
    Unescape(MetaEntry(entry))
  }

  /** A character that stays in a URL path: no control character, and none that ends the path (section 3 of RFC 3986). */
  predicate InPath(c: char) {
    c as int >= 32 && c as int != 127 && c != '?' && c != '#'
  }

  /**
   * The name of the log that a query reads. The meta entry goes as it is into
   * the path of the query's URL, and the server decodes the path. None: there
   * is no entry, no such URL, or its path ends within the entry.
   */
  function Addressed(entry: string): Option<string> {
    if entry == "" || exists i :: 0 <= i < |entry| && !InPath(entry[i]) then None else Unescape(MetaEntry(entry))
  }

  /** The entry is text and its query is not a wildcard. */
  predicate SingleEntry(entry: string) {
    IsBytes(entry) && '*' !in entry
  }

  /** A query reads the very log that the requests built by the library are for. */
  lemma {:induction false} AddressedIsTarget(entry: string)
    requires IsBytes(entry) && Addressed(entry).Some?
    ensures IsBytes(MetaEntry(entry)) && Addressed(entry) == Unescape(Encode(MetaEntry(entry))) == Target(entry)
    ensures entry != ""
  {
    MetaEntryChars(entry);
    hide Encode, Unescape, IsBytes;
    UnescapeEncode(MetaEntry(entry));
  }

  lemma MetaEntryChars(entry: string)
    ensures MetaEntry(entry) != "" && (IsBytes(entry) ==> IsBytes(MetaEntry(entry)))
  {}

  lemma {:induction false} DecodedFirst(front: string, s: string, t: string)
    ensures Unescape(s).Some? && Unescape(t).Some? ==>
              (front + Unescape(s).value) + Unescape(t).value == front + (Unescape(s).value + Unescape(t).value)
  {}

  lemma {:induction false} UnescapeBoth(s: string, t: string)
    requires t != "" && !IsHex(t[0])
    ensures Unescape(s + t)
            == if Unescape(s).None? || Unescape(t).None? then None else Some(Unescape(s).value + Unescape(t).value)
  {
    if s == "" {
      assert s + t == t;
      assert Unescape(t).Some? ==> "" + Unescape(t).value == Unescape(t).value;
    } else if s[0] != '%' {
      assert (s + t)[1..] == s[1..] + t;
      UnescapeBoth(s[1..], t);
      DecodedFirst([s[0]], s[1..], t);
    } else if StartsTriplet(s) {
      assert (s + t)[3..] == s[3..] + t;
      UnescapeBoth(s[3..], t);
      DecodedFirst([(HexValue(s[1]) * 16 + HexValue(s[2])) as char], s[3..], t);
    } else {
      BrokenStays(s, t);
    }
  }

  lemma {:induction false} BrokenStays(s: string, t: string)
    requires s != "" && s[0] == '%' && !StartsTriplet(s) && t != "" && !IsHex(t[0])
    ensures Unescape(s).None? && Unescape(s + t).None?
  {
    var all := s + t;
    hide IsHex;
    assert |s| == 1 ==> all[1] == t[0];
    assert |s| >= 2 ==> all[1] == s[1];
    assert |s| == 2 ==> all[2] == t[0];
    assert |s| >= 3 ==> all[2] == s[2];
    assert !StartsTriplet(all);
  }

  lemma {:induction false} MetaDecodes(entry: string)
    ensures Unescape(MetaEntry(entry)) == if Unescape(entry).None? then None else Some(MetaEntry(Unescape(entry).value))
  {
    var meta := "/$meta";
    assert meta[0] == '/' && forall i :: 0 <= i < |meta| ==> meta[i] != '%';
    hide Unescape;
    UnescapeBoth(entry, meta);
    UnescapePlain(meta);
  }

  /**
   * An entry is addressed if and only if it has no such character and every `%`
   * starts a triplet; its log is that of the decoded entry.
   */
  lemma {:induction false} AddressedIff(entry: string)
    ensures Addressed(entry).Some? <==>
              entry != "" && (forall i :: 0 <= i < |entry| ==> InPath(entry[i])) && Unescape(entry).Some?
    ensures Addressed(entry).Some? ==> Addressed(entry).value == MetaEntry(Unescape(entry).value)
  {
    hide Unescape, InPath, MetaEntry;
    MetaDecodes(entry);
  }

  // ---- a write request --------------------------------------------------------------------------

  /** What reading the write request of a batch gives, for some order of its headers. */
  ghost predicate Understood(outcome: Outcome<RecordView>, records: seq<Rec>)
    requires InModel(records)
  {
    exists order, hs :: UnderstoodIn(outcome, records, order, hs)
  }

  ghost predicate UnderstoodIn(outcome: Outcome<RecordView>, records: seq<Rec>, order: seq<string>,
                               hs: seq<RecordHeader>)
    requires InModel(records)
  {
    && Enumerates(order, Sent(records, "")) && SortedFrom(hs, Sent(records, ""), order)
    && outcome == ReadBatch(200, Sent(records, ""), Whole(EncodeBatch(records).body), false, false, hs)
  }

  function StoredView(v: RecordView): MetaRecord {
    MetaRecord(v.time, v.labels, v.content)
  }

  /** The record was understood as one of this entry. */
  ghost predicate IsStored(x: MetaRecord, name: string, views: seq<RecordView>) {
    exists i :: 0 <= i < |views| && views[i].entry == name && x == StoredView(views[i])
  }

  ghost predicate IsFor(name: string, views: seq<RecordView>) {
    exists i :: 0 <= i < |views| && views[i].entry == name
  }

  /** The log with the records of the request that are understood as this entry's. */
  ghost predicate InsertedInto(after: Log, log: Log, name: string, views: seq<RecordView>) {
    if IsFor(name, views) then Ordered(after) && forall x :: x in after <==> x in log || IsStored(x, name, views)
    else after == log
  }

  /** Every log gets what is understood as its own; a request that cannot be read is dropped. */
  ghost predicate Inserted(after: Logs, logs: Logs, outcome: Outcome<RecordView>) {
    if outcome.Fetched? then forall name :: InsertedInto(LogOf(after, name), LogOf(logs, name), name, outcome.records)
    else SameLogs(after, logs)
  }

  // ---- an update request ------------------------------------------------------------------------

  /** The header denotes this record, read by the request's own entry list and start time. */
  ghost predicate HeaderDenotes(h: Header, key: string, name: string, ts: int) {
    var entries, startTS := ParseList(Get(h, ENTRIES)), ParseInt(Get(h, START_TS));
    key in h && entries.Ok? && startTS.Some? && KeyDenotes(key, entries.value, startTS.value, (name, ts))
  }

  /** What the header's value makes of a stored record's labels. */
  function UpdatedLabels(h: Header, key: string, r: MetaRecord): Labels {
    var names := ParseLabelTable(h);
    if names.Err? then r.labels
    else
      var header := HeaderOf(Get(h, key), Some(ParsedHeader(|r.data|, JSON, r.labels)), names.value);
      if header.Err? then r.labels else header.value.labels
  }

  /** The record after the request: changed by a header that denotes it, or untouched. */
  ghost predicate UpdatedRecord(after: MetaRecord, r: MetaRecord, name: string, h: Header) {
    if exists key :: HeaderDenotes(h, key, name, r.ts) then
      exists key :: HeaderDenotes(h, key, name, r.ts) && after == r.(labels := UpdatedLabels(h, key, r))
    else after == r
  }

  ghost predicate UpdatedLog(after: Log, log: Log, name: string, h: Header) {
    |after| == |log| && forall i :: 0 <= i < |log| ==> UpdatedRecord(after[i], log[i], name, h)
  }

  ghost predicate Updated(after: Logs, logs: Logs, h: Header) {
    forall name :: UpdatedLog(LogOf(after, name), LogOf(logs, name), name, h)
  }

  // ---- a query ----------------------------------------------------------------------------------

  predicate Matches(r: MetaRecord, operands: Option<seq<string>>) {
    operands.Some? ==> KEY in r.labels && exists i :: 0 <= i < |operands.value| && Literal(operands.value[i]) == r.labels[KEY]
  }

  function Filter(log: Log, operands: Option<seq<string>>): Log {
    if log == [] then []
    else Filter(log[..|log| - 1], operands) + if Matches(log[|log| - 1], operands) then [log[|log| - 1]] else []
  }

  function TextLabels(labels: Labels): V1Batches.V1Labels {
    map k | k in labels :: V1Batches.Text(labels[k])
  }

  /** The record as a v1 response prints it. */
  function V1Of(r: MetaRecord): V1Batches.V1Record {
    V1Batches.V1Record(r.data, JSON, TextLabels(r.labels))
  }

  /** The row is what the server prints for the record, in some order of its labels; of non-ASCII text nothing is known. */
  ghost predicate RowFor(row: string, r: MetaRecord) {
    V1Batches.AsciiLabels1(V1Of(r).labels) ==> V1Batches.Prints(row, V1Batches.BatchWrite, V1Of(r))
  }

  /** The query delivers the record with the labels that its v1 row reads as. */
  ghost predicate Shows(q: Queried, r: MetaRecord) {
    && q.ts == r.ts && q.content == Ok(r.data)
    && exists row :: RowFor(row, r) && q.labels == AssignAll(Fields(row)).labels
  }

  /** The first `n` of these records have been delivered, the final one of them all marked as the last. */
  ghost predicate Delivered(rs: seq<Queried>, found: Log, n: nat)
    requires n <= |found|
  {
    |rs| == n && forall i :: 0 <= i < n ==> Shows(rs[i], found[i]) && rs[i].last == (i == |found| - 1)
  }

  /** The query delivers all matching records in order. */
  ghost predicate Answers(rs: seq<Queried>, log: Log, operands: Option<seq<string>>) {
    Delivered(rs, Filter(log, operands), |Filter(log, operands)|)
  }

  /** What a query for the meta entry gives: the answer from the addressed log, or an error. */
  ghost predicate Asked(query: Result<seq<Queried>>, entry: string, logs: Logs, operands: Option<seq<string>>) {
    match Addressed(entry)
    case None => query.Err?
    case Some(name) => query.Ok? && Answers(query.value, LogOf(logs, name), operands)
  }

  // ---- operations -------------------------------------------------------------------------------

  /** A write with the clock's time and the order in which the map yields, or a removal. */
  datatype Op =
    | Write(entry: string, attachments: Payloads, now: int, order: seq<string>)
    | Remove(entry: string, keys: seq<string>)

  /** What the operation means for the map. */
  function Meaning(m: Payloads, op: Op): Payloads {
    match op
    case Write(_, attachments, _, _) => m + attachments
    case Remove(_, keys) => if keys == [] then map[] else m - (set i | 0 <= i < |keys| :: keys[i])
  }

  /** The log that a write request for the entry is for. */
  function TargetLog(logs: Logs, entry: string): Log {
    if Target(entry).Some? then LogOf(logs, Target(entry).value) else []
  }

  /** Names and payloads that can be printed, and a clock that is past 1970 and past everything in the log. */
  ghost predicate Possible(log: Log, op: Op, decodes: bytes -> bool) {
    op.Write? ==>
      && Enumerates(op.order, op.attachments) && (forall i :: 0 <= i < |op.order| ==> op.order[i] in op.attachments)
      && 0 <= op.now && op.now + |op.order| <= MAX_INT64 && (forall i :: 0 <= i < |log| ==> log[i].ts < op.now)
      && forall k :: k in op.attachments ==>
           IsAscii(k) && |op.attachments[k]| <= MAX_INT64 && decodes(op.attachments[k])
  }

  ghost predicate Written(logs: Logs, op: Op, after: Logs)
    requires op.Write? && forall i :: 0 <= i < |op.order| ==> op.order[i] in op.attachments
  {
    if op.entry == "" || op.attachments == map[] then SameLogs(after, logs)
    else exists records, outcome :: WrittenAs(logs, op, after, records, outcome)
  }

  /** The batch is sent as `records`, read as `outcome`, and stored. */
  ghost predicate WrittenAs(logs: Logs, op: Op, after: Logs, records: seq<Rec>, outcome: Outcome<RecordView>)
    requires op.Write? && forall i :: 0 <= i < |op.order| ==> op.order[i] in op.attachments
  {
    && Lists(records, Run(WriteCalls(op.entry, op.attachments, op.now, op.order)).records)
    && InModel(records) && Understood(outcome, records) && Inserted(after, logs, outcome)
  }

  /** A query comes first; if it fails, nothing is sent. */
  ghost predicate Removed(logs: Logs, op: Op, after: Logs)
    requires op.Remove?
  {
    exists query :: Asked(query, op.entry, logs, Operands(op.keys))
                    && if query.Err? then SameLogs(after, logs) else Marked(logs, RemoveCalls(op.entry, query.value), after)
  }

  ghost predicate Marked(logs: Logs, calls: seq<Call>, after: Logs) {
    if calls == [] then SameLogs(after, logs)
    else exists records :: MarkedAs(logs, calls, after, records)
  }

  /** The marks are sent as `records`, in the order of the update request. */
  ghost predicate MarkedAs(logs: Logs, calls: seq<Call>, after: Logs, records: seq<Rec>) {
    && Lists(records, Run(calls).records) && UpdateInModel(records) && records != []
    && (SortKeepsUpdate(records); Updated(after, logs, EncodeUpdate(Sort(records, RecLess)).headers))
  }

  /** One operation of the client against the server. */
  ghost predicate Step(logs: Logs, op: Op, after: Logs, decodes: bytes -> bool) {
    && Possible(TargetLog(logs, op.entry), op, decodes)
    && if op.Write? then Written(logs, op, after) else Removed(logs, op, after)
  }

  // ---- logs that show themselves ----------------------------------------------------------------

  /** The names that get to the server and back unchanged. */
  predicate CarriedKey(k: string) {
    k != "" && Trim(k) == k && GoodText(k)
  }

  predicate CarriedKeys(m: Payloads) {
    forall k :: k in m ==> CarriedKey(k)
  }

  /** A record whose row reads back as it is, with a name that the library can have written. */
  ghost predicate CleanRecord(r: MetaRecord, decodes: bytes -> bool) {
    && 0 <= r.ts < MAX_INT64 && |r.data| <= MAX_INT64
    && GoodLabels1(TextLabels(r.labels))
    && (KEY in r.labels ==> CarriedKey(r.labels[KEY]) && decodes(r.data))
  }

  ghost predicate CleanLog(log: Log, decodes: bytes -> bool) {
    Ordered(log) && forall i :: 0 <= i < |log| ==> CleanRecord(log[i], decodes)
  }

  /** The attachments that a log stands for. */
  function LogStep(m: Payloads, r: MetaRecord): Payloads {
    if KEY !in r.labels then m
    else if IsRemoved(r.labels) then m - {r.labels[KEY]}
    else m[r.labels[KEY] := r.data]
  }

  function LogMap(log: Log): Payloads {
    if log == [] then map[] else LogStep(LogMap(log[..|log| - 1]), log[|log| - 1])
  }

  /** The attachments that an entry has; none if no query can address it. */
  function MapOf(logs: Logs, entry: string): Payloads {
    if Addressed(entry).Some? then LogMap(LogOf(logs, Addressed(entry).value)) else map[]
  }

  ghost predicate CleanAt(logs: Logs, entry: string, decodes: bytes -> bool) {
    Addressed(entry).Some? ==> CleanLog(LogOf(logs, Addressed(entry).value), decodes)
  }

  lemma {:induction false} LogMapSnoc(log: Log, r: MetaRecord)
    ensures LogMap(log + [r]) == LogStep(LogMap(log), r)
  {
    assert (log + [r])[..|log|] == log;
  }

  // ---- what a query shows -----------------------------------------------------------------------

  /** A record as the reader sees it: with the carried texts of its labels. */
  function Seen(r: MetaRecord): MetaRecord {
    r.(labels := map k | k in r.labels :: Carried(r.labels[k]))
  }

  function SeenAll(log: Log): (seen: Log)
    ensures |seen| == |log|
    ensures forall i :: 0 <= i < |log| ==> seen[i] == Seen(log[i])
  {
    seq(|log|, i requires 0 <= i < |log| => Seen(log[i]))
  }

  /** A record whose row keeps its labels apart. */
  ghost predicate LegibleRecord(r: MetaRecord, decodes: bytes -> bool) {
    && |r.data| <= MAX_INT64 && Legible(TextLabels(r.labels))
    && (KEY in r.labels ==> decodes(r.data))
  }

  ghost predicate LegibleLog(log: Log, decodes: bytes -> bool) {
    forall i :: 0 <= i < |log| ==> LegibleRecord(log[i], decodes)
  }

  lemma JsonIsGood()
    ensures GoodType1(JSON) && EffectiveType(JSON) == JSON && GoodType(JSON)
  {
    assert !IsSpace(JSON[0]) && !IsSpace(JSON[|JSON| - 1]);
    TrimVisibleStart(JSON);
    TrimVisibleEnd(JSON);
  }

  lemma CarriedTextOf(labels: Labels)
    ensures CarriedText(TextLabels(labels)) == map k | k in labels :: Carried(labels[k])
    ensures TextOf(TextLabels(labels)) == labels
  {}

  /** The row of a legible record shows its carried labels. */
  lemma {:induction false} ShownLabels(q: Queried, r: MetaRecord, decodes: bytes -> bool)
    requires LegibleRecord(r, decodes) && Shows(q, r)
    ensures q.ts == r.ts && q.content == Ok(r.data) && q.labels == Seen(r).labels
  {
    hide V1Batches.Prints, AssignAll, Fields, CarriedText, TextLabels, Carried;
    JsonIsGood();
    LegibleIsAscii(r.labels);
    CarriedTextOf(r.labels);
    var row :| RowFor(row, r) && q.labels == AssignAll(Fields(row)).labels;
    RowArrives(row, V1Of(r));
  }

  lemma LegibleIsAscii(labels: Labels)
    requires Legible(TextLabels(labels))
    ensures V1Batches.AsciiLabels1(TextLabels(labels))
  {}

  /** A clean record is legible and seen as it is. */
  lemma CleanIsSeen(r: MetaRecord, decodes: bytes -> bool)
    requires CleanRecord(r, decodes)
    ensures LegibleRecord(r, decodes) && Seen(r) == r
  {
    hide TextLabels, Carried, GoodText, Legible;
    GoodAreLegible(TextLabels(r.labels));
    CarriedTextOf(r.labels);
  }

  lemma CleanLogIsSeen(log: Log, decodes: bytes -> bool)
    requires CleanLog(log, decodes)
    ensures LegibleLog(log, decodes) && SeenAll(log) == log
  {
    hide CleanRecord, LegibleRecord, Seen;
    forall i | 0 <= i < |log| ensures LegibleRecord(log[i], decodes) && Seen(log[i]) == log[i] {
      CleanIsSeen(log[i], decodes);
    }
  }

  lemma {:induction false} FilterAll(log: Log)
    ensures Filter(log, None) == log
  {
    if log != [] {
      FilterAll(log[..|log| - 1]);
      assert log == log[..|log| - 1] + [log[|log| - 1]];
    }
  }

  /** From any record on, reading goes on as the log does, as far as it has been delivered. */
  lemma {:induction false} ReadsRest(rs: seq<Queried>, log: Log, n: nat, decodes: bytes -> bool, i: nat)
    requires LegibleLog(log, decodes) && i <= n <= |log| && Delivered(rs, log, n)
    ensures ReadFrom(LogMap(SeenAll(log)[..i]), rs[i..], decodes) == Attached(LogMap(SeenAll(log)[..n]))
    decreases n - i
  {
    hide Shows, LogMap, ReadFrom, LegibleRecord, Seen;
    var seen := SeenAll(log);
    if i == n {
      assert rs[i..] == [];
      NothingLeft(LogMap(seen[..i]), decodes);
    } else {
      ReadsRest(rs, log, n, decodes, i + 1);
      ReadFromAt(LogMap(seen[..i]), rs, i, decodes);
      assert seen[..i + 1] == seen[..i] + [seen[i]];
      LogMapSnoc(seen[..i], seen[i]);
      StepIsLogStep(LogMap(seen[..i]), rs[i], log[i], decodes);
    }
  }

  lemma {:induction false} NothingLeft(m: Payloads, decodes: bytes -> bool)
    ensures ReadFrom(m, [], decodes) == Attached(m)
  {}

  lemma StepIsLogStep(m: Payloads, q: Queried, r: MetaRecord, decodes: bytes -> bool)
    requires LegibleRecord(r, decodes) && Shows(q, r)
    ensures ReadStep(m, q, decodes) == Attached(LogStep(m, Seen(r)))
  {
    hide Shows, EqualFold;
    ShownLabels(q, r, decodes);
  }

  /** Reading what has been delivered of a legible log gives the attachments that this part stands for, as they are seen. */
  lemma {:induction false} ReadsDelivered(rs: seq<Queried>, log: Log, n: nat, decodes: bytes -> bool)
    requires LegibleLog(log, decodes) && n <= |log| && Delivered(rs, log, n)
    ensures ReadFrom(map[], rs, decodes) == Attached(LogMap(SeenAll(log)[..n]))
  {
    hide Delivered, ReadFrom, LegibleLog;
    ReadsRest(rs, log, n, decodes, 0);
    assert SeenAll(log)[..0] == [] && rs[0..] == rs;
    assert LogMap([]) == map[];
  }

  /** Reading a legible log gives the attachments it stands for, as they are seen. */
  lemma {:induction false} ReadsLog(rs: seq<Queried>, log: Log, decodes: bytes -> bool)
    requires LegibleLog(log, decodes) && Answers(rs, log, None)
    ensures ReadFrom(map[], rs, decodes) == Attached(LogMap(SeenAll(log)))
  {
    hide Delivered, ReadFrom, LegibleLog, Filter, LogMap;
    FilterAll(log);
    ReadsDelivered(rs, log, |log|, decodes);
    assert SeenAll(log)[..|log|] == SeenAll(log);
  }

  /** Reading a clean log gives exactly the attachments it stands for. */
  lemma {:induction false} ReadsCleanLog(rs: seq<Queried>, log: Log, decodes: bytes -> bool)
    requires CleanLog(log, decodes) && Answers(rs, log, None)
    ensures ReadFrom(map[], rs, decodes) == Attached(LogMap(log))
  {
    hide Answers, ReadFrom, CleanLog, LogMap;
    CleanLogIsSeen(log, decodes);
    ReadsLog(rs, log, decodes);
  }

  /** What a query for a clean entry gives is read as its attachments, if the entry can be addressed, and else as a failure. */
  lemma {:induction false} AskedIsRead(query: Result<seq<Queried>>, entry: string, logs: Logs, decodes: bytes -> bool)
    requires Asked(query, entry, logs, None) && CleanAt(logs, entry, decodes)
    ensures ReadResult(entry, query, decodes).Attached? <==> Addressed(entry).Some?
    ensures Addressed(entry).Some? ==> ReadResult(entry, query, decodes) == Attached(MapOf(logs, entry))
  {
    hide ReadFrom, CleanLog, LogMap, Answers, Unescape;
    if Addressed(entry).Some? {
      ReadsCleanLog(query.value, LogOf(logs, Addressed(entry).value), decodes);
    }
  }

  // ---- quotes are lost in every row -------------------------------------------------------------

  lemma ShownHaveNoQuotes(q: Queried, r: MetaRecord)
    requires Shows(q, r)
    ensures forall k :: k in q.labels ==> '"' !in q.labels[k]
  {
    hide AssignAll, Fields;
    var row :| RowFor(row, r) && q.labels == AssignAll(Fields(row)).labels;
    FieldsHaveNoQuotes(row);
    AssignedHaveNoQuotes(Fields(row));
  }

  ghost predicate QuoteFree(m: Payloads) {
    forall k :: k in m ==> '"' !in k
  }

  lemma {:induction false} ReadHasNoQuotes(m: Payloads, rs: seq<Queried>, decodes: bytes -> bool)
    requires QuoteFree(m) && forall i :: 0 <= i < |rs| ==> forall k :: k in rs[i].labels ==> '"' !in rs[i].labels[k]
    ensures ReadFrom(m, rs, decodes).Attached? ==> QuoteFree(ReadFrom(m, rs, decodes).attachments)
    decreases |rs|
  {
    hide EqualFold;
    if rs != [] {
      var r := ReadStep(m, rs[0], decodes);
      if r.Attached? { ReadHasNoQuotes(r.attachments, rs[1..], decodes); }
    }
  }

  /** Whatever the log holds, no name with a quote is ever read. */
  lemma {:induction false} AnswerHasNoQuotes(rs: seq<Queried>, log: Log, operands: Option<seq<string>>, decodes: bytes -> bool)
    requires Answers(rs, log, operands)
    ensures ReadFrom(map[], rs, decodes).Attached? ==> QuoteFree(ReadFrom(map[], rs, decodes).attachments)
  {
    hide ReadFrom, Filter, Shows;
    forall i | 0 <= i < |rs| ensures forall k :: k in rs[i].labels ==> '"' !in rs[i].labels[k] {
      ShownHaveNoQuotes(rs[i], Filter(log, operands)[i]);
    }
    ReadHasNoQuotes(map[], rs, decodes);
  }
}
