/**
 * What the readers of both protocols make of any response of a server, whoever
 * printed it: the end-of-query mark, content types, metadata without bodies,
 * and the status that means no content (batch/v1.go: readBatchedRecords;
 * batch/v2.go: readBatchedRecordsV2).
 */
module Responses {
  import opened Text
  import opened Decimal
  import opened HeaderList
  import opened Headers
  import opened LabelOps
  import opened Bodies
  import opened V2Decode
  import opened V1Read

  // ---- the end-of-query mark ----------------------------------------------------------------------

  /** Only the final record of the batch is marked, and it ends the query exactly if the mark says so. */
  ghost predicate Marked(views: seq<RecordView>, mark: string) {
    forall i :: 0 <= i < |views| ==>
      (views[i].lastInBatch <==> i == |views| - 1) && (views[i].last <==> i == |views| - 1 && SaysTrue(mark))
  }

  /** Batch Protocol v2: the mark decides, whatever else the response holds, with bodies or without. */
  lemma {:induction false} LastMarkDecides(status: int, headers: Header, s: Stream, head: bool, cancelled: bool,
                                           hs: seq<RecordHeader>, views: seq<RecordView>)
    requires ReadBatch(status, headers, s, head, cancelled, hs) == Fetched(views)
    ensures Marked(views, Get(headers, LAST))
  {
    hide ParseList, ParseInt, ParseLabelTable, DecRun, Get, EqualFold, SaysTrue, ContentOf, BufferedSize, SlicingPanics;
    TrueFolds(Get(headers, LAST));
  }

  /** Batch Protocol v1: likewise. */
  lemma {:induction false} LastMarkDecidesV1(status: int, headers: Header, s: Stream, head: bool, cancelled: bool,
                                             entry: string, ths: Result<seq<TimeHeader>>, views: seq<RecordView>)
    requires ReadV1(status, headers, s, head, cancelled, entry, ths) == Fetched(views)
    ensures Marked(views, Get(headers, LAST))
  {
    hide ParsedRow, Get, EqualFold, SaysTrue, ContentOf, BufferedSize, SlicingPanics;
    TrueFolds(Get(headers, LAST));
  }

  /** A mark of `false`, or none, ends no query. */
  lemma OtherMarksEndNothing(views: seq<RecordView>, mark: string)
    requires Marked(views, mark) && (mark == "false" || mark == "")
    ensures forall i :: 0 <= i < |views| ==> !views[i].last
  {
    assert !SaysTrue(mark);
  }

  // ---- content types ------------------------------------------------------------------------------

  ghost predicate Typed(views: seq<RecordView>) {
    forall i :: 0 <= i < |views| ==> views[i].contentType != ""
  }

  lemma HeaderIsTyped(raw: string, previous: Option<ParsedHeader>, labelNames: seq<string>)
    requires previous.Some? ==> previous.value.contentType != ""
    ensures HeaderOf(raw, previous, labelNames).Ok? ==> HeaderOf(raw, previous, labelNames).value.contentType != ""
  {
    hide Trim, Index, ParseInt, ApplyDelta;
  }

  ghost predicate TypedState(st: DecState) {
    && (forall k :: k in st.last ==> st.last[k].contentType != "")
    && forall i :: 0 <= i < |st.parsed| ==> st.parsed[i].contentType != ""
  }

  lemma {:induction false} ReplayIsTyped(hs: seq<RecordHeader>, entries: seq<string>, labelNames: seq<string>, n: nat)
    requires n <= |hs| && DecRun(hs, entries, labelNames, n).Ok?
    ensures TypedState(DecRun(hs, entries, labelNames, n).value)
  {
    hide HeaderOf;
    if n > 0 {
      ReplayIsTyped(hs, entries, labelNames, n - 1);
      var st, h := DecRun(hs, entries, labelNames, n - 1).value, hs[n - 1];
      HeaderIsTyped(h.rawValue, if h.entryIndex in st.last then Some(st.last[h.entryIndex]) else None, labelNames);
    }
  }

  /** Every record of a v2 response has a content type. */
  lemma {:induction false} ReadsTyped(status: int, headers: Header, s: Stream, head: bool, cancelled: bool,
                                      hs: seq<RecordHeader>, views: seq<RecordView>)
    requires ReadBatch(status, headers, s, head, cancelled, hs) == Fetched(views)
    ensures Typed(views)
  {
    hide ParseList, ParseInt, ParseLabelTable, DecRun, Get, EqualFold, ContentOf, BufferedSize, SlicingPanics;
    if hs != [] {
      var entries, names := ParseList(Get(headers, ENTRIES)).value, ParseLabelTable(headers).value;
      DecRunShape(hs, entries, names, |hs|);
      ReplayIsTyped(hs, entries, names, |hs|);
      var parsed := DecRun(hs, entries, names, |hs|).value.parsed;
      forall i | 0 <= i < |views| ensures views[i].contentType != "" {
        assert views[i].contentType == parsed[i].contentType;
      }
    }
  }

  /** Every record of a v1 response has a content type. */
  lemma {:induction false} ReadsTypedV1(status: int, headers: Header, s: Stream, head: bool, cancelled: bool,
                                        entry: string, ths: Result<seq<TimeHeader>>, views: seq<RecordView>)
    requires ReadV1(status, headers, s, head, cancelled, entry, ths) == Fetched(views)
    ensures Typed(views)
  {
    hide ParsedRow, Get, EqualFold, ContentOf, BufferedSize, SlicingPanics;
  }

  // ---- metadata without bodies --------------------------------------------------------------------

  /** The same records without content. */
  function Bodiless(views: seq<RecordView>): (bare: seq<RecordView>)
    ensures |bare| == |views|
    ensures forall i :: 0 <= i < |views| ==> bare[i] == views[i].(content := [])
  {
    seq(|views|, i requires 0 <= i < |views| => views[i].(content := []))
  }

  /** A HEAD response has the metadata of a GET, whatever its body, and empty contents. */
  lemma {:induction false} HeadHasMetadata(status: int, headers: Header, s: Stream, bare: Stream, cancelled: bool,
                                           hs: seq<RecordHeader>, views: seq<RecordView>)
    requires ReadBatch(status, headers, s, false, cancelled, hs) == Fetched(views)
    ensures ReadBatch(status, headers, bare, true, cancelled, hs) == Fetched(Bodiless(views))
  {
    hide ParseList, ParseInt, ParseLabelTable, DecRun, Get, EqualFold, BufferedSize, SlicingPanics, Offset, Window;
    if hs != [] {
      var entries, startTS := ParseList(Get(headers, ENTRIES)).value, ParseInt(Get(headers, START_TS)).value;
      var names := ParseLabelTable(headers).value;
      DecRunShape(hs, entries, names, |hs|);
      var parsed := DecRun(hs, entries, names, |hs|).value.parsed;
      var last := EqualFold(Get(headers, LAST), "true");
      HeadViews(hs, parsed, entries, startTS, last, s, bare, views);
    } else {
      assert Bodiless(views) == [];
    }
  }

  lemma HeadViews(hs: seq<RecordHeader>, parsed: seq<ParsedHeader>, entries: seq<string>, startTS: int, last: bool,
                  s: Stream, bare: Stream, views: seq<RecordView>)
    requires |hs| == |parsed| && forall i :: 0 <= i < |hs| ==> 0 <= hs[i].entryIndex < |entries|
    requires BuildViews(hs, parsed, entries, startTS, last, s, false) == Fetched(views)
    ensures BuildViews(hs, parsed, entries, startTS, last, bare, true) == Fetched(Bodiless(views))
  {
    hide BufferedSize, SlicingPanics, Offset, Window;
    var got := BuildViews(hs, parsed, entries, startTS, last, bare, true).records;
    forall i | 0 <= i < |hs| ensures got[i] == Bodiless(views)[i] {}
    assert got == Bodiless(views);
  }

  /** The same for v1; a HEAD response with the rows of a batch is never taken for an empty one. */
  lemma {:induction false} HeadHasMetadataV1(status: int, headers: Header, s: Stream, bare: Stream, cancelled: bool,
                                             entry: string, ths: Result<seq<TimeHeader>>, views: seq<RecordView>)
    requires ReadV1(status, headers, s, false, cancelled, entry, ths) == Fetched(views)
    ensures ReadV1(status, headers, bare, true, cancelled, entry, ths) == Fetched(Bodiless(views))
  {
    hide ParsedRow, Get, EqualFold, BufferedSize, SlicingPanics, Offset, Window;
    var got := ReadV1(status, headers, bare, true, cancelled, entry, ths).records;
    forall i | 0 <= i < |views| ensures got[i] == Bodiless(views)[i] {}
    assert got == Bodiless(views);
  }

  // ---- no content ---------------------------------------------------------------------------------

  /** The text of a 204. */
  ghost predicate TellsNoContent(message: string, headers: Header) {
    message == (if "x-reduct-error" in headers && headers["x-reduct-error"] != [] && headers["x-reduct-error"][0] != ""
                then headers["x-reduct-error"][0] else "No content")
  }

  /** Exactly status 204 means that there is nothing, whatever the headers hold. */
  lemma NoContentIff(status: int, headers: Header, s: Stream, head: bool, cancelled: bool, hs: seq<RecordHeader>)
    ensures ReadBatch(status, headers, s, head, cancelled, hs).NoContent? <==> status == 204
    ensures status == 204 ==> TellsNoContent(ReadBatch(status, headers, s, head, cancelled, hs).message, headers)
  {
    hide ParseList, ParseInt, ParseLabelTable, DecRun, EqualFold, ContentOf, BufferedSize, SlicingPanics;
  }

  lemma NoContentIffV1(status: int, headers: Header, s: Stream, head: bool, cancelled: bool, entry: string,
                       ths: Result<seq<TimeHeader>>)
    ensures ReadV1(status, headers, s, head, cancelled, entry, ths).NoContent? <==> status == 204
    ensures status == 204 ==> TellsNoContent(ReadV1(status, headers, s, head, cancelled, entry, ths).message, headers)
  {
    hide ParsedRow, EqualFold, ContentOf, BufferedSize, SlicingPanics;
  }
}
