# reduct-go: a verified model of the record protocols

reduct-go is the Go client of ReductStore. This project models, in Dafny, the
parts of it that carry records over HTTP, and proves that they do what they are
for. `dafny verify dfyconfig.toml` checks everything.

## What is modelled

**Batch Protocol v2.** The writer (`record_batch.go`) turns a set of records
into an unordered header map and one body: records are sorted, entries
numbered, timestamps written as differences to the least one, label names
interned in a table that is sent last, and content type and labels written as
a delta to the previous record of the same entry. The reader (`batch/v2.go`)
collects the headers in map order, sorts them, replays the deltas and cuts the
body. Writer and reader are modelled separately, as loops over their own state;
`V2RoundTrip` joins them by a simulation between the writer's last metadata and
the reader's last header of every entry. `V2Update`, `V2Meaning`, `V2Denotes`
and `V2Errors` do the same for label updates, removals, the records a request
names and per-record errors. `RecordBatches` is the batch object itself, over
whole runs of calls. `V2Compact` and `V2Requests` say what the sent headers hold:
each row just what differs from the record before it, and nothing twice.

**Any response.** A server need not answer with what this library would print.
`LabelGrammar` and `ListGrammar` are the languages of label lists and name lists,
`V2Reading` and `V1Reading` the meaning of rows, header names, bodies and whole
responses of the two protocols, `ErrorReading` that of error headers, each written
down without the functions of the readers and proved to be exactly what they read:
every response is read as what it means, and one without a meaning is refused.
`Responses` has what follows for end marks, types, metadata without bodies and 204.

**The streaming pipeline.** `Pipeline` is a state machine whose steps are those
of the producer goroutine (`FetchAndParse`, `FetchAndParseV2`), the wrapper
goroutine (`wrapBatchRecords`), the consumer of a `QueryResult`, and
cancellation, which may happen at any time. A channel is a sequence with a
capacity; closing is a step of its own, in the order of the deferred calls; a
`select` with two ready cases is two possible steps. A fetch may bring any reply
at any time, so the statements about all action sequences are about all
interleavings and all servers. `PipelineSafety` has the invariant and what
follows from it, `PipelineProgress` the absence of deadlock, termination and
the transparency of polling, `PipelineDelivery` what is delivered of the responses
that were fetched and how a cancelled query ends, `PipelineRuns` a run that fails. The reference is
`Pipeline.Sequentially`, a reader without goroutines or channels.

**Batch Protocol v1.** `CsvRows` has the two row parsers and the reference
parser that the tests keep as their definition. `V1Batches` prints, `V1Read`
reads; `V1Rows` joins them for one row and `V1RoundTrip` for a batch, for every
order in which a Go map may yield labels and headers. `V1Updates` has the rows
that update or remove.

**Attachments.** A key/value map kept as an append-and-mark log. `Attachments`
has the three client operations with their failures, `AttachmentReads` what is
read of any records, and when reading fails. `AttachmentServer` is the
assumption about the server: a log ordered by time, exact key filtering, requests
read by the rules of `V2Decode` and answers printed by those of `V1Batches`.
What gets to the server and back is therefore proved and not assumed:
`AttachmentWrites` for writes, `AttachmentLog` for removals and for the
refinement to a map over whole runs, `AttachmentRuns` that such runs exist. The
server has one log for every name; a request built by the library names its
entries in a header, a query in the path of its URL, and both are decoded.
`AttachmentStream` joins the pipeline to the attachments: what becomes of them
when a later fetch fails.

**Bodies.** All records of a batch but the last share one buffer, and the last
one owns the rest of the response. `Bodies` has the readers as objects on the
heap, so that sharing, shrinking windows, partial reads and writes and streams
that break off are real.

Loops of the source are loops here, proved equal to a specification function on
which the lemmas are built. A Go map that is ranged over appears as a parameter
`order` that may be any enumeration of it, or as a loop that takes any
remaining key. Text is a sequence of bytes; header names are lower-case.

## What the code does and does not keep

- `%` counts as a token character, so the encoder leaves it unescaped and a name
  that contains it does not come back (`HeaderList.PercentRoundTripIff`): it is decoded,
  or rejected (`HeaderList.ListArrives`).
- The difference of two timestamps is taken in 64 bits. When a batch spans more
  than 2^63-1, a difference goes negative, its header name is not recognised and
  the record is lost; the round trip, the set of records a request names and the
  attribution of errors hold exactly up to that point. For errors this takes a server that
  reports one under `x-reduct-error-<entry>--<n>`, for a record whose own header name cannot
  be read (`V2Order.NameRoundTrip`, `V2Errors.WideErrorExample`).
- Label values are trimmed in transit and blank ones vanish, so writer and reader
  hold different label maps; the deltas still agree (`V2RoundTrip.DeltaChain`).
  Values with a comma are quoted with `%q` but never unescaped: exactly the good
  values of `LabelOps.GoodValue` survive, others keep the escapes (`LabelOps.EscapedValueExample`).
- A v1 row is cut at commas, quotes and equals signs without any escaping;
  `V1Rows.RowRoundTripIff` says exactly which records it carries.
- A quote in a v1 row hides commas up to the next one, which ends the field; before a field it
  counts for nothing, and what stands before a quote that ends the row is lost
  (`V1Reading.RowFieldsAre`). In a v2 label list a quote left open is an error, and a quoted
  value needs no comma after it (`LabelGrammar.ParseIff`).
- The test for reserved names when v2 record headers are collected decides nothing: no reserved
  name is two numbers (`V2Reading.RecordNameIff`).
- The error of a later fetch is certain to be seen by `Err()` once `Records()` is closed;
  before that `Err()` may still return nil (`PipelineRuns.ErrorNotYetVisible`).
- The comment in `parseRecordBatchErrors` writes `=` between the name and the value of an
  error header; the code, and the model, take the value of the header.
- `ReadAttachments` and `RemoveAttachments` never call `Err()`, so they take what came
  before the failure of a later fetch for the whole result. Exactly when that makes no
  difference is said by `AttachmentStream.ReadIsCompleteIff` and `RemovalIsCompleteIff`;
  `AttachmentStream.LostAttachmentExample` is a run in which it does. The results about
  operations speak of complete answers, which a run without such a failure gives
  (`AttachmentStream.LoopIsAnswer`).
- The v1 producer would take an empty batch for the end of the query, but its own reader
  never makes one (`V1Read.NeverEmpty`), so polling is transparent for both protocols.
- Attachment names travel as label values, to the server by v2 and back by v1. A name that is
  empty, padded with white space, has a quote, or has a comma beside a backslash or a
  control character is not readable under that name afterwards
  (`AttachmentWrites.WriteOverridesIff`, `AttachmentRuns.LostNameExample`).
- The entry of an attachment goes encoded into a header when it is written, and as it is into
  a URL path when it is queried. Both are decoded to the same name, so an entry with `%` keeps
  its attachments, under the decoded name (`AttachmentRuns.PercentEntryExample`); if the `%`
  starts no triplet, it can neither be written nor queried. An entry with `?`, `#` or a control
  character is written but cannot be queried, so it is neither read nor removed from
  (`AttachmentServer.AddressedIff`, `AttachmentRuns.CutEntryExample`).

## Model

| member | source | states |
|---|---|---|
| `HeaderList.PercentRoundTripIff` | record_batch.go:698-725 | Unescaping what the percent encoder wrote gives the byte string back if and only if it has no `%` (section 2.1 of RFC 3986; `%` is a tchar in section 5.6.2 of RFC 9110, so the encoder leaves it alone) |
| `HeaderList.UnescapeEncode` | record_batch.go:698-725 | Percent-encoding a name does not change what it decodes to, so an encoded header and a raw URL path name the same entry, whatever percent signs it has |
| `HeaderList.PercentExample` | record_batch.go:710-725 | A concrete name that is read as another one: `%41` as `A` |
| `HeaderList.ListRoundTripIff` | batch/v2.go:532-552 | Parsing an encoded name list gives the list back if and only if every name is non-empty and free of `%` |
| `HeaderList.ListArrives` | batch/v2.go:532-552 | A list of non-empty names is read as the names decoded, in order, or fails exactly if one of them has a `%` that starts no triplet |
| `HeaderList.EncodedIsToken` | record_batch.go:698-725 | An encoded component is made of visible characters other than the delimiters of section 5.6.2 of RFC 9110, and is empty exactly if the name is |
| `HeaderList.TcharIff` | record_batch.go:710-725 | The characters the encoder leaves alone are exactly the visible ones that are no delimiters |
| `HeaderList.ByteIsEncoded` | record_batch.go:698-708 | Each such byte is its own encoding, and every other one a percent sign and two upper-case hexadecimal digits |
| `HeaderList.EncodeConcat` | record_batch.go:698-708 | Encoding goes byte by byte |
| `HeaderList.EncodeHeaderComponent` | record_batch.go:698-708 | The byte loop computes the percent encoding that the lemmas are about |
| `HeaderList.EncodeHeaderList` | record_batch.go:690-696 | The list loop computes the comma-joined encoding |
| `HeaderList.ParseHeaderList` | batch/v2.go:532-552 | The parsing loop, with its rejection of empty items and bad escapes, computes the list decoding |
| `HeaderList.DecodeParts` | batch/v2.go:537-551 | The loop over the split items computes their decoding, or fails at the first bad one |
| `ListGrammar.UnescapeIff` | batch/v2.go:545-549 | For any text and value: the text decodes to the value exactly if it spells it, each character as itself or by its number in two hexadecimal digits of either case, a percent sign only so |
| `ListGrammar.ListIff` | batch/v2.go:532-552 | For any text: it is read as a list exactly if it is blank and the list empty, or if it is non-blank items between commas that spell the values, whatever white space stands around them; everything else is refused |
| `Decimal.FormatParse` | batch/v2.go:307-331 | Parsing a printed int64 gives the number back, so entry indices, deltas, sizes and timestamps survive |
| `Decimal.ParseIntIff` | batch/v2.go:351-363 | For any text and number: it parses as the number exactly if it is its decimal notation, with a sign that fits and any zeros before it, and the number is an int64 |
| `Decimal.DigitsAreDecimal` | record_batch.go:309-332 | The digits of a printed number are its decimal digits |
| `Decimal.NoLeadingZero` | record_batch.go:309-332 | No printed number but zero starts with a zero |
| `Text.TrimExact` | batch/v2.go:387 | Trimming takes away the white space at both ends, all of it and nothing else |
| `Text.FoldIff` | batch/v2.go:205-207 | Texts are equal under case folding exactly if they have the same length and letters, whatever their case |
| `Ordering.StrLessIff` | record_batch.go:246-252 | Of two names the first difference decides, and a proper prefix comes first |
| `Ordering.SortUnique` | record_batch.go:246-262 | Elements with distinct keys have one sorted order, so an unstable sort has no freedom |
| `Ordering.CollectSorted` | record_batch.go:588-592 | Collecting the keys of a map in any order and sorting them gives the one increasing list of its keys |
| `NameTable.Table.Ensure` | record_batch.go:577-585 | A lookup keeps index and name list mutually inverse and duplicate-free, only ever appends, and returns the position of the name |
| `NameTable.PositionStable` | record_batch.go:577-585 | A table that grows by appending keeps every number already given out |
| `NameTable.InternSortedUses` | record_batch.go:274-286 | Entry names first used in sorted order are numbered in sorted order |
| `LabelOps.OpsRoundTripIff` | batch/v2.go:449-508 | Printing label operations and parsing them back gives the same operations in order, values trimmed and blank ones read as removals, if and only if every value is good |
| `LabelOps.SafeOpsArrive` | record_batch.go:683-688 | Whatever else the values hold, as long as their printed form has a clear end the operations arrive in order, with the escapes of `%q` left in the values |
| `LabelOps.EscapedValueExample` | record_batch.go:683-688 | A concrete value with a comma and a backslash that comes back with two backslashes |
| `LabelOps.ParseLabelDeltaOps` | batch/v2.go:449-508 | The loop over the shrinking rest ends on every input and computes the recursive parse, errors included |
| `LabelOps.ApplyLabelDelta` | batch/v2.go:430-447 | Copying the base labels and applying the parsed operations one by one computes the delta application |
| `LabelOps.ApplyTouched` | batch/v2.go:430-447 | With distinct names, an operation decides its label wherever it stands in the list |
| `LabelOps.ApplyUntouched` | batch/v2.go:430-447 | A label that no operation names keeps what it had |
| `LabelOps.EscapeByTable` | record_batch.go:683-688 | `%q` escapes a byte by its letter if it has one, and any other unprintable byte by two lower-case hexadecimal digits |
| `LabelOps.EscapeConcat` | record_batch.go:683-688 | Escaping goes character by character |
| `LabelGrammar.ResolvesIff` | batch/v2.go:510-530 | For any name and table: it stands for a label exactly if it is a number and the table has a non-empty entry there, or no number, or there is no table, and then itself, unless it starts with an at sign |
| `LabelGrammar.ParseIff` | batch/v2.go:449-508 | For any text of a server and any table: the parser gives these operations exactly if the text means them by a grammar of items, bare or quoted, that names no function of the parser; every other text is refused |
| `LabelDelta.BuildLabelDelta` | record_batch.go:575-640 | The builder, with its label table updated in place, prints exactly the operations for the changed names in table order |
| `LabelDelta.SortOps` | record_batch.go:627-629 | Sorting the operations by index gives the one printed order, since no index occurs twice |
| `LabelDelta.ChangedKeysExact` | record_batch.go:594-625 | The delta names exactly the labels that differ between the two records, each once |
| `LabelDelta.DeltaParses` | record_batch.go:627-639 | A printed delta parses, against any later table, to its own operations |
| `LabelDelta.DeltaApplies` | batch/v2.go:430-447 | Applying a delta to the image of the previous labels (texts as they arrive, trimmed, blank ones dropped) gives that image of the current ones, against the final table |
| `LabelDelta.ArrivedIsTrimmedIff` | record_batch.go:683-688 | Of values that can be told apart exactly the good ones arrive as their trimmed selves |
| `V2Encode.MinTimestampIsLeast` | record_batch.go:267-272 | The start timestamp is the least of the batch and occurs in it |
| `V2Encode.FindStart` | record_batch.go:267-272 | The scan finds the start timestamp |
| `V2Encode.NumberEntries` | record_batch.go:274-286 | One pass gives the entry list in order of first use and numbers every record with its position there |
| `V2Encode.SortRecords` | record_batch.go:245-262 | The sorted copy is the one increasing order of the batch by entry and timestamp |
| `V2Encode.EncodeRecord` | record_batch.go:299-339 | One turn of the record loop: row text, label table and remembered metadata of the entry |
| `V2Encode.EncodeRecords` | record_batch.go:292-339 | The record loop threads table, metadata and headers through all records and joins their data |
| `V2Encode.BuildRecordBatchWriteRequest` | record_batch.go:229-355 | The whole builder computes the request that the round trip is about, the empty batch included |
| `V2Decode.ParseRecordHeaders` | batch/v2.go:289-349 | For any header order: the recognised record headers, sorted by entry index and delta, and nothing else |
| `V2Decode.ParseRecordHeader` | batch/v2.go:351-428 | Every form of a row, with its fallback to the previous header of the entry and its errors |
| `V2Decode.ReplayHeaders` | batch/v2.go:209-236 | The replay loop keeps the last header per entry and stops at the first error |
| `V2Decode.ReadBatchedRecordsV2` | batch/v2.go:129-287 | The whole reader on heap objects: the outcome that `V2Reading.ReadIff` is about, panics and broken streams included, the bytes each record's body will deliver, and that no body moves the position of another |
| `V2Decode.BuildRecords` | batch/v2.go:238-287 | Buffering, slicing and assembling: sizes, last marks and independent bodies of all records, or the error of the stream |
| `V2Decode.UseRecords` | batch/v1.go:374-396 | Any schedule of reads and partial writes over the records of a fetch gives each record the bytes promised for it |
| `V2Decode.FillBuffer` | batch/v2.go:238-246 | One pass over the response takes exactly the buffered size, or returns io.EOF, io.ErrUnexpectedEOF or the error the stream broke off with |
| `V2Decode.AssembleRecords` | batch/v2.go:252-280 | Every record gets its entry, time, size, last marks, labels and type from its own header |
| `V2Decode.ReadContentRecords` | batch/v2.go:163-287 | The reader after the 204 check, with the order of its checks and its errors, the last mark, and independent bodies |
| `V2Decode.CutContent` | batch/v2.go:253-266 | A window of the filled buffer, or the rest of the stream, is the record's content |
| `V2Reading.AppliedIff` | batch/v2.go:430-447 | For any operations, repeated names included: the labels afterwards are exactly those in which the final operation on a name decides and all others stay |
| `V2Reading.RowIff` | batch/v2.go:351-428 | For any row, previous header and table: it is read as a header exactly if it means it, as a size alone, with a type, or with label changes; rows without a meaning are errors |
| `V2Reading.ReplayIff` | batch/v2.go:209-236 | For any rows in any number of entries: the replay succeeds exactly if every row means something in the light of the latest row of its entry, and then with these meanings |
| `V2Reading.RecordNameIff` | batch/v2.go:294-331 | For any header name: it is a row exactly if it is two numbers after the prefix, with the final dash between them; the reserved names never are |
| `V2Reading.RowsAreHeaders` | batch/v2.go:289-338 | The rows of a response are exactly its headers with such names, with their values |
| `V2Reading.BuildIff` | batch/v2.go:238-287 | Of any parsed rows and any body: the records are exactly those of the rows, whose contents put together are the whole body, each but the final one of the size its row tells |
| `V2Reading.ReadIff` | batch/v2.go:129-287 | For any response whatever: the reader gives these records exactly if the response means them, with or without bodies, its mark, time wrap and order of checks included |
| `V2Reading.ShortBodyFails` | batch/v2.go:238-246 | A body shorter than its rows say fails the fetch, with the error that broke it off or the end of file, unexpected or not |
| `Responses.LastMarkDecides` | batch/v2.go:205-207 | For any response: only the final record of a batch can end the query, and it does exactly if the mark is the word true in any case |
| `Responses.LastMarkDecidesV1` | batch/v1.go:292-354 | The same for Batch Protocol v1 |
| `Responses.OtherMarksEndNothing` | batch/v2.go:205-207 | A mark of `false`, or none, ends no query |
| `Responses.ReadsTyped` | batch/v2.go:387-394 | Every record of any v2 response has a content type |
| `Responses.ReadsTypedV1` | batch/v1.go:341-344 | Every record of any v1 response has a content type |
| `Responses.HeadHasMetadata` | batch/v2.go:238-283 | If headers read with some body, then as the answer to a HEAD request they read with any body, to the same records with empty contents |
| `Responses.HeadHasMetadataV1` | batch/v1.go:308-362 | The same for Batch Protocol v1, which never takes such a response for one without records |
| `Responses.NoContentIff` | batch/v2.go:154-161 | Exactly status 204 means that there is nothing, and its message is the error header or a fixed text |
| `Responses.NoContentIffV1` | batch/v1.go:272-279 | The same for Batch Protocol v1 |
| `V2Order.IndexingIsMonotone` | record_batch.go:274-286 | Mapping (entry, timestamp) to (entry index, delta) is strictly monotone on a sorted batch |
| `V2Order.NameRoundTrip` | batch/v2.go:294-331 | A record header name reads back as its entry index and delta, unless the delta has gone negative |
| `V2Order.NameInjective` | record_batch.go:332 | Different (entry index, delta) pairs have different header names, negative deltas included |
| `V2Order.RecordNamesDistinct` | record_batch.go:332 | The record headers of a batch have pairwise distinct names, however far its timestamps lie apart |
| `V2Order.FixedIsNotName` | batch/v2.go:296-305 | No record header name is one of the reserved or fixed names |
| `V2Order.OrderRecovery` | batch/v2.go:289-349 | Whatever the order of the header map, collecting and sorting gives exactly the encoder's rows in the encoder's order |
| `V2RoundTrip.RowDecodes` | batch/v2.go:351-428 | Each of the four row forms decodes to the record's size, effective type and labels as they arrive |
| `V2RoundTrip.SimulationStep` | record_batch.go:299-339 | One record keeps, for all entries at once, the reader's last header the image of the writer's last metadata |
| `V2RoundTrip.DeltaChain` | batch/v2.go:209-236 | The simulation after every prefix of the batch, with all records so far decoded as they were given |
| `V2RoundTrip.EmittedIndexResolves` | batch/v2.go:510-530 | A label number given out at any record resolves, in the table sent at the end, to the name it was given out for |
| `V2RoundTrip.TableGrows` | record_batch.go:577-585 | Across the record loop the label table only grows by appending and stays duplicate-free |
| `V2RoundTrip.ListsDecode` | batch/v2.go:163-207 | Start timestamp, label table and last mark read back as they were sent, the entry list decoded, or with an error if an entry cannot be |
| `V2RoundTrip.WindowIsData` | batch/v2.go:238-268 | Each record's window of the joined body is its own data |
| `V2RoundTrip.ItemsRoundTripIff` | record_batch.go:245-355 | The round trip and the arrival on a sorted batch, for any header order and any correct sort, with their exact conditions |
| `V2RoundTrip.V2RoundTripIff` | batch/v2.go:163-287 | For every batch the format can carry, decoding what was encoded returns exactly its records in (entry, timestamp) order, label values trimmed, if and only if no two timestamps lie more than 2^63-1 apart, every value is good and no entry has a `%` |
| `V2RoundTrip.V2ArrivalIff` | batch/v2.go:163-287 | What comes back of any such batch: values with the escapes of `%q` left in, entries decoded, and everything else as it was, if and only if the timestamps fit and every entry can be decoded |
| `V2RoundTrip.ReadingExists` | batch/v2.go:289-349 | Every response can be visited in some order and its record headers sorted, so the round trips speak of real readings |
| `V2RoundTrip.WideSpanExample` | record_batch.go:303 | A concrete batch whose delta overflows and which does not come back |
| `V2Compact.RowSaysWhatChanged` | record_batch.go:299-339 | The row sent for a record is its size, its type unless the record before it in its entry has the same, and a list of label changes exactly if the labels differ from that record's: one operation for each label that differs, with its new value or as a removal, and nothing else |
| `V2Requests.WriteIsFramed` | record_batch.go:264-345 | A write has type and length of its body, which is all data in the order of the rows, names every entry once, starts at the least timestamp and carries no end mark |
| `V2Update.BuildUpdateLabelDelta` | record_batch.go:642-681 | The update delta in name order: assignments for non-empty texts, removals for nil and empty ones |
| `V2Update.UpdatePart` | record_batch.go:665-678 | One part of an update delta: removal for nil and empty values, assignment otherwise |
| `V2Update.UpdateRecords` | record_batch.go:398-420 | The update loop files each record's row under its own name and ends with the final label table |
| `V2Update.RemoveRecords` | record_batch.go:476-487 | The removal loop files an empty value under each record's own name |
| `V2Update.BuildRecordBatchUpdateRequest` | record_batch.go:357-433 | The whole update builder computes the request that the overlay property is about |
| `V2Update.BuildRecordBatchRemoveRequest` | record_batch.go:435-498 | The whole removal builder computes the request that names exactly the batch |
| `V2Meaning.UpdateArrives` | batch/v2.go:430-447 | Any update record's header, read against any stored record, keeps untouched labels, sets each given one to its value as it arrives and deletes exactly those given as nil or blank |
| `V2Meaning.UpdateMeansOverlayIff` | batch/v2.go:430-447 | The values set are the trimmed ones that were given, against any stored record, if and only if all of them are good |
| `V2Meaning.UpdateApplies` | record_batch.go:642-681 | An update delta applied to any label map is the overlay of what arrives, although its operations come in name order |
| `V2Denotes.DenotesBatchIff` | record_batch.go:274-286 | Read from nothing but its own headers, entry list and start time included, a request denotes exactly the batch's set of (entry, timestamp) keys, if and only if the timestamps fit one int64 span and every entry name is non-empty and free of `%` |
| `V2Denotes.MisnamedExample` | record_batch.go:435-498 | A concrete removal whose request denotes a record of another entry |
| `V2Denotes.BuildersNameExactly` | record_batch.go:401-412 | All three builders put exactly the record names, and their own entry list and start time, into the headers |
| `V2Requests.UpdateSaysGiven` | record_batch.go:398-420 | The row sent for an update is a zero, and its labels if there are any, in the order of their names, each once, with the value it is given or as a removal for nil and blank |
| `V2Requests.UpdateIsFramed` | record_batch.go:395-433 | An update has no body, names every entry once and starts at the least timestamp |
| `V2Requests.RemovalIsFramed` | record_batch.go:468-498 | A removal says nothing about its records but their names, and has no body and no label names |
| `V2Requests.EmptyRequests` | record_batch.go:357-367 | Requests for an empty batch name no entry and no record, and start at zero |
| `V2Errors.ParseRecordBatchErrors` | record_batch.go:500-560 | The loop over the response headers computes the error map, or fails at the first unreadable header |
| `V2Errors.ReadErrorHeader` | record_batch.go:504-556 | One response header: ignored, unreadable, or an error of one record |
| `V2Errors.ErrorReads` | record_batch.go:511-545 | An error header reads back as its record's key, status and message, commas in the message included |
| `V2Errors.ErrorsAttributedIff` | record_batch.go:500-560 | For any header order the errors are mapped back to exactly their records, statuses and messages, if and only if no record in error lies more than 2^63-1 after the start |
| `V2Errors.WideErrorExample` | record_batch.go:511-545 | A concrete error, of a record 2^64-1 microseconds after the start, that no header order attributes |
| `ErrorReading.FoundIff` | record_batch.go:504-556 | For any response header: it is read as the error of a record exactly if its name has two numbers after the prefix that lead to that record, and its value a number, a comma and the message |
| `ErrorReading.SkipIff` | record_batch.go:504-537 | It is passed over exactly if it is no error header, or one without a value |
| `ErrorReading.ErrorsAreThoseTold` | record_batch.go:500-560 | For any headers in any order: reading them succeeds exactly if all are understood, and then a record has an error exactly if some header tells one, which is one that is told |
| `RecordBatches.RecordBatch.Add` | record_batch.go:87-111 | Adding: empty entry names are ignored, defaults filled in, bytes counted, the record stored under its key |
| `RecordBatches.RecordBatch.AddOnlyLabels` | record_batch.go:114-116 | Adding labels alone is adding an empty record |
| `RecordBatches.RecordBatch.AddOnlyTimestamp` | record_batch.go:119-121 | Adding a timestamp alone is adding an empty record without labels |
| `RecordBatches.RecordBatch.Clear` | record_batch.go:215-221 | Clearing empties the batch and its size |
| `RecordBatches.RecordBatch.Items` | record_batch.go:125-130 | Ranging over the map gives every stored record exactly once, in some order |
| `RecordBatches.StoredIsLastWrite` | record_batch.go:87-121 | After any run of calls the batch holds, under each key, exactly what the last call for it since the last Clear was given, with the default type and no labels for nil; calls with an empty entry store nothing |
| `RecordBatches.StoredUnderOwnKey` | record_batch.go:103-110 | After any run of calls every record is stored under its own entry and timestamp |
| `RecordBatches.SizeAccounting` | record_batch.go:101-110 | After any run of calls Size() is the bytes stored plus the bytes overwritten since the last Clear |
| `RecordBatches.ContentLengthIsStoredBytes` | record_batch.go:296-345 | Body length and Content-Length of the request are the stored bytes, for any order of the records, and Size() exceeds them by exactly the overwritten bytes |
| `Bodies.SliceReader.Read` | batch/v1.go:378-385 | A read copies the front of the record's window and shrinks it by as much |
| `Bodies.SliceReader.WriteTo` | batch/v1.go:387-394 | A write hands over the window and shrinks it by what was accepted |
| `Bodies.CutBodies` | batch/v1.go:325-339 | The slicing loop gives each record its own window of the shared buffer and the last one the response |
| `Bodies.CutBodiesAreIndependent` | batch/v1.go:321-339 | The bodies share a buffer but no position, and each is readable |
| `Bodies.WindowsCover` | batch/v1.go:310-339 | The windows are contiguous and disjoint and put together give the whole body |
| `Bodies.BufferedIsOffset` | batch/v1.go:296-303 | The buffered size is where the last record begins |
| `Bodies.ReadOne` | batch/v1.go:378-385 | Reading one record moves no other record's position and delivers the next of its own bytes |
| `Bodies.WriteOne` | batch/v1.go:387-394 | Writing one record to a writer that accepts only a part moves no other record's position, and only by that part |
| `Bodies.UseAll` | batch/v1.go:374-396 | Any schedule of reads and partial writes on real bodies that share one buffer gives each record its own bytes in order, as many as were taken, and leaves it the others |
| `Bodies.TakesAreIndependent` | batch/v1.go:374-396 | Taking from records in any order and in any pieces gives each exactly its own bytes, as many as were asked for |
| `Bodies.ReadStream` | record.go:163-174 | The first min(size, available) bytes, or everything when no size is known; a stream that ends early is no error, one that breaks off is |
| `Bodies.ReadFull` | batch/v1.go:312-319 | Reading until the buffer is full takes min(length, available) bytes, however the stream cuts them up, and tells a full buffer, an end and a broken stream apart |
| `Bodies.ReadAll` | record.go:164-166 | Reading to the end takes everything, and returns the error of a stream that breaks off |
| `Pipeline.Readable` | batch_bridge.go:46-52 | The wrapper changes nothing of a record but an empty content type, which becomes the default |
| `PipelineSafety.ActKeeps` | batch_bridge.go:32-67 | Every step of producer, wrapper and consumer, and a cancellation at any time, keeps the invariant: conservation of records, conservation of errors, agreement with the sequential reader |
| `PipelineSafety.ReceivedIsPrefix` | batch/v2.go:62-121 | In every run, cancelled or not, what was received is a prefix of the fetched batches concatenated and cut just after the first last record |
| `PipelineSafety.ErrorIsVisible` | bucket.go:398-408 | When the consumer of an uncancelled query sees Records() closed, it has everything, and the next Err() returns exactly the hard error of a later fetch |
| `PipelineRuns.ErrorNotYetVisible` | bucket.go:398-408 | Before that Err() may return nil although a later fetch has failed, even to a consumer who has received all there is: a reachable state |
| `PipelineSafety.ErrorSendsNeverBlock` | batch_bridge.go:63-66 | At most one error is ever in flight, so neither one-place send can block |
| `PipelineSafety.RefinesSequential` | batch/v1.go:52-103 | An uncancelled query that has ended delivered what a reader without goroutines would have |
| `PipelineSafety.ScriptDeterminesOutcome` | batch/v2.go:62-121 | The replies in store determine the outcome, whatever the interleaving |
| `PipelineProgress.NeverStuck` | batch/v1.go:52-103 | Every reachable unfinished state has a step of some goroutine or of the receiving consumer |
| `PipelineProgress.RunsAreBounded` | batch/v1.go:65-102 | A query that is not continuous, against finitely many batches, takes at most a stated number of steps |
| `PipelineProgress.PollingIsTransparent` | batch/v2.go:79-108 | In a continuous query of either protocol 204 replies (v2: and empty batches) change neither the records nor the end |
| `PipelineProgress.ReadRepliesAreGenuine` | batch/v1.go:286-289 | Whatever a v1 response holds, the reader hands the producer no empty batch |
| `PipelineProgress.IdleRepliesDoNotMatter` | batch/v1.go:69-85 | Two completed runs of a continuous query, of either protocol, whose replies differ only in idle ones deliver the same |
| `PipelineProgress.DeliverableIgnoresIdle` | batch/v2.go:97-108 | What a query may have delivered at any time does not depend on idle replies |
| `PipelineDelivery.ReceivedAsFetched` | batch_bridge.go:32-61 | In every run the consumer has the first fetched records, each as it was fetched but for a missing type; all of them up to the last record once Records() is closed, unless the query was cancelled |
| `PipelineDelivery.TypedComeUnchanged` | record.go:124-126 | With content types, which both readers always give, what is received is a prefix of the fetched records themselves, and all of them at the end |
| `PipelineDelivery.RepliesAreTypedAndMarked` | batch/v2.go:205-281 | Whatever response a reply of either reader was read from, its records have types, and only the final one can end the query, exactly if the mark of the response says so |
| `PipelineDelivery.EveryRecordArrives` | batch/v1.go:52-111 | From the responses to the hands of the consumer: if no response but the final one is marked as the end, an uncancelled query delivers every record of every response, unchanged and in order |
| `PipelineDelivery.QueryEndsAt` | batch/v2.go:62-121 | No fetch is made after a reply that ends the query, by a list of such replies for either protocol, and an uncancelled query ends with nothing else |
| `PipelineDelivery.CancelledCanEnd` | batch/v1.go:57-80 | From any reachable state of a cancelled query, both goroutines can end within ten steps of their own, whether or not the consumer receives, and without another fetch unless the producer was just about to make one |
| `PipelineDelivery.CancelledRunsAreBounded` | batch/v1.go:57-80 | If requests fail once their context is cancelled, at most one more is made, and the number of steps left is bounded by what the producer holds, in every interleaving |
| `PipelineDelivery.StepsPerFetch` | batch/v2.go:62-121 | The number of steps of any run, cancelled or not, continuous or not, is bounded by what its fetches brought |
| `CsvRows.ParsePlain` | batch/v1.go:152-167 | The piece-at-a-time loop assigns exactly the non-empty pieces between commas |
| `CsvRows.NextPiece` | batch/v1.go:154-163 | Cutting at the first comma shortens the row and keeps its remaining pieces |
| `CsvRows.ParseQuoted` | batch/v1.go:169-204 | The state machine assigns exactly the fields it delimits, as it completes them |
| `CsvRows.ParseCSVRow` | batch/v1.go:120-134 | Whichever parser runs, the row has the assigned fields, and equals the reference wherever that does not panic |
| `CsvRows.ParseCSVRowReference` | batch/csv_row_test.go:22-92 | The reference loops compute the reference row, and panic exactly on rows with fewer than two fields |
| `CsvRows.ReferenceLabels` | batch/csv_row_test.go:79-89 | The reference's label loop splits every item with an equals sign at the first one |
| `CsvRows.PlainIsQuoted` | batch/v1.go:120-134 | On every row without a quote both parsers see the same fields |
| `CsvRows.ParserMatchesReference` | batch/csv_row_test.go:13-21 | Assigning fields one by one equals collecting them first and assigning afterwards, on every row where the reference does not panic |
| `V1Batches.Batch.Add` | batch.go:65-79 | Adding to a v1 batch: default type, no labels for nil, bytes counted |
| `V1Batches.Batch.AddOnlyLabels` | batch.go:82-86 | Labels alone: no data, no type, no bytes counted |
| `V1Batches.Batch.AddOnlyTimestamp` | batch.go:89-93 | A timestamp alone: no data, no type, no labels |
| `V1Batches.Batch.Clear` | batch.go:204-210 | Clearing empties the batch and its size |
| `V1Batches.Batch.Print` | batch.go:98-127 | The printing loop: one row per record in time order, the data joined in the same order |
| `V1Batches.FormatRow` | batch.go:112-123 | A row is printed as the lemmas on rows have it, for some order of the labels |
| `V1Updates.RowTellsNoContent` | batch.go:113-116 | A row that updates or removes starts with a size that parses as 0 and an empty type, whatever the record holds, and is just that without labels |
| `V1Updates.RowPieces` | batch.go:112-123 | Without commas in type, names and values a row of any kind, split at commas, is size and type, or a zero and no type, and one `name=value` for each label, in some order of the labels |
| `V1Updates.UpdateArrives` | batch.go:117-123 | A reader that splits an update row like any other gets its labels back, with the escapes of `%q`, if they have no quotes and their names no comma or equals sign |
| `V1Updates.UpdateRoundTripIff` | batch.go:117-123 | The labels of an update row come back as they were given if and only if all names and values are good |
| `V1Batches.SortedTimes` | batch.go:103-107 | The timestamps of the batch in increasing order |
| `V1Batches.StoredIsLastCall` | batch.go:65-93 | After any run of calls the batch holds, at each time, exactly what the last call for it since the last Clear was given |
| `V1Batches.SizeAccounting` | batch.go:65-93 | After any run of calls the counted size is the bytes stored plus the bytes that later calls, with data or without, replaced since the last Clear |
| `V1Batches.BodyIsStoredBytes` | batch.go:103-127 | The body that Write sends is the stored bytes, and the counted size exceeds it by exactly the replaced ones |
| `V1Read.CollectTimeHeaders` | batch/v1.go:216-240 | For any header order: the time headers sorted by timestamp, or the first error |
| `V1Read.ReadBatchedRecords` | batch/v1.go:249-365 | The whole v1 reader on heap objects: the outcome that `V1Reading.V1ReadIff` is about, the bytes each record's body will deliver, and that no body moves the position of another |
| `V1Read.ParseRows` | batch/v1.go:296-303 | Every time header's row is parsed |
| `V1Read.AssembleV1` | batch/v1.go:326-357 | Every record gets its time, size, last marks, labels and type from its own row, the default type included |
| `V1Read.BuildV1` | batch/v1.go:310-357 | Buffering, slicing and assembling of a v1 batch, with independent bodies, or the error of the stream |
| `V1Read.NeverEmpty` | batch/v1.go:286-289 | A v1 fetch never yields an empty batch |
| `V1Reading.RowFieldsAre` | batch/v1.go:169-204 | The fields of any row by its first comma or quote: a comma ends a field, a quote inside one hides commas up to the next quote, which ends it, and a quote before a field counts for nothing |
| `V1Reading.EveryRowIsCut` | batch/v1.go:169-204 | Every row is of one of these kinds, so nothing else decides about its fields |
| `V1Reading.RowReadIff` | batch/v1.go:137-150 | For any row: it is read as exactly what its fields mean, the size if it is a number, the type, and the final field for each label name |
| `V1Reading.TimeHeaderIff` | batch/v1.go:219-233 | For any header: it gives no time header, one, or an error, exactly as its name has the prefix in any case, a number after it, and a value |
| `V1Reading.CollectedIff` | batch/v1.go:216-240 | For any headers in any order: collecting succeeds exactly if none of them is an error, and gives exactly the records they stand for |
| `V1Reading.V1ReadIff` | batch/v1.go:249-365 | For any response whatever: the reader gives these records exactly if the response means them, with or without bodies, its mark included |
| `V1Reading.V1ShortBodyFails` | batch/v1.go:308-319 | A body shorter than its rows say fails the fetch, with the error that broke it off or the end of file |
| `V1Rows.RowRoundTripIff` | batch/v1.go:169-204 | Whatever the order of the labels, a printed row parses to the record's size, type and labels, if and only if the type has no comma or quote, the names no comma, quote or equals sign, and the values no quote and, with a comma, nothing that `%q` escapes |
| `V1Rows.RowArrives` | batch/v1.go:169-204 | Values that `%q` escapes arrive with the escapes left in |
| `V1Rows.LostLabelExample` | batch.go:112-119 | A concrete record whose label name is cut at its equals sign |
| `V1RoundTrip.AddedAreText` | batch.go:65-79 | A batch filled by Add alone holds records of the accepted kind, since the default type is filled in |
| `V1RoundTrip.TimeOrderRecovery` | batch/v1.go:216-240 | Whatever the order of the headers, collecting and sorting gives the rows in time order |
| `V1RoundTrip.SentCarries` | batch.go:109-127 | The printed headers, with the general ones beside them, hold every row under its own timestamp |
| `V1RoundTrip.WrittenReadsBackIff` | batch.go:103-127 | For every batch filled by Add with text labels, and whatever end mark the server adds, collecting, parsing and slicing what Write printed gives exactly the same records, if and only if every content type, label name and label value is good |
| `Attachments.WriteAttachments` | bucket.go:656-683 | Refused without an entry, nothing without attachments, stopped before sending by a payload that cannot be marshalled; else one batch, and the failure that Send or its record errors tell |
| `Attachments.FillBatch` | bucket.go:668-676 | One record per attachment at consecutive timestamps, in whatever order the map yields, or the name that cannot be marshalled |
| `Attachments.FirstRecordBatchError` | bucket.go:816-823 | Some error of a record exactly if there is one |
| `Attachments.ReadAttachments` | bucket.go:692-739 | Refused without an entry, the failure of the query, or the fold over its result: set, delete or skip, up to the last record or the first one that cannot be read or decoded |
| `AttachmentReads.ReadFailsIff` | bucket.go:719-731 | Of any records a query delivers: reading attachments fails exactly if it comes to one, not marked as removed, whose body cannot be read or decoded, and then with the failure of the first such record |
| `AttachmentReads.ReadIsDecided` | bucket.go:703-738 | Otherwise exactly those attachments are returned whose final record up to the last one does not remove them, each with the payload of that record |
| `Attachments.RemoveAttachments` | bucket.go:748-814 | The query with the escaped keys, one removal mark for every record found that has a key, and the failures of query and Send |
| `Attachments.MarkRecords` | bucket.go:786-803 | The marking loop puts exactly the updates for the found records into the batch |
| `Attachments.EscapeKeys` | bucket.go:753-779 | Whatever the keys, the operands of the query stand for exactly these keys |
| `AttachmentServer.AddressedIff` | bucket.go:563-577 | A query finds the log of an entry if and only if its name is not empty, has no `?`, `#` or control character, and every `%` starts a triplet; it is the log of the decoded name |
| `AttachmentServer.AddressedIsTarget` | bucket.go:563-577 | Whenever a query finds a log, it is the one that the requests built by the library are for |
| `AttachmentServer.ReadsLog` | bucket.go:702-738 | Folding the answer to an unconditional query, its labels read from v1 rows, folds the whole log as its rows show it |
| `AttachmentWrites.InsertedIsAppended` | bucket.go:668-676 | Reading the sent request appends to the log of the decoded entry one record per attachment, with the name as it arrives, whatever the orders of the maps |
| `AttachmentWrites.WriteKeepsOthers` | bucket.go:668-682 | Whatever the names, a write changes no other log |
| `AttachmentWrites.ReadKeyIff` | record_batch.go:683-688 | A name without quotes is read under itself if and only if it is non-empty, trimmed and, with a comma, printable without backslashes; else escapes only ever get more |
| `AttachmentWrites.WriteOverridesIff` | bucket.go:656-739 | Reading before, writing and reading again over the wire overrides and adds exactly the given attachments if and only if a query can address the entry, and every name is non-empty, trimmed, free of quotes and, with a comma, printable without backslashes, or nothing was to change; no other log is touched |
| `AttachmentRuns.WriteHappens` | bucket.go:668-682 | Such a write can happen against any ordered log, and does exactly this to the logs |
| `AttachmentRuns.RemoveHappens` | bucket.go:781-813 | A removal from an entry that a query can address can happen against any clean log, and does exactly this to the logs |
| `AttachmentRuns.LostNameExample` | bucket.go:668-676 | A concrete attachment name with a comma and a backslash that does not come back |
| `AttachmentRuns.PercentEntryExample` | bucket.go:563-577 | A concrete entry, `%41`, whose attachments come back, and which shares them with entry `A` |
| `AttachmentRuns.CutEntryExample` | bucket.go:563-577 | A concrete entry, `a?b`, that is written to but cannot be read |
| `AttachmentLog.RemovalIsMarking` | bucket.go:781-803 | The update request, read by its own headers, marks in the log that was queried exactly the records of the named attachments, or all that have a name |
| `AttachmentLog.RemovalKeepsOthers` | bucket.go:781-813 | A removal changes no log but the one that was queried |
| `AttachmentLog.RemoveRemovesIff` | bucket.go:748-814 | A removal takes away exactly the named attachments, or all of them, if and only if a query can address the entry; no other log is touched |
| `AttachmentLog.LogRefinesMap` | bucket.go:702-738 | After any sequence of writes and removals, on this entry, its aliases and others, what ReadAttachments makes of the answer to its query is exactly the map that the operations about its log have made |
| `AttachmentStream.LoopIsAnswer` | batch/v1.go:33-111 | Without the failure of a later fetch, the loop over Records() of any run has seen a complete answer, as the results above take it |
| `AttachmentStream.FetchedIsRead` | bucket.go:703-738 | In every run ReadAttachments returns the map of the records fetched, whether or not a later fetch has failed |
| `AttachmentStream.ReadIsCompleteIff` | bucket.go:703-738 | It is the whole map if and only if no later fetch has failed or the records not fetched would not change it |
| `AttachmentStream.FetchedIsMarked` | bucket.go:786-803 | In every run RemoveAttachments marks exactly the records fetched |
| `AttachmentStream.RemovalIsCompleteIff` | bucket.go:786-803 | It marks all that its query is about if and only if no later fetch has failed or none of the records not fetched has a name |
| `AttachmentStream.LostAttachmentExample` | bucket.go:703-738 | A concrete run over two attachments whose second fetch fails: one is returned, and no error |

## Left out

- HTTP transport, TLS, authentication and request building: a fetch is a status, a header map and a body, or a hard error.
- Bucket, entry, token, replication and lifecycle calls, query option builders, links, wildcard routing and version comparison: thin wrappers that would only add easy members.
- JSON: attachment payloads are their JSON text, and decoding them is taken to undo encoding.
- Clocks and timers: the time of a write is a parameter that must lie after everything in the log, a poll wait is one step, and `lastAccess` is not kept.
- Mutexes: a method call on a batch is one step.
- Unicode: white space, case folding and `%q` are modelled on ASCII; label values outside ASCII are outside the domain, and so is UTF-8 repair when a row is parsed.
- Header canonicalisation: names are taken as lower-case, only the first value of a header is read.
- Sums of sizes are unbounded integers; a batch that exceeds 2^63-1 bytes is not modelled.
- Entry indices more than 2^62 apart, where the subtracting comparison of the reader could overflow, are not modelled.
- `io.Reader` implementations that return no bytes and no error for ever are not modelled.
- `slices.SortFunc` is any method whose result is sorted and a permutation; its algorithm is not modelled.
- V1RoundTrip.WrittenReadsBackIff: a label that is not a string, which Write prints without its value, is outside the statement, and so are labels that are not ASCII.
- V1Batches.Batch.Print: the map from response headers to per-timestamp errors in `Batch.Write` is not modelled; it is the v2 attribution without entries.
- AttachmentWrites.WriteOverridesIff: names are ASCII; logs with labels that no row can carry, or with names that the library itself could not have written and read, are outside the statement.
- AttachmentLog.LogRefinesMap: entries with `*` are queried as wildcards over Batch Protocol v2, which is not modelled for attachments; the server's own errors for single records are part of the client operations only.
- AttachmentServer.AddressedIff: a query whose URL path ends within the entry goes to another resource and is taken to fail without effect; a server that rewrites paths, at `.` and `..` for instance, is not modelled, nor is the answer for an entry that does not exist, which is taken to be empty.
- V2RoundTrip.V2RoundTripIff: label names that are empty or have a `%`, content types that are padded or have a comma, and values whose quoted form has no clear end are outside the statement, as is text outside ASCII in values.
- The HTTP library's refusal to send header values with control characters: such values are taken as sent.
