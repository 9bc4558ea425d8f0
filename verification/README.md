# A verified model of the terminal viewer

Burnlist renders its dashboards in a terminal as well as in a browser. Between
the network and the screen lie a number of small protocols and algorithms that
perform no I/O of their own. This project models them in Dafny and proves what
they keep, what they undo, and — where the code falls short of what one would
like to say of it — exactly when it does not.

`dafny verify dfyconfig.toml` checks everything.

## What is modelled

**Live data.** `SseFraming` is the record splitter and the frame decoder of the
event stream; the framing of a text does not depend on how the transport cut it
exactly when the text holds no CR CR LF. `SseDelivery` adds the server's printer
and proves that every frame it writes arrives. `Invalidation` is the burst
coalescer: a fold over the calls of `invalidate`, what a view needs to be told,
and which events may be lost by de-duplication (a second burned item of the same
list is one). `EventObserver` is the object around both, with its timers, its
connection and its disposal as steps, and `EventDelivery` says, from the frames
the server prints to the fields of a view, which views they refresh.
`CardObserver` is the second stream client, which keeps a bounded list of cards
and delivers it on a timer. `DataClient` is the conditional-request cache: the
imperative client on one side, and on the other a transition system of
overlapping requests against a changing server, under the rules of RFC 9110
(strong validators, section 8.8.1; 304 only on a match, sections 13.1.2 and
15.4.5).

**Admission.** `JsonBudget` is the explicit-stack walk over a heap that may hold
aliases and cycles. The reference is an independent one: the tree the items and
properties of a value unfold to, with its size, height, strings and total text as
recursive functions of the tree.

**PNG.** `Crc` proves the 256-entry table equal to the bit-serial division of
section 5.5 of the PNG specification, `PngFilter` proves the decoder's unfilter
and the filters of sections 9.2 to 9.4 inverse to each other, and `Png` proves
that the chunk loop recovers written chunks and that decoding undoes the
encoder. `PngDecoding` says what the decoder makes of any file, for every color
type. Deflate and inflate are functions about which only the inversion of the
data at hand is assumed.

**Terminal runtime.** `ItemKeys` is the numbering of rows that declare the same
key, with the exact sets of names that can be told apart, and the selection that
walks around a page. `TerminalRows` is search, filter, sort and paging.
`TerminalIr` reads the compiled description and the payload and selects the page
of a collection; `TerminalPages` says which rows those pages show in terms of the
controls and the payload alone. `TerminalState` is the reducer, and
`TerminalRuns` is what every run of it keeps. `TerminalControls` and
`TerminalActions` say what controls offer and hold, and what each action does.
`TerminalRefresh` says what accepting a payload keeps and what accepting it again
changes, `TerminalSelection` how the selection moves, and `TerminalPaging` which
actions keep the stored page indexes in step with the pages shown.

**Loop graph.** `LoopGraph` covers the success path and the fan-out layout:
breadth-first distances, the join, the branch paths and the tail.
`FanoutPlacement` is where that layout puts its boxes. `Serpentine` covers the
placement of boxes, of serial nodes and of feedback rails, and `Canvas` is the
bit-mask line canvas.

**Series.** `Series` is the width reduction of chart points: buckets, candidates
and the trimming loop.

Where the source changes state in a loop or in an object, the model does the
same, and each such method is proved equal to a function on which the properties
are stated. `Json`, `Text`, `Bits`, `Arithmetic` and `Wrappers` are shared
vocabulary.

## Where code and wishes differ

- Framing depends on the cut when the text holds CR CR LF
  (`SseFraming.FramingIsIndependentOfChunking` is an equivalence).
- De-duplication ignores the subject and merges an absent with a null repository
  (`Invalidation.RobustIsExact`, `Invalidation.SecondBurnedItemIsLost`).
- Pending resets are not capped (`Invalidation.ResetsExceedTheCap`): the list
  outgrows 32 entries exactly when it is full and takes in a reset that nothing
  pending covers and that covers nothing pending
  (`Invalidation.PushOutgrowsCapExactly`, `Invalidation.CapHoldsExactly`).
- `isJsonValue` accepts shared objects that the budget walk refuses
  (`JsonBudget.SharedObjectTellsThemApart`).
- Chunk checksums are written but not checked on reading, and bytes after IEND
  are ignored (`Png.LoopIgnoresChecksums`, `Png.DecodingIgnoresChecksums`); an
  image is read back only inside the reader's limits (`Png.RoundTrip` is an
  equivalence).
- Trimming a series drops a chosen failure or extremum exactly when more entries
  must survive, the two ends of the selection among them, than there are places
  (`Series.AllWorstSurviveExactly`); which ones it drops is settled entry by
  entry (`Series.TrimIsExact`), and `Series.FallbackDropsAFailure` is a series
  that loses its only failure.
- Item keys collide for names that look like another name's repeat or like a
  later row (`ItemKeys.KeysAreDistinctExactly`), and for scalars that occur twice
  on a page (`TerminalIr.PageKeysAreDistinct`). With equal keys, forward moves
  still get from every key to every other exactly when every repeat starts over
  from the first key (`ItemKeys.ForwardReachesAllExactly`).
- A selection move is not undone by the opposite move at the start of a run or
  after a page turn, when nothing on the page is selected
  (`TerminalSelection.SelectionMovesBack` is an equivalence).
- The success path prefers the outcome that the list of preferred outcomes names
  first, the tail of a fan-out the one it names last
  (`LoopGraph.TailTurnsTheListAround`).
- In the ASCII layout the box of the next row is not below the last box when the
  new row runs backwards and is not full
  (`Serpentine.ConsecutiveBoxesMeetExactly`).
- A sort does nothing, not even drop rows, when no record passes
  (`TerminalRows.RowsAreExact`).
- A stored page index can leave the range of its pages between payloads: by going
  on from the last page, and by most paging, searching and filtering where a
  server holds a later page (`TerminalPaging.SettledExactly` gives the condition
  for every action). `TerminalPaging.NextLeavesTheOnlyPage` is such a state.
- The runtime can start on a page index the collection does not have, until the
  first payload is accepted (`TerminalRuns.InitIsSettledExactly`).
- Accepting the same payload twice can still switch a toggle off, and with it
  change pages (`TerminalRefresh.RefreshIsIdempotentExactly`,
  `TerminalRefresh.SecondPayloadSwitchesOff`).
- The card client stays disconnected after an abort that is not its own
  (`CardObserver.CardObserver.Failed`).

## Model

| member | source | states |
|---|---|---|
| SseFraming.DecodeRecord | tui/src/event-stream.ts:54-64 | the line loop of one record computes the frame function: last `event:` and `id:`, all `data:` lines joined, nothing for over-limit or data-less records |
| SseFraming.FrameIsExact | tui/src/event-stream.ts:54-64 | a record is a frame exactly when it is within the limit and has a data line; event and id are those of the last lines that carry them, "message" and none without one, and the data, line by line, is that of all data lines in order |
| Text.TrimStartIsExact | tui/src/event-stream.ts:58-60 | exactly the white space in front of a field value is removed, as ECMA-262 lists it |
| SseFraming.ParseSseFrames | tui/src/event-stream.ts:47-66 | the frames are those of the records of the normalised text, in order, and the remainder is the unfinished record |
| SseFraming.SplitIsExact | tui/src/event-stream.ts:52-53 | records and remainder join back to the text and none of them holds a blank line |
| SseFraming.SplitResumes | tui/src/event-stream.ts:121-135 | splitting a longer text is splitting its start and resuming from the remainder |
| SseFraming.NormalizeResumes | tui/src/event-stream.ts:51 | normalising twice does no harm when no CR CR LF occurs |
| SseFraming.FeedDiffers | tui/src/event-stream.ts:121-135 | cutting after CR CR LF always gives another framing than the whole text |
| SseFraming.FramingIsIndependentOfChunking | tui/src/event-stream.ts:47-66 | all ways to cut a text give the framing of the whole text if and only if it holds no CR CR LF |
| SseDelivery.FrameOfBody | src/events/oven-event-feed.mjs:123-125 | decoding the record the server prints for a frame gives the frame back |
| SseDelivery.EveryFrameIsDelivered | src/events/oven-event-feed.mjs:123-125 | any list of printed frames, cut in any way, is read back as exactly that list with nothing left over |
| Invalidation.PushKeepsInvariant | tui/src/event-stream.ts:81-95 | one `invalidate` keeps the pending-list invariant |
| Invalidation.PendingInvariantHolds | tui/src/event-stream.ts:78-95 | at every step a global entry stands alone, ordinary entries have distinct keys, none is covered by a pending reset, there are at most 32 of them, and no reset is covered by an earlier one |
| Invalidation.TwinSafeIsExact | tui/src/event-stream.ts:89 | a pending event with the same key covers a dropped one in every view if and only if it is no narrower in repository and subject, or the event names no oven at all |
| Invalidation.BarCovers | tui/src/event-stream.ts:79-87 | a global entry or a covering reset refreshes every view the absorbed event would |
| Invalidation.BurstCovers | tui/src/event-stream.ts:81-104 | every event whose earlier twins are safe is covered by some flushed entry, through absorption, de-duplication and overflow |
| Invalidation.UnsafeTwinLoses | tui/src/event-stream.ts:89 | an unsafe twin loses the event: no flushed entry covers it |
| Invalidation.RobustIsExact | tui/src/event-stream.ts:14-23 | an event is covered in every burst if and only if it is a reset, global, a definition change, has a null oven, or names its repository and is oven-wide or subject-less |
| Invalidation.SecondBurnedItemIsLost | tui/src/event-stream.ts:36-39 | two burned items of one list flush as the first, which does not refresh the view of the second |
| Invalidation.PushOutgrowsCapExactly | tui/src/event-stream.ts:84-95 | one call makes the list longer and longer than 32 if and only if it is a reset that no entry covers, that covers no entry, and that finds the list full |
| Invalidation.CapHoldsExactly | tui/src/event-stream.ts:84-95 | the list stays within 32 all through a burst if and only if no call of it is such a reset |
| Invalidation.CapHoldsWithoutResets | tui/src/event-stream.ts:92-94 | a burst without scoped resets never exceeds 32 |
| Invalidation.ResetsExceedTheCap | tui/src/event-stream.ts:84-85 | bursts that break the cap: any number of unrelated resets stays pending |
| EventObserver.FrameInputs | tui/src/event-stream.ts:135-155 | an `oven-event` frame causes exactly the accepted event it decodes to, an `oven-reset` frame one invalidation exactly when it decodes, any other frame none |
| EventObserver.PendingIsIndependentOfChunking | tui/src/event-stream.ts:122-155 | two ways to cut the same stream leave the same pending list, as long as no buffer overflows |
| EventObserver.FlushSpeaks | tui/src/event-stream.ts:97-102 | what a flush hands over refreshes every view that a robust event of the burst would |
| EventObserver.DashboardObserver.constructor | tui/src/event-stream.ts:68-78 | the observer starts connecting, with nothing pending or delivered |
| EventObserver.DashboardObserver.Invalidate | tui/src/event-stream.ts:81-104 | the pending list stays the fold of the burst, and the flush timer is armed |
| EventObserver.DashboardObserver.CoalesceFires | tui/src/event-stream.ts:97-102 | exactly the pending entries are delivered, in order, and they speak for the burst |
| EventObserver.DashboardObserver.Dispatch | tui/src/event-stream.ts:135-155 | the burst grows by the invalidations of the frames, in order |
| EventObserver.DashboardObserver.Receive | tui/src/event-stream.ts:122-155 | one read carries on the right remainder and adds the right invalidations, an overflow adds a global one |
| EventObserver.DashboardObserver.ConnectionLost | tui/src/event-stream.ts:157-167 | a lost connection schedules a retry unless stopped, and drops the unfinished record |
| EventObserver.DashboardObserver.RetryFires | tui/src/event-stream.ts:161 | the retry timer reconnects |
| EventObserver.DashboardObserver.Dispose | tui/src/event-stream.ts:171-177 | disposal clears both timers and what is pending, and delivers nothing |
| EventDelivery.EventArrives | tui/src/event-stream.ts:122-151 | an accepted event the server writes anywhere in the stream reaches the burst, however the stream is cut; if no twin can hide it, the next flush refreshes every view of its oven, repository and subject |
| EventDelivery.ResetArrives | tui/src/event-stream.ts:136-145 | a reset the server writes refreshes every view of the oven and the repository it names, and every view when it names neither |
| EventDelivery.NothingWithoutACause | tui/src/event-stream.ts:135-155 | of at most 32 frames only those about a view refresh it: other frame names, refused data, unaccepted events and other ovens, repositories or subjects cause nothing |
| EventDelivery.RefreshedExactly | tui/src/event-stream.ts:78-151 | from the printed frames to the fields of a view: when no event can be hidden by a twin, a view is refreshed if and only if one of the frames is about it |
| EventDelivery.OneFrameRefreshesExactly | tui/src/event-stream.ts:78-151 | the same for a single frame, whatever its event |
| EventDelivery.OverflowRefreshesEverything | tui/src/event-stream.ts:124-131 | once the unfinished record outgrows the buffer every view is refreshed |
| EventDelivery.ShortStreamsFit | tui/src/event-stream.ts:123-133 | a stream of at most 131072 bytes never outgrows the buffer, however it is cut |
| CardObserver.BoundFileIsFaithful | tui/src/oven-runtime/streaming-diff-stream.ts:16-24 | a file is kept as it is unless its diff exceeds 32768 bytes; then it is the same record without the diff, marked as truncated, with the byte count and the reason added to what its meta held |
| CardObserver.BoundIsExact | tui/src/oven-runtime/streaming-diff-stream.ts:12-27 | the newest 200 cards in order, exactly the over-limit diffs withheld and no other property changed; bounded lists are the fixed points, and bounding twice is bounding once |
| CardObserver.HeaderOnlyMovesCursor | tui/src/oven-runtime/streaming-diff-stream.ts:66-68 | overruling the cursor never changes the cards or errors of a run |
| CardObserver.ReadAllIsFeed | tui/src/oven-runtime/streaming-diff-stream.ts:53-69 | reading pieces is processing, in one go, the frames of everything read |
| CardObserver.CardsAreIndependentOfChunking | tui/src/oven-runtime/streaming-diff-stream.ts:53-69 | cards, cursor and errors do not depend on how the transport cut the stream |
| CardObserver.CardsStayBounded | tui/src/oven-runtime/streaming-diff-stream.ts:62-67 | cards stay bounded through any frames, and any change of them marks them dirty |
| CardObserver.LastFrameDecides | tui/src/oven-runtime/streaming-diff-stream.ts:53-69 | end to end from the printed frames: a reset or an over-limit card leaves no cards, a refused card leaves them as they were, an accepted one leaves the bounded result and moves the cursor, and errors are counted accordingly |
| CardObserver.CardObserver.constructor | tui/src/oven-runtime/streaming-diff-stream.ts:30-32 | the observer starts connecting with the bounded cards it was given |
| CardObserver.CardObserver.FlushCards | tui/src/oven-runtime/streaming-diff-stream.ts:33-37 | dirty cards are delivered once, and then the reader has the current list |
| CardObserver.CardObserver.CoalesceFires | tui/src/oven-runtime/streaming-diff-stream.ts:41-42 | the timer delivers the current cards |
| CardObserver.CardObserver.Take | tui/src/oven-runtime/streaming-diff-stream.ts:62-67 | one frame changes cards, cursor, dirt and errors as its kind demands, and arms the timer exactly when cards are dirty |
| CardObserver.CardObserver.Consume | tui/src/oven-runtime/streaming-diff-stream.ts:62-67 | the frame loop is the fold over the frames |
| CardObserver.CardObserver.Receive | tui/src/oven-runtime/streaming-diff-stream.ts:54-68 | one read is the read function, overflow included; after disposal it only ends the connection |
| CardObserver.CardObserver.Closed | tui/src/oven-runtime/streaming-diff-stream.ts:70-81 | a closed stream shows what changed before it schedules the reconnect |
| CardObserver.CardObserver.Failed | tui/src/oven-runtime/streaming-diff-stream.ts:74-81 | a failure schedules a retry unless stopped or aborted; an abort that is not disposal leaves neither connection nor retry |
| CardObserver.CardObserver.RetryFires | tui/src/oven-runtime/streaming-diff-stream.ts:77 | the retry timer reconnects |
| CardObserver.CardObserver.Dispose | tui/src/oven-runtime/streaming-diff-stream.ts:84 | disposal disarms everything and nothing is delivered after it |
| DataClient.JsonClient.CloneJson | tui/src/data-client.ts:22 | the copy is a new object of the same value |
| DataClient.JsonClient.Begin | tui/src/data-client.ts:29-33 | the request carries the validator the cache holds now |
| DataClient.JsonClient.Store | tui/src/data-client.ts:50 | the cache gains a private copy under the path, and nothing else changes |
| DataClient.JsonClient.Finish | tui/src/data-client.ts:34-51 | the completion does to the cache and returns exactly what the value-level function says, and the result shares no object with the cache |
| DataClient.CompleteIsExact | tui/src/data-client.ts:34-51 | a request succeeds exactly on a JSON success or on a 304 for a cached value; the cache changes at the path alone, by a success with a validator or by a 404 or 410 |
| DataClient.CompleteIsFaithful | tui/src/data-client.ts:34-51 | completing an honestly answered request gives what the server held then, and caches only pairs it sent |
| DataClient.StepKeepsConsistent | tui/src/data-client.ts:28-52 | every step of client or server keeps the world consistent |
| DataClient.EveryRunIsFaithful | tui/src/data-client.ts:28-52 | over every interleaving each success is the representation held when the server answered, each cache entry is a pair once sent together, and 304 never precedes a snapshot |
| DataClient.SecondRequestIsUnchanged | tui/src/data-client.ts:28-52 | in every consistent world a request gets and caches what the server holds, and the next one gets the same value by a 304 without a body |
| Text.Utf8SizeIsShortest | tui/src/oven-runtime/resource-budget.ts:7 | a character is counted with the least number of bytes that has room for it, one to four |
| JsonBudget.StackItems | tui/src/oven-runtime/resource-budget.ts:47-51 | each item of an array is stacked one level deeper, the last one lowest, on top of what was pending |
| JsonBudget.StackProperties | tui/src/oven-runtime/resource-budget.ts:53-61 | an error names the first key that breaks its limit and the limit; otherwise the text of all keys is added and the value of each property is stacked one level deeper, the last one highest |
| JsonBudget.InspectJsonBudget | tui/src/oven-runtime/resource-budget.ts:16-65 | the loop terminates on every finite heap, cycles included, and returns what the walk does, which the rows below characterise on the items and properties of the heap |
| JsonBudget.AdmissionIsExact | tui/src/oven-runtime/resource-budget.ts:16-65 | the walk admits a value if and only if its items and properties unfold to a tree of plain objects reached once each that keeps all limits, and a reported issue is never one the tree keeps |
| JsonBudget.PartsAreAdmitted | tui/src/oven-runtime/resource-budget.ts:47-61 | every item and every property value of an admitted object is itself admitted, with one node and one level less |
| JsonBudget.IsJsonValue | tui/src/oven-runtime/terminal-contract.ts:43 | the recursive check with its shared `seen` set computes its function and leaves the set as it was |
| JsonBudget.IsJsonIsExact | tui/src/oven-runtime/terminal-contract.ts:43 | the check accepts exactly the values that unfold to a tree of plain objects |
| JsonBudget.JsonByParts | tui/src/oven-runtime/terminal-contract.ts:43 | an object is accepted if and only if it is plain and each of its items or property values is accepted |
| JsonBudget.UnfoldingIsUnique | tui/src/oven-runtime/terminal-contract.ts:43 | a value unfolds to at most one tree |
| JsonBudget.AdmittedIsJson | tui/src/oven-runtime/terminal-contract.ts:43 | what the budget walk admits, the recursive check accepts |
| JsonBudget.SharedObjectTellsThemApart | tui/src/oven-runtime/resource-budget.ts:34 | an object reached twice is refused by the walk and accepted by the check, whatever the budget |
| Crc.CrcTable | tui/src/native-image-thumbnail.ts:10-14 | entry i is i after eight division steps |
| Crc.Crc32 | tui/src/native-image-thumbnail.ts:16-20 | the table-driven loop equals the bit-serial division with initial value and final complement of all ones |
| Crc.PolynomialOfTheSpecification | tui/src/native-image-thumbnail.ts:12 | the constant has exactly the bits of the polynomial of section 5.5, the highest power in the lowest bit |
| Crc.ByteStep | tui/src/native-image-thumbnail.ts:18 | one table lookup equals feeding eight message bits |
| Crc.ShiftIsLinear | tui/src/native-image-thumbnail.ts:12 | a division step distributes over exclusive or |
| Crc.CrcFitsInFourBytes | tui/src/native-image-thumbnail.ts:19 | the result is below 2^32 |
| PngFilter.PaethIsNearest | tui/src/png-glyph.ts:16-22 | the predictor is a neighbour nearest to the estimate, ties going to left, then above |
| PngFilter.UnfilterRow | tui/src/png-glyph.ts:30-43 | one row of the in-place loop extends the unfiltered image by that row |
| PngFilter.UnfilterImage | tui/src/png-glyph.ts:24-46 | the loops compute the unfilter function, its two errors included; which image that is, the next row says |
| PngFilter.UnfilterIsExact | tui/src/png-glyph.ts:24-46 | scanlines are accepted with an image if and only if the sizes match and every byte of the image less the neighbour its row filter names (none, left, above, their mean, the nearest to left + above - upper left) is the byte of the scanlines modulo 256, neighbours outside the image counting as 0 |
| PngFilter.UnfilterInvertsFiltering | tui/src/png-glyph.ts:24-46 | unfiltering what sections 9.2 to 9.4 produce gives the image back, for every choice of filters, channels and size |
| PngFilter.FilteringInvertsUnfilter | tui/src/png-glyph.ts:24-46 | filtering an unfiltered image with the filters it came with gives the scanlines back |
| Png.ReadWhatWasWritten | tui/src/png-glyph.ts:12-14 | the four-byte reader undoes the four-byte writer |
| Png.WriteChunk | tui/src/native-image-thumbnail.ts:22-29 | the buffer holds length, name, data and checksum |
| Png.ChunkReadsBack | tui/src/png-glyph.ts:95-101 | reading at a chunk with any checksum gives the chunk and the bytes after it |
| Png.WriteReadsBack | tui/src/png-glyph.ts:95-101 | reading at a written chunk gives the chunk and the bytes after it |
| Png.LoopStep | tui/src/png-glyph.ts:94-119 | one turn of the loop takes the chunk whatever four bytes stand for its checksum |
| Png.LoopIgnoresChecksums | tui/src/png-glyph.ts:94-120 | the loop does what folding the chunks does, up to the only IEND and at most 128 of them, whatever checksums they carry and whatever follows |
| Png.LoopRecoversChunks | tui/src/png-glyph.ts:94-120 | in particular it recovers the chunks the writer wrote |
| Png.LoopDependsOnChunks | tui/src/png-glyph.ts:94-120 | for any number of chunks, checksums and trailing bytes make no difference to the loop |
| Png.DecodingIgnoresChecksums | tui/src/png-glyph.ts:72-128 | two files of the same chunks within the size limit decode alike, whatever their checksums and trailing bytes |
| Png.ExpansionIsBounded | tui/src/png-glyph.ts:111-124 | an accepted header never asks for more than the RGBA limit and one byte per row |
| Png.FillScanlines | tui/src/native-image-thumbnail.ts:37-40 | the row copies produce the scanlines with filter 0 |
| Png.EncodePng | tui/src/native-image-thumbnail.ts:31-47 | the writer produces signature, header, one data chunk and the end |
| Png.FillPixels | tui/src/png-glyph.ts:48-70 | the pixel loop computes the RGBA expansion, or the palette error |
| Png.PixelsAreExact | tui/src/png-glyph.ts:48-70 | for every color type: expanding fails exactly when a palette entry is missing, and each pixel has the red, green, blue and alpha its type says |
| Png.ExpandImage | tui/src/png-glyph.ts:127 | unfiltering and expanding computes the image function |
| Png.DecodePng | tui/src/png-glyph.ts:72-128 | the reader's loop and checks compute the decoding function, error for error |
| Png.RoundTrip | tui/src/native-image-thumbnail.ts:31-47 | decoding an encoded image gives it back if and only if it is within the reader's dimension, area and size limits |
| PngDecoding.DecodesExactly | tui/src/png-glyph.ts:72-128 | the whole decoder for every color type: a file within the size and chunk limits decodes to an image if and only if the header fits, there is data, the joined data inflates to scanlines that unfilter, and the pixels show them with the last palette and transparency table |
| ItemKeys.DigitsAreInjective | tui/src/oven-runtime/ir-descriptor.ts:22 | numerals of different numbers differ |
| ItemKeys.Identities | tui/src/oven-runtime/collection-runtime.ts:15 | the single counting pass gives each row its key |
| ItemKeys.UnsafeNamesClash | tui/src/oven-runtime/ir-descriptor.ts:19-23 | every unsafe set of names has a list of rows with two equal keys |
| ItemKeys.KeysAreDistinctExactly | tui/src/oven-runtime/ir-descriptor.ts:19-23 | a set of declared names keeps the keys of every list of rows apart if and only if no name is another's numbered repeat or a later row's key |
| ItemKeys.PlainNamesAreSafe | tui/src/oven-runtime/ir-descriptor.ts:19-23 | names without `#` that do not start with `@row:` are safe |
| ItemKeys.SelectionCycles | tui/src/oven-runtime/state-runtime.ts:51-54 | on distinct keys, wherever the selection is: n moves visit all n keys and end on the key the selection counted as, and a move is undone by its opposite if and only if the selection was on the page |
| ItemKeys.ForwardReachesAllExactly | tui/src/oven-runtime/state-runtime.ts:53-54 | on any keys, forward moves lead from every key to every other if and only if all keys occur before the first repeat and that repeats the first key |
| ItemKeys.EqualKeysStick | tui/src/oven-runtime/state-runtime.ts:53-54 | an instance: two equal keys at the start of a page hold the selection on its way forward |
| TerminalRows.AttachTransitionTelemetry | tui/src/oven-runtime/collection-runtime.ts:31-36 | each row with an id gets the last side-table record of that id, all other rows stay |
| TerminalRows.RowsAreExact | tui/src/oven-runtime/collection-runtime.ts:38-48 | unsorted: exactly the rows that pass, in order; with the sort in effect: exactly the passing records with changes, ordered by changes, improvement, position |
| TerminalRows.OrderDeterminesRows | tui/src/oven-runtime/collection-runtime.ts:22-28 | members and order determine the list of rows |
| TerminalRows.RowsAreDistinct | tui/src/oven-runtime/collection-runtime.ts:38-48 | no row is shown twice |
| TerminalRows.PageCountIsExact | tui/src/oven-runtime/collection-runtime.ts:13 | the page count is the least that holds all rows |
| TerminalRows.NextPage | tui/src/oven-runtime/collection-runtime.ts:60-61 | a page continues where the pages before it end |
| TerminalRows.PagesTile | tui/src/oven-runtime/collection-runtime.ts:13-14 | the pages joined are the rows, all but the last are full, and an index out of range reads the first or the last |
| TerminalIr.Select | tui/src/oven-runtime/collection-runtime.ts:51-62 | the page index is below the page count and every row of the page has one key |
| TerminalPages.DescribedByNode | tui/src/oven-runtime/ir-descriptor.ts:4-11 | a described collection is declared, and its controls are those that the attributes of a collection node of the tree with its id name |
| TerminalPages.ItemsAreExact | tui/src/oven-runtime/collection-runtime.ts:31-36 | the items are those at the source of the collection; a record with an id gains the last transition record of that id and nothing else changes |
| TerminalPages.VisibleRowsAreExact | tui/src/oven-runtime/collection-runtime.ts:38-59 | by the controls that `searchFrom`, `filterFrom` and `sortFrom` of the node name: shown are exactly the rows that hold the typed text in a declared match field, did not pass while the filter is on, and changed while the sort applies, in the order of the sort or of the payload |
| TerminalPages.SelectIsExact | tui/src/oven-runtime/collection-runtime.ts:51-62 | of a client-paged collection, a row is on some page if and only if it is one of these, the total is their number, and every page keeps their order |
| TerminalPages.ClientPageIsSlice | tui/src/oven-runtime/collection-runtime.ts:60-61 | the client shows the stretch of these rows that the stored index names, or that of the nearest page there is, and as many pages as it takes |
| TerminalPages.ServerPageIsShown | tui/src/oven-runtime/collection-runtime.ts:57 | a page the server sent is shown with all its items in order and the numbers of the server |
| TerminalPages.PageKeysAreExact | tui/src/oven-runtime/collection-runtime.ts:55-61 | each row of a page has its own key, a scalar the key of the last equal one |
| TerminalPages.RowKeysAreExact | tui/src/oven-runtime/ir-descriptor.ts:19-24 | a row is keyed by the text or number its key pointer finds, with "#" and a count where that repeats, and by "@row:" and its number when there is none |
| TerminalPages.SearchedRowsShowTheText | tui/src/oven-runtime/collection-runtime.ts:38-42 | while a text that is not blank is typed, every row on the page has a declared match field that holds it, in lower case |
| TerminalPages.FilteredRowsFail | tui/src/oven-runtime/collection-runtime.ts:18-21 | while the filter is on, every row on the page has failed or missing samples, and the contract and the key are those of differential testing |
| TerminalPages.NothingAskedShowsAll | tui/src/oven-runtime/collection-runtime.ts:51-62 | with nothing typed and no toggle on, the total is the number of items |
| TerminalIr.KeysOfDistinctRows | tui/src/oven-runtime/collection-runtime.ts:55-61 | where rows have keys of their own, the keys looked up for a page differ if and only if no scalar occurs on it twice |
| TerminalIr.PageKeysAreDistinct | tui/src/oven-runtime/collection-runtime.ts:51-62 | for safe names the keys of any page, client or server, differ if and only if no scalar occurs on it twice |
| TerminalIr.EqualScalarsShareKeys | tui/src/oven-runtime/collection-runtime.ts:55 | equal scalar rows share one key |
| TerminalState.InitTerminalRuntime | tui/src/oven-runtime/state-runtime.ts:19-29 | the two loops build the initial state |
| TerminalState.NormalizeRefresh | tui/src/oven-runtime/state-runtime.ts:32-42 | the two loops bring every control and collection in line with the payload |
| TerminalState.ResetConsumers | tui/src/oven-runtime/state-runtime.ts:31 | the loop sends the consumers of a control to page 0 |
| TerminalState.DescriptorsCover | tui/src/oven-runtime/ir-descriptor.ts:12 | a record filled descriptor by descriptor has exactly the described collections as keys |
| TerminalControls.OfferIsExact | tui/src/oven-runtime/state-runtime.ts:9-14 | what a choice offers: the ids of the list of domains its `source` points to, or the options of the topmost mode toggles of its id |
| TerminalControls.InitialValues | tui/src/oven-runtime/state-runtime.ts:19-27 | a search starts empty; a choice with what is asked for where it is offered, else with an offered value, of domains the first, else ""; a toggle is on exactly when it is to start on and its requirement is met or there is no payload |
| TerminalControls.RefreshedValues | tui/src/oven-runtime/state-runtime.ts:32-39 | after a payload a choice keeps what is still offered, a toggle stays on exactly while its requirement is met or a server that sent a page applies it, and every other value stays |
| TerminalControls.InitialPages | tui/src/oven-runtime/state-runtime.ts:27 | a collection starts with the page the server sent, or on page 0 with its declared size of at least 1, 25 when none is declared |
| TerminalControls.RefreshedPages | tui/src/oven-runtime/state-runtime.ts:40 | after a payload a collection has the page now sent, else none; then it keeps its size, and its index never grows |
| TerminalControls.ServerPageIsExact | tui/src/oven-runtime/ir-descriptor.ts:13-18 | the payload sends a page exactly when all four numbers are there, whole, safe and in range |
| TerminalRuns.InitIsValid | tui/src/oven-runtime/state-runtime.ts:19-29 | the initial state satisfies the invariant |
| TerminalRuns.InitIsSettledExactly | tui/src/oven-runtime/state-runtime.ts:27 | the initial page indexes are those shown if and only if no sent page number reaches its page count |
| TerminalRuns.RefreshKeepsControls | tui/src/oven-runtime/state-runtime.ts:35-39 | after a refresh every choice is one the new payload or the description offers |
| TerminalRuns.RefreshSettles | tui/src/oven-runtime/state-runtime.ts:40 | after a refresh every stored page index is the one shown, below the page count of the new state |
| TerminalRefresh.RefreshKeepsWhatItCan | tui/src/oven-runtime/state-runtime.ts:32-39 | a choice survives a refresh while it is offered, else the wanted or the first one replaces it; a toggle survives unless it is on without being available or server-paged; a search survives |
| TerminalRefresh.SecondRefreshOfCollection | tui/src/oven-runtime/state-runtime.ts:40 | refreshing a refreshed collection entry under the same payload changes nothing |
| TerminalRefresh.RefreshIsIdempotentExactly | tui/src/oven-runtime/state-runtime.ts:32-42 | accepting the same payload twice changes only the revision if and only if no toggle is on that the payload does not make available, that a stored page of the server protects, and that no page the payload brings does |
| TerminalRefresh.SecondPayloadSwitchesOff | tui/src/oven-runtime/state-runtime.ts:38 | a state and a payload whose second acceptance switches a filter off |
| TerminalRuns.ResetKeepsFit | tui/src/oven-runtime/state-runtime.ts:31 | exactly the consumers of the control go to page 0, all else in every entry stays |
| TerminalRuns.ToggleFlipsOne | tui/src/oven-runtime/state-runtime.ts:47 | toggling turns over one key's membership and keeps the keys distinct |
| TerminalRuns.OnlyPayloadsCount | tui/src/oven-runtime/state-runtime.ts:41-44 | the revision and the payload change exactly when a payload is accepted |
| TerminalActions.ChoiceIsExact | tui/src/oven-runtime/state-runtime.ts:65-70 | a choice, search or toggle is taken exactly when the first control of its id is of the kind and offers the value; then the control holds it, the collections that name a search or toggle go to page 0, and nothing else changes |
| TerminalActions.PagingIsExact | tui/src/oven-runtime/state-runtime.ts:63 | going on adds one to the stored index, going back takes one away down to 0, a safe positive size is stored with page 0; no other entry changes |
| TerminalActions.FocusIsExact | tui/src/oven-runtime/state-runtime.ts:45-46 | the focus moves to the neighbouring place of the list and stops at both ends; it is set only to what the list holds |
| TerminalActions.SelectionIsExact | tui/src/oven-runtime/state-runtime.ts:48-55 | the selection goes to the next key of the page or the one before, around the page, from the first key when nothing on the page is selected; nothing else changes |
| TerminalActions.PayloadMovesFocus | tui/src/oven-runtime/state-runtime.ts:44 | after a payload the focus stays where it is still on offer and goes to the first place otherwise |
| TerminalRuns.FocusIsOnOffer | tui/src/oven-runtime/state-runtime.ts:44-45 | after a refresh or a focus move the focus is a focusable id, or none when there is none |
| TerminalRuns.ReduceKeepsValid | tui/src/oven-runtime/state-runtime.ts:43-71 | every action keeps the invariant, and an accepted payload settles every page |
| TerminalRuns.EveryRunIsValid | tui/src/oven-runtime/state-runtime.ts:19-71 | in every run: controls hold an offered value or "", exactly the described collections exist, page indexes are not negative, no key is expanded twice, the revision counts the accepted payloads, and right after one every page index is in range |
| TerminalSelection.SelectionMovesBack | tui/src/oven-runtime/state-runtime.ts:48-55 | for rows that can be told apart, moving the selection either way and back restores the whole state if and only if the page has no keys or one of them was selected |
| TerminalSelection.SelectionVisitsPage | tui/src/oven-runtime/state-runtime.ts:48-55 | from any state, as many moves as the page has keys select each of them and end on the key the selection counted as; nothing else changes |
| TerminalPaging.NextOnPage | tui/src/oven-runtime/state-runtime.ts:63 | going on keeps a collection on the page it shows if and only if the client pages and there is a next page |
| TerminalPaging.PreviousOnPage | tui/src/oven-runtime/state-runtime.ts:63 | going back from a later page does so if and only if the client pages |
| TerminalPaging.FirstOnPage | tui/src/oven-runtime/state-runtime.ts:63 | page 0, under any size and controls, is the page shown if and only if no server holds a later page |
| TerminalPaging.ControlChangeSettles | tui/src/oven-runtime/state-runtime.ts:67-69 | a search or toggle keeps every index in step if and only if no server holds a later page of a collection that consumes it |
| TerminalPaging.SettledExactly | tui/src/oven-runtime/state-runtime.ts:43-71 | from a state whose stored page indexes are those shown, an action leads to such a state if and only if its condition holds, for every action |
| TerminalPaging.NextLeavesTheOnlyPage | tui/src/oven-runtime/state-runtime.ts:63 | a state where it does not: before there is a payload, going on stores an index beyond the only page |
| TerminalPaging.RunStaysSettled | tui/src/oven-runtime/state-runtime.ts:43-71 | along a run whose actions meet their conditions every stored index stays the one shown |
| TerminalPaging.PageMovesBack | tui/src/oven-runtime/state-runtime.ts:63 | going on and back restores the state; going back and on does so if and only if one was not on page 0 |
| LoopGraph.FirstBest | dashboard/src/components/LoopGraph/ascii-layout.ts:53-60 | the head of a stable sort: nothing ranks before it, and it ranks before everything in front of it |
| LoopGraph.HeadOfSortLeads | dashboard/src/components/LoopGraph/ascii-layout.ts:52-60 | filtering, sorting and taking the head gives the first best edge in the order of the graph |
| LoopGraph.PrimaryPath | dashboard/src/components/LoopGraph/loop-symbols.ts:28-49 | the loop ends with a simple path from the entry whose every step is the first best edge to an unseen node, and that cannot be extended; what best means, the next row says |
| LoopGraph.SuccessPathIsExact | dashboard/src/components/LoopGraph/loop-symbols.ts:33-43 | every step of the path leads along an edge whose outcome is listed and no listed outcome of another way on stands before it, or, where none is listed, whose outcome is least by collation; of equal ones the first in the graph |
| LoopGraph.ListedOutcomesFirst | dashboard/src/components/LoopGraph/loop-symbols.ts:3-43 | where a listed outcome leads on, the path takes an outcome listed no later |
| LoopGraph.Reachable | dashboard/src/components/LoopGraph/ascii-layout.ts:104-113 | the queue loop ends with exactly the nodes reachable without edges into the planner, each at its shortest distance |
| LoopGraph.DistancesAreUnique | dashboard/src/components/LoopGraph/ascii-layout.ts:104-113 | the distances are determined by the graph |
| LoopGraph.Join | dashboard/src/components/LoopGraph/ascii-layout.ts:115-119 | the join is in every map and minimises the sum of distances; there is none exactly when no node is in every map |
| LoopGraph.JoinIsReachedByAll | dashboard/src/components/LoopGraph/ascii-layout.ts:114-119 | the join is reachable from every branch with the least sum of distances; none exactly when no node is reachable from all |
| LoopGraph.JoinIsFirst | dashboard/src/components/LoopGraph/ascii-layout.ts:115-118 | of several nodes with the least sum the join is the first in the graph |
| LoopGraph.SumSplits | dashboard/src/components/LoopGraph/ascii-layout.ts:117 | every branch counts once in the sum of distances |
| LoopGraph.FindBranch | dashboard/src/components/LoopGraph/ascii-layout.ts:120-129 | the loop ends with a simple directed path of nearest steps whose next step is the join, or shows that the walk gets stuck or starts at the join |
| LoopGraph.NearestStepInWalks | dashboard/src/components/LoopGraph/ascii-layout.ts:123-124 | in terms of walks: no place the step could go to is nearer to the first branch than where it goes; places it cannot reach count as 999 edges away |
| LoopGraph.NearestStepIsFirst | dashboard/src/components/LoopGraph/ascii-layout.ts:123-124 | of several nearest edges the first in the graph is taken |
| LoopGraph.FindBranches | dashboard/src/components/LoopGraph/ascii-layout.ts:120-130 | one such path per branch, or some branch has none |
| LoopGraph.FindFanout | dashboard/src/components/LoopGraph/ascii-layout.ts:114-130 | join and branches as above, or the reason there is no fan-out |
| LoopGraph.BranchIsUnique | dashboard/src/components/LoopGraph/ascii-layout.ts:120-129 | a branch and a join have at most one such path |
| LoopGraph.FanoutIsDetermined | dashboard/src/components/LoopGraph/ascii-layout.ts:114-130 | a graph has at most one fan-out, and not both one and a reason against it |
| LoopGraph.NoRetryEdgeInFirstBranch | dashboard/src/components/LoopGraph/ascii-layout.ts:120-129 | no node of the first branch has an edge back to its start |
| LoopGraph.FindTail | dashboard/src/components/LoopGraph/ascii-layout.ts:131-137 | the tail is a simple path from the join, each step best by outcome, that cannot be extended |
| LoopGraph.TailPathIsExact | dashboard/src/components/LoopGraph/ascii-layout.ts:131-137 | every step of the tail leads along an edge whose outcome is latest in the list, unlisted ones last of all, of equal ones the first in the graph |
| LoopGraph.TailTurnsTheListAround | dashboard/src/components/LoopGraph/ascii-layout.ts:16-134 | of two ways out with listed outcomes the success path takes the earlier and the tail the later outcome |
| FanoutPlacement.PlaceFanout | dashboard/src/components/LoopGraph/ascii-layout.ts:138-151 | the placement loops give each node the position of the last box placed for it |
| FanoutPlacement.EveryNodeHasItsBox | dashboard/src/components/LoopGraph/ascii-layout.ts:138-151 | the planner is centred at the top, every branch runs downwards from row 8 in its column and the tail below the longest branch under the planner, five rows a box |
| FanoutPlacement.BranchesAreApart | dashboard/src/components/LoopGraph/ascii-layout.ts:144-145 | after rounding, any two branch columns are at least 8 apart |
| FanoutPlacement.BoxesAreClear | dashboard/src/components/LoopGraph/ascii-layout.ts:138-151 | planner, branch and tail boxes are pairwise 8 columns or 2 rows apart |
| FanoutPlacement.BoxesAreInside | dashboard/src/components/LoopGraph/ascii-layout.ts:138-151 | every box lies inside the canvas, two columns from either side |
| FanoutPlacement.NodesAreApart | dashboard/src/components/LoopGraph/ascii-layout.ts:142-151 | no two nodes meet and each lies inside the canvas, however often a path repeats another's nodes |
| Canvas.LineCanvas.constructor | dashboard/src/components/LoopGraph/ascii-layout.ts:67-73 | a canvas of blanks with no lines |
| Canvas.GlyphHasTheStrokes | dashboard/src/components/LoopGraph/ascii-layout.ts:69-72 | the character of a mask has exactly the strokes of the mask, a single stroke being drawn through the cell |
| Canvas.LineCanvas.Connect | dashboard/src/components/LoopGraph/ascii-layout.ts:79-83 | one cell in bounds gains the bits and shows their glyph, all others stay |
| Canvas.LineCanvas.Horizontal | dashboard/src/components/LoopGraph/ascii-layout.ts:85-89 | between any two columns, in either direction, exactly the cells of the line gain their strokes, cells elsewhere stay, and neighbours agree on the stroke between them |
| Canvas.LineCanvas.Vertical | dashboard/src/components/LoopGraph/compact-layout.ts:30-34 | the same for vertical lines |
| Canvas.LineCanvas.Put | dashboard/src/components/LoopGraph/ascii-layout.ts:74-78 | one cell is overwritten; all neighbours never overwritten still agree and show their glyph |
| Canvas.LineCanvas.Text | dashboard/src/components/LoopGraph/ascii-layout.ts:84 | the characters in bounds are written and only those cells count as overwritten |
| Serpentine.GeometryOf | dashboard/src/components/LoopGraph/ascii-layout.ts:214-229 | widths, counts and gaps stay in their bounds and a full row fits the columns |
| Serpentine.GeometryIsExact | dashboard/src/components/LoopGraph/ascii-layout.ts:214-229 | boxes are as wide as the labels ask for between 16 and 24, long paths get one box a row, others as many of three as fit with gaps of four, and the gap is as wide as the row allows |
| Serpentine.PlaceBoxes | dashboard/src/components/LoopGraph/ascii-layout.ts:230-236 | the loop places box i at its serpentine cell |
| Serpentine.BoxesInside | dashboard/src/components/LoopGraph/ascii-layout.ts:230-238 | every box lies inside the canvas |
| Serpentine.BoxesDisjoint | dashboard/src/components/LoopGraph/ascii-layout.ts:230-236 | boxes of one row are at least 4 apart, boxes of different rows do not meet |
| Serpentine.ConsecutiveBoxesMeetExactly | dashboard/src/components/LoopGraph/ascii-layout.ts:231-236 | the boxes of consecutive nodes are neighbours in the direction of their row, or one row apart and then below each other unless the new row runs backwards and is not full |
| Serpentine.ConsecutiveNodesMeet | dashboard/src/components/LoopGraph/serial-compact-layout.ts:100-104 | consecutive path nodes are next to each other in a row, or above each other at a row change |
| Serpentine.SerialCellsDistinct | dashboard/src/components/LoopGraph/serial-compact-layout.ts:100-104 | no two path nodes share a cell |
| Serpentine.RouteFeedback | dashboard/src/components/LoopGraph/serial-compact-layout.ts:132-138 | the offsets kept in the map give each edge its rail row |
| Serpentine.RailsBetweenRows | dashboard/src/components/LoopGraph/serial-compact-layout.ts:96-98 | every rail is inside the canvas and strictly between its node row and the next |
| Serpentine.RailsDistinct | dashboard/src/components/LoopGraph/serial-compact-layout.ts:132-138 | no two feedback edges share a rail row |
| Series.BucketIsNotEmpty | tui/src/terminal-series-chart-model.ts:34-35 | every bucket holds a point, so the lower bound on its end never matters |
| Series.BucketsTile | tui/src/terminal-series-chart-model.ts:33-35 | every point is in exactly one bucket |
| Series.FiniteIsExact | tui/src/terminal-series-chart-model.ts:29 | exactly the finite points stay, in their order |
| Series.FindCandidate | tui/src/terminal-series-chart-model.ts:36-39 | the reduction picks the first failure, or else the first point, of largest magnitude |
| Series.SelectCandidates | tui/src/terminal-series-chart-model.ts:32-41 | the loop selects the candidate of every bucket |
| Series.SelectedIsExact | tui/src/terminal-series-chart-model.ts:32-48 | selected are the choice of every bucket (failures before others, then larger magnitude, then the earlier point), the first minimum and the first maximum, and nothing else |
| Series.TrimTo | tui/src/terminal-series-chart-model.ts:49-55 | the trimming loop ends and computes the trim function |
| Series.TrimFacts | tui/src/terminal-series-chart-model.ts:49-55 | trimming keeps the order, invents nothing, and ends at the limit |
| Series.TrimIsExact | tui/src/terminal-series-chart-model.ts:49-55 | for every list and size, which entries survive: unprotected ones go first from the front, then protected ones after the first, from the front |
| Series.TrimKeepsProtectedExactly | tui/src/terminal-series-chart-model.ts:49-55 | failures, extrema and the two ends all survive trimming if and only if they fit |
| Series.WorstSurvivesExactly | tui/src/terminal-series-chart-model.ts:42-57 | a chosen failure or extremum, the first minimum and maximum among them, survives if and only if it is the first entry or its rank among the protected ones is high enough |
| Series.AllWorstSurviveExactly | tui/src/terminal-series-chart-model.ts:28-57 | the chosen failures and extrema all survive if and only if no more entries must survive than there are places |
| Series.BucketFailureSurvivesExactly | tui/src/terminal-series-chart-model.ts:33-57 | a bucket keeps a failure if and only if one of its chosen failures survives by that rule |
| Series.FallbackDropsAFailure | tui/src/terminal-series-chart-model.ts:54 | four points in two places: the only failure is chosen and lost |
| Series.BucketedIsSubsequence | tui/src/terminal-series-chart-model.ts:28-57 | the result is a subsequence of the finite points of at most the limit |
| Series.ExtremaSurvive | tui/src/terminal-series-chart-model.ts:42-57 | when what must be kept fits, the first minimum and the first maximum survive |
| Series.BucketFailureSurvives | tui/src/terminal-series-chart-model.ts:33-57 | when what must be kept fits, a bucket with a failure keeps one |
| Series.BucketTerminalSeries | tui/src/terminal-series-chart-model.ts:28-57 | the whole reduction computes its function |

## Left out

- React components, hooks other than the matching rule of `use-dashboard-refresh.ts`, OpenTUI rendering, catalog and frame generators: plumbing without invariants.
- Real fetch, readers, timers, TextDecoder, zlib, base64 and hashing: steps, parameters or functions here; texts arrive decoded, and the data-URI prefix and base64 wrapper of a PNG are not modelled.
- Callbacks that dispose an observer while it is still running one: steps are atomic here.
- `applyStreamingDiffCardMessage` and JSON parsing of events: uninterpreted functions; JSON pointers too, in the terminal runtime.
- Numbers are exact reals or unbounded integers; rounding, infinities as intermediate sums, and negative zero do not occur.
- `validateTerminalOvenIR`: unique control ids, and references to controls of the right kind, are assumed where a statement says so.
- Proxies, getters, prototypes and property descriptors in the admission walk: one flag per heap object says whether it is plain.
- The plain flag of a record is read before its keys: for a record that has both a long key and, after it, a property that is no plain data, the code reports the key and the model the property. Either way it is refused.
- `toLowerCase`, `trim` and the splitting of match fields: given functions; where no search control is named it is assumed that the blank text stays blank.
- Property order of records: `Json` records are maps; nothing modelled on them depends on it.
- TerminalIr.Select: rows are indices into the payload, so the map from row objects to keys is the index itself for lists and records and the last equal row for scalars.
- TerminalState.ResetConsumers: an entry that does not exist is not created; the invariant shows that it always exists.
- `mediaFrameMoved` reads a stored frame that is no numeral as frame 0, where the code stores "NaN"; only a collection named `frame-card` could store one. The step is in the reducer, nothing is proved of it beyond the invariant.
- Viewport, diagnostics, `selectTerminalCase` and the one-line selectors: constants or single expressions.
- Which node is the planner of a fan-out is given, and its two-branch and width checks are a predicate.
- `localeCompare` in the success path is a given ranking of outcomes.
- The choice of columns by the logarithmic score of the serial layout: the results hold for every number of columns. The order in which feedback edges are routed is arbitrary too.
- The canvas of `serial-compact-layout.ts` lacks the guard against an empty mask and can write a cell without a glyph; the model is the canvas of the other two layouts. Which lines, arrows and labels the layouts draw is not modelled, nor is floating-point rounding in the column positions of the fan-out.
- Series.FindCandidate: finds the candidate by its place in the bucket; the code finds its place again by reference, which is the same unless one point object occurs twice in the input.
- The thumbnail cache and resizing, `terminal-series-chart-png.ts` and the rasterising of charts: repetition or floating-point drawing.
