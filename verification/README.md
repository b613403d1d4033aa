# NetProbe IR: a verified model of its stateful core

This project models the parts of NetProbe IR where bytes, counters or sessions move through state
over unbounded runs, and proves what those parts promise. Each component is modelled in the form
the program gives it: an object whose methods update fields is a class, a loop is a loop, a pure
evaluation is a function. A method is proved equal to one step of a specification function (same
branches, edge cases, errors and constants), and the results below are lemmas about those functions
over every input, every run or every reachable state.

| files | component |
|---|---|
| `CaptureLifecycle`, `CaptureOverlap`, `CaptureProgress`, `CaptureEngine` | starting and stopping captures: critical sections of one mutex, capture goroutines, `done` channels and waiting stop calls as interleaved atomic steps |
| `Reassembly`, `ReassemblySafety`, `ReassemblyCompleteness`, `ReassemblyOverlaps` | TCP reassembly under plain 32-bit comparisons |
| `DnsFraming` | DNS over TCP (section 4.2.2 of RFC 1035) on the reassembled stream |
| `ChunkedCoding`, `HttpExtract`, `HttpFraming` | chunked bodies (section 7.1 of RFC 9112) and the HTTP body extractor |
| `PcapngFormat`, `PcapngReader`, `PcapngRoundTrip`, `PcapngFields`, `PcapngForeign`, `PcapngFiles` | the PCAPNG recorder, its validity check, and the replay reader |
| `FlowCodec`, `FlowEncode`, `FlowExportRuns`, `FlowReading`, `FlowEncoder` | NetFlow version 9 (RFC 3954) and IPFIX (RFC 7011) encoders, against a collector that only knows the templates it was sent |
| `ExportAccounting`, `ExportTiming` | delta accounting of flow export, and the times of its records |
| `Npdl`, `NpdlReading`, `Sigma`, `SigmaMatching`, `SigmaToNpdl`, `SigmaValues`, `SigmaMeaning`, `SigmaReview` | Sigma rules, the detection language, and the translation between them |
| `AccessLog`, `IdsWindow`, `IdsWindowRuns`, `IdsDetections` | the paged ring of log entries, and the sliding windows of the detection engine |
| `Neighborhood`, `Clustering`, `GraphQuery`, `GraphAnswers` | breadth-first neighbourhoods, clustering, and the limits of a graph query |
| `AuthModel`, `AuthSafety`, `AuthAccess`, `AuthManager` | users, roles, login sessions, recovery codes and lockout |
| `PacketDecode`, `PacketRoundTrip`, `PacketLimits`, `Retention` | packet decoding and what is kept of a packet |
| `Bytes`, `Endian`, `Text`, `Numerals` | octets, numbers in both byte orders, ASCII strings, numbers as digits |

Where the code does less than its documentation or a standard asks, the model follows the code, a
lemma names the inputs on which it falls short, and the exact condition under which it does not is
proved:

* Capture: `StopCapture` clears `stopping` on every session, also on ones it did not wait for. Runs
  in which it overlaps no other clearing stop call are safe, and a five-call trace breaks safety.
  From any state of such a run, beginning a `StopCapture` or a `StopInterface` beside other stop
  calls is safe exactly as `StopCaptureSafeIff` and `StopInterfaceSafeIff` say.
* Reassembly: sequence numbers are compared as plain unsigned numbers, not modulo 2^32 as section
  3.4 of RFC 9293 asks. What is delivered is always a slice of the sender's stream; every delivery
  order completes exactly when no piece lies on the next lap of the sequence space. A parked segment
  is looked up by its own number alone, so one that a longer segment overtakes is never used again.
* Chunked bodies: `n+2` wraps for the sizes 2^63-2 and 2^63-1, the length check passes and the slice
  panics. This happens exactly when a complete size line with such a size stands behind complete
  chunks of a chunked message (`OverflowsIff`, `PanicsIff`).
* PCAPNG: the reader stops at a block over 64 MiB, which the recorder does not prevent: a segment
  yields its frames before the first such one, and all frames of a run come back exactly when every
  block fits (`RoundTrip`). An interface name comes back exactly when it is trimmed and not empty. The
  reader has a branch for big-endian files but takes the length of the first block for little-endian,
  so it refuses them (`BigEndianIsRefused`).
* Flow export: the worker drops its marks with an inactive flow while the flow store keeps cumulative
  counters, so a flow that falls silent and goes on is counted twice. It is counted once exactly when
  no visit past the idle limit drops it with traffic, no export fails half way and no due visit finds
  counters below the marks.
* NetFlow and IPFIX: a flow without a valid address marks a due IPv6 template as sent although nothing
  is sent. A collector decodes a run exactly when each flow with two addresses has its template due at
  it or known by then; in NetFlow each refused flow also leaves a gap of one or two numbers.
* Sigma: separators are found inside quotes too, unquoting strips outer quotes, and texts are not
  checked for line feeds. Under a title and level without line feeds, the text rendered for a rule is
  read as the rule that was meant exactly when every line fits the scanner's buffer, the id is one
  word, and every value holds no line feed, survives quoting and stands clear of the ` AND `
  separators. A line feed in a title or a value adds the directive behind it to the rule.
* Detection windows: compaction forgets by the time of each packet, so when times go back - in a
  replay, or with several interfaces - an event can be missing although it lies in the window of the
  present packet. The list is the window exactly when none of its events was forgotten: none lay
  further behind a later event than the window is long, and none had 50000 live events behind it
  (`RunIsWindowIff`). What is detected on the list is in the window at any times.
* Graph clustering: merged edges are filed under `from|to|type`. A merged edge has the weight of the
  edges between its ends exactly when no other ends share its key, as ids that hold a bar can.
* Decoding: IPv4 payloads are cut at the total length, IPv6 payloads run to the end of the frame; so
  headers mode keeps as many payload octets of an IPv4 frame as the frame has after the datagram.

`dafny verify dfyconfig.toml` verifies the whole project.

## Model

| member | source | states |
|---|---|---|
| CaptureLifecycle.InvIsSafe | internal/pipeline/pipeline.go:534-571 | the invariant of disciplined runs implies that a goroutine inside Run belongs to the current generation of a session that is running or stopping, hence at most one per interface |
| CaptureLifecycle.StepKeepsInv | internal/pipeline/pipeline.go:352-580 | every step - start, stop, resume after a wait, goroutine return, settle, close - keeps the invariant, if no StopCapture overlaps a stop call that will clear a flag |
| CaptureLifecycle.RunKeepsInv | internal/pipeline/pipeline.go:352-580 | so does every run of such steps |
| CaptureLifecycle.DisciplinedRunsAreSafe | internal/pipeline/pipeline.go:352-571 | every disciplined run from the initial state, over any number of interfaces and calls, ends in a safe state |
| CaptureLifecycle.ClosedStaysClosed | internal/pipeline/pipeline.go:534-571 | a run that closed its done channel stays out of Run in every continuation, disciplined or not |
| CaptureLifecycle.ReturnedStopsHaveLeftRun | internal/pipeline/pipeline.go:400-413 | when a stop call returns, all runs it waited for have left Run, and stay out of it |
| CaptureLifecycle.OverlappingStopsBreakSafety | internal/pipeline/pipeline.go:384-495 | a concrete run in which a StopCapture overlaps a StopInterface and two goroutines of one interface are inside Run |
| CaptureLifecycle.WaitsCanClose | internal/pipeline/pipeline.go:400-407 | the runs a stop call waits for can all close, so the wait can end |
| CaptureOverlap.StopCaptureClearsAnother | internal/pipeline/pipeline.go:388-412 | begun while a session is stopping, a StopCapture can finish alone and clear that session's flag under the other call, whatever the root context |
| CaptureOverlap.LateClearReachesUnsafe | internal/pipeline/pipeline.go:455-495 | a stop call that resumes late, on a session already cleared by another, leads to an unsafe state |
| CaptureOverlap.RunningUnderStopAllIsUnsafe | internal/pipeline/pipeline.go:384-412 | a StopCapture begun while another waits and a session has a goroutine inside Run leads to an unsafe state |
| CaptureOverlap.StopCaptureSafeIff | internal/pipeline/pipeline.go:384-415 | from any state of a disciplined run, a StopCapture is safe for every continuation that keeps the discipline from then on if and only if: with another StopCapture waiting, no goroutine is inside Run; otherwise, every stopping session has left Run under a cancelled root context |
| CaptureOverlap.InterfaceUnderStopAllIsUnsafe | internal/pipeline/pipeline.go:455-485 | a StopInterface that marks a session while a StopCapture waits leads to an unsafe state, unless the root context is cancelled and the goroutine has left Run |
| CaptureOverlap.StopInterfaceSafeIff | internal/pipeline/pipeline.go:455-495 | a StopInterface is safe in the same sense if and only if its session is not running, or no StopCapture waits, or the root context is cancelled and the goroutine has left Run |
| CaptureEngine.Engine.StartCapture | internal/pipeline/pipeline.go:352-383 | starts every idle session, or some and fails when it meets one that is stopping: one step of the protocol |
| CaptureEngine.Engine.MarkRunning | internal/pipeline/pipeline.go:388-399 | the loop that marks, cancels and collects is one mark per running session, and the channels collected are those of their newest runs |
| CaptureEngine.Engine.StopCaptureBegin | internal/pipeline/pipeline.go:384-399 | marks and cancels every running session and collects what to wait for: one step |
| CaptureEngine.Engine.StopCaptureEnd | internal/pipeline/pipeline.go:408-415 | clears stopping on every session: one step |
| CaptureEngine.Engine.StartInterface | internal/pipeline/pipeline.go:419-454 | starts one idle session or fails: one step |
| CaptureEngine.Engine.StopInterfaceBegin | internal/pipeline/pipeline.go:455-485 | stops, joins or ignores, by the session's flags: one step |
| CaptureEngine.Engine.StopInterfaceEnd | internal/pipeline/pipeline.go:480-495 | clears its own session only: one step |
| CaptureEngine.Engine.SettleRun | internal/pipeline/pipeline.go:547-571 | the goroutine's last critical section, by generation and context: one step |
| CaptureProgress.StepKeepsLive | internal/pipeline/pipeline.go:352-580 | in a disciplined step with the root context open, every running session keeps a newest goroutine that is inside `Run` or back from it and about to put the session to rest |
| CaptureProgress.RunKeepsLive | internal/pipeline/pipeline.go:352-580 | so it is over whole disciplined runs |
| CaptureProgress.RunningIsAlive | internal/pipeline/pipeline.go:534-571 | after any disciplined run a running session has a live goroutine: none runs in name only |
| CaptureProgress.StartInterfaceStarts | internal/pipeline/pipeline.go:419-454 | after any disciplined run a StartInterface that does not fail leaves the interface running with a live goroutine, a new one inside `Run` if it was idle |
| CaptureProgress.StartCaptureStarts | internal/pipeline/pipeline.go:352-383 | a StartCapture that does not fail does so for every interface |
| CaptureProgress.ReturnRests | internal/pipeline/pipeline.go:547-571 | a goroutine that returns by itself leaves its session neither running nor stopping |
| CaptureProgress.StopInterfaceWaits | internal/pipeline/pipeline.go:455-485 | a StopInterface of a session that runs or is being stopped can return exactly when the newest goroutine has closed its channel; of any other it changes nothing |
| CaptureProgress.StopCaptureWaits | internal/pipeline/pipeline.go:384-407 | a StopCapture can return exactly when the newest goroutine of every session it found running has closed its channel |
| CaptureProgress.StopCaptureStops | internal/pipeline/pipeline.go:384-415 | when a disciplined StopCapture returns, and nothing was started meanwhile, no goroutine is inside `Run` and no flag is set |
| CaptureProgress.StopInterfaceStops | internal/pipeline/pipeline.go:455-495 | the same of StopInterface for its own interface, whatever happened to the others |
| Reassembly.WrapIsMod | internal/dpi/dpi.go:250-296 | the model's uint32 reduction is the remainder modulo 2^32 |
| Reassembly.Stream.AppendSegment | internal/dpi/dpi.go:250-296 | one segment: overlap trimmed, appended, parked or dropped, parked segments moved - equal to the specification step |
| Reassembly.Stream.PlaceSegment | internal/dpi/dpi.go:259-279 | a trimmed segment is appended, parked or dropped as the specification says |
| Reassembly.Stream.MovePending | internal/dpi/dpi.go:280-296 | the loop that moves parked segments equals the recursive drain |
| ReassemblySafety.ReceiveIsSafe | internal/dpi/dpi.go:250-296 | a segment that agrees with the source keeps buffer and parked data consistent with it, and only extends the buffer |
| ReassemblySafety.ReassemblyIsSafe | internal/dpi/dpi.go:250-296 | over any run of segments and consumptions - overlaps, gaps, retransmissions, wrap-around - the buffer is a slice of the source's bytes, at most max long, with at most 64 segments parked |
| ReassemblySafety.AheadIsKeptIff | internal/dpi/dpi.go:259-273 | a segment ahead of the next byte is parked if and only if its number is greater as a plain number and there is room |
| ReassemblyCompleteness.OrdersComplete | internal/dpi/dpi.go:250-296 | pieces of one cut of a stream, first piece first, the others in any order and with duplicates, fill the buffer with the whole stream if no piece lies on the next lap |
| ReassemblyCompleteness.BufferIsArrivedFront | internal/dpi/dpi.go:250-296 | at every point the buffer is exactly the pieces that have arrived without a gap |
| ReassemblyCompleteness.WrappedLastIsLost | internal/dpi/dpi.go:259-273 | a stream with a piece on the next lap and a delivery order that loses bytes of it |
| ReassemblyCompleteness.OrderIndependentIffSameLap | internal/dpi/dpi.go:250-296 | every delivery order completes if and only if all pieces lie on the first lap |
| ReassemblyOverlaps.ReachingIsKeptIff | internal/dpi/dpi.go:259-279 | a segment that starts at or before the next byte and reaches past it is kept, as far as there is room, if and only if its number has not wrapped past the stream's |
| ReassemblyOverlaps.GaplessRunsComplete | internal/dpi/dpi.go:250-296 | over every run of overlapping, repeated or coalesced segments that leaves no gap, with numbers that do not wrap, the buffer holds every byte up to where the segments reach |
| ReassemblyOverlaps.NoneDueIsParked | internal/dpi/dpi.go:274-296 | a segment that is due is never left parked |
| ReassemblyOverlaps.OvertakenStays | internal/dpi/dpi.go:268-296 | a parked segment whose number the stream has passed keeps its place and is never looked at again |
| ReassemblyOverlaps.OvertakenIsLost | internal/dpi/dpi.go:268-296 | so a run with a gap can end short of what arrived: a concrete one |
| DnsFraming.FramesOfEncodeAll | internal/dpi/observations.go:39-52 | framing gives back the bodies of any list of length-prefixed messages |
| DnsFraming.EncodeAllOfFrames | internal/dpi/observations.go:39-52 | the bodies handed on, encoded again, and the rest are the bytes received |
| DnsFraming.FramesAreExact | internal/dpi/observations.go:39-52 | a list of bodies is what framing yields if and only if its encoding followed by less than one frame is the input |
| DnsFraming.FramingIsStreaming | internal/dpi/observations.go:39-52 | over any run of segments the bodies handed on are the complete frames of the bytes delivered, and less than one frame stays in the buffer |
| DnsFraming.FramesComeFromSource | internal/dpi/observations.go:16-52 | with reassembly: they are the complete frames of what the sender sent from the first sequence number on |
| DnsFraming.Observer.ObserveDns | internal/dpi/observations.go:16-52 | one packet: append, then cut all complete frames off the buffer |
| DnsFraming.Observer.CutFrames | internal/dpi/observations.go:39-52 | the consuming loop yields the frames and leaves the rest |
| ChunkedCoding.DecodeChunked | internal/fileextract/extractor.go:320-349 | the loop equals the recursive decoder, with its error and overflow outcomes |
| ChunkedCoding.DecodeStable | internal/fileextract/extractor.go:320-349 | bytes behind a complete body never change what is decoded |
| ChunkedCoding.DecodeUndoesEncode | internal/fileextract/extractor.go:320-349 | for any chunks, any spelling of their sizes, any extensions and any following bytes, decoding returns the contents and the exact length |
| ChunkedCoding.StrictPrefixFails | internal/fileextract/extractor.go:322-342 | every strict prefix of an encoding is refused |
| ChunkedCoding.OverflowsIff | internal/fileextract/extractor.go:320-349 | the decoder overflows on exactly the bytes in which some number of complete chunks is followed by a complete size line that says 2^63-2 or 2^63-1 |
| ChunkedCoding.OversizedChunkOverflows | internal/fileextract/extractor.go:320-349 | any valid chunks, then one of these sizes in any spelling, then any bytes: overflow |
| HttpFraming.SizeLineDecides | internal/fileextract/extractor.go:320-349 | one turn of the decoder, exactly: which texts are sizes, with blanks and extensions; what is refused, decoded, or overflows |
| HttpExtract.ScanStable | internal/fileextract/extractor.go:353-400 | a turn of the parse loop that advances or panics does so whatever bytes follow |
| HttpExtract.ExtractConcat | internal/fileextract/extractor.go:353-402 | parsing more bytes is parsing the first ones and going on from there |
| HttpExtract.Observe | internal/fileextract/extractor.go:280-402 | one payload keeps parsed <= len(buf) <= 2*MaxFileBytes |
| HttpExtract.CutsDoNotMatter | internal/fileextract/extractor.go:280-402 | any run of payloads reports the artifacts, and ends in the state, of one payload that holds them all, and panics exactly when that does |
| HttpExtract.MessagesAreExtracted | internal/fileextract/extractor.go:350-402 | of any list of messages - no body, sized or chunked - exactly the non-empty bodies are reported, in order, and the position ends behind the last |
| HttpExtract.MessagesInAnyPackets | internal/fileextract/extractor.go:280-402 | in whatever packets the messages arrive, exactly those that lie wholly within the first 2*MaxFileBytes octets of the stream are reported; these are all of them if and only if the stream is no longer |
| HttpExtract.FrontIsExtracted | internal/fileextract/extractor.go:350-402 | cut after any number of octets, a stream of messages yields those it holds completely |
| HttpExtract.PanicsIff | internal/fileextract/extractor.go:280-402 | over any run of payloads the extractor panics if and only if, within the first 2*MaxFileBytes octets and after some number of turns, a chunked message has such an oversized line behind complete chunks |
| HttpExtract.OversizedMessagePanics | internal/fileextract/extractor.go:350-402 | any valid messages, a chunked head, any valid chunks and an oversized line: panic |
| HttpExtract.LargeChunkPanics | internal/fileextract/extractor.go:320-349 | one such request, spelt out |
| HttpExtract.ParseHeaders | internal/fileextract/extractor.go:295-304 | later header lines win, lines without a name are skipped |
| HttpExtract.Extractor.AppendStream | internal/fileextract/extractor.go:280-294 | appends as much as fits twice the body limit |
| HttpExtract.Extractor.ObserveHttp | internal/fileextract/extractor.go:350-402 | the loop over buf and parsed equals the specification |
| HttpExtract.Extractor.NextTurn | internal/fileextract/extractor.go:357-398 | one turn: head, framing, body |
| HttpFraming.HeaderIsLast | internal/fileextract/extractor.go:295-304 | a name in any letter case has the value of the last line that gives it one, without the blanks around it |
| HttpFraming.FramingIs | internal/fileextract/extractor.go:361-390 | not HTTP without the mark in the first line; chunked when the last Transfer-Encoding mentions it; sized, cut to the buffer, when the last Content-Length spells a positive number in decimal digits; else without body |
| HttpFraming.SentInAnyPackets | internal/fileextract/extractor.go:280-402 | of messages written with any such lines, exactly those wholly inside the first 2 * max octets are reported, each with its own body cut to max, however the stream is cut |
| HttpFraming.LineBeforeIsSkipped | internal/fileextract/extractor.go:364-368 | behind a line without the mark a response is read as if it came first |
| Numerals.PositiveIff | internal/fileextract/extractor.go:383-383 | what is read as a positive number is exactly its decimal spelling, with leading zeros or a plus sign, within 64 bits |
| PcapngFormat.WriteSection | internal/pcapng/recorder.go:241-252 | the octets filled in at fixed offsets are the section header block |
| PcapngFormat.WriteInterface | internal/pcapng/recorder.go:253-271 | they are the interface block with the name option, of the announced size |
| PcapngFormat.WritePacket | internal/pcapng/recorder.go:272-288 | they are the packet block with identifier, time, lengths, data and padding |
| PcapngFields.SectionSays | internal/pcapng/recorder.go:241-252 | at the offsets of the format: type, lengths, byte-order magic, version 1.0, unknown section length |
| PcapngFields.InterfaceSays | internal/pcapng/recorder.go:253-271 | Ethernet, 65535 octets at most, one option with the name, zeros behind it |
| PcapngFields.PacketSays | internal/pcapng/recorder.go:272-288 | interface number, time in whole microseconds in two halves, captured and original length, the data and zeros up to four octets |
| PcapngReader.ReadConcat | internal/replay/replay.go:56-142 | files that end at a block boundary may be read one after the other or as one |
| PcapngReader.TiledConcat | internal/pcapng/recorder.go:301-315 | validity of blocks is decided block by block |
| PcapngReader.Validate | internal/pcapng/recorder.go:290-317 | the check accepts exactly the files that start with a section header and are tiled by blocks |
| PcapngForeign.ValidIff | internal/pcapng/recorder.go:290-317 | a file is valid if and only if it has 28 octets or more, starts with a section header's type, and is nothing but blocks with matching lengths |
| PcapngRoundTrip.FrontOfBlock | internal/replay/replay.go:61-80 | the reader cuts a written block off with its type and payload |
| PcapngRoundTrip.ApplyInterface | internal/replay/replay.go:96-118 | an interface block enters the trimmed name under the next number |
| PcapngRoundTrip.ApplyPacket | internal/replay/replay.go:119-140 | a packet block yields the frame, its time cut to microseconds towards zero |
| PcapngRoundTrip.PacketIsReadIff | internal/replay/replay.go:71-73 | where the reader stands at a packet block, it reads it if and only if the block is at most 64 MiB, and stops with a length error otherwise |
| PcapngRoundTrip.StoppedStays | internal/replay/replay.go:71-73 | behind such an error nothing more is read, whatever follows |
| PcapngRoundTrip.NameComesBackIff | internal/replay/replay.go:110-134 | a name is read back if and only if it is trimmed and not empty |
| PcapngRoundTrip.WriteKeeps | internal/pcapng/recorder.go:78-98 | writing a frame of any size, with or without rotation, keeps every segment valid, counted, and yielding exactly its frames before the first that does not fit the reader |
| PcapngRoundTrip.JoinedReads | internal/replay/replay.go:81-95 | segments joined into one file yield all frames before the first that does not fit; each header resets the table, so nothing of one segment is seen in the next |
| PcapngRoundTrip.RunIsRead | internal/pcapng/recorder.go:78-130 | over any frames and rotations each segment yields its frames before the first whose block does not fit, and there the reader stops; the byte count is exact |
| PcapngRoundTrip.LostBehindLong | internal/replay/replay.go:71-73 | a frame recorded in the same segment behind one that does not fit is not read, whatever its size, at any point of a run |
| PcapngRoundTrip.RoundTrip | internal/pcapng/recorder.go:78-130 | over any frames and rotations: all frames come back in order - data unchanged, times cut, names as NameComesBackIff says - if and only if every block fits the 64 MiB limit; so is every segment, and one file of all, read to its end; every segment is valid in any case |
| PcapngRoundTrip.SegmentsAreFull | internal/pcapng/recorder.go:78-98 | over every run, a segment is closed when it has reached the limit and by no more than one frame over it |
| PcapngRoundTrip.RecorderRotates | internal/pcapng/recorder.go:78-130 | so it is for a recorder from its start |
| PcapngForeign.OptionsAreRead | internal/replay/replay.go:98-116 | options of any codes and lengths are passed, and the last name among them is taken |
| PcapngForeign.ItemsAreRead | internal/replay/replay.go:56-142 | any run of blocks in the byte order in force: every packet is handed on under its interface's name, blocks of other kinds are passed over |
| PcapngForeign.FileIsRead | internal/replay/replay.go:56-142 | a little-endian file of any writer is read whole |
| PcapngForeign.BigEndianIsRefused | internal/replay/replay.go:69-73 | a big-endian file is refused at its first block, whose length is taken for little-endian, unless the last octet of that length is below five |
| PcapngForeign.CutFile | internal/replay/replay.go:61-77 | a file cut inside a block yields what stands before it, and ends cleanly when fewer than eight octets are left |
| PcapngForeign.DamagedBlock | internal/replay/replay.go:71-80 | a length out of range, or two lengths that differ, end the reading with an error |
| PcapngForeign.BadSection | internal/replay/replay.go:83-95 | so does a section header that is short or has no byte-order mark |
| PcapngForeign.LyingPacketIsSkipped | internal/replay/replay.go:119-129 | a packet block that claims more data than it has is passed over |
| PcapngFiles.SegmentWriter.WriteFrame | internal/pcapng/recorder.go:78-98 | the recorder object does the step of the specification |
| PcapngFiles.SegmentWriter.StartSegment | internal/pcapng/recorder.go:100-130 | a new segment holds the header, 28 octets and no interfaces |
| PcapngFiles.StreamPcapng | internal/replay/replay.go:56-142 | the read loop equals the specification, and its statistics are those of the frames handed on |
| PcapngFiles.StatsAreExact | internal/replay/replay.go:45-54 | counts are exact, and first and last are the earliest and latest times, both reached |
| FlowCodec.LengthIsExactIff | internal/flowexport/encode.go:348-351 | a 16-bit length is exact if and only if the message is shorter than 65536 octets |
| FlowCodec.TakeRecordBack | internal/flowexport/encode.go:392-443 | a record splits at its template's lengths, variable ones included, into the values written |
| FlowCodec.TakeTemplateSet | internal/flowexport/encode.go:260-277 | a template set is received as the template it holds |
| FlowCodec.TakeDataSet | internal/flowexport/encode.go:278-291 | a data set with padding is received as its one record |
| FlowEncode.ValuesMean | internal/flowexport/encode.go:392-434 | written in the encoder's order, every value is that of the element its template field names |
| FlowEncode.ValuesFit | internal/flowexport/encode.go:207-221 | every value has the length its template field announces |
| FlowEncode.TemplateReceived | internal/flowexport/encode.go:353-370 | a template message is received, aligned, with its sequence number |
| FlowEncode.DataReceived | internal/flowexport/encode.go:371-390 | a data message is received by a collector that knows the template, aligned, with exact lengths and its sequence number |
| FlowReading.EndpointsAreTold | internal/flowexport/encode.go:49-54 | the received record says by element 61 which way the flow goes: outbound, local is source and remote is destination; inbound, the reverse; as IPv4 when both are, else in sixteen octets |
| FlowReading.TrafficIsTold | internal/flowexport/encode.go:392-397 | elements 1 and 2 are both directions together modulo 2^64, element 4 the assigned protocol number of the name in any letter case |
| FlowReading.TimesAreTold | internal/flowexport/encode.go:417-423 | NetFlow: whole milliseconds since the exporter's start, none before it and at most 2^32-1; IPFIX: whole milliseconds since the epoch, rounded down, modulo 2^64 |
| FlowReading.RestIsTold | internal/flowexport/encode.go:392-434 | type of service, flags, interfaces, ICMP type and code under the element of the family, VLAN, sampling and application |
| FlowReading.FlowIsTold | internal/flowexport/encode.go:228-443 | a data message is received as one record that says all this about its flow |
| FlowReading.HeaderIsTold | internal/flowexport/encode.go:249-259 | every header field at its offset: version, count or length, uptime, seconds, sequence number, domain |
| FlowReading.TemplateIsFresh | internal/flowexport/encode.go:228-248 | the template goes out with the data exactly when asked for, never sent, or sent an interval ago, so it is always younger than that |
| FlowExportRuns.EncodeIsReceived | internal/flowexport/encode.go:228-248 | one encode of a flow with two addresses, at any encoder: received if and only if its template is due or known, then as one record that means the flow, and the template is known from then on |
| FlowExportRuns.BadEncode | internal/flowexport/encode.go:318-338 | an encode of a flow without an address sends nothing, marks a due template as sent, and uses up no IPFIX number and one NetFlow number, two when the template was due |
| FlowExportRuns.RunIsReceived | internal/flowexport/encode.go:228-338 | any run from any encoder: all messages are decoded if and only if each flow with two addresses has its template due at it or known by then - from the start or from an earlier such flow - and then there is, in order, one record per such flow that means it |
| FlowExportRuns.RunIsNumbered | internal/flowexport/encode.go:228-347 | the number of every message of every run: the start, plus the packets (NetFlow) or data records (IPFIX) before it, plus the numbers refused flows used up before it, modulo 2^32; every length is a multiple of four |
| FlowExportRuns.NothingLost | internal/flowexport/encode.go:318-347 | no number is used up in IPFIX, nor in NetFlow runs whose flows all have two addresses |
| FlowExportRuns.NumberIsCount | internal/flowexport/encode.go:339-347 | each message carries the count of those before it, modulo 2^32 |
| FlowExportRuns.FreshRunIsReceived | internal/flowexport/encode.go:207-443 | the same from a new exporter and a collector that knows nothing: decoded if and only if each template is due at a flow or was emitted for an earlier one, and exact numbers |
| FlowExportRuns.HarmlessIsServed | internal/flowexport/encode.go:228-338 | a run in which flows without an address come only after the first IPv6 template meets that condition |
| FlowExportRuns.LostTemplate | internal/flowexport/encode.go:318-338 | a flow without an address first, and the next IPv6 flow cannot be decoded |
| FlowEncoder.SizedWhenAppFits | internal/flowexport/encode.go:371-443 | a flow with an application name of at most 65000 octets fits a message |
| FlowEncoder.WriteFlowData | internal/flowexport/encode.go:392-434 | the buffer is filled in template order, and refused exactly for a bad address |
| FlowEncoder.MessageEncoder.CloseSet | internal/flowexport/encode.go:278-291 | padding to four octets, then the length put in |
| FlowEncoder.MessageEncoder.TemplateOf | internal/flowexport/encode.go:260-277 | the template set, field by field |
| FlowEncoder.MessageEncoder.EncodeNetFlow9 | internal/flowexport/encode.go:228-291 | the encoder object does the step of the specification |
| FlowEncoder.MessageEncoder.EncodeIpfix | internal/flowexport/encode.go:318-390 | the encoder object does the step of the specification |
| ExportAccounting.DeltaFlow | internal/flowexport/manager.go:554-568 | marks, cleared on a restart, and delta add up to the observed counters |
| ExportAccounting.RecordsCarryFlow | internal/flowexport/manager.go:570-590 | the records of the two directions carry the delta, and none that is written alone is empty |
| ExportAccounting.RecordsHaveDirections | internal/flowexport/manager.go:570-590 | the outbound record carries the counters of what was sent, the inbound one of what was received, and a flow without traffic stays as it is |
| ExportAccounting.StepBalance | internal/flowexport/manager.go:501-552 | one update or visit: marks before and sent equal marks after, wasted, cleared and ended |
| ExportAccounting.Conservation | internal/flowexport/manager.go:449-590 | the same over every run, with any failures, restarts and removals |
| ExportAccounting.NothingWastedIff | internal/flowexport/manager.go:528-546 | nothing is sent twice if and only if no export failed after a record of it was written |
| ExportAccounting.SentIsSumOverLifetimes | internal/flowexport/manager.go:449-590 | with counters that never decrease, what was sent is at least the last observed counters of all ended lifetimes and the marks of the present one, and equal to them if and only if no export failed half way |
| ExportAccounting.ExportCatchesUp | internal/flowexport/manager.go:501-526 | after a due visit without failure the marks are the observed counters |
| ExportAccounting.CountedOnceIff | internal/flowexport/manager.go:501-568 | whenever the marks have caught up, the total sent is the flow's cumulative counters if and only if no completed visit past the idle limit dropped the flow with traffic, no export failed half way, and no due visit found counters below the marks |
| ExportAccounting.NothingEndedIff | internal/flowexport/manager.go:505-523 | nothing is forgotten if and only if no visit past the idle limit, with no record refused, meets a flow that has seen traffic |
| ExportAccounting.NothingClearedIff | internal/flowexport/manager.go:554-568 | no marks are cleared if and only if no due visit finds counters below them |
| ExportAccounting.SilentFlowIsCountedTwice | internal/flowexport/manager.go:505-523 | every flow that falls silent for the idle limit and then goes on is sent with its first counters and again with all of them |
| ExportAccounting.TotalIsSent | internal/flowexport/manager.go:528-552 | the books agree with the records written |
| ExportTiming.RecordsStart | internal/flowexport/manager.go:554-568 | records cover the time from the last export, or from the start of the flow when that is later |
| ExportTiming.ExportsDoNotOverlap | internal/flowexport/manager.go:501-568 | after an export that reached its end, no record sent for the flow by any later visit starts before it, whatever happens in between |
| ExportTiming.LetGoIsIdle | internal/flowexport/manager.go:505-523 | a flow is let go only when its last update is as long ago as the idle limit says |
| ExportTiming.EarlyVisitIsIdle | internal/flowexport/manager.go:501-510 | a visit within both limits changes and sends nothing |
| ExportAccounting.Worker.UpdateFlow | internal/flowexport/manager.go:446-460 | a queued flow starts or continues a lifetime |
| ExportAccounting.Worker.Export | internal/flowexport/manager.go:528-546 | writes the records in order up to the first failure |
| ExportAccounting.Worker.VisitOne | internal/flowexport/manager.go:504-525 | one flow of a flush does the step of the specification |
| ExportAccounting.Worker.FlushDue | internal/flowexport/manager.go:501-526 | visits flows in some order, each at most once, all of them unless one fails |
| Npdl.ParseConditionList | internal/scripting/engine.go:154-166 | splits at separators and parses each chunk, or fails |
| Npdl.ParseSource | internal/scripting/engine.go:70-150 | one pass over the lines equals the specification, errors included |
| NpdlReading.ConditionIsRead | internal/scripting/engine.go:152-166 | a condition is read as written: the field in small letters, the longest operator, the value without quotes, whatever the blanks |
| NpdlReading.ConditionMeans | internal/scripting/engine.go:327-353 | what each operator compares: texts in any letter case, a part of one, or numbers, and nothing where either side is none |
| NpdlReading.LineIsDirective | internal/scripting/engine.go:84-150 | a directive's word counts in any letter case and its value is trimmed |
| NpdlReading.DirectivesMean | internal/scripting/engine.go:104-146 | what each directive sets and refuses: a confidence is a decimal number from 1 to 100, techniques are the names between commas, only `false` disables |
| NpdlReading.LineIsRefused | internal/scripting/engine.go:84-150 | unknown directives, directives outside a rule, a rule inside a rule, and an end without conditions are refused |
| NpdlReading.OpenRuleIsRefused | internal/scripting/engine.go:147-150 | so is a text that ends inside a rule |
| Sigma.RenderSelection | internal/sigma/sigma.go:470-492 | renders every key in order, or finds one that cannot be rendered |
| Sigma.RenderNpdl | internal/sigma/sigma.go:460-500 | the text, enabled or marked for review |
| SigmaToNpdl.UnclearValues | internal/sigma/sigma.go:486-498 | the empty value, and AND before another condition, are not clear |
| SigmaValues.ReadChunk | internal/scripting/engine.go:152-166 | what is read from a rendered condition with any value |
| SigmaValues.LineReadsBackIff | internal/scripting/engine.go:154-166 | any values at all: the rendered line is read as the conditions rendered if and only if every value survives quoting and unquoting and stands clear of the separators |
| SigmaValues.InnerSeparator | internal/sigma/sigma.go:486-498 | a value that holds a separator and a second condition is read as two conditions, although it is quoted |
| SigmaValues.PlainIsExact | internal/sigma/sigma.go:486-498 | for plain values this is being clear |
| SigmaMeaning.TextIsRead | internal/scripting/engine.go:70-150 | with any values and any id, without line feeds: the rendered text is accepted if and only if lines fit, the id is one word and the condition line parses; it then holds one enabled rule with those conditions |
| SigmaMeaning.TextReadsBackIff | internal/scripting/engine.go:70-150 | any values and any id, under a title and level without line feeds: the engine reads the rendered text as the rule that was meant if and only if lines fit, the id is one word, and every value is exact and holds no line feed |
| SigmaMeaning.ReadValuesHaveNoFeed | internal/scripting/engine.go:70-166 | whatever text the engine accepts, no value in a condition holds a line feed |
| SigmaReview.ReviewIsRead | internal/sigma/sigma.go:494-497 | a rule that cannot be rendered is read as one disabled rule, or refused when a line does not fit or its id is not one word |
| SigmaReview.ReviewNeverFires | internal/scripting/engine.go:167-180 | what is read from such a text never fires |
| SigmaReview.TitleInjects | internal/sigma/sigma.go:460-470 | a title with a line feed and a directive behind it adds that directive to the rule |
| SigmaReview.ValueInjects | internal/sigma/sigma.go:486-498 | so does a value, which is cut at the line feed |
| SigmaMeaning.SelectionAgrees | internal/sigma/sigma.go:358-382 | a selection that can be rendered is decided without an error, alike in any order of its keys |
| SigmaMatching.ValueMeans | internal/sigma/sigma.go:384-416 | what each modifier asks of a value in any letter case; an unknown one is an error |
| SigmaMatching.AnyMeans | internal/sigma/sigma.go:364-381 | one matching value suffices, and an error counts only before it |
| SigmaMatching.SelectionMeans | internal/sigma/sigma.go:358-382 | a selection without errors matches exactly when every key does, in any order |
| SigmaMatching.FieldIs | internal/sigma/sigma.go:358-382 | which field of an event each of Sigma's names is read from |
| SigmaMatching.KeyMeans | internal/sigma/sigma.go:358-423 | a key with a name and modifiers holds of an event exactly when one of its values does, by the first modifier, of the field the name stands for |
| SigmaMeaning.MatchIsSelection | internal/sigma/sigma.go:198-208 | the outcome of matching, when there is one, is that of the selection the condition names |
| SigmaMeaning.ConditionsMeanSelection | internal/sigma/sigma.go:198-208 | the conditions rendered for a rule decide every event as the rule does, in any visiting order without an error |
| SigmaMeaning.RenderingPreservesMeaning | internal/sigma/sigma.go:460-500 | for exact values, and for any plain ones the engine accepts, the parsed rule matches an event exactly when Sigma does, for every event and visiting order without an error |
| AccessLog.Newest | internal/accesslog/store.go:39-56 | min(total, 10000) entries are held |
| AccessLog.PageIsFront | internal/accesslog/store.go:57-96 | a page lists the newest wanted entries; it has a cursor exactly when wanted entries are left, and those are below it; total is retained plus evicted |
| AccessLog.TermsMean | internal/accesslog/store.go:72-83 | every term that is not empty occurs somewhere in the text |
| AccessLog.PageCounts | internal/accesslog/store.go:57-96 | total, the last ten thousand held, the rest evicted, and the number of held entries that match, wherever the cursor stands |
| AccessLog.LimitIs | internal/accesslog/store.go:57-62 | a limit from 1 to 500 is taken, any other is 100 |
| AccessLog.ListingDecreases | internal/accesslog/store.go:57-96 | with adds between the queries, ids strictly decrease over the whole session |
| AccessLog.OnlyEvictedAreMissed | internal/accesslog/store.go:57-96 | a finished session misses only entries evicted while it ran |
| AccessLog.SessionEnds | internal/accesslog/store.go:84-93 | without adds the cursor reaches zero within as many queries as entries |
| AccessLog.PagingListsAll | internal/accesslog/store.go:57-96 | then exactly the matching entries held are listed, each once, newest first |
| AccessLog.AddHolds | internal/accesslog/store.go:50-55 | an add overwrites exactly the oldest slot |
| AccessLog.SlotIsNewest | internal/accesslog/store.go:69-71 | the slot visited in the i-th round holds the i-th newest entry |
| AccessLog.Ring.Add | internal/accesslog/store.go:39-56 | the ring holds the last 10000 entries of the log with the next id |
| AccessLog.Ring.Query | internal/accesslog/store.go:57-96 | the scan over the ring returns the page of the specification |
| IdsWindowRuns.WindowStep | internal/ids/engine.go:425-430 | append, compact, cap: one update takes the events held before to those held after, for any packet times |
| IdsWindowRuns.RunIsHeld | internal/ids/engine.go:423-430 | the general law, any packet times: the list is the events that were never behind the cut of a later event and never had 50000 live events behind them |
| IdsWindowRuns.RunIsWindowIff | internal/ids/engine.go:423-430 | any packet times: the list is the last 50000 events of the full history inside the window if and only if none of these was ever forgotten |
| IdsWindowRuns.RunIsRecentIff | internal/ids/engine.go:425-427 | while at most 50000 events are live: the list is exactly the window if and only if no event of the window lies further behind an event after it than the window is long |
| IdsWindowRuns.FewAreNeverFull | internal/ids/engine.go:428-430 | no more than 50000 events in all are never too many live ones |
| IdsWindowRuns.ForgottenEvent | internal/ids/engine.go:425-427 | any three events whose times go back past the window: the first is missing from the list although it lies in the window |
| IdsWindowRuns.RunIsWindow | internal/ids/engine.go:423-430 | for non-decreasing times the list is the last 50000 events of the full history inside the window |
| IdsDetections.ScansAreExact | internal/ids/engine.go:431-453 | for any packet times, scan and sweep thresholds crossed on the list are crossed on the full window, and the other way round while it has at most 50000 events and none of them was forgotten |
| IdsDetections.DnsCountsAreExact | internal/ids/engine.go:457-487 | the same for tunnelling and failed names |
| IdsDetections.ThresholdsMean | internal/ids/engine.go:436-487 | what the thresholds count: distinct ports of a destination, destinations of a port, tunnelling queries and half as many names |
| IdsDetections.CountsMean | internal/ids/engine.go:457-487 | the two counts are the numbers of the actor's tunnelling and failed queries |
| IdsDetections.MissedScan | internal/ids/engine.go:436-447 | a scan of two ports that the list misses and the full window shows |
| IdsWindow.EventList.Append | internal/ids/engine.go:425-425 | the event is added at the end |
| IdsWindow.EventList.Compact | internal/ids/engine.go:616-635 | the events of the window, in order, moved to the front of the same buffer |
| IdsWindow.EventList.Cap | internal/ids/engine.go:428-430 | the newest 50000 events, copied when there are more |
| IdsWindow.EventList.Observe | internal/ids/engine.go:425-430 | the list object does the step of the specification |
| Neighborhood.RoundIsExact | internal/investigation/graph.go:403-413 | one round reaches exactly the ids one edge further away |
| Neighborhood.Neighbourhood | internal/investigation/graph.go:393-428 | exactly the nodes within the distance over all edge ends, and exactly the edges between ids within it, in their old order |
| Neighborhood.NeighbourhoodIsWithin | internal/investigation/graph.go:414-427 | membership of the picked nodes and edges in terms of walks |
| Clustering.GroupsPartition | internal/investigation/graph.go:460-468 | with distinct ids the groups partition the nodes, and their sizes add up to the number of nodes |
| Clustering.OutputOfNode | internal/investigation/graph.go:469-491 | every node is in the group whose output node it is mapped to |
| Clustering.SameOutputIff | internal/investigation/graph.go:471-491 | two nodes share an output node if and only if they are in one group |
| Clustering.MergingKeepsWeight | internal/investigation/graph.go:492-512 | merged edges carry exactly the weight of the edges whose mapped ends differ, each filed under its ends and kind, and none joins a node to itself |
| Clustering.MergedUnder | internal/investigation/graph.go:492-512 | one merged edge for every key of a crossing edge, with the ends of such an edge and the weight of all of them |
| Clustering.MergedWeightIff | internal/investigation/graph.go:501-508 | a merged edge has the weight of the crossing edges with its ends and kind if and only if no edge with other ends or of another kind has its key |
| Clustering.NoBarIsAlone | internal/investigation/graph.go:503-503 | that is so when no mapped end holds a bar |
| Clustering.CollidingKeys | internal/investigation/graph.go:501-508 | ids that hold a bar: two edges of different ends become one with the weight of both |
| Clustering.SumIsTotal | internal/investigation/graph.go:471-491 | in whatever order the map is visited the sum is the same |
| Clustering.ClusterAll | internal/investigation/graph.go:453-512 | before the cut: one output node per group, all nodes mapped, counts adding up, edges merged |
| GraphQuery.Sort | internal/investigation/graph.go:514-517 | a permutation in order, equals left in any order |
| GraphQuery.SortingIsUnique | internal/investigation/graph.go:514-516 | with distinct ids, riskiest first and by id leaves one order only |
| GraphQuery.EdgesOf | internal/investigation/graph.go:510-513 | every merged edge once, and the weights add up |
| GraphQuery.ClusterGraph | internal/investigation/graph.go:453-522 | one output node per group, riskiest first and by id, cut to the limit so that every kept node comes before every dropped one; every merged edge once, heaviest first; counts and weights of all nodes and edges kept |
| GraphQuery.Limit | internal/investigation/graph.go:273-295 | at most the allowed nodes and edges, the first visible ones, none dangling; not reported truncated only if nothing was cut here |
| GraphQuery.Answer | internal/investigation/graph.go:225-297 | exactly which nodes and edges a query returns - focused or not, clustered or not - and when it reports truncation; within its limits, without dangling edges |
| GraphAnswers.AnswerIsBounded | internal/investigation/graph.go:273-295 | 800 nodes and 3000 edges unless others are asked for, 2000 and 10000 at most, and both ends of every edge shown |
| GraphAnswers.WholeGraph | internal/investigation/graph.go:225-297 | without a focus: clustered exactly when asked for and needed; else the first nodes as they are, all edges between them up to the limit, and truncation reported exactly when something is left out |
| GraphAnswers.FocusedGraph | internal/investigation/graph.go:393-428 | with a focus: only nodes that a walk of so many edges leads to, and all of them when nothing is reported as left out |
| GraphAnswers.ClusteredOrder | internal/investigation/graph.go:514-516 | a clustered answer shows the riskiest output nodes first, those of one risk by id |
| GraphAnswers.ClusteredEdges | internal/investigation/graph.go:517-517 | and the heaviest edges first |
| GraphAnswers.ImportantIff | internal/investigation/graph.go:453-462 | what stays by itself: nodes with a risk of 80 or more, findings, and the one asked for |
| GraphAnswers.ClusterOf | internal/investigation/graph.go:429-452 | to which cluster the other nodes go |
| GraphAnswers.ClusterIs | internal/investigation/graph.go:469-491 | a cluster has the greatest risk of its nodes, their number, and the ids of the first hundred |
| GraphAnswers.EndIs | internal/investigation/graph.go:492-500 | an edge end moves to the output node of its node, and stays when there is none |
| GraphQuery.PickKeepsDistinct | internal/investigation/graph.go:414-420 | a neighbourhood keeps ids distinct, so clustering it keeps its laws |
| AuthSafety.StepKeepsConsistent | internal/auth/manager.go:295-808 | every operation keeps users filed under their normalized names, and sessions that are not external in step with their user's name and role |
| AuthSafety.GuardsAreExact | internal/auth/manager.go:573-618 | a role change or disabling is refused if and only if no enabled administrator would be left |
| AuthSafety.AdminRemains | internal/auth/manager.go:295-808 | every run that starts with an enabled administrator has one |
| AuthSafety.AcceptedMeans | internal/auth/manager.go:436-463 | a session is accepted if and only if it exists, is within both deadlines and is external or its user exists and is enabled |
| AuthSafety.OnlyUseExtends | internal/auth/manager.go:371-463 | only a login or an accepted request with its id adds a session or moves its deadlines |
| AuthSafety.AcceptedIsFresh | internal/auth/manager.go:295-808 | over every run an accepted session is that of the user who logged in, within the idle time of its last use and the absolute time of its login; unless external, the user is enabled and the role the present one |
| AuthSafety.UnattendedExpires | internal/auth/manager.go:367-396 | after any run that does not use a session, however often it is revalidated in it, the session is refused once its deadline has passed |
| AuthSafety.GoneStaysGone | internal/auth/manager.go:295-675 | an ended session comes back only by a login with its id |
| AuthSafety.PasswordChangeEndsSessions | internal/auth/manager.go:494-535 | after a password change no earlier session of the user is ever accepted |
| AuthSafety.DisabledStaysOut | internal/auth/manager.go:295-618 | over every run after a user is disabled that does not enable it: no login of the user, no local session as the user, and none of its earlier sessions, external ones included, is accepted |
| AuthSafety.CodesAreUsedUp | internal/auth/manager.go:347-366 | over every run that issues no new codes, a recovery code lets its user in at most as often as it is on the list |
| AuthSafety.FailuresLock | internal/auth/manager.go:331-346 | after the allowed number of failures in a row every login is refused for the lockout time |
| AuthAccess.LoginIff | internal/auth/manager.go:295-330 | a login is let in if and only if its key is not locked, a session id was issued, the user exists and is enabled, the password is verified, and with a second factor the code is good; it opens that one session |
| AuthAccess.GoodCodeIff | internal/auth/manager.go:347-366 | a code is good when it is not blank and a code of the time, or an unused recovery code in either letter case |
| AuthAccess.FailuresAre | internal/auth/manager.go:303-346 | a locked key stays as it is, an entry clears it, and anything else counts one failure more, from zero after fifteen quiet minutes, and locks at the limit |
| AuthAccess.FewFailuresLetIn | internal/auth/manager.go:331-346 | over every run with fewer logins under a key than failures are allowed, the right password still lets in |
| AuthAccess.PasswordIff | internal/auth/manager.go:494-535 | a password is changed exactly when the user exists, the current one is verified - an administrator resets without - and the new one meets the policy; it ends exactly that user's sessions |
| AuthAccess.WrongPasswordStaysOut | internal/auth/manager.go:295-535 | after a change, over every run up to the next one, a password the new secret does not verify opens no login, no other change, and no removal of the second factor |
| AuthAccess.SecondFactorIff | internal/auth/manager.go:679-747 | setting up takes a user, switching on a code of the secret set up, switching off the password and a good code |
| AuthAccess.RoleIff | internal/auth/manager.go:573-594 | a role is set exactly when it exists, the user does, and an administrator remains; the user's sessions follow |
| AuthAccess.DisabledIff | internal/auth/manager.go:595-615 | a user is disabled or enabled exactly when an administrator remains; disabling ends exactly its sessions |
| AuthAccess.CreatedIff | internal/auth/manager.go:546-562 | a user is created exactly for a new, well-formed name, a role that exists and a password that meets the policy |
| AuthAccess.ExternalIs | internal/auth/manager.go:795-809 | an external user gets the role named or else the least one |
| AuthAccess.UserChangesHaveCauses | internal/auth/manager.go:295-747 | every change to a user has its cause, with the right that it takes; no user goes |
| AuthAccess.SessionSurvives | internal/auth/manager.go:295-675 | a session that no operation ends is there after it, and of the same user |
| AuthAccess.EndedIsGone | internal/auth/manager.go:367-675 | operations that end sessions on purpose do |
| AuthAccess.UseMovesDeadline | internal/auth/manager.go:371-463 | an accepted request moves its own session's idle deadline, looking moves none |
| AuthManager.Manager.FailLocked | internal/auth/manager.go:331-346 | one failure counted, with its reset and lock |
| AuthManager.Manager.VerifyMfaLocked | internal/auth/manager.go:347-366 | a time code, or the first matching recovery code, which is taken off the list |
| AuthManager.Manager.LogIn | internal/auth/manager.go:295-330 | the method does the step of the specification |
| AuthManager.Manager.CreateExternalSession | internal/auth/manager.go:795-809 | the method does the step of the specification |
| AuthManager.Manager.AuthenticateRequest | internal/auth/manager.go:436-463 | the method does the step of the specification |
| AuthManager.Manager.RevalidatePrincipal | internal/auth/manager.go:378-396 | the method does the step of the specification |
| AuthManager.Manager.SetPasswordLocked | internal/auth/manager.go:506-526 | the method does the step of the specification |
| AuthManager.Manager.EnabledAdminsLocked | internal/auth/manager.go:563-571 | counts the enabled administrators |
| AuthManager.Manager.ChangeRole | internal/auth/manager.go:573-594 | the method does the step of the specification |
| AuthManager.Manager.ChangeDisabled | internal/auth/manager.go:595-618 | the method does the step of the specification |
| AuthManager.Manager.AddUser | internal/auth/manager.go:546-562 | the method does the step of the specification |
| AuthManager.Manager.StopTotp | internal/auth/manager.go:728-748 | the method does the step of the specification |
| PacketDecode.WalkChain | internal/decode/decode.go:112-148 | the walk over extension headers ends, inside the frame |
| PacketDecode.WalkTags | internal/decode/decode.go:41-51 | the walk over VLAN tags ends, inside the frame |
| PacketDecode.PayloadIsSlice | internal/decode/decode.go:34-197 | a payload is one contiguous stretch of the frame behind its headers |
| PacketDecode.DecodeTags | internal/decode/decode.go:38-51 | the loop over VLAN tags equals the specification |
| PacketDecode.DecodeChain | internal/decode/decode.go:108-148 | the loop over extension headers equals the specification |
| PacketDecode.DecodeIpv6 | internal/decode/decode.go:95-149 | IPv6 decoding equals the specification |
| PacketDecode.DecodeEthernet | internal/decode/decode.go:34-65 | frame decoding equals the specification |
| PacketRoundTrip.SegmentIsRead | internal/decode/decode.go:151-180 | TCP and UDP headers, laid out field by field, are read back at any offset |
| PacketRoundTrip.Ip4IsRead | internal/decode/decode.go:67-93 | an IPv4 datagram is read back, options skipped and trailing octets left out |
| PacketRoundTrip.ChainIsWalked | internal/decode/decode.go:108-148 | any list of extension headers is passed to the upper protocol |
| PacketRoundTrip.TagsAreWalked | internal/decode/decode.go:41-51 | any stack of tags is passed, and the first number gives the VLAN |
| PacketRoundTrip.Ip4FrameIsDecoded | internal/decode/decode.go:34-197 | every field of an IPv4 frame and exactly its data are recovered |
| PacketRoundTrip.Ip6FrameIsDecoded | internal/decode/decode.go:34-197 | every field of an IPv6 frame and the rest of it as data are recovered |
| PacketLimits.MessageFrameIsDecoded | internal/decode/decode.go:181-196 | frames without ports: an ICMP message of two octets or more gives type and code and is the payload from its first octet; of other protocols everything is payload |
| PacketLimits.LaterFragmentIsKept | internal/decode/decode.go:124-135 | of a later IPv6 fragment no transport is read, and what follows the fragment header is the payload |
| PacketLimits.CutFrame | internal/decode/decode.go:34-197 | a frame captured short is decoded with what is left of its data while its headers are there, and refused without all of them |
| PacketLimits.OtherTypesAreRefused | internal/decode/decode.go:53-65 | frames that are neither IPv4 nor IPv6 are refused |
| PacketLimits.BadHeadersAreRefused | internal/decode/decode.go:67-104 | so are headers of another version, too short, or longer than the datagram |
| PacketLimits.BadTcpIsRefused | internal/decode/decode.go:151-167 | and TCP headers that are too short or reach past the end |
| Retention.FirstRuleDecides | internal/smartpcap/policy.go:32-52 | outside the full mode the first matching rule decides |
| Retention.ModeDecides | internal/smartpcap/policy.go:32-60 | a blank or full mode keeps all; else, without a matching rule, the fallback decides, and when it names no action the mode does |
| Retention.ActionsKeep | internal/smartpcap/policy.go:93-109 | full keeps the frame, metadata and drop keep nothing |
| Retention.UnknownActionKeepsAll | internal/smartpcap/policy.go:32-60 | a rule whose action is none of the four keeps the whole frame |
| Retention.HeadersKeep | internal/smartpcap/policy.go:97-104 | headers mode keeps all before the payload and as many of its octets as follow it; none if and only if nothing follows |
| Retention.Ip4FrameIsCut | internal/smartpcap/policy.go:93-109 | a decoded IPv4 frame keeps its headers and as many octets of data and trailer as the trailer has |
| Retention.Ip6FrameIsCut | internal/smartpcap/policy.go:93-109 | a decoded IPv6 frame keeps exactly its headers |
| Retention.AnyFrameKeepsItsHeaders | internal/smartpcap/policy.go:97-104 | any decoded frame with a payload keeps the octets before it |
| Text.IndexOfOccurs | internal/fileextract/extractor.go:358-358 | the first-occurrence search finds an occurrence |
| Text.IndexOfIsFirst | internal/fileextract/extractor.go:358-358 | and none comes before it |

## Left out

- I/O: sockets, files, clocks, randomness and interface lookups are parameters or outcomes an event carries; a network write either succeeds or fails, a store is either saved or not.
- Go's memory model: values are copied where the program shares pointers (`captureSession`, `flowState`, `Session`); aliasing between them is not modelled.
- Capture: the flags `captureRunning` and `lastError`, timestamps, and the capture sources themselves; a goroutine may return from `Run` at any time.
- Strings are ASCII: letter case and white space beyond ASCII, and Unicode case folding, are not modelled.
- Numbers: log ids, edge weights, byte counts of segments and packet counters of the ring are unbounded; sequence numbers, times in PCAPNG, message lengths and 64-bit flow sums wrap as in the program.
- HTTP artifacts: the name and metadata are functions of the head, which is what an artifact carries here; hashes, MIME types and storage are left out, and so are SMTP, FTP and SMB extraction.
- DNS messages are handed on as octets; parsing them, and HTTP bodies in `observeMessages`, is left out.
- PCAPNG: errors of the callback that receives frames, classic PCAP files, and pruning of old segments.
- PcapngRoundTrip.RoundTrip: fewer than 2^32 frames, interface names shorter than 65536 octets and frames of at most 2^32 - 36 octets, so that numbers and lengths do not wrap.
- Flow export: NetFlow version 5 and sFlow encoders, dialling and backoff, and the statistics counters of a worker.
- Flow fields: the TCP flag bits, the interface index and parsed addresses come with the flow; text forms of addresses are left out.
- Sigma: parsing of rule files, compilation to hunt queries, correlation rules, and conditions other than the name of one selection, for which no enabled rule is rendered; regular expressions and address ranges are an oracle.
- SigmaMeaning.TextReadsBackIff: titles and levels without line feeds; TitleInjects shows what one in a title does.
- SigmaMeaning.TextIsRead: texts without line feeds; others are more lines than were rendered, see TitleInjects and ValueInjects.
- Detection language: reading an event's fields from flow, packet and file, and building findings; number comparison takes an oracle that reads numbers.
- Access log: the two rings of a store are alike, one is modelled; the searchable text comes with the entry.
- Intrusion detection: rules without a window, finding deduplication, and the entropy test of a name, which comes as a verdict with the query.
- IdsWindowRuns.RunIsWindow: non-decreasing packet times, as a case of RunIsWindowIff, which holds for any.
- Graphs: building nodes and edges from flows, filters of a query, and labels of clusters.
- Authentication: API tokens and legacy tokens, listing of users and sessions, and password hashing, code hashing and one-time codes, which are abstract functions.
- AuthManager.Manager.RevalidatePrincipal: principals of a session only; those of an API token, or of neither, are left out with the tokens.
- AuthManager.Manager.SetPasswordLocked: a random source that fails before the password is set is not modelled.
- Packet decoding: text forms of addresses and the TCP flag names.
- Retention: which rules match a packet is a predicate given to the decision.
