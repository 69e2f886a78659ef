# NanoLog runtime: a verified model

NanoLog splits logging in two. A logging thread copies a small binary entry into its own staging
buffer; a background thread compresses the entries of all buffers, puts the static parts of the
statements into a dictionary, and writes both to a log file; a decoder turns the file back into
messages, optionally sorted by time. This project models that path, in the C++17 form of the system
(no preprocessor), and proves what it promises.

- **Staging ring** (`Ring.dfy`, `RingTheorems.dfy`, `StagingBuffer.dfy`). One producer and one consumer
  share three cursors without a lock. The model is an interleaving of steps with at most one shared
  read or write each; the streams of committed and consumed bytes are kept beside the cursors. The class
  `StagingBuffer` runs the same steps in the order in which the source's functions take them.
- **Background pipeline** (`Pipeline*.dfy`). Scan of the buffers with deletion in place, chunked
  encoding, double-buffered asynchronous writes, the four-state sync and the restart of the dictionary,
  interleaved with logging threads and callers.
- **Codec**. Integers of variable length (`Packing.dfy`, `Packer.dfy`), arguments in their stored and
  compressed forms (`Arguments.dfy`, `ArgumentStore.dfy`, `ArgumentCompress.dfy`, `ArgumentDecode.dfy`),
  message headers with time differences (`LogHeader.dfy`), extents (`Entries.dfy`, `Encoder.dfy`,
  `ExtentReader.dfy`), dictionary fragments (`Dictionary.dfy`), whole files (`Decoder.dfy`), and all of it
  put together (`LogSite.dfy`, `CodecTheorems.dfy`). Writers work on byte arrays in place, copy whole
  variables as `memcpy` does and say how far they scribble; readers are given bytes of which the contract
  says, in ghost parameters, what was encoded.
- **Ordered decompression** (`Merge*.dfy`, `Decompress.dfy`). The sliding window of three stages. A heap is
  a set of fragments with some front of least key; every choice of front is covered.
- **Format strings** (`FormatGrammar.dfy`, `FormatParameters.dfy`, `MicroCode.dfy`, `FormatAgreement.dfy`,
  `FormatCodec.dfy`). The compile-time parser says what is stored, the decode-time parser what is read. Both
  are proved against the text of specifications as section 7.21.6.1 of ISO/IEC 9899:2011 writes them, and compared;
  where they agree, and no counter of eight bits wraps around, the round trip of the arguments follows.
- **All together** (`FileContents.dfy`, `EndToEnd.dfy`). What the decoder shows of a thread, from the files
  that a run of the pipeline has written, is the beginning of what the thread logged.
- **The standard** (`StandardFormats.dfy`, `StandardCodec.dfy`). The types and numbers of conversion
  specifications, written down from section 7.21.6.1 by themselves, and the round trip in their terms.
- **TimeTrace** (`TimeTrace.dfy`). Circular histories and their k-way merge.

Buffer sizes are parameters, constrained as `runtime/Config.h` constrains its constants.

## Where the code falls short of its documentation

The model follows the code. Differences that name a member are proved.

- **sync() can complete too early.** A pass ends when it comes back to the index it started at. If the
  buffer there is deleted while others remain, the pass misses the buffer before it, or all others when it
  started at index 0 (`PipelineScan.PassVisits`). A sync that completes in such a pass has written all
  earlier messages of a thread if and only if the thread's buffer was not missed with some of them in it
  (`PipelineExact.SyncExact`; `PipelineCounterexample.SyncCanMissMessages` is a run that loses one). Deletions
  elsewhere are harmless (`PipelineExact.SyncSafety`).
- **Three stages are a window of two.** The comments of decompressTo promise order if stages three apart
  are in order. One message is still printed after the first stage has run empty, so only stages two apart
  are enough (`MergeOrder.DecompressesInOrder`, `MergeLimits.ThreeStageWindowFails`). Extents without
  messages, which the encoder writes when a message does not fit, are harmless to a new decoder as long as
  their stage has a message (`MergeOrder.NewDecoderInOrder`, `MergeLimits.EmptyStageFails`). A decoder that is
  opened again keeps the fragments of the last file with their times; they are harmless unless such a time
  is later than messages of the new file (`MergeOrder.TameOrderly`, `MergeLimits.LateEmptyFails`).
- **Logs of ordinary runs come out of order.** Nothing in the compression thread keeps stages two apart in
  order: `PipelineLateRun.LateRunFails` is a run of three threads with nothing unusual in it whose file is
  printed out of order.
- **Fragments are counted in eight bits.** A format of 256 times `%s` compiles and is accepted by both parsers,
  but the decoder then knows no fragment of it and reads none of its strings (`FormatCodec.CounterWraps`).
  All values come back if and only if there are fewer than 256 fragments (`FormatCodec.FormatRoundTrip`). The
  nibbles are counted in eight bits as well; with 256 or more the decoder looks for the values in the wrong
  place.
- **compressLogHeader returns too little** when a time difference needs eight bytes (`0x7 & 8` is 0). Its
  caller ignores the number.
- **The parsers disagree** on specifications with nothing behind the '.', with unusual length modifiers, on
  specifications behind a backslash and on flagged percent signs. When createMicroCode fails,
  readDictionaryFragment ignores it and the statement shares the metadata of the next one; a well-formed
  file here is one in which it succeeds.
- **TimeTrace never holds a recorder off**: `fetch_and(1)` leaves a count of zero at zero. An event with the
  largest 64-bit time is never printed and hides those behind it.
- The decoder takes `z` for size_t with every specifier, and `t` for ptrdiff_t: a negative number printed with
  `%zd` is read back with 2^64 added, and one from 2^63 on with `%tu` with 2^64 taken off, which leaves the
  bits as they are (`StandardFormats.StandardRead`).
- An `int` printed with a 64-bit conversion comes back wrong when it is -2^24 or less
  (`Packing.UnpackOfPack`).
- getArgSizes adds the size of an argument to that of the rest, where the first operand sets the precision
  that the second uses; C++ leaves their order open. The model takes the first operand first.

## Model

| member | source | states |
|---|---|---|
| StagingRing.StepInv | runtime/RuntimeLogger.cc:751-844 | every single shared read or write of either side, in any state that satisfies the invariant, leads to one that does: the free space cached by the producer is a lower bound, stale cursor copies stay usable, and consumed followed by unread bytes is the committed stream |
| StagingRingTheorems.RunInv | runtime/RuntimeLogger.cc:751-844 | the invariant holds in every state of every interleaving |
| StagingRingTheorems.Fifo | runtime/RuntimeLogger.cc:764-844 | in every run the consumed bytes are a prefix of the committed bytes of that and any later moment, what is missing is exactly what lies unread, and equal cursors mean an empty buffer |
| StagingRingTheorems.PeekRangeIsNextUnread | runtime/RuntimeLogger.cc:826-844 | a range that peek returned is the next contiguous stretch of the committed stream, ends where a finished reservation ended, and no producer step changes it |
| StagingRingTheorems.HeldRange | runtime/RuntimeLogger.cc:826-844 | the bytes in the returned range are the committed bytes that come next and the front of the unread data |
| StagingRingTheorems.EmptyPeekMeansDrained | runtime/RuntimeLogger.cc:826-844 | a peek that returns nothing means that everything committed when it read producerPos has been consumed |
| StagingRingTheorems.ReservationSafety | runtime/RuntimeLogger.h:333-361 | in every reachable state minFreeSpace is a lower bound of the contiguous free space, a reservation lies inside storage and ahead of no unread byte, and the two asserts of finishReservation hold |
| StagingRingTheorems.DrainEmpties | runtime/RuntimeLogger.cc:826-844 | peeking and consuming twice, the roll-over included, empties the ring from every reachable state |
| StagingRingTheorems.NoPermanentBlocking | runtime/RuntimeLogger.cc:764-799 | a waiting reservation is granted within three rounds of draining and re-checking if and only if it asks for less than the whole buffer |
| StagingBuffers.NonBlockingReserveGrants | runtime/RuntimeLogger.cc:751-812 | a request that does not wait is granted exactly when there is contiguous room for it, and disturbs neither data nor consumer |
| StagingBuffers.IterationOutcome | runtime/RuntimeLogger.cc:764-799 | one iteration of the reservation loop, in terms of the cursors |
| StagingBuffers.PeekEffect | runtime/RuntimeLogger.cc:826-844 | peek without interference returns a non-empty range whenever there is unread data and loses none of it |
| StagingBuffers.StagingBuffer.constructor | runtime/RuntimeLogger.h:396-420 | a new buffer is an initial state of the ring |
| StagingBuffers.StagingBuffer.ReserveProducerSpace | runtime/RuntimeLogger.h:333-343 | space is returned exactly when there is room, inside storage, and unread data stays as it is |
| StagingBuffers.StagingBuffer.ReserveSpaceInternal | runtime/RuntimeLogger.cc:751-812 | the imperative slow path is one iteration of the step machine |
| StagingBuffers.StagingBuffer.FinishReservation | runtime/RuntimeLogger.h:352-361 | the reserved bytes are appended to the unread data |
| StagingBuffers.StagingBuffer.Peek | runtime/RuntimeLogger.cc:826-844 | the range returned is the front of the unread data, and empty only if there is none |
| StagingBuffers.StagingBuffer.Consume | runtime/RuntimeLogger.h:373-377 | exactly the first bytes of the unread data are gone |
| StagingBuffers.StagingBuffer.CheckCanDelete | runtime/RuntimeLogger.h:386-389 | a buffer may be deleted only when it holds no unread data |
| PipelineInvariants.StepInv | runtime/RuntimeLogger.cc:383-625 | every action of the compression thread and of the others keeps conservation, valid scan indices, the state of the double buffer and the rule that only empty buffers are deleted |
| PipelineDictionary.StepCatalog | runtime/RuntimeLogger.cc:400-414 | shadowStaticInfo stays a prefix of the registered sites and of what the log so far defines |
| PipelineDictionary.DictionaryBeforeUse | runtime/RuntimeLogger.cc:400-414 | every message in the file has an id below the number of entries written before it in its log, and the entry at that index is the site registered for it, also after setLogFile restarts the dictionary |
| PipelineSync.StepSync | runtime/RuntimeLogger.cc:396-625 | every action keeps what the four states of a sync promise about the buffers passed so far |
| PipelineTheorems.RunInv | runtime/RuntimeLogger.cc:383-625 | all three invariants hold at every moment of every interleaving |
| PipelineTheorems.Conservation | runtime/RuntimeLogger.cc:383-625 | at every moment each thread's logged messages are file, write in flight, encoder and unread staging bytes in this order, across chunks, buffer swaps and deletions, and the scan index is valid |
| PipelineScan.PassVisits | runtime/RuntimeLogger.cc:418-505 | a pass that finds nothing to encode, whatever the logging threads do meanwhile, looks at exactly those buffers that it does not miss by deleting its first one: the one before it, or all others when it started at index 0 |
| PipelineScan.PassVisitsAll | runtime/RuntimeLogger.cc:418-505 | such a pass looks at all buffers if and only if it does not delete its first one while others remain |
| PipelineExact.SyncMoves | runtime/RuntimeLogger.cc:505-530 | the four states of a sync follow each other exactly as the guards of the thread say |
| PipelineExact.SyncSafety | runtime/RuntimeLogger.cc:396-625 | if no pass since the request deleted its first buffer while others remained, in particular if no buffer was deleted, then once syncStatus is SYNC_COMPLETED every message logged before the request is in the file |
| PipelineExact.CompletedCovers | runtime/RuntimeLogger.cc:396-625 | whatever was deleted, the file has what was logged before the request into every buffer that the completing pass did not miss |
| PipelineExact.PassExact | runtime/RuntimeLogger.cc:477-524 | at the end of the completing pass, what a thread had logged before the request is written if and only if the buffers that the pass missed held nothing of it when the first buffer was deleted |
| PipelineExact.SyncExact | runtime/RuntimeLogger.cc:396-625 | every completed sync was decided by one pass, and when it completes the file has all that a thread had logged before the request if and only if that pass did not miss the thread's buffer while it held some of it |
| PipelineCounterexample.SyncCanMissMessages | runtime/RuntimeLogger.cc:477-524 | a run in which a sync completes while a message logged before the request is not in the file |
| PipelineMarks.ScanOrder | runtime/RuntimeLogger.cc:418-505 | the scan goes round the buffers one by one, within a pass and from one to the next; deleting one brings the next to its place, and one that the output was too full for comes again |
| PipelineMarks.StepFull | runtime/RuntimeLogger.cc:452-457 | while the output buffer is full nothing is scanned; it is free again when its content is handed to the file system |
| PipelineMarks.MarkExact | runtime/RuntimeLogger.cc:443-466 | an extent holds the next messages of the buffer at hand, and carries the mark of a new pass if and only if, since the last extent with messages or the start of the thread, the scan has come back to index 0 or deleted the last buffer |
| PipelineMarks.StageOfExtent | runtime/RuntimeLogger.cc:498-504 | the stage that an extent is in, to the ordered decoder, is the number of marked extents before it |
| PipelineMarks.StagesAreRounds | runtime/RuntimeLogger.cc:498-504 | there are no more stages than times the scan has come back, but for extents without messages |
| PipelineMarks.MarksApart | runtime/RuntimeLogger.cc:498-504 | between two marked extents with messages the scan has come back |
| PipelineLateRun.LateRunFails | runtime/Log.cc:1849-1965 | a run in which messages are logged in order of time, no thread ends and every message fits, whose file a new decoder prints out of order |
| Packing.FewestBytes | runtime/Packer.h:104-121 | the container chosen is the smallest that holds the value |
| Packing.LittlePrefix | runtime/Packer.h:123-127 | the low bytes of a full-width copy are the packed bytes |
| Packing.TagOfInteger | runtime/Packer.h:145-161 | the tag of every integer fits a nibble, is not the one for 16 bytes, determines the byte count, and the count never exceeds the size of the type |
| Packing.FewestSigned | runtime/Packer.h:145-161 | signed values take the fewest bytes of their magnitude and a tag above 8 when negative, down to -256^(width - 1), and the whole width below that |
| Packing.UnpackOfPack | runtime/Packer.h:247-265 | reading with any integer type gives the packed value converted to that type, if and only if the type is no wider than the one packed or the value is not so far below zero that it went out unnegated |
| Packing.IntegerRoundTrip | runtime/Packer.h:247-265 | a value unpacked with its own type is the value |
| Packer.PackUnsignedInto | runtime/Packer.h:95-130 | the fewest bytes are appended, the whole variable is copied, nothing beyond the copy changes |
| Packer.PackInto | runtime/Packer.h:145-161 | the same for signed values, negated where that saves a byte |
| Packer.GetSizeOfPackedValues | runtime/Packer.h:304-329 | the sum over nibble pairs and a last single nibble is the total size that the tags announce |
| Arguments.TagsGiveSize | runtime/Packer.h:304-329 | the tags alone announce exactly the bytes of the packed arguments |
| Arguments.TruncatedAt | runtime/NanoLogCpp17.h:603-659 | each argument is cut by the precision that governs its position |
| Arguments.TruncatedIs | runtime/NanoLogCpp17.h:603-659 | a string keeps at most as many characters as the number in the format, or the last dynamic precision before it unless negative, and all without a precision; nothing else changes |
| Arguments.TextPrefix | runtime/NanoLogCpp17.h:615-625 | a truncated string is a byte prefix of the original, for narrow and wide characters |
| Arguments.CompressedFits | runtime/NanoLogCpp17.h:918-956 | packed values and terminated strings never need more room than the stored arguments |
| ArgumentStore.GetArgSize | runtime/NanoLogCpp17.h:551-659 | size, byte length and following precision of one argument are those of the truncated argument |
| ArgumentStore.GetArgSizes | runtime/NanoLogCpp17.h:699-721 | the total is the number of bytes that storing the arguments takes |
| ArgumentStore.StoreArgument | runtime/NanoLogCpp17.h:368-436 | one argument is appended in its stored form, or refused when its length does not fit 32 bits |
| ArgumentStore.StoreArguments | runtime/NanoLogCpp17.h:468-492 | all arguments are appended in order, unless a string is too long |
| LogSite.Log | runtime/NanoLogCpp17.h:994-1047 | the reserved size is exactly the entry's size, and the entry holds id, time and truncated arguments |
| ArgumentCompress.FromRawOfRaw | runtime/NanoLogCpp17.h:801-802 | the variable read back from the stored bytes is the one stored |
| ArgumentCompress.CompressSingle | runtime/NanoLogCpp17.h:744-815 | one argument is packed, copied or skipped, according to the pass, and the input moves past it |
| ArgumentCompress.CompressInternal | runtime/NanoLogCpp17.h:858-895 | a pass sets exactly the tags and emits exactly the bytes of the remaining arguments |
| ArgumentCompress.SetNibblesHolds | runtime/NanoLogCpp17.h:808-813 | setting nibbles one by one keeps those before and leaves the new ones readable |
| ArgumentCompress.Compress | runtime/NanoLogCpp17.h:918-956 | nibbles, packed values and strings are appended, the input is consumed exactly, and memory more than three bytes beyond the uncompressed size is untouched |
| ArgumentDecode.UnpackMatching | runtime/Packer.h:247-290 | every packed argument, integer, pointer or floating point, is rebuilt by the format type that prints it |
| ArgumentDecode.Nibbler.constructor | runtime/Packer.h:361-371 | the end of the values is found from the nibbles alone |
| ArgumentDecode.Nibbler.GetNext | runtime/Packer.h:381-396 | the next tag and the next bytes are read, and the assert on the end of the values holds while nibbles are left |
| ArgumentDecode.ReadString | runtime/Log.cc:1605-1652 | a string ends at its terminator, narrow or wide, and is read whole |
| ArgumentDecode.DecodeFragment | runtime/Log.cc:1438-1665 | width, precision and argument of a fragment are the next values of the message |
| ArgumentDecode.DecodeArguments | runtime/Log.cc:1433-1670 | the values that the fragments ask for are the original ones, strings truncated; the read position ends in front of the strings that no fragment was left for, and exactly behind the compressed arguments when there are none |
| CodecTheorems.ArgumentRoundTrip | runtime/NanoLogCpp17.h:918-956 | storing, compressing and decoding any arguments gives back those that the fragments ask for, strings cut to their precisions |
| LogHeader.CompressLogHeader | runtime/Log.h:530-548 | id and time difference are appended behind one byte of tags; the number returned is right if and only if the difference is less than 2^56 in magnitude |
| LogHeader.DeltaUndone | runtime/Log.h:565-584 | adding the stored difference modulo 2^64 gives the absolute time |
| LogHeader.DecompressLogHeader | runtime/Log.h:565-584 | a header gives back id and absolute time and the position behind it; any other entry type is refused |
| Entries.BodyAppend | runtime/Log.cc:376-391 | messages encoded one after the other, each time relative to the one before, make up the extent |
| Entries.MessageFits | runtime/Log.cc:368-374 | everything written for an entry, the over-copying of pack included, fits the worst case that is tested for |
| Entries.ExtentFits | runtime/Log.h:883-888 | an extent of at most half a staging buffer of whole entries fits the storage of the decoder |
| Encoders.StopsExactly | runtime/Log.cc:322-374 | when a message is left for a later call, in numbers: bytes used up, statement unknown, cut off and smaller than half a staging buffer, or less room than twice its size and 16 bytes |
| Encoders.EncodeMessage | runtime/Log.cc:376-386 | header and arguments of one message are appended within the worst case |
| Encoders.EncodeMessages | runtime/Log.cc:322-392 | the loop encodes messages up to the first one that a test stops it at, and accounts for their sizes |
| Encoders.LengthPatched | runtime/Log.cc:394-398 | adding the bytes of the messages to the length field turns the started extent into the whole one |
| Encoders.Encoder.constructor | runtime/Log.cc:94-110 | nothing is encoded yet and no extent is open |
| Encoders.Encoder.EncodeBufferExtentStart | runtime/Log.cc:421-450 | fails exactly when the longest header would not fit, and then changes nothing; otherwise appends the header |
| Encoders.Encoder.EncodeLogMsgs | runtime/Log.cc:306-404 | appends one whole extent, back-patched length included, of the messages before the first that stops it, and returns the sum of their sizes |
| Encoders.Encoder.EncodeNewDictionaryEntries | runtime/Log.cc:140-184 | appends one fragment with as many new statements as fit |
| Encoders.Encoder.SwapBuffer | runtime/Log.cc:475-497 | hands out the buffer with its used and full size and goes on empty |
| ExtentReader.BufferFragment.ReadBufferExtent | runtime/Log.cc:1194-1239 | fails exactly when the extent is larger than the storage; otherwise finds its thread, pass mark and messages, and keeps an old time when there are none |
| ExtentReader.BufferFragment.Reset | runtime/Log.cc:1172-1180 | nothing is left to decompress, but the time of the last message stays |
| ExtentReader.BufferFragment.DecompressNextLogStatement | runtime/Log.cc:1317-1682 | the next message with its id, absolute time and argument values, exactly while there is one |
| CodecTheorems.ConsumedWithinBytes | runtime/Log.cc:354-357 | with entries below half a staging buffer no more than the bytes asked for are consumed |
| CodecTheorems.ChunkIsReadable | runtime/Log.cc:1199-1204 | what the encoder makes of such a chunk is never too large for the decoder |
| CodecTheorems.EncodeAndReadBack | runtime/Log.cc:306-404 | for every run of whole entries, reading the encoded extent gives the thread, the pass mark and exactly the consumed messages in order, which are all up to the first that one of the encoder's tests stops at |
| Dictionaries.EncodeInfos | runtime/Log.cc:154-178 | statements are written as long as the next one fits with a byte to spare |
| Dictionaries.EncodeNewDictionaryEntries | runtime/Log.cc:140-184 | one fragment with its exact size and the number of statements up to its end in its header, or nothing when not even the header fits |
| Dictionaries.TextOfCString | runtime/Log.cc:1050-1063 | a terminated string is read back whole |
| Dictionaries.ReadInfo | runtime/Log.cc:1013-1060 | one statement is read back, and the buffers that hold its strings are large enough |
| Dictionaries.ReadDictionaryFragment | runtime/Log.cc:992-1077 | the statements of a fragment are read back, consuming exactly the size that its header gives |
| CodecTheorems.DictionaryRoundTrip | runtime/Log.cc:140-184 | over any number of buffers of any sizes, each takes the statements up to the first that does not fit, the fragments read back are the statements at their indices, and as many buffers as statements, with room for any of them, take all |
| Decoders.BlockStarts | runtime/Log.h:476-506 | the two low bits of its first byte tell what a block is |
| Decoders.Decoder.PeekEntryType | runtime/Log.h:496-506 | the type of the next block, or the end of the file |
| Decoders.Decoder.SkipPadding | runtime/Log.cc:1771-1775 | all padding and nothing else is consumed |
| Decoders.Decoder.InternalDecompressUnordered | runtime/Log.cc:1726-1785 | the messages of a well-formed file, in file order |
| Decoders.Decoder.GetNextLogStatement | runtime/Log.cc:1989-2059 | the next message in file order, or the news that there is none |
| CodecTheorems.BothPathsAgree | runtime/Log.cc:1726-1785 | on every well-formed file the two ways of decoding give the same messages |
| MergeConservation.EachMessageOnce | runtime/Log.cc:1846-1968 | every message of every extent is printed exactly once and in its extent's order, with no assumption about times, empty extents included |
| MergeOrder.MinStageLeast | runtime/Log.cc:1915-1926 | the stage chosen is the first with the least next time |
| MergeOrder.NewDecoderInOrder | runtime/Log.cc:1849-1965 | for a new decoder: with extents in order by themselves, stages two or more apart in order, and a message in every stage, the output is in order of time however ties in the heaps are broken, empty extents or not |
| MergeOrder.DecompressesInOrder | runtime/Log.cc:1849-1965 | the same for a decoder that has freed fragments in other files, when each empty extent shows a time printed before or not later than what comes two stages on |
| MergeOrder.TameOrderly | runtime/Log.cc:1132-1153 | which it does when what is free shows no time later than the messages of the file |
| MergeOrder.NonEmptyOrderly | runtime/Log.cc:1849-1965 | without empty extents the first two conditions are enough for any decoder |
| MergeLimits.ThreeStageWindowFails | runtime/Log.cc:1955-1964 | stages three or more apart in order are not enough: a log that comes out of order |
| MergeLimits.EmptyStageFails | runtime/Log.cc:1226-1232 | one stage without messages is not harmless: a log that meets the other conditions and comes out of order, from a new decoder |
| MergeLimits.LateEmptyFails | runtime/Log.cc:1132-1153 | nor is an empty extent read into a fragment that was freed in another, later file |
| OrderedDecompression.FindMinStage | runtime/Log.cc:1915-1926 | the loop over the stages finds that stage |
| OrderedDecompression.PrintFront | runtime/Log.cc:1934-1952 | the front message is printed and its fragment put back or removed |
| OrderedDecompression.MoveUp | runtime/Log.cc:1954-1961 | the stages move up by one |
| OrderedDecompression.DecompressTo | runtime/Log.cc:1818-1969 | terminates on every log without leaving the array of stages, prints every message once and, under the conditions above, in order |
| FormatGrammar.ScanOfSpec | runtime/NanoLogCpp17.h:160-200 | flags, width, precision and length are found as they were written |
| FormatGrammar.ScanKeepsText | runtime/NanoLogCpp17.h:160-200 | what was scanned and what is left are the text |
| FormatParameters.ParseSpec | runtime/NanoLogCpp17.h:160-231 | one specification yields its dynamic width, dynamic precision and argument in this order, or an exception |
| FormatParameters.GetParamInfo | runtime/NanoLogCpp17.h:131-236 | parameter number n of the format, the exception if a refused specification comes before it, or the mark that there is none |
| FormatParameters.CountFmtParams | runtime/NanoLogCpp17.h:307-315 | the number of parameters, unless the format is refused |
| FormatParameters.GetNumNibblesNeeded | runtime/NanoLogCpp17.h:330-342 | the number of parameters that are not strings, unless the format is refused |
| FormatAgreement.ParamsOfPieces | runtime/NanoLogCpp17.h:131-236 | for every sequence of text, double percents, specifications and backslashes, the parameters of its text are those of the specifications, escaped or not |
| MicroCode.MatchSound | runtime/Log.cc:849-855 | a match of the regular expression is a specification that the text begins with |
| MicroCode.MatchComplete | runtime/Log.cc:849-855 | every specification that the regular expression describes is matched, and only as itself |
| MicroCode.StringTypes | runtime/Log.cc:724-803 | exactly the specifier s has a string type |
| MicroCode.FragmentsKeepText | runtime/Log.cc:945-969 | the fragments of any accepted format put together are the format |
| MicroCode.SplitLoop | runtime/Log.cc:868-947 | the loop cuts the format behind every specification and counts nibbles and fragments modulo 256 |
| MicroCode.CreateMicroCode | runtime/Log.cc:827-981 | fails exactly for formats with a combination it has no type for; otherwise the fragments and counters of the format |
| FormatAgreement.SplitOfPieces | runtime/Log.cc:868-947 | on such pieces the decode-time parser finds the parameters of the specifications that it supports and that no backslash hides from it |
| FormatAgreement.PiecesAgreeIff | runtime/Log.cc:827-981 | on such pieces both parsers see the same parameters in the same order if and only if the decoder supports every specification and none is behind a backslash |
| FormatAgreement.ParsersAgreeIff | runtime/Log.cc:827-981 | the same for every format string that compiles and has no flagged percent sign and no backslash in front of two percent signs |
| FormatAgreement.ParsersAgreeIffPaired | runtime/Log.cc:827-981 | for every format string that compiles: the parsers agree if and only if the decoder accepts it and its fragments pair up one by one, in width, precision and being a string, with the specifications that the compiler has found |
| FormatAgreement.SameNibbles | runtime/Log.cc:926-934 | where the parsers agree they count the same nibbles |
| FormatAgreement.BackslashDisagrees | runtime/Log.cc:871-875 | a backslash in front of a specification hides it from the decoder only |
| FormatAgreement.MarkedPercentDisagrees | runtime/NanoLogCpp17.h:59-69 | a percent sign behind a flag is a parameter for the compiler only |
| FormatAgreement.MarkedPercentMayAgree | runtime/Log.cc:884-889 | to the decoder that percent sign begins a specification, so what follows can make the parsers agree again |
| StandardFormats.NumberedPrecision | runtime/NanoLogCpp17.h:184-196 | anywhere in a format, %.<n>s is a string of precision n, with any zeros before the digits of n |
| StandardFormats.StarPrecision | runtime/NanoLogCpp17.h:184-196 | %.*s is a precision and a string that it governs |
| StandardFormats.EmptyPrecision | runtime/NanoLogCpp17.h:184-196 | %.s is a string of precision 0 |
| StandardFormats.NoPrecision | runtime/NanoLogCpp17.h:184-236 | %s has no precision, and a precision of anything else is none of a string |
| StandardFormats.StandardIsSupported | runtime/Log.cc:849-855 | every specification of the standard but those with nothing behind the dot is one to both parsers, and the decoder has a type for it |
| StandardFormats.RefusedExactly | runtime/Log.cc:724-803 | exactly the listed pairs of length and specifier have no type |
| StandardFormats.RefusedFormats | runtime/Log.cc:904-910 | and the format of such a specification is refused exactly then |
| StandardFormats.StandardRead | runtime/Log.cc:724-803 | every value of the type that the standard names for a length and a specifier is read back as itself, but for the sign of size_t behind d and i and of ptrdiff_t behind u, o, x and X |
| StandardFormats.NeedsOfPieces | runtime/Log.cc:868-947 | what the fragments of a format of the standard read are the types of its specifications in order, an int for every star |
| StandardCodec.StandardRoundTrip | runtime/NanoLogCpp17.h:994-1047 | any format of text and standard specifications, with arguments of the types that the standard names: the values read back are those passed, strings as far as their precision goes, up to 255 fragments; storing fails exactly for 2^32 bytes or more of a string |
| FormatCodec.NibblesOfArguments | runtime/NanoLogCpp17.h:330-342 | the nibbles counted at compile time are those that the arguments take |
| FormatCodec.FormatMatches | runtime/Log.cc:827-981 | where the parsers agree, arguments passed for the parameters of the format are what the fragments read back, with the same number of nibbles on both sides |
| FormatCodec.AnalyzeFormatString | runtime/NanoLogCpp17.h:285-290 | the list of the parameters of a format |
| FormatCodec.FormatRoundTrip | runtime/Log.cc:1433-1670 | from the format string and its arguments to the values read back: both parsers run, the arguments are stored, compressed and decoded with the fragments that the decoder has counted in eight bits; the values come back in order, and all of them if and only if there are fewer than 256 fragments |
| FormatCodec.CounterWraps | runtime/Log.cc:926-947 | 256 times %s: the parsers agree, and the decoder has metadata without a fragment |
| FormatCodec.EntrySuffices | runtime/Log.cc:322-346 | with what encoder and decoder make of a format, an entry logged by it can be read back if and only if its fragments and nibbles are fewer than 256 each |
| FormatCodec.FormatsSuffice | runtime/Log.cc:322-346 | the same for all entries of an extent, and the dictionary describes them in any case |
| FileContents.FileShows | runtime/Log.cc:1726-1785 | what is written to a file is well-formed, and the messages that the decoder shows of a thread are those that the file holds of it |
| EndToEnd.FilesAreReadable | runtime/Log.cc:1726-1785 | at every moment of every run, all log files fit the decoder and are well-formed, and what it shows of a thread, file by file, are the messages written of it, in order, with id, time and argument values |
| EndToEnd.DecodedIsLogged | runtime/RuntimeLogger.cc:383-625 | what the decoder shows of a thread, over all files of the run, is the beginning of what the thread logged |
| EndToEnd.SyncedIsDecoded | runtime/RuntimeLogger.cc:719-729 | after a sync without the deletion described above, it shows all that the thread had logged before the request |
| TimeTrace.Buffer.constructor | runtime/TimeTrace.cc:83-92 | a buffer without events |
| TimeTrace.Buffer.Record | runtime/TimeTrace.cc:125-147 | the event is appended to the history, of which the ring keeps the latest, unless a reader is counted |
| TimeTrace.Buffer.Reset | runtime/TimeTrace.cc:175-184 | all events are discarded although the loop stops at the first unused slot |
| TimeTrace.Buffer.FirstIndex | runtime/TimeTrace.cc:229-241 | the oldest of the last min(count, size - 1) events |
| TimeTrace.StartTime | runtime/TimeTrace.cc:250-256 | the latest of the oldest times |
| TimeTrace.SkipEarly | runtime/TimeTrace.cc:259-266 | no event from the starting time on is passed over |
| TimeTrace.Earliest | runtime/TimeTrace.cc:276-290 | the next event is the earliest of all, if one is before the largest time |
| TimeTrace.KeptAllIff | runtime/TimeTrace.cc:276-290 | nothing from the starting time on is left out if and only if no event there has the largest time |
| TimeTrace.KeptBetween | runtime/TimeTrace.cc:259-290 | of sorted events those from the starting time on and before 2^64 - 1, as one stretch |
| TimeTrace.PrintInternal | runtime/TimeTrace.cc:213-338 | with each buffer in order, prints in order exactly the events of all windows from the latest of their oldest times on, all of them when none has the time 2^64 - 1; and counting a reader in leaves the count at zero |

## Left out

- Hardware memory ordering: the fences are taken to give ordered single-word reads and writes.
- StagingBuffers.StagingBuffer.ReserveProducerSpace: the class has the variant that does not wait; waiting is the repetition of its loop, proved to end in StagingRingTheorems.NoPermanentBlocking.
- PipelineExact.SyncSafety: asks that no pass deletes its first buffer while others remain, because without it the code does not keep the promise; SyncExact says what remains of it.
- Pipeline: messages there are records with a size; EndToEnd relates them to entries, extents and what is decoded, StagingRing to bytes in the ring, but the interleaving of single reads and writes of the ring is not composed with the compression thread into one state machine.
- EndToEnd.FilesAreReadable: messages are smaller than half of a staging buffer, thread ids have 32 bits, and the static information of all sites together is smaller than 2^30 bytes; the encoder reports an error for larger messages.
- FormatAgreement.ParsersAgreeIff: leaves out formats with a flagged percent sign or a backslash in front of two percent signs, because there the decoder begins a specification at the second percent sign and whether the two agree depends on text further on; ParsersAgreeIffPaired has the condition for all formats.
- FormatCodec.FormatRoundTrip: asks for fewer than 256 nibbles; with more, the decoder takes a part of the nibbles for values, and what it reads then is not part of this model.
- MergeOrder.NewDecoderInOrder: its conditions on a log are not derived from runs of the pipeline, which need not meet them (PipelineLateRun.LateRunFails).
- Failing asynchronous writes and corrupted files: the decoder is modelled on well-formed files, and on extents that are too large.
- Ordered decompression of files with several checkpoints, and the checkpoint record itself: the time of day in it is not part of this model.
- Arguments: the exception for a string of 2^32 bytes or more is a failing result; arguments whose C++ type does not match the format, which the compiler's format check rejects, are excluded.
- Encoders.Encoder.constructor: leaves out the checkpoint that starts a log file, as the source's skipCheckpoint does.
- Encoders.Encoder.EncodeLogMsgs: twice the size of an entry is computed without wrap-around, so entries are taken to be smaller than 2^31 bytes; they cannot be larger than a staging buffer. The counters of events and of missing metadata are not kept.
- Packer.GetSizeOfPackedValues: the 32-bit sum is not wrapped; the decoder has at most 255 nibbles.
- Dictionaries.EncodeNewDictionaryEntries: names and formats are shorter than 2^16 - 1 bytes, the width of their length fields.
- FormatParameters.GetParamInfo: a precision is a number without an upper bound, where the source has an int.
- MicroCode.CreateMicroCode: fragments are a list of records, not the byte layout of PrintFragment with its 16-bit length; the regular expression is given by what it describes.
- OrderedDecompression.DecompressTo: fragments hold decoded messages; reading their bytes is in ExtentReader, and the heap operations are those of their contract.
- TimeTrace.PrintInternal: no recording goes on at the same time, although nothing prevents it; the text of the output is not modelled.
- Printing itself, with what it does to negative widths and precisions, floating-point arithmetic on times, statistics and benchmarking switches.
- The preprocessor variant, the log decompressor's command line, the eBPF monitors and the socket front end: they would add little that is hard.
