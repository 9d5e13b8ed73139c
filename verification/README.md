# Verified model of the AWH network library

A Dafny model of the parts of AWH whose behaviour depends on state kept across calls, or on arithmetic
over addresses, with proofs of what they do for every input and every run:

- `chunked_body`, `web`, `web_calls`, `chunked_message`: the body parser of HTTP/1.1. `Step` is the meaning of
  one byte; the `Web` class copies runs of bytes as the source does and is proved equal to it.
- `cmp_wire`, `cmp`: the cluster message protocol, its encoder and decoder objects, and both ends together.
- `http2_data`, `http2_stream`, `http2`, `http2_events`: per-stream payload buffers with their records, the data-source
  callback, the whole life of a stream with what it loses, and the trigger under id 1.
- `node`, `retry`: the send path under its two memory budgets, and the web server's retry queues on top of it.
- `dns_names`, `dns_walk`: names in DNS messages, their labels and text, and the walk along compression pointers.
- `net_digits`, `net_address`, `net_parts`, `net_masks`: addresses as numbers, their order, network and host
  parts, membership, ranges and masks; `net_text`, `net_roundtrip`, `net_arpa`: their texts;
  `net_loops`, `net_reader`, `net_printer`, `net`: the loops and the `Net` class itself.
- `round_up`, `echo`: the rounding macro and the datagram echo pair.
- `numerals`, `texts`, `wrappers`: bytes, powers, numerals and pieces of text that the others share.

Objects that the source updates in place are classes; a buffer or dictionary is a field that the methods
reassign. Their methods are proved against functions of the old state, and the lemmas are about these functions.
A `ghost` field (`sent`, `received`, `past`, `ledgers`) records what happened so far and has no counterpart
in the source; the `history` of an HTTP/2 stream also stands for what nghttp2 holds of it.

`dafny verify dfyconfig.toml` checks the whole project.

## Where the code does not do what its documentation or the standards promise

The model follows the code. Each of these is a lemma with the exact condition or an input that shows it.

- A server that announced trailers rejects every chunked body. A client waits for ever for an announced trailer that
  does not come, and one that was not announced, or comes twice, ends the message with an error before its last byte:
  with nothing announced, at the first byte of the field (`ChunkedMessage.ServerTrailers`,
  `ChunkedMessage.MessageRead`).
- A chunk size with an extension is read as another size, usually 0, so that its data is not delivered; it is read
  right only if it is 0 or the line is as long as its size, modulo 256 (`ChunkedMessage.ExtendedSize`,
  `ChunkedMessage.ChunkExtension`).
- A body of announced length is counted by what the "binary" callback kept; if it keeps nothing, the message ends only
  if a call's bytes stop at its very end, or the first ones reach it (`WebCalls.UnkeptCuts`, `WebCalls.UnkeptBody`).
- Text behind the last complete trailer line stays in the chunk, which is then longer than its size of 0
  (`ChunkedBody.ChunkWithinAlways`).
- An encoder chunk size of at most the header's 19 bytes makes the copy loop run for ever or leave the payload
  (`Cmp.CopyLoopProgress`, `Cmp.Encoder.Push`). A decoder that reads a header without the signature locks a mutex it
  already holds, and one whose size wraps around with the header's takes a payload that is not there
  (`CmpWire.NextHeader`).
- A `sendData` that is refused, because it has no bytes or the session is finished, throws away what earlier calls of
  its stream accepted and did not send (`Http2Stream.StreamConserved`). nghttp2 may still hold a submission for that:
  it then serves later data under the flag of what was thrown away, so that END_STREAM is missing or misplaced, or
  resets the stream (`Http2Stream.EndStreamRuns`, `Http2Stream.EndStreamLost`).
- An operation started inside another HTTP/2 operation ends the event of both, and a kept function is called
  before it is forgotten, so that it can be called twice and one registered meanwhile is lost (`Http2Events.CalmRuns`,
  `Http2Events.UnnestedCalm`, `Http2Events.TriggerConserved`, `Http2Events.NestedCompletion`, `Http2Events.ReentrantTrigger`).
- Removing a broker does not give its memory back: the budget adds up exactly while nothing was lost this way
  (`NodeCore.Budgets`).
- A domain's labels are trimmed of blanks at their ends (`DnsNames.NameSurvives`).
- Extracting a DNS name knows no end of the buffer. With pointers to prior positions it ends, and within the buffer,
  exactly if none leads into the run of bytes that ends at itself and the buffer ends with a zero; only the byte 0xC0
  is taken for a pointer (`DnsWalk.PriorWalksDone`, `DnsWalk.PriorPointerLoops`, `DnsWalk.FaithfulExtraction`).
- A payload that fits is accepted at once although refused ones of its broker are queued, and overtakes them
  (`RetryQueue.SubmissionOrder`).
- IPv6 addresses are compared by the low byte of each group first (`NetAddress.GroupOrder`), and `compare` keeps
  its size in a byte (`NetLoops.CompareSized`).
- Assigning the IPv4 number 0 does nothing: `0.0.0.0` is in every network and begins no range
  (`NetParts.MappedMeans`, `NetParts.RangedMeans`, `NetParts.BetweenMeans`). A mask that cannot be read maps
  every address (`NetObject.Net.MappingMask`). An IPv4 zero and an IPv6 address are neither equal nor different, and whether
  an IPv6 address differs from one of another kind depends on uninitialised memory (`NetObject.Net.IsDifferent`).
- SHORT IPv6 text loses the second run of zero groups; LONG and MIDDLE text of an address that carries an IPv4
  address is read back as another one; parsing answers false for `::` (`NetRoundTrip.IPv6RoundTrip`).

## Model

| member | source | states |
|---|---|---|
| ChunkedBody.Atoi | src/sys/fmk.cpp:2942-3033 | the digit-by-digit sum of powers is the size line's number in base 16, modulo the machine word; any other character makes it 0 |
| ChunkedBody.RunConcat | src/http/web.cpp:365-635 | feeding a part and then the rest of a chunked body leaves the same state, and takes the same number of bytes, as feeding it whole |
| ChunkedBody.ChunkFitsAlways | include/http/web.hpp:346-366 | in every reachable state a chunk in DATA holds less than its declared size, and a chunk of a positive size exactly that once past it |
| ChunkedBody.ChunkWithinAlways | include/http/web.hpp:346-366 | on the way through any stream the chunk is never longer than its declared size, zero included, exactly if no line feed ends the trailers behind text without a carriage return |
| WebParser.RunMissingData | src/http/web.cpp:365-635 | byte-by-byte reading of missing chunk data is collecting it in one piece |
| WebParser.Web.ReadTrailer | src/http/web.cpp:383-430 | a trailer line is stored under its lower-case name and crossed off, or ends the message when it was not announced |
| WebParser.Web.ReadRun | src/http/web.cpp:365-635 | moving a run of data at once leaves the same rest of the reading as moving it byte by byte |
| WebParser.Web.ReadChunks | src/http/web.cpp:359-635 | the loop over a buffer is the byte-by-byte meaning, and its result is the number of bytes that takes |
| WebParser.Web.ReadPayload | src/http/web.cpp:296-635 | one call in any state: the new fields and the bytes processed, for chunked, announced and unlimited bodies |
| WebCalls.ChunkedCuts | include/http/web.hpp:421-460 | however a stream is cut into calls, with unprocessed bytes presented again, a chunked body leaves the parser in the state of one single call, with the same total of bytes taken |
| WebCalls.AnnouncedCuts | src/http/web.cpp:316-357 | for every cut, a body of announced length that the callback keeps is delivered in order and ends at its last byte, once, with the rest untouched |
| WebCalls.UnkeptCuts | src/http/web.cpp:318-357 | when the callback keeps nothing and some bytes came already, the message ends, over every cut, exactly if some of the next pieces stop at the announced length, and then took just that many bytes |
| WebCalls.UnkeptBody | src/http/web.cpp:318-357 | from the start of the body it also ends if the first piece that is not empty has it whole |
| WebCalls.UnlimitedBody | src/http/web.cpp:306-315 | a body without a length takes everything and never ends by itself |
| ChunkedMessage.HexIsPositional | src/sys/fmk.cpp:2942-3033 | hexadecimal size lines are read as the numbers they denote |
| ChunkedMessage.ReadsMessage | src/http/web.cpp:359-635 | an encoded message (section 7.1 of RFC 9112) whose trailer fields were announced takes the parser to its data, its trailers and its end, byte for byte |
| ChunkedMessage.MessageRead | src/http/web.cpp:359-635 | for all non-empty chunks and all trailer fields, the message is read to its last byte and ends there exactly if nothing was announced and no field came, or each announced field came once to a client and no other did; then the body is the concatenated chunks, it ended no earlier, and nothing behind it is consumed |
| ChunkedMessage.AnnouncedRead | src/http/web.cpp:359-635 | with announced fields only, each at most once, all of the text is taken and the data and fields stored, and what is missing for the end is exactly an announced field that did not come |
| ChunkedMessage.TrailerSection | src/http/web.cpp:383-430 | the fields and the empty line behind the last chunk end the message with their last byte exactly if they are those announced, each once |
| ChunkedMessage.ServerTrailers | src/http/web.cpp:458-502 | a server with announced trailers reports an error at the byte after the last chunk's line |
| ChunkedMessage.ExtendedSize | src/sys/fmk.cpp:2942-3033 | the size read from a hexadecimal size with an extension, for lines of any length, and that it is the size itself exactly if that is zero or the line is as long as it, modulo 256 |
| ChunkedMessage.ChunkExtension | src/http/web.cpp:433-635 | a chunk with an extension (section 7.1.1 of RFC 9112) is delivered exactly if its size line is as long as the size, modulo 256 |
| ChunkedMessage.ExtensionFault | src/http/web.cpp:458-635 | data behind a size line read as zero is an error at its first byte that is no carriage return |
| CmpWire.HeaderRoundTrip | include/cluster/cmp.hpp:58-76 | the packed header is read back field by field |
| CmpWire.UnpackPack | src/cluster/cmp.cpp:313-460 | whichever of compression and encryption applied, failed or was skipped, the payload comes back unaltered |
| CmpWire.ReadSplit | src/cluster/cmp.cpp:615-955 | reading a part of a stream and then the rest is reading it whole, for every cut and every stream, with corrupted headers and with sizes that wrap around in the machine word |
| CmpWire.ReadWire | src/cluster/cmp.cpp:685-955 | reading the whole stream of accepted pushes gives exactly their messages and leaves nothing |
| CmpWire.Delivery | src/cluster/cmp.cpp:685-955 | any prefix of the stream gives a prefix of the messages, and never a header that stops the decoder |
| CmpWire.NextHeader | src/cluster/cmp.cpp:695-731 | behind any stream of accepted pushes the decoder blocks on the next header exactly if it lacks the signature, and overruns exactly if its size wraps around with the header's |
| Cmp.CopyLoopProgress | src/cluster/cmp.cpp:62-100 | the encoder's copy loop advances within the payload if and only if the chunk size exceeds the header's |
| Cmp.Encoder.Work | src/cluster/cmp.cpp:50-122 | header and payload are appended whole for every chunk size above the 19 bytes of a header; any other one stalls behind the header |
| Cmp.Encoder.Push | src/cluster/cmp.cpp:313-460 | a push appends one record, or stalls exactly for a payload under a chunk size of at most 19; until then drained and buffered bytes together stay the stream of all accepted pushes |
| Cmp.Encoder.Erase | src/cluster/cmp.cpp:188-214 | draining any number of bytes keeps drained plus buffered bytes |
| Cmp.Decoder.Process | src/cluster/cmp.cpp:685-873 | one step uses a header, a payload or both and leaves the meaning of the rest as it was, or stops at a header that cannot be survived; sizes are summed in the machine word |
| Cmp.Decoder.Prepare | src/cluster/cmp.cpp:880-955 | all complete records are queued and exactly the unusable rest is left |
| Cmp.Decoder.Push | src/cluster/cmp.cpp:615-678 | after any sequence of fragments the queue, the header and the buffer are what reading all bytes received so far gives |
| Cmp.Decoder.Get | src/cluster/cmp.cpp:590-608 | the first queued message, without removing it |
| Cmp.Decoder.Pop | src/cluster/cmp.cpp:490-517 | messages leave in order, each once |
| Cmp.EndToEnd | src/cluster/cmp.cpp:313-955 | whatever was pushed, drained and received so far, the decoder has handed out a prefix of the pushed messages, in order and unaltered, and all of them once every byte arrived, unless a push stalled |
| Http2Data.LeftSizes | include/http/http2.hpp:217-220 | the record sizes add up to the bytes not sent yet |
| Http2Data.LeftTake | src/http/http2.cpp:904-952 | sending bytes of the first record shortens or removes that record only |
| Http2Data.Accepts | src/http/http2.cpp:1629-1748 | accepting more data keeps the stream coherent with its history |
| Http2Data.Hands | src/http/http2.cpp:904-952 | answering a request of any size keeps the stream coherent, and END_STREAM goes out with the last byte of its record and only then exactly if the submission that asks agrees with the record |
| Http2Data.Covered | include/http/http2.hpp:217-220 | in a coherent stream the records cover the payload exactly, so the callback finds data whenever there is a record |
| Http2Stream.StreamConserved | src/http/http2.cpp:1629-1748 | over every run of a stream, the bytes written and buffered are the accepted ones in order exactly if no refused call and no end of the session came while bytes were buffered |
| Http2Stream.Account | src/http/http2.cpp:1733-1741 | all accepted bytes were written, were thrown away by a refused call, or are buffered |
| Http2Stream.MisleadsStep | src/http/http2.cpp:904-952 | a frame is marked wrongly exactly if a submission that outlived its records is served from one it does not agree with |
| Http2Stream.EndStreamRuns | src/http/http2.cpp:904-952 | over every run END_STREAM goes out with the last byte of a record that carries it, and only then, exactly if no such submission is served |
| Http2Stream.NeverStale | src/http/http2.cpp:1733-1741 | there is none as long as no call is refused while a submission is under way |
| Http2Stream.EndStreamLost | src/http/http2.cpp:1733-1741 | a run in which the last data of a stream goes out without END_STREAM |
| Http2Object.Streams.SendData | src/http/http2.cpp:1629-1748 | the data is accepted behind what is buffered, or refused and the stream's buffer thrown away, while nghttp2 keeps what was submitted; no other stream changes |
| Http2Object.Streams.Submit | src/http/http2.cpp:1038-1091 | the first record is handed to nghttp2 with its flag when the window has room for it and no submission is under way |
| Http2Object.Streams.Fill | src/http/http2.cpp:904-952 | the callback's data, flags, buffer and records for every request size |
| Http2Object.Streams.Read | src/http/http2.cpp:904-952 | serving a submission takes one step of the stream, leaves the others, and fails only when the submission outlived its records and nothing was accepted since |
| Http2Object.Streams.Free | src/http/http2.cpp:2048-2064 | the session, its submissions and all buffers are gone, and what they held is lost |
| Http2Object.StreamHistory | src/http/http2.cpp:904-952 | in every reachable state the accepted bytes are those emitted, lost and buffered, in order exactly if none was lost; since the last loss they are emitted or buffered in order, the record sizes sum to the buffer, and a frame's END_STREAM is right exactly if its submission agreed with its record |
| Http2Events.CalmRuns | src/http/http2.cpp:986-1030 | over every run, with operations nested in any way and kept functions that start operations, no function runs during an operation exactly if no step registers one after an inner operation ended the outer one's event, or completes a nested operation with one kept |
| Http2Events.UnnestedCalm | src/http/http2.cpp:986-1030 | as long as no operation begins inside another, no function runs during an operation, whatever kept functions start |
| Http2Events.TriggerConserved | include/http/http2.hpp:563-581 | over every run, each registration was called once, replaced before, or is still kept exactly if no completion calls a function whose call has not returned and no call returns with a function registered meanwhile still kept |
| Http2Events.NestedConserved | src/http/http2.cpp:1013-1030 | with any nesting it holds as long as kept functions start no operation |
| Http2Events.KeptRuns | src/http/http2.cpp:1013-1030 | in every reachable state a kept function is called when the innermost operation completes, and nothing is kept without an event |
| Http2Events.LastRegistrationRuns | include/http/http2.hpp:563-581 | a function registered during an operation is the one called at its end exactly if no later one replaced it |
| Http2Events.NestedCompletion | src/http/http2.cpp:1013-1030 | completing a nested operation runs the function while the outer one is still active |
| Http2Events.ReentrantTrigger | src/http/http2.cpp:1019-1024 | a function that completes an operation of its own is called once more |
| Http2Events.Events.Register | include/http/http2.hpp:563-581 | registration runs the function at once if and only if no event is active |
| Http2Events.Events.CommitEvent | src/http/http2.cpp:986-1007 | committing names the operation's event again |
| Http2Events.Events.FinishEvent | src/http/http2.cpp:1013-1021 | completing under the event named last clears it and calls the kept function, if any |
| Http2Events.Events.Forget | src/http/http2.cpp:1023-1028 | when that call returns, whatever is kept is forgotten and a postponed close is made good |
| Http2Events.Events.CloseSession | src/http/http2.cpp:2069-2089 | closing during an event is postponed |
| NodeCore.TotalUpdate | include/core/node.hpp:191-208 | changing one broker's store changes the total by just that |
| NodeCore.Node.Send | src/core/node.cpp:784-878 | a payload is accepted whole if it fits the broker's and the global budget, refused otherwise, and nothing else changes |
| NodeCore.Node.Erase | src/core/node.cpp:359-395 | written bytes leave from the front, their memory returns, and other brokers keep theirs |
| NodeCore.Node.Remove | src/core/node.cpp:207-239 | a removed broker's bytes are lost to the budget |
| NodeCore.Budgets | src/core/node.cpp:158-878 | in every reachable state each broker's stored and free bytes make up its allowance, written and stored bytes are the accepted ones in order, the total keeps within the budget, and it adds up exactly if nothing was lost |
| RetryQueue.NothingLost | sample/webServer.cpp:127-162 | over every run, payloads accepted on retry followed by those still queued are those refused, in order and each once, whatever happens to other brokers |
| RetryQueue.SubmissionOrder | sample/webServer.cpp:127-162 | over every run a broker's payloads reach the node in the order of their submission exactly if none is accepted at once while others are queued |
| RetryQueue.WebServer.Unavailable | sample/webServer.cpp:149-162 | a refused payload goes behind its broker's queue |
| RetryQueue.WebServer.Available | sample/webServer.cpp:127-147 | the first queued payload is sent again if it fits the reported size, and leaves the queue exactly if it is accepted |
| RetryQueue.Program.Submit | sample/webServer.cpp:449-452 | every payload is either accepted by the node or queued once |
| RetryQueue.Program.Written | sample/webServer.cpp:127-147 | when the reported size is what the node has free, a retry is never refused again and no other queue is touched |
| DnsNames.Split | src/net/dns.cpp:178-200 | a domain becomes its length-prefixed labels |
| DnsNames.SectionsOfDotted | src/sys/fmk.cpp:197-300 | splitting dotted text gives its labels |
| DnsNames.Join | src/net/dns.cpp:246-281 | the dotted text of the labels in the buffer |
| DnsNames.Items | src/net/dns.cpp:288-326 | the labels in the buffer |
| DnsNames.ReadsName | src/net/dns.cpp:246-326 | a name anywhere in a buffer is read as its labels and its text |
| DnsNames.NameRoundTrip | src/net/dns.cpp:178-326 | joining after splitting is the name, and the items are its labels, for labels of 1 to 63 bytes without dots and without blanks at their ends |
| DnsNames.NameSurvives | src/net/dns.cpp:178-326 | labels of 1 to 63 bytes without dots are the labels of what splitting gives if and only if none starts or ends with a blank |
| DnsWalk.Extract | src/net/dns.cpp:208-239 | a walk that ends collects the bytes on its way |
| DnsWalk.EndsSoonOrNever | src/net/dns.cpp:208-239 | extraction meets a zero within the buffer, for any buffer and position, if and only if it does within as many steps as the buffer has bytes; it stays within the buffer without end if and only if it does so for that many |
| DnsWalk.BackwardWalksEnd | src/net/dns.cpp:208-239 | when every pointer leads to a run of bytes that stops before the pointer, it does not stay in the buffer for ever, and with a zero at the buffer's end it meets a zero within it |
| DnsWalk.PriorWalksEnd | src/net/dns.cpp:208-239 | when all pointers lead to prior positions, from every position it meets a zero or leaves the buffer, behind which the source reads on, exactly if none leads into the run of bytes that ends at that pointer itself |
| DnsWalk.PriorWalksDone | src/net/dns.cpp:208-239 | when all pointers lead to prior positions, from every position it meets a zero within the buffer exactly if none leads into its own run and the buffer's last byte is zero |
| DnsWalk.PriorPointerLoops | src/net/dns.cpp:208-239 | a pointer to a prior position is not enough |
| DnsWalk.FaithfulExtraction | src/net/dns.cpp:208-239 | a well-formed name (section 4.1.4 of RFC 1035), however compressed, is extracted as its labels if and only if its pointers stay below offset 256 and no label holds a zero or 0xC0 |
| DnsWalk.ExtractedName | src/net/dns.cpp:208-326 | extracting and then joining or itemising gives the same text and labels for every compression of a name |
| NetDigits.HostValue | src/net/net.cpp:1273-1428 | the host part of a digit string is its number modulo the size of the network |
| NetDigits.PartsAsBits | src/net/net.cpp:1273-1428 | bit by bit, the network part has the prefix bits and the host part the others |
| NetAddress.TotalOrder | src/net/net.cpp:2797-3161 | the comparisons form one total order within a kind, the numeric one for IPv4, and none between kinds |
| NetAddress.GroupOrder | src/net/net.cpp:2797-3042 | two IPv6 addresses are ordered as numbers if and only if the bytes of their first differing groups do not differ in opposite directions |
| NetAddress.NotNumeric | src/net/net.cpp:2797-2851 | ::100 is below ::2 |
| NetParts.PartsRecombine | src/net/net.cpp:1273-1428 | network and host part share no bit, have every bit, and add up to the address, for every address and prefix |
| NetParts.InNetwork | src/net/net.cpp:1999-2066 | having a canonical network as network part is lying in the interval from n to n + 2^(width - p) - 1 |
| NetParts.ImposedTwice | src/net/net.cpp:1273-1428 | imposing the network part again changes nothing |
| NetParts.MappedMeans | src/net/net.cpp:1999-2066 | membership under a prefix holds if and only if the network is canonical and the address is in its interval or is the IPv4 zero |
| NetParts.WildcardMeans | src/net/net.cpp:1854-1941 | for a network of leading nonzero digits, membership without a prefix is membership under the prefix of those digits |
| NetParts.RawRecombine | src/net/net.cpp:1651-1716 | in the operators' order too, an address is its network part plus its host part |
| NetParts.RangedMeans | src/net/net.cpp:1651-1716 | sharing the network part, range is begin <= address <= end, except that an IPv4 range may not begin at zero |
| NetParts.BetweenMeans | src/net/net.cpp:1774-1836 | with ends given as texts it is the address that may not be zero |
| NetMasks.MaskOnes | src/net/net.cpp:1530-1593 | the mask of a prefix has exactly that many bits |
| NetMasks.MaskReads | src/net/net.cpp:1446-1593 | the text of every mask is read back as the mask |
| NetMasks.PrefixOfMask | src/net/net.cpp:1446-1593 | mask2Prefix inverts prefix2Mask for every legal prefix of both kinds |
| NetMasks.ImposeMask | src/net/net.cpp:1245-1255 | imposing the mask of a prefix equals imposing the prefix, for every address and both parts |
| NetLoops.Compare | src/net/net.cpp:551-605 | the loop over bits from the top decides which buffer is the larger number |
| NetLoops.CompareSized | src/net/net.cpp:551-605 | it does so for all buffers of a size if and only if the size is below 256 |
| NetLoops.ClearBits | src/net/net.cpp:1309-1335 | clearing bits one by one leaves the bits below and above them |
| NetLoops.ImposeOctets | src/net/net.cpp:1287-1346 | the IPv4 branches of impose compute the parts digit by digit |
| NetLoops.ImposeGroups | src/net/net.cpp:1348-1407 | the IPv6 branches, over words stored low byte first, do so too |
| Texts.Itoa | src/net/net.cpp:449-502 | the loop writes the shortest numeral in the radix |
| Texts.ValueOfNumeral | src/net/net.cpp:405-502 | a numeral denotes its number |
| Texts.SplitText | src/net/net.cpp:614-706 | every piece between separators, trimmed |
| Texts.SplitJoin | src/net/net.cpp:614-706 | splitting undoes joining |
| NetText.IPv4RoundTrip | src/net/net.cpp:2415-2781 | every IPv4 address is read back from each of its texts |
| NetReader.FillOctets | src/net/net.cpp:2455-2475 | octets between dots are stored until a text is no number |
| NetReader.ReadGroups | src/net/net.cpp:2477-2572 | the groups before the first and after the last empty piece, or the dotted tail, are stored |
| NetPrinter.PrintShort | src/net/net.cpp:2710-2724 | SHORT text keeps nonzero groups and one gap |
| NetPrinter.PrintGroups | src/net/net.cpp:2690-2758 | IPv6 text in all three formats, with the dotted tail of a carried IPv4 address |
| NetRoundTrip.DoubleColon | src/net/net.cpp:2477-2572 | the double colon stands for the missing groups wherever it is (section 2.2 of RFC 4291); only the bare one is answered with false |
| NetRoundTrip.IPv6RoundTrip | src/net/net.cpp:2415-2781 | printing and parsing back is the identity if and only if, for LONG and MIDDLE, the address carries no IPv4 address and, for SHORT, it carries one or its zero groups are one run |
| NetArpa.ReverseRoundTrip | src/net/net.cpp:2186-2397 | every address is read back from its reverse name (section 3.5 of RFC 1035, section 2.5 of RFC 3596) |
| NetArpa.PrintReversed | src/net/net.cpp:2186-2257 | octets or nibbles from the last to the first under the ARPA domain |
| NetArpa.GatherQuads | src/net/net.cpp:2319-2376 | nibbles are gathered by fours into groups from the last to the first |
| NetObject.Net.V4 | src/net/net.cpp:980-1034 | the IPv4 number in either byte order |
| NetObject.Net.SetV4 | src/net/net.cpp:1041-1099 | the buffer holds the number, unless it is zero, which is ignored |
| NetObject.Net.IsLess | src/net/net.cpp:2797-2851 | the order of one kind by the buffer's bytes |
| NetObject.Net.IsAtLeast | src/net/net.cpp:2984-3042 | the reverse of that order, with equality |
| NetObject.Net.IsDifferent | src/net/net.cpp:3049-3100 | inequality within a kind; across kinds, whether an IPv4 address is not zero, and whether an IPv6 address is not what uninitialised memory holds |
| NetObject.Net.Impose | src/net/net.cpp:1273-1428 | the object becomes the part of itself, or stays for a prefix of no or too many bits |
| NetObject.Net.Parse | src/net/net.cpp:2415-2597 | the object becomes what the text denotes, or what was read of it |
| NetObject.Net.Get | src/net/net.cpp:2604-2781 | the text in a format |
| NetObject.Net.Mask2Prefix | src/net/net.cpp:1446-1512 | the bits of a readable mask of the same kind, else 0 |
| NetObject.Net.Prefix2Mask | src/net/net.cpp:1530-1593 | the text of the mask of a legal prefix, else nothing |
| NetObject.Net.Range | src/net/net.cpp:1651-1716 | whether the host part lies between those of the ends |
| NetObject.Net.RangeText | src/net/net.cpp:1774-1836 | the same for ends given as texts |
| NetObject.Net.Mapping | src/net/net.cpp:1854-1941 | equal digits wherever the network has one |
| NetObject.Net.MappingPrefix | src/net/net.cpp:1999-2066 | whether the part of the address is the network |
| NetObject.Net.MappingMask | src/net/net.cpp:1963-1977 | the same under a mask; a mask that gives no prefix maps every address |
| NetObject.Net.SetArpa | src/net/net.cpp:2264-2397 | the object becomes what the reverse name denotes |
| RoundUp.OrBits | include/net/if.hpp:73-75 | the macro's or, bit by bit |
| RoundUp.RoundedMeans | include/net/if.hpp:73-75 | the least positive multiple of the word not below the length, for every power-of-two word |
| RoundUp.Steps | include/net/if.hpp:73-75 | a walk advancing by it over a buffer ends within a step for every word |
| Echo.RunInvariant | experience/cli.cpp:40-69 | one of four places holds the turn and the number of the round |
| Echo.EchoRuns | experience/srv.cpp:37-61 | in every run at most one datagram is under way, the client's k-th number is 11 k, and exactly one step is possible |
| Echo.EchoFits | experience/cli.cpp:40-69 | the 32-bit buffers hold their values until the server adds in round 195225787, and no longer |

## Left out

- Request and response lines and header fields (`readHeaders`, `prepare`): only the state they leave for the body parser is modelled; callbacks do not change the parser, except that "binary" may keep the data.
- ChunkedBody.Atoi: powers of 16 beyond the machine word are taken modulo the word, because the source converts a floating-point power to an integer there.
- Cmp.Encoder.Push: sizes are within 64 bits; a stalled push is the end of what is said of the encoder, because the source then does not come back or reads past the payload.
- Encryption and compression: two pairs of functions, each inverting the other where it succeeds; the queue's own memory limit and the decoder's `clear`.
- Http2Object.Streams.Submit: the submission loop and nghttp2 itself are any interleaving of `Submit` and `Read`; nghttp2 holds one submission for a stream, refuses a second one and any for a stream that it reset, keeps it when the buffer is thrown away, and asks for any number of bytes.
- Http2Events.TriggerConserved: one thread; an operation completes and commits under its own event, as all of the source do.
- WebCalls.UnkeptCuts: counts of 2^64 bytes, where the source's counter wraps around.
- NodeCore.Node.Send: the immediate write of instant sending, timeouts and the backpressure of the engine; `initBuffer` is part of `Connect` and `Store`.
- RetryQueue.Program.Written: assumes, as the sample does, that events do not nest and that the size reported is what the node has free.
- DnsNames.Join: buffers of 65536 bytes and more, where the source's 16-bit counters wrap, and buffers that end within a label, where it reads past the end, are excluded by the precondition.
- DNS resolution, caches, blacklists and servers.
- Host, network and URL recognition: `parse` takes the kind that the patterns recognised as a parameter; MAC addresses; the IPv4 and IPv6 variants of the three formats; `mode` and its table of local networks.
- NetObject.Net.Parse: texts with more octets or groups than the buffer has room for, which the source writes past its end, are excluded by the precondition; `std::stoi` and stream extraction are their plain numerals, without sign, base prefix and leading space.
- NetObject.Net.MappingPrefix: takes the left operand of the final comparison first, which the language leaves open.
- NetObject.Net.IsDifferent: what the uninitialised variable holds that an IPv6 address is compared with is a parameter.
- Texts.Itoa: the smallest 64-bit integer has no absolute value in the source; radix 1 does not end.
- The variants of `impose`, `range`, `mapping` and the mask functions that take a kind other than the object's own, where the source leaves its buffer.
- RoundUp.RoundedMeans: lengths near the largest integer, where the macro overflows.
- Echo.EchoRuns: lost and duplicated datagrams, errors and the pause between rounds.
- Sockets, event loops, TLS, processes, files, interfaces, logging, mutexes (every public method is one atomic step), digest authentication, URI parsing, compression codecs.
- The byte-swap macros of CityHash: three fixed permutations of bytes that no modelled code uses.
