# Yotta, verified

Yotta is an HTTP file server on an epoll loop. This project models its four cores in Dafny and proves what they are
for:

* the incremental HTTP parser picohttpparser (`Bytes`, `Scanner`, `Message`, `OutParams`, `FastNames`, `Parser`,
  `Grammar`, `RfcRequests`, `Verdicts`, `Guard`, `Incremental`),
* the in-place chunked decoder of the same library (`Chunked`, `ChunkedDecoder`, `ChunkedGrammar`, `RfcBodies`),
* the path normaliser and the resolution of request paths (`Paths`, `Layers`, `CleanPath`, `UrlResolution`),
* the connection and the event loop (`Responses`, `Ranges`, `Requests`, `Pipeline`, `ConnectionRuns`, `Schedules`,
  `Connection`, `Reactor`), and the descriptor list handed to a new process (`ListenFds`).

Each loop of the modelled functions is a method with loop invariants, and each object they update in place is a class or
an array. Every such method is proved equal to a function of its inputs or of the old state. Calls of the C and C++
libraries (`std::stoi`, `atoi`, `rfind`) are functions. The theorems are about those functions.

Some of the results are findings:

* `phr_parse_request` itself does not care how a request is cut into pieces (`Incremental.PiecemealAgrees`), but
  `read_callback_http` does. It hands the number of headers of one call to the next as the capacity. A request that
  arrives in two pieces is answered 400 unless it has no more header entries than header lines were complete in the
  first piece, and one in three or more pieces unless it has no header lines at all
  (`Incremental.CarriedCapacityExact`, `Schedules.SplitRequestAnswered`, with a request of one header as the
  witness). Once 2048 bytes have come without an answer the connection forgets them and starts over
  (`Schedules.FullBufferRestarts`).
* `phr_parse_headers` answers differently to an empty header block that is cut between its two bytes: its guard then
  looks for an end among the bytes that follow the block, so that these bytes decide whether the block is recognised,
  refused with -1 or waited for (`Guard.GuardAgreesHeaders`, `Incremental.EmptyBlockCut`). On all other blocks, and on
  all requests and responses, the guard is exact.
* The two builds of the parser treat a message differently exactly when the scalar loop refuses a header name for a byte
  of 0x80 or above that the 16-byte search steps over, to a line that is not refused there. All that the scalar build
  accepts the other accepts alike (`FastNames.RequestBuilds`).
* `phr_decode_chunked` decodes an encoding of section 4.1 of RFC 7230 if and only if no chunk size is written with more
  than 16 digits; a last chunk of 17 zeros is refused (`RfcBodies.RfcDecoded`, `RfcBodies.SeventeenZeros`).
* `accept_logic` does not reset the offset, which is the first byte of the last range answered on the connection
  (`ConnectionRuns.RunOffset`). After a range that starts past the first byte of its file no whole file can be served to
  the end on that connection until a range from byte 0 has been answered (`ConnectionRuns.WholeFileServed`).
* A one-byte range other than the last byte is widened to the end of the file (`Ranges.ClosedRangeMeetsRfc`), and the
  length of a range of 2 GiB overflows an `int` (`Ranges.LengthExact`, `Pipeline.RangeBody`). In a larger file an open
  range does not select the rest of the file (`Ranges.OpenRangeMeetsRfc`).
* A range header whose number no `int` holds is answered by an uncaught exception (`Ranges.StoiDecimal`,
  `Ranges.PrintedRange`); a suffix range, which section 2.1 of RFC 7233 allows, is answered 400 (`Ranges.SuffixRange`).
* A single answer can end the process with all its connections: when `std::stoi` throws, when the file is empty, when a
  whole file is answered while the offset is not 0, and when a range starts at the end of its file or behind it
  (`ConnectionRuns.RequestEndsProcess`, `ConnectionRuns.RangeEndsProcess`, which say exactly when).
* `clean_path` leaves bytes of longer renderings behind the cleaned path, and `open` reads them, because the name is
  ended by a NUL only when index.html is appended. `UrlResolution.OpenedExact` says exactly when the name opened is the
  resolved one. What is opened for a path that starts with a slash is always "." followed by proper names, at or below
  the served directory (`UrlResolution.RootedOpened`, `Requests.AnswersInside`). For other paths
  `UrlResolution.UnrootedOpened` says exactly when a `..` component is opened; `a/b/../..` opens `../b` and `ab/..`
  opens `..b` (`UrlResolution.OpensAbove`, `UrlResolution.OpensBeside`).
* Every request of RFC 7230 with version 1 is accepted if the array holds its header lines
  (`RfcRequests.RfcRequestAccepted`). The parser takes liberties beyond that: its table of token bytes has the double
  quote and is asked for the first byte of a header name only, a line may end in a lone line feed, method and target may
  be empty. A chunk's data may be followed by any number of carriage returns. The code is followed in all of these.

The build files pass no `-msse4.2`, so the scalar loops are what is built. The 16-byte searches are modelled beside
them.

`dafny verify dfyconfig.toml` checks the project.

## Model

| member | source | states |
|---|---|---|
| Parser.FindCharFast | src/picohttpparser/picohttpparser.c:105-134 | the block search stops at the first byte in the ranges or leaves fewer than 16 bytes unsearched |
| Parser.GetTokenToEol | src/picohttpparser/picohttpparser.c:136-204 | with block search or eight bytes a round the answer is that of the plain byte-by-byte scan: same token, same end, same -1 or -2 |
| Parser.AdvanceToken | src/picohttpparser/picohttpparser.c:70-93 | both builds find the token up to the first space, or the same -1 or -2 |
| Parser.CheckComplete | src/picohttpparser/picohttpparser.c:206-232 | the guard's loop computes the count of line ends from its resume point |
| Parser.ParseInt | src/picohttpparser/picohttpparser.c:235-254 | the value of the maximal run of digits, which must be followed by a byte, and that the int it is computed in holds it exactly when it is at most INT_MAX |
| Parser.ParseHttpVersion | src/picohttpparser/picohttpparser.c:257-267 | seven expected bytes, then the number, and what the int holds of it; -2 exactly on a proper prefix |
| Parser.ParseName | src/picohttpparser/picohttpparser.c:287-311 | the name of a header line in either build |
| OutParams.MethodSet | src/picohttpparser/picohttpparser.c:330-360 | the method is set exactly when a token and a space follow an optional line end, wherever parsing stops |
| OutParams.PathSet | src/picohttpparser/picohttpparser.c:330-360 | the path is set exactly when the method is and another token and a space follow |
| OutParams.MinorSet | src/picohttpparser/picohttpparser.c:330-360 | the minor version is the number behind the path once that has ended, and -1 before |
| OutParams.VersionSet | src/picohttpparser/picohttpparser.c:395-450 | of a response nothing is set before the number of the version has ended |
| OutParams.StatusUnset | src/picohttpparser/picohttpparser.c:395-420 | the status is 0 until a space and a number that has ended follow |
| OutParams.StatusSet | src/picohttpparser/picohttpparser.c:395-420 | the status, and exactly when the message is set, and to what |
| Parser.ParseHeaderLine | src/picohttpparser/picohttpparser.c:286-325 | one header or continuation line in either build, its slices and its verdict |
| Parser.ParseHeaders | src/picohttpparser/picohttpparser.c:269-328 | in either build the caller's array holds exactly the completed entries, whatever the verdict |
| Parser.ParseRequestLine | src/picohttpparser/picohttpparser.c:330-360 | the request line with its leading empty line, and what the out-parameters hold wherever it stops |
| Parser.PhrParseRequest | src/picohttpparser/picohttpparser.c:365-393 | return code, all out-parameters on success and failure, header array and the count left in num_headers, guard included, in either build |
| Parser.ParseStatusLine | src/picohttpparser/picohttpparser.c:395-420 | the status line, no byte read at or past the end, and what the out-parameters hold wherever it stops |
| Parser.PhrParseResponse | src/picohttpparser/picohttpparser.c:425-450 | return code, all out-parameters on success and failure, header array and the count left in num_headers, guard included, in either build |
| Parser.PhrParseHeaders | src/picohttpparser/picohttpparser.c:452-472 | the same for a header block on its own |
| FastNames.LineBuilds | src/picohttpparser/picohttpparser.c:286-311 | exactly which header lines the two builds read differently |
| FastNames.BlockBuilds | src/picohttpparser/picohttpparser.c:269-328 | exactly which header blocks; if they differ the scalar build refuses the block |
| FastNames.RequestBuilds | src/picohttpparser/picohttpparser.c:330-363 | exactly which requests; what the scalar build does not refuse the other treats alike |
| FastNames.ResponseBuilds | src/picohttpparser/picohttpparser.c:395-423 | the same for responses |
| Grammar.TokenCharRfc | src/picohttpparser/picohttpparser.c:95-103 | the table holds the token bytes of section 3.2.6 of RFC 7230 and the double quote |
| Grammar.HeaderComplete | src/picohttpparser/picohttpparser.c:286-325 | every printed field or continuation line is read to its own slices |
| Grammar.HeaderSound | src/picohttpparser/picohttpparser.c:286-325 | every accepted line is a printed field or continuation line |
| Grammar.BlockComplete | src/picohttpparser/picohttpparser.c:269-328 | every printed header block within the capacity is read to its entries |
| Grammar.BlockSound | src/picohttpparser/picohttpparser.c:269-328 | every accepted block is a printed one within the capacity |
| Grammar.RequestComplete | src/picohttpparser/picohttpparser.c:330-363 | any well-formed request at the front of any buffer is accepted with its own fields |
| Grammar.RequestSound | src/picohttpparser/picohttpparser.c:330-363 | the consumed bytes of any accepted buffer are a well-formed request with the reported fields |
| Grammar.RequestRoundTrip | src/picohttpparser/picohttpparser.c:330-363 | the reported slices hold the texts of the printed request |
| Grammar.RequestSlices | src/picohttpparser/picohttpparser.c:330-363 | the slices are ordered, disjoint and inside the consumed bytes; at most the capacity of headers |
| Grammar.ResponseComplete | src/picohttpparser/picohttpparser.c:395-423 | any well-formed response at the front of any buffer is accepted with its own fields |
| Grammar.ResponseSound | src/picohttpparser/picohttpparser.c:395-423 | the consumed bytes of any accepted buffer are a well-formed response with the reported fields |
| RfcRequests.RfcRequestAccepted | src/picohttpparser/picohttpparser.c:330-363 | any request of sections 3.1.1, 3.2 and 3.2.4 of RFC 7230, whatever follows it, is accepted with its method, target, version and header lines; white space after a value stays part of it |
| RfcRequests.ClassCodes | src/picohttpparser/picohttpparser.c:55-103 | the byte classes of the scanning loops, by the codes of their bytes |
| RfcRequests.ContinuationExactly | src/picohttpparser/picohttpparser.c:286-325 | a header line is a continuation exactly when it is not the first and starts with SP or HTAB |
| RfcRequests.AcceptedBytes | src/picohttpparser/picohttpparser.c:269-363 | an accepted request has no control byte or DEL in method, target, names and values, but tabs in values; the value of a named line starts with neither SP nor HTAB |
| Verdicts.HeadersStable | src/picohttpparser/picohttpparser.c:269-328 | a verdict on a header block other than -2 holds on every longer buffer |
| Verdicts.RequestStable | src/picohttpparser/picohttpparser.c:330-363 | a verdict other than -2, with its fields, holds on every longer buffer |
| Verdicts.RequestFinish | src/picohttpparser/picohttpparser.c:330-363 | every buffer answered -2 can be continued to one that is accepted as a whole |
| Verdicts.VerdictMeaning | src/picohttpparser/picohttpparser.h:51-52 | success exactly on a well-formed prefix, -2 exactly while some continuation is well-formed, -1 exactly when none is |
| Verdicts.HeadersMeaning | src/picohttpparser/picohttpparser.c:269-328 | the same for header blocks on their own |
| Verdicts.ResponseStable | src/picohttpparser/picohttpparser.c:395-423 | a verdict on a response other than -2, with its fields, holds on every longer buffer |
| Verdicts.ResponseFinish | src/picohttpparser/picohttpparser.c:395-423 | every buffer answered -2 can be continued to a response that is accepted as a whole |
| Verdicts.ResponseMeaning | src/picohttpparser/picohttpparser.c:395-423 | the three verdicts on responses, in terms of well-formed responses and their prefixes |
| Guard.ResumeExact | src/picohttpparser/picohttpparser.c:206-232 | resuming three bytes back gives the verdict and end of a scan from the start |
| Guard.CompleteMeaning | src/picohttpparser/picohttpparser.c:206-232 | the guard ends at a place exactly when it is the first one behind two adjacent line ends, with no lone carriage return before it |
| Guard.CompleteError | src/picohttpparser/picohttpparser.c:206-232 | it answers -1 exactly when a lone carriage return comes first |
| Guard.CompleteFound | src/picohttpparser/picohttpparser.c:206-232 | it succeeds exactly when two adjacent line ends come before any lone carriage return |
| Guard.CompleteWaits | src/picohttpparser/picohttpparser.c:206-232 | it answers -2 exactly while there is neither |
| Guard.GuardAgrees | src/picohttpparser/picohttpparser.c:376-386 | where the request parser succeeds the guard ends at the same byte, where it answers -2 so does the guard |
| Guard.GuardAgreesResponse | src/picohttpparser/picohttpparser.c:438-447 | the same for responses |
| Guard.GuardAgreesHeaders | src/picohttpparser/picohttpparser.c:460-469 | for header blocks exactly when the block is not empty |
| Incremental.GuardedCall | src/picohttpparser/picohttpparser.c:380-386 | a guarded call answers -2 while there is no end of message and otherwise what an unguarded one answers |
| Incremental.StillIncomplete | src/picohttpparser/picohttpparser.c:365-393 | after any number of calls answered -2 no end of message has arrived |
| Incremental.PiecemealAgrees | src/picohttpparser/picohttpparser.c:365-393 | for any cuts, acceptance and fields are those of one-shot parsing; only errors may be reported later |
| Incremental.ResponsePiecemealAgrees | src/picohttpparser/picohttpparser.c:425-450 | the same for responses |
| Incremental.HeadersPiecemealAgrees | src/picohttpparser/picohttpparser.c:452-472 | the same for header blocks that are not empty |
| Incremental.EmptyBlockCut | src/picohttpparser/picohttpparser.c:452-472 | of an empty block that is cut, whatever follows and however that is cut: which later call succeeds, which fails and which answers -2, by the first two adjacent line ends and the first lone carriage return in the buffer |
| Incremental.LfBlock | src/picohttpparser/picohttpparser.c:452-472 | an empty block of a lone line feed is recognised at once |
| Incremental.CapacityExact | src/picohttpparser/picohttpparser.c:282-285 | under another capacity an acceptable request is accepted exactly when its entries fit |
| Incremental.CarriedIncomplete | src/yotta.cpp:339-346 | with the capacity carried from call to call, every call after the first that answers -2 leaves a capacity of 0 |
| Incremental.CarriedCapacityExact | src/yotta.cpp:339-346 | exactly which split requests the caller still accepts |
| Incremental.SplitRequestWitness | src/yotta.cpp:339-346 | a request accepted at once, and piecemeal by the parser, that the caller refuses |
| Chunked.OnByteValid | src/picohttpparser/picohttpparser.c:500-596 | one byte keeps the decoder's invariant: size below 16 to the digits read, data left in data state |
| Chunked.RunValid | src/picohttpparser/picohttpparser.c:495-608 | every state between calls satisfies it, so no size overflows |
| Chunked.RunConcat | src/picohttpparser/picohttpparser.c:495-608 | two calls on A and B are one call on A followed by B: verdict, state, output and leftover |
| Chunked.FeedIsRun | src/picohttpparser/picohttpparser.c:495-608 | the same for any list of pieces |
| ChunkedDecoding.MemMove | src/picohttpparser/picohttpparser.c:545-555 | an overlapping move within one array |
| ChunkedDecoding.Compact | src/picohttpparser/picohttpparser.c:543-559 | data moves down behind the output, what is unread stays |
| ChunkedDecoding.ChunkedDecoder.constructor | src/picohttpparser/picohttpparser.h:63-69 | a zero-filled decoder is valid |
| ChunkedDecoding.ChunkedDecoder.ChunkSize | src/picohttpparser/picohttpparser.c:502-522 | reading a size amounts to running the byte steps |
| ChunkedDecoding.ChunkedDecoder.ChunkExt | src/picohttpparser/picohttpparser.c:524-541 | the rest of the size line, up to data, trailer or the end |
| ChunkedDecoding.ChunkedDecoder.ChunkData | src/picohttpparser/picohttpparser.c:543-559 | the data that is there is appended to the output |
| ChunkedDecoding.ChunkedDecoder.ChunkCrlf | src/picohttpparser/picohttpparser.c:561-574 | carriage returns, then the line feed or an error |
| ChunkedDecoding.ChunkedDecoder.TrailersHead | src/picohttpparser/picohttpparser.c:575-584 | the start of a trailer line or the end |
| ChunkedDecoding.ChunkedDecoder.TrailersMiddle | src/picohttpparser/picohttpparser.c:586-595 | the rest of a trailer line |
| ChunkedDecoding.ChunkedDecoder.Decode | src/picohttpparser/picohttpparser.c:495-608 | in place: return value, state, size and buffer (output, then leftover) are those of one run over the input; bytes past bufsz unchanged |
| ChunkedGrammar.BodyComplete | src/picohttpparser/picohttpparser.c:495-608 | every printed body is decoded to its payload and exactly what follows it is left |
| ChunkedGrammar.BodySound | src/picohttpparser/picohttpparser.c:495-608 | nothing else is decoded to the end |
| ChunkedGrammar.Completable | src/picohttpparser/picohttpparser.c:495-608 | from every valid state some bytes complete the body |
| ChunkedGrammar.DecodeVerdictMeaning | src/picohttpparser/picohttpparser.h:71-80 | complete exactly on a printed body, -1 exactly when no continuation is one |
| RfcBodies.DigitFor | src/picohttpparser/picohttpparser.c:481-493 | a byte is read as the value of its place in the written-out digits of either case, and no other byte is read |
| RfcBodies.SizeDenotes | src/picohttpparser/picohttpparser.c:502-522 | a size is read as the number its digits denote |
| RfcBodies.RfcDecoded | src/picohttpparser/picohttpparser.c:495-608 | any encoding of section 4.1 of RFC 7230, cut anyhow, is decoded to its payload and exact leftover if and only if no size is written with more than 16 digits; otherwise it is an error after the chunks before the first such size |
| RfcBodies.SeventeenZeros | src/picohttpparser/picohttpparser.c:514-517 | an encoding of the empty body that is refused |
| RfcBodies.EncodeDecode | src/picohttpparser/picohttpparser.h:71-80 | every payload has encodings, with sizes in either or mixed case, that are decoded to it, cut anyhow |
| Paths.StackNormal | src/http/yta_http.cpp:113-145 | the stack is leading ".." components, none when rooted, then proper names |
| Paths.CleanIdempotent | src/http/yta_http.cpp:92-152 | cleaning twice is cleaning once |
| Paths.CleanConcat | src/http/yta_http.cpp:92-152 | cleaning the front of a path first changes nothing, exactly when that front is not empty |
| Paths.CleanMeaning | src/http/yta_http.cpp:92-152 | path and cleaned path lead to the same place from every directory |
| Paths.CleanCanonical | src/http/yta_http.cpp:92-152 | two paths clean to the same text exactly when they always lead to the same place |
| Paths.CleanLength | src/http/yta_http.cpp:92-152 | a cleaned path is no longer than the path |
| Paths.CleanShortest | src/http/yta_http.cpp:92-152 | no path that always leads to the same place is shorter than the cleaned one |
| Layers.TopByte | src/http/yta_http.cpp:122-143 | a byte of the output array is that of the last rendering of a front of the path that reaches it |
| Layers.WrittenLength | src/http/yta_http.cpp:122-143 | as many bytes are written as the longest rendering of a front has |
| Layers.BufferClean | src/http/yta_http.cpp:122-151 | nothing stale stands behind the cleaned path exactly when no front of the path renders longer |
| Layers.WrittenNames | src/http/yta_http.cpp:122-143 | behind the leading ".." components everything in the array is a proper name, stale or not |
| PathCleaning.Backtrack | src/http/yta_http.cpp:122-126 | the output cursor goes back to what renders the stack without its last component |
| PathCleaning.Append | src/http/yta_http.cpp:127-143 | separator and component are appended, nothing else is written |
| PathCleaning.Component | src/http/yta_http.cpp:116-144 | each branch keeps the tie between cursors, dotdot and the stack, and pushes the component it read |
| PathCleaning.LayComponent | src/http/yta_http.cpp:113-145 | and lays what the new stack renders over what was written before |
| PathCleaning.EmptyIsDot | src/http/yta_http.cpp:147-151 | an empty output becomes "." |
| PathCleaning.CleanPath | src/http/yta_http.cpp:94-152 | the first returned bytes are the cleaned path, the array holds all layers that were written, at most max(1, length) bytes, and nothing else changes |
| UrlResolution.Resolve | src/yotta.cpp:97-134 | the resolved name, the C string the array holds, every write inside its 1024 bytes, or 404 for an empty or long path |
| UrlResolution.ResolvedText | src/yotta.cpp:128-134 | index.html, written out, stands behind the name exactly when that ends in a slash |
| UrlResolution.ReadName | src/yotta.cpp:136 | what open reads: the bytes up to the first NUL |
| UrlResolution.PutBackSlash | src/yotta.cpp:121-126 | the trailing slash is put back unless the cleaned path is one byte |
| UrlResolution.PutIndex | src/yotta.cpp:128-134 | index.html and its NUL go behind a trailing slash |
| UrlResolution.RootedResolution | src/yotta.cpp:97-134 | the resolved name of a rooted path is exactly ".", the names left, and index.html when due |
| UrlResolution.UnrootedResolution | src/yotta.cpp:97-134 | exactly when the resolved name of an unrooted path has a ".." component |
| UrlResolution.OpenedExact | src/yotta.cpp:113-136 | the name opened is the resolved one exactly when index.html ends it or no front of the path renders longer than the whole |
| UrlResolution.RootedOpened | src/yotta.cpp:113-136 | the name opened for a rooted path is "." and proper names, leading at or below any directory one stands in |
| UrlResolution.UnrootedOpened | src/yotta.cpp:113-136 | exactly when the name opened for an unrooted path has a ".." component |
| UrlResolution.OpensBeside | src/yotta.cpp:113-136 | ab/.. opens ..b |
| UrlResolution.OpensAbove | src/yotta.cpp:113-136 | a/b/../.. opens ../b, outside the served directory |
| UrlResolution.OpensOther | src/yotta.cpp:113-136 | /x/y/.. resolves to ./x and opens ./x/y |
| Responses.ServeEmpty | src/http/yta_http.cpp:39-90 | the printers without a body write exactly their status line, two fields and blank line |
| Responses.Serve200 | src/http/yta_http.cpp:12-37 | the bytes written for a 200 |
| Responses.Serve206 | src/http/yta_http.cpp:45-78 | the bytes written for a 206 |
| Responses.Read200 | src/http/yta_http.cpp:12-37 | picohttpparser reads a 200 back, whatever follows it: status, four fields, exact length |
| Responses.Read206 | src/http/yta_http.cpp:45-78 | the same for a 206 |
| Responses.ReadErrors | src/http/yta_http.cpp:39-90 | the same for 304, 400 and 404 |
| Responses.EmptyTexts | src/http/yta_http.cpp:39-90 | the texts of 304, 400 and 404, written out |
| Responses.Text200 | src/http/yta_http.cpp:12-37 | the text of a 200, written out |
| Responses.Text206 | src/http/yta_http.cpp:45-78 | the text of a 206, written out |
| Responses.RangeDecodes | src/http/yta_http.cpp:65-70 | the three numbers of Content-Range decode to the arguments |
| Ranges.StoiReads | src/yotta.cpp:236-244 | what `std::stoi` makes of white space, a sign, digits and the rest, and exactly when it throws |
| Ranges.StoiDecimal | src/yotta.cpp:236-244 | a printed number is read exactly when it is at most 2147483647 |
| Ranges.LengthExact | src/yotta.cpp:260 | the announced length is that of the interval exactly when an int holds it |
| Ranges.LastInFile | src/yotta.cpp:247-258 | the last byte announced lies before the end of a file of any size |
| Ranges.RangeInFile | src/yotta.cpp:234-261 | in a file of at most 2 GiB: the interval is not empty exactly when its first byte is in the file, and its length is right unless it is all of 2 GiB |
| Ranges.PrintedRange | src/yotta.cpp:202-258 | what a printed range header comes to, in a file of any size: exactly when it throws, and its first and last byte |
| Ranges.SuffixRange | src/yotta.cpp:228-232 | a range without a first byte is a bad request |
| Ranges.OtherRanges | src/yotta.cpp:205-226 | so are another unit, a value without a dash and one of less than 8 bytes |
| Ranges.ClosedRangeMeetsRfc | src/yotta.cpp:247-258 | section 2.1 of RFC 7233 is met, in a file of any size, exactly for ranges of more than one byte or of the byte an int takes for the last |
| Ranges.OpenRangeMeetsRfc | src/yotta.cpp:240-241 | an open range selects the rest of the file exactly when the file has at most 2 GiB |
| Ranges.ReadRange | src/yotta.cpp:205-258 | the checks, the search for the dash, the numbers and the clipping come to the specified answer |
| Requests.ParsedIn | src/yotta.cpp:342-352 | the slices handed to parse_url and parse_headers lie in the bytes that were parsed |
| Requests.FirstDecides | src/yotta.cpp:277-302 | the answer is that of the first entry that decides, and the whole file if none does |
| Requests.FieldExact | src/yotta.cpp:177-292 | exactly which entries decide, by their names as written, and what each answers |
| Requests.NotModifiedExactly | src/yotta.cpp:177-200 | 304 is answered exactly when the first entry that decides is an If-Modified-Since with the file's time or a later one; the whole file exactly when none decides |
| Requests.DecideExact | src/yotta.cpp:336-375 | the malformed answer exactly to a failed parse, 404 exactly to a path that is empty, too long or leads to no file, none exactly while the parser wants more |
| Requests.LocateExact | src/yotta.cpp:97-150 | what is opened goes by the part of the path before its first question mark, of 1 to 1004 bytes |
| Requests.TypeOf | src/yotta.cpp:152-166 | the type goes by what stands behind the last dot of the last component |
| Requests.NoExtension | src/yotta.cpp:152-166 | a dot before the last slash does not count |
| Requests.PathNulFree | src/yotta.cpp:351 | a path the parser let through has no NUL |
| Requests.AnswersInside | src/yotta.cpp:97-150 | a request is answered with the file under the name that is opened, which for a rooted path leads to the directory of the server or below it |
| Requests.MimePlain | src/yotta.cpp:71-95 | every content type can stand in a header field |
| Pipeline.ResponsesFit | src/yotta.cpp:40 | every response header fits the 2048 bytes of response_buf |
| Pipeline.AnswerReadsBack | src/http/yta_http.cpp:12-90 | picohttpparser reads back the header of whatever is answered to a request, with status, fields and exact length |
| Pipeline.SumsWrap | src/core/yta_event_loop.c:506-514 | the size_t sum in to_write may wrap around without changing what is asked of the kernel |
| Pipeline.SendStep | src/core/yta_event_loop.c:317-370 | one system call keeps the invariant of a response being sent |
| Pipeline.WireExact | src/core/yta_event_loop.c:372-383 | under any schedule the wire holds a prefix of header and body; a finished response is out exactly, finished once, and its body lay in the file |
| Pipeline.WriteCompletes | src/core/yta_event_loop.c:372-383 | a response that fits never hits the assertion and is finished by a kernel that keeps taking bytes |
| Pipeline.WriteAborts | src/core/yta_event_loop.c:354-358 | a response that does not fit ends in the failed assertion once a kernel that keeps taking bytes has taken all there are |
| Pipeline.BodilessSent | src/yotta.cpp:57-69 | of the answers 400, 404 and 304 exactly their text is sent |
| Pipeline.WholeFileBody | src/yotta.cpp:325-330 | a 200 is followed by its file, and can be finished, exactly when the connection's offset is 0 and the file is not empty |
| Pipeline.RangeBody | src/yotta.cpp:260-268 | a 206 is followed by exactly the bytes it announces, as many as it announces, exactly when the interval is not empty and an int holds its length; for files of any size |
| Pipeline.SmallFileRange | src/yotta.cpp:260-268 | in a file of at most 2 GiB: exactly when the range starts in the file and is not all of 2 GiB, and no other is ever finished |
| ConnectionRuns.RunOffset | src/yotta.cpp:395-401 | in every reachable state the offset is the first byte of the last range answered on the connection, or 0 |
| ConnectionRuns.DecidedRange | src/yotta.cpp:277-292 | the range of a 206 is that of an entry of the request named Range |
| ConnectionRuns.ResponseServed | src/core/yta_event_loop.c:293-383 | from the last piece of a request, through the answer its path and headers decide, to the wire under any schedule: a prefix of header and body, all of it when finished, and finished if the body fits and the kernel keeps taking bytes |
| ConnectionRuns.WholeFileServed | src/yotta.cpp:294-334 | a request answered with a whole file is finished only if no range but one from byte 0 was the last answered, and then header and file go out |
| ConnectionRuns.RangeServed | src/yotta.cpp:260-271 | a request answered with a range: exactly when header and body agree, what goes out, and the offset that is left |
| ConnectionRuns.RequestEndsProcess | src/core/yta_event_loop.c:293-383 | exactly which answers end the process, by an exception or the failed assertion |
| ConnectionRuns.RangeEndsProcess | src/yotta.cpp:234-268 | a range of a file of less than 2 GiB does exactly when it starts at the end of the file or behind |
| ConnectionRuns.CallStep | src/yotta.cpp:339-346 | the parser is called with the capacity the calls before left |
| ConnectionRuns.ReadStep | src/yotta.cpp:336-375 | a read keeps the connection's invariant |
| ConnectionRuns.WriteStep | src/yotta.cpp:306-334 | a write keeps the connection's invariant |
| ConnectionRuns.StepInv | src/core/yta_event_loop.c:293-383 | either a read or a write is armed after every event, never both |
| ConnectionRuns.RunInv | src/core/yta_event_loop.c:293-383 | every state of every run satisfies the connection's invariant |
| ConnectionRuns.RunWire | src/yotta.cpp:336-375 | over all runs: the wire is the responses in order, and the armed read goes right behind what was received |
| ConnectionRuns.SplitRequestRefused | src/yotta.cpp:336-366 | in every reachable state, which split requests are answered as if they had come at once and which are answered 400 |
| Schedules.PiecesKept | src/yotta.cpp:336-375 | pieces that each leave the parser wanting more and have fewer than 2048 bytes together are all kept: the buffer holds their concatenation, the read is armed behind it, nothing is answered or finished |
| Schedules.FullBufferRestarts | src/yotta.cpp:368-370 | with 2048 bytes of such pieces the connection starts over |
| Schedules.SplitRequestAnswered | src/yotta.cpp:336-366 | from any idle state, by the pieces that come: which requests are answered as if they had come at once, which 400, and that the answer goes out next |
| Schedules.AgainChangesNothing | src/core/yta_event_loop.c:322-355 | an EAGAIN anywhere in a run changes nothing |
| Schedules.ReadsIgnored | src/core/yta_event_loop.c:293-315 | nothing is read while a response is being written |
| Schedules.FinishedPatiently | src/core/yta_event_loop.c:317-383 | a response that fits is finished, once and entirely, by any schedule that takes bytes often enough, with any number of EAGAIN between |
| Schedules.RunEnds | src/core/yta_event_loop.c:293-383 | a run that ends does so at the first fault on an armed write, end of input of an armed read, write of nothing or uncaught exception, with the status of that |
| Schedules.StopsThere | src/core/yta_event_loop.c:293-383 | and at each such event it does end |
| Schedules.WriteLoopIsRun | src/core/yta_event_loop.c:372-383 | the write loop is the run over its system calls, up to the first EAGAIN |
| Schedules.ReadLoopIsRun | src/core/yta_event_loop.c:293-315 | the read loop is the run over its reads |
| Connections.Connection.constructor | src/yotta.cpp:403-413 | a fresh connection waits for a request |
| Connections.Connection.ArmRead | src/core/yta_event_loop.c:489-495 | the armed read |
| Connections.Connection.ArmWrite | src/core/yta_event_loop.c:497-504 | the armed write of the response buffer |
| Connections.Connection.ArmSendfile | src/core/yta_event_loop.c:506-514 | the armed sendfile, both counters moved by the offset |
| Connections.Connection.Accept | src/yotta.cpp:395-401 | the reset between requests, which leaves the offset alone |
| Connections.Connection.Finish | src/yotta.cpp:306-323 | finishing a response |
| Connections.Connection.AfterHeader | src/yotta.cpp:325-334 | body or finish after the header |
| Connections.Connection.ParseUrl | src/yotta.cpp:97-173 | the file and its content type, or the answer 404 |
| Connections.Connection.HandleSince | src/yotta.cpp:177-200 | 400, 304 or no decision |
| Connections.Connection.HandleRangeField | src/yotta.cpp:202-271 | 400, 206 or an exception |
| Connections.Connection.ParseHeaders | src/yotta.cpp:277-302 | the loop over the entries answers what the first that decides does |
| Connections.Connection.CallParser | src/yotta.cpp:339-346 | the parser is called with the capacity and length of the call before, and leaves its own behind |
| Connections.Connection.AnswerRequest | src/yotta.cpp:350-353 | parse_url, then parse_headers unless it has answered |
| Connections.Connection.Parse | src/yotta.cpp:339-353 | the parser call on the bytes in the buffer and the answer |
| Connections.Connection.OnRead | src/yotta.cpp:336-375 | the whole callback |
| Connections.Connection.ReadRound | src/core/yta_event_loop.c:294-312 | bytes go where the read is armed, then the callback runs |
| Connections.Connection.ReadLoop | src/core/yta_event_loop.c:293-315 | the loop reads while a read is armed |
| Connections.Connection.WriteHandle | src/core/yta_event_loop.c:317-370 | one write or sendfile |
| Connections.Connection.WriteLoop | src/core/yta_event_loop.c:372-383 | the loop writes while a write is armed and the kernel takes bytes |
| Reactor.AcceptLoopInv | src/core/yta_event_loop.c:229-291 | accepting keeps them too and drops no context |
| Reactor.OnSocketInv | src/core/yta_event_loop.c:419-451 | one socket event keeps them and every other registered context |
| Reactor.TickInv | src/core/yta_event_loop.c:462-479 | every batch does; once terminated the count never grows |
| Reactor.ServeInv | src/core/yta_event_loop.c:454-487 | over all runs: the count is the number of live connections, no freed context is used, none is cleaned up twice |
| Reactor.EndOfRun | src/core/yta_event_loop.c:454-487 | the loop ends only when nothing is left, every connection cleaned up exactly once |
| Reactor.AcceptedIds | src/core/yta_event_loop.c:264-289 | exactly the connections the callback kept are allocated, registered and counted |
| Reactor.SocketsRemove | src/core/yta_event_loop.c:415-452 | a batch takes away exactly the connections with an error-only event, a failed read, or a failed write after a read that went on, each cleaned up once |
| Reactor.TimersRemove | src/core/yta_event_loop.c:385-413 | a timer batch exactly those with an error or a callback that answers exit |
| Reactor.TickRemoves | src/core/yta_event_loop.c:462-479 | in one round of the loop a connection goes, cleaned up once, exactly if something ended it |
| Reactor.TerminateExact | src/core/yta_event_loop.c:473-478 | the signal takes the listener away and nothing else |
| Reactor.RunningExact | src/core/yta_event_loop.c:462 | the loop runs exactly while something is allocated |
| Reactor.StaysLive | src/core/yta_event_loop.c:454-487 | a connection stays in every run at which nothing ends it |
| Reactor.AllEnd | src/core/yta_event_loop.c:454-487 | once terminated, a run in which something ends every connection is over |
| Reactor.OrphanTimer | src/core/yta_event_loop.c:273-278 | what a refusal after arming a timer leads to |
| Reactor.ListenerError | src/core/yta_event_loop.c:422-432 | what an error-only event on the listener leads to |
| ReactorLoop.LoopCore.constructor | src/core/yta_event_loop.c:130-227 | the fresh reactor |
| ReactorLoop.LoopCore.CleanupContext | src/core/yta_event_loop.c:115-128 | closing both descriptors, the close callback, freeing and uncounting clean one context up |
| ReactorLoop.LoopCore.AcceptConnection | src/core/yta_event_loop.c:264-289 | allocation, the accept callback, and refusal or registration of one connection |
| ReactorLoop.LoopCore.AcceptConnections | src/core/yta_event_loop.c:229-291 | the loop over pending connections |
| ReactorLoop.LoopCore.SocketReady | src/core/yta_event_loop.c:419-450 | the branches for one socket event |
| ReactorLoop.LoopCore.SocketsReady | src/core/yta_event_loop.c:415-452 | the loop over a batch of socket events |
| ReactorLoop.LoopCore.TimersExpired | src/core/yta_event_loop.c:385-413 | the loop over a batch of timer events |
| ReactorLoop.LoopCore.Serve | src/core/yta_event_loop.c:454-487 | the main loop over any ticks |
| ListenFds.PrintFits | src/core/yta_process.c:30-31 | the computed size holds the text and its NUL exactly when there are at most five digits a descriptor on average, as there are for descriptors below 100000 |
| ListenFds.CreateListenFdsEnv | src/core/yta_process.c:29-47 | the buffer holds the printed list, no write outside it; there is one over its end exactly when the text does not fit |
| ListenFds.ParseListenFdsEnv | src/core/yta_process.c:49-79 | the array holds the numbers read, the rest is 0; there is one write behind its end exactly when the list is longer than the count |
| ListenFds.PrintedList | src/core/yta_process.c:39-44 | the list is the numbers in order, a space between two |
| ListenFds.AtoiReads | src/core/yta_process.c:64 | what `atoi` makes of white space, a sign, digits and the rest |
| ListenFds.ParseWord | src/core/yta_process.c:58-76 | any list is read word by word; an empty word gives the number behind it once more |
| ListenFds.FdsRoundTrip | src/core/yta_process.c:29-79 | parsing what was printed gives the descriptors back |

## Left out

- Parser.ParseInt: signed overflow, which is undefined behaviour, is taken to wrap around.
- ChunkedDecoding.ChunkedDecoder.Decode: says nothing about the bytes between the leftover and `bufsz`, which the moves leave stale, and starts from valid states only, that is, from those a zero-filled decoder reaches.
- UrlResolution.RootedOpened: paths are read by their components; symbolic links in the served directory are not modelled.
- Requests.FirstDecides: the file system and `strptime` are an input that may change with every read; `strptime` is given the read buffer from the value on, and what lies behind that buffer is not modelled.
- Responses.Serve200: the printers' literals are cut at line ends; the date is an opaque text without control bytes and leading blanks.
- Ranges.LengthExact: signed overflow is taken to wrap around.
- Connections.Connection.OnRead: `response_buf` is held as a value of at most its 2048 bytes; after an exception that leaves the callback nothing is said of the state.
- Pipeline.WireExact: a file does not change between `fstat` and `sendfile`.
- Pipeline.WriteAborts: assertions are compiled in, as the flags in src/CMakeLists.txt:4-5 have it.
- Reactor.ServeInv: a context's address is never reused, the termination signal comes once, the accept callback does not arm a timer and then refuse, and the listener has no error-only event; the last two are shown to be needed by OrphanTimer and ListenerError.
- ListenFds.ParseListenFdsEnv: `atoi` does not overflow, and what a write behind the end of an array would do is not modelled.
- Liveness of edge-triggered reads: a read armed by a callback is not polled again by the loop, and whether an event for it comes is not modelled.
- Making and sharing the listening sockets, starting and stopping workers.
- Socket, epoll, timer, signal, process and pid-file calls, options, logging and the build.
