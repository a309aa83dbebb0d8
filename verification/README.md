# Verification of the photo server's parsers, sessions, event loop and data structures

The photo server is an HTTP server with its own parsers, TCP sessions and event selector. This project models them as
the C and C++ code has them and proves what they are for. `dafny verify dfyconfig.toml` checks everything.

Code that changes things step by step is modelled step by step: classes with the source's fields, loops with
invariants, arrays written in place. Each such method is proved against a function of its inputs or of the old
state, and what the source promises is proved about that function: that the way the network cuts a stream does not
matter, that parsing inverts printing, that an object behaves as a map or a list, and what holds in every reachable state.

| files | what they model |
|---|---|
| `ChunkedSpec`, `ChunkedDecoder` | chunked transfer coding: a byte-at-a-time machine, and the decoder that works in place and resumes |
| `PicoSpec`, `PicoLaws`, `PicoParser` | request and response heads, the fast check for a complete head, the unrolled and skipping scans |
| `MultipartSpec`, `MultipartSplit`, `MultipartParser`, `MultipartDocument` | multipart bodies: the machine, cuts, the parser with its look-behind buffer, printed documents |
| `Search`, `FormValue` | searching a stream for a delimiter without going back, and reading form values with it |
| `SessionSpec`, `SessionLaws`, `OneRequest`, `HttpSession`, `ByteArray` | the HTTP session as a machine driven by reads, over all runs and all cuts |
| `Pipelining`, `RequestText`, `PrintedRequests` | bytes behind a request, what an earlier request leaves behind, and requests as a client prints them |
| `ResponseSpec`, `HttpResponse` | building responses and parsing them back |
| `TcpSession`, `Connection`, `Sue`, `TcpServer` | connections and what goes out over them, the event selector, and the server whose sessions the two agree on |
| `Dictionary`, `IniSpec`, `IniLaws`, `IniLines`, `IniFile` | the dictionary as a map, ini files, loading what was dumped, and what each kind of line does |
| `QuerySpec`, `VarList`, `QueryCodec`, `Base64` | lists of form variables, query strings, base64 |
| `Bytes`, `Options`, `Sequences` | bytes as characters below 256, optional values, lists without repetitions |

What comes from outside is a parameter and arbitrary within what the interface allows: the pieces that reads give, how much
a write takes, which descriptors are ready, the clock, the descriptor that accept gives (the lowest one that is free),
what request handlers answer, and whether the dictionary's allocations succeed.

## Where the code does not do what one might expect

Each of these is kept as the code has it, and the exact condition is proved.

- `last_headers_len` is never cleared after a request (`src/http_session_fsm.cpp:92`). If it is more than three beyond the first read of a later
  request, and only then, `is_complete` begins behind the buffer: `OneRequest.ScansOfRequest`, `PrintedRequests.OutsideExample`. Otherwise the request is answered as it
  should be if and only if its first read is shorter than its head, or the completeness check, begun where the old length says, still finds a blank
  line in time: `OneRequest.AnyCuts`, `OneRequest.WithoutBody`. `Pipelining.HeadOverlooked`, `PrintedRequests.StaleExample` and `PrintedRequests.BodylessExample` show
  requests that are lost. For a first request the length is always 0.
- A head whose last Content-Length is empty lets `strtol` read on into what follows (`src/http_session_fsm.cpp:126`). A stream that is exactly one
  request is answered all the same, whatever the cuts. With bytes behind it, what the request is depends on the cuts:
  `Pipelining.LengthFromBehind`, `PrintedRequests.EmptyLengthExample`; `Pipelining.WhatFollows` has the exact condition.
- Bytes of a second request that arrive in the same read as the end of the first silence the session, because it waits on any difference
  (`src/http_session_fsm.cpp:142-143`): `Pipelining.TooMuch`. A request is answered if and only if some read ends where it does: `Pipelining.WhatFollows`.
- A folded header line has no name, and `CMP_HEADER` takes it for Connection (`src/http_session_fsm.cpp:107`, `121`): the connection is closed after such a request, unless
  a Connection header follows: `PrintedRequests.FoldedEnds`.
- `Send` replaces what is still to be written and keeps the write offset (`src/tcp_session.cpp:176-183`). The client gets all replies in order if and
  only if none is sent while a buffer is being written: `TcpSessions.RepliesInOrder`, `Connections.ResponsesInOrder`. `TcpSessions.FirstReplyLost` shows one that is lost.
  A shorter reply that interrupts another takes the next write behind the buffer: `TcpSessions.ShorterReply`.
- When all sessions time out and a connection is accepted in the same turn, it may be handed what was found ready for its descriptor before:
  `TcpServers.TcpServer.TakeTurn` says exactly when.
- A connection with the descriptor 1024 is let in (`src/tcp_server.cpp:254`), for which an fd_set of that size has no room: `TcpServers.TcpServer.WatchedFit`.
- A boundary of form data with a char that is not ASCII is never found (`externals/ccgi-1.2/ccgi.c:385`), because a negative char is equal to nothing that
  `getc` gives: `FormValues.CopyValue`.
- The timeout list has the latest deadline first, so idle sessions are closed all together or not at all
  (`externals/sue/sue_base.c:105`, `278`): `TcpServers.TcpServer.HandleTimeouts`. The comment in `sue_base.h` that the list is sorted is true, in
  that order.
- The loop that should lower `max_fd` never does (`externals/sue/sue_base.c:89`): `Sue.Selector.RemoveFdHandler`.
- `http_forbidden` is printed as 401 (`include/http_status_code.h:16`), and a minor version of more than one digit cuts
  the status line: `ResponseSpec.ResponseBack`, `ResponseSpec.StatusWhole`.
- A header line without a colon makes the reported name pieces depend on the cuts
  (`externals/multipart-parser-c/multipart_parser.c:158-161`): `MultipartSplit.SplitInvariance`.
- Keeping one of & = + % unencoded, or an empty name, does not survive a query string (`externals/ccgi-1.2/ccgi.c:806`):
  `QuerySpec.RoundTrip`, `QuerySpec.KeepMatters`.
- The documentation of `dictionary_set` says that setting NULL deletes the key (`externals/iniparser/src/dictionary.c:245-250`); the key
  stays, with NULL as its value, and the model follows the code.
- A dumped ini file does not load back for every dictionary: `IniLaws.EntryLine` says which entries come through. Without
  any section, entries load under an empty section name: `IniLaws.WithoutSections`.
- Empty brackets in an ini file cut the name of the section before to one character
  (`externals/iniparser/src/iniparser.c:655-657`): `IniFiles.IniParserLine`.

## Model

| member | source | states |
|---|---|---|
| ChunkedSpec.SplitInvariance | externals/picohttpparser/picohttpparser.c:490-603 | However a chunked stream is cut into calls, the concatenated output, the bytes used, the verdict and the decoder state are those of one call on the whole stream |
| ChunkedSpec.RoundTrip | externals/picohttpparser/picohttpparser.c:490-603 | Decoding the encoding of any list of chunks, with extensions, trailers and sizes of up to sixteen hexadecimal digits, which are printed by division and remainder from the literal digits in either case and with leading zeros, gives the concatenated data and leaves exactly the tail (section 4.1 of RFC 7230) |
| ChunkedSpec.DigitValue | externals/picohttpparser/picohttpparser.c:477-488 | The value of a hexadecimal digit is its place among the digits of its case |
| ChunkedSpec.HexDigits | externals/picohttpparser/picohttpparser.c:477-488 | Nothing else is a digit |
| ChunkedSpec.SizeNeedsDigit | externals/picohttpparser/picohttpparser.c:500-506 | Behind any chunks the stream is refused at the next byte if and only if it is not a hexadecimal digit, with the data of those chunks and nothing else |
| ChunkedSpec.SizeTooLong | externals/picohttpparser/picohttpparser.c:509-512 | What follows the digits of a size is refused if and only if it is a seventeenth digit |
| ChunkedSpec.ChunkNeedsEnd | externals/picohttpparser/picohttpparser.c:556-567 | A byte behind the data of a chunk is refused if and only if it is neither CR nor LF, however many CRs have come before it |
| ChunkedSpec.SizeNeverOverflows | externals/picohttpparser/picohttpparser.c:509-514 | While a size is read, `bytes_left_in_chunk` is below 16 to the number of digits, so one more digit never overflows a `size_t` |
| ChunkedSpec.StepKeepsInv | externals/picohttpparser/picohttpparser.c:496-594 | Every byte keeps that bound and the digit count |
| ChunkedSpec.RunAppend | externals/picohttpparser/picohttpparser.c:490-603 | Decoding a then b is decoding a + b, with output and counts adding up |
| ChunkedDecoding.ChunkedDecoder.Decode | externals/picohttpparser/picohttpparser.c:490-603 | The in-place decoder leaves in the buffer, in its return value and in its fields exactly what the byte-at-a-time machine says; the rest of the buffer is untouched, the undecoded tail stands right behind the data, and -2 means that all input was read |
| ChunkedDecoding.ChunkedDecoder.RunPhase | externals/picohttpparser/picohttpparser.c:496-594 | Each phase, with its bulk moves from src to dst at or before src, is some number of steps of that machine |
| ChunkedDecoding.ChunkedDecoder.MoveChunkData | externals/picohttpparser/picohttpparser.c:538-554 | As much of the chunk as has arrived is moved down, and the rest of the input is not overwritten |
| ChunkedDecoding.ChunkedDecoder.ReadChunkSize | externals/picohttpparser/picohttpparser.c:496-517 | The digits of a size are read as the machine reads them, including its limit on their number |
| PicoLaws.RequestStable | externals/picohttpparser/picohttpparser.c:364-390 | Prefix stability: -1 on a prefix is -1 on every extension, success keeps its length and all fields, and a head is longer than every prefix the parser was still waiting on |
| PicoLaws.FastPathAgrees | externals/picohttpparser/picohttpparser.c:364-390 | If the first last_len bytes were incomplete and a parse of all bytes succeeds, the call with last_len gives the same length and fields |
| PicoLaws.HeadInPieces | externals/picohttpparser/picohttpparser.c:200-227 | For every last_len that an earlier incomplete call can have left, each prefix of a head is answered "incomplete" and everything from the whole head on is answered with that head |
| PicoLaws.RequestTidy | externals/picohttpparser/picohttpparser.c:330-362 | In an accepted head no CR stands alone, there is no NUL, and it ends in two line ends, which is what the completeness check looks for |
| PicoLaws.ScannedInPieces | externals/picohttpparser/picohttpparser.c:200-227 | Scanning what has arrived piece by piece, each time from three bytes before the end of the last piece, finds a blank line if and only if one scan of everything does |
| PicoLaws.ResponseStable | externals/picohttpparser/picohttpparser.c:421-445 | Prefix stability for responses |
| PicoLaws.ResponseInPieces | externals/picohttpparser/picohttpparser.c:421-445 | The completeness check serves responses as it does requests: prefixes are incomplete, and from the whole head on the response is found |
| PicoLaws.BlankLineFound | externals/picohttpparser/picohttpparser.c:200-227 | A scan that starts at or before the blank line, in the middle of a line or not, finds it |
| PicoParser.PhrParse | externals/picohttpparser/picohttpparser.c:364-390 | The C control flow returns the int and the out-parameters that the specification gives, whatever FindCharFast skips and with or without SSE |
| PicoParser.PhrParseResp | externals/picohttpparser/picohttpparser.c:421-445 | Likewise for responses |
| PicoParser.FindCharFast | externals/picohttpparser/picohttpparser.c:104-131 | It skips no byte that is in one of the ranges, and reports a found one |
| PicoParser.ScanEights | externals/picohttpparser/picohttpparser.c:152-176 | The loop unrolled by eight stops where the byte loop stops |
| PicoParser.GetTokenToEol | externals/picohttpparser/picohttpparser.c:133-198 | Text up to the end of its line, independent of how the scan is done |
| PicoParser.AdvanceToken | externals/picohttpparser/picohttpparser.c:70-93 | A token ends at the first space, and no control character is skipped |
| PicoParser.CheckComplete | externals/picohttpparser/picohttpparser.c:200-227 | The scan for a blank line from last_len - 3 on |
| PicoParser.GetInt | externals/picohttpparser/picohttpparser.c:229-250 | A decimal number and the byte after it |
| PicoParser.GetHttpVersion | externals/picohttpparser/picohttpparser.c:252-262 | The version, of which the minor number may have any number of digits |
| PicoParser.GetHeaders | externals/picohttpparser/picohttpparser.c:264-328 | Header lines with names, values and continuations in order, up to the blank line, with both limits of the C code |
| PicoParser.GetRequestLine | externals/picohttpparser/picohttpparser.c:330-358 | The request line, after an optional empty line |
| PicoParser.GetResponse | externals/picohttpparser/picohttpparser.c:392-419 | The status line and headers of a response |
| PicoSpec.ParseRequest | externals/picohttpparser/picohttpparser.c:330-390 | All slices of a parsed request lie inside the n bytes it takes |
| PicoSpec.ParseResponse | externals/picohttpparser/picohttpparser.c:392-419 | All slices of a parsed response lie inside the n bytes it takes |
| Search.ScanFinds | externals/ccgi-1.2/ccgi.c:353-405 | If the delimiter occurs, the search without backtracking lets through exactly what precedes the first occurrence and stops right behind it |
| Search.ScanMisses | externals/ccgi-1.2/ccgi.c:353-405 | If it does not occur, everything is let through but a beginning of the delimiter at the very end |
| Search.WhenRight | externals/ccgi-1.2/ccgi.c:363-369 | The search is right for every input if and only if, wherever a beginning of the delimiter ends in a shorter one, both continue with the same byte; the comment in the code asks for a special case of this |
| Search.ScanConserves | externals/ccgi-1.2/ccgi.c:353-405 | No byte is lost: what is let through and what is matched are what has been read |
| FormValues.CopyValue | externals/ccgi-1.2/ccgi.c:353-405 | The loop over getc copies to the growing buffer or to the file what the search lets through, reads as many bytes as the search, and ends the buffer with a NUL inside its allocation; a boundary that is not ASCII is never found, and all but a beginning of it at the end is copied |
| FormValues.CopyIsRight | externals/ccgi-1.2/ccgi.c:353-405 | What CopyValue copies is what precedes the first boundary, or all but a beginning of it at the end, for every input if and only if the boundary is ASCII and wherever a beginning of it ends in a shorter one, both continue with the same byte |
| FormValues.CopiesUpToFirst | externals/ccgi-1.2/ccgi.c:353-405 | That holds of an ASCII boundary whose first byte occurs once in it |
| FormValues.SaveChar | externals/ccgi-1.2/ccgi.c:91-119 | The string buffer keeps what it holds when it has to grow |
| MultipartSplit.OneCut | externals/multipart-parser-c/multipart_parser.c:111-306 | One cut of the input: the same state, verdict, `part_data` and `header_value` bytes, and the same trace unless the cut falls into a header name that never meets its colon |
| MultipartSplit.SplitInvariance | externals/multipart-parser-c/multipart_parser.c:111-306 | Any cuts: state, verdict and all reports except those of header names agree with a single call, and the reports of names agree if and only if no cut falls into a colonless name |
| MultipartParsing.MultipartParser.Execute | externals/multipart-parser-c/multipart_parser.c:111-306 | The loop with its mark, look-behind buffer and repeated byte records the trace of the byte machine, terminates by a lexicographic measure, and returns less than the length exactly on unacceptable input |
| MultipartParsing.MultipartParser.ReadPartDataBoundary | externals/multipart-parser-c/multipart_parser.c:249-262 | A mismatch in a boundary gives back the held bytes from the look-behind buffer, inside its allocation, and the byte is read again |
| MultipartParsing.MultipartParser.ReadAlmostBoundary | externals/multipart-parser-c/multipart_parser.c:236-247 | The CR that did not begin a delimiter is given back |
| MultipartParsing.MultipartParser.ReadHeaderField | externals/multipart-parser-c/multipart_parser.c:150-176 | Names are reported at the colon or at the end of the buffer |
| MultipartDocument.RoundTrip | externals/multipart-parser-c/multipart_parser.c:111-306 | For a nonempty CR-free boundary and bodies without CR LF boundary, printing any parts and parsing them, however cut and whatever follows, reports exactly those headers and bodies in order and ends in s_end (section 5.1.1 of RFC 2046) |
| MultipartDocument.NameRead | externals/multipart-parser-c/multipart_parser.c:150-173 | A header name is accepted up to its colon, and reported, if and only if it is made of hyphens and letters; otherwise the parser stops at the first byte that is neither and reports nothing of it |
| MultipartDocument.FirstLineRigid | externals/multipart-parser-c/multipart_parser.c:120-148 | Each byte of the first boundary line must be the right one, and the parser stops at the first that is not |
| MultipartDocument.AfterPart | externals/multipart-parser-c/multipart_parser.c:269-300 | Behind the boundary at the end of a part the parser goes on if and only if two hyphens or a line end follow |
| MultipartDocument.FieldNeedsLineFeed | externals/multipart-parser-c/multipart_parser.c:207-213 | The CR at the end of a header line must be followed by a LF |
| MultipartDocument.HeadersNeedLineFeed | externals/multipart-parser-c/multipart_parser.c:178-186 | So must the CR of the empty line behind the headers |
| SessionLaws.RunLaws | src/http_session_fsm.cpp:16-200 | Over every run, with any parser and handlers, whatever they remember: bytes taken as heads and bodies followed by the read buffer are all bytes received, and every response answers the request at its place, or is the one rejection at the end |
| SessionLaws.OnReadLaws | src/http_session_fsm.cpp:16-47 | One read terminates, sends at most one response, loses and duplicates no byte, and a session that is shutting down stays so and sends nothing |
| SessionLaws.StrtolSettled | src/http_session_fsm.cpp:125-126 | Reading Content-Length gives the same number whatever follows the head if and only if something that is not white space follows the colon within the head |
| OneRequest.AnyCuts | src/http_session_fsm.cpp:56-156 | However a request is cut into reads, as long as no scan begins behind the buffer: nothing is sent before the last read, and that one sends the one response to that very request and empties the buffer, if and only if the first read is shorter than the head, or the completeness check from the stale last_headers_len on lets the first read through, or it calls it incomplete and a scan from three bytes before its end on finds a blank line later |
| OneRequest.Refused | src/http_session_fsm.cpp:96-104 | A first read is answered by the one rejection, without a call of a handler, and the session closes, if and only if the parser refuses it |
| OneRequest.SeesInTime | externals/picohttpparser/picohttpparser.c:200-227 | If last_headers_len is at most the length of the first read, that is the case if and only if the check on the whole request lets it through |
| OneRequest.ScansOfRequest | externals/picohttpparser/picohttpparser.c:203 | All scans of a request begin inside the buffer if and only if last_headers_len is at most three more than the first read |
| OneRequest.WithoutBody | src/http_session_fsm.cpp:56-104 | A request without a body is seen if and only if it comes in more than one read or last_headers_len does not exceed its length, by one more if it ends in a line feed alone |
| OneRequest.FirstRequest | src/http_session_fsm.cpp:56-156 | For the first request of a session this holds without any condition |
| OneRequest.ServerEnv | src/http_session_fsm.cpp:58-74 | strndup and phr_parse_request, with any handlers, meet what these two assume of the environment |
| Pipelining.WhatFollows | src/http_session_fsm.cpp:140-156 | Whatever follows a request and however the stream is cut, this request is handled and answered first if some read ends just where it does, and otherwise nothing is ever handled or sent; this holds for everything that may follow if and only if the head does not leave its Content-Length to be read out of the body |
| Pipelining.BodyExactly | src/http_session_fsm.cpp:140-156 | A session that waits for a body answers if and only if some read ends just where the body does; otherwise it only collects bytes |
| Pipelining.TooMuch | src/http_session_fsm.cpp:140-156 | A session that has more than the body in its buffer only collects bytes, whatever arrives |
| Pipelining.SettledLength | src/http_session_fsm.cpp:125-126 | The Content-Length of a head is the same whatever follows if something follows its last Content-Length within the head; otherwise it is read out of what follows |
| Pipelining.LengthFromBehind | src/http_session_fsm.cpp:125-126 | A head that leaves its Content-Length open: the same bytes in one read and in two are different requests |
| Pipelining.HeadOverlooked | src/http_session_fsm.cpp:58-104 | A stale last_headers_len that points into a body without line ends makes the session overlook a request that arrives in one read |
| Pipelining.SecondRequestLost | src/http_session_fsm.cpp:88-94 | The same two requests are both answered, or the second is lost, depending on how the first was cut |
| Pipelining.SecondBodylessLost | src/http_session_fsm.cpp:88-94 | Likewise for a second request without a body, if the first part of the first request was longer than it by up to three bytes |
| Pipelining.ScansOfSecond | externals/picohttpparser/picohttpparser.c:203 | After a first request that came in two reads, the first of k bytes, the scans of the second begin inside the buffer if and only if k is at most three more than its first read |
| RequestText.RequestBack | externals/picohttpparser/picohttpparser.c:330-362 | A printed request head, also one behind an empty line, is parsed back to the bytes of its method, path and headers and to its version if and only if the method and the path hold no spaces and no controls, every header name is a token, and every value is free of controls but tabs and of leading blanks |
| RequestText.PrintedParsed | externals/picohttpparser/picohttpparser.c:330-362 | Then its parts are the slices where they were printed |
| RequestText.ParsedIsPlain | externals/picohttpparser/picohttpparser.c:70-93 | Of whatever is parsed, the method and the path hold no spaces and no controls |
| RequestText.ParsedIsFine | externals/picohttpparser/picohttpparser.c:264-328 | And the named headers have tokens for names and values without controls or leading blanks |
| RequestText.IntParsed | externals/picohttpparser/picohttpparser.c:229-250 | A decimal number of any length is read back |
| RequestText.FoldedParsed | externals/picohttpparser/picohttpparser.c:280-326 | A line that begins with a blank is parsed as a header without a name, and there is no request if it is the first |
| RequestText.TooManyHeaders | externals/picohttpparser/picohttpparser.c:276-279 | With more headers than there is room for there is no request |
| PrintedRequests.KeptAsAsked | src/http_session_fsm.cpp:121-124 | However a printed request is cut, once it has been answered the session is ready for the next if and only if the value of the last Connection header begins with k or K, or there is none; otherwise it is shutting down and closing |
| PrintedRequests.LastDecides | src/http_session_fsm.cpp:121-124 | Of several Connection headers the last decides, by its first letter |
| PrintedRequests.FoldedEnds | src/http_session_fsm.cpp:107-124 | After a request with a folded header the session closes unless a Connection header follows: the folded line, having no name, is taken for one |
| PrintedRequests.LastLengthDecides | src/http_session_fsm.cpp:125-126 | The last header whose name is a beginning of Content-Length, and not also one of Connection, decides the length; without one it is 0 |
| SessionSpec.ToInt | src/http_session_fsm.cpp:126 | The long that strtol gives, kept in its range, wraps around to the int it is assigned to |
| PrintedRequests.LengthLast | src/http_session_fsm.cpp:125-126 | A Content-Length that comes last is what counts |
| PrintedRequests.PrintedComplete | src/http_session_fsm.cpp:105-135 | A printed request with a body of the length it states is one that sessions answer if and only if that length fits an int |
| PrintedRequests.StaleExample | src/http_session_fsm.cpp:88-94 | Two printed requests of which the second is lost if the first comes in two reads |
| PrintedRequests.BodylessExample | src/http_session_fsm.cpp:88-94 | Two printed requests without bodies of which the second is lost |
| PrintedRequests.OutsideExample | externals/picohttpparser/picohttpparser.c:203 | The same two requests, cut so that the scan of the second begins behind the buffer |
| PrintedRequests.EmptyLengthExample | src/http_session_fsm.cpp:125-126 | A printed head whose body depends on whether the byte behind it arrives with it |
| HttpSessions.HttpSession.OnRead | src/http_session.cpp:79-92 | The session object changes as the specification of a read says, and the connection as it does for what the session sends and whether it closes |
| HttpSessions.HttpSession.OnReadable | src/tcp_session.cpp:40-50 | A readable connection and its session change together |
| Connections.ResponsesInOrder | src/tcp_session.cpp:139-183 | Over any run of reads and writes of a connection, the responses answer the requests in order, and what the client gets is these responses one after the other if and only if each was sent only when the one before had been written |
| HttpSessions.HttpSession.Routine | src/http_session_fsm.cpp:16-47 | The dispatch loop terminates and computes that specification |
| HttpSessions.HttpSession.ProcessStateWaitingForHeaders | src/http_session_fsm.cpp:56-104 | The three outcomes of the parser, with the head cut off the buffer, the length kept for the next call, or a rejection |
| HttpSessions.HttpSession.ProcessStateProcessingHeaders | src/http_session_fsm.cpp:109-135 | The last Connection and the last Content-Length header decide, compared as prefixes of the literals |
| HttpSessions.HttpSession.ProcessStateWaitingForBody | src/http_session_fsm.cpp:140-156 | The session waits on any difference, and otherwise takes the whole buffer as the body |
| HttpSessions.HttpSession.ProcessStateResponding | src/http_session_fsm.cpp:179-193 | One response is sent, and the session either idles or shuts down |
| ByteArrays.ByteArray.Append | src/common.cpp:77-91 | The contents are those of both, in storage that is replaced only when too small |
| ByteArrays.ByteArray.Truncate | src/common.cpp:93-103 | The first n bytes are dropped, in place |
| TcpSessions.TcpSession.OnRead | src/tcp_session.cpp:40-50 | A read passes on everything unread, and the end of the stream or an error shuts the connection down and nothing else |
| TcpSessions.TcpSession.ReadToBuf | src/tcp_session.cpp:118-136 | What was read is behind what was unread, inside the buffer |
| TcpSessions.TcpSession.Flush | src/tcp_session.cpp:139-158 | Exactly the bytes written leave the front of what is pending, and the connection stops asking to write when nothing is; a count below 0, which write takes for a very large one, is not excluded |
| TcpSessions.TcpSession.Send | src/tcp_session.cpp:176-183 | With nothing pending, all of the new bytes are pending |
| TcpSessions.TcpSession.OnWrite | src/tcp_session.cpp:53-62 | The socket takes a beginning of what is pending, or the connection shuts down |
| TcpSessions.RepliesInOrder | src/tcp_session.cpp:139-183 | Over any run of reads and writes, what has been written followed by what is pending is all replies in order if and only if none was sent while a buffer was being written |
| TcpSessions.SendKeepsStream | src/tcp_session.cpp:176-183 | A reply keeps the stream of outgoing bytes if and only if nothing was left of the one before |
| TcpSessions.FirstReplyLost | src/tcp_session.cpp:176-183 | Of two replies with no write between them the first is lost |
| TcpSessions.InsideIfUninterrupted | src/tcp_session.cpp:139-158 | If no reply interrupts another, no write is asked for a count below 0 |
| TcpSessions.ShorterReply | src/tcp_session.cpp:139-183 | After a reply that comes in while another is being written, the next write stays inside the buffer if and only if the reply is at least as long as what has been written |
| TcpSessions.ClosesWhenWritten | src/tcp_server.cpp:153-159 | A connection that is to be shut down is closed if and only if all replies have been written |
| Sue.Selector.RegisterFdHandler | externals/sue/sue_base.c:63-81 | The handler is at its descriptor, all others stay where they were through the growth of the table, and max_fd stays an upper bound |
| Sue.Selector.RemoveFdHandler | externals/sue/sue_base.c:83-92 | Only that slot is cleared; max_fd does not change |
| Sue.Selector.BelowUsed | externals/sue/sue_base.c:88-91 | The loop meant to lower max_fd stops at the first free slot |
| Sue.EarlierThan | externals/sue/sue_base.c:94-98 | Comparing seconds and then microseconds compares the deadline, in microseconds, with the time |
| Sue.Selector.RegisterTimeoutHandler | externals/sue/sue_base.c:100-111 | The list stays sorted by deadline, latest first, and gains just this entry, behind those with a later deadline |
| Sue.Selector.RemoveTimeoutHandler | externals/sue/sue_base.c:113-127 | The first such entry leaves the list; giving up early on the order misses none |
| Sue.Selector.FillSelectSets | externals/sue/sue_base.c:196-217 | Exactly the descriptors whose handlers want it are watched |
| TcpServers.TcpServer.WatchedFit | src/tcp_server.cpp:254-258 | What is watched fits an fd_set if and only if nobody has the descriptor MAX_FD, which is let in |
| Sue.TimeoutHandler.SetFromNow | externals/sue/sue_base.c:375-387 | The deadline is the given interval later, with microseconds below a million |
| TcpServers.TcpServer.Go | externals/sue/sue_base.c:322-368 | Whatever the event loop meets, the server and the selector agree after every turn: each live session is listed once, registered at its own descriptor and has exactly one timeout, nothing else is registered, descriptors and sessions stay within their limits, and, if replies are not empty, each session is watched for writing if and only if it has something to write |
| TcpServers.TcpServer.TakeTurn | externals/sue/sue_base.c:345-364 | In one turn every session is served exactly once if it is ready, untouched otherwise, and closed exactly if it is to be or if every deadline is before now; a read is a use, and while any session was used no longer ago than the idle time, only sessions that are to be closed go; a session accepted in the turn is handed an event of another if and only if its descriptor is behind the listening one and was found ready, and then all sessions have timed out in this turn |
| TcpServers.TcpServer.HandleFds | externals/sue/sue_base.c:289-303 | Each ready session is handed its event once although handlers change the table, the others keep their state, and a session accepted on the way is handed what was found for its descriptor if and only if that is still to come |
| TcpServers.TcpServer.ListenFdHandler | src/tcp_server.cpp:220-231 | A session is accepted if and only if a connection is waiting, its socket can be put into blocking mode and some descriptor up to MAX_FD is free |
| TcpServers.TcpServer.HandleTimeouts | externals/sue/sue_base.c:274-287 | Either all sessions are closed or none: all exactly if every deadline, in microseconds, is before now, and none as long as one was used no longer ago than the idle time; so closing the expired ones is what happens if and only if they are none or all |
| TcpServers.TcpServer.FdHandler | src/tcp_server.cpp:141-159 | A ready session is read, written and closed in that order, its idle time starts anew on a read, and it is closed exactly if shut down with nothing left to write |
| TcpServers.EventIsRun | src/tcp_server.cpp:141-159 | What happens at a ready descriptor is a read of what there is room for and then a write, so what holds of runs of reads and writes holds of the server's connections |
| TcpServers.TcpServer.CreateTcpSession | src/tcp_server.cpp:234-270 | A descriptor up to MAX_FD becomes a live session that is listed, watched and timed; otherwise nothing changes |
| TcpServers.TcpServer.CloseTcpSession | src/tcp_server.cpp:186-201 | The session leaves the array, the table and the list, also during its own timeout, and everything stays consistent; the assertion on removing its handler holds |
| TcpServers.TcpServer.Room | src/tcp_server.cpp:254-267 | The array of MAX_FD sessions has room for every descriptor that is let in |
| TcpServers.TcpServer.LowestFree | externals/sue/sue_base.c:66-70 | With fewer than sixteen other open descriptors, the one that accept gives fits the table after one step of growth |
| TcpServers.TcpServer.IndexOf | src/tcp_server.cpp:191-192 | The search by descriptor finds this very session |
| TcpServers.TcpServer.ShiftDown | src/tcp_server.cpp:196-198 | The entries behind it move down by one |
| TcpServers.TcpServer.ResetIdleTout | src/tcp_session.cpp:102-106 | The entry is replaced by one with a deadline a minute from now |
| TcpServers.TcpServer.constructor | src/tcp_server.cpp:47-82 | The server starts consistent, with only the listening descriptor watched |
| Dictionaries.Dictionary.Get | externals/iniparser/src/dictionary.c:209-227 | The value in the map, which may be NULL, or the default exactly if the key is not in it |
| Dictionaries.Dictionary.Set | externals/iniparser/src/dictionary.c:255-301 | The map gains or replaces this entry; it fails, and changes nothing, exactly for the key NULL or when it is full and cannot grow |
| Dictionaries.Dictionary.Unset | externals/iniparser/src/dictionary.c:314-349 | The map loses this key and nothing else |
| Dictionaries.Dictionary.Grow | externals/iniparser/src/dictionary.c:68-101 | The map is the same in twice the space, or nothing changes |
| Dictionaries.Dictionary.Find | externals/iniparser/src/dictionary.c:264-279 | Comparing hashes first changes no answer |
| Dictionaries.Dictionary.EmptySlot | externals/iniparser/src/dictionary.c:289-294 | The probe that wraps around ends at an empty slot |
| Dictionaries.Dictionary.HasEmptySlot | externals/iniparser/src/dictionary.c:289-291 | Below its size the dictionary has an empty slot |
| Dictionaries.CountsSlots | externals/iniparser/src/dictionary.c:45-51 | There are as many occupied slots as entries |
| Dictionaries.Hash | externals/iniparser/src/dictionary.c:118-137 | The loop computes the hash, with signed characters and wrap-around |
| QuerySpec.RoundTrip | externals/ccgi-1.2/ccgi.c:685-719 | With no special character kept, decoding the encoded list rebuilds it, in entry order, value order and bytes, if and only if no name is empty |
| QuerySpec.KeepMatters | externals/ccgi-1.2/ccgi.c:685-719 | That holds for all proper lists if and only if none of & = + % is to be kept |
| QuerySpec.DecodePairs | externals/ccgi-1.2/ccgi.c:788-847 | What any encoded pairs decode to on top of any list |
| QuerySpec.EscapeRead | externals/ccgi-1.2/ccgi.c:833-841 | An escape stands for its byte whatever the case of its digits, and a percent sign without two digits for itself |
| QuerySpec.ByteEncoded | externals/ccgi-1.2/ccgi.c:202-223 | Letters, digits and characters to keep stand for themselves, a space is a plus, and any other byte is its number in two upper-case digits |
| QuerySpec.Rebuilt | externals/ccgi-1.2/ccgi.c:728-775 | Adding all values one by one rebuilds the list |
| QuerySpec.AddIsProper | externals/ccgi-1.2/ccgi.c:728-775 | Adding keeps names distinct and every variable with a value |
| QueryCodec.EncodeVarlist | externals/ccgi-1.2/ccgi.c:685-719 | The encoding with its NUL fills exactly the memory that was reckoned; NULL exactly for an empty list |
| QueryCodec.ReckonList | externals/ccgi-1.2/ccgi.c:692-702 | The reckoning is the length of the encoding and one |
| QueryCodec.UrlEncode | externals/ccgi-1.2/ccgi.c:202-223 | The encoding stands at the place, with a NUL behind it |
| QueryCodec.UrlCount | externals/ccgi-1.2/ccgi.c:181-195 | The count is the length of the encoding |
| QueryCodec.DecodeQuery | externals/ccgi-1.2/ccgi.c:788-847 | The loop over the query with its one buffer adds to the list what the specification says, including names cut by %00 |
| VarLists.VarList.AddVar | externals/ccgi-1.2/ccgi.c:728-775 | The linked lists with their tail pointers become the ordered list with this value added at its place, and the iteration ends |
| VarLists.VarList.LookupAll | externals/ccgi-1.2/ccgi.c:981-1004 | The array holds exactly the values in order with a NULL behind, and a cached one is given again and is never stale |
| VarLists.VarList.Lookup | externals/ccgi-1.2/ccgi.c:966-969 | The first value of the variable, or NULL exactly if there is none |
| VarLists.VarList.FindVar | externals/ccgi-1.2/ccgi.c:140-153 | The entry of the name, or the current one |
| VarLists.VarList.FirstName | externals/ccgi-1.2/ccgi.c:1011-1014 | The iteration stands at the first entry |
| VarLists.VarList.NextName | externals/ccgi-1.2/ccgi.c:1022-1026 | The iteration moves on by one entry, and ends behind the last |
| VarLists.Entry.AddValue | externals/ccgi-1.2/ccgi.c:764-772 | The value is at the true end, the count is right and the cached array is dropped |
| Base64.RoundTrip | externals/ccgi-1.2/ccgi.c:1178-1266 | Decoding any text with the same letters of the alphabet as the encoding, whatever else stands between them and with or without padding, gives the bytes back (section 4 of RFC 4648) |
| Base64.LetterAt | externals/ccgi-1.2/ccgi.c:1128-1129 | The letters stand in the order of the alphabet (table 1 of RFC 4648) |
| Base64.ValueAt | externals/ccgi-1.2/ccgi.c:1133-1169 | A character has a value if and only if it is in the alphabet, and it is its place |
| Base64.ByTheTable | externals/ccgi-1.2/ccgi.c:1225-1266 | Three bytes are written as the four digits, to the base 64, of the number of 24 bits that they are |
| Base64.EncodeBase64 | externals/ccgi-1.2/ccgi.c:1225-1266 | The accumulator loop writes the encoding and a NUL within 4 + 4 * len / 3 bytes; NULL exactly for no bytes |
| Base64.DecodeBase64 | externals/ccgi-1.2/ccgi.c:1178-1217 | The accumulator loop writes the decoded bytes and a NUL within 3 + 3 * n / 4 bytes and reports their number |
| Base64.EncodeLength | externals/ccgi-1.2/ccgi.c:1235 | The encoding and its NUL fit the allocation |
| ResponseSpec.ResponseBack | src/http_response.cpp:32-122 | A response that was built is parsed back to its version, reason, headers in order and body, which starts right behind the blank line; the headers come back if and only if all names are tokens and all values are free of controls and leading blanks, and the status if and only if it is not http_forbidden |
| ResponseSpec.HeadersBack | src/http_response.cpp:67-83 | Any printed header lines come back as those names and values if and only if all of them are fine |
| ResponseSpec.StatusWhole | src/http_response.cpp:106-122 | The status line is printed whole if and only if the minor version has one digit |
| ResponseSpec.FieldsText | src/http_response.cpp:67-83 | The slices found for the headers hold their names and values |
| ResponseSpec.DecimalRead | src/http_response.cpp:131-138 | The printed Content-Length is read back as the same number by the way the server reads it (section 3.3.2 of RFC 7230) |
| ResponseSpec.SignedRead | src/http_session_fsm.cpp:125-126 | White space before a number is skipped and its sign is read |
| HttpResponses.HttpResponse.GetResponseByteArray | src/http_response.cpp:32-44 | The bytes are those of the whole response, and the same when asked for again |
| HttpResponses.HttpResponse.AddHeader | src/http_response.cpp:67-83 | One header line more, in exactly the space that was reallocated |
| HttpResponses.HttpResponse.AddStatusLine | src/http_response.cpp:106-122 | The status line, cut where snprintf has no more room |
| IniLaws.RoundTrip | externals/iniparser/src/iniparser.c:258-320 | Loading what was dumped gives the same map back, for every dictionary, also an empty one, in which sections have no values, every other entry is under a section that is there, and lines are plain and fit the buffer, if and only if a section with an empty name, if there is one, is dumped first |
| IniLaws.EntryLine | externals/iniparser/src/iniparser.c:633-698 | The line that is printed for an entry, with its name padded to any width, is read as that entry, and by itself, if and only if its name is stripped, lower-case and without equals sign, its value is stripped, without comment signs, not taken for a quoted one and not ending in a backslash, and the line looks like neither comment nor section |
| IniLaws.WithoutSections | externals/iniparser/src/iniparser.c:266-273 | A dictionary without sections whose entries can be read again is loaded with a colon in front of every name, so it comes back if and only if it is empty |
| IniLaws.ValueExact | externals/iniparser/src/iniparser.c:659-690 | A value comes through if and only if it is plain |
| IniLaws.SectionLine | externals/iniparser/src/iniparser.c:653-658 | A section line is read as the section that it shows if and only if the name is stripped, lower-case and without closing bracket, or, if it is empty or begins with one, if it is the name of the section before |
| IniLaws.LoadLine | externals/iniparser/src/iniparser.c:749-813 | A line that fits and does not go on is loaded by itself, whatever follows |
| IniLines.FileLoads | externals/iniparser/src/iniparser.c:749-813 | A file of lines that fit and do not go on is loaded if and only if none of them is an error, and then line by line |
| IniLines.SilentLine | externals/iniparser/src/iniparser.c:781-784 | A blank line or a comment put between such lines changes nothing, whatever follows |
| IniLines.ErrorLine | externals/iniparser/src/iniparser.c:795-802 | With an error in a line the file is not loaded, whatever follows |
| IniLines.ErrorMeans | externals/iniparser/src/iniparser.c:647-695 | A stripped line is an error if and only if it is no comment, no section in brackets, and has no equals sign behind a first character |
| IniLines.ContinuedLine | externals/iniparser/src/iniparser.c:773-780 | A line that ends in a backslash is loaded with the next one as if both were one line |
| IniLines.QuotedLine | externals/iniparser/src/iniparser.c:659-665 | A value in single or double quotes comes back, with its spaces and comment signs and without what follows the quotes, if and only if it does not hold the quote |
| IniLines.CommentBehind | externals/iniparser/src/iniparser.c:666-678 | A comment behind a value without quotes is no part of it |
| IniLaws.LowerStays | externals/iniparser/src/iniparser.c:45-57 | A string stays as it is in lower case if and only if it has no capital letters |
| IniFiles.IniParserLoad | externals/iniparser/src/iniparser.c:714-820 | The loading loop with its fixed buffers, continued lines and error count gives the map that the specification gives, or NULL exactly if there is an error or a line is too long |
| IniFiles.IniParserLine | externals/iniparser/src/iniparser.c:633-698 | The status and the buffers report the meaning of the line, including the section name that is cut when the brackets are empty |
| IniFiles.StrStrip | externals/iniparser/src/iniparser.c:91-109 | The buffer holds the stripped string, and its length is returned |
| IniFiles.StrLwc | externals/iniparser/src/iniparser.c:45-57 | The buffer holds the lower-case string, cut to the limit |
| IniFiles.DumpIni | externals/iniparser/src/iniparser.c:258-282 | The printed text is section after section in slot order |
| IniFiles.DumpSection | externals/iniparser/src/iniparser.c:296-320 | A section and its entries in slot order; nothing if it is not found under its lower-case name |
| IniFiles.GetSecName | externals/iniparser/src/iniparser.c:195-215 | The n-th key without a colon |
| IniFiles.GetNSec | externals/iniparser/src/iniparser.c:164-179 | The number of keys without a colon |

## Left out

- Sockets, pselect, fork, signals, loop hooks, exceptional conditions on descriptors and the files behind requests: their results are parameters, or are not modelled.
- Request handlers, authentication, cookies, albums, the users interface, configuration macros, logging and path building.
- `src/multipart.cpp` and the multipart accessors of requests: fixed trimming for particular browsers, without a specification to prove.
- `compute_timeout`: how long pselect waits; the model lets any time pass.
- `sue_event_selector_done`, and freeing memory in general.
- Failing allocations, except in `dictionary_grow`.
- SSE instructions: `FindCharFast` models the comparison of sixteen bytes by what it finds.
- Hex and HTML entity coding, and the number and boolean accessors of ini files: each is a few lines without state.
- PicoParser.GetInt: does not model the overflow of `parse_int`; numbers are unbounded.
- OneRequest.AnyCuts: requires that last_headers_len is at most three more than the length of the first read, for beyond that `is_complete` reads behind the buffer and what it finds there is arbitrary; and that there is no NUL in the body if last_headers_len is more than the length of the head, for the copy that `strndup` makes ends there.
- HttpSessions.HttpSession.ProcessStateProcessingHeaders: the Cookie and If-Modified-Since headers, which only handlers look at, are not kept.
- MultipartDocument.RoundTrip: header names are letters and hyphens and values have no CR, which is what the parser accepts; the preamble before the first boundary, which the parser does not accept, is left out.
- MultipartParsing.MultipartParser.Execute: callbacks are recorded and return 0; a callback that stops the parser is not modelled, nor is an empty boundary, for which the code reads its terminating NUL as a byte of it.
- TcpServers.TcpServer.FdHandler: what the layer above a connection does with a read is an arbitrary reply and an optional shutdown; that a session does just this, and which reply it is, is proved of `HttpSession.OnReadable`. That handlers see the socket in blocking mode, and so may have to wait on a stale event, is not modelled.
- TcpSessions.TcpSession.Flush: which bytes a write takes from behind the buffer is arbitrary.
- Sue.Selector.FillSelectSets: the sets are unbounded, and there is none for exceptional conditions, which no handler asks for.
- TcpServers.TcpServer.CreateTcpSession: a socket that cannot be put into blocking mode stays open; the model only says that no session is made.
- QueryCodec.DecodeQuery: the list is an object that holds the pointer to the first entry, where the code passes that pointer in and out.
- Base64.EncodeBase64: shifts and masks are written as division and remainder, and `|=` as a sum whose precondition, proved at each use, is that no bit is set twice.
- Dictionaries.Dictionary.Get: a NULL key, which would reach strcmp, is not passed; sizes are unbounded.
- IniLaws.RoundTrip: is about dictionaries whose entries and other section names are plain; that is exact for single lines, in EntryLine and SectionLine.
- IniFiles.DumpSection: a section name of 1024 characters or more, for which the buffer `keym` has no room, is not distinguished.
- IniLaws.WithoutSections: is about dictionaries whose entries can be read again; other entries may not be loaded at all.
- IniFiles.IniParserLoad: file contents have no NUL, at which `strlen` would stop; characters from 128 on are taken to be neither blanks nor letters, as in the C locale.
- HttpResponses.HttpResponse.AddStatusLine: requires that it comes first and once, which is how the session calls it; the default bodies of error pages are not modelled.
