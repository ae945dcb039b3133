# Models and proofs for cpp-httpd

cpp-httpd is an HTTP/1.1 server with three ways to serve connections: a thread pool with blocking
sockets, event-loop workers, and TLS. This project restates its hard parts in Dafny and proves what
they guarantee. Objects whose methods update their fields (the parser, a connection of the event
loop, a worker, the poller, a request's phases) are classes; every such method is proved against a
function on values, and the theorems are about those functions and about whole runs of them.

`dafny verify dfyconfig.toml` checks everything.

## What is modelled

| file | what it holds |
|---|---|
| `Text.dfy`, `Http.dfy` | the string functions, numerals and values that the rest uses |
| `ParserSpec.dfy`, `RequestParser.dfy` | the incremental request parser: `Scan` is a parse without a limit on lines, `Cap` the 8192-byte test; the class is proved to compute `Cap(Scan(..))` |
| `ConnectionSpec.dfy`, `Connection.dfy` | the blocking driver: `Drive` over the results of `read`, the one-shot parse `OneShot`, the blocking senders |
| `HttpRequest.dfy`, `HttpResponse.dfy` | the printers, and the readers that undo them |
| `RequestLaws.dfy` | what single request and header lines say and how many bytes of body a Content-Length takes, in terms of their texts |
| `HttpClient.dfy`, `ResponseReader.dfy` | a client that reads responses as RFC 9110 and RFC 9112 have them and takes nothing malformed, and what it reads of an answer and of a whole session |
| `EventLoopSpec.dfy`, `EventLoop.dfy` | one connection of the event loop over all its runs, and the connection object |
| `WorkerSpec.dfy`, `EventLoopWorker.dfy` | one worker: who owns which descriptor, what a pass of its loop does, and the record of every connection that came to it; the worker object with its poller |
| `ThreadPool.dfy`, `WakePipe.dfy` | the two hand-off protocols as transition systems, over all interleavings |
| `Tls.dfy` | the TLS sender |
| `Base64.dfy`, `Auth.dfy`, `Paths.dfy` | decoding, basic authentication, path resolution |
| `PathLaws.dfy`, `AccessLaws.dfy` | laws by which every path can be brought into the form in which it is answered; which .htaccess, host and index file count and which refusal has which code |
| `StaticFile.dfy`, `Cgi.dfy`, `CgiChild.dfy`, `RequestHandler.dfy` | ranges and file responses, CGI output, the CGI child and its pipes, the phases that decide between them |
| `CgiLaws.dfy`, `FileFields.dfy` | what single lines of a child do to the answer; every field that a client reads of an answer about a file |
| `Modes.dfy` | the event loop against the blocking driver: requests, endings, wires, and the client of the event loop |
| `Server.dfy`, `SiteClient.dfy` | the handler joined to the blocking driver; which of this server's answers a client can read, and what it reads of a whole connection in either mode |
| `Limits.dfy` | inputs on which the conditions of two main results matter |

How the surroundings appear: a system call is a result that may be anything, taken from a script
(`SysResult` is a return value and errno); a script that is used up lets the kernel take everything.
The wire is the text a `Socket` has sent; the descriptors are an `FdTable`: those open, the calls to
close in order, and whether each of those calls named an open descriptor. Strings hold one byte per
character, and a search that fails answers the length where C++ answers `npos`. An exception of
`std::stoll` or `std::stoull` is `None`. `int value` of `decode_base64` wraps at 32 bits (`Wrap32`).
The order in which an `unordered_map` is walked is a parameter, and results hold for every order.
Parser error texts are the constructors of `Message`. Clocks, `stat`, the file system and the
configuration are parameters; the thread pool has at least one worker, as the configuration reader
demands (config/config.cpp:85-88).

## Main results

1. **Cutting the input does not matter, up to one exception.** `ChunkingUnobservable`: for every
   sequence of reads, the requests handed on and the way the connection ends are those of the
   one-shot parse of the whole stream if and only if no read boundary falls more than 8192 bytes
   into an unfinished line. `HandleConnection` shows that the driver is that function, and that on a
   socket that does not fail the wire holds exactly the responses in order, then the error reply.
   `CutShowsHere` is an input outside the condition.
2. **What a client reads.** The client is strict: field names in any letter case, all lines of one
   name one field, a status code of three digits, and one framing or none (`HttpClient`).
   `AnswerUndo`: it reads an answer back, and leaves what follows, if and only if HTTP allows the head
   and it can tell where the answer ends. `SessionToClient`: if it can for each answer of a session
   (the last may end with the connection), it reads back from the wire one response for each request,
   in order, each the one the handler gave. `CgiToClient` and `CgiEndToEnd` say for which header lines
   of a child its body arrives; `ForeignCoding` and `NoCode` are lines for which it does not.
   `ServeConnection` joins this server's handler to the driver, with the files that the answers open,
   and `ServerToClient` is the client's result for it; `ToldIff` says, from the site, the request and
   what the child did, which of this server's answers tell where they end, and `LoadSwallows` what
   becomes of one that does not.
3. **Event-loop runs.** `WireOverRuns`: for all reads, short writes, short sendfiles, errors and
   removals, the wire is the complete responses to the requests handed on, in order, and then a part
   of the last one; every body file and then the socket is closed once. A worker keeps a record of
   every connection that came to it, and its constructor, `AcceptClient`, `RunOnce` and `Shutdown`, in
   whatever order and number they are called, keep that record true: each connection is a run of its
   own events, whatever the others do, and at the end all are gone (`PassRecorded`, `PastWire`).
   `LoopToClient` and `LoopSiteToClient` carry it to the client, in general and for this server's site.
4. **The two modes agree.** `ModeAgreement` and `WireAgreement`: over every run the event loop hands
   on the requests that the blocking driver hands on for the same reads without the bytes past the
   end of each request, ends as it does, and has a prefix of its wire on the wire, all of it when no
   send fails; those are the same reads if and only if no read carries such bytes, other than after a
   request that asks to close. `PipeliningShows` is what happens otherwise.
5. **Hand-off protocols.** `NoLostWakeup`, `CleanShutdown`, `JoinEnds`, `TokenConservation`.
6. **The three senders agree.** `WriteResponse`, `SendersAgree` and `SslWriteResponse` all put
   `Render(pkg)` on the wire when nothing fails.
7. **Round trips.** `PrintParse` and `ParsedIffGood` (requests), `ChunkedUndo`, `AnswerUndo`,
   `FileToClient`, `CgiToClient`, `PrintedHeaders`, `PrintedStatus`, `Base64Undo`. What the parser
   makes of a length is stated on its text: `LengthDeclared`, `LengthMissing` and `LengthAbsent`.
   `FileRead` is everything that a client reads of an answer about a file, field by field.
8. **Decisions.** `ResolveMeaning` with the laws that determine it (`NormalizeStep`,
   `NormalizeAnywhere`, `ResolveExactly`), `GrantedIff`, `BasicExact`, and `AccessIff`, which puts them
   together into the exact condition to get past phase_access, with `HtaccessDecides` for which
   .htaccess counts and `AccessCodes` for the refusals; `PhasesGate`: only behind it a file is opened, a
   program run or a listing shown.
9. **The CGI child.** `RunCgi`: whatever the kernel answers, each pipe end is closed once and the
   child is waited for once; `RunOutcome` and `RunCalls` say which end of a child gives which answer
   and which calls.
10. **Who owns a served file.** `LeakIff`: after serve_static_file the descriptors are those from
   before and the response's, if and only if the range does not make `std::stoull` throw;
   `RangeThrowsIff` says for which headers it does, `LeakHere` gives one.

## Model

| member | source | states |
|---|---|---|
| `Http.MethodOf` | http/core/request_parser.cpp:117-134 | exactly the four printed method names are accepted, each as the method that prints it |
| `Http.HeaderLineShape` | http/core/request_handler_utils.cpp:57-71 | whatever the line, the name is trimmed, lower-case and free of colons, the value trimmed, and neither gains a line feed |
| `Http.HeaderLineUndo` | http/core/request_handler_utils.cpp:57-71 | a printed "name: value" reads back as the pair |
| `Http.WantsCloseMeans` | http/connection/connection_manager.cpp:26-33 | the client wants to close exactly if "close" occurs somewhere in its Connection header, in any letter case |
| `RequestParserClass.FindLineEnd` | http/core/request_parser.cpp:16-27 | the line that is cut is the text before the first newline without its CR, and nothing is found exactly when there is no newline |
| `RequestParserClass.TerminatorEndsAtNewline` | http/core/request_parser.cpp:16-41 | line end and terminator length together skip exactly to the first newline |
| `RequestParserClass.SplitByFind` | http/core/request_parser.cpp:83-104 | the three searches for a space accept exactly the lines with three fields and yield those fields |
| `RequestParserClass.RequestParser.TakeLine` | http/core/request_parser.cpp:68-80 | one line leaves the buffer, up to and with the first newline; without one the buffer is unchanged |
| `RequestParserClass.RequestParser.ReadRequestLine` | http/core/request_parser.cpp:82-104 | the three searches and their branches compute the specification that splits the line into fields, with the same error for each malformed shape |
| `RequestParserClass.RequestParser.TakeFields` | http/core/request_parser.cpp:106-137 | the three fields give the specified request, or the error for an empty field or an unknown method |
| `RequestParserClass.RequestParser.ProcessRequestLine` | http/core/request_parser.cpp:67-138 | one step on the request line: the specified state, and progress exactly when there was a line and it was good; the limit is judged only without a newline |
| `RequestParserClass.RequestParser.EndHeaders` | http/core/request_parser.cpp:155-196 | on the blank line the declared length, or its error, decides the state as specified |
| `RequestParserClass.RequestParser.AddHeader` | http/core/request_parser.cpp:199-207 | any other line adds one header or is the error for a malformed one |
| `RequestParserClass.RequestParser.ProcessHeaders` | http/core/request_parser.cpp:140-208 | one step on a header line or the blank line: the specified state, with all Content-Length errors, and progress exactly when there was a line and it was good |
| `RequestParserClass.RequestParser.ProcessBody` | http/core/request_parser.cpp:210-225 | takes the body whole or changes nothing |
| `RequestParserClass.RequestParser.Advance` | http/core/request_parser.cpp:51-65 | ends, and leaves the state that the recursive scan of the buffer followed by the limit test gives |
| `RequestParserClass.RequestParser.Feed` | http/core/request_parser.cpp:45-49 | the object's new state is the specified feed of its old state |
| `RequestParserClass.RequestParser.GetRequest` | http/core/request_parser.cpp:232-241 | hands the request out and leaves a fresh parse of the leftover |
| `RequestParserClass.RequestParser.Reset` | http/core/request_parser.cpp:243-250 | leaves the initial state: the leftover is gone |
| `ParserSpec.ScanSplit` | http/core/request_parser.cpp:51-65 | a scan may stop after any prefix and go on when the rest arrives |
| `ParserSpec.ScanIdempotent` | http/core/request_parser.cpp:51-65 | scanning again without new bytes changes nothing |
| `ParserSpec.ScanNeverTooLong` | http/core/request_parser.cpp:69-75 | only the limit test reports a line that is too long |
| `ParserSpec.FeedSplitLive` | http/core/request_parser.cpp:45-65 | while the parser needs more, feed(a); feed(b) reaches the state of feed(a + b) |
| `ParserSpec.FeedSplitEnded` | http/core/request_parser.cpp:45-65 | after Done, or an error other than too long, the two differ only by b staying in the buffer |
| `ParserSpec.FeedSplitTooLong` | http/core/request_parser.cpp:69-75 | after too long the second feed is ignored, and one feed of both agrees if b does not end the line |
| `ParserSpec.ScanReachable` | http/core/request_parser.cpp:67-225 | scanning keeps the invariant: good headers and URI, a body exactly as long as declared for POST and none otherwise, at most 10 MB, content_length cut to 16 bits |
| `ParserSpec.ScanConsumesFront` | http/core/request_parser.cpp:51-65 | what a scan leaves is the end of what it was given |
| `ParserSpec.FeedReachable` | http/core/request_parser.cpp:45-241 | every state that feed and get_request reach keeps the invariant, and what was fed is what was consumed followed by the buffer |
| `HttpRequest.WriteRequest` | http/core/http_request.cpp:28-35 | the loop prints the request line, the headers in the order walked and the body |
| `HttpRequest.RequestLineUndo` | http/core/http_request.cpp:28-29 | a printed request line is read back as method and URI |
| `HttpRequest.ScanHeaderBlock` | http/core/request_parser.cpp:140-208 | printed header lines are all read back, in any order |
| `HttpRequest.PrintParse` | http/core/http_request.cpp:28-35 | every good request, printed with any header order, a blank line, its body and anything else, is parsed back whole and what follows stays in the buffer |
| `HttpRequest.ParsedIffGood` | http/core/request_parser.cpp:67-225 | the requests that the parser can produce are exactly the good ones |
| `RequestLaws.StollRead` | http/core/request_parser.cpp:160-169 | blanks, a sign or none, digits and anything behind them read as that number, or throw if no long long holds it |
| `RequestLaws.StoullRead` | http/handlers/static_file_handler.cpp:38-43 | the same for an unsigned long long, where a minus sign counts down from 2^64 |
| `RequestLaws.NoNumber` | http/core/request_parser.cpp:160-175 | without a digit there both throw |
| `RequestLaws.LengthDeclared` | http/core/request_parser.cpp:155-225 | a POST whose Content-Length is the number n has a body of exactly the n bytes behind the blank line, waits for them if they are not there, and leaves what follows; any other method has none; above 10 MB the error is PayloadTooLarge, for a negative number or one of 2^63 and more BadRequest; content_length is n cut to 65535 |
| `RequestLaws.LengthPrinted` | http/core/request_parser.cpp:155-225 | a POST that announces the length of its body is handed on with exactly that body |
| `RequestLaws.LengthMissing` | http/core/request_parser.cpp:160-175 | a Content-Length without a number is BadRequest, whatever the method |
| `RequestLaws.LengthAbsent` | http/core/request_parser.cpp:157-159 | without a Content-Length there is no body |
| `RequestLaws.RefusalToClient` | http/connection/connection_manager.cpp:126-174 | a client that is refused by the parser reads 413 for PayloadTooLarge and 400 for every other error, with Connection: close |
| `RequestLaws.WrongSpaces` | http/core/request_parser.cpp:83-104 | a request line with fewer or more than two spaces is refused |
| `RequestLaws.ThreeFields` | http/core/request_parser.cpp:106-137 | with exactly two, it is refused for an empty field or an unknown or lower-case method, and otherwise sets method and URI |
| `RequestLaws.HeaderLineRead` | http/core/request_handler_utils.cpp:57-71 | name and value of a header line are taken without the white space around them, the name in lower case |
| `RequestLaws.HeaderLineBad` | http/core/request_handler_utils.cpp:57-71 | a line without a colon, or with nothing but white space before it, is no header |
| `RequestLaws.HeaderTaken` | http/core/request_parser.cpp:199-207 | fed to the parser, a header is added or takes the place of one of the same name, and a line that is none is InvalidHeader |
| `RequestLaws.LineLimit` | http/core/request_parser.cpp:69-75 | a line whose end has not come may have 8192 bytes; one more is BadRequest on the request line and InvalidHeader on a header |
| `HttpResponse.WriteHeaders` | http/core/http_response.cpp:16-23 | the loop prints the status line, the headers in the order walked and the blank line |
| `HttpResponse.HexUndo` | http/core/http_response.cpp:28-31 | the chunk size is read back from its hexadecimal digits, which hold no CR or LF |
| `HttpResponse.DechunkChunk` | http/core/http_response.cpp:25-40 | the decoder on one chunk in front of anything |
| `HttpResponse.ChunkedUndo` | http/core/http_response.cpp:25-40 | a decoder for section 7.1 of RFC 9112 returns exactly the body, empty included, and leaves exactly what followed |
| `HttpClient.StatusUndo` | http/core/http_response.cpp:16-18 | a printed status line is read back exactly if the code has three digits and the message is text (section 4 of RFC 9112) |
| `HttpClient.FieldUndo` | http/core/http_response.cpp:19-21 | a printed header is read as a field, its name in lower case, if HTTP allows name and value, and is refused otherwise |
| `HttpClient.HeadUndo` | http/core/http_response.cpp:16-23 | in any order of the headers the client finds code, message, all fields in that order and the blank line, and exactly what follows it, if HTTP allows every part of the head, and nothing otherwise |
| `ResponseReader.BodyUndo` | http/core/http_response.cpp:25-40 | read by a framing, a body comes back and what follows is left exactly if the framing is chunked and so is the answer, or the length is the true one, or it runs to the end and nothing follows |
| `ResponseReader.AnswerUndo` | http/connection/connection_manager.cpp:62-84 | what process_request renders reads back as code, message, fields with Connection set, and body, leaving what follows, if and only if HTTP allows the head and the client can tell where the answer ends; HEAD, 204 and 304 end at the blank line, 1xx is no response (section 6.3 of RFC 9112, section 15.2 of RFC 9110) |
| `ResponseReader.ClosesIff` | http/connection/connection_manager.cpp:26-69 | the client takes the connection to close exactly if the request asked for it or a header of the handler's does, in whatever letter case |
| `ResponseReader.ReadReplies` | http/connection/connection_manager.cpp:176-187 | the replies to the requests served read back one by one, in front of anything, if HTTP allows each, it tells where it ends, and none but the last closes |
| `ResponseReader.SessionToClient` | http/connection/connection_manager.cpp:110-189 | from the wire of a session whose answers tell where they end, the last perhaps with the connection, the client reads exactly one response for each request served, in order, and then the error reply if there is one |
| `ConnectionSpec.ServeNeverTooLong` | http/core/request_parser.cpp:232-241 | the one-shot parse of a stream never ends in too long |
| `ConnectionSpec.DriveIsServe` | http/connection/connection_manager.cpp:122-188 | from any scanned state, driving over reads equals parsing the stream at once exactly when the lines fit |
| `ConnectionSpec.ChunkingUnobservable` | http/connection/connection_manager.cpp:122-188 | for every stream and every cut: same requests and same ending as the one-shot parse if and only if no read boundary lies more than 8192 bytes into an unfinished line |
| `Connection.ProcessRequest` | http/connection/connection_manager.cpp:62-84 | the package closes when the client asked for it and takes over the answer's file and its range |
| `Connection.WrittenPrefix` | http/connection/connection_manager.cpp:50-60 | write_all sends a prefix, and everything if no write fails |
| `Connection.WrittenUntil` | http/connection/connection_manager.cpp:50-60 | exactly what the calls before the first that fails take is sent |
| `Connection.StreamedUntil` | http/connection/connection_manager.cpp:92-105 | of a file range exactly what the calls before the first failure other than EAGAIN and EINTR take is sent, all of it without one |
| `Connection.WriteAll` | http/connection/connection_manager.cpp:50-60 | the loop adds to the wire exactly what the specification of write_all sends |
| `Connection.SendRange` | http/connection/connection_manager.cpp:92-105 | the sendfile loop sends exactly that much of the range, from its start |
| `Connection.WriteResponse` | http/connection/connection_manager.cpp:86-108 | a prefix of the bytes and a prefix of the file range, the whole rendering if nothing fails; the file is closed once whatever the sends did |
| `Connection.ReadRequest` | http/connection/connection_manager.cpp:126-174 | the inner loop reads up to a request, an error or the end, and agrees with Drive on all three |
| `Connection.ServeRequest` | http/connection/connection_manager.cpp:176-187 | the request leaves the parser, its rendering is on the wire and its file closed |
| `Connection.HandleConnection` | http/connection/connection_manager.cpp:110-189 | requests and ending are those of Drive; every file behind an answer is closed once, in order; without send failures the wire is exactly the responses and the error reply |
| `EventLoopSpec.SendProgress` | server/select_mode.cpp:138-183 | a call to process_writable sends exactly the next piece of the package, and completes only when the whole package is out |
| `EventLoopSpec.SendFileUntil` | server/select_mode.cpp:154-180 | in one call the file goes on by exactly what the calls before the first error take; then the response waits on EAGAIN and is broken on any other error |
| `EventLoopSpec.SendHeadUntil` | server/select_mode.cpp:139-150 | a first call that fails or takes not all of the buffer ends process_writable, waiting or broken in the same way |
| `EventLoopSpec.SendHeadWhole` | server/select_mode.cpp:138-180 | when the buffer is out the file follows in the same call |
| `EventLoopSpec.WritableEnds` | server/select_mode.cpp:138-189 | the connection is dropped exactly by a broken response or by a complete one that is to close; after any other complete one it is as after acceptance |
| `EventLoopSpec.StepInv` | server/select_mode.cpp:84-189 | every event keeps the invariant on phase, buffers, offsets, wire and descriptors |
| `EventLoopSpec.RunInv` | server/select_mode.cpp:84-189 | every run keeps the invariant |
| `EventLoopSpec.WireOverRuns` | server/select_mode.cpp:97-189 | over every run: each package is what process_request makes of its request and the answer given to it; complete ones in order, then a part of the last or of the error reply; back in Reading all are complete and no file is held; offset plus size is constant; once gone, every body file and the socket were closed once |
| `EventLoopSpec.SendersAgree` | server/select_mode.cpp:138-183 | for every schedule of short counts and EAGAIN, a connection that stopped writing has put exactly the rendered package on the wire |
| `Modes.NextIsFreshIff` | http/core/request_parser.cpp:232-250 | get_request alone and get_request with reset leave the same parser exactly when no bytes are left over |
| `Modes.FeedCropped` | http/core/request_parser.cpp:51-65 | without the bytes past the end of a request the same read completes the same request and leaves nothing over |
| `Modes.CroppedIff` | http/core/request_parser.cpp:232-250 | cutting those bytes off every read changes nothing exactly if there are none, other than after a request that asks to close |
| `Modes.ModeAgreement` | server/select_mode.cpp:84-123 | over every run the event loop hands on the requests that the blocking driver hands on for the reads so cut, and ends as it does; the cut reads are the reads exactly if they are aligned |
| `Modes.WireAgreement` | server/select_mode.cpp:84-189 | with one handler for both, over every run, the event loop's wire is a prefix of what the blocking driver sends for the cut reads, exactly its replies when back in Reading, and all of it, error reply included, for a connection that is gone without a failed send |
| `Modes.LoopToClient` | server/select_mode.cpp:84-189 | the client of such a connection reads one response for each request handed on, in order, each the one given, and then the error reply if there is one |
| `Limits.CutShows` | http/core/request_parser.cpp:69-75 | a good request with a long first line is served from one read and refused when the first read ends past the limit inside the line |
| `Limits.CutFits` | http/core/request_parser.cpp:69-75 | cut up to 8192 bytes into its first line the same request is served |
| `Limits.CutShowsHere` | http/core/request_parser.cpp:69-75 | such a request, concretely |
| `Limits.PipeliningShows` | server/select_mode.cpp:84-94 | of two requests in one read the driver hands on both, the event loop only the first, and the second leaves no trace |
| `EventLoop.Poller.Add` | server/poller.hpp:113-118 | registers the interest; a registered descriptor stays as it is |
| `EventLoop.Poller.Modify` | server/poller.hpp:120-125 | replaces the interest of a registered descriptor only |
| `EventLoop.Poller.Remove` | server/poller.hpp:127-129 | unregisters |
| `EventLoop.ConnState.ResetToReading` | server/select_mode.cpp:84-94 | the whole object is as after acceptance, its file is closed once, its interest is reading |
| `EventLoop.ConnState.StartResponse` | server/select_mode.cpp:108-122 | the package becomes the writing state, with the descriptor that open gave, and the interest is writing |
| `EventLoop.ConnState.ProcessReadable` | server/select_mode.cpp:97-135 | object, wire, descriptors, interest and verdict are those of the specified read step |
| `EventLoop.ConnState.SendFileBody` | server/select_mode.cpp:154-180 | the loop moves offset, size and wire as the specified sendfile loop does, for any short counts |
| `EventLoop.ConnState.FinishWriting` | server/select_mode.cpp:151-188 | the file part and the end: object, wire, close of the file, interest and verdict |
| `EventLoop.ConnState.ProcessWritable` | server/select_mode.cpp:138-189 | object, wire, descriptors, interest and verdict are those of the specified write step |
| `WorkerSpec.ReplaceSound` | server/select_mode.cpp:233-249 | when one connection changes as a handler may change it, no descriptor is held twice, all held are open, interests match phases, and foreign descriptors are untouched |
| `WorkerSpec.RemoveSound` | server/select_mode.cpp:261-269 | the same when a connection and its file go |
| `WorkerSpec.AcceptSound` | server/select_mode.cpp:75-81 | the same when a connection comes |
| `WorkerSpec.DispatchIsStep` | server/select_mode.cpp:233-249 | what the worker does to a connection is a step of its history: same bytes, same state, and listed for removal exactly if the history ends |
| `WorkerSpec.SeenIsRun` | server/select_mode.cpp:230-249 | the events of one wait, for one connection, are a run of its history: same wire, same state, and listed for removal exactly if it ends |
| `WorkerSpec.GoneAt` | server/select_mode.cpp:251-259 | a reading connection goes in the first pass that is as long after its acceptance as the timeout says, not one second before; one that writes, or any without a timeout, never |
| `WorkerSpec.AcceptRecorded` | server/select_mode.cpp:70-81 | the record stays true when a connection comes, also on a descriptor that another one had before |
| `WorkerSpec.PassRecorded` | server/select_mode.cpp:230-269 | the record stays true over a pass: every connection kept is where its own events take it, every other one is gone |
| `WorkerSpec.PastWire` | server/select_mode.cpp:191-276 | of every connection that ever came to the worker: complete answers in order on its wire and then a part of the last or of the error reply, and once it is gone its files and its socket closed once |
| `EventLoopWorker.Worker.AcceptClient` | server/select_mode.cpp:70-81 | the descriptor passes into the worker's ownership as a fresh connection watched for reading, and into its record |
| `EventLoopWorker.Worker.DispatchReadable` | server/select_mode.cpp:240-243 | one connection, its wire and the descriptor table change as specified, all else is kept |
| `EventLoopWorker.Worker.DispatchWritable` | server/select_mode.cpp:244-247 | one connection, its wire and the descriptor table change as specified, all else is kept |
| `EventLoopWorker.Worker.HandleEvent` | server/select_mode.cpp:233-249 | connections, wires, descriptors and removals asked for after one event |
| `EventLoopWorker.Worker.HandleEvents` | server/select_mode.cpp:230-249 | the same after all events of a wait, in order |
| `EventLoopWorker.Worker.Expired` | server/select_mode.cpp:251-259 | lists exactly the connections still reading whose time is up |
| `EventLoopWorker.Worker.RemoveConn` | server/select_mode.cpp:261-268 | closes the file and the socket once, forgets the connection, and skips one that is gone |
| `EventLoopWorker.Worker.RemoveAll` | server/select_mode.cpp:261-269 | exactly the listed connections go, once each however often they are listed |
| `EventLoopWorker.Worker.RunOnce` | server/select_mode.cpp:230-269 | exactly the dropped and the timed-out connections are gone; each other is as its events leave it, and the wire of each that was there, gone or not, is as they leave it; ownership is kept, and the record stays true |
| `EventLoopWorker.Worker.Shutdown` | server/select_mode.cpp:272-275 | afterwards exactly the foreign descriptors are open, no close named a closed one, and by the record every connection is gone |
| `ThreadPool.StepInv` | server/thread_pool_mode.cpp:18-82 | every step keeps mutual exclusion, the wake-up bound, queue order and the sentinel count |
| `ThreadPool.RunInv` | server/thread_pool_mode.cpp:18-82 | every interleaving keeps them |
| `ThreadPool.NoLostWakeup` | server/thread_pool_mode.cpp:27-46 | whenever a worker sleeps and no notification is under way, each queued job has an awake worker about to test the queue, spurious wake-ups included |
| `ThreadPool.CleanShutdown` | server/thread_pool_mode.cpp:70-80 | connections come before sentinels and in order; while the workers are joined none sleeps; at return all have exited and the queue is empty |
| `ThreadPool.JoinEnds` | server/thread_pool_mode.cpp:77-80 | while the workers are joined every step is progress and, until all have exited, one can step |
| `WakePipe.StepInv` | server/select_mode.cpp:41-69 | every step keeps: queued = bytes in the pipe + tokens held + one about to be written + lost writes |
| `WakePipe.RunInv` | server/select_mode.cpp:32-82 | every interleaving of the acceptor and the workers keeps it |
| `WakePipe.TokenConservation` | server/select_mode.cpp:217-228 | no token is ever spent on an empty queue, connections are taken once and in order, and when all is quiet the queue is empty exactly if no write was lost |
| `Tls.SslSentPrefix` | server/tls.cpp:56-68 | ssl_write_all sends a prefix, reports true exactly when it is everything, and does so on a benign channel |
| `Tls.SslSentUntil` | server/tls.cpp:56-68 | exactly what the calls before the first error other than WANT_WRITE take is sent |
| `Tls.SslWriteAll` | server/tls.cpp:56-68 | the loop adds to the channel exactly that, and returns that result |
| `Tls.SendPiece` | server/tls.cpp:90-95 | one turn reads a piece of the file and sends a prefix of it, all of it on a benign channel |
| `Tls.SendFromFile` | server/tls.cpp:81-95 | reading in pieces of 64 KB, a prefix of the range is sent, all of it if nothing fails |
| `Tls.SslWriteResponse` | server/tls.cpp:76-99 | the channel gets what the plain sender sends if nothing fails, else a prefix of the bytes and of the range; the file is closed once |
| `Base64.ShiftOut` | http/core/request_handler_utils.cpp:146-151 | shifting a wrapped accumulator and masking gives the byte that the unwrapped one gives |
| `Base64.PushSymbol` | http/core/request_handler_utils.cpp:146-151 | one turn keeps: the output is all whole bytes so far and the accumulator's low bits are the rest, although it is never masked and wraps |
| `Base64.DecodeBase64` | http/core/request_handler_utils.cpp:137-154 | the loop computes the whole bytes of the symbols' bits, and nothing as soon as a character is foreign |
| `Base64.Base64Undo` | http/core/request_handler_utils.cpp:137-154 | every byte string is recovered from its encoding (section 4 of RFC 4648), with white space anywhere |
| `Base64.DecodeLength` | http/core/request_handler_utils.cpp:137-154 | n symbols of the alphabet decode to floor(6n/8) bytes |
| `Base64.ForeignNothing` | http/core/request_handler_utils.cpp:143-145 | one character that is no symbol, no white space and no padding, and nothing is decoded |
| `Auth.GrantedIff` | http/handlers/auth_handler.cpp:23-41 | access is granted exactly for the stored user, a colon and the stored password, and never if the stored user holds a colon |
| `Auth.BasicExact` | http/handlers/auth_handler.cpp:6-42 | a header built as in section 2 of RFC 7617 is granted against an encoded stored pair exactly when both parts are equal |
| `Paths.WalkPath` | http/core/request_handler_utils.cpp:23-38 | the character loop computes the stack of directories that the segments lead to |
| `Paths.JoinParts` | http/core/request_handler_utils.cpp:39-44 | the second loop renders a stack with single slashes |
| `Paths.NormalizePath` | http/core/request_handler_utils.cpp:23-46 | both loops together compute the rendering of that stack |
| `Paths.NormalizeRendered` | http/core/request_handler_utils.cpp:23-46 | normalising a rendered stack changes nothing and following it gives the stack back |
| `Paths.PrefixBySegments` | http/core/request_handler_utils.cpp:86-97 | equal, or a string prefix followed by a slash, is exactly a prefix by segments |
| `Paths.UnderRootMeaning` | http/core/request_handler_utils.cpp:86-97 | path_under_root holds exactly when the root's stack is a prefix, root "/" included; a relative root that cancels out holds only itself |
| `Paths.ResolveMeaning` | http/routing/vhost_resolver.cpp:30-47 | for every root and URI the path is the rendering of root then URI followed as a stack, accepted exactly when the root's stack is a prefix of it |
| `PathLaws.NormalizeStep` | http/core/request_handler_utils.cpp:23-46 | behind a normalised path a name is added, "." and nothing change nothing, ".." takes the last name away or stays at the root, and a name and ".." cancel |
| `PathLaws.NormalizeAnywhere` | http/core/request_handler_utils.cpp:23-46 | at any place of any path "." and nothing can be left out, and so can a name with the ".." behind it, and ".." at the front of an absolute path |
| `PathLaws.NormalizeEnds` | http/core/request_handler_utils.cpp:23-46 | a slash at the end does not matter, and a relative path has nothing to go up from at its front |
| `PathLaws.ResolveExactly` | http/routing/vhost_resolver.cpp:30-47 | from a root r, a URI that goes up k directories and down q is accepted if and only if that is r or below it, and gives exactly that path |
| `PathLaws.ResolveAnywhere` | http/routing/vhost_resolver.cpp:30-47 | what can be left out of a path can be left out of a URI |
| `PathLaws.ResolveOutside` | http/routing/vhost_resolver.cpp:41-45 | a URI that leaves the root for a directory beside it is refused |
| `StaticFile.RangeInside` | http/handlers/static_file_handler.cpp:19-48 | whatever the header, a valid range has start <= end < size |
| `StaticFile.RangeThrowsIff` | http/handlers/static_file_handler.cpp:19-48 | parse_range throws exactly for "bytes=" headers with a dash and, on a side of it, a text that std::stoull rejects, whatever the file |
| `StaticFile.RangeBoth` | http/handlers/static_file_handler.cpp:41-47 | "bytes=a-b" selects a to b of a file that has them all and nothing otherwise |
| `StaticFile.RangeFrom` | http/handlers/static_file_handler.cpp:41-47 | "bytes=a-" selects everything from a of a file that has it |
| `StaticFile.RangeSuffix` | http/handlers/static_file_handler.cpp:36-47 | "bytes=-n" selects the last min(n, size) bytes if that is any |
| `StaticFile.ServeStaticFile` | http/handlers/static_file_handler.cpp:62-150 | response and descriptor table for every branch |
| `StaticFile.LeakIff` | http/handlers/static_file_handler.cpp:102-149 | the opened file is neither closed nor the response's exactly if nothing answered before, open succeeded and the range throws; then it stays open and there is no response |
| `StaticFile.LeakHere` | http/handlers/static_file_handler.cpp:102-117 | "Range: bytes=x-" on any file served without conditions does that |
| `StaticFile.ServeContent` | http/handlers/request_handler.cpp:150-162 | HEAD gets the same headers, no body and no file; what is open afterwards is what was open and the response's file, whose range lies in it, exactly unless the range throws |
| `StaticFile.RangeToWire` | http/handlers/static_file_handler.cpp:109-135 | a 206 puts exactly file[start..end+1] on the wire, and Content-Length and Content-Range say so |
| `StaticFile.WholeToWire` | http/handlers/static_file_handler.cpp:137-149 | without a Range header the whole file is sent under its length |
| `StaticFile.FileToClient` | http/handlers/request_handler.cpp:150-162 | the client reads a 200 or 206 back: GET with exactly the bytes it is about, HEAD with the same status and headers and nothing after them; what follows is left |
| `FileFields.FileRead` | http/handlers/static_file_handler.cpp:62-150 | for every file and request the client reads 404, 304, 406, 500, 200, 416 or 206 as file and request have it, each with exactly its fields (Date, Server, ETag, Content-Type, Last-Modified, Cache-Control, Content-Range, Content-Length, Connection, each with its own value or absent, and no others) and its body |
| `Cgi.ParseHead` | http/handlers/cgi_handler.cpp:180-202 | the getline loop computes the fold over the lines of the header block |
| `Cgi.ParseOutput` | http/handlers/cgi_handler.cpp:159-206 | the cut at the blank line, that loop and the end together compute the specified response |
| `Cgi.FirstBlankLine` | http/handlers/cgi_handler.cpp:163-176 | the blank line after printed headers is the first CRLF CRLF |
| `Cgi.ParsedShape` | http/handlers/cgi_handler.cpp:159-206 | whatever the child prints with a blank line makes a chunked answer whose texts stay on one line each; Connection and Content-Length are kept from it, but only in exactly that spelling |
| `Cgi.ParsedReadableIff` | http/handlers/cgi_handler.cpp:159-206 | a client can read it if and only if, in the child's lines, the last Status is 200 to 999, neither 204 nor 304, with a text, the request is not HEAD, every header that gets through is one that HTTP allows, and none is a Content-Length or adds a transfer coding in any letter case; and if something follows, nobody asks to close |
| `Cgi.CgiToClient` | http/handlers/cgi_handler.cpp:159-206 | output h CRLF CRLF b, where that CRLF CRLF is the first, reaches the client as body b, and what follows is left, if and only if the lines of h are such |
| `Cgi.ForeignCoding` | http/handlers/cgi_handler.cpp:199-205 | "transfer-encoding: gzip" gets past the filter and stands beside the server's own Transfer-Encoding; no client can read that answer |
| `Cgi.NoCode` | http/handlers/cgi_handler.cpp:187-195 | a Status with a text but no number is answered under code 0, which no client can read |
| `CgiLaws.StatusRead` | http/handlers/cgi_handler.cpp:187-195 | a Status that starts with a number sets that code, or the nearest int with no message, and the message behind it |
| `CgiLaws.StatusMissing` | http/handlers/cgi_handler.cpp:187-195 | without a number the code is 0 and the message empty |
| `CgiLaws.HeaderLinePassed` | http/handlers/cgi_handler.cpp:196-201 | any other line with a name and a colon sets that header, except for the three names that the server decides on |
| `CgiLaws.OtherLine` | http/handlers/cgi_handler.cpp:185-201 | lines without a name change nothing |
| `Cgi.PrintedHeaders` | http/handlers/cgi_handler.cpp:180-205 | well-formed printed headers, in any order, are answered exactly, but for the three that the server decides |
| `Cgi.StatusUndo` | http/handlers/cgi_handler.cpp:187-195 | a printed code that fits an int, negative ones included, and its message are read back |
| `Cgi.PrintedStatus` | http/handlers/cgi_handler.cpp:180-205 | the same with a Status line in front: it sets exactly the code and the message of the answer |
| `Cgi.BareBlankLine` | http/handlers/cgi_handler.cpp:163-176 | without any CRLF CRLF the first LF LF ends the headers and the body is what follows it |
| `CgiChild.FedPrefix` | http/handlers/cgi_handler.cpp:82-101 | the child gets a prefix of the body, and the helper is true exactly when that is the whole body |
| `CgiChild.FedUntil` | http/handlers/cgi_handler.cpp:82-101 | exactly what the calls before the first error other than EINTR take reaches the child, and the whole body without one |
| `CgiChild.WritePostBody` | http/handlers/cgi_handler.cpp:82-101 | the loop sends that and returns that; on failure it closes the pipe end once and waits once, else it touches neither |
| `CgiChild.CollectedIff` | http/handlers/cgi_handler.cpp:103-146 | reading succeeds exactly when nothing but EINTR goes wrong before end of file, and yields all that was printed however it was cut |
| `CgiChild.ReadOutput` | http/handlers/cgi_handler.cpp:103-146 | the loop returns that, and on failure kills and then waits for the child |
| `CgiChild.SetupPipes` | http/handlers/cgi_handler.cpp:70-80 | four new descriptors, all different, or none left open and each closed once |
| `CgiChild.RunCgi` | http/handlers/cgi_handler.cpp:208-279 | on every path each pipe end is closed once, a forked child is waited for once and last, and killed only if its output could not be read; 500, 504, 502 or the parsed output exactly as the helpers end |
| `CgiChild.RunOutcome` | http/handlers/cgi_handler.cpp:208-279 | 504 exactly if the body reached the child and a round before the end of its output times out or fails other than with EINTR; 502 exactly if none does and it does not exit with 0; 500 exactly if there is no child, its body did not reach it whole, or it ended well without a blank line; its output, parsed, otherwise |
| `CgiChild.RunCalls` | http/handlers/cgi_handler.cpp:103-155 | without a child no calls; else one wait, last, and a kill before it exactly in the 504 case |
| `CgiChild.CgiEndToEnd` | http/handlers/cgi_handler.cpp:208-279 | a child that takes the body, prints h, a blank line and b in any pieces and exits with 0 reaches the client as b, if and only if the lines of h are good for it as in CgiToClient |
| `RequestHandler.FindVhost` | http/routing/vhost_resolver.cpp:8-28 | the first host that serves the name in any letter case, else the first host, and none exactly if there is none |
| `RequestHandler.HostNameOf` | http/routing/vhost_resolver.cpp:9-14 | a port after the host name is not part of it |
| `RequestHandler.DirOfPath` | http/handlers/request_handler.cpp:104-111 | the directory whose .htaccess counts is the path without its last segment |
| `RequestHandler.FindIndex` | http/handlers/directory_handler.cpp:134-139 | the loop finds the first candidate that is a regular file |
| `RequestHandler.PhaseContext.FindConfig` | http/handlers/request_handler.cpp:60-73 | 503 without a host, else the host and the path in origin form |
| `RequestHandler.PhaseContext.Access` | http/handlers/request_handler.cpp:75-122 | answers exactly when the access decision refuses, and otherwise leaves the resolved path |
| `RequestHandler.PhaseContext.Content` | http/handlers/request_handler.cpp:124-180 | carries the content decision out: answer, descriptors and children; only a file answer keeps a descriptor, and not for HEAD |
| `RequestHandler.Handle` | http/handlers/request_handler.cpp:28-58 | the phases in order carry out the decision, later phases being skipped once an answer is ready |
| `RequestHandler.AccessIff` | http/handlers/request_handler.cpp:75-122 | phase_access lets through exactly what is not the load probe, lies under the document root as a directory stack, exists, and, where the directory asks for credentials, brings the stored ones |
| `AccessLaws.HtaccessDecides` | http/handlers/request_handler.cpp:104-121 | what is there under the root goes on if and only if its directory, which is itself if it is one and else the path up to its last slash, has no .htaccess or gets its credentials; otherwise 401 with WWW-Authenticate |
| `AccessLaws.ProtectedDirectory` | http/handlers/request_handler.cpp:104-121 | a directory named by the URI is under its own .htaccess |
| `AccessLaws.ProtectedFile` | http/handlers/request_handler.cpp:104-121 | and so is every file right in it |
| `AccessLaws.AccessCodes` | http/handlers/request_handler.cpp:75-122 | the load probe 200 or 503, outside the root exactly 403, not there exactly 404, else the demand for credentials, and no other answer |
| `AccessLaws.ContentCodes` | http/handlers/request_handler.cpp:124-180 | 204 with Allow and Date to every OPTIONS; 405 exactly to POST of what is no program; 404 to GET and HEAD of what is neither file nor directory; a program is run for GET, HEAD and POST |
| `AccessLaws.IndexServed` | http/handlers/directory_handler.cpp:112-150 | of a directory index_m.html first on an iPhone at the document root, else index.html, else the listing, or 403 if there is none |
| `AccessLaws.OriginPathOf` | http/handlers/request_handler.cpp:68-72 | the query is cut off at the first question mark, and a slash is put in front if none is there |
| `AccessLaws.ServesIff` | http/routing/vhost_resolver.cpp:16-22 | a host serves its own name in any letter case, and none serves the empty name |
| `AccessLaws.NoHost` | http/handlers/request_handler.cpp:60-66 | without any virtual host the answer is 503, and with one a host is chosen |
| `RequestHandler.PhasesGate` | http/handlers/request_handler.cpp:38-180 | what is not let through gets an empty answer; only what is opens a file, which is the one at its path or an index file there, runs a program, exactly if one is there, or sees a listing |
| `Server.HandleIsPlaced` | server/select_mode.cpp:107-122 | what the handler does to the descriptors is, for every action, what the event loop's model does when it places an answer |
| `Server.Respond` | http/connection/connection_manager.cpp:176-187 | handle, process_request and write_response in turn: afterwards the descriptors are what they were, whatever the sends did, and without failures the wire has the site's rendered answer; it throws exactly if the range does |
| `Server.ServeConnection` | http/connection/connection_manager.cpp:110-189 | the driver with this server's handler serves the requests of Drive up to the first that throws, ends as Drive does if none does, leaves the descriptors as they were, and without send failures the wire is exactly the answers and the error reply |
| `SiteClient.ToldIff` | http/handlers/request_handler.cpp:60-180 | of the answers that the handler gives, the client reads exactly these back and goes on right after them: without a program, all to HEAD; of what phase_access refuses, the demand for credentials; of the rest, those to OPTIONS, a listing that is not empty, and a file that is not modified, or acceptable, opened and without a range or with a valid one; of a program that ends well with a blank line in its output, those whose header lines are good, and if it fails, only to HEAD |
| `SiteClient.SiteReadableIff` | http/handlers/request_handler.cpp:28-36 | in a session, where the last answer may end with the connection and nobody may ask to close before it, the client can read exactly those |
| `SiteClient.ServerToClient` | http/connection/connection_manager.cpp:110-189 | of a session of such answers the client reads exactly one response for each request, each the site's, and then the error reply if there is one |
| `SiteClient.LoopSiteToClient` | server/select_mode.cpp:84-189 | the same for every run of a connection of the event loop that the site answers, back in Reading or gone without a failed send |
| `SiteClient.LoadSwallows` | http/handlers/request_handler.cpp:76-83 | the answer to the load probe is not among them: to the client, whatever follows it is its body |

## Where the code differs from its comments or from what one may expect

- The limit on request and header lines is tested only when no newline is buffered, so a long line
  passes when it arrives whole (http/core/request_parser.cpp:69-75, 142-148).
- `reset()` drops input that was read with the end of a request, so the event loop loses pipelined
  requests (server/select_mode.cpp:86, http/core/request_parser.cpp:244).
- A comment says that an open-ended range has end SIZE_MAX; the code uses the last byte of the file
  (http/handlers/static_file_handler.cpp:15-17, 32). An end past the file is not clamped but
  answered with 416.
- A range such as "bytes=x-" throws after the file was opened (http/handlers/static_file_handler.cpp:38-43,
  103-111), which leaves the descriptor open. There is no handler for the exception on any path of a
  connection (the only two are around other conversions, http/core/request_parser.cpp:160-169 and
  config/config.cpp:29-35), so it ends the process.
- Most answers without a body, such as 404, 405, 416 and the answer to "GET /load", say neither
  Content-Length nor chunked on a connection that goes on, so a client cannot tell that they are
  over (http/core/http_response.cpp:25-40). A CGI answer keeps its chunked body for HEAD and under
  a status that must not have one (http/handlers/request_handler.cpp:137-141).
- Three headers of a CGI child are dropped, but only in one spelling each; in other letters they get
  through and stand beside the server's own. A Status code is passed on whatever its number
  (http/handlers/cgi_handler.cpp:187-199).
- A relative document root that cancels out to nothing (such as "a/..") accepts only itself.

## Left out

- ReadRequest: the results of read may be of any length, not only up to the 8192 bytes of the buffer, and the receive timeout appears as EAGAIN.
- SslWriteAll: lengths are unbounded, where the source casts what is left to int.
- SendRange: sendfile returning 0 for ever, which would loop, is not among the scripts, because the served file is taken to keep its length.
- WriteResponse: without send failures the whole rendering is proved; after a failed write_all, whose result the source ignores, only that prefixes are sent.
- RunOnce: one pass after its wait; that passes follow each other, their liveness and that one byte in the shutdown pipe stops only one reader are left out, as is edge-triggered progress. The record stays true if the wait reports no descriptor twice, which epoll_wait grants.
- Write: nothing in the source ignores SIGPIPE and plain sends use write and sendfile, so a send to a peer that is gone, or to a child that has closed its input, ends the process instead of returning EPIPE; the failures in the scripts are the others.
- AcceptClient: starts after the queue was popped; the queue and the wake pipe are in WakePipe.
- StartResponse: opens the file of the answer given to it, where the source runs the whole handler there; HandleIsPlaced shows that for the descriptors this is the same.
- Content: executability and the kind of an entry are looked up once, where the source calls stat again.
- ParseOutput: a Status number is read as C++ streams read an int in the C locale. For a Status line with nothing but blanks after it the source uses an int that nothing has set (http/handlers/cgi_handler.cpp:189-194); the model says 0, as for any other text without a number.
- Sockets, OpenSSL, the TLS handshake and its driver loop, pipe, fork and the child's side up to execve, and the CGI environment.
- Clocks, HTTP dates, ETags, the MIME table, check_accept, the directory listing's HTML and the log: parameters or not modelled.
- The readers of the configuration and of .htaccess, and the management thread.
- KqueuePoller; the poller is the epoll one.
- Trailers and chunk extensions, which the server never sends, are no part of the client's reader; how requests should be framed by section 6.3 of RFC 9112 is not stated.
- HttpRequest::to_bytes with a body prints no blank line; the round trip puts it there.
