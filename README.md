# SKR-WebServer connection core in Dafny

This project models the core of a small HTTP/1.x server written in C++. It
is built on raw non-blocking sockets and epoll. The model covers:

- **The per-connection request state machine** (`HttpHandler.cpp`), modelled
  as the class `Handler.HttpHandler`. Its fields are the source's fields: the
  request buffer, the parse cursor, the state, the header map, the retry
  budget, the keep-alive flag, the body, and the method, path and version. Each
  step is a method that updates those fields in place. Each method is proved
  against a pure specification function in module `HttpSpec`:
  - the receive loop;
  - the request line of section 3.1.1 of RFC 7230;
  - the `Key: value` header lines;
  - Content-Length body framing;
  - the keep-alive decision;
  - file and CGI replies;
  - the response bytes;
  - the state and retry-budget transitions of `handleErrorType`.

  The handler's fields, taken together, form the value `Connection.Conn`.
  Module `Connection` states each `if` of `RunEventLoop` as a function on
  that value, and `Connection.Pass` states one whole pass. Each step method
  of the class ensures that its new fields are that function of its old
  ones. The lemmas of `Connection` then say what a pass does: when the
  connection is kept, what a reset leaves behind, that a pass waiting for
  more bytes spends exactly one retry, and that the state never moves
  backwards.
- **The log and path helpers of `Utils.cpp`** (module `Utils`). `escapeStr` is
  an in-place rewriting loop, proved equal to a character-by-character
  escaping function. `isNumericStr` is a loop. `is_path_parent` is a
  prefix-and-separator test over an uninterpreted canonicalizer.
- **The MIME table of `HttpHandler.h`** (module `Mime`), with its `default`
  fallback.
- **The task queue of `ThreadPool.cpp`** (class `Pool.ThreadPool`), seen one
  critical section at a time. It covers the `appendTask` bound check, the
  worker's front dequeue, and the destructor's drain and exit tasks.
- **`main.cpp`** (module `Server`):
  - the argument check;
  - the classification of client and timer events in `handleOldConnection`;
  - the accept loop of `handleNewConnections` with `closeRemainingConnect`;
  - the reactor loop's dispatch and its handling of `epoll_wait` failures.

Some operating-system calls are replaced by inputs:

- Each `recv` call becomes one outcome in a script: data, peer closed, or an
  errno.
- `writen` becomes the byte count it returns.
- `accept4` and timerfd creation become a script of outcomes, and so does
  `epoll_wait`.
- The filesystem becomes a map from path to one of four entries: a regular
  file with its bytes, a directory, a path whose `stat` fails, or a path
  that `stat` accepts but `open` refuses.
- The CGI executor becomes a function from target and body to output.
- `canonicalize_file_name` becomes a partial function: `None` means the call
  failed.

Where the code and its comments disagree, the model follows the code:

- On AGAIN, `parseHttpHeader` leaves the cursor where it was, but keeps the
  lines it already stored. The next pass parses them again.
  `HttpSpec.HeaderReparse` proves that this gives the same result as one
  parse of the whole buffer.
- `reset` clears the whole buffer. Bytes of a pipelined next request are
  dropped, not parsed.
- A `connection: keep-alive` header turns keep-alive on for HTTP/1.0 too.
  `Connection: close` is never honoured.
- `appendTask` refuses only when the size is already greater than
  `maxQueueSize_`, so the queue can hold `maxQueueSize_ + 1` tasks.
- When the canonical parent is `/`, `is_path_parent` accepts no child, because
  the character after the prefix must itself be `/`.
- The empty string counts as numeric. So an empty port argument is accepted and
  read as port 0.
- The port is bound as `(unsigned short)port`, so a port argument of 65536
  or more is taken modulo 65536 and passes the check.

## Model

| member | source | states |
|---|---|---|
| `Text.ToLower` | HttpHandler.cpp:199 | each character is lower-cased as `::tolower` does in the C locale; the length is unchanged |
| `Text.DecimalRoundTrip` | HttpHandler.cpp:222 | reading back (as `atoi` does) the digits written for a count gives that count |
| `Utils.EscapeChar` | Utils.cpp:178-192 | printable characters stay; `\r` and `\n` become two-character escapes; any other byte becomes `\x` and hex digits; every output character is printable |
| `Utils.Escaped` | Utils.cpp:174-194 | the escaped text is at least as long as the input and at most four times as long, and all of it is printable |
| `Utils.EscapedConcat` | Utils.cpp:174-194 | escaping distributes over concatenation, so each character is escaped on its own |
| `Utils.EscapedIdentity` | Utils.cpp:178 | a string is its own escape exactly when all its characters are printable |
| `Utils.EscapeStr` | Utils.cpp:170-200 | the in-place loop never re-escapes inserted text and yields the escaped string; a result longer than MAXBUF is cut to MAXBUF characters followed by " ... ... " |
| `Utils.IsNumericStr` | Utils.cpp:202-208 | true exactly when every character is a decimal digit; true for the empty string |
| `Utils.IsPathParent` | Utils.cpp:226-276 | an accepted pair has both paths canonicalizing, and the parent's canonical form is a prefix of the child's |
| `Utils.PathParentMeaning` | Utils.cpp:234-275 | true exactly when both paths canonicalize and the child's canonical form equals the parent's, or extends it after a '/' |
| `Utils.PathParentReflexive` | Utils.cpp:264-268 | a path that canonicalizes is its own parent |
| `Utils.PrefixSiblingRejected` | Utils.cpp:264-268 | a child that only shares a textual prefix with the parent (`/a/b` and `/a/bc`) is rejected |
| `Utils.SiblingsRejected` | Utils.cpp:264-268 | two distinct entries of one directory are never parent and child |
| `Utils.ChildAccepted` | Utils.cpp:264-268 | `root + "/" + name` in canonical form is accepted below the root |
| `Utils.RootParentRejectsChildren` | Utils.cpp:266-267 | with canonical parent "/", only "/" itself or a child spelled with "//" passes |
| `Utils.FailedCanonicalizationRejects` | Utils.cpp:234-248 | if either path fails to canonicalize, the answer is false |
| `Mime.GetMimeType` | HttpHandler.h:125-131 | a known suffix gives its table entry and any other suffix gives "text/plain"; the result is always one of the table's types |
| `Mime.KnownSuffixes` | HttpHandler.h:135-147 | html, png, jpg and doc map to their types |
| `Mime.TextAliases` | HttpHandler.h:147-153 | htm, css and js map to "text/html"; c and txt map to "text/plain" |
| `Mime.UnknownSuffixIsPlainText` | HttpHandler.h:129-130 | a suffix missing from the table falls back to "text/plain" |
| `HttpSpec.ReceiveAll` | HttpHandler.cpp:92-113 | the receive loop ends only in SUCCESS, READ_REQUEST_FAIL or CONNECTION_CLOSED |
| `HttpSpec.ReceiveSplitChunks` | HttpHandler.cpp:107-111 | splitting the same bytes across two recv calls appends the same bytes |
| `HttpSpec.MethodOfNames` | HttpHandler.cpp:132-139 | exactly "GET", "POST" and "HEAD" are recognised, case-sensitively |
| `HttpSpec.VersionOfNames` | HttpHandler.cpp:159-164 | exactly "HTTP/1.0" and "HTTP/1.1" are recognised |
| `HttpSpec.ParseRequestLine` | HttpHandler.cpp:120-169 | AGAIN exactly when no CRLF is buffered; a failure is only 400, 501, 404 or 505, moves the cursor nowhere and sets no version; on success the cursor moves just past the first CRLF, and the method, path and version are all set, with the path under the document root |
| `HttpSpec.ParseLine` | HttpHandler.cpp:127-164 | the version is set exactly when every check on the line passes, and then the method and a path under the document root are set too |
| `HttpSpec.RequestLineChecks` | HttpHandler.cpp:127-167 | for "token target version", the checks run in the source's order: the method (501), then the path under the root (404), then the version (505) |
| `HttpSpec.RequestLineRoundTrip` | HttpHandler.cpp:124-168 | formatting a request line and parsing it back gives its method, `www + "/" + target` and its version |
| `HttpSpec.NoSpaceIsBadRequest` | HttpHandler.cpp:127-128 | a first line with no space is 400 |
| `HttpSpec.OneSpaceLine` | HttpHandler.cpp:127-145 | a line with one space is 501 for an unknown method and 400 for a known one |
| `HttpSpec.HeaderLineRoundTrip` | HttpHandler.cpp:189-201 | `HeaderLine` of "Name: value" gives the lower-cased name and the whole value |
| `HttpSpec.HeaderKeyMalformed` | HttpHandler.cpp:189-195 | `HeaderLine` rejects a key shorter than two characters, or one without a trailing ':' |
| `HttpSpec.ScanHeadersDone` | HttpHandler.cpp:178-188 | a header scan (`ScanHeaders`) that finishes ends just past a blank line |
| `HttpSpec.ScanHeadersStep` | HttpHandler.cpp:178-206 | a well-formed line is stored and the scan goes on after its CRLF |
| `HttpSpec.ScanKeepsOtherKeys` | HttpHandler.cpp:205 | a scan changes only the keys it stores |
| `HttpSpec.ResumeAgrees` | HttpHandler.cpp:178-207 | starting maps that differ only on keys the scan overwrites give the same scan of a longer buffer |
| `HttpSpec.HeaderReparse` | HttpHandler.cpp:178-207 | parsing again after an AGAIN, from the unmoved cursor and the partly filled map, gives what one parse of the whole buffer gives |
| `HttpSpec.HeaderScanStable` | HttpHandler.cpp:178-206 | a scan that found its blank line or a bad line is not changed by bytes that arrive later |
| `HttpSpec.FrameBody` | HttpHandler.cpp:210-232 | framed exactly when a numeric content-length is declared and that many bytes follow the cursor, and then the body is exactly those bytes; 411 exactly when no length is declared; 400 exactly when it is not all digits |
| `HttpSpec.BodyRoundTrip` | HttpHandler.cpp:218-226 | a body announced with its own length is recovered exactly, whatever follows it |
| `HttpSpec.BodyFramingStable` | HttpHandler.cpp:224-226 | once framed, the body does not change when more bytes arrive |
| `HttpSpec.KeepAliveDecision` | HttpHandler.cpp:236-247 | keep-alive holds exactly when the client sends "connection: keep-alive" in any letter case, or on HTTP/1.1 when it already held |
| `HttpSpec.ConnectionCloseIgnored` | HttpHandler.cpp:240-247 | a "connection: close" header decides nothing |
| `HttpSpec.Http10KeepAliveHonoured` | HttpHandler.cpp:237-247 | an HTTP/1.0 request with "Connection: Keep-Alive" keeps the connection |
| `HttpSpec.ResponseLayout` | HttpHandler.cpp:510-522 | a response (`Response`) starts with "HTTP/1.1 code msg" and, unless it answers HEAD, ends with the whole body |
| `HttpSpec.HeadOmitsBody` | HttpHandler.cpp:520-522 | the HEAD response is the GET response without its body, with the same Content-length |
| `HttpSpec.ResponseHeadFraming` | HttpHandler.cpp:517-519 | the header lines (`HeaderFields`) end in a blank line, and their Content-length reads back as the full body size |
| `HttpSpec.WriteOutcome` | HttpHandler.cpp:532-534 | success exactly when writen wrote the whole response; otherwise SEND_RESPONSE_FAIL |
| `HttpSpec.StatusOf` | HttpHandler.cpp:442-505 | an error kind has a status exactly when it is not SUCCESS, AGAIN, or a read, close or send failure |
| `HttpSpec.StatusCodesDistinct` | HttpHandler.cpp:471-500 | distinct HTTP error kinds get distinct status codes |
| `HttpSpec.ErrorPageTitle` | HttpHandler.cpp:537-548 | the error page (`ErrorBody`) opens with a title naming the code and the message |
| `HttpSpec.AfterError` | HttpHandler.cpp:442-505 | only AGAIN spends a retry; every HTTP error moves to ERROR; FATAL exactly after a read, close or send failure, after the last retry, or when it already was and nothing moved it |
| `HttpSpec.ErrorPages` | HttpHandler.cpp:471-500 | one error page for an HTTP error, none for any other kind |
| `HttpSpec.DotSuffix` | HttpHandler.cpp:304-308 | the suffix holds no '.' and is no longer than the path |
| `HttpSpec.DotSuffixShape` | HttpHandler.cpp:304-308 | the suffix has no '.', ends the path, and is the whole path or follows a '.' |
| `HttpSpec.DotSuffixAfterDot` | HttpHandler.cpp:307-308 | everything up to a dot is dropped |
| `HttpSpec.NoDotSuffix` | HttpHandler.cpp:307 | a path without a dot is its own suffix |
| `HttpSpec.Resolve` | HttpHandler.cpp:249-270 | a resolved target is the path, or its "/index.html" for a directory, and passed its stat; a refusal is 404 or 500 |
| `HttpSpec.ResolveOutcome` | HttpHandler.cpp:250-270 | a refusal is 404 exactly when the path, or the index of a directory, is missing |
| `HttpSpec.Produce` | HttpHandler.cpp:272-437 | a refusal is 500 and content is never empty; GET and HEAD give content exactly for a non-empty regular file, and then its bytes; POST gives content exactly when the CGI output is non-empty |
| `HttpSpec.Serve` | HttpHandler.cpp:234-437 | a refusal is 404 or 500 and content is never empty; GET and HEAD serve exactly the bytes of the regular file the path resolves to |
| `HttpSpec.OkPages` | HttpHandler.cpp:310 | one 200 response for a reply with content, none for a refusal |
| `HttpSpec.ServeOutcome` | HttpHandler.cpp:250-311 | handleRequest returns the refusal, or how the write of the 200 response went |
| `HttpSpec.ServeFile` | HttpHandler.cpp:272-310 | GET or HEAD of a non-empty file serves its bytes, typed by its suffix |
| `HttpSpec.ServeDirectoryIndex` | HttpHandler.cpp:259-261 | a directory is served through its index.html, as text/html |
| `HttpSpec.IndexSuffix` | HttpHandler.cpp:304-308 | the suffix of ".../index.html" is "html" |
| `HttpSpec.ServeEmptyFile` | HttpHandler.cpp:288-295 | an empty file cannot be mapped, so the reply is 500 |
| `HttpSpec.ServeUnopenable` | HttpHandler.cpp:278-283 | a file that `stat` accepts but `open` refuses is 500 for GET and HEAD; POST never opens it and still runs it |
| `HttpSpec.ServePost` | HttpHandler.cpp:314-433 | POST replies with the CGI output as text/plain, or 500 when there is none |
| `Connection.Handle` | HttpHandler.cpp:442-505 | handleErrorType changes only the state, the retry budget and the responses sent; SUCCESS changes nothing |
| `Connection.Stage` | HttpHandler.cpp:557-570 | `if (handleErrorType(e)) state_ = next`: on SUCCESS only the state moves, to `next`; only AGAIN spends a retry; an HTTP error moves to ERROR and adds exactly its error page; the buffer, cursor, keep-alive flag and timer are untouched |
| `Connection.StageStepped` | HttpHandler.cpp:557-570 | a stage either moves on without spending a retry, or waits where it was with one retry spent and some left, or ends the request in ERROR or FATAL_ERROR |
| `Connection.UriStep` | HttpHandler.cpp:557-558 | the cursor stays within the buffer |
| `Connection.UriStepSpec` | HttpHandler.cpp:557-558 | the request-line stage moves to PARSE_HEADER exactly when the line passes every check, and otherwise waits or ends the request; headers, body and keep-alive are untouched |
| `Connection.HeaderStep` | HttpHandler.cpp:560-561 | the cursor stays within the buffer |
| `Connection.HeaderStepSpec` | HttpHandler.cpp:560-561 | the header stage moves to PARSE_BODY exactly when the blank line has arrived, and otherwise waits or ends the request; method, path, version and body are untouched |
| `Connection.BodyStep` | HttpHandler.cpp:563-567 | the cursor stays within the buffer |
| `Connection.BodyStepSpec` | HttpHandler.cpp:563-567 | the body stage moves to ANALYSI_REQUEST for anything but POST, and for POST exactly when the declared length has arrived, which becomes the body |
| `Connection.Answer` | HttpHandler.cpp:234-437 | handleRequest sets keep-alive to the decision and the path to its index page for a directory, and changes nothing else but the responses sent |
| `Connection.AnswerOutcome` | HttpHandler.cpp:234-437 | handleRequest succeeds only when the reply has content |
| `Connection.RequestStep` | HttpHandler.cpp:569-570 | the cursor stays within the buffer |
| `Connection.RequestStepSpec` | HttpHandler.cpp:569-570 | an analysed request always ends in FINISHED, ERROR or FATAL_ERROR, with keep-alive decided and exactly one response (the 200 response or the error page) handed to writen |
| `Connection.UriIf` | HttpHandler.cpp:557-558 | the cursor stays within the buffer |
| `Connection.HeaderIf` | HttpHandler.cpp:560-561 | the cursor stays within the buffer |
| `Connection.BodyIf` | HttpHandler.cpp:563-567 | the cursor stays within the buffer |
| `Connection.RequestIf` | HttpHandler.cpp:569-570 | the cursor stays within the buffer |
| `Connection.AdvanceAll` | HttpHandler.cpp:555-570 | the cursor stays within the buffer |
| `Connection.ContinuedFromRequest` | HttpHandler.cpp:569-570 | from ANALYSI_REQUEST the pass ends the request with at most one response, buffer and timer untouched |
| `Connection.ContinuedFromBody` | HttpHandler.cpp:563-570 | from PARSE_BODY the pass either waits there with one retry spent and nothing sent, or ends the request with at most one response |
| `Connection.ContinuedFromHeader` | HttpHandler.cpp:560-570 | from PARSE_HEADER the pass either waits no earlier with one retry spent and nothing sent, or ends the request with at most one response |
| `Connection.AdvanceProgress` | HttpHandler.cpp:555-570 | states only move forward; a pass that still waits spends one retry and sends nothing; otherwise the request ends with at most one response; the buffer and timer are untouched; keep-alive changes only once the request is analysed |
| `Connection.ResetConn` | HttpHandler.cpp:71-82 | a reset connection is valid, at PARSE_URI, with an empty buffer and a full budget; keep-alive and the responses sent are kept |
| `Connection.Pass` | HttpHandler.cpp:550-590 | the connection stays open exactly while a request is pending; it closes on FATAL_ERROR or on a completed request without keep-alive; a waiting pass spends one retry, keeps every byte received and sends nothing; a completed keep-alive request resets every per-request field and re-arms the timer; at most one response per pass |
| `Handler.HttpHandler.constructor` | HttpHandler.cpp:40-48 | a new connection has keep-alive on, is reset and has its timer armed |
| `Handler.HttpHandler.Reset` | HttpHandler.cpp:71-82 | the new fields are `ResetConn` of the old ones: the buffer is empty, the cursor is 0, the state is PARSE_URI, the budget is maxAgainTimes = 10, headers and body are cleared, and the timer is re-armed |
| `Handler.HttpHandler.ReadRequest` | HttpHandler.cpp:84-114 | the buffer gains exactly the bytes received before recv would block, and the result is the receive loop's outcome |
| `Handler.HttpHandler.ParseUri` | HttpHandler.cpp:120-169 | the fields and cursor are exactly what the request-line specification assigns, including the method and path stored before a later check fails |
| `Handler.HttpHandler.ParseHttpHeader` | HttpHandler.cpp:171-208 | the header map is the scan's map; the cursor moves past the blank line only on success and stays put on AGAIN or 400 |
| `Handler.HttpHandler.ScanLines` | HttpHandler.cpp:178-207 | the line loop's result is the header scan from the cursor |
| `Handler.HttpHandler.ParseBody` | HttpHandler.cpp:210-232 | the result is the framing's error kind; the body is set only when framed |
| `Handler.HttpHandler.SuffixOf` | HttpHandler.cpp:304-308 | the loop leaves what follows the last '.' of the path, or the whole path |
| `Handler.HttpHandler.SendResponse` | HttpHandler.cpp:507-535 | exactly the specified response is handed to writen; a short or failed write is SEND_RESPONSE_FAIL |
| `Handler.HttpHandler.SendErrorResponse` | HttpHandler.cpp:537-548 | the HTML error page is sent as text/html |
| `Handler.HttpHandler.DecideKeepAlive` | HttpHandler.cpp:236-247 | the flag becomes the keep-alive decision |
| `Handler.HttpHandler.ResolvePath` | HttpHandler.cpp:249-270 | the result and the new path are the specified resolution, with "/index.html" appended for a directory |
| `Handler.HttpHandler.Respond` | HttpHandler.cpp:272-434 | the 200 response with the file or CGI output is sent and its write outcome returned, or 500 without sending |
| `Handler.HttpHandler.HandleRequest` | HttpHandler.cpp:234-440 | the new fields are `Answer` of the old ones and the result is `AnswerOutcome` |
| `Handler.HttpHandler.HandleErrorType` | HttpHandler.cpp:442-505 | returns true exactly on SUCCESS; the new fields are `Handle` of the old ones: state and budget follow `AfterError`, and an error page is sent exactly for an HTTP error |
| `Handler.HttpHandler.SendErrorPage` | HttpHandler.cpp:471-500 | the error page of the error kind's status is sent |
| `Handler.HttpHandler.AdvanceUri` | HttpHandler.cpp:557-558 | the new fields are `UriIf` of the old ones |
| `Handler.HttpHandler.AdvanceHeader` | HttpHandler.cpp:560-561 | the new fields are `HeaderIf` of the old ones |
| `Handler.HttpHandler.AdvanceBody` | HttpHandler.cpp:563-567 | the new fields are `BodyIf` of the old ones |
| `Handler.HttpHandler.AdvanceRequest` | HttpHandler.cpp:569-570 | the new fields are `RequestIf` of the old ones |
| `Handler.HttpHandler.Advance` | HttpHandler.cpp:555-570 | the new fields are `AdvanceAll` of the old ones, whose progress `AdvanceProgress` states |
| `Handler.HttpHandler.RunEventLoop` | HttpHandler.cpp:550-590 | the result and the new fields are `Pass` of the old fields, so everything `Pass` states holds of the handler; a kept handler is valid again |
| `Pool.Exits` | ThreadPool.cpp:46-51 | the n exit tasks queued at shutdown |
| `Pool.Admit` | ThreadPool.cpp:62-76 | refused exactly when the size exceeds the bound, leaving the queue unchanged; otherwise the task goes at the back behind the earlier tasks, in order; a queue never grows past maxQueueSize + 1 tasks |
| `Pool.AdmitAll` | ThreadPool.cpp:62-76 | one answer per call; the queue only grows at the back, by at most one task per call |
| `Pool.AdmitAllRefused` | ThreadPool.cpp:67-68 | once over the bound, every further append is refused and the queue is unchanged |
| `Pool.AdmitAllFills` | ThreadPool.cpp:62-76 | appends succeed until the queue holds maxQueueSize + 1 tasks, then all fail |
| `Pool.RunUntilExit` | ThreadPool.cpp:78-107 | a worker consumes the queue from the front: it leaves a suffix, and runs no more jobs than it removed |
| `Pool.ShutdownQueue` | ThreadPool.cpp:36-54 | IMMEDIATE_SHUTDOWN leaves only threadNum exit tasks; GRACEFUL_QUIT keeps every pending task, in order, ahead of them |
| `Pool.DrainThenExit` | ThreadPool.cpp:78-107 | a worker runs the queued jobs front first and stops at the first exit task |
| `Pool.ShutdownDrain` | ThreadPool.cpp:36-54 | after a graceful shutdown the first worker runs every pending job in order; after an immediate one it runs none |
| `Pool.ThreadPool.constructor` | ThreadPool.cpp:12-27 | the loop ends with exactly threadNum threads and an empty queue |
| `Pool.ThreadPool.AppendTask` | ThreadPool.cpp:62-76 | the answer and the new queue are those of the bounded push |
| `Pool.ThreadPool.Take` | ThreadPool.cpp:98-103 | a non-empty queue loses its front task, which is returned; an empty one is left alone |
| `Pool.ThreadPool.Work` | ThreadPool.cpp:78-107 | the worker loop runs the jobs and leaves the queue as specified |
| `Pool.ThreadPool.Shutdown` | ThreadPool.cpp:36-54 | the queue becomes the shutdown queue |
| `Server.ParseArgs` | main.cpp:103-110 | accepted exactly when a port argument is present and all digits; the bound port is below 65536 |
| `Server.ParseArgsOutcome` | main.cpp:103-110 | accepted exactly when a port argument is present and all digits; the root is the second argument when one is given, otherwise "." |
| `Server.PortRoundTrip` | main.cpp:103-108 | a port written in decimal binds that port modulo 65536, so a port below 65536 is read back as itself |
| `Server.PortWrapsAround` | Utils.cpp:36 | "65536" passes the check and binds port 0, because the port is cast to `unsigned short` |
| `Server.EmptyPortIsZero` | main.cpp:103-108 | an empty port argument passes the check and is port 0 |
| `Server.Classify` | main.cpp:59-99 | a hang-up bit always closes; only a readable event without EPOLLERR is a timeout or a submission; a timeout is on the timer fd and a submission on any other fd |
| `Server.HangupFirst` | main.cpp:64-68 | EPOLLHUP or EPOLLRDHUP deletes the handler before any other test |
| `Server.SubmittedExactly` | main.cpp:64-98 | a task is submitted exactly for a readable event without error or hang-up on the client socket |
| `Server.TimeoutExactly` | main.cpp:70-83 | a clean readable event on the timer fd is a timeout |
| `Server.HandleOldConnection` | main.cpp:59-99 | the event is classified, and only a submitted event makes the bounded append of the connection's task |
| `Server.ConnectionTask` | main.cpp:88-97 | the handler is deleted exactly when RunEventLoop returns false, that is, when no request is pending |
| `Server.DrainCount` | Utils.cpp:210-224 | every closed connection took one accept call, and the count stops at the first EAGAIN |
| `Server.AcceptRun` | main.cpp:15-56 | every registered connection, every drained one and the call that ran out of descriptors took its own accept4 call |
| `Server.AcceptPrefix` | main.cpp:20-35 | EINTR, ECONNABORTED, other errnos and successful accepts let the loop go on |
| `Server.AcceptStopsAtEagain` | main.cpp:26-27 | EAGAIN ends the loop |
| `Server.AcceptDrainsOnExhaustion` | main.cpp:28-46 | EMFILE, or a timerfd that cannot be created, drains the pending connections up to EAGAIN and ends the loop |
| `Server.DrainUpToEagain` | Utils.cpp:210-224 | closeRemainingConnect counts every accept before the first EAGAIN |
| `Server.CloseRemainingConnect` | Utils.cpp:210-224 | the drain loop's count is the specified count |
| `Server.HandleNewConnections` | main.cpp:15-56 | the loop registers and stops as the accept specification says |
| `Server.Route` | main.cpp:145-154 | one dispatch per event; the accept loop runs exactly when the listening fd is among the events |
| `Server.RouteEach` | main.cpp:145-154 | every event is dispatched once, in order; the listening fd goes to accept and every other fd to handleOldConnection |
| `Server.ReactorRun` | main.cpp:129-155 | the process aborts exactly when some epoll_wait fails with an errno other than EINTR |
| `Server.ReactorPrefix` | main.cpp:129-155 | waits without a fatal failure dispatch their events and hand over to the waits that follow |
| `Server.FatalWaitAborts` | main.cpp:133-141 | a wait failure other than EINTR aborts, and nothing after it is dispatched |
| `Server.Reactor` | main.cpp:129-155 | the loop's dispatches and abort are those of the reactor specification |

## Left out

- The CGI executor of `handleRequest` (`pipe2`, `fork`, `execve`, the `waitpid` polling and the kill on timeout) is process control. It is the parameter `cgi`, from target and body to captured output. An empty output is 500. Pipe, fork and wait failures are not modelled separately; they also end in 500.
- File serving (`stat`, `open`, `mmap`) is a map from path to entry. A path whose `stat` fails with ENOENT is missing (404); any other `stat` failure is its own entry and gives 500. A file that `stat` accepts and `open` refuses is a separate entry: GET and HEAD give 500, and POST, which never opens the target, runs it. A file removed between `stat` and `open` is not modelled. Mapping a directory or an empty file fails and gives 500.
- Socket I/O is replaced by scripts. `recv` is a sequence of outcomes; a script that runs out reads as EAGAIN. `writen` is the count it returns. `socket_bind_and_listen` and its exit on failure, `setFdNoBlock`, `setSocketNoDelay`, `handleSigpipe` and `printConnectionStatus` are not modelled.
- The epoll re-arming at the end of `RunEventLoop`, and the timer interest cleared in `handleOldConnection`, are registrations with the kernel and are not modelled. Arming the per-request timer is counted in `timerArms`.
- `canonicalize_file_name` (symlinks and `..`) is an uninterpreted partial function.
- Threads, the mutex, the condition variable, `pthread_create`, `pthread_exit` and `pthread_join` are not modelled. Each queue operation is one critical section. A worker facing an empty queue stops where it would wait.
- A task that `appendTask` refuses is dropped by `handleOldConnection` without deleting its handler; the handler and its socket are not modelled as resources, so this leak is not stated.
- An accept error such as ENFILE that recurs on every call keeps the accept loop retrying; the loop runs over a finite script of outcomes, so this spinning is not modelled.
- `epoll.cpp`, `Timer.cpp` and `Log.h` are thin system wrappers and side effects; they are not part of this model.
- Handler.HttpHandler.ParseBody: the content length is an unbounded natural number; `atoi` overflow for digit strings above INT_MAX is not modelled.
- Server.ParseArgs: the port is the digit string's unbounded value taken modulo 65536; `atoi` overflow for digit strings above INT_MAX is not modelled.
- Handler.HttpHandler.constructor: `method_` and `http_version_` are left uninitialised by the C++ constructor; here they start as GET and HTTP/1.1. `path_` is a `std::string` and starts empty, as here.
- Pool.ThreadPool.constructor: `pthread_create` is taken to succeed. The source retries until it does, so the final thread count is the same.
- Utils.EscapeStr: characters are Dafny characters, and the hex escape uses the value modulo 256, as the cast to `unsigned char` does for bytes.
