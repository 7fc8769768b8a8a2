/**
 * The per-connection object of HttpHandler.cpp: the request buffer, the parse
 * cursor, the state of the request state machine, the retry budget and the
 * keep-alive flag, updated in place by each step of RunEventLoop. The socket
 * is replaced by the outcomes of its recv calls (`incoming`) and the count
 * writen returns (`written`); the responses handed to writen are recorded in
 * `sent`. The filesystem and the CGI executor are fixed inputs of the handler.
 */
module Handler {
  import opened Text
  import opened HttpSpec
  import opened Connection
  import Utils
  import Mime

  class HttpHandler {
    /** The document root (the static www_path). */
    const www: string
    const canon: Utils.Canonicalizer
    const fs: FileSystem
    const cgi: CgiRunner
    /** Whether the connection owns a timer (timer_ may be null). */
    const hasTimer: bool

    var state: State
    var request: string
    var cursor: nat
    var headers: map<string, string>
    var againTimes: int
    var isKeepAlive: bool
    var body: string
    var httpMethod: Method
    var path: string
    var version: Version
    /** Every response handed to writen on this connection, in order. */
    var sent: seq<string>
    /** How many times the per-request timeout has been armed. */
    var timerArms: nat

    /** The handler's fields as a value. */
    ghost function Snapshot(): Conn
      reads this
    {
      Conn(state, request, cursor, headers, againTimes, isKeepAlive, body, httpMethod, path, version, sent, timerArms)
    }

    /** What the handler was created with. */
    function Environment(): Env {
      Env(www, canon, fs, cgi, hasTimer)
    }

    /** Between two passes: a request in progress, a cursor inside the buffer, retries left. */
    ghost predicate Valid()
      reads this
    {
      ValidConn(Snapshot())
    }

    /**
     * A new connection: keep-alive on (the HTTP/1.1 default), then a reset.
     * The method and version are not set by the source's constructor; here
     * they start as GET and HTTP/1.1.
     */
    constructor(www: string, canon: Utils.Canonicalizer, fs: FileSystem, cgi: CgiRunner, hasTimer: bool)
      ensures Valid()
      ensures this.www == www && this.canon == canon && this.fs == fs && this.cgi == cgi && this.hasTimer == hasTimer
      ensures state == ParsingUri && request == [] && cursor == 0 && headers == map[] && body == []
      ensures againTimes == MaxAgainTimes && isKeepAlive && sent == []
      ensures timerArms == (if hasTimer then 1 else 0)
    {
      this.www := www;
      this.canon := canon;
      this.fs := fs;
      this.cgi := cgi;
      this.hasTimer := hasTimer;
      state := ParsingUri;
      request := [];
      cursor := 0;
      headers := map[];
      againTimes := MaxAgainTimes;
      isKeepAlive := true;
      body := [];
      httpMethod := Get;
      path := [];
      version := Http11;
      sent := [];
      timerArms := 0;
      new;
      Reset();
    }

    /**
     * reset: drops the whole buffer (bytes of a pipelined next request too),
     * restarts the state machine with a full retry budget and re-arms the
     * timer. Keep-alive, method, path and version are kept.
     */
    method Reset()
      requires cursor <= |request|
      modifies this`request, this`cursor, this`state, this`againTimes, this`headers, this`body, this`timerArms
      ensures Snapshot() == ResetConn(old(Snapshot()), Environment())
    {
      request := [];
      cursor := 0;
      state := ParsingUri;
      againTimes := MaxAgainTimes;
      headers := map[];
      body := [];
      if hasTimer {
        timerArms := timerArms + 1;
      }
    }

    /** readRequest: receives until recv would block, appending every chunk to the buffer. */
    method ReadRequest(incoming: seq<Recv>) returns (e: ErrorType)
      modifies this`request
      ensures e == ReceiveAll(incoming).0
      ensures request == old(request) + ReceiveAll(incoming).1
    {
      var i := 0;
      while true
        invariant i <= |incoming|
        invariant ReceiveAll(incoming).0 == ReceiveAll(incoming[i..]).0
        invariant old(request) + ReceiveAll(incoming).1 == request + ReceiveAll(incoming[i..]).1
        decreases |incoming| - i
      {
        if i == |incoming| {
          return Success;
        }
        assert incoming[i..][1..] == incoming[i + 1..];
        var outcome := incoming[i];
        if outcome == Failed(WouldBlock) {
          return Success;
        } else if outcome == Failed(Interrupted) {
          i := i + 1;
        } else if outcome == Failed(OtherErrno) {
          return ReadRequestFail;
        } else if outcome.bytes == [] {
          return ConnectionClosed;
        } else {
          request := request + outcome.bytes;
          i := i + 1;
        }
      }
    }

    /**
     * parseURI: the first line of the buffer. The method, then the path, then
     * the version are stored as each check passes; the cursor moves past the
     * line only when all of them pass.
     */
    method ParseUri() returns (e: ErrorType)
      modifies this`cursor, this`httpMethod, this`path, this`version
      ensures var line := ParseRequestLine(request, www, canon);
              e == line.err &&
              httpMethod == line.httpMethod.GetOr(old(httpMethod)) &&
              path == line.path.GetOr(old(path)) &&
              version == line.version.GetOr(old(version)) &&
              cursor == old(cursor) + line.consumed
    {
      ghost var expected := ParseRequestLine(request, www, canon);
      var eol := FindCrlf(request, 0);
      if eol.None? {
        return Again;
      }
      var firstLine := request[..eol.value];
      var sp1 := FindChar(firstLine, ' ', 0);
      if sp1.None? {
        assert expected == RequestLine(BadRequest, None, None, None, 0);
        return BadRequest;
      }
      var m := MethodOf(firstLine[..sp1.value]);
      if m.None? {
        assert expected == RequestLine(NotImplemented, None, None, None, 0);
        return NotImplemented;
      }
      httpMethod := m.value;
      var sp2 := FindChar(firstLine, ' ', sp1.value + 1);
      if sp2.None? {
        assert expected == RequestLine(BadRequest, m, None, None, 0);
        return BadRequest;
      }
      path := www + "/" + firstLine[sp1.value + 1..sp2.value];
      if !Utils.IsPathParent(canon, www, path) {
        assert expected == RequestLine(NotFound, m, Some(path), None, 0);
        return NotFound;
      }
      var v := VersionOf(firstLine[sp2.value + 1..]);
      if v.None? {
        assert expected == RequestLine(VersionNotSupported, m, Some(path), None, 0);
        return VersionNotSupported;
      }
      version := v.value;
      assert expected == RequestLine(Success, m, Some(path), v, eol.value + 2);
      cursor := cursor + |firstLine| + 2;
      return Success;
    }

    /**
     * parseHttpHeader: stores each "key: value" line from the cursor on until
     * the blank line, which moves the cursor past it. On AGAIN and on a bad
     * line the cursor stays where it was, but the lines already read stay in
     * the map.
     */
    method ParseHttpHeader() returns (e: ErrorType)
      requires cursor <= |request|
      modifies this`cursor, this`headers
      ensures var scan := ScanHeaders(request, old(cursor), old(headers));
              e == ScanError(scan) && headers == scan.headers &&
              cursor == (if scan.Done? then scan.end else old(cursor))
      ensures cursor <= |request|
    {
      var scan := ScanLines(request, cursor, headers);
      headers := scan.headers;
      if scan.Done? {
        cursor := scan.end;
      }
      return ScanError(scan);
    }

    /**
     * The loop of parseHttpHeader, line by line from `pos`: each "key: value"
     * line is stored, the blank line ends the scan just past itself.
     */
    static method ScanLines(buf: string, pos: nat, h: map<string, string>) returns (scan: HeaderScan)
      requires pos <= |buf|
      ensures scan == ScanHeaders(buf, pos, h)
      ensures scan.Done? ==> scan.end <= |buf|
    {
      var at, stored := pos, h;
      while true
        invariant at <= |buf|
        invariant ScanHeaders(buf, at, stored) == ScanHeaders(buf, pos, h)
        decreases |buf| - at
      {
        var eol := FindCrlf(buf, at);
        if eol.None? {
          return Incomplete(stored);
        }
        var header := buf[at..eol.value];
        if |header| == 0 {
          assert CrlfAt(buf, at);
          return Done(at + 2, stored);
        }
        // split at the first space; the key must end in ':' and is lower-cased
        var line := HeaderLine(header);
        if line.None? {
          return Malformed(stored);
        }
        var (key, value) := line.value;
        ScanHeadersStep(buf, at, stored, eol.value, key, value);
        stored := stored[key := value];
        at := eol.value + 2;
      }
    }

    /**
     * parseBody (POST only): the body is the "content-length" bytes at the
     * cursor; a missing length is 411, a non-numeric one 400, too few bytes
     * AGAIN. The cursor does not move.
     */
    method ParseBody() returns (e: ErrorType)
      requires httpMethod == Post
      modifies this`body
      ensures var framing := FrameBody(request, cursor, headers);
              e == FramingError(framing) &&
              body == (if framing.Framed? then framing.body else old(body))
    {
      if "content-length" !in headers {
        return LengthRequired;
      }
      var lenStr := headers["content-length"];
      var numeric := Utils.IsNumericStr(lenStr);
      if !numeric {
        return BadRequest;
      }
      var len := DecimalValue(lenStr);
      if |request| < cursor + len {
        return Again;
      }
      body := request[cursor..cursor + len];
      return Success;
    }

    /**
     * The suffix loop of handleRequest: strips everything up to the first '.'
     * as long as one is left.
     */
    static method SuffixOf(p: string) returns (suffix: string)
      ensures suffix == DotSuffix(p)
    {
      suffix := p;
      var dot := FindChar(suffix, '.', 0);
      while dot.Some?
        invariant dot == FindChar(suffix, '.', 0)
        invariant DotSuffix(suffix) == DotSuffix(p)
        decreases |suffix|
      {
        assert suffix == suffix[..dot.value] + "." + suffix[dot.value + 1..];
        DotSuffixAfterDot(suffix[..dot.value], suffix[dot.value + 1..]);
        suffix := suffix[dot.value + 1..];
        dot := FindChar(suffix, '.', 0);
      }
      NoDotSuffix(suffix);
    }

    /**
     * sendResponse: the header block, then the body unless the request was
     * HEAD; anything but a complete write is SEND_RESPONSE_FAIL.
     */
    method SendResponse(code: string, msg: string, contentType: string, data: string, written: int)
      returns (e: ErrorType)
      modifies this`sent
      ensures sent == old(sent) + [Response(code, msg, isKeepAlive, againTimes, contentType, data, httpMethod == Head)]
      ensures e == WriteOutcome(written, |Response(code, msg, isKeepAlive, againTimes, contentType, data, httpMethod == Head)|)
    {
      var response := ResponseHead(code, msg, isKeepAlive, againTimes, contentType, |data|);
      if httpMethod != Head {
        response := response + data;
      } else {
        assert response == response + "";
      }
      sent := sent + [response];
      if written < 0 || written != |response| {
        return SendResponseFail;
      }
      return Success;
    }

    /** sendErrorResponse: an HTML page naming the status, sent as text/html. */
    method SendErrorResponse(code: string, msg: string, written: int) returns (e: ErrorType)
      modifies this`sent
      ensures sent == old(sent) + [Response(code, msg, isKeepAlive, againTimes, "text/html", ErrorBody(code, msg), httpMethod == Head)]
      ensures e == WriteOutcome(written, |Response(code, msg, isKeepAlive, againTimes, "text/html", ErrorBody(code, msg), httpMethod == Head)|)
    {
      e := SendResponse(code, msg, "text/html", ErrorBody(code, msg), written);
    }

    /**
     * The first step of handleRequest: HTTP/1.0 turns keep-alive off, a
     * "connection: keep-alive" header (any letter case) turns it on.
     */
    method DecideKeepAlive()
      modifies this`isKeepAlive
      ensures isKeepAlive == KeepAliveDecision(old(isKeepAlive), version, headers)
    {
      if version == Http10 {
        isKeepAlive := false;
      }
      if "connection" in headers {
        var value := ToLower(headers["connection"]);
        if value == "keep-alive" {
          isKeepAlive := true;
        }
      }
    }

    /**
     * The stat calls of handleRequest: a directory path gets "/index.html"
     * appended (even when that file then fails its own stat).
     */
    method ResolvePath() returns (res: Resolution)
      modifies this`path
      ensures res == Resolve(fs, old(path))
      ensures path == IndexPath(fs, old(path))
    {
      if path !in fs {
        return Unresolved(NotFound);
      }
      if fs[path].StatFails? {
        return Unresolved(InternalServerError);
      }
      if fs[path].Directory? {
        path := path + "/index.html";
        if path !in fs {
          return Unresolved(NotFound);
        }
        if fs[path].StatFails? {
          return Unresolved(InternalServerError);
        }
      }
      return Resolved(path);
    }

    /**
     * The GET/HEAD and POST branches of handleRequest for a target that
     * passed its stat: map the file, or run it as a CGI program with the
     * body on its input, and send the result as a 200 response.
     */
    method Respond(target: string, written: int) returns (e: ErrorType)
      requires target in fs && !fs[target].StatFails?
      modifies this`sent
      ensures var reply := Produce(fs, cgi, httpMethod, target, body);
              sent == old(sent) + OkPages(reply, isKeepAlive, againTimes, httpMethod == Head) &&
              e == ServeOutcome(reply, written, isKeepAlive, againTimes, httpMethod == Head)
    {
      if httpMethod == Get || httpMethod == Head {
        var node := fs[target];
        if node.OpenFails? {
          return InternalServerError;
        }
        if node.Directory? || node.data == [] {
          return InternalServerError;
        }
        var suffix := SuffixOf(target);
        e := SendResponse("200", "OK", Mime.GetMimeType(suffix), node.data, written);
      } else {
        var output := cgi(target, body);
        if output == [] {
          return InternalServerError;
        }
        e := SendResponse("200", "OK", Mime.GetMimeType("txt"), output, written);
      }
    }

    /**
     * handleRequest: decides keep-alive, then serves the file at the path (a
     * directory through its index.html) for GET and HEAD, or the CGI output
     * for POST, as a 200 response.
     */
    method HandleRequest(written: int) returns (e: ErrorType)
      modifies this`isKeepAlive, this`path, this`sent
      ensures isKeepAlive == KeepAliveDecision(old(isKeepAlive), version, headers)
      ensures path == IndexPath(fs, old(path))
      ensures var reply := Serve(fs, cgi, httpMethod, old(path), body);
              sent == old(sent) + OkPages(reply, isKeepAlive, againTimes, httpMethod == Head) &&
              e == ServeOutcome(reply, written, isKeepAlive, againTimes, httpMethod == Head)
      ensures Snapshot() == Answer(old(Snapshot()), Environment())
      ensures e == AnswerOutcome(old(Snapshot()), Environment(), written)
    {
      DecideKeepAlive();
      var res := ResolvePath();
      if res.Unresolved? {
        return res.err;
      }
      e := Respond(res.target, written);
    }

    /**
     * handleErrorType: SUCCESS goes on; a read, close or send failure is
     * fatal; AGAIN spends one retry and is fatal once none is left; an HTTP
     * error sends its error page (whether that write succeeds is not looked
     * at) and moves to ERROR.
     */
    method HandleErrorType(err: ErrorType, written: int) returns (ok: bool)
      modifies this`state, this`againTimes, this`sent
      ensures ok <==> err == Success
      ensures (state, againTimes) == AfterError(err, old(state), old(againTimes))
      ensures sent == old(sent) + ErrorPages(err, isKeepAlive, againTimes, httpMethod == Head)
      ensures Snapshot() == Handle(old(Snapshot()), err)
    {
      ghost var before := Snapshot();
      ok := false;
      var status := StatusOf(err);
      if err == Success {
        ok := true;
      } else if err == Again {
        againTimes := againTimes - 1;
        if againTimes <= 0 {
          state := FatalError;
        }
      } else if status.None? {
        // READ_REQUEST_FAIL, CONNECTION_CLOSED, SEND_RESPONSE_FAIL
        state := FatalError;
      } else {
        // BAD_REQUEST, NOT_FOUND, LENGTH_REQUIRED, NOT_IMPLEMENTED,
        // INTERNAL_SERVER_ERR, HTTP_VERSION_NOT_SUPPORTED
        SendErrorPage(err, written);
        state := Error;
      }
      HandleFields(before, err, state, againTimes, sent);
    }

    /** The sendErrorResponse call of handleErrorType, with the status of the error kind. */
    method SendErrorPage(err: ErrorType, written: int)
      requires StatusOf(err).Some?
      modifies this`sent
      ensures sent == old(sent) + ErrorPages(err, isKeepAlive, againTimes, httpMethod == Head)
    {
      var status := StatusOf(err);
      var _ := SendErrorResponse(status.value.0, status.value.1, written);
    }

    /** `if (state_ == STATE_PARSE_URI && handleErrorType(parseURI())) state_ = STATE_PARSE_HEADER;` */
    method AdvanceUri(written: int)
      requires Wf(Snapshot())
      modifies this`cursor, this`httpMethod, this`path, this`version, this`state, this`againTimes, this`sent
      ensures Snapshot() == UriIf(old(Snapshot()), Environment())
    {
      if state == ParsingUri {
        var e := ParseUri();
        var ok := HandleErrorType(e, written);
        if ok {
          state := ParsingHeader;
        }
      }
    }

    /** `if (state_ == STATE_PARSE_HEADER && handleErrorType(parseHttpHeader())) state_ = STATE_PARSE_BODY;` */
    method AdvanceHeader(written: int)
      requires Wf(Snapshot())
      modifies this`cursor, this`headers, this`state, this`againTimes, this`sent
      ensures Snapshot() == HeaderIf(old(Snapshot()))
    {
      if state == ParsingHeader {
        var e := ParseHttpHeader();
        var ok := HandleErrorType(e, written);
        if ok {
          state := ParsingBody;
        }
      }
    }

    /**
     * `if (state_ == STATE_PARSE_BODY)`: anything but POST goes straight to
     * ANALYSI_REQUEST, a POST once its body has arrived.
     */
    method AdvanceBody(written: int)
      requires Wf(Snapshot())
      modifies this`body, this`state, this`againTimes, this`sent
      ensures Snapshot() == BodyIf(old(Snapshot()))
    {
      if state == ParsingBody {
        if httpMethod != Post {
          state := Analyzing;
        } else {
          var e := ParseBody();
          var ok := HandleErrorType(e, written);
          if ok {
            state := Analyzing;
          }
        }
      }
    }

    /**
     * `if (state_ == STATE_ANALYSI_REQUEST && handleErrorType(handleRequest())) state_ = STATE_FINISHED;`
     * The request is answered: FINISHED after the 200 response, ERROR after
     * an error page, FATAL_ERROR when the 200 response could not be written.
     */
    method AdvanceRequest(written: int)
      requires Wf(Snapshot())
      modifies this`isKeepAlive, this`path, this`sent, this`state, this`againTimes
      ensures Snapshot() == RequestIf(old(Snapshot()), Environment(), written)
    {
      if state == Analyzing {
        var e := HandleRequest(written);
        var ok := HandleErrorType(e, written);
        if ok {
          state := Finished;
        }
      }
    }

    /** The four steps of RunEventLoop after a successful read: parse the line, the headers, the body, then answer. */
    method Advance(written: int)
      requires Wf(Snapshot())
      modifies this`cursor, this`headers, this`isKeepAlive, this`body, this`httpMethod, this`path, this`version
      modifies this`state, this`againTimes, this`sent
      ensures Snapshot() == AdvanceAll(old(Snapshot()), Environment(), written)
    {
      AdvanceUri(written);
      AdvanceHeader(written);
      AdvanceBody(written);
      AdvanceRequest(written);
    }

    /**
     * RunEventLoop: one pass on a readable connection. Reads what is there,
     * advances the state machine as far as the buffer allows, and returns
     * whether the connection stays open.
     */
    method RunEventLoop(incoming: seq<Recv>, written: int) returns (r: bool)
      requires Valid()
      modifies this`state, this`request, this`cursor, this`headers, this`againTimes, this`isKeepAlive
      modifies this`body, this`httpMethod, this`path, this`version, this`sent, this`timerArms
      ensures (r, Snapshot()) == Pass(old(Snapshot()), Environment(), incoming, written)
      ensures r ==> Valid()
    {
      var e := ReadRequest(incoming);
      var ok := HandleErrorType(e, written);
      if !ok {
        return false;
      }
      Advance(written);
      if state == Error || state == Finished {
        if isKeepAlive {
          Reset();
        } else {
          return false;
        }
      } else if state == FatalError {
        return false;
      }
      return true;
    }
  }
}
