/**
 * The per-connection state of HttpHandler.cpp as a value, and each stage of
 * RunEventLoop as a function on it. The handler class is proved against these
 * functions: each of its step methods leaves exactly the state the matching
 * function computes from the state before.
 */
module Connection {
  import opened Text
  import opened HttpSpec
  import Utils

  /** What a handler is given once and never changes: document root, path check, filesystem, CGI, timer. */
  datatype Env = Env(www: string, canon: Utils.Canonicalizer, fs: FileSystem, cgi: CgiRunner, hasTimer: bool)

  /** The handler's mutable fields, and the responses written so far. */
  datatype Conn = Conn(
    state: State,
    request: string,
    cursor: nat,
    headers: map<string, string>,
    againTimes: int,
    isKeepAlive: bool,
    body: string,
    httpMethod: Method,
    path: string,
    version: Version,
    sent: seq<string>,
    timerArms: nat)

  /** The cursor lies inside the buffer, and is at its start while the request line is awaited. */
  predicate Wf(c: Conn) {
    c.cursor <= |c.request| && (c.state == ParsingUri ==> c.cursor == 0)
  }

  /** Between two passes: well formed, a request in progress, and some retries left. */
  predicate ValidConn(c: Conn) {
    Wf(c) && Pending(c.state) && 0 < c.againTimes <= MaxAgainTimes
  }

  /** `sent` is `sent0` with at most one response appended. */
  predicate SentAtMostOne(sent0: seq<string>, sent: seq<string>) {
    |sent0| <= |sent| <= |sent0| + 1 && sent[..|sent0|] == sent0
  }

  /**
   * What one stage leaves, started in `s0` and aimed at `next`: it moved on
   * without a retry (only the final stage may send a response on the way), or
   * it waits in `s0` with one retry spent and some left, or it ended the
   * request in ERROR or FATAL_ERROR having sent at most one response.
   */
  predicate Stepped(c: Conn, r: Conn, s0: State, next: State) {
    (r.state == next && r.againTimes == c.againTimes && (r.sent == c.sent || next == Finished) &&
     SentAtMostOne(c.sent, r.sent)) ||
    (r.state == s0 && r.againTimes == c.againTimes - 1 && 0 < r.againTimes && r.sent == c.sent) ||
    ((r.state == Error || r.state == FatalError) && r.againTimes <= c.againTimes && SentAtMostOne(c.sent, r.sent))
  }

  /** handleErrorType: the retry budget, the error state and the error page. */
  function Handle(c: Conn, err: ErrorType): (r: Conn)
    // only the state, the retry budget and the responses change
    ensures r == c.(state := r.state, againTimes := r.againTimes, sent := r.sent)
    ensures err == Success ==> r == c
  {
    var (s, a) := AfterError(err, c.state, c.againTimes);
    c.(state := s, againTimes := a, sent := c.sent + ErrorPages(err, c.isKeepAlive, a, c.httpMethod == Head))
  }

  /** Handle, read off the three fields it sets. */
  lemma HandleFields(c: Conn, err: ErrorType, s: State, a: int, sent: seq<string>)
    requires (s, a) == AfterError(err, c.state, c.againTimes)
    requires sent == c.sent + ErrorPages(err, c.isKeepAlive, a, c.httpMethod == Head)
    ensures Handle(c, err) == c.(state := s, againTimes := a, sent := sent)
  {
  }

  /** `if (handleErrorType(err)) state_ = next;`: handleErrorType, then the move to `next` when it returned true. */
  function Stage(c: Conn, err: ErrorType, next: State): (r: Conn)
    ensures err == Success ==> r == c.(state := next)
    ensures r.againTimes == (if err == Again then c.againTimes - 1 else c.againTimes)
    ensures StatusOf(err).Some? ==> r.state == Error
    ensures |r.sent| == |c.sent| + (if StatusOf(err).Some? then 1 else 0) && r.sent[..|c.sent|] == c.sent
    ensures r.request == c.request && r.cursor == c.cursor && r.isKeepAlive == c.isKeepAlive
    ensures r.timerArms == c.timerArms
  {
    var handled := Handle(c, err);
    if err == Success then handled.(state := next) else handled
  }

  /** Stage keeps the shape of Stepped whatever the error. */
  lemma StageStepped(c: Conn, err: ErrorType, next: State)
    requires next != Error && next != FatalError
    requires c.state != Error && c.state != FatalError
    ensures Stepped(c, Stage(c, err, next), c.state, next)
  {
  }

  /** The first `if` of RunEventLoop: parseURI, then handleErrorType, then PARSE_HEADER on success. */
  function UriStep(c: Conn, env: Env): (r: Conn)
    requires c.state == ParsingUri && Wf(c)
    ensures Wf(r)
  {
    var line := ParseRequestLine(c.request, env.www, env.canon);
    Stage(c.(httpMethod := line.httpMethod.GetOr(c.httpMethod), path := line.path.GetOr(c.path),
             version := line.version.GetOr(c.version), cursor := c.cursor + line.consumed),
          line.err, ParsingHeader)
  }

  /**
   * parseURI moves on exactly when the request line passes every check; it
   * touches neither the headers, the body nor keep-alive.
   */
  lemma UriStepSpec(c: Conn, env: Env)
    requires c.state == ParsingUri && Wf(c)
    ensures var r := UriStep(c, env);
            Stepped(c, r, ParsingUri, ParsingHeader) &&
            (r.state == ParsingHeader <==> ParseRequestLine(c.request, env.www, env.canon).err == Success) &&
            r.headers == c.headers && r.body == c.body && r.isKeepAlive == c.isKeepAlive
  {
    var line := ParseRequestLine(c.request, env.www, env.canon);
    StageStepped(c.(httpMethod := line.httpMethod.GetOr(c.httpMethod), path := line.path.GetOr(c.path),
                    version := line.version.GetOr(c.version), cursor := c.cursor + line.consumed),
                 line.err, ParsingHeader);
  }

  /** The second `if`: parseHttpHeader from the cursor, then PARSE_BODY once the blank line is read. */
  function HeaderStep(c: Conn): (r: Conn)
    requires c.state == ParsingHeader && Wf(c)
    ensures Wf(r)
  {
    var scan := ScanHeaders(c.request, c.cursor, c.headers);
    if scan.Done? then
      ScanHeadersDone(c.request, c.cursor, c.headers);
      Stage(c.(headers := scan.headers, cursor := scan.end), Success, ParsingBody)
    else
      Stage(c.(headers := scan.headers), ScanError(scan), ParsingBody)
  }

  /**
   * parseHttpHeader moves on exactly when the blank line has arrived; it
   * touches neither the request line's fields nor the body.
   */
  lemma HeaderStepSpec(c: Conn)
    requires c.state == ParsingHeader && Wf(c)
    ensures var r := HeaderStep(c);
            Stepped(c, r, ParsingHeader, ParsingBody) &&
            (r.state == ParsingBody <==> ScanHeaders(c.request, c.cursor, c.headers).Done?) &&
            r.httpMethod == c.httpMethod && r.path == c.path && r.version == c.version && r.body == c.body
  {
    var scan := ScanHeaders(c.request, c.cursor, c.headers);
    if !scan.Done? {
      StageStepped(c.(headers := scan.headers), ScanError(scan), ParsingBody);
    }
  }

  /** The third `if`: anything but POST goes straight to ANALYSI_REQUEST, a POST once its body is framed. */
  function BodyStep(c: Conn): (r: Conn)
    requires c.state == ParsingBody && Wf(c)
    ensures Wf(r)
  {
    if c.httpMethod != Post then c.(state := Analyzing)
    else
      var f := FrameBody(c.request, c.cursor, c.headers);
      Stage(c.(body := if f.Framed? then f.body else c.body), FramingError(f), Analyzing)
  }

  /**
   * The body stage moves on for anything but POST, and for POST exactly when
   * the declared length has arrived, storing those bytes as the body.
   */
  lemma BodyStepSpec(c: Conn)
    requires c.state == ParsingBody && Wf(c)
    ensures var r := BodyStep(c);
            var f := FrameBody(c.request, c.cursor, c.headers);
            Stepped(c, r, ParsingBody, Analyzing) &&
            (r.state == Analyzing <==> c.httpMethod != Post || f.Framed?) &&
            r.body == (if c.httpMethod == Post && f.Framed? then f.body else c.body) &&
            r.path == c.path && r.headers == c.headers && r.httpMethod == c.httpMethod
  {
    if c.httpMethod == Post {
      var f := FrameBody(c.request, c.cursor, c.headers);
      StageStepped(c.(body := if f.Framed? then f.body else c.body), FramingError(f), Analyzing);
    }
  }

  /**
   * handleRequest's effect on the connection: keep-alive decided, the path
   * resolved to its index page for a directory, and the 200 response written
   * when there is content.
   */
  function Answer(c: Conn, env: Env): (r: Conn)
    ensures r.isKeepAlive == KeepAliveDecision(c.isKeepAlive, c.version, c.headers)
    ensures r.path == IndexPath(env.fs, c.path)
    ensures r == c.(isKeepAlive := r.isKeepAlive, path := r.path, sent := r.sent)
  {
    var keep := KeepAliveDecision(c.isKeepAlive, c.version, c.headers);
    var reply := Serve(env.fs, env.cgi, c.httpMethod, c.path, c.body);
    c.(isKeepAlive := keep, path := IndexPath(env.fs, c.path),
       sent := c.sent + OkPages(reply, keep, c.againTimes, c.httpMethod == Head))
  }

  /** handleRequest's result: the refusal, or how the write of the 200 response went. */
  function AnswerOutcome(c: Conn, env: Env, written: int): (e: ErrorType)
    ensures e == Success ==> Serve(env.fs, env.cgi, c.httpMethod, c.path, c.body).Content?
  {
    var keep := KeepAliveDecision(c.isKeepAlive, c.version, c.headers);
    var reply := Serve(env.fs, env.cgi, c.httpMethod, c.path, c.body);
    ServeOutcome(reply, written, keep, c.againTimes, c.httpMethod == Head)
  }

  /**
   * The fourth `if`: handleRequest, then handleErrorType sends the error
   * page, and FINISHED follows a written response.
   */
  function RequestStep(c: Conn, env: Env, written: int): (r: Conn)
    requires c.state == Analyzing && Wf(c)
    ensures Wf(r)
  {
    Stage(Answer(c, env), AnswerOutcome(c, env, written), Finished)
  }

  /**
   * Analysing a request always ends it: FINISHED, ERROR or FATAL_ERROR, with
   * keep-alive decided and exactly one response handed to writen (the 200
   * response or the error page).
   */
  lemma RequestStepSpec(c: Conn, env: Env, written: int)
    requires c.state == Analyzing && Wf(c)
    ensures var r := RequestStep(c, env, written);
            Stepped(c, r, Analyzing, Finished) &&
            (r.state == Finished || r.state == Error || r.state == FatalError) &&
            r.isKeepAlive == KeepAliveDecision(c.isKeepAlive, c.version, c.headers) &&
            |r.sent| == |c.sent| + 1 && r.sent[..|c.sent|] == c.sent
  {
    StageStepped(Answer(c, env), AnswerOutcome(c, env, written), Finished);
  }

  /** Where the four stages of one pass leave a request. */
  predicate Progressed(c: Conn, r: Conn) {
    (Pending(r.state) && Rank(r.state) >= Rank(c.state) && r.againTimes == c.againTimes - 1 &&
     0 < r.againTimes && r.sent == c.sent) ||
    ((r.state == Finished || r.state == Error || r.state == FatalError) && r.againTimes <= c.againTimes &&
     SentAtMostOne(c.sent, r.sent))
  }

  /** `if (state_ == STATE_PARSE_URI && …)`: the first stage, when the state waits at it. */
  function UriIf(c: Conn, env: Env): (r: Conn)
    requires Wf(c)
    ensures Wf(r)
  {
    if c.state == ParsingUri then UriStep(c, env) else c
  }

  /** `if (state_ == STATE_PARSE_HEADER && …)`: the second stage, when the state waits at it. */
  function HeaderIf(c: Conn): (r: Conn)
    requires Wf(c)
    ensures Wf(r)
  {
    if c.state == ParsingHeader then HeaderStep(c) else c
  }

  /** `if (state_ == STATE_PARSE_BODY)`: the third stage, when the state waits at it. */
  function BodyIf(c: Conn): (r: Conn)
    requires Wf(c)
    ensures Wf(r)
  {
    if c.state == ParsingBody then BodyStep(c) else c
  }

  /** `if (state_ == STATE_ANALYSI_REQUEST && …)`: the fourth stage, when the request is complete. */
  function RequestIf(c: Conn, env: Env, written: int): (r: Conn)
    requires Wf(c)
    ensures Wf(r)
  {
    if c.state == Analyzing then RequestStep(c, env, written) else c
  }

  /** The four `if`s of RunEventLoop after a successful read, in order, each guarded by the state the last one left. */
  function AdvanceAll(c: Conn, env: Env, written: int): (r: Conn)
    requires Wf(c)
    ensures Wf(r)
  {
    RequestIf(BodyIf(HeaderIf(UriIf(c, env))), env, written)
  }

  /** What the rest of a pass keeps, from `c` to `r`: progress, the buffer, the timer, and keep-alive while pending. */
  predicate Continued(c: Conn, r: Conn) {
    Progressed(c, r) && r.request == c.request && r.timerArms == c.timerArms &&
    (Pending(r.state) ==> r.isKeepAlive == c.isKeepAlive)
  }

  /** The pass from a complete request: it is analysed and ended. */
  lemma ContinuedFromRequest(c: Conn, env: Env, written: int)
    requires c.state == Analyzing && Wf(c)
    ensures Continued(c, RequestIf(c, env, written))
  {
    RequestStepSpec(c, env, written);
  }

  /** The pass from the body stage on. */
  lemma {:induction false} ContinuedFromBody(c: Conn, env: Env, written: int)
    requires c.state == ParsingBody && Wf(c)
    ensures Continued(c, RequestIf(BodyIf(c), env, written))
  {
    BodyStepSpec(c);
    var n := BodyStep(c);
    if n.state == Analyzing {
      ContinuedFromRequest(n, env, written);
    }
  }

  /** The pass from the header stage on. */
  lemma {:induction false} ContinuedFromHeader(c: Conn, env: Env, written: int)
    requires c.state == ParsingHeader && Wf(c)
    ensures Continued(c, RequestIf(BodyIf(HeaderIf(c)), env, written))
  {
    HeaderStepSpec(c);
    var n := HeaderStep(c);
    if n.state == ParsingBody {
      ContinuedFromBody(n, env, written);
    }
  }

  /**
   * A pass that starts with a request pending either still waits, no earlier
   * than before, with one retry spent and nothing sent, or ends the request
   * with at most one response; the buffer and the timer are untouched, and
   * keep-alive changes only when the request reaches analysis.
   */
  lemma AdvanceProgress(c: Conn, env: Env, written: int)
    requires Pending(c.state) && Wf(c)
    ensures var r := AdvanceAll(c, env, written);
            Progressed(c, r) && r.request == c.request && r.timerArms == c.timerArms &&
            (Pending(r.state) ==> r.isKeepAlive == c.isKeepAlive)
  {
    if c.state == ParsingUri {
      UriStepSpec(c, env);
      var n := UriStep(c, env);
      if n.state == ParsingHeader {
        ContinuedFromHeader(n, env, written);
      }
    } else if c.state == ParsingHeader {
      ContinuedFromHeader(c, env, written);
    } else {
      ContinuedFromBody(c, env, written);
    }
  }

  /** reset: an empty buffer, the state machine restarted, a full retry budget, the timer re-armed. */
  function ResetConn(c: Conn, env: Env): (r: Conn)
    ensures ValidConn(r) && r.state == ParsingUri && r.request == [] && r.againTimes == MaxAgainTimes
    ensures r.isKeepAlive == c.isKeepAlive && r.sent == c.sent
  {
    c.(request := [], cursor := 0, state := ParsingUri, againTimes := MaxAgainTimes, headers := map[], body := [],
       timerArms := c.timerArms + if env.hasTimer then 1 else 0)
  }

  /**
   * RunEventLoop: read, run the four stages, then reset on a finished or
   * failed request with keep-alive; the flag says whether the connection
   * stays open.
   */
  function Pass(c: Conn, env: Env, incoming: seq<Recv>, written: int): (r: (bool, Conn))
    requires ValidConn(c)
    // the connection stays open exactly while a request is pending, and then the handler is valid again
    ensures r.0 <==> Pending(r.1.state)
    ensures r.0 ==> ValidConn(r.1)
    // it is closed on a fatal error, or on a completed request without keep-alive
    ensures !r.0 ==> r.1.state == FatalError || ((r.1.state == Finished || r.1.state == Error) && !r.1.isKeepAlive)
    // a pass that keeps waiting for bytes spends one retry, never moves back, keeps every byte and sends nothing
    ensures r.0 && r.1.againTimes < c.againTimes ==>
              r.1.againTimes == c.againTimes - 1 && Rank(r.1.state) >= Rank(c.state) &&
              r.1.request == c.request + ReceiveAll(incoming).1 && r.1.sent == c.sent &&
              r.1.isKeepAlive == c.isKeepAlive
    // otherwise a kept connection starts the next request afresh, with the timer re-armed
    ensures r.0 && r.1.againTimes >= c.againTimes ==>
              r.1.state == ParsingUri && r.1.request == [] && r.1.cursor == 0 && r.1.headers == map[] &&
              r.1.body == [] && r.1.againTimes == MaxAgainTimes && r.1.isKeepAlive &&
              r.1.timerArms == c.timerArms + (if env.hasTimer then 1 else 0)
    // at most one response per pass, appended to what was sent before
    ensures SentAtMostOne(c.sent, r.1.sent)
  {
    var (e, bytes) := ReceiveAll(incoming);
    var read := Stage(c.(request := c.request + bytes), e, c.state);
    if e != Success then (false, read)
    else
      var done := AdvanceAll(read, env, written);
      AdvanceProgress(read, env, written);
      if done.state == Error || done.state == Finished then
        if done.isKeepAlive then (true, ResetConn(done, env)) else (false, done)
      else (done.state != FatalError, done)
  }
}
