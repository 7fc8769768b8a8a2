/**
 * Pure specification of the per-connection HTTP/1.x request handling of
 * HttpHandler.cpp and HttpHandler.h: the states, error kinds and constants,
 * and one function per step (receive loop, request line, header lines, body
 * framing, keep-alive decision, file or CGI reply, response bytes). The class
 * in http_handler.dfy is proved against these functions; the lemmas here state
 * what the functions promise.
 */
module HttpSpec {
  import opened Text
  import Utils
  import Mime

  datatype State =
    | ParsingUri | ParsingHeader | ParsingBody | Analyzing | Finished
    | Error       // recoverable: an error response was sent
    | FatalError  // unrecoverable: the connection is destroyed

  datatype ErrorType =
    | Success
    | ReadRequestFail | Again | ConnectionClosed
    | SendResponseFail
    | BadRequest          // 400
    | NotFound            // 404
    | LengthRequired      // 411
    | NotImplemented      // 501
    | InternalServerError // 500
    | VersionNotSupported // 505

  datatype Version = Http10 | Http11

  datatype Method = Get | Post | Head

  const MaxBuf: nat := 1024
  const MaxAgainTimes: int := 10
  const TimeoutPerRequest: nat := 10
  /** www_path before setWWWPath is called: the working directory. */
  const DefaultWwwPath: string := "."

  /** Position of a state in the forward order URI, HEADER, BODY, ANALYZE, FINISHED, then ERROR and FATAL_ERROR. */
  function Rank(s: State): nat {
    match s
    case ParsingUri => 0
    case ParsingHeader => 1
    case ParsingBody => 2
    case Analyzing => 3
    case Finished => 4
    case Error => 5
    case FatalError => 6
  }

  /** States in which a connection waits for more bytes of the current request. */
  predicate Pending(s: State) {
    s == ParsingUri || s == ParsingHeader || s == ParsingBody
  }

  // ---------------------------------------------------------------------------
  // Receiving: recv(MSG_DONTWAIT) until it would block

  datatype RecvErrno = WouldBlock | Interrupted | OtherErrno

  /** One recv call: the bytes it returned (none = the peer closed) or the errno it failed with. */
  datatype Recv = Data(bytes: string) | Failed(errno: RecvErrno)

  /**
   * readRequest: the error kind the receive loop returns and the bytes it
   * appended to the buffer. EAGAIN ends the loop successfully, EINTR retries,
   * a zero-byte read is "connection closed", any other errno a read failure.
   * A script that runs out is read as EAGAIN.
   */
  function ReceiveAll(incoming: seq<Recv>): (r: (ErrorType, string))
    ensures r.0 == Success || r.0 == ReadRequestFail || r.0 == ConnectionClosed
  {
    if incoming == [] then (Success, [])
    else match incoming[0]
      case Data(bytes) =>
        if bytes == [] then (ConnectionClosed, [])
        else var rest := ReceiveAll(incoming[1..]); (rest.0, bytes + rest.1)
      case Failed(WouldBlock) => (Success, [])
      case Failed(Interrupted) => ReceiveAll(incoming[1..])
      case Failed(OtherErrno) => (ReadRequestFail, [])
  }

  /** How the bytes are split among recv calls does not change what the loop appends. */
  lemma ReceiveSplitChunks(a: string, b: string, rest: seq<Recv>)
    requires a != [] && b != []
    ensures ReceiveAll([Data(a), Data(b)] + rest) == ReceiveAll([Data(a + b)] + rest)
  {
    assert ([Data(a), Data(b)] + rest)[1..] == [Data(b)] + rest;
    assert ([Data(b)] + rest)[1..] == rest;
    assert ([Data(a + b)] + rest)[1..] == rest;
    var tail := ReceiveAll(rest).1;
    assert a + (b + tail) == (a + b) + tail;
  }

  // ---------------------------------------------------------------------------
  // Request line (section 3.1.1 of RFC 7230): method SP request-target SP version CRLF

  function MethodName(m: Method): string {
    match m
    case Get => "GET"
    case Post => "POST"
    case Head => "HEAD"
  }

  /** The three recognised method tokens, compared exactly (case-sensitive). */
  function MethodOf(token: string): Option<Method> {
    if token == "GET" then Some(Get)
    else if token == "POST" then Some(Post)
    else if token == "HEAD" then Some(Head)
    else None
  }

  /** MethodOf recognises exactly the names of the three methods. */
  lemma MethodOfNames(token: string)
    ensures MethodOf(token).Some? ==> MethodName(MethodOf(token).value) == token
    ensures MethodOf(token).None? ==> forall m: Method :: MethodName(m) != token
  {
  }

  function VersionName(v: Version): string {
    match v
    case Http10 => "HTTP/1.0"
    case Http11 => "HTTP/1.1"
  }

  /** The version text must be exactly "HTTP/1.0" or "HTTP/1.1". */
  function VersionOf(text: string): Option<Version> {
    if text == "HTTP/1.0" then Some(Http10)
    else if text == "HTTP/1.1" then Some(Http11)
    else None
  }

  /** VersionOf recognises exactly the names of the two versions. */
  lemma VersionOfNames(text: string)
    ensures VersionOf(text).Some? ==> VersionName(VersionOf(text).value) == text
    ensures VersionOf(text).None? ==> forall v: Version :: VersionName(v) != text
  {
  }

  /**
   * What parseURI leaves behind: its error kind, the fields it assigned before
   * it stopped (method_ and path_ are assigned before later checks can still
   * fail) and how far the cursor advances.
   */
  datatype RequestLine = RequestLine(
    err: ErrorType,
    httpMethod: Option<Method>,
    path: Option<string>,
    version: Option<Version>,
    consumed: nat)

  /**
   * parseURI over the whole buffer, with document root `www`. It asks for
   * more bytes exactly when no line end has arrived, and otherwise fails only
   * with the kinds its checks name; a failed line moves the cursor nowhere
   * and sets no version. A successful line sets all three fields, with a path
   * inside the document root, and the cursor moves just past the first CRLF.
   */
  function ParseRequestLine(request: string, www: string, canon: Utils.Canonicalizer): (r: RequestLine)
    ensures r.err == Again <==> FindCrlf(request, 0).None?
    ensures r.err == Success || r.err == Again || r.err == BadRequest || r.err == NotImplemented ||
            r.err == NotFound || r.err == VersionNotSupported
    ensures r.err != Success ==> r.consumed == 0 && r.version.None?
    ensures r.err == Success ==>
              FindCrlf(request, 0).Some? && r.consumed == FindCrlf(request, 0).value + 2 && r.consumed <= |request| &&
              r.httpMethod.Some? && r.path.Some? && r.version.Some? && Utils.IsPathParent(canon, www, r.path.value)
  {
    match FindCrlf(request, 0)
    case None => RequestLine(Again, None, None, None, 0)
    case Some(eol) =>
      var r := ParseLine(request[..eol], www, canon);
      assert CrlfAt(request, eol);
      if r.err == Success then r.(consumed := eol + 2) else r
  }

  /**
   * The checks of parseURI on the line before the first CRLF; the cursor is
   * moved by the caller. The version is set exactly when every check passes,
   * and then the method and a path inside the document root are set too.
   */
  function ParseLine(line: string, www: string, canon: Utils.Canonicalizer): (r: RequestLine)
    ensures r.consumed == 0
    ensures r.version.Some? <==> r.err == Success
    ensures r.err == Success ==> r.httpMethod.Some? && r.path.Some? && Utils.IsPathParent(canon, www, r.path.value)
  {
    match FindChar(line, ' ', 0)
    case None => RequestLine(BadRequest, None, None, None, 0)
    case Some(sp1) =>
      match MethodOf(line[..sp1])
      case None => RequestLine(NotImplemented, None, None, None, 0)
      case Some(m) =>
        match FindChar(line, ' ', sp1 + 1)
        case None => RequestLine(BadRequest, Some(m), None, None, 0)
        case Some(sp2) =>
          var p := www + "/" + line[sp1 + 1..sp2];
          if !Utils.IsPathParent(canon, www, p) then RequestLine(NotFound, Some(m), Some(p), None, 0)
          else match VersionOf(line[sp2 + 1..])
            case None => RequestLine(VersionNotSupported, Some(m), Some(p), None, 0)
            case Some(v) => RequestLine(Success, Some(m), Some(p), Some(v), 0)
  }

  function FormatRequestLine(token: string, target: string, versionText: string): string {
    token + " " + target + " " + versionText + "\r\n"
  }

  /** The first CRLF of `line + "\r\n" + rest` ends `line` when `line` holds no '\r'. */
  lemma LineEnd(line: string, rest: string)
    requires '\r' !in line
    ensures FindCrlf(line + "\r\n" + rest, 0) == Some(|line|)
    ensures (line + "\r\n" + rest)[..|line|] == line
  {
    var s := line + "\r\n" + rest;
    forall j | 0 <= j < |line|
      ensures !CrlfAt(s, j)
    {
      assert s[j] == line[j];
    }
    FindCrlfAt(s, 0, |line|);
  }

  /**
   * For a line "<token> <target> <version>\r\n" the checks run in the order
   * of the source: the method (501), then the path against the document root
   * (404), then the version (505). When all pass, the method, the path
   * www + "/" + target and the version are those of the line, and the cursor
   * moves past the CRLF.
   */
  lemma {:induction false} RequestLineChecks(token: string, target: string, versionText: string, rest: string,
                                             www: string, canon: Utils.Canonicalizer)
    requires ' ' !in token && ' ' !in target
    requires '\r' !in token && '\r' !in target && '\r' !in versionText
    ensures var line := FormatRequestLine(token, target, versionText);
            var r := ParseRequestLine(line + rest, www, canon);
            var p := www + "/" + target;
            r.err == (if MethodOf(token).None? then NotImplemented
                      else if !Utils.IsPathParent(canon, www, p) then NotFound
                      else if VersionOf(versionText).None? then VersionNotSupported
                      else Success) &&
            (r.err == Success ==>
               r == RequestLine(Success, MethodOf(token), Some(p), VersionOf(versionText), |line|))
  {
    var l := token + " " + target + " " + versionText;
    assert FormatRequestLine(token, target, versionText) + rest == l + "\r\n" + rest;
    LineEnd(l, rest);
    var sp1, sp2 := |token|, |token| + 1 + |target|;
    forall j | 0 <= j < sp1 ensures l[j] != ' ' {
      assert l[j] == token[j];
    }
    FindCharAt(l, ' ', 0, sp1);
    forall j | sp1 + 1 <= j < sp2 ensures l[j] != ' ' {
      assert l[j] == target[j - sp1 - 1];
    }
    FindCharAt(l, ' ', sp1 + 1, sp2);
    assert l[..sp1] == token;
    assert l[sp1 + 1..sp2] == target;
    assert l[sp2 + 1..] == versionText;
  }

  /** Formatting a request line and parsing it back gives its method, path and version. */
  lemma RequestLineRoundTrip(m: Method, target: string, v: Version, rest: string,
                             www: string, canon: Utils.Canonicalizer)
    requires ' ' !in target && '\r' !in target
    requires Utils.IsPathParent(canon, www, www + "/" + target)
    ensures ParseRequestLine(FormatRequestLine(MethodName(m), target, VersionName(v)) + rest, www, canon)
            == RequestLine(Success, Some(m), Some(www + "/" + target), Some(v),
                           |FormatRequestLine(MethodName(m), target, VersionName(v))|)
  {
    RequestLineChecks(MethodName(m), target, VersionName(v), rest, www, canon);
  }

  /** A line without a space is a bad request. */
  lemma NoSpaceIsBadRequest(line: string, rest: string, www: string, canon: Utils.Canonicalizer)
    requires ' ' !in line && '\r' !in line
    ensures ParseRequestLine(line + "\r\n" + rest, www, canon).err == BadRequest
  {
    LineEnd(line, rest);
  }

  /** With one space only: an unknown method is reported first (501), a known one is a bad request. */
  lemma {:induction false} OneSpaceLine(token: string, target: string, rest: string, www: string, canon: Utils.Canonicalizer)
    requires ' ' !in token && ' ' !in target && '\r' !in token && '\r' !in target
    ensures ParseRequestLine(token + " " + target + "\r\n" + rest, www, canon).err ==
            if MethodOf(token).None? then NotImplemented else BadRequest
  {
    var l := token + " " + target;
    LineEnd(l, rest);
    forall j | 0 <= j < |token| ensures l[j] != ' ' {
      assert l[j] == token[j];
    }
    FindCharAt(l, ' ', 0, |token|);
    assert l[..|token|] == token;
    forall j | |token| + 1 <= j < |l| ensures l[j] != ' ' {
      assert l[j] == target[j - |token| - 1];
    }
  }

  // ---------------------------------------------------------------------------
  // Header lines: "key: value" up to a blank line

  /**
   * One header line: split at its first space; the part before it must be at
   * least two characters and end in ':'. The key is stored lower-cased without
   * the ':'; the value is everything after the space.
   */
  function HeaderLine(line: string): Option<(string, string)> {
    match FindChar(line, ' ', 0)
    case None => None
    case Some(sp) =>
      var key := line[..sp];
      if |key| < 2 || key[|key| - 1] != ':' then None
      else Some((ToLower(key[..|key| - 1]), line[sp + 1..]))
  }

  /** "Name: value" parses to the lower-cased name and the value, spaces in the value included. */
  lemma HeaderLineRoundTrip(name: string, value: string)
    requires name != [] && ' ' !in name
    ensures HeaderLine(name + ": " + value) == Some((ToLower(name), value))
  {
    var line := name + ": " + value;
    forall j | 0 <= j <= |name| ensures line[j] != ' ' {
      if j < |name| { assert line[j] == name[j]; }
    }
    FindCharAt(line, ' ', 0, |name| + 1);
    assert line[..|name| + 1] == name + ":";
    assert (name + ":")[..|name|] == name;
    assert line[|name| + 2..] == value;
  }

  /** A key that is too short or lacks its ':' makes the line malformed. */
  lemma HeaderKeyMalformed(key: string, value: string)
    requires ' ' !in key && (|key| < 2 || key[|key| - 1] != ':')
    ensures HeaderLine(key + " " + value).None?
  {
    var line := key + " " + value;
    forall j | 0 <= j < |key| ensures line[j] != ' ' {
      assert line[j] == key[j];
    }
    FindCharAt(line, ' ', 0, |key|);
    assert line[..|key|] == key;
  }

  datatype HeaderScan =
    | Done(end: nat, headers: map<string, string>)  // blank line found; the cursor goes to `end`
    | Incomplete(headers: map<string, string>)      // no blank line yet: AGAIN
    | Malformed(headers: map<string, string>)       // a bad line: 400

  /**
   * parseHttpHeader's loop from `pos` with header map `h`: each complete line
   * before the blank line is stored (a later duplicate overwrites); the blank
   * line ends the scan just past its CRLF. Lines stored before an AGAIN or a
   * 400 stay in the map.
   */
  function ScanHeaders(s: string, pos: nat, h: map<string, string>): HeaderScan
    decreases |s| - pos
  {
    match FindCrlf(s, pos)
    case None => Incomplete(h)
    case Some(eol) =>
      if eol == pos then Done(eol + 2, h)
      else match HeaderLine(s[pos..eol])
        case None => Malformed(h)
        case Some(kv) => ScanHeaders(s, eol + 2, h[kv.0 := kv.1])
  }

  /**
   * A finished scan ends just past a blank line: the CRLF before `end` ends
   * either the scan's first line or a line whose own CRLF precedes it.
   */
  lemma {:induction false} ScanHeadersDone(s: string, pos: nat, h: map<string, string>)
    requires ScanHeaders(s, pos, h).Done?
    ensures var end := ScanHeaders(s, pos, h).end;
            pos + 2 <= end <= |s| && CrlfAt(s, end - 2) && (end - 2 == pos || CrlfAt(s, end - 4))
    decreases |s| - pos
  {
    var eol := FindCrlf(s, pos).value;
    if eol != pos {
      var kv := HeaderLine(s[pos..eol]).value;
      ScanHeadersDone(s, eol + 2, h[kv.0 := kv.1]);
      var end := ScanHeaders(s, pos, h).end;
      if end - 2 == eol + 2 {
        assert CrlfAt(s, end - 4);
      }
    }
  }

  /** One step of the scan: a complete, well-formed line is stored and the scan goes on after its CRLF. */
  lemma ScanHeadersStep(s: string, pos: nat, h: map<string, string>, eol: nat, key: string, value: string)
    requires FindCrlf(s, pos) == Some(eol) && eol != pos && HeaderLine(s[pos..eol]) == Some((key, value))
    ensures ScanHeaders(s, pos, h) == ScanHeaders(s, eol + 2, h[key := value])
  {
  }

  function ScanError(r: HeaderScan): ErrorType {
    match r
    case Done(_, _) => Success
    case Incomplete(_) => Again
    case Malformed(_) => BadRequest
  }

  /** The keys a header scan from `pos` stores before it stops. */
  function ScannedKeys(s: string, pos: nat): set<string>
    decreases |s| - pos
  {
    match FindCrlf(s, pos)
    case None => {}
    case Some(eol) =>
      if eol == pos then {}
      else match HeaderLine(s[pos..eol])
        case None => {}
        case Some(kv) => {kv.0} + ScannedKeys(s, eol + 2)
  }

  ghost predicate AgreeOutside(g1: map<string, string>, g2: map<string, string>, keys: set<string>) {
    forall k :: k !in keys ==> (k in g1 <==> k in g2) && (k in g1 ==> g1[k] == g2[k])
  }

  /** A scan changes only the keys it stores. */
  lemma {:induction false} ScanKeepsOtherKeys(s: string, pos: nat, h: map<string, string>)
    ensures AgreeOutside(ScanHeaders(s, pos, h).headers, h, ScannedKeys(s, pos))
    decreases |s| - pos
  {
    match FindCrlf(s, pos)
    case None =>
    case Some(eol) =>
      if eol != pos {
        match HeaderLine(s[pos..eol])
        case None =>
        case Some(kv) =>
          ScanKeepsOtherKeys(s, eol + 2, h[kv.0 := kv.1]);
      }
  }

  /**
   * Once the lines of an incomplete scan are complete in `s`, two starting
   * maps that differ only on the keys those lines store give the same scan of
   * any longer buffer: each of those keys is overwritten before it is read.
   */
  lemma {:induction false} ResumeAgrees(s: string, t: string, pos: nat, h0: map<string, string>,
                                        g1: map<string, string>, g2: map<string, string>)
    requires ScanHeaders(s, pos, h0).Incomplete?
    requires AgreeOutside(g1, g2, ScannedKeys(s, pos))
    ensures ScanHeaders(s + t, pos, g1) == ScanHeaders(s + t, pos, g2)
    decreases |s| - pos
  {
    match FindCrlf(s, pos)
    case None =>
      assert g1.Keys == g2.Keys;
      assert g1 == g2;
    case Some(eol) =>
      FindCrlfExtend(s, t, pos);
      assert (s + t)[pos..eol] == s[pos..eol];
      var kv := HeaderLine(s[pos..eol]).value;
      ResumeAgrees(s, t, eol + 2, h0[kv.0 := kv.1], g1[kv.0 := kv.1], g2[kv.0 := kv.1]);
  }

  /**
   * Re-parsing after more bytes arrive: a pass that returned AGAIN left the
   * cursor where it was but already stored the complete lines; parsing the
   * longer buffer again from that cursor, starting from the partly filled
   * map, gives exactly what one parse of the whole buffer gives.
   */
  lemma HeaderReparse(s: string, t: string, pos: nat, h: map<string, string>)
    requires ScanHeaders(s, pos, h).Incomplete?
    ensures ScanHeaders(s + t, pos, ScanHeaders(s, pos, h).headers) == ScanHeaders(s + t, pos, h)
  {
    ScanKeepsOtherKeys(s, pos, h);
    ResumeAgrees(s, t, pos, h, ScanHeaders(s, pos, h).headers, h);
  }

  /** A scan that found its blank line or a bad line depends only on the bytes it read. */
  lemma {:induction false} HeaderScanStable(s: string, t: string, pos: nat, h: map<string, string>)
    requires !ScanHeaders(s, pos, h).Incomplete?
    ensures ScanHeaders(s + t, pos, h) == ScanHeaders(s, pos, h)
    decreases |s| - pos
  {
    assert FindCrlf(s, pos).Some?;
    var eol := FindCrlf(s, pos).value;
    FindCrlfExtend(s, t, pos);
    var line := s[pos..eol];
    assert (s + t)[pos..eol] == line;
    if eol != pos && HeaderLine(line).Some? {
      var kv := HeaderLine(line).value;
      HeaderScanStable(s, t, eol + 2, h[kv.0 := kv.1]);
    }
  }

  // ---------------------------------------------------------------------------
  // Body: Content-Length framing at the cursor

  datatype Framing =
    | Framed(body: string)  // the declared number of bytes is buffered
    | Short                 // AGAIN
    | NoLength              // 411
    | BadLength             // 400

  /**
   * parseBody: the "content-length" value must be all digits; the body is
   * that many bytes from the cursor. The body is framed exactly when a
   * numeric length is declared and that many bytes follow the cursor, and it
   * is those bytes; 411 exactly when no length is declared; 400 exactly when
   * it is not a digit string.
   */
  function FrameBody(request: string, cursor: nat, headers: map<string, string>): (r: Framing)
    ensures r.Framed? <==>
              "content-length" in headers && AllDigits(headers["content-length"]) &&
              cursor + DecimalValue(headers["content-length"]) <= |request|
    ensures r.Framed? ==>
              |r.body| == DecimalValue(headers["content-length"]) && r.body == request[cursor..cursor + |r.body|]
    ensures r == NoLength <==> "content-length" !in headers
    ensures r == BadLength <==> "content-length" in headers && !AllDigits(headers["content-length"])
  {
    if "content-length" !in headers then NoLength
    else if !AllDigits(headers["content-length"]) then BadLength
    else
      var len := DecimalValue(headers["content-length"]);
      if |request| < cursor + len then Short else Framed(request[cursor..cursor + len])
  }

  function FramingError(f: Framing): ErrorType {
    match f
    case Framed(_) => Success
    case Short => Again
    case NoLength => LengthRequired
    case BadLength => BadRequest
  }

  /** A body announced with its own length is recovered exactly, whatever follows it. */
  lemma BodyRoundTrip(prefix: string, body: string, rest: string, headers: map<string, string>)
    requires "content-length" in headers && headers["content-length"] == NatToDecimal(|body|)
    ensures FrameBody(prefix + body + rest, |prefix|, headers) == Framed(body)
  {
    var lenText := headers["content-length"];
    assert AllDigits(lenText);
    DecimalRoundTrip(|body|);
    assert DecimalValue(lenText) == |body|;
    var request := prefix + body + rest;
    assert |prefix| + |body| <= |request|;
    assert request[|prefix|..|prefix| + |body|] == body;
  }

  /** Once the body is framed, bytes that arrive later do not change it. */
  lemma BodyFramingStable(request: string, more: string, cursor: nat, headers: map<string, string>)
    requires FrameBody(request, cursor, headers).Framed?
    ensures FrameBody(request + more, cursor, headers) == FrameBody(request, cursor, headers)
  {
    var len := |FrameBody(request, cursor, headers).body|;
    assert (request + more)[cursor..cursor + len] == request[cursor..cursor + len];
  }

  // ---------------------------------------------------------------------------
  // Keep-alive decision of handleRequest

  /** A "connection" header whose value is "keep-alive" in any letter case. */
  predicate AsksKeepAlive(headers: map<string, string>) {
    "connection" in headers && ToLower(headers["connection"]) == "keep-alive"
  }

  /**
   * HTTP/1.0 clears keep-alive; a "connection: keep-alive" header then sets it
   * whatever the version; nothing clears it on HTTP/1.1.
   */
  function KeepAliveDecision(prev: bool, v: Version, headers: map<string, string>): (r: bool)
    // the connection stays open exactly when the client asks for it, or on HTTP/1.1 when it already was
    ensures r <==> AsksKeepAlive(headers) || (v == Http11 && prev)
  {
    var kept := match v case Http10 => false case Http11 => prev;
    if AsksKeepAlive(headers) then true else kept
  }

  /** "Connection: close" is never honoured: the result is what it would be without the header. */
  lemma ConnectionCloseIgnored(prev: bool, v: Version, headers: map<string, string>)
    requires "connection" in headers && ToLower(headers["connection"]) == "close"
    ensures KeepAliveDecision(prev, v, headers) == KeepAliveDecision(prev, v, headers - {"connection"})
  {
    assert ToLower(headers["connection"])[0] == 'c';
  }

  /** An HTTP/1.0 request asking for "Keep-Alive" keeps the connection open. */
  lemma Http10KeepAliveHonoured(prev: bool)
    ensures KeepAliveDecision(prev, Http10, map["connection" := "Keep-Alive"])
  {
    var mixed := "Keep-Alive";
    var lowered := ToLower(mixed);
    assert lowered[0] == LowerChar('K') == 'k' && lowered[5] == LowerChar('A') == 'a';
    assert lowered == "keep-alive";
  }

  // ---------------------------------------------------------------------------
  // Responses: sendResponse / sendErrorResponse

  function StatusLine(code: string, msg: string): string {
    "HTTP/1.1 " + code + " " + msg + "\r\n"
  }

  /** The header block sendResponse writes, up to and including the blank line. */
  function ResponseHead(code: string, msg: string, keepAlive: bool, againTimes: int,
                        contentType: string, bodyLength: nat): string
  {
    StatusLine(code, msg) + HeaderFields(keepAlive, againTimes, contentType, bodyLength)
  }

  /** The header lines after the status line, and the blank line that ends them. */
  function HeaderFields(keepAlive: bool, againTimes: int, contentType: string, bodyLength: nat): string {
    "Connection: " + (if keepAlive then "Keep-Alive" else "Close") + "\r\n"
    + (if keepAlive
       then "Keep-Alive: timeout=" + NatToDecimal(TimeoutPerRequest) + ", max=" + IntToDecimal(againTimes) + "\r\n"
       else "")
    + "Server: WebServer/1.1\r\n"
    + "Content-length: " + NatToDecimal(bodyLength) + "\r\n"
    + "Content-type: " + contentType + "\r\n"
    + "\r\n"
  }

  /**
   * The bytes sendResponse hands to writen: the header block, whose
   * Content-length is the full body size, then the body unless the request
   * was HEAD.
   */
  function Response(code: string, msg: string, keepAlive: bool, againTimes: int,
                    contentType: string, body: string, isHead: bool): string
  {
    ResponseHead(code, msg, keepAlive, againTimes, contentType, |body|) + (if isHead then "" else body)
  }

  /** A response starts with its status line and, unless it answers HEAD, ends with the whole body. */
  lemma ResponseLayout(code: string, msg: string, keepAlive: bool, againTimes: int, contentType: string,
                       body: string, isHead: bool)
    ensures var r := Response(code, msg, keepAlive, againTimes, contentType, body, isHead);
            StatusLine(code, msg) <= r &&
            (!isHead ==> |r| >= |body| && r[|r| - |body|..] == body)
  {
    var status := StatusLine(code, msg);
    var fields := HeaderFields(keepAlive, againTimes, contentType, |body|);
    var tail := if isHead then "" else body;
    assert Response(code, msg, keepAlive, againTimes, contentType, body, isHead) == status + fields + tail;
    ThreePartEnds(status, fields, tail);
  }

  /** The first part of a three-part concatenation is a prefix of it, and the last part ends it. */
  lemma ThreePartEnds(a: string, b: string, c: string)
    ensures a <= a + b + c
    ensures (a + b + c)[|a + b + c| - |c|..] == c
  {
    assert (a + b + c)[..|a|] == a;
  }

  /** A HEAD response is the GET response without its body: same status and headers. */
  lemma HeadOmitsBody(code: string, msg: string, keepAlive: bool, againTimes: int, contentType: string, body: string)
    ensures Response(code, msg, keepAlive, againTimes, contentType, body, false) ==
            Response(code, msg, keepAlive, againTimes, contentType, body, true) + body
  {
  }

  /** The header block ends with the blank line, and its Content-length digits read back as the body size. */
  lemma ResponseHeadFraming(code: string, msg: string, keepAlive: bool, againTimes: int, contentType: string, bodyLength: nat)
    ensures var head := ResponseHead(code, msg, keepAlive, againTimes, contentType, bodyLength);
            |head| >= 4 && head[|head| - 4..] == "\r\n\r\n"
    ensures DecimalValue(NatToDecimal(bodyLength)) == bodyLength
  {
    DecimalRoundTrip(bodyLength);
  }

  /** writen's count: a failure or a short write is SEND_RESPONSE_FAIL. */
  function WriteOutcome(written: int, size: nat): (e: ErrorType)
    ensures e == Success <==> written == size
    ensures e != Success ==> e == SendResponseFail
  {
    if written < 0 || written != size then SendResponseFail else Success
  }

  /** The status code and reason phrase handleErrorType sends for an error kind, if any. */
  function StatusOf(err: ErrorType): (r: Option<(string, string)>)
    // exactly the HTTP errors have a page, and its code is a three-digit 4xx or 5xx
    ensures r.None? <==>
              err == Success || err == Again || err == ReadRequestFail || err == ConnectionClosed || err == SendResponseFail
  {
    match err
    case BadRequest => Some(("400", "Bad Request"))
    case NotFound => Some(("404", "Not Found"))
    case LengthRequired => Some(("411", "Length Required"))
    case NotImplemented => Some(("501", "Not Implemented"))
    case InternalServerError => Some(("500", "Internal Server Error"))
    case VersionNotSupported => Some(("505", "HTTP Version Not Supported"))
    case _ => None
  }

  /** Distinct error kinds that produce a response produce distinct status codes. */
  lemma StatusCodesDistinct(e1: ErrorType, e2: ErrorType)
    requires StatusOf(e1).Some? && StatusOf(e2).Some? && StatusOf(e1).value.0 == StatusOf(e2).value.0
    ensures e1 == e2
  {
  }

  /** The HTML page of sendErrorResponse. */
  function ErrorBody(code: string, msg: string): string {
    "<html><title>" + code + " " + msg + "</title><body>" + code + " " + msg
    + "<hr><em> Kelpie Web Server</em></body></html>"
  }

  /** The error page's title names the status. */
  lemma ErrorPageTitle(code: string, msg: string)
    ensures "<html><title>" + code + " " + msg <= ErrorBody(code, msg)
  {
    var title := "<html><title>" + code + " " + msg;
    var rest := "</title><body>" + code + " " + msg + "<hr><em> Kelpie Web Server</em></body></html>";
    assert ErrorBody(code, msg) == title + rest;
    assert (title + rest)[..|title|] == title;
  }

  /**
   * What handleErrorType does to the state and the retry budget: SUCCESS
   * changes nothing; AGAIN spends a retry and is fatal once none is left; a
   * read, close or send failure is fatal; an HTTP error moves to ERROR.
   */
  function AfterError(err: ErrorType, s: State, againTimes: int): (r: (State, int))
    // only AGAIN spends a retry; every HTTP error ends in ERROR; the connection
    // is fatal exactly after a read, close or send failure, after the last
    // retry, or when it already was and nothing moved it
    ensures r.1 == (if err == Again then againTimes - 1 else againTimes)
    ensures StatusOf(err).Some? ==> r.0 == Error
    ensures r.0 == FatalError <==>
              err == ReadRequestFail || err == ConnectionClosed || err == SendResponseFail ||
              (err == Again && againTimes <= 1) || (s == FatalError && (err == Success || err == Again))
  {
    match err
    case Success => (s, againTimes)
    case Again => (if againTimes - 1 <= 0 then FatalError else s, againTimes - 1)
    case ReadRequestFail => (FatalError, againTimes)
    case ConnectionClosed => (FatalError, againTimes)
    case SendResponseFail => (FatalError, againTimes)
    case _ => (Error, againTimes)
  }

  /** The error page handleErrorType sends for an HTTP error, and nothing for any other kind. */
  function ErrorPages(err: ErrorType, keepAlive: bool, againTimes: int, isHead: bool): (r: seq<string>)
    ensures |r| == (if StatusOf(err).Some? then 1 else 0)
  {
    var status := StatusOf(err);
    if status.None? then []
    else [Response(status.value.0, status.value.1, keepAlive, againTimes, "text/html",
                   ErrorBody(status.value.0, status.value.1), isHead)]
  }

  // ---------------------------------------------------------------------------
  // Serving: the filesystem and the CGI executor as abstract inputs

  /**
   * What stat and open find at a path: a regular file with its bytes, a
   * directory, a path whose stat fails with an errno other than ENOENT, or a
   * path that stat accepts but open(O_RDONLY) refuses (no read permission).
   */
  datatype Node = File(data: string) | Directory | StatFails | OpenFails

  type FileSystem = map<string, Node>

  /** The captured output of running the target with the request body on its standard input. */
  type CgiRunner = (string, string) -> string

  /** path_ after handleRequest's stat: a directory is served through its "/index.html". */
  function IndexPath(fs: FileSystem, path: string): string {
    if path in fs && fs[path].Directory? then path + "/index.html" else path
  }

  /**
   * The suffix extraction of handleRequest: what follows the last '.' of the
   * whole path, or the whole path when it has no '.'.
   */
  function DotSuffix(p: string): (r: string)
    ensures '.' !in r && |r| <= |p|
  {
    if p == [] then []
    else if p[|p| - 1] == '.' then []
    else DotSuffix(p[..|p| - 1]) + [p[|p| - 1]]
  }

  /**
   * The suffix holds no '.', ends the path, and is either the whole path or
   * preceded by a '.'.
   */
  lemma {:induction false} DotSuffixShape(p: string)
    ensures var r := DotSuffix(p);
            '.' !in r && |r| <= |p| && p[|p| - |r|..] == r && (r == p || p[|p| - |r| - 1] == '.')
  {
    if p != [] && p[|p| - 1] != '.' {
      var p' := p[..|p| - 1];
      DotSuffixShape(p');
      var r' := DotSuffix(p');
      assert p[|p| - |r'| - 1..] == p'[|p'| - |r'|..] + [p[|p| - 1]];
      if r' != p' {
        assert p[|p| - |r'| - 2] == p'[|p'| - |r'| - 1];
      }
    }
  }

  /** Only the text after the last dot counts: whatever precedes a dot is dropped. */
  lemma {:induction false} DotSuffixAfterDot(p: string, y: string)
    ensures DotSuffix(p + "." + y) == DotSuffix(y)
    decreases |y|
  {
    var s := p + "." + y;
    if y == [] {
      assert s[|s| - 1] == '.';
    } else {
      var y', c := y[..|y| - 1], y[|y| - 1];
      assert s[..|s| - 1] == p + "." + y';
      assert s[|s| - 1] == c;
      DotSuffixAfterDot(p, y');
    }
  }

  /** A path without a dot is its own suffix. */
  lemma {:induction false} NoDotSuffix(y: string)
    requires '.' !in y
    ensures DotSuffix(y) == y
  {
    if y != [] {
      var y' := y[..|y| - 1];
      assert '.' !in y' by {
        forall i | 0 <= i < |y'| ensures y'[i] != '.' { assert y'[i] == y[i]; }
      }
      NoDotSuffix(y');
    }
  }

  datatype Resolution = Unresolved(err: ErrorType) | Resolved(target: string)

  /**
   * The stat calls of handleRequest: a missing path is 404, any other stat
   * failure 500; a directory is replaced by its index.html, which must pass
   * the same checks.
   */
  function Resolve(fs: FileSystem, path: string): (r: Resolution)
    // a resolved target is the index-substituted path and passed its stat; a refusal is 404 or 500
    ensures r.Resolved? ==> r.target == IndexPath(fs, path) && r.target in fs && !fs[r.target].StatFails?
    ensures r.Unresolved? ==> r.err == NotFound || r.err == InternalServerError
  {
    if path !in fs then Unresolved(NotFound)
    else if fs[path].StatFails? then Unresolved(InternalServerError)
    else
      var target := IndexPath(fs, path);
      if target !in fs then Unresolved(NotFound)
      else if fs[target].StatFails? then Unresolved(InternalServerError)
      else Resolved(target)
  }

  /** A refusal is 404 exactly when the path or its index is missing, and 500 otherwise. */
  lemma ResolveOutcome(fs: FileSystem, path: string)
    ensures var r := Resolve(fs, path);
            (r.Unresolved? && r.err == NotFound <==>
               path !in fs || (!fs[path].StatFails? && IndexPath(fs, path) !in fs))
  {
  }

  /**
   * What handleRequest produces for a resolved target: for GET and HEAD the
   * file's bytes typed by its suffix (500 when open fails, and when mapping
   * fails, as for a directory and for an empty file); for POST the CGI output
   * as plain text (500 when there is none). POST never opens the target.
   */
  function Produce(fs: FileSystem, cgi: CgiRunner, m: Method, target: string, body: string): (r: Reply)
    requires target in fs && !fs[target].StatFails?
    ensures r.Refused? ==> r.err == InternalServerError
    ensures r.Content? ==> r.data != []
    ensures m != Post ==> (r.Content? <==> fs[target].File? && fs[target].data != [])
    ensures m != Post && r.Content? ==> r.data == fs[target].data
    ensures m == Post ==> (r.Content? <==> cgi(target, body) != [])
  {
    if m == Post then
      var out := cgi(target, body);
      if out == [] then Refused(InternalServerError) else Content(Mime.GetMimeType("txt"), out)
    else if !fs[target].File? || fs[target].data == [] then Refused(InternalServerError)
    else Content(Mime.GetMimeType(DotSuffix(target)), fs[target].data)
  }

  /** handleRequest after the keep-alive decision: resolve the path, then produce the reply. */
  function Serve(fs: FileSystem, cgi: CgiRunner, m: Method, path: string, body: string): (r: Reply)
    // a refusal is 404 or 500 and content is never empty; a GET or HEAD serves
    // exactly the bytes of the file the path resolves to
    ensures r.Refused? ==> r.err == NotFound || r.err == InternalServerError
    ensures r.Content? ==> r.data != []
    ensures r.Content? && m != Post ==> IndexPath(fs, path) in fs && fs[IndexPath(fs, path)] == File(r.data)
  {
    match Resolve(fs, path)
    case Unresolved(err) => Refused(err)
    case Resolved(target) => Produce(fs, cgi, m, target, body)
  }

  datatype Reply = Refused(err: ErrorType) | Content(contentType: string, data: string)

  /** The 200 response handleRequest sends for a reply with content, and nothing for a refusal. */
  function OkPages(reply: Reply, keepAlive: bool, againTimes: int, isHead: bool): (r: seq<string>)
    ensures |r| == (if reply.Content? then 1 else 0)
  {
    if reply.Refused? then []
    else [Response("200", "OK", keepAlive, againTimes, reply.contentType, reply.data, isHead)]
  }

  /** handleRequest's result: the refusal, or how the write of the 200 response went. */
  function ServeOutcome(reply: Reply, written: int, keepAlive: bool, againTimes: int, isHead: bool): (e: ErrorType)
    ensures reply.Refused? ==> e == reply.err
    ensures reply.Content? ==> (e == Success || e == SendResponseFail)
  {
    if reply.Refused? then reply.err
    else WriteOutcome(written, |OkPages(reply, keepAlive, againTimes, isHead)[0]|)
  }

  /** GET or HEAD of a non-empty regular file serves its bytes, typed by the file's suffix. */
  lemma ServeFile(fs: FileSystem, cgi: CgiRunner, m: Method, path: string, body: string)
    requires m != Post && path in fs && fs[path].File? && fs[path].data != []
    ensures Serve(fs, cgi, m, path, body) == Content(Mime.GetMimeType(DotSuffix(path)), fs[path].data)
  {
    assert IndexPath(fs, path) == path;
  }

  /** A directory is served through its index.html, as HTML. */
  lemma ServeDirectoryIndex(fs: FileSystem, cgi: CgiRunner, m: Method, dir: string, body: string)
    requires m != Post && dir in fs && fs[dir].Directory?
    requires dir + "/index.html" in fs && fs[dir + "/index.html"].File? && fs[dir + "/index.html"].data != []
    ensures Serve(fs, cgi, m, dir, body) == Content("text/html", fs[dir + "/index.html"].data)
  {
    IndexSuffix(dir);
    assert IndexPath(fs, dir) == dir + "/index.html";
  }

  /** The suffix of an index page is "html", whatever directory it is in. */
  lemma IndexSuffix(dir: string)
    ensures DotSuffix(dir + "/index.html") == "html"
  {
    var html := "html";
    var p := dir + "/index";
    var full := dir + "/index.html";
    assert p + "." + html == full;
    assert DotSuffix(full) == DotSuffix(html) by {
      DotSuffixAfterDot(p, html);
    }
    assert DotSuffix(html) == html by {
      NoDotSuffix(html);
    }
  }

  /** GET or HEAD of an empty file is a 500: the file cannot be mapped. */
  lemma ServeEmptyFile(fs: FileSystem, cgi: CgiRunner, m: Method, path: string, body: string)
    requires m != Post && path in fs && fs[path] == File([])
    ensures Serve(fs, cgi, m, path, body) == Refused(InternalServerError)
  {
  }

  /** POST runs the CGI target; output nothing and the reply is 500. */
  lemma ServePost(fs: FileSystem, cgi: CgiRunner, path: string, body: string)
    requires path in fs && (fs[path].File? || fs[path].OpenFails?)
    ensures Serve(fs, cgi, Post, path, body) ==
            if cgi(path, body) == [] then Refused(InternalServerError) else Content("text/plain", cgi(path, body))
  {
  }

  /**
   * A target that stat accepts but open refuses is a 500 for GET and HEAD,
   * while POST, which never opens it, still runs it.
   */
  lemma ServeUnopenable(fs: FileSystem, cgi: CgiRunner, m: Method, path: string, body: string)
    requires path in fs && fs[path].OpenFails?
    ensures m != Post ==> Serve(fs, cgi, m, path, body) == Refused(InternalServerError)
    ensures m == Post && cgi(path, body) != [] ==> Serve(fs, cgi, m, path, body).Content?
  {
  }
}
