/**
 * main.cpp: the argument check, the reactor loop that routes each epoll
 * event either to the accept loop (the listening socket) or to
 * handleOldConnection (a client socket or its timer), the classification of
 * client events, and the accept loop with its error handling. epoll_wait,
 * accept4 and timerfd creation are replaced by scripts of their outcomes.
 */
module Server {
  import opened Text
  import Pool
  import HttpSpec
  import Handler

  // ---------------------------------------------------------------------------
  // Arguments

  /** The port the listening socket binds, and the document root. */
  datatype Config = Config(port: nat, www: string)

  /** socket_bind_and_listen casts the port to unsigned short: it is taken modulo 2^16. */
  const PortSpace: nat := 0x1_0000

  /**
   * `<prog> <port> [<www_dir>]`: a missing or non-numeric port is a usage
   * error (exit failure); a second argument replaces the default root ".".
   * The port is atoi of the first argument, truncated to 16 bits when bound.
   */
  function ParseArgs(args: seq<string>): (r: Option<Config>)
    ensures r.Some? <==> |args| >= 2 && AllDigits(args[1])
    ensures r.Some? ==> r.value.port < PortSpace
  {
    if |args| < 2 || !AllDigits(args[1]) then None
    else Some(Config(DecimalValue(args[1]) % PortSpace, if |args| > 2 then args[2] else HttpSpec.DefaultWwwPath))
  }

  /**
   * The arguments are accepted exactly when a port argument is present and
   * all digits; the root is the second argument when there is one.
   */
  lemma ParseArgsOutcome(args: seq<string>)
    ensures ParseArgs(args).Some? <==> |args| >= 2 && forall i :: 0 <= i < |args[1]| ==> IsDigit(args[1][i])
    ensures ParseArgs(args).Some? ==>
              ParseArgs(args).value.www == (if |args| > 2 then args[2] else ".")
  {
  }

  /**
   * A number written in decimal binds that number modulo 2^16: a port below
   * 65536 is read back as itself.
   */
  lemma PortRoundTrip(prog: string, port: nat, rest: seq<string>)
    ensures ParseArgs([prog, NatToDecimal(port)] + rest).Some?
    ensures ParseArgs([prog, NatToDecimal(port)] + rest).value.port == port % PortSpace
    ensures port < PortSpace ==> ParseArgs([prog, NatToDecimal(port)] + rest).value.port == port
  {
    DecimalRoundTrip(port);
  }

  /** "65536" passes the digit check and binds port 0. */
  lemma PortWrapsAround(prog: string)
    ensures ParseArgs([prog, "65536"]) == Some(Config(0, "."))
  {
    var digits := "65536";
    assert DecimalValue("6") == 6 by { assert "6"[..0] == ""; }
    assert DecimalValue("65") == 65 by { assert "65"[..1] == "6"; }
    assert DecimalValue("655") == 655 by { assert "655"[..2] == "65"; }
    assert DecimalValue("6553") == 6553 by { assert "6553"[..3] == "655"; }
    assert DecimalValue(digits) == 65536 by { assert digits[..4] == "6553"; }
  }

  /** An empty port argument passes the digit check and atoi reads it as port 0. */
  lemma EmptyPortIsZero(prog: string)
    ensures ParseArgs([prog, ""]) == Some(Config(0, "."))
  {
  }

  // ---------------------------------------------------------------------------
  // handleOldConnection

  /** The Linux values of the epoll event bits main.cpp tests. */
  const EpollIn: bv32 := 0x001
  const EpollErr: bv32 := 0x008
  const EpollHup: bv32 := 0x010
  const EpollRdHup: bv32 := 0x2000

  /** What handleOldConnection does with an event on a client fd or on its timer fd. */
  datatype Verdict =
    | PeerClosed   // EPOLLHUP or EPOLLRDHUP: delete the handler
    | SocketError  // EPOLLERR, or not readable: delete the handler
    | TimedOut     // the timer fd fired: delete the handler
    | Submitted    // hand RunEventLoop to the thread pool

  function Classify(events: bv32, fd: int, timerFd: int): (r: Verdict)
    // a hang-up bit always closes; only a clean readable event reaches the timer check or the pool
    ensures r == PeerClosed <==> events & EpollHup != 0 || events & EpollRdHup != 0
    ensures r == Submitted || r == TimedOut ==> events & EpollIn != 0 && events & EpollErr == 0
    ensures r == TimedOut ==> fd == timerFd
    ensures r == Submitted ==> fd != timerFd
  {
    if events & EpollHup != 0 || events & EpollRdHup != 0 then PeerClosed
    else if events & EpollErr != 0 || events & EpollIn == 0 then SocketError
    else if fd == timerFd then TimedOut
    else Submitted
  }

  /** A hang-up wins over every other bit and over which fd fired. */
  lemma HangupFirst(events: bv32, fd: int, timerFd: int)
    requires events & (EpollHup | EpollRdHup) != 0
    ensures Classify(events, fd, timerFd) == PeerClosed
  {
    assert events & (EpollHup | EpollRdHup) == (events & EpollHup) | (events & EpollRdHup);
  }

  /**
   * Only a readable event without error or hang-up on the client socket
   * itself is handed to the pool; every other event deletes the handler.
   */
  lemma SubmittedExactly(events: bv32, fd: int, timerFd: int)
    ensures Classify(events, fd, timerFd) == Submitted <==>
              events & (EpollHup | EpollRdHup | EpollErr) == 0 && events & EpollIn != 0 && fd != timerFd
  {
    assert events & (EpollHup | EpollRdHup | EpollErr) ==
           (events & EpollHup) | (events & EpollRdHup) | (events & EpollErr);
  }

  /** A timer expiry is a timeout only when the event itself is a clean readable one. */
  lemma TimeoutExactly(events: bv32, fd: int, timerFd: int)
    ensures Classify(events, fd, timerFd) == TimedOut <==>
              events & (EpollHup | EpollRdHup | EpollErr) == 0 && events & EpollIn != 0 && fd == timerFd
  {
    assert events & (EpollHup | EpollRdHup | EpollErr) ==
           (events & EpollHup) | (events & EpollRdHup) | (events & EpollErr);
  }

  /**
   * handleOldConnection for the connection whose handler is task `handler`:
   * classify the event and, for a clean readable client event, append the
   * handler's RunEventLoop task to the pool (a refused append is ignored).
   * Clearing the timer's epoll interest is not modelled.
   */
  method HandleOldConnection(pool: Pool.ThreadPool, events: bv32, fd: int, timerFd: int, handler: nat)
    returns (v: Verdict, queued: bool)
    modifies pool`queue
    ensures v == Classify(events, fd, timerFd)
    ensures v == Submitted ==> (queued, pool.queue) == Pool.Admit(old(pool.queue), pool.maxQueueSize, Pool.Job(handler))
    ensures v != Submitted ==> !queued && pool.queue == old(pool.queue)
  {
    queued := false;
    if events & EpollHup != 0 || events & EpollRdHup != 0 {
      return PeerClosed, queued;
    } else if events & EpollErr != 0 || events & EpollIn == 0 {
      return SocketError, queued;
    }
    if fd == timerFd {
      v := TimedOut;
    } else {
      v := Submitted;
      queued := pool.AppendTask(Pool.Job(handler));
    }
  }

  /**
   * The task a worker runs for a connection: one RunEventLoop pass, deleting
   * the handler when it returns false, which is exactly when no request is
   * left waiting for bytes.
   */
  method ConnectionTask(h: Handler.HttpHandler, incoming: seq<HttpSpec.Recv>, written: int) returns (destroy: bool)
    requires h.Valid()
    modifies h
    ensures destroy <==> !HttpSpec.Pending(h.state)
    ensures !destroy ==> h.Valid()
  {
    var keep := h.RunEventLoop(incoming, written);
    destroy := !keep;
  }

  // ---------------------------------------------------------------------------
  // handleNewConnections

  datatype AcceptErrno = Eintr | Econnaborted | Eagain | Emfile | OtherErrno

  /** One accept4 call: a new client (and whether its timerfd could be created), or the errno it failed with. */
  datatype Accept = Accepted(timerValid: bool) | AcceptFailed(errno: AcceptErrno)

  /** Why the accept loop stopped: nothing more to accept, or out of descriptors after `closed` drained connections. */
  datatype AcceptEnd = WouldBlock | Drained(closed: nat)

  /**
   * closeRemainingConnect: accepts and closes until accept fails with EAGAIN,
   * counting every other call, failed or not, as a closed connection.
   */
  function DrainCount(outcomes: seq<Accept>): (r: nat)
    // every closed connection took one accept4 call, and the EAGAIN call closes nothing
    ensures r <= |outcomes|
    ensures r < |outcomes| ==> outcomes[r] == AcceptFailed(Eagain)
  {
    if outcomes == [] || outcomes[0] == AcceptFailed(Eagain) then 0
    else 1 + DrainCount(outcomes[1..])
  }

  /**
   * handleNewConnections over a script of accept4 outcomes: how many
   * connections got a handler, and why the loop stopped. EINTR and
   * ECONNABORTED are retried; any other unexpected errno is only logged, so
   * the loop retries it too. A script that runs out behaves as EAGAIN.
   */
  function AcceptRun(outcomes: seq<Accept>): (r: (nat, AcceptEnd))
    // registered and drained connections each took a distinct accept4 call
    ensures r.0 + (if r.1.Drained? then r.1.closed + 1 else 0) <= |outcomes|
  {
    if outcomes == [] then (0, WouldBlock)
    else match outcomes[0]
      case AcceptFailed(Eagain) => (0, WouldBlock)
      case AcceptFailed(Emfile) => (0, Drained(DrainCount(outcomes[1..])))
      case AcceptFailed(_) => AcceptRun(outcomes[1..])
      case Accepted(false) => (0, Drained(DrainCount(outcomes[1..])))
      case Accepted(true) => var r := AcceptRun(outcomes[1..]); (r.0 + 1, r.1)
  }

  /** An outcome after which the accept loop goes on. */
  predicate Continues(a: Accept) {
    a == Accepted(true) || (a.AcceptFailed? && a.errno != Eagain && a.errno != Emfile)
  }

  /** How many of the outcomes are new connections with a working timer. */
  function Registered(outcomes: seq<Accept>): nat {
    if outcomes == [] then 0 else (if outcomes[0] == Accepted(true) then 1 else 0) + Registered(outcomes[1..])
  }

  /**
   * Retried outcomes and registrations before the first stopping outcome
   * only add their registrations: the loop's result is decided by what
   * comes after them.
   */
  lemma {:induction false} AcceptPrefix(prefix: seq<Accept>, rest: seq<Accept>)
    requires forall i :: 0 <= i < |prefix| ==> Continues(prefix[i])
    ensures AcceptRun(prefix + rest) == (Registered(prefix) + AcceptRun(rest).0, AcceptRun(rest).1)
    decreases |prefix|
  {
    if prefix != [] {
      assert (prefix + rest)[0] == prefix[0] && Continues(prefix[0]);
      assert (prefix + rest)[1..] == prefix[1..] + rest;
      AcceptPrefix(prefix[1..], rest);
    } else {
      assert prefix + rest == rest;
    }
  }

  /** EAGAIN after any run of retried and registered outcomes ends the loop, whatever follows. */
  lemma AcceptStopsAtEagain(prefix: seq<Accept>, rest: seq<Accept>)
    requires forall i :: 0 <= i < |prefix| ==> Continues(prefix[i])
    ensures AcceptRun(prefix + [AcceptFailed(Eagain)] + rest) == (Registered(prefix), WouldBlock)
  {
    AcceptPrefix(prefix, [AcceptFailed(Eagain)] + rest);
    assert prefix + [AcceptFailed(Eagain)] + rest == prefix + ([AcceptFailed(Eagain)] + rest);
  }

  /**
   * Running out of descriptors (EMFILE, or a timerfd that cannot be made)
   * drains exactly the calls up to the next EAGAIN and ends the loop.
   */
  lemma {:induction false} AcceptDrainsOnExhaustion(prefix: seq<Accept>, a: Accept, drained: seq<Accept>, rest: seq<Accept>)
    requires forall i :: 0 <= i < |prefix| ==> Continues(prefix[i])
    requires a == AcceptFailed(Emfile) || a == Accepted(false)
    requires AcceptFailed(Eagain) !in drained
    ensures AcceptRun(prefix + [a] + drained + [AcceptFailed(Eagain)] + rest) == (Registered(prefix), Drained(|drained|))
  {
    var tail := drained + [AcceptFailed(Eagain)] + rest;
    assert prefix + [a] + drained + [AcceptFailed(Eagain)] + rest == prefix + ([a] + tail);
    AcceptPrefix(prefix, [a] + tail);
    assert ([a] + tail)[1..] == tail;
    DrainUpToEagain(drained, rest);
  }

  /** closeRemainingConnect counts every call before the first EAGAIN. */
  lemma {:induction false} DrainUpToEagain(drained: seq<Accept>, rest: seq<Accept>)
    requires AcceptFailed(Eagain) !in drained
    ensures DrainCount(drained + [AcceptFailed(Eagain)] + rest) == |drained|
    decreases |drained|
  {
    if drained != [] {
      assert (drained + [AcceptFailed(Eagain)] + rest)[1..] == drained[1..] + [AcceptFailed(Eagain)] + rest;
      assert drained[0] in drained;
      DrainUpToEagain(drained[1..], rest);
    } else {
      assert drained + [AcceptFailed(Eagain)] + rest == [AcceptFailed(Eagain)] + rest;
    }
  }

  /**
   * The accept loop of handleNewConnections. Each accepted client with a
   * working timer gets a handler registered with epoll; a failed timerfd
   * closes the client, and it and EMFILE drain the pending connections.
   */
  method HandleNewConnections(outcomes: seq<Accept>) returns (registered: nat, end: AcceptEnd)
    ensures (registered, end) == AcceptRun(outcomes)
  {
    registered := 0;
    var i := 0;
    while true
      invariant i <= |outcomes|
      invariant AcceptRun(outcomes) == (registered + AcceptRun(outcomes[i..]).0, AcceptRun(outcomes[i..]).1)
      decreases |outcomes| - i
    {
      if i == |outcomes| {
        return registered, WouldBlock;
      }
      assert outcomes[i..][1..] == outcomes[i + 1..];
      var outcome := outcomes[i];
      i := i + 1;
      if outcome.AcceptFailed? {
        if outcome.errno == Eintr || outcome.errno == Econnaborted {
          continue;
        } else if outcome.errno == Eagain {
          return registered, WouldBlock;
        } else if outcome.errno == Emfile {
          var closed := CloseRemainingConnect(outcomes[i..]);
          return registered, Drained(closed);
        }
        // any other errno is logged and accept4 is called again
      } else {
        if !outcome.timerValid {
          var closed := CloseRemainingConnect(outcomes[i..]);
          return registered, Drained(closed);
        }
        registered := registered + 1;
      }
    }
  }

  /** closeRemainingConnect: accept and close until accept4 fails with EAGAIN. */
  method CloseRemainingConnect(outcomes: seq<Accept>) returns (count: nat)
    ensures count == DrainCount(outcomes)
  {
    count := 0;
    var i := 0;
    while i < |outcomes| && outcomes[i] != AcceptFailed(Eagain)
      invariant i <= |outcomes|
      invariant DrainCount(outcomes) == count + DrainCount(outcomes[i..])
      decreases |outcomes| - i
    {
      assert outcomes[i..][1..] == outcomes[i + 1..];
      count := count + 1;
      i := i + 1;
    }
  }

  // ---------------------------------------------------------------------------
  // The reactor loop of main

  /** One epoll_wait: the fds of the ready events (none on a zero return), or a failure and whether it was EINTR. */
  datatype Wait = Ready(fds: seq<int>) | WaitFailed(interrupted: bool)

  /** Where main sends one event. */
  datatype Dispatch = AcceptNew | OldConnection(fd: int)

  /** The events of one wait, in order: the listening fd to the accept loop, every other fd to handleOldConnection. */
  function Route(fds: seq<int>, listenFd: int): (r: seq<Dispatch>)
    ensures |r| == |fds|
    ensures AcceptNew in r <==> listenFd in fds
  {
    if fds == [] then []
    else [if fds[0] == listenFd then AcceptNew else OldConnection(fds[0])] + Route(fds[1..], listenFd)
  }

  /** Every event is routed once, in order, and only the listening fd reaches the accept loop. */
  lemma {:induction false} RouteEach(fds: seq<int>, listenFd: int)
    ensures |Route(fds, listenFd)| == |fds|
    ensures forall i :: 0 <= i < |fds| ==>
              Route(fds, listenFd)[i] == (if fds[i] == listenFd then AcceptNew else OldConnection(fds[i]))
    decreases |fds|
  {
    if fds != [] {
      RouteEach(fds[1..], listenFd);
    }
  }

  /**
   * The `for(;;)` of main over a script of epoll_wait results: the
   * dispatches made, and whether the process aborted. EINTR is retried; any
   * other failure is FATAL, which aborts.
   */
  function ReactorRun(waits: seq<Wait>, listenFd: int): (r: (seq<Dispatch>, bool))
    // the process aborts exactly when some epoll_wait fails with an errno other than EINTR
    ensures r.1 <==> WaitFailed(false) in waits
  {
    if waits == [] then ([], false)
    else match waits[0]
      case WaitFailed(interrupted) =>
        if interrupted then ReactorRun(waits[1..], listenFd) else ([], true)
      case Ready(fds) =>
        var r := ReactorRun(waits[1..], listenFd);
        (Route(fds, listenFd) + r.0, r.1)
  }

  /** Waits without a fatal failure dispatch their events and hand over to what follows. */
  lemma {:induction false} ReactorPrefix(w1: seq<Wait>, w2: seq<Wait>, listenFd: int)
    requires forall i :: 0 <= i < |w1| ==> w1[i] != WaitFailed(false)
    ensures ReactorRun(w1 + w2, listenFd) == (ReactorRun(w1, listenFd).0 + ReactorRun(w2, listenFd).0, ReactorRun(w2, listenFd).1)
    decreases |w1|
  {
    if w1 != [] {
      assert (w1 + w2)[0] == w1[0];
      assert (w1 + w2)[1..] == w1[1..] + w2;
      ReactorPrefix(w1[1..], w2, listenFd);
      var a, b, c := ReactorRun(w1[1..], listenFd).0, ReactorRun(w2, listenFd).0, w1[0];
      if c.Ready? {
        assert Route(c.fds, listenFd) + (a + b) == (Route(c.fds, listenFd) + a) + b;
      }
    } else {
      assert w1 + w2 == w2;
      assert [] + ReactorRun(w2, listenFd).0 == ReactorRun(w2, listenFd).0;
    }
  }

  /** A failure other than EINTR aborts the process: nothing after it is dispatched. */
  lemma FatalWaitAborts(w1: seq<Wait>, rest: seq<Wait>, listenFd: int)
    requires forall i :: 0 <= i < |w1| ==> w1[i] != WaitFailed(false)
    ensures ReactorRun(w1 + [WaitFailed(false)] + rest, listenFd) == (ReactorRun(w1, listenFd).0, true)
  {
    assert w1 + [WaitFailed(false)] + rest == w1 + ([WaitFailed(false)] + rest);
    ReactorPrefix(w1, [WaitFailed(false)] + rest, listenFd);
    assert ReactorRun(w1, listenFd).0 + [] == ReactorRun(w1, listenFd).0;
  }

  /** The reactor loop: wait, retry on EINTR, abort on any other failure, dispatch every ready event. */
  method Reactor(waits: seq<Wait>, listenFd: int) returns (trace: seq<Dispatch>, aborted: bool)
    ensures (trace, aborted) == ReactorRun(waits, listenFd)
  {
    trace := [];
    var w := 0;
    assert trace + ReactorRun(waits, listenFd).0 == ReactorRun(waits, listenFd).0;
    while w < |waits|
      invariant w <= |waits|
      invariant ReactorRun(waits, listenFd) == (trace + ReactorRun(waits[w..], listenFd).0, ReactorRun(waits[w..], listenFd).1)
    {
      assert waits[w..][1..] == waits[w + 1..];
      var result := waits[w];
      w := w + 1;
      if result.WaitFailed? {
        if result.interrupted {
          continue;
        }
        assert trace + [] == trace;
        return trace, true;
      }
      ghost var before := trace;
      var fds := result.fds;
      for i := 0 to |fds|
        invariant trace == before + Route(fds[..i], listenFd)
      {
        RouteAppend(fds[..i], fds[i], listenFd);
        assert fds[..i + 1] == fds[..i] + [fds[i]];
        if fds[i] == listenFd {
          trace := trace + [AcceptNew];
        } else {
          trace := trace + [OldConnection(fds[i])];
        }
      }
      assert fds[..|fds|] == fds;
      assert trace + ReactorRun(waits[w..], listenFd).0 == before + (Route(fds, listenFd) + ReactorRun(waits[w..], listenFd).0);
    }
    assert trace + [] == trace;
    return trace, false;
  }

  /** Routing one more event appends its dispatch. */
  lemma {:induction false} RouteAppend(fds: seq<int>, fd: int, listenFd: int)
    ensures Route(fds + [fd], listenFd) == Route(fds, listenFd) + [if fd == listenFd then AcceptNew else OldConnection(fd)]
    decreases |fds|
  {
    if fds != [] {
      assert (fds + [fd])[1..] == fds[1..] + [fd];
      RouteAppend(fds[1..], fd, listenFd);
    }
  }
}
