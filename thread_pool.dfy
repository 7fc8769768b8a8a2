/**
 * The task queue of ThreadPool.cpp, as it is seen under the pool's mutex:
 * appendTask pushes behind a size check, a worker takes the front task, and
 * the destructor (optionally) empties the queue and then queues one exit
 * task per thread. Threads, the mutex and the condition variable are not
 * modelled; every operation here is one critical section.
 */
module Pool {
  import opened Text

  datatype ShutdownMode = GracefulQuit | ImmediateShutdown

  /** A queued task: a job (a function and its argument, named by `id`) or the pthread_exit task of shutdown. */
  datatype Task = Job(id: nat) | Exit

  /** size_t(-1), the default of maxQueueSize. */
  const SizeMax: nat := 0x1_0000_0000_0000_0000 - 1

  /** `n` exit tasks. */
  function Exits(n: nat): (r: seq<Task>)
    ensures |r| == n
    ensures forall i :: 0 <= i < n ==> r[i] == Exit
  {
    if n == 0 then [] else Exits(n - 1) + [Exit]
  }

  /** A queue holding only jobs, as appendTask callers build it. */
  predicate OnlyJobs(q: seq<Task>) {
    forall i :: 0 <= i < |q| ==> q[i].Job?
  }

  /** The ids of a queue of jobs, front first. */
  function Ids(q: seq<Task>): seq<nat>
    requires OnlyJobs(q)
  {
    if q == [] then [] else [q[0].id] + Ids(q[1..])
  }

  // ---------------------------------------------------------------------------
  // appendTask

  /**
   * appendTask on queue `q`: refused, queue unchanged, when the size already
   * exceeds `max`; otherwise `t` is pushed at the back.
   */
  function Admit(q: seq<Task>, max: nat, t: Task): (r: (bool, seq<Task>))
    // a refusal leaves the queue alone; an acceptance keeps every earlier task in place
    ensures r.0 <==> |q| <= max
    ensures !r.0 ==> r.1 == q
    ensures r.0 ==> |r.1| == |q| + 1 && r.1[..|q|] == q && r.1[|q|] == t
    // the check is "size > max", so a queue never holds more than max + 1 appended tasks
    ensures |q| <= max + 1 ==> |r.1| <= max + 1
  {
    if |q| > max then (false, q) else (true, q + [t])
  }

  /** Several appendTask calls in a row: each call's answer, and the final queue. */
  function AdmitAll(q: seq<Task>, max: nat, ts: seq<Task>): (r: (seq<bool>, seq<Task>))
    // one answer per call; the queue only grows at the back, by at most one task per call
    ensures |r.0| == |ts| && q <= r.1 && |r.1| <= |q| + |ts|
    decreases |ts|
  {
    if ts == [] then ([], q)
    else
      var (ok, q') := Admit(q, max, ts[0]);
      var rest := AdmitAll(q', max, ts[1..]);
      ([ok] + rest.0, rest.1)
  }

  /**
   * Once the queue is larger than the bound every further append is refused
   * and the queue stays as it is.
   */
  lemma {:induction false} AdmitAllRefused(q: seq<Task>, max: nat, ts: seq<Task>)
    requires |q| > max
    ensures AdmitAll(q, max, ts).1 == q
    ensures forall i :: 0 <= i < |AdmitAll(q, max, ts).0| ==> !AdmitAll(q, max, ts).0[i]
    ensures |AdmitAll(q, max, ts).0| == |ts|
    decreases |ts|
  {
    if ts != [] {
      AdmitAllRefused(q, max, ts[1..]);
    }
  }

  /**
   * Starting from `q`, the first max + 1 - |q| appends are accepted and all
   * later ones refused: the queue fills up to max + 1 tasks, one more than the
   * bound.
   */
  lemma {:induction false} AdmitAllFills(q: seq<Task>, max: nat, ts: seq<Task>)
    requires |q| <= max + 1
    ensures var (oks, r) := AdmitAll(q, max, ts);
            |oks| == |ts| &&
            (forall i :: 0 <= i < |ts| ==> (oks[i] <==> |q| + i <= max)) &&
            |r| == (if |q| + |ts| <= max + 1 then |q| + |ts| else max + 1) &&
            r[..|q|] == q
    decreases |ts|
  {
    if ts != [] {
      var (ok, q') := Admit(q, max, ts[0]);
      if ok {
        AdmitAllFills(q', max, ts[1..]);
        var rest := AdmitAll(q', max, ts[1..]);
        assert rest.1[..|q|] == rest.1[..|q'|][..|q|];
      } else {
        AdmitAllRefused(q', max, ts[1..]);
      }
    }
  }

  // ---------------------------------------------------------------------------
  // Worker and shutdown

  /**
   * One worker thread: takes tasks from the front and runs each job, until it
   * takes an exit task (pthread_exit) or finds the queue empty (where it would
   * wait on the condition variable). Returns the jobs it ran and the queue it
   * leaves.
   */
  function RunUntilExit(q: seq<Task>): (r: (seq<nat>, seq<Task>))
    // the worker consumes the queue from the front: what it leaves is a suffix of it
    ensures |r.0| + |r.1| <= |q| && r.1 == q[|q| - |r.1|..]
  {
    if q == [] then ([], [])
    else match q[0]
      case Exit => ([], q[1..])
      case Job(id) => var r := RunUntilExit(q[1..]); ([id] + r.0, r.1)
  }

  /** The destructor's queue: emptied under IMMEDIATE_SHUTDOWN, then one exit task per thread. */
  function ShutdownQueue(q: seq<Task>, mode: ShutdownMode, threadNum: nat): (r: seq<Task>)
    // GRACEFUL_QUIT keeps every pending task, in order, ahead of the exit tasks;
    // IMMEDIATE_SHUTDOWN leaves only the exit tasks
    ensures var kept := if mode == GracefulQuit then |q| else 0;
            |r| == kept + threadNum && r[..kept] == q[..kept] && (forall i :: kept <= i < |r| ==> r[i] == Exit)
  {
    (if mode == ImmediateShutdown then [] else q) + Exits(threadNum)
  }

  /**
   * A worker draining a queue of jobs that ends with exit tasks runs every
   * job, front first, and leaves the other exit tasks for the other threads.
   */
  lemma {:induction false} DrainThenExit(q: seq<Task>, n: nat)
    requires OnlyJobs(q) && n > 0
    ensures RunUntilExit(q + Exits(n)) == (Ids(q), Exits(n - 1))
    decreases |q|
  {
    if q == [] {
      assert q + Exits(n) == Exits(n);
      assert RunUntilExit(Exits(n)).1 == Exits(n)[1..];
      assert Exits(n)[1..] == Exits(n - 1) by {
        forall i | 0 <= i < n - 1 ensures Exits(n)[1..][i] == Exits(n - 1)[i] { }
      }
    } else {
      assert (q + Exits(n))[1..] == q[1..] + Exits(n);
      DrainThenExit(q[1..], n);
    }
  }

  /**
   * After a graceful shutdown of a pool with pending jobs, the first worker
   * to run runs all of them, in the order they were appended, before it
   * exits; after an immediate one it exits at once.
   */
  lemma ShutdownDrain(q: seq<Task>, mode: ShutdownMode, threadNum: nat)
    requires OnlyJobs(q) && threadNum > 0
    ensures RunUntilExit(ShutdownQueue(q, mode, threadNum)).0 == (if mode == GracefulQuit then Ids(q) else [])
  {
    if mode == GracefulQuit {
      DrainThenExit(q, threadNum);
    } else {
      DrainThenExit([], threadNum);
      assert ShutdownQueue(q, mode, threadNum) == [] + Exits(threadNum);
    }
  }

  class ThreadPool {
    const threadNum: nat
    const shutdownMode: ShutdownMode
    const maxQueueSize: nat
    /** task_queue_, front first. */
    var queue: seq<Task>
    /** threads_: the ids of the threads created so far. */
    var threads: seq<nat>

    /**
     * The constructor loop: creates threads until there are threadNum of them.
     * pthread_create is taken to succeed.
     */
    constructor(threadNum: nat, shutdownMode: ShutdownMode, maxQueueSize: nat)
      ensures this.threadNum == threadNum && this.shutdownMode == shutdownMode && this.maxQueueSize == maxQueueSize
      ensures queue == []
      ensures |threads| == threadNum && forall i :: 0 <= i < threadNum ==> threads[i] == i
    {
      this.threadNum := threadNum;
      this.shutdownMode := shutdownMode;
      this.maxQueueSize := maxQueueSize;
      queue := [];
      var created: seq<nat> := [];
      while |created| < threadNum
        invariant |created| <= threadNum
        invariant forall i :: 0 <= i < |created| ==> created[i] == i
      {
        created := created + [|created|];
      }
      threads := created;
    }

    /** appendTask: refuses once the queue is larger than maxQueueSize, else pushes the task at the back. */
    method AppendTask(t: Task) returns (ok: bool)
      modifies this`queue
      ensures (ok, queue) == Admit(old(queue), maxQueueSize, t)
    {
      if |queue| > maxQueueSize {
        return false;
      }
      queue := queue + [t];
      return true;
    }

    /**
     * The locked part of a worker's iteration: the front task, popped. `None`
     * where the worker would wait for a task to be appended.
     */
    method Take() returns (t: Option<Task>)
      modifies this`queue
      ensures old(queue) == [] ==> t == None && queue == []
      ensures old(queue) != [] ==> t == Some(old(queue)[0]) && queue == old(queue)[1..]
    {
      if |queue| == 0 {
        return None;
      }
      t := Some(queue[0]);
      queue := queue[1..];
    }

    /** TaskForWorkerThreads_ for one thread: take and run tasks until an exit task or an empty queue. */
    method Work() returns (ran: seq<nat>)
      modifies this`queue
      ensures (ran, queue) == RunUntilExit(old(queue))
    {
      ran := [];
      assert ran + RunUntilExit(queue).0 == RunUntilExit(queue).0;
      while true
        invariant RunUntilExit(old(queue)) == (ran + RunUntilExit(queue).0, RunUntilExit(queue).1)
        decreases |queue|
      {
        ghost var before := queue;
        var t := Take();
        if t.None? {
          assert ran + [] == ran;
          return;
        }
        match t.value
        case Exit =>
          assert ran + [] == ran;
          return;
        case Job(id) =>
          assert RunUntilExit(before).0 == [id] + RunUntilExit(queue).0;
          assert ran + RunUntilExit(before).0 == (ran + [id]) + RunUntilExit(queue).0;
          ran := ran + [id];
      }
    }

    /**
     * The destructor's critical section: IMMEDIATE_SHUTDOWN pops every task,
     * then one exit task is pushed for each thread. Joining the threads is
     * not modelled.
     */
    method Shutdown()
      modifies this`queue
      ensures queue == ShutdownQueue(old(queue), shutdownMode, threadNum)
    {
      if shutdownMode == ImmediateShutdown {
        while |queue| != 0
          decreases |queue|
        {
          queue := queue[1..];
        }
      }
      ghost var kept := queue;
      for i := 0 to threadNum
        invariant queue == kept + Exits(i)
      {
        queue := queue + [Exit];
      }
    }
  }
}
