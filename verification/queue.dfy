/** The `reviewer` package's bounded job queue, as a sequential state machine: a FIFO
    buffer of fixed capacity with non-blocking admission, the per-job
    deadline, and the in-flight count kept around each job's execution. */
module JobQueue {
  import opened Wrappers
  import opened Durations

  /** One review request: which merge request, and the triggering note. */
  datatype Job = Job(projectId: int, mrIid: int, note: string)

  datatype QueueError = ErrQueueFull

  /** The channel's buffer (oldest first) and capacity, the per-job
      timeout, and the number of jobs currently executing. */
  datatype Queue = Queue(jobs: seq<Job>, capacity: int, timeout: int, inFlight: int)

  datatype QueueStats = QueueStats(inFlight: int, queueDepth: int)

  /** What `Enqueue` leaves behind and reports. */
  datatype Admission = Admission(queue: Queue, err: Option<QueueError>)

  /** The state every reachable queue is in. */
  predicate Valid(q: Queue) {
    && 1 <= q.capacity
    && |q.jobs| <= q.capacity
    && 0 < q.timeout
    && 0 <= q.inFlight
  }

  /** The timeout used when none (or a non-positive one) is given. */
  const DefaultTimeout: int := 5 * Minute

  /** `NewQueue`: an empty queue; a non-positive buffer size becomes 1 and a
      non-positive timeout becomes five minutes. */
  function NewQueue(buffer: int, timeout: int): (q: Queue)
    ensures Valid(q) && q.jobs == [] && q.inFlight == 0
    ensures buffer > 0 ==> q.capacity == buffer
    ensures buffer <= 0 ==> q.capacity == 1
    ensures timeout > 0 ==> q.timeout == timeout
    ensures timeout <= 0 ==> q.timeout == DefaultTimeout
  {
    Queue([], if buffer <= 0 then 1 else buffer, if timeout <= 0 then DefaultTimeout else timeout, 0)
  }

  /** `Enqueue`: never waits. With room, the job joins the back; when the
      buffer is full the queue is left exactly as it was and the caller gets
      `ErrQueueFull`. */
  function Enqueue(q: Queue, job: Job): (r: Admission)
    requires Valid(q)
    ensures Valid(r.queue)
    ensures r.err.None? <==> |q.jobs| < q.capacity
    ensures r.err.None? ==> r.queue == q.(jobs := q.jobs + [job])
    ensures r.err.Some? ==> r.err.value == ErrQueueFull && r.queue == q
  {
    if |q.jobs| < q.capacity then Admission(q.(jobs := q.jobs + [job]), None)
    else Admission(q, Some(ErrQueueFull))
  }

  /** A worker's receive from the channel: the oldest job, or nothing when
      the buffer is empty (the worker would wait). */
  function Dequeue(q: Queue): (r: Option<(Job, Queue)>)
    ensures r.None? <==> |q.jobs| == 0
    ensures r.Some? ==> r.value.0 == q.jobs[0] && r.value.1 == q.(jobs := q.jobs[1..])
    ensures r.Some? && Valid(q) ==> Valid(r.value.1) && |r.value.1.jobs| == |q.jobs| - 1
  {
    if |q.jobs| == 0 then None else Some((q.jobs[0], q.(jobs := q.jobs[1..])))
  }

  /** `QueueStats`: the in-flight count and the buffer occupancy. */
  function Stats(q: Queue): (s: QueueStats)
    ensures s.queueDepth == |q.jobs| && s.inFlight == q.inFlight
    ensures Valid(q) ==> 0 <= s.queueDepth <= q.capacity && 0 <= s.inFlight
  {
    QueueStats(q.inFlight, |q.jobs|)
  }

  /** The number of workers `StartWorkers` spawns: at least one. */
  function WorkerCount(concurrency: int): (n: int)
    ensures n >= 1
    ensures concurrency > 0 ==> n == concurrency
    ensures concurrency <= 0 ==> n == 1
  {
    if concurrency <= 0 then 1 else concurrency
  }

  // ---------------------------------------------------------------------
  // One worker iteration
  // ---------------------------------------------------------------------

  /** How a job's run ended; errors are only logged. */
  datatype RunOutcome = RunOk | RunFailed(error: string)

  /** What a worker observed for one job: the job, the timeout its context
      was given, the in-flight count while it ran, and how it ended. */
  datatype JobReport = JobReport(job: Job, timeout: int, inFlightDuring: int, outcome: RunOutcome)

  /** One iteration of a worker's loop with the review as the oracle `run`.
      The oracle is given the number `n` of runs made before this one, the
      job and its timeout, so that identical jobs may end differently.
      The worker receives the oldest job, counts it in flight, runs it and
      counts it out, whatever the outcome. A failed job is neither retried
      nor put back. */
  function WorkerStep(q: Queue, run: (nat, Job, int) -> RunOutcome, n: nat): (r: Option<(JobReport, Queue)>)
    requires Valid(q)
    ensures r.None? <==> |q.jobs| == 0
    ensures r.Some? ==> var (report, q') := r.value;
      && report.job == q.jobs[0]
      && report.timeout == q.timeout
      && report.inFlightDuring == q.inFlight + 1
      && report.outcome == run(n, q.jobs[0], q.timeout)
      && q' == q.(jobs := q.jobs[1..])
      && Valid(q')
  {
    match Dequeue(q)
    case None => None
    case Some((job, q1)) =>
      var running := q1.(inFlight := q1.inFlight + 1);
      var outcome := run(n, job, running.timeout);
      var done := running.(inFlight := running.inFlight - 1);
      Some((JobReport(job, running.timeout, running.inFlight, outcome), done))
  }

  /** A single worker draining the queue: every buffered job runs once, in
      arrival order, failures included; the `i`-th run is the oracle's
      `i`-th call. Afterwards the buffer is empty and the rest of the queue,
      the in-flight count included, is as it was. */
  method Drain(q: Queue, run: (nat, Job, int) -> RunOutcome) returns (reports: seq<JobReport>, q': Queue)
    requires Valid(q)
    ensures |reports| == |q.jobs|
    ensures forall i | 0 <= i < |reports| ::
      reports[i].job == q.jobs[i] && reports[i].outcome == run(i, q.jobs[i], q.timeout)
      && reports[i].timeout == q.timeout && reports[i].inFlightDuring == q.inFlight + 1
    ensures q' == q.(jobs := []) && Valid(q')
  {
    reports := [];
    q' := q;
    while |q'.jobs| > 0
      invariant Valid(q')
      invariant |reports| + |q'.jobs| == |q.jobs|
      invariant q' == q.(jobs := q.jobs[|reports|..])
      invariant forall i | 0 <= i < |reports| ::
        reports[i].job == q.jobs[i] && reports[i].outcome == run(i, q.jobs[i], q.timeout)
        && reports[i].timeout == q.timeout && reports[i].inFlightDuring == q.inFlight + 1
      decreases |q'.jobs|
    {
      var step := WorkerStep(q', run, |reports|);
      var (report, next) := step.value;
      reports := reports + [report];
      q' := next;
    }
  }

  // ---------------------------------------------------------------------
  // Admission and order across several calls
  // ---------------------------------------------------------------------

  /** Enqueue each job in turn, collecting the answers. */
  function EnqueueAll(q: Queue, jobs: seq<Job>): (r: (Queue, seq<Option<QueueError>>))
    requires Valid(q)
    ensures Valid(r.0) && |r.1| == |jobs|
    decreases |jobs|
  {
    if |jobs| == 0 then (q, [])
    else
      var a := Enqueue(q, jobs[0]);
      var rest := EnqueueAll(a.queue, jobs[1..]);
      (rest.0, [a.err] + rest.1)
  }

  /** While there is room, every enqueue succeeds and the jobs line up
      behind those already buffered; the depth is the number buffered. */
  lemma {:induction false} EnqueueAllFits(q: Queue, jobs: seq<Job>)
    requires Valid(q) && |q.jobs| + |jobs| <= q.capacity
    ensures var (q', errs) := EnqueueAll(q, jobs);
      && q' == q.(jobs := q.jobs + jobs)
      && Stats(q').queueDepth == |q.jobs| + |jobs|
      && forall i | 0 <= i < |errs| :: errs[i].None?
    decreases |jobs|
  {
    if |jobs| > 0 {
      var a := Enqueue(q, jobs[0]);
      EnqueueAllFits(a.queue, jobs[1..]);
      assert q.jobs + [jobs[0]] + jobs[1..] == q.jobs + jobs;
    }
  }

  /** Backpressure: once `capacity` jobs are buffered the next enqueue is
      refused without effect; after one receive exactly one more fits. */
  lemma Backpressure(q: Queue, extra: Job, later: Job)
    requires Valid(q) && |q.jobs| == q.capacity
    ensures Enqueue(q, extra) == Admission(q, Some(ErrQueueFull))
    ensures var q1 := Dequeue(q).value.1;
      && Enqueue(q1, later).err.None?
      && Enqueue(Enqueue(q1, later).queue, extra).err == Some(ErrQueueFull)
  {
  }

  /** The jobs received by repeated receives until the buffer is empty. */
  function Received(q: Queue): seq<Job>
    decreases |q.jobs|
  {
    match Dequeue(q)
    case None => []
    case Some((job, q')) => [job] + Received(q')
  }

  /** Receives return the buffer's jobs oldest first. */
  lemma {:induction false} ReceivedInOrder(q: Queue)
    ensures Received(q) == q.jobs
    decreases |q.jobs|
  {
    if |q.jobs| > 0 {
      ReceivedInOrder(q.(jobs := q.jobs[1..]));
    }
  }

  /** First in, first out: jobs enqueued into an empty queue with room for
      them are received in the order they were sent. */
  lemma FifoOrder(q: Queue, jobs: seq<Job>)
    requires Valid(q) && q.jobs == [] && |jobs| <= q.capacity
    ensures Received(EnqueueAll(q, jobs).0) == jobs
  {
    EnqueueAllFits(q, jobs);
    ReceivedInOrder(EnqueueAll(q, jobs).0);
    assert [] + jobs == jobs;
  }

  /** The queue test: one job through a queue of capacity one comes out
      unchanged. */
  lemma EnqueueDequeueExample()
    ensures var job := Job(1, 2, "please review");
      var a := Enqueue(NewQueue(1, Minute), job);
      a.err.None? && Dequeue(a.queue).value.0 == job
  {
  }
}
