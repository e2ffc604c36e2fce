/**
 * The executor of internal/core/job_manager.go as interleaved steps.  Each step is
 * one read or write of shared state: a status row, `runningJobs`, the worker pool,
 * or the list a ticker works through.  Start handlers, the two tickers, pool
 * workers, cancellations and finishing transfers run side by side.
 */
module Executor {
  import opened Results

  datatype Status = Idle | Ready | Running | Completed | Errored | Cancelled

  /** `inputs` is the INPUTS_READY constraint, `local` that this peer executes the job. */
  datatype Row = Row(status: Status, startReceived: bool, inputs: bool, local: bool)

  /** How far a start handler has got. */
  datatype Progress = Loaded | Created | Decided | Marked
  datatype Handler = Handler(job: int, at: Progress)

  datatype State = State(
    jobs: map<int, Row>,
    runningJobs: set<int>,
    // worker pool: queued tasks, then the workers by how far their task has got
    queued: multiset<int>,
    working: multiset<int>,
    written: multiset<int>,
    unmarked: multiset<int>,
    // start handlers, tickers, cancellations and transfers under way
    handlers: map<nat, Handler>,
    idleList: map<int, bool>,
    queueList: set<int>,
    mark: Option<int>,
    cancelling: set<int>,
    transferred: set<int>,
    // history
    interfaces: set<int>,
    runs: multiset<int>,
    done: multiset<int>,
    completions: set<int>,
    paid: set<int>,
    settled: multiset<int>,
    refunded: multiset<int>)

  const INITIAL := State(map[], {}, multiset{}, multiset{}, multiset{}, multiset{}, map[], map[], {}, None, {}, {},
                         {}, multiset{}, multiset{}, {}, {}, multiset{}, multiset{})

  datatype Step =
    // SubmitJobWithOptions with skipInterfaces, and the payment attached afterwards
    | Submit(job: int, inputs: bool, local: bool)
    | AttachPayment(job: int)
    // HandleJobStart, in the order of its writes
    | StartLoad(handler: nat, job: int)
    | StartInterfaces(handler: nat)
    | StartDecide(handler: nat, ready: bool)
    | StartMark(handler: nat)
    | StartFinish(handler: nat, ready: bool)
    // checkIdleJobsForReadiness
    | IdleTick
    | IdleVisit(job: int, ready: bool)
    // processJobQueue
    | QueueTick
    | QueueVisit(job: int, ready: bool)
    | QueueMark
    // executeJob
    | Begin(job: int)
    | Finish(job: int, success: bool)
    | DeferUnmark(job: int)
    | DeferPayment(job: int)
    // CancelJob
    | CancelWrite(job: int)
    | CancelUnmark(job: int)
    // FinalizeTransfer of the data worker
    | TransferSees(job: int)
    | TransferWrites(job: int)

  function More(m: multiset<int>, j: int): multiset<int> {
    m[j := m[j] + 1]
  }

  function Less(m: multiset<int>, j: int): multiset<int>
    requires m[j] > 0
  {
    m[j := m[j] - 1]
  }

  /** The UPDATE of one status column; no row, no change. */
  function Rewritten(jobs: map<int, Row>, j: int, status: Status): map<int, Row> {
    if j in jobs then jobs[j := jobs[j].(status := status)] else jobs
  }

  function WithStatus(s: State, j: int, status: Status): State {
    s.(jobs := Rewritten(s.jobs, j, status))
  }

  /** The guard of processJobQueue for submitting job `j` of its list; `ready` says that
      the inputs it may need are there and that the pool accepts it. */
  predicate Submits(s: State, j: int, ready: bool) {
    j in s.jobs && s.jobs[j].local && j !in s.runningJobs && ready
  }

  /** The guard of checkIdleJobsForReadiness for job `j` of its list. */
  predicate Releases(s: State, j: int, ready: bool) {
    j in s.idleList && s.idleList[j] && j in s.jobs && (s.jobs[j].inputs ==> s.jobs[j].local) && ready
  }

  /** The deferred block of executeJob settles a payment it finds with a COMPLETED row. */
  predicate Settles(paid: set<int>, jobs: map<int, Row>, j: int) {
    j in paid && j in jobs && jobs[j].status == Completed
  }

  /** It refunds one it finds with an ERRORED or CANCELLED row. */
  predicate Refunds(paid: set<int>, jobs: map<int, Row>, j: int) {
    j in paid && j in jobs && (jobs[j].status == Errored || jobs[j].status == Cancelled)
  }

  predicate Enabled(s: State, step: Step) {
    match step
    case Submit(j, _, _) => j !in s.jobs
    case AttachPayment(j) => j in s.jobs
    case StartLoad(h, j) => h !in s.handlers && j in s.jobs
    case StartInterfaces(h) => h in s.handlers && s.handlers[h].at == Loaded
    case StartDecide(h, ready) =>
      h in s.handlers && s.handlers[h].at == Created && s.handlers[h].job in s.jobs
      && (s.jobs[s.handlers[h].job].inputs && !s.jobs[s.handlers[h].job].local ==> ready)
    case StartMark(h) => h in s.handlers && s.handlers[h].at == Decided && s.handlers[h].job in s.jobs
    case StartFinish(h, ready) =>
      h in s.handlers && s.handlers[h].at == Marked && s.handlers[h].job in s.jobs
      && (!s.jobs[s.handlers[h].job].inputs ==> ready)
    case IdleTick => s.idleList == map[]
    case IdleVisit(j, _) => j in s.idleList
    case QueueTick => s.queueList == {} && s.mark == None
    case QueueVisit(j, _) => j in s.queueList && s.mark == None
    case QueueMark => s.mark.Some?
    case Begin(j) => s.queued[j] > 0
    case Finish(j, _) => s.working[j] > 0
    case DeferUnmark(j) => s.written[j] > 0
    case DeferPayment(j) => s.unmarked[j] > 0
    case CancelWrite(_) => true
    case CancelUnmark(j) => j in s.cancelling
    case TransferSees(j) => j in s.jobs && s.jobs[j].status == Running
    case TransferWrites(j) => j in s.transferred
  }

  function Apply(s: State, step: Step): State
    requires Enabled(s, step)
  {
    match step
    case Submit(j, inputs, local) => s.(jobs := s.jobs[j := Row(Idle, false, inputs, local)])
    case AttachPayment(j) => s.(paid := s.paid + {j})
    case StartLoad(h, j) => s.(handlers := s.handlers[h := Handler(j, Loaded)])
    case StartInterfaces(h) =>
      s.(handlers := s.handlers[h := s.handlers[h].(at := Created)], interfaces := s.interfaces + {s.handlers[h].job})
    case StartDecide(h, ready) =>
      var j := s.handlers[h].job;
      (if ready then WithStatus(s, j, Ready) else s).(handlers := s.handlers[h := s.handlers[h].(at := Decided)])
    case StartMark(h) =>
      var j := s.handlers[h].job;
      s.(jobs := s.jobs[j := s.jobs[j].(startReceived := true)],
         handlers := s.handlers[h := s.handlers[h].(at := Marked)])
    case StartFinish(h, ready) =>
      WithStatus(s, s.handlers[h].job, if ready then Ready else Idle).(handlers := s.handlers - {h})
    case IdleTick =>
      s.(idleList := map j | j in s.jobs && s.jobs[j].status == Idle :: s.jobs[j].startReceived)
    case IdleVisit(j, ready) =>
      (if Releases(s, j, ready) then WithStatus(s, j, Ready) else s).(idleList := s.idleList - {j})
    case QueueTick =>
      s.(queueList := set j | j in s.jobs && s.jobs[j].status == Ready)
    case QueueVisit(j, ready) =>
      var t := s.(queueList := s.queueList - {j});
      if Submits(s, j, ready) then t.(queued := More(s.queued, j), mark := Some(j)) else t
    case QueueMark => s.(runningJobs := s.runningJobs + {s.mark.value}, mark := None)
    case Begin(j) =>
      WithStatus(s, j, Running)
        .(queued := Less(s.queued, j), working := More(s.working, j), runs := More(s.runs, j))
    case Finish(j, success) =>
      WithStatus(s, j, if success then Completed else Errored)
        .(working := Less(s.working, j), written := More(s.written, j),
          completions := if success then s.completions + {j} else s.completions)
    case DeferUnmark(j) =>
      s.(runningJobs := s.runningJobs - {j}, written := Less(s.written, j), unmarked := More(s.unmarked, j))
    case DeferPayment(j) =>
      s.(unmarked := Less(s.unmarked, j), done := More(s.done, j),
         settled := if Settles(s.paid, s.jobs, j) then More(s.settled, j) else s.settled,
         refunded := if Refunds(s.paid, s.jobs, j) then More(s.refunded, j) else s.refunded)
    case CancelWrite(j) => WithStatus(s, j, Cancelled).(cancelling := s.cancelling + {j})
    case CancelUnmark(j) => s.(runningJobs := s.runningJobs - {j}, cancelling := s.cancelling - {j})
    case TransferSees(j) => s.(transferred := s.transferred + {j})
    case TransferWrites(j) =>
      WithStatus(s, j, Completed).(transferred := s.transferred - {j}, completions := s.completions + {j})
  }

  ghost predicate ValidRun(s: State, steps: seq<Step>)
    decreases |steps|
  {
    steps == [] || (Enabled(s, steps[0]) && ValidRun(Apply(s, steps[0]), steps[1..]))
  }

  ghost function Run(s: State, steps: seq<Step>): State
    requires ValidRun(s, steps)
    decreases |steps|
  {
    if steps == [] then s else Run(Apply(s, steps[0]), steps[1..])
  }

  // ------------------------------------------------------------------
  // Dispatch safety
  // ------------------------------------------------------------------

  /** The job is past IDLE, or somewhere on its way through the pool. */
  predicate Dispatched(s: State, j: int) {
    || (j in s.jobs && s.jobs[j].status in {Ready, Running, Completed, Errored})
    || j in s.queueList || s.mark == Some(j) || j in s.transferred
    || s.queued[j] > 0 || s.working[j] > 0 || s.written[j] > 0 || s.unmarked[j] > 0 || s.runs[j] > 0
  }

  /** Whoever may still release the job knows that its interfaces exist. */
  predicate MayRelease(s: State, j: int) {
    || (j in s.jobs && s.jobs[j].startReceived)
    || (j in s.idleList && s.idleList[j])
  }

  predicate SafeFor(s: State, j: int) {
    Dispatched(s, j) || MayRelease(s, j) ==> j in s.interfaces
  }

  predicate HandlerSafe(s: State, h: nat) {
    h in s.handlers && s.handlers[h].at != Loaded ==> s.handlers[h].job in s.interfaces
  }

  ghost predicate DispatchSafe(s: State) {
    (forall j :: SafeFor(s, j)) && (forall h :: HandlerSafe(s, h))
  }

  predicate OfHandler(step: Step) {
    step.StartLoad? || step.StartInterfaces? || step.StartDecide? || step.StartMark? || step.StartFinish?
  }

  predicate OfTicker(step: Step) {
    step.IdleTick? || step.IdleVisit? || step.QueueTick? || step.QueueVisit? || step.QueueMark?
  }

  predicate OfWorker(step: Step) {
    step.Begin? || step.Finish? || step.DeferUnmark? || step.DeferPayment?
  }

  lemma HandlerStepSafe(s: State, step: Step, j: int)
    requires SafeFor(s, j) && Enabled(s, step) && OfHandler(step) && HandlerSafe(s, step.handler)
    ensures SafeFor(Apply(s, step), j)
  {
  }

  lemma TickerStepSafe(s: State, step: Step, j: int)
    requires SafeFor(s, j) && Enabled(s, step) && OfTicker(step)
    ensures SafeFor(Apply(s, step), j)
  {
  }

  lemma WorkerStepSafe(s: State, step: Step, j: int)
    requires SafeFor(s, j) && Enabled(s, step) && OfWorker(step)
    ensures SafeFor(Apply(s, step), j)
  {
  }

  lemma OtherStepSafe(s: State, step: Step, j: int)
    requires SafeFor(s, j) && Enabled(s, step) && !OfHandler(step) && !OfTicker(step) && !OfWorker(step)
    ensures SafeFor(Apply(s, step), j)
  {
  }

  lemma HandlersStaySafe(s: State, step: Step, h: nat)
    requires Enabled(s, step) && HandlerSafe(s, h)
    ensures HandlerSafe(Apply(s, step), h)
  {
    assert s.interfaces <= Apply(s, step).interfaces;
  }

  lemma StepDispatchSafe(s: State, step: Step)
    requires DispatchSafe(s) && Enabled(s, step)
    ensures DispatchSafe(Apply(s, step))
  {
    hide SafeFor, HandlerSafe, Apply, Enabled;
    forall j: int
      ensures SafeFor(Apply(s, step), j)
    {
      assert SafeFor(s, j);
      if OfHandler(step) {
        assert HandlerSafe(s, step.handler);
        HandlerStepSafe(s, step, j);
      } else if OfTicker(step) {
        TickerStepSafe(s, step, j);
      } else if OfWorker(step) {
        WorkerStepSafe(s, step, j);
      } else {
        OtherStepSafe(s, step, j);
      }
    }
    forall h: nat
      ensures HandlerSafe(Apply(s, step), h)
    {
      assert HandlerSafe(s, h);
      HandlersStaySafe(s, step, h);
    }
  }

  /** A job is dispatched only after the interface pass for it has finished, in every
      run, however handlers, tickers, cancellations and workers interleave. */
  lemma {:induction false} DispatchSafety(s: State, steps: seq<Step>)
    requires DispatchSafe(s) && ValidRun(s, steps)
    ensures DispatchSafe(Run(s, steps))
    decreases |steps|
  {
    hide DispatchSafe;
    if steps != [] {
      StepDispatchSafe(s, steps[0]);
      DispatchSafety(Apply(s, steps[0]), steps[1..]);
    }
  }

  /** The same from the empty executor, said of one job. */
  lemma DispatchedHasInterfaces(steps: seq<Step>, j: int)
    requires ValidRun(INITIAL, steps) && Dispatched(Run(INITIAL, steps), j)
    ensures j in Run(INITIAL, steps).interfaces
  {
    assert DispatchSafe(INITIAL);
    DispatchSafety(INITIAL, steps);
    assert SafeFor(Run(INITIAL, steps), j);
  }

  // ------------------------------------------------------------------
  // At most one execution, at most one settlement
  // ------------------------------------------------------------------

  /** The job has been handed to the worker pool at some time. */
  predicate Submitted(s: State, j: int) {
    s.queued[j] + s.runs[j] > 0
  }

  /**
   * A step that acts on what it read earlier finds nothing changed that matters: a start
   * handler writes the status of a job not yet handed to the pool, the idle ticker
   * releases a row that is still IDLE or was never handed to the pool, the queue ticker
   * submits a row that is still READY, and a cancellation does not unmark a READY job
   * that the pool has.  This is sufficient for one execution, not necessary.
   */
  predicate RaceFree(s: State, step: Step)
    requires Enabled(s, step)
  {
    match step
    case StartDecide(h, ready) => ready ==> !Submitted(s, s.handlers[h].job)
    case StartFinish(h, _) => !Submitted(s, s.handlers[h].job)
    case IdleVisit(j, ready) => Releases(s, j, ready) ==> s.jobs[j].status == Idle || !Submitted(s, j)
    case QueueVisit(j, ready) => Submits(s, j, ready) ==> s.jobs[j].status == Ready
    case CancelUnmark(j) => j in s.jobs && s.jobs[j].status == Ready ==> !Submitted(s, j)
    case _ => true
  }

  predicate OnceFor(s: State, j: int) {
    && s.queued[j] + s.runs[j] <= 1
    && s.runs[j] == s.working[j] + s.written[j] + s.unmarked[j] + s.done[j]
    && s.settled[j] + s.refunded[j] <= s.done[j]
    && (s.settled[j] > 0 ==> j in s.completions)
    && (s.mark == Some(j) ==> Submitted(s, j))
    && (j in s.transferred ==> s.runs[j] > 0)
    && (j in s.jobs ==>
          var status := s.jobs[j].status;
          && (status == Completed ==> j in s.completions)
          && (status in {Running, Completed, Errored} ==> s.runs[j] > 0))
    && (Submitted(s, j) ==>
          && j in s.jobs && s.jobs[j].status != Idle
          && (s.jobs[j].status == Ready ==> s.queued[j] == 1 && (j in s.runningJobs || s.mark == Some(j))))
  }

  ghost predicate OnceEach(s: State) {
    forall j :: OnceFor(s, j)
  }

  lemma HandlerStepOnce(s: State, step: Step, j: int)
    requires OnceFor(s, j) && Enabled(s, step) && RaceFree(s, step) && OfHandler(step)
    ensures OnceFor(Apply(s, step), j)
  {
  }

  lemma TickerStepOnce(s: State, step: Step, j: int)
    requires OnceFor(s, j) && Enabled(s, step) && RaceFree(s, step) && OfTicker(step)
    ensures OnceFor(Apply(s, step), j)
  {
  }

  lemma BeginFinishOnce(s: State, step: Step, j: int)
    requires OnceFor(s, j) && Enabled(s, step) && (step.Begin? || step.Finish?)
    ensures OnceFor(Apply(s, step), j)
  {
  }

  lemma UnmarkOnce(s: State, k: int, j: int)
    requires OnceFor(s, j) && s.written[k] > 0
    ensures OnceFor(Apply(s, DeferUnmark(k)), j)
  {
  }

  lemma PaymentOnce(s: State, k: int, j: int)
    requires OnceFor(s, j) && s.unmarked[k] > 0
    ensures OnceFor(Apply(s, DeferPayment(k)), j)
  {
    var t := Apply(s, DeferPayment(k));
    if k != j {
      assert t.unmarked[j] == s.unmarked[j] && t.done[j] == s.done[j];
      assert t.settled[j] == s.settled[j] && t.refunded[j] == s.refunded[j];
    } else {
      assert t.unmarked[j] == s.unmarked[j] - 1 && t.done[j] == s.done[j] + 1;
      assert t.settled[j] + t.refunded[j] <= s.settled[j] + s.refunded[j] + 1;
    }
  }

  lemma DeferOnce(s: State, step: Step, j: int)
    requires OnceFor(s, j) && Enabled(s, step) && (step.DeferUnmark? || step.DeferPayment?)
    ensures OnceFor(Apply(s, step), j)
  {
    if step.DeferUnmark? {
      UnmarkOnce(s, step.job, j);
    } else {
      PaymentOnce(s, step.job, j);
    }
  }

  lemma OtherStepOnce(s: State, step: Step, j: int)
    requires OnceFor(s, j) && Enabled(s, step) && RaceFree(s, step)
    requires !OfHandler(step) && !OfTicker(step) && !OfWorker(step)
    ensures OnceFor(Apply(s, step), j)
  {
  }

  lemma StepOnceEach(s: State, step: Step)
    requires OnceEach(s) && Enabled(s, step) && RaceFree(s, step)
    ensures OnceEach(Apply(s, step))
  {
    hide OnceFor, Apply, Enabled, RaceFree;
    forall j: int
      ensures OnceFor(Apply(s, step), j)
    {
      assert OnceFor(s, j);
      if OfHandler(step) {
        HandlerStepOnce(s, step, j);
      } else if OfTicker(step) {
        TickerStepOnce(s, step, j);
      } else if OfWorker(step) {
        if step.Begin? || step.Finish? {
          BeginFinishOnce(s, step, j);
        } else {
          DeferOnce(s, step, j);
        }
      } else {
        OtherStepOnce(s, step, j);
      }
    }
  }

  ghost predicate RaceFreeRun(s: State, steps: seq<Step>)
    requires ValidRun(s, steps)
    decreases |steps|
  {
    steps == [] || (RaceFree(s, steps[0]) && RaceFreeRun(Apply(s, steps[0]), steps[1..]))
  }

  lemma {:induction false} RunOnceEach(s: State, steps: seq<Step>)
    requires OnceEach(s) && ValidRun(s, steps) && RaceFreeRun(s, steps)
    ensures OnceEach(Run(s, steps))
    decreases |steps|
  {
    hide OnceEach;
    if steps != [] {
      StepOnceEach(s, steps[0]);
      RunOnceEach(Apply(s, steps[0]), steps[1..]);
    }
  }

  lemma InitiallyOnceEach()
    ensures OnceEach(INITIAL)
  {
  }

  /**
   * In every run free of those races a job's service is executed at most once, its
   * payment is settled or refunded at most once, and settled only if COMPLETED was
   * written for it; cancellations at any time and a pool that is faster than the
   * marking of `runningJobs` are included.
   */
  lemma AtMostOnce(steps: seq<Step>, j: int)
    requires ValidRun(INITIAL, steps) && RaceFreeRun(INITIAL, steps)
    ensures var s := Run(INITIAL, steps);
            && s.runs[j] <= 1
            && s.settled[j] + s.refunded[j] <= 1
            && (s.settled[j] > 0 ==> j in s.completions && s.refunded[j] == 0)
            && (j in s.jobs && s.runs[j] == 1 ==> s.jobs[j].status !in {Idle, Ready})
  {
    InitiallyOnceEach();
    RunOnceEach(INITIAL, steps);
    assert OnceFor(Run(INITIAL, steps), j);
  }

  // ------------------------------------------------------------------
  // Which payment outcome
  // ------------------------------------------------------------------

  /** The state in which the last deferred payment step of the job found the tables. */
  ghost function Deferral(s: State, steps: seq<Step>, j: int): Option<State>
    requires ValidRun(s, steps)
    decreases |steps|
  {
    if steps == [] then None
    else
      var later := Deferral(Apply(s, steps[0]), steps[1..], j);
      if later.Some? then later else if steps[0] == DeferPayment(j) then Some(s) else None
  }

  /** How often the job's deferred payment step is taken. */
  ghost function Deferrals(steps: seq<Step>, j: int): nat
    decreases |steps|
  {
    if steps == [] then 0 else (if steps[0] == DeferPayment(j) then 1 else 0) + Deferrals(steps[1..], j)
  }

  /** Only the deferred payment step pays, by the row it finds. */
  lemma StepPays(s: State, step: Step, j: int)
    requires Enabled(s, step)
    ensures var t := Apply(s, step);
            var found := j in s.paid && j in s.jobs;
            && t.done[j] == s.done[j] + (if step == DeferPayment(j) then 1 else 0)
            && t.settled[j] == s.settled[j]
               + (if step == DeferPayment(j) && found && s.jobs[j].status == Completed then 1 else 0)
            && t.refunded[j] == s.refunded[j]
               + (if step == DeferPayment(j) && found && (s.jobs[j].status == Errored || s.jobs[j].status == Cancelled)
                  then 1 else 0)
  {
  }

  lemma {:induction false} RunPays(s: State, steps: seq<Step>, j: int)
    requires ValidRun(s, steps)
    ensures var t, d := Run(s, steps), Deferral(s, steps, j);
            && t.done[j] == s.done[j] + Deferrals(steps, j)
            && (d.Some? <==> Deferrals(steps, j) > 0)
            && (Deferrals(steps, j) == 0 ==> t.settled[j] == s.settled[j] && t.refunded[j] == s.refunded[j])
            && (Deferrals(steps, j) == 1 ==>
                  var found := j in d.value.paid && j in d.value.jobs;
                  && t.settled[j] == s.settled[j] + (if found && d.value.jobs[j].status == Completed then 1 else 0)
                  && t.refunded[j] == s.refunded[j]
                     + (if found && (d.value.jobs[j].status == Errored || d.value.jobs[j].status == Cancelled)
                        then 1 else 0))
    decreases |steps|
  {
    hide Apply, Enabled;
    if steps != [] {
      StepPays(s, steps[0], j);
      RunPays(Apply(s, steps[0]), steps[1..], j);
    }
  }

  /**
   * Which outcome: in every run free of races, once a job is done it has been settled
   * exactly if its deferred block found it paid with a COMPLETED row, and refunded exactly
   * if it found it paid with an ERRORED or CANCELLED one; never both, and never twice.
   */
  lemma PaymentOutcome(steps: seq<Step>, j: int)
    requires ValidRun(INITIAL, steps) && RaceFreeRun(INITIAL, steps)
    ensures var t, d := Run(INITIAL, steps), Deferral(INITIAL, steps, j);
            && (t.done[j] == 1 <==> d.Some?)
            && (d.None? ==> t.settled[j] == t.refunded[j] == 0)
            && (d.Some? ==>
                  var found := j in d.value.paid && j in d.value.jobs;
                  var failed := found && (d.value.jobs[j].status == Errored || d.value.jobs[j].status == Cancelled);
                  && t.settled[j] == (if found && d.value.jobs[j].status == Completed then 1 else 0)
                  && t.refunded[j] == (if failed then 1 else 0))
  {
    hide Apply, Enabled, RaceFree;
    InitiallyOnceEach();
    RunOnceEach(INITIAL, steps);
    RunPays(INITIAL, steps, j);
    assert OnceFor(Run(INITIAL, steps), j);
  }

  // ------------------------------------------------------------------
  // Runs built step by step
  // ------------------------------------------------------------------

  /** `t` is reached from `s` without a race. */
  ghost predicate Reaches(s: State, t: State) {
    exists steps :: ValidRun(s, steps) && RaceFreeRun(s, steps) && Run(s, steps) == t
  }

  lemma {:induction false} RunAppend(s: State, steps: seq<Step>, x: Step)
    requires ValidRun(s, steps) && Enabled(Run(s, steps), x)
    ensures ValidRun(s, steps + [x]) && Run(s, steps + [x]) == Apply(Run(s, steps), x)
    ensures RaceFreeRun(s, steps) && RaceFree(Run(s, steps), x) ==> RaceFreeRun(s, steps + [x])
    decreases |steps|
  {
    hide Enabled, Apply, RaceFree;
    if steps == [] {
      assert (steps + [x])[1..] == [];
    } else {
      RunAppend(Apply(s, steps[0]), steps[1..], x);
      assert (steps + [x])[1..] == steps[1..] + [x];
    }
  }

  lemma Stay(s: State)
    ensures Reaches(s, s)
  {
    assert ValidRun(s, []) && RaceFreeRun(s, []) && Run(s, []) == s;
  }

  lemma Go(s: State, t: State, x: Step) returns (u: State)
    requires Reaches(s, t) && Enabled(t, x) && RaceFree(t, x)
    ensures u == Apply(t, x) && Reaches(s, u)
  {
    var steps :| ValidRun(s, steps) && RaceFreeRun(s, steps) && Run(s, steps) == t;
    RunAppend(s, steps, x);
    u := Apply(t, x);
  }

  /** What may be said at most once holds wherever a race-free run leads. */
  lemma ReachedOnceEach(s: State)
    requires Reaches(INITIAL, s)
    ensures OnceEach(s)
  {
    hide OnceFor, Apply, Enabled, RaceFree;
    var steps :| ValidRun(INITIAL, steps) && RaceFreeRun(INITIAL, steps) && Run(INITIAL, steps) == s;
    InitiallyOnceEach();
    RunOnceEach(INITIAL, steps);
  }
}
