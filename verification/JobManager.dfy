/**
 * The job manager as an object whose handlers and ticks are atomic.  Every method is
 * proved to be a run of the interleaved `Executor`, free of races as long as each job
 * is started once, so both theorems about runs hold of the object at all times.
 */
module JobManagers {
  import opened Results
  import opened Executor

  /** One more step of a run that need not be free of races. */
  lemma Take(m: State, x: Step) returns (u: State)
    requires DispatchSafe(m) && Enabled(m, x)
    ensures u == Apply(m, x) && DispatchSafe(u)
    ensures Reaches(INITIAL, m) && RaceFree(m, x) ==> Reaches(INITIAL, u)
  {
    hide DispatchSafe, Reaches;
    StepDispatchSafe(m, x);
    u := Apply(m, x);
    if Reaches(INITIAL, m) && RaceFree(m, x) {
      var v := Go(INITIAL, m, x);
    }
  }

  /** A job without interfaces has never been handed to the pool. */
  lemma NeverSubmitted(m: State, j: int)
    requires DispatchSafe(m) && j !in m.interfaces
    ensures !Submitted(m, j)
  {
    assert SafeFor(m, j);
  }

  /** The status HandleJobStart leaves behind. */
  function StartStatus(row: Row, checked: bool): Status {
    if row.inputs && !checked then Idle else Ready
  }

  lemma StartCreates(m: State, j: int, created: bool) returns (u: State)
    requires DispatchSafe(m) && m.handlers == map[] && j in m.jobs
    requires m.jobs[j].inputs && !m.jobs[j].local ==> created
    ensures DispatchSafe(u)
    ensures Reaches(INITIAL, m) && j !in m.interfaces ==> Reaches(INITIAL, u)
    ensures u == (if created then WithStatus(m, j, Ready) else m).(
                   handlers := map[0 := Handler(j, Decided)], interfaces := m.interfaces + {j})
  {
    hide DispatchSafe, Reaches;
    if j !in m.interfaces {
      NeverSubmitted(m, j);
    }
    u := Take(m, StartLoad(0, j));
    u := Take(u, StartInterfaces(0));
    u := Take(u, StartDecide(0, created));
  }

  lemma StartReleases(m: State, j: int, checked: bool) returns (u: State)
    requires DispatchSafe(m) && m.handlers == map[0 := Handler(j, Decided)] && j in m.jobs
    ensures DispatchSafe(u)
    ensures Reaches(INITIAL, m) && !Submitted(m, j) ==> Reaches(INITIAL, u)
    ensures u == m.(jobs := Started(m.jobs, j, checked),
                    handlers := map[])
  {
    hide DispatchSafe, Reaches;
    u := Take(m, StartMark(0));
    u := Take(u, StartFinish(0, StartStatus(m.jobs[j], checked) == Ready));
    assert u.handlers == map[];
  }

  /** A whole start handler. */
  lemma Starts(m: State, j: int, created: bool, checked: bool) returns (u: State)
    requires DispatchSafe(m) && m.handlers == map[] && j in m.jobs
    requires m.jobs[j].inputs && !m.jobs[j].local ==> created
    ensures DispatchSafe(u)
    ensures Reaches(INITIAL, m) && j !in m.interfaces ==> Reaches(INITIAL, u)
    ensures u == m.(jobs := Started(m.jobs, j, checked),
                    interfaces := m.interfaces + {j})
  {
    hide DispatchSafe, Reaches;
    if j !in m.interfaces {
      NeverSubmitted(m, j);
    }
    u := StartCreates(m, j, created);
    u := StartReleases(u, j, checked);
  }

  /** The idle ticker reads its list. */
  lemma Lists(m: State) returns (u: State)
    requires DispatchSafe(m) && m.idleList == map[]
    ensures DispatchSafe(u) && (Reaches(INITIAL, m) ==> Reaches(INITIAL, u))
    ensures u == m.(idleList := u.idleList)
    ensures u.idleList.Keys == set j | j in m.jobs && m.jobs[j].status == Idle
    ensures forall j :: j in u.idleList ==> u.idleList[j] == m.jobs[j].startReceived
  {
    hide DispatchSafe, Reaches;
    u := Take(m, IdleTick);
  }

  /** One job of the idle ticker's list. */
  lemma Visits(m: State, j: int, ready: bool) returns (u: State)
    requires DispatchSafe(m) && j in m.idleList && j in m.jobs && m.jobs[j].status == Idle
    requires m.idleList[j] == m.jobs[j].startReceived
    ensures DispatchSafe(u) && (Reaches(INITIAL, m) ==> Reaches(INITIAL, u))
    ensures u == m.(jobs := if Wakes(m.jobs[j], ready) then Rewritten(m.jobs, j, Ready) else m.jobs,
                    idleList := m.idleList - {j})
  {
    hide DispatchSafe, Reaches;
    u := Take(m, IdleVisit(j, ready));
  }

  /** The queue ticker reads its list. */
  lemma ListsReady(m: State) returns (u: State)
    requires DispatchSafe(m) && m.queueList == {} && m.mark == None
    ensures DispatchSafe(u) && (Reaches(INITIAL, m) ==> Reaches(INITIAL, u))
    ensures u == m.(queueList := set j | j in m.jobs && m.jobs[j].status == Ready)
  {
    hide DispatchSafe, Reaches;
    u := Take(m, QueueTick);
  }

  /** One job of the queue ticker's list. */
  lemma Queues(m: State, j: int, ready: bool) returns (u: State)
    requires DispatchSafe(m) && j in m.queueList && m.mark == None && j in m.jobs && m.jobs[j].status == Ready
    ensures DispatchSafe(u) && (Reaches(INITIAL, m) ==> Reaches(INITIAL, u))
    ensures u == if Submits(m, j, ready)
      then m.(queueList := m.queueList - {j}, queued := More(m.queued, j), runningJobs := m.runningJobs + {j})
      else m.(queueList := m.queueList - {j})
  {
    hide DispatchSafe, Reaches;
    u := Take(m, QueueVisit(j, ready));
    if Submits(m, j, ready) {
      u := Take(u, QueueMark);
    }
  }

  lemma OneMore(m: multiset<int>, j: int)
    ensures More(m, j) == m[j := m[j] + 1]
  {
  }

  /** The deferred block of a finished task. */
  lemma Defers(m: State, j: int) returns (u: State)
    requires DispatchSafe(m) && m.written[j] > 0 && m.unmarked == multiset{}
    ensures DispatchSafe(u) && (Reaches(INITIAL, m) ==> Reaches(INITIAL, u))
    ensures u == m.(runningJobs := m.runningJobs - {j}, written := Less(m.written, j), done := More(m.done, j),
                    settled := if Settles(m.paid, m.jobs, j) then More(m.settled, j) else m.settled,
                    refunded := if Refunds(m.paid, m.jobs, j) then More(m.refunded, j) else m.refunded)
  {
    hide DispatchSafe, Reaches, Settles, Refunds;
    u := Take(m, DeferUnmark(j));
    u := Take(u, DeferPayment(j));
    assert u.unmarked == multiset{};
  }

  /** The jobs one pass of processJobQueue hands to the pool. */
  ghost function Queueable(jobs: map<int, Row>, runningJobs: set<int>, ready: set<int>): set<int> {
    set j | j in jobs && jobs[j].status == Ready && jobs[j].local && j !in runningJobs && j in ready
  }

  lemma QueueableRows(jobs: map<int, Row>, runningJobs: set<int>, ready: set<int>)
    ensures forall j :: j in Queueable(jobs, runningJobs, ready) <==>
              j in jobs && jobs[j].status == Ready && jobs[j].local && j !in runningJobs && j in ready
  {
  }

  /** Half way through that pass, which began with `wasRunning` and `wasQueued`. */
  ghost predicate Queueing(jobs: map<int, Row>, ready: set<int>, wasRunning: set<int>, wasQueued: multiset<int>,
                           running: set<int>, queued: multiset<int>, pending: set<int>) {
    var q := Queueable(jobs, wasRunning, ready);
    && (forall j :: j in pending ==> j in jobs && jobs[j].status == Ready)
    && (forall j :: j in running <==> j in wasRunning || (j in q && j !in pending))
    && (forall j :: queued[j] == wasQueued[j] + (if j in q && j !in pending then 1 else 0))
  }

  lemma QueuesNext(jobs: map<int, Row>, ready: set<int>, wasRunning: set<int>, wasQueued: multiset<int>,
                   running: set<int>, queued: multiset<int>, pending: set<int>, j: int)
    requires Queueing(jobs, ready, wasRunning, wasQueued, running, queued, pending) && j in pending
    ensures j in jobs && jobs[j].status == Ready
    ensures if jobs[j].local && j !in running && j in ready
            then Queueing(jobs, ready, wasRunning, wasQueued, running + {j}, More(queued, j), pending - {j})
            else Queueing(jobs, ready, wasRunning, wasQueued, running, queued, pending - {j})
  {
  }

  lemma QueuesAll(jobs: map<int, Row>, ready: set<int>, wasRunning: set<int>, wasQueued: multiset<int>,
                  running: set<int>, queued: multiset<int>)
    requires Queueing(jobs, ready, wasRunning, wasQueued, running, queued, {})
    ensures var q := Queueable(jobs, wasRunning, ready);
            running == wasRunning + q && forall j :: queued[j] == wasQueued[j] + (if j in q then 1 else 0)
  {
    hide Queueable;
    var q := Queueable(jobs, wasRunning, ready);
    forall j: int
      ensures j in running <==> j in wasRunning + q
    {
      assert j !in {};
    }
    assert running == wasRunning + q;
  }

  /** checkIdleJobsForReadiness releases an IDLE row; `ready` if its checks succeed. */
  predicate Wakes(row: Row, ready: bool) {
    row.startReceived && (row.inputs ==> row.local) && ready
  }

  /** The table after one pass of checkIdleJobsForReadiness. */
  ghost function Woken(jobs: map<int, Row>, ready: set<int>): map<int, Row> {
    map j | j in jobs ::
      if jobs[j].status == Idle && Wakes(jobs[j], j in ready) then jobs[j].(status := Ready) else jobs[j]
  }

  /** The table after a start handler has finished with job `j`. */
  function Started(jobs: map<int, Row>, j: int, checked: bool): map<int, Row>
    requires j in jobs
  {
    jobs[j := jobs[j].(startReceived := true, status := StartStatus(jobs[j], checked))]
  }

  /** The same row by row. */
  lemma WokenRows(jobs: map<int, Row>, ready: set<int>)
    ensures Woken(jobs, ready).Keys == jobs.Keys
    ensures forall j :: j in jobs ==>
              var row := jobs[j];
              Woken(jobs, ready)[j] ==
                if row.status == Idle && row.startReceived && (row.inputs ==> row.local) && j in ready
                then Row(Ready, true, row.inputs, row.local) else row
  {
  }

  /** Half way through that pass: `pending` is still to be visited. */
  ghost predicate Waking(was: map<int, Row>, jobs: map<int, Row>, list: map<int, bool>, pending: set<int>,
                         ready: set<int>) {
    && list.Keys == pending && pending <= jobs.Keys && jobs.Keys == was.Keys
    && (forall j :: j in pending ==> list[j] == jobs[j].startReceived && jobs[j].status == Idle)
    && (forall j :: j in jobs ==> jobs[j] == if j in pending then was[j] else Woken(was, ready)[j])
  }

  lemma WakesNext(was: map<int, Row>, jobs: map<int, Row>, list: map<int, bool>, pending: set<int>, ready: set<int>,
                  j: int)
    requires Waking(was, jobs, list, pending, ready) && j in pending
    ensures j in jobs && j in list && list[j] == jobs[j].startReceived && jobs[j].status == Idle
    ensures Waking(was, if Wakes(jobs[j], j in ready) then Rewritten(jobs, j, Ready) else jobs, list - {j},
              pending - {j}, ready)
  {
  }

  lemma WakesAll(was: map<int, Row>, jobs: map<int, Row>, list: map<int, bool>, ready: set<int>)
    requires Waking(was, jobs, list, {}, ready)
    ensures list == map[] && jobs == Woken(was, ready)
  {
    assert list.Keys == {};
    var woken := Woken(was, ready);
    assert woken.Keys == was.Keys;
    assert forall j :: j in jobs ==> jobs[j] == woken[j];
  }

  class JobManager {
    var jobs: map<int, Row>
    var runningJobs: set<int>
    var queued: multiset<int>
    var executing: multiset<int>
    var returned: multiset<int>
    var interfaces: set<int>
    var paid: set<int>
    var settled: multiset<int>
    var refunded: multiset<int>

    /** The executor state between two handlers. */
    ghost var machine: State

    /** No handler, tick or cancellation is half way. */
    ghost predicate Settled()
      reads this`machine
    {
      && machine.handlers == map[] && machine.idleList == map[] && machine.queueList == {} && machine.mark == None
      && machine.cancelling == {} && machine.transferred == {} && machine.unmarked == multiset{}
    }

    ghost predicate Tied()
      reads this
    {
      && machine.jobs == jobs && machine.runningJobs == runningJobs && machine.queued == queued
      && machine.working == executing && machine.written == returned && machine.interfaces == interfaces
      && machine.paid == paid && machine.settled == settled && machine.refunded == refunded
    }

    ghost predicate Valid()
      reads this
    {
      Tied() && Settled() && DispatchSafe(machine)
    }

    /** Everything so far was a run of the machine free of races. */
    ghost predicate RaceFreeSoFar()
      reads this`machine
    {
      Reaches(INITIAL, machine)
    }

    constructor ()
      ensures Valid() && RaceFreeSoFar() && machine == INITIAL
    {
      jobs, runningJobs, queued, executing, returned := map[], {}, multiset{}, multiset{}, multiset{};
      interfaces, paid := {}, {};
      settled, refunded, machine := multiset{}, multiset{}, INITIAL;
      new;
      Stay(INITIAL);
    }

    /** Phase 1: the row is IDLE and not started, and its payment is attached to it. */
    method HandleJobRequest(j: int, inputs: bool, local: bool, payment: bool)
      requires Valid() && j !in jobs
      modifies this`jobs, this`paid, this`machine
      ensures Valid() && (old(RaceFreeSoFar()) ==> RaceFreeSoFar())
      ensures jobs == old(jobs)[j := Row(Idle, false, inputs, local)]
      ensures paid == if payment then old(paid) + {j} else old(paid)
    {
      hide DispatchSafe, Reaches;
      ghost var m := Take(machine, Submit(j, inputs, local));
      jobs := jobs[j := Row(Idle, false, inputs, local)];
      if payment {
        m := Take(m, AttachPayment(j));
        paid := paid + {j};
      }
      machine := m;
    }

    /** Phase 2.  `created` and `checked` are what the two readiness checks answer. */
    method HandleJobStart(j: int, created: bool, checked: bool) returns (started: bool)
      requires Valid()
      modifies this`jobs, this`interfaces, this`machine
      ensures Valid()
      ensures old(RaceFreeSoFar()) && (started ==> j !in old(interfaces)) ==> RaceFreeSoFar()
      ensures started <==> j in old(jobs)
      ensures started ==> interfaces == old(interfaces) + {j} && jobs == Started(old(jobs), j, checked)
      ensures started ==>
                var row := old(jobs)[j];
                jobs == old(jobs)[j := Row(if row.inputs && !checked then Idle else Ready, true, row.inputs, row.local)]
      ensures !started ==> interfaces == old(interfaces) && jobs == old(jobs)
    {
      hide DispatchSafe, Reaches;
      if j !in jobs {
        return false;
      }
      var row := jobs[j];
      // CreateJobInterfaces releases the job itself, remote jobs unconditionally
      var release := (row.inputs && !row.local) || created;
      ghost var m := Starts(machine, j, release, checked);
      interfaces := interfaces + {j};
      if release {
        jobs := jobs[j := jobs[j].(status := Ready)];
      }
      jobs := jobs[j := jobs[j].(startReceived := true)];
      jobs := jobs[j := jobs[j].(status := StartStatus(row, checked))];
      assert jobs == Started(old(jobs), j, checked);
      machine := m;
      return true;
    }

    /** One pass over the IDLE rows; `ready` holds the jobs whose checks succeed. */
    method CheckIdleJobsForReadiness(ready: set<int>)
      requires Valid()
      modifies this`jobs, this`machine
      ensures Valid() && (old(RaceFreeSoFar()) ==> RaceFreeSoFar())
      ensures jobs == Woken(old(jobs), ready)
      ensures jobs.Keys == old(jobs).Keys
      ensures forall j :: j in jobs ==>
                var row := old(jobs)[j];
                jobs[j] == if row.status == Idle && row.startReceived && (row.inputs ==> row.local) && j in ready
                           then Row(Ready, true, row.inputs, row.local) else row
    {
      hide DispatchSafe, Reaches;
      ghost var was := jobs;
      ghost var m := Lists(machine);
      var pending := set j | j in jobs && jobs[j].status == Idle;
      assert Waking(was, jobs, m.idleList, pending, ready);
      hide Waking, Rewritten, Woken, Wakes;
      while pending != {}
        invariant machine == old(machine)
        invariant m == machine.(jobs := jobs, idleList := m.idleList)
        invariant Waking(was, jobs, m.idleList, pending, ready)
        invariant DispatchSafe(m) && (old(RaceFreeSoFar()) ==> Reaches(INITIAL, m))
        decreases |pending|
      {
        var j := AnyOf(pending);
        WakesNext(was, jobs, m.idleList, pending, ready, j);
        m := Visits(m, j, j in ready);
        if Wakes(jobs[j], j in ready) {
          jobs := Rewritten(jobs, j, Ready);
        }
        pending := pending - {j};
      }
      WakesAll(was, jobs, m.idleList, ready);
      WokenRows(was, ready);
      machine := m;
    }

    /** One pass over the READY rows; `ready` as above, and the pool accepts it. */
    method ProcessJobQueue(ready: set<int>)
      requires Valid()
      modifies this`queued, this`runningJobs, this`machine
      ensures Valid() && (old(RaceFreeSoFar()) ==> RaceFreeSoFar())
      ensures var q := Queueable(jobs, old(runningJobs), ready);
              runningJobs == old(runningJobs) + q
              && forall j :: queued[j] == old(queued)[j] + (if j in q then 1 else 0)
      ensures forall j ::
                j in Queueable(jobs, old(runningJobs), ready) <==>
                j in jobs && jobs[j].status == Ready && jobs[j].local && j !in old(runningJobs) && j in ready
    {
      hide DispatchSafe, Reaches;
      ghost var m := ListsReady(machine);
      var pending := set j | j in jobs && jobs[j].status == Ready;
      assert Queueing(jobs, ready, runningJobs, queued, runningJobs, queued, pending);
      hide Queueing, Queueable, More;
      while pending != {}
        invariant machine == old(machine)
        invariant m == machine.(queueList := pending, queued := queued, runningJobs := runningJobs)
        invariant Queueing(jobs, ready, old(runningJobs), old(queued), runningJobs, queued, pending)
        invariant DispatchSafe(m) && (old(RaceFreeSoFar()) ==> Reaches(INITIAL, m))
        decreases |pending|
      {
        var j := AnyOf(pending);
        QueuesNext(jobs, ready, old(runningJobs), old(queued), runningJobs, queued, pending, j);
        m := Queues(m, j, j in ready);
        if jobs[j].local && j !in runningJobs && j in ready {
          queued, runningJobs := More(queued, j), runningJobs + {j};
        }
        pending := pending - {j};
      }
      QueuesAll(jobs, ready, old(runningJobs), old(queued), runningJobs, queued);
      QueueableRows(jobs, old(runningJobs), ready);
      machine := m;
    }

    /** A pool worker takes a job: RUNNING is written and the service starts. */
    method BeginJob(j: int)
      requires Valid() && queued[j] > 0
      modifies this`jobs, this`queued, this`executing, this`machine
      ensures Valid() && (old(RaceFreeSoFar()) ==> RaceFreeSoFar())
      ensures jobs == Rewritten(old(jobs), j, Running)
      ensures jobs == if j in old(jobs) then old(jobs)[j := old(jobs)[j].(status := Running)] else old(jobs)
      ensures queued == Less(old(queued), j) && executing == More(old(executing), j)
      ensures queued[j] == old(queued)[j] - 1 && executing[j] == old(executing)[j] + 1
      ensures forall k :: k != j ==> queued[k] == old(queued)[k] && executing[k] == old(executing)[k]
      ensures machine.runs == More(old(machine.runs), j) && machine.completions == old(machine.completions)
    {
      hide DispatchSafe, Reaches;
      ghost var m := Take(machine, Begin(j));
      queued, executing := Less(queued, j), More(executing, j);
      jobs := Rewritten(jobs, j, Running);
      machine := m;
    }

    /** The service returns and its outcome is written. */
    method FinishJob(j: int, success: bool)
      requires Valid() && executing[j] > 0
      modifies this`jobs, this`executing, this`returned, this`machine
      ensures Valid() && (old(RaceFreeSoFar()) ==> RaceFreeSoFar())
      ensures jobs == Rewritten(old(jobs), j, if success then Completed else Errored)
      ensures j in old(jobs) ==> jobs == old(jobs)[j := old(jobs)[j].(status := if success then Completed else Errored)]
      ensures executing == Less(old(executing), j) && returned == More(old(returned), j)
      ensures machine.completions == if success then old(machine.completions) + {j} else old(machine.completions)
    {
      hide DispatchSafe, Reaches;
      ghost var m := Take(machine, Finish(j, success));
      jobs := Rewritten(jobs, j, if success then Completed else Errored);
      executing, returned := Less(executing, j), More(returned, j);
      machine := m;
    }

    /** The deferred block unmarks the job and pays by the status it finds in the table. */
    method DeferredBlock(j: int)
      requires Valid() && returned[j] > 0
      modifies this`returned, this`runningJobs, this`settled, this`refunded, this`machine
      ensures Valid() && (old(RaceFreeSoFar()) ==> RaceFreeSoFar())
      ensures returned == Less(old(returned), j) && runningJobs == old(runningJobs) - {j}
      ensures settled == if Settles(paid, jobs, j) then More(old(settled), j) else old(settled)
      ensures refunded == if Refunds(paid, jobs, j) then More(old(refunded), j) else old(refunded)
      ensures j in paid && j in jobs && jobs[j].status == Completed ==>
                settled == old(settled)[j := old(settled)[j] + 1] && refunded == old(refunded)
      ensures j in paid && j in jobs && (jobs[j].status == Errored || jobs[j].status == Cancelled) ==>
                refunded == old(refunded)[j := old(refunded)[j] + 1] && settled == old(settled)
      ensures j !in paid || j !in jobs || (jobs[j].status in {Idle, Ready, Running}) ==>
                settled == old(settled) && refunded == old(refunded)
    {
      hide DispatchSafe, Reaches, Apply, Enabled, More, Less;
      ghost var m := Defers(machine, j);
      runningJobs, returned := runningJobs - {j}, Less(returned, j);
      if j in paid && j in jobs {
        if jobs[j].status == Completed {
          settled := More(settled, j);
        } else if jobs[j].status == Errored || jobs[j].status == Cancelled {
          refunded := More(refunded, j);
        }
      }
      OneMore(old(settled), j);
      OneMore(old(refunded), j);
      machine := m;
    }

    method CancelJob(j: int)
      requires Valid()
      modifies this`jobs, this`runningJobs, this`machine
      ensures Valid() && (old(RaceFreeSoFar()) ==> RaceFreeSoFar())
      ensures jobs == Rewritten(old(jobs), j, Cancelled) && runningJobs == old(runningJobs) - {j}
      ensures jobs == if j in old(jobs) then old(jobs)[j := old(jobs)[j].(status := Cancelled)] else old(jobs)
    {
      hide DispatchSafe, Reaches;
      ghost var m := Take(machine, CancelWrite(j));
      jobs := Rewritten(jobs, j, Cancelled);
      m := Take(m, CancelUnmark(j));
      runningJobs := runningJobs - {j};
      assert m.cancelling == {};
      machine := m;
    }

    /** A finished transfer completes the job if it is RUNNING. */
    method FinalizeTransfer(j: int)
      requires Valid()
      modifies this`jobs, this`machine
      ensures Valid() && (old(RaceFreeSoFar()) ==> RaceFreeSoFar())
      ensures var writes := j in old(jobs) && old(jobs)[j].status == Running;
              && jobs == (if writes then Rewritten(old(jobs), j, Completed) else old(jobs))
              && (writes ==> jobs == old(jobs)[j := old(jobs)[j].(status := Completed)])
              && machine.completions == (if writes then old(machine.completions) + {j} else old(machine.completions))
    {
      hide DispatchSafe, Reaches;
      if j in jobs && jobs[j].status == Running {
        ghost var m := Take(machine, TransferSees(j));
        m := Take(m, TransferWrites(j));
        jobs := Rewritten(jobs, j, Completed);
        assert m.transferred == {};
        machine := m;
      }
    }

    /** What the object promises as long as no job is started twice. */
    lemma AtMostOncePerJob(j: int)
      requires Valid() && RaceFreeSoFar()
      ensures machine.runs[j] <= 1 && settled[j] + refunded[j] <= 1
      ensures settled[j] > 0 ==> j in machine.completions
      ensures machine.runs[j] > 0 || queued[j] > 0 ==> j in interfaces
    {
      ReachedOnceEach(machine);
      assert OnceFor(machine, j) && SafeFor(machine, j);
    }
  }
}
