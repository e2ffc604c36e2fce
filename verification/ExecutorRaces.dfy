/** Each clause of `Executor.RaceFree` is needed: one step that breaks it, in a run that
    is otherwise free of races, lets a job execute twice. */
module ExecutorRaces {
  import opened Results
  import opened Executor

  /** The queue ticker lists one job; its list becomes the pool's task. */
  lemma Dispatch(s: State, t: State, j: int) returns (u: State)
    requires Reaches(s, t) && t.queueList == {} && t.mark == None
    requires t.jobs.Keys == {j} && t.jobs[j].status == Ready && Submits(t, j, true)
    ensures Reaches(s, u)
    ensures u == t.(queued := More(t.queued, j), runningJobs := t.runningJobs + {j})
  {
    hide Reaches;
    var v := Go(s, t, QueueTick);
    assert v == t.(queueList := {j}) by {
      assert forall k :: k in v.queueList <==> k in {j};
    }
    v := Go(s, v, QueueVisit(j, true));
    assert v == t.(queued := More(t.queued, j), mark := Some(j)) by {
      assert v.queueList == {};
    }
    u := Go(s, v, QueueMark);
  }

  lemma Execute(s: State, t: State, j: int) returns (u: State)
    requires Reaches(s, t) && t.queued[j] == 1 && t.working[j] == 0 && t.written[j] == 0 && j in t.jobs
    ensures Reaches(s, u)
    ensures u == WithStatus(t, j, Completed).(
                   queued := t.queued[j := 0], runs := More(t.runs, j), completions := t.completions + {j},
                   runningJobs := t.runningJobs - {j}, unmarked := More(t.unmarked, j))
  {
    hide Reaches;
    u := Go(s, t, Begin(j));
    u := Go(s, u, Finish(j, true));
    u := Go(s, u, DeferUnmark(j));
    assert u.working == t.working && u.written == t.written;
  }

  /** Job 1 is submitted, and its start handler has created the interfaces. */
  lemma Created(inputs: bool, cancelled: bool) returns (s: State)
    ensures Reaches(INITIAL, s)
    ensures s == INITIAL.(jobs := map[1 := Row(if cancelled then Cancelled else Idle, false, inputs, true)],
                          cancelling := if cancelled then {1} else {},
                          handlers := map[0 := Handler(1, Progress.Created)], interfaces := {1})
  {
    hide Reaches;
    Stay(INITIAL);
    s := Go(INITIAL, INITIAL, Submit(1, inputs, true));
    if cancelled {
      s := Go(INITIAL, s, CancelWrite(1));
    }
    s := Go(INITIAL, s, StartLoad(0, 1));
    s := Go(INITIAL, s, StartInterfaces(0));
  }

  /** The job is dispatched a second time, on top of what ran before. */
  lemma TwoRuns(r: State, queued: nat) returns (t: State)
    requires r.queued[1] == queued && 0 < queued <= 2 && queued + r.runs[1] == 2
    ensures Reaches(r, t) && t.runs[1] == 2
  {
    hide Reaches;
    Stay(r);
    t := Go(r, r, Begin(1));
    if queued == 2 {
      t := Go(r, t, Begin(1));
    }
  }

  lemma {:induction false} Joined(r: State, s: State, steps: seq<Step>, t: State)
    requires Reaches(r, s) && ValidRun(s, steps) && RaceFreeRun(s, steps) && Run(s, steps) == t
    ensures Reaches(r, t)
    decreases |steps|
  {
    hide Enabled, Apply, RaceFree;
    if steps != [] {
      hide Reaches;
      var u := Go(r, s, steps[0]);
      Joined(r, u, steps[1..], t);
    }
  }

  lemma Chained(r: State, s: State, t: State)
    requires Reaches(r, s) && Reaches(s, t)
    ensures Reaches(r, t)
  {
    var steps :| ValidRun(s, steps) && RaceFreeRun(s, steps) && Run(s, steps) == t;
    Joined(r, s, steps, t);
  }

  /** From a state with the job READY and unmarked the queue ticker runs it again. */
  lemma RunsAgain(r: State) returns (t: State)
    requires r.queueList == {} && r.mark == None && r.jobs.Keys == {1}
    requires r.jobs[1].status == Ready && Submits(r, 1, true) && r.queued[1] + r.runs[1] == 1
    ensures Reaches(r, t) && t.runs[1] == 2
  {
    hide Reaches;
    Stay(r);
    var u := Dispatch(r, r, 1);
    t := TwoRuns(u, u.queued[1]);
    Chained(r, u, t);
  }

  /** The step `x` races in a state reached without races, and from there job 1 runs twice. */
  ghost predicate RunsTwiceBy(s: State, x: Step, t: State) {
    Reaches(INITIAL, s) && Enabled(s, x) && !RaceFree(s, x) && Reaches(Apply(s, x), t) && t.runs[1] == 2
  }

  lemma BeforeLateStart() returns (s: State)
    ensures Reaches(INITIAL, s)
    ensures s == INITIAL.(jobs := map[1 := Row(Completed, true, false, true)], interfaces := {1},
                          handlers := map[0 := Handler(1, Marked)],
                          runs := multiset{1}, completions := {1}, unmarked := multiset{1})
  {
    hide Reaches;
    s := Created(false, false);
    s := Go(INITIAL, s, StartDecide(0, true));
    s := Dispatch(INITIAL, s, 1);
    s := Execute(INITIAL, s, 1);
    s := Go(INITIAL, s, StartMark(0));
    assert s.queued == multiset{} && s.runningJobs == {};
  }

  /** A start handler's second status write, after the job it released has run. */
  lemma LateStartWrite()
    ensures exists s, x, t :: RunsTwiceBy(s, x, t) && x.StartFinish?
  {
    hide Reaches;
    var s := BeforeLateStart();
    var x := StartFinish(0, true);
    var t := RunsAgain(Apply(s, x));
    assert RunsTwiceBy(s, x, t);
  }

  lemma IdleListed() returns (s: State)
    ensures Reaches(INITIAL, s)
    ensures s == INITIAL.(jobs := map[1 := Row(Ready, true, true, true)], interfaces := {1}, idleList := map[1 := true])
  {
    hide Reaches;
    s := Created(true, false);
    s := Go(INITIAL, s, StartDecide(0, false));
    s := Go(INITIAL, s, StartMark(0));
    s := Go(INITIAL, s, IdleTick);
    assert s.idleList == map[1 := true];
    s := Go(INITIAL, s, StartFinish(0, true));
    assert s.handlers == map[];
  }

  /** An idle ticker that releases a job it listed before the job ran. */
  lemma LateIdleWrite()
    ensures exists s, x, t :: RunsTwiceBy(s, x, t) && x.IdleVisit?
  {
    hide Reaches;
    var s := IdleListed();
    s := Dispatch(INITIAL, s, 1);
    s := Execute(INITIAL, s, 1);
    var x := IdleVisit(1, true);
    var t := RunsAgain(Apply(s, x));
    assert RunsTwiceBy(s, x, t);
  }

  lemma Released() returns (s: State)
    ensures Reaches(INITIAL, s)
    ensures s == INITIAL.(jobs := map[1 := Row(Ready, true, false, true)], interfaces := {1})
  {
    hide Reaches;
    s := Created(false, false);
    s := Go(INITIAL, s, StartDecide(0, false));
    s := Go(INITIAL, s, StartMark(0));
    s := Go(INITIAL, s, StartFinish(0, true));
    assert s.handlers == map[];
  }

  lemma ListedWhileQueued() returns (s: State)
    ensures Reaches(INITIAL, s)
    ensures s == INITIAL.(jobs := map[1 := Row(Ready, true, false, true)], interfaces := {1},
                          queued := multiset{1}, runningJobs := {1}, queueList := {1})
  {
    hide Reaches;
    s := Released();
    s := Dispatch(INITIAL, s, 1);
    s := Go(INITIAL, s, QueueTick);
    assert s.queueList == {1} by {
      assert forall k :: k in s.queueList <==> k in {1};
    }
  }

  lemma CancelledWhileListed() returns (s: State)
    ensures Reaches(INITIAL, s)
    ensures s == INITIAL.(jobs := map[1 := Row(Cancelled, true, false, true)], interfaces := {1},
                          queued := multiset{1}, queueList := {1})
  {
    hide Reaches;
    s := ListedWhileQueued();
    s := Go(INITIAL, s, CancelWrite(1));
    s := Go(INITIAL, s, CancelUnmark(1));
    assert s.cancelling == {} && s.runningJobs == {};
  }

  /** A queue ticker that submits from its list a job cancelled since it listed it. */
  lemma StaleQueueList()
    ensures exists s, x, t :: RunsTwiceBy(s, x, t) && x.QueueVisit?
  {
    hide Reaches;
    var s := CancelledWhileListed();
    var x := QueueVisit(1, true);
    var t := TwoRuns(Apply(s, x), 2);
    assert RunsTwiceBy(s, x, t);
  }

  /** A cancellation that clears `runningJobs` after the job was released again. */
  lemma LateCancel()
    ensures exists s, x, t :: RunsTwiceBy(s, x, t) && x.CancelUnmark?
  {
    hide Reaches;
    var s := Created(false, true);
    s := Go(INITIAL, s, StartDecide(0, true));
    s := Dispatch(INITIAL, s, 1);
    var x := CancelUnmark(1);
    var t := RunsAgain(Apply(s, x));
    assert RunsTwiceBy(s, x, t);
  }

  lemma RanThenRestarted() returns (s: State)
    ensures Reaches(INITIAL, s)
    ensures s == INITIAL.(jobs := map[1 := Row(Completed, true, false, true)], interfaces := {1},
                          handlers := map[0 := Handler(1, Progress.Created)],
                          runs := multiset{1}, completions := {1}, unmarked := multiset{1})
  {
    hide Reaches;
    s := Released();
    s := Dispatch(INITIAL, s, 1);
    s := Execute(INITIAL, s, 1);
    s := Go(INITIAL, s, StartLoad(0, 1));
    s := Go(INITIAL, s, StartInterfaces(0));
    assert s.queued == multiset{} && s.runningJobs == {};
  }

  /** A second start command for a job that has already run. */
  lemma RepeatedStart()
    ensures exists s, x, t :: RunsTwiceBy(s, x, t) && x.StartDecide?
  {
    hide Reaches;
    var s := RanThenRestarted();
    var x := StartDecide(0, true);
    var t := RunsAgain(Apply(s, x));
    assert RunsTwiceBy(s, x, t);
  }
}
