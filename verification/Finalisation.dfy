/**
 * How workflow executions end (internal/core/workflow_manager.go): the poller counts
 * the stored workflow_jobs rows of each active execution and finalises it when all
 * are in a terminal status.
 */
module Finalisation {
  import opened Results

  predicate Failed(status: string) {
    status == "ERRORED" || status == "CANCELLED" || status == "FAILED"
  }

  predicate Terminal(status: string) {
    status == "COMPLETED" || Failed(status)
  }

  predicate AllTerminal(rows: seq<string>) {
    forall i :: 0 <= i < |rows| ==> Terminal(rows[i])
  }

  function FailedRows(rows: seq<string>): (n: nat)
    ensures n <= |rows|
    ensures n == 0 <==> forall i :: 0 <= i < |rows| ==> !Failed(rows[i])
  {
    if rows == [] then 0
    else
      var last := |rows| - 1;
      FailedRows(rows[..last]) + if Failed(rows[last]) then 1 else 0
  }

  /** The count is the number of rows in one of the three statuses. */
  lemma {:induction false} FailedRowsAre(rows: seq<string>)
    ensures FailedRows(rows) == |set i | 0 <= i < |rows| && rows[i] in {"ERRORED", "CANCELLED", "FAILED"}|
    decreases |rows|
  {
    if rows != [] {
      var last := |rows| - 1;
      FailedRowsAre(rows[..last]);
      var before := set i | 0 <= i < last && rows[..last][i] in {"ERRORED", "CANCELLED", "FAILED"};
      var all := set i | 0 <= i < |rows| && rows[i] in {"ERRORED", "CANCELLED", "FAILED"};
      assert all == if Failed(rows[last]) then before + {last} else before;
    }
  }

  /** An execution whose query fails, or with a row that is not terminal, stays active. */
  predicate StaysActive(rows: Option<seq<string>>) {
    rows.None? || !AllTerminal(rows.value)
  }

  /** The row at `i` is in none of the four statuses in which a job is over. */
  predicate Unfinished(rows: seq<string>, i: int) {
    && 0 <= i < |rows| && rows[i] != "COMPLETED"
    && rows[i] != "ERRORED" && rows[i] != "CANCELLED" && rows[i] != "FAILED"
  }

  lemma StaysActiveIff(rows: Option<seq<string>>)
    ensures StaysActive(rows) <==> rows.None? || exists i :: Unfinished(rows.value, i)
  {
    if rows.Some? && !AllTerminal(rows.value) {
      var i :| 0 <= i < |rows.value| && !Terminal(rows.value[i]);
      assert Unfinished(rows.value, i);
    }
  }

  datatype Verdict = StillActive | Final(status: string, failed: nat)

  /** What the rows amount to, said without counting. */
  function Judged(rows: seq<string>): Verdict {
    if !AllTerminal(rows) then StillActive
    else
      var completed := forall i :: 0 <= i < |rows| ==> rows[i] == "COMPLETED";
      Final(if completed then "COMPLETED" else "FAILED", FailedRows(rows))
  }

  /** The counting loop of checkWorkflowCompletion. */
  method CountRows(rows: seq<string>) returns (v: Verdict)
    ensures v == Judged(rows)
    ensures v.Final? <==>
              forall i :: 0 <= i < |rows| ==> rows[i] in {"COMPLETED", "ERRORED", "CANCELLED", "FAILED"}
    ensures v.Final? ==>
              && (v.status == "COMPLETED" || v.status == "FAILED")
              && (v.status == "FAILED" <==> exists i :: 0 <= i < |rows| && rows[i] != "COMPLETED")
              && v.failed == |set i | 0 <= i < |rows| && rows[i] in {"ERRORED", "CANCELLED", "FAILED"}|
  {
    var completed, errored, pending, total := 0, 0, 0, |rows|;
    for i := 0 to |rows|
      invariant completed + errored + pending <= i
      invariant completed + errored == i <==> AllTerminal(rows[..i])
      invariant errored == FailedRows(rows[..i])
    {
      assert rows[..i + 1][..i] == rows[..i];
      assert AllTerminal(rows[..i + 1]) <==> AllTerminal(rows[..i]) && Terminal(rows[i]) by {
        assert rows[..i + 1] == rows[..i] + [rows[i]];
      }
      if rows[i] == "COMPLETED" {
        completed := completed + 1;
      } else if Failed(rows[i]) {
        errored := errored + 1;
      } else if rows[i] == "PENDING" || rows[i] == "RUNNING" || rows[i] == "WAITING" {
        pending := pending + 1;
      }
    }
    assert rows[..|rows|] == rows;
    FailedRowsAre(rows);
    if completed + errored == total && pending == 0 {
      return Final(if errored > 0 then "FAILED" else "COMPLETED", errored);
    }
    return StillActive;
  }

  // ------------------------------------------------------------------
  // The poller beside ExecuteWorkflow
  // ------------------------------------------------------------------

  /**
   * `starting` holds executions that are registered but whose RUNNING status is not
   * written yet, `list` the executions a poll has still to check.
   */
  datatype State = State(
    registered: set<int>,
    active: set<int>,
    starting: set<int>,
    list: set<int>,
    status: map<int, string>,
    finals: multiset<int>)

  const INITIAL := State({}, {}, {}, {}, map[], multiset{})

  datatype Step =
    | Register(id: int)
    | WriteRunning(id: int)
    | Poll
    | Check(id: int, rows: Option<seq<string>>)

  predicate Enabled(s: State, step: Step) {
    match step
    case Register(id) => id !in s.registered
    case WriteRunning(id) => id in s.starting
    case Poll => s.list == {}
    case Check(id, _) => id in s.list
  }

  function Apply(s: State, step: Step): State
    requires Enabled(s, step)
  {
    match step
    case Register(id) =>
      s.(registered := s.registered + {id}, active := s.active + {id}, starting := s.starting + {id},
         status := s.status[id := "PENDING"])
    case WriteRunning(id) => s.(starting := s.starting - {id}, status := s.status[id := "RUNNING"])
    case Poll => s.(list := s.active)
    case Check(id, rows) =>
      var t := s.(list := s.list - {id});
      if !StaysActive(rows) then
        t.(active := s.active - {id}, status := s.status[id := Judged(rows.value).status],
           finals := s.finals[id := s.finals[id] + 1])
      else t
  }

  ghost predicate ValidRun(s: State, steps: seq<Step>)
    decreases |steps|
  {
    steps == [] || (Enabled(s, steps[0]) && ValidRun(Apply(s, steps[0]), steps[1..]))
  }

  ghost function Run(s: State, steps: seq<Step>): State
    requires ValidRun(s, steps)
    decreases |steps|
  {
    if steps == [] then s else Run(Apply(s, steps[0]), steps[1..])
  }

  /** An execution is active or finalised once, and a poll lists active ones only. */
  predicate OnceFor(s: State, id: int) {
    && (id in s.registered ==> s.finals[id] == if id in s.active then 0 else 1)
    && (id !in s.registered ==> s.finals[id] == 0 && id !in s.active && id !in s.starting)
    && (id in s.list ==> id in s.active)
  }

  ghost predicate OnceEach(s: State) {
    forall id :: OnceFor(s, id)
  }

  lemma StepOnceEach(s: State, step: Step)
    requires OnceEach(s) && Enabled(s, step)
    ensures OnceEach(Apply(s, step))
  {
    forall id: int
      ensures OnceFor(Apply(s, step), id)
    {
      assert OnceFor(s, id);
    }
  }

  lemma {:induction false} RunOnceEach(s: State, steps: seq<Step>)
    requires OnceEach(s) && ValidRun(s, steps)
    ensures OnceEach(Run(s, steps))
    decreases |steps|
  {
    hide OnceEach;
    if steps != [] {
      StepOnceEach(s, steps[0]);
      RunOnceEach(Apply(s, steps[0]), steps[1..]);
    }
  }

  /** Over any run each execution is finalised at most once, and it is finalised exactly
      when it has been registered and is no longer active. */
  lemma FinalisedAtMostOnce(steps: seq<Step>, id: int)
    requires ValidRun(INITIAL, steps)
    ensures var s := Run(INITIAL, steps);
            s.finals[id] <= 1 && (s.finals[id] == 1 <==> id in s.registered && id !in s.active)
  {
    assert OnceEach(INITIAL);
    RunOnceEach(INITIAL, steps);
    assert OnceFor(Run(INITIAL, steps), id);
  }

  /** The execution has been finalised. */
  predicate Over(s: State, id: int) {
    id in s.registered && id !in s.active && id !in s.list && id in s.status
  }

  /**
   * What a run leaves in the status column of a finalised execution: the verdict stays
   * unless the RUNNING write of its own start was still to come, and then RUNNING stays
   * for good once it is written.
   */
  lemma {:induction false} VerdictKeptIff(s: State, steps: seq<Step>, id: int)
    requires ValidRun(s, steps) && Over(s, id)
    ensures var t := Run(s, steps);
            && Over(t, id)
            && t.status[id] == (if id in s.starting && id !in t.starting then "RUNNING" else s.status[id])
            && (id in t.starting ==> id in s.starting)
    decreases |steps|
  {
    if steps != [] {
      VerdictKeptIff(Apply(s, steps[0]), steps[1..], id);
    }
  }

  /** A poll between registration and the first row finalises the execution as COMPLETED. */
  lemma EmptyIsComplete(s: State, id: int)
    requires Enabled(s, Check(id, Some([])))
    ensures Apply(s, Check(id, Some([]))).status[id] == "COMPLETED" && id !in Apply(s, Check(id, Some([]))).active
  {
  }

  /** So an execution can be left RUNNING for ever with nobody polling it. */
  lemma LeftRunning(id: int)
    ensures exists steps ::
              ValidRun(INITIAL, steps) && Over(Run(INITIAL, steps), id)
              && Run(INITIAL, steps).status[id] == "RUNNING" && id !in Run(INITIAL, steps).starting
  {
    var a := Apply(INITIAL, Register(id));
    var b := Apply(a, Poll);
    var c := Apply(b, Check(id, Some([])));
    var d := Apply(c, WriteRunning(id));
    var after := [WriteRunning(id)];
    assert ValidRun(d, after[1..]) && Run(d, after[1..]) == d;
    assert ValidRun(c, after) && Run(c, after) == d;
    var checked := [Check(id, Some([]))] + after;
    assert checked[1..] == after;
    assert ValidRun(b, checked) && Run(b, checked) == d;
    var polled := [Poll] + checked;
    assert polled[1..] == checked;
    assert ValidRun(a, polled) && Run(a, polled) == d;
    var steps := [Register(id)] + polled;
    assert steps[1..] == polled;
    assert ValidRun(INITIAL, steps) && Run(INITIAL, steps) == d;
  }

  // ------------------------------------------------------------------
  // The poll as a loop
  // ------------------------------------------------------------------

  class WorkflowManager {
    var activeWorkflows: set<int>
    var status: map<int, string>

    /** One poll over the active executions; `rows` answers the database query of each,
        `None` where it fails. */
    method UpdateActiveWorkflowStatuses(rows: map<int, Option<seq<string>>>)
      requires activeWorkflows <= rows.Keys && activeWorkflows <= status.Keys
      modifies this
      ensures activeWorkflows == set id | id in old(activeWorkflows) && StaysActive(rows[id])
      ensures activeWorkflows <= old(activeWorkflows)
      ensures forall id :: id in old(activeWorkflows) ==>
                (id in activeWorkflows <==> rows[id].None? || exists i :: Unfinished(rows[id].value, i))
      ensures status.Keys == old(status).Keys
      ensures forall id :: id in status ==>
                status[id] == if id in old(activeWorkflows) && id !in activeWorkflows
                              then Judged(rows[id].value).status else old(status)[id]
    {
      var pending := activeWorkflows;
      while pending != {}
        invariant pending <= activeWorkflows <= old(activeWorkflows)
        invariant forall id :: id in old(activeWorkflows) && id !in pending ==>
          (id in activeWorkflows <==> StaysActive(rows[id]))
        invariant status.Keys == old(status).Keys
        invariant forall id :: id in status ==>
          status[id] == if id in old(activeWorkflows) && id !in activeWorkflows
                        then Judged(rows[id].value).status else old(status)[id]
        decreases |pending|
      {
        var id := AnyOf(pending);
        pending := pending - {id};
        if rows[id].Some? {
          var v := CountRows(rows[id].value);
          if v.Final? {
            status := status[id := v.status];
            activeWorkflows := activeWorkflows - {id};
          }
        }
      }
      assert forall id :: id in activeWorkflows <==> id in old(activeWorkflows) && StaysActive(rows[id]);
      forall id | id in old(activeWorkflows)
        ensures id in activeWorkflows <==> rows[id].None? || exists i :: Unfinished(rows[id].value, i)
      {
        StaysActiveIff(rows[id]);
      }
    }
  }
}
