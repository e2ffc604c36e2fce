/** internal/core/workflow_manager.go, executeWorkflowJobs: where the two id maps come from. */
module WorkflowPhases {
  import opened Results
  import opened WorkflowIds

  datatype WorkflowJobRow = WorkflowJobRow(id: int, node: int, execution: Option<int>)

  /** Job definitions have their own nodes; workflow_jobs ids are AUTOINCREMENT, and
      `None` is an INSERT that failed. */
  ghost predicate Distinct(nodes: seq<int>, created: seq<Option<int>>) {
    && |created| == |nodes|
    && (forall i, j :: 0 <= i < j < |nodes| ==> nodes[i] != nodes[j])
    && (forall i :: 0 <= i < |created| && created[i].Some? ==> created[i].value > 0)
    && (forall i, j :: 0 <= i < j < |created| && created[i].Some? ==> created[i] != created[j])
  }

  /** `rows` are the rows created for the first `n` definitions, the first `m` of
      which have been offered to their executors. */
  ghost predicate RowsFor(rows: map<int, WorkflowJobRow>, nodes: seq<int>, created: seq<Option<int>>,
                          accepted: seq<Option<int>>, n: nat, m: nat)
    requires |created| == |accepted| == |nodes| && m <= n <= |nodes|
  {
    && (forall k :: 0 <= k < n && created[k].Some? ==>
          created[k].value in rows &&
          rows[created[k].value] == WorkflowJobRow(created[k].value, nodes[k], if k < m then accepted[k] else None))
    && (forall id :: id in rows ==> exists k :: 0 <= k < n && created[k] == Some(id))
  }

  /** The map holds the workflow job of each definition, and nothing else. */
  ghost predicate JobMap(toJob: map<int, int>, nodes: seq<int>, created: seq<Option<int>>)
    requires |created| == |nodes|
  {
    && (forall k :: 0 <= k < |nodes| ==> Get(toJob, nodes[k]) == created[k])
    && (forall n :: n in toJob ==> n in nodes)
  }

  ghost predicate ExecutionMap(toExecution: map<int, int>, nodes: seq<int>, created: seq<Option<int>>,
                               accepted: seq<Option<int>>)
    requires |created| == |accepted| == |nodes|
  {
    && (forall k :: 0 <= k < |nodes| ==> Get(toExecution, nodes[k]) == if created[k].Some? then accepted[k] else None)
    && (forall n :: n in toExecution ==> n in nodes)
  }

  /** Phase 1. */
  method CreateWorkflowJobs(nodes: seq<int>, created: seq<Option<int>>, ghost accepted: seq<Option<int>>)
    returns (rows: map<int, WorkflowJobRow>)
    requires Distinct(nodes, created) && |accepted| == |nodes|
    ensures RowsFor(rows, nodes, created, accepted, |nodes|, 0)
  {
    rows := map[];
    for i := 0 to |nodes|
      invariant RowsFor(rows, nodes, created, accepted, i, 0)
    {
      if created[i].Some? {
        rows := rows[created[i].value := WorkflowJobRow(created[i].value, nodes[i], None)];
      }
    }
  }

  /** The loop over the created rows, in the order of a Go map. */
  method NodeToWorkflowJob(rows: map<int, WorkflowJobRow>, ghost nodes: seq<int>, ghost created: seq<Option<int>>,
                           ghost accepted: seq<Option<int>>)
    returns (toJob: map<int, int>)
    requires Distinct(nodes, created) && |accepted| == |nodes| && RowsFor(rows, nodes, created, accepted, |nodes|, 0)
    ensures JobMap(toJob, nodes, created)
  {
    toJob := map[];
    var pending := rows.Keys;
    while pending != {}
      invariant pending <= rows.Keys
      invariant forall k :: 0 <= k < |nodes| ==>
                  Get(toJob, nodes[k]) == if created[k].Some? && created[k].value !in pending then created[k] else None
      invariant forall n :: n in toJob ==> n in nodes
      decreases pending
    {
      var id := AnyOf(pending);
      pending := pending - {id};
      ghost var k :| 0 <= k < |nodes| && created[k] == Some(id);
      assert rows[id].node == nodes[k];
      toJob := toJob[rows[id].node := id];
    }
  }

  /** Phase 2: executions are created here or requested from the executors. */
  method OfferJobs(rows: map<int, WorkflowJobRow>, toJob: map<int, int>, nodes: seq<int>, created: seq<Option<int>>,
                   accepted: seq<Option<int>>)
    returns (offered: map<int, WorkflowJobRow>)
    requires Distinct(nodes, created) && |accepted| == |nodes| && RowsFor(rows, nodes, created, accepted, |nodes|, 0)
    requires JobMap(toJob, nodes, created)
    ensures RowsFor(offered, nodes, created, accepted, |nodes|, |nodes|)
  {
    offered := rows;
    for i := 0 to |nodes|
      invariant RowsFor(offered, nodes, created, accepted, |nodes|, i)
    {
      assert Get(toJob, nodes[i]) == created[i];
      var id := if nodes[i] in toJob then toJob[nodes[i]] else 0;
      if id in offered {
        if accepted[i].Some? {
          offered := offered[id := offered[id].(execution := accepted[i])];
        }
      }
    }
  }

  /** The second map, from the rows that know their execution. */
  method NodeToExecution(rows: map<int, WorkflowJobRow>, toJob: map<int, int>, ghost nodes: seq<int>,
                         ghost created: seq<Option<int>>, ghost accepted: seq<Option<int>>)
    returns (toExecution: map<int, int>)
    requires Distinct(nodes, created) && |accepted| == |nodes|
    requires RowsFor(rows, nodes, created, accepted, |nodes|, |nodes|)
    requires JobMap(toJob, nodes, created)
    ensures ExecutionMap(toExecution, nodes, created, accepted)
  {
    toExecution := map[];
    var pending := toJob.Keys;
    while pending != {}
      invariant pending <= toJob.Keys
      invariant forall k :: 0 <= k < |nodes| ==>
                  Get(toExecution, nodes[k]) == if created[k].Some? && nodes[k] !in pending then accepted[k] else None
      invariant forall n :: n in toExecution ==> n in nodes
      decreases pending
    {
      var node := AnyOf(pending);
      pending := pending - {node};
      ghost var k :| 0 <= k < |nodes| && nodes[k] == node;
      assert Get(toJob, nodes[k]) == created[k];
      var row := rows[toJob[node]];
      if row.execution.Some? {
        toExecution := toExecution[node := row.execution.value];
      }
    }
  }

  /** The phases together give maps that meet the hypotheses of the translation. */
  method BuildIdMaps(nodes: seq<int>, created: seq<Option<int>>, accepted: seq<Option<int>>)
    returns (toJob: map<int, int>, toExecution: map<int, int>)
    requires Distinct(nodes, created) && |accepted| == |nodes|
    ensures JobMap(toJob, nodes, created) && ExecutionMap(toExecution, nodes, created, accepted)
    ensures Injective(toJob) && toExecution.Keys <= toJob.Keys
    ensures forall k :: 0 <= k < |nodes| ==>
              && (nodes[k] in toJob <==> created[k].Some?)
              && (nodes[k] in toJob ==> created[k] == Some(toJob[nodes[k]]))
              && (nodes[k] in toExecution <==> created[k].Some? && accepted[k].Some?)
              && (nodes[k] in toExecution ==> accepted[k] == Some(toExecution[nodes[k]]))
  {
    var rows := CreateWorkflowJobs(nodes, created, accepted);
    toJob := NodeToWorkflowJob(rows, nodes, created, accepted);
    var offered := OfferJobs(rows, toJob, nodes, created, accepted);
    toExecution := NodeToExecution(offered, toJob, nodes, created, accepted);
    MapsFit(toJob, toExecution, nodes, created, accepted);
  }

  lemma MapsFit(toJob: map<int, int>, toExecution: map<int, int>, nodes: seq<int>, created: seq<Option<int>>,
                accepted: seq<Option<int>>)
    requires Distinct(nodes, created) && |accepted| == |nodes|
    requires JobMap(toJob, nodes, created) && ExecutionMap(toExecution, nodes, created, accepted)
    ensures Injective(toJob) && toExecution.Keys <= toJob.Keys
  {
    forall a, b | a in toJob && b in toJob && toJob[a] == toJob[b]
      ensures a == b
    {
      var i :| 0 <= i < |nodes| && nodes[i] == a;
      var j :| 0 <= j < |nodes| && nodes[j] == b;
      assert Get(toJob, nodes[i]) == created[i] && Get(toJob, nodes[j]) == created[j];
    }
    forall n | n in toExecution
      ensures n in toJob
    {
      var k :| 0 <= k < |nodes| && nodes[k] == n;
      assert Get(toExecution, nodes[k]) == (if created[k].Some? then accepted[k] else None);
      assert Get(toJob, nodes[k]) == created[k];
    }
  }
}
