/** internal/types/workflow_types.go and the tables of internal/database/job_executions.go */
module JobTables {
  import opened Results

  datatype InterfaceKind = Stdin | Stdout | Stderr | Logs | Mount
  datatype MountFunction = Input | Output | Both

  datatype InterfacePeer = InterfacePeer(
    peer: string,
    workflowJob: Option<int>,
    execution: Option<int>,
    path: string,
    fileName: Option<string>,
    mount: MountFunction,
    duty: bool)

  datatype JobInterface = JobInterface(kind: InterfaceKind, path: string, peers: seq<InterfacePeer>)

  /** A row of job_executions, restricted to the columns that routing reads. */
  datatype Execution = Execution(id: int, workflowJob: int, ordering: string, executor: string)

  datatype InterfaceRow = InterfaceRow(id: int, execution: int, kind: InterfaceKind, path: string)
  datatype PeerRow = PeerRow(interface: int, peer: InterfacePeer)

  /** SELECT ... FROM job_interface_peers WHERE job_interface_id = id */
  function PeersOf(rows: seq<PeerRow>, id: int): seq<InterfacePeer> {
    if rows == [] then []
    else
      var front := PeersOf(rows[..|rows| - 1], id);
      var last := rows[|rows| - 1];
      if last.interface == id then front + [last.peer] else front
  }

  lemma {:induction false} PeersOfSame(rows: seq<PeerRow>, more: seq<PeerRow>, id: int)
    requires forall i :: 0 <= i < |more| ==> more[i].interface == id
    ensures PeersOf(rows + more, id) == PeersOf(rows, id) + seq(|more|, i requires 0 <= i < |more| => more[i].peer)
  {
    if more == [] {
      assert rows + more == rows;
    } else {
      var n := |more| - 1;
      PeersOfSame(rows, more[..n], id);
      assert (rows + more)[..|rows + more| - 1] == rows + more[..n];
    }
  }

  lemma {:induction false} PeersOfOther(rows: seq<PeerRow>, more: seq<PeerRow>, id: int)
    requires forall i :: 0 <= i < |more| ==> more[i].interface != id
    ensures PeersOf(rows + more, id) == PeersOf(rows, id)
  {
    if more == [] {
      assert rows + more == rows;
    } else {
      var n := |more| - 1;
      PeersOfOther(rows, more[..n], id);
      assert (rows + more)[..|rows + more| - 1] == rows + more[..n];
    }
  }

  lemma {:induction false} PeersOfNone(rows: seq<PeerRow>, id: int)
    requires forall i :: 0 <= i < |rows| ==> rows[i].interface != id
    ensures PeersOf(rows, id) == []
  {
    PeersOfOther([], rows, id);
    assert [] + rows == rows;
  }

  /** The interfaces of one execution, each with its peers, in insertion order. */
  function InterfacesOf(interfaces: seq<InterfaceRow>, peers: seq<PeerRow>, execution: int): seq<JobInterface> {
    if interfaces == [] then []
    else
      var front := InterfacesOf(interfaces[..|interfaces| - 1], peers, execution);
      var last := interfaces[|interfaces| - 1];
      if last.execution == execution then front + [JobInterface(last.kind, last.path, PeersOf(peers, last.id))]
      else front
  }

  /** Peers of a new interface do not show up under the older ones. */
  lemma {:induction false} OlderInterfacesKept(interfaces: seq<InterfaceRow>, peers: seq<PeerRow>, more: seq<PeerRow>,
                                               execution: int)
    requires forall i, j :: 0 <= i < |more| && 0 <= j < |interfaces| ==> more[i].interface != interfaces[j].id
    ensures InterfacesOf(interfaces, peers + more, execution) == InterfacesOf(interfaces, peers, execution)
  {
    if interfaces != [] {
      var n := |interfaces| - 1;
      OlderInterfacesKept(interfaces[..n], peers, more, execution);
      PeersOfOther(peers, more, interfaces[n].id);
    }
  }

  lemma {:induction false} PeersOfMember(rows: seq<PeerRow>, i: nat)
    requires i < |rows|
    ensures rows[i].peer in PeersOf(rows, rows[i].interface)
  {
    if i < |rows| - 1 {
      PeersOfMember(rows[..|rows| - 1], i);
    }
  }

  ghost predicate Shows(found: seq<JobInterface>, p: InterfacePeer) {
    exists m, n :: 0 <= m < |found| && 0 <= n < |found[m].peers| && found[m].peers[n] == p
  }

  /** A row whose interface belongs to an execution shows up under it. */
  lemma {:induction false} InterfacesOfMember(interfaces: seq<InterfaceRow>, peers: seq<PeerRow>, k: nat, i: nat)
    requires k < |interfaces| && i < |peers| && interfaces[k].id == peers[i].interface
    ensures Shows(InterfacesOf(interfaces, peers, interfaces[k].execution), peers[i].peer)
  {
    var e := interfaces[k].execution;
    var last := |interfaces| - 1;
    var found := InterfacesOf(interfaces, peers, e);
    if k == last {
      PeersOfMember(peers, i);
      var m := |found| - 1;
      assert found[m] == JobInterface(interfaces[k].kind, interfaces[k].path, PeersOf(peers, interfaces[k].id));
      var n :| 0 <= n < |PeersOf(peers, interfaces[k].id)| && PeersOf(peers, interfaces[k].id)[n] == peers[i].peer;
      assert 0 <= m < |found| && 0 <= n < |found[m].peers| && found[m].peers[n] == peers[i].peer;
    } else {
      InterfacesOfMember(interfaces[..last], peers, k, i);
      var front := InterfacesOf(interfaces[..last], peers, e);
      var m, n :| 0 <= m < |front| && 0 <= n < |front[m].peers| && front[m].peers[n] == peers[i].peer;
      assert found[m] == front[m];
    }
  }

  class Tables {
    var interfaces: seq<InterfaceRow>
    var peers: seq<PeerRow>
    var nextInterface: int

    constructor ()
      ensures Valid() && interfaces == [] && peers == []
    {
      interfaces, peers, nextInterface := [], [], 1;
    }

    /** Every id in use was handed out before. */
    ghost predicate Valid()
      reads this
    {
      && (forall i :: 0 <= i < |interfaces| ==> interfaces[i].id < nextInterface)
      && (forall i :: 0 <= i < |peers| ==> peers[i].interface < nextInterface)
    }

    /** What GetJobInterfaces and GetJobInterfacePeers return together. */
    function Stored(execution: int): seq<JobInterface>
      reads this
    {
      InterfacesOf(interfaces, peers, execution)
    }

    method CreateJobInterface(execution: int, kind: InterfaceKind, path: string) returns (id: int)
      requires Valid()
      modifies this
      ensures Valid() && id == old(nextInterface) && nextInterface == id + 1
      ensures interfaces == old(interfaces) + [InterfaceRow(id, execution, kind, path)] && peers == old(peers)
    {
      id := nextInterface;
      nextInterface := nextInterface + 1;
      interfaces := interfaces + [InterfaceRow(id, execution, kind, path)];
    }

    method CreateJobInterfacePeer(id: int, peer: InterfacePeer)
      requires Valid() && id < nextInterface
      modifies this`peers
      ensures Valid() && peers == old(peers) + [PeerRow(id, peer)]
    {
      peers := peers + [PeerRow(id, peer)];
    }

    /** The WHERE clause of UpdateJobInterfacePeerJobExecutionID. */
    predicate Matches(row: PeerRow, execution: int, peer: string, workflowJob: int)
      reads this
    {
      && (exists i ::
            0 <= i < |interfaces| && interfaces[i].id == row.interface && interfaces[i].execution == execution)
      && row.peer.peer == peer && row.peer.workflowJob == Some(workflowJob) && row.peer.mount == Output
    }

    method UpdateJobInterfacePeerJobExecutionID(execution: int, peer: string, peerExecution: int, workflowJob: int)
      modifies this`peers
      ensures |peers| == |old(peers)|
      ensures forall i, k ::
                && 0 <= i < |peers| && 0 <= k < |interfaces|
                && interfaces[k].id == old(peers)[i].interface && interfaces[k].execution == execution
                && old(peers)[i].peer.peer == peer && old(peers)[i].peer.workflowJob == Some(workflowJob)
                && old(peers)[i].peer.mount == Output
                ==> peers[i] == old(peers)[i].(peer := old(peers)[i].peer.(execution := Some(peerExecution)))
      ensures forall i :: 0 <= i < |peers| && peers[i] != old(peers)[i] ==>
                && old(peers)[i].peer.peer == peer && old(peers)[i].peer.workflowJob == Some(workflowJob)
                && old(peers)[i].peer.mount == Output
                && exists k :: 0 <= k < |interfaces|
                     && interfaces[k].id == old(peers)[i].interface && interfaces[k].execution == execution
    {
      var updated := [];
      for i := 0 to |peers|
        invariant |updated| == i
        invariant forall j :: 0 <= j < i ==>
                    updated[j] == if Matches(peers[j], execution, peer, workflowJob)
                                  then peers[j].(peer := peers[j].peer.(execution := Some(peerExecution)))
                                  else peers[j]
      {
        if Matches(peers[i], execution, peer, workflowJob) {
          updated := updated + [peers[i].(peer := peers[i].peer.(execution := Some(peerExecution)))];
        } else {
          updated := updated + [peers[i]];
        }
      }
      peers := updated;
    }
  }
}
