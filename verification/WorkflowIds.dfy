/**
 * Translation of node ids: internal/core/workflow_manager.go turns them into
 * workflow-job and execution ids, and internal/core/job_manager.go, which no longer
 * sees node ids, rebuilds its maps from the translated request and stores the rows.
 */
module WorkflowIds {
  import opened Results
  import opened JobTables

  /** The JSON form of a workflow, with node ids. */
  datatype PeerDef = PeerDef(
    peer: string, node: Option<int>, path: string, fileName: Option<string>, mount: MountFunction, duty: bool)
  datatype InterfaceDef = InterfaceDef(kind: InterfaceKind, path: string, peers: seq<PeerDef>)
  datatype JobDef = JobDef(node: int, executor: string, interfaces: seq<InterfaceDef>)

  datatype Job = Job(node: int, executor: string, interfaces: seq<JobInterface>)

  function Get(m: map<int, int>, k: int): Option<int> {
    if k in m then Some(m[k]) else None
  }

  /** Lookup of an optional key. */
  function Via(m: map<int, int>, k: Option<int>): Option<int> {
    match k case None => None case Some(n) => Get(m, n)
  }

  ghost predicate Injective(m: map<int, int>) {
    forall a, b :: a in m && b in m && m[a] == m[b] ==> a == b
  }

  // ------------------------------------------------------------------
  // parseWorkflowDefinition
  // ------------------------------------------------------------------

  function ParsedPeer(d: PeerDef, local: string): InterfacePeer {
    InterfacePeer(if d.peer == "" then local else d.peer, d.node, None, d.path, d.fileName, d.mount, d.duty)
  }

  function ParsedInterface(d: InterfaceDef, local: string): JobInterface {
    JobInterface(d.kind, d.path, seq(|d.peers|, j requires 0 <= j < |d.peers| => ParsedPeer(d.peers[j], local)))
  }

  function ParsedInterfaces(ds: seq<InterfaceDef>, local: string): seq<JobInterface> {
    seq(|ds|, i requires 0 <= i < |ds| => ParsedInterface(ds[i], local))
  }

  method ParseInterfaces(ds: seq<InterfaceDef>, local: string) returns (interfaces: seq<JobInterface>)
    ensures interfaces == ParsedInterfaces(ds, local)
    ensures |interfaces| == |ds|
    ensures forall i :: 0 <= i < |ds| ==>
              && interfaces[i].kind == ds[i].kind && interfaces[i].path == ds[i].path
              && |interfaces[i].peers| == |ds[i].peers|
              && forall j :: 0 <= j < |ds[i].peers| ==>
                   var d := ds[i].peers[j];
                   var peer := if d.peer == "" then local else d.peer;
                   interfaces[i].peers[j] == InterfacePeer(peer, d.node, None, d.path, d.fileName, d.mount, d.duty)
  {
    interfaces := [];
    for i := 0 to |ds|
      invariant interfaces == ParsedInterfaces(ds[..i], local)
    {
      var peers := [];
      for j := 0 to |ds[i].peers|
        invariant |peers| == j
        invariant forall k :: 0 <= k < j ==> peers[k] == ParsedPeer(ds[i].peers[k], local)
      {
        var d := ds[i].peers[j];
        var peer := d.peer;
        if peer == "" {
          peer := local;
        }
        peers := peers + [InterfacePeer(peer, d.node, None, d.path, d.fileName, d.mount, d.duty)];
      }
      assert JobInterface(ds[i].kind, ds[i].path, peers) == ParsedInterface(ds[i], local);
      interfaces := interfaces + [JobInterface(ds[i].kind, ds[i].path, peers)];
      assert ParsedInterfaces(ds[..i + 1], local) == ParsedInterfaces(ds[..i], local) + [ParsedInterface(ds[i], local)];
    }
    assert ds[..|ds|] == ds;
  }

  method ParseWorkflowDefinition(ds: seq<JobDef>, local: string) returns (jobs: seq<Job>)
    ensures |jobs| == |ds|
    ensures forall i :: 0 <= i < |ds| ==>
              jobs[i] == Job(ds[i].node, ds[i].executor, ParsedInterfaces(ds[i].interfaces, local))
  {
    jobs := [];
    for i := 0 to |ds|
      invariant |jobs| == i
      invariant forall k :: 0 <= k < i ==>
                  jobs[k] == Job(ds[k].node, ds[k].executor, ParsedInterfaces(ds[k].interfaces, local))
    {
      var interfaces := ParseInterfaces(ds[i].interfaces, local);
      jobs := jobs + [Job(ds[i].node, ds[i].executor, interfaces)];
    }
  }

  // ------------------------------------------------------------------
  // buildCompleteInterfaces
  // ------------------------------------------------------------------

  /** An id without an entry in a map is left as it is. */
  function CompletedPeer(p: InterfacePeer, toJob: map<int, int>, toExecution: map<int, int>): InterfacePeer {
    match p.workflowJob
    case None => p
    case Some(n) =>
      p.(workflowJob := if n in toJob then Some(toJob[n]) else Some(n),
         execution := if n in toExecution then Some(toExecution[n]) else p.execution)
  }

  function CompletedInterface(i: JobInterface, toJob: map<int, int>, toExecution: map<int, int>): JobInterface {
    i.(peers := seq(|i.peers|, j requires 0 <= j < |i.peers| => CompletedPeer(i.peers[j], toJob, toExecution)))
  }

  function Completed(ifs: seq<JobInterface>, toJob: map<int, int>, toExecution: map<int, int>): seq<JobInterface> {
    seq(|ifs|, i requires 0 <= i < |ifs| => CompletedInterface(ifs[i], toJob, toExecution))
  }

  method BuildCompleteInterfaces(ifs: seq<JobInterface>, toJob: map<int, int>, toExecution: map<int, int>)
    returns (complete: seq<JobInterface>)
    ensures complete == Completed(ifs, toJob, toExecution)
    ensures |complete| == |ifs|
    ensures forall i :: 0 <= i < |ifs| ==>
              && complete[i].kind == ifs[i].kind && complete[i].path == ifs[i].path
              && |complete[i].peers| == |ifs[i].peers|
              && forall j :: 0 <= j < |ifs[i].peers| ==>
                   var p, q := ifs[i].peers[j], complete[i].peers[j];
                   && q == p.(workflowJob := q.workflowJob, execution := q.execution)
                   && (p.workflowJob == None ==> q == p)
                   && (p.workflowJob.Some? && p.workflowJob.value in toJob ==>
                         q.workflowJob == Some(toJob[p.workflowJob.value]))
                   && (p.workflowJob.Some? && p.workflowJob.value !in toJob ==> q.workflowJob == p.workflowJob)
                   && (p.workflowJob.Some? && p.workflowJob.value in toExecution ==>
                         q.execution == Some(toExecution[p.workflowJob.value]))
                   && (p.workflowJob.Some? && p.workflowJob.value !in toExecution ==> q.execution == p.execution)
  {
    complete := [];
    for i := 0 to |ifs|
      invariant complete == Completed(ifs[..i], toJob, toExecution)
    {
      var peers := [];
      for j := 0 to |ifs[i].peers|
        invariant |peers| == j
        invariant forall k :: 0 <= k < j ==> peers[k] == CompletedPeer(ifs[i].peers[k], toJob, toExecution)
      {
        var peer := ifs[i].peers[j];
        if peer.workflowJob.Some? {
          var node := peer.workflowJob.value;
          if node in toJob {
            peer := peer.(workflowJob := Some(toJob[node]));
          }
          if node in toExecution {
            peer := peer.(execution := Some(toExecution[node]));
          }
        }
        peers := peers + [peer];
      }
      assert ifs[i].(peers := peers) == CompletedInterface(ifs[i], toJob, toExecution);
      complete := complete + [ifs[i].(peers := peers)];
      assert Completed(ifs[..i + 1], toJob, toExecution) ==
             Completed(ifs[..i], toJob, toExecution) + [CompletedInterface(ifs[i], toJob, toExecution)];
    }
    assert ifs[..|ifs|] == ifs;
  }

  // ------------------------------------------------------------------
  // HandleJobStart and CreateJobInterfaces
  // ------------------------------------------------------------------

  function AllPeers(ifs: seq<JobInterface>): seq<InterfacePeer> {
    if ifs == [] then [] else AllPeers(ifs[..|ifs| - 1]) + ifs[|ifs| - 1].peers
  }

  /** The execution id of the last peer that names workflow job `w` with one. */
  function LastExecution(ps: seq<InterfacePeer>, w: int): Option<int> {
    if ps == [] then None
    else
      var last := ps[|ps| - 1];
      if last.workflowJob == Some(w) && last.execution.Some? then last.execution
      else LastExecution(ps[..|ps| - 1], w)
  }

  ghost predicate Names(ps: seq<InterfacePeer>, w: int) {
    exists i :: 0 <= i < |ps| && ps[i].workflowJob == Some(w)
  }

  /** The maps that HandleJobStart rebuilds: an identity, and the execution ids. */
  ghost predicate RebuiltFrom(ps: seq<InterfacePeer>, toJob: map<int, int>, toExecution: map<int, int>) {
    && (forall w :: Get(toJob, w) == if Names(ps, w) then Some(w) else None)
    && (forall w :: Get(toExecution, w) == LastExecution(ps, w))
  }

  method RebuildMaps(ifs: seq<JobInterface>) returns (toJob: map<int, int>, toExecution: map<int, int>)
    ensures RebuiltFrom(AllPeers(ifs), toJob, toExecution)
    ensures forall w :: w in toJob <==> exists i :: NamesAt(AllPeers(ifs), w, i)
    ensures forall w :: w in toJob ==> toJob[w] == w
    ensures forall w :: w in toExecution <==> exists i :: NamesLast(AllPeers(ifs), w, i)
    ensures forall w, i :: w in toExecution && NamesLast(AllPeers(ifs), w, i) ==>
              AllPeers(ifs)[i].execution == Some(toExecution[w])
  {
    toJob, toExecution := map[], map[];
    assert RebuiltFrom(AllPeers(ifs[..0]), toJob, toExecution);
    hide RebuiltFrom, LastExecution;
    for i := 0 to |ifs|
      invariant RebuiltFrom(AllPeers(ifs[..i]), toJob, toExecution)
    {
      var peers := ifs[i].peers;
      assert AllPeers(ifs[..i]) + peers[..0] == AllPeers(ifs[..i]);
      for j := 0 to |peers|
        invariant RebuiltFrom(AllPeers(ifs[..i]) + peers[..j], toJob, toExecution)
      {
        var peer := peers[j];
        assert AllPeers(ifs[..i]) + peers[..j + 1] == (AllPeers(ifs[..i]) + peers[..j]) + [peer];
        RebuiltAppend(AllPeers(ifs[..i]) + peers[..j], peer, toJob, toExecution);
        if peer.workflowJob.Some? {
          toJob := toJob[peer.workflowJob.value := peer.workflowJob.value];
        }
        if peer.execution.Some? && peer.workflowJob.Some? {
          toExecution := toExecution[peer.workflowJob.value := peer.execution.value];
        }
      }
      assert peers[..|peers|] == peers;
      assert ifs[..i + 1][..i] == ifs[..i];
    }
    assert ifs[..|ifs|] == ifs;
    RebuiltIs(AllPeers(ifs), toJob, toExecution);
  }

  /** The peer at `i` names the workflow job. */
  predicate NamesAt(ps: seq<InterfacePeer>, w: int, i: int) {
    0 <= i < |ps| && ps[i].workflowJob == Some(w)
  }

  /** The peer at `i` is the last to name the workflow job with an execution. */
  predicate NamesLast(ps: seq<InterfacePeer>, w: int, i: int) {
    && NamesAt(ps, w, i) && ps[i].execution.Some?
    && forall k :: i < k < |ps| && ps[k].workflowJob == Some(w) ==> ps[k].execution == None
  }

  lemma {:induction false} LastExecutionIs(ps: seq<InterfacePeer>, w: int)
    ensures LastExecution(ps, w).Some? <==> exists i :: NamesLast(ps, w, i)
    ensures forall i :: NamesLast(ps, w, i) ==> 0 <= i < |ps| && ps[i].execution == LastExecution(ps, w)
    decreases |ps|
  {
    if ps != [] {
      var n := |ps| - 1;
      var front := ps[..n];
      LastExecutionIs(front, w);
      if ps[n].workflowJob == Some(w) && ps[n].execution.Some? {
        assert NamesLast(ps, w, n);
      } else {
        forall i | 0 <= i < n
          ensures NamesLast(ps, w, i) <==> NamesLast(front, w, i)
        {
          assert front[i] == ps[i];
          assert forall k :: i < k < n ==> front[k] == ps[k];
        }
        assert !NamesLast(ps, w, n);
      }
    }
  }

  /** The maps read off the peers, without the order in which they were filled. */
  lemma RebuiltIs(ps: seq<InterfacePeer>, toJob: map<int, int>, toExecution: map<int, int>)
    requires RebuiltFrom(ps, toJob, toExecution)
    ensures forall w :: w in toJob <==> exists i :: NamesAt(ps, w, i)
    ensures forall w :: w in toJob ==> toJob[w] == w
    ensures forall w :: w in toExecution <==> exists i :: NamesLast(ps, w, i)
    ensures forall w, i :: w in toExecution && NamesLast(ps, w, i) ==>
              0 <= i < |ps| && ps[i].execution == Some(toExecution[w])
  {
    hide LastExecution, NamesLast;
    forall w: int
      ensures w in toJob <==> exists i :: NamesAt(ps, w, i)
      ensures w in toJob ==> toJob[w] == w
      ensures w in toExecution <==> exists i :: NamesLast(ps, w, i)
      ensures forall i :: w in toExecution && NamesLast(ps, w, i) ==>
              0 <= i < |ps| && ps[i].execution == Some(toExecution[w])
    {
      LastExecutionIs(ps, w);
      assert Get(toJob, w) == if Names(ps, w) then Some(w) else None;
      assert Get(toExecution, w) == LastExecution(ps, w);
      if Names(ps, w) {
        var i :| 0 <= i < |ps| && ps[i].workflowJob == Some(w);
        assert NamesAt(ps, w, i);
      }
    }
  }

  /** One more peer, as the loop body treats it. */
  lemma RebuiltAppend(ps: seq<InterfacePeer>, p: InterfacePeer, toJob: map<int, int>, toExecution: map<int, int>)
    requires RebuiltFrom(ps, toJob, toExecution)
    ensures RebuiltFrom(ps + [p],
                        if p.workflowJob.Some? then toJob[p.workflowJob.value := p.workflowJob.value] else toJob,
                        if p.execution.Some? && p.workflowJob.Some?
                        then toExecution[p.workflowJob.value := p.execution.value]
                        else toExecution)
  {
    hide Names;
    NamesAppend(ps, p);
    var all := ps + [p];
    assert all[..|ps|] == ps && all[|ps|] == p;
    forall w: int
      ensures LastExecution(all, w) ==
              if p.workflowJob == Some(w) && p.execution.Some? then p.execution else Get(toExecution, w)
      ensures (if Names(all, w) then Some(w) else None) == if p.workflowJob == Some(w) then Some(w) else Get(toJob, w)
    {
      assert Get(toExecution, w) == LastExecution(ps, w);
    }
  }

  lemma NamesAppend(ps: seq<InterfacePeer>, p: InterfacePeer)
    ensures forall w :: Names(ps + [p], w) <==> Names(ps, w) || p.workflowJob == Some(w)
  {
    var all := ps + [p];
    assert all[|ps|] == p;
    forall w | Names(ps, w)
      ensures Names(all, w)
    {
      var i :| 0 <= i < |ps| && ps[i].workflowJob == Some(w);
      assert all[i] == ps[i];
    }
  }

  /** CreateJobInterfaces fills both ids from its maps and copies the rest. */
  function RekeyedPeer(p: InterfacePeer, toJob: map<int, int>, toExecution: map<int, int>): InterfacePeer {
    p.(workflowJob := Via(toJob, p.workflowJob), execution := Via(toExecution, p.workflowJob))
  }

  function RekeyedInterface(i: JobInterface, toJob: map<int, int>, toExecution: map<int, int>): JobInterface {
    i.(peers := seq(|i.peers|, j requires 0 <= j < |i.peers| => RekeyedPeer(i.peers[j], toJob, toExecution)))
  }

  function Rekeyed(ifs: seq<JobInterface>, toJob: map<int, int>, toExecution: map<int, int>): seq<JobInterface> {
    seq(|ifs|, i requires 0 <= i < |ifs| => RekeyedInterface(ifs[i], toJob, toExecution))
  }

  /** Which INSERTs succeed: of the interface at a position, and of its peers. */
  datatype Inserts = Inserts(interface: int -> bool, peer: (int, int) -> bool)

  function Kept(ps: seq<InterfacePeer>, i: int, ok: Inserts): seq<InterfacePeer> {
    if ps == [] then []
    else
      var n := |ps| - 1;
      Kept(ps[..n], i, ok) + if ok.peer(i, n) then [ps[n]] else []
  }

  /** What is left of the interfaces when failed INSERTs are skipped. */
  function Written(ifs: seq<JobInterface>, ok: Inserts): seq<JobInterface> {
    if ifs == [] then []
    else
      var n := |ifs| - 1;
      Written(ifs[..n], ok) + if ok.interface(n) then [ifs[n].(peers := Kept(ifs[n].peers, n, ok))] else []
  }

  method CreateJobInterfaces(tables: Tables, execution: int, ifs: seq<JobInterface>,
                             toJob: map<int, int>, toExecution: map<int, int>, ok: Inserts)
    requires tables.Valid()
    modifies tables
    ensures tables.Valid()
    ensures tables.Stored(execution) == old(tables.Stored(execution)) + Written(Rekeyed(ifs, toJob, toExecution), ok)
    ensures forall i, j :: 0 <= i < |ifs| && 0 <= j < |ifs[i].peers| ==>
              var p, q := ifs[i].peers[j], RekeyedInterface(ifs[i], toJob, toExecution).peers[j];
              var w := p.workflowJob;
              q == p.(workflowJob := if w.Some? && w.value in toJob then Some(toJob[w.value]) else None,
                      execution := if w.Some? && w.value in toExecution then Some(toExecution[w.value]) else None)
    ensures forall other :: other != execution ==> tables.Stored(other) == old(tables.Stored(other))
  {
    for i := 0 to |ifs|
      invariant tables.Valid()
      invariant tables.Stored(execution) ==
                old(tables.Stored(execution)) + Written(Rekeyed(ifs[..i], toJob, toExecution), ok)
      invariant forall other :: other != execution ==> tables.Stored(other) == old(tables.Stored(other))
    {
      ghost var before := Rekeyed(ifs[..i], toJob, toExecution);
      ghost var it := RekeyedInterface(ifs[i], toJob, toExecution);
      assert Rekeyed(ifs[..i + 1], toJob, toExecution) == before + [it];
      assert (before + [it])[..i] == before;
      if ok.interface(i) {
        CreateOneInterface(tables, execution, ifs[i], toJob, toExecution, i, ok);
      }
    }
    assert ifs[..|ifs|] == ifs;
  }

  method CreateOneInterface(tables: Tables, execution: int, it: JobInterface,
                            toJob: map<int, int>, toExecution: map<int, int>, i: int, ok: Inserts)
    requires tables.Valid()
    modifies tables
    ensures tables.Valid()
    ensures var r := RekeyedInterface(it, toJob, toExecution);
            tables.Stored(execution) == old(tables.Stored(execution)) + [r.(peers := Kept(r.peers, i, ok))]
    ensures forall other :: other != execution ==> tables.Stored(other) == old(tables.Stored(other))
  {
    ghost var peers0 := tables.peers;
    ghost var interfaces0 := tables.interfaces;
    ghost var rekeyed := RekeyedInterface(it, toJob, toExecution).peers;
    var id := tables.CreateJobInterface(execution, it.kind, it.path);
    ghost var added: seq<PeerRow> := [];
    for j := 0 to |it.peers|
      invariant tables.Valid() && tables.nextInterface == id + 1
      invariant tables.interfaces == interfaces0 + [InterfaceRow(id, execution, it.kind, it.path)]
      invariant tables.peers == peers0 + added && |added| == |Kept(rekeyed[..j], i, ok)|
      invariant forall k :: 0 <= k < |added| ==> added[k] == PeerRow(id, Kept(rekeyed[..j], i, ok)[k])
    {
      var peer := it.peers[j];
      var workflowJob, exec := None, None;
      if peer.workflowJob.Some? {
        if peer.workflowJob.value in toJob {
          workflowJob := Some(toJob[peer.workflowJob.value]);
        }
        if peer.workflowJob.value in toExecution {
          exec := Some(toExecution[peer.workflowJob.value]);
        }
      }
      assert rekeyed[..j + 1][..j] == rekeyed[..j];
      if ok.peer(i, j) {
        tables.CreateJobInterfacePeer(id, peer.(workflowJob := workflowJob, execution := exec));
        added := added + [PeerRow(id, peer.(workflowJob := workflowJob, execution := exec))];
      }
    }
    assert rekeyed[..|it.peers|] == rekeyed;
    OneMoreInterface(interfaces0, peers0, InterfaceRow(id, execution, it.kind, it.path), added,
                     JobInterface(it.kind, it.path, Kept(rekeyed, i, ok)));
  }

  /** How many of the first `n` positions satisfy `ok`. */
  function Count(ok: int -> bool, n: nat): nat {
    if n == 0 then 0 else Count(ok, n - 1) + if ok(n - 1) then 1 else 0
  }

  /** What could be written is left in order, and nothing else: the peer at `j` follows as
      many as could be written before it. */
  lemma {:induction false} KeptAt(ps: seq<InterfacePeer>, i: int, ok: Inserts, j: nat)
    ensures |Kept(ps, i, ok)| == Count(k => ok.peer(i, k), |ps|)
    ensures j < |ps| && ok.peer(i, j) ==>
              var at := Count(k => ok.peer(i, k), j);
              at < |Kept(ps, i, ok)| && Kept(ps, i, ok)[at] == ps[j]
    decreases |ps|
  {
    if ps != [] {
      KeptAt(ps[..|ps| - 1], i, ok, j);
      KeptAt(ps[..|ps| - 1], i, ok, 0);
    }
  }

  /** The same for interfaces, each with the peers that could be written. */
  lemma {:induction false} WrittenAt(ifs: seq<JobInterface>, ok: Inserts, i: nat)
    ensures |Written(ifs, ok)| == Count(ok.interface, |ifs|)
    ensures i < |ifs| && ok.interface(i) ==>
              var at := Count(ok.interface, i);
              at < |Written(ifs, ok)| && Written(ifs, ok)[at] == ifs[i].(peers := Kept(ifs[i].peers, i, ok))
    decreases |ifs|
  {
    if ifs != [] {
      WrittenAt(ifs[..|ifs| - 1], ok, i);
    }
  }

  ghost predicate SucceedsAt(ifs: seq<JobInterface>, ok: Inserts, i: int)
    requires 0 <= i < |ifs|
  {
    ok.interface(i) && forall j :: 0 <= j < |ifs[i].peers| ==> ok.peer(i, j)
  }

  ghost predicate AllSucceed(ifs: seq<JobInterface>, ok: Inserts) {
    forall i :: 0 <= i < |ifs| ==> SucceedsAt(ifs, ok, i)
  }

  lemma {:induction false} KeptIff(ps: seq<InterfacePeer>, i: int, ok: Inserts)
    ensures |Kept(ps, i, ok)| <= |ps|
    ensures |Kept(ps, i, ok)| == |ps| <==> forall j :: 0 <= j < |ps| ==> ok.peer(i, j)
    ensures |Kept(ps, i, ok)| == |ps| ==> Kept(ps, i, ok) == ps
    decreases |ps|
  {
    if ps != [] {
      KeptIff(ps[..|ps| - 1], i, ok);
    }
  }

  lemma {:induction false} WrittenShorter(ifs: seq<JobInterface>, ok: Inserts)
    ensures |Written(ifs, ok)| <= |ifs|
    decreases |ifs|
  {
    if ifs != [] {
      WrittenShorter(ifs[..|ifs| - 1], ok);
    }
  }

  lemma {:induction false} AllWritten(ifs: seq<JobInterface>, ok: Inserts)
    requires AllSucceed(ifs, ok)
    ensures Written(ifs, ok) == ifs
    decreases |ifs|
  {
    if ifs != [] {
      var n := |ifs| - 1;
      forall i | 0 <= i < n
        ensures SucceedsAt(ifs[..n], ok, i)
      {
        assert SucceedsAt(ifs, ok, i);
      }
      AllWritten(ifs[..n], ok);
      assert SucceedsAt(ifs, ok, n);
      KeptIff(ifs[n].peers, n, ok);
    }
  }

  /** Interfaces of the shape of `ifs` are left only if every INSERT succeeded. */
  lemma {:induction false} OnlyAllWritten(ifs: seq<JobInterface>, all: seq<JobInterface>, ok: Inserts)
    requires Written(ifs, ok) == all
    requires |all| == |ifs| && forall i :: 0 <= i < |ifs| ==> |all[i].peers| == |ifs[i].peers|
    ensures AllSucceed(ifs, ok)
    decreases |ifs|
  {
    if ifs != [] {
      var n := |ifs| - 1;
      var front := ifs[..n];
      WrittenShorter(front, ok);
      assert ok.interface(n);
      var last := ifs[n].(peers := Kept(ifs[n].peers, n, ok));
      assert all == Written(front, ok) + [last];
      assert all[n] == last;
      KeptIff(ifs[n].peers, n, ok);
      assert SucceedsAt(ifs, ok, n);
      OnlyAllWritten(front, Written(front, ok), ok);
      forall i | 0 <= i < n
        ensures SucceedsAt(ifs, ok, i)
      {
        assert SucceedsAt(front, ok, i);
      }
    }
  }

  lemma OneMoreInterface(interfaces: seq<InterfaceRow>, peers: seq<PeerRow>, row: InterfaceRow, added: seq<PeerRow>,
                         it: JobInterface)
    requires forall i :: 0 <= i < |interfaces| ==> interfaces[i].id < row.id
    requires forall i :: 0 <= i < |peers| ==> peers[i].interface < row.id
    requires row.kind == it.kind && row.path == it.path && |added| == |it.peers|
    requires forall k :: 0 <= k < |added| ==> added[k] == PeerRow(row.id, it.peers[k])
    ensures forall e :: InterfacesOf(interfaces + [row], peers + added, e) ==
                        InterfacesOf(interfaces, peers, e) + if e == row.execution then [it] else []
  {
    PeersOfNone(peers, row.id);
    PeersOfSame(peers, added, row.id);
    assert PeersOf(peers + added, row.id) == it.peers;
    assert (interfaces + [row])[..|interfaces|] == interfaces;
    forall e
      ensures InterfacesOf(interfaces + [row], peers + added, e) ==
              InterfacesOf(interfaces, peers, e) + if e == row.execution then [it] else []
    {
      OlderInterfacesKept(interfaces, peers, added, e);
    }
  }

  /** What a start request leaves in the tables, said without the rebuilt maps. */
  function StartedPeer(p: InterfacePeer, all: seq<InterfacePeer>): InterfacePeer {
    p.(execution := match p.workflowJob case None => None case Some(w) => LastExecution(all, w))
  }

  function StartedInterface(i: JobInterface, all: seq<InterfacePeer>): JobInterface {
    i.(peers := seq(|i.peers|, j requires 0 <= j < |i.peers| => StartedPeer(i.peers[j], all)))
  }

  function Started(ifs: seq<JobInterface>): seq<JobInterface> {
    seq(|ifs|, i requires 0 <= i < |ifs| => StartedInterface(ifs[i], AllPeers(ifs)))
  }

  lemma {:induction false} AllPeersMember(ifs: seq<JobInterface>, i: nat, j: nat)
    requires i < |ifs| && j < |ifs[i].peers|
    ensures ifs[i].peers[j] in AllPeers(ifs)
  {
    if i < |ifs| - 1 {
      AllPeersMember(ifs[..|ifs| - 1], i, j);
    }
  }

  lemma {:induction false} AllPeersFrom(ifs: seq<JobInterface>, p: InterfacePeer) returns (i: nat, j: nat)
    requires p in AllPeers(ifs)
    ensures i < |ifs| && j < |ifs[i].peers| && ifs[i].peers[j] == p
  {
    var n := |ifs| - 1;
    if p in ifs[n].peers {
      i := n;
      j :| 0 <= j < |ifs[n].peers| && ifs[n].peers[j] == p;
    } else {
      i, j := AllPeersFrom(ifs[..n], p);
    }
  }

  lemma RekeyedIsStarted(ifs: seq<JobInterface>, toJob: map<int, int>, toExecution: map<int, int>)
    requires RebuiltFrom(AllPeers(ifs), toJob, toExecution)
    ensures Rekeyed(ifs, toJob, toExecution) == Started(ifs)
  {
    var all := AllPeers(ifs);
    forall i, j | 0 <= i < |ifs| && 0 <= j < |ifs[i].peers|
      ensures RekeyedPeer(ifs[i].peers[j], toJob, toExecution) == StartedPeer(ifs[i].peers[j], all)
    {
      AllPeersMember(ifs, i, j);
      var p := ifs[i].peers[j];
      if p.workflowJob.Some? {
        var k :| 0 <= k < |all| && all[k] == p;
        assert Names(all, p.workflowJob.value);
        assert Get(toJob, p.workflowJob.value) == Some(p.workflowJob.value);
        assert Get(toExecution, p.workflowJob.value) == LastExecution(all, p.workflowJob.value);
      }
    }
    forall i | 0 <= i < |ifs|
      ensures RekeyedInterface(ifs[i], toJob, toExecution) == StartedInterface(ifs[i], all)
    {
      assert RekeyedInterface(ifs[i], toJob, toExecution).peers == StartedInterface(ifs[i], all).peers;
    }
  }

  /** HandleJobStart up to the interface rows. */
  method HandleJobStart(tables: Tables, known: map<int, Execution>, id: int, ifs: seq<JobInterface>, ok: Inserts)
    returns (res: Result<()>)
    requires tables.Valid()
    modifies tables
    ensures tables.Valid()
    ensures res.Ok? <==> id in known
    ensures res.Ok? ==> tables.Stored(id) == old(tables.Stored(id)) + Written(Started(ifs), ok)
    ensures res.Err? ==> tables.Stored(id) == old(tables.Stored(id))
    ensures forall other :: other != id ==> tables.Stored(other) == old(tables.Stored(other))
  {
    if id !in known {
      return Err("job execution not found");
    }
    var toJob, toExecution := RebuildMaps(ifs);
    CreateJobInterfaces(tables, id, ifs, toJob, toExecution, ok);
    RekeyedIsStarted(ifs, toJob, toExecution);
    return Ok(());
  }

  // ------------------------------------------------------------------
  // The composition
  // ------------------------------------------------------------------

  /** What every peer ought to be stored as: the workflow job and the execution of
      its node, the other fields as defined. */
  function ExactPeer(d: PeerDef, local: string, toJob: map<int, int>, toExecution: map<int, int>): InterfacePeer {
    InterfacePeer(
      if d.peer == "" then local else d.peer,
      if d.node.Some? && d.node.value in toJob then Some(toJob[d.node.value]) else None,
      if d.node.Some? && d.node.value in toExecution then Some(toExecution[d.node.value]) else None,
      d.path,
      d.fileName,
      d.mount,
      d.duty)
  }

  function ExactInterface(d: InterfaceDef, local: string, toJob: map<int, int>,
                          toExecution: map<int, int>): JobInterface {
    JobInterface(d.kind, d.path,
                 seq(|d.peers|, j requires 0 <= j < |d.peers| => ExactPeer(d.peers[j], local, toJob, toExecution)))
  }

  function Exact(ds: seq<InterfaceDef>, local: string, toJob: map<int, int>,
                 toExecution: map<int, int>): seq<JobInterface> {
    seq(|ds|, i requires 0 <= i < |ds| => ExactInterface(ds[i], local, toJob, toExecution))
  }

  ghost predicate EveryNodeHasRow(ds: seq<InterfaceDef>, toJob: map<int, int>) {
    forall i, j :: 0 <= i < |ds| && 0 <= j < |ds[i].peers| && ds[i].peers[j].node.Some? ==>
      ds[i].peers[j].node.value in toJob
  }

  lemma {:induction false} LastExecutionWitness(ps: seq<InterfacePeer>, w: int)
    ensures LastExecution(ps, w).Some? ==>
              exists i :: 0 <= i < |ps| && ps[i].workflowJob == Some(w) && ps[i].execution == LastExecution(ps, w)
  {
    if ps != [] {
      LastExecutionWitness(ps[..|ps| - 1], w);
    }
  }

  lemma {:induction false} LastExecutionExists(ps: seq<InterfacePeer>, w: int, p: InterfacePeer)
    requires p in ps && p.workflowJob == Some(w) && p.execution.Some?
    ensures LastExecution(ps, w).Some?
  {
    var last := ps[|ps| - 1];
    if !(last.workflowJob == Some(w) && last.execution.Some?) {
      assert p in ps[..|ps| - 1];
      LastExecutionExists(ps[..|ps| - 1], w, p);
    }
  }

  /** In a completed request an execution id comes only with the workflow job of its node. */
  lemma CompletedCarries(ds: seq<InterfaceDef>, local: string, toJob: map<int, int>, toExecution: map<int, int>,
                         n: int, p: InterfacePeer)
    requires Injective(toJob) && toExecution.Keys <= toJob.Keys && n in toJob
    requires p in AllPeers(Completed(ParsedInterfaces(ds, local), toJob, toExecution))
    requires p.workflowJob == Some(toJob[n]) && p.execution.Some?
    ensures p.execution == Get(toExecution, n)
  {
    var ifs := Completed(ParsedInterfaces(ds, local), toJob, toExecution);
    var i, j := AllPeersFrom(ifs, p);
    assert p == CompletedPeer(ParsedPeer(ds[i].peers[j], local), toJob, toExecution);
  }

  /** A peer whose node has a row is stored exactly, whatever the other peers are. */
  lemma PeerExact(ds: seq<InterfaceDef>, local: string, toJob: map<int, int>, toExecution: map<int, int>, i: nat,
                  j: nat)
    requires Injective(toJob) && toExecution.Keys <= toJob.Keys
    requires i < |ds| && j < |ds[i].peers|
    requires ds[i].peers[j].node.Some? ==> ds[i].peers[j].node.value in toJob
    ensures var ifs := Completed(ParsedInterfaces(ds, local), toJob, toExecution);
            StartedPeer(ifs[i].peers[j], AllPeers(ifs)) == ExactPeer(ds[i].peers[j], local, toJob, toExecution)
  {
    var ifs := Completed(ParsedInterfaces(ds, local), toJob, toExecution);
    var all, p := AllPeers(ifs), ifs[i].peers[j];
    assert p == CompletedPeer(ParsedPeer(ds[i].peers[j], local), toJob, toExecution);
    if ds[i].peers[j].node.Some? {
      var n := ds[i].peers[j].node.value;
      var w := toJob[n];
      LastExecutionWitness(all, w);
      if LastExecution(all, w).Some? {
        var k :| 0 <= k < |all| && all[k].workflowJob == Some(w) && all[k].execution == LastExecution(all, w);
        CompletedCarries(ds, local, toJob, toExecution, n, all[k]);
      } else if n in toExecution {
        AllPeersMember(ifs, i, j);
        LastExecutionExists(all, w, p);
      }
    }
  }

  /**
   * Parse, complete, rebuild and store compose to the exact translation if and only
   * if every node that the job's interfaces name has a workflow_job row.
   */
  lemma TranslationExactIff(ds: seq<InterfaceDef>, local: string, toJob: map<int, int>, toExecution: map<int, int>)
    requires Injective(toJob) && toExecution.Keys <= toJob.Keys
    ensures Started(Completed(ParsedInterfaces(ds, local), toJob, toExecution)) == Exact(ds, local, toJob, toExecution)
            <==> EveryNodeHasRow(ds, toJob)
  {
    var ifs := Completed(ParsedInterfaces(ds, local), toJob, toExecution);
    var got, want := Started(ifs), Exact(ds, local, toJob, toExecution);
    if EveryNodeHasRow(ds, toJob) {
      forall i | 0 <= i < |ds|
        ensures got[i] == want[i]
      {
        forall j | 0 <= j < |ds[i].peers|
          ensures got[i].peers[j] == want[i].peers[j]
        {
          PeerExact(ds, local, toJob, toExecution, i, j);
        }
        assert got[i].peers == want[i].peers;
      }
      assert got == want;
    } else {
      var i, j :| 0 <= i < |ds| && 0 <= j < |ds[i].peers| && ds[i].peers[j].node.Some? &&
        ds[i].peers[j].node.value !in toJob;
      assert got[i].peers[j].workflowJob == ds[i].peers[j].node;
      assert want[i].peers[j].workflowJob == None;
    }
  }

  /** With failing INSERTs included: what a start request leaves in empty tables is the
      exact translation if and only if every INSERT succeeds and every node has a row. */
  lemma StoredExactIff(ds: seq<InterfaceDef>, local: string, toJob: map<int, int>, toExecution: map<int, int>,
                       ok: Inserts)
    requires Injective(toJob) && toExecution.Keys <= toJob.Keys
    ensures var started := Started(Completed(ParsedInterfaces(ds, local), toJob, toExecution));
            Written(started, ok) == Exact(ds, local, toJob, toExecution)
            <==> AllSucceed(started, ok) && EveryNodeHasRow(ds, toJob)
  {
    var started := Started(Completed(ParsedInterfaces(ds, local), toJob, toExecution));
    TranslationExactIff(ds, local, toJob, toExecution);
    var exact := Exact(ds, local, toJob, toExecution);
    if AllSucceed(started, ok) {
      AllWritten(started, ok);
    }
    if Written(started, ok) == exact {
      OnlyAllWritten(started, exact, ok);
      AllWritten(started, ok);
    }
  }
}
