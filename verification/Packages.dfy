/**
 * What a finished job sends to other peers (transferDockerOutputs of
 * internal/core/job_manager.go): which files it collects, which output each package is
 * addressed by, and when everything arrives.
 */
module Packages {
  import opened Results
  import opened JobTables
  import opened WorkflowIds
  import opened TransferPaths

  // ------------------------------------------------------------------
  // Which outputs are collected
  // ------------------------------------------------------------------

  /** A file to be sent to a peer, with the kind of interface it comes from. */
  datatype OutputFile = OutputFile(peer: InterfacePeer, kind: InterfaceKind, file: string)

  predicate IsOutput(kind: InterfaceKind) {
    kind == Stdout || kind == Stderr || kind == Logs || kind == Mount
  }

  /** The peers that receive from this job. */
  function Receivers(ps: seq<InterfacePeer>): seq<InterfacePeer> {
    if ps == [] then []
    else
      var n := |ps| - 1;
      Receivers(ps[..n]) + if ps[n].mount == Input then [ps[n]] else []
  }

  function ToEach(ps: seq<InterfacePeer>, kind: InterfaceKind, file: string): (outputs: seq<OutputFile>)
    ensures |outputs| == |ps| && forall i :: 0 <= i < |ps| ==> outputs[i] == OutputFile(ps[i], kind, file)
  {
    seq(|ps|, i requires 0 <= i < |ps| => OutputFile(ps[i], kind, file))
  }

  /** Every file to every receiver, file by file. */
  function FilesTo(ps: seq<InterfacePeer>, kind: InterfaceKind, files: seq<string>): seq<OutputFile> {
    if files == [] then []
    else
      var n := |files| - 1;
      FilesTo(ps, kind, files[..n]) + ToEach(ps, kind, files[n])
  }

  /** Every additional file to every receiver, receiver by receiver. */
  function ExtrasTo(ps: seq<InterfacePeer>, extra: seq<string>): seq<OutputFile> {
    if ps == [] then []
    else
      var n := |ps| - 1;
      ExtrasTo(ps[..n], extra) + FilesTo([ps[n]], Stdout, extra)
  }

  /** `files` names the files that the interface at a position has. */
  function FromInterfaces(ifs: seq<JobInterface>, files: int -> seq<string>): seq<OutputFile> {
    if ifs == [] then []
    else
      var n := |ifs| - 1;
      FromInterfaces(ifs[..n], files) +
      if IsOutput(ifs[n].kind) then FilesTo(Receivers(ifs[n].peers), ifs[n].kind, files(n)) else []
  }

  function FirstStdout(ifs: seq<JobInterface>): seq<InterfacePeer> {
    if ifs == [] then []
    else if ifs[0].kind == Stdout then ifs[0].peers
    else FirstStdout(ifs[1..])
  }

  /** What transferDockerOutputs collects: the files of the interfaces, then the additional
      files for each receiver of the first STDOUT interface. */
  function Collected(ifs: seq<JobInterface>, files: int -> seq<string>, extra: seq<string>): seq<OutputFile> {
    FromInterfaces(ifs, files) + ExtrasTo(Receivers(FirstStdout(ifs)), extra)
  }

  /** The collecting loops. */
  method CollectOutputs(ifs: seq<JobInterface>, files: int -> seq<string>, extra: seq<string>)
    returns (outputs: seq<OutputFile>)
    ensures outputs == Collected(ifs, files, extra)
  {
    outputs := [];
    for i := 0 to |ifs|
      invariant outputs == FromInterfaces(ifs[..i], files)
    {
      assert ifs[..i + 1][..i] == ifs[..i];
      if IsOutput(ifs[i].kind) {
        var receivers := FilterReceivers(ifs[i].peers);
        var more := SendFiles(receivers, ifs[i].kind, files(i));
        outputs := outputs + more;
      }
    }
    assert ifs[..|ifs|] == ifs;
    var stdout := FindStdout(ifs);
    var receivers := FilterReceivers(stdout);
    ghost var before := outputs;
    for j := 0 to |receivers|
      invariant outputs == before + ExtrasTo(receivers[..j], extra)
    {
      assert receivers[..j + 1][..j] == receivers[..j];
      var more := SendFiles([receivers[j]], Stdout, extra);
      outputs := outputs + more;
    }
    assert receivers[..|receivers|] == receivers;
  }

  method SendFiles(ps: seq<InterfacePeer>, kind: InterfaceKind, files: seq<string>) returns (outputs: seq<OutputFile>)
    ensures outputs == FilesTo(ps, kind, files)
  {
    outputs := [];
    for f := 0 to |files|
      invariant outputs == FilesTo(ps, kind, files[..f])
    {
      assert files[..f + 1][..f] == files[..f];
      ghost var before := outputs;
      for j := 0 to |ps|
        invariant outputs == before + ToEach(ps[..j], kind, files[f])
      {
        var o := OutputFile(ps[j], kind, files[f]);
        assert ToEach(ps[..j + 1], kind, files[f]) == ToEach(ps[..j], kind, files[f]) + [o];
        outputs := outputs + [o];
      }
      assert ps[..|ps|] == ps;
    }
    assert files[..|files|] == files;
  }

  method FilterReceivers(ps: seq<InterfacePeer>) returns (r: seq<InterfacePeer>)
    ensures r == Receivers(ps)
  {
    r := [];
    for j := 0 to |ps|
      invariant r == Receivers(ps[..j])
    {
      assert ps[..j + 1][..j] == ps[..j];
      if ps[j].mount == Input {
        r := r + [ps[j]];
      }
    }
    assert ps[..|ps|] == ps;
  }

  method FindStdout(ifs: seq<JobInterface>) returns (ps: seq<InterfacePeer>)
    ensures ps == FirstStdout(ifs)
  {
    var i := 0;
    assert ifs[0..] == ifs;
    while i < |ifs|
      invariant 0 <= i <= |ifs|
      invariant FirstStdout(ifs) == FirstStdout(ifs[i..])
    {
      if ifs[i].kind == Stdout {
        return ifs[i].peers;
      }
      assert ifs[i..][1..] == ifs[i + 1..];
      i := i + 1;
    }
    return [];
  }

  /** The output goes to one of the peers of an interface of its kind. */
  ghost predicate Within(ifs: seq<JobInterface>, o: OutputFile) {
    exists i, j :: 0 <= i < |ifs| && 0 <= j < |ifs[i].peers| && ifs[i].peers[j] == o.peer && ifs[i].kind == o.kind
  }

  lemma {:induction false} ReceiversWithin(ps: seq<InterfacePeer>, p: InterfacePeer)
    requires p in Receivers(ps)
    ensures p in ps
    decreases |ps|
  {
    if p in Receivers(ps[..|ps| - 1]) {
      ReceiversWithin(ps[..|ps| - 1], p);
    }
  }

  lemma {:induction false} FilesToWithin(ps: seq<InterfacePeer>, kind: InterfaceKind, files: seq<string>, o: OutputFile)
    requires o in FilesTo(ps, kind, files)
    ensures o.peer in ps && o.kind == kind
    decreases |files|
  {
    var n := |files| - 1;
    if o in FilesTo(ps, kind, files[..n]) {
      FilesToWithin(ps, kind, files[..n], o);
    }
  }

  lemma {:induction false} ExtrasToWithin(ps: seq<InterfacePeer>, extra: seq<string>, o: OutputFile)
    requires o in ExtrasTo(ps, extra)
    ensures o.peer in ps && o.kind == Stdout
    decreases |ps|
  {
    var n := |ps| - 1;
    if o in ExtrasTo(ps[..n], extra) {
      ExtrasToWithin(ps[..n], extra, o);
    } else {
      FilesToWithin([ps[n]], Stdout, extra, o);
    }
  }

  lemma {:induction false} FromInterfacesWithin(ifs: seq<JobInterface>, files: int -> seq<string>, o: OutputFile)
    requires o in FromInterfaces(ifs, files)
    ensures Within(ifs, o)
    decreases |ifs|
  {
    var n := |ifs| - 1;
    if o in FromInterfaces(ifs[..n], files) {
      var front := ifs[..n];
      FromInterfacesWithin(front, files, o);
      var i, j :| 0 <= i < n && 0 <= j < |front[i].peers| && front[i].peers[j] == o.peer && front[i].kind == o.kind;
      assert ifs[i].peers[j] == o.peer;
    } else {
      FilesToWithin(Receivers(ifs[n].peers), ifs[n].kind, files(n), o);
      ReceiversWithin(ifs[n].peers, o.peer);
      var j :| 0 <= j < |ifs[n].peers| && ifs[n].peers[j] == o.peer;
      assert Within(ifs, o);
    }
  }

  lemma {:induction false} FirstStdoutWithin(ifs: seq<JobInterface>, o: OutputFile)
    requires o.peer in FirstStdout(ifs) && o.kind == Stdout
    ensures Within(ifs, o)
    decreases |ifs|
  {
    if ifs[0].kind == Stdout {
      var j :| 0 <= j < |ifs[0].peers| && ifs[0].peers[j] == o.peer;
      assert Within(ifs, o);
    } else {
      var rest := ifs[1..];
      FirstStdoutWithin(rest, o);
      var i, j :| 0 <= i < |rest| && 0 <= j < |rest[i].peers| && rest[i].peers[j] == o.peer && rest[i].kind == o.kind;
      assert ifs[i + 1].peers[j] == o.peer;
    }
  }

  lemma CollectedWithin(ifs: seq<JobInterface>, files: int -> seq<string>, extra: seq<string>, o: OutputFile)
    requires o in Collected(ifs, files, extra)
    ensures Within(ifs, o)
  {
    if o in FromInterfaces(ifs, files) {
      FromInterfacesWithin(ifs, files, o);
    } else {
      ExtrasToWithin(Receivers(FirstStdout(ifs)), extra, o);
      ReceiversWithin(FirstStdout(ifs), o.peer);
      FirstStdoutWithin(ifs, o);
    }
  }

  // ------------------------------------------------------------------
  // Which output a package is addressed by
  // ------------------------------------------------------------------

  /** The first collected output for a peer. */
  function FirstFor(outputs: seq<OutputFile>, peer: string): Option<OutputFile> {
    if outputs == [] then None
    else if outputs[0].peer.peer == peer then Some(outputs[0])
    else FirstFor(outputs[1..], peer)
  }

  /** The remoteOutputs map of transferDockerOutputs: one package per remote peer,
      addressed by the first output collected for it. */
  method AddressPackages(outputs: seq<OutputFile>, self: string) returns (address: map<string, OutputFile>)
    ensures forall peer :: peer in address <==> peer != self && peer != "" && FirstFor(outputs, peer).Some?
    ensures forall peer :: peer in address ==> Some(address[peer]) == FirstFor(outputs, peer)
    ensures forall peer :: peer in address <==> peer != self && peer != "" && exists i :: IsFirst(outputs, peer, i)
    ensures forall peer, i :: peer in address && IsFirst(outputs, peer, i) ==> address[peer] == outputs[i]
  {
    var remoteOutputs: map<string, seq<OutputFile>> := map[];
    for i := 0 to |outputs|
      invariant forall peer :: peer in remoteOutputs <==>
                  peer != self && peer != "" && FirstFor(outputs[..i], peer).Some?
      invariant forall peer :: peer in remoteOutputs ==>
                  remoteOutputs[peer] != [] && Some(remoteOutputs[peer][0]) == FirstFor(outputs[..i], peer)
    {
      FirstForAppend(outputs[..i], outputs[i]);
      assert outputs[..i + 1] == outputs[..i] + [outputs[i]];
      var peer := outputs[i].peer.peer;
      var actual := if peer == "" then self else peer;
      if actual != self {
        var before := if peer in remoteOutputs then remoteOutputs[peer] else [];
        remoteOutputs := remoteOutputs[peer := before + [outputs[i]]];
      }
    }
    assert outputs[..|outputs|] == outputs;
    address := map peer | peer in remoteOutputs :: remoteOutputs[peer][0];
    forall peer: string
      ensures FirstFor(outputs, peer).Some? <==> exists i :: IsFirst(outputs, peer, i)
      ensures forall i :: IsFirst(outputs, peer, i) ==> FirstFor(outputs, peer) == Some(outputs[i])
    {
      FirstForIs(outputs, peer);
    }
  }

  /** The output at `i` is for the peer and none before it is. */
  predicate IsFirst(outputs: seq<OutputFile>, peer: string, i: int) {
    0 <= i < |outputs| && outputs[i].peer.peer == peer && forall k :: 0 <= k < i ==> outputs[k].peer.peer != peer
  }

  lemma {:induction false} FirstForIs(outputs: seq<OutputFile>, peer: string)
    ensures FirstFor(outputs, peer).Some? <==> exists i :: IsFirst(outputs, peer, i)
    ensures forall i :: IsFirst(outputs, peer, i) ==> FirstFor(outputs, peer) == Some(outputs[i])
    decreases |outputs|
  {
    if outputs != [] {
      var rest := outputs[1..];
      FirstForIs(rest, peer);
      if outputs[0].peer.peer == peer {
        assert IsFirst(outputs, peer, 0);
      } else {
        forall i | IsFirst(outputs, peer, i)
          ensures IsFirst(rest, peer, i - 1) && rest[i - 1] == outputs[i]
        {
          forall k | 0 <= k < i - 1
            ensures rest[k].peer.peer != peer
          {
            assert outputs[k + 1].peer.peer != peer;
          }
        }
        if i :| IsFirst(rest, peer, i) {
          forall k | 0 <= k < i + 1
            ensures outputs[k].peer.peer != peer
          {
            assert k > 0 ==> rest[k - 1] == outputs[k];
          }
          assert IsFirst(outputs, peer, i + 1);
        }
      }
    }
  }

  lemma {:induction false} FirstForConcat(a: seq<OutputFile>, b: seq<OutputFile>, peer: string)
    ensures FirstFor(a + b, peer) == if FirstFor(a, peer).Some? then FirstFor(a, peer) else FirstFor(b, peer)
    decreases |a|
  {
    if a == [] {
      assert a + b == b;
    } else {
      assert (a + b)[1..] == a[1..] + b;
      FirstForConcat(a[1..], b, peer);
    }
  }

  lemma {:induction false} FirstForAppend(outputs: seq<OutputFile>, o: OutputFile)
    ensures forall peer :: FirstFor(outputs + [o], peer) ==
              if FirstFor(outputs, peer).Some? then FirstFor(outputs, peer)
              else if o.peer.peer == peer then Some(o) else None
  {
    if outputs == [] {
      assert ([o])[1..] == [];
    } else {
      FirstForAppend(outputs[1..], o);
      assert (outputs + [o])[1..] == outputs[1..] + [o];
    }
  }

  lemma {:induction false} FirstForFound(outputs: seq<OutputFile>, peer: string)
    ensures var first := FirstFor(outputs, peer);
            first.Some? ==> first.value in outputs && first.value.peer.peer == peer
    ensures FirstFor(outputs, peer).None? ==> forall o :: o in outputs ==> o.peer.peer != peer
    decreases |outputs|
  {
    if outputs != [] {
      FirstForFound(outputs[1..], peer);
      assert forall o :: o in outputs <==> o == outputs[0] || o in outputs[1..];
    }
  }

  // ------------------------------------------------------------------
  // What is collected, said without the loops
  // ------------------------------------------------------------------

  lemma {:induction false} ReceiversAll(ps: seq<InterfacePeer>, j: nat)
    requires j < |ps| && ps[j].mount == Input
    ensures ps[j] in Receivers(ps)
    decreases |ps|
  {
    if j < |ps| - 1 {
      ReceiversAll(ps[..|ps| - 1], j);
    }
  }

  lemma {:induction false} ReceiversOnly(ps: seq<InterfacePeer>, p: InterfacePeer)
    requires p in Receivers(ps)
    ensures p in ps && p.mount == Input
    decreases |ps|
  {
    if p in Receivers(ps[..|ps| - 1]) {
      ReceiversOnly(ps[..|ps| - 1], p);
    }
  }

  lemma {:induction false} FilesToAll(ps: seq<InterfacePeer>, kind: InterfaceKind, files: seq<string>, o: OutputFile)
    ensures o in FilesTo(ps, kind, files) <==> o.peer in ps && o.kind == kind && o.file in files
    decreases |files|
  {
    if files != [] {
      var n := |files| - 1;
      FilesToAll(ps, kind, files[..n], o);
      assert files == files[..n] + [files[n]];
      if o.peer in ps && o.kind == kind && o.file == files[n] {
        var j :| 0 <= j < |ps| && ps[j] == o.peer;
        assert ToEach(ps, kind, files[n])[j] == o;
      }
    }
  }

  lemma {:induction false} ExtrasToAll(ps: seq<InterfacePeer>, extra: seq<string>, o: OutputFile)
    ensures o in ExtrasTo(ps, extra) <==> o.peer in ps && o.kind == Stdout && o.file in extra
    decreases |ps|
  {
    if ps != [] {
      var n := |ps| - 1;
      ExtrasToAll(ps[..n], extra, o);
      FilesToAll([ps[n]], Stdout, extra, o);
      assert ps == ps[..n] + [ps[n]];
    }
  }

  /** `o` is a file of the interface at `i` for one of its receiving peers. */
  predicate OfInterface(ifs: seq<JobInterface>, files: int -> seq<string>, o: OutputFile, i: int) {
    && 0 <= i < |ifs| && ifs[i].kind != Stdin && o.kind == ifs[i].kind
    && o.peer in ifs[i].peers && o.peer.mount == Input && o.file in files(i)
  }

  lemma {:induction false} FromInterfacesAll(ifs: seq<JobInterface>, files: int -> seq<string>, o: OutputFile)
    ensures o in FromInterfaces(ifs, files) <==> exists i :: OfInterface(ifs, files, o, i)
    decreases |ifs|
  {
    if ifs != [] {
      var n := |ifs| - 1;
      var front := ifs[..n];
      FromInterfacesAll(front, files, o);
      FilesToAll(Receivers(ifs[n].peers), ifs[n].kind, files(n), o);
      forall i | 0 <= i < n
        ensures OfInterface(ifs, files, o, i) <==> OfInterface(front, files, o, i)
      {
        assert front[i] == ifs[i];
      }
      if o.peer in ifs[n].peers && o.peer.mount == Input {
        var j :| 0 <= j < |ifs[n].peers| && ifs[n].peers[j] == o.peer;
        ReceiversAll(ifs[n].peers, j);
      }
      if o.peer in Receivers(ifs[n].peers) {
        ReceiversOnly(ifs[n].peers, o.peer);
      }
      assert OfInterface(ifs, files, o, n) <==>
               IsOutput(ifs[n].kind) && o in FilesTo(Receivers(ifs[n].peers), ifs[n].kind, files(n));
    }
  }

  /** The interface at `i` is the first STDOUT. */
  predicate IsFirstStdout(ifs: seq<JobInterface>, i: int) {
    0 <= i < |ifs| && ifs[i].kind == Stdout && forall k :: 0 <= k < i ==> ifs[k].kind != Stdout
  }

  lemma {:induction false} FirstStdoutIs(ifs: seq<JobInterface>, p: InterfacePeer)
    ensures p in FirstStdout(ifs) <==> exists i :: IsFirstStdout(ifs, i) && p in ifs[i].peers
    decreases |ifs|
  {
    if ifs != [] {
      var rest := ifs[1..];
      FirstStdoutIs(rest, p);
      if ifs[0].kind == Stdout {
        assert IsFirstStdout(ifs, 0);
      } else {
        forall i | IsFirstStdout(ifs, i)
          ensures IsFirstStdout(rest, i - 1) && rest[i - 1] == ifs[i]
        {
          forall k | 0 <= k < i - 1
            ensures rest[k].kind != Stdout
          {
            assert ifs[k + 1].kind != Stdout;
          }
        }
        forall i | IsFirstStdout(rest, i)
          ensures IsFirstStdout(ifs, i + 1) && ifs[i + 1] == rest[i]
        {
          forall k | 0 <= k < i + 1
            ensures ifs[k].kind != Stdout
          {
            assert k > 0 ==> rest[k - 1] == ifs[k];
          }
        }
      }
    }
  }

  /** Collected is exactly every file of every interface but STDIN, and every additional
      file for the first STDOUT, for every peer that receives there and no other. */
  lemma CollectedIff(ifs: seq<JobInterface>, files: int -> seq<string>, extra: seq<string>, o: OutputFile)
    ensures o in Collected(ifs, files, extra) <==>
              || (exists i :: OfInterface(ifs, files, o, i))
              || (&& o.kind == Stdout && o.file in extra && o.peer.mount == Input
                  && exists i :: IsFirstStdout(ifs, i) && o.peer in ifs[i].peers)
  {
    hide FromInterfaces, ExtrasTo, FirstStdout, Receivers, OfInterface;
    FromInterfacesAll(ifs, files, o);
    ExtrasToAll(Receivers(FirstStdout(ifs)), extra, o);
    FirstStdoutIs(ifs, o.peer);
    ReceiversIff(FirstStdout(ifs), o.peer);
  }

  lemma ReceiversIff(ps: seq<InterfacePeer>, p: InterfacePeer)
    ensures p in Receivers(ps) <==> p in ps && p.mount == Input
  {
    if p in ps && p.mount == Input {
      var j :| 0 <= j < |ps| && ps[j] == p;
      ReceiversAll(ps, j);
    }
    if p in Receivers(ps) {
      ReceiversOnly(ps, p);
    }
  }

  lemma {:induction false} FirstReceiver(ps: seq<InterfacePeer>, kind: InterfaceKind, file: string, peer: string,
                                         j: nat)
    requires j < |ps| && ps[j].mount == Input && ps[j].peer == peer
    requires forall k :: 0 <= k < j ==> ps[k].mount != Input || ps[k].peer != peer
    ensures FirstFor(ToEach(Receivers(ps), kind, file), peer) == Some(OutputFile(ps[j], kind, file))
    decreases |ps|
  {
    var n := |ps| - 1;
    var before, last := Receivers(ps[..n]), if ps[n].mount == Input then [ps[n]] else [];
    assert ToEach(before + last, kind, file) == ToEach(before, kind, file) + ToEach(last, kind, file);
    FirstForConcat(ToEach(before, kind, file), ToEach(last, kind, file), peer);
    if j < n {
      FirstReceiver(ps[..n], kind, file, peer, j);
    } else {
      FirstForFound(ToEach(before, kind, file), peer);
      forall o | o in ToEach(before, kind, file)
        ensures o.peer.peer != peer
      {
        ReceiversOnly(ps[..n], o.peer);
      }
      assert ToEach(last, kind, file) == [OutputFile(ps[n], kind, file)];
    }
  }

  lemma {:induction false} FirstFile(ps: seq<InterfacePeer>, kind: InterfaceKind, files: seq<string>, peer: string)
    requires files != [] && FirstFor(ToEach(ps, kind, files[0]), peer).Some?
    ensures FirstFor(FilesTo(ps, kind, files), peer) == FirstFor(ToEach(ps, kind, files[0]), peer)
    decreases |files|
  {
    var n := |files| - 1;
    FirstForConcat(FilesTo(ps, kind, files[..n]), ToEach(ps, kind, files[n]), peer);
    if n > 0 {
      FirstFile(ps, kind, files[..n], peer);
    }
  }

  /** The peer receives output of the interface at `i`. */
  predicate Receives(ifs: seq<JobInterface>, files: int -> seq<string>, peer: string, i: int) {
    && 0 <= i < |ifs| && ifs[i].kind != Stdin && files(i) != []
    && exists j :: 0 <= j < |ifs[i].peers| && ifs[i].peers[j].mount == Input && ifs[i].peers[j].peer == peer
  }

  lemma {:induction false} FirstOfInterfaces(ifs: seq<JobInterface>, files: int -> seq<string>, peer: string,
                                             i: nat, j: nat)
    requires i < |ifs| && ifs[i].kind != Stdin && files(i) != []
    requires forall k :: 0 <= k < i ==> !Receives(ifs, files, peer, k)
    requires j < |ifs[i].peers| && ifs[i].peers[j].mount == Input && ifs[i].peers[j].peer == peer
    requires forall k :: 0 <= k < j ==> ifs[i].peers[k].mount != Input || ifs[i].peers[k].peer != peer
    ensures FirstFor(FromInterfaces(ifs, files), peer) == Some(OutputFile(ifs[i].peers[j], ifs[i].kind, files(i)[0]))
    decreases |ifs|
  {
    var n := |ifs| - 1;
    var front := ifs[..n];
    var last := if IsOutput(ifs[n].kind) then FilesTo(Receivers(ifs[n].peers), ifs[n].kind, files(n)) else [];
    FirstForConcat(FromInterfaces(front, files), last, peer);
    forall k | 0 <= k < n
      ensures Receives(front, files, peer, k) <==> Receives(ifs, files, peer, k)
    {
      assert front[k] == ifs[k];
    }
    if i < n {
      FirstOfInterfaces(front, files, peer, i, j);
    } else {
      NoneBefore(front, files, peer);
      FirstReceiver(ifs[n].peers, ifs[n].kind, files(n)[0], peer, j);
      FirstFile(Receivers(ifs[n].peers), ifs[n].kind, files(n), peer);
    }
  }

  lemma NoneBefore(ifs: seq<JobInterface>, files: int -> seq<string>, peer: string)
    requires forall k :: 0 <= k < |ifs| ==> !Receives(ifs, files, peer, k)
    ensures FirstFor(FromInterfaces(ifs, files), peer).None?
  {
    hide Receives, OfInterface;
    var outputs := FromInterfaces(ifs, files);
    FirstForFound(outputs, peer);
    forall o | o in outputs
      ensures o.peer.peer != peer
    {
      FromInterfacesAll(ifs, files, o);
      var k :| OfInterface(ifs, files, o, k);
      SomeReceives(ifs, files, o, k);
    }
  }

  lemma SomeReceives(ifs: seq<JobInterface>, files: int -> seq<string>, o: OutputFile, k: int)
    requires OfInterface(ifs, files, o, k)
    ensures 0 <= k < |ifs| && Receives(ifs, files, o.peer.peer, k)
  {
    var j :| 0 <= j < |ifs[k].peers| && ifs[k].peers[j] == o.peer;
  }

  /** What the package for a peer is addressed by: the first file of the first interface
      with one that the peer receives from, at the peer's first place there. */
  lemma AddressedBy(ifs: seq<JobInterface>, files: int -> seq<string>, extra: seq<string>, peer: string, i: nat, j: nat)
    requires i < |ifs| && ifs[i].kind != Stdin && files(i) != []
    requires forall k :: 0 <= k < i ==> !Receives(ifs, files, peer, k)
    requires j < |ifs[i].peers| && ifs[i].peers[j].mount == Input && ifs[i].peers[j].peer == peer
    requires forall k :: 0 <= k < j ==> ifs[i].peers[k].mount != Input || ifs[i].peers[k].peer != peer
    ensures FirstFor(Collected(ifs, files, extra), peer)
            == Some(OutputFile(ifs[i].peers[j], ifs[i].kind, files(i)[0]))
  {
    FirstOfInterfaces(ifs, files, peer, i, j);
    FirstForConcat(FromInterfaces(ifs, files), ExtrasTo(Receivers(FirstStdout(ifs)), extra), peer);
  }

  // ------------------------------------------------------------------
  // Everything a job sends to other peers
  // ------------------------------------------------------------------

  /** What each peer knows: its executions, and an orchestrator its workflow jobs. */
  datatype Peers = Peers(at: string -> map<int, Execution>, jobs: string -> map<int, Option<int>>)

  /** The peers know the running jobs of the workflow, and the orchestrator those it started. */
  ghost predicate Informed(ids: Ids, s: JobDef, jobs: seq<JobDef>, peers: Peers)
    requires s.node in ids.toJob
  {
    && (forall r :: r in jobs && ids.Running(r) ==>
          ids.RowOf(r).id in peers.at(r.executor) && peers.at(r.executor)[ids.RowOf(r).id] == ids.RowOf(r))
    && ids.toJob[s.node] in peers.jobs(ids.orchestrator) && peers.jobs(ids.orchestrator)[ids.toJob[s.node]].Some?
  }

  /** Where the file of `o` ends in the package for `peer`. */
  function Arrives(ids: Ids, s: JobDef, outputs: seq<OutputFile>, o: OutputFile, peer: string,
                   peers: Peers): Result<TransferPath>
    requires s.node in ids.toJob && s.node in ids.toExecution
  {
    var first := FirstFor(outputs, peer);
    if first.None? then Err("no package")
    else
      var request := RemoteRequest(ids.RowOf(s), first.value.peer, s.executor);
      ReceivedPath(request, peer, peers.at(peer), peers.jobs(peer), Placed(o.kind, o.peer, o.file))
  }

  /** `o` is an output of `s` at `out` for the input at `inp` of `r`, a running job on another peer. */
  ghost predicate ForJob(ids: Ids, s: JobDef, o: OutputFile, out: At, r: JobDef, inp: At) {
    && In(s, out) && In(r, inp) && Edge(ids, s, r, DefAt(s, out), DefAt(r, inp)) && IsInput(r, inp)
    && Translatable(ids, r) && ids.Running(r) && r.executor != s.executor
    && o.peer == RowAt(ids, s, out) && o.kind == KindAt(s, out)
  }

  /** `o` is for the user, on another peer. */
  ghost predicate ForUser(ids: Ids, s: JobDef, o: OutputFile) {
    ToUser(o.peer, ids.orchestrator) && s.executor != ids.orchestrator
  }

  ghost predicate JobSees(ids: Ids, s: JobDef, outputs: seq<OutputFile>, o: OutputFile, r: JobDef, inp: At,
                          peers: Peers)
    requires In(r, inp) && ids.Running(s) && ids.Running(r)
  {
    var written, looked := Arrives(ids, s, outputs, o, r.executor, peers), Looked(ids, r, inp);
    written.Ok? && looked.Some? && Sees(looked.value, written.value)
  }

  ghost predicate UserGets(ids: Ids, s: JobDef, outputs: seq<OutputFile>, o: OutputFile, peers: Peers)
    requires ids.Running(s)
  {
    Arrives(ids, s, outputs, o, ids.orchestrator, peers) == Ok(UserPath(ids, s, Placed(o.kind, o.peer, o.file)))
  }

  /** The receiver's directory lies on the way to where the file is placed. */
  predicate Fits(o: OutputFile, r: JobDef, inp: At)
    requires In(r, inp)
  {
    ReceiverDir(KindAt(r, inp), r.interfaces[inp.interface].path) <= Placed(o.kind, o.peer, o.file)
  }

  /** Every collected output for a running job of the workflow is seen by it, and every
      one for the user is where the user finds it. */
  ghost predicate AllArrive(ids: Ids, s: JobDef, outputs: seq<OutputFile>, jobs: seq<JobDef>, peers: Peers)
    requires ids.Running(s)
  {
    && (forall o, out, r, inp :: o in outputs && r in jobs && ForJob(ids, s, o, out, r, inp) ==>
          JobSees(ids, s, outputs, o, r, inp, peers))
    && (forall o :: o in outputs && ForUser(ids, s, o) ==> UserGets(ids, s, outputs, o, peers))
  }

  lemma WithinRow(ids: Ids, s: JobDef, o: OutputFile) returns (out: At)
    requires Within(RowsOf(ids, s), o)
    ensures In(s, out) && o.peer == RowAt(ids, s, out) && o.kind == KindAt(s, out)
  {
    var rows := RowsOf(ids, s);
    var i, j :| 0 <= i < |rows| && 0 <= j < |rows[i].peers| && rows[i].peers[j] == o.peer && rows[i].kind == o.kind;
    out := At(i, j);
  }

  /** One file for a job: seen exactly when the first output for its peer goes to the same
      execution and the directories fit. */
  lemma JobSeesIff(ids: Ids, s: JobDef, outputs: seq<OutputFile>, o: OutputFile, out: At, r: JobDef, inp: At,
                   jobs: seq<JobDef>, peers: Peers)
    requires Translatable(ids, s) && ids.Running(s) && Informed(ids, s, jobs, peers) && r in jobs
    requires o in outputs && ForJob(ids, s, o, out, r, inp)
    requires forall q :: q in outputs ==> Within(RowsOf(ids, s), q)
    ensures o.peer.peer == r.executor && o.peer.execution == Some(ids.RowOf(r).id)
    ensures var first := FirstFor(outputs, r.executor);
            && first.Some? && first.value in outputs
            && (JobSees(ids, s, outputs, o, r, inp, peers) <==>
                  first.value.peer.execution == o.peer.execution && Fits(o, r, inp))
  {
    hide Translatable, Placed, ReceiverDir;
    assert Translatable(ids, r);
    RowIsExact(ids, s, out);
    FirstForFound(outputs, r.executor);
    var first := FirstFor(outputs, r.executor).value;
    var a := WithinRow(ids, s, first);
    RemotePathsMeetIff(ids, s, r, out, inp, a, peers.at(r.executor), peers.jobs(r.executor), o.file);
  }

  /** One file for the user: right exactly when the first output for the orchestrator is
      for the user. */
  lemma UserGetsIff(ids: Ids, s: JobDef, outputs: seq<OutputFile>, o: OutputFile, jobs: seq<JobDef>, peers: Peers)
    requires Translatable(ids, s) && ids.Running(s) && Informed(ids, s, jobs, peers)
    requires o in outputs && ForUser(ids, s, o)
    requires forall q :: q in outputs ==> Within(RowsOf(ids, s), q)
    ensures var first := FirstFor(outputs, ids.orchestrator);
            && first.Some? && first.value in outputs
            && (UserGets(ids, s, outputs, o, peers) <==> first.value.peer.workflowJob == None)
  {
    hide Placed;
    FirstForFound(outputs, ids.orchestrator);
    var first := FirstFor(outputs, ids.orchestrator).value;
    var a := WithinRow(ids, s, first);
    RowIsExact(ids, s, a);
  }

  /**
   * Everything a job sends to other peers arrives if and only if each output for a job
   * goes to the execution of the first output for its peer and into a directory its
   * receiver looks at, and each output for the user comes with a first one for the user.
   */
  lemma AllArriveIff(ids: Ids, s: JobDef, jobs: seq<JobDef>, files: int -> seq<string>, extra: seq<string>,
                     peers: Peers)
    requires Translatable(ids, s) && ids.Running(s) && Informed(ids, s, jobs, peers)
    ensures var outputs := Collected(RowsOf(ids, s), files, extra);
            AllArrive(ids, s, outputs, jobs, peers) <==>
              && (forall o, out, r, inp :: o in outputs && r in jobs && ForJob(ids, s, o, out, r, inp) ==>
                    && FirstFor(outputs, r.executor).Some?
                    && FirstFor(outputs, r.executor).value.peer.execution == o.peer.execution
                    && Fits(o, r, inp))
              && (forall o :: o in outputs && ForUser(ids, s, o) ==>
                    && FirstFor(outputs, ids.orchestrator).Some?
                    && FirstFor(outputs, ids.orchestrator).value.peer.workflowJob == None)
  {
    hide Translatable, Collected, RowsOf, JobSees, UserGets, Within, ForJob, ForUser, Fits, Informed;
    var outputs := Collected(RowsOf(ids, s), files, extra);
    forall o | o in outputs
      ensures Within(RowsOf(ids, s), o)
    {
      CollectedWithin(RowsOf(ids, s), files, extra, o);
    }
    forall o, out, r, inp | o in outputs && r in jobs && ForJob(ids, s, o, out, r, inp)
      ensures In(r, inp) && ids.Running(r) && FirstFor(outputs, r.executor).Some?
      ensures JobSees(ids, s, outputs, o, r, inp, peers) <==>
                FirstFor(outputs, r.executor).value.peer.execution == o.peer.execution && Fits(o, r, inp)
    {
      ForJobEnds(ids, s, o, out, r, inp);
      JobSeesIff(ids, s, outputs, o, out, r, inp, jobs, peers);
    }
    forall o | o in outputs && ForUser(ids, s, o)
      ensures FirstFor(outputs, ids.orchestrator).Some?
      ensures UserGets(ids, s, outputs, o, peers) <==>
                FirstFor(outputs, ids.orchestrator).value.peer.workflowJob == None
    {
      UserGetsIff(ids, s, outputs, o, jobs, peers);
    }
  }

  lemma ForJobEnds(ids: Ids, s: JobDef, o: OutputFile, out: At, r: JobDef, inp: At)
    requires ForJob(ids, s, o, out, r, inp)
    ensures In(s, out) && In(r, inp) && ids.Running(r) && r.executor != s.executor
  {
  }

  /** Every output for another peer is for the user or for a running job of the workflow. */
  ghost predicate Connected(ids: Ids, s: JobDef, outputs: seq<OutputFile>, jobs: seq<JobDef>) {
    forall o :: o in outputs && o.peer.peer != s.executor ==>
      ForUser(ids, s, o) || exists out, r, inp :: r in jobs && ForJob(ids, s, o, out, r, inp)
  }

  /** The outputs for one remote peer all go to one execution, or all to the user. */
  ghost predicate OneTargetPerPeer(outputs: seq<OutputFile>, self: string) {
    forall o, q :: o in outputs && q in outputs && o.peer.peer == q.peer.peer != self ==>
      o.peer.execution == q.peer.execution
  }

  /** `o` goes to the execution of the first output for its peer. */
  predicate TargetsFirst(outputs: seq<OutputFile>, o: OutputFile) {
    var first := FirstFor(outputs, o.peer.peer);
    first.Some? && first.value.peer.execution == o.peer.execution
  }

  ghost predicate AllFit(ids: Ids, s: JobDef, outputs: seq<OutputFile>, jobs: seq<JobDef>) {
    forall o, out, r, inp :: o in outputs && r in jobs && ForJob(ids, s, o, out, r, inp) ==> Fits(o, r, inp)
  }

  /** A collected output that names no node has no execution. */
  lemma NoNodeNoExecution(ids: Ids, s: JobDef, o: OutputFile)
    requires Translatable(ids, s) && Within(RowsOf(ids, s), o) && o.peer.workflowJob == None
    ensures o.peer.execution == None
  {
    var a := WithinRow(ids, s, o);
    RowIsExact(ids, s, a);
  }

  lemma UserAlone(ids: Ids, s: JobDef, outputs: seq<OutputFile>, o: OutputFile, jobs: seq<JobDef>, peers: Peers)
    requires Translatable(ids, s) && ids.Running(s) && Informed(ids, s, jobs, peers)
    requires Connected(ids, s, outputs, jobs) && OneTargetPerPeer(outputs, s.executor)
    requires forall q :: q in outputs ==> Within(RowsOf(ids, s), q)
    requires o in outputs && ForUser(ids, s, o)
    ensures UserGets(ids, s, outputs, o, peers)
  {
    hide Translatable, Fits, Informed;
    UserGetsIff(ids, s, outputs, o, jobs, peers);
    FirstForFound(outputs, ids.orchestrator);
    var first := FirstFor(outputs, ids.orchestrator).value;
    var a := WithinRow(ids, s, o);
    RowIsExact(ids, s, a);
    if !ForUser(ids, s, first) {
      var out, r, inp :| r in jobs && ForJob(ids, s, first, out, r, inp);
      JobSeesIff(ids, s, outputs, first, out, r, inp, jobs, peers);
    }
  }

  /** Where every output has its receiving end, everything arrives if and only if what the
      job collects for each remote peer has one target and the directories fit. */
  lemma OneTargetIff(ids: Ids, s: JobDef, jobs: seq<JobDef>, files: int -> seq<string>, extra: seq<string>,
                     peers: Peers)
    requires Translatable(ids, s) && ids.Running(s) && Informed(ids, s, jobs, peers)
    requires Connected(ids, s, Collected(RowsOf(ids, s), files, extra), jobs)
    ensures var outputs := Collected(RowsOf(ids, s), files, extra);
            AllArrive(ids, s, outputs, jobs, peers) <==>
              OneTargetPerPeer(outputs, s.executor) && AllFit(ids, s, outputs, jobs)
  {
    hide Translatable, Collected, RowsOf, JobSees, UserGets, Within, ForJob, Fits, Informed;
    var outputs := Collected(RowsOf(ids, s), files, extra);
    forall o | o in outputs
      ensures Within(RowsOf(ids, s), o)
    {
      CollectedWithin(RowsOf(ids, s), files, extra, o);
    }
    if AllArrive(ids, s, outputs, jobs, peers) {
      forall o | o in outputs && o.peer.peer != s.executor
        ensures TargetsFirst(outputs, o)
      {
        if ForUser(ids, s, o) {
          UserGetsIff(ids, s, outputs, o, jobs, peers);
          NoNodeNoExecution(ids, s, o);
          NoNodeNoExecution(ids, s, FirstFor(outputs, ids.orchestrator).value);
        } else {
          var out, r, inp :| r in jobs && ForJob(ids, s, o, out, r, inp);
          ForJobEnds(ids, s, o, out, r, inp);
          JobSeesIff(ids, s, outputs, o, out, r, inp, jobs, peers);
        }
      }
      forall o, q | o in outputs && q in outputs && o.peer.peer == q.peer.peer != s.executor
        ensures o.peer.execution == q.peer.execution
      {
        assert TargetsFirst(outputs, o) && TargetsFirst(outputs, q);
      }
      AllArriveIff(ids, s, jobs, files, extra, peers);
    }
    if OneTargetPerPeer(outputs, s.executor) && AllFit(ids, s, outputs, jobs) {
      forall o, out, r, inp | o in outputs && r in jobs && ForJob(ids, s, o, out, r, inp)
        ensures In(r, inp) && ids.Running(r) && JobSees(ids, s, outputs, o, r, inp, peers)
      {
        ForJobEnds(ids, s, o, out, r, inp);
        JobSeesIff(ids, s, outputs, o, out, r, inp, jobs, peers);
        FirstForFound(outputs, r.executor);
        assert Fits(o, r, inp);
      }
      forall o | o in outputs && ForUser(ids, s, o)
        ensures UserGets(ids, s, outputs, o, peers)
      {
        UserAlone(ids, s, outputs, o, jobs, peers);
      }
    }
  }

  // ------------------------------------------------------------------
  // Two receivers on one peer
  // ------------------------------------------------------------------

  /** A job with two receivers on one remote peer: the package of the second is
      addressed by the first, and its input never appears where it looks. */
  lemma SecondReceiverIsMissed()
    ensures exists ids, s, r, at :: Misses(ids, s, r, at)
  {
    hide Translatable, Edge, RowsOf, RemoteRequest, ReceivedPath, ExpectedPath, Placed, ReceiverDir;
    var ids, s, r, at := TwoReceivers();
    RowIsExact(ids, s, At(0, 0));
    RowIsExact(ids, s, At(0, 1));
    RemotePathsMeetIff(ids, s, r, At(0, 1), At(0, 0), At(0, 0), at, map[], "stdout.txt");
    ReceivedAtB(ids, s, r, at);
    assert Misses(ids, s, r, at);
  }

  /** The second output of `s` goes to `r`, but the package for that peer, addressed by
      the first output, does not arrive where `r` looks. */
  ghost predicate Misses(ids: Ids, s: JobDef, r: JobDef, at: map<int, Execution>) {
    && Translatable(ids, s) && Translatable(ids, r) && ids.Running(s) && ids.Running(r)
    && In(s, At(0, 0)) && In(s, At(0, 1)) && In(r, At(0, 0))
    && Edge(ids, s, r, DefAt(s, At(0, 1)), DefAt(r, At(0, 0)))
    && FirstFor(ToEach(RowsOf(ids, s)[0].peers, Stdout, "stdout.txt"), r.executor)
       == Some(OutputFile(RowAt(ids, s, At(0, 0)), Stdout, "stdout.txt"))
    && var request := RemoteRequest(ids.RowOf(s), RowAt(ids, s, At(0, 0)), s.executor);
       var placed := Placed(Stdout, RowAt(ids, s, At(0, 1)), "stdout.txt");
       var written := ReceivedPath(request, r.executor, at, map[], placed);
       written.Ok? && Looked(ids, r, At(0, 0)).Some? && !Sees(Looked(ids, r, At(0, 0)).value, written.value)
  }

  /** The definition: node 1 on A feeds nodes 3 and 2 on B, in this order. */
  lemma TwoReceivers() returns (ids: Ids, s: JobDef, r: JobDef, at: map<int, Execution>)
    ensures Translatable(ids, s) && Translatable(ids, r) && ids.Running(s) && ids.Running(r)
    ensures In(s, At(0, 0)) && In(s, At(0, 1)) && In(r, At(0, 0))
    ensures KindAt(s, At(0, 1)) == Stdout && KindAt(r, At(0, 0)) == Stdin
    ensures |RowsOf(ids, s)| == 1 && |RowsOf(ids, s)[0].peers| == 2 && RowsOf(ids, s)[0].peers[0].peer == "B"
    ensures Edge(ids, s, r, DefAt(s, At(0, 1)), DefAt(r, At(0, 0)))
    ensures DefAt(s, At(0, 0)).peer == r.executor == "B"
    ensures ids.Stored(DefAt(s, At(0, 0))).execution == Some(23) && ids.Stored(DefAt(s, At(0, 1))).execution == Some(22)
    ensures ids.Stored(DefAt(s, At(0, 0))).workflowJob.Some?
    ensures ids.RowOf(r).id in at && at[ids.RowOf(r).id] == ids.RowOf(r) && 23 in at
  {
    var first := PeerDef("B", Some(3), "", None, Input, false);
    var out := PeerDef("B", Some(2), "", None, Input, false);
    var inp := PeerDef("A", Some(1), "", None, Output, false);
    s := JobDef(1, "A", [InterfaceDef(Stdout, "", [first, out])]);
    r := JobDef(2, "B", [InterfaceDef(Stdin, "", [inp])]);
    ids := Ids("A", map[1 := 11, 2 := 12, 3 := 13], map[1 := 21, 2 := 22, 3 := 23]);
    at := map[22 := ids.RowOf(r), 23 := Execution(23, 13, "A", "B")];
  }

  lemma ReceivedAtB(ids: Ids, s: JobDef, r: JobDef, at: map<int, Execution>)
    requires ids.Running(s) && In(s, At(0, 0)) && In(s, At(0, 1)) && 23 in at
    requires RowAt(ids, s, At(0, 0)).execution == Some(23) && RowAt(ids, s, At(0, 0)).workflowJob.Some?
    ensures var request := RemoteRequest(ids.RowOf(s), RowAt(ids, s, At(0, 0)), s.executor);
            ReceivedPath(request, r.executor, at, map[], Placed(Stdout, RowAt(ids, s, At(0, 1)), "stdout.txt")).Ok?
  {
    hide Placed;
  }
}
