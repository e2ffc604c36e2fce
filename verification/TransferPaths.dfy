/**
 * Where a sender puts its output and where the receiver looks for it:
 * transferOutputLocally, transferDockerOutputs, transferPackageRemotely,
 * HandleJobDataTransferRequest and checkInputsReady of internal/core/job_manager.go,
 * with the paths of internal/utils/path_builder.go.
 */
module TransferPaths {
  import opened Results
  import opened JobTables
  import opened WorkflowIds

  // ------------------------------------------------------------------
  // Paths
  // ------------------------------------------------------------------

  /** The segments between slashes, empty ones included. */
  function Split(s: string): (segments: seq<string>)
    ensures segments != []
  {
    if s == "" then [""] else Prepended(s[0], Split(s[1..]))
  }

  function Prepended(c: char, segments: seq<string>): (r: seq<string>)
    requires segments != []
    ensures r != []
  {
    if c == '/' then [""] + segments else [[c] + segments[0]] + segments[1..]
  }

  /** filepath.Join: `segments` are walked one by one from the clean path `base`. */
  function Walked(base: seq<string>, segments: seq<string>): seq<string>
    decreases |segments|
  {
    if segments == [] then base else Walked(Entered(base, segments[0]), segments[1..])
  }

  function Entered(base: seq<string>, s: string): seq<string> {
    if s == "" || s == "." then base
    else if s == ".." && base != [] && base[|base| - 1] != ".." then base[..|base| - 1]
    else base + [s]
  }

  function Join(base: seq<string>, path: string): seq<string> {
    Walked(base, Split(path))
  }

  /** A name that filepath.Join appends as it is. */
  predicate PlainName(name: string) {
    name != "" && name != "." && name != ".." && forall i :: 0 <= i < |name| ==> name[i] != '/'
  }

  lemma {:induction false} SplitPlain(name: string)
    requires forall i :: 0 <= i < |name| ==> name[i] != '/'
    ensures Split(name) == [name]
    decreases |name|
  {
    if name != "" {
      SplitPlain(name[1..]);
      assert [name[0]] + name[1..] == name;
    }
  }

  lemma WalkName(base: seq<string>, name: string, rest: seq<string>)
    requires PlainName(name)
    ensures Walked(base, [name] + rest) == Walked(base + [name], rest)
  {
    assert ([name] + rest)[1..] == rest;
  }

  lemma JoinPlain(base: seq<string>, name: string)
    requires PlainName(name)
    ensures Join(base, name) == base + [name]
  {
    SplitPlain(name);
    WalkName(base, name, []);
    assert [name] == [name] + [];
  }

  /** The segments put together again, with a slash between any two. */
  function Glued(segments: seq<string>): string
    requires segments != []
  {
    if |segments| == 1 then segments[0] else segments[0] + "/" + Glued(segments[1..])
  }

  predicate SlashFree(segments: seq<string>) {
    forall i, k :: 0 <= i < |segments| && 0 <= k < |segments[i]| ==> segments[i][k] != '/'
  }

  lemma PrependedGlued(c: char, segments: seq<string>)
    requires segments != []
    ensures Glued(Prepended(c, segments)) == [c] + Glued(segments)
    ensures SlashFree(segments) ==> SlashFree(Prepended(c, segments))
  {
    if c == '/' {
      assert ([""] + segments)[1..] == segments;
    } else {
      assert ([[c] + segments[0]] + segments[1..])[1..] == segments[1..];
    }
  }

  /** Splitting loses nothing and leaves no slash. */
  lemma {:induction false} SplitGlued(s: string)
    ensures Glued(Split(s)) == s && SlashFree(Split(s))
    decreases |s|
  {
    if s != "" {
      hide Prepended, SlashFree;
      SplitGlued(s[1..]);
      PrependedGlued(s[0], Split(s[1..]));
      assert s == [s[0]] + s[1..];
    }
  }

  lemma {:induction false} SplitSlash(a: string, b: string)
    ensures Split(a + "/" + b) == Split(a) + Split(b)
    decreases |a|
  {
    if a == "" {
      assert ("" + "/" + b)[1..] == b;
    } else {
      hide Prepended;
      SplitSlash(a[1..], b);
      assert (a + "/" + b)[1..] == a[1..] + "/" + b && (a + "/" + b)[0] == a[0];
      PrependedMore(a[0], Split(a[1..]), Split(b));
    }
  }

  lemma PrependedMore(c: char, a: seq<string>, b: seq<string>)
    requires a != []
    ensures Prepended(c, a + b) == Prepended(c, a) + b
  {
    assert (a + b)[1..] == a[1..] + b;
  }

  lemma {:induction false} WalkedOn(base: seq<string>, a: seq<string>, b: seq<string>)
    ensures Walked(base, a + b) == Walked(Walked(base, a), b)
    decreases |a|
  {
    if a == [] {
      assert a + b == b;
    } else {
      assert (a + b)[1..] == a[1..] + b;
      WalkedOn(Entered(base, a[0]), a[1..], b);
    }
  }

  /** What filepath.Join does, said without its steps: a slash goes on from where the path
      before it leads, a plain name is added, "" and "." stay, and ".." undoes a name. */
  lemma JoinLaws(base: seq<string>, a: string, b: string, name: string)
    requires PlainName(name)
    ensures Join(base, a + "/" + b) == Join(Join(base, a), b)
    ensures Join(base, name) == base + [name]
    ensures Join(base, "") == base && Join(base, ".") == base
    ensures Join(base + [name], "..") == base && Join([], "..") == [".."]
  {
    SplitSlash(a, b);
    WalkedOn(base, Split(a), Split(b));
    JoinPlain(base, name);
    SplitPlain(".");
    SplitPlain("..");
    assert [""][1..] == [] && ["."][1..] == [] && [".."][1..] == [];
    assert (base + [name])[..|base|] == base;
  }

  /** filepath.Base of a relative path. */
  function Base(path: string): string {
    var clean := Join([], path);
    if clean == [] then "." else clean[|clean| - 1]
  }

  lemma BaseIsLast(dir: string, name: string)
    requires PlainName(name)
    ensures Base(name) == name && Base(dir + "/" + name) == name
  {
    JoinLaws([], dir, name, name);
    JoinPlain(Join([], dir), name);
  }

  const INPUT := "input"
  const MOUNTS := "mounts"

  /** The fields of utils.JobPathInfo, and the path below the directory they name. */
  datatype TransferPath = TransferPath(
    orchestrator: string,
    workflowJob: int,
    sender: string,
    senderExecution: int,
    receiver: string,
    receiverExecution: int,
    within: seq<string>)

  /** PathExistsWithContent(looked) once `written` is there: it lies below, or is the file itself. */
  predicate Sees(looked: TransferPath, written: TransferPath) {
    looked.(within := []) == written.(within := []) && looked.within <= written.within
  }

  /** The file name at the destination. */
  function DestName(p: InterfacePeer, file: string): string {
    if p.fileName.Some? && p.fileName.value != "" then p.fileName.value else file
  }

  /** The peer path stands for the input directory. */
  predicate IsInputPath(path: string) {
    path == "" || path == "/" || path == "input" || path == "input/"
  }

  /** Where a local transfer goes, by the peer path alone. */
  function SenderDir(path: string): seq<string> {
    if IsInputPath(path) then [INPUT] else Join([MOUNTS], path)
  }

  /** Where checkInputsReady looks, by the receiver's own interface. */
  function ReceiverDir(kind: InterfaceKind, path: string): seq<string> {
    if kind == Mount then Join([MOUNTS], path) else [INPUT]
  }

  /** Where the manifest of a package puts a file, by the sender's interface. */
  function Placed(kind: InterfaceKind, p: InterfacePeer, file: string): seq<string> {
    if kind == Mount then Join([MOUNTS], DestName(p, Base(file))) else Join([INPUT], DestName(p, file))
  }

  datatype Request = Request(
    workflowJob: int, source: int, destination: int, sourcePeer: string, destinationPeer: string)

  /** transferOutputLocally: the sender's own table knows the receiving job. */
  function LocalPath(job: Execution, p: InterfacePeer, at: map<int, Execution>, file: string): Result<TransferPath> {
    var within := Join(SenderDir(p.path), DestName(p, file));
    if p.execution == None || p.execution.value == 0 then
      Ok(TransferPath(job.ordering, job.workflowJob, job.executor, job.id, job.ordering, 0, within))
    else if p.execution.value !in at then Err("failed to get receiving job execution")
    else
      var receiving := at[p.execution.value];
      Ok(TransferPath(job.ordering, receiving.workflowJob, job.executor, job.id,
                      receiving.executor, p.execution.value, within))
  }

  /** The request that transferPackageRemotely sends for a package addressed to `p`. */
  function RemoteRequest(job: Execution, p: InterfacePeer, self: string): Request {
    var destination :=
      if p.workflowJob == None then 0
      else if p.execution.Some? then p.execution.value
      else 0;
    var workflowJob := if p.workflowJob.Some? then p.workflowJob.value else job.workflowJob;
    Request(workflowJob, job.id, destination, self, p.peer)
  }

  /** HandleJobDataTransferRequest on the peer `self`, with its own executions and,
      on an orchestrator, its workflow jobs and the executions they know of; a file of
      the package is then put at `placed`. */
  function ReceivedPath(r: Request, self: string, at: map<int, Execution>, jobs: map<int, Option<int>>,
                        placed: seq<string>): Result<TransferPath> {
    if r.destination > 0 then
      if r.destination !in at then Err("Destination job not found")
      else
        var receiving := at[r.destination];
        Ok(TransferPath(receiving.ordering, receiving.workflowJob, r.sourcePeer, r.source, self, r.destination, placed))
    else if r.workflowJob !in jobs then Err("Workflow job not found")
    else if jobs[r.workflowJob] == None || r.source == 0 then Err("Missing sender job execution ID")
    else Ok(TransferPath(self, r.workflowJob, r.sourcePeer, r.source, r.destinationPeer, 0, placed))
  }

  /** The transfer directory checkInputsReady inspects for the provider `q` of an interface;
      `None` is the fallback to the job's own directories, or an interface it skips. */
  function ExpectedPath(job: Execution, q: InterfacePeer, kind: InterfaceKind, path: string): Option<TransferPath> {
    if (kind == Stdin || kind == Mount) && q.execution.Some? && q.execution.value > 0 && q.peer != "" then
      Some(TransferPath(job.ordering, job.workflowJob, q.peer, q.execution.value, job.executor, job.id,
                        ReceiverDir(kind, path)))
    else None
  }

  /** When each of the paths exists: a request for an execution only where it is known, one
      for the user only with a started workflow job and a sending execution, and a lookup
      only for an input interface whose provider is known. */
  lemma PathsExistIff(r: Request, self: string, at: map<int, Execution>, jobs: map<int, Option<int>>,
                      placed: seq<string>, job: Execution, p: InterfacePeer, file: string,
                      kind: InterfaceKind, path: string)
    ensures r.destination > 0 ==> (ReceivedPath(r, self, at, jobs, placed).Ok? <==> r.destination in at)
    ensures r.destination <= 0 ==>
              (ReceivedPath(r, self, at, jobs, placed).Ok? <==>
                 r.workflowJob in jobs && jobs[r.workflowJob].Some? && r.source != 0)
    ensures LocalPath(job, p, at, file).Ok?
            <==> p.execution == None || p.execution == Some(0) || p.execution.value in at
    ensures ExpectedPath(job, p, kind, path).Some? <==>
              (kind == Stdin || kind == Mount) && p.execution.Some? && p.execution.value > 0 && p.peer != ""
  {
  }

  // ------------------------------------------------------------------
  // Edges of a workflow definition
  // ------------------------------------------------------------------

  datatype Ids = Ids(orchestrator: string, toJob: map<int, int>, toExecution: map<int, int>) {
    /** The job_executions row that phase 1 creates for a definition. */
    function RowOf(d: JobDef): Execution
      requires d.node in toJob && d.node in toExecution
    {
      Execution(toExecution[d.node], toJob[d.node], orchestrator, d.executor)
    }

    /** The interface peer that the start request leaves in the tables. */
    function Stored(d: PeerDef): InterfacePeer {
      ExactPeer(d, orchestrator, toJob, toExecution)
    }

    ghost predicate Running(d: JobDef) {
      d.node in toJob && d.node in toExecution && toExecution[d.node] > 0
    }
  }

  /** `out` at the sender and `inp` at the receiver are the two ends of one connection. */
  ghost predicate Edge(ids: Ids, s: JobDef, r: JobDef, out: PeerDef, inp: PeerDef) {
    && out.mount == Input && out.node == Some(r.node) && ParsedPeer(out, ids.orchestrator).peer == r.executor
    && inp.mount == Output && inp.node == Some(s.node) && ParsedPeer(inp, ids.orchestrator).peer == s.executor
    && s.executor != "" && r.executor != ""
  }

  /** The rows a job's start request leaves: the whole translation of WorkflowIds. */
  function RowsOf(ids: Ids, d: JobDef): (rows: seq<JobInterface>)
    ensures |rows| == |d.interfaces|
    ensures forall i :: 0 <= i < |rows| ==>
              rows[i].kind == d.interfaces[i].kind && rows[i].path == d.interfaces[i].path
              && |rows[i].peers| == |d.interfaces[i].peers|
  {
    Started(Completed(ParsedInterfaces(d.interfaces, ids.orchestrator), ids.toJob, ids.toExecution))
  }

  ghost predicate Translatable(ids: Ids, d: JobDef) {
    && Injective(ids.toJob) && ids.toExecution.Keys <= ids.toJob.Keys
    && EveryNodeHasRow(d.interfaces, ids.toJob)
  }

  /** Position of a peer in a job's interfaces. */
  datatype At = At(interface: nat, peer: nat)

  predicate In(d: JobDef, a: At) {
    a.interface < |d.interfaces| && a.peer < |d.interfaces[a.interface].peers|
  }

  function DefAt(d: JobDef, a: At): PeerDef
    requires In(d, a)
  {
    d.interfaces[a.interface].peers[a.peer]
  }

  function RowAt(ids: Ids, d: JobDef, a: At): InterfacePeer
    requires In(d, a)
  {
    RowsOf(ids, d)[a.interface].peers[a.peer]
  }

  function KindAt(d: JobDef, a: At): InterfaceKind
    requires In(d, a)
  {
    d.interfaces[a.interface].kind
  }

  lemma RowIsExact(ids: Ids, d: JobDef, a: At)
    requires Translatable(ids, d) && In(d, a)
    ensures RowAt(ids, d, a) == ids.Stored(DefAt(d, a))
  {
    PeerExact(d.interfaces, ids.orchestrator, ids.toJob, ids.toExecution, a.interface, a.peer);
  }

  /** The input of `r` at `inp` is one that checkInputsReady waits for. */
  predicate IsInput(r: JobDef, inp: At)
    requires In(r, inp)
  {
    KindAt(r, inp) == Stdin || KindAt(r, inp) == Mount
  }

  /** What `r` looks at for its input at `inp`. */
  function Looked(ids: Ids, r: JobDef, inp: At): Option<TransferPath>
    requires In(r, inp) && r.node in ids.toJob && r.node in ids.toExecution
  {
    ExpectedPath(ids.RowOf(r), RowAt(ids, r, inp), KindAt(r, inp), r.interfaces[inp.interface].path)
  }

  // ------------------------------------------------------------------
  // Both jobs on one peer
  // ------------------------------------------------------------------

  /**
   * A local transfer always writes below the directory named by the same orchestrator,
   * jobs and executions that the receiver uses; the receiver sees the file exactly when
   * the directory of its interface lies on the way to where the peer path leads.
   */
  lemma LocalPathsMeetIff(ids: Ids, s: JobDef, r: JobDef, out: At, inp: At, at: map<int, Execution>, file: string)
    requires Translatable(ids, s) && Translatable(ids, r) && ids.Running(s) && ids.Running(r)
    requires In(s, out) && In(r, inp) && Edge(ids, s, r, DefAt(s, out), DefAt(r, inp)) && IsInput(r, inp)
    requires ids.RowOf(r).id in at && at[ids.RowOf(r).id] == ids.RowOf(r)
    ensures var written := LocalPath(ids.RowOf(s), RowAt(ids, s, out), at, file);
            var looked := Looked(ids, r, inp);
            var d, path := DefAt(s, out), r.interfaces[inp.interface].path;
            var name := if d.fileName.Some? && d.fileName.value != "" then d.fileName.value else file;
            var toInput := d.path == "" || d.path == "/" || d.path == "input" || d.path == "input/";
            var target := Join(if toInput then ["input"] else Join(["mounts"], d.path), name);
            var dir := if KindAt(r, inp) == Mount then Join(["mounts"], path) else ["input"];
            && written == Ok(TransferPath(ids.orchestrator, ids.toJob[r.node], s.executor, ids.toExecution[s.node],
                                          r.executor, ids.toExecution[r.node], target))
            && looked == Some(TransferPath(ids.orchestrator, ids.toJob[r.node], s.executor, ids.toExecution[s.node],
                                           r.executor, ids.toExecution[r.node], dir))
            && (Sees(looked.value, written.value) <==> dir <= target)
  {
    RowIsExact(ids, s, out);
    RowIsExact(ids, r, inp);
  }

  /** Both ends of a connection carry the receiver's interface path, as the builder of
      workflow definitions leaves them: a MOUNT then sees its file exactly when its path
      does not read as the input directory, and a STDIN when the path leads there. */
  lemma SamePathMeetsIff(kind: InterfaceKind, path: string, name: string)
    requires PlainName(name)
    ensures var toInput := path == "" || path == "/" || path == "input" || path == "input/";
            && (kind == Mount ==> (ReceiverDir(kind, path) <= Join(SenderDir(path), name) <==> !toInput))
            && (kind != Mount ==>
                  (ReceiverDir(kind, path) <= Join(SenderDir(path), name) <==>
                     toInput || (Join(["mounts"], path) + [name])[0] == "input"))
  {
    JoinPlain(SenderDir(path), name);
    if IsInputPath(path) {
      InputPathsBelowMounts(path);
    }
  }

  lemma InputPathsBelowMounts(path: string)
    requires IsInputPath(path)
    ensures Join([MOUNTS], path) != [] && Join([MOUNTS], path)[0] == MOUNTS
  {
    if path == "" {
      SkipEmpty([MOUNTS], []);
      assert Split(path) == [""] + [];
    } else if path == "/" {
      SplitThenSlash("");
      assert "" + "/" == path && ["", ""] == [""] + [""] && [""] == [""] + [];
      SkipEmpty([MOUNTS], [""]);
      SkipEmpty([MOUNTS], []);
    } else {
      InputSegments(path);
      WalkName([MOUNTS], INPUT, if path == "input" then [] else [""]);
      assert [INPUT] == [INPUT] + [] && [INPUT, ""] == [INPUT] + [""] && [""] == [""] + [];
      SkipEmpty([MOUNTS, INPUT], []);
    }
  }

  lemma InputSegments(path: string)
    requires path == "input" || path == "input/"
    ensures Split(path) == if path == "input" then [INPUT] else [INPUT, ""]
  {
    SplitPlain(INPUT);
    if path == "input/" {
      SplitThenSlash(INPUT);
      assert path == INPUT + "/";
    }
  }

  lemma {:induction false} SplitThenSlash(name: string)
    requires forall i :: 0 <= i < |name| ==> name[i] != '/'
    ensures Split(name + "/") == [name, ""]
    decreases |name|
  {
    if name == "" {
      assert ("" + "/")[1..] == "";
    } else {
      SplitThenSlash(name[1..]);
      assert (name + "/")[1..] == name[1..] + "/";
      assert [name[0]] + name[1..] == name && [name[1..], ""][1..] == [""];
    }
  }

  lemma SkipEmpty(base: seq<string>, rest: seq<string>)
    ensures Walked(base, [""] + rest) == Walked(base, rest)
  {
    assert ([""] + rest)[1..] == rest;
  }

  /** A MOUNT whose path was left empty, so that both ends say "input/": the file goes to
      the input directory and the receiver waits in another one. */
  lemma MountWithoutPathMissed(name: string)
    requires PlainName(name)
    ensures !(ReceiverDir(Mount, "input/") <= Join(SenderDir("input/"), name))
  {
    SamePathMeetsIff(Mount, "input/", name);
  }

  // ------------------------------------------------------------------
  // Jobs on two peers
  // ------------------------------------------------------------------

  /**
   * A package is addressed by the peer's first collected output, the one at `first`.  A
   * file of the output at `out` in it is seen by the receiver of `out` exactly when
   * `first` is an output to the same execution and the directory of the receiver's
   * interface lies on the way to where the sender's interface places the file.
   */
  lemma RemotePathsMeetIff(ids: Ids, s: JobDef, r: JobDef, out: At, inp: At, first: At,
                           at: map<int, Execution>, jobs: map<int, Option<int>>, file: string)
    requires Translatable(ids, s) && Translatable(ids, r) && ids.Running(s) && ids.Running(r)
    requires In(s, out) && In(s, first) && In(r, inp)
    requires Edge(ids, s, r, DefAt(s, out), DefAt(r, inp)) && IsInput(r, inp)
    requires ids.RowOf(r).id in at && at[ids.RowOf(r).id] == ids.RowOf(r)
    ensures var request := RemoteRequest(ids.RowOf(s), RowAt(ids, s, first), s.executor);
            var d, path, from := DefAt(s, out), r.interfaces[inp.interface].path, KindAt(s, out);
            var source := if from == Mount then Base(file) else file;
            var name := if d.fileName.Some? && d.fileName.value != "" then d.fileName.value else source;
            var placed := Join(if from == Mount then ["mounts"] else ["input"], name);
            var dir := if KindAt(r, inp) == Mount then Join(["mounts"], path) else ["input"];
            var written := ReceivedPath(request, r.executor, at, jobs, placed);
            var looked := Looked(ids, r, inp);
            && Placed(from, RowAt(ids, s, out), file) == placed
            && looked == Some(TransferPath(ids.orchestrator, ids.toJob[r.node], s.executor, ids.toExecution[s.node],
                                           r.executor, ids.toExecution[r.node], dir))
            && (RowAt(ids, s, first).execution == RowAt(ids, s, out).execution ==>
                  written == Ok(looked.value.(within := placed)))
            && (written.Ok? && Sees(looked.value, written.value) <==>
                  RowAt(ids, s, first).execution == RowAt(ids, s, out).execution && dir <= placed)
  {
    hide Join, Base;
    RowIsExact(ids, s, out);
    RowIsExact(ids, s, first);
    RowIsExact(ids, r, inp);
  }

  /** The directories of a remote edge, for a file whose name is plain: a STDIN sees what a
      STDOUT, STDERR or LOGS sends and nothing from a MOUNT; a MOUNT sees it only if its
      own path leads to the top directory in which the file is placed, above it, or to
      the file itself. */
  lemma RemoteDirectoriesMeetIff(from: InterfaceKind, kind: InterfaceKind, path: string, p: InterfacePeer,
                                 file: string)
    requires PlainName(DestName(p, if from == Mount then Base(file) else file))
    ensures var name := DestName(p, if from == Mount then Base(file) else file);
            var top := if from == Mount then MOUNTS else INPUT;
            var dir := Join([MOUNTS], path);
            && Placed(from, p, file) == [top, name]
            && (kind != Mount ==> (ReceiverDir(kind, path) <= Placed(from, p, file) <==> from != Mount))
            && (kind == Mount ==>
                  (ReceiverDir(kind, path) <= Placed(from, p, file)
                   <==> dir == [] || dir == [top] || dir == [top, name]))
  {
    var name := DestName(p, if from == Mount then Base(file) else file);
    var top := if from == Mount then MOUNTS else INPUT;
    JoinPlain([top], name);
    ShortPrefixes(ReceiverDir(kind, path), top, name);
  }

  lemma ShortPrefixes(d: seq<string>, top: string, name: string)
    ensures d <= [top, name] <==> d == [] || d == [top] || d == [top, name]
  {
    if d <= [top, name] {
      assert d == [top, name][..|d|];
    }
  }

  /** A MOUNT with a directory of its own, as in "/app", never sees a remote file of another name. */
  lemma RemoteMountMissed(from: InterfaceKind, dir: string, p: InterfacePeer, file: string)
    requires PlainName(dir) && PlainName(DestName(p, if from == Mount then Base(file) else file))
    requires dir != DestName(p, if from == Mount then Base(file) else file)
    ensures !(ReceiverDir(Mount, "/" + dir) <= Placed(from, p, file))
  {
    RemoteDirectoriesMeetIff(from, Mount, "/" + dir, p, file);
    SplitPlain(dir);
    assert ("/" + dir)[1..] == dir;
    assert Split("/" + dir) == [""] + [dir];
    SkipEmpty([MOUNTS], [dir]);
    JoinPlain([MOUNTS], dir);
    assert Join([MOUNTS], "/" + dir) == [MOUNTS, dir];
  }

  // ------------------------------------------------------------------
  // Output for the user
  // ------------------------------------------------------------------

  /** The peer is the user at the orchestrator, the "Local Peer": no node is named. */
  predicate ToUser(p: InterfacePeer, orchestrator: string) {
    p.workflowJob == None && p.peer == orchestrator
  }

  /** Where the user finds the output of `s`. */
  function UserPath(ids: Ids, s: JobDef, within: seq<string>): TransferPath
    requires s.node in ids.toJob && s.node in ids.toExecution
  {
    TransferPath(ids.orchestrator, ids.toJob[s.node], s.executor, ids.toExecution[s.node], ids.orchestrator, 0, within)
  }

  /** A local transfer to the user and a package addressed to the user end in one directory. */
  lemma UserPathsAgree(ids: Ids, s: JobDef, out: At, at: map<int, Execution>, jobs: map<int, Option<int>>,
                       file: string, placed: seq<string>)
    requires Translatable(ids, s) && ids.Running(s) && In(s, out) && ToUser(RowAt(ids, s, out), ids.orchestrator)
    requires ids.toJob[s.node] in jobs && jobs[ids.toJob[s.node]].Some?
    ensures var p, user := RowAt(ids, s, out), UserPath(ids, s, placed);
            && user == TransferPath(ids.orchestrator, ids.toJob[s.node], s.executor, ids.toExecution[s.node],
                                    ids.orchestrator, 0, placed)
            && LocalPath(ids.RowOf(s), p, at, file)
               == Ok(user.(within := Join(SenderDir(p.path), DestName(p, file))))
            && ReceivedPath(RemoteRequest(ids.RowOf(s), p, s.executor), ids.orchestrator, at, jobs, placed) == Ok(user)
  {
    hide SenderDir, Join, DestName;
    RowIsExact(ids, s, out);
  }

  // ------------------------------------------------------------------
  // The row update on a transfer request
  // ------------------------------------------------------------------

  /** Each peer of the job names the executor of the node it refers to. */
  ghost predicate RoutesToExecutors(ids: Ids, jobs: seq<JobDef>, r: JobDef) {
    forall i, j :: 0 <= i < |r.interfaces| && 0 <= j < |r.interfaces[i].peers| ==>
      var d := r.interfaces[i].peers[j];
      d.node.Some? ==>
        d.node.value in ids.toJob &&
        forall k :: 0 <= k < |jobs| && jobs[k].node == d.node.value ==>
          ParsedPeer(d, ids.orchestrator).peer == jobs[k].executor
  }

  /**
   * The UPDATE keyed on the request's workflow job finds no row: that id is the
   * receiver's own, and rows that carry it name the receiver's peer, not the sender's.
   */
  method UpdateOnTransfer(t: Tables, ids: Ids, ghost jobs: seq<JobDef>, s: JobDef, r: JobDef, out: PeerDef)
    requires ids.Running(s) && ids.Running(r)
    requires r in jobs && RoutesToExecutors(ids, jobs, r)
    requires Translatable(ids, r) && t.Stored(ids.RowOf(r).id) == RowsOf(ids, r)
    requires s.executor != r.executor && out.node == Some(r.node)
    modifies t`peers
    ensures t.peers == old(t.peers) && t.Stored(ids.RowOf(r).id) == RowsOf(ids, r)
  {
    var request := RemoteRequest(ids.RowOf(s), ids.Stored(out), s.executor);
    forall i | 0 <= i < |t.peers|
      ensures !t.Matches(t.peers[i], request.destination, request.sourcePeer, request.workflowJob)
    {
      NoRowMatches(t, ids, jobs, s, r, i);
    }
    t.UpdateJobInterfacePeerJobExecutionID(request.destination, request.sourcePeer, request.source,
      request.workflowJob);
  }

  lemma NamesNode(ids: Ids, d: PeerDef, node: int)
    requires Injective(ids.toJob) && node in ids.toJob
    ensures ids.Stored(d).workflowJob == Some(ids.toJob[node]) ==> d.node == Some(node)
  {
    if ids.Stored(d).workflowJob == Some(ids.toJob[node]) {
      assert d.node.Some? && d.node.value in ids.toJob;
      assert ids.toJob[d.node.value] == ids.toJob[node];
      assert d.node.value == node;
    }
  }

  /** Rows of `r` that carry the workflow job of `r` name the peer of `r`. */
  lemma OwnRowsNameOwnPeer(t: Tables, ids: Ids, jobs: seq<JobDef>, r: JobDef, i: nat, k: nat)
    requires ids.Running(r)
    requires r in jobs && RoutesToExecutors(ids, jobs, r)
    requires Translatable(ids, r) && t.Stored(ids.RowOf(r).id) == RowsOf(ids, r)
    requires i < |t.peers| && k < |t.interfaces|
    requires t.interfaces[k].id == t.peers[i].interface && t.interfaces[k].execution == ids.RowOf(r).id
    ensures t.peers[i].peer.workflowJob == Some(ids.RowOf(r).workflowJob) ==> t.peers[i].peer.peer == r.executor
  {
    hide RowsOf, InterfacesOf;
    var p := t.peers[i].peer;
    InterfacesOfMember(t.interfaces, t.peers, k, i);
    var rows := RowsOf(ids, r);
    var m, n :| 0 <= m < |rows| && 0 <= n < |rows[m].peers| && rows[m].peers[n] == p;
    RowIsExact(ids, r, At(m, n));
    var d := r.interfaces[m].peers[n];
    var j :| 0 <= j < |jobs| && jobs[j] == r;
    NamesNode(ids, d, r.node);
  }

  lemma NoRowMatches(t: Tables, ids: Ids, jobs: seq<JobDef>, s: JobDef, r: JobDef, i: nat)
    requires ids.Running(s) && ids.Running(r)
    requires r in jobs && RoutesToExecutors(ids, jobs, r)
    requires Translatable(ids, r) && t.Stored(ids.RowOf(r).id) == RowsOf(ids, r)
    requires s.executor != r.executor && i < |t.peers|
    ensures !t.Matches(t.peers[i], ids.RowOf(r).id, s.executor, ids.RowOf(r).workflowJob)
  {
    hide Translatable, RoutesToExecutors;
    forall k | 0 <= k < |t.interfaces| && t.interfaces[k].id == t.peers[i].interface &&
      t.interfaces[k].execution == ids.RowOf(r).id
      ensures t.peers[i].peer.workflowJob == Some(ids.RowOf(r).workflowJob) ==> t.peers[i].peer.peer == r.executor
    {
      OwnRowsNameOwnPeer(t, ids, jobs, r, i, k);
    }
  }
}
