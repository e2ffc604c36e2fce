/**
 * Sending an encrypted package in 1 MB chunks (transferPackageRemotely of
 * internal/core/job_manager.go) and putting it together again at the receiver
 * (HandleDataChunk of internal/workers/data_worker.go).
 */
module PackageTransfer {
  import opened Results
  import S = Streaming
  import opened Bytes

  /** What is transferred is the output of the streaming encryption. */
  type Data = seq<S.Cell>
  const ZERO := S.Clear(0)

  datatype Chunk = Chunk(index: int, total: nat, data: Data, isLast: bool)

  /** The sender's fixed chunk size. */
  const SIZE: nat := 1048576

  function TotalChunks(file: Data): nat {
    (|file| + SIZE - 1) / SIZE
  }

  function Min(a: int, b: int): int {
    if a < b then a else b
  }

  function Piece(file: Data, i: nat): Data
    requires i * SIZE <= |file|
  {
    file[i * SIZE..Min(i * SIZE + SIZE, |file|)]
  }

  /** Every index has its place in the file, and only the last piece may be short. */
  lemma Places(file: Data, i: nat)
    requires i < TotalChunks(file)
    ensures i * SIZE < |file|
    ensures i < TotalChunks(file) - 1 ==> i * SIZE + SIZE < |file|
    ensures i == TotalChunks(file) - 1 ==> i * SIZE + SIZE >= |file|
  {
  }

  /** The chunks a file is announced as. */
  function ChunkAt(file: Data, i: nat): Chunk
    requires i < TotalChunks(file)
  {
    Places(file, i);
    Chunk(i, TotalChunks(file), Piece(file, i), i == TotalChunks(file) - 1)
  }

  function FirstChunks(file: Data, k: nat): (s: seq<Chunk>)
    requires k <= TotalChunks(file)
    ensures |s| == k && forall i :: 0 <= i < k ==> s[i] == ChunkAt(file, i)
  {
    if k == 0 then [] else FirstChunks(file, k - 1) + [ChunkAt(file, k - 1)]
  }

  function Joined(chunks: seq<Chunk>): Data {
    if chunks == [] then [] else Joined(chunks[..|chunks| - 1]) + chunks[|chunks| - 1].data
  }

  lemma JoinedStep(file: Data, k: nat)
    requires 0 < k <= TotalChunks(file)
    ensures (k - 1) * SIZE <= |file|
    ensures Joined(FirstChunks(file, k)) == Joined(FirstChunks(file, k - 1)) + Piece(file, k - 1)
  {
    Places(file, k - 1);
    var s := FirstChunks(file, k);
    assert s[..k - 1] == FirstChunks(file, k - 1);
    assert s[k - 1] == ChunkAt(file, k - 1);
  }

  lemma {:induction false} JoinedPrefix(file: Data, k: nat)
    requires k <= TotalChunks(file)
    ensures Joined(FirstChunks(file, k)) == file[..Min(k * SIZE, |file|)]
    decreases k
  {
    hide Joined, FirstChunks;
    if k == 0 {
      NothingJoined(file);
    } else {
      JoinedPrefix(file, k - 1);
      JoinedStep(file, k);
      var a := (k - 1) * SIZE;
      assert file[..Min(k * SIZE, |file|)] == file[..a] + Piece(file, k - 1);
    }
  }

  lemma NothingJoined(file: Data)
    ensures Joined(FirstChunks(file, 0)) == []
  {
  }

  /** The chunks carry the whole file, and exactly the final one is marked as last. */
  lemma ChunksAreTheFile(file: Data)
    ensures Joined(FirstChunks(file, TotalChunks(file))) == file
    ensures (TotalChunks(file) - 1) * 1048576 < |file| <= TotalChunks(file) * 1048576
    ensures forall i :: 0 <= i < TotalChunks(file) ==>
              var c := FirstChunks(file, TotalChunks(file))[i];
              c.index == i && c.total == TotalChunks(file) && 0 < |c.data| <= 1048576
    ensures file != [] ==> TotalChunks(file) >= 1 && FirstChunks(file, TotalChunks(file))[TotalChunks(file) - 1].isLast
    ensures forall i :: 0 <= i < TotalChunks(file) - 1 ==> !FirstChunks(file, TotalChunks(file))[i].isLast
  {
    hide Joined;
    JoinedPrefix(file, TotalChunks(file));
  }

  /** Some of the three attempts for chunk `i` is answered without an error. */
  predicate Gets(answers: (int, int) -> bool, i: int) {
    answers(i, 0) || answers(i, 1) || answers(i, 2)
  }

  /** The retry loop for one chunk. */
  method SendWithRetry(answers: (int, int) -> bool, i: int) returns (sent: bool)
    ensures sent <==> Gets(answers, i)
    ensures sent <==> exists attempt :: 0 <= attempt < 3 && answers(i, attempt)
  {
    sent := false;
    var attempt := 0;
    while attempt < 3 && !sent
      invariant 0 <= attempt <= 3
      invariant sent ==> Gets(answers, i)
      invariant !sent ==> forall a :: 0 <= a < attempt ==> !answers(i, a)
      decreases 3 - attempt, !sent
    {
      if answers(i, attempt) {
        sent := true;
      } else {
        attempt := attempt + 1;
      }
    }
  }

  /** The chunks as they leave: each read gets the next index. */
  function Numbered(parts: seq<Data>, total: nat): (s: seq<Chunk>)
    ensures |s| == |parts|
    ensures forall i :: 0 <= i < |s| ==> s[i] == Chunk(i, total, parts[i], i == total - 1)
  {
    seq(|parts|, i requires 0 <= i < |parts| => Chunk(i, total, parts[i], i == total - 1))
  }

  /** The send loop, for any sequence of reads.  It succeeds exactly when every chunk gets
      through, and stops at the first that does not. */
  method TransferPackageRemotely(file: Data, parts: seq<Data>, answers: (int, int) -> bool)
    returns (ok: bool, sent: seq<Chunk>)
    requires S.Reads(parts, SIZE) && S.Flat(parts) == file
    ensures ok <==> forall i :: 0 <= i < |parts| ==> Gets(answers, i)
    ensures |sent| <= |parts| && sent == Numbered(parts, TotalChunks(file))[..|sent|]
    ensures forall i :: 0 <= i < |sent| ==>
              var total := (|file| + 1048575) / 1048576;
              sent[i] == Chunk(i, total, parts[i], i == total - 1)
    ensures if ok then |sent| == |parts| else |sent| < |parts| && !Gets(answers, |sent|)
  {
    var totalChunks := (|file| + SIZE - 1) / SIZE;
    var chunkIndex := 0;
    sent := [];
    while chunkIndex < |parts|
      invariant 0 <= chunkIndex <= |parts|
      invariant sent == Numbered(parts, totalChunks)[..chunkIndex]
      invariant forall i :: 0 <= i < chunkIndex ==> Gets(answers, i)
    {
      var chunk := Chunk(chunkIndex, totalChunks, parts[chunkIndex], chunkIndex == totalChunks - 1);
      var through := SendWithRetry(answers, chunkIndex);
      if !through {
        return false, sent;
      }
      sent := sent + [chunk];
      chunkIndex := chunkIndex + 1;
    }
    return true, sent;
  }

  lemma {:induction false} FullReadsAre(parts: seq<Data>, file: Data)
    requires S.Reads(parts, SIZE) && S.Flat(parts) == file && S.AllButLastFull(parts, SIZE)
    ensures parts == S.FullReads(file, SIZE)
    decreases |parts|
  {
    if |parts| > 1 {
      assert |S.Flat(parts[1..])| >= |parts[1]| by {
        assert parts[1..][0] == parts[1];
      }
      assert file[..SIZE] == parts[0] && file[SIZE..] == S.Flat(parts[1..]);
      FullReadsAre(parts[1..], S.Flat(parts[1..]));
    } else if |parts| == 1 {
      assert S.Flat(parts[1..]) == [] && file == parts[0];
    }
  }

  lemma {:induction false} FullReadsPieces(file: Data, i: nat)
    ensures |S.FullReads(file, SIZE)| == TotalChunks(file)
    ensures i < TotalChunks(file) ==> i * SIZE <= |file| && S.FullReads(file, SIZE)[i] == Piece(file, i)
    decreases |file|
  {
    if i < TotalChunks(file) {
      Places(file, i);
    }
    if |file| > SIZE {
      var tail := file[SIZE..];
      FullReadsPieces(tail, if i > 0 then i - 1 else 0);
      if 0 < i < TotalChunks(file) {
        assert Piece(tail, i - 1) == Piece(file, i);
      }
    }
  }

  /** What is sent is what was announced exactly when every read but the last filled the
      buffer. */
  lemma AsAnnouncedIff(file: Data, parts: seq<Data>)
    requires S.Reads(parts, SIZE) && S.Flat(parts) == file
    ensures Numbered(parts, TotalChunks(file)) == FirstChunks(file, TotalChunks(file))
            <==> S.AllButLastFull(parts, SIZE)
  {
    var n := TotalChunks(file);
    var sent, announced := Numbered(parts, n), FirstChunks(file, n);
    if S.AllButLastFull(parts, SIZE) {
      FullReadsAre(parts, file);
      FullReadsPieces(file, 0);
      forall i | 0 <= i < n
        ensures sent[i] == announced[i]
      {
        FullReadsPieces(file, i);
      }
    }
    if sent == announced {
      forall i | 0 <= i < |parts| - 1
        ensures |parts[i]| == SIZE
      {
        Places(file, i);
        assert sent[i] == announced[i] == ChunkAt(file, i);
      }
    }
  }

  // ------------------------------------------------------------------
  // The receiver
  // ------------------------------------------------------------------

  /** `WriteAt` on a file: what lies between its end and the offset becomes zero. */
  function WriteAt(f: Data, offset: nat, data: Data): (g: Data)
    ensures data != [] ==> |g| == if |f| < offset + |data| then offset + |data| else |f|
    ensures data == [] ==> g == f
    ensures forall i :: 0 <= i < |g| ==>
              g[i] == if offset <= i < offset + |data| then data[i - offset] else if i < |f| then f[i] else ZERO
  {
    if data == [] then f
    else
      var n := if |f| < offset + |data| then offset + |data| else |f|;
      seq(n, i requires 0 <= i < n =>
        if offset <= i < offset + |data| then data[i - offset] else if i < |f| then f[i] else ZERO)
  }

  datatype Incoming = Incoming(total: int, received: set<int>, file: Data)

  /** Where the receiver writes chunk `i`. */
  function Offset(size: nat, i: nat): nat {
    i * size
  }

  lemma NextOffset(size: nat, i: nat)
    ensures Offset(size, 0) == 0 && Offset(size, i + 1) == Offset(size, i) + size
  {
  }

  lemma {:induction false} Offsets(size: nat, i: nat, j: nat)
    requires i < j
    ensures Offset(size, i) + size <= Offset(size, j)
    decreases j
  {
    hide Offset;
    NextOffset(size, j - 1);
    if i < j - 1 {
      Offsets(size, i, j - 1);
    }
  }

  /** What HandleDataChunk leaves behind; `size` is the receiver's own chunk size. */
  function Handled(size: nat, t: Incoming, c: Chunk): Incoming {
    if c.index in t.received then t.(total := c.total)
    else if c.index < 0 then t.(total := c.total)
    else Incoming(c.total, t.received + {c.index}, WriteAt(t.file, Offset(size, c.index), c.data))
  }

  predicate Complete(t: Incoming) {
    |t.received| == t.total
  }

  class IncomingTransfer {
    const chunkSize: nat
    var totalChunks: int
    var receivedChunks: set<int>
    var file: Data

    ghost function State(): Incoming
      reads this
    {
      Incoming(totalChunks, receivedChunks, file)
    }

    constructor (size: nat, expected: int)
      ensures chunkSize == size && State() == Incoming(expected, {}, [])
    {
      chunkSize, totalChunks, receivedChunks, file := size, expected, {}, [];
    }

    /** True when this chunk completes the transfer, which is then finalised. */
    method HandleDataChunk(c: Chunk) returns (r: Result<bool>)
      modifies this
      ensures State() == Handled(chunkSize, old(State()), c)
      ensures totalChunks == c.total
      ensures if c.index < 0 || c.index in old(receivedChunks)
              then receivedChunks == old(receivedChunks) && file == old(file)
              else receivedChunks == old(receivedChunks) + {c.index}
                   && file == WriteAt(old(file), c.index * chunkSize, c.data)
      ensures r.Err? <==> c.index < 0 && c.index !in old(receivedChunks)
      ensures r.Ok? ==> (r.value <==> c.index !in old(receivedChunks) && Complete(State()))
      ensures r.Ok? ==> (r.value <==> c.index !in old(receivedChunks) && |receivedChunks| == c.total)
    {
      totalChunks := c.total;
      if c.index in receivedChunks {
        return Ok(false);
      }
      if c.index < 0 {
        return Err("failed to write chunk");
      }
      file := WriteAt(file, Offset(chunkSize, c.index), c.data);
      receivedChunks := receivedChunks + {c.index};
      return Ok(|receivedChunks| == totalChunks);
    }
  }

  const EMPTY := Incoming(0, {}, [])

  /** The chunks of the reads `parts` arriving in any order, any number of times. */
  ghost function Delivered(size: nat, parts: seq<Data>, run: seq<nat>): Incoming
    requires forall i :: 0 <= i < |run| ==> run[i] < |parts|
  {
    if run == [] then EMPTY
    else
      var n := |run| - 1;
      Handled(size, Delivered(size, parts, run[..n]), Numbered(parts, TotalChunks(S.Flat(parts)))[run[n]])
  }

  /** Where the receiver ends chunk `i`. */
  function End(size: nat, parts: seq<Data>, i: nat): nat
    requires i < |parts|
  {
    Offset(size, i) + |parts[i]|
  }

  /** The receiver writes position `p` for chunk `i`. */
  predicate Covers(size: nat, parts: seq<Data>, i: int, p: int) {
    0 <= i < |parts| && Offset(size, i) <= p < End(size, parts, i)
  }

  /** The received set is what arrived, the file ends where the furthest chunk ends, and
      what no chunk covers is zero. */
  ghost predicate Tracks(size: nat, parts: seq<Data>, t: Incoming, run: seq<nat>) {
    && (forall i :: i in t.received <==> i in run)
    && (forall i :: i in t.received ==> 0 <= i < |parts| && End(size, parts, i) <= |t.file|)
    && (|t.file| == 0 || exists i :: i in t.received && 0 <= i < |parts| && End(size, parts, i) == |t.file|)
    && (forall p :: 0 <= p < |t.file| && t.file[p] != ZERO ==> exists i :: i in t.received && Covers(size, parts, i, p))
    && (run != [] ==> t.total == TotalChunks(S.Flat(parts)))
  }

  lemma StepTracks(size: nat, parts: seq<Data>, t: Incoming, run: seq<nat>, i: nat, total: nat)
    requires Tracks(size, parts, t, run) && i < |parts| && parts[i] != [] && total == TotalChunks(S.Flat(parts))
    ensures Tracks(size, parts, Handled(size, t, Numbered(parts, total)[i]), run + [i])
  {
    hide TotalChunks, Offset;
    var u := Handled(size, t, Numbered(parts, total)[i]);
    assert forall j :: j in run + [i] <==> j in run || j == i;
    if i !in t.received {
      assert u.file == WriteAt(t.file, Offset(size, i), parts[i]);
      assert |u.file| == if |t.file| < End(size, parts, i) then End(size, parts, i) else |t.file|;
      assert i in u.received;
      forall p | 0 <= p < |u.file| && u.file[p] != ZERO
        ensures exists j :: j in u.received && Covers(size, parts, j, p)
      {
        if !Covers(size, parts, i, p) {
          var j :| j in t.received && Covers(size, parts, j, p);
          assert j in u.received;
        }
      }
    }
  }

  lemma {:induction false} RunTracks(size: nat, parts: seq<Data>, run: seq<nat>)
    requires S.Reads(parts, SIZE) && forall i :: 0 <= i < |run| ==> run[i] < |parts|
    ensures Tracks(size, parts, Delivered(size, parts, run), run)
    decreases |run|
  {
    if run != [] {
      var n := |run| - 1;
      RunTracks(size, parts, run[..n]);
      hide Tracks, Handled;
      StepTracks(size, parts, Delivered(size, parts, run[..n]), run[..n], run[n], TotalChunks(S.Flat(parts)));
      assert run == run[..n] + [run[n]];
    }
  }

  // ------------------------------------------------------------------
  // When a transfer is complete
  // ------------------------------------------------------------------

  lemma FullSet(s: set<int>, n: nat, i: int)
    requires (forall i :: i in s ==> 0 <= i < n) && |s| == n && 0 <= i < n
    ensures i in s
  {
    if i !in s {
      IntervalSize(s + {i}, 0, n);
      assert false;
    }
  }

  function Range(n: nat): (s: set<int>)
    ensures |s| == n && forall i :: i in s <==> 0 <= i < n
  {
    if n == 0 then {} else Range(n - 1) + {n - 1}
  }

  /** There are at least as many reads as chunks announced. */
  lemma {:induction false} EnoughReads(parts: seq<Data>)
    requires S.Reads(parts, SIZE)
    ensures |S.Flat(parts)| <= |parts| * SIZE && TotalChunks(S.Flat(parts)) <= |parts|
    decreases |parts|
  {
    if parts != [] {
      EnoughReads(parts[1..]);
    }
  }

  /** The receiver counts the transfer complete exactly when as many different chunks have
      arrived as were announced: all of them, or some too few if the reads were more. */
  lemma CompleteIff(size: nat, parts: seq<Data>, run: seq<nat>)
    requires S.Reads(parts, SIZE) && run != [] && forall i :: 0 <= i < |run| ==> run[i] < |parts|
    ensures var total := TotalChunks(S.Flat(parts));
            && (|parts| == total ==>
                  (Complete(Delivered(size, parts, run)) <==> forall i: nat :: i < |parts| ==> i in run))
            && (|parts| > total && Complete(Delivered(size, parts, run)) ==> exists i: nat :: i < |parts| && i !in run)
  {
    hide Delivered;
    RunTracks(size, parts, run);
    var t := Delivered(size, parts, run);
    if |parts| == t.total && Complete(t) {
      forall i: nat | i < |parts|
        ensures i in run
      {
        FullSet(t.received, |parts|, i);
      }
    }
    if forall i: nat :: i < |parts| ==> i in run {
      assert Range(|parts|) == t.received;
    }
  }

  // ------------------------------------------------------------------
  // What it then holds
  // ------------------------------------------------------------------

  /** How much of the file the first `k` reads are. */
  function Sum(parts: seq<Data>, k: nat): nat
    requires k <= |parts|
  {
    if k == 0 then 0 else Sum(parts, k - 1) + |parts[k - 1]|
  }

  lemma {:induction false} SumFromFront(parts: seq<Data>, k: nat)
    requires 0 < k <= |parts|
    ensures Sum(parts, k) == |parts[0]| + Sum(parts[1..], k - 1)
    decreases k
  {
    if k > 1 {
      SumFromFront(parts, k - 1);
    }
  }

  /** Each read lies in the file behind those before it. */
  lemma {:induction false} ReadsInFile(parts: seq<Data>, i: nat)
    ensures |S.Flat(parts)| == Sum(parts, |parts|)
    ensures i < |parts| ==>
              && Sum(parts, i) + |parts[i]| <= |S.Flat(parts)|
              && S.Flat(parts)[Sum(parts, i)..Sum(parts, i) + |parts[i]|] == parts[i]
    decreases |parts|
  {
    if parts != [] {
      SumFromFront(parts, |parts|);
      ReadsInFile(parts[1..], if i > 0 then i - 1 else 0);
      if 0 < i < |parts| {
        SumFromFront(parts, i);
      }
    }
  }

  lemma {:induction false} SumOfFull(parts: seq<Data>, size: nat, k: nat)
    requires k < |parts| && S.AllButLastFull(parts, size)
    ensures Sum(parts, k) == Offset(size, k)
    decreases k
  {
    hide Offset;
    NextOffset(size, if k > 0 then k - 1 else 0);
    if k > 0 {
      SumOfFull(parts, size, k - 1);
    }
  }

  /** Every cell of a received chunk is where it came from. */
  ghost predicate Faithful(size: nat, parts: seq<Data>, t: Incoming) {
    && |t.file| <= |S.Flat(parts)|
    && forall i, p :: i in t.received && Covers(size, parts, i, p) ==> p < |t.file| && t.file[p] == S.Flat(parts)[p]
  }

  lemma InPlace(size: nat, parts: seq<Data>, i: nat)
    requires i < |parts| && S.AllButLastFull(parts, size)
    ensures End(size, parts, i) <= |S.Flat(parts)| && S.Flat(parts)[Offset(size, i)..End(size, parts, i)] == parts[i]
  {
    hide Offset;
    SumOfFull(parts, size, i);
    ReadsInFile(parts, i);
  }

  lemma StepFaithful(size: nat, parts: seq<Data>, t: Incoming, i: nat, total: nat)
    requires Faithful(size, parts, t) && i < |parts| && parts[i] != [] && S.AllButLastFull(parts, size)
    requires forall j :: j in t.received ==> 0 <= j < |parts|
    ensures Faithful(size, parts, Handled(size, t, Numbered(parts, total)[i]))
  {
    hide Offset, S.Flat;
    var u := Handled(size, t, Numbered(parts, total)[i]);
    var file := S.Flat(parts);
    InPlace(size, parts, i);
    if i !in t.received {
      assert u.file == WriteAt(t.file, Offset(size, i), parts[i]);
      forall j, p | j in u.received && Covers(size, parts, j, p)
        ensures p < |u.file| && u.file[p] == file[p]
      {
        if Covers(size, parts, i, p) {
          var o := Offset(size, i);
          assert parts[i][p - o] == file[o..End(size, parts, i)][p - o];
        } else {
          assert j in t.received;
        }
      }
    }
  }

  lemma {:induction false} RunFaithful(size: nat, parts: seq<Data>, run: seq<nat>)
    requires S.Reads(parts, SIZE) && S.AllButLastFull(parts, size) && forall i :: 0 <= i < |run| ==> run[i] < |parts|
    ensures Faithful(size, parts, Delivered(size, parts, run))
    decreases |run|
  {
    hide Faithful, Handled;
    if run == [] {
      NothingFaithful(size, parts);
    } else {
      var n := |run| - 1;
      RunFaithful(size, parts, run[..n]);
      RunTracks(size, parts, run[..n]);
      StepFaithful(size, parts, Delivered(size, parts, run[..n]), run[n], TotalChunks(S.Flat(parts)));
    }
  }

  lemma NothingFaithful(size: nat, parts: seq<Data>)
    ensures Faithful(size, parts, EMPTY)
  {
  }

  /** Reads that all but the last have the receiver's chunk size give the file back. */
  lemma FullReassembled(size: nat, parts: seq<Data>, run: seq<nat>)
    requires S.Reads(parts, SIZE) && S.AllButLastFull(parts, size) && run != []
    requires (forall i :: 0 <= i < |run| ==> run[i] < |parts|) && forall i: nat :: i < |parts| ==> i in run
    ensures Delivered(size, parts, run).file == S.Flat(parts)
  {
    hide Delivered, Offset;
    RunFaithful(size, parts, run);
    RunTracks(size, parts, run);
    var t, file := Delivered(size, parts, run), S.Flat(parts);
    assert run[0] < |parts|;
    var last: nat := |parts| - 1;
    SumOfFull(parts, size, last);
    ReadsInFile(parts, last);
    assert last in run;
    assert |t.file| == |file|;
    forall p | 0 <= p < |file|
      ensures t.file[p] == file[p]
    {
      var i := ReadAt(parts, p, |parts|);
      SumOfFull(parts, size, i);
      assert i in run;
      assert Covers(size, parts, i, p);
    }
  }

  /** The read that a position of the file is from. */
  lemma {:induction false} ReadAt(parts: seq<Data>, p: nat, k: nat) returns (i: nat)
    requires k <= |parts| && p < Sum(parts, k)
    ensures i < k && Sum(parts, i) <= p < Sum(parts, i) + |parts[i]|
    decreases k
  {
    if p < Sum(parts, k - 1) {
      i := ReadAt(parts, p, k - 1);
    } else {
      i := k - 1;
    }
  }

  /** How far the first `k` chunks reach, of those in `got`. */
  function Reach(size: nat, parts: seq<Data>, got: set<int>, k: nat): nat
    requires k <= |parts|
  {
    if k == 0 then 0
    else
      var before := Reach(size, parts, got, k - 1);
      if k - 1 in got && End(size, parts, k - 1) > before then End(size, parts, k - 1) else before
  }

  lemma {:induction false} ReachIsFurthest(size: nat, parts: seq<Data>, got: set<int>, k: nat)
    requires k <= |parts|
    ensures forall i :: 0 <= i < k && i in got ==> End(size, parts, i) <= Reach(size, parts, got, k)
    ensures Reach(size, parts, got, k) == 0
            || exists i :: 0 <= i < k && i in got && End(size, parts, i) == Reach(size, parts, got, k)
    decreases k
  {
    if k > 0 {
      ReachIsFurthest(size, parts, got, k - 1);
    }
  }

  /** There is no gap in front of chunk `j`. */
  ghost predicate Gapless(size: nat, parts: seq<Data>, got: set<int>, j: nat)
    requires j < |parts|
  {
    j in got ==> Offset(size, j) <= Reach(size, parts, got, j)
  }

  /** Chunk `j` is there, and starts where those before it end. */
  ghost predicate Tight(size: nat, parts: seq<Data>, got: set<int>, j: nat)
    requires j < |parts|
  {
    j in got && Sum(parts, j) == Offset(size, j)
  }

  lemma SlackStep(size: nat, parts: seq<Data>, got: set<int>, j: nat)
    requires j < |parts| && parts[j] != [] && Gapless(size, parts, got, j)
    requires Reach(size, parts, got, j) <= Sum(parts, j)
    ensures Reach(size, parts, got, j + 1) <= Sum(parts, j + 1)
    ensures Reach(size, parts, got, j + 1) == Sum(parts, j + 1) ==>
              Tight(size, parts, got, j) && Reach(size, parts, got, j) == Sum(parts, j)
  {
    hide Offset;
  }

  /** Chunks without a gap in front of any reach no further than their lengths together,
      and as far only if none is missing and each starts where those before it end. */
  lemma {:induction false} NoSlack(size: nat, parts: seq<Data>, got: set<int>, k: nat)
    requires k <= |parts| && forall i :: 0 <= i < |parts| ==> parts[i] != []
    requires forall j :: 0 <= j < k ==> Gapless(size, parts, got, j)
    ensures Reach(size, parts, got, k) <= Sum(parts, k)
    ensures Reach(size, parts, got, k) == Sum(parts, k) ==> forall j :: 0 <= j < k ==> Tight(size, parts, got, j)
    decreases k
  {
    if k > 0 {
      hide Gapless, Tight, Reach, Sum;
      NoSlack(size, parts, got, k - 1);
      SlackStep(size, parts, got, k - 1);
    }
  }

  /** A gap would show: no cell is zero from the first place on where a gap can be. */
  ghost predicate ShowsGaps(file: Data, size: nat) {
    forall p :: 0 <= p < |file| && p >= size - 1 ==> file[p] != ZERO
  }

  /** In such a file, one that came out right had no gap in front of any chunk. */
  lemma NoGap(size: nat, parts: seq<Data>, t: Incoming, run: seq<nat>, k: nat)
    requires Tracks(size, parts, t, run) && t.file == S.Flat(parts) && ShowsGaps(t.file, size)
    requires k < |parts| && k in t.received && parts[k] != []
    ensures Offset(size, k) <= Reach(size, parts, t.received, k)
  {
    hide Offset, Reach, S.Flat;
    NextOffset(size, k);
    if Offset(size, k) > 0 {
      Offsets(size, 0, k);
      var p := Offset(size, k) - 1;
      assert p < End(size, parts, k) <= |t.file|;
      assert t.file[p] != ZERO;
      var i :| i in t.received && Covers(size, parts, i, p);
      if k < i {
        Offsets(size, k, i);
      }
      ReachIsFurthest(size, parts, t.received, k);
    }
  }

  lemma OnlyFullReassembled(size: nat, parts: seq<Data>, t: Incoming, run: seq<nat>)
    requires S.Reads(parts, SIZE) && Tracks(size, parts, t, run) && t.file == S.Flat(parts) && ShowsGaps(t.file, size)
    ensures S.AllButLastFull(parts, size) && forall i: nat :: i < |parts| ==> i in run
  {
    hide Offset, ShowsGaps;
    var n := |parts|;
    forall j | 0 <= j < n
      ensures Gapless(size, parts, t.received, j)
    {
      if j in t.received {
        NoGap(size, parts, t, run, j);
      }
    }
    NoSlack(size, parts, t.received, n);
    ReachIsFurthest(size, parts, t.received, n);
    ReadsInFile(parts, 0);
    assert Reach(size, parts, t.received, n) == |t.file|;
    forall i | 0 <= i < n - 1
      ensures |parts[i]| == size
    {
      assert Tight(size, parts, t.received, i) && Tight(size, parts, t.received, i + 1);
      NextOffset(size, i);
    }
    forall i: nat | i < n
      ensures i in run
    {
      assert Tight(size, parts, t.received, i);
    }
  }

  /**
   * Whatever the sender's reads delivered, and in whatever order and however often the
   * chunks arrived: when the receiver counts the transfer complete it holds the sender's
   * file if and only if there were as many reads as announced chunks and every one but
   * the last had the receiver's chunk size.
   */
  lemma ReadsReassembledIff(size: nat, parts: seq<Data>, run: seq<nat>)
    requires S.Reads(parts, SIZE) && run != [] && forall i :: 0 <= i < |run| ==> run[i] < |parts|
    requires Complete(Delivered(size, parts, run))
    requires ShowsGaps(S.Flat(parts), size)
    ensures Delivered(size, parts, run).file == S.Flat(parts) <==>
              |parts| == TotalChunks(S.Flat(parts)) && S.AllButLastFull(parts, size)
  {
    hide Delivered, TotalChunks;
    RunTracks(size, parts, run);
    CompleteIff(size, parts, run);
    EnoughReads(parts);
    if Delivered(size, parts, run).file == S.Flat(parts) {
      OnlyFullReassembled(size, parts, Delivered(size, parts, run), run);
    }
    if |parts| == TotalChunks(S.Flat(parts)) && S.AllButLastFull(parts, size) {
      FullReassembled(size, parts, run);
    }
  }

  // ------------------------------------------------------------------
  // Full reads at the sender
  // ------------------------------------------------------------------

  lemma SmallerSizeTooShort(size: nat, parts: seq<Data>, i: nat)
    requires S.Reads(parts, SIZE) && S.AllButLastFull(parts, SIZE) && size < SIZE && |parts| >= 2 && i < |parts|
    ensures End(size, parts, i) < |S.Flat(parts)|
  {
    var last := |parts| - 1;
    SumOfFull(parts, SIZE, i);
    SumOfFull(parts, SIZE, last);
    ReadsInFile(parts, last);
    SmallerOffset(size, SIZE, i);
    if i < last {
      hide Offset;
      Offsets(SIZE, i, last);
    }
  }

  lemma LargerSizeTooLong(size: nat, parts: seq<Data>)
    requires S.AllButLastFull(parts, SIZE) && size > SIZE && |parts| >= 2
    ensures End(size, parts, |parts| - 1) > |S.Flat(parts)|
  {
    var last := |parts| - 1;
    SumOfFull(parts, SIZE, last);
    ReadsInFile(parts, last);
    SmallerOffset(SIZE, size, last);
  }

  lemma SmallerOffset(a: nat, b: nat, i: nat)
    requires a < b
    ensures Offset(a, i) <= Offset(b, i) && (i > 0 ==> Offset(a, i) < Offset(b, i))
  {
    assert i * b - i * a == i * (b - a);
  }

  /**
   * With full reads at the sender, for every file: when the transfer completes the
   * receiver holds the file exactly if its configured chunk size is the sender's fixed one
   * or there is a single chunk.
   */
  lemma ReassembledIff(size: nat, file: Data, run: seq<nat>)
    requires run != [] && forall i :: 0 <= i < |run| ==> run[i] < |S.FullReads(file, SIZE)|
    requires Complete(Delivered(size, S.FullReads(file, SIZE), run))
    ensures Delivered(size, S.FullReads(file, SIZE), run).file == file <==> size == SIZE || TotalChunks(file) == 1
  {
    hide Delivered, TotalChunks, S.FullReads, Offset;
    var parts := S.FullReads(file, SIZE);
    var t := Delivered(size, parts, run);
    FullReadsPieces(file, 0);
    RunTracks(size, parts, run);
    CompleteIff(size, parts, run);
    assert run[0] < |parts|;
    if size == SIZE || |parts| == 1 {
      FullReassembled(size, parts, run);
    } else if size < SIZE {
      forall i | i in t.received
        ensures 0 <= i < |parts| && End(size, parts, i) < |file|
      {
        SmallerSizeTooShort(size, parts, i);
      }
    } else {
      LargerSizeTooLong(size, parts);
      assert |parts| - 1 in run;
      assert |parts| - 1 in t.received;
    }
  }

  /** Behind its nonce an encrypted file has no zero cell, so every gap shows. */
  lemma PackagesShowGaps(key: nat, nonce: seq<byte>, chunks: seq<S.Plain>, size: nat)
    requires |nonce| == S.NONCE_SIZE && size > S.NONCE_SIZE
    ensures ShowsGaps(S.Encrypted(key, nonce, chunks), size)
  {
    SealedIsCipher(key, nonce, chunks, 0);
  }

  predicate AllCipher(cells: Data) {
    forall p :: 0 <= p < |cells| ==> cells[p].Cipher?
  }

  lemma {:induction false} SealedIsCipher(key: nat, nonce: seq<byte>, chunks: seq<S.Plain>, counter: nat)
    requires |nonce| == S.NONCE_SIZE
    ensures AllCipher(S.Sealed(key, nonce, chunks, counter))
    decreases |chunks|
  {
    if chunks != [] {
      SealedIsCipher(key, nonce, chunks[1..], (counter + 1) % S.WORD);
    }
  }

  /**
   * From the sender's file to the receiver's, with any reads of the package: encrypted, cut
   * into chunks, delivered in any order and any number of times, written at the receiver's
   * offsets.  The package that was sent, whose hash is then compared, has arrived if and
   * only if the reads were as many as announced and of the receiver's chunk size, and
   * decrypting it gives the file back.
   */
  lemma EndToEnd(key: nat, nonce: seq<byte>, file: S.Plain, size: nat, parts: seq<Data>, run: seq<nat>)
    requires |nonce| == S.NONCE_SIZE && size > S.NONCE_SIZE && S.Reads(parts, SIZE)
    requires S.Flat(parts) == S.Encrypted(key, nonce, S.FullReads(file, S.CHUNK))
    requires run != [] && (forall i :: 0 <= i < |run| ==> run[i] < |parts|) && Complete(Delivered(size, parts, run))
    ensures var received := Delivered(size, parts, run).file;
            && (received == S.Flat(parts) <==>
                  |parts| == TotalChunks(S.Flat(parts)) && S.AllButLastFull(parts, size))
            && (received == S.Flat(parts) ==> S.Decrypted(key, received, S.FullBlocks(received)) == Some(file))
  {
    hide Delivered;
    PackagesShowGaps(key, nonce, S.FullReads(file, S.CHUNK), size);
    ReadsReassembledIff(size, parts, run);
    S.FullReadsRoundTrip(key, nonce, file);
  }
}
