/**
 * Chunked file encryption (internal/core/job_manager.go) and the decryption on the
 * receiving side (internal/workers/data_worker.go).  AES-GCM is symbolic: a sealed
 * chunk is a row of cells 16 longer than the chunk, and only the whole row opens,
 * under the key and nonce it was sealed with.
 */
module Streaming {
  import opened Results
  import opened Bytes

  type Plain = seq<byte>

  datatype Cell = Clear(b: byte) | Cipher(key: nat, nonce: seq<byte>, plain: Plain, index: nat)

  const NONCE_SIZE: nat := 12
  const CHUNK: nat := 65536
  const OVERHEAD: nat := 16

  function Seal(key: nat, nonce: seq<byte>, p: Plain): (c: seq<Cell>)
    ensures |c| == |p| + OVERHEAD
    ensures forall i :: 0 <= i < |c| ==> c[i] == Cipher(key, nonce, p, i)
  {
    seq(|p| + OVERHEAD, i requires 0 <= i => Cipher(key, nonce, p, i))
  }

  function Open(key: nat, nonce: seq<byte>, c: seq<Cell>): (p: Option<Plain>)
    ensures p.Some? ==> c == Seal(key, nonce, p.value)
  {
    if c != [] && c[0].Cipher? && c == Seal(key, nonce, c[0].plain) then Some(c[0].plain) else None
  }

  lemma OpenSealed(key: nat, nonce: seq<byte>, p: Plain)
    ensures Open(key, nonce, Seal(key, nonce, p)) == Some(p)
  {
    assert Seal(key, nonce, p)[0] == Cipher(key, nonce, p, 0);
  }

  // ------------------------------------------------------------------
  // Nonces
  // ------------------------------------------------------------------

  /** `^` on two bytes, or on any two numbers. */
  function Xor(a: nat, b: nat): nat {
    if a == 0 && b == 0 then 0 else (a + b) % 2 + 2 * Xor(a / 2, b / 2)
  }

  lemma {:induction false} XorBounded(a: nat, b: nat, n: nat)
    requires a < Pow(2, n) && b < Pow(2, n)
    ensures Xor(a, b) < Pow(2, n)
    decreases n
  {
    if a != 0 || b != 0 {
      XorBounded(a / 2, b / 2, n - 1);
    }
  }

  lemma {:induction false} XorCancel(x: nat, a: nat, b: nat)
    requires Xor(x, a) == Xor(x, b)
    ensures a == b
    decreases x + a + b
  {
    if x != 0 || a != 0 || b != 0 {
      XorCancel(x / 2, a / 2, b / 2);
    }
  }

  lemma HalfAndBit(bit: nat, half: nat)
    requires bit < 2
    ensures (bit + 2 * half) % 2 == bit && (bit + 2 * half) / 2 == half
  {
  }

  lemma XorBits(a: nat, b: nat)
    ensures Xor(a, b) % 2 == (a + b) % 2 && Xor(a, b) / 2 == Xor(a / 2, b / 2)
  {
    var bit, half := (a + b) % 2, Xor(a / 2, b / 2);
    assert Xor(a, b) == bit + 2 * half;
    hide Xor;
    HalfAndBit(bit, half);
  }

  lemma {:induction false} XorZero(a: nat)
    ensures Xor(a, 0) == a
    decreases a
  {
    if a != 0 {
      XorZero(a / 2);
    }
  }

  lemma {:induction false} XorCommutes(a: nat, b: nat)
    ensures Xor(a, b) == Xor(b, a)
    decreases a + b
  {
    if a != 0 || b != 0 {
      hide Xor;
      XorCommutes(a / 2, b / 2);
      XorBits(a, b);
      XorBits(b, a);
    }
  }

  lemma Parity(x: nat, a: nat, b: nat)
    requires x % 2 == (a + b) % 2
    ensures (x + b) % 2 == a % 2
  {
  }

  lemma {:induction false} XorUndone(a: nat, b: nat)
    ensures Xor(Xor(a, b), b) == a
    decreases a + b
  {
    if a != 0 || b != 0 {
      hide Xor;
      XorUndone(a / 2, b / 2);
      XorBits(a, b);
      var x := Xor(a, b);
      XorBits(x, b);
      Parity(x, a, b);
      assert Xor(x, b) / 2 == a / 2 && Xor(x, b) % 2 == a % 2;
    }
  }

  /** What exclusive-or is, said without its digits: it can be undone, zero does nothing,
      the order does not matter, and the lowest bits add up modulo two. */
  lemma XorLaws(a: nat, b: nat)
    ensures Xor(a, 0) == a && Xor(a, b) == Xor(b, a) && Xor(Xor(a, b), b) == a
    ensures Xor(a, b) % 2 == (a + b) % 2 && Xor(a, b) / 2 == Xor(a / 2, b / 2)
  {
    hide Xor;
    XorZero(a);
    XorCommutes(a, b);
    XorUndone(a, b);
    XorBits(a, b);
  }

  const WORD: nat := 0x1_0000_0000_0000_0000

  /** `byte(counter >> (i * 8))`. */
  function CounterByte(counter: nat, i: nat): byte {
    if i == 0 then counter % 256 else CounterByte(counter / 256, i - 1)
  }

  function XorByte(a: byte, b: byte): byte {
    SmallPowers();
    XorBounded(a, b, 8);
    Xor(a, b)
  }

  function ChunkNonce(nonce: seq<byte>, counter: nat): (r: seq<byte>)
    requires |nonce| == NONCE_SIZE
    ensures |r| == NONCE_SIZE
    ensures forall i :: 0 <= i < NONCE_SIZE ==>
              r[i] == if i < 8 then XorByte(nonce[i], CounterByte(counter, i)) else nonce[i]
  {
    seq(NONCE_SIZE, i requires 0 <= i < NONCE_SIZE =>
      if i < 8 then XorByte(nonce[i], CounterByte(counter, i)) else nonce[i])
  }

  /** The inner loop of both directions. */
  method XorCounter(nonce: seq<byte>, counter: nat) returns (r: seq<byte>)
    requires |nonce| == NONCE_SIZE
    ensures r == ChunkNonce(nonce, counter)
  {
    var chunkNonce := new byte[NONCE_SIZE](i requires 0 <= i < NONCE_SIZE => nonce[i]);
    for i := 0 to 8
      invariant forall k :: 0 <= k < NONCE_SIZE ==>
        chunkNonce[k] == if k < i then XorByte(nonce[k], CounterByte(counter, k)) else nonce[k]
    {
      chunkNonce[i] := XorByte(chunkNonce[i], CounterByte(counter, i));
    }
    r := chunkNonce[..];
  }

  lemma {:induction false} BytesDetermine(a: nat, b: nat, n: nat)
    requires a < Pow(256, n) && b < Pow(256, n)
    requires forall i: nat :: i < n ==> CounterByte(a, i) == CounterByte(b, i)
    ensures a == b
    decreases n
  {
    if n > 0 {
      assert CounterByte(a, 0) == CounterByte(b, 0);
      forall i: nat | i < n - 1
        ensures CounterByte(a / 256, i) == CounterByte(b / 256, i)
      {
        assert CounterByte(a, i + 1) == CounterByte(b, i + 1);
      }
      BytesDetermine(a / 256, b / 256, n - 1);
    }
  }

  /** The counter bytes are the counter, lowest first. */
  lemma {:induction false} CounterBytesAre(counter: nat, n: nat)
    requires counter < Pow(256, n)
    ensures Little(seq(n, i requires 0 <= i < n => CounterByte(counter, i))) == counter
    decreases n
  {
    if n > 0 {
      var s := seq(n, i requires 0 <= i < n => CounterByte(counter, i));
      CounterBytesAre(counter / 256, n - 1);
      assert s[1..] == seq(n - 1, i requires 0 <= i < n - 1 => CounterByte(counter / 256, i));
    }
  }

  lemma WordIsEightBytes()
    ensures Pow(256, 8) == WORD
  {
  }

  /** No two counters of one file share a nonce. */
  lemma NoncesDistinct(nonce: seq<byte>, a: nat, b: nat)
    requires |nonce| == NONCE_SIZE && a < WORD && b < WORD
    ensures ChunkNonce(nonce, a) == ChunkNonce(nonce, b) ==> a == b
  {
    hide CounterByte, Pow;
    if ChunkNonce(nonce, a) == ChunkNonce(nonce, b) {
      forall i: nat | i < 8
        ensures CounterByte(a, i) == CounterByte(b, i)
      {
        assert ChunkNonce(nonce, a)[i] == ChunkNonce(nonce, b)[i];
        XorCancel(nonce[i], CounterByte(a, i), CounterByte(b, i));
      }
      WordIsEightBytes();
      BytesDetermine(a, b, 8);
    }
  }

  // ------------------------------------------------------------------
  // The two directions
  // ------------------------------------------------------------------

  function Flat<T>(parts: seq<seq<T>>): seq<T> {
    if parts == [] then [] else parts[0] + Flat(parts[1..])
  }

  /** What successive reads into a buffer of `n` bytes may deliver until end of file. */
  predicate Reads<T(!new)>(parts: seq<seq<T>>, n: nat) {
    forall i :: 0 <= i < |parts| ==> 0 < |parts[i]| <= n
  }

  /** Reads that fill the buffer while the file lasts. */
  function FullReads<T(!new)>(file: seq<T>, n: nat): (parts: seq<seq<T>>)
    requires n > 0
    ensures Reads(parts, n) && Flat(parts) == file
    ensures forall i :: 0 <= i < |parts| - 1 ==> |parts[i]| == n
  {
    if |file| == 0 then []
    else if |file| <= n then
      assert Flat([file][1..]) == [];
      [file]
    else
      [file[..n]] + FullReads(file[n..], n)
  }

  lemma {:induction false} FullReadsCount(file: Plain)
    ensures |FullReads(file, CHUNK)| == (|file| + CHUNK - 1) / CHUNK
    decreases |file|
  {
    if |file| > CHUNK {
      FullReadsCount(file[CHUNK..]);
    }
  }

  function Sealed(key: nat, nonce: seq<byte>, chunks: seq<Plain>, counter: nat): seq<Cell>
    requires |nonce| == NONCE_SIZE
  {
    if chunks == [] then []
    else Seal(key, ChunkNonce(nonce, counter), chunks[0]) + Sealed(key, nonce, chunks[1..], (counter + 1) % WORD)
  }

  function Header(nonce: seq<byte>): (c: seq<Cell>)
    ensures |c| == |nonce| && forall i :: 0 <= i < |c| ==> c[i] == Clear(nonce[i])
  {
    seq(|nonce|, i requires 0 <= i < |nonce| => Clear(nonce[i]))
  }

  function Prefixed(p: Plain, rest: Option<Plain>): Option<Plain> {
    if rest.None? then None else Some(p + rest.value)
  }

  lemma PrefixedTwice(p: Plain, q: Plain, rest: Option<Plain>)
    ensures Prefixed(p, Prefixed(q, rest)) == Prefixed(p + q, rest)
    ensures Prefixed([], rest) == rest
  {
    if rest.Some? {
      assert p + (q + rest.value) == (p + q) + rest.value;
      assert [] + rest.value == rest.value;
    }
  }

  /** Every block that was read is opened on its own. */
  function Opened(key: nat, nonce: seq<byte>, blocks: seq<seq<Cell>>, counter: nat): Option<Plain>
    requires |nonce| == NONCE_SIZE
  {
    if blocks == [] then Some([])
    else
      var p := Open(key, ChunkNonce(nonce, counter), blocks[0]);
      if p.None? then None else Prefixed(p.value, Opened(key, nonce, blocks[1..], (counter + 1) % WORD))
  }

  /** The byte a cell shows to whoever does not open it; that of a sealed one is arbitrary. */
  function Shown(c: Cell): byte {
    match c
    case Clear(b) => b
    case Cipher(_, _, _, _) => 0
  }

  function NonceOf(cells: seq<Cell>): (nonce: seq<byte>)
    requires |cells| == NONCE_SIZE
    ensures |nonce| == NONCE_SIZE
  {
    seq(NONCE_SIZE, i requires 0 <= i < NONCE_SIZE => Shown(cells[i]))
  }

  function Encrypted(key: nat, nonce: seq<byte>, chunks: seq<Plain>): seq<Cell>
    requires |nonce| == NONCE_SIZE
  {
    Header(nonce) + Sealed(key, nonce, chunks, 0)
  }

  /** Decryption of a file whose remainder after the nonce is read as `blocks`. */
  function Decrypted(key: nat, file: seq<Cell>, blocks: seq<seq<Cell>>): Option<Plain> {
    if |file| < NONCE_SIZE then None else Opened(key, NonceOf(file[..NONCE_SIZE]), blocks, 0)
  }

  /** The receiver's 65552-byte buffer. */
  const BLOCK: nat := CHUNK + OVERHEAD

  /** The blocks of a receiver whose reads fill its buffer while the file lasts. */
  function FullBlocks(file: seq<Cell>): seq<seq<Cell>> {
    if |file| < NONCE_SIZE then [] else FullReads(file[NONCE_SIZE..], BLOCK)
  }

  /** The sender: `chunks` is what the successive reads deliver. */
  method EncryptFileStreaming(key: nat, nonce: seq<byte>, chunks: seq<Plain>) returns (output: seq<Cell>)
    requires |nonce| == NONCE_SIZE && Reads(chunks, CHUNK)
    ensures output == Encrypted(key, nonce, chunks)
  {
    output := Header(nonce);
    var counter: nat, i := 0, 0;
    while i < |chunks|
      invariant 0 <= i <= |chunks|
      invariant output + Sealed(key, nonce, chunks[i..], counter) == Encrypted(key, nonce, chunks)
    {
      var chunkNonce := XorCounter(nonce, counter);
      var cipherChunk := Seal(key, chunkNonce, chunks[i]);
      assert chunks[i..][1..] == chunks[i + 1..];
      output := output + cipherChunk;
      counter, i := (counter + 1) % WORD, i + 1;
    }
    assert chunks[i..] == [];
  }

  /** The receiver: `blocks` is what its successive reads deliver after the nonce. */
  method DecryptFileStreaming(key: nat, file: seq<Cell>, blocks: seq<seq<Cell>>) returns (r: Option<Plain>)
    requires |file| >= NONCE_SIZE ==> Reads(blocks, BLOCK) && Flat(blocks) == file[NONCE_SIZE..]
    ensures r == Decrypted(key, file, blocks)
  {
    if |file| < NONCE_SIZE {
      return None;
    }
    var nonce := NonceOf(file[..NONCE_SIZE]);
    var output: Plain, counter: nat, i := [], 0, 0;
    PrefixedTwice([], [], Opened(key, nonce, blocks, counter));
    assert blocks[0..] == blocks;
    while i < |blocks|
      invariant 0 <= i <= |blocks|
      invariant Decrypted(key, file, blocks) == Prefixed(output, Opened(key, nonce, blocks[i..], counter))
    {
      var chunkNonce := XorCounter(nonce, counter);
      assert blocks[i..][1..] == blocks[i + 1..];
      var p := Open(key, chunkNonce, blocks[i]);
      if p.None? {
        return None;
      }
      PrefixedTwice(output, p.value, Opened(key, nonce, blocks[i + 1..], (counter + 1) % WORD));
      output := output + p.value;
      counter, i := (counter + 1) % WORD, i + 1;
    }
    assert blocks[i..] == [] && output + [] == output;
    return Some(output);
  }

  // ------------------------------------------------------------------
  // Round trip
  // ------------------------------------------------------------------

  /** The receiver's reads end where the sender's ended. */
  predicate Aligned(chunks: seq<Plain>, blocks: seq<seq<Cell>>) {
    |blocks| == |chunks| && forall i :: 0 <= i < |chunks| ==> |blocks[i]| == |chunks[i]| + OVERHEAD
  }

  lemma {:induction false} SealedLength(key: nat, nonce: seq<byte>, chunks: seq<Plain>, counter: nat)
    requires |nonce| == NONCE_SIZE
    ensures |Sealed(key, nonce, chunks, counter)| == |Flat(chunks)| + OVERHEAD * |chunks|
    decreases |chunks|
  {
    if chunks != [] {
      SealedLength(key, nonce, chunks[1..], (counter + 1) % WORD);
    }
  }

  lemma AlignedTails(chunks: seq<Plain>, blocks: seq<seq<Cell>>)
    requires chunks != [] && blocks != [] && |blocks[0]| == |chunks[0]| + OVERHEAD
    ensures Aligned(chunks, blocks) <==> Aligned(chunks[1..], blocks[1..])
  {
    if Aligned(chunks[1..], blocks[1..]) {
      forall i | 0 < i < |chunks|
        ensures |blocks[i]| == |chunks[i]| + OVERHEAD
      {
        assert blocks[1..][i - 1] == blocks[i] && chunks[1..][i - 1] == chunks[i];
      }
    }
  }

  // ------------------------------------------------------------------
  // Where each chunk is, and under which nonce
  // ------------------------------------------------------------------

  /** Where the cells of chunk `k` begin. */
  function ChunkOffset(chunks: seq<Plain>, k: nat): nat
    requires k <= |chunks|
  {
    if k == 0 then 0 else ChunkOffset(chunks, k - 1) + |chunks[k - 1]| + OVERHEAD
  }

  lemma {:induction false} OffsetFromFront(chunks: seq<Plain>, k: nat)
    requires 0 < k <= |chunks|
    ensures ChunkOffset(chunks, k) == |chunks[0]| + OVERHEAD + ChunkOffset(chunks[1..], k - 1)
    decreases k
  {
    if k > 1 {
      OffsetFromFront(chunks, k - 1);
    }
  }

  lemma {:induction false} SealedAt(key: nat, nonce: seq<byte>, chunks: seq<Plain>, counter: nat, k: nat)
    requires |nonce| == NONCE_SIZE && k < |chunks| && counter < WORD
    ensures var cells, from := Sealed(key, nonce, chunks, counter), ChunkOffset(chunks, k);
            && from + |chunks[k]| + OVERHEAD <= |cells|
            && cells[from..from + |chunks[k]| + OVERHEAD]
               == Seal(key, ChunkNonce(nonce, (counter + k) % WORD), chunks[k])
    decreases |chunks|
  {
    hide ChunkNonce;
    var first := Seal(key, ChunkNonce(nonce, counter), chunks[0]);
    if k == 0 {
      assert Sealed(key, nonce, chunks, counter)[..|first|] == first;
    } else {
      OffsetFromFront(chunks, k);
      var next := (counter + 1) % WORD;
      SealedAt(key, nonce, chunks[1..], next, k - 1);
      var rest, from := Sealed(key, nonce, chunks[1..], next), ChunkOffset(chunks[1..], k - 1);
      Behind(first, rest, from, from + |chunks[k]| + OVERHEAD);
      assert (next + (k - 1)) % WORD == (counter + k) % WORD;
    }
  }

  /** In the output chunk `k` lies behind the nonce and the chunks before it with their
      tags, sealed under the nonce of counter `k`. */
  lemma ChunkInOutput(key: nat, nonce: seq<byte>, chunks: seq<Plain>, k: nat)
    requires |nonce| == NONCE_SIZE && k < |chunks| <= WORD
    ensures var output, from := Encrypted(key, nonce, chunks), 12 + ChunkOffset(chunks, k);
            && |output| >= 12 && (forall i :: 0 <= i < 12 ==> output[i] == Clear(nonce[i]))
            && from + |chunks[k]| + 16 <= |output|
            && output[from..from + |chunks[k]| + 16] == Seal(key, ChunkNonce(nonce, k), chunks[k])
  {
    hide Sealed, ChunkOffset, ChunkNonce, Seal;
    SealedAt(key, nonce, chunks, 0, k);
    var cells, from := Sealed(key, nonce, chunks, 0), ChunkOffset(chunks, k);
    Behind(Header(nonce), cells, from, from + |chunks[k]| + 16);
  }

  lemma Behind(head: seq<Cell>, cells: seq<Cell>, from: nat, end: nat)
    requires from <= end <= |cells|
    ensures (head + cells)[|head| + from..|head| + end] == cells[from..end]
  {
  }

  /** No two chunks of one file are sealed under the same nonce. */
  lemma OutputNoncesDistinct(key: nat, nonce: seq<byte>, chunks: seq<Plain>, k: nat, l: nat)
    requires |nonce| == NONCE_SIZE && k < l < |chunks| <= WORD
    ensures var output := Encrypted(key, nonce, chunks);
            var a, b := 12 + ChunkOffset(chunks, k), 12 + ChunkOffset(chunks, l);
            && a < |output| && b < |output| && output[a].Cipher? && output[b].Cipher?
            && output[a].nonce != output[b].nonce
  {
    hide Encrypted, ChunkOffset, ChunkNonce;
    ChunkInOutput(key, nonce, chunks, k);
    ChunkInOutput(key, nonce, chunks, l);
    NoncesDistinct(nonce, k, l);
    var output := Encrypted(key, nonce, chunks);
    var a, b := 12 + ChunkOffset(chunks, k), 12 + ChunkOffset(chunks, l);
    assert output[a] == output[a..a + |chunks[k]| + 16][0];
    assert output[b] == output[b..b + |chunks[l]| + 16][0];
  }

  /** A block of another length than the chunk it begins with does not open. */
  lemma WrongBlock(key: nat, nonce: seq<byte>, p: Plain, more: seq<Cell>, block: seq<Cell>)
    requires 0 < |block| != |p| + OVERHEAD
    requires |block| <= |Seal(key, nonce, p) + more| && block == (Seal(key, nonce, p) + more)[..|block|]
    ensures Open(key, nonce, block).None?
  {
    assert block[0] == Seal(key, nonce, p)[0];
  }

  lemma FlatOfSome<T(!new)>(parts: seq<seq<T>>)
    ensures forall n :: Reads(parts, n) && Flat(parts) == [] ==> parts == []
  {
    if parts != [] {
      assert |Flat(parts)| >= |parts[0]|;
    }
  }

  lemma {:induction false} OpenedSealed(key: nat, nonce: seq<byte>, chunks: seq<Plain>, blocks: seq<seq<Cell>>,
                                        counter: nat)
    requires |nonce| == NONCE_SIZE && Reads(blocks, BLOCK)
    requires Flat(blocks) == Sealed(key, nonce, chunks, counter)
    ensures Opened(key, nonce, blocks, counter) == if Aligned(chunks, blocks) then Some(Flat(chunks)) else None
    decreases |chunks|
  {
    if chunks == [] {
      FlatOfSome(blocks);
    } else {
      var first := Seal(key, ChunkNonce(nonce, counter), chunks[0]);
      var rest := Sealed(key, nonce, chunks[1..], (counter + 1) % WORD);
      assert |Flat(blocks)| > 0;
      var b := blocks[0];
      assert b == (first + rest)[..|b|];
      if |b| == |first| {
        assert b == first && Flat(blocks[1..]) == rest;
        OpenSealed(key, ChunkNonce(nonce, counter), chunks[0]);
        OpenedSealed(key, nonce, chunks[1..], blocks[1..], (counter + 1) % WORD);
        AlignedTails(chunks, blocks);
      } else {
        WrongBlock(key, ChunkNonce(nonce, counter), chunks[0], rest, b);
      }
    }
  }

  /** Whatever the reads on either side deliver, the receiver recovers the file exactly
      when its reads end where the sender's ended; otherwise it reports an error, never
      other contents. */
  lemma RoundTripIff(key: nat, nonce: seq<byte>, chunks: seq<Plain>, blocks: seq<seq<Cell>>)
    requires |nonce| == NONCE_SIZE && Reads(chunks, CHUNK) && Reads(blocks, BLOCK)
    requires Flat(blocks) == Encrypted(key, nonce, chunks)[NONCE_SIZE..]
    ensures Decrypted(key, Encrypted(key, nonce, chunks), blocks) ==
            if Aligned(chunks, blocks) then Some(Flat(chunks)) else None
  {
    hide Opened, Sealed;
    var file := Encrypted(key, nonce, chunks);
    assert file[..NONCE_SIZE] == Header(nonce) && file[NONCE_SIZE..] == Sealed(key, nonce, chunks, 0);
    assert NonceOf(Header(nonce)) == nonce;
    OpenedSealed(key, nonce, chunks, blocks, 0);
  }

  /** Every part but the last has length `n`. */
  predicate AllButLastFull<T(!new)>(parts: seq<seq<T>>, n: nat) {
    forall i :: 0 <= i < |parts| - 1 ==> |parts[i]| == n
  }

  lemma {:induction false} FullBlocksAligned(key: nat, nonce: seq<byte>, chunks: seq<Plain>, counter: nat)
    requires |nonce| == NONCE_SIZE && Reads(chunks, CHUNK) && AllButLastFull(chunks, CHUNK)
    ensures Aligned(chunks, FullReads(Sealed(key, nonce, chunks, counter), BLOCK))
    decreases |chunks|
  {
    if chunks != [] {
      var first := Seal(key, ChunkNonce(nonce, counter), chunks[0]);
      var rest := Sealed(key, nonce, chunks[1..], (counter + 1) % WORD);
      if |chunks| == 1 {
        assert chunks[1..] == [] && first + rest == first;
      } else {
        SealedLength(key, nonce, chunks[1..], (counter + 1) % WORD);
        assert (first + rest)[..BLOCK] == first && (first + rest)[BLOCK..] == rest;
        FullBlocksAligned(key, nonce, chunks[1..], (counter + 1) % WORD);
        AlignedTails(chunks, FullReads(first + rest, BLOCK));
      }
    }
  }

  /** With full reads at the receiver the file comes back exactly when every read of the
      sender but the last filled its buffer. */
  lemma FullReceiverIff(key: nat, nonce: seq<byte>, chunks: seq<Plain>)
    requires |nonce| == NONCE_SIZE && Reads(chunks, CHUNK)
    ensures var file := Encrypted(key, nonce, chunks);
            Decrypted(key, file, FullBlocks(file)) == if AllButLastFull(chunks, CHUNK) then Some(Flat(chunks)) else None
  {
    hide Opened, Sealed, Flat;
    var file := Encrypted(key, nonce, chunks);
    assert file[NONCE_SIZE..] == Sealed(key, nonce, chunks, 0);
    RoundTripIff(key, nonce, chunks, FullBlocks(file));
    if AllButLastFull(chunks, CHUNK) {
      FullBlocksAligned(key, nonce, chunks, 0);
    }
  }

  /** With full reads on both sides every file comes back, and the output length is exact. */
  lemma FullReadsRoundTrip(key: nat, nonce: seq<byte>, plain: Plain)
    requires |nonce| == NONCE_SIZE
    ensures var file := Encrypted(key, nonce, FullReads(plain, CHUNK));
            && Decrypted(key, file, FullBlocks(file)) == Some(plain)
            && |file| == 12 + |plain| + 16 * ((|plain| + 65535) / 65536)
  {
    FullReceiverIff(key, nonce, FullReads(plain, CHUNK));
    SealedLength(key, nonce, FullReads(plain, CHUNK), 0);
    FullReadsCount(plain);
  }

  /** Under another key nothing but the empty file comes back, however it is read. */
  lemma WrongKey(key: nat, other: nat, nonce: seq<byte>, chunks: seq<Plain>, blocks: seq<seq<Cell>>)
    requires |nonce| == NONCE_SIZE && key != other && chunks != []
    requires Reads(chunks, CHUNK) && Reads(blocks, BLOCK)
    requires Flat(blocks) == Encrypted(key, nonce, chunks)[NONCE_SIZE..]
    ensures Decrypted(other, Encrypted(key, nonce, chunks), blocks).None?
  {
    var file := Encrypted(key, nonce, chunks);
    assert file[NONCE_SIZE..] == Sealed(key, nonce, chunks, 0);
    assert Flat(blocks)[0].Cipher? && Flat(blocks)[0].key == key;
    assert blocks[0][0] == Flat(blocks)[0];
  }
}
