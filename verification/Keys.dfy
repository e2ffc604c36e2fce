/** Outcome of an operation that the source reports with an `error` value. */
module Results {
  datatype Result<+T> = Ok(value: T) | Err(reason: string)
  datatype Option<+T> = None | Some(value: T)

  /** The next key of a Go `range` over a map: any key not yet visited. */
  method AnyOf<T>(pending: set<T>) returns (t: T)
    requires pending != {}
    ensures t in pending
  {
    t :| t in pending;
  }

  /** An interval holds no more numbers than it is long. */
  lemma {:induction false} IntervalSize(s: set<int>, lo: int, hi: int)
    requires lo <= hi && forall i :: i in s ==> lo <= i < hi
    ensures |s| <= hi - lo
    decreases hi - lo
  {
    if lo < hi {
      IntervalSize(s - {lo}, lo + 1, hi);
      assert |s| <= |s - {lo}| + 1;
    } else {
      assert forall i :: i !in s;
    }
  }
}

/**
 * Symbolic keys.  Every derivation is a free constructor, so two keys are equal
 * exactly when they were derived in the same way; Diffie-Hellman is the one
 * equation, expressed by storing the two private keys as an unordered pair.
 */
module Keys {
  import opened Results

  type Plaintext = seq<nat>
  type Nonce = nat

  datatype PrivateKey = Ephemeral(draw: nat) | Identity(node: nat)

  /** `LowOrder` stands for the encodings on which X25519 reports an error;
      the all-zero array of an unset field is one of them. */
  datatype PublicKey = PublicKey(sk: PrivateKey) | LowOrder(point: nat)

  const UNSET_PUBLIC_KEY := LowOrder(0)

  datatype SharedSecret = DH(pair: set<PrivateKey>)

  datatype Key =
    | Zeroed
    | Random(draw: nat)
    | Agreed(secret: SharedSecret)
    | Root(root: Key, secret: SharedSecret)
    | Chain(root: Key, secret: SharedSecret)
    | MessageKey(chain: Key)
    | Next(chain: Key)

  datatype Ciphertext = Sealed(key: Key, nonce: Nonce, plaintext: Plaintext) | Noise(bytes: seq<nat>)

  function X25519(sk: PrivateKey, pk: PublicKey): Result<SharedSecret> {
    match pk
    case PublicKey(other) => Ok(DH({sk, other}))
    case LowOrder(_) => Err("bad input point: low order point")
  }

  /** secretbox.Open: succeeds only for the key and nonce that sealed the box. */
  function Open(ct: Ciphertext, nonce: Nonce, key: Key): Option<Plaintext> {
    if ct.Sealed? && ct.key == key && ct.nonce == nonce then Some(ct.plaintext) else None
  }

  /** The chain key `n` steps after `c`. */
  function Advance(c: Key, n: nat): Key {
    if n == 0 then c else Next(Advance(c, n - 1))
  }

  /** The message key of the `n`-th message of the chain that starts at `c`. */
  function KeyAt(c: Key, n: nat): Key {
    MessageKey(Advance(c, n))
  }

  lemma {:induction false} AdvanceAdd(c: Key, m: nat, n: nat)
    ensures Advance(Advance(c, m), n) == Advance(c, m + n)
  {
    if n > 0 {
      AdvanceAdd(c, m, n - 1);
    }
  }

  /** Equally long chains that meet began alike. */
  lemma {:induction false} AdvanceInjective(c: Key, d: Key, n: nat)
    requires Advance(c, n) == Advance(d, n)
    ensures c == d
  {
    if n > 0 {
      AdvanceInjective(c, d, n - 1);
    }
  }

  function Depth(k: Key): nat {
    match k
    case Root(r, _) => 1 + Depth(r)
    case Chain(r, _) => 1 + Depth(r)
    case MessageKey(c) => 1 + Depth(c)
    case Next(c) => 1 + Depth(c)
    case _ => 0
  }

  lemma {:induction false} AdvanceDepth(c: Key, n: nat)
    ensures Depth(Advance(c, n)) == Depth(c) + n
  {
    if n > 0 {
      AdvanceDepth(c, n - 1);
    }
  }

  /** Message keys of one chain never repeat. */
  lemma KeyAtInjective(c: Key, m: nat, n: nat)
    ensures KeyAt(c, m) == KeyAt(c, n) <==> m == n
  {
    AdvanceDepth(c, m);
    AdvanceDepth(c, n);
  }
}
