/** internal/crypto/double_ratchet.go */
module DoubleRatchets {
  import opened Results
  import opened Keys

  /** The value of a `DoubleRatchet` object. */
  datatype Ratchet = Ratchet(
    dhPriv: PrivateKey,
    dhPub: PublicKey,
    remote: PublicKey,
    root: Key,
    sendChain: Key,
    recvChain: Key,
    sendNum: int,
    recvNum: int,
    skipped: map<int, Key>)

  datatype Outcome = Outcome(after: Ratchet, result: Result<Plaintext>)

  datatype Header = Header(num: int, dh: PublicKey, nonce: Nonce)

  // ------------------------------------------------------------------
  // What each operation means, on values
  // ------------------------------------------------------------------

  /** Both chains of the exchange come from one DH output. */
  function WithInitialChains(r: Ratchet, remote: PublicKey, dh: SharedSecret): Ratchet {
    r.(remote := remote, root := Root(r.root, dh),
       sendChain := Chain(r.root, dh), recvChain := Chain(r.root, dh), sendNum := 0, recvNum := 0)
  }

  /** One DH ratchet step against the key `remote`, drawing the key pair of `drawn`. */
  function Stepped(r: Ratchet, remote: PublicKey, drawn: PrivateKey): Ratchet
    requires remote.PublicKey?
  {
    var received := DH({r.dhPriv, remote.sk});
    var sent := DH({drawn, remote.sk});
    var mid := Root(r.root, received);
    Ratchet(drawn, PublicKey(drawn), remote, Root(mid, sent), Chain(mid, sent), Chain(r.root, received),
            0, 0, r.skipped)
  }

  /** The key of message `i` of a chain that stands at `c` for message `from`. */
  function KeyFrom(c: Key, from: int, i: int): Key {
    if i < from then Zeroed else KeyAt(c, i - from)
  }

  /** The state in which the receive chain stands at message number `n`, every
      message key passed on the way being kept under its number. */
  function SkippedTo(r: Ratchet, n: int): Ratchet {
    if n <= r.recvNum then r
    else
      r.(recvChain := Advance(r.recvChain, n - r.recvNum), recvNum := n,
         skipped := r.skipped + map i | r.recvNum <= i < n :: KeyFrom(r.recvChain, r.recvNum, i))
  }

  lemma SkipNothing(r: Ratchet, n: int)
    ensures SkippedTo(r, r.recvNum) == r
    ensures n <= r.recvNum ==> SkippedTo(r, n) == r
  {
  }

  /** Skipping to `n` adds the key of every number on the way, and changes no other. */
  lemma SkippedKeys(r: Ratchet, n: int)
    ensures var s := SkippedTo(r, n);
            && s.recvNum == (if r.recvNum < n then n else r.recvNum)
            && (forall i :: i in s.skipped <==> i in r.skipped || r.recvNum <= i < n)
            && forall i :: i in s.skipped ==>
                 s.skipped[i] == if r.recvNum <= i < n then MessageKey(Advance(r.recvChain, i - r.recvNum))
                                 else r.skipped[i]
  {
  }

  /** One turn of the skip-ahead loop. */
  lemma SkipOneMore(r: Ratchet, n: int)
    requires r.recvNum <= n
    ensures var s := SkippedTo(r, n);
            SkippedTo(r, n + 1) ==
              s.(skipped := s.skipped[n := MessageKey(s.recvChain)], recvChain := Next(s.recvChain), recvNum := n + 1)
  {
    var s := SkippedTo(r, n);
    assert MessageKey(s.recvChain) == KeyFrom(r.recvChain, r.recvNum, n);
    assert SkippedTo(r, n + 1).skipped == s.skipped[n := MessageKey(s.recvChain)];
  }

  /** Decryption once the sender's DH key is the current one. */
  function Opened(r: Ratchet, h: Header, ct: Ciphertext): Outcome {
    if h.num < r.recvNum then
      if h.num !in r.skipped then Outcome(r, Err("skipped key not found for out-of-order message"))
      else
        match Open(ct, h.nonce, r.skipped[h.num])
        case None => Outcome(r, Err("decryption failed with skipped key"))
        case Some(p) => Outcome(r.(skipped := r.skipped - {h.num}), Ok(p))
    else
      var s := SkippedTo(r, h.num);
      match Open(ct, h.nonce, MessageKey(s.recvChain))
      case None => Outcome(s, Err("decryption failed"))
      case Some(p) => Outcome(s.(recvChain := Next(s.recvChain), recvNum := s.recvNum + 1), Ok(p))
  }

  /** Decrypt: an unknown DH key ratchets first, and a rejected one is kept. */
  function Decrypted(r: Ratchet, h: Header, ct: Ciphertext, drawn: PrivateKey): Outcome {
    if h.dh == r.remote then Opened(r, h, ct)
    else if h.dh.LowOrder? then Outcome(r.(remote := h.dh), Err("DH ratchet failed"))
    else Opened(Stepped(r, h.dh, drawn), h, ct)
  }

  /** CleanupOldSkippedKeys. */
  function Cleaned(r: Ratchet, maxSkip: int): Ratchet {
    if |r.skipped| <= maxSkip then r
    else r.(skipped := map i | i in r.skipped && i >= r.recvNum - maxSkip :: r.skipped[i])
  }

  // ------------------------------------------------------------------
  // The mutable object
  // ------------------------------------------------------------------

  class DoubleRatchet {
    var dhPriv: PrivateKey
    var dhPub: PublicKey
    var remote: PublicKey
    var root: Key
    var sendChain: Key
    var recvChain: Key
    var sendNum: int
    var recvNum: int
    var skipped: map<int, Key>

    function View(): Ratchet
      reads this
    {
      Ratchet(dhPriv, dhPub, remote, root, sendChain, recvChain, sendNum, recvNum, skipped)
    }

    /** NewDoubleRatchet; the receiver's constructor is the case `remote == UNSET_PUBLIC_KEY`. */
    constructor (shared: Key, remote: PublicKey, drawn: PrivateKey)
      ensures View() == Ratchet(drawn, PublicKey(drawn), remote, shared, Zeroed, Zeroed, 0, 0, map[])
    {
      dhPriv, dhPub, this.remote, root := drawn, PublicKey(drawn), remote, shared;
      sendChain, recvChain, sendNum, recvNum, skipped := Zeroed, Zeroed, 0, 0, map[];
    }

    method Encrypt(plaintext: Plaintext, nonce: Nonce) returns (ct: Ciphertext)
      modifies this
      ensures ct == Sealed(MessageKey(old(sendChain)), nonce, plaintext)
      ensures View() == old(View()).(sendChain := Next(old(sendChain)), sendNum := old(sendNum) + 1)
    {
      var messageKey, nextChainKey := MessageKey(sendChain), Next(sendChain);
      ct := Sealed(messageKey, nonce, plaintext);
      sendChain := nextChainKey;
      sendNum := sendNum + 1;
    }

    method Decrypt(h: Header, ct: Ciphertext, drawn: PrivateKey) returns (res: Result<Plaintext>)
      modifies this
      ensures Outcome(View(), res) == Decrypted(old(View()), h, ct, drawn)
    {
      if h.dh != remote {
        var step := PerformDHRatchet(h.dh, drawn);
        if step.Err? {
          return Err("DH ratchet failed");
        }
      }
      if h.num < recvNum {
        if h.num in skipped {
          var box := Open(ct, h.nonce, skipped[h.num]);
          if box == None {
            return Err("decryption failed with skipped key");
          }
          skipped := skipped - {h.num};
          return Ok(box.value);
        }
        return Err("skipped key not found for out-of-order message");
      }
      SkipAhead(h.num);
      var box := Open(ct, h.nonce, MessageKey(recvChain));
      if box == None {
        return Err("decryption failed");
      }
      recvChain := Next(recvChain);
      recvNum := recvNum + 1;
      return Ok(box.value);
    }

    /** The loop of Decrypt that stores the keys of missing messages. */
    method SkipAhead(num: int)
      modifies this
      ensures View() == SkippedTo(old(View()), num)
      ensures recvNum == if old(recvNum) < num then num else old(recvNum)
      ensures forall i :: i in skipped <==> i in old(skipped) || old(recvNum) <= i < num
      ensures forall i :: i in skipped ==>
                skipped[i] == if old(recvNum) <= i < num then MessageKey(Advance(old(recvChain), i - old(recvNum)))
                              else old(skipped)[i]
    {
      hide SkippedTo;
      SkipNothing(old(View()), num);
      while recvNum < num
        invariant recvNum <= num || recvNum == old(recvNum)
        invariant old(recvNum) <= recvNum
        invariant View() == SkippedTo(old(View()), recvNum)
      {
        SkipOneMore(old(View()), recvNum);
        skipped := skipped[recvNum := MessageKey(recvChain)];
        recvChain := Next(recvChain);
        recvNum := recvNum + 1;
      }
      SkippedKeys(old(View()), num);
    }

    /** performDHRatchet: a rejected key is stored before the failure is noticed. */
    method PerformDHRatchet(newRemote: PublicKey, drawn: PrivateKey) returns (res: Result<()>)
      modifies this
      ensures res.Ok? <==> newRemote.PublicKey?
      ensures res.Ok? ==> View() == Stepped(old(View()), newRemote, drawn)
      ensures res.Ok? ==>
                var received, sent := DH({old(dhPriv), newRemote.sk}), DH({drawn, newRemote.sk});
                && dhPriv == drawn && dhPub == PublicKey(drawn) && remote == newRemote && skipped == old(skipped)
                && recvChain == Chain(old(root), received) && sendChain == Chain(Root(old(root), received), sent)
                && root == Root(Root(old(root), received), sent) && sendNum == recvNum == 0
      ensures res.Err? ==> View() == old(View()).(remote := newRemote)
    {
      remote := newRemote;
      var dhOutput := X25519(dhPriv, remote);
      if dhOutput.Err? {
        return Err("DH computation failed");
      }
      root, recvChain := Root(root, dhOutput.value), Chain(root, dhOutput.value);
      recvNum := 0;
      dhPriv := drawn;
      dhPub := PublicKey(dhPriv);
      var dhOutput2 := X25519(dhPriv, remote);
      if dhOutput2.Err? {
        return Err("second DH computation failed");
      }
      root, sendChain := Root(root, dhOutput2.value), Chain(root, dhOutput2.value);
      sendNum := 0;
      return Ok(());
    }

    /** initializeSenderChains and initializeReceiverChains, which differ only in
        the order of their assignments. */
    method InitializeChains(remoteKey: PublicKey) returns (res: Result<()>)
      modifies this
      ensures res.Ok? <==> remoteKey.PublicKey?
      ensures res.Ok? ==> View() == WithInitialChains(old(View()), remoteKey, DH({old(dhPriv), remoteKey.sk}))
      ensures res.Ok? ==>
                var dh := DH({old(dhPriv), remoteKey.sk});
                && remote == remoteKey && root == Root(old(root), dh) && sendChain == recvChain == Chain(old(root), dh)
                && sendNum == recvNum == 0
                && dhPriv == old(dhPriv) && dhPub == old(dhPub) && skipped == old(skipped)
      ensures res.Err? ==> View() == old(View()).(remote := remoteKey)
    {
      remote := remoteKey;
      var dhOutput := X25519(dhPriv, remoteKey);
      if dhOutput.Err? {
        return Err("DH computation failed");
      }
      var chainKey := Chain(root, dhOutput.value);
      root := Root(root, dhOutput.value);
      sendChain, sendNum := chainKey, 0;
      recvChain, recvNum := chainKey, 0;
      return Ok(());
    }

    method CleanupOldSkippedKeys(maxSkip: int)
      modifies this`skipped
      ensures View() == Cleaned(old(View()), maxSkip)
      ensures skipped == if |old(skipped)| <= maxSkip then old(skipped)
                         else map i | i in old(skipped) && i >= recvNum - maxSkip :: old(skipped)[i]
    {
      if |skipped| <= maxSkip {
        return;
      }
      var minKeepNum := recvNum - maxSkip;
      skipped := Prune(skipped, minKeepNum);
    }

    /** The deleting loop of CleanupOldSkippedKeys; a Go map is ranged over in any order. */
    static method Prune(keys: map<int, Key>, minKeepNum: int) returns (kept: map<int, Key>)
      ensures kept == map i | i in keys && i >= minKeepNum :: keys[i]
    {
      kept := keys;
      var pending := keys.Keys;
      while pending != {}
        invariant forall i :: i in pending ==> i in keys
        invariant kept == map i | i in keys && (i in pending || i >= minKeepNum) :: keys[i]
        decreases pending
      {
        var msgNum := AnyOf(pending);
        pending := pending - {msgNum};
        if msgNum < minKeepNum {
          kept := kept - {msgNum};
        }
      }
    }
  }
}
