/** internal/crypto/chat_crypto_manager.go: the exchange that creates two ratchets. */
module KeyExchange {
  import opened Results
  import opened Keys
  import opened DoubleRatchets
  import opened RatchetSession
  import opened RatchetAlternation

  /** `Unusable` is an Ed25519 key whose conversion to X25519 fails. */
  datatype IdentityKey = IdentityKey(node: nat) | Unusable(tag: nat)

  datatype Signature = Signed(node: nat, key: PublicKey) | Forged(tag: nat)

  datatype Offer = Offer(key: PublicKey, signature: Signature)

  predicate Verify(identity: IdentityKey, key: PublicKey, signature: Signature) {
    identity.IdentityKey? && signature == Signed(identity.node, key)
  }

  /** The conversions of both key halves, taken as one symbolic identity. */
  function Convert(identity: IdentityKey): Result<PublicKey> {
    if identity.IdentityKey? then Ok(PublicKey(Identity(identity.node)))
    else Err("failed to compute modular inverse - invalid point")
  }

  class ChatCryptoManager {
    const node: nat
    var ratchets: map<string, DoubleRatchet>

    constructor (node: nat)
      ensures this.node == node && ratchets == map[]
    {
      this.node, ratchets := node, map[];
    }

    method InitiateKeyExchange(conversation: string, remote: IdentityKey, drawn: PrivateKey)
      returns (res: Result<Offer>)
      modifies this`ratchets
      ensures res.Ok? <==> remote.IdentityKey?
      ensures res.Err? ==> ratchets == old(ratchets)
      ensures res.Ok? ==>
                && ratchets.Keys == old(ratchets).Keys + {conversation}
                && fresh(ratchets[conversation])
                && (forall c :: c in old(ratchets) && c != conversation ==> ratchets[c] == old(ratchets)[c])
                && var dr := ratchets[conversation].View();
                   && dr == Ratchet(drawn, PublicKey(drawn), PublicKey(Identity(remote.node)),
                                    Agreed(DH({Identity(node), Identity(remote.node)})), Zeroed, Zeroed, 0, 0, map[])
                   && res.value == Offer(dr.dhPub, Signed(node, dr.dhPub))
    {
      var remoteKey := Convert(remote);
      if remoteKey.Err? {
        return Err("failed to convert remote public key");
      }
      var shared := X25519(Identity(node), remoteKey.value);
      if shared.Err? {
        return Err("DH failed");
      }
      var dr := new DoubleRatchet(Agreed(shared.value), remoteKey.value, drawn);
      ratchets := ratchets[conversation := dr];
      return Ok(Offer(dr.dhPub, Signed(node, dr.dhPub)));
    }

    method AcceptKeyExchange(conversation: string, remote: IdentityKey, offer: Offer, drawn: PrivateKey)
      returns (res: Result<Offer>)
      modifies this`ratchets
      ensures res.Ok? <==>
                && remote.IdentityKey? && offer.signature == Signed(remote.node, offer.key)
                && offer.key.PublicKey?
      ensures res.Err? ==> ratchets == old(ratchets)
      ensures res.Ok? ==>
                && ratchets.Keys == old(ratchets).Keys + {conversation}
                && fresh(ratchets[conversation])
                && (forall c :: c in old(ratchets) && c != conversation ==> ratchets[c] == old(ratchets)[c])
                && var dr := ratchets[conversation].View();
                   && dr == WithInitialChains(
                              Ratchet(drawn, PublicKey(drawn), offer.key,
                                      Agreed(DH({Identity(node), Identity(remote.node)})), Zeroed, Zeroed, 0, 0, map[]),
                              offer.key, DH({drawn, offer.key.sk}))
                   && res.value == Offer(dr.dhPub, Signed(node, dr.dhPub))
    {
      if !Verify(remote, offer.key, offer.signature) {
        return Err("signature verification failed");
      }
      var remoteKey := Convert(remote);
      if remoteKey.Err? {
        return Err("failed to convert remote public key");
      }
      var shared := X25519(Identity(node), remoteKey.value);
      if shared.Err? {
        return Err("DH failed");
      }
      var dr := new DoubleRatchet(Agreed(shared.value), UNSET_PUBLIC_KEY, drawn);
      dr.remote := offer.key;
      var init := dr.InitializeChains(offer.key);
      if init.Err? {
        return Err("failed to initialize receiver chains");
      }
      ratchets := ratchets[conversation := dr];
      return Ok(Offer(dr.dhPub, Signed(node, dr.dhPub)));
    }

    method CompleteKeyExchange(conversation: string, remote: IdentityKey, offer: Offer) returns (res: Result<()>)
      modifies if conversation in ratchets then {ratchets[conversation]} else {}
      ensures res.Ok? <==>
                && remote.IdentityKey? && offer.signature == Signed(remote.node, offer.key)
                && conversation in ratchets && offer.key.PublicKey?
      ensures res.Ok? ==>
                ratchets[conversation].View() ==
                WithInitialChains(old(ratchets[conversation].View()), offer.key,
                                  DH({old(ratchets[conversation].dhPriv), offer.key.sk}))
      ensures res.Err? && conversation in ratchets ==>
                ratchets[conversation].View() ==
                if remote.IdentityKey? && offer.signature == Signed(remote.node, offer.key)
                then old(ratchets[conversation].View()).(remote := offer.key)
                else old(ratchets[conversation].View())
    {
      if !Verify(remote, offer.key, offer.signature) {
        return Err("signature verification failed");
      }
      if conversation !in ratchets {
        return Err("ratchet not found for conversation");
      }
      var init := ratchets[conversation].InitializeChains(offer.key);
      if init.Err? {
        return Err("failed to initialize sender chains");
      }
      return Ok(());
    }

    /** Encrypt1on1Message: the message is the one `Sending` puts in the outbox. */
    method Encrypt1on1Message(conversation: string, plaintext: Plaintext, nonce: Nonce)
      returns (res: Result<(Header, Ciphertext)>)
      modifies if conversation in ratchets then {ratchets[conversation]} else {}
      ensures res.Ok? <==> conversation in ratchets
      ensures res.Ok? ==>
                var e := Sending(Endpoint(old(ratchets[conversation].View()), [], [], {}), plaintext, nonce);
                && ratchets[conversation].View() == e.ratchet
                && e.outbox == [Sent(res.value.0, res.value.1, plaintext)]
    {
      if conversation !in ratchets {
        return Err("ratchet not found for conversation");
      }
      var dr := ratchets[conversation];
      var ct := dr.Encrypt(plaintext, nonce);
      var messageNum := dr.sendNum - 1;
      return Ok((Header(messageNum, dr.dhPub, nonce), ct));
    }

    method Decrypt1on1Message(conversation: string, h: Header, ct: Ciphertext, drawn: PrivateKey)
      returns (res: Result<Plaintext>)
      modifies if conversation in ratchets then {ratchets[conversation]} else {}
      ensures conversation !in ratchets ==> res.Err?
      ensures conversation in ratchets ==>
                Outcome(ratchets[conversation].View(), res) ==
                Decrypted(old(ratchets[conversation].View()), h, ct, drawn)
    {
      if conversation !in ratchets {
        return Err("ratchet not found for conversation");
      }
      res := ratchets[conversation].Decrypt(h, ct, drawn);
    }
  }

  /** The three messages of an honest exchange leave the two sides in the state
      from which the delivery theorem starts, whatever either held before. */
  method HonestExchange(a: ChatCryptoManager, b: ChatCryptoManager, conversation: string,
                        drawnA: PrivateKey, drawnB: PrivateKey)
    requires a != b
    modifies a`ratchets, b`ratchets
    ensures conversation in a.ratchets && conversation in b.ratchets
    ensures a.ratchets[conversation] != b.ratchets[conversation]
    ensures Exchanged(a.ratchets[conversation].View(), b.ratchets[conversation].View())
    ensures var x, y := a.ratchets[conversation].View(), b.ratchets[conversation].View();
            RootedIn(x, x.sendChain) && x.dhPub == PublicKey(x.dhPriv) && y.dhPub == PublicKey(y.dhPriv)
  {
    var offer := a.InitiateKeyExchange(conversation, IdentityKey(b.node), drawnA);
    assert a.ratchets[conversation].dhPub == PublicKey(drawnA);
    label sent:
    var ack := b.AcceptKeyExchange(conversation, IdentityKey(a.node), offer.value, drawnB);
    assert a.ratchets[conversation].View() == old@sent(a.ratchets[conversation].View());
    var done := a.CompleteKeyExchange(conversation, IdentityKey(b.node), ack.value);
    assert {Identity(a.node), Identity(b.node)} == {Identity(b.node), Identity(a.node)};
    assert {drawnA, drawnB} == {drawnB, drawnA};
  }

  /** Between the answer and its arrival the responder leads the initiator, so turns can
      begin with messages that overtake the answer. */
  method OfferedExchange(a: ChatCryptoManager, b: ChatCryptoManager, conversation: string,
                         drawnA: PrivateKey, drawnB: PrivateKey)
    requires a != b && drawnB != Identity(b.node)
    modifies a`ratchets, b`ratchets
    ensures conversation in a.ratchets && conversation in b.ratchets
    ensures var x, y := a.ratchets[conversation].View(), b.ratchets[conversation].View();
            Leads(y, x) && y.sendNum == 0 && Settled(x) && Settled(y)
  {
    var offer := a.InitiateKeyExchange(conversation, IdentityKey(b.node), drawnA);
    label sent:
    var ack := b.AcceptKeyExchange(conversation, IdentityKey(a.node), offer.value, drawnB);
    assert a.ratchets[conversation].View() == old@sent(a.ratchets[conversation].View());
    assert {Identity(a.node), Identity(b.node)} == {Identity(b.node), Identity(a.node)};
    assert {drawnA, drawnB} == {drawnB, drawnA};
    assert Advance(b.ratchets[conversation].sendChain, 0) == b.ratchets[conversation].sendChain;
  }
}
