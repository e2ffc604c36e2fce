/**
 * Two ratchets and the network between them: a sent message may be delivered
 * late, out of order, several times or never, a receiver may be handed back its own
 * messages or any others under the current DH key, and may forget old keys.
 */
module RatchetSession {
  import opened Results
  import opened Keys
  import opened DoubleRatchets

  datatype Side = Initiator | Responder

  function Peer(s: Side): Side {
    if s == Initiator then Responder else Initiator
  }

  /** A message as it left the sender, with the text it was made from. */
  datatype Sent = Sent(header: Header, ct: Ciphertext, plaintext: Plaintext)

  /** A plaintext that Decrypt returned, with the number of the message it came from. */
  datatype Received = Received(num: nat, plaintext: Plaintext)

  /** `lost` is history: the numbers whose keys a cleanup has trimmed. */
  datatype Endpoint = Endpoint(ratchet: Ratchet, outbox: seq<Sent>, inbox: seq<Received>, lost: set<int>)

  datatype World = World(initiator: Endpoint, responder: Endpoint) {
    function At(s: Side): Endpoint {
      if s == Initiator then initiator else responder
    }

    function With(s: Side, e: Endpoint): World {
      if s == Initiator then this.(initiator := e) else this.(responder := e)
    }
  }

  datatype Step =
    | Send(author: Side, plaintext: Plaintext, nonce: Nonce)
    | Deliver(to: Side, index: nat, drawn: PrivateKey)
    | Inject(to: Side, header: Header, ct: Ciphertext, drawn: PrivateKey)
    | Clean(side: Side, maxSkip: int)

  predicate SentBy(e: Endpoint, ct: Ciphertext) {
    exists i :: 0 <= i < |e.outbox| && e.outbox[i].ct == ct
  }

  /** The network may inject, under the current DH key and any number and nonce, every
      ciphertext either side has sent, and everything that the receiver rejects. */
  predicate Enabled(w: World, step: Step) {
    match step
    case Send(_, _, _) => true
    case Deliver(to, k, _) => k < |w.At(Peer(to)).outbox|
    case Inject(to, h, ct, drawn) =>
      && h.dh == w.At(to).ratchet.remote
      && (SentBy(w.initiator, ct) || SentBy(w.responder, ct) || Decrypted(w.At(to).ratchet, h, ct, drawn).result.Err?)
    case Clean(_, _) => true
  }

  /** Encrypt1on1Message: the number is read back after the counter was incremented. */
  function Sending(e: Endpoint, plaintext: Plaintext, nonce: Nonce): Endpoint {
    var r := e.ratchet;
    var after := r.(sendChain := Next(r.sendChain), sendNum := r.sendNum + 1);
    var header := Header(after.sendNum - 1, after.dhPub, nonce);
    e.(ratchet := after,
       outbox := e.outbox + [Sent(header, Sealed(MessageKey(r.sendChain), nonce, plaintext), plaintext)])
  }

  function Receiving(e: Endpoint, h: Header, ct: Ciphertext, drawn: PrivateKey): Endpoint {
    var o := Decrypted(e.ratchet, h, ct, drawn);
    e.(ratchet := o.after,
       inbox := if o.result.Ok? && h.num >= 0 then e.inbox + [Received(h.num, o.result.value)] else e.inbox)
  }

  /** CleanupOldSkippedKeys removes the key of number `i`. */
  predicate Trims(r: Ratchet, maxSkip: int, i: int) {
    |r.skipped| > maxSkip && i in r.skipped && i < r.recvNum - maxSkip
  }

  function Cleaning(e: Endpoint, maxSkip: int): Endpoint {
    e.(ratchet := Cleaned(e.ratchet, maxSkip),
       lost := e.lost + set i | i in e.ratchet.skipped && Trims(e.ratchet, maxSkip, i))
  }

  function Apply(w: World, step: Step): World
    requires Enabled(w, step)
  {
    match step
    case Send(author, p, nonce) => w.With(author, Sending(w.At(author), p, nonce))
    case Deliver(to, k, drawn) =>
      var m := w.At(Peer(to)).outbox[k];
      w.With(to, Receiving(w.At(to), m.header, m.ct, drawn))
    case Inject(to, h, ct, drawn) => w.With(to, Receiving(w.At(to), h, ct, drawn))
    case Clean(side, maxSkip) => w.With(side, Cleaning(w.At(side), maxSkip))
  }

  ghost predicate ValidRun(w: World, steps: seq<Step>)
    decreases |steps|
  {
    steps == [] || (Enabled(w, steps[0]) && ValidRun(Apply(w, steps[0]), steps[1..]))
  }

  ghost function Run(w: World, steps: seq<Step>): World
    requires ValidRun(w, steps)
    decreases |steps|
  {
    if steps == [] then w else Run(Apply(w, steps[0]), steps[1..])
  }

  // ------------------------------------------------------------------
  // The invariant of one direction, for the chain that starts at `c`
  // ------------------------------------------------------------------

  ghost predicate Accepted(e: Endpoint, k: int) {
    exists j :: 0 <= j < |e.inbox| && e.inbox[j].num == k
  }

  /** The number is neither used up nor forgotten. */
  ghost predicate Pending(e: Endpoint, k: int) {
    !Accepted(e, k) && k !in e.lost
  }

  ghost predicate SenderOk(tx: Endpoint, c: Key) {
    && tx.ratchet.sendNum == |tx.outbox|
    && tx.ratchet.sendChain == Advance(c, |tx.outbox|)
    && forall k :: 0 <= k < |tx.outbox| ==>
         var m := tx.outbox[k];
         m.header.num == k && m.header.dh == tx.ratchet.dhPub
         && m.ct == Sealed(KeyAt(c, k), m.header.nonce, m.plaintext)
  }

  predicate Holds(r: Ratchet, c: Key, i: int) {
    i >= 0 && i in r.skipped && r.skipped[i] == KeyAt(c, i)
  }

  /** Of the numbers passed, the receiver holds the keys of exactly the pending ones.
      Keys of older chains may lie under any number. */
  ghost predicate ReceiverOk(rx: Endpoint, c: Key) {
    var r := rx.ratchet;
    && r.recvNum >= 0
    && r.recvChain == Advance(c, r.recvNum)
    && (forall i :: 0 <= i < r.recvNum ==> (Holds(r, c, i) <==> Pending(rx, i)))
    && (forall i :: i >= r.recvNum ==> !Holds(r, c, i))
    && (forall i :: Accepted(rx, i) || i in rx.lost ==> i < r.recvNum)
    && (forall i :: i in rx.lost ==> !Accepted(rx, i))
  }

  /** There are no keys but those of this chain. */
  ghost predicate NoOlderKeys(r: Ratchet, c: Key) {
    forall i :: i in r.skipped ==> i < r.recvNum && Holds(r, c, i)
  }

  /** The text is that of the message `e` sent under this number. */
  ghost predicate From(e: Endpoint, m: Received) {
    m.num < |e.outbox| && e.outbox[m.num].plaintext == m.plaintext
  }

  ghost predicate EachOnce(e: Endpoint) {
    forall i, j :: 0 <= i < j < |e.inbox| ==> e.inbox[i].num != e.inbox[j].num
  }

  ghost predicate LaneOk(tx: Endpoint, rx: Endpoint, c: Key) {
    && rx.ratchet.remote == tx.ratchet.dhPub
    && SenderOk(tx, c) && ReceiverOk(rx, c) && EachOnce(rx)
  }

  /** Both directions run on one chain, so a text that a side accepts is one that its
      peer or it itself sent under that number. */
  ghost predicate SessionOk(w: World, c: Key) {
    && LaneOk(w.initiator, w.responder, c) && LaneOk(w.responder, w.initiator, c)
    && forall s: Side :: NoOlderKeys(w.At(s).ratchet, c) && TextsOk(w.At(Peer(s)), w.At(s))
  }

  ghost predicate TextsOk(tx: Endpoint, rx: Endpoint) {
    forall j :: 0 <= j < |rx.inbox| ==> From(tx, rx.inbox[j]) || From(rx, rx.inbox[j])
  }

  /** No key changes hands: the DH keys and roots are those of the exchange. */
  ghost predicate SameEpoch(before: Ratchet, after: Ratchet) {
    after.remote == before.remote && after.dhPriv == before.dhPriv && after.dhPub == before.dhPub
    && after.root == before.root
  }

  // ------------------------------------------------------------------
  // One message
  // ------------------------------------------------------------------

  /** Passing to number `n` keeps the receiver's half of the invariant. */
  lemma SkipKeepsReceiver(rx: Endpoint, c: Key, n: int)
    requires ReceiverOk(rx, c)
    ensures ReceiverOk(rx.(ratchet := SkippedTo(rx.ratchet, n)), c)
    ensures NoOlderKeys(rx.ratchet, c) ==> NoOlderKeys(SkippedTo(rx.ratchet, n), c)
  {
    var r := rx.ratchet;
    var s := SkippedTo(r, n);
    var rx' := rx.(ratchet := s);
    if n > r.recvNum {
      AdvanceAdd(c, r.recvNum, n - r.recvNum);
      forall i | r.recvNum <= i < n
        ensures KeyFrom(r.recvChain, r.recvNum, i) == KeyAt(c, i)
      {
        AdvanceAdd(c, r.recvNum, i - r.recvNum);
      }
      assert forall i :: Accepted(rx', i) <==> Accepted(rx, i);
      assert forall i :: Pending(rx', i) <==> Pending(rx, i);
      assert forall i :: Holds(s, c, i) <==> Holds(r, c, i) || r.recvNum <= i < n;
    }
  }

  lemma AcceptedAfter(e: Endpoint, e': Endpoint, m: Received)
    requires e'.inbox == e.inbox + [m]
    ensures forall i :: Accepted(e', i) <==> Accepted(e, i) || i == m.num
  {
    assert e'.inbox[|e.inbox|] == m;
    forall i | Accepted(e, i)
      ensures Accepted(e', i)
    {
      var j :| 0 <= j < |e.inbox| && e.inbox[j].num == i;
      assert e'.inbox[j].num == i;
    }
  }

  /** A message that was passed is taken with its stored key. */
  lemma TakePassed(rx: Endpoint, rx': Endpoint, c: Key, k: nat, p: Plaintext)
    requires ReceiverOk(rx, c) && k < rx.ratchet.recvNum && Pending(rx, k)
    requires rx' == rx.(ratchet := rx.ratchet.(skipped := rx.ratchet.skipped - {k}),
                        inbox := rx.inbox + [Received(k, p)])
    ensures Holds(rx.ratchet, c, k) && ReceiverOk(rx', c)
    ensures NoOlderKeys(rx.ratchet, c) ==> NoOlderKeys(rx'.ratchet, c)
  {
    AcceptedAfter(rx, rx', Received(k, p));
    assert forall i :: Pending(rx', i) <==> Pending(rx, i) && i != k;
    assert forall i :: Holds(rx'.ratchet, c, i) <==> Holds(rx.ratchet, c, i) && i != k;
  }

  /** The message at the counter is taken with the next key of the chain. */
  lemma TakeNext(rx: Endpoint, rx': Endpoint, c: Key, p: Plaintext)
    requires ReceiverOk(rx, c)
    requires var r := rx.ratchet;
             rx' == rx.(ratchet := r.(recvChain := Next(r.recvChain), recvNum := r.recvNum + 1),
                        inbox := rx.inbox + [Received(r.recvNum, p)])
    ensures ReceiverOk(rx', c)
    ensures NoOlderKeys(rx.ratchet, c) ==> NoOlderKeys(rx'.ratchet, c)
  {
    AcceptedAfter(rx, rx', Received(rx.ratchet.recvNum, p));
    assert forall i :: Pending(rx', i) <==> Pending(rx, i) && i != rx.ratchet.recvNum;
    assert forall i :: Holds(rx'.ratchet, c, i) <==> Holds(rx.ratchet, c, i);
  }

  /** Whatever is sealed under the key of a pending number opens, and uses it up. */
  lemma PendingOpens(rx: Endpoint, c: Key, h: Header, p: Plaintext, drawn: PrivateKey)
    requires ReceiverOk(rx, c) && h.dh == rx.ratchet.remote && h.num >= 0 && Pending(rx, h.num)
    ensures var ct := Sealed(KeyAt(c, h.num), h.nonce, p);
            var o := Decrypted(rx.ratchet, h, ct, drawn);
            var rx' := Receiving(rx, h, ct, drawn);
            && o.result == Ok(p) && SameEpoch(rx.ratchet, o.after)
            && rx' == rx.(ratchet := o.after, inbox := rx.inbox + [Received(h.num, p)])
            && ReceiverOk(rx', c)
            && (NoOlderKeys(rx.ratchet, c) ==> NoOlderKeys(o.after, c))
  {
    var ct := Sealed(KeyAt(c, h.num), h.nonce, p);
    var rx' := Receiving(rx, h, ct, drawn);
    if h.num < rx.ratchet.recvNum {
      hide ReceiverOk, NoOlderKeys, SkippedTo, Pending;
      var taken := rx.(ratchet := rx.ratchet.(skipped := rx.ratchet.skipped - {h.num}),
                       inbox := rx.inbox + [Received(h.num, p)]);
      TakePassed(rx, taken, c, h.num, p);
      assert rx' == taken;
    } else {
      SkipKeepsReceiver(rx, c, h.num);
      var s := rx.(ratchet := SkippedTo(rx.ratchet, h.num));
      SkipNothing(rx.ratchet, h.num);
      assert s.ratchet.recvNum == h.num && s.ratchet.recvChain == Advance(c, h.num);
      hide ReceiverOk, NoOlderKeys, Pending;
      var r := s.ratchet.(recvChain := Next(s.ratchet.recvChain), recvNum := h.num + 1);
      var taken := s.(ratchet := r, inbox := s.inbox + [Received(h.num, p)]);
      TakeNext(s, taken, c, p);
      assert rx' == taken;
    }
  }

  /** First delivery: the message opens to its own text, whatever arrived before. */
  lemma FirstDelivery(tx: Endpoint, rx: Endpoint, c: Key, k: nat, drawn: PrivateKey)
    requires LaneOk(tx, rx, c) && k < |tx.outbox| && Pending(rx, k)
    ensures var m := tx.outbox[k];
            var o := Decrypted(rx.ratchet, m.header, m.ct, drawn);
            var rx' := Receiving(rx, m.header, m.ct, drawn);
            && o.result == Ok(m.plaintext) && SameEpoch(rx.ratchet, o.after)
            && rx' == rx.(ratchet := o.after, inbox := rx.inbox + [Received(k, m.plaintext)])
            && ReceiverOk(rx', c)
  {
    hide ReceiverOk, Decrypted;
    PendingOpens(rx, c, tx.outbox[k].header, tx.outbox[k].plaintext, drawn);
  }

  /** Every further delivery, and that of a trimmed number, is refused and changes nothing. */
  lemma Redelivery(tx: Endpoint, rx: Endpoint, c: Key, k: nat, drawn: PrivateKey)
    requires LaneOk(tx, rx, c) && k < |tx.outbox| && !Pending(rx, k)
    ensures var m := tx.outbox[k];
            var o := Decrypted(rx.ratchet, m.header, m.ct, drawn);
            o.result.Err? && o.after == rx.ratchet && Receiving(rx, m.header, m.ct, drawn) == rx
  {
    assert !Holds(rx.ratchet, c, k);
  }

  /** A rejected message - any ciphertext, any number, old, negative or far ahead -
      costs the receiver no key: its half of the invariant still holds. */
  lemma RejectionKeepsReceiver(rx: Endpoint, c: Key, h: Header, ct: Ciphertext, drawn: PrivateKey)
    requires ReceiverOk(rx, c) && h.dh == rx.ratchet.remote
    requires Decrypted(rx.ratchet, h, ct, drawn).result.Err?
    ensures var rx' := Receiving(rx, h, ct, drawn);
            && ReceiverOk(rx', c) && rx' == rx.(ratchet := rx'.ratchet) && SameEpoch(rx.ratchet, rx'.ratchet)
            && (NoOlderKeys(rx.ratchet, c) ==> NoOlderKeys(rx'.ratchet, c))
  {
    SkipKeepsReceiver(rx, c, h.num);
  }

  /** Exactly what a receiver accepts under the current DH key: a box sealed under the
      key of the pending number it is announced as, with the announced nonce. */
  lemma OpensIff(rx: Endpoint, c: Key, h: Header, ct: Ciphertext, drawn: PrivateKey)
    requires ReceiverOk(rx, c) && NoOlderKeys(rx.ratchet, c) && h.dh == rx.ratchet.remote
    ensures var result := Decrypted(rx.ratchet, h, ct, drawn).result;
            && (result.Ok? <==>
                  && h.num >= 0 && Pending(rx, h.num)
                  && ct.Sealed? && ct.key == KeyAt(c, h.num) && ct.nonce == h.nonce)
            && (result.Ok? ==> result.value == ct.plaintext)
  {
    var r := rx.ratchet;
    assert 0 <= h.num < r.recvNum ==> (Holds(r, c, h.num) <==> Pending(rx, h.num));
    if h.num >= r.recvNum {
      AdvanceAdd(c, r.recvNum, h.num - r.recvNum);
      assert Pending(rx, h.num);
    }
  }

  /** Of the ciphertexts that the two sides have sent, those that a side accepts under
      number `n` are the peer's message `n` and its own message `n`. */
  lemma SentOpensIff(tx: Endpoint, rx: Endpoint, c: Key, h: Header, ct: Ciphertext, drawn: PrivateKey)
    requires LaneOk(tx, rx, c) && SenderOk(rx, c) && NoOlderKeys(rx.ratchet, c) && h.dh == rx.ratchet.remote
    requires SentBy(tx, ct) || SentBy(rx, ct)
    ensures var result := Decrypted(rx.ratchet, h, ct, drawn).result;
            && (result.Ok? <==> h.num >= 0 && Pending(rx, h.num) && (IsMessage(tx, h, ct) || IsMessage(rx, h, ct)))
            && (result.Ok? ==> From(tx, Received(h.num, result.value)) || From(rx, Received(h.num, result.value)))
  {
    hide ReceiverOk, Decrypted;
    OpensIff(rx, c, h, ct, drawn);
    if SentBy(tx, ct) {
      SentUnder(tx, c, h, ct);
    }
    if SentBy(rx, ct) {
      SentUnder(rx, c, h, ct);
    }
  }

  /** `ct` is the message that `e` sent under the announced number and nonce. */
  predicate IsMessage(e: Endpoint, h: Header, ct: Ciphertext) {
    0 <= h.num < |e.outbox| && e.outbox[h.num].ct == ct && e.outbox[h.num].header.nonce == h.nonce
  }

  /** A sent ciphertext carries the key of its own number only. */
  lemma SentUnder(e: Endpoint, c: Key, h: Header, ct: Ciphertext)
    requires SenderOk(e, c) && SentBy(e, ct)
    ensures h.num >= 0 && ct.Sealed? && ct.key == KeyAt(c, h.num) && ct.nonce == h.nonce <==> IsMessage(e, h, ct)
    ensures IsMessage(e, h, ct) ==> ct.Sealed? && From(e, Received(h.num, ct.plaintext))
  {
    hide KeyAt;
    var i :| 0 <= i < |e.outbox| && e.outbox[i].ct == ct;
    if h.num >= 0 {
      KeyAtInjective(c, i, h.num);
    }
  }

  /** A side that is handed back its own message under a number its peer has not used
      up accepts it, and then refuses the peer's message of that number. */
  lemma OwnMessageAccepted(tx: Endpoint, rx: Endpoint, c: Key, k: nat, drawn: PrivateKey)
    requires LaneOk(tx, rx, c) && SenderOk(rx, c) && k < |rx.outbox| && Pending(rx, k)
    ensures var m := rx.outbox[k];
            var h := m.header.(dh := rx.ratchet.remote);
            var rx' := Receiving(rx, h, m.ct, drawn);
            && rx'.inbox == rx.inbox + [Received(k, m.plaintext)]
            && (k < |tx.outbox| ==>
                  Decrypted(rx'.ratchet, tx.outbox[k].header, tx.outbox[k].ct, drawn).result.Err?)
  {
    hide Decrypted;
    var m := rx.outbox[k];
    var h := m.header.(dh := rx.ratchet.remote);
    PendingOpens(rx, c, h, m.plaintext, drawn);
    var rx' := Receiving(rx, h, m.ct, drawn);
    AcceptedAfter(rx, rx', Received(k, m.plaintext));
    if k < |tx.outbox| {
      AddedOnce(rx, rx', Received(k, m.plaintext));
      Redelivery(tx, rx', c, k, drawn);
    }
  }

  lemma AddedOnce(e: Endpoint, e': Endpoint, m: Received)
    requires EachOnce(e) && !Accepted(e, m.num) && e'.inbox == e.inbox + [m]
    ensures EachOnce(e')
  {
  }

  // ------------------------------------------------------------------
  // Rejected messages
  // ------------------------------------------------------------------

  /** The root that an epoch leaves behind is derived from the one its chain came from. */
  ghost predicate RootedIn(r: Ratchet, c: Key) {
    c.Chain? && r.root == Root(c.root, c.secret)
  }

  /** Once the key under which it was sent is no longer the current one, a message of
      the chain `c` is tried on another chain and refused. */
  lemma OtherChainRefuses(r: Ratchet, c: Key, h: Header, p: Plaintext, drawn: PrivateKey)
    requires c.Chain? && Depth(r.root) > Depth(c.root)
    requires h.num >= 0 && h.dh.PublicKey? && h.dh != r.remote
    ensures Decrypted(r, h, Sealed(KeyAt(c, h.num), h.nonce, p), drawn).result.Err?
  {
    var s := Stepped(r, h.dh, drawn);
    if KeyAt(s.recvChain, h.num) == KeyAt(c, h.num) {
      AdvanceInjective(s.recvChain, c, h.num);
      assert false;
    }
  }

  /** A message rejected under another DH key leaves another key and a deeper root, or
      an unusable key. */
  lemma OtherKeyStays(r: Ratchet, h: Header, ct: Ciphertext, drawn: PrivateKey)
    requires h.dh != r.remote && Decrypted(r, h, ct, drawn).result.Err?
    ensures var after := Decrypted(r, h, ct, drawn).after;
            after.remote == h.dh && Depth(after.root) >= Depth(r.root)
  {
  }

  /**
   * What a rejected message costs.  Every pending message still opens if it came
   * under the current DH key; under any other key, usable or not, none does.
   */
  lemma RejectionCostIff(tx: Endpoint, rx: Endpoint, c: Key, h: Header, ct: Ciphertext, k: nat,
                         drawn: PrivateKey, next: PrivateKey)
    requires LaneOk(tx, rx, c) && RootedIn(rx.ratchet, c) && tx.ratchet.dhPub.PublicKey?
    requires Decrypted(rx.ratchet, h, ct, drawn).result.Err?
    requires k < |tx.outbox| && Pending(rx, k)
    ensures var after := Decrypted(rx.ratchet, h, ct, drawn).after;
            var result := Decrypted(after, tx.outbox[k].header, tx.outbox[k].ct, next).result;
            && (result.Ok? <==> h.dh == rx.ratchet.remote)
            && (result.Ok? ==> result.value == tx.outbox[k].plaintext)
  {
    hide Decrypted, ReceiverOk;
    if h.dh == rx.ratchet.remote {
      RejectionLosesNothing(tx, rx, c, h, ct, k, drawn, next);
    } else {
      OtherKeyStays(rx.ratchet, h, ct, drawn);
      var after := Decrypted(rx.ratchet, h, ct, drawn).after;
      OtherChainRefuses(after, c, tx.outbox[k].header, tx.outbox[k].plaintext, next);
    }
  }

  /** After a message rejected under the current key every pending message still opens. */
  lemma RejectionLosesNothing(tx: Endpoint, rx: Endpoint, c: Key, h: Header, ct: Ciphertext, k: nat,
                              drawn: PrivateKey, next: PrivateKey)
    requires LaneOk(tx, rx, c) && h.dh == rx.ratchet.remote
    requires Decrypted(rx.ratchet, h, ct, drawn).result.Err?
    requires k < |tx.outbox| && Pending(rx, k)
    ensures var after := Decrypted(rx.ratchet, h, ct, drawn).after;
            Decrypted(after, tx.outbox[k].header, tx.outbox[k].ct, next).result == Ok(tx.outbox[k].plaintext)
  {
    hide Decrypted, ReceiverOk;
    RejectionKeepsReceiver(rx, c, h, ct, drawn);
    var rx' := Receiving(rx, h, ct, drawn);
    assert Pending(rx', k) <==> Pending(rx, k);
    FirstDelivery(tx, rx', c, k, next);
  }

  /** An empty message under an unusable key is rejected, and takes every pending message with it. */
  lemma UnusableKeyCostsAll(tx: Endpoint, rx: Endpoint, c: Key, k: nat, drawn: PrivateKey, next: PrivateKey)
    requires LaneOk(tx, rx, c) && RootedIn(rx.ratchet, c) && tx.ratchet.dhPub.PublicKey?
    requires k < |tx.outbox| && Pending(rx, k)
    ensures var o := Decrypted(rx.ratchet, Header(0, UNSET_PUBLIC_KEY, 0), Noise([]), drawn);
            o.result.Err? && Decrypted(o.after, tx.outbox[k].header, tx.outbox[k].ct, next).result.Err?
  {
    RejectionCostIff(tx, rx, c, Header(0, UNSET_PUBLIC_KEY, 0), Noise([]), k, drawn, next);
  }

  // ------------------------------------------------------------------
  // The loss lasts
  // ------------------------------------------------------------------

  /** The ratchet receives on the chain `d`: no key below its counter is of another one. */
  ghost predicate ReceivesOn(r: Ratchet, d: Key) {
    && r.recvNum >= 0 && r.recvChain == Advance(d, r.recvNum)
    && forall i :: 0 <= i < r.recvNum && i in r.skipped ==> r.skipped[i] == KeyAt(d, i)
  }

  /** The ratchet has left the epoch of `c` in which the peer sent under `dh`. */
  ghost predicate Left(r: Ratchet, c: Key, dh: PublicKey)
    requires c.Chain?
  {
    || (r.remote != dh && Depth(r.root) > Depth(c.root))
    || (r.remote == dh && exists d :: d != c && ReceivesOn(r, d))
  }

  lemma OtherChainStays(r: Ratchet, c: Key, d: Key, h: Header, p: Plaintext)
    requires ReceivesOn(r, d) && c != d && h.num >= 0
    ensures var o := Opened(r, h, Sealed(KeyAt(c, h.num), h.nonce, p));
            o.result.Err? && ReceivesOn(o.after, d) && o.after.remote == r.remote
  {
    if KeyAt(c, h.num) == KeyAt(d, h.num) {
      AdvanceInjective(c, d, h.num);
      assert false;
    }
    if h.num > r.recvNum {
      AdvanceAdd(d, r.recvNum, h.num - r.recvNum);
      forall i | r.recvNum <= i < h.num
        ensures KeyFrom(r.recvChain, r.recvNum, i) == KeyAt(d, i)
      {
        AdvanceAdd(d, r.recvNum, i - r.recvNum);
      }
    }
  }

  /** A ratchet that has left the epoch refuses its messages and stays away. */
  lemma LeftStays(r: Ratchet, c: Key, h: Header, p: Plaintext, drawn: PrivateKey)
    requires c.Chain? && Left(r, c, h.dh) && h.dh.PublicKey? && h.num >= 0
    ensures var o := Decrypted(r, h, Sealed(KeyAt(c, h.num), h.nonce, p), drawn);
            o.result.Err? && Left(o.after, c, h.dh)
  {
    hide Opened;
    if r.remote == h.dh {
      var d :| d != c && ReceivesOn(r, d);
      OtherChainStays(r, c, d, h, p);
    } else {
      var s := Stepped(r, h.dh, drawn);
      assert ReceivesOn(s, s.recvChain) by {
        assert Advance(s.recvChain, 0) == s.recvChain;
      }
      OtherChainStays(s, c, s.recvChain, h, p);
    }
  }

  /** The messages `order` of `tx` arrive one after the other, each with a key to draw. */
  function Arriving(r: Ratchet, tx: Endpoint, order: seq<(nat, PrivateKey)>): Ratchet
    requires forall i :: 0 <= i < |order| ==> order[i].0 < |tx.outbox|
  {
    if order == [] then r
    else
      var n := |order| - 1;
      var m := tx.outbox[order[n].0];
      Decrypted(Arriving(r, tx, order[..n]), m.header, m.ct, order[n].1).after
  }

  lemma {:induction false} LeftForEver(r: Ratchet, tx: Endpoint, c: Key, order: seq<(nat, PrivateKey)>)
    requires SenderOk(tx, c) && c.Chain? && tx.ratchet.dhPub.PublicKey? && Left(r, c, tx.ratchet.dhPub)
    requires forall i :: 0 <= i < |order| ==> order[i].0 < |tx.outbox|
    ensures Left(Arriving(r, tx, order), c, tx.ratchet.dhPub)
    decreases |order|
  {
    hide Left, Decrypted;
    if order != [] {
      var n := |order| - 1;
      LeftForEver(r, tx, c, order[..n]);
      var m := tx.outbox[order[n].0];
      LeftStays(Arriving(r, tx, order[..n]), c, m.header, m.plaintext, order[n].1);
    }
  }

  /** After a message rejected under another key no message of the epoch opens any more,
      whatever further messages of the epoch arrive in whatever order. */
  lemma RejectionLasts(tx: Endpoint, rx: Endpoint, c: Key, h: Header, ct: Ciphertext, drawn: PrivateKey,
                       order: seq<(nat, PrivateKey)>, k: nat, next: PrivateKey)
    requires LaneOk(tx, rx, c) && RootedIn(rx.ratchet, c) && tx.ratchet.dhPub.PublicKey?
    requires h.dh != rx.ratchet.remote && Decrypted(rx.ratchet, h, ct, drawn).result.Err?
    requires k < |tx.outbox| && forall i :: 0 <= i < |order| ==> order[i].0 < |tx.outbox|
    ensures var after := Arriving(Decrypted(rx.ratchet, h, ct, drawn).after, tx, order);
            Decrypted(after, tx.outbox[k].header, tx.outbox[k].ct, next).result.Err?
  {
    hide Decrypted, ReceiverOk;
    OtherKeyStays(rx.ratchet, h, ct, drawn);
    var r := Decrypted(rx.ratchet, h, ct, drawn).after;
    LeftForEver(r, tx, c, order);
    LeftStays(Arriving(r, tx, order), c, tx.outbox[k].header, tx.outbox[k].plaintext, next);
  }

  // ------------------------------------------------------------------
  // Cleanup
  // ------------------------------------------------------------------

  /** Cleaning leaves at most `maxSkip` keys and changes none that stay, however often
      the ratchet was cleaned before. */
  lemma CleanupBound(r: Ratchet, maxSkip: nat)
    requires forall i :: i in r.skipped ==> i < r.recvNum
    ensures var after := Cleaned(r, maxSkip);
            && |after.skipped| <= maxSkip
            && forall i :: i in after.skipped ==> i in r.skipped && after.skipped[i] == r.skipped[i]
  {
    if |r.skipped| > maxSkip {
      IntervalSize(Cleaned(r, maxSkip).skipped.Keys, r.recvNum - maxSkip, r.recvNum);
    }
  }

  /** Of the messages that open, cleaning keeps exactly those that were not passed yet
      and those among the last `maxSkip` numbers, or all if there was nothing to trim;
      for every ratchet and every `maxSkip`, negative ones included. */
  lemma CleanupKeepsRecent(r: Ratchet, h: Header, ct: Ciphertext, maxSkip: int, drawn: PrivateKey)
    requires h.dh == r.remote && Decrypted(r, h, ct, drawn).result.Ok?
    ensures var result := Decrypted(Cleaned(r, maxSkip), h, ct, drawn).result;
            && (result.Ok? <==> |r.skipped| <= maxSkip || h.num >= r.recvNum || h.num >= r.recvNum - maxSkip)
            && (result.Ok? ==> result == Decrypted(r, h, ct, drawn).result)
  {
    if h.num >= r.recvNum {
      assert SkippedTo(Cleaned(r, maxSkip), h.num).recvChain == SkippedTo(r, h.num).recvChain;
    }
  }

  lemma CleanKeepsReceiver(rx: Endpoint, c: Key, maxSkip: int)
    requires ReceiverOk(rx, c) && NoOlderKeys(rx.ratchet, c)
    ensures ReceiverOk(Cleaning(rx, maxSkip), c) && NoOlderKeys(Cleaning(rx, maxSkip).ratchet, c)
  {
    var r := rx.ratchet;
    var rx' := Cleaning(rx, maxSkip);
    assert forall i :: Accepted(rx', i) <==> Accepted(rx, i);
    assert forall i :: Holds(rx'.ratchet, c, i) <==> Holds(r, c, i) && !Trims(r, maxSkip, i);
    assert forall i :: Trims(r, maxSkip, i) ==> 0 <= i < r.recvNum && Holds(r, c, i);
    assert forall i :: Pending(rx', i) <==> Pending(rx, i) && !Trims(r, maxSkip, i);
  }

  // ------------------------------------------------------------------
  // Whole runs
  // ------------------------------------------------------------------

  lemma SendKeepsSender(tx: Endpoint, c: Key, p: Plaintext, nonce: Nonce)
    requires SenderOk(tx, c)
    ensures SenderOk(Sending(tx, p, nonce), c)
    ensures forall m :: From(tx, m) ==> From(Sending(tx, p, nonce), m)
  {
  }

  lemma SendKeepsReceiver(e: Endpoint, c: Key, p: Plaintext, nonce: Nonce)
    requires ReceiverOk(e, c)
    ensures ReceiverOk(Sending(e, p, nonce), c)
    ensures NoOlderKeys(e.ratchet, c) ==> NoOlderKeys(Sending(e, p, nonce).ratchet, c)
  {
    var e' := Sending(e, p, nonce);
    assert forall i :: Accepted(e', i) <==> Accepted(e, i);
    assert forall i :: Pending(e', i) <==> Pending(e, i);
    assert forall i :: Holds(e'.ratchet, c, i) <==> Holds(e.ratchet, c, i);
  }

  /** What one side's step leaves alone of its own sending half. */
  ghost predicate SameSender(e: Endpoint, e': Endpoint) {
    && e'.outbox == e.outbox && SameEpoch(e.ratchet, e'.ratchet)
    && e'.ratchet.sendChain == e.ratchet.sendChain && e'.ratchet.sendNum == e.ratchet.sendNum
  }

  /** What a delivery does to the receiving side. */
  ghost predicate Advances(tx: Endpoint, rx: Endpoint, rx': Endpoint, c: Key) {
    && SameSender(rx, rx') && ReceiverOk(rx', c) && EachOnce(rx')
    && (NoOlderKeys(rx.ratchet, c) ==> NoOlderKeys(rx'.ratchet, c))
    && (TextsOk(tx, rx) ==> TextsOk(tx, rx'))
  }

  lemma ReceivingKeepsSender(e: Endpoint, h: Header, ct: Ciphertext, drawn: PrivateKey)
    requires h.dh == e.ratchet.remote
    ensures SameSender(e, Receiving(e, h, ct, drawn))
  {
  }

  /** A message of `origin` that opens is added to the inbox. */
  lemma TakenAdvances(tx: Endpoint, rx: Endpoint, origin: Endpoint, c: Key, h: Header, ct: Ciphertext,
                      drawn: PrivateKey)
    requires LaneOk(tx, rx, c) && SenderOk(origin, c) && (origin == tx || origin == rx)
    requires h.dh == rx.ratchet.remote && IsMessage(origin, h, ct) && Pending(rx, h.num)
    ensures var rx' := Receiving(rx, h, ct, drawn);
            && Advances(tx, rx, rx', c) && rx'.lost == rx.lost
            && rx'.inbox == rx.inbox + [Received(h.num, origin.outbox[h.num].plaintext)]
  {
    hide ReceiverOk, Decrypted, NoOlderKeys;
    var m := Received(h.num, origin.outbox[h.num].plaintext);
    PendingOpens(rx, c, h, m.plaintext, drawn);
    ReceivingKeepsSender(rx, h, ct, drawn);
    var rx' := Receiving(rx, h, ct, drawn);
    AddedOnce(rx, rx', m);
    assert From(origin, m);
    assert From(rx', m) <==> From(rx, m);
    if TextsOk(tx, rx) {
      assert forall j :: 0 <= j < |rx.inbox| ==> (From(rx', rx'.inbox[j]) <==> From(rx, rx.inbox[j]));
    }
  }

  lemma RejectedAdvances(tx: Endpoint, rx: Endpoint, c: Key, h: Header, ct: Ciphertext, drawn: PrivateKey)
    requires LaneOk(tx, rx, c) && h.dh == rx.ratchet.remote
    requires Decrypted(rx.ratchet, h, ct, drawn).result.Err?
    ensures var rx' := Receiving(rx, h, ct, drawn);
            Advances(tx, rx, rx', c) && rx'.inbox == rx.inbox && rx'.lost == rx.lost
  {
    hide ReceiverOk, Decrypted, NoOlderKeys;
    RejectionKeepsReceiver(rx, c, h, ct, drawn);
    ReceivingKeepsSender(rx, h, ct, drawn);
  }

  lemma CleaningAdvances(tx: Endpoint, rx: Endpoint, c: Key, maxSkip: int)
    requires LaneOk(tx, rx, c) && NoOlderKeys(rx.ratchet, c)
    ensures Advances(tx, rx, Cleaning(rx, maxSkip), c) && Cleaning(rx, maxSkip).inbox == rx.inbox
  {
    CleanKeepsReceiver(rx, c, maxSkip);
  }

  /** A delivery accepts the delivered number if it is pending, and no other. */
  lemma DeliveryAdvances(tx: Endpoint, rx: Endpoint, c: Key, k: nat, drawn: PrivateKey)
    requires LaneOk(tx, rx, c) && k < |tx.outbox|
    ensures var rx' := Receiving(rx, tx.outbox[k].header, tx.outbox[k].ct, drawn);
            && tx.outbox[k].header.dh == rx.ratchet.remote
            && Advances(tx, rx, rx', c) && rx'.lost == rx.lost
            && rx'.inbox == (if Pending(rx, k) then rx.inbox + [Received(k, tx.outbox[k].plaintext)] else rx.inbox)
            && (forall i :: Accepted(rx', i) <==> Accepted(rx, i) || (i == k && Pending(rx, k)))
  {
    hide ReceiverOk, Decrypted;
    var m := tx.outbox[k];
    if Pending(rx, k) {
      TakenAdvances(tx, rx, tx, c, m.header, m.ct, drawn);
      AcceptedAfter(rx, Receiving(rx, m.header, m.ct, drawn), Received(k, m.plaintext));
    } else {
      Redelivery(tx, rx, c, k, drawn);
      RejectedAdvances(tx, rx, c, m.header, m.ct, drawn);
    }
  }

  /** An injected message uses up the number it is announced as, or nothing. */
  lemma InjectionAdvances(tx: Endpoint, rx: Endpoint, c: Key, h: Header, ct: Ciphertext, drawn: PrivateKey)
    requires LaneOk(tx, rx, c) && SenderOk(rx, c) && NoOlderKeys(rx.ratchet, c) && h.dh == rx.ratchet.remote
    requires SentBy(tx, ct) || SentBy(rx, ct) || Decrypted(rx.ratchet, h, ct, drawn).result.Err?
    ensures var rx' := Receiving(rx, h, ct, drawn);
            && Advances(tx, rx, rx', c) && rx'.lost == rx.lost
            && (forall i :: Accepted(rx', i) <==>
                  Accepted(rx, i) || (i == h.num && Decrypted(rx.ratchet, h, ct, drawn).result.Ok?))
  {
    hide ReceiverOk, Decrypted, NoOlderKeys, LaneOk;
    var rx' := Receiving(rx, h, ct, drawn);
    if Decrypted(rx.ratchet, h, ct, drawn).result.Err? {
      RejectedAdvances(tx, rx, c, h, ct, drawn);
      assert forall i :: Accepted(rx', i) <==> Accepted(rx, i);
    } else {
      SentOpensIff(tx, rx, c, h, ct, drawn);
      var origin := if IsMessage(tx, h, ct) then tx else rx;
      assert SenderOk(tx, c) by { LaneParts(tx, rx, c); }
      TakenAdvances(tx, rx, origin, c, h, ct, drawn);
      AcceptedAfter(rx, rx', Received(h.num, origin.outbox[h.num].plaintext));
    }
  }

  lemma LaneParts(tx: Endpoint, rx: Endpoint, c: Key)
    requires LaneOk(tx, rx, c)
    ensures SenderOk(tx, c) && ReceiverOk(rx, c) && EachOnce(rx) && rx.ratchet.remote == tx.ratchet.dhPub
  {
  }

  /** Whatever a side receives or forgets keeps the session. */
  lemma AdvanceKeepsSession(w: World, s: Side, e: Endpoint, c: Key)
    requires SessionOk(w, c) && Advances(w.At(Peer(s)), w.At(s), e, c)
    ensures SessionOk(w.With(s, e), c)
  {
    hide ReceiverOk, NoOlderKeys;
    var v := w.With(s, e);
    assert v.At(s) == e && v.At(Peer(s)) == w.At(Peer(s));
    assert SenderOk(e, c) by {
      assert SenderOk(w.At(s), c);
    }
    assert TextsOk(e, v.At(Peer(s))) by {
      assert TextsOk(w.At(Peer(Peer(s))), w.At(Peer(s)));
      assert forall m :: From(e, m) <==> From(w.At(s), m);
    }
    forall x: Side
      ensures NoOlderKeys(v.At(x).ratchet, c) && TextsOk(v.At(Peer(x)), v.At(x))
    {
      assert NoOlderKeys(w.At(x).ratchet, c) && TextsOk(w.At(Peer(x)), w.At(x));
      assert x == s || x == Peer(s);
    }
  }

  lemma SendKeepsSession(w: World, s: Side, p: Plaintext, nonce: Nonce, c: Key)
    requires SessionOk(w, c)
    ensures SessionOk(w.With(s, Sending(w.At(s), p, nonce)), c)
  {
    hide ReceiverOk, NoOlderKeys, SenderOk, From;
    var e, e' := w.At(s), Sending(w.At(s), p, nonce);
    var v := w.With(s, e');
    assert v.At(s) == e' && v.At(Peer(s)) == w.At(Peer(s));
    SendKeepsSender(e, c, p, nonce);
    SendKeepsReceiver(e, c, p, nonce);
    forall x: Side
      ensures NoOlderKeys(v.At(x).ratchet, c) && TextsOk(v.At(Peer(x)), v.At(x))
    {
      assert NoOlderKeys(w.At(x).ratchet, c) && TextsOk(w.At(Peer(x)), w.At(x));
      assert x == s || x == Peer(s);
    }
  }

  /** What one step does to the side `s`, in terms of the state it finds. */
  ghost predicate Takes(w: World, step: Step, s: Side, k: int)
    requires Enabled(w, step)
  {
    match step
    case Deliver(to, i, _) => to == s && i == k && Pending(w.At(s), k)
    case Inject(to, h, ct, drawn) => to == s && h.num == k && Decrypted(w.At(s).ratchet, h, ct, drawn).result.Ok?
    case _ => false
  }

  lemma StepKeepsSession(w: World, step: Step, c: Key, s: Side)
    requires SessionOk(w, c) && Enabled(w, step)
    ensures var v := Apply(w, step);
            && SessionOk(v, c)
            && SameEpoch(w.At(s).ratchet, v.At(s).ratchet)
            && (forall k :: Accepted(v.At(s), k) <==> Accepted(w.At(s), k) || Takes(w, step, s, k))
            && (forall k :: k in v.At(s).lost <==>
                  k in w.At(s).lost || (step.Clean? && step.side == s && Trims(w.At(s).ratchet, step.maxSkip, k)))
  {
    hide LaneOk, ReceiverOk, NoOlderKeys, Decrypted, TextsOk;
    var v := Apply(w, step);
    match step
    case Send(author, p, nonce) =>
      SendKeepsSession(w, author, p, nonce, c);
      assert forall k :: Accepted(v.At(s), k) <==> Accepted(w.At(s), k);
    case Deliver(to, i, drawn) =>
      DeliveryAdvances(w.At(Peer(to)), w.At(to), c, i, drawn);
      AdvanceKeepsSession(w, to, v.At(to), c);
    case Inject(to, h, ct, drawn) =>
      LaneParts(w.At(to), w.At(Peer(to)), c);
      assert NoOlderKeys(w.At(to).ratchet, c);
      InjectionAdvances(w.At(Peer(to)), w.At(to), c, h, ct, drawn);
      AdvanceKeepsSession(w, to, v.At(to), c);
    case Clean(side, maxSkip) =>
      assert NoOlderKeys(w.At(side).ratchet, c);
      CleaningAdvances(w.At(Peer(side)), w.At(side), c, maxSkip);
      AdvanceKeepsSession(w, side, v.At(side), c);
      assert forall k :: Accepted(v.At(s), k) <==> Accepted(w.At(s), k);
  }

  /** At some step of the run the side accepts a message under number `k`. */
  ghost predicate Taken(w: World, steps: seq<Step>, s: Side, k: int)
    requires ValidRun(w, steps)
    decreases |steps|
  {
    steps != [] && (Takes(w, steps[0], s, k) || Taken(Apply(w, steps[0]), steps[1..], s, k))
  }

  /** At some step of the run a cleanup trims the key of number `k`. */
  ghost predicate Trimmed(w: World, steps: seq<Step>, s: Side, k: int)
    requires ValidRun(w, steps)
    decreases |steps|
  {
    steps != [] &&
    (|| (steps[0].Clean? && steps[0].side == s && Trims(w.At(s).ratchet, steps[0].maxSkip, k))
     || Trimmed(Apply(w, steps[0]), steps[1..], s, k))
  }

  lemma {:induction false} RunKeepsSession(w: World, steps: seq<Step>, c: Key, s: Side, k: int)
    requires SessionOk(w, c) && ValidRun(w, steps)
    ensures var v := Run(w, steps);
            && SessionOk(v, c) && SameEpoch(w.At(s).ratchet, v.At(s).ratchet)
            && (Accepted(v.At(s), k) <==> Accepted(w.At(s), k) || Taken(w, steps, s, k))
            && (k in v.At(s).lost <==> k in w.At(s).lost || Trimmed(w, steps, s, k))
    decreases |steps|
  {
    hide SessionOk, Accepted, Takes, Trims;
    if steps != [] {
      StepKeepsSession(w, steps[0], c, s);
      RunKeepsSession(Apply(w, steps[0]), steps[1..], c, s, k);
    }
  }

  /** The network hands number `k` of the peer to `to`. */
  ghost predicate Delivered(steps: seq<Step>, to: Side, k: int)
    decreases |steps|
  {
    steps != [] && ((steps[0].Deliver? && steps[0].to == to && steps[0].index == k) || Delivered(steps[1..], to, k))
  }

  /** The network injects a message announced as number `k`. */
  ghost predicate Injected(steps: seq<Step>, to: Side, k: int)
    decreases |steps|
  {
    steps != [] && ((steps[0].Inject? && steps[0].to == to && steps[0].header.num == k) || Injected(steps[1..], to, k))
  }

  /** A number is used up only by a message that came under it, and a number that was
      delivered is used up or had been trimmed. */
  lemma {:induction false} RunDelivers(w: World, steps: seq<Step>, c: Key, s: Side, k: int)
    requires SessionOk(w, c) && ValidRun(w, steps)
    ensures Taken(w, steps, s, k) ==> Delivered(steps, s, k) || Injected(steps, s, k)
    ensures Delivered(steps, s, k) ==>
              Accepted(w.At(s), k) || k in w.At(s).lost || Taken(w, steps, s, k) || Trimmed(w, steps, s, k)
    decreases |steps|
  {
    hide SessionOk, Accepted, Trims;
    if steps != [] {
      StepKeepsSession(w, steps[0], c, s);
      RunDelivers(Apply(w, steps[0]), steps[1..], c, s, k);
    }
  }

  /** Two endpoints as the exchange leaves them: nothing sent, one shared chain. */
  ghost predicate Exchanged(a: Ratchet, b: Ratchet) {
    && a.remote == b.dhPub && b.remote == a.dhPub
    && a.sendNum == a.recvNum == b.sendNum == b.recvNum == 0
    && a.sendChain == a.recvChain == b.sendChain == b.recvChain
    && a.skipped == b.skipped == map[]
    && a.root == b.root
  }

  function Opening(a: Ratchet, b: Ratchet): World {
    World(Endpoint(a, [], [], {}), Endpoint(b, [], [], {}))
  }

  lemma ExchangeStartsSession(a: Ratchet, b: Ratchet)
    requires Exchanged(a, b)
    ensures SessionOk(Opening(a, b), a.sendChain)
  {
    assert Advance(a.sendChain, 0) == a.sendChain;
  }

  /**
   * Delivery theorem.  Whatever the network and the cleanups did since the exchange:
   * no number is accepted twice; every accepted text was sent under its number, by the
   * peer or by the receiver itself; a delivered number is used up unless it was trimmed
   * before, and only a message under that number can use it up; a message of the peer
   * opens to its own text exactly if its number is neither used up nor trimmed, and is
   * otherwise refused with the state unchanged; no DH ratchet step has taken place.
   */
  lemma DeliveryTheorem(a: Ratchet, b: Ratchet, steps: seq<Step>, s: Side, k: nat, drawn: PrivateKey)
    requires Exchanged(a, b) && ValidRun(Opening(a, b), steps)
    ensures var start := Opening(a, b);
            var w := Run(start, steps);
            var tx, rx := w.At(Peer(s)), w.At(s);
            && EachOnce(rx) && TextsOk(tx, rx)
            && SameEpoch(start.At(s).ratchet, rx.ratchet)
            && (Delivered(steps, s, k) ==> Accepted(rx, k) || Trimmed(start, steps, s, k))
            && (Accepted(rx, k) ==> Delivered(steps, s, k) || Injected(steps, s, k))
            && (k < |tx.outbox| ==>
                  var m := tx.outbox[k];
                  var o := Decrypted(rx.ratchet, m.header, m.ct, drawn);
                  if Accepted(rx, k) || Trimmed(start, steps, s, k) then o.result.Err? && o.after == rx.ratchet
                  else o.result == Ok(m.plaintext))
  {
    hide Decrypted, ReceiverOk;
    var start := Opening(a, b);
    var c := a.sendChain;
    ExchangeStartsSession(a, b);
    RunKeepsSession(start, steps, c, s, k);
    RunDelivers(start, steps, c, s, k);
    var w := Run(start, steps);
    assert !Accepted(start.At(s), k);
    assert TextsOk(w.At(Peer(s)), w.At(s));
    if k < |w.At(Peer(s)).outbox| {
      if Pending(w.At(s), k) {
        FirstDelivery(w.At(Peer(s)), w.At(s), c, k, drawn);
      } else {
        Redelivery(w.At(Peer(s)), w.At(s), c, k, drawn);
      }
    }
  }

  // ------------------------------------------------------------------
  // Runs in which nothing injected opens and nothing is trimmed
  // ------------------------------------------------------------------

  ghost predicate Plain(w: World, steps: seq<Step>, s: Side)
    requires ValidRun(w, steps)
    decreases |steps|
  {
    steps == [] ||
    (var x := steps[0];
     && (x.Clean? && x.side == s ==> forall k :: !Trims(w.At(s).ratchet, x.maxSkip, k))
     && (x.Inject? && x.to == s ==> Decrypted(w.At(s).ratchet, x.header, x.ct, x.drawn).result.Err?)
     && Plain(Apply(w, x), steps[1..], s))
  }

  ghost predicate PeerTexts(tx: Endpoint, rx: Endpoint) {
    forall j :: 0 <= j < |rx.inbox| ==> From(tx, rx.inbox[j])
  }

  lemma StepKeepsPeerTexts(w: World, x: Step, c: Key, s: Side)
    requires SessionOk(w, c) && Enabled(w, x) && PeerTexts(w.At(Peer(s)), w.At(s))
    requires x.Inject? && x.to == s ==> Decrypted(w.At(s).ratchet, x.header, x.ct, x.drawn).result.Err?
    ensures PeerTexts(Apply(w, x).At(Peer(s)), Apply(w, x).At(s))
  {
    hide LaneOk, ReceiverOk, NoOlderKeys, Decrypted, TextsOk;
    match x
    case Send(author, p, nonce) =>
      LaneParts(w.At(author), w.At(Peer(author)), c);
      SendKeepsSender(w.At(author), c, p, nonce);
    case Deliver(to, i, drawn) =>
      DeliveryAdvances(w.At(Peer(to)), w.At(to), c, i, drawn);
      assert From(w.At(Peer(to)), Received(i, w.At(Peer(to)).outbox[i].plaintext));
    case Inject(to, h, ct, drawn) =>
    case Clean(_, _) =>
  }

  lemma {:induction false} PlainRun(w: World, steps: seq<Step>, c: Key, s: Side, k: int)
    requires SessionOk(w, c) && ValidRun(w, steps) && Plain(w, steps, s)
    requires PeerTexts(w.At(Peer(s)), w.At(s)) && k !in w.At(s).lost
    ensures var v := Run(w, steps);
            && PeerTexts(v.At(Peer(s)), v.At(s)) && k !in v.At(s).lost
            && (Accepted(v.At(s), k) <==> Accepted(w.At(s), k) || Delivered(steps, s, k))
    decreases |steps|
  {
    hide SessionOk, Accepted, Trims, Decrypted, PeerTexts;
    if steps != [] {
      StepKeepsSession(w, steps[0], c, s);
      StepKeepsPeerTexts(w, steps[0], c, s);
      PlainRun(Apply(w, steps[0]), steps[1..], c, s, k);
    }
  }

  /** With deliveries in any order, losses, repeats and rejected messages only, a side
      holds exactly what was delivered, each text as the peer sent it. */
  lemma PlainDelivery(a: Ratchet, b: Ratchet, steps: seq<Step>, s: Side, k: nat, drawn: PrivateKey)
    requires Exchanged(a, b) && ValidRun(Opening(a, b), steps) && Plain(Opening(a, b), steps, s)
    ensures var w := Run(Opening(a, b), steps);
            var tx, rx := w.At(Peer(s)), w.At(s);
            && PeerTexts(tx, rx) && EachOnce(rx)
            && (Accepted(rx, k) <==> Delivered(steps, s, k))
            && (k < |tx.outbox| ==>
                  var m := tx.outbox[k];
                  var o := Decrypted(rx.ratchet, m.header, m.ct, drawn);
                  if Delivered(steps, s, k) then o.result.Err? && o.after == rx.ratchet
                  else o.result == Ok(m.plaintext))
  {
    hide Decrypted, ReceiverOk, TextsOk, NoOlderKeys;
    var start := Opening(a, b);
    ExchangeStartsSession(a, b);
    RunKeepsSession(start, steps, a.sendChain, s, k);
    PlainRun(start, steps, a.sendChain, s, k);
    DeliveryTheorem(a, b, steps, s, k, drawn);
  }

  /** A run in which the initiator accepts a text that its peer never sent: its own. */
  lemma ReflectedRun(a: Ratchet, b: Ratchet, p: Plaintext, drawn: PrivateKey)
    requires Exchanged(a, b)
    ensures exists steps ::
              && ValidRun(Opening(a, b), steps)
              && var w := Run(Opening(a, b), steps);
                 w.responder.outbox == [] && w.initiator.inbox == [Received(0, p)]
  {
    hide Decrypted;
    var start := Opening(a, b);
    var send := Send(Initiator, p, 0);
    ExchangeStartsSession(a, b);
    StepKeepsSession(start, send, a.sendChain, Initiator);
    var w := Apply(start, send);
    var m := w.initiator.outbox[0];
    var back := Inject(Initiator, m.header.(dh := w.initiator.ratchet.remote), m.ct, drawn);
    assert SentBy(w.initiator, m.ct);
    OwnMessageAccepted(w.responder, w.initiator, a.sendChain, 0, drawn);
    var v := Apply(w, back);
    assert ValidRun(v, []) && Run(v, []) == v;
    assert [back][1..] == [];
    assert ValidRun(w, [back]) && Run(w, [back]) == v;
    assert [send, back][1..] == [back];
    assert ValidRun(start, [send, back]) && Run(start, [send, back]) == v;
  }

  /** What a rejected message costs after any run: the pending messages still open
      exactly if it came under the key of the exchange. */
  lemma RejectionAfterRun(a: Ratchet, b: Ratchet, steps: seq<Step>, s: Side, h: Header, ct: Ciphertext, k: nat,
                          drawn: PrivateKey, next: PrivateKey)
    requires Exchanged(a, b) && RootedIn(a, a.sendChain) && a.dhPub.PublicKey? && b.dhPub.PublicKey?
    requires ValidRun(Opening(a, b), steps)
    requires var w := Run(Opening(a, b), steps);
             k < |w.At(Peer(s)).outbox| && Pending(w.At(s), k) && Decrypted(w.At(s).ratchet, h, ct, drawn).result.Err?
    ensures var w := Run(Opening(a, b), steps);
            var m := w.At(Peer(s)).outbox[k];
            var after := Decrypted(w.At(s).ratchet, h, ct, drawn).after;
            var result := Decrypted(after, m.header, m.ct, next).result;
            && (result.Ok? <==> h.dh == Opening(a, b).At(s).ratchet.remote)
            && (result.Ok? ==> result.value == m.plaintext)
  {
    hide Decrypted, ReceiverOk, NoOlderKeys, TextsOk;
    var start := Opening(a, b);
    ExchangeStartsSession(a, b);
    RunKeepsSession(start, steps, a.sendChain, s, k);
    RunKeepsSession(start, steps, a.sendChain, Peer(s), k);
    var w := Run(start, steps);
    RejectionCostIff(w.At(Peer(s)), w.At(s), a.sendChain, h, ct, k, drawn, next);
  }
}
