/** The DH ratchet step of internal/crypto/double_ratchet.go, taken in turns. */
module RatchetAlternation {
  import opened Results
  import opened Keys
  import opened DoubleRatchets
  import opened RatchetSession

  ghost predicate OwnsKey(r: Ratchet) {
    r.dhPub == PublicKey(r.dhPriv)
  }

  /** `x` has ratcheted against the current key of `y`, which has not yet seen the
      key `x` drew: `x` is exactly one root derivation ahead. */
  ghost predicate Leads(x: Ratchet, y: Ratchet) {
    var dh := DH({x.dhPriv, y.dhPriv});
    && OwnsKey(x) && OwnsKey(y)
    && x.remote == y.dhPub && y.remote != x.dhPub
    && x.root == Root(y.root, dh)
    && x.sendNum >= 0 && x.sendChain == Advance(Chain(y.root, dh), x.sendNum)
  }

  /** One answering step: the follower's receive chain is the leader's send chain,
      its intermediate root the leader's root, and the roles are exchanged. */
  lemma AnsweringStep(x: Ratchet, y: Ratchet, drawn: PrivateKey)
    requires Leads(x, y) && drawn != y.dhPriv
    ensures var y' := Stepped(y, x.dhPub, drawn);
            && Advance(y'.recvChain, x.sendNum) == x.sendChain
            && y'.root == Root(x.root, DH({drawn, x.dhPriv}))
            && Leads(y', x)
  {
    assert {x.dhPriv, y.dhPriv} == {y.dhPriv, x.dhPriv};
    var y' := Stepped(y, x.dhPub, drawn);
    assert y'.sendChain == Advance(Chain(x.root, DH({drawn, x.dhPriv})), 0);
  }

  /** Two steps in a row derive a common chain exactly when the second party was
      one root derivation ahead of the first to begin with. */
  lemma StepsMeetIff(x: Ratchet, y: Ratchet, drawn: PrivateKey, answer: PrivateKey)
    requires OwnsKey(y)
    ensures var x' := Stepped(x, y.dhPub, drawn);
            var y' := Stepped(y, x'.dhPub, answer);
            y'.recvChain == x'.sendChain <==> y.root == Root(x.root, DH({x.dhPriv, y.dhPriv}))
  {
    assert {y.dhPriv, drawn} == {drawn, y.dhPriv};
  }

  /** Two sides on one root never meet by a step of one and an answer of the other,
      whichever usable key the step was taken against. */
  lemma ExchangeIsNoHeadStart(x: Ratchet, y: Ratchet, z: PublicKey, drawn: PrivateKey, answer: PrivateKey)
    requires x.root == y.root && z.PublicKey?
    ensures var x' := Stepped(x, z, drawn);
            Stepped(y, x'.dhPub, answer).recvChain != x'.sendChain
  {
    assert Depth(Stepped(x, z, drawn).sendChain) == Depth(x.root) + 2;
  }

  /**
   * What a message does to the way back.  After any run since the exchange, whatever a side
   * is handed, the next message it sends opens at its peer exactly if the side took no DH
   * ratchet step, that is if what it was handed came under the key of the exchange or an
   * unusable one, and the peer has not used up that number.
   */
  lemma ExchangeStepSplitsIff(a: Ratchet, b: Ratchet, steps: seq<Step>, s: Side, h: Header, ct: Ciphertext,
                              p: Plaintext, nonce: Nonce, drawn: PrivateKey, answer: PrivateKey)
    requires Exchanged(a, b) && RootedIn(a, a.sendChain) && ValidRun(Opening(a, b), steps)
    ensures var w := Run(Opening(a, b), steps);
            var x, y := w.At(s), w.At(Peer(s));
            var x' := x.(ratchet := Decrypted(x.ratchet, h, ct, drawn).after);
            var m := Sending(x', p, nonce).outbox[|x.outbox|];
            var result := Decrypted(y.ratchet, m.header, m.ct, answer).result;
            && (result.Ok? <==> (h.dh == x.ratchet.remote || h.dh.LowOrder?) && Pending(y, |x.outbox|))
            && (result.Ok? ==> result.value == p)
  {
    hide Decrypted, ReceiverOk, NoOlderKeys, TextsOk;
    var start, c := Opening(a, b), a.sendChain;
    ExchangeStartsSession(a, b);
    RunKeepsSession(start, steps, c, s, 0);
    RunKeepsSession(start, steps, c, Peer(s), 0);
    var w := Run(start, steps);
    var x, y := w.At(s), w.At(Peer(s));
    assert NoOlderKeys(y.ratchet, c);
    if h.dh == x.ratchet.remote || h.dh.LowOrder? {
      NoStepKeepsSending(x.ratchet, h, ct, drawn);
      var m := Header(|x.outbox|, x.ratchet.dhPub, nonce);
      OpensIff(y, c, m, Sealed(KeyAt(c, |x.outbox|), nonce, p), answer);
    } else {
      StepSendsOnNewChain(x.ratchet, h, ct, drawn);
      NewChainRefused(x.ratchet, y, c, h.dh, drawn, p, nonce, answer);
    }
  }

  /** The first message after a step does not open at a peer on the same root. */
  lemma NewChainRefused(x: Ratchet, y: Endpoint, c: Key, z: PublicKey, drawn: PrivateKey, p: Plaintext, nonce: Nonce,
                        answer: PrivateKey)
    requires ReceiverOk(y, c) && NoOlderKeys(y.ratchet, c) && RootedIn(x, c) && x.root == y.ratchet.root && z.PublicKey?
    ensures var ct := Sealed(MessageKey(Stepped(x, z, drawn).sendChain), nonce, p);
            Decrypted(y.ratchet, Header(0, PublicKey(drawn), nonce), ct, answer).result.Err?
  {
    var x' := Stepped(x, z, drawn);
    var h := Header(0, PublicKey(drawn), nonce);
    assert Depth(x'.sendChain) == Depth(x.root) + 2;
    assert Depth(c) == 1 + Depth(c.root) && Depth(x.root) == 1 + Depth(c.root);
    if h.dh == y.ratchet.remote {
      hide Decrypted, ReceiverOk, NoOlderKeys;
      OpensIff(y, c, h, Sealed(MessageKey(x'.sendChain), nonce, p), answer);
    } else {
      ExchangeIsNoHeadStart(x, y.ratchet, z, drawn, answer);
      SkipNothing(Stepped(y.ratchet, h.dh, answer), 0);
    }
  }

  lemma StepSendsOnNewChain(x: Ratchet, h: Header, ct: Ciphertext, drawn: PrivateKey)
    requires h.dh != x.remote && h.dh.PublicKey?
    ensures var x', s := Decrypted(x, h, ct, drawn).after, Stepped(x, h.dh, drawn);
            x'.sendChain == s.sendChain && x'.sendNum == 0 && x'.dhPub == s.dhPub
  {
  }

  lemma NoStepKeepsSending(x: Ratchet, h: Header, ct: Ciphertext, drawn: PrivateKey)
    requires h.dh == x.remote || h.dh.LowOrder?
    ensures var x' := Decrypted(x, h, ct, drawn).after;
            x'.sendChain == x.sendChain && x'.sendNum == x.sendNum && x'.dhPub == x.dhPub && x'.root == x.root
  {
  }

  // ------------------------------------------------------------------
  // Keys of older chains
  // ------------------------------------------------------------------

  /** How deep the root lies from which a chain or message key was derived; -1 for the
      unset key and others that no chain leads to. */
  function Level(k: Key): int {
    match k
    case Chain(r, _) => Depth(r)
    case MessageKey(c) => Level(c)
    case Next(c) => Level(c)
    case _ => -1
  }

  lemma {:induction false} AdvanceLevel(c: Key, n: nat)
    ensures Level(Advance(c, n)) == Level(c)
    decreases n
  {
    if n > 0 {
      AdvanceLevel(c, n - 1);
    }
  }

  ghost predicate Below(r: Ratchet, n: nat) {
    Level(r.recvChain) < n && forall i :: i in r.skipped ==> Level(r.skipped[i]) < n
  }

  /** All receiving keys are older than the root. */
  ghost predicate Settled(r: Ratchet) {
    Below(r, Depth(r.root))
  }

  lemma SkipStaysBelow(r: Ratchet, k: int, n: nat)
    requires Below(r, n)
    ensures Below(SkippedTo(r, k), n)
  {
    if k > r.recvNum {
      AdvanceLevel(r.recvChain, k - r.recvNum);
      forall i | r.recvNum <= i < k
        ensures Level(KeyFrom(r.recvChain, r.recvNum, i)) < n
      {
        AdvanceLevel(r.recvChain, i - r.recvNum);
      }
    }
  }

  lemma ReceivingStaysBelow(r: Ratchet, h: Header, ct: Ciphertext, drawn: PrivateKey, n: nat)
    requires Below(r, n) && h.dh == r.remote
    ensures Below(Decrypted(r, h, ct, drawn).after, n)
  {
    SkipStaysBelow(r, h.num, n);
  }

  /** No key stored before a step belongs to the chain the step opens. */
  lemma SettledHoldsNone(y: Ratchet, z: PublicKey, drawn: PrivateKey, i: nat)
    requires Settled(y) && z.PublicKey?
    ensures var s := Stepped(y, z, drawn);
            !Holds(s, s.recvChain, i) && Below(s, Depth(y.root) + 1) && Depth(s.root) == Depth(y.root) + 2
  {
    AdvanceLevel(Stepped(y, z, drawn).recvChain, i);
  }

  // ------------------------------------------------------------------
  // Any number of turns
  // ------------------------------------------------------------------

  datatype Text = Text(plaintext: Plaintext, nonce: Nonce)

  /** The leader sends `texts`; `order` is how they arrive, in any order, some not at
      all and some repeatedly.  The first to arrive makes the follower draw `drawn`. */
  datatype Turn = Turn(texts: seq<Text>, order: seq<nat>, drawn: PrivateKey)

  function SendAll(e: Endpoint, texts: seq<Text>): Endpoint {
    if texts == [] then e
    else
      var before := SendAll(e, texts[..|texts| - 1]);
      var last := texts[|texts| - 1];
      Sending(before, last.plaintext, last.nonce)
  }

  lemma {:induction false} SendAllSends(e: Endpoint, texts: seq<Text>, c: Key)
    requires SenderOk(e, c) && e.outbox == []
    ensures var e' := SendAll(e, texts);
            && SenderOk(e', c) && |e'.outbox| == |texts|
            && e'.ratchet == e.ratchet.(sendChain := e'.ratchet.sendChain, sendNum := |texts|)
            && forall k :: 0 <= k < |texts| ==> e'.outbox[k].plaintext == texts[k].plaintext
  {
    if texts != [] {
      var front := texts[..|texts| - 1];
      SendAllSends(e, front, c);
      assert forall k :: 0 <= k < |front| ==> front[k] == texts[k];
    }
  }

  function Fresh(r: Ratchet): Endpoint {
    Endpoint(r, [], [], {})
  }

  function Leader(x: Ratchet, t: Turn): Endpoint {
    SendAll(Fresh(x), t.texts)
  }

  /** The messages of `tx` that arrive, one after the other. */
  function ReceiveAll(rx: Endpoint, tx: Endpoint, order: seq<nat>, drawn: PrivateKey): Endpoint
    requires forall i :: 0 <= i < |order| ==> order[i] < |tx.outbox|
  {
    if order == [] then rx
    else
      var before := ReceiveAll(rx, tx, order[..|order| - 1], drawn);
      var m := tx.outbox[order[|order| - 1]];
      Receiving(before, m.header, m.ct, drawn)
  }

  /** What arrived is `order`, each message once and as it was sent. */
  ghost predicate Arrived(tx: Endpoint, rx: Endpoint, order: seq<nat>) {
    PeerTexts(tx, rx) && rx.lost == {} && forall k :: Accepted(rx, k) <==> k in order
  }

  lemma OneArrives(tx: Endpoint, rx: Endpoint, order: seq<nat>, k: nat, drawn: PrivateKey, c: Key, n: nat)
    requires LaneOk(tx, rx, c) && Below(rx.ratchet, n) && Arrived(tx, rx, order) && k < |tx.outbox|
    ensures var rx' := Receiving(rx, tx.outbox[k].header, tx.outbox[k].ct, drawn);
            LaneOk(tx, rx', c) && Below(rx'.ratchet, n) && SameSender(rx, rx') && Arrived(tx, rx', order + [k])
  {
    hide ReceiverOk, SenderOk, Decrypted, Below, NoOlderKeys, TextsOk, Accepted;
    DeliveryAdvances(tx, rx, c, k, drawn);
    ReceivingStaysBelow(rx.ratchet, tx.outbox[k].header, tx.outbox[k].ct, drawn, n);
    assert From(tx, Received(k, tx.outbox[k].plaintext));
    assert forall j :: j in order + [k] <==> j in order || j == k;
  }

  /** Deliveries in any order leave exactly the delivered messages, as they were sent. */
  lemma {:induction false} ReceiveAllKeeps(rx: Endpoint, tx: Endpoint, order: seq<nat>, drawn: PrivateKey, c: Key,
                                           n: nat)
    requires forall i :: 0 <= i < |order| ==> order[i] < |tx.outbox|
    requires LaneOk(tx, rx, c) && rx.inbox == [] && rx.lost == {} && Below(rx.ratchet, n)
    ensures var rx' := ReceiveAll(rx, tx, order, drawn);
            LaneOk(tx, rx', c) && SameSender(rx, rx') && Below(rx'.ratchet, n) && Arrived(tx, rx', order)
    decreases |order|
  {
    hide LaneOk, Below, Receiving, Arrived, SameEpoch;
    if order == [] {
      NothingArrived(tx, rx);
    } else {
      var front, k := order[..|order| - 1], order[|order| - 1];
      ReceiveAllKeeps(rx, tx, front, drawn, c, n);
      var before := ReceiveAll(rx, tx, front, drawn);
      OneArrives(tx, before, front, k, drawn, c, n);
      assert order == front + [k];
      SenderStays(rx, before, ReceiveAll(rx, tx, order, drawn));
    }
  }

  lemma NothingArrived(tx: Endpoint, rx: Endpoint)
    requires rx.inbox == [] && rx.lost == {}
    ensures Arrived(tx, rx, []) && SameSender(rx, rx)
  {
  }

  lemma SenderStays(a: Endpoint, b: Endpoint, d: Endpoint)
    requires SameSender(a, b) && SameSender(b, d)
    ensures SameSender(a, d)
  {
  }

  /** The first arrival takes the DH step and is then received on the new chain. */
  lemma {:induction false} StepThenReceive(y: Ratchet, tx: Endpoint, order: seq<nat>, drawn: PrivateKey)
    requires order != [] && forall i :: 0 <= i < |order| ==> order[i] < |tx.outbox|
    requires tx.ratchet.dhPub.PublicKey? && tx.ratchet.dhPub != y.remote
    requires forall k :: 0 <= k < |tx.outbox| ==> tx.outbox[k].header.dh == tx.ratchet.dhPub
    ensures ReceiveAll(Fresh(y), tx, order, drawn) ==
            ReceiveAll(Fresh(Stepped(y, tx.ratchet.dhPub, drawn)), tx, order, drawn)
    decreases |order|
  {
    hide Opened;
    if |order| > 1 {
      StepThenReceive(y, tx, order[..|order| - 1], drawn);
    } else {
      assert order[..0] == [];
    }
  }

  /** What a turn leaves behind at the follower. */
  ghost predicate Heard(x: Ratchet, y: Ratchet, t: Turn)
    requires forall i :: 0 <= i < |t.order| ==> t.order[i] < |Leader(x, t).outbox|
  {
    var e := Leader(x, t);
    var f := ReceiveAll(Fresh(y), e, t.order, t.drawn);
    && PeerTexts(e, f) && EachOnce(f)
    && (forall k :: Accepted(f, k) <==> k in t.order)
    && forall k, next :: 0 <= k < |e.outbox| ==>
         var o := Decrypted(f.ratchet, e.outbox[k].header, e.outbox[k].ct, next);
         if k in t.order then o.result.Err? && o.after == f.ratchet else o.result == Ok(e.outbox[k].plaintext)
  }

  /** A follower on the leader's lane has heard what arrived, and can open the rest. */
  lemma LaneHears(x: Ratchet, y: Ratchet, t: Turn, c: Key)
    requires forall i :: 0 <= i < |t.order| ==> t.order[i] < |Leader(x, t).outbox|
    requires var e := Leader(x, t);
             var f := ReceiveAll(Fresh(y), e, t.order, t.drawn);
             LaneOk(e, f, c) && Arrived(e, f, t.order)
    ensures Heard(x, y, t)
  {
    hide Decrypted, ReceiverOk, SenderOk, Leader, ReceiveAll;
    var e := Leader(x, t);
    var f := ReceiveAll(Fresh(y), e, t.order, t.drawn);
    forall k, next | 0 <= k < |e.outbox|
      ensures var o := Decrypted(f.ratchet, e.outbox[k].header, e.outbox[k].ct, next);
              if k in t.order then o.result.Err? && o.after == f.ratchet else o.result == Ok(e.outbox[k].plaintext)
    {
      if k in t.order {
        Redelivery(e, f, c, k, next);
      } else {
        FirstDelivery(e, f, c, k, next);
      }
    }
  }

  /** One turn: the follower ratchets, holds exactly the messages that arrived, can open
      exactly the others, and takes the lead. */
  lemma OneTurn(x: Ratchet, y: Ratchet, t: Turn)
    requires Leads(x, y) && x.sendNum == 0 && Settled(y) && t.drawn != y.dhPriv
    requires t.order != [] && forall i :: 0 <= i < |t.order| ==> t.order[i] < |t.texts|
    ensures |Leader(x, t).outbox| == |t.texts| && Heard(x, y, t)
    ensures var e := Leader(x, t);
            var f := ReceiveAll(Fresh(y), e, t.order, t.drawn);
            && (forall k :: 0 <= k < |t.texts| ==> e.outbox[k].plaintext == t.texts[k].plaintext)
            && Leads(f.ratchet, e.ratchet) && f.ratchet.sendNum == 0 && Settled(f.ratchet)
            && (Settled(x) ==> Settled(e.ratchet))
  {
    hide Decrypted, LaneOk, Arrived, Heard, ReceiveAll;
    var c := Chain(y.root, DH({x.dhPriv, y.dhPriv}));
    assert Advance(c, 0) == c;
    SendAllSends(Fresh(x), t.texts, c);
    var e := Leader(x, t);
    AnsweringStep(e.ratchet, y, t.drawn);
    var y' := Stepped(y, x.dhPub, t.drawn);
    assert y'.recvChain == c by { assert {x.dhPriv, y.dhPriv} == {y.dhPriv, x.dhPriv}; }
    NewLane(e, y, y', c, t.drawn);
    StepThenReceive(y, e, t.order, t.drawn);
    ReceiveAllKeeps(Fresh(y'), e, t.order, t.drawn, c, Depth(y.root) + 1);
    LaneHears(x, y, t, c);
  }

  /** The lane that a step opens. */
  lemma NewLane(e: Endpoint, y: Ratchet, y': Ratchet, c: Key, drawn: PrivateKey)
    requires SenderOk(e, c) && Settled(y) && e.ratchet.dhPub.PublicKey?
    requires y' == Stepped(y, e.ratchet.dhPub, drawn) && y'.recvChain == c
    ensures LaneOk(e, Fresh(y'), c) && Below(y', Depth(y.root) + 1) && Depth(y'.root) == Depth(y.root) + 2
  {
    forall i: nat
      ensures !Holds(y', c, i)
    {
      SettledHoldsNone(y, e.ratchet.dhPub, drawn, i);
    }
    SettledHoldsNone(y, e.ratchet.dhPub, drawn, 0);
    assert Advance(c, 0) == c;
  }

  /** The conversation can be played: in each turn at least one of the messages arrives,
      and a key other than the one it replaces is drawn. */
  ghost predicate Playable(x: Ratchet, y: Ratchet, turns: seq<Turn>)
    decreases |turns|
  {
    turns == [] ||
    (var t := turns[0];
     && t.order != [] && t.drawn != y.dhPriv
     && (forall i :: 0 <= i < |t.order| ==> t.order[i] < |t.texts| && t.order[i] < |Leader(x, t).outbox|)
     && Playable(ReceiveAll(Fresh(y), Leader(x, t), t.order, t.drawn).ratchet, Leader(x, t).ratchet, turns[1..]))
  }

  /** In every turn the follower holds exactly what arrived and can open the rest. */
  ghost predicate Understood(x: Ratchet, y: Ratchet, turns: seq<Turn>)
    requires Playable(x, y, turns)
    decreases |turns|
  {
    turns == [] ||
    (var t := turns[0];
     Heard(x, y, t) &&
     Understood(ReceiveAll(Fresh(y), Leader(x, t), t.order, t.drawn).ratchet, Leader(x, t).ratchet, turns[1..]))
  }

  /** Alternation works for any number of turns, message counts and arrival orders. */
  lemma {:induction false} AlternationTheorem(x: Ratchet, y: Ratchet, turns: seq<Turn>)
    requires Leads(x, y) && x.sendNum == 0 && Settled(x) && Settled(y) && Playable(x, y, turns)
    ensures Understood(x, y, turns)
    decreases |turns|
  {
    hide Leads, Settled, Heard;
    if turns != [] {
      var t := turns[0];
      OneTurn(x, y, t);
      AlternationTheorem(ReceiveAll(Fresh(y), Leader(x, t), t.order, t.drawn).ratchet, Leader(x, t).ratchet,
        turns[1..]);
    }
  }

  // ------------------------------------------------------------------
  // Where alternation begins
  // ------------------------------------------------------------------

  /** What the program may do to one ratchet. */
  datatype Act =
    | Encrypts
    | Decrypts(header: Header, ct: Ciphertext, drawn: PrivateKey)
    | Cleans(maxSkip: int)

  function Acted(r: Ratchet, act: Act): Ratchet {
    match act
    case Encrypts => r.(sendChain := Next(r.sendChain), sendNum := r.sendNum + 1)
    case Decrypts(h, ct, drawn) => Decrypted(r, h, ct, drawn).after
    case Cleans(maxSkip) => Cleaned(r, maxSkip)
  }

  /** The two ratchets after any sequence of acts, `true` naming the first. */
  function ActedAll(x: Ratchet, y: Ratchet, acts: seq<(bool, Act)>): (Ratchet, Ratchet)
    decreases |acts|
  {
    if acts == [] then (x, y)
    else if acts[0].0 then ActedAll(Acted(x, acts[0].1), y, acts[1..])
    else ActedAll(x, Acted(y, acts[0].1), acts[1..])
  }

  /** A DH ratchet step derives two roots, and nothing else derives any. */
  lemma ActKeepsParity(r: Ratchet, act: Act)
    ensures Depth(Acted(r, act).root) % 2 == Depth(r.root) % 2
  {
    if act.Decrypts? {
      var h := act.header;
      if h.dh != r.remote && h.dh.PublicKey? {
        assert Depth(Stepped(r, h.dh, act.drawn).root) == Depth(r.root) + 2;
      }
    }
  }

  /** Two ratchets whose roots are equally many derivations deep, up to an even number,
      never come to lead one another: after a completed exchange there is no alternation. */
  lemma {:induction false} NeverLeads(x: Ratchet, y: Ratchet, acts: seq<(bool, Act)>)
    requires Depth(x.root) % 2 == Depth(y.root) % 2
    ensures var (x', y') := ActedAll(x, y, acts); !Leads(x', y') && !Leads(y', x')
    decreases |acts|
  {
    hide Acted;
    if acts != [] {
      ActKeepsParity(if acts[0].0 then x else y, acts[0].1);
      NeverLeads(if acts[0].0 then Acted(x, acts[0].1) else x, if acts[0].0 then y else Acted(y, acts[0].1), acts[1..]);
    }
  }
}
