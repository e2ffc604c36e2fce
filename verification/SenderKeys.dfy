/** internal/crypto/sender_keys.go */
module SenderKeys {
  import opened Results
  import opened Keys

  const SIGNATURE_SIZE := 64

  datatype SenderKey = SenderKey(chain: Key, num: int, signing: Option<nat>)

  datatype GroupMessage = GroupMessage(num: int, nonce: Nonce, ct: Ciphertext)

  datatype Outcome = Outcome(after: SenderKey, result: Result<Plaintext>)

  /** The key moved forward to number `n`; the keys it passes are dropped. */
  function MovedTo(sk: SenderKey, n: int): SenderKey {
    if n <= sk.num then sk else sk.(chain := Advance(sk.chain, n - sk.num), num := n)
  }

  /** DecryptGroupMessage on the sender's entry, once the signature length is accepted. */
  function GroupDecrypted(sk: SenderKey, m: GroupMessage): Outcome {
    var s := MovedTo(sk, m.num);
    if s.num != m.num then Outcome(s, Err("message number mismatch"))
    else
      match Open(m.ct, m.nonce, MessageKey(s.chain))
      case None => Outcome(s, Err("decryption failed"))
      case Some(p) => Outcome(s.(chain := Next(s.chain), num := s.num + 1), Ok(p))
  }

  class GroupSenderKeys {
    var senderKeys: map<string, SenderKey>
    var ourPeer: string
    var ourSigning: Option<nat>

    constructor (ourPeer: string, signing: nat, draw: nat)
      ensures this.ourPeer == ourPeer && ourSigning == Some(signing)
      ensures senderKeys == map[ourPeer := SenderKey(Random(draw), 0, Some(signing))]
    {
      this.ourPeer, ourSigning := ourPeer, Some(signing);
      senderKeys := map[ourPeer := SenderKey(Random(draw), 0, Some(signing))];
    }

    /** NewGroupSenderKeysWithExistingKey: the first loaded row stands for ours. */
    constructor WithExistingKey(peer: string, signing: Option<nat>, chain: Key, num: int)
      ensures ourPeer == peer && ourSigning == signing && senderKeys == map[peer := SenderKey(chain, num, signing)]
    {
      ourPeer, ourSigning := peer, signing;
      senderKeys := map[peer := SenderKey(chain, num, signing)];
    }

    /** Besides the message it returns a signature, of which only the length is checked. */
    method EncryptGroupMessage(plaintext: Plaintext, nonce: Nonce)
      returns (res: Result<GroupMessage>, signatureLength: nat)
      modifies this`senderKeys
      ensures res.Ok? ==> signatureLength == 64
      ensures res.Ok? <==> ourPeer in old(senderKeys)
      ensures res.Err? ==> senderKeys == old(senderKeys)
      ensures res.Ok? ==>
                var sk := old(senderKeys)[ourPeer];
                && res.value == GroupMessage(sk.num, nonce, Sealed(MessageKey(sk.chain), nonce, plaintext))
                && senderKeys == old(senderKeys)[ourPeer := sk.(chain := Next(sk.chain), num := sk.num + 1)]
    {
      if ourPeer !in senderKeys {
        return Err("our sender key not found"), 0;
      }
      var sk := senderKeys[ourPeer];
      var ct := Sealed(MessageKey(sk.chain), nonce, plaintext);
      senderKeys := senderKeys[ourPeer := sk.(chain := Next(sk.chain), num := sk.num + 1)];
      return Ok(GroupMessage(sk.num, nonce, ct)), SIGNATURE_SIZE;
    }

    /** The chain is moved in place, and stays moved when the message is rejected. */
    method DecryptGroupMessage(sender: string, m: GroupMessage, signatureLength: nat) returns (res: Result<Plaintext>)
      modifies this`senderKeys
      ensures signatureLength != 64 || sender !in old(senderKeys) ==>
                res.Err? && senderKeys == old(senderKeys)
      ensures signatureLength == 64 && sender in old(senderKeys) ==>
                var o := GroupDecrypted(old(senderKeys)[sender], m);
                res == o.result && senderKeys == old(senderKeys)[sender := o.after]
    {
      if signatureLength != SIGNATURE_SIZE {
        return Err("signature verification failed");
      }
      if sender !in senderKeys {
        return Err("sender key for peer not found");
      }
      while senderKeys[sender].num < m.num
        invariant sender in senderKeys
        invariant old(senderKeys)[sender].num <= senderKeys[sender].num
        invariant senderKeys[sender].num <= m.num || senderKeys[sender].num == old(senderKeys)[sender].num
        invariant senderKeys == old(senderKeys)[sender := MovedTo(old(senderKeys)[sender], senderKeys[sender].num)]
        decreases m.num - senderKeys[sender].num
      {
        var sk := senderKeys[sender];
        ghost var first := old(senderKeys)[sender];
        assert sk == MovedTo(first, sk.num);
        assert Advance(first.chain, sk.num + 1 - first.num) == Next(Advance(first.chain, sk.num - first.num));
        assert MovedTo(first, sk.num + 1) == MovedTo(first, sk.num).(chain := Next(sk.chain), num := sk.num + 1);
        senderKeys := senderKeys[sender := sk.(chain := Next(sk.chain), num := sk.num + 1)];
      }
      var sk := senderKeys[sender];
      if sk.num == m.num {
        var box := Open(m.ct, m.nonce, MessageKey(sk.chain));
        if box == None {
          return Err("decryption failed");
        }
        senderKeys := senderKeys[sender := sk.(chain := Next(sk.chain), num := sk.num + 1)];
        return Ok(box.value);
      }
      return Err("message number mismatch");
    }

    method AddSenderKey(peer: string, chain: Key, num: int)
      modifies this`senderKeys
      ensures senderKeys == old(senderKeys)[peer := SenderKey(chain, num, None)]
    {
      senderKeys := senderKeys[peer := SenderKey(chain, num, None)];
    }

    method GetOurSenderKeyState() returns (res: Result<(Key, int)>)
      ensures res.Ok? <==> ourPeer in senderKeys
      ensures res.Ok? ==> res.value == (senderKeys[ourPeer].chain, senderKeys[ourPeer].num)
    {
      if ourPeer !in senderKeys {
        return Err("our sender key not found");
      }
      return Ok((senderKeys[ourPeer].chain, senderKeys[ourPeer].num));
    }
  }

  /** A message goes from its author to a member in step with it, who then stays in step. */
  method Relayed(author: GroupSenderKeys, reader: GroupSenderKeys, plaintext: Plaintext, nonce: Nonce)
    returns (read: Result<Plaintext>)
    requires author != reader && author.ourPeer in author.senderKeys && author.ourPeer in reader.senderKeys
    requires reader.senderKeys[author.ourPeer].chain == author.senderKeys[author.ourPeer].chain
    requires reader.senderKeys[author.ourPeer].num == author.senderKeys[author.ourPeer].num
    modifies author`senderKeys, reader`senderKeys
    ensures read == Ok(plaintext)
    ensures author.ourPeer in author.senderKeys && author.ourPeer in reader.senderKeys
    ensures reader.senderKeys[author.ourPeer].chain == author.senderKeys[author.ourPeer].chain
    ensures reader.senderKeys[author.ourPeer].num == author.senderKeys[author.ourPeer].num
                                                   == old(author.senderKeys[author.ourPeer].num) + 1
  {
    var message, signatureLength := author.EncryptGroupMessage(plaintext, nonce);
    read := reader.DecryptGroupMessage(author.ourPeer, message.value, signatureLength);
  }

  // ------------------------------------------------------------------
  // A group: one author, members that join at any time
  // ------------------------------------------------------------------

  datatype Posted = Posted(message: GroupMessage, plaintext: Plaintext)

  /** A member's copy of the author's key, when it was handed over, and the logs of
      what the member read and of the numbers of the messages it rejected. */
  datatype Member = Member(key: SenderKey, joined: nat, read: seq<Posted>, rejected: seq<int>)

  datatype Group = Group(author: SenderKey, posts: seq<Posted>, members: seq<Member>)

  datatype Step =
    | Post(plaintext: Plaintext, nonce: Nonce)
    | Join
    | Deliver(member: nat, index: nat)
    | Inject(member: nat, message: GroupMessage)

  /** A member may be handed every post, and under any number and nonce every ciphertext
      that was posted and everything it rejects. */
  predicate Enabled(g: Group, step: Step) {
    match step
    case Post(_, _) => true
    case Join => true
    case Deliver(i, k) => i < |g.members| && k < |g.posts|
    case Inject(i, m) =>
      && i < |g.members|
      && (|| (exists k :: 0 <= k < |g.posts| && g.posts[k].message.ct == m.ct)
          || GroupDecrypted(g.members[i].key, m).result.Err?)
  }

  function Reading(m: Member, message: GroupMessage): Member {
    var o := GroupDecrypted(m.key, message);
    if o.result.Ok? then m.(key := o.after, read := m.read + [Posted(message, o.result.value)])
    else m.(key := o.after, rejected := m.rejected + [message.num])
  }

  function Apply(g: Group, step: Step): Group
    requires Enabled(g, step)
  {
    match step
    case Post(p, nonce) =>
      var message := GroupMessage(g.author.num, nonce, Sealed(MessageKey(g.author.chain), nonce, p));
      g.(author := g.author.(chain := Next(g.author.chain), num := g.author.num + 1),
         posts := g.posts + [Posted(message, p)])
    case Join =>
      g.(members := g.members + [Member(SenderKey(g.author.chain, g.author.num, None), |g.posts|, [], [])])
    case Deliver(i, k) => g.(members := g.members[i := Reading(g.members[i], g.posts[k].message)])
    case Inject(i, m) => g.(members := g.members[i := Reading(g.members[i], m)])
  }

  ghost predicate AuthorOk(g: Group, c: Key) {
    && g.author.num == |g.posts| && g.author.chain == Advance(c, |g.posts|)
    && forall k :: 0 <= k < |g.posts| ==>
         var m := g.posts[k].message;
         m.num == k && m.ct == Sealed(KeyAt(c, k), m.nonce, g.posts[k].plaintext)
  }

  /** The member holds the chain key of its own counter. */
  ghost predicate OnChain(sk: SenderKey, c: Key) {
    sk.num >= 0 && sk.chain == Advance(c, sk.num)
  }

  /** Number `k` is not before the member joined, past everything it read, and not below
      any number it rejected. */
  ghost predicate Ahead(m: Member, k: int) {
    && k >= m.joined
    && (forall j :: 0 <= j < |m.read| ==> m.read[j].message.num < k)
    && (forall j :: 0 <= j < |m.rejected| ==> m.rejected[j] <= k)
  }

  /** The counter is the smallest number ahead. */
  ghost predicate CounterOk(m: Member) {
    forall k :: Ahead(m, k) <==> k >= m.key.num
  }

  ghost predicate ReadOk(m: Member, posts: seq<Posted>) {
    && (forall j :: 0 <= j < |m.read| ==>
          m.joined <= m.read[j].message.num < |posts| && m.read[j] == posts[m.read[j].message.num])
    && (forall i, j :: 0 <= i < j < |m.read| ==> m.read[i].message.num < m.read[j].message.num)
  }

  ghost predicate MemberOk(m: Member, posts: seq<Posted>, c: Key) {
    OnChain(m.key, c) && CounterOk(m) && ReadOk(m, posts)
  }

  ghost predicate GroupOk(g: Group, c: Key) {
    AuthorOk(g, c) && forall i :: 0 <= i < |g.members| ==> MemberOk(g.members[i], g.posts, c)
  }

  /** Exactly what a member on the chain accepts: a box sealed under the key of a number
      at or past the counter, with the announced nonce.  Either way the member stays on
      the chain, just behind what it accepted, or where the rejected number took it. */
  lemma AcceptsIff(sk: SenderKey, c: Key, m: GroupMessage)
    requires OnChain(sk, c)
    ensures var o := GroupDecrypted(sk, m);
            && OnChain(o.after, c)
            && (o.result.Ok? <==>
              m.num >= sk.num && m.ct.Sealed? && m.ct.key == KeyAt(c, m.num) && m.ct.nonce == m.nonce)
            && (o.result.Ok? ==> o.result.value == m.ct.plaintext && o.after.num == m.num + 1)
            && (o.result.Err? ==> o.after.num == if m.num > sk.num then m.num else sk.num)
  {
    if m.num >= sk.num {
      AdvanceAdd(c, sk.num, m.num - sk.num);
    }
  }

  /** A member reads a post exactly when its number is not below the counter, and then
      gets the text that was posted. */
  lemma ReadIff(sk: SenderKey, g: Group, c: Key, k: nat)
    requires AuthorOk(g, c) && OnChain(sk, c) && k < |g.posts|
    ensures var o := GroupDecrypted(sk, g.posts[k].message);
            && (o.result.Ok? <==> k >= sk.num)
            && (o.result.Ok? ==> o.result.value == g.posts[k].plaintext)
            && (o.result.Err? ==> o.after == sk)
  {
    AcceptsIff(sk, c, g.posts[k].message);
  }

  /** A posted ciphertext opens under its own number and nonce only. */
  lemma ReplayIsPost(sk: SenderKey, g: Group, c: Key, m: GroupMessage)
    requires AuthorOk(g, c) && OnChain(sk, c) && GroupDecrypted(sk, m).result.Ok?
    requires exists k :: 0 <= k < |g.posts| && g.posts[k].message.ct == m.ct
    ensures 0 <= m.num < |g.posts| && m == g.posts[m.num].message
  {
    hide GroupDecrypted, KeyAt;
    AcceptsIff(sk, c, m);
    var k :| 0 <= k < |g.posts| && g.posts[k].message.ct == m.ct;
    KeyAtInjective(c, k, m.num);
  }

  lemma AheadAfterRead(m: Member, m': Member, p: Posted)
    requires m'.joined == m.joined && m'.read == m.read + [p] && m'.rejected == m.rejected
    ensures forall k :: Ahead(m', k) <==> Ahead(m, k) && p.message.num < k
  {
    assert m'.read[|m.read|] == p;
    forall k | Ahead(m', k)
      ensures Ahead(m, k)
    {
      assert forall j :: 0 <= j < |m.read| ==> m.read[j] == m'.read[j];
    }
  }

  lemma AheadAfterReject(m: Member, m': Member, n: int)
    requires m'.joined == m.joined && m'.read == m.read && m'.rejected == m.rejected + [n]
    ensures forall k :: Ahead(m', k) <==> Ahead(m, k) && n <= k
  {
    assert m'.rejected[|m.rejected|] == n;
    forall k | Ahead(m', k)
      ensures Ahead(m, k)
    {
      assert forall j :: 0 <= j < |m.rejected| ==> m.rejected[j] == m'.rejected[j];
    }
  }

  /** Whatever a member is handed keeps it right. */
  lemma ReadingKeepsMember(m: Member, g: Group, c: Key, message: GroupMessage)
    requires AuthorOk(g, c) && MemberOk(m, g.posts, c)
    requires GroupDecrypted(m.key, message).result.Ok? ==>
               0 <= message.num < |g.posts| && message == g.posts[message.num].message
    ensures MemberOk(Reading(m, message), g.posts, c)
  {
    hide GroupDecrypted, Ahead, Advance;
    AcceptsIff(m.key, c, message);
    var m' := Reading(m, message);
    if GroupDecrypted(m.key, message).result.Ok? {
      var p := Posted(message, message.ct.plaintext);
      AheadAfterRead(m, m', p);
      assert p == g.posts[message.num];
      ReadOneMore(m, m', g.posts, message.num);
    } else {
      AheadAfterReject(m, m', message.num);
    }
  }

  lemma ReadOneMore(m: Member, m': Member, posts: seq<Posted>, k: nat)
    requires ReadOk(m, posts) && CounterOk(m) && m.key.num <= k < |posts| && posts[k].message.num == k
    requires m'.joined == m.joined && m'.read == m.read + [posts[k]]
    ensures ReadOk(m', posts)
  {
    assert Ahead(m, k);
  }

  lemma PostKeepsMember(m: Member, posts: seq<Posted>, p: Posted, c: Key)
    requires MemberOk(m, posts, c)
    ensures MemberOk(m, posts + [p], c)
  {
  }

  lemma PostKeepsAuthor(g: Group, p: Plaintext, nonce: Nonce, c: Key)
    requires AuthorOk(g, c)
    ensures AuthorOk(Apply(g, Post(p, nonce)), c)
  {
  }

  lemma JoinsOk(g: Group, c: Key)
    requires AuthorOk(g, c)
    ensures MemberOk(Member(SenderKey(g.author.chain, g.author.num, None), |g.posts|, [], []), g.posts, c)
  {
  }

  lemma StepKeepsGroup(g: Group, step: Step, c: Key)
    requires GroupOk(g, c) && Enabled(g, step)
    ensures GroupOk(Apply(g, step), c)
  {
    hide MemberOk, Reading, GroupDecrypted;
    match step
    case Post(p, nonce) =>
      hide AuthorOk;
      PostKeepsAuthor(g, p, nonce, c);
      forall i | 0 <= i < |g.members|
        ensures MemberOk(g.members[i], Apply(g, step).posts, c)
      {
        PostKeepsMember(g.members[i], g.posts, Apply(g, step).posts[|g.posts|], c);
      }
    case Join =>
      JoinsOk(g, c);
    case Deliver(i, k) =>
      ReadingKeepsMember(g.members[i], g, c, g.posts[k].message);
    case Inject(i, m) =>
      if GroupDecrypted(g.members[i].key, m).result.Ok? {
        MemberParts(g.members[i], g.posts, c);
        ReplayIsPost(g.members[i].key, g, c, m);
      }
      ReadingKeepsMember(g.members[i], g, c, m);
  }

  lemma MemberParts(m: Member, posts: seq<Posted>, c: Key)
    requires MemberOk(m, posts, c)
    ensures OnChain(m.key, c) && CounterOk(m) && ReadOk(m, posts)
  {
  }

  ghost predicate ValidRun(g: Group, steps: seq<Step>)
    decreases |steps|
  {
    steps == [] || (Enabled(g, steps[0]) && ValidRun(Apply(g, steps[0]), steps[1..]))
  }

  ghost function Run(g: Group, steps: seq<Step>): Group
    requires ValidRun(g, steps)
    decreases |steps|
  {
    if steps == [] then g else Run(Apply(g, steps[0]), steps[1..])
  }

  lemma {:induction false} RunKeepsGroup(g: Group, steps: seq<Step>, c: Key)
    requires GroupOk(g, c) && ValidRun(g, steps)
    ensures GroupOk(Run(g, steps), c)
    decreases |steps|
  {
    hide GroupOk;
    if steps != [] {
      StepKeepsGroup(g, steps[0], c);
      RunKeepsGroup(Apply(g, steps[0]), steps[1..], c);
    }
  }

  /**
   * Group delivery theorem.  After any run of posts, joins, deliveries and injected
   * messages in any order, every member holds the chain key of its own counter, has read
   * posts of strictly increasing number as they were written, none from before it joined,
   * and will read post `k` exactly when `k` is past everything it has read and not below
   * any number it has rejected.
   */
  lemma GroupDelivery(draw: nat, signing: nat, steps: seq<Step>, i: nat, k: nat)
    requires ValidRun(Group(SenderKey(Random(draw), 0, Some(signing)), [], []), steps)
    ensures var g := Run(Group(SenderKey(Random(draw), 0, Some(signing)), [], []), steps);
            i < |g.members| && k < |g.posts| ==>
              var m := g.members[i];
              var o := GroupDecrypted(m.key, g.posts[k].message);
              && OnChain(m.key, Random(draw)) && ReadOk(m, g.posts)
              && (o.result.Ok? <==>
                    && k >= m.joined
                    && (forall j :: 0 <= j < |m.read| ==> m.read[j].message.num < k)
                    && (forall j :: 0 <= j < |m.rejected| ==> m.rejected[j] <= k))
              && (o.result.Ok? ==> o.result.value == g.posts[k].plaintext)
  {
    hide GroupDecrypted;
    var start := Group(SenderKey(Random(draw), 0, Some(signing)), [], []);
    assert Advance(Random(draw), 0) == Random(draw);
    RunKeepsGroup(start, steps, Random(draw));
    var g := Run(start, steps);
    if i < |g.members| && k < |g.posts| {
      ReadIff(g.members[i].key, g, Random(draw), k);
      assert Ahead(g.members[i], k) <==> k >= g.members[i].key.num;
    }
  }

  /** What a member reads when it is handed the posts from number `first` in order. */
  function ReadInOrder(m: Member, posts: seq<Posted>, first: nat): Member
    requires first <= |posts|
    decreases |posts| - first
  {
    if first == |posts| then m else ReadInOrder(Reading(m, posts[first].message), posts, first + 1)
  }

  lemma ReadingPost(m: Member, g: Group, c: Key, k: nat)
    requires AuthorOk(g, c) && OnChain(m.key, c) && k < |g.posts|
    ensures var after := Reading(m, g.posts[k].message);
            && OnChain(after.key, c)
            && (if k >= m.key.num then after.read == m.read + [g.posts[k]] && after.key.num == k + 1
                else after.read == m.read && after.key == m.key)
  {
    hide GroupDecrypted;
    ReadIff(m.key, g, c, k);
    AcceptsIff(m.key, c, g.posts[k].message);
  }

  /** Handed everything in order, a member whose counter stands at `n` reads exactly
      the posts from `n` onward. */
  lemma {:induction false} LateJoinerReadsSuffix(m: Member, g: Group, c: Key, first: nat)
    requires AuthorOk(g, c) && OnChain(m.key, c) && first <= |g.posts|
    ensures var n := if first < m.key.num then m.key.num else first;
            ReadInOrder(m, g.posts, first).read == m.read + (if n <= |g.posts| then g.posts[n..] else [])
    decreases |g.posts| - first
  {
    hide AuthorOk, OnChain, Reading;
    if first < |g.posts| {
      ReadingPost(m, g, c, first);
      LateJoinerReadsSuffix(Reading(m, g.posts[first].message), g, c, first + 1);
      if m.key.num <= first {
        assert g.posts[first..] == [g.posts[first]] + g.posts[first + 1..];
      }
    }
  }

  /** Unlike the ratchet of a two-party chat, a rejected message has a price: it
      moves the counter, and exactly the posts below its number become unreadable.
      The member stays on the chain, so the same holds of the next rejected message. */
  lemma RejectionCost(sk: SenderKey, g: Group, c: Key, bad: GroupMessage, k: nat)
    requires AuthorOk(g, c) && OnChain(sk, c) && k < |g.posts|
    requires GroupDecrypted(sk, bad).result.Err?
    ensures var after := GroupDecrypted(sk, bad).after;
            var o := GroupDecrypted(after, g.posts[k].message);
            && OnChain(after, c)
            && (o.result.Ok? <==> k >= sk.num && k >= bad.num)
            && (o.result.Ok? ==> o.result.value == g.posts[k].plaintext)
  {
    hide GroupDecrypted;
    AcceptsIff(sk, c, bad);
    ReadIff(GroupDecrypted(sk, bad).after, g, c, k);
  }
}
