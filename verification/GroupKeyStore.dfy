/** internal/crypto/chat_crypto_manager.go: reloading a group's keys from storage. */
module GroupKeyStore {
  import opened Results
  import opened Keys
  import opened SenderKeys

  datatype Row = Row(peer: string, chain: Key, num: int, ours: bool)

  datatype GroupState = GroupState(keys: map<string, SenderKey>, ourPeer: string, ourSigning: Option<nat>)

  /** LoadGroupSenderKey on one group, `None` being a group not in memory. */
  function Loaded(group: Option<GroupState>, row: Row, signing: nat): GroupState {
    match group
    case None =>
      var sign := if row.ours then Some(signing) else None;
      GroupState(map[row.peer := SenderKey(row.chain, row.num, sign)], row.peer, sign)
    case Some(g) =>
      if row.ours then
        GroupState(g.keys[row.peer := SenderKey(row.chain, row.num, Some(signing))], row.peer, Some(signing))
      else
        g.(keys := g.keys[row.peer := SenderKey(row.chain, row.num, None)])
  }

  class GroupStore {
    const signing: nat
    var groups: map<string, GroupSenderKeys>

    constructor (signing: nat)
      ensures this.signing == signing && groups == map[]
    {
      this.signing, groups := signing, map[];
    }

    function ViewOf(group: string): Option<GroupState>
      reads this, if group in groups then {groups[group]} else {}
    {
      if group !in groups then None
      else
        var g := groups[group];
        Some(GroupState(g.senderKeys, g.ourPeer, g.ourSigning))
    }

    method LoadGroupSenderKey(group: string, row: Row)
      modifies this`groups, if group in groups then {groups[group]} else {}
      ensures ViewOf(group) == Some(Loaded(old(ViewOf(group)), row, signing))
      ensures group in groups &&
              var g, known := groups[group], group in old(groups);
              var sign := if row.ours then Some(signing) else None;
              var before := if known then old(groups[group].senderKeys) else map[];
              && g.senderKeys == before[row.peer := SenderKey(row.chain, row.num, sign)]
              && g.ourPeer == (if known && !row.ours then old(groups[group].ourPeer) else row.peer)
              && g.ourSigning == (if known && !row.ours then old(groups[group].ourSigning) else sign)
      ensures forall other :: other != group && other in old(groups) ==>
                other in groups && groups[other] == old(groups)[other]
      ensures groups.Keys == old(groups).Keys + {group}
    {
      if group !in groups {
        var sign := if row.ours then Some(signing) else None;
        var g := new GroupSenderKeys.WithExistingKey(row.peer, sign, row.chain, row.num);
        groups := groups[group := g];
      } else if row.ours {
        var g := groups[group];
        g.ourPeer := row.peer;
        g.ourSigning := Some(signing);
        g.senderKeys := g.senderKeys[row.peer := SenderKey(row.chain, row.num, Some(signing))];
      } else {
        var g := groups[group];
        g.senderKeys := g.senderKeys[row.peer := SenderKey(row.chain, row.num, None)];
      }
    }
  }

  function LoadAll(rows: seq<Row>, signing: nat): Option<GroupState> {
    if rows == [] then None
    else Some(Loaded(LoadAll(rows[..|rows| - 1], signing), rows[|rows| - 1], signing))
  }

  /** One row per peer, and at most one of them ours. */
  ghost predicate WellFormed(rows: multiset<Row>) {
    && (forall r :: r in rows ==> rows[r] == 1)
    && (forall r, q :: r in rows && q in rows && r != q ==> r.peer != q.peer && !(r.ours && q.ours))
  }

  ghost predicate HasOurs(rows: multiset<Row>) {
    exists r :: r in rows && r.ours
  }

  /** The state of a loaded group, said of its rows without their order. */
  ghost predicate Holds(g: GroupState, rows: multiset<Row>, signing: nat) {
    && (forall p :: p in g.keys ==> exists r :: r in rows && r.peer == p)
    && (forall r :: r in rows ==>
          r.peer in g.keys && g.keys[r.peer] == SenderKey(r.chain, r.num, if r.ours then Some(signing) else None))
    && (forall r :: r in rows && r.ours ==> g.ourPeer == r.peer && g.ourSigning == Some(signing))
  }

  /** One more row, of a new peer and not a second one of ours. */
  lemma LoadedHolds(g: GroupState, rows: multiset<Row>, row: Row, all: multiset<Row>, signing: nat)
    requires Holds(g, rows, signing)
    requires forall r :: r in all <==> r in rows || r == row
    requires forall r :: r in rows ==> r.peer != row.peer && !(r.ours && row.ours)
    ensures Holds(Loaded(Some(g), row, signing), all, signing)
  {
    var g' := Loaded(Some(g), row, signing);
    forall p | p in g'.keys
      ensures exists r :: r in all && r.peer == p
    {
      if p == row.peer {
        assert row in all;
      } else {
        var r :| r in rows && r.peer == p;
        assert r in all;
      }
    }
  }

  lemma {:induction false} LoadAllHolds(rows: seq<Row>, signing: nat)
    requires WellFormed(multiset(rows)) && rows != []
    ensures Holds(LoadAll(rows, signing).value, multiset(rows), signing)
    ensures !HasOurs(multiset(rows)) ==> LoadAll(rows, signing).value.ourPeer == rows[0].peer
  {
    hide Holds;
    var front, last := rows[..|rows| - 1], rows[|rows| - 1];
    assert rows == front + [last];
    assert multiset(rows) == multiset(front) + multiset{last};
    if front == [] {
      FirstHolds(last, signing);
    } else {
      assert forall r :: r in multiset(front) ==> r in multiset(rows) && multiset(front)[r] <= multiset(rows)[r];
      LoadAllHolds(front, signing);
      assert last in multiset(rows);
      assert last !in multiset(front) by {
        assert multiset(rows)[last] == multiset(front)[last] + 1;
      }
      LoadedHolds(LoadAll(front, signing).value, multiset(front), last, multiset(rows), signing);
    }
  }

  lemma FirstHolds(row: Row, signing: nat)
    ensures LoadAll([row], signing) == Some(Loaded(None, row, signing))
    ensures Holds(Loaded(None, row, signing), multiset{row}, signing)
  {
    assert row in multiset{row};
  }

  lemma HoldsIsDetermined(g: GroupState, h: GroupState, rows: multiset<Row>, signing: nat)
    requires Holds(g, rows, signing) && Holds(h, rows, signing) && HasOurs(rows)
    ensures g == h
  {
    assert g.keys.Keys == h.keys.Keys;
    assert g.keys == h.keys;
  }

  ghost predicate OrderIndependent(rows: seq<Row>, signing: nat) {
    forall other: seq<Row> :: multiset(other) == multiset(rows) ==> LoadAll(other, signing) == LoadAll(rows, signing)
  }

  lemma OtherOrder(rows: seq<Row>, other: seq<Row>, signing: nat)
    requires WellFormed(multiset(rows)) && multiset(other) == multiset(rows) && HasOurs(multiset(rows))
    ensures LoadAll(other, signing) == LoadAll(rows, signing)
  {
    hide Holds;
    LoadAllHolds(rows, signing);
    LoadAllHolds(other, signing);
    HoldsIsDetermined(LoadAll(rows, signing).value, LoadAll(other, signing).value, multiset(rows), signing);
  }

  lemma SwappedOrder(rows: seq<Row>, signing: nat)
    requires WellFormed(multiset(rows)) && !HasOurs(multiset(rows)) && |rows| >= 2
    ensures !OrderIndependent(rows, signing)
  {
    hide Holds, LoadAll, WellFormed;
    var other := [rows[1], rows[0]] + rows[2..];
    FirstTwo(rows);
    LoadAllHolds(rows, signing);
    LoadAllHolds(other, signing);
  }

  lemma FirstTwo(rows: seq<Row>)
    requires WellFormed(multiset(rows)) && |rows| >= 2
    ensures multiset([rows[1], rows[0]] + rows[2..]) == multiset(rows)
    ensures rows[0].peer != rows[1].peer
  {
    var rest := rows[2..];
    assert rows == [rows[0], rows[1]] + rest;
    var m := multiset(rows);
    assert rows[0] in m && rows[1] in m;
    assert m[rows[0]] == multiset{rows[0], rows[1]}[rows[0]] + multiset(rest)[rows[0]];
  }

  /** Loading is independent of the order of the rows exactly when our own row is
      among them or there is nothing to reorder. */
  lemma LoadOrderIndependentIff(rows: seq<Row>, signing: nat)
    requires WellFormed(multiset(rows))
    ensures OrderIndependent(rows, signing) <==> HasOurs(multiset(rows)) || |rows| <= 1
  {
    if HasOurs(multiset(rows)) {
      forall other: seq<Row> | multiset(other) == multiset(rows)
        ensures LoadAll(other, signing) == LoadAll(rows, signing)
      {
        OtherOrder(rows, other, signing);
      }
    } else if |rows| <= 1 {
      forall other: seq<Row> | multiset(other) == multiset(rows)
        ensures LoadAll(other, signing) == LoadAll(rows, signing)
      {
        assert |other| == |multiset(other)| == |rows|;
        if |rows| == 1 {
          assert rows[0] in multiset(other);
        }
        assert other == rows;
      }
    } else {
      SwappedOrder(rows, signing);
    }
  }
}
