/**
 * Which wallet a node advertises for each payment network
 * (populateWalletCapabilities of internal/core/peer.go).
 */
module Wallets {
  import opened Results

  datatype Wallet = Wallet(id: string, network: string, address: string, createdAt: int)

  predicate On(ws: seq<Wallet>, net: string, i: int) {
    0 <= i < |ws| && ws[i].network == net
  }

  predicate DefaultAt(ws: seq<Wallet>, d: string, net: string, i: int) {
    On(ws, net, i) && ws[i].id == d
  }

  /** The default wallet if it is on the network (the last, should the id occur twice),
      else the earliest created, and the first in the list among equally old ones. */
  ghost predicate IsChosen(ws: seq<Wallet>, d: string, net: string, i: int) {
    && On(ws, net, i)
    && (if exists j :: DefaultAt(ws, d, net, j)
        then DefaultAt(ws, d, net, i) && forall j :: DefaultAt(ws, d, net, j) ==> j <= i
        else forall j :: On(ws, net, j) ==>
               ws[i].createdAt < ws[j].createdAt || (ws[i].createdAt == ws[j].createdAt && i <= j))
  }

  lemma ChosenUnique(ws: seq<Wallet>, d: string, net: string, i: int, k: int)
    requires IsChosen(ws, d, net, i) && IsChosen(ws, d, net, k)
    ensures i == k
  {
  }

  /** The address is that of the default wallet of the network (the last, should the id
      occur twice), or if there is none that of the earliest created, first on ties. */
  ghost predicate Advertises(ws: seq<Wallet>, d: string, net: string, address: string) {
    exists i ::
      && 0 <= i < |ws| && ws[i].network == net && ws[i].address == address
      && if ws[i].id == d then forall j :: i < j < |ws| && ws[j].network == net ==> ws[j].id != d
         else forall j :: 0 <= j < |ws| && ws[j].network == net ==>
                && ws[j].id != d && ws[i].createdAt <= ws[j].createdAt
                && (j < i ==> ws[i].createdAt < ws[j].createdAt)
  }

  lemma ChosenIsAdvertised(ws: seq<Wallet>, d: string, net: string, i: int)
    requires IsChosen(ws, d, net, i)
    ensures On(ws, net, i) && Advertises(ws, d, net, ws[i].address)
  {
    assert forall j :: 0 <= j < |ws| && ws[j].network == net ==> On(ws, net, j);
    assert forall j :: 0 <= j < |ws| && ws[j].network == net && ws[j].id == d ==> DefaultAt(ws, d, net, j);
  }

  /** The comparison of the selection loop. */
  predicate Replaces(d: string, existing: Wallet, wallet: Wallet) {
    wallet.id == d || (existing.id != d && wallet.createdAt < existing.createdAt)
  }

  lemma Extended(ws: seq<Wallet>, w: Wallet, d: string, net: string, i: int)
    ensures 0 <= i < |ws| ==>
              && (On(ws + [w], net, i) <==> On(ws, net, i))
              && (DefaultAt(ws + [w], d, net, i) <==> DefaultAt(ws, d, net, i))
    ensures i >= |ws| ==> (On(ws + [w], net, i) <==> i == |ws| && w.network == net)
    ensures i >= |ws| ==> (DefaultAt(ws + [w], d, net, i) <==> i == |ws| && w.network == net && w.id == d)
  {
  }

  lemma ChosenStep(ws: seq<Wallet>, w: Wallet, d: string, net: string, i: int)
    requires IsChosen(ws, d, net, i)
    ensures IsChosen(ws + [w], d, net, if w.network == net && Replaces(d, ws[i], w) then |ws| else i)
  {
    var vs := ws + [w];
    var k := if w.network == net && Replaces(d, ws[i], w) then |ws| else i;
    forall j: int
      ensures On(vs, net, j) <==> On(ws, net, j) || (j == |ws| && w.network == net)
      ensures DefaultAt(vs, d, net, j) <==> DefaultAt(ws, d, net, j) || (j == |ws| && w.network == net && w.id == d)
    {
      Extended(ws, w, d, net, j);
    }
    if exists j :: DefaultAt(ws, d, net, j) {
      assert DefaultAt(vs, d, net, i);
    } else if w.network == net && w.id == d {
      assert DefaultAt(vs, d, net, |ws|);
    }
  }

  lemma ChosenFirst(ws: seq<Wallet>, w: Wallet, d: string)
    requires forall j :: !On(ws, w.network, j)
    ensures IsChosen(ws + [w], d, w.network, |ws|)
  {
    forall j: int
      ensures On(ws + [w], w.network, j) <==> j == |ws|
      ensures DefaultAt(ws + [w], d, w.network, j) <==> j == |ws| && w.id == d
    {
      assert !On(ws, w.network, j);
      Extended(ws, w, d, w.network, j);
    }
  }

  /** `Address[:8]` of a wallet that is selected at some time panics if it is shorter. */
  ghost predicate PanicsAt(ws: seq<Wallet>, d: string, k: int) {
    0 <= k < |ws| && exists i :: IsChosen(ws[..k + 1], d, ws[k].network, i) && |ws[i].address| < 8
  }

  /** `selected` holds the chosen wallet of every network of the prefix `p`, found at `at`. */
  ghost predicate Selecting(p: seq<Wallet>, d: string, selected: map<string, Wallet>, at: map<string, int>) {
    && selected.Keys == at.Keys
    && (forall net :: net in at ==> IsChosen(p, d, net, at[net]) && selected[net] == p[at[net]])
    && (forall net, i :: On(p, net, i) ==> net in at)
  }

  lemma SelectStep(p: seq<Wallet>, w: Wallet, d: string, selected: map<string, Wallet>, at: map<string, int>)
    requires Selecting(p, d, selected, at)
    ensures if w.network !in selected || Replaces(d, selected[w.network], w)
            then Selecting(p + [w], d, selected[w.network := w], at[w.network := |p|])
            else Selecting(p + [w], d, selected, at)
  {
    hide IsChosen;
    forall net | net in at
      ensures IsChosen(p + [w], d, net, if w.network == net && Replaces(d, selected[net], w) then |p| else at[net])
      ensures 0 <= at[net] < |p|
    {
      ChosenStep(p, w, d, net, at[net]);
      ChosenIsOn(p, d, net, at[net]);
    }
    if w.network !in at {
      ChosenFirst(p, w, d);
    }
    forall net, i | On(p + [w], net, i)
      ensures net in at || net == w.network
    {
      Extended(p, w, d, net, i);
    }
  }

  lemma ChosenIsOn(ws: seq<Wallet>, d: string, net: string, i: int)
    requires IsChosen(ws, d, net, i)
    ensures On(ws, net, i)
  {
  }

  /** Every wallet just seen decides whether the next log line slices a short address. */
  lemma PanicsIff(ws: seq<Wallet>, d: string, k: nat, selected: map<string, Wallet>, at: map<string, int>)
    requires k < |ws| && Selecting(ws[..k + 1], d, selected, at) && ws[k].network in selected
    ensures PanicsAt(ws, d, k) <==> |selected[ws[k].network].address| < 8
  {
    var net := ws[k].network;
    if PanicsAt(ws, d, k) {
      var i :| IsChosen(ws[..k + 1], d, net, i) && |ws[i].address| < 8;
      ChosenUnique(ws[..k + 1], d, net, i, at[net]);
    }
  }

  /** The selection loop and the map built from it; `None` is a panic. */
  method PopulateWalletCapabilities(ws: seq<Wallet>, d: string) returns (caps: Option<map<string, string>>)
    ensures caps.None? <==> exists k :: PanicsAt(ws, d, k)
    ensures caps.Some? ==> forall net :: net in caps.value <==> exists i :: On(ws, net, i)
    ensures caps.Some? ==> forall net :: net in caps.value ==>
              exists i :: IsChosen(ws, d, net, i) && caps.value[net] == ws[i].address
    ensures caps.Some? ==> forall i :: 0 <= i < |ws| ==> ws[i].network in caps.value
    ensures caps.Some? ==> forall net :: net in caps.value ==> Advertises(ws, d, net, caps.value[net])
  {
    var selected: map<string, Wallet> := map[];
    ghost var at: map<string, int> := map[];
    hide IsChosen, PanicsAt, Advertises;
    for k := 0 to |ws|
      invariant Selecting(ws[..k], d, selected, at)
      invariant forall j :: 0 <= j < k ==> !PanicsAt(ws, d, j)
    {
      var wallet := ws[k];
      assert ws[..k + 1] == ws[..k] + [wallet];
      SelectStep(ws[..k], wallet, d, selected, at);
      if wallet.network !in selected || Replaces(d, selected[wallet.network], wallet) {
        selected := selected[wallet.network := wallet];
        at := at[wallet.network := k];
      }
      PanicsIff(ws, d, k, selected, at);
      if |selected[wallet.network].address| < 8 {
        return None;
      }
    }
    assert ws[..|ws|] == ws;
    NoPanic(ws, d);
    forall i | 0 <= i < |ws|
      ensures ws[i].network in selected
    {
      assert On(ws, ws[i].network, i);
    }
    caps := Some(map net | net in selected :: selected[net].address);
    forall net | net in selected
      ensures exists i :: On(ws, net, i)
      ensures exists i :: On(ws, net, i) && IsChosen(ws, d, net, i) && selected[net].address == ws[i].address
      ensures Advertises(ws, d, net, selected[net].address)
    {
      ChosenIsOn(ws, d, net, at[net]);
      ChosenIsAdvertised(ws, d, net, at[net]);
    }
  }

  lemma NoPanic(ws: seq<Wallet>, d: string)
    requires forall j :: 0 <= j < |ws| ==> !PanicsAt(ws, d, j)
    ensures !exists k :: PanicsAt(ws, d, k)
  {
  }

  // ------------------------------------------------------------------
  // The order of the list
  // ------------------------------------------------------------------

  ghost predicate DistinctIds(ws: seq<Wallet>) {
    forall i, j :: 0 <= i < j < |ws| ==> ws[i].id != ws[j].id
  }

  ghost predicate SameWallets(ws: seq<Wallet>, vs: seq<Wallet>) {
    multiset(ws) == multiset(vs)
  }

  /** The default is on the network, or one wallet there is older than all others. */
  ghost predicate Decided(ws: seq<Wallet>, d: string, net: string) {
    || (exists i :: DefaultAt(ws, d, net, i))
    || (exists i :: StrictlyOldest(ws, net, i))
  }

  ghost predicate StrictlyOldest(ws: seq<Wallet>, net: string, i: int) {
    On(ws, net, i) && forall j :: On(ws, net, j) && j != i ==> ws[i].createdAt < ws[j].createdAt
  }

  lemma Found(ws: seq<Wallet>, vs: seq<Wallet>, i: nat) returns (j: nat)
    requires SameWallets(ws, vs) && i < |ws|
    ensures j < |vs| && vs[j] == ws[i]
  {
    assert ws[i] in multiset(ws);
    assert ws[i] in vs;
    j :| 0 <= j < |vs| && vs[j] == ws[i];
  }

  /** A decided choice is the same whatever the order of the list. */
  lemma DecidedAnyOrder(ws: seq<Wallet>, vs: seq<Wallet>, d: string, net: string, i: nat, k: nat)
    requires DistinctIds(ws) && SameWallets(ws, vs) && Decided(ws, d, net)
    requires IsChosen(ws, d, net, i) && IsChosen(vs, d, net, k)
    ensures ws[i] == vs[k]
  {
    var a := Found(vs, ws, k);
    var b := Found(ws, vs, i);
    assert On(ws, net, a) && On(vs, net, b);
    if e :| DefaultAt(ws, d, net, e) {
      var f := Found(ws, vs, e);
      assert DefaultAt(vs, d, net, f);
      assert ws[a].id == d;
      assert a == i;
    } else {
      var e :| StrictlyOldest(ws, net, e);
      assert i == e;
      NoDefault(ws, vs, d, net);
      assert vs[k].createdAt <= vs[b].createdAt;
      assert a == e;
    }
  }

  lemma NoDefault(ws: seq<Wallet>, vs: seq<Wallet>, d: string, net: string)
    requires SameWallets(ws, vs) && forall e :: !DefaultAt(ws, d, net, e)
    ensures forall e :: !DefaultAt(vs, d, net, e)
  {
    forall e: int
      ensures !DefaultAt(vs, d, net, e)
    {
      if DefaultAt(vs, d, net, e) {
        var f := Found(vs, ws, e);
        assert DefaultAt(ws, d, net, f);
        assert false;
      }
    }
  }

  /** An undecided choice changes when two equally old wallets trade places. */
  lemma UndecidedDepends(ws: seq<Wallet>, d: string, net: string, i: nat) returns (vs: seq<Wallet>, k: nat)
    requires DistinctIds(ws) && !Decided(ws, d, net) && IsChosen(ws, d, net, i)
    ensures SameWallets(ws, vs) && IsChosen(vs, d, net, k) && vs[k] != ws[i]
  {
    hide SameWallets, IsChosen, Decided;
    var j := Tied(ws, d, net, i);
    vs, k := Swapped(ws, i, j), i;
    SwappedSame(ws, i, j);
    SwappedChosen(ws, d, net, i, j);
  }

  /** Another wallet as old as the chosen one. */
  lemma Tied(ws: seq<Wallet>, d: string, net: string, i: nat) returns (j: nat)
    requires DistinctIds(ws) && !Decided(ws, d, net) && IsChosen(ws, d, net, i)
    ensures On(ws, net, i) && On(ws, net, j) && j != i && ws[j].createdAt == ws[i].createdAt && ws[i] != ws[j]
    ensures forall e :: !DefaultAt(ws, d, net, e)
  {
    NotOldest(ws, d, net, i);
    hide Decided;
    j :| On(ws, net, j) && j != i && !(ws[i].createdAt < ws[j].createdAt);
    assert ws[i].id != ws[j].id by {
      assert i < j || j < i;
    }
  }

  lemma NotOldest(ws: seq<Wallet>, d: string, net: string, i: nat)
    requires !Decided(ws, d, net)
    ensures !StrictlyOldest(ws, net, i) && forall e :: !DefaultAt(ws, d, net, e)
  {
    hide StrictlyOldest;
  }

  lemma SwappedChosen(ws: seq<Wallet>, d: string, net: string, i: nat, j: nat)
    requires IsChosen(ws, d, net, i) && On(ws, net, j) && ws[j].createdAt == ws[i].createdAt
    requires forall e :: !DefaultAt(ws, d, net, e)
    ensures IsChosen(Swapped(ws, i, j), d, net, i)
  {
    var vs := Swapped(ws, i, j);
    SwappedOn(ws, d, net, i, j);
    forall e | On(vs, net, e)
      ensures vs[i].createdAt < vs[e].createdAt || (vs[i].createdAt == vs[e].createdAt && i <= e)
    {
      assert On(ws, net, e);
      assert vs[e].createdAt == ws[e].createdAt;
    }
  }

  function Swapped(ws: seq<Wallet>, i: nat, j: nat): (vs: seq<Wallet>)
    requires i < |ws| && j < |ws|
    ensures |vs| == |ws| && vs[i] == ws[j] && vs[j] == ws[i]
    ensures forall e :: 0 <= e < |ws| && e != i && e != j ==> vs[e] == ws[e]
  {
    ws[i := ws[j]][j := ws[i]]
  }

  lemma SwappedSame(ws: seq<Wallet>, i: nat, j: nat)
    requires i < |ws| && j < |ws|
    ensures SameWallets(ws, Swapped(ws, i, j))
  {
    var us := ws[i := ws[j]];
    assert multiset(us) == multiset(ws)[ws[i] := multiset(ws)[ws[i]] - 1] + multiset{ws[j]};
    if i != j {
      assert us[j] == ws[j];
    }
  }

  lemma SwappedOn(ws: seq<Wallet>, d: string, net: string, i: nat, j: nat)
    requires On(ws, net, i) && On(ws, net, j) && forall e :: !DefaultAt(ws, d, net, e)
    ensures forall e :: On(Swapped(ws, i, j), net, e) <==> On(ws, net, e)
    ensures forall e :: !DefaultAt(Swapped(ws, i, j), d, net, e)
  {
    var vs := Swapped(ws, i, j);
    forall e: int
      ensures On(vs, net, e) <==> On(ws, net, e)
      ensures !DefaultAt(vs, d, net, e)
    {
      assert !DefaultAt(ws, d, net, e) && !DefaultAt(ws, d, net, i) && !DefaultAt(ws, d, net, j);
    }
  }

  /** With distinct ids the advertised wallet is the same in every order of the list
      exactly when the default or a strictly oldest wallet decides. */
  lemma OrderIndependentIff(ws: seq<Wallet>, d: string, net: string, i: nat)
    requires DistinctIds(ws) && IsChosen(ws, d, net, i)
    ensures Decided(ws, d, net) <==>
            forall vs, k: nat :: SameWallets(ws, vs) && IsChosen(vs, d, net, k) ==> vs[k] == ws[i]
  {
    if Decided(ws, d, net) {
      forall vs, k: nat | SameWallets(ws, vs) && IsChosen(vs, d, net, k)
        ensures vs[k] == ws[i]
      {
        DecidedAnyOrder(ws, vs, d, net, i, k);
      }
    } else {
      var vs, k := UndecidedDepends(ws, d, net, i);
    }
  }
}
