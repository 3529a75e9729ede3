/** Deltas delivered twice, and what decides whether the second delivery changes anything. */
module NetmapRedelivery {
  import opened Prelude
  import opened Validate
  import opened NetmapModel
  import opened NetmapRuns
  import opened NetmapPatch
  import NetmapUpsert

  function ChangesOf(r: MapResponse): seq<Node> {
    if r.peersChanged.Some? then r.peersChanged.value else []
  }

  function RemovalsOf(r: MapResponse): seq<PeerRemoval> {
    if r.peersRemoved.Some? then r.peersRemoved.value else []
  }

  /** What a delta without a full list does to the peers. */
  function Delivered(ps: AddrParsers, peers: seq<Node>, r: MapResponse): seq<Node> {
    PatchAll(ps, Survivors(RemovalsOf(r), UpsertAll(ps, peers, ChangesOf(r))), PatchesOf(r))
  }

  lemma DeltaIsDelivered(ps: AddrParsers, peers: seq<Node>, r: MapResponse)
    requires r.peers.None?
    ensures PeersAfter(ps, peers, r) == Delivered(ps, peers, r)
  {
    if r.peersRemoved.None? {
      SelectAll(AfterUpserts(ps, peers, r), NotRemoved([]));
    }
  }

  /** The second delivery to this netmap changes nothing. */
  predicate Twice(ps: AddrParsers, m: NetmapValue, r: MapResponse) {
    ApplyDelta(ps, ApplyDelta(ps, m, r), r) == ApplyDelta(ps, m, r)
  }

  /** The second delivery changes nothing on any netmap a client can hold. */
  ghost predicate Redeliverable(ps: AddrParsers, r: MapResponse) {
    forall m | Inv(ps, m) :: Twice(ps, m, r)
  }

  /** Everything but the peers is settled by the first delivery. */
  lemma TwiceByPeers(ps: AddrParsers, m: NetmapValue, r: MapResponse)
    ensures Twice(ps, m, r) <==> PeersAfter(ps, PeersAfter(ps, m.peers, r), r) == PeersAfter(ps, m.peers, r)
  {
  }

  lemma TwiceIfDeliveredTwice(ps: AddrParsers, m: NetmapValue, r: MapResponse)
    requires r.peers.None?
    requires Delivered(ps, Delivered(ps, m.peers, r), r) == Delivered(ps, m.peers, r)
    ensures Twice(ps, m, r)
  {
    TwiceByPeers(ps, m, r);
    DeltaIsDelivered(ps, m.peers, r);
    DeltaIsDelivered(ps, Delivered(ps, m.peers, r), r);
  }

  lemma DeliveredTwice(ps: AddrParsers, peers: seq<Node>, r: MapResponse)
    requires r.peers.None? && Redeliverable(ps, r)
    requires AllValid(ps, peers) && |peers| <= MAX_PEERS
    ensures Delivered(ps, Delivered(ps, peers, r), r) == Delivered(ps, peers, r)
  {
    var m := EmptyNetmap().(peers := peers);
    assert Inv(ps, m);
    assert Twice(ps, m, r);
    TwiceByPeers(ps, m, r);
    DeltaIsDelivered(ps, peers, r);
    DeltaIsDelivered(ps, Delivered(ps, peers, r), r);
  }

  /** A delta with a full list starts over. */
  lemma FullListIsRedeliverable(ps: AddrParsers, m: NetmapValue, r: MapResponse)
    requires r.peers.Some?
    ensures Twice(ps, m, r)
  {
    TwiceByPeers(ps, m, r);
  }

  // ----- the four conditions

  /** The removals name no peer that could be held. */
  predicate NamesNobody(rs: seq<PeerRemoval>) {
    forall i | 0 <= i < |rs| :: rs[i].Unrecognized? || (rs[i].NodeKey? && !IsValidNodeKey(rs[i].key))
  }

  /** Every key an empty netmap would admit from the changes is removed again by key. */
  predicate RemovesAdmitted(ps: AddrParsers, cs: seq<Node>, rs: seq<PeerRemoval>) {
    forall i | 0 <= i < |NetmapUpsert.KeptKeys(ps, [], cs)| :: NodeKey(NetmapUpsert.KeptKeys(ps, [], cs)[i]) in rs
  }

  /** A valid change to a key not so removed is not removed by its id either. */
  predicate KeepsLastChange(ps: AddrParsers, cs: seq<Node>, rs: seq<PeerRemoval>, key: Text) {
    var last := NetmapUpsert.LastValid(ps, cs, key);
    last.Some? && NodeKey(key) !in rs ==> NodeId(last.value.id) !in rs
  }

  predicate KeepsLastChanges(ps: AddrParsers, cs: seq<Node>, rs: seq<PeerRemoval>) {
    forall i | 0 <= i < |cs| :: KeepsLastChange(ps, cs, rs, cs[i].key)
  }

  /** No id that stays is left with a key that goes. */
  predicate AvoidsRemoved(rs: seq<PeerRemoval>, qs: seq<PeerChange>) {
    forall i | 0 <= i < |qs| && NodeId(qs[i].nodeId) !in rs && LastKey(qs, qs[i].nodeId).Some? ::
      NodeKey(LastKey(qs, qs[i].nodeId).value) !in rs
  }

  /** An id that stays and is given a key, and a changed key that stays: the id is not given that
    * key, and the last change to the key is not to a peer of that id.
    */
  predicate Apart(ps: AddrParsers, cs: seq<Node>, rs: seq<PeerRemoval>, qs: seq<PeerChange>, id: int, key: Text) {
    var given, last := LastKey(qs, id), NetmapUpsert.LastValid(ps, cs, key);
    NodeId(id) !in rs && NodeKey(key) !in rs && given.Some? && last.Some? ==> given.value != key && last.value.id != id
  }

  predicate KeepsApart(ps: AddrParsers, cs: seq<Node>, rs: seq<PeerRemoval>, qs: seq<PeerChange>) {
    forall i, j | 0 <= i < |qs| && 0 <= j < |cs| :: Apart(ps, cs, rs, qs, qs[i].nodeId, cs[j].key)
  }

  /** What makes a delta without a full list harmless to deliver again: it removes nobody or only
    * what it admits anew, its changes to keys that stay do not go by id, its patches leave no id
    * that stays with a removed key, and changes and patches keep out of each other's way.
    */
  predicate IsHarmless(ps: AddrParsers, r: MapResponse) {
    var cs, rs, qs := ChangesOf(r), RemovalsOf(r), PatchesOf(r);
    && (NamesNobody(rs) || RemovesAdmitted(ps, cs, rs))
    && KeepsLastChanges(ps, cs, rs)
    && AvoidsRemoved(rs, qs)
    && KeepsApart(ps, cs, rs, qs)
  }

  // ----- the conditions for any id and key

  lemma {:induction false} LastValidIsChange(ps: AddrParsers, cs: seq<Node>, key: Text)
    ensures var last := NetmapUpsert.LastValid(ps, cs, key);
            && (last.Some? ==> last.value in cs && last.value.key == key && NodeIsValid(ps, last.value))
            && (last.None? ==> forall i | 0 <= i < |cs| && cs[i].key == key :: !NodeIsValid(ps, cs[i]))
  {
    hide NodeIsValid;
    if cs != [] {
      var init, c := cs[..|cs| - 1], cs[|cs| - 1];
      LastValidIsChange(ps, init, key);
      assert cs == init + [c];
    }
  }

  lemma LastChangeStays(ps: AddrParsers, cs: seq<Node>, rs: seq<PeerRemoval>, key: Text)
    requires KeepsLastChanges(ps, cs, rs)
    ensures KeepsLastChange(ps, cs, rs, key)
  {
    var last := NetmapUpsert.LastValid(ps, cs, key);
    LastValidIsChange(ps, cs, key);
    if last.Some? {
      var i :| 0 <= i < |cs| && cs[i] == last.value;
      assert KeepsLastChange(ps, cs, rs, cs[i].key);
    }
  }

  lemma PatchedById(qs: seq<PeerChange>, id: int) returns (i: nat)
    requires LastKey(qs, id).Some?
    ensures i < |qs| && qs[i].nodeId == id
  {
    var mine := ForId(qs, id);
    SelectMembers(qs, HasId(id));
    assert mine[0] in qs && HasId(id)(mine[0]);
    i :| i < |qs| && qs[i] == mine[0];
  }

  /** Whose key the patches set, they set to one that stays. */
  lemma LastKeyAvoids(rs: seq<PeerRemoval>, qs: seq<PeerChange>, id: int)
    requires AvoidsRemoved(rs, qs) && NodeId(id) !in rs && LastKey(qs, id).Some?
    ensures NodeKey(LastKey(qs, id).value) !in rs
  {
    var i := PatchedById(qs, id);
  }

  lemma AllApart(ps: AddrParsers, cs: seq<Node>, rs: seq<PeerRemoval>, qs: seq<PeerChange>, id: int, key: Text)
    requires KeepsApart(ps, cs, rs, qs)
    ensures Apart(ps, cs, rs, qs, id, key)
  {
    hide LastKey, NetmapUpsert.LastValid;
    var last := NetmapUpsert.LastValid(ps, cs, key);
    if LastKey(qs, id).Some? && last.Some? {
      LastValidIsChange(ps, cs, key);
      var i := PatchedById(qs, id);
      var j :| 0 <= j < |cs| && cs[j] == last.value;
      assert Apart(ps, cs, rs, qs, qs[i].nodeId, cs[j].key);
    }
  }
}
