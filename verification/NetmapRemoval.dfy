/** Filtering: the removal index, and what the `retain` sweeps keep. */
module NetmapRemoval {
  import opened Prelude
  import opened Validate
  import opened NetmapModel
  import NetmapPatch

  // ----- the removal index

  datatype PeerRemovalIndex = PeerRemovalIndex(nodeIds: set<int>, nodeKeys: set<Text>) {
    predicate Removes(peer: Node) {
      peer.id in nodeIds || peer.key in nodeKeys
    }
  }

  /** The two hash sets answer exactly as a scan of the removal list would, for every peer. */
  method BuildIndex(removals: seq<PeerRemoval>) returns (index: PeerRemovalIndex)
    ensures forall peer: Node :: index.Removes(peer) <==> Removes(removals, peer)
  {
    var nodeIds, nodeKeys := {}, {};
    for k := 0 to |removals|
      invariant forall id :: id in nodeIds <==> NodeId(id) in removals[..k]
      invariant forall key :: key in nodeKeys <==> NodeKey(key) in removals[..k]
    {
      assert removals[..k + 1] == removals[..k] + [removals[k]];
      match removals[k] {
        case NodeId(id) => nodeIds := nodeIds + {id};
        case NodeKey(key) => nodeKeys := nodeKeys + {key};
        case Unrecognized =>
      }
    }
    assert removals[..|removals|] == removals;
    index := PeerRemovalIndex(nodeIds, nodeKeys);
    forall peer: Node ensures index.Removes(peer) <==> Removes(removals, peer) {
      RemovesByMembership(removals, peer);
    }
  }

  lemma RemovesByMembership(rs: seq<PeerRemoval>, peer: Node)
    ensures Removes(rs, peer) <==> NodeId(peer.id) in rs || NodeKey(peer.key) in rs
  {
  }

  // ----- selections

  /** Survivors keep their order; exactly the peers not named survive. */
  lemma SurvivorsInOrder(rs: seq<PeerRemoval>, ns: seq<Node>) returns (at: seq<nat>)
    ensures IsSelection(ns, Survivors(rs, ns), at)
    ensures forall i: nat | i < |ns| :: i in at <==> !Removes(rs, ns[i])
  {
    at := SelectInOrder(ns, NotRemoved(rs));
  }

  /** The kept list is the first MAX_PEERS valid peers, in order. */
  lemma AdmittedAreFirstValid(ps: AddrParsers, ns: seq<Node>) returns (at: seq<nat>)
    ensures IsSelection(ns, AdmitList(ps, ns), at)
    ensures |at| <= MAX_PEERS
    ensures forall i: nat | i in at :: i < |ns| && NodeCheck(ps)(ns[i])
    // a valid peer is left out only when the cap was filled by earlier ones
    ensures forall i: nat | i < |ns| && NodeCheck(ps)(ns[i]) && i !in at ::
              |at| == MAX_PEERS && forall j | j in at :: j < i
  {
    at := FirstSelected(ns, NodeCheck(ps), MAX_PEERS);
  }

  /** The same for any check and any limit. */
  lemma FirstSelected<T>(s: seq<T>, keep: T -> bool, limit: nat) returns (at: seq<nat>)
    ensures IsSelection(s, Select(s, keep)[..Min(limit, |Select(s, keep)|)], at)
    ensures |at| <= limit
    ensures forall i: nat | i in at :: i < |s| && keep(s[i])
    ensures forall i: nat | i < |s| && keep(s[i]) && i !in at :: |at| == limit && forall j | j in at :: j < i
  {
    var all := SelectInOrder(s, keep);
    var out := Select(s, keep);
    var c := Min(limit, |all|);
    SelectionPrefix(s, out, all, c);
    at := all[..c];
    hide Select, IsSelection;
    forall i: nat | i < |s| && keep(s[i]) && i !in at
      ensures |at| == limit && forall j | j in at :: j < i
    {
      assert i in all;
      var a :| 0 <= a < |all| && all[a] == i;
      PrefixIsEarlier(all, c, a);
    }
  }

  lemma SelectionPrefix<T>(s: seq<T>, out: seq<T>, at: seq<nat>, c: nat)
    requires IsSelection(s, out, at) && c <= |at|
    ensures IsSelection(s, out[..c], at[..c]) && |at| == |out|
    ensures forall i | i in at[..c] :: i in at
    ensures forall a, b | 0 <= a < b < |at| :: at[a] < at[b]
  {
  }

  lemma PrefixIsEarlier(at: seq<nat>, c: nat, a: nat)
    requires forall a, b | 0 <= a < b < |at| :: at[a] < at[b]
    requires c <= |at| && a < |at| && at[a] !in at[..c]
    ensures c <= a && forall j | j in at[..c] :: j < at[a]
  {
    assert forall k | 0 <= k < c :: at[..c][k] == at[k];
  }

  // ----- after a whole delta

  /** Some patch of the list moved a peer of this id onto this key. */
  ghost predicate RotatedOnto(cs: seq<PeerChange>, id: int, key: Text) {
    exists i | 0 <= i < |cs| :: cs[i].nodeId == id && cs[i].key == Some(key) && IsValidNodeKey(key)
  }

  lemma SurvivorsNotNamed(rs: seq<PeerRemoval>, ns: seq<Node>)
    ensures forall i | 0 <= i < |Survivors(rs, ns)| :: !Removes(rs, Survivors(rs, ns)[i]) && Survivors(rs, ns)[i] in ns
  {
    SelectMembers(ns, NotRemoved(rs));
    forall x | x in Survivors(rs, ns) ensures !Removes(rs, x) {
      assert NotRemoved(rs)(x);
    }
  }

  /** A key seen after the patches was there before them, or a patch put it there. */
  lemma {:induction false} PatchedKeyOrigin(ps: AddrParsers, peers: seq<Node>, cs: seq<PeerChange>, i: nat)
    requires i < |peers|
    ensures |PatchAll(ps, peers, cs)| == |peers|
    ensures var p := PatchAll(ps, peers, cs)[i];
            p.id == peers[i].id && (p.key == peers[i].key || RotatedOnto(cs, p.id, p.key))
  {
    if cs != [] {
      var init, c := cs[..|cs| - 1], cs[|cs| - 1];
      var before := PatchAll(ps, peers, init);
      PatchedKeyOrigin(ps, peers, init, i);
      if RotatedOnto(init, before[i].id, before[i].key) {
        var k :| 0 <= k < |init| && init[k].nodeId == before[i].id
                 && init[k].key == Some(before[i].key) && IsValidNodeKey(before[i].key);
        assert cs[k] == init[k];
      }
      assert cs[|cs| - 1] == c;
    }
  }

  /** Once the delta is done no peer has a removed id, and a peer holds a removed key only if
    * a patch of the same delta rotated it there.
    */
  lemma RemovedStayRemoved(ps: AddrParsers, m: NetmapValue, r: MapResponse, i: nat)
    requires r.peersRemoved.Some?
    requires i < |ApplyDelta(ps, m, r).peers|
    ensures var p := ApplyDelta(ps, m, r).peers[i];
            && NodeId(p.id) !in r.peersRemoved.value
            && (NodeKey(p.key) in r.peersRemoved.value ==>
                  r.peersChangedPatch.Some? && RotatedOnto(r.peersChangedPatch.value, p.id, p.key))
  {
    var rs := r.peersRemoved.value;
    var base := AfterRemovals(ps, m.peers, r);
    SurvivorsNotNamed(rs, AfterUpserts(ps, m.peers, r));
    if r.peersChangedPatch.Some? {
      NetmapPatch.PatchClosedForm(ps, base, r.peersChangedPatch.value);
      assert |IdsOf(PatchAll(ps, base, r.peersChangedPatch.value))| == |base|;
      PatchedKeyOrigin(ps, base, r.peersChangedPatch.value, i);
    }
    RemovesByMembership(rs, base[i]);
  }
}
