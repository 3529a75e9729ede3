/** The netmap as the client holds it: fields updated in place by each map response.
  * crates/dictyon/src/control/netmap.rs and `apply_map_response` in control/mod.rs.
  */
module NetmapClient {
  import opened Prelude
  import opened Validate
  import opened NetmapModel
  import NetmapUpsert
  import NetmapRemoval
  import NetmapRuns

  class Netmap {
    var selfNode: Node
    var peers: seq<Node>
    var dnsConfig: Option<DnsConfig>
    var derpMap: Option<DerpMap>

    ghost function Value(): NetmapValue
      reads this
    {
      NetmapValue(selfNode, peers, dnsConfig, derpMap)
    }

    constructor FromFullResponse(ps: AddrParsers, resp: MapResponse)
      ensures Value() == NetmapModel.FromFullResponse(ps, resp)
      ensures NetmapRuns.Inv(ps, Value())
    {
      selfNode := if resp.node.Some? && NodeIsValid(ps, resp.node.value) then resp.node.value else ZeroValueNode();
      var list := if resp.peers.Some? then resp.peers.value else [];
      list := ValidNodes(ps, list);
      peers := if |list| > MAX_PEERS then list[..MAX_PEERS] else list;
      dnsConfig := if resp.dnsConfig.Some? then Some(SanitizeDns(ps, resp.dnsConfig.value)) else None;
      derpMap := resp.derpMap;
      new;
      NetmapRuns.FullResponseEstablishesInv(ps, resp);
    }

    /** The upsert loop, with the two counters it logs. */
    method UpsertPeers(ps: AddrParsers, changed: seq<Node>) returns (refused: nat, rejected: nat)
      modifies this`peers
      ensures peers == UpsertAll(ps, old(peers), changed)
      ensures old(|peers|) <= MAX_PEERS ==>
                && NetmapUpsert.IsClosedForm(ps, old(peers), changed, peers)
                && refused == NetmapUpsert.TurnedAway(ps, KeysOf(peers), changed)
                && rejected == |changed| - |ValidNodes(ps, changed)|
    {
      hide NodeIsValid, NetmapUpsert.IsClosedForm;
      refused, rejected := 0, 0;
      for k := 0 to |changed|
        invariant peers == UpsertAll(ps, old(peers), changed[..k])
        invariant refused == NetmapUpsert.TallyOf(ps, old(peers), changed[..k]).refused
        invariant rejected == NetmapUpsert.TallyOf(ps, old(peers), changed[..k]).rejected
      {
        var c := changed[k];
        assert changed[..k + 1][..k] == changed[..k] && changed[..k + 1][k] == c;
        if !NodeIsValid(ps, c) {
          rejected := rejected + 1;
          continue;
        }
        match FirstWithKey(peers, c.key) {
          case Some(i) =>
            peers := peers[i := c];
          case None =>
            if |peers| < MAX_PEERS {
              peers := peers + [c];
            } else {
              refused := refused + 1;
            }
        }
      }
      assert changed[..|changed|] == changed;
      if |old(peers)| <= MAX_PEERS {
        NetmapUpsert.TallyConserves(ps, old(peers), changed);
        NetmapUpsert.UpsertClosedForm(ps, old(peers), changed);
      }
    }

    /** One patch, on the first peer with its id. */
    method ApplyPeerChange(ps: AddrParsers, change: PeerChange)
      modifies this`peers
      ensures peers == Patch(ps, old(peers), change)
    {
      var at := FirstWithId(peers, change.nodeId);
      if at.None? {
        return;
      }
      var peer := PatchFields(ps, peers[at.value], change);
      peers := peers[at.value := peer];
    }

    method ApplyPatches(ps: AddrParsers, changes: seq<PeerChange>)
      modifies this`peers
      ensures peers == PatchAll(ps, old(peers), changes)
    {
      for k := 0 to |changes|
        invariant peers == PatchAll(ps, old(peers), changes[..k])
      {
        assert changes[..k + 1][..k] == changes[..k] && changes[..k + 1][k] == changes[k];
        ApplyPeerChange(ps, changes[k]);
      }
      assert changes[..|changes|] == changes;
    }

    /** The removal sweep through the index. */
    method RemovePeers(removals: seq<PeerRemoval>)
      modifies this`peers
      ensures peers == Survivors(removals, old(peers))
    {
      var index := NetmapRemoval.BuildIndex(removals);
      var kept := [];
      for k := 0 to |peers|
        invariant peers == old(peers)
        invariant kept == Survivors(removals, peers[..k])
      {
        assert peers[..k + 1][..k] == peers[..k] && peers[..k + 1][k] == peers[k];
        if !index.Removes(peers[k]) {
          kept := kept + [peers[k]];
        }
      }
      assert peers[..|peers|] == peers;
      peers := kept;
    }

    /** The four peer-bearing fields, in the order the client honours them. */
    method ApplyPeers(ps: AddrParsers, resp: MapResponse)
      modifies this`peers
      ensures peers == PeersAfter(ps, old(peers), resp)
    {
      if resp.peers.Some? {
        var list := ValidNodes(ps, resp.peers.value);
        peers := if |list| > MAX_PEERS then list[..MAX_PEERS] else list;
      }
      if resp.peersChanged.Some? {
        var _, _ := UpsertPeers(ps, resp.peersChanged.value);
      }
      if resp.peersRemoved.Some? {
        RemovePeers(resp.peersRemoved.value);
      }
      if resp.peersChangedPatch.Some? {
        ApplyPatches(ps, resp.peersChangedPatch.value);
      }
    }

    method ApplyDelta(ps: AddrParsers, resp: MapResponse)
      modifies this
      ensures Value() == NetmapModel.ApplyDelta(ps, old(Value()), resp)
    {
      if resp.node.Some? {
        if NodeIsValid(ps, resp.node.value) {
          selfNode := resp.node.value;
        }
      }
      ApplyPeers(ps, resp);
      if resp.dnsConfig.Some? {
        dnsConfig := Some(SanitizeDns(ps, resp.dnsConfig.value));
      }
      if resp.derpMap.Some? {
        derpMap := resp.derpMap;
      }
    }
  }

  /** The fields a patch may set, each under its own check. */
  method PatchFields(ps: AddrParsers, target: Node, change: PeerChange) returns (peer: Node)
    ensures peer == PatchNode(ps, target, change)
  {
    peer := target;
    if change.derpRegion.Some? && change.derpRegion.value > 0 {
      peer := peer.(derp := Some(DerpAddress(change.derpRegion.value)));
    }
    ghost var region := AcceptedRegion(change);
    assert peer == target.(derp := if region.Some? then Some(DerpAddress(region.value)) else target.derp);
    ghost var p1 := peer;
    if change.cap.Some? && change.cap.value > 0 {
      peer := peer.(cap := change.cap);
    }
    assert peer == p1.(cap := OrElse(AcceptedCap(change), p1.cap));
    ghost var p2 := peer;
    if change.endpoints.Some? && change.endpoints.value != [] {
      if AreValidEndpoints(ps, change.endpoints.value) {
        peer := peer.(endpoints := change.endpoints);
      }
    }
    assert peer == p2.(endpoints := OrElse(AcceptedEndpoints(ps, change), p2.endpoints));
    ghost var p3 := peer;
    if change.key.Some? {
      if IsValidNodeKey(change.key.value) {
        peer := peer.(key := change.key.value);
      }
    }
    ghost var key := AcceptedKey(change);
    assert peer == p3.(key := if key.Some? then key.value else p3.key);
    ghost var p4 := peer;
    if change.discoKey.Some? {
      if IsValidDiscoKey(change.discoKey.value) {
        peer := peer.(discoKey := change.discoKey);
      }
    }
    assert peer == p4.(discoKey := OrElse(AcceptedDiscoKey(change), p4.discoKey));
    peer := PatchPresence(peer, change);
  }

  /** The three fields a patch sets unchecked. */
  method PatchPresence(target: Node, change: PeerChange) returns (peer: Node)
    ensures peer == target.(online := OrElse(change.online, target.online),
                            lastSeen := OrElse(change.lastSeen, target.lastSeen),
                            keyExpiry := OrElse(change.keyExpiry, target.keyExpiry))
  {
    peer := target;
    if change.online.Some? {
      peer := peer.(online := change.online);
    }
    if change.lastSeen.Some? {
      peer := peer.(lastSeen := change.lastSeen);
    }
    if change.keyExpiry.Some? {
      peer := peer.(keyExpiry := change.keyExpiry);
    }
  }

  class ControlClient {
    var netmap: Netmap?

    ghost function Value(): Option<NetmapValue>
      reads this, netmap
    {
      if netmap == null then None else Some(netmap.Value())
    }

    ghost predicate Valid(ps: AddrParsers)
      reads this, netmap
    {
      Value().Some? ==> NetmapRuns.Inv(ps, Value().value)
    }

    constructor ()
      ensures Value() == None
      ensures forall ps :: Valid(ps)
    {
      netmap := null;
    }

    method ApplyMapResponse(ps: AddrParsers, resp: MapResponse)
      modifies this, netmap
      ensures netmap == old(netmap) || fresh(netmap)
      ensures Value() == NetmapModel.ApplyMapResponse(ps, old(Value()), resp)
      ensures old(Valid(ps)) ==> Valid(ps)
    {
      if Value().Some? && Valid(ps) {
        NetmapRuns.DeltaKeepsInv(ps, Value().value, resp);
      }
      if resp.keepAlive == Some(true) {
        return;
      }
      if netmap == null {
        netmap := new Netmap.FromFullResponse(ps, resp);
      } else {
        netmap.ApplyDelta(ps, resp);
      }
    }
  }
}
