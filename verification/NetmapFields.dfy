/** What patches do to a peer, field by field: `apply_peer_change` in
  * crates/dictyon/src/control/netmap.rs.
  */
module NetmapFields {
  import opened Prelude
  import opened Validate
  import opened NetmapModel
  import opened NetmapPatch
  import Capability
  import Keys

  // ----- what a patch offers

  function RegionOf(c: PeerChange): Option<int> { c.derpRegion }

  function CapOf(c: PeerChange): Option<nat> { c.cap }

  function EndpointsOf(c: PeerChange): Option<seq<Text>> { c.endpoints }

  function KeyOf(c: PeerChange): Option<Text> { c.key }

  function DiscoKeyOf(c: PeerChange): Option<Text> { c.discoKey }

  // ----- what is acceptable

  predicate IsPositiveRegion(region: int) { region > 0 }

  predicate IsPositiveCap(cap: nat) { cap > 0 }

  function AreEndpoints(ps: AddrParsers): seq<Text> -> bool {
    (v: seq<Text>) => v != [] && forall i | 0 <= i < |v| :: ps.parseSocket(v[i])
  }

  predicate IsNodeKeyText(s: Text) { Keys.IsHexKey("nodekey:", s) }

  predicate IsDiscoKeyText(s: Text) { Keys.IsHexKey("discokey:", s) }

  predicate Anything<T>(v: T) { true }

  /** What the first peer of an id becomes under that id's patches: per field the last acceptable
    * value sent or, if there is none, the old one. `region` is the last relay region.
    */
  ghost predicate IsPatchedNode(ps: AddrParsers, p: Node, mine: seq<PeerChange>, region: Option<int>, now: Node) {
    && now.id == p.id && now.stableId == p.stableId && now.machine == p.machine && now.name == p.name
    && now.tags == p.tags && now.addresses == p.addresses && now.allowedIps == p.allowedIps
    && TakesLast(mine, RegionOf, IsPositiveRegion, None, region)
    && now.derp == (if region.Some? && region.value > 0
                    then Some(Ascii("127.3.3.40:") + Capability.Decimal(region.value)) else p.derp)
    && TakesLast(mine, CapOf, IsPositiveCap, p.cap, now.cap)
    && TakesLast(mine, EndpointsOf, AreEndpoints(ps), p.endpoints, now.endpoints)
    && TakesLast(mine, KeyOf, IsNodeKeyText, Some(p.key), Some(now.key))
    && TakesLast(mine, DiscoKeyOf, IsDiscoKeyText, p.discoKey, now.discoKey)
    && TakesLast(mine, OnlineField, Anything, p.online, now.online)
    && TakesLast(mine, LastSeenField, Anything, p.lastSeen, now.lastSeen)
    && TakesLast(mine, KeyExpiryField, Anything, p.keyExpiry, now.keyExpiry)
  }

  /** The filters of the code are those. */
  lemma FiltersAreThose(ps: AddrParsers, c: PeerChange)
    ensures AcceptedRegion(c) == if Passes(RegionOf(c), IsPositiveRegion) then RegionOf(c) else None
    ensures AcceptedCap(c) == if Passes(CapOf(c), IsPositiveCap) then CapOf(c) else None
    ensures EndpointsField(ps)(c) == if Passes(EndpointsOf(c), AreEndpoints(ps)) then EndpointsOf(c) else None
    ensures AcceptedKey(c) == if Passes(KeyOf(c), IsNodeKeyText) then KeyOf(c) else None
    ensures AcceptedDiscoKey(c) == if Passes(DiscoKeyOf(c), IsDiscoKeyText) then DiscoKeyOf(c) else None
  {
    hide Keys.IsKeyText, Keys.IsHexKey;
    if c.key.Some? { Keys.AcceptedTexts(Keys.NodeKey, c.key.value); }
    if c.discoKey.Some? { Keys.AcceptedTexts(Keys.Disco, c.discoKey.value); }
  }

  /** Per field the last acceptable value, over any list of patches. */
  lemma CheckedFieldsTakeLast(ps: AddrParsers, p: Node, mine: seq<PeerChange>)
    ensures TakesLast(mine, RegionOf, IsPositiveRegion, None, Latest(AcceptedRegion, mine))
    ensures TakesLast(mine, CapOf, IsPositiveCap, p.cap, OrElse(Latest(AcceptedCap, mine), p.cap))
    ensures TakesLast(mine, EndpointsOf, AreEndpoints(ps), p.endpoints,
                      OrElse(Latest(EndpointsField(ps), mine), p.endpoints))
  {
    forall i | 0 <= i < |mine|
      ensures AcceptedRegion(mine[i]) == if Passes(RegionOf(mine[i]), IsPositiveRegion) then RegionOf(mine[i]) else None
      ensures AcceptedCap(mine[i]) == if Passes(CapOf(mine[i]), IsPositiveCap) then CapOf(mine[i]) else None
      ensures EndpointsField(ps)(mine[i])
              == if Passes(EndpointsOf(mine[i]), AreEndpoints(ps)) then EndpointsOf(mine[i]) else None
    {
      FiltersAreThose(ps, mine[i]);
    }
    hide TakesLast;
    TakesLatest(mine, RegionOf, IsPositiveRegion, AcceptedRegion, None);
    TakesLatest(mine, CapOf, IsPositiveCap, AcceptedCap, p.cap);
    TakesLatest(mine, EndpointsOf, AreEndpoints(ps), EndpointsField(ps), p.endpoints);
  }

  lemma KeyFieldsTakeLast(ps: AddrParsers, p: Node, mine: seq<PeerChange>)
    ensures TakesLast(mine, KeyOf, IsNodeKeyText, Some(p.key), OrElse(Latest(AcceptedKey, mine), Some(p.key)))
    ensures TakesLast(mine, DiscoKeyOf, IsDiscoKeyText, p.discoKey, OrElse(Latest(AcceptedDiscoKey, mine), p.discoKey))
  {
    forall i | 0 <= i < |mine|
      ensures AcceptedKey(mine[i]) == if Passes(KeyOf(mine[i]), IsNodeKeyText) then KeyOf(mine[i]) else None
      ensures AcceptedDiscoKey(mine[i])
              == if Passes(DiscoKeyOf(mine[i]), IsDiscoKeyText) then DiscoKeyOf(mine[i]) else None
    {
      FiltersAreThose(ps, mine[i]);
    }
    hide TakesLast, IsNodeKeyText, IsDiscoKeyText, AcceptedKey, AcceptedDiscoKey;
    TakesLatest(mine, KeyOf, IsNodeKeyText, AcceptedKey, Some(p.key));
    TakesLatest(mine, DiscoKeyOf, IsDiscoKeyText, AcceptedDiscoKey, p.discoKey);
  }

  lemma PresenceTakesLast(p: Node, mine: seq<PeerChange>)
    ensures TakesLast(mine, OnlineField, Anything, p.online, OrElse(Latest(OnlineField, mine), p.online))
    ensures TakesLast(mine, LastSeenField, Anything, p.lastSeen, OrElse(Latest(LastSeenField, mine), p.lastSeen))
    ensures TakesLast(mine, KeyExpiryField, Anything, p.keyExpiry, OrElse(Latest(KeyExpiryField, mine), p.keyExpiry))
  {
    hide TakesLast;
    TakesLatest(mine, OnlineField, Anything, OnlineField, p.online);
    TakesLatest(mine, LastSeenField, Anything, LastSeenField, p.lastSeen);
    TakesLatest(mine, KeyExpiryField, Anything, KeyExpiryField, p.keyExpiry);
  }

  lemma CollapseIsPatched(ps: AddrParsers, p: Node, mine: seq<PeerChange>)
    ensures IsPatchedNode(ps, p, mine, Latest(AcceptedRegion, mine), PatchNode(ps, p, Collapsed(ps, p.id, mine)))
  {
    CollapsedIsAccepted(ps, p.id, mine);
    CheckedFieldsTakeLast(ps, p, mine);
    KeyFieldsTakeLast(ps, p, mine);
    PresenceTakesLast(p, mine);
    hide TakesLast, IsValidNodeKey, IsValidDiscoKey, AreValidEndpoints, Latest, Capability.Decimal;
  }

  /** A patch list in closed form, field by field. */
  lemma PatchedFields(ps: AddrParsers, peers: seq<Node>, cs: seq<PeerChange>, i: nat)
    requires i < |peers|
    ensures |PatchAll(ps, peers, cs)| == |peers|
    ensures var mine := ForId(cs, peers[i].id);
            if forall j | 0 <= j < i :: peers[j].id != peers[i].id
            then IsPatchedNode(ps, peers[i], mine, Latest(AcceptedRegion, mine), PatchAll(ps, peers, cs)[i])
            else PatchAll(ps, peers, cs)[i] == peers[i]
  {
    hide PatchAll, IsPatchedNode;
    var id := peers[i].id;
    PatchClosedForm(ps, peers, cs);
    assert PatchAll(ps, peers, cs)[i] == PatchedAt(ps, peers, cs, i);
    assert IdsOf(peers)[i] == id;
    CollapseIsPatched(ps, peers[i], ForId(cs, id));
  }

  /** The patches for an id are those of the list with that id, in order. */
  lemma ForIdInOrder(cs: seq<PeerChange>, id: int) returns (at: seq<nat>)
    ensures IsSelection(cs, ForId(cs, id), at)
    ensures forall i: nat | i < |cs| :: i in at <==> cs[i].nodeId == id
  {
    at := SelectInOrder(cs, HasId(id));
  }
}
