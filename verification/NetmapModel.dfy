/** The values a netmap holds and what each message does to them:
  * crates/dictyon/src/control/netmap.rs on the records of crates/mitos/src/types/mod.rs.
  *
  * These functions are the specification that the in-place methods of `NetmapClient` meet.
  */
module NetmapModel {
  import opened Prelude
  import opened Validate
  import Capability

  const MAX_PEERS: nat := 10_000

  /** Opaque JSON, kept as its text. */
  type Json = Text

  datatype DnsConfig = DnsConfig(resolvers: Option<seq<DnsResolver>>, domains: Option<seq<Text>>)

  datatype DerpMap = DerpMap(regions: Option<Json>)

  datatype PeerChange = PeerChange(
    nodeId: int,
    derpRegion: Option<int>,
    cap: Option<nat>,
    capMap: Option<Json>,
    endpoints: Option<seq<Text>>,
    key: Option<Text>,
    discoKey: Option<Text>,
    online: Option<bool>,
    lastSeen: Option<Text>,
    keyExpiry: Option<Text>)

  /** `Unrecognized` stands for the variants a later release of the wire crate may add. */
  datatype PeerRemoval = NodeId(id: int) | NodeKey(key: Text) | Unrecognized

  datatype MapResponse = MapResponse(
    node: Option<Node>,
    peers: Option<seq<Node>>,
    peersChanged: Option<seq<Node>>,
    peersChangedPatch: Option<seq<PeerChange>>,
    peersRemoved: Option<seq<PeerRemoval>>,
    dnsConfig: Option<DnsConfig>,
    derpMap: Option<DerpMap>,
    keepAlive: Option<bool>)

  datatype NetmapValue = NetmapValue(selfNode: Node, peers: seq<Node>,
                                     dnsConfig: Option<DnsConfig>, derpMap: Option<DerpMap>)

  function ZeroValueNode(): Node {
    Node(0, None, [], None, [], None, None, [], None, None, None, None, None, None, None)
  }

  // ----- whole lists from the server

  function NodeCheck(ps: AddrParsers): Node -> bool {
    n => NodeIsValid(ps, n)
  }

  function ValidNodes(ps: AddrParsers, ns: seq<Node>): seq<Node> {
    Select(ns, NodeCheck(ps))
  }

  function CapPeers(ns: seq<Node>): seq<Node> {
    if |ns| > MAX_PEERS then ns[..MAX_PEERS] else ns
  }

  function AdmitList(ps: AddrParsers, ns: seq<Node>): seq<Node> {
    CapPeers(ValidNodes(ps, ns))
  }

  function ResolverCheck(ps: AddrParsers): DnsResolver -> bool {
    r => ResolverIsValid(ps, r)
  }

  function ValidResolvers(ps: AddrParsers, rs: seq<DnsResolver>): seq<DnsResolver> {
    Select(rs, ResolverCheck(ps))
  }

  function SanitizeDns(ps: AddrParsers, dns: DnsConfig): DnsConfig {
    match dns.resolvers
    case None => dns
    case Some(rs) => dns.(resolvers := Some(ValidResolvers(ps, rs)))
  }

  // ----- upserts

  function KeysOf(ns: seq<Node>): (ks: seq<Text>)
    ensures |ks| == |ns|
  {
    seq(|ns|, i requires 0 <= i < |ns| => ns[i].key)
  }

  function FirstWithKey(ns: seq<Node>, key: Text): (r: Option<nat>)
    ensures r.None? <==> key !in KeysOf(ns)
    ensures r.Some? ==> r.value < |ns| && ns[r.value].key == key && forall j | 0 <= j < r.value :: ns[j].key != key
  {
    if ns == [] then None else
    var front := FirstWithKey(ns[..|ns| - 1], key);
    assert KeysOf(ns) == KeysOf(ns[..|ns| - 1]) + [ns[|ns| - 1].key];
    if front.Some? then front
    else if ns[|ns| - 1].key == key then
      assert forall j | 0 <= j < |ns| - 1 :: KeysOf(ns[..|ns| - 1])[j] == ns[j].key;
      Some(|ns| - 1)
    else None
  }

  /** One entry of `peers_changed`. */
  function Upsert(ps: AddrParsers, peers: seq<Node>, c: Node): seq<Node> {
    if !NodeIsValid(ps, c) then peers
    else
      match FirstWithKey(peers, c.key)
      case Some(i) => peers[i := c]
      case None => if |peers| < MAX_PEERS then peers + [c] else peers
  }

  function UpsertAll(ps: AddrParsers, peers: seq<Node>, cs: seq<Node>): seq<Node> {
    if cs == [] then peers
    else Upsert(ps, UpsertAll(ps, peers, cs[..|cs| - 1]), cs[|cs| - 1])
  }

  // ----- removals

  /** Does the list name this peer? The plain reading, by a scan of the whole list. */
  predicate Removes(rs: seq<PeerRemoval>, peer: Node) {
    exists i | 0 <= i < |rs| :: rs[i] == NodeId(peer.id) || rs[i] == NodeKey(peer.key)
  }

  function NotRemoved(rs: seq<PeerRemoval>): Node -> bool {
    n => !Removes(rs, n)
  }

  function Survivors(rs: seq<PeerRemoval>, ns: seq<Node>): seq<Node> {
    Select(ns, NotRemoved(rs))
  }

  // ----- patches

  function DerpAddress(region: int): Text
    requires region > 0
  {
    Ascii("127.3.3.40:") + Capability.Decimal(region)
  }

  /** The parts of a patch that its target takes on; the others are ignored. */
  function AcceptedRegion(c: PeerChange): Option<int> {
    if c.derpRegion.Some? && c.derpRegion.value > 0 then c.derpRegion else None
  }

  function AcceptedCap(c: PeerChange): Option<nat> {
    if c.cap.Some? && c.cap.value > 0 then c.cap else None
  }

  function AcceptedEndpoints(ps: AddrParsers, c: PeerChange): Option<seq<Text>> {
    if c.endpoints.Some? && c.endpoints.value != [] && AreValidEndpoints(ps, c.endpoints.value)
    then c.endpoints else None
  }

  function AcceptedKey(c: PeerChange): Option<Text> {
    if c.key.Some? && IsValidNodeKey(c.key.value) then c.key else None
  }

  function AcceptedDiscoKey(c: PeerChange): Option<Text> {
    if c.discoKey.Some? && IsValidDiscoKey(c.discoKey.value) then c.discoKey else None
  }

  function OrElse<T>(a: Option<T>, b: Option<T>): Option<T> {
    if a.Some? then a else b
  }

  function PatchNode(ps: AddrParsers, p: Node, c: PeerChange): Node {
    var region := AcceptedRegion(c);
    var key := AcceptedKey(c);
    p.(derp := if region.Some? then Some(DerpAddress(region.value)) else p.derp,
       cap := OrElse(AcceptedCap(c), p.cap),
       endpoints := OrElse(AcceptedEndpoints(ps, c), p.endpoints),
       key := if key.Some? then key.value else p.key,
       discoKey := OrElse(AcceptedDiscoKey(c), p.discoKey),
       online := OrElse(c.online, p.online),
       lastSeen := OrElse(c.lastSeen, p.lastSeen),
       keyExpiry := OrElse(c.keyExpiry, p.keyExpiry))
  }

  function IdsOf(ns: seq<Node>): (ids: seq<int>)
    ensures |ids| == |ns|
  {
    seq(|ns|, i requires 0 <= i < |ns| => ns[i].id)
  }

  function FirstWithId(ns: seq<Node>, id: int): (r: Option<nat>)
    ensures r.None? <==> id !in IdsOf(ns)
    ensures r.Some? ==> r.value < |ns| && ns[r.value].id == id && forall j | 0 <= j < r.value :: ns[j].id != id
  {
    if ns == [] then None else
    var front := FirstWithId(ns[..|ns| - 1], id);
    assert IdsOf(ns) == IdsOf(ns[..|ns| - 1]) + [ns[|ns| - 1].id];
    if front.Some? then front
    else if ns[|ns| - 1].id == id then
      assert forall j | 0 <= j < |ns| - 1 :: IdsOf(ns[..|ns| - 1])[j] == ns[j].id;
      Some(|ns| - 1)
    else None
  }

  /** One entry of `peers_changed_patch`: the first peer with that id, if any. */
  function Patch(ps: AddrParsers, peers: seq<Node>, c: PeerChange): seq<Node> {
    match FirstWithId(peers, c.nodeId)
    case None => peers
    case Some(i) => peers[i := PatchNode(ps, peers[i], c)]
  }

  function PatchAll(ps: AddrParsers, peers: seq<Node>, cs: seq<PeerChange>): seq<Node> {
    if cs == [] then peers
    else Patch(ps, PatchAll(ps, peers, cs[..|cs| - 1]), cs[|cs| - 1])
  }

  // ----- messages

  function SelfAfter(ps: AddrParsers, current: Node, sent: Option<Node>): Node {
    if sent.Some? && NodeIsValid(ps, sent.value) then sent.value else current
  }

  function FromFullResponse(ps: AddrParsers, r: MapResponse): NetmapValue {
    NetmapValue(
      SelfAfter(ps, ZeroValueNode(), r.node),
      if r.peers.Some? then AdmitList(ps, r.peers.value) else [],
      if r.dnsConfig.Some? then Some(SanitizeDns(ps, r.dnsConfig.value)) else None,
      r.derpMap)
  }

  /** The peer list after each stage of a delta. */
  function AfterList(ps: AddrParsers, peers: seq<Node>, r: MapResponse): seq<Node> {
    if r.peers.Some? then AdmitList(ps, r.peers.value) else peers
  }

  function AfterUpserts(ps: AddrParsers, peers: seq<Node>, r: MapResponse): seq<Node> {
    var base := AfterList(ps, peers, r);
    if r.peersChanged.Some? then UpsertAll(ps, base, r.peersChanged.value) else base
  }

  function AfterRemovals(ps: AddrParsers, peers: seq<Node>, r: MapResponse): seq<Node> {
    var base := AfterUpserts(ps, peers, r);
    if r.peersRemoved.Some? then Survivors(r.peersRemoved.value, base) else base
  }

  function PeersAfter(ps: AddrParsers, peers: seq<Node>, r: MapResponse): seq<Node> {
    var base := AfterRemovals(ps, peers, r);
    if r.peersChangedPatch.Some? then PatchAll(ps, base, r.peersChangedPatch.value) else base
  }

  function ApplyDelta(ps: AddrParsers, m: NetmapValue, r: MapResponse): NetmapValue {
    NetmapValue(
      SelfAfter(ps, m.selfNode, r.node),
      PeersAfter(ps, m.peers, r),
      if r.dnsConfig.Some? then Some(SanitizeDns(ps, r.dnsConfig.value)) else m.dnsConfig,
      OrElse(r.derpMap, m.derpMap))
  }

  /** The client's step: keep-alives are ignored, the first other message is a full map. */
  function ApplyMapResponse(ps: AddrParsers, s: Option<NetmapValue>, r: MapResponse): Option<NetmapValue> {
    if r.keepAlive == Some(true) then s
    else
      match s
      case None => Some(FromFullResponse(ps, r))
      case Some(m) => Some(ApplyDelta(ps, m, r))
  }
}
