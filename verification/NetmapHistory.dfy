/** What a client holds in terms of the messages it was sent: the settings after a run, and the
  * peers after each message of one.
  */
module NetmapHistory {
  import opened Prelude
  import opened Validate
  import opened NetmapModel
  import opened NetmapRuns
  import opened NetmapPatch
  import opened NetmapFields
  import NetmapUpsert
  import NetmapRemoval

  // ----- what a message sends

  function DerpSent(r: MapResponse): Option<DerpMap> {
    if r.keepAlive == Some(true) then None else r.derpMap
  }

  function DnsSent(r: MapResponse): Option<DnsConfig> {
    if r.keepAlive == Some(true) then None else r.dnsConfig
  }

  function NodeSent(ps: AddrParsers): MapResponse -> Option<Node> {
    (r: MapResponse) =>
      if r.keepAlive == Some(true) || r.node.None? || !NodeIsValid(ps, r.node.value) then None else r.node
  }

  /** The config as sent, less the resolvers that are neither an address nor a socket address. */
  ghost predicate IsSanitized(ps: AddrParsers, sent: DnsConfig, kept: DnsConfig) {
    && kept.domains == sent.domains && (kept.resolvers.Some? <==> sent.resolvers.Some?)
    && (sent.resolvers.Some? ==>
          exists at: seq<nat> :: KeepsResolvers(ps, sent.resolvers.value, kept.resolvers.value, at))
  }

  ghost predicate KeepsResolvers(ps: AddrParsers, sent: seq<DnsResolver>, kept: seq<DnsResolver>, at: seq<nat>) {
    && IsSelection(sent, kept, at)
    && forall i: nat | i < |sent| :: i in at <==> ps.parseIp(sent[i].addr).Some? || ps.parseSocket(sent[i].addr)
  }

  lemma SanitizedIsSanitized(ps: AddrParsers, dns: DnsConfig)
    ensures IsSanitized(ps, dns, SanitizeDns(ps, dns))
  {
    var at := SanitizeKeepsValid(ps, dns);
    if dns.resolvers.Some? {
      assert KeepsResolvers(ps, dns.resolvers.value, SanitizeDns(ps, dns).resolvers.value, at);
    }
  }

  ghost predicate IsZeroValued(n: Node) {
    && n.id == 0 && n.key == [] && n.name == [] && n.addresses == []
    && n.stableId.None? && n.machine.None? && n.cap.None? && n.tags.None? && n.allowedIps.None?
    && n.endpoints.None? && n.derp.None? && n.discoKey.None? && n.keyExpiry.None? && n.lastSeen.None? && n.online.None?
  }

  /** The self node is this one or zero-valued, the DNS config this one sanitised, the DERP map
    * this one.
    */
  ghost predicate Holds(ps: AddrParsers, node: Option<Node>, dns: Option<DnsConfig>, derp: Option<DerpMap>,
                        m: NetmapValue)
  {
    && (if node.Some? then m.selfNode == node.value else IsZeroValued(m.selfNode))
    && (if dns.Some? then m.dnsConfig.Some? && IsSanitized(ps, dns.value, m.dnsConfig.value) else m.dnsConfig.None?)
    && m.derpMap == derp
  }

  /** Self node, DNS config and DERP map are the last ones sent, the self node the last valid one. */
  ghost predicate HoldsLatest(ps: AddrParsers, rs: seq<MapResponse>, m: NetmapValue) {
    Holds(ps, Latest(NodeSent(ps), rs), Latest(DnsSent, rs), Latest(DerpSent, rs), m)
  }

  lemma {:induction false} RunHoldsLatest(ps: AddrParsers, rs: seq<MapResponse>)
    ensures if Run(ps, None, rs).Some? then HoldsLatest(ps, rs, Run(ps, None, rs).value)
            else forall i | 0 <= i < |rs| :: rs[i].keepAlive == Some(true)
  {
    hide HoldsLatest, ApplyMapResponse;
    if rs != [] {
      var init, r := rs[..|rs| - 1], rs[|rs| - 1];
      RunHoldsLatest(ps, init);
      assert rs == init + [r];
      match Run(ps, None, init)
      case Some(m) => LatestAfter(ps, init, m, r);
      case None => LatestAtFirst(ps, init, r);
    }
  }

  lemma LatestOfMore(ps: AddrParsers, rs: seq<MapResponse>, r: MapResponse)
    ensures Latest(NodeSent(ps), rs + [r]) == OrElse(NodeSent(ps)(r), Latest(NodeSent(ps), rs))
    ensures Latest(DnsSent, rs + [r]) == OrElse(DnsSent(r), Latest(DnsSent, rs))
    ensures Latest(DerpSent, rs + [r]) == OrElse(DerpSent(r), Latest(DerpSent, rs))
  {
    hide Latest;
    LatestSnoc(NodeSent(ps), rs, r);
    LatestSnoc(DnsSent, rs, r);
    LatestSnoc(DerpSent, rs, r);
  }

  lemma HoldsAfter(ps: AddrParsers, node: Option<Node>, dns: Option<DnsConfig>, derp: Option<DerpMap>, m: NetmapValue,
                   r: MapResponse)
    requires Holds(ps, node, dns, derp, m)
    ensures var now := ApplyMapResponse(ps, Some(m), r);
            && now.Some?
            && Holds(ps, OrElse(NodeSent(ps)(r), node), OrElse(DnsSent(r), dns), OrElse(DerpSent(r), derp), now.value)
  {
    if r.dnsConfig.Some? { SanitizedIsSanitized(ps, r.dnsConfig.value); }
    hide NodeIsValid, IsSanitized, SanitizeDns, PeersAfter, IsZeroValued;
  }

  lemma HoldsAtFirst(ps: AddrParsers, r: MapResponse)
    requires r.keepAlive != Some(true)
    ensures var first := ApplyMapResponse(ps, None, r);
            first.Some? && Holds(ps, NodeSent(ps)(r), DnsSent(r), DerpSent(r), first.value)
  {
    if r.dnsConfig.Some? { SanitizedIsSanitized(ps, r.dnsConfig.value); }
    hide NodeIsValid, IsSanitized, SanitizeDns, AdmitList;
  }

  lemma LatestAfter(ps: AddrParsers, rs: seq<MapResponse>, m: NetmapValue, r: MapResponse)
    requires HoldsLatest(ps, rs, m)
    ensures ApplyMapResponse(ps, Some(m), r).Some?
    ensures HoldsLatest(ps, rs + [r], ApplyMapResponse(ps, Some(m), r).value)
  {
    hide Holds, ApplyMapResponse, Latest;
    HoldsAfter(ps, Latest(NodeSent(ps), rs), Latest(DnsSent, rs), Latest(DerpSent, rs), m, r);
    LatestOfMore(ps, rs, r);
  }

  lemma LatestAtFirst(ps: AddrParsers, rs: seq<MapResponse>, r: MapResponse)
    requires forall i | 0 <= i < |rs| :: rs[i].keepAlive == Some(true)
    ensures var first := ApplyMapResponse(ps, None, r);
            if first.Some? then HoldsLatest(ps, rs + [r], first.value)
            else forall i | 0 <= i < |rs + [r]| :: (rs + [r])[i].keepAlive == Some(true)
  {
    hide Holds, Latest, FromFullResponse;
    if r.keepAlive != Some(true) {
      HoldsAtFirst(ps, r);
      NothingSent(ps, rs);
      LatestOfMore(ps, rs, r);
      NothingElse(NodeSent(ps)(r));
      NothingElse(DnsSent(r));
      NothingElse(DerpSent(r));
    }
  }

  lemma NothingElse<T>(a: Option<T>)
    ensures OrElse(a, None) == a
  {
  }

  lemma NothingSent(ps: AddrParsers, rs: seq<MapResponse>)
    requires forall i | 0 <= i < |rs| :: rs[i].keepAlive == Some(true)
    ensures Latest(NodeSent(ps), rs).None? && Latest(DnsSent, rs).None? && Latest(DerpSent, rs).None?
  {
  }

  // ----- what each message does to the peers

  /** The first 10,000 valid ones, in order. */
  ghost predicate AreFirstValid(ps: AddrParsers, ns: seq<Node>, out: seq<Node>, at: seq<nat>) {
    && IsSelection(ns, out, at) && |at| <= 10_000
    && (forall i: nat | i in at :: i < |ns| && NodeIsValid(ps, ns[i]))
    && (forall i: nat | i < |ns| && NodeIsValid(ps, ns[i]) && i !in at :: |at| == 10_000 && forall j | j in at :: j < i)
  }

  /** All but the named ones, in order. */
  ghost predicate AreUnnamed(rs: seq<PeerRemoval>, ns: seq<Node>, out: seq<Node>, at: seq<nat>) {
    && IsSelection(ns, out, at)
    && forall i: nat | i < |ns| :: i in at <==> NodeId(ns[i].id) !in rs && NodeKey(ns[i].key) !in rs
  }

  /** The peers a patch list leaves; `regions[i]` is the last relay region sent for peer `i`. */
  ghost predicate ArePatched(ps: AddrParsers, peers: seq<Node>, cs: seq<PeerChange>, out: seq<Node>,
                             regions: seq<Option<int>>)
  {
    && |out| == |peers| == |regions|
    && forall i | 0 <= i < |peers| ::
         if forall j | 0 <= j < i :: peers[j].id != peers[i].id
         then IsPatchedNode(ps, peers[i], ForId(cs, peers[i].id), regions[i], out[i])
         else out[i] == peers[i]
  }

  /** The lists a message goes through, and where the entries of each come from. */
  datatype Stages = Stages(
    listed: seq<Node>, listedAt: seq<nat>, upserted: seq<Node>, kept: seq<Node>, keptAt: seq<nat>,
    regions: seq<Option<int>>)

  /** The peers after a message, from those before it: a full list replaces them, changes are
    * upserted, removals taken out and patches applied, in this order, each if it is there.
    */
  ghost predicate FollowsFrom(ps: AddrParsers, peers: seq<Node>, r: MapResponse, out: seq<Node>, t: Stages) {
    && (if r.peers.Some? then AreFirstValid(ps, r.peers.value, t.listed, t.listedAt) else t.listed == peers)
    && (if r.peersChanged.Some? then NetmapUpsert.IsClosedForm(ps, t.listed, r.peersChanged.value, t.upserted)
        else t.upserted == t.listed)
    && (if r.peersRemoved.Some? then AreUnnamed(r.peersRemoved.value, t.upserted, t.kept, t.keptAt)
        else t.kept == t.upserted)
    && (if r.peersChangedPatch.Some? then ArePatched(ps, t.kept, r.peersChangedPatch.value, out, t.regions)
        else out == t.kept)
  }

  lemma ListedAreFirst(ps: AddrParsers, ns: seq<Node>) returns (at: seq<nat>)
    ensures AreFirstValid(ps, ns, AdmitList(ps, ns), at)
  {
    hide NodeIsValid;
    at := NetmapRemoval.AdmittedAreFirstValid(ps, ns);
    assert forall n :: NodeCheck(ps)(n) == NodeIsValid(ps, n);
  }

  lemma SurvivorsAreUnnamed(rs: seq<PeerRemoval>, ns: seq<Node>) returns (at: seq<nat>)
    ensures AreUnnamed(rs, ns, Survivors(rs, ns), at)
  {
    at := NetmapRemoval.SurvivorsInOrder(rs, ns);
    forall i: nat | i < |ns| ensures i in at <==> NodeId(ns[i].id) !in rs && NodeKey(ns[i].key) !in rs {
      NetmapRemoval.RemovesByMembership(rs, ns[i]);
    }
  }

  lemma {:induction false} AllArePatched(ps: AddrParsers, peers: seq<Node>, cs: seq<PeerChange>)
    returns (regions: seq<Option<int>>)
    ensures ArePatched(ps, peers, cs, PatchAll(ps, peers, cs), regions)
  {
    hide PatchAll, IsPatchedNode;
    regions := seq(|peers|, i requires 0 <= i < |peers| => Latest(AcceptedRegion, ForId(cs, peers[i].id)));
    PatchClosedForm(ps, peers, cs);
    forall i | 0 <= i < |peers|
      ensures if forall j | 0 <= j < i :: peers[j].id != peers[i].id
              then IsPatchedNode(ps, peers[i], ForId(cs, peers[i].id), regions[i], PatchAll(ps, peers, cs)[i])
              else PatchAll(ps, peers, cs)[i] == peers[i]
    {
      PatchedFields(ps, peers, cs, i);
    }
  }

  lemma DeltaFollows(ps: AddrParsers, peers: seq<Node>, r: MapResponse) returns (t: Stages)
    requires |peers| <= MAX_PEERS
    ensures FollowsFrom(ps, peers, r, PeersAfter(ps, peers, r), t)
  {
    hide AreFirstValid, AreUnnamed, ArePatched, AdmitList, UpsertAll, Survivors, PatchAll, NetmapUpsert.IsClosedForm;
    var listedAt, keptAt, regions := [], [], [];
    var listed, upserted, kept := AfterList(ps, peers, r), AfterUpserts(ps, peers, r), AfterRemovals(ps, peers, r);
    if r.peers.Some? {
      listedAt := ListedAreFirst(ps, r.peers.value);
      AdmitListIsGood(ps, r.peers.value);
    }
    if r.peersChanged.Some? { NetmapUpsert.UpsertClosedForm(ps, listed, r.peersChanged.value); }
    if r.peersRemoved.Some? { keptAt := SurvivorsAreUnnamed(r.peersRemoved.value, upserted); }
    if r.peersChangedPatch.Some? { regions := AllArePatched(ps, kept, r.peersChangedPatch.value); }
    t := Stages(listed, listedAt, upserted, kept, keptAt, regions);
  }

  function WithoutIncrements(r: MapResponse): MapResponse {
    r.(peersChanged := None, peersRemoved := None, peersChangedPatch := None)
  }

  /** Whatever a client was sent before, each further message that is no keep-alive is applied to
    * the peers it holds; the first one only has its full list taken.
    */
  lemma RunAppliesEach(ps: AddrParsers, rs: seq<MapResponse>, r: MapResponse) returns (t: Stages)
    requires r.keepAlive != Some(true)
    ensures Run(ps, None, rs + [r]).Some?
    ensures var before, now := Run(ps, None, rs), Run(ps, None, rs + [r]).value;
            if before.Some? then FollowsFrom(ps, before.value.peers, r, now.peers, t)
            else FollowsFrom(ps, [], WithoutIncrements(r), now.peers, t)
  {
    RunSnoc(ps, None, rs, r);
    RunKeepsInv(ps, rs);
    hide FollowsFrom, PeersAfter, NodeIsValid;
    match Run(ps, None, rs)
    case Some(m) =>
      t := DeltaFollows(ps, m.peers, r);
    case None =>
      IngestionPathsAgree(ps, r);
      t := DeltaFollows(ps, [], WithoutIncrements(r));
  }

  /** Every peer of every run is well-formed, and there are at most 10,000. */
  lemma RunPeersAreWellFormed(ps: AddrParsers, rs: seq<MapResponse>, i: nat)
    requires Run(ps, None, rs).Some? && i < |Run(ps, None, rs).value.peers|
    ensures |Run(ps, None, rs).value.peers| <= 10_000
    ensures IsWellFormed(ps, Run(ps, None, rs).value.peers[i])
  {
    RunKeepsInv(ps, rs);
    ValidIsWellFormed(ps, Run(ps, None, rs).value.peers[i]);
  }
}
