/** The netmap over whole runs of map responses, and messages delivered twice. */
module NetmapRuns {
  import opened Prelude
  import opened Validate
  import opened NetmapModel
  import opened NetmapPatch
  import NetmapUpsert
  import NetmapRemoval

  // ----- the invariant

  ghost predicate AllValid(ps: AddrParsers, ns: seq<Node>) {
    forall i | 0 <= i < |ns| :: NodeIsValid(ps, ns[i])
  }

  ghost predicate ResolversValid(ps: AddrParsers, dns: Option<DnsConfig>) {
    dns.Some? && dns.value.resolvers.Some? ==>
      forall i | 0 <= i < |dns.value.resolvers.value| :: ResolverIsValid(ps, dns.value.resolvers.value[i])
  }

  ghost predicate Inv(ps: AddrParsers, m: NetmapValue) {
    && AllValid(ps, m.peers)
    && |m.peers| <= MAX_PEERS
    && (m.selfNode == ZeroValueNode() || NodeIsValid(ps, m.selfNode))
    && ResolversValid(ps, m.dnsConfig)
  }

  lemma AdmitListIsGood(ps: AddrParsers, ns: seq<Node>)
    ensures AllValid(ps, AdmitList(ps, ns)) && |AdmitList(ps, ns)| <= MAX_PEERS
  {
    SelectMembers(ns, NodeCheck(ps));
    forall i | 0 <= i < |AdmitList(ps, ns)| ensures NodeIsValid(ps, AdmitList(ps, ns)[i]) {
      assert AdmitList(ps, ns)[i] in ValidNodes(ps, ns);
      assert NodeCheck(ps)(AdmitList(ps, ns)[i]);
    }
  }

  lemma {:induction false} UpsertAllIsGood(ps: AddrParsers, peers: seq<Node>, cs: seq<Node>)
    requires AllValid(ps, peers) && |peers| <= MAX_PEERS
    ensures AllValid(ps, UpsertAll(ps, peers, cs)) && |UpsertAll(ps, peers, cs)| <= MAX_PEERS
  {
    if cs != [] {
      UpsertAllIsGood(ps, peers, cs[..|cs| - 1]);
    }
  }

  lemma SurvivorsAreGood(ps: AddrParsers, rs: seq<PeerRemoval>, peers: seq<Node>)
    requires AllValid(ps, peers)
    ensures AllValid(ps, Survivors(rs, peers)) && |Survivors(rs, peers)| <= |peers|
  {
    SelectMembers(peers, NotRemoved(rs));
    forall i | 0 <= i < |Survivors(rs, peers)| ensures NodeIsValid(ps, Survivors(rs, peers)[i]) {
      assert Survivors(rs, peers)[i] in peers;
    }
  }

  lemma PatchNodeKeepsValid(ps: AddrParsers, p: Node, c: PeerChange)
    requires NodeIsValid(ps, p)
    ensures NodeIsValid(ps, PatchNode(ps, p, c))
  {
  }

  lemma {:induction false} PatchAllIsGood(ps: AddrParsers, peers: seq<Node>, cs: seq<PeerChange>)
    requires AllValid(ps, peers)
    ensures AllValid(ps, PatchAll(ps, peers, cs)) && |PatchAll(ps, peers, cs)| == |peers|
  {
    if cs != [] {
      var before, c := PatchAll(ps, peers, cs[..|cs| - 1]), cs[|cs| - 1];
      PatchAllIsGood(ps, peers, cs[..|cs| - 1]);
      match FirstWithId(before, c.nodeId)
      case None =>
      case Some(i) => PatchNodeKeepsValid(ps, before[i], c);
    }
  }

  /** Sanitising keeps exactly the valid resolvers, in order, and nothing else changes. */
  lemma SanitizeKeepsValid(ps: AddrParsers, dns: DnsConfig) returns (at: seq<nat>)
    ensures SanitizeDns(ps, dns).domains == dns.domains
    ensures SanitizeDns(ps, dns).resolvers.Some? <==> dns.resolvers.Some?
    ensures dns.resolvers.Some? ==>
              && IsSelection(dns.resolvers.value, SanitizeDns(ps, dns).resolvers.value, at)
              && forall i: nat | i < |dns.resolvers.value| :: i in at <==> ResolverIsValid(ps, dns.resolvers.value[i])
  {
    at := [];
    if dns.resolvers.Some? {
      at := SelectInOrder(dns.resolvers.value, ResolverCheck(ps));
    }
  }

  lemma SanitizedDns(ps: AddrParsers, dns: DnsConfig)
    ensures ResolversValid(ps, Some(SanitizeDns(ps, dns)))
  {
    if dns.resolvers.Some? {
      SelectMembers(dns.resolvers.value, ResolverCheck(ps));
      forall r | r in ValidResolvers(ps, dns.resolvers.value) ensures ResolverIsValid(ps, r) {
        assert ResolverCheck(ps)(r);
      }
    }
  }

  lemma FullResponseEstablishesInv(ps: AddrParsers, r: MapResponse)
    ensures Inv(ps, FromFullResponse(ps, r))
  {
    if r.peers.Some? { AdmitListIsGood(ps, r.peers.value); }
    if r.dnsConfig.Some? { SanitizedDns(ps, r.dnsConfig.value); }
  }

  lemma DeltaKeepsInv(ps: AddrParsers, m: NetmapValue, r: MapResponse)
    requires Inv(ps, m)
    ensures Inv(ps, ApplyDelta(ps, m, r))
    ensures NodeIsValid(ps, m.selfNode) ==> NodeIsValid(ps, ApplyDelta(ps, m, r).selfNode)
  {
    if r.peers.Some? { AdmitListIsGood(ps, r.peers.value); }
    if r.peersChanged.Some? { UpsertAllIsGood(ps, AfterList(ps, m.peers, r), r.peersChanged.value); }
    if r.peersRemoved.Some? { SurvivorsAreGood(ps, r.peersRemoved.value, AfterUpserts(ps, m.peers, r)); }
    if r.peersChangedPatch.Some? { PatchAllIsGood(ps, AfterRemovals(ps, m.peers, r), r.peersChangedPatch.value); }
    if r.dnsConfig.Some? { SanitizedDns(ps, r.dnsConfig.value); }
  }

  // ----- runs

  function Run(ps: AddrParsers, s: Option<NetmapValue>, rs: seq<MapResponse>): Option<NetmapValue> {
    if rs == [] then s else ApplyMapResponse(ps, Run(ps, s, rs[..|rs| - 1]), rs[|rs| - 1])
  }

  lemma RunSnoc(ps: AddrParsers, m: Option<NetmapValue>, rs: seq<MapResponse>, r: MapResponse)
    ensures Run(ps, m, rs + [r]) == ApplyMapResponse(ps, Run(ps, m, rs), r)
  {
  }

  /** Every state a client reaches satisfies the invariant. */
  lemma {:induction false} RunKeepsInv(ps: AddrParsers, rs: seq<MapResponse>)
    ensures Run(ps, None, rs).Some? ==> Inv(ps, Run(ps, None, rs).value)
  {
    if rs != [] {
      var init, r := rs[..|rs| - 1], rs[|rs| - 1];
      RunKeepsInv(ps, init);
      match Run(ps, None, init)
      case None => FullResponseEstablishesInv(ps, r);
      case Some(m) => DeltaKeepsInv(ps, m, r);
    }
  }

  /** The full response that spells out a netmap. */
  function ResponseOf(ps: AddrParsers, m: NetmapValue): MapResponse {
    var node := if NodeIsValid(ps, m.selfNode) then Some(m.selfNode) else None;
    MapResponse(node, Some(m.peers), None, None, None, m.dnsConfig, m.derpMap, None)
  }

  lemma ResponseIsTaken(ps: AddrParsers, m: NetmapValue)
    requires Inv(ps, m)
    ensures FromFullResponse(ps, ResponseOf(ps, m)) == m
  {
    hide NodeIsValid, ResolverIsValid;
    SelectAll(m.peers, NodeCheck(ps));
    if m.dnsConfig.Some? && m.dnsConfig.value.resolvers.Some? {
      SelectAll(m.dnsConfig.value.resolvers.value, ResolverCheck(ps));
    }
  }

  /** And every netmap that satisfies it is reached, by one full response: the invariant is
    * exactly what a client can hold.
    */
  lemma InvIsReached(ps: AddrParsers, m: NetmapValue)
    requires Inv(ps, m)
    ensures Run(ps, None, [ResponseOf(ps, m)]) == Some(m)
  {
    hide Inv, FromFullResponse, ApplyDelta;
    ResponseIsTaken(ps, m);
    assert [ResponseOf(ps, m)][..0] == [];
    assert Run(ps, None, []) == None;
  }

  /** A netmap, once there, stays; a valid self node, once there, stays valid. */
  lemma {:induction false} RunIsMonotone(ps: AddrParsers, rs: seq<MapResponse>, i: nat)
    requires i <= |rs|
    requires Run(ps, None, rs[..i]).Some?
    ensures Run(ps, None, rs).Some?
    ensures NodeIsValid(ps, Run(ps, None, rs[..i]).value.selfNode) ==> NodeIsValid(ps, Run(ps, None, rs).value.selfNode)
    decreases |rs|
  {
    if i == |rs| {
      assert rs[..i] == rs;
    } else {
      var init := rs[..|rs| - 1];
      assert init[..i] == rs[..i];
      RunIsMonotone(ps, init, i);
    }
  }

  predicate IsKeepAlive(r: MapResponse) { r.keepAlive == Some(true) }

  function WithoutKeepAlives(rs: seq<MapResponse>): seq<MapResponse> {
    Select(rs, r => !IsKeepAlive(r))
  }

  /** Keep-alives are invisible wherever they fall, whatever else they carry; and the netmap
    * is present exactly from the first other message on.
    */
  lemma {:induction false} KeepAlivesAreInvisible(ps: AddrParsers, s: Option<NetmapValue>, rs: seq<MapResponse>)
    ensures Run(ps, s, rs) == Run(ps, s, WithoutKeepAlives(rs))
    ensures Run(ps, s, rs).None? <==> s.None? && WithoutKeepAlives(rs) == []
  {
    if rs != [] {
      var init, r := rs[..|rs| - 1], rs[|rs| - 1];
      KeepAlivesAreInvisible(ps, s, init);
      var out := WithoutKeepAlives(rs);
      if IsKeepAlive(r) {
        assert out == WithoutKeepAlives(init);
      } else {
        assert out[..|out| - 1] == WithoutKeepAlives(init) && out[|out| - 1] == r;
      }
    }
  }

  // ----- the two ingestion paths

  function EmptyNetmap(): NetmapValue { NetmapValue(ZeroValueNode(), [], None, None) }

  /** A first message is the delta of its list fields on an empty netmap, so the two paths
    * agree on messages without increments, and the first one drops increments.
    */
  lemma IngestionPathsAgree(ps: AddrParsers, r: MapResponse)
    ensures FromFullResponse(ps, r) ==
            ApplyDelta(ps, EmptyNetmap(), r.(peersChanged := None, peersRemoved := None, peersChangedPatch := None))
    ensures r.peersChanged.None? && r.peersRemoved.None? && r.peersChangedPatch.None?
            ==> FromFullResponse(ps, r) == ApplyDelta(ps, EmptyNetmap(), r)
  {
  }

  // ----- distinct keys

  ghost predicate Distinct(ks: seq<Text>) {
    forall i, j | 0 <= i < j < |ks| :: ks[i] != ks[j]
  }

  /** The guard the code lacks: the patch moves its target onto a key some other peer holds. */
  predicate Collides(peers: seq<Node>, c: PeerChange) {
    var target, key := FirstWithId(peers, c.nodeId), AcceptedKey(c);
    target.Some? && key.Some? && key.value != peers[target.value].key && key.value in KeysOf(peers)
  }

  lemma UpdateKeepsDistinctIff(ks: seq<Text>, i: nat, k: Text)
    requires Distinct(ks) && i < |ks|
    ensures Distinct(ks[i := k]) <==> k == ks[i] || k !in ks
  {
    if k in ks && k != ks[i] {
      var j :| 0 <= j < |ks| && ks[j] == k;
      assert ks[i := k][i] == ks[i := k][j];
    }
  }

  /** One patch keeps distinct keys distinct exactly when it does not collide. */
  lemma PatchKeepsDistinctIff(ps: AddrParsers, peers: seq<Node>, c: PeerChange)
    requires Distinct(KeysOf(peers))
    ensures Distinct(KeysOf(Patch(ps, peers, c))) <==> !Collides(peers, c)
  {
    match FirstWithId(peers, c.nodeId)
    case None =>
    case Some(i) =>
      var patched := PatchNode(ps, peers[i], c);
      NetmapUpsert.KeysOfUpdate(peers, i, patched);
      UpdateKeepsDistinctIff(KeysOf(peers), i, patched.key);
  }

  /** Keys are distinct before, between and after the patches. */
  ghost predicate DistinctThroughout(ps: AddrParsers, peers: seq<Node>, qs: seq<PeerChange>) {
    forall j | 0 <= j <= |qs| :: Distinct(KeysOf(PatchAll(ps, peers, qs[..j])))
  }

  predicate NeverCollides(ps: AddrParsers, peers: seq<Node>, qs: seq<PeerChange>) {
    forall j | 0 <= j < |qs| :: !Collides(PatchAll(ps, peers, qs[..j]), qs[j])
  }

  lemma PatchAllNext(ps: AddrParsers, peers: seq<Node>, qs: seq<PeerChange>, j: nat)
    requires j < |qs|
    ensures PatchAll(ps, peers, qs[..j + 1]) == Patch(ps, PatchAll(ps, peers, qs[..j]), qs[j])
  {
    assert qs[..j + 1][..j] == qs[..j];
  }

  lemma {:induction false} NoCollisionSoFar(ps: AddrParsers, peers: seq<Node>, qs: seq<PeerChange>, j: nat)
    requires Distinct(KeysOf(peers)) && NeverCollides(ps, peers, qs) && j <= |qs|
    ensures Distinct(KeysOf(PatchAll(ps, peers, qs[..j])))
  {
    hide Collides, Patch, Distinct;
    if j > 0 {
      NoCollisionSoFar(ps, peers, qs, j - 1);
      PatchAllNext(ps, peers, qs, j - 1);
      PatchKeepsDistinctIff(ps, PatchAll(ps, peers, qs[..j - 1]), qs[j - 1]);
    }
  }

  /** A patch list does so exactly when no patch of it collides where it is applied. */
  lemma PatchesKeepDistinctIff(ps: AddrParsers, peers: seq<Node>, qs: seq<PeerChange>)
    requires Distinct(KeysOf(peers))
    ensures DistinctThroughout(ps, peers, qs) <==> NeverCollides(ps, peers, qs)
    ensures NeverCollides(ps, peers, qs) ==> Distinct(KeysOf(PatchAll(ps, peers, qs)))
  {
    if NeverCollides(ps, peers, qs) {
      forall j | 0 <= j <= |qs| ensures Distinct(KeysOf(PatchAll(ps, peers, qs[..j]))) {
        NoCollisionSoFar(ps, peers, qs, j);
      }
      assert qs[..|qs|] == qs;
    }
    if DistinctThroughout(ps, peers, qs) {
      forall j | 0 <= j < |qs| ensures !Collides(PatchAll(ps, peers, qs[..j]), qs[j]) {
        PatchAllNext(ps, peers, qs, j);
        PatchKeepsDistinctIff(ps, PatchAll(ps, peers, qs[..j]), qs[j]);
      }
    }
  }

  /** Keys are distinct after every stage of the delta and after every single patch. */
  ghost predicate DistinctAtEveryStage(ps: AddrParsers, peers: seq<Node>, r: MapResponse) {
    && Distinct(KeysOf(AfterList(ps, peers, r)))
    && Distinct(KeysOf(AfterUpserts(ps, peers, r)))
    && DistinctThroughout(ps, AfterRemovals(ps, peers, r), PatchesOf(r))
  }

  function PatchesOf(r: MapResponse): seq<PeerChange> {
    if r.peersChangedPatch.Some? then r.peersChangedPatch.value else []
  }

  /** A delta keeps keys distinct throughout exactly when the list it starts from has distinct
    * keys, which nothing enforces on a full list, and no patch collides where it is applied,
    * which nothing prevents.
    */
  lemma KeysStayDistinctIff(ps: AddrParsers, m: NetmapValue, r: MapResponse)
    requires |m.peers| <= MAX_PEERS
    ensures DistinctAtEveryStage(ps, m.peers, r) <==>
            && Distinct(KeysOf(AfterList(ps, m.peers, r)))
            && NeverCollides(ps, AfterRemovals(ps, m.peers, r), PatchesOf(r))
    ensures DistinctAtEveryStage(ps, m.peers, r) ==> Distinct(KeysOf(ApplyDelta(ps, m, r).peers))
  {
    hide Distinct, NeverCollides, DistinctThroughout, UpsertAll, Survivors, PatchAll;
    if Distinct(KeysOf(AfterList(ps, m.peers, r))) {
      BaseIsDistinct(ps, m.peers, r);
      PatchesKeepDistinctIff(ps, AfterRemovals(ps, m.peers, r), PatchesOf(r));
      NoPatches(ps, AfterRemovals(ps, m.peers, r));
    }
  }

  /** The key the peer at a position ends up with. */
  function FinalKey(peers: seq<Node>, qs: seq<PeerChange>, i: nat): Text
    requires i < |peers|
  {
    var given := LastKey(qs, peers[i].id);
    if given.Some? && FirstWithId(peers, peers[i].id) == Some(i) then given.value else peers[i].key
  }

  /** The patches give the peer at a position a new key. */
  predicate IsRotated(peers: seq<Node>, qs: seq<PeerChange>, i: nat)
    requires i < |peers|
  {
    FinalKey(peers, qs, i) != peers[i].key
  }

  /** Some peer is moved onto the key that another one ends up with. */
  predicate CollidesInTheEnd(peers: seq<Node>, qs: seq<PeerChange>) {
    exists i: nat, j: nat | i < |peers| && j < |peers| && i != j ::
      IsRotated(peers, qs, i) && FinalKey(peers, qs, i) == FinalKey(peers, qs, j)
  }

  lemma FinalKeyIsFinal(ps: AddrParsers, peers: seq<Node>, qs: seq<PeerChange>, i: nat)
    requires i < |peers|
    ensures |PatchAll(ps, peers, qs)| == |peers| && KeysOf(PatchAll(ps, peers, qs))[i] == FinalKey(peers, qs, i)
  {
    hide PatchAll, ForId, Latest, IsValidNodeKey;
    PatchClosedForm(ps, peers, qs);
    CollapsedIsAccepted(ps, peers[i].id, ForId(qs, peers[i].id));
    assert PatchAll(ps, peers, qs)[i] == PatchedAt(ps, peers, qs, i);
  }

  /** Patches that may collide on the way, as two that swap keys do, end with distinct keys
    * exactly when they do not collide in the end.
    */
  lemma PatchesEndDistinctIff(ps: AddrParsers, peers: seq<Node>, qs: seq<PeerChange>)
    requires Distinct(KeysOf(peers))
    ensures Distinct(KeysOf(PatchAll(ps, peers, qs))) <==> !CollidesInTheEnd(peers, qs)
  {
    hide PatchAll, FinalKey;
    PatchClosedForm(ps, peers, qs);
    var ks, was := KeysOf(PatchAll(ps, peers, qs)), KeysOf(peers);
    assert |ks| == |was| == |peers|;
    forall i: nat | i < |peers| ensures ks[i] == FinalKey(peers, qs, i) && was[i] == peers[i].key {
      FinalKeyIsFinal(ps, peers, qs, i);
    }
    if CollidesInTheEnd(peers, qs) {
      var i: nat, j: nat :| i < |peers| && j < |peers| && i != j
                            && IsRotated(peers, qs, i) && FinalKey(peers, qs, i) == FinalKey(peers, qs, j);
      assert ks[i] == ks[j];
    } else {
      forall i, j | 0 <= i < j < |ks| ensures ks[i] != ks[j] {
        assert was[i] != was[j];
        assert IsRotated(peers, qs, i) || IsRotated(peers, qs, j) || ks[i] != ks[j];
      }
    }
  }

  /** A delta that starts from a list with distinct keys ends with distinct keys exactly when its
    * patches do not collide in the end.
    */
  lemma KeysEndDistinctIff(ps: AddrParsers, m: NetmapValue, r: MapResponse)
    requires |m.peers| <= MAX_PEERS && Distinct(KeysOf(AfterList(ps, m.peers, r)))
    ensures Distinct(KeysOf(ApplyDelta(ps, m, r).peers)) <==>
            !CollidesInTheEnd(AfterRemovals(ps, m.peers, r), PatchesOf(r))
  {
    hide Distinct, UpsertAll, Survivors, PatchAll, CollidesInTheEnd;
    BaseIsDistinct(ps, m.peers, r);
    PatchesEndDistinctIff(ps, AfterRemovals(ps, m.peers, r), PatchesOf(r));
    NoPatches(ps, AfterRemovals(ps, m.peers, r));
  }

  /** Changes and removals keep distinct keys distinct. */
  lemma BaseIsDistinct(ps: AddrParsers, peers: seq<Node>, r: MapResponse)
    requires |peers| <= MAX_PEERS && Distinct(KeysOf(AfterList(ps, peers, r)))
    ensures Distinct(KeysOf(AfterUpserts(ps, peers, r))) && Distinct(KeysOf(AfterRemovals(ps, peers, r)))
  {
    hide Distinct, UpsertAll, Survivors;
    if r.peers.Some? { AdmitListIsGood(ps, r.peers.value); }
    if r.peersChanged.Some? { UpsertsKeepDistinct(ps, AfterList(ps, peers, r), r.peersChanged.value); }
    if r.peersRemoved.Some? { SurvivorsKeepDistinct(r.peersRemoved.value, AfterUpserts(ps, peers, r)); }
  }

  lemma NoPatches(ps: AddrParsers, peers: seq<Node>)
    ensures PatchAll(ps, peers, []) == peers
  {
  }

  lemma UpsertsKeepDistinct(ps: AddrParsers, peers: seq<Node>, cs: seq<Node>)
    requires |peers| <= MAX_PEERS && Distinct(KeysOf(peers))
    ensures Distinct(KeysOf(UpsertAll(ps, peers, cs)))
  {
    var held := KeysOf(peers);
    NetmapUpsert.UpsertClosedForm(ps, peers, cs);
    var at := NetmapUpsert.NewKeysInArrivalOrder(ps, held, cs);
    var arrived := NetmapUpsert.NewKeys(ps, held, cs);
    forall a | 0 <= a < |arrived| ensures arrived[a] !in held {
      assert NetmapUpsert.FirstArrival(ps, held, cs, at[a], arrived[a]);
    }
    JoinedDistinct(held, arrived);
  }

  lemma JoinedDistinct(a: seq<Text>, b: seq<Text>)
    requires Distinct(a) && Distinct(b) && forall j | 0 <= j < |b| :: b[j] !in a
    ensures Distinct(a + b)
  {
  }

  lemma SurvivorsKeepDistinct(rs: seq<PeerRemoval>, ns: seq<Node>)
    requires Distinct(KeysOf(ns))
    ensures Distinct(KeysOf(Survivors(rs, ns)))
  {
    var at := NetmapRemoval.SurvivorsInOrder(rs, ns);
    var ks, out := KeysOf(ns), KeysOf(Survivors(rs, ns));
    forall i, j | 0 <= i < j < |out| ensures out[i] != out[j] {
      assert out[i] == ks[at[i]] && out[j] == ks[at[j]];
    }
  }

  /** A rotating patch can give two peers one key. */
  lemma RotationCanCollide(ps: AddrParsers, a: Text, b: Text) returns (m: NetmapValue, r: MapResponse)
    requires IsValidNodeKey(a) && IsValidNodeKey(b) && a != b
    ensures Inv(ps, m) && Distinct(KeysOf(m.peers)) && r.peers.None?
    ensures !Distinct(KeysOf(ApplyDelta(ps, m, r).peers))
  {
    hide Patch, PatchAll, Distinct, KeysOf;
    var p, q := BareNode(1, a), BareNode(2, b);
    var c := PeerChange(1, None, None, None, None, Some(b), None, None, None, None);
    m := EmptyNetmap().(peers := [p, q]);
    r := BareResponse().(peersChangedPatch := Some([c]));
    assert NodeIsValid(ps, p) && NodeIsValid(ps, q);
    CollidingPair(ps, p, q, c);
    PatchOnce(ps, [p, q], c);
  }

  lemma CollidingPair(ps: AddrParsers, p: Node, q: Node, c: PeerChange)
    requires p.id == c.nodeId && p.key != q.key && AcceptedKey(c) == Some(q.key)
    ensures Distinct(KeysOf([p, q])) && !Distinct(KeysOf(Patch(ps, [p, q], c)))
  {
    assert IdsOf([p, q])[0] == c.nodeId && KeysOf([p, q])[1] == q.key;
    PatchKeepsDistinctIff(ps, [p, q], c);
  }

  function BareNode(id: int, key: Text): Node { ZeroValueNode().(id := id, key := key) }

  function BareResponse(): MapResponse { MapResponse(None, None, None, None, None, None, None, None) }

  lemma PatchOnce(ps: AddrParsers, peers: seq<Node>, c: PeerChange)
    ensures PatchAll(ps, peers, [c]) == Patch(ps, peers, c)
  {
  }
}
