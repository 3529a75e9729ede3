/** Peer patches: what a sequence of them amounts to. */
module NetmapPatch {
  import opened Prelude
  import opened Validate
  import opened NetmapModel

  // ----- one patch equivalent to many

  function EndpointsField(ps: AddrParsers): PeerChange -> Option<seq<Text>> {
    c => AcceptedEndpoints(ps, c)
  }

  function OnlineField(c: PeerChange): Option<bool> { c.online }

  function LastSeenField(c: PeerChange): Option<Text> { c.lastSeen }

  function KeyExpiryField(c: PeerChange): Option<Text> { c.keyExpiry }

  /** Per field, the last value in the sequence that the target would take on. */
  function Collapsed(ps: AddrParsers, id: int, cs: seq<PeerChange>): PeerChange {
    PeerChange(
      id,
      Latest(AcceptedRegion, cs),
      Latest(AcceptedCap, cs),
      None,
      Latest(EndpointsField(ps), cs),
      Latest(AcceptedKey, cs),
      Latest(AcceptedDiscoKey, cs),
      Latest(OnlineField, cs),
      Latest(LastSeenField, cs),
      Latest(KeyExpiryField, cs))
  }

  /** The accepted parts of `later` over those of `earlier`. */
  function Override(ps: AddrParsers, earlier: PeerChange, later: PeerChange): PeerChange {
    PeerChange(
      earlier.nodeId,
      OrElse(AcceptedRegion(later), earlier.derpRegion),
      OrElse(AcceptedCap(later), earlier.cap),
      None,
      OrElse(AcceptedEndpoints(ps, later), earlier.endpoints),
      OrElse(AcceptedKey(later), earlier.key),
      OrElse(AcceptedDiscoKey(later), earlier.discoKey),
      OrElse(later.online, earlier.online),
      OrElse(later.lastSeen, earlier.lastSeen),
      OrElse(later.keyExpiry, earlier.keyExpiry))
  }

  lemma CollapsedSnoc(ps: AddrParsers, id: int, cs: seq<PeerChange>, c: PeerChange)
    ensures Collapsed(ps, id, cs + [c]) == Override(ps, Collapsed(ps, id, cs), c)
  {
    LatestSnoc(AcceptedRegion, cs, c);
    LatestSnoc(AcceptedCap, cs, c);
    LatestSnoc(EndpointsField(ps), cs, c);
    LatestSnoc(AcceptedKey, cs, c);
    LatestSnoc(AcceptedDiscoKey, cs, c);
    LatestSnoc(OnlineField, cs, c);
    LatestSnoc(LastSeenField, cs, c);
    LatestSnoc(KeyExpiryField, cs, c);
  }

  /** Every field present is one the target takes on. */
  predicate AllAccepted(ps: AddrParsers, c: PeerChange) {
    && AcceptedRegion(c) == c.derpRegion
    && AcceptedCap(c) == c.cap
    && AcceptedEndpoints(ps, c) == c.endpoints
    && AcceptedKey(c) == c.key
    && AcceptedDiscoKey(c) == c.discoKey
  }

  lemma {:induction false} CollapsedIsAccepted(ps: AddrParsers, id: int, cs: seq<PeerChange>)
    ensures AllAccepted(ps, Collapsed(ps, id, cs))
  {
  }

  /** Applying two patches in turn is applying their override. */
  lemma PatchNodeCompose(ps: AddrParsers, p: Node, c1: PeerChange, c2: PeerChange)
    requires AllAccepted(ps, c1)
    ensures PatchNode(ps, PatchNode(ps, p, c1), c2) == PatchNode(ps, p, Override(ps, c1, c2))
  {
  }

  lemma PatchNodeAbsorbs(ps: AddrParsers, p: Node, c: PeerChange)
    ensures PatchNode(ps, PatchNode(ps, p, c), c) == PatchNode(ps, p, c)
  {
  }

  // ----- a whole patch list

  function HasId(id: int): PeerChange -> bool {
    (c: PeerChange) => c.nodeId == id
  }

  function ForId(cs: seq<PeerChange>, id: int): seq<PeerChange> {
    Select(cs, HasId(id))
  }

  /** The key a patch list leaves the first peer of an id with, if it sets one. */
  function LastKey(cs: seq<PeerChange>, id: int): Option<Text> {
    Latest(AcceptedKey, ForId(cs, id))
  }

  /** The peer a patch list leaves at a position. */
  function PatchedAt(ps: AddrParsers, peers: seq<Node>, cs: seq<PeerChange>, i: nat): Node
    requires i < |peers|
  {
    var id := peers[i].id;
    if FirstWithId(peers, id) == Some(i) then PatchNode(ps, peers[i], Collapsed(ps, id, ForId(cs, id))) else peers[i]
  }

  lemma FirstWithIdByIds(a: seq<Node>, b: seq<Node>, id: int)
    requires IdsOf(a) == IdsOf(b)
    ensures FirstWithId(a, id) == FirstWithId(b, id)
  {
    assert forall i | 0 <= i < |a| :: IdsOf(a)[i] == a[i].id && IdsOf(b)[i] == b[i].id;
  }

  lemma PatchKeepsIds(ps: AddrParsers, peers: seq<Node>, c: PeerChange)
    ensures IdsOf(Patch(ps, peers, c)) == IdsOf(peers)
  {
  }

  lemma ForIdSnoc(cs: seq<PeerChange>, c: PeerChange, id: int)
    ensures ForId(cs + [c], id) == ForId(cs, id) + if c.nodeId == id then [c] else []
  {
  }

  /** One more patch for the id at hand extends that id's collapse. */
  lemma CollapseStep(ps: AddrParsers, p: Node, init: seq<PeerChange>, c: PeerChange)
    requires c.nodeId == p.id
    ensures PatchNode(ps, PatchNode(ps, p, Collapsed(ps, p.id, ForId(init, p.id))), c)
            == PatchNode(ps, p, Collapsed(ps, p.id, ForId(init + [c], p.id)))
  {
    var mine := ForId(init, p.id);
    ForIdSnoc(init, c, p.id);
    CollapsedIsAccepted(ps, p.id, mine);
    CollapsedSnoc(ps, p.id, mine, c);
    PatchNodeCompose(ps, p, Collapsed(ps, p.id, mine), c);
  }

  lemma PatchAt(ps: AddrParsers, peers: seq<Node>, c: PeerChange, i: nat)
    requires i < |peers|
    ensures |Patch(ps, peers, c)| == |peers|
    ensures Patch(ps, peers, c)[i] ==
            if FirstWithId(peers, c.nodeId) == Some(i) then PatchNode(ps, peers[i], c) else peers[i]
  {
  }

  lemma PatchStep(ps: AddrParsers, peers: seq<Node>, init: seq<PeerChange>, c: PeerChange, before: seq<Node>, i: nat)
    requires IdsOf(before) == IdsOf(peers) && i < |peers| == |before|
    requires before[i] == PatchedAt(ps, peers, init, i)
    ensures i < |Patch(ps, before, c)| && Patch(ps, before, c)[i] == PatchedAt(ps, peers, init + [c], i)
  {
    var id := peers[i].id;
    PatchAt(ps, before, c, i);
    FirstWithIdByIds(before, peers, c.nodeId);
    if FirstWithId(peers, c.nodeId) == Some(i) {
      assert c.nodeId == id;
      CollapseStep(ps, peers[i], init, c);
    } else if FirstWithId(peers, id) == Some(i) {
      assert c.nodeId != id;
      ForIdSnoc(init, c, id);
      assert ForId(init + [c], id) == ForId(init, id);
    }
  }

  lemma EmptyPatchList(ps: AddrParsers, peers: seq<Node>, i: nat)
    requires i < |peers|
    ensures PatchedAt(ps, peers, [], i) == peers[i]
  {
  }

  /** Length, order and ids stay; the first peer of each id takes on the collapse of that id's
    * patches; every other peer is untouched.
    */
  ghost predicate IsPatched(ps: AddrParsers, peers: seq<Node>, cs: seq<PeerChange>, out: seq<Node>) {
    && |out| == |peers|
    && IdsOf(out) == IdsOf(peers)
    && forall i | 0 <= i < |peers| :: out[i] == PatchedAt(ps, peers, cs, i)
  }

  lemma PatchOneMore(ps: AddrParsers, peers: seq<Node>, init: seq<PeerChange>, c: PeerChange, before: seq<Node>)
    requires IsPatched(ps, peers, init, before)
    ensures IsPatched(ps, peers, init + [c], Patch(ps, before, c))
  {
    PatchKeepsIds(ps, before, c);
    forall i | 0 <= i < |peers|
      ensures i < |Patch(ps, before, c)| && Patch(ps, before, c)[i] == PatchedAt(ps, peers, init + [c], i)
    {
      PatchStep(ps, peers, init, c, before, i);
    }
    assert |Patch(ps, before, c)| == |before|;
  }

  /** A patch list in closed form. */
  lemma {:induction false} PatchClosedForm(ps: AddrParsers, peers: seq<Node>, cs: seq<PeerChange>)
    ensures IsPatched(ps, peers, cs, PatchAll(ps, peers, cs))
  {
    if cs == [] {
      forall i | 0 <= i < |peers| ensures peers[i] == PatchedAt(ps, peers, cs, i) {
        EmptyPatchList(ps, peers, i);
      }
    } else {
      var init, c := cs[..|cs| - 1], cs[|cs| - 1];
      PatchClosedForm(ps, peers, init);
      PatchOneMore(ps, peers, init, c, PatchAll(ps, peers, init));
      assert init + [c] == cs;
    }
  }

  /** Only the order within each id matters; in particular patches to different ids commute. */
  lemma PatchOrderWithinIdOnly(ps: AddrParsers, peers: seq<Node>, cs: seq<PeerChange>, ds: seq<PeerChange>)
    requires forall id :: ForId(cs, id) == ForId(ds, id)
    ensures PatchAll(ps, peers, cs) == PatchAll(ps, peers, ds)
  {
    PatchClosedForm(ps, peers, cs);
    PatchClosedForm(ps, peers, ds);
    assert forall i | 0 <= i < |peers| :: PatchedAt(ps, peers, cs, i) == PatchedAt(ps, peers, ds, i);
  }

  lemma PatchesCommute(ps: AddrParsers, peers: seq<Node>, c: PeerChange, d: PeerChange)
    requires c.nodeId != d.nodeId
    ensures Patch(ps, Patch(ps, peers, c), d) == Patch(ps, Patch(ps, peers, d), c)
  {
    PatchKeepsIds(ps, peers, c);
    PatchKeepsIds(ps, peers, d);
    FirstWithIdByIds(Patch(ps, peers, c), peers, d.nodeId);
    FirstWithIdByIds(Patch(ps, peers, d), peers, c.nodeId);
  }

  /** Patches to one id are one patch. */
  lemma PatchesToOneIdCollapse(ps: AddrParsers, peers: seq<Node>, cs: seq<PeerChange>, id: int)
    requires forall i | 0 <= i < |cs| :: cs[i].nodeId == id
    ensures PatchAll(ps, peers, cs) == Patch(ps, peers, Collapsed(ps, id, cs))
  {
    hide PatchAll, PatchNode, Latest;
    PatchClosedForm(ps, peers, cs);
    PatchKeepsIds(ps, peers, Collapsed(ps, id, cs));
    forall i | 0 <= i < |peers| ensures PatchAll(ps, peers, cs)[i] == Patch(ps, peers, Collapsed(ps, id, cs))[i] {
      OneIdAt(ps, peers, cs, id, i);
      PatchAt(ps, peers, Collapsed(ps, id, cs), i);
    }
  }

  lemma OneIdAt(ps: AddrParsers, peers: seq<Node>, cs: seq<PeerChange>, id: int, i: nat)
    requires i < |peers| && forall j | 0 <= j < |cs| :: cs[j].nodeId == id
    ensures PatchedAt(ps, peers, cs, i) ==
            if FirstWithId(peers, id) == Some(i) then PatchNode(ps, peers[i], Collapsed(ps, id, cs)) else peers[i]
  {
    hide Collapsed, PatchNode;
    if peers[i].id == id {
      SelectAll(cs, HasId(id));
    } else {
      SelectNone(cs, HasId(peers[i].id));
      EmptyPatchList(ps, peers, i);
    }
  }

  /** A patch list applied again changes nothing, whatever happened to the peers it names. */
  lemma PatchAllAbsorbs(ps: AddrParsers, peers: seq<Node>, cs: seq<PeerChange>)
    ensures PatchAll(ps, PatchAll(ps, peers, cs), cs) == PatchAll(ps, peers, cs)
  {
    var once := PatchAll(ps, peers, cs);
    PatchClosedForm(ps, peers, cs);
    PatchClosedForm(ps, once, cs);
    forall i | 0 <= i < |peers| ensures PatchedAt(ps, once, cs, i) == once[i] {
      var id := peers[i].id;
      assert IdsOf(once)[i] == IdsOf(peers)[i];
      FirstWithIdByIds(once, peers, id);
      PatchNodeAbsorbs(ps, peers[i], Collapsed(ps, id, ForId(cs, id)));
    }
  }
}
