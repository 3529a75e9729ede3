/** Harmless deltas: a second delivery changes nothing. */
module NetmapHarmless {
  import opened Prelude
  import opened Validate
  import opened NetmapModel
  import opened NetmapRuns
  import opened NetmapPatch
  import opened NetmapRedelivery
  import NetmapUpsert
  import NetmapRemoval

  // ----- what is appended is swept away

  function NotIn(held: seq<Text>): Text -> bool { k => k !in held }

  /** New keys are the keys new to an empty netmap, less those held. */
  lemma {:induction false} NewKeysFiltered(ps: AddrParsers, held: seq<Text>, cs: seq<Node>)
    ensures NetmapUpsert.NewKeys(ps, held, cs) == Select(NetmapUpsert.NewKeys(ps, [], cs), NotIn(held))
  {
    if cs != [] {
      var init, c := cs[..|cs| - 1], cs[|cs| - 1];
      NewKeysFiltered(ps, held, init);
      var fresh0 := NetmapUpsert.NewKeys(ps, [], init);
      SelectMembers(fresh0, NotIn(held));
      SelectConcat(fresh0, [c.key], NotIn(held));
    }
  }

  /** With none of the keys an empty netmap would admit held, those come first. */
  lemma AdmittedComeFirst(ps: AddrParsers, held: seq<Text>, cs: seq<Node>) returns (more: seq<Text>)
    requires forall k | k in NetmapUpsert.KeptKeys(ps, [], cs) :: k !in held
    ensures NetmapUpsert.NewKeys(ps, held, cs) == NetmapUpsert.KeptKeys(ps, [], cs) + more
    ensures |NetmapUpsert.KeptKeys(ps, [], cs)| == MAX_PEERS || more == []
  {
    hide NetmapUpsert.NewKeys;
    var all, first := NetmapUpsert.NewKeys(ps, [], cs), NetmapUpsert.KeptKeys(ps, [], cs);
    assert [] + all == all;
    var rest := all[|first|..];
    assert all == first + rest;
    NewKeysFiltered(ps, held, cs);
    SelectConcat(first, rest, NotIn(held));
    SelectAll(first, NotIn(held));
    more := Select(rest, NotIn(held));
  }

  /** And no others are admitted. */
  lemma AdmitsNoOthers(ps: AddrParsers, held: seq<Text>, cs: seq<Node>, j: nat)
    requires |held| <= j < |NetmapUpsert.KeptKeys(ps, held, cs)|
    requires forall k | k in NetmapUpsert.KeptKeys(ps, [], cs) :: k !in held
    ensures NetmapUpsert.KeptKeys(ps, held, cs)[j] in NetmapUpsert.KeptKeys(ps, [], cs)
  {
    hide NetmapUpsert.NewKeys;
    var more := AdmittedComeFirst(ps, held, cs);
    var first, kept := NetmapUpsert.KeptKeys(ps, [], cs), NetmapUpsert.KeptKeys(ps, held, cs);
    assert kept[j] == (held + (first + more))[j];
    assert kept[j] == first[j - |held|];
  }

  /** What the second delivery appends, it sweeps away. */
  lemma AppendedAreSwept(ps: AddrParsers, cs: seq<Node>, rs: seq<PeerRemoval>, now: seq<Node>, i: nat)
    requires RemovesAdmitted(ps, cs, rs) && |now| <= MAX_PEERS
    requires forall j | 0 <= j < |now| :: !Removes(rs, now[j])
    requires |now| <= i < |UpsertAll(ps, now, cs)|
    ensures Removes(rs, UpsertAll(ps, now, cs)[i])
  {
    hide UpsertAll, NetmapUpsert.KeptKeys, NetmapUpsert.Settled;
    var again, held, first := UpsertAll(ps, now, cs), KeysOf(now), NetmapUpsert.KeptKeys(ps, [], cs);
    NetmapUpsert.UpsertClosedForm(ps, now, cs);
    assert |again| == |KeysOf(again)|;
    forall j | 0 <= j < |held| ensures NodeKey(held[j]) !in rs {
      NetmapRemoval.RemovesByMembership(rs, now[j]);
    }
    assert forall k | k in first :: NodeKey(k) in rs && k !in held;
    AdmitsNoOthers(ps, held, cs, i);
    assert KeysOf(again)[i] == again[i].key;
    NetmapRemoval.RemovesByMembership(rs, again[i]);
  }

  // ----- what is in place is settled

  /** The first survivor with a key is the first peer with it, if that one survives. */
  lemma FirstSurvivor(rs: seq<PeerRemoval>, ns: seq<Node>, f: nat, i: nat)
    requires f < |ns| && NetmapUpsert.IsFirst(KeysOf(ns), f) && !Removes(rs, ns[f])
    requires i < |Survivors(rs, ns)| && Survivors(rs, ns)[i].key == ns[f].key
    requires NetmapUpsert.IsFirst(KeysOf(Survivors(rs, ns)), i)
    ensures Survivors(rs, ns)[i] == ns[f]
  {
    var a := Survivors(rs, ns);
    var at := NetmapRemoval.SurvivorsInOrder(rs, ns);
    assert f in at;
    var b :| 0 <= b < |at| && at[b] == f;
    assert KeysOf(a)[b] == ns[f].key && KeysOf(a)[i] == ns[f].key;
    assert KeysOf(ns)[at[i]] == ns[f].key;
  }

  /** The first survivor with a changed key holds its last change, if that is not removed. */
  lemma FirstHoldsLast(ps: AddrParsers, peers: seq<Node>, cs: seq<Node>, rs: seq<PeerRemoval>, i: nat)
    requires |peers| <= MAX_PEERS && i < |Survivors(rs, UpsertAll(ps, peers, cs))|
    requires NetmapUpsert.IsFirst(KeysOf(Survivors(rs, UpsertAll(ps, peers, cs))), i)
    requires var last := NetmapUpsert.LastValid(ps, cs, Survivors(rs, UpsertAll(ps, peers, cs))[i].key);
             last.Some? && !Removes(rs, last.value)
    ensures Survivors(rs, UpsertAll(ps, peers, cs))[i] ==
            NetmapUpsert.LastValid(ps, cs, Survivors(rs, UpsertAll(ps, peers, cs))[i].key).value
  {
    hide UpsertAll, Survivors, NetmapUpsert.KeptKeys, NetmapUpsert.LastValid;
    var upserted := UpsertAll(ps, peers, cs);
    var a := Survivors(rs, upserted);
    NetmapRemoval.SurvivorsNotNamed(rs, upserted);
    assert a[i] in upserted;
    var at :| 0 <= at < |upserted| && upserted[at] == a[i];
    assert KeysOf(upserted)[at] == a[i].key;
    var f := FirstWithKey(upserted, a[i].key).value;
    assert forall j | 0 <= j < |upserted| :: KeysOf(upserted)[j] == upserted[j].key;
    NetmapUpsert.UpsertClosedForm(ps, peers, cs);
    assert NetmapUpsert.Settled(ps, peers, cs, upserted, f);
    FirstSurvivor(rs, upserted, f, i);
  }

  /** Patches that avoid the removed keys bring no survivor back into reach of the removals. */
  lemma PatchedAreNotNamed(ps: AddrParsers, rs: seq<PeerRemoval>, a: seq<Node>, qs: seq<PeerChange>)
    requires AvoidsRemoved(rs, qs) && forall i | 0 <= i < |a| :: !Removes(rs, a[i])
    ensures var b := PatchAll(ps, a, qs);
            |b| == |a| && forall i | 0 <= i < |b| :: !Removes(rs, b[i])
  {
    hide AvoidsRemoved, PatchAll, Removes, LastKey, PatchedAt;
    var b := PatchAll(ps, a, qs);
    PatchClosedForm(ps, a, qs);
    forall i | 0 <= i < |b| ensures !Removes(rs, b[i]) {
      assert b[i] == PatchedAt(ps, a, qs, i);
      NetmapRemoval.RemovesByMembership(rs, a[i]);
      NetmapRemoval.RemovesByMembership(rs, b[i]);
      PatchedKey(ps, a, qs, i);
      if b[i].key != a[i].key {
        LastKeyAvoids(rs, qs, a[i].id);
      }
    }
  }

  lemma PatchedKey(ps: AddrParsers, a: seq<Node>, qs: seq<PeerChange>, i: nat)
    requires i < |a|
    ensures var p := PatchedAt(ps, a, qs, i);
            p.id == a[i].id && (p.key != a[i].key ==> LastKey(qs, p.id) == Some(p.key))
  {
    CollapsedIsAccepted(ps, a[i].id, ForId(qs, a[i].id));
  }

  /** A changed key that stays, and its last change with it, is out of reach of the patches: a
    * survivor has such a key after them exactly if it had it before.
    */
  lemma PatchesKeepChanged(ps: AddrParsers, cs: seq<Node>, rs: seq<PeerRemoval>, a: seq<Node>, qs: seq<PeerChange>,
                           i: nat, key: Text)
    requires KeepsApart(ps, cs, rs, qs) && i < |a| && !Removes(rs, a[i])
    requires NodeKey(key) !in rs && NetmapUpsert.LastValid(ps, cs, key).Some?
    ensures var p := PatchedAt(ps, a, qs, i);
            && (p.key == key ==> a[i].key == key)
            && (a[i] == NetmapUpsert.LastValid(ps, cs, key).value && a[i].key == key ==> p.key == key)
  {
    hide LastKey, NetmapUpsert.LastValid, PatchedAt, KeepsApart;
    PatchedKey(ps, a, qs, i);
    NetmapRemoval.RemovesByMembership(rs, a[i]);
    AllApart(ps, cs, rs, qs, a[i].id, key);
  }

  /** What the second delivery's changes leave at a position of the first one's outcome `b`: what
    * the first one's changes left there before its patches, or what is there; nothing removed.
    */
  lemma SettledAgain(ps: AddrParsers, peers: seq<Node>, cs: seq<Node>, rs: seq<PeerRemoval>, qs: seq<PeerChange>,
                     a: seq<Node>, b: seq<Node>, i: nat)
    requires |peers| <= MAX_PEERS && KeepsLastChanges(ps, cs, rs) && KeepsApart(ps, cs, rs, qs)
    requires a == Survivors(rs, UpsertAll(ps, peers, cs)) && IsPatched(ps, a, qs, b)
    requires |b| <= MAX_PEERS && i < |b|
    requires forall j | 0 <= j < |a| :: !Removes(rs, a[j]) && !Removes(rs, b[j])
    ensures var again := UpsertAll(ps, b, cs);
            i < |again| && !Removes(rs, again[i]) && (again[i] == a[i] || again[i] == b[i])
  {
    hide UpsertAll, Survivors, NetmapUpsert.NewKeys, NetmapUpsert.LastValid, PatchedAt;
    hide KeepsLastChanges, KeepsApart, Removes;
    var again, key := UpsertAll(ps, b, cs), b[i].key;
    NetmapUpsert.UpsertClosedForm(ps, b, cs);
    NetmapUpsert.KeptKeysWithinCap(ps, KeysOf(b), cs);
    assert |again| == |KeysOf(again)| && KeysOf(b) <= KeysOf(again);
    assert KeysOf(again)[i] == KeysOf(b)[i] == key;
    assert NetmapUpsert.Settled(ps, b, cs, again, i);
    var last := NetmapUpsert.LastValid(ps, cs, key);
    if NetmapUpsert.IsFirst(KeysOf(again), i) && last.Some? {
      assert forall j | 0 <= j < i :: b[j].key != key by {
        assert forall j | 0 <= j < i :: KeysOf(again)[j] == KeysOf(b)[j] == b[j].key;
      }
      LastIsInPlace(ps, peers, cs, rs, qs, a, b, i);
    }
  }

  /** The first peer of the outcome with a changed key holds its last change before the patches. */
  lemma LastIsInPlace(ps: AddrParsers, peers: seq<Node>, cs: seq<Node>, rs: seq<PeerRemoval>, qs: seq<PeerChange>,
                      a: seq<Node>, b: seq<Node>, i: nat)
    requires |peers| <= MAX_PEERS && KeepsLastChanges(ps, cs, rs) && KeepsApart(ps, cs, rs, qs)
    requires a == Survivors(rs, UpsertAll(ps, peers, cs)) && IsPatched(ps, a, qs, b) && i < |b|
    requires forall j | 0 <= j < |a| :: !Removes(rs, a[j]) && !Removes(rs, b[j])
    requires NetmapUpsert.LastValid(ps, cs, b[i].key).Some? && forall j | 0 <= j < i :: b[j].key != b[i].key
    ensures NetmapUpsert.LastValid(ps, cs, b[i].key).value == a[i]
  {
    hide UpsertAll, Survivors, NetmapUpsert.LastValid, PatchedAt, KeepsLastChanges, KeepsApart, Removes;
    var key := b[i].key;
    var last := NetmapUpsert.LastValid(ps, cs, key).value;
    NetmapRemoval.RemovesByMembership(rs, b[i]);
    LastChangeStays(ps, cs, rs, key);
    LastValidIsChange(ps, cs, key);
    NetmapRemoval.RemovesByMembership(rs, last);
    PatchesKeepChanged(ps, cs, rs, a, qs, i, key);
    assert KeysOf(a)[i] == key;
    var f := FirstWithKey(a, key).value;
    assert forall j | 0 <= j < |a| :: KeysOf(a)[j] == a[j].key;
    FirstHoldsLast(ps, peers, cs, rs, f);
    PatchesKeepChanged(ps, cs, rs, a, qs, f, key);
    assert b[f] == PatchedAt(ps, a, qs, f);
  }

  // ----- where nobody is removed, nothing is appended

  lemma {:induction false} NoNewKeys(ps: AddrParsers, held: seq<Text>, cs: seq<Node>)
    requires forall i | 0 <= i < |cs| && NodeIsValid(ps, cs[i]) :: cs[i].key in held
    ensures NetmapUpsert.NewKeys(ps, held, cs) == []
  {
    if cs != [] {
      NoNewKeys(ps, held, cs[..|cs| - 1]);
    }
  }

  /** If nobody was removed, every changed key the first delivery held is still held. */
  lemma ChangedKeyIsHeld(ps: AddrParsers, peers: seq<Node>, cs: seq<Node>, rs: seq<PeerRemoval>, qs: seq<PeerChange>,
                         a: seq<Node>, b: seq<Node>, key: Text)
    requires |peers| <= MAX_PEERS && KeepsApart(ps, cs, rs, qs)
    requires a == UpsertAll(ps, peers, cs) && IsPatched(ps, a, qs, b)
    requires forall j | 0 <= j < |a| :: !Removes(rs, a[j])
    requires key in KeysOf(a) && NetmapUpsert.LastValid(ps, cs, key).Some?
    ensures key in KeysOf(b)
  {
    hide UpsertAll, NetmapUpsert.LastValid, NetmapUpsert.KeptKeys, PatchedAt, KeepsApart, Removes;
    var f := FirstWithKey(a, key).value;
    NetmapUpsert.UpsertClosedForm(ps, peers, cs);
    assert forall j | 0 <= j < |a| :: KeysOf(a)[j] == a[j].key;
    assert NetmapUpsert.Settled(ps, peers, cs, a, f);
    NetmapRemoval.RemovesByMembership(rs, a[f]);
    PatchesKeepChanged(ps, cs, rs, a, qs, f, key);
    assert b[f] == PatchedAt(ps, a, qs, f);
    assert KeysOf(b)[f] == key;
  }

  lemma NothingAppended(ps: AddrParsers, peers: seq<Node>, cs: seq<Node>, rs: seq<PeerRemoval>, qs: seq<PeerChange>,
                        a: seq<Node>, b: seq<Node>)
    requires |peers| <= MAX_PEERS && KeepsApart(ps, cs, rs, qs)
    requires a == UpsertAll(ps, peers, cs) && IsPatched(ps, a, qs, b)
    requires forall j | 0 <= j < |a| :: !Removes(rs, a[j])
    ensures |UpsertAll(ps, b, cs)| == |b|
  {
    hide UpsertAll, PatchedAt, KeepsApart, Removes, NodeIsValid;
    NetmapUpsert.TallyConserves(ps, peers, cs);
    NetmapUpsert.TallyConserves(ps, b, cs);
    if |a| < MAX_PEERS {
      NetmapUpsert.BelowCapHoldsAll(ps, peers, cs);
      forall i | 0 <= i < |cs| && NodeIsValid(ps, cs[i]) ensures cs[i].key in KeysOf(b) {
        LastValidIsChange(ps, cs, cs[i].key);
        ChangedKeyIsHeld(ps, peers, cs, rs, qs, a, b, cs[i].key);
      }
      NoNewKeys(ps, KeysOf(b), cs);
      NetmapUpsert.UpsertClosedForm(ps, b, cs);
      assert |UpsertAll(ps, b, cs)| == |KeysOf(UpsertAll(ps, b, cs))|;
    }
  }

  // ----- the second delivery

  /** Patching a mixture of patched and not yet patched peers patches them all. */
  lemma PatchMixture(ps: AddrParsers, a: seq<Node>, mix: seq<Node>, qs: seq<PeerChange>)
    requires |mix| == |a|
    requires |PatchAll(ps, a, qs)| == |a|
    requires forall i | 0 <= i < |a| :: mix[i] == a[i] || mix[i] == PatchAll(ps, a, qs)[i]
    ensures PatchAll(ps, mix, qs) == PatchAll(ps, a, qs)
  {
    var b := PatchAll(ps, a, qs);
    PatchClosedForm(ps, a, qs);
    PatchClosedForm(ps, mix, qs);
    assert forall i | 0 <= i < |a| :: IdsOf(b)[i] == IdsOf(a)[i];
    assert IdsOf(mix) == IdsOf(a);
    forall i | 0 <= i < |a| ensures PatchAll(ps, mix, qs)[i] == b[i] {
      var id := a[i].id;
      assert IdsOf(mix)[i] == id;
      FirstWithIdByIds(mix, a, id);
      PatchNodeAbsorbs(ps, a[i], Collapsed(ps, id, ForId(qs, id)));
    }
  }

  lemma SurvivorsAreFew(ps: AddrParsers, rs: seq<PeerRemoval>, peers: seq<Node>, cs: seq<Node>)
    requires |peers| <= MAX_PEERS
    ensures |Survivors(rs, UpsertAll(ps, peers, cs))| <= MAX_PEERS
  {
    NetmapUpsert.TallyConserves(ps, peers, cs);
    SelectMembers(UpsertAll(ps, peers, cs), NotRemoved(rs));
  }

  lemma LengthAgain(ps: AddrParsers, now: seq<Node>, cs: seq<Node>)
    requires |now| <= MAX_PEERS
    ensures |now| <= |UpsertAll(ps, now, cs)|
  {
    NetmapUpsert.TallyConserves(ps, now, cs);
  }

  /** Changes and removals again: a mixture of what they left and what is there now. */
  lemma MixtureAgain(ps: AddrParsers, peers: seq<Node>, cs: seq<Node>, rs: seq<PeerRemoval>, qs: seq<PeerChange>,
                     a: seq<Node>, b: seq<Node>)
    requires |peers| <= MAX_PEERS && KeepsLastChanges(ps, cs, rs) && KeepsApart(ps, cs, rs, qs)
    requires a == Survivors(rs, UpsertAll(ps, peers, cs)) && IsPatched(ps, a, qs, b) && |b| <= MAX_PEERS
    requires forall j | 0 <= j < |a| :: !Removes(rs, a[j]) && !Removes(rs, b[j])
    requires forall j | |b| <= j < |UpsertAll(ps, b, cs)| :: Removes(rs, UpsertAll(ps, b, cs)[j])
    ensures var mix := Survivors(rs, UpsertAll(ps, b, cs));
            |mix| == |a| && forall i | 0 <= i < |a| :: mix[i] == a[i] || mix[i] == b[i]
  {
    hide UpsertAll, KeepsLastChanges, KeepsApart, PatchedAt, Removes;
    var again := UpsertAll(ps, b, cs);
    LengthAgain(ps, b, cs);
    var front, back := again[..|b|], again[|b|..];
    forall i | 0 <= i < |front| ensures !Removes(rs, front[i]) && (front[i] == a[i] || front[i] == b[i]) {
      SettledAgain(ps, peers, cs, rs, qs, a, b, i);
    }
    forall i | 0 <= i < |back| ensures Removes(rs, back[i]) {
      assert back[i] == again[|b| + i];
    }
    assert again == front + back;
    SelectConcat(front, back, NotRemoved(rs));
    SelectAll(front, NotRemoved(rs));
    SelectNone(back, NotRemoved(rs));
  }

  /** What the second delivery's changes append goes again. */
  lemma AppendedGo(ps: AddrParsers, peers: seq<Node>, r: MapResponse, a: seq<Node>, b: seq<Node>, j: nat)
    requires |peers| <= MAX_PEERS && KeepsApart(ps, ChangesOf(r), RemovalsOf(r), PatchesOf(r))
    requires RemovesAdmitted(ps, ChangesOf(r), RemovalsOf(r)) || (NamesNobody(RemovalsOf(r)) && AllValid(ps, peers))
    requires a == Survivors(RemovalsOf(r), UpsertAll(ps, peers, ChangesOf(r))) && IsPatched(ps, a, PatchesOf(r), b)
    requires |b| <= MAX_PEERS && forall j | 0 <= j < |b| :: !Removes(RemovalsOf(r), b[j])
    requires |b| <= j < |UpsertAll(ps, b, ChangesOf(r))|
    ensures Removes(RemovalsOf(r), UpsertAll(ps, b, ChangesOf(r))[j])
  {
    hide UpsertAll, KeepsApart, RemovesAdmitted, PatchedAt, NamesNobody, AllValid;
    var cs, rs, qs := ChangesOf(r), RemovalsOf(r), PatchesOf(r);
    if RemovesAdmitted(ps, cs, rs) {
      AppendedAreSwept(ps, cs, rs, b, j);
    } else {
      NobodyIsRemoved(ps, rs, peers, cs);
      NothingAppended(ps, peers, cs, rs, qs, a, b);
    }
  }

  lemma NobodyIsRemoved(ps: AddrParsers, rs: seq<PeerRemoval>, peers: seq<Node>, cs: seq<Node>)
    requires |peers| <= MAX_PEERS && AllValid(ps, peers) && NamesNobody(rs)
    ensures var a := UpsertAll(ps, peers, cs);
            Survivors(rs, a) == a && forall i | 0 <= i < |a| :: !Removes(rs, a[i])
  {
    hide UpsertAll;
    var a := UpsertAll(ps, peers, cs);
    UpsertAllIsGood(ps, peers, cs);
    forall i | 0 <= i < |a| ensures !Removes(rs, a[i]) {
      NetmapRemoval.RemovesByMembership(rs, a[i]);
    }
    SelectAll(a, NotRemoved(rs));
  }

  lemma HarmlessTwice(ps: AddrParsers, peers: seq<Node>, r: MapResponse)
    requires |peers| <= MAX_PEERS && IsHarmless(ps, r)
    requires RemovesAdmitted(ps, ChangesOf(r), RemovalsOf(r)) || AllValid(ps, peers)
    ensures Delivered(ps, Delivered(ps, peers, r), r) == Delivered(ps, peers, r)
  {
    hide UpsertAll, PatchAll, RemovesAdmitted, NamesNobody, KeepsLastChanges, AvoidsRemoved, KeepsApart, AllValid;
    hide PatchedAt, Removes;
    var cs, rs, qs := ChangesOf(r), RemovalsOf(r), PatchesOf(r);
    var a := Survivors(rs, UpsertAll(ps, peers, cs));
    var b := PatchAll(ps, a, qs);
    NetmapRemoval.SurvivorsNotNamed(rs, UpsertAll(ps, peers, cs));
    SurvivorsAreFew(ps, rs, peers, cs);
    PatchClosedForm(ps, a, qs);
    PatchedAreNotNamed(ps, rs, a, qs);
    forall j | |b| <= j < |UpsertAll(ps, b, cs)| ensures Removes(rs, UpsertAll(ps, b, cs)[j]) {
      AppendedGo(ps, peers, r, a, b, j);
    }
    MixtureAgain(ps, peers, cs, rs, qs, a, b);
    PatchMixture(ps, a, Survivors(rs, UpsertAll(ps, b, cs)), qs);
  }

  /** The sufficient half, on every list of peers within the cap; they need be valid only where
    * the removals are harmless for naming nobody valid.
    */
  lemma RedeliveryIsNoOp(ps: AddrParsers, m: NetmapValue, r: MapResponse)
    requires |m.peers| <= MAX_PEERS
    requires r.peers.Some? || IsHarmless(ps, r)
    requires r.peers.Some? || RemovesAdmitted(ps, ChangesOf(r), RemovalsOf(r)) || AllValid(ps, m.peers)
    ensures Twice(ps, m, r)
  {
    hide IsHarmless, RemovesAdmitted, AllValid, Delivered;
    if r.peers.Some? {
      FullListIsRedeliverable(ps, m, r);
    } else {
      HarmlessTwice(ps, m.peers, r);
      TwiceIfDeliveredTwice(ps, m, r);
    }
  }
}
