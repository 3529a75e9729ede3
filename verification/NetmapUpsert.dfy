/** The upsert loop of `Netmap::apply_delta`, in closed form. */
module NetmapUpsert {
  import opened Prelude
  import opened Validate
  import opened NetmapModel

  /** The valid keys a change list introduces, in order of first arrival. */
  function NewKeys(ps: AddrParsers, held: seq<Text>, cs: seq<Node>): seq<Text> {
    if cs == [] then [] else
    var before := NewKeys(ps, held, cs[..|cs| - 1]);
    var c := cs[|cs| - 1];
    if NodeIsValid(ps, c) && c.key !in held && c.key !in before then before + [c.key] else before
  }

  /** The last valid change to a key. */
  function LastValid(ps: AddrParsers, cs: seq<Node>, key: Text): Option<Node> {
    if cs == [] then None else
    var c := cs[|cs| - 1];
    if NodeIsValid(ps, c) && c.key == key then Some(c) else LastValid(ps, cs[..|cs| - 1], key)
  }

  /** The keys held after the loop: old ones in place, new ones appended while there is room. */
  function KeptKeys(ps: AddrParsers, held: seq<Text>, cs: seq<Node>): seq<Text> {
    var all := held + NewKeys(ps, held, cs);
    all[..Min(MAX_PEERS, |all|)]
  }

  predicate IsFirst(ks: seq<Text>, i: nat)
    requires i < |ks|
  {
    forall j | 0 <= j < i :: ks[j] != ks[i]
  }

  /** What position `i` holds: the last valid change to its key if it is that key's first
    * occurrence, and otherwise what it held before.
    */
  ghost predicate Settled(ps: AddrParsers, peers: seq<Node>, cs: seq<Node>, out: seq<Node>, i: nat)
    requires i < |out|
  {
    var last := LastValid(ps, cs, out[i].key);
    if IsFirst(KeysOf(out), i) && last.Some? then out[i] == last.value
    else i < |peers| && out[i] == peers[i]
  }

  ghost predicate IsClosedForm(ps: AddrParsers, peers: seq<Node>, cs: seq<Node>, out: seq<Node>) {
    && KeysOf(out) == KeptKeys(ps, KeysOf(peers), cs)
    && forall i | 0 <= i < |out| :: Settled(ps, peers, cs, out, i)
  }

  lemma KeysOfUpdate(ns: seq<Node>, i: nat, n: Node)
    requires i < |ns|
    ensures KeysOf(ns[i := n]) == KeysOf(ns)[i := n.key]
    ensures ns[i].key == n.key ==> KeysOf(ns[i := n]) == KeysOf(ns)
  {
  }

  lemma KeptKeysWithinCap(ps: AddrParsers, held: seq<Text>, cs: seq<Node>)
    requires |held| <= MAX_PEERS
    ensures held <= KeptKeys(ps, held, cs)
    ensures |KeptKeys(ps, held, cs)| == Min(10_000, |held| + |NewKeys(ps, held, cs)|)
    ensures |KeptKeys(ps, held, cs)| < MAX_PEERS ==> KeptKeys(ps, held, cs) == held + NewKeys(ps, held, cs)
  {
  }

  /** The change list leaves exactly the closed form, and only the closed form fits. */
  lemma {:induction false} UpsertClosedForm(ps: AddrParsers, peers: seq<Node>, cs: seq<Node>)
    requires |peers| <= MAX_PEERS
    ensures IsClosedForm(ps, peers, cs, UpsertAll(ps, peers, cs))
  {
    if cs == [] {
      assert KeptKeys(ps, KeysOf(peers), cs) == KeysOf(peers);
    } else {
      var init, c := cs[..|cs| - 1], cs[|cs| - 1];
      UpsertClosedForm(ps, peers, init);
      UpsertStep(ps, peers, init, c, UpsertAll(ps, peers, init));
      assert init + [c] == cs;
    }
  }

  lemma UpsertStep(ps: AddrParsers, peers: seq<Node>, init: seq<Node>, c: Node, before: seq<Node>)
    requires |peers| <= MAX_PEERS
    requires IsClosedForm(ps, peers, init, before)
    ensures IsClosedForm(ps, peers, init + [c], Upsert(ps, before, c))
  {
    var cs := init + [c];
    assert cs[..|cs| - 1] == init && cs[|cs| - 1] == c;
    var held := KeysOf(peers);
    KeptKeysWithinCap(ps, held, init);
    KeptKeysWithinCap(ps, held, cs);
    var after := Upsert(ps, before, c);
    if NodeIsValid(ps, c) {
      match FirstWithKey(before, c.key)
      case Some(j) =>
        UpsertFound(ps, peers, init, c, before, j);
      case None =>
        if |before| < MAX_PEERS {
          UpsertAppends(ps, peers, init, c, before);
        } else {
          assert KeptKeys(ps, held, cs) == KeptKeys(ps, held, init);
          forall i | 0 <= i < |after| ensures Settled(ps, peers, cs, after, i) {
            assert KeysOf(before)[i] != c.key;
            assert Settled(ps, peers, init, before, i);
          }
        }
    } else {
      forall i | 0 <= i < |after| ensures Settled(ps, peers, cs, after, i) {
        assert Settled(ps, peers, init, before, i);
      }
    }
  }

  lemma UpsertFound(ps: AddrParsers, peers: seq<Node>, init: seq<Node>, c: Node, before: seq<Node>, j: nat)
    requires |peers| <= MAX_PEERS && NodeIsValid(ps, c)
    requires IsClosedForm(ps, peers, init, before)
    requires FirstWithKey(before, c.key) == Some(j)
    ensures IsClosedForm(ps, peers, init + [c], before[j := c])
  {
    hide KeptKeys, Settled, NodeIsValid;
    KeysOfUpdate(before, j, c);
    assert KeysOf(before)[j] == c.key;
    FoundKeys(ps, KeysOf(peers), init, c, j);
    var cs, after := init + [c], before[j := c];
    forall i | 0 <= i < |before| ensures Settled(ps, peers, cs, after, i) {
      assert Settled(ps, peers, init, before, i);
      FoundSettles(ps, peers, init, c, before, j, i);
    }
  }

  lemma FoundKeys(ps: AddrParsers, held: seq<Text>, init: seq<Node>, c: Node, j: nat)
    requires j < |KeptKeys(ps, held, init)| && KeptKeys(ps, held, init)[j] == c.key
    ensures KeptKeys(ps, held, init + [c]) == KeptKeys(ps, held, init)
  {
    hide NodeIsValid;
    var cs := init + [c];
    assert cs[..|cs| - 1] == init && cs[|cs| - 1] == c;
    assert (held + NewKeys(ps, held, init))[j] == c.key;
  }

  lemma FoundSettles(ps: AddrParsers, peers: seq<Node>, init: seq<Node>, c: Node, before: seq<Node>, j: nat, i: nat)
    requires NodeIsValid(ps, c) && i < |before| && FirstWithKey(before, c.key) == Some(j)
    requires Settled(ps, peers, init, before, i) && KeysOf(before[j := c]) == KeysOf(before)
    ensures Settled(ps, peers, init + [c], before[j := c], i)
  {
    hide NodeIsValid;
    var cs, after := init + [c], before[j := c];
    assert cs[..|cs| - 1] == init && cs[|cs| - 1] == c;
    assert forall k | 0 <= k < |after| :: KeysOf(after)[k] == after[k].key;
    if i != j && after[i].key == c.key {
      assert j < i && KeysOf(after)[j] == KeysOf(after)[i];
    }
  }

  lemma UpsertAppends(ps: AddrParsers, peers: seq<Node>, init: seq<Node>, c: Node, before: seq<Node>)
    requires |peers| <= MAX_PEERS && NodeIsValid(ps, c)
    requires IsClosedForm(ps, peers, init, before)
    requires FirstWithKey(before, c.key) == None && |before| < MAX_PEERS
    ensures IsClosedForm(ps, peers, init + [c], before + [c])
  {
    hide KeptKeys, Settled, NodeIsValid;
    var cs := init + [c];
    var after := before + [c];
    AppendedKeys(ps, KeysOf(peers), init, c, KeysOf(before));
    assert KeysOf(after) == KeysOf(before) + [c.key];
    forall i | 0 <= i < |after| ensures Settled(ps, peers, cs, after, i) {
      assert i < |before| ==> Settled(ps, peers, init, before, i);
      AppendSettles(ps, peers, init, c, before, i);
    }
  }

  lemma AppendedKeys(ps: AddrParsers, held: seq<Text>, init: seq<Node>, c: Node, keys: seq<Text>)
    requires |held| <= MAX_PEERS && NodeIsValid(ps, c)
    requires keys == KeptKeys(ps, held, init)
    requires c.key !in keys && |keys| < MAX_PEERS
    ensures keys + [c.key] == KeptKeys(ps, held, init + [c])
  {
    var cs := init + [c];
    assert cs[..|cs| - 1] == init && cs[|cs| - 1] == c;
    KeptKeysWithinCap(ps, held, init);
    assert c.key !in held && c.key !in NewKeys(ps, held, init);
  }

  lemma AppendSettles(ps: AddrParsers, peers: seq<Node>, init: seq<Node>, c: Node, before: seq<Node>, i: nat)
    requires NodeIsValid(ps, c) && i <= |before| && c.key !in KeysOf(before)
    requires i < |before| ==> Settled(ps, peers, init, before, i)
    ensures Settled(ps, peers, init + [c], before + [c], i)
  {
    var cs := init + [c];
    assert cs[..|cs| - 1] == init && cs[|cs| - 1] == c;
    var keys, keys' := KeysOf(before), KeysOf(before + [c]);
    assert keys' == keys + [c.key];
    assert keys'[i] == (before + [c])[i].key;
    if i < |before| {
      assert keys[i] != c.key;
      assert forall j | 0 <= j <= i :: keys'[j] == keys[j];
    } else {
      assert IsFirst(keys', i);
    }
  }

  /** The closed form leaves no freedom. */
  lemma ClosedFormIsUnique(ps: AddrParsers, peers: seq<Node>, cs: seq<Node>, a: seq<Node>, b: seq<Node>)
    requires IsClosedForm(ps, peers, cs, a) && IsClosedForm(ps, peers, cs, b)
    ensures a == b
  {
    forall i | 0 <= i < |a| ensures a[i] == b[i] {
      assert KeysOf(a)[i] == a[i].key && KeysOf(b)[i] == b[i].key;
      assert Settled(ps, peers, cs, a, i) && Settled(ps, peers, cs, b, i);
    }
  }

  // ----- what the new keys are

  /** This entry brings this key, and the netmap did not hold it. */
  predicate Brings(ps: AddrParsers, held: seq<Text>, n: Node, key: Text) {
    NodeIsValid(ps, n) && n.key == key && key !in held
  }

  /** Position of a key's first valid arrival. */
  ghost predicate FirstArrival(ps: AddrParsers, held: seq<Text>, cs: seq<Node>, i: nat, key: Text) {
    && i < |cs|
    && Brings(ps, held, cs[i], key)
    && forall j | 0 <= j < i :: !Brings(ps, held, cs[j], key)
  }

  /** The keys `ks` are distinct, are exactly the arriving ones, and first arrive at the
    * increasing positions `at`.
    */
  ghost predicate InArrivalOrder(ps: AddrParsers, held: seq<Text>, cs: seq<Node>, ks: seq<Text>, at: seq<nat>) {
    && |at| == |ks|
    && (forall a, b | 0 <= a < b < |at| :: at[a] < at[b])
    && (forall a | 0 <= a < |ks| :: FirstArrival(ps, held, cs, at[a], ks[a]))
    && (forall i | 0 <= i < |cs| && Brings(ps, held, cs[i], cs[i].key) :: cs[i].key in ks)
    && (forall a, b | 0 <= a < b < |ks| :: ks[a] != ks[b])
  }

  lemma ArrivalsKeep(ps: AddrParsers, held: seq<Text>, init: seq<Node>, c: Node, ks: seq<Text>, at: seq<nat>)
    requires InArrivalOrder(ps, held, init, ks, at)
    ensures forall a | 0 <= a < |ks| :: FirstArrival(ps, held, init + [c], at[a], ks[a])
    ensures forall i | 0 <= i < |init| && Brings(ps, held, init[i], init[i].key) :: init[i].key in ks
  {
  }

  lemma NothingArrives(ps: AddrParsers, held: seq<Text>, init: seq<Node>, c: Node, ks: seq<Text>, at: seq<nat>)
    requires InArrivalOrder(ps, held, init, ks, at)
    requires !(Brings(ps, held, c, c.key) && c.key !in ks)
    ensures InArrivalOrder(ps, held, init + [c], ks, at)
  {
  }

  lemma NoneEarlier(ps: AddrParsers, held: seq<Text>, init: seq<Node>, c: Node, ks: seq<Text>, at: seq<nat>)
    requires InArrivalOrder(ps, held, init, ks, at)
    requires Brings(ps, held, c, c.key) && c.key !in ks
    ensures FirstArrival(ps, held, init + [c], |init|, c.key)
    ensures forall a | 0 <= a < |at| :: at[a] < |init|
  {
    hide NodeIsValid;
    assert forall a | 0 <= a < |ks| :: FirstArrival(ps, held, init, at[a], ks[a]);
    forall j | 0 <= j < |init| ensures !Brings(ps, held, (init + [c])[j], c.key) {
      assert !(Brings(ps, held, init[j], init[j].key) && init[j].key == c.key);
    }
  }

  lemma KeyArrives(ps: AddrParsers, held: seq<Text>, init: seq<Node>, c: Node, ks: seq<Text>, at: seq<nat>)
    requires InArrivalOrder(ps, held, init, ks, at)
    requires Brings(ps, held, c, c.key) && c.key !in ks
    ensures InArrivalOrder(ps, held, init + [c], ks + [c.key], at + [|init|])
  {
    hide NodeIsValid;
    var cs := init + [c];
    ArrivalsKeep(ps, held, init, c, ks, at);
    NoneEarlier(ps, held, init, c, ks, at);
    hide FirstArrival, Brings;
    assert forall i | 0 <= i < |init| :: cs[i] == init[i];
  }

  /** New keys come in the order of their first valid arrival. */
  lemma {:induction false} NewKeysInArrivalOrder(ps: AddrParsers, held: seq<Text>, cs: seq<Node>) returns (at: seq<nat>)
    ensures InArrivalOrder(ps, held, cs, NewKeys(ps, held, cs), at)
  {
    if cs == [] {
      at := [];
    } else {
      var init, c := cs[..|cs| - 1], cs[|cs| - 1];
      var before := NewKeys(ps, held, init);
      at := NewKeysInArrivalOrder(ps, held, init);
      assert init + [c] == cs;
      if Brings(ps, held, c, c.key) && c.key !in before {
        KeyArrives(ps, held, init, c, before, at);
        at := at + [|init|];
      } else {
        NothingArrives(ps, held, init, c, before, at);
      }
    }
  }

  // ----- counters

  /** How many entries each arm of the loop takes. */
  datatype Tally = Tally(updated: nat, appended: nat, refused: nat, rejected: nat)

  function TallyOf(ps: AddrParsers, peers: seq<Node>, cs: seq<Node>): Tally {
    if cs == [] then Tally(0, 0, 0, 0) else
    var t := TallyOf(ps, peers, cs[..|cs| - 1]);
    var now := UpsertAll(ps, peers, cs[..|cs| - 1]);
    var c := cs[|cs| - 1];
    if !NodeIsValid(ps, c) then t.(rejected := t.rejected + 1)
    else if FirstWithKey(now, c.key).Some? then t.(updated := t.updated + 1)
    else if |now| < MAX_PEERS then t.(appended := t.appended + 1)
    else t.(refused := t.refused + 1)
  }

  /** Entries a finished netmap turned away: valid, but their key is not held at the end. */
  function TurnedAway(ps: AddrParsers, kept: seq<Text>, cs: seq<Node>): nat {
    if cs == [] then 0
    else TurnedAway(ps, kept, cs[..|cs| - 1])
         + if NodeIsValid(ps, cs[|cs| - 1]) && cs[|cs| - 1].key !in kept then 1 else 0
  }

  lemma {:induction false} TurnedAwaySame(ps: AddrParsers, kept: seq<Text>, kept': seq<Text>, cs: seq<Node>)
    requires forall i | 0 <= i < |cs| && NodeIsValid(ps, cs[i]) :: cs[i].key in kept <==> cs[i].key in kept'
    ensures TurnedAway(ps, kept, cs) == TurnedAway(ps, kept', cs)
  {
    if cs != [] {
      TurnedAwaySame(ps, kept, kept', cs[..|cs| - 1]);
    }
  }

  /** With room left, every valid entry's key is held. */
  lemma {:induction false} BelowCapHoldsAll(ps: AddrParsers, peers: seq<Node>, cs: seq<Node>)
    requires |UpsertAll(ps, peers, cs)| < MAX_PEERS
    ensures |peers| <= |UpsertAll(ps, peers, cs)|
    ensures forall i | 0 <= i < |cs| && NodeIsValid(ps, cs[i]) :: cs[i].key in KeysOf(UpsertAll(ps, peers, cs))
  {
    if cs != [] {
      var init, c := cs[..|cs| - 1], cs[|cs| - 1];
      var before := UpsertAll(ps, peers, init);
      BelowCapHoldsAll(ps, peers, init);
      UpsertKeepsKeys(ps, before, c);
      forall i | 0 <= i < |cs| && NodeIsValid(ps, cs[i]) ensures cs[i].key in KeysOf(UpsertAll(ps, peers, cs)) {
        if i < |init| {
          assert init[i] == cs[i];
        }
      }
    }
  }

  /** One entry never drops or moves a key, and holds its own key when it is valid and fits. */
  lemma UpsertKeepsKeys(ps: AddrParsers, peers: seq<Node>, c: Node)
    ensures KeysOf(peers) <= KeysOf(Upsert(ps, peers, c))
    ensures NodeIsValid(ps, c) ==>
              (c.key in KeysOf(Upsert(ps, peers, c)) <==> c.key in KeysOf(peers) || |peers| < MAX_PEERS)
    ensures forall k | k in KeysOf(Upsert(ps, peers, c)) :: k in KeysOf(peers) || k == c.key
  {
    var out := Upsert(ps, peers, c);
    if NodeIsValid(ps, c) {
      match FirstWithKey(peers, c.key)
      case Some(i) =>
        KeysOfUpdate(peers, i, c);
      case None =>
        if |peers| < MAX_PEERS {
          assert KeysOf(out) == KeysOf(peers) + [c.key];
          assert KeysOf(out)[|peers|] == c.key;
        }
    }
  }

  /** Nothing is lost: every entry is updated, appended, refused or rejected, and each count
    * can be read off the input and the final list alone.
    */
  lemma {:induction false} TallyConserves(ps: AddrParsers, peers: seq<Node>, cs: seq<Node>)
    requires |peers| <= MAX_PEERS
    ensures var t := TallyOf(ps, peers, cs);
            var out := UpsertAll(ps, peers, cs);
            && t.updated + t.appended + t.refused + t.rejected == |cs|
            && t.appended == |out| - |peers|
            && t.rejected == |cs| - |ValidNodes(ps, cs)|
            && t.refused == TurnedAway(ps, KeysOf(out), cs)
            && |out| <= MAX_PEERS
  {
    if cs != [] {
      var init, c := cs[..|cs| - 1], cs[|cs| - 1];
      var before := UpsertAll(ps, peers, init);
      var out := UpsertAll(ps, peers, cs);
      TallyConserves(ps, peers, init);
      UpsertKeepsKeys(ps, before, c);
      if |before| < MAX_PEERS {
        BelowCapHoldsAll(ps, peers, init);
      } else {
        assert KeysOf(out) == KeysOf(before);
      }
      TurnedAwaySame(ps, KeysOf(before), KeysOf(out), init);
    }
  }
}
