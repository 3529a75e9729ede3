/** Harmful deltas: every condition of `IsHarmless` is needed, so it is exact. */
module NetmapHarmful {
  import opened Prelude
  import opened Validate
  import opened NetmapModel
  import opened NetmapRuns
  import opened NetmapPatch
  import opened NetmapRedelivery
  import NetmapHarmless
  import NetmapUpsert
  import NetmapRemoval
  import Keys

  // ----- spare keys, ids and names

  /** The node key whose bytes spell this number. */
  function NumberedKey(i: nat): Text {
    Keys.ToHex(Keys.NodeKey, Digits(i, Keys.KEY_LEN))
  }

  lemma NumberedKeysDiffer(i: nat, j: nat)
    requires i < j < 0x1_0000_0000_0000_0000
    ensures NumberedKey(i) != NumberedKey(j)
  {
    DigitsDistinguish(i, j, Keys.KEY_LEN);
    Keys.KeyRoundTrip(Keys.NodeKey, Digits(i, Keys.KEY_LEN));
    Keys.KeyRoundTrip(Keys.NodeKey, Digits(j, Keys.KEY_LEN));
  }

  lemma {:induction false} MembersAreFew<T>(s: seq<T>)
    ensures |set x | x in s| <= |s|
  {
    if s != [] {
      var init, x := s[..|s| - 1], s[|s| - 1];
      MembersAreFew(init);
      assert s == init + [x];
      assert (set y | y in s) == (set y | y in init) + {x};
    }
  }

  lemma SubsetIsFewer<T>(a: set<T>, b: set<T>)
    requires a <= b
    ensures |a| <= |b|
  {
    assert |b| == |a| + |b - a| by {
      assert b == a + (b - a);
    }
  }

  /** A list leaves out some member of every larger set. */
  lemma OneIsSpare<T>(many: set<T>, used: seq<T>) returns (x: T)
    requires |many| > |used|
    ensures x in many && x !in used
  {
    var few := set x | x in used;
    MembersAreFew(used);
    if many <= few {
      SubsetIsFewer(many, few);
    }
    x :| x in many && x !in few;
  }

  ghost function FirstKeys(n: nat): set<Text> {
    if n == 0 then {} else FirstKeys(n - 1) + {NumberedKey(n - 1)}
  }

  lemma {:induction false} FirstKeysAreMany(n: nat)
    requires n <= 0x1_0000_0000_0000_0000
    ensures |FirstKeys(n)| == n
    ensures forall k | k in FirstKeys(n) :: IsValidNodeKey(k) && exists i: nat | i < n :: k == NumberedKey(i)
  {
    if n > 0 {
      FirstKeysAreMany(n - 1);
      Keys.KeyRoundTrip(Keys.NodeKey, Digits(n - 1, Keys.KEY_LEN));
      if NumberedKey(n - 1) in FirstKeys(n - 1) {
        var i: nat :| i < n - 1 && NumberedKey(n - 1) == NumberedKey(i);
        NumberedKeysDiffer(i, n - 1);
      }
    }
  }

  /** A valid node key outside a list that could be held in memory. */
  lemma SpareKey(used: seq<Text>) returns (k: Text)
    requires |used| < 0x1_0000_0000_0000_0000
    ensures IsValidNodeKey(k) && k !in used
  {
    FirstKeysAreMany(|used| + 1);
    k := OneIsSpare(FirstKeys(|used| + 1), used);
  }

  ghost function FirstNumbers(n: nat): set<int> {
    if n == 0 then {} else FirstNumbers(n - 1) + {n - 1}
  }

  lemma {:induction false} FirstNumbersAreMany(n: nat)
    ensures |FirstNumbers(n)| == n && forall i | i in FirstNumbers(n) :: 0 <= i < n
  {
    if n > 0 {
      FirstNumbersAreMany(n - 1);
    }
  }

  /** An id outside a list and no larger than its length. */
  lemma SpareId(used: seq<int>) returns (id: int)
    ensures 0 <= id <= |used| && id !in used
  {
    FirstNumbersAreMany(|used| + 1);
    id := OneIsSpare(FirstNumbers(|used| + 1), used);
  }

  /** The keys a removal list names. */
  function RemovedKeys(rs: seq<PeerRemoval>): (ks: seq<Text>)
    ensures |ks| == |rs|
    ensures forall k | NodeKey(k) in rs :: k in ks
  {
    var ks := seq(|rs|, i requires 0 <= i < |rs| => if rs[i].NodeKey? then rs[i].key else []);
    assert forall i | 0 <= i < |rs| && rs[i].NodeKey? :: ks[i] == rs[i].key;
    ks
  }

  function RemovedIds(rs: seq<PeerRemoval>): (ids: seq<int>)
    ensures |ids| == |rs|
    ensures forall id | NodeId(id) in rs :: id in ids
  {
    var ids := seq(|rs|, i requires 0 <= i < |rs| => if rs[i].NodeId? then rs[i].id else 0);
    assert forall i | 0 <= i < |rs| && rs[i].NodeId? :: ids[i] == rs[i].id;
    ids
  }

  function PatchedIds(qs: seq<PeerChange>): (ids: seq<int>)
    ensures |ids| == |qs|
    ensures forall i | 0 <= i < |qs| :: qs[i].nodeId in ids
  {
    var ids := seq(|qs|, i requires 0 <= i < |qs| => qs[i].nodeId);
    assert forall i | 0 <= i < |qs| :: ids[i] == qs[i].nodeId;
    ids
  }

  /** An id that is neither removed nor patched. */
  lemma BystanderId(rs: seq<PeerRemoval>, qs: seq<PeerChange>) returns (id: int)
    ensures 0 <= id <= |rs| + |qs|
    ensures NodeId(id) !in rs && LastKey(qs, id).None?
  {
    id := SpareId(RemovedIds(rs) + PatchedIds(qs));
    if LastKey(qs, id).Some? {
      var _ := PatchedById(qs, id);
    }
  }

  /** None of the nodes has this name. */
  predicate Nameless(ns: seq<Node>, name: Text) {
    forall i | 0 <= i < |ns| :: ns[i].name != name
  }

  lemma {:induction false} SpareName(ns: seq<Node>) returns (name: Text)
    ensures forall i | 0 <= i < |ns| :: |ns[i].name| < |name|
    ensures Nameless(ns, name)
  {
    name := [0];
    if ns != [] {
      var init, n := ns[..|ns| - 1], ns[|ns| - 1];
      name := SpareName(init);
      assert ns == init + [n];
      if |n.name| >= |name| {
        name := n.name + [0];
      }
    }
  }

  // ----- a named peer disappears

  /** The peer at this position, and no other, has this name. */
  predicate OnlyAt(ns: seq<Node>, name: Text, f: nat) {
    f < |ns| && forall i | 0 <= i < |ns| :: ns[i].name == name <==> i == f
  }

  /** A list of survivors and patches keeps every peer's name. */
  lemma NamelessAfterwards(ps: AddrParsers, rs: seq<PeerRemoval>, ns: seq<Node>, qs: seq<PeerChange>, name: Text)
    requires forall i | 0 <= i < |ns| :: Removes(rs, ns[i]) || ns[i].name != name
    ensures Nameless(PatchAll(ps, Survivors(rs, ns), qs), name)
  {
    hide PatchAll, Survivors, Removes;
    var a := Survivors(rs, ns);
    NetmapRemoval.SurvivorsNotNamed(rs, ns);
    PatchClosedForm(ps, a, qs);
    var b := PatchAll(ps, a, qs);
    forall i | 0 <= i < |b| ensures b[i].name != name {
      assert a[i] in ns;
      assert b[i] == PatchedAt(ps, a, qs, i);
    }
  }

  /** Changes leave at each position what was there or one of the changes. */
  lemma UpsertedIsOldOrChange(ps: AddrParsers, peers: seq<Node>, cs: seq<Node>, i: nat)
    requires |peers| <= MAX_PEERS && i < |UpsertAll(ps, peers, cs)|
    ensures var n := UpsertAll(ps, peers, cs)[i];
            n in cs || (i < |peers| && n == peers[i])
  {
    hide UpsertAll, NetmapUpsert.KeptKeys, NetmapUpsert.LastValid;
    var out := UpsertAll(ps, peers, cs);
    NetmapUpsert.UpsertClosedForm(ps, peers, cs);
    assert NetmapUpsert.Settled(ps, peers, cs, out, i);
    LastValidIsChange(ps, cs, out[i].key);
  }

  /** If the one peer of that name is overwritten or removed, the delivery changes the list. */
  lemma Disappears(ps: AddrParsers, q: seq<Node>, r: MapResponse, name: Text, f: nat)
    requires |q| <= MAX_PEERS && OnlyAt(q, name, f) && Nameless(ChangesOf(r), name)
    requires var again := UpsertAll(ps, q, ChangesOf(r));
             f < |again| && (Removes(RemovalsOf(r), again[f]) || again[f].name != name)
    ensures Delivered(ps, q, r) != q
  {
    hide UpsertAll, PatchAll, Survivors, Removes;
    var again := UpsertAll(ps, q, ChangesOf(r));
    forall i | 0 <= i < |again| ensures Removes(RemovalsOf(r), again[i]) || again[i].name != name {
      UpsertedIsOldOrChange(ps, q, ChangesOf(r), i);
    }
    NamelessAfterwards(ps, RemovalsOf(r), again, PatchesOf(r), name);
    assert q[f].name == name;
  }

  /** The first peer with a changed key is overwritten. */
  lemma Overwritten(ps: AddrParsers, q: seq<Node>, r: MapResponse, name: Text, f: nat)
    requires |q| <= MAX_PEERS && OnlyAt(q, name, f) && Nameless(ChangesOf(r), name)
    requires NetmapUpsert.IsFirst(KeysOf(q), f) && NetmapUpsert.LastValid(ps, ChangesOf(r), q[f].key).Some?
    ensures Delivered(ps, q, r) != q
  {
    hide UpsertAll, Delivered, NetmapUpsert.NewKeys, NetmapUpsert.LastValid;
    PlaceKept(ps, q, ChangesOf(r), f);
    var again := UpsertAll(ps, q, ChangesOf(r));
    assert NetmapUpsert.IsFirst(KeysOf(again), f);
    LastValidIsChange(ps, ChangesOf(r), q[f].key);
    Disappears(ps, q, r, name, f);
  }

  /** A peer with a removed key goes, changed or not. */
  lemma RemovedByKey(ps: AddrParsers, q: seq<Node>, r: MapResponse, name: Text, f: nat)
    requires |q| <= MAX_PEERS && OnlyAt(q, name, f) && Nameless(ChangesOf(r), name)
    requires NodeKey(q[f].key) in RemovalsOf(r)
    ensures Delivered(ps, q, r) != q
  {
    hide UpsertAll, Delivered;
    PlaceKept(ps, q, ChangesOf(r), f);
    NetmapRemoval.RemovesByMembership(RemovalsOf(r), UpsertAll(ps, q, ChangesOf(r))[f]);
    Disappears(ps, q, r, name, f);
  }

  /** A position keeps its key through the changes, and is settled by them. */
  lemma PlaceKept(ps: AddrParsers, q: seq<Node>, cs: seq<Node>, f: nat)
    requires |q| <= MAX_PEERS && f < |q|
    ensures var again := UpsertAll(ps, q, cs);
            && |q| <= |again| && again[f].key == q[f].key && NetmapUpsert.Settled(ps, q, cs, again, f)
            && forall j | 0 <= j < |q| :: KeysOf(again)[j] == KeysOf(q)[j]
  {
    hide UpsertAll, NetmapUpsert.NewKeys, NetmapUpsert.Settled;
    var again := UpsertAll(ps, q, cs);
    NetmapUpsert.UpsertClosedForm(ps, q, cs);
    NetmapUpsert.KeptKeysWithinCap(ps, KeysOf(q), cs);
    assert |again| == |KeysOf(again)|;
    assert KeysOf(again)[f] == again[f].key && KeysOf(q)[f] == q[f].key;
  }

  // ----- first deliveries

  function Named(id: int, key: Text, name: Text): Node { BareNode(id, key).(name := name) }

  lemma DeliveredIsGood(ps: AddrParsers, peers: seq<Node>, r: MapResponse)
    requires AllValid(ps, peers) && |peers| <= MAX_PEERS
    ensures AllValid(ps, Delivered(ps, peers, r)) && |Delivered(ps, peers, r)| <= MAX_PEERS
  {
    var a := UpsertAll(ps, peers, ChangesOf(r));
    UpsertAllIsGood(ps, peers, ChangesOf(r));
    SurvivorsAreGood(ps, RemovalsOf(r), a);
    PatchAllIsGood(ps, Survivors(RemovalsOf(r), a), PatchesOf(r));
  }

  /** What survives of a list whose front survives as `front` and whose back is changes. */
  lemma FrontOfDelivered(ps: AddrParsers, q: seq<Node>, r: MapResponse, front: seq<Node>, name: Text)
    requires |q| <= MAX_PEERS && |q| <= |UpsertAll(ps, q, ChangesOf(r))| && Nameless(ChangesOf(r), name)
    requires Survivors(RemovalsOf(r), UpsertAll(ps, q, ChangesOf(r))[..|q|]) == front
    ensures var a := Survivors(RemovalsOf(r), UpsertAll(ps, q, ChangesOf(r)));
            front <= a && Nameless(a[|front|..], name)
  {
    hide UpsertAll;
    var out := UpsertAll(ps, q, ChangesOf(r));
    var back := out[|q|..];
    assert out == out[..|q|] + back;
    SelectConcat(out[..|q|], back, NotRemoved(RemovalsOf(r)));
    NetmapRemoval.SurvivorsNotNamed(RemovalsOf(r), back);
    forall n | n in back ensures n.name != name {
      var i :| 0 <= i < |back| && back[i] == n;
      UpsertedIsOldOrChange(ps, q, ChangesOf(r), |q| + i);
    }
    var gone := Survivors(RemovalsOf(r), back);
    assert forall i | 0 <= i < |gone| :: gone[i] in back;
    assert (front + gone)[|front|..] == gone;
  }

  /** A peer whose id is given a key ends up with it, alone of its name. */
  lemma RotatedFirst(ps: AddrParsers, r: MapResponse, id: int, spare: Text, name: Text) returns (once: seq<Node>)
    requires NodeId(id) !in RemovalsOf(r) && LastKey(PatchesOf(r), id).Some?
    requires NodeKey(spare) !in RemovalsOf(r) && NetmapUpsert.LastValid(ps, ChangesOf(r), spare).None?
    requires Nameless(ChangesOf(r), name)
    ensures once == Delivered(ps, [Named(id, spare, name)], r)
    ensures OnlyAt(once, name, 0) && once[0].key == LastKey(PatchesOf(r), id).value
  {
    hide UpsertAll, PatchAll, Survivors, LastKey, NetmapUpsert.LastValid;
    var cs, rs, qs := ChangesOf(r), RemovalsOf(r), PatchesOf(r);
    var n := Named(id, spare, name);
    PlaceKept(ps, [n], cs, 0);
    assert UpsertAll(ps, [n], cs)[..1] == [n];
    NetmapRemoval.RemovesByMembership(rs, n);
    SelectAll([n], NotRemoved(rs));
    assert Survivors(rs, [n]) == [n] by { SurvivesAlone(rs, n); }
    FrontOfDelivered(ps, [n], r, [n], name);
    var a := Survivors(rs, UpsertAll(ps, [n], cs));
    once := PatchAll(ps, a, qs);
    OnlyInFront(a, [n], name, 0);
    FirstIsPatched(ps, a, qs);
    NamesKept(ps, a, qs);
  }

  lemma SurvivesAlone(rs: seq<PeerRemoval>, n: Node)
    requires !Removes(rs, n)
    ensures Survivors(rs, [n]) == [n]
  {
    SelectAll([n], NotRemoved(rs));
  }

  /** The first peer of all is the first of its id. */
  lemma FirstIsPatched(ps: AddrParsers, a: seq<Node>, qs: seq<PeerChange>)
    requires a != [] && LastKey(qs, a[0].id).Some?
    ensures |PatchAll(ps, a, qs)| == |a| && PatchAll(ps, a, qs)[0].key == LastKey(qs, a[0].id).value
  {
    hide PatchAll, ForId, Latest, IsValidNodeKey;
    PatchClosedForm(ps, a, qs);
    CollapsedIsAccepted(ps, a[0].id, ForId(qs, a[0].id));
    assert IdsOf(a)[0] == a[0].id;
  }

  lemma NamesKept(ps: AddrParsers, a: seq<Node>, qs: seq<PeerChange>)
    ensures |PatchAll(ps, a, qs)| == |a| && forall i | 0 <= i < |a| :: PatchAll(ps, a, qs)[i].name == a[i].name
  {
    hide PatchAll;
    PatchClosedForm(ps, a, qs);
    assert forall i | 0 <= i < |a| :: PatchAll(ps, a, qs)[i] == PatchedAt(ps, a, qs, i);
  }

  /** A rotation onto a removed key, or onto a changed one, undoes itself the second time. */
  lemma RotationFails(ps: AddrParsers, r: MapResponse, id: int, spare: Text)
    requires r.peers.None? && NodeId(id) !in RemovalsOf(r) && LastKey(PatchesOf(r), id).Some?
    requires IsValidNodeKey(spare) && NodeKey(spare) !in RemovalsOf(r)
    requires NetmapUpsert.LastValid(ps, ChangesOf(r), spare).None?
    requires var key := LastKey(PatchesOf(r), id).value;
             NodeKey(key) in RemovalsOf(r) || NetmapUpsert.LastValid(ps, ChangesOf(r), key).Some?
    ensures !Redeliverable(ps, r)
  {
    hide Delivered, LastKey, NetmapUpsert.LastValid;
    var name := SpareName(ChangesOf(r));
    var p := [Named(id, spare, name)];
    var once := RotatedFirst(ps, r, id, spare, name);
    assert AllValid(ps, p) by { assert NodeIsValid(ps, p[0]); }
    DeliveredIsGood(ps, p, r);
    if NodeKey(once[0].key) in RemovalsOf(r) {
      RemovedByKey(ps, once, r, name, 0);
    } else {
      Overwritten(ps, once, r, name, 0);
    }
    if Redeliverable(ps, r) {
      DeliveredTwice(ps, p, r);
    }
  }

  /** Two peers with a changed key: the first takes on the last change, the second stays. */
  lemma PairChanged(ps: AddrParsers, cs: seq<Node>, n: Node)
    requires NetmapUpsert.LastValid(ps, cs, n.key).Some?
    ensures var out := UpsertAll(ps, [n, n], cs);
            |out| >= 2 && out[..2] == [NetmapUpsert.LastValid(ps, cs, n.key).value, n]
  {
    hide UpsertAll, NetmapUpsert.LastValid;
    PlaceKept(ps, [n, n], cs, 0);
    PlaceKept(ps, [n, n], cs, 1);
    var out := UpsertAll(ps, [n, n], cs);
    assert KeysOf([n, n])[0] == n.key && KeysOf([n, n])[1] == n.key;
    assert NetmapUpsert.IsFirst(KeysOf(out), 0) && !NetmapUpsert.IsFirst(KeysOf(out), 1);
  }

  /** Of such a pair the second is, after the delivery, the first with the key, if the last change
    * goes by its id or is given another key.
    */
  lemma PairDelivered(ps: AddrParsers, r: MapResponse, n: Node) returns (once: seq<Node>, f: nat)
    requires Nameless(ChangesOf(r), n.name) && !Removes(RemovalsOf(r), n) && LastKey(PatchesOf(r), n.id).None?
    requires NetmapUpsert.LastValid(ps, ChangesOf(r), n.key).Some?
    requires var last := NetmapUpsert.LastValid(ps, ChangesOf(r), n.key).value;
             Removes(RemovalsOf(r), last)
             || (LastKey(PatchesOf(r), last.id).Some? && LastKey(PatchesOf(r), last.id).value != n.key)
    ensures once == Delivered(ps, [n, n], r)
    ensures OnlyAt(once, n.name, f) && once[f].key == n.key && NetmapUpsert.IsFirst(KeysOf(once), f)
  {
    hide UpsertAll, PatchAll, Survivors, LastKey, Removes, NetmapUpsert.LastValid;
    var cs, rs, qs := ChangesOf(r), RemovalsOf(r), PatchesOf(r);
    var last := NetmapUpsert.LastValid(ps, cs, n.key).value;
    PairChanged(ps, cs, n);
    PairSurvives(rs, last, n);
    var front := if Removes(rs, last) then [n] else [last, n];
    FrontOfDelivered(ps, [n, n], r, front, n.name);
    var a := Survivors(rs, UpsertAll(ps, [n, n], cs));
    once := PatchAll(ps, a, qs);
    f := |front| - 1;
    LastValidIsChange(ps, cs, n.key);
    OnlyInFront(a, front, n.name, f);
    PairPatched(ps, a, qs, f);
  }

  lemma OnlyInFront(a: seq<Node>, front: seq<Node>, name: Text, f: nat)
    requires front <= a && Nameless(a[|front|..], name) && OnlyAt(front, name, f)
    ensures OnlyAt(a, name, f) && a[..|front|] == front
  {
    assert forall i | |front| <= i < |a| :: a[i] == a[|front|..][i - |front|];
  }

  /** A bystander after at most one peer, which is given another key. */
  lemma PairPatched(ps: AddrParsers, a: seq<Node>, qs: seq<PeerChange>, f: nat)
    requires f <= 1 && f < |a| && OnlyAt(a, a[f].name, f) && LastKey(qs, a[f].id).None?
    requires f == 1 ==> LastKey(qs, a[0].id).Some? && LastKey(qs, a[0].id).value != a[1].key
    ensures var b := PatchAll(ps, a, qs);
            OnlyAt(b, a[f].name, f) && b[f].key == a[f].key && NetmapUpsert.IsFirst(KeysOf(b), f)
  {
    hide PatchAll, LastKey, PatchedAt;
    var b := PatchAll(ps, a, qs);
    NamesKept(ps, a, qs);
    PatchClosedForm(ps, a, qs);
    NetmapHarmless.PatchedKey(ps, a, qs, f);
    assert b[f] == PatchedAt(ps, a, qs, f);
    if f == 1 {
      FirstIsPatched(ps, a, qs);
      assert KeysOf(b)[0] == b[0].key && KeysOf(b)[1] == b[1].key;
    }
  }

  lemma PairSurvives(rs: seq<PeerRemoval>, last: Node, n: Node)
    requires !Removes(rs, n)
    ensures Survivors(rs, [last, n]) == if Removes(rs, last) then [n] else [last, n]
  {
    assert [last, n] == [last] + [n];
    SelectConcat([last], [n], NotRemoved(rs));
    SelectAll([n], NotRemoved(rs));
    if Removes(rs, last) {
      SelectNone([last], NotRemoved(rs));
    } else {
      SelectAll([last], NotRemoved(rs));
    }
  }

  /** A last change that goes by its id, or is given another key, while its key stays. */
  lemma ChangeFails(ps: AddrParsers, r: MapResponse, k: Text)
    requires r.peers.None? && NodeKey(k) !in RemovalsOf(r) && NetmapUpsert.LastValid(ps, ChangesOf(r), k).Some?
    requires var last := NetmapUpsert.LastValid(ps, ChangesOf(r), k).value;
             NodeId(last.id) in RemovalsOf(r)
             || (LastKey(PatchesOf(r), last.id).Some? && LastKey(PatchesOf(r), last.id).value != k)
    ensures !Redeliverable(ps, r)
  {
    hide Delivered, LastKey, NetmapUpsert.LastValid, Removes, Redeliverable;
    var last := NetmapUpsert.LastValid(ps, ChangesOf(r), k).value;
    LastValidIsChange(ps, ChangesOf(r), k);
    var name := SpareName(ChangesOf(r));
    var id := BystanderId(RemovalsOf(r), PatchesOf(r));
    var n := Named(id, k, name);
    NetmapRemoval.RemovesByMembership(RemovalsOf(r), n);
    NetmapRemoval.RemovesByMembership(RemovalsOf(r), last);
    var once, f := PairDelivered(ps, r, n);
    assert AllValid(ps, [n, n]) by { assert NodeIsValid(ps, n); }
    DeliveredIsGood(ps, [n, n], r);
    Overwritten(ps, once, r, name, f);
    if Redeliverable(ps, r) {
      DeliveredTwice(ps, [n, n], r);
    }
  }

  // ----- a full netmap

  lemma SurvivesIfNotNamed(rs: seq<PeerRemoval>, ns: seq<Node>, n: Node)
    requires n in ns && !Removes(rs, n)
    ensures n.key in KeysOf(Survivors(rs, ns))
  {
    SelectMembers(ns, NotRemoved(rs));
    assert NotRemoved(rs)(n);
    var i :| 0 <= i < |Survivors(rs, ns)| && Survivors(rs, ns)[i] == n;
    assert KeysOf(Survivors(rs, ns))[i] == n.key;
  }

  function Copies(n: Node): (ns: seq<Node>)
    ensures |ns| == MAX_PEERS && forall i | 0 <= i < |ns| :: ns[i] == n
  {
    seq(MAX_PEERS, _ => n)
  }

  /** A netmap full of copies of a named peer that the changes cannot save is emptied. */
  lemma FullOfNamedIsEmptied(ps: AddrParsers, r: MapResponse, w: Node)
    requires Removes(RemovalsOf(r), w)
    requires NodeKey(w.key) in RemovalsOf(r) || w.key !in KeysOf(ChangesOf(r))
    ensures Delivered(ps, Copies(w), r) == []
  {
    hide UpsertAll, PatchAll, NetmapUpsert.NewKeys, NetmapUpsert.LastValid;
    var cs, rs := ChangesOf(r), RemovalsOf(r);
    var full := Copies(w);
    var a := UpsertAll(ps, full, cs);
    NetmapUpsert.UpsertClosedForm(ps, full, cs);
    NetmapUpsert.KeptKeysWithinCap(ps, KeysOf(full), cs);
    assert |a| == |KeysOf(a)|;
    forall i | 0 <= i < |a| ensures Removes(rs, a[i]) {
      assert KeysOf(a)[i] == KeysOf(full)[i] == w.key && a[i].key == w.key;
      assert NetmapUpsert.Settled(ps, full, cs, a, i);
      NoChangeOutside(ps, cs, w.key);
      NetmapRemoval.RemovesByMembership(rs, a[i]);
    }
    SelectNone(a, NotRemoved(rs));
    PatchClosedForm(ps, [], PatchesOf(r));
  }

  lemma NoChangeOutside(ps: AddrParsers, cs: seq<Node>, key: Text)
    ensures key !in KeysOf(cs) ==> NetmapUpsert.LastValid(ps, cs, key).None?
  {
    LastValidIsChange(ps, cs, key);
    var last := NetmapUpsert.LastValid(ps, cs, key);
    if last.Some? {
      var i :| 0 <= i < |cs| && cs[i] == last.value;
      assert KeysOf(cs)[i] == key;
    }
  }

  /** An empty netmap admits a key that is not removed. */
  lemma EmptyAdmits(ps: AddrParsers, r: MapResponse, k: Text)
    requires k in NetmapUpsert.KeptKeys(ps, [], ChangesOf(r))
    requires NodeKey(k) !in RemovalsOf(r) && KeepsLastChange(ps, ChangesOf(r), RemovalsOf(r), k)
    ensures Delivered(ps, [], r) != []
  {
    hide UpsertAll, PatchAll, Survivors, NetmapUpsert.NewKeys, NetmapUpsert.LastValid;
    var cs, rs := ChangesOf(r), RemovalsOf(r);
    var a := UpsertAll(ps, [], cs);
    NetmapUpsert.UpsertClosedForm(ps, [], cs);
    assert KeysOf([]) == [];
    var f := FirstWithKey(a, k).value;
    assert forall j | 0 <= j < |a| :: KeysOf(a)[j] == a[j].key;
    assert NetmapUpsert.Settled(ps, [], cs, a, f);
    NetmapRemoval.RemovesByMembership(rs, a[f]);
    SurvivesIfNotNamed(rs, a, a[f]);
    PatchClosedForm(ps, Survivors(rs, a), PatchesOf(r));
  }

  /** A full netmap of named peers refuses what the emptied one then admits. */
  lemma RefusedThenAdmitted(ps: AddrParsers, r: MapResponse, k: Text, spare: Text)
    requires r.peers.None? && !NamesNobody(RemovalsOf(r)) && k in NetmapUpsert.KeptKeys(ps, [], ChangesOf(r))
    requires NodeKey(k) !in RemovalsOf(r) && KeepsLastChange(ps, ChangesOf(r), RemovalsOf(r), k)
    requires IsValidNodeKey(spare) && spare !in KeysOf(ChangesOf(r))
    ensures !Redeliverable(ps, r)
  {
    hide Delivered, NetmapUpsert.KeptKeys, KeepsLastChange;
    var rs := RemovalsOf(r);
    var i :| 0 <= i < |rs| && !(rs[i].Unrecognized? || (rs[i].NodeKey? && !IsValidNodeKey(rs[i].key)));
    var w := if rs[i].NodeId? then BareNode(rs[i].id, spare) else BareNode(0, rs[i].key);
    NetmapRemoval.RemovesByMembership(rs, w);
    FullOfNamedIsEmptied(ps, r, w);
    EmptyAdmits(ps, r, k);
    assert NodeIsValid(ps, w);
    if Redeliverable(ps, r) {
      DeliveredTwice(ps, Copies(w), r);
    }
  }

  // ----- the exact condition

  lemma ApartOrNot(ps: AddrParsers, r: MapResponse, id: int, k: Text, spare: Text)
    requires r.peers.None? && !Apart(ps, ChangesOf(r), RemovalsOf(r), PatchesOf(r), id, k)
    requires IsValidNodeKey(spare) && NodeKey(spare) !in RemovalsOf(r)
    requires NetmapUpsert.LastValid(ps, ChangesOf(r), spare).None?
    ensures !Redeliverable(ps, r)
  {
    hide Redeliverable, LastKey, NetmapUpsert.LastValid;
    if LastKey(PatchesOf(r), id).value == k {
      RotationFails(ps, r, id, spare);
    } else {
      ChangeFails(ps, r, k);
    }
  }

  /** A delta that violates a condition is not harmless on every netmap. */
  lemma HarmfulFails(ps: AddrParsers, r: MapResponse, spare: Text)
    requires r.peers.None? && !IsHarmless(ps, r)
    requires IsValidNodeKey(spare) && NodeKey(spare) !in RemovalsOf(r) && spare !in KeysOf(ChangesOf(r))
    ensures !Redeliverable(ps, r)
  {
    hide Redeliverable, NamesNobody, LastKey, NetmapUpsert.LastValid, NetmapUpsert.KeptKeys, Apart;
    var cs, rs, qs := ChangesOf(r), RemovalsOf(r), PatchesOf(r);
    NoChangeOutside(ps, cs, spare);
    if !KeepsLastChanges(ps, cs, rs) {
      var i :| 0 <= i < |cs| && !KeepsLastChange(ps, cs, rs, cs[i].key);
      ChangeFails(ps, r, cs[i].key);
    } else if !AvoidsRemoved(rs, qs) {
      var i :| 0 <= i < |qs| && NodeId(qs[i].nodeId) !in rs && LastKey(qs, qs[i].nodeId).Some?
               && NodeKey(LastKey(qs, qs[i].nodeId).value) in rs;
      RotationFails(ps, r, qs[i].nodeId, spare);
    } else if !KeepsApart(ps, cs, rs, qs) {
      var i, j :| 0 <= i < |qs| && 0 <= j < |cs| && !Apart(ps, cs, rs, qs, qs[i].nodeId, cs[j].key);
      ApartOrNot(ps, r, qs[i].nodeId, cs[j].key, spare);
    } else {
      NotAdmitted(ps, r, spare);
    }
  }

  lemma NotAdmitted(ps: AddrParsers, r: MapResponse, spare: Text)
    requires r.peers.None? && !NamesNobody(RemovalsOf(r))
    requires !RemovesAdmitted(ps, ChangesOf(r), RemovalsOf(r)) && KeepsLastChanges(ps, ChangesOf(r), RemovalsOf(r))
    requires IsValidNodeKey(spare) && spare !in KeysOf(ChangesOf(r))
    ensures !Redeliverable(ps, r)
  {
    hide Redeliverable, NamesNobody, KeepsLastChanges, KeepsLastChange, NetmapUpsert.KeptKeys;
    var cs, rs := ChangesOf(r), RemovalsOf(r);
    var first := NetmapUpsert.KeptKeys(ps, [], cs);
    var i :| 0 <= i < |first| && NodeKey(first[i]) !in rs;
    LastChangeStays(ps, cs, rs, first[i]);
    RefusedThenAdmitted(ps, r, first[i], spare);
  }

  lemma HarmlessIsRedeliverable(ps: AddrParsers, r: MapResponse)
    requires r.peers.None? && IsHarmless(ps, r)
    ensures Redeliverable(ps, r)
  {
    hide IsHarmless, Twice;
    forall m | Inv(ps, m) ensures Twice(ps, m, r) {
      NetmapHarmless.RedeliveryIsNoOp(ps, m, r);
    }
  }

  /** For every delta without a full list: delivering it again is a no-op on every netmap exactly
    * when it is harmless. No memory holds lists of 2^64 entries.
    */
  lemma RedeliverableIff(ps: AddrParsers, r: MapResponse)
    requires r.peers.None? && |ChangesOf(r)| + |RemovalsOf(r)| < 0x1_0000_0000_0000_0000
    ensures Redeliverable(ps, r) <==> IsHarmless(ps, r)
  {
    hide IsHarmless, Redeliverable;
    if IsHarmless(ps, r) {
      HarmlessIsRedeliverable(ps, r);
    } else {
      var spare := SpareKey(KeysOf(ChangesOf(r)) + RemovedKeys(RemovalsOf(r)));
      HarmfulFails(ps, r, spare);
    }
  }

  // ----- plainer conditions for two kinds of delta

  /** Every valid change is to a key that the same delta removes; in particular if there is none. */
  predicate SweepsChanges(ps: AddrParsers, cs: seq<Node>, rs: seq<PeerRemoval>) {
    forall i | 0 <= i < |cs| && NodeIsValid(ps, cs[i]) :: NodeKey(cs[i].key) in rs
  }

  /** The keys an empty netmap would admit are keys of valid changes, and within the cap all. */
  lemma AdmittedAreChanges(ps: AddrParsers, cs: seq<Node>)
    ensures var admitted := NetmapUpsert.KeptKeys(ps, [], cs);
            && (forall k | k in admitted :: NetmapUpsert.LastValid(ps, cs, k).Some?)
            && (|cs| <= MAX_PEERS ==> forall i | 0 <= i < |cs| && NodeIsValid(ps, cs[i]) :: cs[i].key in admitted)
  {
    hide NodeIsValid, NetmapUpsert.LastValid;
    var admitted, all := NetmapUpsert.KeptKeys(ps, [], cs), NetmapUpsert.NewKeys(ps, [], cs);
    var at := NetmapUpsert.NewKeysInArrivalOrder(ps, [], cs);
    NewKeysAreFew(ps, [], cs);
    assert [] + all == all;
    assert |cs| <= MAX_PEERS ==> admitted == all;
    hide NetmapUpsert.KeptKeys, NetmapUpsert.NewKeys;
    forall k | k in admitted ensures NetmapUpsert.LastValid(ps, cs, k).Some? {
      assert k in all;
      var a :| 0 <= a < |all| && all[a] == k;
      assert NetmapUpsert.FirstArrival(ps, [], cs, at[a], k);
      LastValidIsChange(ps, cs, k);
    }
    if |cs| <= MAX_PEERS {
      forall i | 0 <= i < |cs| && NodeIsValid(ps, cs[i]) ensures cs[i].key in admitted {
        assert NetmapUpsert.Brings(ps, [], cs[i], cs[i].key);
      }
    }
  }

  lemma {:induction false} NewKeysAreFew(ps: AddrParsers, held: seq<Text>, cs: seq<Node>)
    ensures |NetmapUpsert.NewKeys(ps, held, cs)| <= |cs|
  {
    if cs != [] {
      NewKeysAreFew(ps, held, cs[..|cs| - 1]);
    }
  }

  /** Where every valid change is to a removed key, no changed key stays. */
  lemma SweptKeysGo(ps: AddrParsers, cs: seq<Node>, rs: seq<PeerRemoval>, k: Text)
    requires SweepsChanges(ps, cs, rs) && NetmapUpsert.LastValid(ps, cs, k).Some?
    ensures NodeKey(k) in rs
  {
    hide NodeIsValid;
    LastValidIsChange(ps, cs, k);
    var last := NetmapUpsert.LastValid(ps, cs, k).value;
    var i :| 0 <= i < |cs| && cs[i] == last;
  }

  /** For deltas without a full list whose valid changes, if any, are all to keys they remove, the
    * patches alone decide.
    */
  lemma SweptRedeliverableIff(ps: AddrParsers, r: MapResponse)
    requires r.peers.None? && SweepsChanges(ps, ChangesOf(r), RemovalsOf(r))
    requires |RemovalsOf(r)| < 0x1_0000_0000_0000_0000
    ensures Redeliverable(ps, r) <==> AvoidsRemoved(RemovalsOf(r), PatchesOf(r))
  {
    hide Redeliverable, SweepsChanges, LastKey, NetmapUpsert.LastValid, NetmapUpsert.KeptKeys;
    var cs, rs, qs := ChangesOf(r), RemovalsOf(r), PatchesOf(r);
    forall k | NetmapUpsert.LastValid(ps, cs, k).Some? ensures NodeKey(k) in rs {
      SweptKeysGo(ps, cs, rs, k);
    }
    if AvoidsRemoved(rs, qs) {
      AdmittedAreChanges(ps, cs);
      HarmlessIsRedeliverable(ps, r);
    } else {
      var i :| 0 <= i < |qs| && NodeId(qs[i].nodeId) !in rs && LastKey(qs, qs[i].nodeId).Some?
               && NodeKey(LastKey(qs, qs[i].nodeId).value) in rs;
      var spare := SpareKey(RemovedKeys(rs));
      RotationFails(ps, r, qs[i].nodeId, spare);
    }
  }

  predicate RotatesNoKey(r: MapResponse) {
    forall i | 0 <= i < |PatchesOf(r)| :: AcceptedKey(PatchesOf(r)[i]).None?
  }

  lemma NoKeyIsGiven(r: MapResponse, id: int)
    requires RotatesNoKey(r)
    ensures LastKey(PatchesOf(r), id).None?
  {
    SelectMembers(PatchesOf(r), HasId(id));
    assert forall i | 0 <= i < |ForId(PatchesOf(r), id)| :: ForId(PatchesOf(r), id)[i] in PatchesOf(r);
  }

  /** For deltas without a full list that rotate no key, changes and removals decide. */
  lemma UnrotatedRedeliverableIff(ps: AddrParsers, r: MapResponse)
    requires r.peers.None? && RotatesNoKey(r) && |ChangesOf(r)| < 0x1_0000_0000_0000_0000
    ensures var cs, rs := ChangesOf(r), RemovalsOf(r);
            Redeliverable(ps, r) <==> NamesNobody(rs) || (RemovesAdmitted(ps, cs, rs) && KeepsLastChanges(ps, cs, rs))
  {
    hide Redeliverable, RotatesNoKey, LastKey, RemovesAdmitted, NetmapUpsert.LastValid;
    var cs, rs := ChangesOf(r), RemovalsOf(r);
    forall id ensures LastKey(PatchesOf(r), id).None? {
      NoKeyIsGiven(r, id);
    }
    if IsHarmless(ps, r) {
      HarmlessIsRedeliverable(ps, r);
    } else if !KeepsLastChanges(ps, cs, rs) {
      var i :| 0 <= i < |cs| && !KeepsLastChange(ps, cs, rs, cs[i].key);
      ChangeFails(ps, r, cs[i].key);
    } else {
      var spare := SpareKey(KeysOf(cs));
      NotAdmitted(ps, r, spare);
    }
  }

  /** For a change list that fits a netmap the second condition is plainer: every valid change
    * is to a key that the delta removes. Beyond the cap it is not: a key that no netmap can
    * have room for need not be removed.
    */
  lemma ConditionOfShortLists(ps: AddrParsers, cs: seq<Node>, rs: seq<PeerRemoval>)
    requires |cs| <= MAX_PEERS
    ensures RemovesAdmitted(ps, cs, rs) && KeepsLastChanges(ps, cs, rs) <==> SweepsChanges(ps, cs, rs)
  {
    hide NodeIsValid, NetmapUpsert.KeptKeys, NetmapUpsert.LastValid;
    AdmittedAreChanges(ps, cs);
    if SweepsChanges(ps, cs, rs) {
      forall k | NetmapUpsert.LastValid(ps, cs, k).Some? ensures NodeKey(k) in rs {
        SweptKeysGo(ps, cs, rs, k);
      }
    }
  }

  // ----- two deltas that are not harmless

  lemma UpsertOnce(ps: AddrParsers, peers: seq<Node>, c: Node)
    ensures UpsertAll(ps, peers, [c]) == Upsert(ps, peers, c)
  {
  }

  /** With a key-rotating patch the second delivery admits the old key again. */
  lemma RotationBreaksRedelivery(ps: AddrParsers, a: Text, b: Text) returns (m: NetmapValue, r: MapResponse)
    requires IsValidNodeKey(a) && IsValidNodeKey(b) && a != b
    ensures Inv(ps, m) && r.peers.None? && NamesNobody(RemovalsOf(r))
    ensures !Twice(ps, m, r)
  {
    hide PeersAfter, UpsertAll, PatchAll, FirstWithKey, FirstWithId;
    var n := BareNode(1, a);
    var c := PeerChange(1, None, None, None, None, Some(b), None, None, None, None);
    r := ChangeThenPatch(n, c);
    m := EmptyNetmap().(peers := [n]);
    assert NodeIsValid(ps, n);
    var n' := PatchNode(ps, n, c);
    ChangedThenPatched(ps, [n], n, c);
    ChangedThenPatched(ps, [n'], n, c);
    assert FirstWithKey([n], a) == Some(0) by { assert KeysOf([n])[0] == a; }
    assert FirstWithId([n], 1) == Some(0) by { assert IdsOf([n])[0] == 1; }
    assert [n][0 := n] == [n] && [n][0 := n'] == [n'];
    assert PeersAfter(ps, [n], r) == [n'];
    assert FirstWithKey([n'], a) == None by { assert KeysOf([n']) == [b]; }
    assert |PeersAfter(ps, [n'], r)| == 2;
  }

  function ChangeThenPatch(n: Node, c: PeerChange): MapResponse {
    BareResponse().(peersChanged := Some([n]), peersChangedPatch := Some([c]))
  }

  lemma ChangedThenPatched(ps: AddrParsers, peers: seq<Node>, n: Node, c: PeerChange)
    ensures PeersAfter(ps, peers, ChangeThenPatch(n, c)) == Patch(ps, Upsert(ps, peers, n), c)
  {
    hide Patch, Upsert;
    UpsertOnce(ps, peers, n);
    PatchOnce(ps, Upsert(ps, peers, n), c);
  }

  /** A change to the key of the first peer replaces the first peer. */
  lemma UpsertAtFront(ps: AddrParsers, p: Node, rest: seq<Node>, c: Node)
    requires NodeIsValid(ps, c) && p.key == c.key
    ensures UpsertAll(ps, [p] + rest, [c]) == [c] + rest
  {
    hide NodeIsValid, UpsertAll, FirstWithKey, KeysOf;
    var peers := [p] + rest;
    UpsertOnce(ps, peers, c);
    FirstKeyIsFirst(peers);
    ReplacedAtFront(p, rest, c);
  }

  lemma ReplacedAtFront(p: Node, rest: seq<Node>, c: Node)
    ensures ([p] + rest)[0 := c] == [c] + rest
  {
  }

  lemma FirstKeyIsFirst(ns: seq<Node>)
    requires ns != []
    ensures FirstWithKey(ns, ns[0].key) == Some(0)
  {
  }

  /** With a removal the second delivery can reach a peer that the first one shielded. */
  lemma RemovalBreaksRedelivery(ps: AddrParsers, a: Text) returns (m: NetmapValue, r: MapResponse)
    requires IsValidNodeKey(a)
    ensures Inv(ps, m) && r.peers.None? && RotatesNoKey(r)
    ensures !Twice(ps, m, r)
  {
    hide UpsertAll, Survivors, PeersAfter;
    var p, q, n := BareNode(1, a), BareNode(2, a), BareNode(3, a);
    r := ReplaceThenRemove(n);
    m := EmptyNetmap().(peers := [p] + [q]);
    ReplacedThenRemoved(ps, p, [q], n);
    SurvivorsOfPair(n, q);
    assert [q] == [q] + [] && [n] == [n] + [];
    ReplacedThenRemoved(ps, q, [], n);
    SurvivorsOfOne(n);
    assert PeersAfter(ps, m.peers, r) == [q] && PeersAfter(ps, [q], r) == [];
  }

  function ReplaceThenRemove(n: Node): MapResponse {
    BareResponse().(peersChanged := Some([n]), peersRemoved := Some([NodeId(n.id)]))
  }

  lemma ReplacedThenRemoved(ps: AddrParsers, p: Node, rest: seq<Node>, n: Node)
    requires NodeIsValid(ps, n) && p.key == n.key
    ensures PeersAfter(ps, [p] + rest, ReplaceThenRemove(n)) == Survivors([NodeId(n.id)], [n] + rest)
  {
    UpsertAtFront(ps, p, rest, n);
  }

  lemma SurvivorsOfOne(gone: Node)
    ensures Survivors([NodeId(gone.id)], [gone]) == []
  {
    assert [NodeId(gone.id)][0] == NodeId(gone.id);
    SelectNone([gone], NotRemoved([NodeId(gone.id)]));
  }

  lemma SurvivorsOfPair(gone: Node, stays: Node)
    requires gone.id != stays.id
    ensures Survivors([NodeId(gone.id)], [gone] + [stays]) == [stays]
  {
    assert ([gone] + [stays])[..1] == [gone];
    SurvivorsOfOne(gone);
  }
}
