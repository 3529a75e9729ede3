/** The dependency graph of the Phase A contract: `validate_graph` in tools/render_phase_a.py. */
module ContractGraph {
  import opened Prelude

  const COMPLETE := "complete"

  /** A contract node; `needs` is its `requires` list. */
  datatype Gate = Gate(id: string, needs: seq<string>, state: string)

  datatype GraphError =
    | Cycle(through: string)
    | UnknownNode(id: string, dependency: string)
    | RequiresItself(id: string)
    | OutOfOrder(id: string, dependency: string)
    | IncompleteDependency(id: string, dependency: string)

  /** Distinct ids, indexed exactly, as `read_contract` builds them. */
  predicate Indexed(nodes: seq<Gate>, byId: map<string, Gate>) {
    && (forall i, j | 0 <= i < j < |nodes| :: nodes[i].id != nodes[j].id)
    && (forall i | 0 <= i < |nodes| :: nodes[i].id in byId && byId[nodes[i].id] == nodes[i])
    && (forall id | id in byId :: exists i | 0 <= i < |nodes| :: nodes[i].id == id)
  }

  // ----- paths

  predicate Edge(byId: map<string, Gate>, a: string, b: string) {
    a in byId && b in byId && b in byId[a].needs
  }

  predicate IsPath(byId: map<string, Gate>, p: seq<string>) {
    forall i | 0 <= i < |p| - 1 :: Edge(byId, p[i], p[i + 1])
  }

  lemma PathTail(byId: map<string, Gate>, p: seq<string>)
    requires IsPath(byId, p) && p != []
    ensures IsPath(byId, p[1..])
  {
  }

  predicate IsCycle(byId: map<string, Gate>, p: seq<string>) {
    |p| >= 2 && p[0] == p[|p| - 1] && IsPath(byId, p)
  }

  ghost predicate HasCycle(byId: map<string, Gate>) {
    exists p :: IsCycle(byId, p)
  }

  ghost predicate AllKnown(byId: map<string, Gate>) {
    forall a, d | a in byId && d in byId[a].needs :: d in byId
  }

  /** What a complaint of the search claims is so. */
  ghost predicate Justified(byId: map<string, Gate>, e: GraphError) {
    match e
    case Cycle(x) => exists p :: IsCycle(byId, p) && p[0] == x
    case UnknownNode(a, d) => a in byId && d in byId[a].needs && d !in byId
    case RequiresItself(a) => Edge(byId, a, a)
    case _ => false
  }

  /** `d` is declared at or after `a`. */
  predicate NotEarlier(nodes: seq<Gate>, a: string, d: string) {
    exists i, j | 0 <= i <= j < |nodes| :: nodes[i].id == a && nodes[j].id == d
  }

  /** What any complaint claims is so. */
  ghost predicate Complaint(nodes: seq<Gate>, byId: map<string, Gate>, e: GraphError) {
    match e
    case OutOfOrder(a, d) => Edge(byId, a, d) && NotEarlier(nodes, a, d)
    case IncompleteDependency(a, d) => Edge(byId, a, d) && byId[a].state == COMPLETE && byId[d].state != COMPLETE
    case _ => Justified(byId, e)
  }

  // ----- finishing order

  /** Every id's dependencies come before it. */
  ghost predicate IsTopological(byId: map<string, Gate>, done: seq<string>) {
    forall i | 0 <= i < |done| :: done[i] in byId && forall d | d in byId[done[i]].needs :: d in done[..i]
  }

  lemma TopologicalSnoc(byId: map<string, Gate>, done: seq<string>, id: string)
    requires IsTopological(byId, done) && id in byId
    requires forall d | d in byId[id].needs :: d in done
    ensures IsTopological(byId, done + [id])
  {
    var more := done + [id];
    forall i | 0 <= i < |more| ensures more[i] in byId && forall d | d in byId[more[i]].needs :: d in more[..i] {
      if i < |done| {
        assert more[..i] == done[..i];
      } else {
        assert more[..i] == done;
      }
    }
  }

  /** A path that starts at a finished id ends at one finished strictly earlier. */
  lemma {:induction false} PathDescends(byId: map<string, Gate>, done: seq<string>, p: seq<string>, at: nat)
    returns (end: nat)
    requires IsTopological(byId, done) && IsPath(byId, p) && |p| >= 2
    requires at < |done| && done[at] == p[0]
    ensures end < at && done[end] == p[|p| - 1]
    decreases |p|
  {
    assert Edge(byId, p[0], p[1]);
    assert p[1] in done[..at];
    var next: nat :| next < at && done[..at][next] == p[1];
    if |p| == 2 {
      end := next;
    } else {
      PathTail(byId, p);
      end := PathDescends(byId, done, p[1..], next);
    }
  }

  lemma {:induction false} NoCycleThrough(byId: map<string, Gate>, done: seq<string>, p: seq<string>, at: nat)
    requires IsTopological(byId, done) && IsCycle(byId, p)
    requires at < |done| && done[at] == p[0]
    ensures false
    decreases at
  {
    var end := PathDescends(byId, done, p, at);
    NoCycleThrough(byId, done, p, end);
  }

  /** A finishing order of the whole graph rules cycles out. */
  lemma TopologicalIsAcyclic(byId: map<string, Gate>, done: seq<string>)
    requires IsTopological(byId, done) && forall id | id in byId :: id in done
    ensures AllKnown(byId) && !HasCycle(byId)
  {
    forall a, d | a in byId && d in byId[a].needs ensures d in byId {
      var i :| 0 <= i < |done| && done[i] == a;
      assert d in done[..i];
    }
    forall p | IsCycle(byId, p) ensures false {
      assert Edge(byId, p[0], p[1]);
      var at :| 0 <= at < |done| && done[at] == p[0];
      NoCycleThrough(byId, done, p, at);
    }
  }

  // ----- the depth-first search

  class GraphChecker {
    const byId: map<string, Gate>
    var visiting: set<string>
    var visited: set<string>
    /** The visited ids in the order they were finished. */
    ghost var finished: seq<string>

    constructor (byId: map<string, Gate>)
      ensures this.byId == byId && visiting == {} && Consistent() && finished == []
    {
      this.byId := byId;
      visiting, visited := {}, {};
      finished := [];
    }

    ghost predicate Consistent()
      reads this
    {
      visited == (set x | x in finished) && IsTopological(byId, finished)
    }

    /** `stack` is the chain of calls in progress, from the outermost inwards. */
    method Visit(id: string, ghost stack: seq<string>) returns (r: Result<(), GraphError>)
      requires Consistent() && IsPath(byId, stack + [id]) && id in byId
      requires visiting == (set x | x in stack) && visiting <= byId.Keys
      modifies this
      decreases byId.Keys - visiting
      ensures r.Ok? ==> Consistent() && visiting == old(visiting) && old(finished) <= finished && id in visited
      ensures r.Err? ==> Justified(byId, r.error)
    {
      if id in visiting {
        ClosesCycle(byId, stack, id);
        return Err(Cycle(id));
      }
      if id in visited {
        return Ok(());
      }
      visiting := visiting + {id};
      var needs := byId[id].needs;
      for j := 0 to |needs|
        invariant Consistent() && visiting == old(visiting) + {id} && old(finished) <= finished
        invariant forall d | d in needs[..j] :: d in finished
      {
        var dependency := needs[j];
        if dependency !in byId {
          return Err(UnknownNode(id, dependency));
        }
        if dependency == id {
          assert Edge(byId, id, id);
          return Err(RequiresItself(id));
        }
        ExtendPath(byId, stack, id, dependency);
        var inner := Visit(dependency, stack + [id]);
        if inner.Err? {
          return Err(inner.error);
        }
        assert needs[..j + 1] == needs[..j] + [dependency];
      }
      assert needs[..|needs|] == needs;
      TopologicalSnoc(byId, finished, id);
      visiting := visiting - {id};
      visited := visited + {id};
      finished := finished + [id];
      r := Ok(());
    }

    /** The search over all nodes accepts exactly the acyclic graphs without unknown names. */
    method Search(nodes: seq<Gate>) returns (r: Result<(), GraphError>)
      requires Indexed(nodes, byId)
      requires visiting == {} && Consistent()
      modifies this
      ensures r.Ok? <==> AllKnown(byId) && !HasCycle(byId)
      ensures r.Err? ==> Justified(byId, r.error)
    {
      for k := 0 to |nodes|
        invariant visiting == {} && Consistent()
        invariant forall i | 0 <= i < k :: nodes[i].id in visited
      {
        assert [] + [nodes[k].id] == [nodes[k].id];
        var inner := Visit(nodes[k].id, []);
        if inner.Err? {
          JustifiedIsBad(byId, inner.error);
          return Err(inner.error);
        }
      }
      forall id | id in byId ensures id in finished {
        var i :| 0 <= i < |nodes| && nodes[i].id == id;
      }
      TopologicalIsAcyclic(byId, finished);
      r := Ok(());
    }
  }

  lemma ClosesCycle(byId: map<string, Gate>, stack: seq<string>, id: string)
    requires IsPath(byId, stack + [id]) && id in stack
    ensures Justified(byId, Cycle(id))
  {
    var i :| 0 <= i < |stack| && stack[i] == id;
    var p := (stack + [id])[i..];
    assert IsCycle(byId, p) by {
      forall k | 0 <= k < |p| - 1 ensures Edge(byId, p[k], p[k + 1]) {
        assert Edge(byId, (stack + [id])[i + k], (stack + [id])[i + k + 1]);
      }
    }
  }

  lemma ExtendPath(byId: map<string, Gate>, stack: seq<string>, id: string, dependency: string)
    requires IsPath(byId, stack + [id]) && Edge(byId, id, dependency)
    ensures IsPath(byId, stack + [id] + [dependency])
  {
  }

  lemma JustifiedIsBad(byId: map<string, Gate>, e: GraphError)
    requires Justified(byId, e)
    ensures !(AllKnown(byId) && !HasCycle(byId))
  {
    if e.RequiresItself? {
      assert IsCycle(byId, [e.id, e.id]);
    }
  }

  // ----- the whole check

  /** Each dependency is declared strictly earlier, and complete whenever its dependent is. */
  predicate DependsWell(nodes: seq<Gate>, i: nat, d: string)
    requires i < |nodes|
  {
    exists j | 0 <= j < i :: nodes[j].id == d && (nodes[i].state == COMPLETE ==> nodes[j].state == COMPLETE)
  }

  ghost predicate WellOrdered(nodes: seq<Gate>) {
    forall i, d | 0 <= i < |nodes| && d in nodes[i].needs :: DependsWell(nodes, i, d)
  }

  /** An executable order is a finishing order, so the search never objects to one. */
  lemma WellOrderedIsAcyclic(nodes: seq<Gate>, byId: map<string, Gate>)
    requires Indexed(nodes, byId) && WellOrdered(nodes)
    ensures AllKnown(byId) && !HasCycle(byId)
  {
    var ids := seq(|nodes|, i requires 0 <= i < |nodes| => nodes[i].id);
    forall i | 0 <= i < |ids| ensures ids[i] in byId && forall d | d in byId[ids[i]].needs :: d in ids[..i] {
      assert byId[ids[i]] == nodes[i];
      forall d | d in nodes[i].needs ensures d in ids[..i] {
        assert DependsWell(nodes, i, d);
        var j :| 0 <= j < i && nodes[j].id == d;
        assert ids[..i][j] == d;
      }
    }
    forall id | id in byId ensures id in ids {
      var i :| 0 <= i < |nodes| && nodes[i].id == id;
      assert ids[i] == id;
    }
    TopologicalIsAcyclic(byId, ids);
  }

  function OrderOf(nodes: seq<Gate>): (order: map<string, nat>)
    requires forall i, j | 0 <= i < j < |nodes| :: nodes[i].id != nodes[j].id
    ensures forall i | 0 <= i < |nodes| :: nodes[i].id in order && order[nodes[i].id] == i
  {
    map i: nat | i < |nodes| :: nodes[i].id := i
  }

  /** Every known id is declared at exactly one position. */
  lemma PositionOf(nodes: seq<Gate>, byId: map<string, Gate>, d: string) returns (at: nat)
    requires Indexed(nodes, byId) && d in byId
    ensures at < |nodes| && nodes[at].id == d && nodes[at] == byId[d]
    ensures d in OrderOf(nodes) && OrderOf(nodes)[d] == at
    ensures forall k | 0 <= k < |nodes| && nodes[k].id == d :: k == at
  {
    at :| at < |nodes| && nodes[at].id == d;
  }

  lemma DependsWellByOrder(nodes: seq<Gate>, byId: map<string, Gate>, i: nat, d: string)
    requires Indexed(nodes, byId) && i < |nodes| && d in byId
    ensures d in OrderOf(nodes) && OrderOf(nodes)[nodes[i].id] == i
    ensures OrderOf(nodes)[d] >= i <==> NotEarlier(nodes, nodes[i].id, d)
    ensures DependsWell(nodes, i, d) <==>
            OrderOf(nodes)[d] < i && (nodes[i].state == COMPLETE ==> byId[d].state == COMPLETE)
  {
    var _ := PositionOf(nodes, byId, d);
    var _ := PositionOf(nodes, byId, nodes[i].id);
    hide Indexed, OrderOf;
  }

  /** What the two comparisons say about one dependency. */
  lemma DependencyJudged(nodes: seq<Gate>, byId: map<string, Gate>, i: nat, d: string)
    requires Indexed(nodes, byId) && AllKnown(byId) && i < |nodes| && d in nodes[i].needs
    ensures nodes[i].id in OrderOf(nodes) && d in OrderOf(nodes) && d in byId
    ensures var id, late := nodes[i].id, OrderOf(nodes)[d] >= OrderOf(nodes)[nodes[i].id];
            var incomplete := nodes[i].state == COMPLETE && byId[d].state != COMPLETE;
            && (late ==> Complaint(nodes, byId, OutOfOrder(id, d)))
            && (incomplete ==> Complaint(nodes, byId, IncompleteDependency(id, d)))
            && (DependsWell(nodes, i, d) <==> !late && !incomplete)
  {
    assert byId[nodes[i].id] == nodes[i];
    hide Indexed, OrderOf, DependsWell, NotEarlier;
    DependsWellByOrder(nodes, byId, i, d);
  }

  /** One node's dependencies, each in turn. */
  method CheckNode(nodes: seq<Gate>, byId: map<string, Gate>, order: map<string, nat>, i: nat)
    returns (r: Result<(), GraphError>)
    requires Indexed(nodes, byId) && AllKnown(byId) && order == OrderOf(nodes) && i < |nodes|
    ensures r.Ok? <==> forall d | d in nodes[i].needs :: DependsWell(nodes, i, d)
    ensures r.Err? ==> Complaint(nodes, byId, r.error)
  {
    hide *;
    var node := nodes[i];
    for j := 0 to |node.needs|
      invariant forall d | d in node.needs[..j] :: DependsWell(nodes, i, d)
    {
      var dependency := node.needs[j];
      DependencyJudged(nodes, byId, i, dependency);
      if order[dependency] >= order[node.id] {
        return Err(OutOfOrder(node.id, dependency));
      }
      if node.state == COMPLETE && byId[dependency].state != COMPLETE {
        return Err(IncompleteDependency(node.id, dependency));
      }
      assert node.needs[..j + 1] == node.needs[..j] + [dependency];
    }
    assert node.needs[..|node.needs|] == node.needs;
    r := Ok(());
  }

  /** Accepts exactly the well-ordered contracts, and every complaint is true of the contract. */
  method ValidateGraph(nodes: seq<Gate>, byId: map<string, Gate>) returns (r: Result<(), GraphError>)
    requires Indexed(nodes, byId)
    ensures r.Ok? <==> WellOrdered(nodes)
    ensures r.Err? ==> Complaint(nodes, byId, r.error)
  {
    var checker := new GraphChecker(byId);
    var searched := checker.Search(nodes);
    if searched.Err? {
      if WellOrdered(nodes) {
        WellOrderedIsAcyclic(nodes, byId);
      }
      return Err(searched.error);
    }
    var order := OrderOf(nodes);
    hide Indexed, OrderOf, DependsWell, AllKnown, HasCycle, Complaint;
    for i := 0 to |nodes|
      invariant forall k, d | 0 <= k < i && d in nodes[k].needs :: DependsWell(nodes, k, d)
    {
      var checked := CheckNode(nodes, byId, order, i);
      if checked.Err? {
        return Err(checked.error);
      }
    }
    r := Ok(());
  }

  /** Completion is closed under dependencies of dependencies. */
  lemma {:induction false} CompletionIsClosed(nodes: seq<Gate>, byId: map<string, Gate>, p: seq<string>)
    requires Indexed(nodes, byId) && WellOrdered(nodes)
    requires |p| >= 2 && IsPath(byId, p) && p[0] in byId && byId[p[0]].state == COMPLETE
    ensures p[|p| - 1] in byId && byId[p[|p| - 1]].state == COMPLETE
    decreases |p|
  {
    assert Edge(byId, p[0], p[1]);
    var i :| 0 <= i < |nodes| && nodes[i].id == p[0];
    assert DependsWell(nodes, i, p[1]);
    DependsWellByOrder(nodes, byId, i, p[1]);
    if |p| > 2 {
      PathTail(byId, p);
      CompletionIsClosed(nodes, byId, p[1..]);
    }
  }
}
