/** Walks up the parents of architecture nodes: the bounded owner and block walks, and the unbounded scope walk. */
module Ancestry {
  import opened Wrappers

  datatype Node = Node(id: string, parent: Option<string>, hasGroups: bool, block: bool, layer: Option<nat>)

  type Descriptor = seq<Node>

  /** Where a walk stands: at a node, past a root, or at a name no node has. */
  datatype Place = At(node: Node) | Ended | Unknown

  /** The first node with a name. */
  function Find(nodes: Descriptor, id: string): (r: Option<Node>)
    ensures r.Some? ==> r.value in nodes && r.value.id == id
    ensures r.None? <==> forall i :: 0 <= i < |nodes| ==> nodes[i].id != id
  {
    if nodes == [] then None
    else if nodes[0].id == id then Some(nodes[0])
    else
      assert forall i :: 1 <= i < |nodes| ==> nodes[i] == nodes[1..][i - 1];
      Find(nodes[1..], id)
  }

  function Lookup(nodes: Descriptor, id: Option<string>): Place {
    match id
    case None => Ended
    case Some(name) =>
      match Find(nodes, name)
      case None => Unknown
      case Some(node) => At(node)
  }

  function Up(nodes: Descriptor, place: Place): Place {
    if place.At? then Lookup(nodes, place.node.parent) else place
  }

  /** The place after a number of steps. */
  function Chain(nodes: Descriptor, start: Place, steps: nat): Place {
    if steps == 0 then start else Up(nodes, Chain(nodes, start, steps - 1))
  }

  /** A walk stops off the nodes, or at a node it looks for. */
  predicate Stops(goal: Node -> bool, place: Place) {
    !place.At? || goal(place.node)
  }

  ghost predicate FirstStop(nodes: Descriptor, start: Place, goal: Node -> bool, k: nat) {
    Stops(goal, Chain(nodes, start, k)) && forall j :: 0 <= j < k ==> !Stops(goal, Chain(nodes, start, j))
  }

  /** The nearest ancestor, the start included, that the walk looks for; no limit on the distance. */
  ghost predicate Nearest(nodes: Descriptor, start: Place, goal: Node -> bool, node: Node) {
    exists k :: FirstStop(nodes, start, goal, k) && Chain(nodes, start, k) == At(node)
  }

  /** The walk meets an unknown name before anything it looks for. */
  ghost predicate MeetsUnknown(nodes: Descriptor, start: Place, goal: Node -> bool) {
    exists k :: FirstStop(nodes, start, goal, k) && Chain(nodes, start, k) == Unknown
  }

  // ---- how far a walk can go before it stops ----

  lemma {:induction false} Periodic(nodes: Descriptor, start: Place, i: nat, j: nat, t: nat)
    requires Chain(nodes, start, i) == Chain(nodes, start, j)
    ensures Chain(nodes, start, i + t) == Chain(nodes, start, j + t)
  {
    if t > 0 {
      Periodic(nodes, start, i, j, t - 1);
    }
  }

  /** Before its first stop a walk never returns to a place. */
  lemma NeverReturns(nodes: Descriptor, start: Place, goal: Node -> bool, k: nat, i: nat, j: nat)
    requires FirstStop(nodes, start, goal, k) && i < j <= k
    ensures Chain(nodes, start, i) != Chain(nodes, start, j)
  {
    var t := k - j;
    assert !Stops(goal, Chain(nodes, start, i + t));
    if Chain(nodes, start, i) == Chain(nodes, start, j) {
      Periodic(nodes, start, i, j, t);
      assert false;
    }
  }

  lemma {:induction false} InNodes(nodes: Descriptor, start: Place, k: nat)
    requires start.At? ==> start.node in nodes
    ensures Chain(nodes, start, k).At? ==> Chain(nodes, start, k).node in nodes
  {
    if k > 0 {
      InNodes(nodes, start, k - 1);
    }
  }

  lemma {:induction false} DistinctFit(xs: seq<Node>, all: set<Node>)
    requires forall i, j :: 0 <= i < j < |xs| ==> xs[i] != xs[j]
    requires forall i :: 0 <= i < |xs| ==> xs[i] in all
    ensures |xs| <= |all|
  {
    if xs != [] {
      DistinctFit(xs[..|xs| - 1], all - {xs[|xs| - 1]});
    }
  }

  lemma {:induction false} MembersFit(nodes: Descriptor)
    ensures |set node | node in nodes| <= |nodes|
  {
    if nodes != [] {
      var front, last := nodes[..|nodes| - 1], nodes[|nodes| - 1];
      MembersFit(front);
      assert nodes == front + [last];
      assert (set node | node in nodes) == (set node | node in front) + {last};
    }
  }

  /** The nodes a walk has stood at. */
  function Visited(nodes: Descriptor, start: Place, n: nat): (s: seq<Node>)
    requires forall j :: 0 <= j < n ==> Chain(nodes, start, j).At?
    ensures |s| == n && forall j :: 0 <= j < n ==> s[j] == Chain(nodes, start, j).node
  {
    seq(n, j requires 0 <= j < n => Chain(nodes, start, j).node)
  }

  /** Any parent graph, cyclic or not: as many steps as there are nodes always suffice. */
  lemma StopsSoon(nodes: Descriptor, start: Place, goal: Node -> bool, k: nat)
    requires start.At? ==> start.node in nodes
    requires FirstStop(nodes, start, goal, k)
    ensures k <= |nodes| && (Chain(nodes, start, k).At? ==> k < |nodes|)
  {
    var n := if Chain(nodes, start, k).At? then k + 1 else k;
    var visited := Visited(nodes, start, n);
    forall i, j | 0 <= i < j < n
      ensures visited[i] != visited[j]
    {
      NeverReturns(nodes, start, goal, k, i, j);
    }
    forall j | 0 <= j < n
      ensures visited[j] in nodes
    {
      InNodes(nodes, start, j);
    }
    DistinctFit(visited, set node | node in nodes);
    MembersFit(nodes);
  }

  lemma {:induction false} LeastStop(nodes: Descriptor, start: Place, goal: Node -> bool, k: nat) returns (first: nat)
    requires Stops(goal, Chain(nodes, start, k))
    ensures first <= k && FirstStop(nodes, start, goal, first)
  {
    if j :| 0 <= j < k && Stops(goal, Chain(nodes, start, j)) {
      first := LeastStop(nodes, start, goal, j);
    } else {
      first := k;
    }
  }

  /** Only one place is the first stop. */
  lemma FirstUnique(nodes: Descriptor, start: Place, goal: Node -> bool, k: nat, l: nat)
    requires FirstStop(nodes, start, goal, k) && FirstStop(nodes, start, goal, l)
    ensures k == l
  {
  }

  /** A walk that has not stopped after as many steps as there are nodes never stops. */
  lemma NeverStops(nodes: Descriptor, start: Place, goal: Node -> bool, k: nat)
    requires start.At? ==> start.node in nodes
    requires forall j :: 0 <= j <= |nodes| ==> !Stops(goal, Chain(nodes, start, j))
    ensures !Stops(goal, Chain(nodes, start, k))
  {
    if Stops(goal, Chain(nodes, start, k)) {
      var first := LeastStop(nodes, start, goal, k);
      StopsSoon(nodes, start, goal, first);
      assert false;
    }
  }

  /** Once the first stop is known, it alone can be nearest. */
  lemma OnlyStop(nodes: Descriptor, start: Place, goal: Node -> bool, k: nat)
    requires FirstStop(nodes, start, goal, k)
    ensures forall node :: Nearest(nodes, start, goal, node) <==> Chain(nodes, start, k) == At(node)
    ensures MeetsUnknown(nodes, start, goal) <==> Chain(nodes, start, k) == Unknown
  {
    if MeetsUnknown(nodes, start, goal) {
      var l :| FirstStop(nodes, start, goal, l) && Chain(nodes, start, l) == Unknown;
      FirstUnique(nodes, start, goal, k, l);
    }
    forall node | Nearest(nodes, start, goal, node)
      ensures Chain(nodes, start, k) == At(node)
    {
      var l :| FirstStop(nodes, start, goal, l) && Chain(nodes, start, l) == At(node);
      FirstUnique(nodes, start, goal, k, l);
    }
  }

  lemma NoStop(nodes: Descriptor, start: Place, goal: Node -> bool)
    requires start.At? ==> start.node in nodes
    requires forall j :: 0 <= j <= |nodes| ==> !Stops(goal, Chain(nodes, start, j))
    ensures !MeetsUnknown(nodes, start, goal) && forall node :: !Nearest(nodes, start, goal, node)
  {
    forall k: nat
      ensures !FirstStop(nodes, start, goal, k)
    {
      NeverStops(nodes, start, goal, k);
    }
  }

  // ---- the owner walk ----

  predicate HasGroups(node: Node) {
    node.hasGroups
  }

  datatype OwnerError = UnknownAncestor | NoUnit

  /** Finds the nearest ancestor with parameter groups within its fuel, whenever there is one at any distance. */
  method ResidualOwner(nodes: Descriptor, id: string) returns (r: Result<Node, OwnerError>)
    ensures r.Ok? ==> Nearest(nodes, Lookup(nodes, Some(id)), HasGroups, r.value)
    ensures r.Err? ==> forall node :: !Nearest(nodes, Lookup(nodes, Some(id)), HasGroups, node)
    ensures r == Err(UnknownAncestor) <==> MeetsUnknown(nodes, Lookup(nodes, Some(id)), HasGroups)
  {
    var current := Some(id);
    ghost var start := Lookup(nodes, current);
    for i := 0 to |nodes| + 1
      invariant Lookup(nodes, current) == Chain(nodes, start, i)
      invariant forall j :: 0 <= j < i ==> !Stops(HasGroups, Chain(nodes, start, j))
    {
      if current == None {
        OnlyStop(nodes, start, HasGroups, i);
        return Err(NoUnit);
      }
      var node := Find(nodes, current.value);
      if node == None {
        OnlyStop(nodes, start, HasGroups, i);
        return Err(UnknownAncestor);
      }
      if node.value.hasGroups {
        OnlyStop(nodes, start, HasGroups, i);
        return Ok(node.value);
      }
      current := node.value.parent;
    }
    NoStop(nodes, start, HasGroups);
    return Err(NoUnit);
  }

  // ---- the block walk ----

  predicate IsBlock(node: Node) {
    node.block
  }

  /** Accepts exactly when the nearest containing decoder block, at any distance, has the declared layer. */
  method ContainingBlock(nodes: Descriptor, id: string, layer: nat) returns (r: Option<Node>)
    ensures r.Some? ==> Nearest(nodes, Lookup(nodes, Some(id)), IsBlock, r.value) && r.value.layer == Some(layer)
    ensures r.None? ==> forall node ::
              Nearest(nodes, Lookup(nodes, Some(id)), IsBlock, node) ==> node.layer != Some(layer)
  {
    var found := Find(nodes, id);
    ghost var start := Lookup(nodes, Some(id));
    if found == None {
      OnlyStop(nodes, start, IsBlock, 0);
      return None;
    }
    var node := found.value;
    var i := 0;
    while i < |nodes| && !node.block
      invariant i <= |nodes| && At(node) == Chain(nodes, start, i)
      invariant forall j :: 0 <= j < i ==> !Stops(IsBlock, Chain(nodes, start, j))
    {
      var up := if node.parent == None then None else Find(nodes, node.parent.value);
      if up == None {
        assert !Chain(nodes, start, i + 1).At?;
        OnlyStop(nodes, start, IsBlock, i + 1);
        return None;
      }
      node := up.value;
      i := i + 1;
    }
    if !node.block {
      NoStop(nodes, start, IsBlock);
      return None;
    }
    OnlyStop(nodes, start, IsBlock, i);
    if node.layer != Some(layer) {
      return None;
    }
    return Some(node);
  }

  // ---- the scope walk ----

  /** A binding of a node to a speculative invocation; only the target scope is outside prediction. */
  datatype Binding = Binding(nodeId: string, target: bool)

  function FindBinding(bindings: seq<Binding>, id: string): Option<Binding> {
    if bindings == [] then None
    else if bindings[0].nodeId == id then Some(bindings[0])
    else FindBinding(bindings[1..], id)
  }

  datatype Scopes = Scopes(bindings: seq<Binding>, components: seq<string>) {
    /** The node decides: it is bound, or it carries a component scope. */
    predicate Decides(node: Node) {
      FindBinding(bindings, node.id).Some? || node.id in components
    }

    /** What the node decides: a binding comes before a component scope. */
    predicate Verdict(node: Node) {
      match FindBinding(bindings, node.id)
      case Some(binding) => !binding.target
      case None => node.id in components
    }

    function Decider(): Node -> bool {
      (node: Node) => Decides(node)
    }
  }

  /** The nearest deciding ancestor puts the node in scope; without one it is out. */
  ghost predicate InScope(nodes: Descriptor, scopes: Scopes, start: Node) {
    exists node :: Nearest(nodes, At(start), scopes.Decider(), node) && scopes.Verdict(node)
  }

  /**
   * The walk ends whenever some ancestor decides or the chain ends, and answers by the nearest deciding ancestor.
   * An unknown parent ends it like a missing one.
   */
  method Scoped(nodes: Descriptor, scopes: Scopes, start: Node, ghost bound: nat) returns (scoped: bool)
    requires Stops(scopes.Decider(), Chain(nodes, At(start), bound))
    ensures scoped <==> InScope(nodes, scopes, start)
  {
    var current := Some(start);
    ghost var i := 0;
    ghost var goal := scopes.Decider();
    while current.Some?
      invariant i <= bound
      invariant current.Some? ==> Chain(nodes, At(start), i) == At(current.value)
      invariant current.None? ==> !Chain(nodes, At(start), i).At?
      invariant forall j :: 0 <= j < i ==> !Stops(goal, Chain(nodes, At(start), j))
      decreases bound - i, current.Some?
    {
      var node := current.value;
      var binding := FindBinding(scopes.bindings, node.id);
      if binding.Some? || node.id in scopes.components {
        OnlyStop(nodes, At(start), goal, i);
        assert Nearest(nodes, At(start), goal, node);
        return if binding.Some? then !binding.value.target else true;
      }
      assert !Stops(goal, At(node));
      current := if node.parent == None then None else Find(nodes, node.parent.value);
      i := i + 1;
    }
    OnlyStop(nodes, At(start), goal, i);
    return false;
  }

  lemma {:induction false} StaysEnded(nodes: Descriptor, start: Place, i: nat, k: nat)
    requires i <= k && !Chain(nodes, start, i).At?
    ensures Chain(nodes, start, k) == Chain(nodes, start, i)
  {
    if i < k {
      StaysEnded(nodes, start, i, k - 1);
    }
  }

  /** A rank that falls from child to parent: no cycles. */
  ghost predicate Acyclic(nodes: Descriptor, rank: Node -> nat) {
    forall i, j :: 0 <= i < |nodes| && 0 <= j < |nodes| && nodes[i].parent == Some(nodes[j].id) ==>
      rank(nodes[j]) < rank(nodes[i])
  }

  /** With acyclic parents every walk reaches the end within as many steps as there are nodes. */
  lemma AcyclicEnds(nodes: Descriptor, rank: Node -> nat, start: Place)
    requires Acyclic(nodes, rank) && (start.At? ==> start.node in nodes)
    ensures !Chain(nodes, start, |nodes|).At?
  {
    var never := (node: Node) => false;
    var n := if start.At? then rank(start.node) + 1 else 0;
    RankFalls(nodes, rank, start, n);
    var k := LeastStop(nodes, start, never, n);
    StopsSoon(nodes, start, never, k);
    StaysEnded(nodes, start, k, |nodes|);
  }

  lemma {:induction false} RankFalls(nodes: Descriptor, rank: Node -> nat, start: Place, k: nat)
    requires Acyclic(nodes, rank) && (start.At? ==> start.node in nodes)
    ensures var place := Chain(nodes, start, k);
            place.At? ==> start.At? && rank(place.node) + k <= rank(start.node)
  {
    if k > 0 {
      RankFalls(nodes, rank, start, k - 1);
      var child := Chain(nodes, start, k - 1);
      var place := Chain(nodes, start, k);
      if place.At? {
        InNodes(nodes, start, k - 1);
        InNodes(nodes, start, k);
        var i :| 0 <= i < |nodes| && nodes[i] == child.node;
        var j :| 0 <= j < |nodes| && nodes[j] == place.node;
      }
    }
  }

  // ---- marking ----

  datatype Requirement = PredictionExecution | Other(name: string)

  datatype Point = Point(nodeId: string, requirements: seq<Requirement>)

  function Mark(point: Point, scoped: set<string>): Point {
    if point.nodeId in scoped && PredictionExecution !in point.requirements
    then point.(requirements := point.requirements + [PredictionExecution])
    else point
  }

  /** Marks the points in place. */
  method MarkAll(points: array<Point>, scoped: set<string>)
    modifies points
    ensures forall i :: 0 <= i < points.Length ==> points[i] == Mark(old(points[i]), scoped)
  {
    for i := 0 to points.Length
      invariant forall k :: 0 <= k < i ==> points[k] == Mark(old(points[k]), scoped)
      invariant forall k :: i <= k < points.Length ==> points[k] == old(points[k])
    {
      points[i] := Mark(points[i], scoped);
    }
  }

  /**
   * Marking leaves exactly the scoped points requiring prediction, besides those that did already; it keeps every
   * requirement in order, and a second marking changes nothing.
   */
  lemma MarkSettles(point: Point, scoped: set<string>)
    ensures Mark(Mark(point, scoped), scoped) == Mark(point, scoped)
    ensures PredictionExecution in Mark(point, scoped).requirements <==>
            PredictionExecution in point.requirements || point.nodeId in scoped
    ensures point.requirements <= Mark(point, scoped).requirements
    ensures |Mark(point, scoped).requirements| <= |point.requirements| + 1
  {
  }

  /** The ids of the nodes in scope. */
  ghost function ScopedIds(nodes: Descriptor, scopes: Scopes): set<string> {
    set node | node in nodes && InScope(nodes, scopes, node) :: node.id
  }

  /** The walk from every node, collecting the ids in scope. */
  method CollectScoped(nodes: Descriptor, scopes: Scopes, ghost rank: Node -> nat) returns (scoped: set<string>)
    requires Acyclic(nodes, rank)
    ensures scoped == ScopedIds(nodes, scopes)
  {
    scoped := {};
    for i := 0 to |nodes|
      invariant forall id :: id in scoped <==>
                  exists k :: 0 <= k < i && nodes[k].id == id && InScope(nodes, scopes, nodes[k])
    {
      AcyclicEnds(nodes, rank, At(nodes[i]));
      var inside := Scoped(nodes, scopes, nodes[i], |nodes|);
      if inside {
        scoped := scoped + {nodes[i].id};
      }
    }
    forall id
      ensures id in scoped <==> id in ScopedIds(nodes, scopes)
    {
      if id in ScopedIds(nodes, scopes) {
        var node :| node in nodes && InScope(nodes, scopes, node) && node.id == id;
        var k :| 0 <= k < |nodes| && nodes[k] == node;
      }
    }
  }

  /**
   * Scoping as a whole: with acyclic parents every walk ends, and afterwards a point requires prediction exactly when
   * it did before or a node with its id is in scope.
   */
  method ScopeRequirements(nodes: Descriptor, scopes: Scopes, points: array<Point>, ghost rank: Node -> nat)
    requires Acyclic(nodes, rank)
    modifies points
    ensures forall i :: 0 <= i < points.Length ==> points[i] == Mark(old(points[i]), ScopedIds(nodes, scopes))
    ensures forall i :: 0 <= i < points.Length ==>
              (PredictionExecution in points[i].requirements <==>
               PredictionExecution in old(points[i]).requirements || NodeInScope(nodes, scopes, points[i].nodeId))
  {
    var scoped := CollectScoped(nodes, scopes, rank);
    MarkAll(points, scoped);
    forall i | 0 <= i < points.Length
      ensures points[i].nodeId in scoped <==> NodeInScope(nodes, scopes, points[i].nodeId)
    {
    }
  }

  ghost predicate NodeInScope(nodes: Descriptor, scopes: Scopes, id: string) {
    exists node :: node in nodes && node.id == id && InScope(nodes, scopes, node)
  }

  /** Scoping again changes nothing. */
  method ScopeTwice(nodes: Descriptor, scopes: Scopes, points: array<Point>, ghost rank: Node -> nat)
    returns (ghost once: seq<Point>)
    requires Acyclic(nodes, rank)
    modifies points
    ensures |once| == points.Length && points[..] == once
    ensures forall i :: 0 <= i < |once| ==> once[i] == Mark(old(points[i]), ScopedIds(nodes, scopes))
  {
    ScopeRequirements(nodes, scopes, points, rank);
    once := points[..];
    ScopeRequirements(nodes, scopes, points, rank);
    forall i | 0 <= i < |once|
      ensures points[i] == once[i]
    {
      MarkSettles(old(points[i]), ScopedIds(nodes, scopes));
    }
  }
}
