/**
 Election of the ranks that publish one captured observation: disjoint shards with
 replicas removed, or one summand for every tensor-parallel rank.
 */
module Election {
  import opened Wrappers
  import opened RankTopology
  import opened Coordinates
  import opened SlicePartition
  import opened Assembly

  /** How contributions form the global value. */
  datatype Combination = Disjoint | Sum

  /** One rank's placement of the observed path. */
  datatype Observation = Observation(axis: string, coordinates: Option<CoordinateMap>, exports: bool,
                                     combination: Combination)

  /** What one rank retains for the path: an ordinary placement, a routed one, or nothing. */
  datatype Layout = Layout(observation: Option<Observation>, routed: bool)

  ghost predicate MapsValid(layouts: seq<Layout>) {
    forall r :: 0 <= r < |layouts| && layouts[r].observation.Some? && layouts[r].observation.value.coordinates.Some? ==>
      layouts[r].observation.value.coordinates.value.Valid()
  }

  function CombinationOf(l: Layout): Option<Combination> {
    if l.observation.Some? then Some(l.observation.value.combination)
    else if l.routed then Some(Disjoint)
    else None
  }

  /** A local additive placement is complete and shared by the whole tensor-parallel group. */
  ghost predicate CompleteGroup(t: Topology, layouts: seq<Layout>, r: nat)
    requires t.Valid() && |layouts| == t.WorldSize() && r < |layouts|
  {
    layouts[r].observation.Some? && layouts[r].observation.value.coordinates.Some? ==>
      && layouts[r].observation.value.coordinates.value.Complete()
      && forall term: nat :: term < t.tensor ==> SharesPlacement(t, layouts, r, t.TensorPeers(r)[term])
  }

  predicate SharesPlacement(t: Topology, layouts: seq<Layout>, r: nat, peer: nat) {
    && r < |layouts| && peer < |layouts|
    && layouts[r].observation.Some? && layouts[peer].observation.Some?
    && layouts[peer].observation.value.coordinates == layouts[r].observation.value.coordinates
    && layouts[peer].observation.value.axis == layouts[r].observation.value.axis
  }

  /** Every rank declares the same equation, and additive placements are complete. */
  ghost predicate Agreed(t: Topology, layouts: seq<Layout>, c: Combination)
    requires t.Valid() && |layouts| == t.WorldSize()
  {
    && 0 < |layouts|
    && (forall r :: 0 <= r < |layouts| ==> CombinationOf(layouts[r]) == Some(c))
    && (c == Sum ==> forall r: nat :: r < |layouts| ==> CompleteGroup(t, layouts, r))
  }

  /** The first rank whose equation is missing or differs decides the failure. */
  method ObservationCombination(t: Topology, layouts: seq<Layout>) returns (r: Result<Combination, CaptureError>)
    requires t.Valid() && |layouts| == t.WorldSize() && MapsValid(layouts)
    ensures r.Ok? ==> Agreed(t, layouts, r.value)
    ensures r.Err? ==> !exists c :: Agreed(t, layouts, c)
  {
    var combination: Option<Combination> := None;
    for rank := 0 to |layouts|
      invariant combination.None? <==> rank == 0
      invariant forall s :: 0 <= s < rank ==> CombinationOf(layouts[s]) == combination
    {
      var current := CombinationOf(layouts[rank]);
      if current.None? {
        return Err(MissingPath);
      }
      if combination.Some? && combination != current {
        assert CombinationOf(layouts[0]) != CombinationOf(layouts[rank]);
        return Err(EquationsDisagree);
      }
      combination := current;
    }
    if combination.None? {
      return Err(MissingPath);
    }
    if combination.value == Sum {
      for rank := 0 to |layouts|
        invariant forall s: nat :: s < rank ==> CompleteGroup(t, layouts, s)
      {
        var fault := GroupFault(t, layouts, rank);
        if fault.Some? {
          assert CombinationOf(layouts[0]) == Some(Sum);
          return Err(fault.value);
        }
      }
    }
    r := Ok(combination.value);
  }

  method GroupFault(t: Topology, layouts: seq<Layout>, rank: nat) returns (fault: Option<CaptureError>)
    requires t.Valid() && |layouts| == t.WorldSize() && rank < |layouts| && MapsValid(layouts)
    ensures fault.None? <==> CompleteGroup(t, layouts, rank)
  {
    if layouts[rank].observation.None? || layouts[rank].observation.value.coordinates.None? {
      return None;
    }
    if !layouts[rank].observation.value.coordinates.value.Complete() {
      return Some(IncompleteOrderedCoordinates);
    }
    var peers := t.TensorPeers(rank);
    for term := 0 to |peers|
      invariant forall s: nat :: s < term ==> SharesPlacement(t, layouts, rank, peers[s])
    {
      if !SharesPlacement(t, layouts, rank, peers[term]) {
        return Some(IncompleteTensorGroup);
      }
    }
    fault := None;
  }

  // ---- who is elected ----

  predicate Exporting(l: Layout) {
    l.observation.Some? && l.observation.value.coordinates.Some? && l.observation.value.exports
  }

  /** Replicas are the ranks that agree on this key. */
  datatype Key = Key(coordinates: CoordinateMap, term: Option<nat>)

  function KeyOf(t: Topology, layouts: seq<Layout>, c: Combination, r: nat): Key
    requires t.Valid() && r < |layouts| && Exporting(layouts[r])
  {
    Key(layouts[r].observation.value.coordinates.value, if c == Sum then Some(t.Coordinates(r).tensor) else None)
  }

  /** The lowest exporting rank with its key. */
  ghost predicate Elected(t: Topology, layouts: seq<Layout>, c: Combination, r: nat)
    requires t.Valid()
  {
    && r < |layouts| && Exporting(layouts[r])
    && forall s: nat :: s < r && Exporting(layouts[s]) ==> KeyOf(t, layouts, c, s) != KeyOf(t, layouts, c, r)
  }

  /** Elected ranks below `n` in rank order. */
  ghost function ElectedRanks(t: Topology, layouts: seq<Layout>, c: Combination, n: nat): seq<nat>
    requires t.Valid() && n <= |layouts|
  {
    if n == 0 then []
    else if Elected(t, layouts, c, n - 1) then ElectedRanks(t, layouts, c, n - 1) + [n - 1]
    else ElectedRanks(t, layouts, c, n - 1)
  }

  /** The list holds exactly the elected ranks, strictly increasing. */
  lemma {:induction false} ElectedRanksExact(t: Topology, layouts: seq<Layout>, c: Combination, n: nat)
    requires t.Valid() && n <= |layouts|
    ensures forall r: nat :: r in ElectedRanks(t, layouts, c, n) <==> r < n && Elected(t, layouts, c, r)
    ensures forall i, j :: 0 <= i < j < |ElectedRanks(t, layouts, c, n)| ==>
              ElectedRanks(t, layouts, c, n)[i] < ElectedRanks(t, layouts, c, n)[j]
  {
    if n > 0 {
      ElectedRanksExact(t, layouts, c, n - 1);
      var earlier := ElectedRanks(t, layouts, c, n - 1);
      assert forall i :: 0 <= i < |earlier| ==> earlier[i] in earlier;
    }
  }

  /** Each key among exporting ranks is represented by exactly one elected rank, its lowest. */
  lemma {:induction false} RepresentedOnce(t: Topology, layouts: seq<Layout>, c: Combination, r: nat)
    requires t.Valid() && r < |layouts| && Exporting(layouts[r])
    ensures exists e: nat :: e <= r && Elected(t, layouts, c, e) && KeyOf(t, layouts, c, e) == KeyOf(t, layouts, c, r)
    ensures forall e: nat, f: nat ::
              Elected(t, layouts, c, e) && Elected(t, layouts, c, f)
              && KeyOf(t, layouts, c, e) == KeyOf(t, layouts, c, r)
              && KeyOf(t, layouts, c, f) == KeyOf(t, layouts, c, r)
              ==> e == f
    decreases r
  {
    if !Elected(t, layouts, c, r) {
      var s: nat :| s < r && Exporting(layouts[s]) && KeyOf(t, layouts, c, s) == KeyOf(t, layouts, c, r);
      RepresentedOnce(t, layouts, c, s);
    }
  }

  // ---- the electing loop ----

  /** The observed tensor, the selection, and the bounds on published work. */
  datatype Request = Request(names: seq<string>, shape: seq<nat>, slice: TensorSlice, maxProducers: nat,
                             maxFragments: nat)

  datatype Producer = Producer(rank: nat, partition: Partition)

  ghost predicate UniqueAxis(names: seq<string>, name: string, d: nat) {
    d < |names| && names[d] == name && forall e :: 0 <= e < |names| && names[e] == name ==> e == d
  }

  /** The single axis with a name, if the name occurs exactly once. */
  method ResolveAxis(names: seq<string>, name: string) returns (axis: Option<nat>)
    ensures axis.Some? ==> UniqueAxis(names, name, axis.value)
    ensures axis.None? ==> forall d: nat :: !UniqueAxis(names, name, d)
  {
    axis := None;
    for d := 0 to |names|
      invariant axis.Some? ==> axis.value < d && names[axis.value] == name
      invariant forall e :: 0 <= e < d && names[e] == name ==> axis == Some(e)
    {
      if names[d] == name {
        if axis.Some? {
          assert names[axis.value] == name && names[d] == name && axis.value != d;
          return None;
        }
        axis := Some(d);
      }
    }
  }

  /** A rank's projection is possible on its axis, and this is its result. */
  ghost predicate ProjectsTo(q: Request, o: Observation, p: Partition) {
    && o.coordinates.Some? && o.coordinates.value.Valid()
    && UniqueAxis(q.names, o.axis, p.axis)
    && Projectable(q.shape, q.slice, p.axis, o.coordinates.value)
    && p == Partition(p.axis, q.shape[p.axis := o.coordinates.value.LocalCount()],
                      SliceFragments(q.shape, q.slice, p.axis, o.coordinates.value))
  }

  lemma ProjectsToUnique(q: Request, o: Observation, p: Partition, p': Partition)
    requires ProjectsTo(q, o, p) && ProjectsTo(q, o, p')
    ensures p == p'
  {
  }

  /** Projects one local observation within the remaining fragment allowance. */
  method ProjectCapture(q: Request, o: Observation, allowance: nat) returns (r: Result<Partition, CaptureError>)
    requires o.coordinates.Some? && o.coordinates.value.Valid()
    ensures r.Ok? ==> ProjectsTo(q, o, r.value) && |r.value.fragments| <= allowance
    ensures r.Err? ==> forall p :: ProjectsTo(q, o, p) ==> |p.fragments| > allowance
  {
    var axis := ResolveAxis(q.names, o.axis);
    if axis.None? {
      return Err(InvalidAxis);
    }
    r := NewPartition(q.shape, q.slice, axis.value, o.coordinates.value, allowance);
  }

  function FragmentTotal(ps: seq<Producer>): nat {
    if ps == [] then 0 else FragmentTotal(ps[..|ps| - 1]) + |ps[|ps| - 1].partition.fragments|
  }

  /** A list of producers is what the election must publish. */
  ghost predicate Publishes(t: Topology, layouts: seq<Layout>, c: Combination, q: Request, n: nat, ps: seq<Producer>)
    requires t.Valid() && n <= |layouts|
  {
    && |ps| == |ElectedRanks(t, layouts, c, n)|
    && forall i :: 0 <= i < |ps| ==>
         && ps[i].rank == ElectedRanks(t, layouts, c, n)[i]
         && ps[i].rank < |layouts| && Exporting(layouts[ps[i].rank])
         && ProjectsTo(q, layouts[ps[i].rank].observation.value, ps[i].partition)
  }

  ghost predicate AllObserved(layouts: seq<Layout>) {
    forall r :: 0 <= r < |layouts| ==> layouts[r].observation.Some?
  }

  /** Bounds and counts that a published election respects. */
  ghost predicate WithinBounds(t: Topology, c: Combination, q: Request, ps: seq<Producer>) {
    && 0 < |ps| <= q.maxProducers
    && FragmentTotal(ps) <= q.maxFragments
    && (c == Sum ==> |ps| == t.tensor)
  }

  /** Exactly the elected ranks publish, in rank order, within every bound. */
  ghost predicate Publication(t: Topology, layouts: seq<Layout>, q: Request, ps: seq<Producer>)
    requires t.Valid() && |layouts| == t.WorldSize()
  {
    exists c :: PublishedAs(t, layouts, c, q, ps)
  }

  ghost predicate PublishedAs(t: Topology, layouts: seq<Layout>, c: Combination, q: Request, ps: seq<Producer>)
    requires t.Valid() && |layouts| == t.WorldSize()
  {
    && Agreed(t, layouts, c) && AllObserved(layouts)
    && Publishes(t, layouts, c, q, |layouts|, ps) && WithinBounds(t, c, q, ps)
  }

  lemma FragmentTotalAppend(ps: seq<Producer>, p: Producer)
    ensures FragmentTotal(ps + [p]) == FragmentTotal(ps) + |p.partition.fragments|
  {
    assert (ps + [p])[..|ps|] == ps;
  }

  /** The keys already represented, in election order. */
  ghost predicate Represents(t: Topology, layouts: seq<Layout>, c: Combination, n: nat, keys: seq<Key>)
    requires t.Valid() && n <= |layouts|
  {
    forall key :: key in keys <==>
      exists s: nat :: s < n && Exporting(layouts[s]) && KeyOf(t, layouts, c, s) == key
  }

  /** A silent rank, or a replica of a represented key, publishes nothing. */
  lemma NotElected(t: Topology, layouts: seq<Layout>, c: Combination, q: Request, n: nat, keys: seq<Key>,
                   ps: seq<Producer>)
    requires t.Valid() && n < |layouts| && Represents(t, layouts, c, n, keys) && Publishes(t, layouts, c, q, n, ps)
    requires !Exporting(layouts[n]) || KeyOf(t, layouts, c, n) in keys
    ensures Represents(t, layouts, c, n + 1, keys) && Publishes(t, layouts, c, q, n + 1, ps)
  {
    assert !Elected(t, layouts, c, n);
    assert ElectedRanks(t, layouts, c, n + 1) == ElectedRanks(t, layouts, c, n);
    forall key
      ensures key in keys <==>
              exists s: nat :: s < n + 1 && Exporting(layouts[s]) && KeyOf(t, layouts, c, s) == key
    {
      if s: nat :| s < n + 1 && Exporting(layouts[s]) && KeyOf(t, layouts, c, s) == key {
        if s < n { assert key in keys; }
      }
    }
  }

  lemma NewKeyElected(t: Topology, layouts: seq<Layout>, c: Combination, n: nat, keys: seq<Key>)
    requires t.Valid() && n < |layouts| && Represents(t, layouts, c, n, keys)
    requires Exporting(layouts[n]) && KeyOf(t, layouts, c, n) !in keys
    ensures Elected(t, layouts, c, n)
  {
  }

  lemma NewKeyRepresented(t: Topology, layouts: seq<Layout>, c: Combination, n: nat, keys: seq<Key>)
    requires t.Valid() && n < |layouts| && Represents(t, layouts, c, n, keys) && Exporting(layouts[n])
    ensures Represents(t, layouts, c, n + 1, keys + [KeyOf(t, layouts, c, n)])
  {
    var more := keys + [KeyOf(t, layouts, c, n)];
    forall key
      ensures key in more <==>
              exists s: nat :: s < n + 1 && Exporting(layouts[s]) && KeyOf(t, layouts, c, s) == key
    {
      if key in keys {
        var s: nat :| s < n && Exporting(layouts[s]) && KeyOf(t, layouts, c, s) == key;
        assert s < n + 1;
      }
      if s: nat :| s < n + 1 && Exporting(layouts[s]) && KeyOf(t, layouts, c, s) == key {
        if s < n { assert key in keys; }
      }
    }
  }

  /** An elected rank publishes next. */
  lemma NewProducer(t: Topology, layouts: seq<Layout>, c: Combination, q: Request, n: nat, ps: seq<Producer>,
                    p: Partition)
    requires t.Valid() && n < |layouts| && Publishes(t, layouts, c, q, n, ps)
    requires Elected(t, layouts, c, n) && ProjectsTo(q, layouts[n].observation.value, p)
    ensures Publishes(t, layouts, c, q, n + 1, ps + [Producer(n, p)])
  {
  }

  /** Projects the next elected rank within what the bounds leave; a refusal means no publication exists. */
  method ProjectElected(t: Topology, layouts: seq<Layout>, c: Combination, q: Request, rank: nat, ps: seq<Producer>,
                        fragments: nat)
    returns (r: Result<Partition, CaptureError>)
    requires t.Valid() && |layouts| == t.WorldSize() && MapsValid(layouts)
    requires rank < |layouts| && Elected(t, layouts, c, rank) && Publishes(t, layouts, c, q, rank, ps)
    requires fragments == FragmentTotal(ps) <= q.maxFragments
    ensures r.Ok? ==> ProjectsTo(q, layouts[rank].observation.value, r.value)
    ensures r.Ok? ==> |ps| < q.maxProducers && fragments + |r.value.fragments| <= q.maxFragments
    ensures r.Err? ==> forall all :: !PublishedAs(t, layouts, c, q, all)
  {
    if |ps| >= q.maxProducers {
      TooManyProducers(t, layouts, c, q, rank, ps);
      return Err(ProducerBoundExceeded);
    }
    r := ProjectCapture(q, layouts[rank].observation.value, q.maxFragments - fragments);
    if r.Err? {
      TooManyFragments(t, layouts, c, q, rank, ps);
    }
  }

  /** The represented keys, the producers elected so far and their fragments. */
  datatype Tally = Tally(keys: seq<Key>, producers: seq<Producer>, fragments: nat)

  /** The tally of the first `n` ranks, all observed. */
  ghost predicate Tallied(t: Topology, layouts: seq<Layout>, c: Combination, q: Request, n: nat, tally: Tally)
    requires t.Valid() && n <= |layouts|
  {
    && (forall s :: 0 <= s < n ==> layouts[s].observation.Some?)
    && Represents(t, layouts, c, n, tally.keys)
    && Publishes(t, layouts, c, q, n, tally.producers)
    && |tally.producers| <= q.maxProducers
    && tally.fragments == FragmentTotal(tally.producers) <= q.maxFragments
  }

  /** Visits one rank: the first of its key is elected and projected, every other rank leaves the tally alone. */
  method VisitRank(t: Topology, layouts: seq<Layout>, c: Combination, q: Request, rank: nat, tally: Tally)
    returns (r: Result<Tally, CaptureError>)
    requires t.Valid() && |layouts| == t.WorldSize() && MapsValid(layouts)
    requires rank < |layouts| && Tallied(t, layouts, c, q, rank, tally)
    ensures r.Ok? ==> Tallied(t, layouts, c, q, rank + 1, r.value)
    ensures r.Err? ==> forall ps :: !PublishedAs(t, layouts, c, q, ps)
  {
    if layouts[rank].observation.None? {
      return Err(MissingPath);
    }
    var keys, producers := tally.keys, tally.producers;
    if !Exporting(layouts[rank]) || KeyOf(t, layouts, c, rank) in keys {
      NotElected(t, layouts, c, q, rank, keys, producers);
      return Ok(tally);
    }
    NewKeyElected(t, layouts, c, rank, keys);
    var projection := ProjectElected(t, layouts, c, q, rank, producers, tally.fragments);
    if projection.Err? {
      return Err(projection.error);
    }
    NewKeyRepresented(t, layouts, c, rank, keys);
    NewProducer(t, layouts, c, q, rank, producers, projection.value);
    FragmentTotalAppend(producers, Producer(rank, projection.value));
    r := Ok(Tally(keys + [KeyOf(t, layouts, c, rank)], producers + [Producer(rank, projection.value)],
                  tally.fragments + |projection.value.fragments|));
  }

  /** Visits every rank in order. */
  method ElectRanks(t: Topology, layouts: seq<Layout>, c: Combination, q: Request)
    returns (r: Result<seq<Producer>, CaptureError>)
    requires t.Valid() && |layouts| == t.WorldSize() && MapsValid(layouts)
    ensures r.Ok? ==> AllObserved(layouts) && Publishes(t, layouts, c, q, |layouts|, r.value)
    ensures r.Ok? ==> |r.value| <= q.maxProducers && FragmentTotal(r.value) <= q.maxFragments
    ensures r.Err? ==> forall ps :: !PublishedAs(t, layouts, c, q, ps)
  {
    var tally := Tally([], [], 0);
    for rank := 0 to |layouts|
      invariant Tallied(t, layouts, c, q, rank, tally)
    {
      var visited := VisitRank(t, layouts, c, q, rank, tally);
      if visited.Err? {
        return Err(visited.error);
      }
      tally := visited.value;
    }
    r := Ok(tally.producers);
  }

  /** Elects the publishing ranks of one selection. */
  method CaptureProducers(t: Topology, layouts: seq<Layout>, q: Request)
    returns (r: Result<seq<Producer>, CaptureError>)
    requires t.Valid() && |layouts| == t.WorldSize() && MapsValid(layouts)
    ensures r.Ok? ==> Publication(t, layouts, q, r.value)
    ensures r.Err? ==> forall ps :: !Publication(t, layouts, q, ps)
  {
    if q.maxProducers == 0 {
      return Err(ZeroProducerBound);
    }
    var combination := ObservationCombination(t, layouts);
    if combination.Err? {
      return Err(combination.error);
    }
    var c := combination.value;
    AgreedOnce(t, layouts, c);
    r := ElectRanks(t, layouts, c, q);
    if r.Ok? {
      PublishedAlike(t, layouts, c, q, r.value);
      if r.value == [] {
        r := Err(NoInvocationOwner);
      } else if c == Sum && |r.value| != t.tensor {
        r := Err(MissingTensorTerm);
      } else {
        assert PublishedAs(t, layouts, c, q, r.value);
      }
    }
  }

  lemma AgreedOnce(t: Topology, layouts: seq<Layout>, c: Combination)
    requires t.Valid() && |layouts| == t.WorldSize() && Agreed(t, layouts, c)
    ensures forall d :: Agreed(t, layouts, d) ==> d == c
  {
    assert CombinationOf(layouts[0]) == Some(c);
  }

  /** The elected list determines the producers. */
  lemma PublishedAlike(t: Topology, layouts: seq<Layout>, c: Combination, q: Request, ps: seq<Producer>)
    requires t.Valid() && Publishes(t, layouts, c, q, |layouts|, ps)
    ensures forall ps': seq<Producer> :: Publishes(t, layouts, c, q, |layouts|, ps') ==> ps' == ps
  {
    forall ps': seq<Producer> | Publishes(t, layouts, c, q, |layouts|, ps')
      ensures ps' == ps
    {
      forall i | 0 <= i < |ps|
        ensures ps'[i] == ps[i]
      {
        ProjectsToUnique(q, layouts[ps[i].rank].observation.value, ps[i].partition, ps'[i].partition);
      }
    }
  }

  /** Earlier elections are a prefix of the final one. */
  lemma {:induction false} ElectedPrefix(t: Topology, layouts: seq<Layout>, c: Combination, n: nat, total: nat)
    requires t.Valid() && n <= total <= |layouts|
    ensures ElectedRanks(t, layouts, c, n) <= ElectedRanks(t, layouts, c, total)
    decreases total
  {
    if n < total {
      ElectedPrefix(t, layouts, c, n, total - 1);
    }
  }

  lemma {:induction false} FragmentTotalPrefix(ps: seq<Producer>, k: nat)
    requires k <= |ps|
    ensures FragmentTotal(ps[..k]) <= FragmentTotal(ps)
  {
    if k == |ps| {
      assert ps[..k] == ps;
    } else {
      FragmentTotalPrefix(ps[..|ps| - 1], k);
      assert ps[..|ps| - 1][..k] == ps[..k];
    }
  }

  /** A complete election extends every partial one by the next elected rank. */
  lemma ExtendsPartial(t: Topology, layouts: seq<Layout>, c: Combination, q: Request, n: nat,
                       ps: seq<Producer>, all: seq<Producer>)
    requires t.Valid() && n < |layouts| && Elected(t, layouts, c, n)
    requires Publishes(t, layouts, c, q, n, ps) && Publishes(t, layouts, c, q, |layouts|, all)
    ensures |ps| < |all| && all[..|ps|] == ps && all[|ps|].rank == n
  {
    ElectedPrefix(t, layouts, c, n + 1, |layouts|);
    var elected := ElectedRanks(t, layouts, c, n + 1);
    assert elected == ElectedRanks(t, layouts, c, n) + [n];
    forall i | 0 <= i < |ps|
      ensures all[i] == ps[i]
    {
      assert all[i].rank == elected[i] == ps[i].rank;
      ProjectsToUnique(q, layouts[ps[i].rank].observation.value, ps[i].partition, all[i].partition);
    }
  }

  lemma TooManyProducers(t: Topology, layouts: seq<Layout>, c: Combination, q: Request, n: nat, ps: seq<Producer>)
    requires t.Valid() && n < |layouts| && Elected(t, layouts, c, n)
    requires Publishes(t, layouts, c, q, n, ps) && |ps| >= q.maxProducers
    ensures forall all: seq<Producer> :: Publishes(t, layouts, c, q, |layouts|, all) ==> !WithinBounds(t, c, q, all)
  {
    forall all: seq<Producer> | Publishes(t, layouts, c, q, |layouts|, all)
      ensures !WithinBounds(t, c, q, all)
    {
      ExtendsPartial(t, layouts, c, q, n, ps, all);
    }
  }

  lemma TooManyFragments(t: Topology, layouts: seq<Layout>, c: Combination, q: Request, n: nat, ps: seq<Producer>)
    requires t.Valid() && n < |layouts| && Elected(t, layouts, c, n)
    requires Publishes(t, layouts, c, q, n, ps) && FragmentTotal(ps) <= q.maxFragments
    requires forall p :: ProjectsTo(q, layouts[n].observation.value, p) ==>
               |p.fragments| > q.maxFragments - FragmentTotal(ps)
    ensures forall all: seq<Producer> :: Publishes(t, layouts, c, q, |layouts|, all) ==> !WithinBounds(t, c, q, all)
  {
    forall all: seq<Producer> | Publishes(t, layouts, c, q, |layouts|, all)
      ensures !WithinBounds(t, c, q, all)
    {
      ExtendsPartial(t, layouts, c, q, n, ps, all);
      assert ProjectsTo(q, layouts[n].observation.value, all[|ps|].partition);
      NextTotal(ps, all);
    }
  }

  lemma NextTotal(ps: seq<Producer>, all: seq<Producer>)
    requires |ps| < |all| && all[..|ps|] == ps
    ensures FragmentTotal(ps) + |all[|ps|].partition.fragments| <= FragmentTotal(all)
  {
    assert all[..|ps| + 1] == ps + [all[|ps|]];
    FragmentTotalAppend(ps, all[|ps|]);
    FragmentTotalPrefix(all, |ps| + 1);
  }
}
