/**
 What a published election means: reassembling only the elected ranks' fragments gives
 the unpartitioned value, and additive captures sum every tensor-parallel term once.
 */
module Capture {
  import opened Wrappers
  import opened Arith
  import opened Sequences
  import opened RankTopology
  import opened Coordinates
  import opened Progressions
  import opened SlicePartition
  import opened RowMajor
  import opened Assembly
  import opened Election

  function MapOf(layouts: seq<Layout>, r: nat): CoordinateMap
    requires r < |layouts| && Exporting(layouts[r])
  {
    layouts[r].observation.value.coordinates.value
  }

  // ---- additive captures: one producer per tensor-parallel term ----

  function TermOf(t: Topology, p: Producer): nat
    requires t.Valid()
  {
    t.Coordinates(p.rank).tensor
  }

  /** Every producer's rank exports a map of the same global width. */
  ghost predicate OneWidth(layouts: seq<Layout>, ps: seq<Producer>) {
    && (forall i :: 0 <= i < |ps| ==> ps[i].rank < |layouts| && Exporting(layouts[ps[i].rank]))
    && forall i, j :: 0 <= i < |ps| && 0 <= j < |ps| ==>
         MapOf(layouts, ps[i].rank).globalCount == MapOf(layouts, ps[j].rank).globalCount
  }

  /** Producers projected along the same axis necessarily agree on its width. */
  lemma SameAxisOneWidth(t: Topology, layouts: seq<Layout>, c: Combination, q: Request, ps: seq<Producer>)
    requires t.Valid() && |layouts| == t.WorldSize() && PublishedAs(t, layouts, c, q, ps)
    requires forall i, j :: 0 <= i < |ps| && 0 <= j < |ps| ==> ps[i].partition.axis == ps[j].partition.axis
    ensures OneWidth(layouts, ps)
  {
    forall i, j | 0 <= i < |ps| && 0 <= j < |ps|
      ensures MapOf(layouts, ps[i].rank).globalCount == MapOf(layouts, ps[j].rank).globalCount
    {
      assert ProjectsTo(q, layouts[ps[i].rank].observation.value, ps[i].partition);
      assert ProjectsTo(q, layouts[ps[j].rank].observation.value, ps[j].partition);
    }
  }

  /** Distinct additive producers stand for distinct terms. */
  lemma TermsDistinct(t: Topology, layouts: seq<Layout>, q: Request, ps: seq<Producer>, i: nat, j: nat)
    requires t.Valid() && |layouts| == t.WorldSize() && PublishedAs(t, layouts, Sum, q, ps) && OneWidth(layouts, ps)
    requires i < j < |ps|
    ensures TermOf(t, ps[i]) != TermOf(t, ps[j])
  {
    var a, b := ps[i].rank, ps[j].rank;
    ElectedRanksExact(t, layouts, Sum, |layouts|);
    assert a in ElectedRanks(t, layouts, Sum, |layouts|) && b in ElectedRanks(t, layouts, Sum, |layouts|);
    assert Elected(t, layouts, Sum, b) && a < b;
    assert CompleteGroup(t, layouts, a) && CompleteGroup(t, layouts, b);
    assert MapOf(layouts, a) == MapOf(layouts, b);
  }

  /** As many distinct numbers below a bound as the bound are all of them, once each. */
  lemma Pigeonhole(xs: seq<nat>, n: nat, x: nat)
    requires |xs| == n && x < n
    requires forall i :: 0 <= i < |xs| ==> xs[i] < n
    requires forall i, j :: 0 <= i < j < |xs| ==> xs[i] != xs[j]
    ensures x in xs
  {
    DistinctSize(xs);
    IntervalSize(0, n);
    SubsetSameSize(Elements(xs), Interval(0, n));
    assert x in Elements(xs);
  }

  function Terms(t: Topology, ps: seq<Producer>): (terms: seq<nat>)
    requires t.Valid()
    ensures |terms| == |ps| && forall i :: 0 <= i < |ps| ==> terms[i] == TermOf(t, ps[i])
  {
    seq(|ps|, (i: nat) requires i < |ps| => TermOf(t, ps[i]))
  }

  /** The terms of an additive election list every tensor coordinate exactly once. */
  ghost predicate EachTermOnce(terms: seq<nat>, n: nat) {
    && |terms| == n
    && (forall i :: 0 <= i < |terms| ==> terms[i] < n)
    && (forall i, j :: 0 <= i < j < |terms| ==> terms[i] != terms[j])
    && (forall x: nat :: x < n ==> x in terms)
  }

  /** The count check and distinctness leave exactly one producer for every term. */
  lemma OneProducerPerTerm(t: Topology, layouts: seq<Layout>, q: Request, ps: seq<Producer>)
    requires t.Valid() && |layouts| == t.WorldSize() && PublishedAs(t, layouts, Sum, q, ps) && OneWidth(layouts, ps)
    ensures EachTermOnce(Terms(t, ps), t.tensor)
  {
    var terms := Terms(t, ps);
    forall i, j | 0 <= i < j < |terms|
      ensures terms[i] != terms[j]
    {
      TermsDistinct(t, layouts, q, ps, i, j);
    }
    forall x: nat | x < t.tensor
      ensures x in terms
    {
      Pigeonhole(terms, t.tensor, x);
    }
  }

  // ---- disjoint captures: the elected fragments are the whole selection ----

  /** Fragment lists of successive producers, one after another, each with its producer's index. */
  datatype Tag = Tag(owner: nat, fragment: Fragment)

  function Tagged(owner: nat, fs: seq<Fragment>): (tags: seq<Tag>)
    ensures |tags| == |fs| && forall k :: 0 <= k < |fs| ==> tags[k] == Tag(owner, fs[k])
  {
    seq(|fs|, (k: nat) requires k < |fs| => Tag(owner, fs[k]))
  }

  function AllTags(lists: seq<seq<Fragment>>): seq<Tag> {
    if lists == [] then [] else AllTags(lists[..|lists| - 1]) + Tagged(|lists| - 1, lists[|lists| - 1])
  }

  lemma {:induction false} TagsAreJoined(lists: seq<seq<Fragment>>)
    ensures |AllTags(lists)| == |Joined(lists)|
    ensures forall k :: 0 <= k < |AllTags(lists)| ==>
              && AllTags(lists)[k].fragment == Joined(lists)[k]
              && AllTags(lists)[k].owner < |lists|
              && AllTags(lists)[k].fragment in lists[AllTags(lists)[k].owner]
  {
    if lists != [] {
      TagsAreJoined(lists[..|lists| - 1]);
    }
  }

  lemma {:induction false} AppendCounts(fs: seq<Fragment>, gs: seq<Fragment>)
    ensures TotalCount(fs + gs) == TotalCount(fs) + TotalCount(gs)
    ensures Destinations(fs + gs) == Destinations(fs) + Destinations(gs)
  {
    if gs == [] {
      assert fs + gs == fs;
      assert Destinations(gs) == {};
    } else {
      var init, last := gs[..|gs| - 1], gs[|gs| - 1];
      AppendCounts(fs, init);
      assert fs + gs == (fs + init) + [last];
      assert (fs + gs)[..|fs + gs| - 1] == fs + init;
      assert gs == init + [last];
      DestinationsAppend(fs + init, last);
      DestinationsAppend(init, last);
    }
  }

  /** Maps that share no coordinate. */
  ghost predicate Apart(m: CoordinateMap, n: CoordinateMap)
    requires m.Valid() && n.Valid()
  {
    forall g: nat :: !(m.Owns(g) && n.Owns(g))
  }

  /** Maps over one axis that own each coordinate exactly once. */
  ghost predicate Partitioned(maps: seq<CoordinateMap>, count: nat) {
    && (forall i :: 0 <= i < |maps| ==> maps[i].Valid() && maps[i].globalCount == count)
    && (forall i, j :: 0 <= i < j < |maps| ==> Apart(maps[i], maps[j]))
    && (forall g: nat :: g < count ==> OwnedBySome(maps, g))
  }

  ghost predicate OwnedBySome(maps: seq<CoordinateMap>, g: nat)
    requires forall i :: 0 <= i < |maps| ==> maps[i].Valid()
  {
    exists i :: 0 <= i < |maps| && maps[i].Owns(g)
  }

  ghost predicate ExactLists(s: AxisSlice, maps: seq<CoordinateMap>, lists: seq<seq<Fragment>>)
    requires s.start <= s.end && s.stride > 0
  {
    && |lists| == |maps|
    && forall i :: 0 <= i < |maps| ==> maps[i].Valid() && Exact(s, maps[i], lists[i])
  }

  /** Destinations owned by some of the maps. */
  ghost function OwnedByAll(s: AxisSlice, maps: seq<CoordinateMap>): set<nat>
    requires s.start <= s.end && s.stride > 0 && forall i :: 0 <= i < |maps| ==> maps[i].Valid()
  {
    set i, d: nat | 0 <= i < |maps| && d < s.Count() && d in OwnedDestinations(s, maps[i]) :: d
  }

  /** Exact lists of maps that share nothing reach disjoint destinations, so their counts add up. */
  lemma {:induction false} JoinedExact(s: AxisSlice, maps: seq<CoordinateMap>, lists: seq<seq<Fragment>>)
    requires s.start <= s.end && s.stride > 0 && ExactLists(s, maps, lists)
    requires forall i, j :: 0 <= i < j < |maps| ==> Apart(maps[i], maps[j])
    ensures AllValid(Joined(lists))
    ensures Destinations(Joined(lists)) == OwnedByAll(s, maps)
    ensures TotalCount(Joined(lists)) == |Destinations(Joined(lists))|
  {
    if lists == [] {
      assert Destinations(Joined(lists)) == {};
      assert OwnedByAll(s, maps) == {};
    } else {
      var n := |maps| - 1;
      var initMaps, initLists := maps[..n], lists[..n];
      assert ExactLists(s, initMaps, initLists);
      JoinedExact(s, initMaps, initLists);
      AppendCounts(Joined(initLists), lists[n]);
      OwnedByAllAppend(s, maps);
      LastApart(s, maps);
    }
  }

  /** The last of several maps that share nothing owns none of the others' destinations. */
  lemma LastApart(s: AxisSlice, maps: seq<CoordinateMap>)
    requires s.start <= s.end && s.stride > 0 && maps != []
    requires forall i :: 0 <= i < |maps| ==> maps[i].Valid()
    requires forall i, j :: 0 <= i < j < |maps| ==> Apart(maps[i], maps[j])
    ensures OwnedByAll(s, maps[..|maps| - 1]) !! OwnedDestinations(s, maps[|maps| - 1])
  {
    var n := |maps| - 1;
    forall d | d in OwnedByAll(s, maps[..n])
      ensures d !in OwnedDestinations(s, maps[n])
    {
      var i :| 0 <= i < n && d in OwnedDestinations(s, maps[..n][i]);
      assert Apart(maps[i], maps[n]);
    }
  }

  lemma OwnedByAllAppend(s: AxisSlice, maps: seq<CoordinateMap>)
    requires s.start <= s.end && s.stride > 0 && maps != []
    requires forall i :: 0 <= i < |maps| ==> maps[i].Valid()
    ensures OwnedByAll(s, maps) == OwnedByAll(s, maps[..|maps| - 1]) + OwnedDestinations(s, maps[|maps| - 1])
  {
    var n := |maps| - 1;
    forall d | d in OwnedByAll(s, maps[..n])
      ensures d in OwnedByAll(s, maps)
    {
      var i :| 0 <= i < n && d in OwnedDestinations(s, maps[..n][i]);
      assert d in OwnedDestinations(s, maps[i]);
    }
    forall d | d in OwnedByAll(s, maps)
      ensures d in OwnedByAll(s, maps[..n]) || d in OwnedDestinations(s, maps[n])
    {
      var i :| 0 <= i < |maps| && d in OwnedDestinations(s, maps[i]);
      if i < n { assert d in OwnedDestinations(s, maps[..n][i]); }
    }
  }

  /** A partitioned axis reaches every destination exactly once. */
  lemma PartitionCovers(s: AxisSlice, maps: seq<CoordinateMap>, count: nat, lists: seq<seq<Fragment>>)
    requires s.Valid(count) && Partitioned(maps, count) && ExactLists(s, maps, lists)
    ensures AllValid(Joined(lists)) && PairwiseDisjoint(Joined(lists))
    ensures TotalCount(Joined(lists)) == s.Count()
  {
    JoinedExact(s, maps, lists);
    DisjointIffCounts(Joined(lists));
    forall d: nat | d < s.Count()
      ensures d in OwnedByAll(s, maps)
    {
      DestinationSelected(s, count, d);
      assert OwnedBySome(maps, s.Coordinate(d));
      var i :| 0 <= i < |maps| && maps[i].Owns(s.Coordinate(d));
      assert d in OwnedDestinations(s, maps[i]);
    }
    assert OwnedByAll(s, maps) == Interval(0, s.Count());
    IntervalSize(0, s.Count());
  }

  // ---- the whole pipeline ----

  /** Exported maps are shards of one axis: equal for replicas, otherwise sharing nothing. */
  ghost predicate ShardsAxis(layouts: seq<Layout>, count: nat)
    requires MapsValid(layouts)
  {
    && (forall r :: 0 <= r < |layouts| && Exporting(layouts[r]) ==> MapOf(layouts, r).globalCount == count)
    && (forall r, s :: 0 <= r < |layouts| && 0 <= s < |layouts| && Exporting(layouts[r]) && Exporting(layouts[s]) ==>
          MapOf(layouts, r) == MapOf(layouts, s) || Apart(MapOf(layouts, r), MapOf(layouts, s)))
    && (forall g: nat :: g < count ==> ExportedBySome(layouts, g))
  }

  ghost predicate ExportedBySome(layouts: seq<Layout>, g: nat)
    requires MapsValid(layouts)
  {
    exists r :: 0 <= r < |layouts| && Exporting(layouts[r]) && MapOf(layouts, r).Owns(g)
  }

  function MapsOf(layouts: seq<Layout>, ps: seq<Producer>): (maps: seq<CoordinateMap>)
    requires forall i :: 0 <= i < |ps| ==> ps[i].rank < |layouts| && Exporting(layouts[ps[i].rank])
    ensures |maps| == |ps| && forall i :: 0 <= i < |ps| ==> maps[i] == MapOf(layouts, ps[i].rank)
  {
    seq(|ps|, (i: nat) requires i < |ps| => MapOf(layouts, ps[i].rank))
  }

  function ListsOf(ps: seq<Producer>): (lists: seq<seq<Fragment>>)
    ensures |lists| == |ps| && forall i :: 0 <= i < |ps| ==> lists[i] == ps[i].partition.fragments
  {
    seq(|ps|, (i: nat) requires i < |ps| => ps[i].partition.fragments)
  }

  /** The published ranks are exactly the elected ones. */
  lemma PublishedElected(t: Topology, layouts: seq<Layout>, c: Combination, q: Request, ps: seq<Producer>)
    requires t.Valid() && |layouts| == t.WorldSize() && PublishedAs(t, layouts, c, q, ps)
    ensures forall i :: 0 <= i < |ps| ==> Elected(t, layouts, c, ps[i].rank)
    ensures forall i, j :: 0 <= i < j < |ps| ==> ps[i].rank < ps[j].rank
    ensures forall r: nat :: Elected(t, layouts, c, r) ==> exists i :: 0 <= i < |ps| && ps[i].rank == r
  {
    ElectedRanksExact(t, layouts, c, |layouts|);
    var ranks := ElectedRanks(t, layouts, c, |layouts|);
    assert forall i :: 0 <= i < |ps| ==> ps[i].rank == ranks[i] && ranks[i] in ranks;
    forall r: nat | Elected(t, layouts, c, r)
      ensures exists i :: 0 <= i < |ps| && ps[i].rank == r
    {
      assert r in ranks;
      var i :| 0 <= i < |ranks| && ranks[i] == r;
      assert ps[i].rank == r;
    }
  }

  lemma ProducersApart(t: Topology, layouts: seq<Layout>, q: Request, ps: seq<Producer>, count: nat, i: nat, j: nat)
    requires t.Valid() && |layouts| == t.WorldSize() && MapsValid(layouts) && i < j < |ps|
    requires PublishedAs(t, layouts, Disjoint, q, ps) && ShardsAxis(layouts, count)
    ensures Apart(MapOf(layouts, ps[i].rank), MapOf(layouts, ps[j].rank))
  {
    PublishedElected(t, layouts, Disjoint, q, ps);
    assert KeyOf(t, layouts, Disjoint, ps[i].rank) != KeyOf(t, layouts, Disjoint, ps[j].rank);
  }

  lemma ProducersCover(t: Topology, layouts: seq<Layout>, q: Request, ps: seq<Producer>, count: nat, g: nat)
    requires t.Valid() && |layouts| == t.WorldSize() && MapsValid(layouts) && g < count
    requires PublishedAs(t, layouts, Disjoint, q, ps) && ShardsAxis(layouts, count)
    ensures exists i :: 0 <= i < |ps| && MapOf(layouts, ps[i].rank).Owns(g)
  {
    PublishedElected(t, layouts, Disjoint, q, ps);
    assert ExportedBySome(layouts, g);
    var r :| 0 <= r < |layouts| && Exporting(layouts[r]) && MapOf(layouts, r).Owns(g);
    RepresentedOnce(t, layouts, Disjoint, r);
    var e: nat :| e <= r && Elected(t, layouts, Disjoint, e)
      && KeyOf(t, layouts, Disjoint, e) == KeyOf(t, layouts, Disjoint, r);
    var i :| 0 <= i < |ps| && ps[i].rank == e;
    assert MapOf(layouts, ps[i].rank).Owns(g);
  }

  /** Removing replicas leaves every coordinate with exactly one publishing rank. */
  lemma ElectedPartition(t: Topology, layouts: seq<Layout>, q: Request, ps: seq<Producer>, count: nat)
    requires t.Valid() && |layouts| == t.WorldSize() && MapsValid(layouts)
    requires PublishedAs(t, layouts, Disjoint, q, ps) && ShardsAxis(layouts, count)
    ensures Partitioned(MapsOf(layouts, ps), count)
  {
    var maps := MapsOf(layouts, ps);
    forall i, j | 0 <= i < j < |maps|
      ensures Apart(maps[i], maps[j])
    {
      ProducersApart(t, layouts, q, ps, count, i, j);
    }
    forall g: nat | g < count
      ensures OwnedBySome(maps, g)
    {
      ProducersCover(t, layouts, q, ps, count, g);
      var i :| 0 <= i < |ps| && MapOf(layouts, ps[i].rank).Owns(g);
      assert maps[i].Owns(g);
    }
  }

  /** A rank's native tensor is the global tensor restricted to its coordinates on one axis. */
  ghost predicate Holds<V(!new)>(tensor: seq<nat> -> V, native: seq<nat> -> V, shape: seq<nat>, axis: nat,
                          m: CoordinateMap)
    requires m.Valid() && axis < |shape|
  {
    forall c :: InShape(shape[axis := m.LocalCount()], c) ==> native(c) == tensor(c[axis := m.ToGlobal(c[axis])])
  }

  /** The native coordinate read for the `i`-th element of a piece. */
  function NativeRead<V>(p: Piece<V>, i: nat): (c: seq<nat>)
    requires p.slice.Ranked(|p.slice.shape|) && p.axis < |p.slice.shape| && Size(PieceShape(p)) > 0
    ensures |c| == |p.slice.shape|
  {
    var box := LocalBox(p.slice, p.axis, p.fragment);
    Strided(box.starts, box.strides, Unflatten(PieceShape(p), i))
  }

  /** What the receiving side gets: every tagged fragment, read from its producer's native tensor. */
  ghost predicate Received<V(!new)>(q: Request, ps: seq<Producer>, natives: nat -> seq<nat> -> V,
                                    preview: Option<nat>, pieces: seq<Piece<V>>)
  {
    var tags := AllTags(ListsOf(ps));
    && |pieces| == |tags|
    && forall k :: 0 <= k < |tags| ==>
         && tags[k].owner < |ps|
         && pieces[k].slice == q.slice && pieces[k].fragment == tags[k].fragment
         && pieces[k].axis == ps[tags[k].owner].partition.axis
         && ReadFrom(pieces[k], natives(ps[tags[k].owner].rank), preview)
  }

  ghost predicate ReadFrom<V(!new)>(p: Piece<V>, native: seq<nat> -> V, preview: Option<nat>) {
    && p.slice.Ranked(|p.slice.shape|) && p.axis < |p.slice.shape| && Size(PieceShape(p)) > 0
    && |p.payload| == Emitted(PieceShape(p), preview)
    && forall i: nat :: i < |p.payload| ==> p.payload[i] == native(NativeRead(p, i))
  }

  /** Native reads stay inside the rank's local shape. */
  lemma NativeReadInShape<V>(p: Piece<V>, shape: seq<nat>, m: CoordinateMap, i: nat)
    requires Constructed(p) && p.slice.Fits(shape) && m.Valid() && i < Size(PieceShape(p))
    requires Places(p.slice.Axis(p.axis), m, p.fragment)
    ensures Size(PieceShape(p)) > 0
    ensures InShape(shape[p.axis := m.LocalCount()], NativeRead(p, i))
    ensures NativeRead(p, i)[p.axis := m.ToGlobal(NativeRead(p, i)[p.axis])] == LocalRead(p, m, i)
  {
    PiecePositive(p);
    TargetAlong(p, i);
    forall d | 0 <= d < |shape|
      ensures NativeRead(p, i)[d] < if d == p.axis then m.LocalCount() else shape[d]
    {
      NativeAlong(p, shape, m, i, d);
    }
  }

  lemma NativeAlong<V>(p: Piece<V>, shape: seq<nat>, m: CoordinateMap, i: nat, d: nat)
    requires Constructed(p) && p.slice.Fits(shape) && m.Valid() && i < Size(PieceShape(p)) && d < |shape|
    requires Places(p.slice.Axis(p.axis), m, p.fragment)
    ensures Size(PieceShape(p)) > 0
    ensures NativeRead(p, i)[d] < if d == p.axis then m.LocalCount() else shape[d]
  {
    TargetAlong(p, i);
    var c, u := NativeRead(p, i), Unflatten(PieceShape(p), i);
    if d == p.axis {
      assert c[d] == p.fragment.local.At(u[d]);
    } else {
      DestinationSelected(p.slice.Axis(d), shape[d], u[d]);
    }
  }

  /** Pieces read from restricted tensors carry the global slice. */
  lemma ReadCarries<V(!new)>(tensor: seq<nat> -> V, native: seq<nat> -> V, shape: seq<nat>, p: Piece<V>,
                             m: CoordinateMap, preview: Option<nat>)
    requires Constructed(p) && p.slice.Fits(shape) && m.Valid() && p.axis < |shape|
    requires Places(p.slice.Axis(p.axis), m, p.fragment)
    requires Holds(tensor, native, shape, p.axis, m) && ReadFrom(p, native, preview)
    ensures CarriesSlice(tensor, p, m)
  {
    forall i: nat | i < |p.payload| && i < Size(PieceShape(p))
      ensures p.payload[i] == tensor(LocalRead(p, m, i))
    {
      NativeReadInShape(p, shape, m, i);
    }
  }

  /** Fragments of an exact projection have the geometry assembly relies on. */
  lemma ExactConstructed<V>(p: Piece<V>, shape: seq<nat>, m: CoordinateMap, fs: seq<Fragment>)
    requires p.slice.Fits(shape) && p.axis < |shape| && Positive(p.slice.shape) && m.Valid()
    requires Exact(p.slice.Axis(p.axis), m, fs) && p.fragment in fs
    ensures Constructed(p) && Places(p.slice.Axis(p.axis), m, p.fragment)
  {
    var k :| 0 <= k < |fs| && fs[k] == p.fragment;
    forall i: nat | i < p.fragment.destination.count
      ensures p.fragment.destination.At(i) < p.slice.shape[p.axis]
    {
      assert fs[k].destination.At(i) in Destinations(fs);
    }
  }

  /** A disjoint election over one axis whose exported maps shard it. */
  ghost predicate Sharded(t: Topology, layouts: seq<Layout>, q: Request, ps: seq<Producer>, axis: nat) {
    && t.Valid() && |layouts| == t.WorldSize() && MapsValid(layouts)
    && PublishedAs(t, layouts, Disjoint, q, ps) && Size(q.slice.shape) > 0
    && (forall i :: 0 <= i < |ps| ==> ps[i].partition.axis == axis)
    && axis < |q.shape| && ShardsAxis(layouts, q.shape[axis])
  }

  lemma ShardedGeometry(t: Topology, layouts: seq<Layout>, q: Request, ps: seq<Producer>, axis: nat)
    requires Sharded(t, layouts, q, ps, axis)
    ensures q.slice.Fits(q.shape) && Positive(q.slice.shape) && q.slice.Axis(axis).Valid(q.shape[axis])
  {
    assert ProjectsTo(q, layouts[ps[0].rank].observation.value, ps[0].partition);
    SizePositive(q.slice.shape);
  }

  /** Every producer's fragment list is exact for its map. */
  lemma ShardedExact(t: Topology, layouts: seq<Layout>, q: Request, ps: seq<Producer>, axis: nat)
    requires Sharded(t, layouts, q, ps, axis)
    requires q.slice.Fits(q.shape) && q.slice.Axis(axis).Valid(q.shape[axis])
    ensures ExactLists(q.slice.Axis(axis), MapsOf(layouts, ps), ListsOf(ps))
  {
    var maps, lists, s := MapsOf(layouts, ps), ListsOf(ps), q.slice.Axis(axis);
    forall i | 0 <= i < |maps|
      ensures maps[i].Valid() && Exact(s, maps[i], lists[i])
    {
      assert ProjectsTo(q, layouts[ps[i].rank].observation.value, ps[i].partition);
      FragmentsExact(s, maps[i]);
    }
  }

  /** The received pieces are well formed, and each carries its producer's part of the tensor. */
  lemma ReceivedCarry<V(!new)>(t: Topology, layouts: seq<Layout>, q: Request, ps: seq<Producer>, axis: nat,
                               tensor: seq<nat> -> V, natives: nat -> seq<nat> -> V,
                               preview: Option<nat>, pieces: seq<Piece<V>>, k: nat)
    requires Sharded(t, layouts, q, ps, axis)
    requires forall r: nat :: r < |layouts| && Exporting(layouts[r]) ==>
               Holds(tensor, natives(r), q.shape, axis, MapOf(layouts, r))
    requires Received(q, ps, natives, preview, pieces) && k < |pieces|
    ensures Constructed(pieces[k]) && k < |AllTags(ListsOf(ps))| && AllTags(ListsOf(ps))[k].owner < |ps|
    ensures MapsOf(layouts, ps)[AllTags(ListsOf(ps))[k].owner].Valid()
    ensures CarriesSlice(tensor, pieces[k], MapsOf(layouts, ps)[AllTags(ListsOf(ps))[k].owner])
  {
    ShardedGeometry(t, layouts, q, ps, axis);
    ShardedExact(t, layouts, q, ps, axis);
    TagsAreJoined(ListsOf(ps));
    var i := AllTags(ListsOf(ps))[k].owner;
    var m := MapsOf(layouts, ps)[i];
    ExactConstructed(pieces[k], q.shape, m, ListsOf(ps)[i]);
    ReadCarries(tensor, natives(ps[i].rank), q.shape, pieces[k], m, preview);
  }

  /** Together the producers' fragments are disjoint and as many as the selection needs. */
  lemma ShardedCovers(t: Topology, layouts: seq<Layout>, q: Request, ps: seq<Producer>, axis: nat)
    requires Sharded(t, layouts, q, ps, axis)
    ensures axis < |q.slice.shape| && PairwiseDisjoint(Joined(ListsOf(ps)))
    ensures TotalCount(Joined(ListsOf(ps))) == q.slice.shape[axis] && Joined(ListsOf(ps)) != []
  {
    ShardedGeometry(t, layouts, q, ps, axis);
    ShardedExact(t, layouts, q, ps, axis);
    ElectedPartition(t, layouts, q, ps, q.shape[axis]);
    PartitionCovers(q.slice.Axis(axis), MapsOf(layouts, ps), q.shape[axis], ListsOf(ps));
  }

  /** The received pieces pass the overlap and coverage checks. */
  lemma ReceivedAccepted<V(!new)>(t: Topology, layouts: seq<Layout>, q: Request, ps: seq<Producer>, axis: nat,
                                  natives: nat -> seq<nat> -> V, preview: Option<nat>, pieces: seq<Piece<V>>)
    requires Sharded(t, layouts, q, ps, axis) && Received(q, ps, natives, preview, pieces)
    ensures Accepts(q.slice, pieces, preview)
  {
    ShardedCovers(t, layouts, q, ps, axis);
    TagsAreJoined(ListsOf(ps));
    assert FragmentsOf(pieces) == Joined(ListsOf(ps));
  }

  /**
   For every placement, selection and tensor rank: when exporting ranks shard the axis and
   hold the restricted global tensor, and the election succeeds, the received fragments are
   accepted and every assembled element is the tensor's element at the selected position.
   */
  lemma DisjointCapture<V(!new)>(t: Topology, layouts: seq<Layout>, q: Request, ps: seq<Producer>, axis: nat,
                                 tensor: seq<nat> -> V, natives: nat -> seq<nat> -> V,
                                 preview: Option<nat>, pieces: seq<Piece<V>>)
    requires Sharded(t, layouts, q, ps, axis)
    requires forall r: nat :: r < |layouts| && Exporting(layouts[r]) ==>
               Holds(tensor, natives(r), q.shape, axis, MapOf(layouts, r))
    requires Received(q, ps, natives, preview, pieces)
    ensures AllConstructed(pieces) && Accepts(q.slice, pieces, preview)
    ensures q.slice.Ranked(|q.slice.shape|)
    ensures forall o: nat, v :: Supplies(pieces, o, v) ==> v == tensor(q.slice.Coordinate(Unflatten(q.slice.shape, o)))
  {
    ShardedGeometry(t, layouts, q, ps, axis);
    ReceivedAccepted(t, layouts, q, ps, axis, natives, preview, pieces);
    var tags, maps := AllTags(ListsOf(ps)), MapsOf(layouts, ps);
    TagsAreJoined(ListsOf(ps));
    var owners := seq(|tags|, (k: nat) requires k < |tags| => maps[tags[k].owner]);
    forall k | 0 <= k < |pieces|
      ensures Constructed(pieces[k]) && owners[k].Valid() && CarriesSlice(tensor, pieces[k], owners[k])
    {
      ReceivedCarry(t, layouts, q, ps, axis, tensor, natives, preview, pieces, k);
    }
    forall o: nat, v | Supplies(pieces, o, v)
      ensures v == tensor(q.slice.Coordinate(Unflatten(q.slice.shape, o)))
    {
      SuppliedIsSelected(tensor, q.slice, pieces, owners, o, v);
    }
  }

  // ---- additive captures: the sum of every term ----

  ghost function SumOver(xs: seq<nat>, f: nat -> real): real {
    if xs == [] then 0.0 else SumOver(xs[..|xs| - 1], f) + f(xs[|xs| - 1])
  }

  lemma {:induction false} SumOverAppend(a: seq<nat>, b: seq<nat>, f: nat -> real)
    ensures SumOver(a + b, f) == SumOver(a, f) + SumOver(b, f)
  {
    if b == [] {
      assert a + b == a;
    } else {
      SumOverAppend(a, b[..|b| - 1], f);
      assert (a + b)[..|a + b| - 1] == a + b[..|b| - 1];
    }
  }

  ghost function UpTo(n: nat): seq<nat> {
    if n == 0 then [] else UpTo(n - 1) + [n - 1]
  }

  /** Summing in any order in which each term occurs once is summing them all. */
  lemma {:induction false} SumEveryTerm(terms: seq<nat>, n: nat, f: nat -> real)
    requires EachTermOnce(terms, n)
    ensures SumOver(terms, f) == SumOver(UpTo(n), f)
    decreases n
  {
    if n > 0 {
      var a, b := SplitLargest(terms, n);
      SumEveryTerm(a + b, n - 1, f);
      SumInsert(a, n - 1, b, f);
      SumOverAppend(UpTo(n - 1), [n - 1], f);
      assert SumOver([n - 1], f) == SumOver([], f) + f(n - 1);
    }
  }

  lemma SplitLargest(terms: seq<nat>, n: nat) returns (a: seq<nat>, b: seq<nat>)
    requires n > 0 && EachTermOnce(terms, n)
    ensures terms == a + [n - 1] + b && EachTermOnce(a + b, n - 1)
  {
    assert n - 1 in terms;
    var k :| 0 <= k < |terms| && terms[k] == n - 1;
    a, b := terms[..k], terms[k + 1..];
    RemoveLargest(terms, n, k);
  }

  lemma SumInsert(a: seq<nat>, x: nat, b: seq<nat>, f: nat -> real)
    ensures SumOver(a + [x] + b, f) == SumOver(a + b, f) + f(x)
  {
    SumOverAppend(a, b, f);
    SumOverAppend(a + [x], b, f);
    SumOverAppend(a, [x], f);
    assert SumOver([x], f) == SumOver([], f) + f(x);
  }

  lemma RemoveLargest(terms: seq<nat>, n: nat, k: nat)
    requires n > 0 && EachTermOnce(terms, n) && k < |terms| && terms[k] == n - 1
    ensures EachTermOnce(terms[..k] + terms[k + 1..], n - 1)
  {
    var rest := terms[..k] + terms[k + 1..];
    assert forall i :: 0 <= i < |rest| ==> rest[i] == terms[if i < k then i else i + 1];
    forall x: nat | x < n - 1
      ensures x in rest
    {
      assert x in terms;
      var i :| 0 <= i < |terms| && terms[i] == x;
      assert rest[if i < k then i else i - 1] == x;
    }
  }

  function Magnitude(x: real): real {
    if x < 0.0 then -x else x
  }

  ghost function PayloadSum(payloads: seq<seq<real>>, index: nat): real
    requires forall k :: 0 <= k < |payloads| ==> index < |payloads[k]|
  {
    if payloads == [] then 0.0
    else PayloadSum(payloads[..|payloads| - 1], index) + payloads[|payloads| - 1][index]
  }

  /** Compensated summation of one element across the terms. */
  method SumElement(payloads: seq<seq<real>>, index: nat) returns (total: real)
    requires forall k :: 0 <= k < |payloads| ==> index < |payloads[k]|
    ensures total == PayloadSum(payloads, index)
  {
    var value, correction := 0.0, 0.0;
    for k := 0 to |payloads|
      invariant value + correction == PayloadSum(payloads[..k], index)
    {
      var x := payloads[k][index];
      var next := value + x;
      correction := correction + if Magnitude(value) >= Magnitude(x) then (value - next) + x else (x - next) + value;
      value := next;
      assert payloads[..k + 1][..k] == payloads[..k];
    }
    assert payloads[..|payloads|] == payloads;
    total := value + correction;
  }

  /** Sums complete selections element by element; every payload must have the emitted length. */
  method AssembleSum(payloads: seq<seq<real>>, emitted: nat) returns (r: Result<seq<real>, CaptureError>)
    ensures r.Ok? <==> payloads != [] && forall k :: 0 <= k < |payloads| ==> |payloads[k]| == emitted
    ensures r.Ok? ==> |r.value| == emitted && forall i :: 0 <= i < emitted ==> r.value[i] == PayloadSum(payloads, i)
  {
    if payloads == [] {
      return Err(Incomplete);
    }
    for k := 0 to |payloads|
      invariant forall l :: 0 <= l < k ==> |payloads[l]| == emitted
    {
      if |payloads[k]| != emitted {
        return Err(InvalidGeometry);
      }
    }
    var values: seq<real> := [];
    for i := 0 to emitted
      invariant |values| == i && forall j :: 0 <= j < i ==> values[j] == PayloadSum(payloads, j)
    {
      var total := SumElement(payloads, i);
      values := values + [total];
    }
    r := Ok(values);
  }

  lemma LastQuotient(n: nat, d: nat)
    requires d > 0 && n > 0
    ensures DivCeil(n, d) > 0 && (n - 1) / d == DivCeil(n, d) - 1
  {
    var c := DivCeil(n, d);
    DivCeilBounds(n, d);
    assert c > 0;
    assert (c - 1) * d == c * d - d;
    DivBracket(n - 1, d, c - 1);
    DivBracket(n - 1, d, c);
  }

  /** A complete map contributes the whole selection as one fragment in order. */
  lemma CompleteFragment(s: AxisSlice, m: CoordinateMap)
    requires m.Valid() && m.Complete() && s.Valid(m.globalCount) && s.Count() > 0
    ensures Fragments(s, m) == [Fragment(Progression(s.start, s.stride, s.Count()), Progression(0, 1, s.Count()))]
  {
    assert s.start < s.end by { DivCeilLeast(s.end - s.start, s.stride, 0); }
    LastQuotient(s.end - s.start, s.stride);
    assert DivCeil(0, s.stride) == 0 by { DivCeilLeast(0, s.stride, 0); }
  }

  /** So its native reads are the selected coordinates themselves. */
  lemma CompleteRead<V>(p: Piece<V>, s: AxisSlice, i: nat)
    requires p.slice.Ranked(|p.slice.shape|) && p.axis < |p.slice.shape| && s == p.slice.Axis(p.axis)
    requires s.start <= s.end && s.stride > 0 && p.slice.shape[p.axis] == s.Count()
    requires p.fragment == Fragment(Progression(s.start, s.stride, s.Count()), Progression(0, 1, s.Count()))
    requires Size(p.slice.shape) > 0
    ensures PieceShape(p) == p.slice.shape && NativeRead(p, i) == p.slice.Coordinate(Unflatten(p.slice.shape, i))
  {
    assert PieceShape(p) == p.slice.shape;
    var box := LocalBox(p.slice, p.axis, p.fragment);
    assert box.starts == p.slice.starts && box.strides == p.slice.strides;
  }

  /** An additive election over one axis with a nonempty selection. */
  ghost predicate Additive(t: Topology, layouts: seq<Layout>, q: Request, ps: seq<Producer>, axis: nat) {
    && t.Valid() && |layouts| == t.WorldSize() && MapsValid(layouts)
    && PublishedAs(t, layouts, Sum, q, ps) && Size(q.slice.shape) > 0
    && axis < |q.shape| && (forall i :: 0 <= i < |ps| ==> ps[i].partition.axis == axis)
  }

  /** Each additive producer supplies the complete ordered selection as its only fragment. */
  lemma AdditiveFragment(t: Topology, layouts: seq<Layout>, q: Request, ps: seq<Producer>, axis: nat, i: nat)
    requires Additive(t, layouts, q, ps, axis) && i < |ps|
    ensures q.slice.Fits(q.shape) && q.slice.shape[axis] == q.slice.Axis(axis).Count() > 0
    ensures var s := q.slice.Axis(axis);
            ps[i].partition.fragments ==
            [Fragment(Progression(s.start, s.stride, s.Count()), Progression(0, 1, s.Count()))]
  {
    assert ProjectsTo(q, layouts[ps[i].rank].observation.value, ps[i].partition);
    assert CompleteGroup(t, layouts, ps[i].rank);
    SizePositive(q.slice.shape);
    CompleteFragment(q.slice.Axis(axis), MapOf(layouts, ps[i].rank));
  }

  lemma {:induction false} SingletonTags(lists: seq<seq<Fragment>>)
    requires forall i :: 0 <= i < |lists| ==> |lists[i]| == 1
    ensures |AllTags(lists)| == |lists|
    ensures forall i :: 0 <= i < |lists| ==> AllTags(lists)[i] == Tag(i, lists[i][0])
  {
    if lists != [] {
      SingletonTags(lists[..|lists| - 1]);
    }
  }

  function PayloadsOf(pieces: seq<Piece<real>>): (payloads: seq<seq<real>>)
    ensures |payloads| == |pieces| && forall k :: 0 <= k < |pieces| ==> payloads[k] == pieces[k].payload
  {
    seq(|pieces|, (k: nat) requires k < |pieces| => pieces[k].payload)
  }

  /** The `k`-th received piece lists the `k`-th producer's term over the selection. */
  lemma AdditivePiece(t: Topology, layouts: seq<Layout>, q: Request, ps: seq<Producer>, axis: nat,
                      natives: nat -> seq<nat> -> real, preview: Option<nat>, pieces: seq<Piece<real>>, k: nat)
    requires Additive(t, layouts, q, ps, axis) && Received(q, ps, natives, preview, pieces) && k < |ps|
    ensures |pieces| == |ps| && q.slice.Ranked(|q.slice.shape|)
    ensures |pieces[k].payload| == Emitted(q.slice.shape, preview)
    ensures forall i: nat :: i < |pieces[k].payload| ==>
              pieces[k].payload[i] == natives(ps[k].rank)(q.slice.Coordinate(Unflatten(q.slice.shape, i)))
  {
    forall i | 0 <= i < |ps|
      ensures |ListsOf(ps)[i]| == 1
    {
      AdditiveFragment(t, layouts, q, ps, axis, i);
    }
    SingletonTags(ListsOf(ps));
    AdditiveFragment(t, layouts, q, ps, axis, k);
    assert AllTags(ListsOf(ps))[k] == Tag(k, ListsOf(ps)[k][0]);
    var p := pieces[k];
    assert ReadFrom(p, natives(ps[k].rank), preview);
    forall i: nat | i < |p.payload|
      ensures p.payload[i] == natives(ps[k].rank)(q.slice.Coordinate(Unflatten(q.slice.shape, i)))
    {
      CompleteRead(p, q.slice.Axis(axis), i);
    }
    CompleteRead(p, q.slice.Axis(axis), 0);
  }

  lemma {:induction false} PayloadSumIsTermSum(payloads: seq<seq<real>>, terms: seq<nat>, index: nat, f: nat -> real)
    requires |payloads| == |terms|
    requires forall k :: 0 <= k < |payloads| ==> index < |payloads[k]| && payloads[k][index] == f(terms[k])
    ensures PayloadSum(payloads, index) == SumOver(terms, f)
  {
    if payloads != [] {
      PayloadSumIsTermSum(payloads[..|payloads| - 1], terms[..|terms| - 1], index, f);
    }
  }

  lemma PiecesSum(pieces: seq<Piece<real>>, terms: seq<nat>, emitted: nat, index: nat, f: nat -> real)
    requires |pieces| == |terms| && index < emitted
    requires forall k :: 0 <= k < |pieces| ==>
               |pieces[k].payload| == emitted && pieces[k].payload[index] == f(terms[k])
    ensures forall k :: 0 <= k < |PayloadsOf(pieces)| ==> |PayloadsOf(pieces)[k]| == emitted
    ensures PayloadSum(PayloadsOf(pieces), index) == SumOver(terms, f)
  {
    PayloadSumIsTermSum(PayloadsOf(pieces), terms, index, f);
  }

  /** Every term at one coordinate. */
  function TermsAt(summands: nat -> seq<nat> -> real, c: seq<nat>): nat -> real {
    (x: nat) => summands(x)(c)
  }

  /** One received payload has the emitted length and lists its producer's term. */
  lemma AdditivePayload(t: Topology, layouts: seq<Layout>, q: Request, ps: seq<Producer>, axis: nat,
                        summands: nat -> seq<nat> -> real, natives: nat -> seq<nat> -> real,
                        preview: Option<nat>, pieces: seq<Piece<real>>, index: nat, k: nat)
    requires Additive(t, layouts, q, ps, axis)
    requires forall r: nat :: r < |layouts| && Exporting(layouts[r]) ==> natives(r) == summands(t.Coordinates(r).tensor)
    requires Received(q, ps, natives, preview, pieces) && index < Emitted(q.slice.shape, preview) && k < |ps|
    ensures |pieces| == |ps| && q.slice.Ranked(|q.slice.shape|)
    ensures |pieces[k].payload| == Emitted(q.slice.shape, preview)
    ensures pieces[k].payload[index]
         == TermsAt(summands, q.slice.Coordinate(Unflatten(q.slice.shape, index)))(Terms(t, ps)[k])
  {
    AdditivePiece(t, layouts, q, ps, axis, natives, preview, pieces, k);
  }

  /** All received payloads have the emitted length and list their producers' terms. */
  lemma AdditivePayloads(t: Topology, layouts: seq<Layout>, q: Request, ps: seq<Producer>, axis: nat,
                         summands: nat -> seq<nat> -> real, natives: nat -> seq<nat> -> real,
                         preview: Option<nat>, pieces: seq<Piece<real>>, index: nat)
    requires Additive(t, layouts, q, ps, axis)
    requires forall r: nat :: r < |layouts| && Exporting(layouts[r]) ==> natives(r) == summands(t.Coordinates(r).tensor)
    requires Received(q, ps, natives, preview, pieces) && index < Emitted(q.slice.shape, preview)
    ensures |pieces| == |ps| && q.slice.Ranked(|q.slice.shape|)
    ensures forall k :: 0 <= k < |pieces| ==>
              && |pieces[k].payload| == Emitted(q.slice.shape, preview)
              && pieces[k].payload[index]
                 == TermsAt(summands, q.slice.Coordinate(Unflatten(q.slice.shape, index)))(Terms(t, ps)[k])
  {
    AdditivePiece(t, layouts, q, ps, axis, natives, preview, pieces, 0);
    forall k | 0 <= k < |pieces|
      ensures |pieces[k].payload| == Emitted(q.slice.shape, preview)
      ensures pieces[k].payload[index]
           == TermsAt(summands, q.slice.Coordinate(Unflatten(q.slice.shape, index)))(Terms(t, ps)[k])
    {
      AdditivePayload(t, layouts, q, ps, axis, summands, natives, preview, pieces, index, k);
    }
  }

  /** The elected terms are every tensor-parallel term, each once. */
  lemma TermsSummed(t: Topology, layouts: seq<Layout>, q: Request, ps: seq<Producer>, axis: nat, f: nat -> real)
    requires Additive(t, layouts, q, ps, axis)
    ensures SumOver(Terms(t, ps), f) == SumOver(UpTo(t.tensor), f)
  {
    SameAxisOneWidth(t, layouts, Sum, q, ps);
    OneProducerPerTerm(t, layouts, q, ps);
    SumEveryTerm(Terms(t, ps), t.tensor, f);
  }

  /**
   When every rank holds its tensor-parallel summand and the election succeeds, the summed
   payloads at each position are the sum of all terms at the selected coordinate, each once.
   */
  lemma AdditiveCapture(t: Topology, layouts: seq<Layout>, q: Request, ps: seq<Producer>, axis: nat,
                        summands: nat -> seq<nat> -> real, natives: nat -> seq<nat> -> real,
                        preview: Option<nat>, pieces: seq<Piece<real>>, index: nat)
    requires Additive(t, layouts, q, ps, axis)
    requires forall r: nat :: r < |layouts| && Exporting(layouts[r]) ==> natives(r) == summands(t.Coordinates(r).tensor)
    requires Received(q, ps, natives, preview, pieces) && index < Emitted(q.slice.shape, preview)
    ensures q.slice.Ranked(|q.slice.shape|)
    ensures forall k :: 0 <= k < |PayloadsOf(pieces)| ==> |PayloadsOf(pieces)[k]| == Emitted(q.slice.shape, preview)
    ensures PayloadSum(PayloadsOf(pieces), index)
         == SumOver(UpTo(t.tensor), TermsAt(summands, q.slice.Coordinate(Unflatten(q.slice.shape, index))))
  {
    AdditivePayloads(t, layouts, q, ps, axis, summands, natives, preview, pieces, index);
    var f := TermsAt(summands, q.slice.Coordinate(Unflatten(q.slice.shape, index)));
    PiecesSum(pieces, Terms(t, ps), Emitted(q.slice.shape, preview), index, f);
    TermsSummed(t, layouts, q, ps, axis, f);
  }

  // ---- placements that shard ----

  /** Every exporting rank publishes the map derived from its part of one tiled weight. */
  ghost predicate DerivedFrom(layouts: seq<Layout>, count: nat, ts: seq<TensorLayout>, axis: nat, part: nat -> nat)
    requires forall i :: 0 <= i < |ts| ==> DeriveAxis(count, ts[i], axis).Ok?
  {
    && (forall r: nat :: r < |layouts| && Exporting(layouts[r]) ==>
          part(r) < |ts| && MapOf(layouts, r) == DeriveAxis(count, ts[part(r)], axis).value)
    && (forall i: nat :: i < |ts| ==> ExportsPart(layouts, part, i))
  }

  ghost predicate ExportsPart(layouts: seq<Layout>, part: nat -> nat, i: nat) {
    exists r: nat :: r < |layouts| && Exporting(layouts[r]) && part(r) == i
  }

  /** Maps derived from any tiling of logical units shard the axis, replicas included. */
  lemma TiledPlacementsShard(layouts: seq<Layout>, count: nat, ts: seq<TensorLayout>, axis: nat, part: nat -> nat)
    requires MapsValid(layouts) && SameDivision(count, ts, axis) && UnitsTiled(ts)
    requires forall i :: 0 <= i < |ts| ==> DeriveAxis(count, ts[i], axis).Ok?
    requires DerivedFrom(layouts, count, ts, axis, part)
    ensures ShardsAxis(layouts, count)
  {
    forall r, s | 0 <= r < |layouts| && 0 <= s < |layouts| && Exporting(layouts[r]) && Exporting(layouts[s])
      ensures MapOf(layouts, r) == MapOf(layouts, s) || Apart(MapOf(layouts, r), MapOf(layouts, s))
    {
      if part(r) != part(s) {
        forall g: nat
          ensures !(MapOf(layouts, r).Owns(g) && MapOf(layouts, s).Owns(g))
        {
          if g < count {
            DerivedMapsTile(count, ts, axis, g);
            assert OwnedBy(count, ts, axis, part(r), g) == MapOf(layouts, r).Owns(g);
            assert OwnedBy(count, ts, axis, part(s), g) == MapOf(layouts, s).Owns(g);
          } else {
            OwnsBelow(MapOf(layouts, r), g);
          }
        }
      }
    }
    forall g: nat | g < count
      ensures ExportedBySome(layouts, g)
    {
      DerivedMapsTile(count, ts, axis, g);
      var i: nat :| i < |ts| && OwnedBy(count, ts, axis, i, g);
      assert ExportsPart(layouts, part, i);
      var r: nat :| r < |layouts| && Exporting(layouts[r]) && part(r) == i;
      assert MapOf(layouts, r).Owns(g);
    }
  }

  lemma OwnsBelow(m: CoordinateMap, g: nat)
    requires m.Valid()
    ensures m.Owns(g) ==> g < m.globalCount
  {
  }
}
