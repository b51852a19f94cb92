/** Captures as they run: elect the producers, read their native tensors, merge what arrives. */
module CaptureRun {
  import opened Wrappers
  import opened RowMajor
  import opened SlicePartition
  import opened Assembly
  import opened RankTopology
  import opened Election
  import opened Capture

  /** Every exporting rank publishes along one axis of the request. */
  ghost predicate OnAxis(layouts: seq<Layout>, q: Request, axis: nat) {
    forall r :: 0 <= r < |layouts| && Exporting(layouts[r]) ==>
      UniqueAxis(q.names, layouts[r].observation.value.axis, axis)
  }

  lemma PublishedOnAxis(t: Topology, layouts: seq<Layout>, c: Combination, q: Request, ps: seq<Producer>, axis: nat)
    requires t.Valid() && |layouts| == t.WorldSize() && PublishedAs(t, layouts, c, q, ps) && OnAxis(layouts, q, axis)
    ensures forall i :: 0 <= i < |ps| ==> ps[i].partition.axis == axis
  {
    forall i | 0 <= i < |ps|
      ensures ps[i].partition.axis == axis
    {
      assert ProjectsTo(q, layouts[ps[i].rank].observation.value, ps[i].partition);
    }
  }

  // ---- reading ----

  /** A producer's fragment has elements to read. */
  ghost predicate HasElements(q: Request, ps: seq<Producer>, tag: Tag) {
    && q.slice.Ranked(|q.slice.shape|) && tag.owner < |ps| && ps[tag.owner].partition.axis < |q.slice.shape|
    && Size(q.slice.shape[ps[tag.owner].partition.axis := tag.fragment.destination.count]) > 0
  }

  /** Reads one fragment from its producer's native tensor. */
  method ReadPiece<V(!new)>(q: Request, ps: seq<Producer>, natives: nat -> seq<nat> -> V, preview: Option<nat>,
                     tag: Tag)
    returns (p: Piece<V>)
    requires HasElements(q, ps, tag)
    ensures p.slice == q.slice && p.fragment == tag.fragment && p.axis == ps[tag.owner].partition.axis
    ensures ReadFrom(p, natives(ps[tag.owner].rank), preview)
  {
    var native := natives(ps[tag.owner].rank);
    var axis := ps[tag.owner].partition.axis;
    var empty: Piece<V> := Piece(q.slice, axis, tag.fragment, []);
    var emitted := Emitted(PieceShape(empty), preview);
    var payload: seq<V> := [];
    for i := 0 to emitted
      invariant |payload| == i && forall j: nat :: j < i ==> payload[j] == native(NativeRead(empty, j))
    {
      payload := payload + [native(NativeRead(empty, i))];
    }
    p := Piece(q.slice, axis, tag.fragment, payload);
    assert forall j: nat :: j < emitted ==> NativeRead(p, j) == NativeRead(empty, j);
  }

  /** Reads every producer's fragments in turn. */
  method Gather<V(!new)>(q: Request, ps: seq<Producer>, natives: nat -> seq<nat> -> V, preview: Option<nat>)
    returns (pieces: seq<Piece<V>>)
    requires forall k :: 0 <= k < |AllTags(ListsOf(ps))| ==> HasElements(q, ps, AllTags(ListsOf(ps))[k])
    ensures Received(q, ps, natives, preview, pieces)
  {
    var tags := AllTags(ListsOf(ps));
    pieces := [];
    for k := 0 to |tags|
      invariant |pieces| == k
      invariant forall j :: 0 <= j < k ==> Matches(q, ps, natives, preview, tags[j], pieces[j])
    {
      var p := ReadPiece(q, ps, natives, preview, tags[k]);
      pieces := pieces + [p];
    }
  }

  ghost predicate Matches<V(!new)>(q: Request, ps: seq<Producer>, natives: nat -> seq<nat> -> V, preview: Option<nat>,
                                   tag: Tag, p: Piece<V>) {
    && tag.owner < |ps|
    && p.slice == q.slice && p.fragment == tag.fragment && p.axis == ps[tag.owner].partition.axis
    && ReadFrom(p, natives(ps[tag.owner].rank), preview)
  }

  lemma ShardedReadable(t: Topology, layouts: seq<Layout>, q: Request, ps: seq<Producer>, axis: nat, k: nat)
    requires Sharded(t, layouts, q, ps, axis) && k < |AllTags(ListsOf(ps))|
    ensures HasElements(q, ps, AllTags(ListsOf(ps))[k])
  {
    ShardedGeometry(t, layouts, q, ps, axis);
    TagsAreJoined(ListsOf(ps));
    var tag := AllTags(ListsOf(ps))[k];
    ShardedExact(t, layouts, q, ps, axis);
    var p: Piece<bool> := Piece(q.slice, axis, tag.fragment, []);
    ExactConstructed(p, q.shape, MapsOf(layouts, ps)[tag.owner], ListsOf(ps)[tag.owner]);
    PiecePositive(p);
  }

  lemma AdditiveReadable(t: Topology, layouts: seq<Layout>, q: Request, ps: seq<Producer>, axis: nat, k: nat)
    requires Additive(t, layouts, q, ps, axis) && k < |AllTags(ListsOf(ps))|
    ensures HasElements(q, ps, AllTags(ListsOf(ps))[k])
  {
    TagsAreJoined(ListsOf(ps));
    var tag := AllTags(ListsOf(ps))[k];
    AdditiveFragment(t, layouts, q, ps, axis, tag.owner);
    assert q.slice.shape[axis := tag.fragment.destination.count] == q.slice.shape;
  }

  // ---- whole captures ----

  /**
   * A disjoint capture from election to result. It succeeds exactly when the layouts determine a publication, and
   * returns, position by position, the global tensor at the selected coordinates.
   */
  method CaptureDisjoint<V(!new)>(t: Topology, layouts: seq<Layout>, q: Request, natives: nat -> seq<nat> -> V,
                                  preview: Option<nat>, zero: V, ghost tensor: seq<nat> -> V, ghost axis: nat)
    returns (r: Result<seq<V>, CaptureError>)
    requires t.Valid() && |layouts| == t.WorldSize() && MapsValid(layouts) && Agreed(t, layouts, Disjoint)
    requires axis < |q.shape| && Size(q.slice.shape) > 0
    requires ShardsAxis(layouts, q.shape[axis]) && OnAxis(layouts, q, axis)
    requires forall r: nat :: r < |layouts| && Exporting(layouts[r]) ==>
               Holds(tensor, natives(r), q.shape, axis, MapOf(layouts, r))
    ensures r.Err? <==> forall ps :: !Publication(t, layouts, q, ps)
    ensures r.Ok? ==> q.slice.Ranked(|q.slice.shape|) && |r.value| == Emitted(q.slice.shape, preview)
    ensures r.Ok? ==> forall o :: 0 <= o < |r.value| ==>
                        r.value[o] == tensor(q.slice.Coordinate(Unflatten(q.slice.shape, o)))
  {
    var elected := CaptureProducers(t, layouts, q);
    if elected.Err? {
      return Err(elected.error);
    }
    var ps := elected.value;
    assert Sharded(t, layouts, q, ps, axis) by {
      AgreedOnce(t, layouts, Disjoint);
      PublishedOnAxis(t, layouts, Disjoint, q, ps, axis);
    }
    forall k | 0 <= k < |AllTags(ListsOf(ps))|
      ensures HasElements(q, ps, AllTags(ListsOf(ps))[k])
    {
      ShardedReadable(t, layouts, q, ps, axis, k);
    }
    var pieces := Gather(q, ps, natives, preview);
    DisjointCapture(t, layouts, q, ps, axis, tensor, natives, preview, pieces);
    r := Assemble(q.slice, pieces, preview, zero);
  }

  /**
   * An additive capture from election to result: position by position, the sum of every tensor-parallel summand at the
   * selected coordinate.
   */
  method CaptureSum(t: Topology, layouts: seq<Layout>, q: Request, natives: nat -> seq<nat> -> real,
                    preview: Option<nat>, ghost summands: nat -> seq<nat> -> real, ghost axis: nat)
    returns (r: Result<seq<real>, CaptureError>)
    requires t.Valid() && |layouts| == t.WorldSize() && MapsValid(layouts) && Agreed(t, layouts, Sum)
    requires axis < |q.shape| && Size(q.slice.shape) > 0 && OnAxis(layouts, q, axis)
    requires forall r: nat :: r < |layouts| && Exporting(layouts[r]) ==>
               natives(r) == summands(t.Coordinates(r).tensor)
    ensures r.Err? <==> forall ps :: !Publication(t, layouts, q, ps)
    ensures r.Ok? ==> q.slice.Ranked(|q.slice.shape|) && |r.value| == Emitted(q.slice.shape, preview)
    ensures r.Ok? ==> forall o :: 0 <= o < |r.value| ==>
                        r.value[o] == SumOver(UpTo(t.tensor),
                                              TermsAt(summands, q.slice.Coordinate(Unflatten(q.slice.shape, o))))
  {
    var elected := CaptureProducers(t, layouts, q);
    if elected.Err? {
      return Err(elected.error);
    }
    var ps := elected.value;
    assert Additive(t, layouts, q, ps, axis) by {
      AgreedOnce(t, layouts, Sum);
      PublishedOnAxis(t, layouts, Sum, q, ps, axis);
    }
    forall k | 0 <= k < |AllTags(ListsOf(ps))|
      ensures HasElements(q, ps, AllTags(ListsOf(ps))[k])
    {
      AdditiveReadable(t, layouts, q, ps, axis, k);
    }
    var pieces := Gather(q, ps, natives, preview);
    AdditiveSized(t, layouts, q, ps, axis, natives, preview, pieces);
    var emitted := Emitted(q.slice.shape, preview);
    r := AssembleSum(PayloadsOf(pieces), emitted);
    forall o | 0 <= o < emitted
      ensures PayloadSum(PayloadsOf(pieces), o) ==
              SumOver(UpTo(t.tensor), TermsAt(summands, q.slice.Coordinate(Unflatten(q.slice.shape, o))))
    {
      AdditiveCapture(t, layouts, q, ps, axis, summands, natives, preview, pieces, o);
    }
  }

  /** Every term's payload has the emitted length, a preview of nothing included. */
  lemma AdditiveSized(t: Topology, layouts: seq<Layout>, q: Request, ps: seq<Producer>, axis: nat,
                      natives: nat -> seq<nat> -> real, preview: Option<nat>, pieces: seq<Piece<real>>)
    requires Additive(t, layouts, q, ps, axis) && Received(q, ps, natives, preview, pieces)
    ensures q.slice.Ranked(|q.slice.shape|) && pieces != []
    ensures forall k :: 0 <= k < |pieces| ==> |pieces[k].payload| == Emitted(q.slice.shape, preview)
  {
    assert 0 < |ps|;
    AdditivePiece(t, layouts, q, ps, axis, natives, preview, pieces, 0);
    forall k | 0 <= k < |pieces|
      ensures |pieces[k].payload| == Emitted(q.slice.shape, preview)
    {
      AdditivePiece(t, layouts, q, ps, axis, natives, preview, pieces, k);
    }
  }
}
