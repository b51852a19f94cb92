/**
 Partition capture of one tensor of any rank: projecting a strided selection onto a
 rank's coordinates, admitting the received fragments, and reassembling the selection.
 */
module Assembly {
  import opened Wrappers
  import opened Arith
  import opened Coordinates
  import opened Progressions
  import opened SlicePartition
  import opened RowMajor

  /** A strided box of a tensor: one start, end, stride and element count per axis. */
  datatype TensorSlice = TensorSlice(starts: seq<nat>, ends: seq<nat>, strides: seq<nat>, shape: seq<nat>) {
    predicate Ranked(rank: nat) {
      |starts| == |ends| == |strides| == |shape| == rank
    }

    function Axis(d: nat): AxisSlice
      requires Ranked(|shape|) && d < |shape|
    {
      AxisSlice(starts[d], ends[d], strides[d])
    }

    /** Every axis selects inside its extent and declares its own element count. */
    predicate Fits(globalShape: seq<nat>) {
      && Ranked(|globalShape|)
      && forall d :: 0 <= d < |globalShape| ==>
           Axis(d).Valid(globalShape[d]) && shape[d] == Axis(d).Count()
    }

    /** The tensor coordinate of a position inside the selection. */
    function Coordinate(c: seq<nat>): (g: seq<nat>)
      requires Ranked(|c|)
      ensures |g| == |c|
    {
      Strided(starts, strides, c)
    }
  }

  /** A rank's share of a selection along one partitioned axis. */
  datatype Partition = Partition(axis: nat, localShape: seq<nat>, fragments: seq<Fragment>)

  const MAX_RANK: nat := 32

  ghost predicate Projectable(globalShape: seq<nat>, slice: TensorSlice, axis: nat, m: CoordinateMap) {
    && 0 < |globalShape| <= MAX_RANK && axis < |globalShape|
    && globalShape[axis] == m.globalCount
    && Size(globalShape) < U64
    && slice.Fits(globalShape)
  }

  /** The fragments a rank must supply; an empty selection needs none. */
  function SliceFragments(globalShape: seq<nat>, slice: TensorSlice, axis: nat, m: CoordinateMap): seq<Fragment>
    requires m.Valid() && slice.Fits(globalShape) && axis < |globalShape| && globalShape[axis] == m.globalCount
  {
    if Size(slice.shape) == 0 then [] else Fragments(slice.Axis(axis), m)
  }

  /** Validates geometry and applies the fragment bound before any native work. */
  method NewPartition(globalShape: seq<nat>, slice: TensorSlice, axis: nat, m: CoordinateMap, maxFragments: nat)
    returns (r: Result<Partition, CaptureError>)
    requires m.Valid()
    ensures r.Ok? <==> Projectable(globalShape, slice, axis, m)
                       && |SliceFragments(globalShape, slice, axis, m)| <= maxFragments
    ensures r.Ok? ==> r.value == Partition(axis, globalShape[axis := m.LocalCount()],
                                           SliceFragments(globalShape, slice, axis, m))
  {
    var rank := |globalShape|;
    if rank == 0 || rank > MAX_RANK || axis >= rank || !slice.Ranked(rank) || globalShape[axis] != m.globalCount {
      return Err(InvalidGeometry);
    }
    if Size(globalShape) >= U64 {
      return Err(InvalidGeometry);
    }
    for d := 0 to rank
      invariant forall e :: 0 <= e < d ==>
                  slice.Axis(e).Valid(globalShape[e]) && slice.shape[e] == slice.Axis(e).Count()
    {
      if !slice.Axis(d).Valid(globalShape[d]) || slice.shape[d] != slice.Axis(d).Count() {
        return Err(InvalidGeometry);
      }
    }
    var localShape := globalShape[axis := m.LocalCount()];
    if Size(slice.shape) == 0 {
      return Ok(Partition(axis, localShape, []));
    }
    var fragments := ProjectAxis(slice.Axis(axis), m, maxFragments);
    match fragments
    case Err(error) => r := Err(error);
    case Ok(fs) => r := Ok(Partition(axis, localShape, fs));
  }

  // ---- geometry of one fragment ----

  /** Per-axis starts, strides and counts of a fragment on either side of the move. */
  datatype Box = Box(starts: seq<nat>, strides: seq<nat>, shape: seq<nat>) {
    predicate Ranked(rank: nat) {
      |starts| == |strides| == |shape| == rank
    }

    function Along(d: nat): Progression
      requires Ranked(|shape|) && d < |shape|
    {
      Progression(starts[d], strides[d], shape[d])
    }
  }

  function LocalBox(slice: TensorSlice, axis: nat, f: Fragment): (b: Box)
    requires slice.Ranked(|slice.shape|) && axis < |slice.shape|
    ensures b.Ranked(|slice.shape|)
  {
    Box(slice.starts[axis := f.local.start], slice.strides[axis := f.local.step],
        slice.shape[axis := f.local.count])
  }

  /** Unpartitioned axes keep the whole selected extent; the partitioned one is strided. */
  function DestinationBox(shape: seq<nat>, axis: nat, f: Fragment): (b: Box)
    requires axis < |shape|
    ensures b.Ranked(|shape|)
  {
    Box(seq(|shape|, _ => 0)[axis := f.destination.start], seq(|shape|, _ => 1)[axis := f.destination.step],
        shape[axis := f.destination.count])
  }

  /** Whether two fragments share a destination, decided axis by axis. */
  method OverlapsDestination(shape: seq<nat>, axis: nat, f: Fragment, g: Fragment) returns (overlaps: bool)
    requires axis < |shape| && Positive(shape) && f.Valid() && g.Valid()
    ensures overlaps <==> Meet(f.destination, g.destination)
  {
    var left, right := DestinationBox(shape, axis, f), DestinationBox(shape, axis, g);
    for d := 0 to |shape|
      invariant axis < d ==> Meet(f.destination, g.destination)
    {
      var meets := Overlap(left.Along(d), right.Along(d));
      if d == axis {
        assert left.Along(d) == f.destination && right.Along(d) == g.destination;
      } else {
        assert left.Along(d).At(0) == 0 && right.Along(d).At(0) == 0;
        assert left.Along(d).Has(0) && right.Along(d).Has(0);
      }
      if !meets {
        return false;
      }
    }
    overlaps := true;
  }

  // ---- received fragments ----

  /** One received fragment: its admitted geometry and its raw elements in row-major order. */
  datatype Piece<V> = Piece(slice: TensorSlice, axis: nat, fragment: Fragment, payload: seq<V>)

  /** Geometry that projection constructs. */
  ghost predicate Constructed<V>(p: Piece<V>) {
    && p.slice.Ranked(|p.slice.shape|) && Positive(p.slice.shape) && p.axis < |p.slice.shape|
    && p.fragment.Valid()
    && (forall i: nat :: i < p.fragment.destination.count ==> p.fragment.destination.At(i) < p.slice.shape[p.axis])
  }

  function FragmentsOf<V>(pieces: seq<Piece<V>>): (fs: seq<Fragment>)
    ensures |fs| == |pieces| && forall k :: 0 <= k < |pieces| ==> fs[k] == pieces[k].fragment
  {
    seq(|pieces|, (i: nat) requires i < |pieces| => pieces[i].fragment)
  }

  /** Elements a capture emits, with an optional preview limit. */
  function Emitted(shape: seq<nat>, preview: Option<nat>): nat {
    if preview.Some? then Min(preview.value, Size(shape)) else Size(shape)
  }

  function PieceShape<V>(p: Piece<V>): seq<nat>
    requires p.axis < |p.slice.shape|
  {
    p.slice.shape[p.axis := p.fragment.destination.count]
  }

  /** The destination coordinate of the `i`-th payload element. */
  function PieceTarget<V>(p: Piece<V>, i: nat): (c: seq<nat>)
    requires p.axis < |p.slice.shape| && Size(PieceShape(p)) > 0
    ensures |c| == |p.slice.shape|
  {
    var box := DestinationBox(p.slice.shape, p.axis, p.fragment);
    Strided(box.starts, box.strides, Unflatten(PieceShape(p), i))
  }

  /** The output ordinal of the `i`-th payload element. */
  function Ordinal<V>(p: Piece<V>, i: nat): nat
    requires p.axis < |p.slice.shape| && Size(PieceShape(p)) > 0
  {
    Flatten(p.slice.shape, PieceTarget(p, i))
  }

  ghost predicate Accepts<V>(slice: TensorSlice, pieces: seq<Piece<V>>, preview: Option<nat>) {
    && pieces != []
    && (forall k :: 0 <= k < |pieces| ==> pieces[k].axis == pieces[0].axis && pieces[k].slice == slice)
    && pieces[0].axis < |slice.shape|
    && PairwiseDisjoint(FragmentsOf(pieces))
    && TotalCount(FragmentsOf(pieces)) == slice.shape[pieces[0].axis]
    && (forall k :: 0 <= k < |pieces| ==>
          pieces[k].axis < |pieces[k].slice.shape| && |pieces[k].payload| == Emitted(PieceShape(pieces[k]), preview))
  }

  // ---- ordinals of one piece ----

  lemma PiecePositive<V>(p: Piece<V>)
    requires Constructed(p)
    ensures Positive(PieceShape(p)) && Size(PieceShape(p)) > 0 && Size(p.slice.shape) > 0
  {
    SizePositive(PieceShape(p));
    SizePositive(p.slice.shape);
  }

  /** The partitioned axis follows the fragment; every other axis is copied unchanged. */
  lemma TargetAlong<V>(p: Piece<V>, i: nat)
    requires Constructed(p) && i < Size(PieceShape(p))
    ensures Size(PieceShape(p)) > 0
    ensures InShape(PieceShape(p), Unflatten(PieceShape(p), i))
    ensures forall d :: 0 <= d < |p.slice.shape| ==>
              PieceTarget(p, i)[d] == if d == p.axis then p.fragment.destination.At(Unflatten(PieceShape(p), i)[d])
                                      else Unflatten(PieceShape(p), i)[d]
    ensures InShape(p.slice.shape, PieceTarget(p, i))
    ensures Ordinal(p, i) < Size(p.slice.shape)
  {
    PiecePositive(p);
    UnflattenInShape(PieceShape(p), i);
    var c := Unflatten(PieceShape(p), i);
    forall d | 0 <= d < |p.slice.shape|
      ensures PieceTarget(p, i)[d] == if d == p.axis then p.fragment.destination.At(c[d]) else c[d]
      ensures PieceTarget(p, i)[d] < p.slice.shape[d]
    {
    }
    FlattenBound(p.slice.shape, PieceTarget(p, i));
  }

  /** Destination ordinals of one piece strictly increase. */
  lemma OrdinalIncreases<V>(p: Piece<V>, i: nat, j: nat)
    requires Constructed(p) && i < j < Size(PieceShape(p))
    ensures Ordinal(p, i) < Ordinal(p, j)
  {
    var shape := PieceShape(p);
    TargetAlong(p, i);
    TargetAlong(p, j);
    UnflattenInShape(shape, i);
    UnflattenInShape(shape, j);
    LexIffFlatten(shape, Unflatten(shape, i), Unflatten(shape, j));
    var box := DestinationBox(p.slice.shape, p.axis, p.fragment);
    StridedLex(box.starts, box.strides, Unflatten(shape, i), Unflatten(shape, j));
    LexIffFlatten(p.slice.shape, PieceTarget(p, i), PieceTarget(p, j));
  }

  /** So a prefix of a piece contains every destination below its length. */
  lemma {:induction false} OrdinalAtLeast<V>(p: Piece<V>, i: nat)
    requires Constructed(p) && i < Size(PieceShape(p))
    ensures i <= Ordinal(p, i)
    decreases i
  {
    if i > 0 {
      OrdinalAtLeast(p, i - 1);
      OrdinalIncreases(p, i - 1, i);
    }
  }

  // ---- all pieces ----

  ghost predicate AllConstructed<V>(pieces: seq<Piece<V>>) {
    forall k :: 0 <= k < |pieces| ==> Constructed(pieces[k])
  }

  /** Accepted pieces reach every destination of the partitioned axis. */
  lemma AcceptedCover<V>(slice: TensorSlice, pieces: seq<Piece<V>>, preview: Option<nat>)
    requires AllConstructed(pieces) && Accepts(slice, pieces, preview)
    ensures Destinations(FragmentsOf(pieces)) == Interval(0, slice.shape[pieces[0].axis])
  {
    var fs, count := FragmentsOf(pieces), slice.shape[pieces[0].axis];
    DisjointIffCounts(fs);
    IntervalSize(0, count);
    forall d | d in Destinations(fs)
      ensures d in Interval(0, count)
    {
      var k, i :| 0 <= k < |fs| && 0 <= i < fs[k].destination.count && d == fs[k].destination.At(i);
      assert Constructed(pieces[k]);
    }
    SubsetSameSize(Destinations(fs), Interval(0, count));
  }

  lemma SubsetSameSize(a: set<nat>, b: set<nat>)
    requires a <= b && |a| == |b|
    ensures a == b
  {
    assert b == a + (b - a);
    assert |b - a| == 0;
  }

  /** A coordinate whose position on the axis a piece's fragment reaches is the target of one of its elements. */
  lemma LocateWithin<V>(p: Piece<V>, target: seq<nat>, j: nat) returns (i: nat)
    requires Constructed(p) && InShape(p.slice.shape, target)
    requires j < p.fragment.destination.count && target[p.axis] == p.fragment.destination.At(j)
    ensures i < Size(PieceShape(p)) && Ordinal(p, i) == Flatten(p.slice.shape, target)
  {
    var c := target[p.axis := j];
    assert InShape(PieceShape(p), c);
    FlattenBound(PieceShape(p), c);
    UnflattenFlatten(PieceShape(p), c);
    i := Flatten(PieceShape(p), c);
    TargetAlong(p, i);
    assert PieceTarget(p, i) == target;
  }

  /** Every output ordinal is the destination of some received element. */
  lemma Locate<V>(slice: TensorSlice, pieces: seq<Piece<V>>, preview: Option<nat>, o: nat) returns (k: nat, i: nat)
    requires AllConstructed(pieces) && Accepts(slice, pieces, preview) && o < Size(slice.shape)
    ensures k < |pieces| && i < Size(PieceShape(pieces[k])) && Ordinal(pieces[k], i) == o
  {
    var axis := pieces[0].axis;
    AcceptedCover(slice, pieces, preview);
    UnflattenInShape(slice.shape, o);
    var target := Unflatten(slice.shape, o);
    var fs := FragmentsOf(pieces);
    assert target[axis] in Destinations(fs);
    var k', j :| 0 <= k' < |fs| && 0 <= j < fs[k'].destination.count && target[axis] == fs[k'].destination.At(j);
    k := k';
    assert pieces[k].slice.shape == slice.shape && pieces[k].axis == axis;
    i := LocateWithin(pieces[k], target, j);
  }

  /** No two received elements share an output ordinal. */
  lemma OrdinalUnique<V>(slice: TensorSlice, pieces: seq<Piece<V>>, preview: Option<nat>, k: nat, i: nat, l: nat,
                         j: nat)
    requires AllConstructed(pieces) && Accepts(slice, pieces, preview)
    requires k < |pieces| && l < |pieces| && i < Size(PieceShape(pieces[k])) && j < Size(PieceShape(pieces[l]))
    requires Ordinal(pieces[k], i) == Ordinal(pieces[l], j)
    ensures k == l && i == j
  {
    var p, q := pieces[k], pieces[l];
    TargetAlong(p, i);
    TargetAlong(q, j);
    UnflattenFlatten(slice.shape, PieceTarget(p, i));
    UnflattenFlatten(slice.shape, PieceTarget(q, j));
    assert PieceTarget(p, i) == PieceTarget(q, j);
    if k != l {
      var d := PieceTarget(p, i)[p.axis];
      assert p.fragment.destination.Has(d) && q.fragment.destination.Has(d);
      assert Meet(FragmentsOf(pieces)[k].destination, FragmentsOf(pieces)[l].destination);
      assert Meet(FragmentsOf(pieces)[l].destination, FragmentsOf(pieces)[k].destination);
      assert false;
    } else if i < j {
      OrdinalIncreases(p, i, j);
    } else if j < i {
      OrdinalIncreases(p, j, i);
    }
  }

  /** The value supplied for an output ordinal. */
  ghost predicate Supplies<V>(pieces: seq<Piece<V>>, o: nat, v: V)
    requires AllConstructed(pieces)
  {
    exists k: nat, i: nat :: k < |pieces| && i < Size(PieceShape(pieces[k])) && i < |pieces[k].payload|
      && Ordinal(pieces[k], i) == o && pieces[k].payload[i] == v
  }

  // ---- the assembling loops ----

  lemma StridedSuffix(starts: seq<nat>, strides: seq<nat>, c: seq<nat>)
    requires |starts| == |strides| == |c| > 0
    ensures Strided(starts, strides, c)[1..] == Strided(starts[1..], strides[1..], c[1..])
  {
  }

  /** What the ordinal loop has computed once it has consumed the axes from `d` on. */
  ghost predicate OrdinalSuffix(shape: seq<nat>, box: Box, local: nat, d: nat, remainder: int, output: int, stride: int)
    requires box.Ranked(|shape|) && d <= |shape| && Positive(box.shape)
  {
    var tail := box.shape[d..];
    && Size(tail) > 0
    && remainder == local / Size(tail)
    && stride == Size(shape[d..])
    && output == Flatten(shape[d..], Strided(box.starts[d..], box.strides[d..], Unflatten(tail, local % Size(tail))))
  }

  lemma OrdinalSuffixStep(shape: seq<nat>, box: Box, local: nat, d: nat, remainder: nat, output: nat, stride: nat)
    requires box.Ranked(|shape|) && 0 < d <= |shape| && Positive(box.shape)
    requires OrdinalSuffix(shape, box, local, d, remainder, output, stride)
    ensures var s := box.shape[d - 1];
            OrdinalSuffix(shape, box, local, d - 1, remainder / s,
                          output + (box.starts[d - 1] + (remainder % s) * box.strides[d - 1]) * stride,
                          stride * shape[d - 1])
  {
    var s, tail, longer := box.shape[d - 1], box.shape[d..], box.shape[d - 1..];
    assert longer[0] == s && longer[1..] == tail;
    assert shape[d - 1..][1..] == shape[d..];
    SplitPosition(local, s, Size(tail));
    var c := Unflatten(longer, local % Size(longer));
    assert c == [remainder % s] + Unflatten(tail, local % Size(tail));
    assert box.starts[d - 1..][1..] == box.starts[d..] && box.strides[d - 1..][1..] == box.strides[d..];
    StridedSuffix(box.starts[d - 1..], box.strides[d - 1..], c);
  }

  lemma OrdinalSuffixStarts(shape: seq<nat>, box: Box, local: nat)
    requires box.Ranked(|shape|) && Positive(box.shape)
    ensures OrdinalSuffix(shape, box, local, |shape|, local, 0, 1)
  {
    assert box.shape[|shape|..] == [] && shape[|shape|..] == [];
  }

  lemma OrdinalSuffixEnds<V>(p: Piece<V>, box: Box, local: nat, remainder: nat, output: nat, stride: nat)
    requires Constructed(p) && local < Size(PieceShape(p)) && Positive(box.shape)
    requires box == DestinationBox(p.slice.shape, p.axis, p.fragment)
    requires OrdinalSuffix(p.slice.shape, box, local, 0, remainder, output, stride)
    ensures Size(PieceShape(p)) > 0 && output == Ordinal(p, local)
  {
    assert box.shape[0..] == PieceShape(p) && p.slice.shape[0..] == p.slice.shape;
    assert box.starts[0..] == box.starts && box.strides[0..] == box.strides;
    SmallMod(local, Size(PieceShape(p)));
  }

  lemma SmallMod(n: nat, d: nat)
    requires n < d
    ensures n % d == n
  {
  }

  /** Destination ordinal of one payload position, peeling axes from the last. */
  method DestinationOrdinal<V>(p: Piece<V>, local: nat) returns (output: nat)
    requires Constructed(p) && local < Size(PieceShape(p))
    ensures Size(PieceShape(p)) > 0
    ensures output == Ordinal(p, local)
  {
    PiecePositive(p);
    var box := DestinationBox(p.slice.shape, p.axis, p.fragment);
    OrdinalSuffixStarts(p.slice.shape, box, local);
    output := PeelAxes(p.slice.shape, box, local);
    ghost var remainder: nat, stride: nat :| OrdinalSuffix(p.slice.shape, box, local, 0, remainder, output, stride);
    OrdinalSuffixEnds(p, box, local, remainder, output, stride);
  }

  method PeelAxes(shape: seq<nat>, box: Box, local: nat) returns (output: nat)
    requires box.Ranked(|shape|) && Positive(box.shape)
    requires OrdinalSuffix(shape, box, local, |shape|, local, 0, 1)
    ensures exists remainder: nat, stride: nat :: OrdinalSuffix(shape, box, local, 0, remainder, output, stride)
  {
    var remainder: nat, stride: nat := local, 1;
    output := 0;
    var d := |shape|;
    while d > 0
      invariant 0 <= d <= |shape|
      invariant OrdinalSuffix(shape, box, local, d, remainder, output, stride)
    {
      OrdinalSuffixStep(shape, box, local, d, remainder, output, stride);
      d := d - 1;
      var extent := box.shape[d];
      var coordinate := remainder % extent;
      output := output + (box.starts[d] + coordinate * box.strides[d]) * stride;
      remainder := remainder / extent;
      stride := stride * shape[d];
    }
  }

  ghost predicate MeetsEarlier(fs: seq<Fragment>, n: nat)
    requires n < |fs|
  {
    exists i :: 0 <= i < n && Meet(fs[i].destination, fs[n].destination)
  }

  /** Whether a piece shares a destination with any earlier one. */
  method OverlapsEarlier<V>(shape: seq<nat>, axis: nat, pieces: seq<Piece<V>>, index: nat) returns (overlaps: bool)
    requires AllConstructed(pieces) && index < |pieces| && axis < |shape| && Positive(shape)
    ensures overlaps <==> MeetsEarlier(FragmentsOf(pieces), index)
  {
    for other := 0 to index
      invariant forall i :: 0 <= i < other ==> !Meet(pieces[i].fragment.destination, pieces[index].fragment.destination)
    {
      assert Constructed(pieces[index]) && Constructed(pieces[other]);
      var meets := OverlapsDestination(shape, axis, pieces[other].fragment, pieces[index].fragment);
      if meets {
        return true;
      }
    }
    overlaps := false;
  }

  method PayloadsSized<V>(pieces: seq<Piece<V>>, preview: Option<nat>) returns (sized: bool)
    requires AllConstructed(pieces)
    ensures sized <==> forall k :: 0 <= k < |pieces| ==>
              pieces[k].axis < |pieces[k].slice.shape| && |pieces[k].payload| == Emitted(PieceShape(pieces[k]), preview)
  {
    for index := 0 to |pieces|
      invariant forall k :: 0 <= k < index ==> |pieces[k].payload| == Emitted(PieceShape(pieces[k]), preview)
    {
      assert Constructed(pieces[index]);
      if |pieces[index].payload| != Emitted(PieceShape(pieces[index]), preview) {
        return false;
      }
    }
    sized := true;
  }

  lemma DisjointNext(fs: seq<Fragment>, n: nat)
    requires n < |fs| && PairwiseDisjoint(fs[..n])
    requires !MeetsEarlier(fs, n)
    ensures PairwiseDisjoint(fs[..n + 1])
  {
    var longer := fs[..n + 1];
    forall i, j | 0 <= i < j < |longer|
      ensures !Meet(longer[i].destination, longer[j].destination)
    {
      if j < n {
        assert fs[..n][i] == fs[i] && fs[..n][j] == fs[j];
      }
    }
  }

  lemma NeverDisjoint(fs: seq<Fragment>, n: nat)
    requires n < |fs| && MeetsEarlier(fs, n)
    ensures !PairwiseDisjoint(fs)
  {
  }

  /** Same axis and slice throughout, and no two destinations meet; then also the covered count. */
  method CheckPlacement<V>(slice: TensorSlice, pieces: seq<Piece<V>>)
    returns (fault: Option<CaptureError>, coverage: nat)
    requires AllConstructed(pieces) && pieces != []
    ensures fault.None? <==>
            && (forall k :: 0 <= k < |pieces| ==> pieces[k].axis == pieces[0].axis && pieces[k].slice == slice)
            && PairwiseDisjoint(FragmentsOf(pieces))
    ensures fault.None? ==> coverage == TotalCount(FragmentsOf(pieces))
  {
    var axis := pieces[0].axis;
    coverage := 0;
    ghost var fs := FragmentsOf(pieces);
    for index := 0 to |pieces|
      invariant forall k :: 0 <= k < index ==> pieces[k].axis == axis && pieces[k].slice == slice
      invariant PairwiseDisjoint(fs[..index])
      invariant coverage == TotalCount(fs[..index])
    {
      var piece := pieces[index];
      assert Constructed(piece);
      if piece.axis != axis || piece.slice != slice {
        return Some(InvalidGeometry), coverage;
      }
      var overlaps := OverlapsEarlier(slice.shape, axis, pieces, index);
      if overlaps {
        NeverDisjoint(fs, index);
        return Some(Overlapping), coverage;
      }
      DisjointNext(fs, index);
      assert fs[..index + 1][..index] == fs[..index];
      coverage := coverage + piece.fragment.destination.count;
    }
    assert fs[..|fs|] == fs;
    fault := None;
  }

  /** Admits received pieces exactly when they are disjoint, complete and well sized. */
  method Validate<V>(slice: TensorSlice, pieces: seq<Piece<V>>, preview: Option<nat>)
    returns (fault: Option<CaptureError>)
    requires AllConstructed(pieces)
    ensures fault.None? <==> Accepts(slice, pieces, preview)
  {
    if pieces == [] {
      return Some(Incomplete);
    }
    var placed, coverage := CheckPlacement(slice, pieces);
    if placed.Some? {
      return placed;
    }
    assert Constructed(pieces[0]);
    if coverage != slice.shape[pieces[0].axis] {
      return Some(Incomplete);
    }
    var sized := PayloadsSized(pieces, preview);
    fault := if sized then None else Some(InvalidGeometry);
  }

  /** Elements already copied: everything before position `i` of piece `k`. */
  predicate Earlier(l: nat, j: nat, k: nat, i: nat) {
    l < k || (l == k && j < i)
  }

  /** The output is filled exactly by the elements copied so far. */
  ghost predicate Filled<V>(pieces: seq<Piece<V>>, values: seq<V>, written: set<nat>, k: nat, i: nat)
    requires AllConstructed(pieces)
  {
    && (forall o :: o in written ==> o < |values| && Supplies(pieces, o, values[o]))
    && (forall o :: o in written ==> WrittenBy(pieces, o, k, i))
    && (forall l: nat, j: nat ::
          (l < |pieces| && j < Size(PieceShape(pieces[l])) && j < |pieces[l].payload|
           && Earlier(l, j, k, i) && Ordinal(pieces[l], j) < |values|) ==> Ordinal(pieces[l], j) in written)
  }

  ghost predicate WrittenBy<V>(pieces: seq<Piece<V>>, o: nat, k: nat, i: nat)
    requires AllConstructed(pieces)
  {
    exists l: nat, j: nat :: l < |pieces| && j < Size(PieceShape(pieces[l])) && Earlier(l, j, k, i)
      && Ordinal(pieces[l], j) == o
  }

  /** The next element's ordinal has not been written. */
  lemma NotWritten<V>(slice: TensorSlice, pieces: seq<Piece<V>>, preview: Option<nat>,
                      values: seq<V>, written: set<nat>, k: nat, i: nat)
    requires AllConstructed(pieces) && Accepts(slice, pieces, preview)
    requires k < |pieces| && i < |pieces[k].payload| && i < Size(PieceShape(pieces[k]))
    requires Filled(pieces, values, written, k, i)
    ensures Ordinal(pieces[k], i) !in written
  {
    var o := Ordinal(pieces[k], i);
    if o in written {
      var l: nat, j: nat :| l < |pieces| && j < Size(PieceShape(pieces[l])) && Earlier(l, j, k, i)
        && Ordinal(pieces[l], j) == o;
      OrdinalUnique(slice, pieces, preview, k, i, l, j);
    }
  }

  lemma WrittenLater<V>(pieces: seq<Piece<V>>, o: nat, k: nat, i: nat)
    requires AllConstructed(pieces) && WrittenBy(pieces, o, k, i)
    ensures WrittenBy(pieces, o, k, i + 1)
  {
    var l: nat, j: nat :| l < |pieces| && j < Size(PieceShape(pieces[l])) && Earlier(l, j, k, i)
      && Ordinal(pieces[l], j) == o;
    assert Earlier(l, j, k, i + 1);
  }

  lemma EarlierNext(l: nat, j: nat, k: nat, i: nat)
    ensures Earlier(l, j, k, i + 1) <==> Earlier(l, j, k, i) || (l == k && j == i)
  {
  }

  ghost function Insert(s: set<nat>, x: nat): (r: set<nat>)
    ensures x !in s ==> |r| == |s| + 1
  {
    s + {x}
  }

  /** Contents after copying the `i`-th element of piece `k`. */
  ghost function Copied<V>(pieces: seq<Piece<V>>, values: seq<V>, k: nat, i: nat): seq<V>
    requires AllConstructed(pieces) && k < |pieces| && i < |pieces[k].payload| && i < Size(PieceShape(pieces[k]))
  {
    var o := Ordinal(pieces[k], i);
    if o < |values| then values[o := pieces[k].payload[i]] else values
  }

  /** Ordinals written once the `i`-th element of piece `k` is copied. */
  ghost function Extended<V>(pieces: seq<Piece<V>>, values: seq<V>, written: set<nat>, k: nat, i: nat): (r: set<nat>)
    requires AllConstructed(pieces) && k < |pieces| && i < Size(PieceShape(pieces[k]))
    ensures Ordinal(pieces[k], i) !in written ==>
              |r| == if Ordinal(pieces[k], i) < |values| then |written| + 1 else |written|
  {
    var o := Ordinal(pieces[k], i);
    if o < |values| then Insert(written, o) else written
  }

  /** What is written stays supplied, and the element just copied is too. */
  lemma WrittenStep<V>(pieces: seq<Piece<V>>, values: seq<V>, written: set<nat>, k: nat, i: nat, w: nat)
    requires AllConstructed(pieces)
    requires k < |pieces| && i < |pieces[k].payload| && i < Size(PieceShape(pieces[k]))
    requires Filled(pieces, values, written, k, i) && w < |values|
    requires w == Ordinal(pieces[k], i) || w in written
    ensures Supplies(pieces, w, Copied(pieces, values, k, i)[w]) && WrittenBy(pieces, w, k, i + 1)
  {
    if w == Ordinal(pieces[k], i) {
      assert Earlier(k, i, k, i + 1);
      assert pieces[k].payload[i] == Copied(pieces, values, k, i)[w];
    } else {
      WrittenLater(pieces, w, k, i);
    }
  }

  /** Everything at or before the element just copied has been written. */
  lemma ReachedStep<V>(pieces: seq<Piece<V>>, values: seq<V>, written: set<nat>, k: nat, i: nat, l: nat, j: nat)
    requires AllConstructed(pieces)
    requires k < |pieces| && i < |pieces[k].payload| && i < Size(PieceShape(pieces[k]))
    requires l < |pieces| && j < Size(PieceShape(pieces[l])) && j < |pieces[l].payload|
    requires Filled(pieces, values, written, k, i)
    requires Earlier(l, j, k, i + 1) && Ordinal(pieces[l], j) < |values|
    ensures Ordinal(pieces[l], j) in Extended(pieces, values, written, k, i)
  {
    EarlierNext(l, j, k, i);
  }

  /** Copying one more element. */
  lemma FilledStep<V>(pieces: seq<Piece<V>>, values: seq<V>, written: set<nat>, k: nat, i: nat)
    requires AllConstructed(pieces)
    requires k < |pieces| && i < |pieces[k].payload| && i < Size(PieceShape(pieces[k]))
    requires Filled(pieces, values, written, k, i)
    ensures Filled(pieces, Copied(pieces, values, k, i), Extended(pieces, values, written, k, i), k, i + 1)
  {
    var after, reached := Copied(pieces, values, k, i), Extended(pieces, values, written, k, i);
    forall w | w in reached
      ensures w < |after| && Supplies(pieces, w, after[w]) && WrittenBy(pieces, w, k, i + 1)
    {
      WrittenStep(pieces, values, written, k, i, w);
    }
    forall l: nat, j: nat |
      (l < |pieces| && j < Size(PieceShape(pieces[l])) && j < |pieces[l].payload|
       && Earlier(l, j, k, i + 1) && Ordinal(pieces[l], j) < |after|)
      ensures Ordinal(pieces[l], j) in reached
    {
      ReachedStep(pieces, values, written, k, i, l, j);
    }
  }

  /** Moving on to the next piece. */
  lemma FilledPiece<V>(pieces: seq<Piece<V>>, values: seq<V>, written: set<nat>, k: nat)
    requires AllConstructed(pieces) && k < |pieces|
    requires Filled(pieces, values, written, k, |pieces[k].payload|)
    ensures Filled(pieces, values, written, k + 1, 0)
  {
    forall w | w in written
      ensures WrittenBy(pieces, w, k + 1, 0)
    {
      var l: nat, j: nat :| l < |pieces| && j < Size(PieceShape(pieces[l]))
        && Earlier(l, j, k, |pieces[k].payload|) && Ordinal(pieces[l], j) == w;
      assert Earlier(l, j, k + 1, 0);
    }
    forall l: nat, j: nat | l < |pieces| && j < |pieces[l].payload| && Earlier(l, j, k + 1, 0)
      ensures Earlier(l, j, k, |pieces[k].payload|)
    {
    }
  }

  /** Once every piece is copied nothing is missing, even from previews. */
  lemma FilledCompletely<V>(slice: TensorSlice, pieces: seq<Piece<V>>, preview: Option<nat>,
                            values: seq<V>, written: set<nat>)
    requires AllConstructed(pieces) && Accepts(slice, pieces, preview)
    requires |values| == Emitted(slice.shape, preview)
    requires Filled(pieces, values, written, |pieces|, 0)
    ensures written == Interval(0, |values|)
    ensures |written| == |values|
  {
    forall o: nat | o < |values|
      ensures o in written
    {
      var k, i := Locate(slice, pieces, preview, o);
      OrdinalAtLeast(pieces[k], i);
      assert i < |pieces[k].payload|;
      assert Earlier(k, i, |pieces|, 0);
    }
    assert written == Interval(0, |values|);
    IntervalSize(0, |values|);
  }

  /** Stores an element whose ordinal is below the emitted length, and counts it. */
  method Store<V>(values: array<V>, output: nat, v: V) returns (stored: nat)
    modifies values
    ensures values[..] == if output < values.Length then old(values[..])[output := v] else old(values[..])
    ensures stored == if output < values.Length then 1 else 0
  {
    stored := 0;
    if output < values.Length {
      values[output] := v;
      stored := 1;
    }
  }

  /** Copies one piece into the output, counting the elements below the emitted length. */
  method CopyPiece<V>(slice: TensorSlice, pieces: seq<Piece<V>>, preview: Option<nat>, k: nat,
                      values: array<V>, count: nat, ghost before: set<nat>)
    returns (copied: nat, ghost written: set<nat>)
    requires AllConstructed(pieces) && Accepts(slice, pieces, preview) && k < |pieces|
    requires Filled(pieces, values[..], before, k, 0) && count == |before|
    modifies values
    ensures Filled(pieces, values[..], written, k + 1, 0) && copied == |written|
  {
    copied, written := count, before;
    SizeOfPreview(pieces[k], preview);
    ghost var contents := values[..];
    for i := 0 to |pieces[k].payload|
      invariant values[..] == contents && Filled(pieces, contents, written, k, i)
      invariant copied == |written|
    {
      var output := DestinationOrdinal(pieces[k], i);
      NotWritten(slice, pieces, preview, contents, written, k, i);
      FilledStep(pieces, contents, written, k, i);
      contents, written := Copied(pieces, contents, k, i), Extended(pieces, contents, written, k, i);
      var stored := Store(values, output, pieces[k].payload[i]);
      copied := copied + stored;
    }
    FilledPiece(pieces, contents, written, k);
  }

  /** Reassembles raw fragments after admitting exact coverage. */
  method Assemble<V>(slice: TensorSlice, pieces: seq<Piece<V>>, preview: Option<nat>, zero: V)
    returns (r: Result<seq<V>, CaptureError>)
    requires AllConstructed(pieces)
    ensures r.Ok? <==> Accepts(slice, pieces, preview)
    ensures r.Ok? ==> |r.value| == Emitted(slice.shape, preview)
    ensures r.Ok? ==> forall o: nat :: o < |r.value| ==> Supplies(pieces, o, r.value[o])
  {
    var fault := Validate(slice, pieces, preview);
    if fault.Some? {
      return Err(fault.value);
    }
    var emitted := Emitted(slice.shape, preview);
    var values := new V[emitted](_ => zero);
    var copied := 0;
    ghost var written: set<nat> := {};
    for k := 0 to |pieces|
      invariant Filled(pieces, values[..], written, k, 0) && copied == |written|
    {
      copied, written := CopyPiece(slice, pieces, preview, k, values, copied, written);
    }
    FilledCompletely(slice, pieces, preview, values[..], written);
    if copied != emitted {
      return Err(Incomplete);
    }
    r := Ok(values[..]);
  }

  lemma SizeOfPreview<V>(p: Piece<V>, preview: Option<nat>)
    requires Constructed(p) && |p.payload| == Emitted(PieceShape(p), preview)
    ensures |p.payload| <= Size(PieceShape(p))
  {
  }

  // ---- meaning ----

  /** A rank's local tensor: the global tensor read through its coordinates on one axis. */
  ghost predicate CarriesSlice<V(!new)>(tensor: seq<nat> -> V, p: Piece<V>, m: CoordinateMap)
    requires Constructed(p) && m.Valid()
  {
    && Places(p.slice.Axis(p.axis), m, p.fragment)
    && forall i: nat :: i < |p.payload| && i < Size(PieceShape(p)) ==>
         p.payload[i] == tensor(LocalRead(p, m, i))
  }

  /** The global coordinate of the `i`-th element of a piece's native slice. */
  ghost function LocalRead<V>(p: Piece<V>, m: CoordinateMap, i: nat): seq<nat>
    requires Constructed(p) && m.Valid() && Places(p.slice.Axis(p.axis), m, p.fragment) && i < Size(PieceShape(p))
  {
    PiecePositive(p);
    var box := LocalBox(p.slice, p.axis, p.fragment);
    var c := Strided(box.starts, box.strides, Unflatten(PieceShape(p), i));
    TargetAlong(p, i);
    c[p.axis := m.ToGlobal(c[p.axis])]
  }

  /** Reading locally is reading the selection at the element's destination. */
  lemma LocalReadIsTarget<V>(p: Piece<V>, m: CoordinateMap, i: nat)
    requires Constructed(p) && m.Valid() && Places(p.slice.Axis(p.axis), m, p.fragment) && i < Size(PieceShape(p))
    ensures Size(PieceShape(p)) > 0 && LocalRead(p, m, i) == p.slice.Coordinate(PieceTarget(p, i))
  {
    TargetAlong(p, i);
    var c, target, read := Unflatten(PieceShape(p), i), PieceTarget(p, i), LocalRead(p, m, i);
    var coordinate := p.slice.Coordinate(target);
    assert read[p.axis] == coordinate[p.axis] by {
      assert read[p.axis] == m.ToGlobal(p.fragment.local.At(c[p.axis]));
    }
    assert forall d :: 0 <= d < |p.slice.shape| && d != p.axis ==> read[d] == coordinate[d];
  }

  /** A value supplied for an ordinal is the tensor's element at that selected position. */
  lemma SuppliedIsSelected<V(!new)>(tensor: seq<nat> -> V, slice: TensorSlice, pieces: seq<Piece<V>>,
                                    maps: seq<CoordinateMap>, o: nat, v: V)
    requires AllConstructed(pieces) && |maps| == |pieces|
    requires forall k :: 0 <= k < |pieces| ==>
               pieces[k].slice == slice && maps[k].Valid() && CarriesSlice(tensor, pieces[k], maps[k])
    requires Supplies(pieces, o, v)
    ensures Size(slice.shape) > 0
    ensures slice.Ranked(|slice.shape|) && v == tensor(slice.Coordinate(Unflatten(slice.shape, o)))
  {
    var k: nat, i: nat :| k < |pieces| && i < Size(PieceShape(pieces[k])) && i < |pieces[k].payload|
      && Ordinal(pieces[k], i) == o && pieces[k].payload[i] == v;
    var p := pieces[k];
    PiecePositive(p);
    TargetAlong(p, i);
    LocalReadIsTarget(p, maps[k], i);
    UnflattenFlatten(slice.shape, PieceTarget(p, i));
  }
}
