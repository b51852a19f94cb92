/**
 Global identities of a local scalar axis, and their derivation from a tensor's
 physical placement and retained logical units.
 */
module Coordinates {
  import opened Wrappers
  import opened Arith

  /** A half-open interval. */
  datatype Span = Span(start: nat, end: nat) {
    /** The same interval counted in finer steps. */
    function Scaled(width: nat): Span {
      Span(start * width, end * width)
    }
  }

  predicate Within(span: Span, s: nat) {
    span.start <= s < span.end
  }

  datatype Selection =
    | Contiguous(span: Span)
    | Listed(indices: seq<nat>)

  datatype CoordinateError =
    | EmptyGlobalAxis
    | InvalidRange
    | OutOfRange(index: nat)
    | Duplicate(index: nat)
    | InvalidUnits
    | InvalidPlacement

  /** One local scalar axis in global coordinates. */
  datatype CoordinateMap = CoordinateMap(globalCount: nat, selection: Selection) {
    ghost predicate Valid() {
      && 0 < globalCount
      && match selection
         case Contiguous(span) => span.start <= span.end <= globalCount
         case Listed(indices) =>
           && (forall i :: 0 <= i < |indices| ==> indices[i] < globalCount)
           && (forall i, j :: 0 <= i < j < |indices| ==> indices[i] != indices[j])
    }

    function LocalCount(): nat
      requires Valid()
    {
      match selection
      case Contiguous(span) => span.end - span.start
      case Listed(indices) => |indices|
    }

    /** The global identity stored at a local index. */
    function ToGlobal(local: nat): nat
      requires Valid() && local < LocalCount()
    {
      match selection
      case Contiguous(span) => span.start + local
      case Listed(indices) => indices[local]
    }

    ghost predicate Owns(global: nat)
      requires Valid()
    {
      exists local: nat :: local < LocalCount() && ToGlobal(local) == global
    }

    /** The complete axis in order, as a contiguous declaration. */
    predicate Complete() {
      selection == Contiguous(Span(0, globalCount))
    }
  }

  lemma ToGlobalInjective(map_: CoordinateMap, i: nat, j: nat)
    requires map_.Valid() && i < map_.LocalCount() && j < map_.LocalCount()
    requires map_.ToGlobal(i) == map_.ToGlobal(j)
    ensures i == j
  {
  }

  lemma ContiguousOwns(map_: CoordinateMap, s: nat)
    requires map_.Valid() && map_.selection.Contiguous?
    ensures map_.Owns(s) <==> Within(map_.selection.span, s)
  {
    if map_.selection.span.start <= s < map_.selection.span.end {
      assert map_.ToGlobal(s - map_.selection.span.start) == s;
    }
  }

  type MapResult = Result<CoordinateMap, CoordinateError>

  function RangeMap(count: nat, span: Span): (r: MapResult)
    ensures r.Ok? ==> r.value.Valid()
  {
    if count == 0 then Err(EmptyGlobalAxis)
    else if span.start > span.end || span.end > count then Err(InvalidRange)
    else Ok(CoordinateMap(count, Contiguous(span)))
  }

  /** Expands whole semantic units into scalar coordinates. */
  function PartitionUnits(count: nat, units: nat, span: Span): (r: MapResult)
    ensures r.Ok? ==> r.value.Valid()
  {
    if units == 0 || count == 0 || count % units != 0 then Err(InvalidUnits)
    else if span.start > span.end || span.end > units then Err(InvalidRange)
    else
      var width := count / units;
      RangeMap(count, span.Scaled(width))
  }

  /** Units that divide the axis and hold the range are accepted, and then a scalar is owned with its unit. */
  lemma UnitsOwned(count: nat, units: nat, span: Span, s: nat)
    ensures PartitionUnits(count, units, span).Ok? <==>
            units > 0 && count > 0 && count % units == 0 && span.start <= span.end <= units
    ensures PartitionUnits(count, units, span).Ok? && s < count ==>
            count / units > 0 &&
            (PartitionUnits(count, units, span).value.Owns(s) <==> Within(span, s / (count / units)))
  {
    if units > 0 && count > 0 && count % units == 0 && span.start <= span.end <= units {
      var width := count / units;
      DivExact(count, units);
      MulMonotone(span.start, span.end, width);
      MulMonotone(span.end, units, width);
      ContiguousOwns(CoordinateMap(count, Contiguous(span.Scaled(width))), s);
      DivBracket(s, width, span.start);
      DivBracket(s, width, span.end);
    }
  }

  /** The first index, from `k` on, that is out of range or already listed. */
  function FirstFault(count: nat, indices: seq<nat>, k: nat): (fault: Option<CoordinateError>)
    requires k <= |indices|
    ensures fault.None? <==>
            forall i :: k <= i < |indices| ==> indices[i] < count && indices[i] !in indices[..i]
    decreases |indices| - k
  {
    if k == |indices| then None
    else if indices[k] >= count then Some(OutOfRange(indices[k]))
    else if indices[k] in indices[..k] then Some(Duplicate(indices[k]))
    else FirstFault(count, indices, k + 1)
  }

  /** Explicitly ordered indices are admitted exactly when they are in range and distinct. */
  function IndexMap(count: nat, indices: seq<nat>): (r: MapResult)
    ensures r.Ok? <==> CoordinateMap(count, Listed(indices)).Valid()
    ensures r.Ok? ==> r.value == CoordinateMap(count, Listed(indices))
  {
    if count == 0 then Err(EmptyGlobalAxis)
    else
      var fault := FirstFault(count, indices, 0);
      assert fault.None? ==> forall i, j :: 0 <= i < j < |indices| ==> indices[i] in indices[..j];
      match fault
      case Some(error) => Err(error)
      case None => Ok(CoordinateMap(count, Listed(indices)))
  }

  /** The admitting loop, which records each index in an inverse table. */
  method AdmitIndices(count: nat, indices: seq<nat>) returns (r: MapResult, inverse: map<nat, nat>)
    ensures r == IndexMap(count, indices)
    ensures r.Ok? ==> forall g :: g in inverse <==> r.value.Owns(g)
    ensures r.Ok? ==> forall g :: g in inverse ==> inverse[g] < |indices| && indices[inverse[g]] == g
  {
    inverse := map[];
    if count == 0 {
      return Err(EmptyGlobalAxis), inverse;
    }
    for local := 0 to |indices|
      invariant FirstFault(count, indices, 0) == FirstFault(count, indices, local)
      invariant forall g :: g in inverse <==> g in indices[..local]
      invariant forall g :: g in inverse ==> inverse[g] < local && indices[inverse[g]] == g
    {
      var global := indices[local];
      if global >= count {
        return Err(OutOfRange(global)), inverse;
      }
      if global in inverse {
        return Err(Duplicate(global)), inverse;
      }
      inverse := inverse[global := local];
    }
    r := Ok(CoordinateMap(count, Listed(indices)));
    assert indices[..|indices|] == indices;
    forall g
      ensures g in inverse <==> r.value.Owns(g)
    {
      if g in indices {
        var i :| 0 <= i < |indices| && indices[i] == g;
        assert r.value.ToGlobal(i) == g;
      }
    }
  }

  /** Where one rank keeps its part of a tensor. */
  datatype Placement =
    | Replicated
    | Local
    | Omit
    | OnRank(rank: nat)
    | Shard(axis: nat, index: nat, parts: nat)
    | Slice(axis: nat, span: Span)
    | Gather(axis: nat, indices: seq<nat>)

  datatype TensorLayout = TensorLayout(
    globalShape: seq<nat>,
    localShape: seq<nat>,
    placement: Placement,
    additional: seq<Placement>,
    units: Option<nat>,
    logical: Option<Span>,
    chunk: Option<nat>)

  /** Physical columns of a run of chunks whose last chunk may be short. */
  function ChunkSpan(extent: nat, chunk: nat, logical: Span): Option<Span> {
    if extent == 0 || chunk == 0 || logical.start > logical.end then None
    else if logical.end > DivCeil(extent, chunk) then None
    else Some(Span(ChunkBoundary(extent, chunk, logical.start), ChunkBoundary(extent, chunk, logical.end)))
  }

  function ChunkBoundary(extent: nat, chunk: nat, index: nat): nat
    requires chunk > 0
  {
    if index == DivCeil(extent, chunk) then extent else index * chunk
  }

  predicate WellShaped(t: TensorLayout, axis: nat) {
    && axis < |t.globalShape| == |t.localShape|
    && (forall i :: 0 <= i < |t.globalShape| ==> t.globalShape[i] != 0 && t.localShape[i] != 0)
    && (forall i :: 0 <= i < |t.globalShape| && i != axis ==> t.globalShape[i] == t.localShape[i])
    && t.additional == []
  }

  /** Scalar coordinates of one axis, refused unless placement and units agree exactly. */
  function DeriveAxis(count: nat, t: TensorLayout, axis: nat): (r: MapResult)
    ensures r.Ok? ==> r.value.Valid() && r.value.globalCount == count
  {
    if !WellShaped(t, axis) then Err(InvalidPlacement)
    else
      var global, local := t.globalShape[axis], t.localShape[axis];
      match t.placement
      case Replicated =>
        if t.globalShape == t.localShape then RangeMap(count, Span(0, count)) else Err(InvalidPlacement)
      case Local => if t.globalShape == t.localShape then RangeMap(count, Span(0, count)) else Err(InvalidPlacement)
      case Slice(selected, span) =>
        if selected == axis && span.start <= span.end <= global && span.end - span.start == local
        then DeriveSlice(count, t, global, span) else Err(InvalidPlacement)
      case Shard(selected, index, parts) =>
        if selected == axis && parts > 0 && index < parts && global % parts == 0 && local == global / parts
        then DeriveShard(count, t, global, index, parts) else Err(InvalidPlacement)
      case Gather(selected, indices) =>
        if selected == axis && global == count && local == |indices|
        then IndexMap(count, indices) else Err(InvalidPlacement)
      case _ => Err(InvalidPlacement)
  }

  function DeriveSlice(count: nat, t: TensorLayout, global: nat, span: Span): (r: MapResult)
    requires global > 0
    ensures r.Ok? ==> r.value.Valid() && r.value.globalCount == count
  {
    if t.units.None? || t.logical.None? then Err(InvalidPlacement)
    else
      var units, range := t.units.value, t.logical.value;
      match t.chunk
      case Some(chunk) =>
        if chunk == 0 || DivCeil(global, chunk) != units then Err(InvalidPlacement)
        else if ChunkSpan(global, chunk, range) != Some(span) then Err(InvalidPlacement)
        else if global == count then RangeMap(count, span)
        else if global % chunk == 0 then PartitionUnits(count, units, range)
        else Err(InvalidPlacement)
      case None =>
        if units == 0 || global % units != 0 || range.start > range.end || range.end > units then Err(InvalidPlacement)
        else
          var perUnit := global / units;
          if span.start != range.start * perUnit || span.end != range.end * perUnit then Err(InvalidPlacement)
          else PartitionUnits(count, units, range)
  }

  function DeriveShard(count: nat, t: TensorLayout, global: nat, index: nat, parts: nat): (r: MapResult)
    requires parts > 0
    ensures r.Ok? ==> r.value.Valid() && r.value.globalCount == count
  {
    if t.units.None? || t.logical.None? then Err(InvalidPlacement)
    else
      var units, range := t.units.value, t.logical.value;
      if units == 0 || units % parts != 0 || global % units != 0
         || range != Span(index, index + 1).Scaled(units / parts)
      then Err(InvalidPlacement)
      else PartitionUnits(count, units, range)
  }

  // ---- what a successful derivation means ----

  /** A placement that divides logical units among ranks. */
  predicate Divided(t: TensorLayout) {
    && (t.placement.Slice? || (t.placement.Shard? && t.chunk == None))
    && t.units.Some? && t.logical.Some?
  }

  /** The scalar at which a logical unit begins. */
  function Boundary(count: nat, units: nat, chunk: Option<nat>, global: nat, unit: nat): nat
    requires units > 0
    requires chunk.Some? ==> chunk.value > 0
  {
    if chunk.Some? && global == count then ChunkBoundary(global, chunk.value, unit)
    else unit * (count / units)
  }

  /** Physical columns held under a dividing placement. */
  function PhysicalSpan(t: TensorLayout, axis: nat): Span
    requires Divided(t) && axis < |t.globalShape|
    requires t.placement.Shard? ==> t.placement.parts > 0
  {
    match t.placement
    case Slice(_, span) => span
    case Shard(_, index, parts) =>
      Span(index, index + 1).Scaled(t.globalShape[axis] / parts)
  }

  /** A derived map runs between the boundaries of its logical units. */
  lemma DerivedSpan(count: nat, t: TensorLayout, axis: nat)
    requires Divided(t) && DeriveAxis(count, t, axis).Ok?
    ensures t.units.value > 0 && (t.chunk.Some? ==> t.chunk.value > 0)
    ensures t.logical.value.start <= t.logical.value.end <= t.units.value
    ensures var b := (u: nat) => Boundary(count, t.units.value, t.chunk, t.globalShape[axis], u);
            DeriveAxis(count, t, axis).value.selection
              == Contiguous(Span(b(t.logical.value.start), b(t.logical.value.end)))
  {
    if t.chunk.Some? {
      DivCeilBounds(t.globalShape[axis], t.chunk.value);
    }
  }

  lemma ChunkBoundaryMonotone(extent: nat, chunk: nat, u: nat, v: nat)
    requires extent > 0 && chunk > 0 && u <= v <= DivCeil(extent, chunk)
    ensures ChunkBoundary(extent, chunk, u) <= ChunkBoundary(extent, chunk, v)
    ensures ChunkBoundary(extent, chunk, 0) == 0
  {
    DivCeilBounds(extent, chunk);
    MulMonotone(u, v, chunk);
    DivCeilLeast(extent, chunk, u);
  }

  lemma BoundaryMonotone(count: nat, units: nat, chunk: Option<nat>, global: nat, u: nat, v: nat)
    requires units > 0 && count > 0 && u <= v <= units
    requires chunk.Some? ==> chunk.value > 0 && (global == count ==> DivCeil(global, chunk.value) == units)
    requires (chunk.Some? && global == count) || count % units == 0
    ensures Boundary(count, units, chunk, global, u) <= Boundary(count, units, chunk, global, v)
    ensures Boundary(count, units, chunk, global, 0) == 0
    ensures Boundary(count, units, chunk, global, units) == count
  {
    if chunk.Some? && global == count {
      ChunkBoundaryMonotone(global, chunk.value, u, v);
    } else {
      MulMonotone(u, v, count / units);
    }
  }

  /** One rank's share of the axis described by `t`. */
  ghost predicate SharesDivision(count: nat, t: TensorLayout, u: TensorLayout, axis: nat) {
    && axis < |t.globalShape| && axis < |u.globalShape|
    && Divided(u) && DeriveAxis(count, u, axis).Ok?
    && u.units == t.units && u.chunk == t.chunk && u.globalShape[axis] == t.globalShape[axis]
  }

  /** Every rank's tensor describes the same axis divided into the same units. */
  ghost predicate SameDivision(count: nat, ts: seq<TensorLayout>, axis: nat) {
    0 < |ts| && forall i :: 0 <= i < |ts| ==> SharesDivision(count, ts[0], ts[i], axis)
  }

  /** The ranks' logical ranges follow one another from zero to the last unit. */
  ghost predicate UnitsTiled(ts: seq<TensorLayout>) {
    && 0 < |ts|
    && (forall i :: 0 <= i < |ts| ==> ts[i].logical.Some?)
    && ts[0].units.Some?
    && ts[0].logical.value.start == 0
    && (forall i :: 0 <= i < |ts| - 1 ==> ts[i].logical.value.end == ts[i + 1].logical.value.start)
    && ts[|ts| - 1].logical.value.end == ts[0].units.value
  }

  /** The unique rank owning a scalar, as the sole rank whose derived span contains it. */
  ghost predicate OwnedBy(count: nat, ts: seq<TensorLayout>, axis: nat, i: nat, s: nat)
    requires i < |ts| && DeriveAxis(count, ts[i], axis).Ok?
  {
    DeriveAxis(count, ts[i], axis).value.Owns(s)
  }

  /**
   For every assignment of logical units that tiles the axis, under equal shards,
   explicit ranges or chunks with a short last chunk, each scalar is owned by
   exactly one rank.
   */
  lemma {:induction false} DerivedMapsTile(count: nat, ts: seq<TensorLayout>, axis: nat, s: nat)
    requires SameDivision(count, ts, axis) && UnitsTiled(ts) && s < count
    ensures exists i: nat :: i < |ts| && OwnedBy(count, ts, axis, i, s)
    ensures forall i: nat, j: nat :: i < j < |ts| ==>
              !(OwnedBy(count, ts, axis, i, s) && OwnedBy(count, ts, axis, j, s))
  {
    var n := |ts|;
    var units, chunk, global := ts[0].units.value, ts[0].chunk, ts[0].globalShape[axis];
    DerivedBoundaryFacts(count, ts[0], axis);
    forall i: nat | i < n
      ensures OwnedBy(count, ts, axis, i, s) <==>
              Boundary(count, units, chunk, global, ts[i].logical.value.start) <= s
              < Boundary(count, units, chunk, global, ts[i].logical.value.end)
    {
      DerivedSpan(count, ts[i], axis);
      ContiguousOwns(DeriveAxis(count, ts[i], axis).value, s);
    }
    BoundaryMonotone(count, units, chunk, global, 0, units);
    var i := FindOwner(count, ts, axis, s, n);
    assert OwnedBy(count, ts, axis, i, s);
    forall i: nat, j: nat | i < j < n
      ensures !(OwnedBy(count, ts, axis, i, s) && OwnedBy(count, ts, axis, j, s))
    {
      RangesOrdered(count, ts, axis, i, j);
      DerivedSpan(count, ts[j], axis);
      BoundaryMonotone(count, units, chunk, global, ts[i].logical.value.end, ts[j].logical.value.start);
    }
  }

  /** Side conditions of the boundary function that a successful derivation establishes. */
  lemma DerivedBoundaryFacts(count: nat, t: TensorLayout, axis: nat)
    requires Divided(t) && DeriveAxis(count, t, axis).Ok?
    ensures t.units.value > 0 && count > 0
    ensures t.chunk.Some? ==> t.chunk.value > 0 && DivCeil(t.globalShape[axis], t.chunk.value) == t.units.value
    ensures (t.chunk.Some? && t.globalShape[axis] == count) || count % t.units.value == 0
  {
    DerivedSpan(count, t, axis);
  }

  /** Earlier ranks end no later than later ranks begin. */
  lemma {:induction false} RangesOrdered(count: nat, ts: seq<TensorLayout>, axis: nat, i: nat, j: nat)
    requires SameDivision(count, ts, axis) && UnitsTiled(ts) && i < j < |ts|
    ensures ts[i].logical.value.end <= ts[j].logical.value.start
    decreases j
  {
    if i + 1 < j {
      RangesOrdered(count, ts, axis, i, j - 1);
      DerivedSpan(count, ts[j - 1], axis);
    }
  }

  /** Some rank among the first `n` owns a scalar below the end of its units. */
  lemma {:induction false} FindOwner(count: nat, ts: seq<TensorLayout>, axis: nat, s: nat, n: nat) returns (i: nat)
    requires SameDivision(count, ts, axis) && UnitsTiled(ts) && 0 < n <= |ts|
    requires ts[0].units.value > 0 && (ts[0].chunk.Some? ==> ts[0].chunk.value > 0)
    requires Boundary(count, ts[0].units.value, ts[0].chunk, ts[0].globalShape[axis], 0) == 0
    requires s < Boundary(count, ts[0].units.value, ts[0].chunk, ts[0].globalShape[axis], ts[n - 1].logical.value.end)
    ensures i < n
    ensures Boundary(count, ts[0].units.value, ts[0].chunk, ts[0].globalShape[axis], ts[i].logical.value.start) <= s
    ensures s < Boundary(count, ts[0].units.value, ts[0].chunk, ts[0].globalShape[axis], ts[i].logical.value.end)
  {
    var k := n - 1;
    if Boundary(count, ts[0].units.value, ts[0].chunk, ts[0].globalShape[axis], ts[k].logical.value.start) <= s {
      i := k;
    } else {
      i := FindOwner(count, ts, axis, s, k);
    }
  }

  /** The physical column that stores a scalar when columns pack scalars evenly. */
  function Column(s: nat, global: nat, count: nat): nat
    requires count > 0
  {
    (s * global) / count
  }

  lemma CrossProducts(unit: nat, columns: nat, width: nat, units: nat)
    ensures (unit * columns) * (width * units) == (unit * width) * (columns * units)
  {
    assert (unit * columns) * (width * units) == ((unit * columns) * width) * units;
    assert (unit * width) * (columns * units) == ((unit * width) * columns) * units;
    assert (unit * columns) * width == (unit * width) * columns;
  }

  /** Scaling by the physical width and dividing by the scalar width keeps unit boundaries. */
  lemma ScaledBoundary(s: nat, unit: nat, width: nat, columns: nat, count: nat, global: nat)
    requires count > 0 && global > 0 && (unit * columns) * count == (unit * width) * global
    ensures unit * width <= s <==> unit * columns <= Column(s, global, count)
  {
    DivBracket(s * global, count, unit * columns);
    if unit * width <= s {
      MulMonotone(unit * width, s, global);
    } else {
      MulStrict(s, unit * width, global);
    }
  }

  lemma UniformLocal(count: nat, global: nat, units: nat, width: nat, columns: nat, range: Span, s: nat)
    requires count > 0 && global > 0 && count == width * units && global == columns * units
    ensures Within(range.Scaled(width), s) <==> Within(range.Scaled(columns), Column(s, global, count))
  {
    CrossProducts(range.start, columns, width, units);
    CrossProducts(range.end, columns, width, units);
    ScaledBoundary(s, range.start, width, columns, count, global);
    ScaledBoundary(s, range.end, width, columns, count, global);
  }

  /** In every dividing placement a scalar is local exactly when its physical column is. */
  lemma ScalarLocalIffColumnLocal(count: nat, t: TensorLayout, axis: nat, s: nat)
    requires Divided(t) && DeriveAxis(count, t, axis).Ok? && s < count
    ensures t.placement.Shard? ==> t.placement.parts > 0
    ensures DeriveAxis(count, t, axis).value.Owns(s) <==>
            Within(PhysicalSpan(t, axis), Column(s, t.globalShape[axis], count))
  {
    if t.chunk.Some? && t.globalShape[axis] == count {
      UnpackedLocal(count, t, axis, s);
    } else {
      UniformlyLocal(count, t, axis, s);
    }
  }

  lemma UnpackedLocal(count: nat, t: TensorLayout, axis: nat, s: nat)
    requires Divided(t) && DeriveAxis(count, t, axis).Ok? && s < count
    requires t.chunk.Some? && t.globalShape[axis] == count
    ensures t.placement.Shard? ==> t.placement.parts > 0
    ensures DeriveAxis(count, t, axis).value.Owns(s) <==> Within(PhysicalSpan(t, axis), Column(s, count, count))
  {
    ContiguousOwns(DeriveAxis(count, t, axis).value, s);
    MultipleMod(s, count);
    UnpackedChunks(count, t, axis);
  }

  lemma UniformlyLocal(count: nat, t: TensorLayout, axis: nat, s: nat)
    requires Divided(t) && DeriveAxis(count, t, axis).Ok? && s < count
    requires !(t.chunk.Some? && t.globalShape[axis] == count)
    ensures t.placement.Shard? ==> t.placement.parts > 0
    ensures DeriveAxis(count, t, axis).value.Owns(s) <==>
            Within(PhysicalSpan(t, axis), Column(s, t.globalShape[axis], count))
  {
    var width, columns := UniformWidths(count, t, axis);
    LocalByWidths(DeriveAxis(count, t, axis).value, PhysicalSpan(t, axis), t.logical.value,
                  count, t.globalShape[axis], t.units.value, width, columns, s);
  }

  /** Scalars and columns per unit where both divide evenly. */
  lemma UniformWidths(count: nat, t: TensorLayout, axis: nat) returns (width: nat, columns: nat)
    requires Divided(t) && DeriveAxis(count, t, axis).Ok?
    requires !(t.chunk.Some? && t.globalShape[axis] == count)
    ensures count > 0 && count == width * t.units.value && t.globalShape[axis] == columns * t.units.value
    ensures t.placement.Shard? ==> t.placement.parts > 0
    ensures DeriveAxis(count, t, axis).value.selection == Contiguous(t.logical.value.Scaled(width))
    ensures PhysicalSpan(t, axis) == t.logical.value.Scaled(columns)
  {
    width := UniformScalars(count, t, axis);
    columns := UniformPhysical(count, t, axis);
  }

  lemma UniformScalars(count: nat, t: TensorLayout, axis: nat) returns (width: nat)
    requires Divided(t) && DeriveAxis(count, t, axis).Ok?
    requires !(t.chunk.Some? && t.globalShape[axis] == count)
    ensures count > 0 && count == width * t.units.value
    ensures DeriveAxis(count, t, axis).value.selection == Contiguous(t.logical.value.Scaled(width))
  {
    DerivedBoundaryFacts(count, t, axis);
    width := count / t.units.value;
    DivExact(count, t.units.value);
    ContiguousWhenDivided(count, t, axis);
  }

  lemma UniformPhysical(count: nat, t: TensorLayout, axis: nat) returns (columns: nat)
    requires Divided(t) && DeriveAxis(count, t, axis).Ok?
    requires !(t.chunk.Some? && t.globalShape[axis] == count)
    ensures t.globalShape[axis] == columns * t.units.value
    ensures t.placement.Shard? ==> t.placement.parts > 0
    ensures PhysicalSpan(t, axis) == t.logical.value.Scaled(columns)
  {
    UniformColumns(count, t, axis);
    columns := t.globalShape[axis] / t.units.value;
    DivExact(t.globalShape[axis], t.units.value);
  }

  lemma LocalByWidths(m: CoordinateMap, physical: Span, logical: Span, count: nat, global: nat, units: nat,
                      width: nat, columns: nat, s: nat)
    requires m.Valid() && m.selection == Contiguous(logical.Scaled(width)) && physical == logical.Scaled(columns)
    requires count > 0 && global > 0 && count == width * units && global == columns * units
    ensures m.Owns(s) <==> Within(physical, Column(s, global, count))
  {
    ContiguousOwns(m, s);
    UniformLocal(count, global, units, width, columns, logical, s);
  }

  lemma ContiguousWhenDivided(count: nat, t: TensorLayout, axis: nat)
    requires Divided(t) && DeriveAxis(count, t, axis).Ok?
    ensures t.units.value > 0
    ensures DeriveAxis(count, t, axis).value.selection.Contiguous?
    ensures !(t.chunk.Some? && t.globalShape[axis] == count) ==>
            DeriveAxis(count, t, axis).value.selection.span == t.logical.value.Scaled(count / t.units.value)
  {
    DerivedSpan(count, t, axis);
  }

  lemma UnpackedChunks(count: nat, t: TensorLayout, axis: nat)
    requires Divided(t) && DeriveAxis(count, t, axis).Ok?
    requires t.chunk.Some? && t.globalShape[axis] == count
    ensures DeriveAxis(count, t, axis).value.selection == Contiguous(PhysicalSpan(t, axis))
  {
  }

  /** Outside the unpacked chunk case the physical columns are whole uniform units. */
  lemma UniformColumns(count: nat, t: TensorLayout, axis: nat)
    requires Divided(t) && DeriveAxis(count, t, axis).Ok?
    requires !(t.chunk.Some? && t.globalShape[axis] == count)
    ensures t.units.value > 0 && t.globalShape[axis] % t.units.value == 0
    ensures t.placement.Shard? ==> t.placement.parts > 0
    ensures PhysicalSpan(t, axis) == t.logical.value.Scaled(t.globalShape[axis] / t.units.value)
  {
    var global := t.globalShape[axis];
    match t.placement
    case Slice(_, span) =>
      assert DeriveAxis(count, t, axis) == DeriveSlice(count, t, global, span);
      SliceColumns(count, t, global, span);
    case Shard(_, index, parts) =>
      assert DeriveAxis(count, t, axis) == DeriveShard(count, t, global, index, parts);
      ShardSpanColumns(count, t, global, index, parts);
  }

  lemma ShardSpanColumns(count: nat, t: TensorLayout, global: nat, index: nat, parts: nat)
    requires parts > 0 && DeriveShard(count, t, global, index, parts).Ok?
    ensures t.units.value > 0 && global % t.units.value == 0
    ensures Span(index, index + 1).Scaled(global / parts) == t.logical.value.Scaled(global / t.units.value)
  {
    ShardColumns(global, t.units.value, index, parts);
    ShardColumns(global, t.units.value, index + 1, parts);
  }

  lemma SliceColumns(count: nat, t: TensorLayout, global: nat, span: Span)
    requires global > 0 && DeriveSlice(count, t, global, span).Ok?
    requires !(t.chunk.Some? && global == count)
    ensures t.units.value > 0 && global % t.units.value == 0
    ensures span == t.logical.value.Scaled(global / t.units.value)
  {
    if t.chunk.Some? {
      ChunkColumns(global, t.chunk.value, t.units.value, t.logical.value);
    }
  }

  lemma ChunkColumns(global: nat, chunk: nat, units: nat, logical: Span)
    requires global > 0 && chunk > 0 && global % chunk == 0 && DivCeil(global, chunk) == units
    requires ChunkSpan(global, chunk, logical).Some?
    ensures units > 0 && global % units == 0
    ensures ChunkSpan(global, chunk, logical).value
         == logical.Scaled(global / units)
  {
    ExactChunks(global, chunk);
    MultipleMod(chunk, units);
  }

  lemma ExactChunks(global: nat, chunk: nat)
    requires chunk > 0 && global % chunk == 0
    ensures DivCeil(global, chunk) == global / chunk
    ensures global == chunk * DivCeil(global, chunk)
  {
    var q := global / chunk;
    DivUnique(global + chunk - 1, chunk, q, chunk - 1);
  }

  lemma ShardColumns(global: nat, units: nat, k: nat, parts: nat)
    requires units > 0 && parts > 0 && units % parts == 0 && global % units == 0
    ensures k * (global / parts) == (k * (units / parts)) * (global / units)
  {
    var perPart, columns := units / parts, global / units;
    assert global == columns * (perPart * parts);
    assert global == (columns * perPart) * parts;
    MultipleMod(columns * perPart, parts);
    assert k * (columns * perPart) == (k * perPart) * columns;
  }

  /** Placements of the same physical columns own the same scalars, whatever their units or chunks. */
  lemma PlacementsAgree(count: nat, t: TensorLayout, u: TensorLayout, axis: nat, s: nat)
    requires Divided(t) && Divided(u) && DeriveAxis(count, t, axis).Ok? && DeriveAxis(count, u, axis).Ok? && s < count
    requires t.placement.Shard? ==> t.placement.parts > 0
    requires u.placement.Shard? ==> u.placement.parts > 0
    requires t.globalShape[axis] == u.globalShape[axis] && PhysicalSpan(t, axis) == PhysicalSpan(u, axis)
    ensures DeriveAxis(count, t, axis).value.Owns(s) <==> DeriveAxis(count, u, axis).value.Owns(s)
  {
    ScalarLocalIffColumnLocal(count, t, axis, s);
    ScalarLocalIffColumnLocal(count, u, axis, s);
  }
}
