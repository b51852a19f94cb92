/**
 Projection of a strided global selection onto one coordinate map, as a bounded
 list of strided native fragments and their destinations.
 */
module SlicePartition {
  import opened Wrappers
  import opened Arith
  import opened Coordinates
  import opened Progressions

  /** The selected coordinates `start, start + stride, ...` below `end`. */
  datatype AxisSlice = AxisSlice(start: nat, end: nat, stride: nat) {
    predicate Valid(extent: nat) {
      start <= end <= extent && stride > 0
    }

    function Count(): nat
      requires start <= end && stride > 0
    {
      DivCeil(end - start, stride)
    }

    function Coordinate(destination: nat): nat {
      start + destination * stride
    }

    predicate Selects(g: nat)
      requires stride > 0
    {
      start <= g < end && (g - start) % stride == 0
    }

    function Destination(g: nat): nat
      requires stride > 0 && start <= g
    {
      (g - start) / stride
    }
  }

  /** Selected coordinates are exactly the coordinates of valid destinations. */
  lemma SelectsIffDestination(s: AxisSlice, extent: nat, g: nat)
    requires s.Valid(extent)
    ensures s.Selects(g) ==> s.Destination(g) < s.Count() && s.Coordinate(s.Destination(g)) == g
  {
    if s.Selects(g) {
      var d := s.Destination(g);
      assert g - s.start == d * s.stride;
      DivCeilLeast(s.end - s.start, s.stride, d);
    }
  }

  lemma DestinationSelected(s: AxisSlice, extent: nat, d: nat)
    requires s.Valid(extent) && d < s.Count()
    ensures s.Selects(s.Coordinate(d)) && s.Destination(s.Coordinate(d)) == d
  {
    DivCeilLeast(s.end - s.start, s.stride, d);
    MultipleMod(d, s.stride);
  }

  /** A native slice and its place in the selected result; both have the same count. */
  datatype Fragment = Fragment(local: Progression, destination: Progression) {
    ghost predicate Valid() {
      && 0 < local.count == destination.count
      && 0 < local.step && 0 < destination.step
    }
  }

  /** One element moved from a local index to a destination. */
  datatype Move = Move(local: nat, destination: nat)

  function Moves(f: Fragment): seq<Move> {
    seq(f.local.count, (i: nat) => Move(f.local.At(i), f.destination.At(i)))
  }

  function AllMoves(fs: seq<Fragment>): seq<Move> {
    if fs == [] then [] else AllMoves(fs[..|fs| - 1]) + Moves(fs[|fs| - 1])
  }

  /** What a rank must contribute: its selected elements in local storage order. */
  function Wanted(s: AxisSlice, m: CoordinateMap, n: nat): seq<Move>
    requires m.Valid() && s.stride > 0 && n <= m.LocalCount()
  {
    if n == 0 then []
    else
      var g := m.ToGlobal(n - 1);
      Wanted(s, m, n - 1) + if s.Selects(g) then [Move(n - 1, s.Destination(g))] else []
  }

  // ---- explicit indices: greedy coalescing of arithmetic runs ----

  function Last(p: Progression): nat
    requires p.count > 0
  {
    p.At(p.count - 1)
  }

  function Single(move: Move): Fragment {
    Fragment(Progression(move.local, 1, 1), Progression(move.destination, 1, 1))
  }

  /** Whether a move continues a run with the same local and destination steps. */
  predicate Continues(run: Fragment, move: Move)
    requires run.local.count == run.destination.count > 0
  {
    && move.destination > Last(run.destination)
    && move.local > Last(run.local)
    && (run.local.count == 1
        || (move.local - Last(run.local) == run.local.step
            && move.destination - Last(run.destination) == run.destination.step))
  }

  function Extended(run: Fragment, move: Move): Fragment
    requires run.local.count == run.destination.count > 0 && Continues(run, move)
  {
    Fragment(
      Progression(run.local.start, move.local - Last(run.local), run.local.count + 1),
      Progression(run.destination.start, move.destination - Last(run.destination), run.destination.count + 1))
  }

  ghost predicate AllValid(fs: seq<Fragment>) {
    forall i :: 0 <= i < |fs| ==> fs[i].Valid()
  }

  /** Adds one move to the last run, or opens a new one. */
  function Absorb(earlier: seq<Fragment>, move: Move): (fs: seq<Fragment>)
    requires AllValid(earlier)
    ensures AllValid(fs) && fs != [] && |earlier| <= |fs|
  {
    if earlier != [] && Continues(earlier[|earlier| - 1], move)
    then earlier[..|earlier| - 1] + [Extended(earlier[|earlier| - 1], move)]
    else earlier + [Single(move)]
  }

  /** Greedy splitting of a list of moves into maximal left-to-right runs. */
  function Coalesced(moves: seq<Move>): (fs: seq<Fragment>)
    ensures AllValid(fs)
    ensures fs == [] <==> moves == []
  {
    if moves == [] then [] else Absorb(Coalesced(moves[..|moves| - 1]), moves[|moves| - 1])
  }

  lemma CoalescedAppend(moves: seq<Move>, move: Move)
    ensures Coalesced(moves + [move]) == Absorb(Coalesced(moves), move)
  {
    assert (moves + [move])[..|moves|] == moves;
  }

  lemma ExtendedMoves(run: Fragment, move: Move)
    requires run.Valid() && Continues(run, move)
    ensures Moves(Extended(run, move)) == Moves(run) + [move]
  {
    var next := Extended(run, move);
    forall i: nat | i < run.local.count
      ensures next.local.At(i) == run.local.At(i) && next.destination.At(i) == run.destination.At(i)
    {
      if run.local.count == 1 { assert i == 0; }
    }
    LastStep(run.local, move.local);
    LastStep(run.destination, move.destination);
  }

  lemma LastStep(p: Progression, next: nat)
    requires p.count > 0 && next > Last(p) && (p.count == 1 || next - Last(p) == p.step)
    ensures Progression(p.start, next - Last(p), p.count + 1).At(p.count) == next
  {
    var step := next - Last(p);
    assert p.count * step == (p.count - 1) * step + step;
  }

  lemma AllMovesAppend(fs: seq<Fragment>, f: Fragment)
    ensures AllMoves(fs + [f]) == AllMoves(fs) + Moves(f)
  {
    assert (fs + [f])[..|fs|] == fs;
  }

  lemma AbsorbMoves(earlier: seq<Fragment>, move: Move)
    requires AllValid(earlier)
    ensures AllMoves(Absorb(earlier, move)) == AllMoves(earlier) + [move]
  {
    if earlier != [] && Continues(earlier[|earlier| - 1], move) {
      var done, run := earlier[..|earlier| - 1], earlier[|earlier| - 1];
      ExtendedMoves(run, move);
      AllMovesAppend(done, Extended(run, move));
    } else {
      AllMovesAppend(earlier, Single(move));
      assert Moves(Single(move)) == [move];
    }
  }

  /** Coalescing loses, repeats and reorders nothing. */
  lemma {:induction false} CoalescedMoves(moves: seq<Move>)
    ensures AllMoves(Coalesced(moves)) == moves
  {
    if moves != [] {
      var init, move := moves[..|moves| - 1], moves[|moves| - 1];
      assert moves == init + [move];
      CoalescedMoves(init);
      AbsorbMoves(Coalesced(init), move);
    }
  }

  /** Later moves never reduce the number of runs. */
  lemma {:induction false} CoalescedGrows(moves: seq<Move>, more: seq<Move>)
    ensures |Coalesced(moves)| <= |Coalesced(moves + more)|
  {
    if more == [] {
      assert moves + more == moves;
    } else {
      var all := moves + more;
      assert all[..|all| - 1] == moves + more[..|more| - 1];
      CoalescedGrows(moves, more[..|more| - 1]);
    }
  }

  // ---- contiguous ranges: at most one fragment ----

  /** The single fragment of a contiguous range, when any selected coordinate falls in it. */
  function ContiguousFragments(s: AxisSlice, span: Span): seq<Fragment>
    requires s.start <= s.end && s.stride > 0
  {
    var lower, upper := Max(span.start, s.start), Min(span.end, s.end);
    if lower >= upper then []
    else
      var first := DivCeil(lower - s.start, s.stride);
      if first >= s.Count() then []
      else
        var last := (upper - 1 - s.start) / s.stride;
        if first > last then []
        else
          FirstNotBefore(s, lower, first);
          var localFirst := s.Coordinate(first) - span.start;
          [Fragment(Progression(localFirst, s.stride, last - first + 1), Progression(first, 1, last - first + 1))]
  }

  lemma FirstNotBefore(s: AxisSlice, lower: nat, first: nat)
    requires s.stride > 0 && lower >= s.start && first == DivCeil(lower - s.start, s.stride)
    ensures s.Coordinate(first) >= lower
  {
    DivCeilBounds(lower - s.start, s.stride);
  }

  /** Destinations whose coordinate falls in a contiguous range form one interval. */
  lemma ContiguousDestinations(s: AxisSlice, m: CoordinateMap, d: nat)
    requires m.Valid() && m.selection.Contiguous? && s.Valid(m.globalCount)
    ensures var fs := ContiguousFragments(s, m.selection.span);
            (d < s.Count() && Within(m.selection.span, s.Coordinate(d))) <==>
            (fs != [] && fs[0].destination.start <= d < fs[0].destination.start + fs[0].destination.count)
  {
    var span := m.selection.span;
    var lower, upper := Max(span.start, s.start), Min(span.end, s.end);
    DivCeilLeast(s.end - s.start, s.stride, d);
    if lower < upper {
      DivCeilLeast(lower - s.start, s.stride, d);
      DivBracket(upper - 1 - s.start, s.stride, d);
    }
  }

  lemma ContiguousLocal(s: AxisSlice, m: CoordinateMap, i: nat)
    requires m.Valid() && m.selection.Contiguous? && s.Valid(m.globalCount)
    requires var fs := ContiguousFragments(s, m.selection.span); fs != [] && i < fs[0].local.count
    ensures var f := ContiguousFragments(s, m.selection.span)[0];
            f.local.At(i) == s.Coordinate(f.destination.At(i)) - m.selection.span.start
  {
    var f := ContiguousFragments(s, m.selection.span)[0];
    assert (f.destination.start + i) * s.stride == f.destination.start * s.stride + i * s.stride;
  }

  // ---- projection ----

  datatype CaptureError =
    | ZeroProducerBound
    | MissingPath
    | EquationsDisagree
    | IncompleteOrderedCoordinates
    | IncompleteTensorGroup
    | ProducerBoundExceeded
    | FragmentBoundExceeded
    | NoInvocationOwner
    | MissingTensorTerm
    | InvalidAxis
    | InvalidGeometry
    | Overlapping
    | Incomplete

  /** The fragments of one map, before any bound is applied. */
  function Fragments(s: AxisSlice, m: CoordinateMap): seq<Fragment>
    requires m.Valid() && s.Valid(m.globalCount)
  {
    match m.selection
    case Contiguous(span) => ContiguousFragments(s, span)
    case Listed(_) => Coalesced(Wanted(s, m, m.LocalCount()))
  }

  lemma {:induction false} WantedPrefix(s: AxisSlice, m: CoordinateMap, n: nat, total: nat) returns (more: seq<Move>)
    requires m.Valid() && s.stride > 0 && n <= total <= m.LocalCount()
    ensures Wanted(s, m, total) == Wanted(s, m, n) + more
    decreases total
  {
    if n == total {
      more := [];
    } else {
      more := WantedPrefix(s, m, n, total - 1);
      var g := m.ToGlobal(total - 1);
      more := more + if s.Selects(g) then [Move(total - 1, s.Destination(g))] else [];
    }
  }

  /** The completed fragments followed by the open run. */
  ghost predicate Splits(fs: seq<Fragment>, done: seq<Fragment>, run: Option<Fragment>) {
    && fs == done + (if run.Some? then [run.value] else [])
    && (run.None? ==> done == [])
  }

  lemma JoinStep(earlier: seq<Fragment>, done: seq<Fragment>, run: Fragment, move: Move)
    requires AllValid(earlier) && Splits(earlier, done, Some(run)) && run.Valid()
    requires Joins(run, move) && Last(run.local) < move.local
    ensures Splits(Absorb(earlier, move), done, Some(Extended(run, move)))
    ensures Extended(run, move).Valid() && Last(Extended(run, move).local) == move.local
  {
    assert earlier[|earlier| - 1] == run && earlier[..|earlier| - 1] == done;
    LastStep(run.local, move.local);
  }

  lemma OpenStep(earlier: seq<Fragment>, done: seq<Fragment>, run: Option<Fragment>, move: Move)
    requires AllValid(earlier) && Splits(earlier, done, run)
    requires run.Some? ==> run.value.Valid() && !Joins(run.value, move)
    ensures Splits(Absorb(earlier, move), if run.Some? then done + [run.value] else done, Some(Single(move)))
  {
    if run.Some? {
      assert earlier[|earlier| - 1] == run.value;
    }
  }

  /** One move joins the open run, or closes it within the fragment bound and opens another. */
  method TakeMove(fragments: seq<Fragment>, run: Option<Fragment>, move: Move, ghost wanted: seq<Move>,
                  maxFragments: nat)
    returns (r: Option<(seq<Fragment>, Fragment)>)
    requires Splits(Coalesced(wanted), fragments, run) && |fragments| <= maxFragments
    requires run.Some? ==> run.value.Valid() && Last(run.value.local) < move.local
    ensures r.Some? ==>
              && Splits(Coalesced(wanted + [move]), r.value.0, Some(r.value.1)) && |r.value.0| <= maxFragments
              && r.value.1.Valid() && Last(r.value.1.local) == move.local
    ensures r.None? ==> |Coalesced(wanted + [move])| > maxFragments
  {
    CoalescedAppend(wanted, move);
    if run.Some? && Joins(run.value, move) {
      JoinStep(Coalesced(wanted), fragments, run.value, move);
      return Some((fragments, Extended(run.value, move)));
    }
    OpenStep(Coalesced(wanted), fragments, run, move);
    if run.None? {
      return Some((fragments, Single(move)));
    }
    if |fragments| >= maxFragments {
      return None;
    }
    r := Some((fragments + [run.value], Single(move)));
  }

  /** The run-coalescing loop over explicit indices, stopped by the fragment bound. */
  method ProjectListed(s: AxisSlice, m: CoordinateMap, maxFragments: nat)
    returns (r: Result<seq<Fragment>, CaptureError>)
    requires m.Valid() && m.selection.Listed? && s.Valid(m.globalCount)
    ensures r == if |Fragments(s, m)| <= maxFragments then Ok(Fragments(s, m)) else Err(FragmentBoundExceeded)
  {
    var fragments: seq<Fragment> := [];
    var run: Option<Fragment> := None;
    for local := 0 to m.LocalCount()
      invariant Splits(Coalesced(Wanted(s, m, local)), fragments, run)
      invariant |fragments| <= maxFragments
      invariant run.Some? ==> run.value.Valid() && Last(run.value.local) < local
    {
      var global := m.ToGlobal(local);
      if s.Selects(global) {
        var move := Move(local, s.Destination(global));
        var taken := TakeMove(fragments, run, move, Wanted(s, m, local), maxFragments);
        if taken.None? {
          ghost var more := WantedPrefix(s, m, local + 1, m.LocalCount());
          CoalescedGrows(Wanted(s, m, local + 1), more);
          return Err(FragmentBoundExceeded);
        }
        fragments, run := taken.value.0, Some(taken.value.1);
      } else {
        assert Wanted(s, m, local + 1) == Wanted(s, m, local);
      }
    }
    if run.Some? {
      if |fragments| >= maxFragments {
        return Err(FragmentBoundExceeded);
      }
      fragments := fragments + [run.value];
    }
    r := Ok(fragments);
  }

  /** The loop's own test, which need not compare local indices. */
  predicate Joins(run: Fragment, move: Move)
    requires run.local.count == run.destination.count > 0
  {
    && move.destination > Last(run.destination)
    && (run.local.count == 1
        || (move.local - Last(run.local) == run.local.step
            && move.destination - Last(run.destination) == run.destination.step))
  }

  /** Bounded projection of a selection onto one coordinate map. */
  method ProjectAxis(s: AxisSlice, m: CoordinateMap, maxFragments: nat)
    returns (r: Result<seq<Fragment>, CaptureError>)
    requires m.Valid() && s.Valid(m.globalCount)
    ensures r == if |Fragments(s, m)| <= maxFragments then Ok(Fragments(s, m)) else Err(FragmentBoundExceeded)
  {
    match m.selection
    case Contiguous(span) =>
      var fragments := ContiguousFragments(s, span);
      r := if |fragments| <= maxFragments then Ok(fragments) else Err(FragmentBoundExceeded);
    case Listed(_) =>
      r := ProjectListed(s, m, maxFragments);
  }

  // ---- exactness ----

  /** The fragments place this map's selected coordinates, each at its own destination. */
  ghost predicate Places(s: AxisSlice, m: CoordinateMap, f: Fragment)
    requires m.Valid()
  {
    forall i: nat :: i < f.local.count ==>
      f.local.At(i) < m.LocalCount() && m.ToGlobal(f.local.At(i)) == s.Coordinate(f.destination.At(i))
  }

  /** The destinations reached by a list of fragments. */
  ghost function Destinations(fs: seq<Fragment>): set<nat> {
    set k, i | 0 <= k < |fs| && 0 <= i < fs[k].destination.count :: fs[k].destination.At(i)
  }

  function TotalCount(fs: seq<Fragment>): nat {
    if fs == [] then 0 else TotalCount(fs[..|fs| - 1]) + fs[|fs| - 1].destination.count
  }

  /** The destinations whose coordinate this map owns. */
  ghost function OwnedDestinations(s: AxisSlice, m: CoordinateMap): set<nat>
    requires m.Valid() && s.start <= s.end && s.stride > 0
  {
    set d: nat | d < s.Count() && m.Owns(s.Coordinate(d))
  }

  /** Every fragment is a faithful move, and together they reach each owned destination once. */
  ghost predicate Exact(s: AxisSlice, m: CoordinateMap, fs: seq<Fragment>)
    requires m.Valid() && s.start <= s.end && s.stride > 0
  {
    && (forall k :: 0 <= k < |fs| ==> fs[k].Valid() && Places(s, m, fs[k]))
    && Destinations(fs) == OwnedDestinations(s, m)
    && TotalCount(fs) == |OwnedDestinations(s, m)|
  }

  /** Wanted moves are the map's selected elements, at their destinations. */
  lemma {:induction false} WantedFacts(s: AxisSlice, m: CoordinateMap, n: nat)
    requires m.Valid() && s.Valid(m.globalCount) && n <= m.LocalCount()
    ensures forall k :: 0 <= k < |Wanted(s, m, n)| ==>
              var w := Wanted(s, m, n)[k];
              w.local < n && w.destination < s.Count() && m.ToGlobal(w.local) == s.Coordinate(w.destination)
    ensures forall l: nat :: l < n && s.Selects(m.ToGlobal(l)) ==>
              Move(l, s.Destination(m.ToGlobal(l))) in Wanted(s, m, n)
    ensures forall j, k :: 0 <= j < k < |Wanted(s, m, n)| ==> Wanted(s, m, n)[j].local < Wanted(s, m, n)[k].local
  {
    if n > 0 {
      WantedFacts(s, m, n - 1);
      SelectsIffDestination(s, m.globalCount, m.ToGlobal(n - 1));
    }
  }

  /** Fragments expand to as many moves as their counts, each of them in the list. */
  lemma {:induction false} MovesIndexed(fs: seq<Fragment>)
    requires forall k :: 0 <= k < |fs| ==> fs[k].Valid()
    ensures |AllMoves(fs)| == TotalCount(fs)
    ensures forall k, i :: 0 <= k < |fs| && 0 <= i < fs[k].destination.count ==>
              Move(fs[k].local.At(i), fs[k].destination.At(i)) in AllMoves(fs)
    ensures forall w :: w in AllMoves(fs) ==> w.destination in Destinations(fs)
  {
    if fs != [] {
      var init, f := fs[..|fs| - 1], fs[|fs| - 1];
      MovesIndexed(init);
      forall k, i | 0 <= k < |fs| && 0 <= i < fs[k].destination.count
        ensures Move(fs[k].local.At(i), fs[k].destination.At(i)) in AllMoves(fs)
      {
        if k < |init| {
          assert fs[k] == init[k];
        } else {
          assert Moves(f)[i] == Move(f.local.At(i), f.destination.At(i));
        }
      }
      forall w | w in AllMoves(fs)
        ensures w.destination in Destinations(fs)
      {
        if w in AllMoves(init) {
          var k, i :| 0 <= k < |init| && 0 <= i < init[k].destination.count &&
                      w.destination == init[k].destination.At(i);
          assert fs[k].destination.At(i) == w.destination;
        } else {
          var i :| 0 <= i < |Moves(f)| && Moves(f)[i] == w;
          assert fs[|fs| - 1].destination.At(i) == w.destination;
        }
      }
    }
  }

  function Elements(xs: seq<nat>): set<nat> {
    set x | x in xs
  }

  /** A list of distinct naturals has as many elements as its set. */
  lemma {:induction false} DistinctSize(xs: seq<nat>)
    requires forall i, j :: 0 <= i < j < |xs| ==> xs[i] != xs[j]
    ensures |Elements(xs)| == |xs|
  {
    if xs != [] {
      var init, last := xs[..|xs| - 1], xs[|xs| - 1];
      DistinctSize(init);
      assert xs == init + [last];
      assert Elements(xs) == Elements(init) + {last};
      assert last !in Elements(init);
    }
  }

  /** Coalesced fragments of explicit indices are exact. */
  lemma ListedExact(s: AxisSlice, m: CoordinateMap)
    requires m.Valid() && m.selection.Listed? && s.Valid(m.globalCount)
    ensures Exact(s, m, Fragments(s, m))
  {
    var wanted, fs := Wanted(s, m, m.LocalCount()), Fragments(s, m);
    CoalescedMoves(wanted);
    forall k | 0 <= k < |fs|
      ensures Places(s, m, fs[k])
    {
      MovesPlace(s, m, fs, k);
    }
    MovesCount(s, m, fs);
    MovesReach(s, m, fs);
  }

  lemma {:induction false} MovesPlace(s: AxisSlice, m: CoordinateMap, fs: seq<Fragment>, k: nat)
    requires m.Valid() && s.Valid(m.globalCount) && AllValid(fs) && AllMoves(fs) == Wanted(s, m, m.LocalCount())
    requires k < |fs|
    ensures Places(s, m, fs[k])
  {
    MovesIndexed(fs);
    WantedFacts(s, m, m.LocalCount());
    forall i: nat | i < fs[k].local.count
      ensures fs[k].local.At(i) < m.LocalCount()
      ensures m.ToGlobal(fs[k].local.At(i)) == s.Coordinate(fs[k].destination.At(i))
    {
      assert Move(fs[k].local.At(i), fs[k].destination.At(i)) in AllMoves(fs);
    }
  }

  lemma {:induction false} MovesCount(s: AxisSlice, m: CoordinateMap, fs: seq<Fragment>)
    requires m.Valid() && s.Valid(m.globalCount) && AllValid(fs) && AllMoves(fs) == Wanted(s, m, m.LocalCount())
    ensures TotalCount(fs) == |OwnedDestinations(s, m)|
  {
    MovesIndexed(fs);
    OwnedByMoves(s, m, AllMoves(fs));
  }

  /** Fragments that move what is wanted reach exactly the owned destinations. */
  lemma {:induction false} MovesReach(s: AxisSlice, m: CoordinateMap, fs: seq<Fragment>)
    requires m.Valid() && s.Valid(m.globalCount) && AllValid(fs) && AllMoves(fs) == Wanted(s, m, m.LocalCount())
    ensures Destinations(fs) == OwnedDestinations(s, m)
  {
    var wanted := AllMoves(fs);
    MovesIndexed(fs);
    OwnedByMoves(s, m, wanted);
    forall d | d in Destinations(fs)
      ensures d in OwnedDestinations(s, m)
    {
      var k, i :| 0 <= k < |fs| && 0 <= i < fs[k].destination.count && d == fs[k].destination.At(i);
      assert Move(fs[k].local.At(i), d) in wanted;
    }
    forall d | d in OwnedDestinations(s, m)
      ensures d in Destinations(fs)
    {
      var w :| w in wanted && w.destination == d;
    }
  }

  /** The destinations of the wanted moves are the owned ones, without repetition. */
  lemma OwnedByMoves(s: AxisSlice, m: CoordinateMap, wanted: seq<Move>)
    requires m.Valid() && s.Valid(m.globalCount) && wanted == Wanted(s, m, m.LocalCount())
    ensures forall d :: d in OwnedDestinations(s, m) <==> exists w :: w in wanted && w.destination == d
    ensures |OwnedDestinations(s, m)| == |wanted|
  {
    WantedFacts(s, m, m.LocalCount());
    forall d | d in OwnedDestinations(s, m)
      ensures exists w :: w in wanted && w.destination == d
    {
      DestinationSelected(s, m.globalCount, d);
      var l: nat :| l < m.LocalCount() && m.ToGlobal(l) == s.Coordinate(d);
      assert Move(l, d) in wanted;
    }
    var ds := seq(|wanted|, (i: nat) requires i < |wanted| => wanted[i].destination);
    forall i, j | 0 <= i < j < |ds|
      ensures ds[i] != ds[j]
    {
      if ds[i] == ds[j] {
        ToGlobalInjective(m, wanted[i].local, wanted[j].local);
      }
    }
    DistinctSize(ds);
    assert forall i :: 0 <= i < |wanted| ==> ds[i] == wanted[i].destination;
    assert OwnedDestinations(s, m) == Elements(ds);
  }

  function Interval(low: nat, count: nat): (s: set<nat>)
    ensures forall x :: x in s <==> low <= x < low + count
  {
    if count == 0 then {} else Interval(low, count - 1) + {low + count - 1}
  }

  lemma {:induction false} IntervalSize(low: nat, count: nat)
    ensures |Interval(low, count)| == count
  {
    if count > 0 {
      IntervalSize(low, count - 1);
    }
  }

  /** The single fragment of a contiguous range is exact. */
  lemma ContiguousExact(s: AxisSlice, m: CoordinateMap)
    requires m.Valid() && m.selection.Contiguous? && s.Valid(m.globalCount)
    ensures Exact(s, m, Fragments(s, m))
  {
    var span, fs := m.selection.span, Fragments(s, m);
    forall d: nat
      ensures d in OwnedDestinations(s, m) <==>
              fs != [] && fs[0].destination.start <= d < fs[0].destination.start + fs[0].destination.count
    {
      ContiguousDestinations(s, m, d);
      ContiguousOwns(m, s.Coordinate(d));
    }
    if fs == [] {
      assert OwnedDestinations(s, m) == {};
    } else {
      var f := fs[0];
      assert OwnedDestinations(s, m) == Interval(f.destination.start, f.destination.count);
      IntervalSize(f.destination.start, f.destination.count);
      forall i: nat | i < f.local.count
        ensures f.local.At(i) < m.LocalCount() && m.ToGlobal(f.local.At(i)) == s.Coordinate(f.destination.At(i))
      {
        ContiguousLocal(s, m, i);
        ContiguousDestinations(s, m, f.destination.At(i));
      }
      forall d | d in OwnedDestinations(s, m)
        ensures d in Destinations(fs)
      {
        assert fs[0].destination.At(d - f.destination.start) == d;
      }
      assert fs[..|fs| - 1] == [];
    }
  }

  /** Projection is exact for every map and every selection. */
  lemma FragmentsExact(s: AxisSlice, m: CoordinateMap)
    requires m.Valid() && s.Valid(m.globalCount)
    ensures Exact(s, m, Fragments(s, m))
  {
    if m.selection.Contiguous? {
      ContiguousExact(s, m);
    } else {
      ListedExact(s, m);
    }
  }

  // ---- counting destinations ----

  ghost predicate PairwiseDisjoint(fs: seq<Fragment>) {
    forall i, j :: 0 <= i < j < |fs| ==> !Meet(fs[i].destination, fs[j].destination)
  }

  ghost function Reached(p: Progression): set<nat> {
    set i | 0 <= i < p.count :: p.At(i)
  }

  lemma {:induction false} ReachedSize(p: Progression)
    requires p.step > 0
    ensures |Reached(p)| == p.count
    decreases p.count
  {
    if p.count == 0 {
      assert Reached(p) == {};
    } else {
      var shorter := p.(count := p.count - 1);
      ReachedSize(shorter);
      assert Reached(p) == Reached(shorter) + {p.At(p.count - 1)} by {
        assert forall i: nat :: i < p.count - 1 ==> p.At(i) == shorter.At(i);
      }
      if p.At(p.count - 1) in Reached(shorter) {
        var i :| 0 <= i < shorter.count && shorter.At(i) == p.At(p.count - 1);
        MulStrict(i, p.count - 1, p.step);
        assert false;
      }
    }
  }

  lemma DestinationsAppend(fs: seq<Fragment>, f: Fragment)
    ensures Destinations(fs + [f]) == Destinations(fs) + Reached(f.destination)
  {
    var all := fs + [f];
    forall d | d in Destinations(fs) + Reached(f.destination)
      ensures d in Destinations(all)
    {
      if d in Destinations(fs) {
        var k, i :| 0 <= k < |fs| && 0 <= i < fs[k].destination.count && d == fs[k].destination.At(i);
        assert all[k].destination.At(i) == d;
      } else {
        var i :| 0 <= i < f.destination.count && d == f.destination.At(i);
        assert all[|fs|].destination.At(i) == d;
      }
    }
    forall d | d in Destinations(all)
      ensures d in Destinations(fs) + Reached(f.destination)
    {
      var k, i :| 0 <= k < |all| && 0 <= i < all[k].destination.count && d == all[k].destination.At(i);
      if k < |fs| { assert fs[k].destination.At(i) == d; }
    }
  }

  lemma MeetsReached(p: Progression, fs: seq<Fragment>)
    ensures Destinations(fs) !! Reached(p) <==>
            forall k :: 0 <= k < |fs| ==> !Meet(fs[k].destination, p)
  {
    if !(Destinations(fs) !! Reached(p)) {
      var d :| d in Destinations(fs) && d in Reached(p);
      var k, i :| 0 <= k < |fs| && 0 <= i < fs[k].destination.count && d == fs[k].destination.At(i);
      var j :| 0 <= j < p.count && d == p.At(j);
      assert fs[k].destination.Has(d) && p.Has(d);
    }
    if k :| 0 <= k < |fs| && Meet(fs[k].destination, p) {
      var d :| fs[k].destination.Has(d) && p.Has(d);
      var i: nat :| i < fs[k].destination.count && d == fs[k].destination.At(i);
      assert d in Destinations(fs) && d in Reached(p);
    }
  }

  /** Fragments are pairwise disjoint exactly when their counts add up to what they reach. */
  lemma {:induction false} DisjointIffCounts(fs: seq<Fragment>)
    requires AllValid(fs)
    ensures |Destinations(fs)| <= TotalCount(fs)
    ensures |Destinations(fs)| == TotalCount(fs) <==> PairwiseDisjoint(fs)
  {
    if fs == [] {
      assert Destinations(fs) == {};
    } else {
      var init, f := fs[..|fs| - 1], fs[|fs| - 1];
      assert fs == init + [f];
      DisjointIffCounts(init);
      DisjointAppend(init, f);
      CountsAppend(init, f);
    }
  }

  /** One more fragment stays disjoint exactly when it meets none before it. */
  lemma {:induction false} DisjointAppend(fs: seq<Fragment>, f: Fragment)
    ensures PairwiseDisjoint(fs + [f]) <==> PairwiseDisjoint(fs) && Destinations(fs) !! Reached(f.destination)
  {
    var longer := fs + [f];
    assert longer[|fs|] == f && forall k :: 0 <= k < |fs| ==> longer[k] == fs[k];
    MeetsReached(f.destination, fs);
  }

  /** One more fragment adds its count to what is reached exactly when it reaches nothing again. */
  lemma {:induction false} CountsAppend(fs: seq<Fragment>, f: Fragment)
    requires f.Valid()
    ensures TotalCount(fs + [f]) == TotalCount(fs) + f.destination.count
    ensures |Destinations(fs + [f])| <= |Destinations(fs)| + f.destination.count
    ensures |Destinations(fs + [f])| == |Destinations(fs)| + f.destination.count <==>
            Destinations(fs) !! Reached(f.destination)
  {
    assert (fs + [f])[..|fs|] == fs;
    DestinationsAppend(fs, f);
    ReachedSize(f.destination);
    UnionSize(Destinations(fs), Reached(f.destination));
  }

  lemma UnionSize(a: set<nat>, b: set<nat>)
    ensures |a + b| <= |a| + |b|
    ensures |a + b| == |a| + |b| <==> a !! b
  {
    assert a + b == a + (b - a);
    assert b == (b - a) + (b * a);
    assert |a + (b - a)| == |a| + |b - a|;
    assert |b| == |b - a| + |b * a|;
    if !(a !! b) {
      var x :| x in a && x in b;
      assert x in b * a;
      assert |b * a| > 0;
    } else {
      assert b * a == {};
    }
  }
}
