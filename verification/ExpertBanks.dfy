/** Ownership of sparse expert banks over the pipeline by expert rank grid. */
module ExpertBanks {
  import opened Wrappers
  import opened Arith

  datatype Range = Range(start: nat, end: nat) {
    predicate Contains(n: int) {
      start <= n < end
    }
  }

  datatype RangeError = ZeroPartitions | PartitionOutOfRange | EmptyPartition | PartitionOverflow

  // ---- balanced contiguous ranges ----

  function Start(total: nat, parts: nat, index: nat): nat
    requires parts > 0
  {
    index * (total / parts) + Min(index, total % parts)
  }

  /** The range of one partition, with the machine-word checks on each sum and product. */
  function BalancedRange(total: nat, parts: nat, index: nat, allowEmpty: bool, maxWord: nat):
    Result<Range, RangeError>
  {
    if parts == 0 then Err(ZeroPartitions)
    else if index >= parts then Err(PartitionOutOfRange)
    else if !allowEmpty && total < parts then Err(EmptyPartition)
    else
      var base, extra := total / parts, total % parts;
      var start := index * base + Min(index, extra);
      var end := start + base + (if index < extra then 1 else 0);
      if index * base > maxWord || start > maxWord || end > maxWord then Err(PartitionOverflow)
      else Ok(Range(start, end))
  }

  /** Each partition ends where the next begins, and the last ends at the total. */
  lemma Boundaries(total: nat, parts: nat, index: nat)
    requires parts > 0 && index < parts
    ensures Start(total, parts, 0) == 0 && Start(total, parts, parts) == total
    ensures Start(total, parts, index + 1) ==
            Start(total, parts, index) + total / parts + (if index < total % parts then 1 else 0)
  {
    var base, extra := total / parts, total % parts;
    assert total == parts * base + extra;
    assert (index + 1) * base == index * base + base;
  }

  lemma {:induction false} StartsClimb(total: nat, parts: nat, i: nat, j: nat)
    requires parts > 0 && i <= j <= parts
    ensures Start(total, parts, i) <= Start(total, parts, j)
    ensures total >= parts && i < j ==> Start(total, parts, i) < Start(total, parts, j)
    decreases j
  {
    if i < j {
      Boundaries(total, parts, j - 1);
      StartsClimb(total, parts, i, j - 1);
      DivBracket(total, parts, 1);
    }
  }

  lemma StartsIncrease(total: nat, parts: nat, i: nat, j: nat)
    requires parts > 0 && i <= j <= parts
    ensures Start(total, parts, i) <= Start(total, parts, j) <= total
    ensures total >= parts && i < j ==> Start(total, parts, i) < Start(total, parts, j)
  {
    StartsClimb(total, parts, i, j);
    StartsClimb(total, parts, j, parts);
    Boundaries(total, parts, 0);
  }

  /** The checked arithmetic never fails: with a representable total the only refusals are the three guards. */
  lemma RangeExact(total: nat, parts: nat, index: nat, allowEmpty: bool, maxWord: nat)
    requires total <= maxWord
    ensures BalancedRange(total, parts, index, allowEmpty, maxWord) ==
            if parts == 0 then Err(ZeroPartitions)
            else if index >= parts then Err(PartitionOutOfRange)
            else if !allowEmpty && total < parts then Err(EmptyPartition)
            else Ok(Range(Start(total, parts, index), Start(total, parts, index + 1)))
  {
    if index < parts {
      Boundaries(total, parts, index);
      StartsIncrease(total, parts, index, index + 1);
      StartsIncrease(total, parts, index + 1, parts);
    }
  }

  function RangeOf(total: nat, parts: nat, index: nat): Range
    requires parts > 0
  {
    Range(Start(total, parts, index), Start(total, parts, index + 1))
  }

  /** The partition holding a position, found by walking the boundaries. */
  function OwnerFrom(total: nat, parts: nat, position: nat, index: nat): (owner: nat)
    requires index < parts && Start(total, parts, index) <= position < total
    ensures owner < parts && RangeOf(total, parts, owner).Contains(position)
    decreases parts - index
  {
    Boundaries(total, parts, index);
    if position < Start(total, parts, index + 1) then index
    else OwnerFrom(total, parts, position, index + 1)
  }

  function Owner(total: nat, parts: nat, position: nat): (owner: nat)
    requires parts > 0 && position < total
    ensures owner < parts && RangeOf(total, parts, owner).Contains(position)
  {
    Boundaries(total, parts, 0);
    OwnerFrom(total, parts, position, 0)
  }

  /** The ranges tile the positions: one owner each, and none outside the total. */
  lemma RangesTile(total: nat, parts: nat, index: nat, position: nat)
    requires parts > 0 && index < parts
    ensures RangeOf(total, parts, index).Contains(position) <==>
            position < total && Owner(total, parts, position) == index
  {
    StartsIncrease(total, parts, index + 1, parts);
    if position < total {
      var owner := Owner(total, parts, position);
      if index < owner {
        StartsIncrease(total, parts, index + 1, owner);
      } else if owner < index {
        StartsIncrease(total, parts, owner + 1, index);
      }
    }
  }

  // ---- owners of experts ----

  /** Filling each owner's range in turn leaves every expert with its owner, and overwrites nothing. */
  method ExpertOwners(experts: nat, size: nat, maxWord: nat) returns (r: Result<seq<nat>, RangeError>)
    requires experts <= maxWord
    ensures r.Err? <==> size > experts
    ensures r.Ok? ==> |r.value| == experts &&
                      forall g :: 0 <= g < experts ==> size > 0 ==> r.value[g] == Owner(experts, size, g)
  {
    var owners := new nat[experts](_ => 0);
    for owner := 0 to size
      invariant owner > 0 ==> size <= experts
      invariant forall g :: 0 <= g < experts && size > 0 && Owner(experts, size, g) < owner ==>
                  owners[g] == Owner(experts, size, g)
    {
      RangeExact(experts, size, owner, false, maxWord);
      var range := BalancedRange(experts, size, owner, false, maxWord);
      if range.Err? {
        return Err(range.error);
      }
      StartsIncrease(experts, size, owner, owner + 1);
      ghost var before := owners[..];
      for g := range.value.start to range.value.end
        invariant forall k :: 0 <= k < experts ==>
                    owners[k] == if range.value.start <= k < g then owner else before[k]
      {
        owners[g] := owner;
      }
      forall g | 0 <= g < experts && Owner(experts, size, g) < owner + 1
        ensures owners[g] == Owner(experts, size, g)
      {
        RangesTile(experts, size, owner, g);
      }
    }
    return Ok(owners[..]);
  }

  // ---- the rank-local bank list ----

  datatype Bank = Bank(unit: nat, globalExpert: nat, ownerLocalExpert: nat)

  datatype Rank = Rank(pipelineSize: nat, pipelineRank: nat, expertSize: nat, expertRank: nat) {
    predicate Valid() {
      pipelineRank < pipelineSize && expertRank < expertSize
    }
  }

  /** The localized expert plan a rank was handed. */
  datatype Realization = Realization(
    expertSize: nat, expertRank: nat, globalExperts: nat, localExperts: seq<nat>, units: set<(string, nat)>)

  datatype FoundationError = Uneven(error: RangeError) | RankDiffers | OwnershipDiffers | ScheduleDrifted

  /** Members of a set within bounds, ascending. */
  function Ascending(units: set<nat>, low: nat, high: nat): (s: seq<nat>)
    requires low <= high
    ensures forall i :: 0 <= i < |s| ==> s[i] in units && low <= s[i] < high
    ensures forall i, j :: 0 <= i < j < |s| ==> s[i] < s[j]
    ensures forall u :: u in units && low <= u < high ==> u in s
    decreases high - low
  {
    if low == high then []
    else
      var rest := Ascending(units, low, high - 1);
      if high - 1 in units then rest + [high - 1] else rest
  }

  function UnitBanks(unit: nat, experts: Range): (banks: seq<Bank>)
    requires experts.start <= experts.end
    ensures |banks| == experts.end - experts.start
  {
    seq(experts.end - experts.start, i requires 0 <= i => Bank(unit, experts.start + i, i))
  }

  function BanksOf(units: seq<nat>, experts: Range): (banks: seq<Bank>)
    requires experts.start <= experts.end
    ensures |banks| == |units| * (experts.end - experts.start)
  {
    if units == [] then []
    else BanksOf(units[..|units| - 1], experts) + UnitBanks(units[|units| - 1], experts)
  }

  function Counting(r: Range): seq<nat>
    requires r.start <= r.end
  {
    seq(r.end - r.start, i requires 0 <= i => r.start + i)
  }

  function Schedule(group: string, sparse: set<nat>): set<(string, nat)> {
    set u | u in sparse :: (group, u)
  }

  /** Binds a rank's selected ownership to the balanced grid, or says which part of it drifted. */
  function Foundation(group: string, textUnits: Range, totalUnits: nat, sparse: set<nat>, rank: Rank,
                      plan: Realization, maxWord: nat): Result<seq<Bank>, FoundationError>
    requires rank.Valid() && totalUnits <= maxWord && plan.globalExperts <= maxWord
  {
    RangeExact(totalUnits, rank.pipelineSize, rank.pipelineRank, false, maxWord);
    RangeExact(plan.globalExperts, rank.expertSize, rank.expertRank, false, maxWord);
    StartsIncrease(totalUnits, rank.pipelineSize, rank.pipelineRank, rank.pipelineRank + 1);
    StartsIncrease(plan.globalExperts, rank.expertSize, rank.expertRank, rank.expertRank + 1);
    match BalancedRange(totalUnits, rank.pipelineSize, rank.pipelineRank, false, maxWord)
    case Err(error) => Err(Uneven(error))
    case Ok(units) =>
      if textUnits != units || plan.expertSize != rank.expertSize || plan.expertRank != rank.expertRank then
        Err(RankDiffers)
      else
        match BalancedRange(plan.globalExperts, rank.expertSize, rank.expertRank, false, maxWord)
        case Err(error) => Err(Uneven(error))
        case Ok(experts) =>
          if plan.localExperts != Counting(experts) then Err(OwnershipDiffers)
          else if plan.units != Schedule(group, sparse) then Err(ScheduleDrifted)
          else Ok(BanksOf(Ascending(sparse, units.start, units.end), experts))
  }

  // ---- exact cover ----

  /** Position `unit index * n + expert offset` of the list holds that unit and expert. */
  lemma {:induction false} BankAt(units: seq<nat>, experts: Range, k: nat, i: nat)
    requires experts.start <= experts.end && k < |units| && i < experts.end - experts.start
    ensures var n := experts.end - experts.start;
            0 <= k * n + i < |BanksOf(units, experts)| &&
            BanksOf(units, experts)[k * n + i] == Bank(units[k], experts.start + i, i)
  {
    var n := experts.end - experts.start;
    var front := units[..|units| - 1];
    if k < |front| {
      BankAt(front, experts, k, i);
    } else {
      assert k == |front| && |BanksOf(front, experts)| == k * n;
    }
  }

  /** Every position is of that form. */
  lemma {:induction false} BankIndex(units: seq<nat>, experts: Range, p: nat) returns (k: nat, i: nat)
    requires experts.start <= experts.end && p < |BanksOf(units, experts)|
    ensures k < |units| && i < experts.end - experts.start && p == k * (experts.end - experts.start) + i
    ensures BanksOf(units, experts)[p] == Bank(units[k], experts.start + i, i)
  {
    var n := experts.end - experts.start;
    var front := units[..|units| - 1];
    if p < |BanksOf(front, experts)| {
      k, i := BankIndex(front, experts, p);
    } else {
      k, i := |front|, p - |BanksOf(front, experts)|;
    }
  }

  /** The banks an accepted rank owns. */
  function RankBanks(sparse: set<nat>, totalUnits: nat, globalExperts: nat, rank: Rank): seq<Bank>
    requires rank.Valid()
  {
    StartsIncrease(totalUnits, rank.pipelineSize, rank.pipelineRank, rank.pipelineRank + 1);
    StartsIncrease(globalExperts, rank.expertSize, rank.expertRank, rank.expertRank + 1);
    var units := RangeOf(totalUnits, rank.pipelineSize, rank.pipelineRank);
    var experts := RangeOf(globalExperts, rank.expertSize, rank.expertRank);
    BanksOf(Ascending(sparse, units.start, units.end), experts)
  }

  function Counted(globalExperts: nat, rank: Rank): seq<nat>
    requires rank.Valid()
  {
    StartsIncrease(globalExperts, rank.expertSize, rank.expertRank, rank.expertRank + 1);
    Counting(RangeOf(globalExperts, rank.expertSize, rank.expertRank))
  }

  /** Acceptance is agreement with the balanced grid in every part. */
  lemma FoundationAccepts(group: string, textUnits: Range, totalUnits: nat, sparse: set<nat>, rank: Rank,
                          plan: Realization, maxWord: nat)
    requires rank.Valid() && totalUnits <= maxWord && plan.globalExperts <= maxWord
    ensures Foundation(group, textUnits, totalUnits, sparse, rank, plan, maxWord).Ok? <==>
            && rank.pipelineSize <= totalUnits && rank.expertSize <= plan.globalExperts
            && textUnits == RangeOf(totalUnits, rank.pipelineSize, rank.pipelineRank)
            && plan.expertSize == rank.expertSize && plan.expertRank == rank.expertRank
            && plan.localExperts == Counted(plan.globalExperts, rank)
            && plan.units == Schedule(group, sparse)
  {
    RangeExact(totalUnits, rank.pipelineSize, rank.pipelineRank, false, maxWord);
    RangeExact(plan.globalExperts, rank.expertSize, rank.expertRank, false, maxWord);
  }

  /** An accepted foundation holds exactly the rank's banks. */
  lemma FoundationBanks(group: string, textUnits: Range, totalUnits: nat, sparse: set<nat>, rank: Rank,
                        plan: Realization, maxWord: nat)
    requires rank.Valid() && totalUnits <= maxWord && plan.globalExperts <= maxWord
    ensures var r := Foundation(group, textUnits, totalUnits, sparse, rank, plan, maxWord);
            r.Ok? ==> r.value == RankBanks(sparse, totalUnits, plan.globalExperts, rank)
  {
    RangeExact(totalUnits, rank.pipelineSize, rank.pipelineRank, false, maxWord);
    RangeExact(plan.globalExperts, rank.expertSize, rank.expertRank, false, maxWord);
  }

  lemma BanksOrdered(units: seq<nat>, experts: Range, p: nat, q: nat)
    requires experts.start <= experts.end && p < q < |BanksOf(units, experts)|
    requires forall i, j :: 0 <= i < j < |units| ==> units[i] < units[j]
    ensures var banks := BanksOf(units, experts);
            Before(banks[p], banks[q])
  {
    var k, i := BankIndex(units, experts, p);
    var l, j := BankIndex(units, experts, q);
    RowOrder(k, i, l, j, experts.end - experts.start);
  }

  lemma RowOrder(k: nat, i: nat, l: nat, j: nat, n: nat)
    requires i < n && j < n && k * n + i < l * n + j
    ensures k < l || (k == l && i < j)
  {
    if l < k {
      MulMonotone(1, k - l, n);
    }
  }

  /** Ordered by unit, then by expert; within a unit the local ordinal advances with the global expert. */
  predicate Before(a: Bank, b: Bank) {
    a.unit < b.unit ||
    (a.unit == b.unit && a.globalExpert < b.globalExpert &&
     b.globalExpert - a.globalExpert == b.ownerLocalExpert - a.ownerLocalExpert)
  }

  /** One bank key is held at most once by a rank, with the local ordinal counting experts in global order. */
  lemma KeysDistinct(sparse: set<nat>, totalUnits: nat, globalExperts: nat, rank: Rank, p: nat, q: nat)
    requires rank.Valid()
    requires p < q < |RankBanks(sparse, totalUnits, globalExperts, rank)|
    ensures var banks := RankBanks(sparse, totalUnits, globalExperts, rank);
            Before(banks[p], banks[q])
  {
    StartsIncrease(totalUnits, rank.pipelineSize, rank.pipelineRank, rank.pipelineRank + 1);
    StartsIncrease(globalExperts, rank.expertSize, rank.expertRank, rank.expertRank + 1);
    var unitRange := RangeOf(totalUnits, rank.pipelineSize, rank.pipelineRank);
    var experts := RangeOf(globalExperts, rank.expertSize, rank.expertRank);
    var units := Ascending(sparse, unitRange.start, unitRange.end);
    BanksOrdered(units, experts, p, q);
  }

  /** Whether a rank holds a unit and expert. */
  ghost predicate Holds(banks: seq<Bank>, unit: nat, expert: nat) {
    exists p :: 0 <= p < |banks| && banks[p].unit == unit && banks[p].globalExpert == expert
  }

  /**
   * Exact cover: a rank holds a pair precisely when the unit is scheduled sparse, both numbers are in range, and
   * the rank sits at the pair's one pipeline and expert coordinate.
   */
  lemma OwnedOnce(sparse: set<nat>, totalUnits: nat, globalExperts: nat, rank: Rank, unit: nat, expert: nat)
    requires rank.Valid()
    ensures Holds(RankBanks(sparse, totalUnits, globalExperts, rank), unit, expert) <==>
            && unit in sparse && unit < totalUnits && expert < globalExperts
            && Owner(totalUnits, rank.pipelineSize, unit) == rank.pipelineRank
            && Owner(globalExperts, rank.expertSize, expert) == rank.expertRank
  {
    StartsIncrease(totalUnits, rank.pipelineSize, rank.pipelineRank, rank.pipelineRank + 1);
    StartsIncrease(globalExperts, rank.expertSize, rank.expertRank, rank.expertRank + 1);
    var unitRange := RangeOf(totalUnits, rank.pipelineSize, rank.pipelineRank);
    var experts := RangeOf(globalExperts, rank.expertSize, rank.expertRank);
    var units := Ascending(sparse, unitRange.start, unitRange.end);
    var banks := RankBanks(sparse, totalUnits, globalExperts, rank);
    RangesTile(totalUnits, rank.pipelineSize, rank.pipelineRank, unit);
    RangesTile(globalExperts, rank.expertSize, rank.expertRank, expert);
    if Holds(banks, unit, expert) {
      var p :| 0 <= p < |banks| && banks[p].unit == unit && banks[p].globalExpert == expert;
      var k, i := BankIndex(units, experts, p);
    } else if unit in sparse && unitRange.Contains(unit) && experts.Contains(expert) {
      var k :| 0 <= k < |units| && units[k] == unit;
      BankAt(units, experts, k, expert - experts.start);
      assert false;
    }
  }

  // ---- doubled provider units ----

  /** One layer's routed and shared bank specifications. */
  datatype LayerSpecs<S> = LayerSpecs(group: string, layer: nat, routed: S, shared: S)

  predicate InRange<S>(layers: nat, entries: seq<LayerSpecs<S>>) {
    forall i :: 0 <= i < |entries| ==> entries[i].layer < layers
  }

  predicate DistinctLayers<S>(entries: seq<LayerSpecs<S>>) {
    forall i, j :: 0 <= i < j < |entries| ==>
      entries[i].group != entries[j].group || entries[i].layer != entries[j].layer
  }

  predicate Recorded<S(==)>(layers: nat, e: LayerSpecs<S>, specs: map<(string, nat), S>) {
    && (e.group, e.layer) in specs && specs[(e.group, e.layer)] == e.routed
    && (e.group, layers + e.layer) in specs && specs[(e.group, layers + e.layer)] == e.shared
  }

  predicate Provided<S>(layers: nat, entries: seq<LayerSpecs<S>>, key: (string, nat)) {
    exists i :: 0 <= i < |entries| && entries[i].group == key.0 &&
                (key.1 == entries[i].layer || key.1 == layers + entries[i].layer)
  }

  function Extended<S>(layers: nat, e: LayerSpecs<S>, specs: map<(string, nat), S>): map<(string, nat), S> {
    specs[(e.group, e.layer) := e.routed][(e.group, layers + e.layer) := e.shared]
  }

  /** A later layer leaves what an earlier one recorded. */
  lemma RecordedKept<S>(layers: nat, e: LayerSpecs<S>, later: LayerSpecs<S>, specs: map<(string, nat), S>)
    requires e.layer < layers && later.layer < layers && Recorded(layers, e, specs)
    requires e.group != later.group || e.layer != later.layer
    ensures Recorded(layers, e, Extended(layers, later, specs))
  {
  }

  lemma ProvidedGrows<S>(layers: nat, entries: seq<LayerSpecs<S>>, n: nat, specs: map<(string, nat), S>)
    requires n < |entries| && forall key :: key in specs ==> Provided(layers, entries[..n], key)
    ensures forall key :: key in Extended(layers, entries[n], specs) ==> Provided(layers, entries[..n + 1], key)
  {
    var longer := entries[..n + 1];
    forall key | key in Extended(layers, entries[n], specs)
      ensures Provided(layers, longer, key)
    {
      if key in specs {
        var i :| 0 <= i < n && entries[..n][i].group == key.0 &&
                 (key.1 == entries[..n][i].layer || key.1 == layers + entries[..n][i].layer);
        assert longer[i] == entries[..n][i];
      } else {
        assert longer[n] == entries[n];
      }
    }
  }

  lemma RecordedGrows<S>(layers: nat, entries: seq<LayerSpecs<S>>, n: nat, specs: map<(string, nat), S>)
    requires n < |entries| && InRange(layers, entries) && DistinctLayers(entries)
    requires forall i :: 0 <= i < n ==> Recorded(layers, entries[i], specs)
    ensures forall i :: 0 <= i < n + 1 ==> Recorded(layers, entries[i], Extended(layers, entries[n], specs))
  {
    forall i | 0 <= i < n + 1
      ensures Recorded(layers, entries[i], Extended(layers, entries[n], specs))
    {
      if i < n {
        RecordedKept(layers, entries[i], entries[n], specs);
      }
    }
  }

  /**
   * Gives each layer a routed provider unit and, past the last layer, a shared one. With distinct in-range layers
   * nothing is overwritten: every unit reads back its own specification, and no other unit exists.
   */
  method ProviderUnits<S(==)>(layers: nat, entries: seq<LayerSpecs<S>>, maxWord: nat)
    returns (specs: map<(string, nat), S>, overflow: bool)
    ensures overflow <==> exists i :: 0 <= i < |entries| && layers + entries[i].layer > maxWord
    ensures !overflow && InRange(layers, entries) && DistinctLayers(entries) ==>
              forall i :: 0 <= i < |entries| ==> Recorded(layers, entries[i], specs)
    ensures !overflow ==> forall key :: key in specs ==> Provided(layers, entries, key)
    ensures !overflow && InRange(layers, entries) ==> forall key :: key in specs ==> Returns(layers, entries, key)
  {
    specs := map[];
    for n := 0 to |entries|
      invariant forall i :: 0 <= i < n ==> layers + entries[i].layer <= maxWord
      invariant InRange(layers, entries) && DistinctLayers(entries) ==>
                  forall i :: 0 <= i < n ==> Recorded(layers, entries[i], specs)
      invariant forall key :: key in specs ==> Provided(layers, entries[..n], key)
    {
      var e := entries[n];
      if layers + e.layer > maxWord {
        return specs, true;
      }
      ProvidedGrows(layers, entries, n, specs);
      if InRange(layers, entries) && DistinctLayers(entries) {
        RecordedGrows(layers, entries, n, specs);
      }
      specs := Extended(layers, e, specs);
    }
    assert entries[..|entries|] == entries;
    if InRange(layers, entries) {
      forall key | key in specs
        ensures Returns(layers, entries, key)
      {
        ProvidedReturns(layers, entries, key);
      }
    }
    overflow := false;
  }

  /** The remainder of a unit by the layer count is the layer of an entry of its group. */
  ghost predicate Returns<S>(layers: nat, entries: seq<LayerSpecs<S>>, key: (string, nat)) {
    layers > 0 && exists i :: 0 <= i < |entries| && key.0 == entries[i].group && key.1 % layers == entries[i].layer
  }

  lemma ProvidedReturns<S>(layers: nat, entries: seq<LayerSpecs<S>>, key: (string, nat))
    requires InRange(layers, entries) && Provided(layers, entries, key)
    ensures Returns(layers, entries, key)
  {
    var i :| 0 <= i < |entries| && key.0 == entries[i].group &&
      (key.1 == entries[i].layer || key.1 == layers + entries[i].layer);
    UnitsReturnToLayer(layers, entries[i].layer, entries[i].layer);
  }

  /** Routed and shared units of in-range layers never coincide, and both return to their layer. */
  lemma UnitsReturnToLayer(layers: nat, layer: nat, other: nat)
    requires layer < layers && other < layers
    ensures layer != layers + other
    ensures layer % layers == layer && (layers + layer) % layers == layer
  {
    DivUnique(layers + layer, layers, 1, layer);
    DivUnique(layer, layers, 0, layer);
  }
}
