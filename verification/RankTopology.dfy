/** Cartesian rank numbering: data outermost, then pipeline, tensor and expert. */
module RankTopology {
  import opened Arith

  datatype Grid = Grid(tensor: nat, pipeline: nat, expert: nat, data: nat)

  datatype Topology = Topology(tensor: nat, pipeline: nat, expert: nat, data: nat) {
    predicate Valid() {
      tensor > 0 && pipeline > 0 && expert > 0 && data > 0
    }

    function WorldSize(): nat {
      tensor * pipeline * expert * data
    }

    predicate Contains(g: Grid) {
      g.tensor < tensor && g.pipeline < pipeline && g.expert < expert && g.data < data
    }

    /** Coordinates of a rank. */
    function Coordinates(rank: nat): Grid
      requires Valid()
    {
      var r1 := rank / expert;
      var r2 := r1 / tensor;
      Grid(r1 % tensor, r2 % pipeline, rank % expert, r2 / pipeline)
    }

    /** Rank of a grid point. */
    function RankFor(g: Grid): nat {
      ((g.data * pipeline + g.pipeline) * tensor + g.tensor) * expert + g.expert
    }

    /** Ranks that differ from this one only in their tensor coordinate, in tensor order. */
    function TensorPeers(rank: nat): (peers: seq<nat>)
      requires Valid()
      ensures |peers| == tensor
    {
      seq(tensor, (t: nat) => RankFor(Coordinates(rank).(tensor := t)))
    }
  }

  lemma DigitUnique(high: nat, low: nat, base: nat)
    requires base > 0 && low < base
    ensures (high * base + low) / base == high && (high * base + low) % base == low
  {
    DivUnique(high * base + low, base, high, low);
  }

  lemma DigitBelow(high: nat, low: nat, base: nat, limit: nat)
    requires high < limit && low < base
    ensures high * base + low < limit * base
  {
    MulMonotone(high + 1, limit, base);
    assert (high + 1) * base == high * base + base;
  }

  lemma DigitQuotient(n: nat, base: nat, limit: nat)
    requires base > 0 && n < limit * base
    ensures n / base < limit && n == (n / base) * base + n % base
  {
    DivBracket(n, base, limit);
  }

  /** Numbering a grid point and reading the number back is the identity. */
  lemma GridRoundTrip(t: Topology, g: Grid)
    requires t.Valid() && t.Contains(g)
    ensures t.RankFor(g) < t.WorldSize()
    ensures t.Coordinates(t.RankFor(g)) == g
  {
    var a := g.data * t.pipeline + g.pipeline;
    var b := a * t.tensor + g.tensor;
    DigitUnique(g.data, g.pipeline, t.pipeline);
    DigitUnique(a, g.tensor, t.tensor);
    DigitUnique(b, g.expert, t.expert);
    DigitBelow(g.data, g.pipeline, t.pipeline, t.data);
    DigitBelow(a, g.tensor, t.tensor, t.data * t.pipeline);
    DigitBelow(b, g.expert, t.expert, (t.data * t.pipeline) * t.tensor);
    WorldSizeOrder(t);
  }

  lemma WorldSizeOrder(t: Topology)
    ensures t.WorldSize() == ((t.data * t.pipeline) * t.tensor) * t.expert
  {
    var x := t.tensor * t.pipeline;
    assert t.data * t.pipeline * t.tensor == x * t.data;
    assert (x * t.data) * t.expert == x * t.expert * t.data;
  }

  /** Reading a rank and numbering its coordinates is the identity. */
  lemma RankRoundTrip(t: Topology, rank: nat)
    requires t.Valid() && rank < t.WorldSize()
    ensures t.Contains(t.Coordinates(rank)) && t.RankFor(t.Coordinates(rank)) == rank
  {
    WorldSizeOrder(t);
    var r1 := rank / t.expert;
    var r2 := r1 / t.tensor;
    DigitQuotient(rank, t.expert, (t.data * t.pipeline) * t.tensor);
    DigitQuotient(r1, t.tensor, t.data * t.pipeline);
    DigitQuotient(r2, t.pipeline, t.data);
  }

  /** Tensor peers are in the world, carry every tensor coordinate in turn, and include the rank itself. */
  lemma PeersCarryEveryTerm(t: Topology, rank: nat, term: nat)
    requires t.Valid() && rank < t.WorldSize() && term < t.tensor
    ensures t.TensorPeers(rank)[term] < t.WorldSize()
    ensures t.Coordinates(t.TensorPeers(rank)[term]) == t.Coordinates(rank).(tensor := term)
    ensures t.TensorPeers(rank)[t.Coordinates(rank).tensor] == rank
  {
    RankRoundTrip(t, rank);
    GridRoundTrip(t, t.Coordinates(rank).(tensor := term));
  }
}
