/** Admission of an exact quantization plan for a SafeTensors checkpoint. */
module QuantPlan {
  import opened Wrappers
  import opened Sorting

  datatype Target = Target(source: string, weight: string, scales: string, biases: Option<string>) {
    /** Output names in the order they are claimed. */
    function Outputs(): seq<string> {
      [weight, scales] + if biases.Some? then [biases.value] else []
    }
  }

  datatype Error = EmptyTargets | EmptyIdentity | BiasMismatch | DuplicateSource | DuplicateOutput

  /** Unicode white space, as trimming removes it. */
  predicate White(c: char) {
    var n := c as int;
    0x9 <= n <= 0xD || n == 0x20 || n == 0x85 || n == 0xA0 || n == 0x1680 || 0x2000 <= n <= 0x200A ||
    n == 0x2028 || n == 0x2029 || n == 0x202F || n == 0x205F || n == 0x3000
  }

  predicate Blank(s: string) {
    forall i :: 0 <= i < |s| ==> White(s[i])
  }

  predicate Named(t: Target) {
    !Blank(t.source) && !Blank(t.weight) && !Blank(t.scales) && (t.biases.Some? ==> !Blank(t.biases.value))
  }

  predicate TargetSound(t: Target, hasBiases: bool) {
    Named(t) && (hasBiases <==> t.biases.Some?) && DistinctNames(t.Outputs())
  }

  predicate DistinctNames(names: seq<string>) {
    forall i, j :: 0 <= i < j < |names| ==> names[i] != names[j]
  }

  predicate Apart(a: Target, b: Target) {
    a.source != b.source && forall name :: name in a.Outputs() ==> name !in b.Outputs()
  }

  /** Nonblank names, matching biases, one source each, and no output claimed twice. */
  predicate Sound(targets: seq<Target>, hasBiases: bool) {
    && targets != []
    && (forall i :: 0 <= i < |targets| ==> TargetSound(targets[i], hasBiases))
    && forall i, j :: 0 <= i < j < |targets| ==> Apart(targets[i], targets[j])
  }

  predicate BySource(a: Target, b: Target) {
    NameLeq(a.source, b.source)
  }

  lemma BySourcePreorder()
    ensures Preorder(BySource)
  {
    forall a: Target, b: Target
      ensures BySource(a, b) || BySource(b, a)
    {
      NameTotal(a.source, b.source);
    }
    forall a: Target, b: Target, c: Target | BySource(a, b) && BySource(b, c)
      ensures BySource(a, c)
    {
      NameTransitive(a.source, b.source, c.source);
    }
  }

  // ---- order independence ----

  /** Pairwise separation seen through membership and multiplicity, which sorting keeps. */
  lemma ApartFromMultiset(s: seq<Target>, t: seq<Target>)
    requires multiset(s) == multiset(t)
    requires forall i, j :: 0 <= i < j < |s| ==> Apart(s[i], s[j])
    ensures forall i, j :: 0 <= i < j < |t| ==> Apart(t[i], t[j])
  {
    forall i, j | 0 <= i < j < |t|
      ensures Apart(t[i], t[j])
    {
      TwoPlaces(s, t, i, j);
    }
  }

  lemma TwoPlaces(s: seq<Target>, t: seq<Target>, i: nat, j: nat)
    requires multiset(s) == multiset(t) && i < j < |t|
    requires forall k, l :: 0 <= k < l < |s| ==> Apart(s[k], s[l])
    ensures Apart(t[i], t[j])
  {
    assert t[i] in multiset(s) && t[j] in multiset(s);
    var k :| 0 <= k < |s| && s[k] == t[i];
    var l :| 0 <= l < |s| && s[l] == t[j];
    if k == l {
      Twice(t, i, j);
      Once(s, k);
      assert false;
    }
  }

  lemma Twice(t: seq<Target>, i: nat, j: nat)
    requires i < j < |t| && t[i] == t[j]
    ensures multiset(t)[t[i]] >= 2
  {
    assert t == t[..j] + [t[j]] + t[j + 1..];
    assert t[i] in t[..j];
  }

  lemma {:induction false} Once(s: seq<Target>, k: nat)
    requires k < |s| && forall i, j :: 0 <= i < j < |s| ==> Apart(s[i], s[j])
    ensures multiset(s)[s[k]] == 1
  {
    assert s == s[..k] + [s[k]] + s[k + 1..];
    assert s[k] !in s[..k] && s[k] !in s[k + 1..];
  }

  lemma SoundPermuted(s: seq<Target>, t: seq<Target>, hasBiases: bool)
    requires multiset(s) == multiset(t) && Sound(s, hasBiases)
    ensures Sound(t, hasBiases)
  {
    assert |multiset(s)| == |s| && |multiset(t)| == |t|;
    forall i | 0 <= i < |t|
      ensures TargetSound(t[i], hasBiases)
    {
      assert t[i] in multiset(s);
      var k :| 0 <= k < |s| && s[k] == t[i];
    }
    ApartFromMultiset(s, t);
  }

  /** Soundness does not depend on the order targets are given in. */
  lemma SoundAnyOrder(s: seq<Target>, t: seq<Target>, hasBiases: bool)
    requires multiset(s) == multiset(t)
    ensures Sound(s, hasBiases) <==> Sound(t, hasBiases)
  {
    if Sound(s, hasBiases) {
      SoundPermuted(s, t, hasBiases);
    }
    if Sound(t, hasBiases) {
      SoundPermuted(t, s, hasBiases);
    }
  }

  /** Sorted lists of the same separated targets are one list. */
  lemma {:induction false} OrderedUnique(s: seq<Target>, t: seq<Target>)
    requires multiset(s) == multiset(t) && Ordered(BySource, s) && Ordered(BySource, t)
    requires forall i, j :: 0 <= i < j < |s| ==> Apart(s[i], s[j])
    ensures s == t
  {
    assert |multiset(s)| == |s| && |multiset(t)| == |t|;
    if s != [] {
      HeadsMeet(s, t);
      TailsMeet(s, t);
      OrderedUnique(s[1..], t[1..]);
      assert s == [s[0]] + s[1..] && t == [t[0]] + t[1..];
    }
  }

  lemma TailsMeet(s: seq<Target>, t: seq<Target>)
    requires s != [] && t != [] && multiset(s) == multiset(t) && s[0] == t[0]
    ensures multiset(s[1..]) == multiset(t[1..])
  {
    assert s == [s[0]] + s[1..] && t == [t[0]] + t[1..];
    assert multiset(s[1..]) == multiset(s) - multiset{s[0]};
  }

  lemma HeadsMeet(s: seq<Target>, t: seq<Target>)
    requires s != [] && t != [] && multiset(s) == multiset(t) && Ordered(BySource, s) && Ordered(BySource, t)
    requires forall i, j :: 0 <= i < j < |s| ==> Apart(s[i], s[j])
    ensures s[0] == t[0]
  {
    assert s[0] in multiset(t) && t[0] in multiset(s);
    var i :| 0 <= i < |t| && t[i] == s[0];
    var j :| 0 <= j < |s| && s[j] == t[0];
    if i > 0 && j > 0 {
      assert BySource(t[0], t[i]) && BySource(s[0], s[j]) && Apart(s[0], s[j]);
      NameTotal(s[0].source, t[0].source);
      assert false;
    }
  }

  /** The plan is canonical: any listing of the same sound targets gives the same plan. */
  lemma PlanCanonical(s: seq<Target>, t: seq<Target>, hasBiases: bool)
    requires multiset(s) == multiset(t) && Sound(s, hasBiases)
    ensures Sorted(BySource, s) == Sorted(BySource, t)
  {
    BySourcePreorder();
    SortedOrders(BySource, s);
    SortedOrders(BySource, t);
    SortedPermutes(BySource, s);
    SortedPermutes(BySource, t);
    SoundAnyOrder(s, Sorted(BySource, s), hasBiases);
    OrderedUnique(Sorted(BySource, s), Sorted(BySource, t));
  }

  // ---- admission ----

  /** Claims one target's outputs, each new to the plan. */
  method Claim(outputs: set<string>, t: Target) returns (r: Result<set<string>, Error>)
    ensures r.Ok? <==> DistinctNames(t.Outputs()) && forall name :: name in t.Outputs() ==> name !in outputs
    ensures r.Ok? ==> r.value == outputs + set name | name in t.Outputs()
  {
    var claimed := outputs;
    var names := t.Outputs();
    for i := 0 to |names|
      invariant claimed == outputs + set name | name in names[..i]
      invariant DistinctNames(names[..i]) && forall k :: 0 <= k < i ==> names[k] !in outputs
    {
      assert names[..i + 1] == names[..i] + [names[i]];
      if names[i] in claimed {
        if names[i] in names[..i] {
          var k :| 0 <= k < i && names[..i][k] == names[i];
          assert names[k] == names[i];
        }
        return Err(DuplicateOutput);
      }
      claimed := claimed + {names[i]};
    }
    assert names[..|names|] == names;
    return Ok(claimed);
  }

  ghost predicate Claimed(targets: seq<Target>, sources: set<string>, outputs: set<string>) {
    && (forall i :: 0 <= i < |targets| ==> targets[i].source in sources)
    && (forall name :: name in sources ==> exists i :: 0 <= i < |targets| && targets[i].source == name)
    && (forall i :: 0 <= i < |targets| ==> forall name :: name in targets[i].Outputs() ==> name in outputs)
    && (forall name :: name in outputs ==> exists i :: 0 <= i < |targets| && name in targets[i].Outputs())
  }

  lemma ClaimedGrows(targets: seq<Target>, sources: set<string>, outputs: set<string>, t: Target)
    requires Claimed(targets, sources, outputs)
    ensures Claimed(targets + [t], sources + {t.source}, outputs + set name | name in t.Outputs())
  {
    var all := targets + [t];
    assert all[|targets|] == t && forall i :: 0 <= i < |targets| ==> all[i] == targets[i];
  }

  /** Apart from every earlier target exactly when neither its source nor its outputs are taken. */
  lemma ClaimedApart(targets: seq<Target>, sources: set<string>, outputs: set<string>, t: Target)
    requires Claimed(targets, sources, outputs)
    ensures (forall i :: 0 <= i < |targets| ==> Apart(targets[i], t)) <==>
            t.source !in sources && forall name :: name in t.Outputs() ==> name !in outputs
  {
  }

  method CheckTarget(t: Target, hasBiases: bool, sources: set<string>) returns (r: Result<(), Error>)
    ensures r.Ok? <==> Named(t) && (hasBiases <==> t.biases.Some?) && t.source !in sources
  {
    if Blank(t.source) || Blank(t.weight) || Blank(t.scales) {
      return Err(EmptyIdentity);
    }
    if t.biases.Some? && Blank(t.biases.value) {
      return Err(EmptyIdentity);
    }
    if hasBiases != t.biases.Some? {
      return Err(BiasMismatch);
    }
    if t.source in sources {
      return Err(DuplicateSource);
    }
    return Ok(());
  }

  /**
   * Sorts the targets by source and admits them one by one. It accepts exactly the sound target sets, however they
   * were listed, and the plan is those targets in source order.
   */
  method NewPlan(targets: seq<Target>, hasBiases: bool) returns (r: Result<seq<Target>, Error>)
    ensures r.Ok? <==> Sound(targets, hasBiases)
    ensures r.Ok? ==> multiset(r.value) == multiset(targets) && Ordered(BySource, r.value)
    ensures r.Ok? ==> r.value == Sorted(BySource, targets)
  {
    if targets == [] {
      return Err(EmptyTargets);
    }
    var plan := Sorted(BySource, targets);
    SortedPlan(targets, hasBiases);
    var fault := CheckTargets(plan, hasBiases);
    r := if fault.Some? then Err(fault.value) else Ok(plan);
  }

  /** Sorting keeps the targets, and with them soundness. */
  lemma SortedPlan(targets: seq<Target>, hasBiases: bool)
    ensures var plan := Sorted(BySource, targets);
            && multiset(plan) == multiset(targets) && |plan| == |targets| && Ordered(BySource, plan)
            && (Sound(plan, hasBiases) <==> Sound(targets, hasBiases))
  {
    BySourcePreorder();
    SortedOrders(BySource, targets);
    SortedPermutes(BySource, targets);
    SortedMembers(BySource, targets);
    SoundAnyOrder(targets, Sorted(BySource, targets), hasBiases);
  }

  /** Admits the targets one by one, claiming the names each takes. */
  method CheckTargets(plan: seq<Target>, hasBiases: bool) returns (fault: Option<Error>)
    requires plan != []
    ensures fault.None? <==> Sound(plan, hasBiases)
  {
    var sources: set<string>, outputs: set<string> := {}, {};
    for i := 0 to |plan|
      invariant Claimed(plan[..i], sources, outputs)
      invariant i > 0 ==> Sound(plan[..i], hasBiases)
    {
      var t := plan[i];
      ClaimedApart(plan[..i], sources, outputs, t);
      SoundStep(plan, i, hasBiases);
      var checked := CheckTarget(t, hasBiases, sources);
      if checked.Err? {
        return Some(checked.error);
      }
      var claimed := Claim(outputs, t);
      if claimed.Err? {
        return Some(claimed.error);
      }
      ClaimedGrows(plan[..i], sources, outputs, t);
      assert plan[..i + 1] == plan[..i] + [t];
      sources := sources + {t.source};
      outputs := claimed.value;
    }
    assert plan[..|plan|] == plan;
    fault := None;
  }

  /** A sound prefix extends by a target that is sound and apart from it; otherwise the whole is unsound. */
  lemma SoundStep(plan: seq<Target>, i: nat, hasBiases: bool)
    requires i < |plan| && (i > 0 ==> Sound(plan[..i], hasBiases))
    ensures var fits := TargetSound(plan[i], hasBiases) &&
                        forall k :: 0 <= k < |plan[..i]| ==> Apart(plan[..i][k], plan[i]);
            && (fits ==> Sound(plan[..i + 1], hasBiases))
            && (!fits ==> !Sound(plan, hasBiases))
  {
    var longer := plan[..i + 1];
    assert forall k :: 0 <= k < i ==> longer[k] == plan[..i][k] == plan[k];
    assert longer[i] == plan[i];
  }
}
