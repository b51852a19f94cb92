/** Which crates a release stages, in which order, and which index grammar their features need. */
module Release {
  import opened Wrappers

  datatype Kind = Normal | Build | Dev

  datatype Dependency = Dependency(name: string, kind: Kind, local: bool)

  datatype Package = Package(version: string, dependencies: seq<Dependency>)

  type Workspace = map<string, Package>

  type Availability = (string, string) -> bool

  datatype OrderError = DuplicateCrate | CratesDiffer | MustPrecede(crate: string) | NotPublishable(crate: string)

  // ---- release order ----

  predicate Distinct(order: seq<string>) {
    forall i, j :: 0 <= i < j < |order| ==> order[i] != order[j]
  }

  predicate Covers(order: seq<string>, packages: Workspace) {
    (forall i :: 0 <= i < |order| ==> order[i] in packages) && forall name :: name in packages ==> name in order
  }

  /** The crate stands strictly before the other in the order. */
  predicate Precedes(order: seq<string>, earlier: string, later: string) {
    exists i, j :: 0 <= i < j < |order| && order[i] == earlier && order[j] == later
  }

  /** A dependency on a publishable crate points backwards unless it is for development; no other is local. */
  predicate DependencySound(packages: Workspace, order: seq<string>, name: string, d: Dependency) {
    if d.name in packages then d.kind == Dev || Precedes(order, d.name, name) else !d.local
  }

  predicate PackageSound(packages: Workspace, order: seq<string>, name: string)
    requires name in packages
  {
    forall i :: 0 <= i < |packages[name].dependencies| ==>
      DependencySound(packages, order, name, packages[name].dependencies[i])
  }

  predicate OrderSound(packages: Workspace, order: seq<string>) {
    && Distinct(order) && Covers(order, packages)
    && forall name :: name in packages ==> PackageSound(packages, order, name)
  }

  function PositionFrom(order: seq<string>, name: string, i: nat): (p: nat)
    requires i <= |order| && name in order[i..]
    ensures i <= p < |order| && order[p] == name
    decreases |order| - i
  {
    if order[i] == name then i else PositionFrom(order, name, i + 1)
  }

  /** In a duplicate-free order, precedence is comparison of positions. */
  lemma PrecedesIffPosition(order: seq<string>, a: string, b: string)
    requires Distinct(order) && a in order && b in order
    ensures Precedes(order, a, b) <==> PositionFrom(order, a, 0) < PositionFrom(order, b, 0)
  {
    var p, q := PositionFrom(order, a, 0), PositionFrom(order, b, 0);
    if Precedes(order, a, b) {
      var i, j :| 0 <= i < j < |order| && order[i] == a && order[j] == b;
      assert i == p && j == q;
    }
  }

  method HasDuplicate(order: seq<string>) returns (duplicate: bool)
    ensures duplicate <==> !Distinct(order)
  {
    var seen := {};
    for i := 0 to |order|
      invariant forall k :: 0 <= k < i ==> order[k] in seen
      invariant forall name :: name in seen ==> name in order[..i]
      invariant Distinct(order[..i])
    {
      if order[i] in seen {
        var k :| 0 <= k < i && order[k] == order[i];
        return true;
      }
      assert order[..i + 1] == order[..i] + [order[i]];
      seen := seen + {order[i]};
    }
    assert order[..|order|] == order;
    return false;
  }

  method ValidatePackage(packages: Workspace, order: seq<string>, name: string) returns (r: Result<(), OrderError>)
    requires name in packages && Distinct(order) && Covers(order, packages)
    ensures r.Ok? <==> PackageSound(packages, order, name)
  {
    var dependencies := packages[name].dependencies;
    for i := 0 to |dependencies|
      invariant forall k :: 0 <= k < i ==> DependencySound(packages, order, name, dependencies[k])
    {
      var d := dependencies[i];
      if d.name in packages {
        PrecedesIffPosition(order, d.name, name);
        if d.kind != Dev && PositionFrom(order, d.name, 0) >= PositionFrom(order, name, 0) {
          return Err(MustPrecede(d.name));
        }
      } else if d.local {
        return Err(NotPublishable(d.name));
      }
    }
    return Ok(());
  }

  /** Accepts exactly the sound orders, whichever order the packages are visited in. */
  method ValidateOrder(packages: Workspace, order: seq<string>) returns (r: Result<(), OrderError>)
    ensures r.Ok? <==> OrderSound(packages, order)
  {
    var duplicate := HasDuplicate(order);
    if duplicate {
      return Err(DuplicateCrate);
    }
    if packages.Keys != set name | name in order {
      assert Covers(order, packages) ==> packages.Keys == set name | name in order;
      return Err(CratesDiffer);
    }
    assert Covers(order, packages) by {
      forall i | 0 <= i < |order|
        ensures order[i] in packages
      {
        assert order[i] in packages.Keys;
      }
    }
    var remaining := packages.Keys;
    while remaining != {}
      invariant remaining <= packages.Keys
      invariant forall name :: name in packages && name !in remaining ==> PackageSound(packages, order, name)
    {
      var name :| name in remaining;
      var sound := ValidatePackage(packages, order, name);
      if sound.Err? {
        return sound;
      }
      remaining := remaining - {name};
    }
    return Ok(());
  }

  // ---- the staged closure ----

  /** A crate that must be staged because a staged crate depends on it, in any kind, and it is not yet published. */
  predicate Needs(packages: Workspace, available: Availability, name: string, dependency: string) {
    && name in packages && dependency in packages
    && (exists i :: 0 <= i < |packages[name].dependencies| && packages[name].dependencies[i].name == dependency)
    && !available(dependency, packages[dependency].version)
  }

  /** Holds the roots and everything its members need. */
  ghost predicate Closed(packages: Workspace, available: Availability, roots: seq<string>, s: set<string>) {
    && (forall i :: 0 <= i < |roots| ==> roots[i] in s)
    && forall a, b :: a in s && Needs(packages, available, a, b) ==> b in s
  }

  ghost predicate LeastClosed(packages: Workspace, available: Availability, roots: seq<string>, s: set<string>) {
    && Closed(packages, available, roots, s)
    && forall t :: Closed(packages, available, roots, t) ==> s <= t
  }

  /** The state of the walk: what is staged, what has been looked at, what is left to expand. */
  datatype Walk = Walk(selected: set<string>, checked: set<string>, pending: seq<string>)

  ghost predicate WalkInvariant(packages: Workspace, available: Availability, roots: seq<string>, w: Walk,
                                expanding: Option<string>) {
    && w.selected <= w.checked <= packages.Keys
    && (forall i :: 0 <= i < |roots| ==> roots[i] in w.selected)
    && (forall i :: 0 <= i < |w.pending| ==> w.pending[i] in w.selected)
    && (forall n :: n in w.checked && n !in w.selected ==> available(n, packages[n].version))
    && (forall a, b :: Needs(packages, available, a, b) && a in w.selected && a !in w.pending ==>
          Some(a) == expanding || b in w.selected)
    && (forall t :: Closed(packages, available, roots, t) ==> w.selected <= t)
  }

  function Look(packages: Workspace, available: Availability, w: Walk, name: string): Walk {
    if name !in packages || name in w.checked then w
    else if available(name, packages[name].version) then w.(checked := w.checked + {name})
    else Walk(w.selected + {name}, w.checked + {name}, w.pending + [name])
  }

  lemma LookKeeps(packages: Workspace, available: Availability, roots: seq<string>, w: Walk, current: string, i: nat)
    requires WalkInvariant(packages, available, roots, w, Some(current)) && current in w.selected
    requires i < |packages[current].dependencies|
    ensures WalkInvariant(packages, available, roots,
                          Look(packages, available, w, packages[current].dependencies[i].name), Some(current))
  {
    var name := packages[current].dependencies[i].name;
    if name in packages && name !in w.checked && !available(name, packages[name].version) {
      assert Needs(packages, available, current, name);
      var v := Look(packages, available, w, name);
      assert v.pending[|w.pending|] == name && forall k :: 0 <= k < |w.pending| ==> v.pending[k] == w.pending[k];
    }
  }

  /** Looks at every dependency of one crate. */
  method Expand(packages: Workspace, available: Availability, ghost roots: seq<string>, w: Walk, current: string)
    returns (v: Walk)
    requires WalkInvariant(packages, available, roots, w, Some(current)) && current in w.selected
    ensures WalkInvariant(packages, available, roots, v, None)
    ensures w.checked <= v.checked && (v.checked == w.checked ==> v.pending == w.pending)
  {
    v := w;
    var dependencies := packages[current].dependencies;
    for i := 0 to |dependencies|
      invariant WalkInvariant(packages, available, roots, v, Some(current)) && current in v.selected
      invariant w.checked <= v.checked && (v.checked == w.checked ==> v.pending == w.pending)
      invariant forall k :: 0 <= k < i && dependencies[k].name in packages ==> dependencies[k].name in v.checked
    {
      LookKeeps(packages, available, roots, v, current, i);
      ghost var before := v.checked;
      v := Look(packages, available, v, dependencies[i].name);
      assert before <= v.checked;
    }
    forall b | Needs(packages, available, current, b)
      ensures b in v.selected
    {
      assert b in v.checked;
    }
  }

  /** The filter that puts the staged crates in release order. */
  function InOrder(order: seq<string>, selected: set<string>): (s: seq<string>)
    ensures forall name :: name in s <==> name in order && name in selected
  {
    if order == [] then []
    else
      var front, last := order[..|order| - 1], order[|order| - 1];
      assert order == front + [last];
      if last in selected then InOrder(front, selected) + [last] else InOrder(front, selected)
  }

  lemma {:induction false} InOrderPrecedes(order: seq<string>, selected: set<string>, a: string, b: string)
    requires Precedes(order, a, b) && a in selected && b in selected
    ensures Precedes(InOrder(order, selected), a, b)
  {
    var front, last := order[..|order| - 1], order[|order| - 1];
    var i, j :| 0 <= i < j < |order| && order[i] == a && order[j] == b;
    assert a in front by {
      assert front[i] == a;
    }
    var before := InOrder(front, selected);
    if j < |front| {
      assert front[i] == a && front[j] == b;
      InOrderPrecedes(front, selected, a, b);
      var k, l :| 0 <= k < l < |before| && before[k] == a && before[l] == b;
      var all := InOrder(order, selected);
      assert all[k] == a && all[l] == b;
    } else {
      var k :| 0 <= k < |before| && before[k] == a;
      var all := InOrder(order, selected);
      assert all == before + [last];
      assert all[k] == a && all[|before|] == b;
    }
  }

  /** The walk, started from the roots. */
  method Staged(packages: Workspace, roots: seq<string>, available: Availability) returns (selected: set<string>)
    requires forall i :: 0 <= i < |roots| ==> roots[i] in packages
    ensures selected <= packages.Keys && LeastClosed(packages, available, roots, selected)
  {
    var start := set name | name in roots;
    var w := Walk(start, start, roots);
    while w.pending != []
      invariant WalkInvariant(packages, available, roots, w, None)
      decreases |packages.Keys - w.checked|, |w.pending|
    {
      w := Advance(packages, available, roots, w);
    }
    selected := w.selected;
  }

  /** Pops one crate and expands it; either something new was looked at, or the stack is shorter. */
  method Advance(packages: Workspace, available: Availability, ghost roots: seq<string>, w: Walk) returns (v: Walk)
    requires WalkInvariant(packages, available, roots, w, None) && w.pending != []
    ensures WalkInvariant(packages, available, roots, v, None)
    ensures |packages.Keys - v.checked| < |packages.Keys - w.checked| ||
            (v.checked == w.checked && |v.pending| < |w.pending|)
  {
    var current := w.pending[|w.pending| - 1];
    var popped := w.(pending := w.pending[..|w.pending| - 1]);
    PopKeeps(packages, available, roots, w);
    v := Expand(packages, available, roots, popped, current);
    if v.checked != w.checked {
      Shrinks(packages.Keys, w.checked, v.checked);
    }
  }

  lemma PopKeeps(packages: Workspace, available: Availability, roots: seq<string>, w: Walk)
    requires WalkInvariant(packages, available, roots, w, None) && w.pending != []
    ensures var current := w.pending[|w.pending| - 1];
            var popped := w.(pending := w.pending[..|w.pending| - 1]);
            current in w.selected && WalkInvariant(packages, available, roots, popped, Some(current))
  {
    var last := |w.pending| - 1;
    assert w.pending == w.pending[..last] + [w.pending[last]];
    assert w.pending[last] in w.selected;
  }

  lemma Shrinks(all: set<string>, fewer: set<string>, more: set<string>)
    requires fewer < more <= all
    ensures |all - more| < |all - fewer|
  {
    var x :| x in more && x !in fewer;
    assert all - more <= (all - fewer) - {x};
    Subset(all - more, (all - fewer) - {x});
  }

  lemma {:induction false} Subset(a: set<string>, b: set<string>)
    requires a <= b
    ensures |a| <= |b|
    decreases a
  {
    if a != {} {
      var x :| x in a;
      Subset(a - {x}, b - {x});
    }
  }

  /**
   * The staged list. Unknown roots are refused; otherwise the list holds the least set with the roots that is closed
   * under unpublished dependencies of every kind, filtered by the release order.
   */
  method ReleaseClosure(packages: Workspace, order: seq<string>, roots: seq<string>, available: Availability)
    returns (r: Result<seq<string>, ()>)
    ensures r.Err? <==> exists i :: 0 <= i < |roots| && roots[i] !in packages
    ensures r.Ok? ==> exists selected ::
              selected <= packages.Keys && LeastClosed(packages, available, roots, selected) &&
              r.value == InOrder(order, selected)
  {
    if exists i :: 0 <= i < |roots| && roots[i] !in packages {
      return Err(());
    }
    var selected := Staged(packages, roots, available);
    return Ok(InOrder(order, selected));
  }

  /**
   * Staging in the returned order never meets a missing dependency: under a sound order, every non-development
   * workspace dependency of a staged crate is already published or stands earlier in the list.
   */
  lemma StagedDependenciesFirst(packages: Workspace, order: seq<string>, roots: seq<string>, available: Availability,
                                selected: set<string>, name: string, i: nat)
    requires OrderSound(packages, order) && LeastClosed(packages, available, roots, selected)
    requires name in selected && name in packages && i < |packages[name].dependencies|
    requires packages[name].dependencies[i].kind != Dev && packages[name].dependencies[i].name in packages
    ensures var d := packages[name].dependencies[i].name;
            available(d, packages[d].version) || Precedes(InOrder(order, selected), d, name)
  {
    var d := packages[name].dependencies[i].name;
    if !available(d, packages[d].version) {
      assert Needs(packages, available, name, d);
      assert PackageSound(packages, order, name);
      assert DependencySound(packages, order, name, packages[name].dependencies[i]);
      InOrderPrecedes(order, selected, d, name);
    }
  }

  lemma ClosedAnyRoots(packages: Workspace, available: Availability, roots: seq<string>, roots': seq<string>,
                       t: set<string>)
    requires forall name :: name in roots <==> name in roots'
    requires Closed(packages, available, roots', t)
    ensures Closed(packages, available, roots, t)
  {
    forall i | 0 <= i < |roots|
      ensures roots[i] in t
    {
      assert roots[i] in roots && roots[i] in roots';
      var j :| 0 <= j < |roots'| && roots'[j] == roots[i];
    }
  }

  /** The same roots, listed in any way, close to the same least set. */
  lemma LeastAnyRoots(packages: Workspace, available: Availability, roots: seq<string>, roots': seq<string>,
                      a: set<string>, b: set<string>)
    requires forall name :: name in roots <==> name in roots'
    requires LeastClosed(packages, available, roots, a) && LeastClosed(packages, available, roots', b)
    ensures a == b
  {
    ClosedAnyRoots(packages, available, roots, roots', b);
    ClosedAnyRoots(packages, available, roots', roots, a);
    assert a <= b && b <= a;
  }

  /** Two runs over the same roots, whatever their order or repetition, stage the same list or are both refused. */
  method StageAnyRoots(packages: Workspace, order: seq<string>, roots: seq<string>, roots': seq<string>,
                       available: Availability)
    returns (r: Result<seq<string>, ()>, r': Result<seq<string>, ()>)
    requires forall name :: name in roots <==> name in roots'
    ensures r == r'
    ensures r.Err? <==> exists i :: 0 <= i < |roots| && roots[i] !in packages
  {
    r := ReleaseClosure(packages, order, roots, available);
    r' := ReleaseClosure(packages, order, roots', available);
    assert r.Err? <==> exists name :: name in roots && name !in packages;
    assert r'.Err? <==> exists name :: name in roots' && name !in packages;
    assert r.Err? ==> r.error == ();
    assert r'.Err? ==> r'.error == ();
    if r.Ok? && r'.Ok? {
      ghost var a :| a <= packages.Keys && LeastClosed(packages, available, roots, a) && r.value == InOrder(order, a);
      ghost var b :| b <= packages.Keys && LeastClosed(packages, available, roots', b) && r'.value == InOrder(order, b);
      LeastAnyRoots(packages, available, roots, roots', a, b);
    }
  }

  // ---- feature grammars ----

  type Features = map<string, seq<string>>

  predicate StartsWith(s: string, prefix: string) {
    |prefix| <= |s| && s[..|prefix|] == prefix
  }

  /** A weak dependency feature, written with a question mark before its slash. */
  predicate WeakSlash(s: string) {
    exists i :: 0 <= i < |s| - 1 && s[i] == '?' && s[i + 1] == '/'
  }

  predicate NeedsNewGrammar(value: string) {
    StartsWith(value, "dep:") || WeakSlash(value)
  }

  predicate Direct(values: seq<string>) {
    exists i :: 0 <= i < |values| && NeedsNewGrammar(values[i])
  }

  /** Names another feature rather than a dependency. */
  predicate Reference(value: string) {
    '/' !in value && !StartsWith(value, "dep:")
  }

  predicate Refers(values: seq<string>, modern: set<string>) {
    exists i :: 0 <= i < |values| && Reference(values[i]) && values[i] in modern
  }

  /** Holds every feature that needs the new grammar itself or names a held one. */
  ghost predicate ModernClosed(features: Features, s: set<string>) {
    forall name :: name in features && (Direct(features[name]) || Refers(features[name], s)) ==> name in s
  }

  ghost predicate LeastModern(features: Features, s: set<string>) {
    ModernClosed(features, s) && forall t :: ModernClosed(features, t) ==> s <= t
  }

  lemma RefersGrows(values: seq<string>, s: set<string>, t: set<string>)
    requires Refers(values, s) && s <= t
    ensures Refers(values, t)
  {
  }

  /** One pass over the features, adding to the modern set as it goes. */
  method Pass(features: Features, names: seq<string>, modern: set<string>) returns (grown: set<string>)
    requires forall i :: 0 <= i < |names| ==> names[i] in features
    requires modern <= features.Keys && forall t :: ModernClosed(features, t) ==> modern <= t
    ensures modern <= grown <= features.Keys && forall t :: ModernClosed(features, t) ==> grown <= t
    ensures grown == modern ==>
              forall i :: 0 <= i < |names| ==> Refers(features[names[i]], modern) ==> names[i] in modern
  {
    grown := modern;
    for i := 0 to |names|
      invariant modern <= grown <= features.Keys && forall t :: ModernClosed(features, t) ==> grown <= t
      invariant grown == modern ==>
                  forall k :: 0 <= k < i ==> Refers(features[names[k]], modern) ==> names[k] in modern
    {
      var name := names[i];
      if name !in grown && Refers(features[name], grown) {
        forall t | ModernClosed(features, t)
          ensures name in t
        {
          RefersGrows(features[name], grown, t);
        }
        grown := grown + {name};
      }
    }
  }

  /** Passes repeat until one adds nothing. */
  method ModernFeatures(features: Features, names: seq<string>) returns (modern: set<string>)
    requires forall name :: name in features <==> name in names
    ensures modern <= features.Keys && LeastModern(features, modern)
  {
    modern := set name | name in features && Direct(features[name]);
    var changed := true;
    while changed
      invariant modern <= features.Keys
      invariant forall t :: ModernClosed(features, t) ==> modern <= t
      invariant forall name :: name in features && Direct(features[name]) ==> name in modern
      invariant !changed ==> forall name :: name in features && Refers(features[name], modern) ==> name in modern
      decreases |features.Keys - modern|, changed
    {
      var grown := Pass(features, names, modern);
      changed := grown != modern;
      if changed {
        Shrinks(features.Keys, modern, grown);
      }
      modern := grown;
    }
  }

  /**
   * Splits features by grammar. Whatever order the names are visited in, the second part holds exactly the least set
   * closed under direct need and reference, and the two parts keep every feature with its values.
   */
  method SplitFeatures(features: Features, names: seq<string>) returns (plain: Features, modern: Features)
    requires forall name :: name in features <==> name in names
    ensures LeastModern(features, modern.Keys)
    ensures plain.Keys !! modern.Keys && plain + modern == features
    ensures forall name, i :: name in plain && 0 <= i < |plain[name]| ==>
              && !NeedsNewGrammar(plain[name][i])
              && (Reference(plain[name][i]) ==> plain[name][i] !in modern)
  {
    var held := ModernFeatures(features, names);
    plain := map name | name in features && name !in held :: features[name];
    modern := map name | name in features && name in held :: features[name];
    assert modern.Keys == held;
    forall name, i | name in plain && 0 <= i < |plain[name]|
      ensures !NeedsNewGrammar(plain[name][i]) && (Reference(plain[name][i]) ==> plain[name][i] !in modern)
    {
      OldStandsAlone(features, held, name, i);
    }
  }

  /** Two splits of the same features, visited in any order, are the same split. */
  method SplitAnyOrder(features: Features, names: seq<string>, names': seq<string>)
    returns (plain: Features, modern: Features, plain': Features, modern': Features)
    requires forall name :: name in features <==> name in names
    requires forall name :: name in features <==> name in names'
    ensures plain == plain' && modern == modern'
    ensures LeastModern(features, modern.Keys) && plain.Keys !! modern.Keys && plain + modern == features
  {
    plain, modern := SplitFeatures(features, names);
    plain', modern' := SplitFeatures(features, names');
    assert modern.Keys <= modern'.Keys && modern'.Keys <= modern.Keys;
    SplitDetermined(features, plain, modern);
    SplitDetermined(features, plain', modern');
  }

  /** The modern names settle both parts. */
  lemma SplitDetermined(features: Features, plain: Features, modern: Features)
    requires plain.Keys !! modern.Keys && plain + modern == features
    ensures modern == map name | name in features && name in modern.Keys :: features[name]
    ensures plain == map name | name in features && name !in modern.Keys :: features[name]
  {
    assert forall name :: name in modern ==> (plain + modern)[name] == modern[name];
    assert forall name :: name in plain ==> name in plain + modern && (plain + modern)[name] == plain[name];
    assert (plain + modern).Keys == plain.Keys + modern.Keys;
  }

  /** The features left in the old grammar use nothing of the new one. */
  lemma OldStandsAlone(features: Features, modern: set<string>, name: string, i: nat)
    requires LeastModern(features, modern) && name in features && name !in modern && i < |features[name]|
    ensures !NeedsNewGrammar(features[name][i])
    ensures Reference(features[name][i]) ==> features[name][i] !in modern
  {
    assert !Direct(features[name]) && !Refers(features[name], modern);
  }
}
