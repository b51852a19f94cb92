/**
 Exact source declarations of one artifact graph: which physical keys each logical role reads,
 rewritten as independently selected media companions replace components.
 */
module Sources {
  import opened Wrappers
  import opened Sequences
  import opened Sorting

  datatype CompanionRole = VisionTower | AudioTower | MediaProjector | Named(name: string)

  datatype ArtifactId = Primary | Companion(role: CompanionRole)

  function Rank(id: ArtifactId): nat {
    match id
    case Primary => 0
    case Companion(VisionTower) => 1
    case Companion(AudioTower) => 2
    case Companion(MediaProjector) => 3
    case Companion(Named(_)) => 4
  }

  /** The order identifiers are kept in. */
  predicate IdLeq(a: ArtifactId, b: ArtifactId) {
    Rank(a) < Rank(b) || (Rank(a) == Rank(b) && (Rank(a) == 4 ==> NameLeq(a.role.name, b.role.name)))
  }

  lemma IdOrder(a: ArtifactId, b: ArtifactId, c: ArtifactId)
    ensures IdLeq(a, b) || IdLeq(b, a)
    ensures IdLeq(a, b) && IdLeq(b, c) ==> IdLeq(a, c)
  {
    if Rank(a) == 4 && Rank(b) == 4 {
      NameTotal(a.role.name, b.role.name);
      if Rank(c) == 4 && IdLeq(a, b) && IdLeq(b, c) {
        NameTransitive(a.role.name, b.role.name, c.role.name);
      }
    }
  }

  datatype Role = Target | Prediction | Vision | Audio | Component(name: string)

  type Keys = set<string>

  /** Keys each logical role reads from each artifact. */
  datatype Roles = Roles(bindings: map<Role, map<ArtifactId, Keys>>) {
    predicate HasTarget() {
      Target in bindings
    }
  }

  /** Header of one tensor, as compared between sources. */
  datatype TensorMeta = TensorMeta(logicalShape: seq<nat>, physicalShape: seq<nat>, dtype: string, encodedLength: nat)

  /** Admitted shard files; a single payload file needs no per-tensor location. */
  datatype Shards = Shards(locations: Option<map<string, string>>, payloads: seq<string>) {
    function Location(key: string): Option<string> {
      if locations.Some? && key in locations.value then Some(locations.value[key])
      else if |payloads| == 1 then Some(payloads[0])
      else None
    }
  }

  datatype Preparation =
    | Safetensors(catalog: map<string, TensorMeta>, shards: Shards, keys: Keys)
    | MetadataOnly(keys: Keys)
    | Gguf(keys: Keys)

  /** Whether every listed key is the same tensor in the same file of both artifacts. */
  predicate ContainsSameSources(held: Preparation, other: Preparation, keys: Keys) {
    && held.Safetensors? && other.Safetensors?
    && forall key | key in keys ::
         && key in held.keys
         && key in held.catalog && key in other.catalog && held.catalog[key] == other.catalog[key]
         && held.shards.Location(key).Some?
         && held.shards.Location(key) == other.shards.Location(key)
  }

  // ---- one role's declaration ----

  /** A logical role now reads exactly these keys of this artifact. */
  datatype Declaration = Declaration(role: Role, id: ArtifactId, keys: Keys)

  predicate Bound(roles: Roles, role: Role, id: ArtifactId, key: string) {
    role in roles.bindings && id in roles.bindings[role] && key in roles.bindings[role][id]
  }

  function BindingOf(roles: Roles, role: Role): map<ArtifactId, Keys> {
    if role in roles.bindings then roles.bindings[role] else map[]
  }

  /** The target's keys once a role's previous binding has been withdrawn. */
  function Withdrawn(target: map<ArtifactId, Keys>, previous: map<ArtifactId, Keys>): map<ArtifactId, Keys> {
    map id | id in target :: if id in previous then target[id] - previous[id] else target[id]
  }

  function Extended(target: map<ArtifactId, Keys>, id: ArtifactId, keys: Keys): map<ArtifactId, Keys> {
    target[id := (if id in target then target[id] else {}) + keys]
  }

  /** Replaces a component and keeps the target's keys in step. */
  function Declare(roles: Roles, d: Declaration): Roles {
    var target := Extended(Withdrawn(BindingOf(roles, Target), BindingOf(roles, d.role)), d.id, d.keys);
    Roles(roles.bindings[d.role := map[d.id := d.keys]][Target := target])
  }

  lemma BoundAfter(roles: Roles, d: Declaration, role: Role, id: ArtifactId, key: string)
    requires d.role != Target
    ensures Bound(Declare(roles, d), role, id, key) <==>
            if role == Target
            then (id == d.id && key in d.keys) || (Bound(roles, Target, id, key) && !Bound(roles, d.role, id, key))
            else if role == d.role then id == d.id && key in d.keys
            else Bound(roles, role, id, key)
  {
  }

  /** The state after the first `n` declarations. */
  function Declared(roles: Roles, ds: seq<Declaration>, n: nat): Roles
    requires n <= |ds|
  {
    Fold(Declare, roles, ds[..n])
  }

  lemma DeclaredNone(roles: Roles, ds: seq<Declaration>)
    ensures Declared(roles, ds, 0) == roles
  {
  }

  lemma DeclaredNext(roles: Roles, ds: seq<Declaration>, n: nat)
    requires 0 < n <= |ds|
    ensures Declared(roles, ds, n) == Declare(Declared(roles, ds, n - 1), ds[n - 1])
  {
    assert ds[..n][..n - 1] == ds[..n - 1];
  }

  predicate Media(d: Declaration) {
    d.role == Vision || d.role == Audio
  }

  ghost predicate AllMedia(ds: seq<Declaration>) {
    forall i :: 0 <= i < |ds| ==> Media(ds[i])
  }

  /** The last of the first `n` declarations of a role. */
  function Latest(ds: seq<Declaration>, n: nat, role: Role): (i: Option<nat>)
    requires n <= |ds|
    ensures i.Some? ==> i.value < n && ds[i.value].role == role && forall j :: i.value < j < n ==> ds[j].role != role
    ensures i.None? ==> forall j :: 0 <= j < n ==> ds[j].role != role
  {
    if n == 0 then None else if ds[n - 1].role == role then Some(n - 1) else Latest(ds, n - 1, role)
  }

  lemma BindingAfter(roles: Roles, d: Declaration, role: Role)
    requires d.role != Target && role != Target
    ensures BindingOf(Declare(roles, d), role) == if role == d.role then map[d.id := d.keys] else BindingOf(roles, role)
  {
  }

  /** A role other than the target reads exactly its last declaration, or else its original binding. */
  lemma {:induction false} LastDeclarationWins(roles: Roles, ds: seq<Declaration>, n: nat, role: Role)
    requires n <= |ds| && AllMedia(ds) && role != Target
    ensures BindingOf(Declared(roles, ds, n), role) ==
            match Latest(ds, n, role)
            case Some(i) => map[ds[i].id := ds[i].keys]
            case None => BindingOf(roles, role)
  {
    if n == 0 {
      DeclaredNone(roles, ds);
    } else {
      DeclaredNext(roles, ds, n);
      LastDeclarationWins(roles, ds, n - 1, role);
      assert Media(ds[n - 1]);
      BindingAfter(Declared(roles, ds, n - 1), ds[n - 1], role);
    }
  }

  /** Declaration `j` withdraws a key that its own role was reading. */
  ghost predicate Withdraws(roles: Roles, ds: seq<Declaration>, j: nat, id: ArtifactId, key: string)
    requires j < |ds|
  {
    Bound(Declared(roles, ds, j), ds[j].role, id, key)
  }

  ghost predicate Adds(ds: seq<Declaration>, i: nat, id: ArtifactId, key: string)
    requires i < |ds|
  {
    ds[i].id == id && key in ds[i].keys
  }

  ghost predicate NeverWithdrawn(roles: Roles, ds: seq<Declaration>, from: nat, n: nat, id: ArtifactId, key: string)
    requires n <= |ds|
  {
    forall j :: from <= j < n ==> !Withdraws(roles, ds, j, id, key)
  }

  /** A key reaches the target exactly when something put it there and nothing later withdrew it. */
  ghost predicate Survives(roles: Roles, ds: seq<Declaration>, n: nat, id: ArtifactId, key: string)
    requires n <= |ds|
  {
    || (Bound(roles, Target, id, key) && NeverWithdrawn(roles, ds, 0, n, id, key))
    || exists i: nat :: i < n && Adds(ds, i, id, key) && NeverWithdrawn(roles, ds, i + 1, n, id, key)
  }

  lemma SurvivesStep(roles: Roles, ds: seq<Declaration>, n: nat, id: ArtifactId, key: string)
    requires n < |ds|
    ensures Survives(roles, ds, n + 1, id, key) <==>
            Adds(ds, n, id, key) || (Survives(roles, ds, n, id, key) && !Withdraws(roles, ds, n, id, key))
  {
    if Adds(ds, n, id, key) {
      assert NeverWithdrawn(roles, ds, n + 1, n + 1, id, key);
    }
    if i: nat :| i < n && Adds(ds, i, id, key) && NeverWithdrawn(roles, ds, i + 1, n, id, key) {
      if !Withdraws(roles, ds, n, id, key) {
        assert NeverWithdrawn(roles, ds, i + 1, n + 1, id, key);
      }
    }
    if i: nat :| i < n + 1 && Adds(ds, i, id, key) && NeverWithdrawn(roles, ds, i + 1, n + 1, id, key) {
      if i < n { assert NeverWithdrawn(roles, ds, i + 1, n, id, key); }
    }
  }

  lemma {:induction false} TargetExact(roles: Roles, ds: seq<Declaration>, n: nat, id: ArtifactId, key: string)
    requires n <= |ds| && AllMedia(ds)
    ensures Bound(Declared(roles, ds, n), Target, id, key) <==> Survives(roles, ds, n, id, key)
  {
    if n == 0 {
      DeclaredNone(roles, ds);
    } else {
      DeclaredNext(roles, ds, n);
      TargetExact(roles, ds, n - 1, id, key);
      assert Media(ds[n - 1]);
      BoundAfter(Declared(roles, ds, n - 1), ds[n - 1], Target, id, key);
      SurvivesStep(roles, ds, n - 1, id, key);
    }
  }

  // ---- roles stay inside the target ----

  predicate Consumed(role: Role) {
    role != Target && role != Prediction
  }

  /** Every executing role reads only keys the target also lists. */
  ghost predicate Inside(roles: Roles) {
    forall role, id, key :: Consumed(role) && Bound(roles, role, id, key) ==> Bound(roles, Target, id, key)
  }

  /** Withdrawing one role takes no key that another still reads, unless it is put back at once. */
  ghost predicate SparesOthers(roles: Roles, d: Declaration) {
    forall role, id, key ::
      (Consumed(role) && role != d.role && Bound(roles, role, id, key) && Bound(roles, d.role, id, key)) ==>
      id == d.id && key in d.keys
  }

  /** One declaration keeps every role inside the target exactly when it spares the others. */
  lemma InsideIffSpares(roles: Roles, d: Declaration)
    requires Media(d) && Inside(roles)
    ensures Inside(Declare(roles, d)) <==> SparesOthers(roles, d)
  {
    var after := Declare(roles, d);
    if SparesOthers(roles, d) {
      forall role, id, key | Consumed(role) && Bound(after, role, id, key)
        ensures Bound(after, Target, id, key)
      {
        BoundAfter(roles, d, role, id, key);
        BoundAfter(roles, d, Target, id, key);
      }
    }
    if Inside(after) {
      forall role, id, key |
        (Consumed(role) && role != d.role && Bound(roles, role, id, key) && Bound(roles, d.role, id, key))
        ensures id == d.id && key in d.keys
      {
        BoundAfter(roles, d, role, id, key);
        BoundAfter(roles, d, Target, id, key);
      }
    }
  }

  ghost predicate Shares(roles: Roles, left: Role, right: Role, id: ArtifactId, key: string) {
    Bound(roles, left, id, key) && Bound(roles, right, id, key)
  }

  /** Different roles read different keys of each artifact, originally and as declared. */
  ghost predicate Separate(roles: Roles, ds: seq<Declaration>) {
    && (forall left, right, id, key :: Consumed(left) && Consumed(right) && left != right ==>
          !Shares(roles, left, right, id, key))
    && (forall i, role, id, key :: 0 <= i < |ds| && Consumed(role) && role != ds[i].role && Adds(ds, i, id, key) ==>
          !Bound(roles, role, id, key))
    && (forall i, j, id, key :: 0 <= i < |ds| && 0 <= j < |ds| && ds[i].role != ds[j].role && Adds(ds, i, id, key) ==>
          !Adds(ds, j, id, key))
  }

  /** A binding comes from the original declarations or from one of the companions. */
  lemma {:induction false} BindingOrigin(roles: Roles, ds: seq<Declaration>, n: nat, role: Role, id: ArtifactId,
                                         key: string)
    requires n <= |ds| && AllMedia(ds) && role != Target
    requires Bound(Declared(roles, ds, n), role, id, key)
    ensures Bound(roles, role, id, key) || exists i :: 0 <= i < n && ds[i].role == role && Adds(ds, i, id, key)
  {
    if n == 0 {
      DeclaredNone(roles, ds);
    } else {
      DeclaredNext(roles, ds, n);
      assert Media(ds[n - 1]);
      BoundAfter(Declared(roles, ds, n - 1), ds[n - 1], role, id, key);
      if ds[n - 1].role == role {
        assert Adds(ds, n - 1, id, key);
      } else {
        BindingOrigin(roles, ds, n - 1, role, id, key);
      }
    }
  }

  lemma SeparateSpares(roles: Roles, ds: seq<Declaration>, n: nat)
    requires n < |ds| && AllMedia(ds) && Separate(roles, ds)
    ensures SparesOthers(Declared(roles, ds, n), ds[n])
  {
    var now := Declared(roles, ds, n);
    assert Media(ds[n]);
    forall role, id, key | Consumed(role) && role != ds[n].role && Bound(now, role, id, key)
      ensures !Bound(now, ds[n].role, id, key)
    {
      assert !Shares(roles, role, ds[n].role, id, key);
      BindingOrigin(roles, ds, n, role, id, key);
      if Bound(now, ds[n].role, id, key) {
        BindingOrigin(roles, ds, n, ds[n].role, id, key);
      }
    }
  }

  /** Over every list of companions with separate keys, each executing role stays inside the target. */
  lemma {:induction false} RolesStayInside(roles: Roles, ds: seq<Declaration>, n: nat)
    requires n <= |ds| && AllMedia(ds) && Separate(roles, ds) && Inside(roles)
    ensures Inside(Declared(roles, ds, n))
  {
    if n == 0 {
      DeclaredNone(roles, ds);
    } else {
      assert Media(ds[n - 1]);
      RolesStayInside(roles, ds, n - 1);
      SeparateSpares(roles, ds, n - 1);
      InsideNext(Declared(roles, ds, n - 1), ds[n - 1]);
      DeclaredNext(roles, ds, n);
    }
  }

  lemma {:induction false} InsideNext(now: Roles, d: Declaration)
    requires Media(d) && Inside(now) && SparesOthers(now, d)
    ensures Inside(Declare(now, d))
  {
    InsideIffSpares(now, d);
  }

  // ---- the declarations object ----

  /** An independently admitted media source and the roles it supplies. */
  datatype MediaCompanion = MediaCompanion(preparation: Preparation, roles: seq<(Role, Keys)>, intact: bool) {
    predicate Valid() {
      forall i :: 0 <= i < |roles| ==> roles[i].0 == Vision || roles[i].0 == Audio
    }

    /** The keys of its roles are keys of its own source. */
    predicate Sourced() {
      forall i :: 0 <= i < |roles| ==> roles[i].1 <= preparation.keys
    }

    /** Identity of a source that no admitted artifact already holds. */
    function OwnId(): ArtifactId {
      if exists i :: 0 <= i < |roles| && roles[i].0 == Vision then Companion(VisionTower) else Companion(AudioTower)
    }

    /** Its declarations, once bound to an artifact. */
    function Declarations(id: ArtifactId): (ds: seq<Declaration>)
      ensures |ds| == |roles| && forall i :: 0 <= i < |roles| ==> ds[i] == Declaration(roles[i].0, id, roles[i].1)
    {
      seq(|roles|, (i: nat) requires i < |roles| => Declaration(roles[i].0, id, roles[i].1))
    }
  }

  datatype SourceError = SourceChanged | OverlappingSources

  /** All companions' declarations, in order, for the artifacts they were bound to. */
  function AllDeclarations(companions: seq<MediaCompanion>, ids: seq<ArtifactId>): seq<Declaration>
    requires |ids| <= |companions|
  {
    if ids == [] then []
    else AllDeclarations(companions, ids[..|ids| - 1]) + companions[|ids| - 1].Declarations(ids[|ids| - 1])
  }

  /** Roles without their empty bindings. */
  function Pruned(roles: Roles): Roles {
    Roles(map role | role in roles.bindings ::
            map id | id in roles.bindings[role] && roles.bindings[role][id] != {} :: roles.bindings[role][id])
  }

  lemma PrunedBindsAlike(roles: Roles, role: Role, id: ArtifactId, key: string)
    ensures Bound(Pruned(roles), role, id, key) <==> Bound(roles, role, id, key)
  {
  }

  /** Every artifact a role refers to has been admitted, so binding finds it. */
  ghost predicate Admitted(artifacts: map<ArtifactId, Preparation>, roles: Roles) {
    forall role, id :: role in roles.bindings && id in roles.bindings[role] ==> id in artifacts
  }

  lemma DeclareAdmitted(artifacts: map<ArtifactId, Preparation>, roles: Roles, d: Declaration,
                        allowed: map<ArtifactId, Preparation>)
    requires Admitted(artifacts, roles) && artifacts.Keys <= allowed.Keys && d.id in allowed
    ensures Admitted(allowed, Declare(roles, d))
  {
  }

  /** The artifact already holds all of the companion's sources. */
  predicate HoldsSources(artifacts: map<ArtifactId, Preparation>, companion: MediaCompanion, id: ArtifactId) {
    id in artifacts && ContainsSameSources(artifacts[id], companion.preparation, companion.preparation.keys)
  }

  /** The artifact a companion is bound to: the first that holds its sources, else its own, not yet taken. */
  ghost predicate Chooses(artifacts: map<ArtifactId, Preparation>, companion: MediaCompanion, id: ArtifactId) {
    && companion.intact
    && (if exists other :: HoldsSources(artifacts, companion, other)
        then HoldsSources(artifacts, companion, id) &&
             forall other :: HoldsSources(artifacts, companion, other) ==> IdLeq(id, other)
        else id == companion.OwnId() && id !in artifacts)
  }

  /** Why a companion cannot be bound: it changed, or its own identity is taken and nothing holds its sources. */
  ghost predicate Stuck(artifacts: map<ArtifactId, Preparation>, companion: MediaCompanion, fault: SourceError) {
    match fault
    case SourceChanged => !companion.intact
    case OverlappingSources =>
      companion.intact && companion.OwnId() in artifacts &&
      forall other :: !HoldsSources(artifacts, companion, other)
  }

  /** The artifacts once a companion is bound: itself admitted, unless another holds its sources. */
  function Grown(artifacts: map<ArtifactId, Preparation>, companion: MediaCompanion, id: ArtifactId):
    map<ArtifactId, Preparation>
  {
    if id in artifacts then artifacts else artifacts[id := companion.preparation]
  }

  /** The artifacts after the first companions were bound to these. */
  function HeldAfter(artifacts: map<ArtifactId, Preparation>, companions: seq<MediaCompanion>, ids: seq<ArtifactId>):
    map<ArtifactId, Preparation>
    requires |ids| <= |companions|
  {
    if ids == [] then artifacts
    else
      var last := |ids| - 1;
      Grown(HeldAfter(artifacts, companions, ids[..last]), companions[last], ids[last])
  }

  /** Each companion in turn is bound to the artifact it must be. */
  ghost predicate AllChosen(artifacts: map<ArtifactId, Preparation>, companions: seq<MediaCompanion>,
                            ids: seq<ArtifactId>)
    requires |ids| <= |companions|
  {
    ids == [] ||
    var last := |ids| - 1;
    && AllChosen(artifacts, companions, ids[..last])
    && Chooses(HeldAfter(artifacts, companions, ids[..last]), companions[last], ids[last])
  }

  lemma {:induction false} AllChosenNext(artifacts: map<ArtifactId, Preparation>, companions: seq<MediaCompanion>,
                                         ids: seq<ArtifactId>, id: ArtifactId)
    requires |ids| < |companions| && AllChosen(artifacts, companions, ids)
    requires Chooses(HeldAfter(artifacts, companions, ids), companions[|ids|], id)
    ensures AllChosen(artifacts, companions, ids + [id])
    ensures HeldAfter(artifacts, companions, ids + [id]) ==
            Grown(HeldAfter(artifacts, companions, ids), companions[|ids|], id)
  {
    assert (ids + [id])[..|ids|] == ids;
  }

  /** A companion is bound to one artifact only, and never both bound and stuck. */
  lemma {:induction false} ChoiceUnique(artifacts: map<ArtifactId, Preparation>, companion: MediaCompanion,
                                        a: ArtifactId, b: ArtifactId)
    requires Chooses(artifacts, companion, a)
    ensures Chooses(artifacts, companion, b) ==> a == b
    ensures forall fault :: !Stuck(artifacts, companion, fault)
  {
    if Chooses(artifacts, companion, b) && exists other :: HoldsSources(artifacts, companion, other) {
      assert IdLeq(a, b) && IdLeq(b, a);
      if Rank(a) == 4 {
        NameTotal(a.role.name, b.role.name);
      }
    }
  }

  lemma {:induction false} AllChosenPrefix(artifacts: map<ArtifactId, Preparation>, companions: seq<MediaCompanion>,
                                           ids: seq<ArtifactId>, n: nat)
    requires n <= |ids| <= |companions| && AllChosen(artifacts, companions, ids)
    ensures AllChosen(artifacts, companions, ids[..n])
  {
    if n == |ids| {
      assert ids[..n] == ids;
    } else {
      var front := ids[..|ids| - 1];
      assert front[..n] == ids[..n];
      AllChosenPrefix(artifacts, companions, front, n);
    }
  }

  /** The artifacts a list of companions is bound to are settled by what was held at the start. */
  lemma {:induction false} ChoicesUnique(artifacts: map<ArtifactId, Preparation>, companions: seq<MediaCompanion>,
                                         ids: seq<ArtifactId>, ids': seq<ArtifactId>)
    requires |ids| == |ids'| <= |companions|
    requires AllChosen(artifacts, companions, ids) && AllChosen(artifacts, companions, ids')
    ensures ids == ids'
  {
    if ids != [] {
      var last := |ids| - 1;
      assert ids == ids[..last] + [ids[last]] && ids' == ids'[..last] + [ids'[last]];
      ChoicesUnique(artifacts, companions, ids[..last], ids'[..last]);
      ChoiceUnique(HeldAfter(artifacts, companions, ids[..last]), companions[last], ids[last], ids'[last]);
    }
  }

  /** The rewrite faults at one companion only: none before the stuck one, and none after it is bound. */
  lemma {:induction false} FaultSettled(artifacts: map<ArtifactId, Preparation>, companions: seq<MediaCompanion>,
                                        ids: seq<ArtifactId>, fault: SourceError, ids': seq<ArtifactId>)
    requires |ids| < |companions| && AllChosen(artifacts, companions, ids)
    requires Stuck(HeldAfter(artifacts, companions, ids), companions[|ids|], fault)
    requires |ids'| <= |companions| && AllChosen(artifacts, companions, ids')
    ensures |ids'| <= |ids|
  {
    var n := |ids|;
    if n < |ids'| {
      AllChosenPrefix(artifacts, companions, ids', n + 1);
      assert ids'[..n + 1][..n] == ids'[..n];
      ChoicesUnique(artifacts, companions, ids, ids'[..n]);
      ChoiceUnique(HeldAfter(artifacts, companions, ids), companions[n], ids'[n], ids'[n]);
    }
  }

  /** The roles after binding the first companions to these artifacts. */
  ghost predicate Applied(original: Roles, companions: seq<MediaCompanion>, ids: seq<ArtifactId>, roles: Roles)
    requires |ids| <= |companions|
  {
    var ds := AllDeclarations(companions, ids);
    roles == Declared(original, ds, |ds|)
  }

  lemma AppliedNone(original: Roles, companions: seq<MediaCompanion>)
    ensures Applied(original, companions, [], original)
  {
  }

  lemma AppliedNext(original: Roles, companions: seq<MediaCompanion>, ids: seq<ArtifactId>, id: ArtifactId,
                    before: Roles)
    requires |ids| < |companions| && Applied(original, companions, ids, before)
    ensures Applied(original, companions, ids + [id],
                    Declared(before, companions[|ids|].Declarations(id), |companions[|ids|].roles|))
  {
    var a, b := AllDeclarations(companions, ids), companions[|ids|].Declarations(id);
    FoldJoined(Declare, original, a, b);
    assert (ids + [id])[..|ids|] == ids;
    assert AllDeclarations(companions, ids + [id]) == a + b;
    assert a[..|a|] == a && b[..|b|] == b && (a + b)[..|a + b|] == a + b;
  }

  lemma {:induction false} DeclarationsAreMedia(companions: seq<MediaCompanion>, ids: seq<ArtifactId>)
    requires |ids| <= |companions| && forall i :: 0 <= i < |companions| ==> companions[i].Valid()
    ensures AllMedia(AllDeclarations(companions, ids))
  {
    if ids != [] {
      DeclarationsAreMedia(companions, ids[..|ids| - 1]);
      assert companions[|ids| - 1].Valid();
    }
  }

  /**
   After every companion is applied and empty bindings are dropped: roles stay inside the target,
   a companion role reads its last declarer's keys, and the target keeps exactly the surviving keys.
   */
  lemma CompanionRewrite(original: Roles, companions: seq<MediaCompanion>, ids: seq<ArtifactId>, bound: Roles)
    requires |ids| == |companions| && forall i :: 0 <= i < |companions| ==> companions[i].Valid()
    requires Applied(original, companions, ids, bound) && Inside(original)
    requires Separate(original, AllDeclarations(companions, ids))
    ensures Inside(Pruned(bound))
    ensures forall role, id, key :: role != Target ==>
              var ds := AllDeclarations(companions, ids);
              Bound(Pruned(bound), role, id, key) <==>
              match Latest(ds, |ds|, role)
              case Some(i) => Adds(ds, i, id, key)
              case None => Bound(original, role, id, key)
    ensures forall id, key ::
              var ds := AllDeclarations(companions, ids);
              Bound(Pruned(bound), Target, id, key) <==> Survives(original, ds, |ds|, id, key)
  {
    var ds := AllDeclarations(companions, ids);
    DeclarationsAreMedia(companions, ids);
    RolesStayInside(original, ds, |ds|);
    forall role, id, key
      ensures Bound(Pruned(bound), role, id, key) <==> Bound(bound, role, id, key)
    {
      PrunedBindsAlike(bound, role, id, key);
    }
    forall role, id, key | role != Target
      ensures Bound(bound, role, id, key) <==>
              match Latest(ds, |ds|, role)
              case Some(i) => Adds(ds, i, id, key)
              case None => Bound(original, role, id, key)
    {
      LastDeclarationWins(original, ds, |ds|, role);
      BindingBound(bound, role, id, key);
      BindingBound(original, role, id, key);
    }
    forall id, key
      ensures Bound(bound, Target, id, key) <==> Survives(original, ds, |ds|, id, key)
    {
      TargetExact(original, ds, |ds|, id, key);
    }
  }

  lemma BindingBound(roles: Roles, role: Role, id: ArtifactId, key: string)
    ensures Bound(roles, role, id, key) <==> id in BindingOf(roles, role) && key in BindingOf(roles, role)[id]
  {
  }

  lemma PrunedAdmitted(artifacts: map<ArtifactId, Preparation>, roles: Roles)
    requires roles.HasTarget() && Admitted(artifacts, roles)
    ensures Pruned(roles).HasTarget() && Admitted(artifacts, Pruned(roles))
  {
  }

  // ---- bound keys stay inside their artifacts ----

  /** Every key a role is bound to is held by the artifact it is bound to. */
  ghost predicate KeysHeld(artifacts: map<ArtifactId, Preparation>, roles: Roles) {
    forall role, id, key :: Bound(roles, role, id, key) ==> id in artifacts && key in artifacts[id].keys
  }

  predicate DeclarationHeld(artifacts: map<ArtifactId, Preparation>, d: Declaration) {
    d.id in artifacts && d.keys <= artifacts[d.id].keys
  }

  lemma {:induction false} DeclareHeld(artifacts: map<ArtifactId, Preparation>, roles: Roles, d: Declaration)
    requires d.role != Target && KeysHeld(artifacts, roles) && DeclarationHeld(artifacts, d)
    ensures KeysHeld(artifacts, Declare(roles, d))
  {
    forall role, id, key | Bound(Declare(roles, d), role, id, key)
      ensures id in artifacts && key in artifacts[id].keys
    {
      BoundAfter(roles, d, role, id, key);
    }
  }

  lemma {:induction false} DeclaredHeld(artifacts: map<ArtifactId, Preparation>, roles: Roles,
                                        ds: seq<Declaration>, n: nat)
    requires n <= |ds| && AllMedia(ds) && KeysHeld(artifacts, roles)
    requires forall i :: 0 <= i < n ==> DeclarationHeld(artifacts, ds[i])
    ensures KeysHeld(artifacts, Declared(roles, ds, n))
  {
    if n == 0 {
      DeclaredNone(roles, ds);
    } else {
      DeclaredHeld(artifacts, roles, ds, n - 1);
      assert Media(ds[n - 1]);
      DeclareHeld(artifacts, Declared(roles, ds, n - 1), ds[n - 1]);
      DeclaredNext(roles, ds, n);
    }
  }

  /** A bound companion's source is inside its artifact, and nothing admitted before is changed. */
  lemma {:induction false} ChosenHolds(artifacts: map<ArtifactId, Preparation>, companion: MediaCompanion,
                                       id: ArtifactId)
    requires Chooses(artifacts, companion, id)
    ensures var grown := Grown(artifacts, companion, id);
            && id in grown && companion.preparation.keys <= grown[id].keys
            && forall other :: other in artifacts ==> other in grown && grown[other] == artifacts[other]
  {
    if HoldsSources(artifacts, companion, id) {
      assert forall key :: key in companion.preparation.keys ==> key in artifacts[id].keys;
    }
  }

  lemma {:induction false} GrownHeld(artifacts: map<ArtifactId, Preparation>, companion: MediaCompanion,
                                     id: ArtifactId, roles: Roles)
    requires Chooses(artifacts, companion, id) && companion.Valid() && companion.Sourced()
    requires KeysHeld(artifacts, roles)
    ensures KeysHeld(Grown(artifacts, companion, id),
                     Declared(roles, companion.Declarations(id), |companion.roles|))
  {
    var grown, ds := Grown(artifacts, companion, id), companion.Declarations(id);
    ChosenHolds(artifacts, companion, id);
    assert AllMedia(ds) by {
      forall i | 0 <= i < |ds|
        ensures Media(ds[i])
      {
      }
    }
    DeclaredHeld(grown, roles, ds, |ds|);
  }

  /** Over the whole rewrite every bound key stays inside its artifact. */
  lemma {:induction false} RewriteHeld(artifacts: map<ArtifactId, Preparation>, companions: seq<MediaCompanion>,
                                       ids: seq<ArtifactId>, original: Roles, bound: Roles)
    requires |ids| <= |companions| && AllChosen(artifacts, companions, ids)
    requires forall i :: 0 <= i < |companions| ==> companions[i].Valid() && companions[i].Sourced()
    requires KeysHeld(artifacts, original) && Applied(original, companions, ids, bound)
    ensures KeysHeld(HeldAfter(artifacts, companions, ids), bound)
  {
    if ids != [] {
      var last := |ids| - 1;
      var front := ids[..last];
      var ds := AllDeclarations(companions, front);
      var before := Declared(original, ds, |ds|);
      assert ids == front + [ids[last]];
      RewriteHeld(artifacts, companions, front, original, before);
      GrownHeld(HeldAfter(artifacts, companions, front), companions[last], ids[last], before);
      AppliedNext(original, companions, front, ids[last], before);
    } else {
      AppliedNone(original, companions);
    }
  }

  lemma {:induction false} PrunedHeld(artifacts: map<ArtifactId, Preparation>, roles: Roles)
    requires KeysHeld(artifacts, roles)
    ensures KeysHeld(artifacts, Pruned(roles))
  {
    forall role, id, key | Bound(Pruned(roles), role, id, key)
      ensures id in artifacts && key in artifacts[id].keys
    {
      PrunedBindsAlike(roles, role, id, key);
    }
  }

  /** A role reads at least one key, and each of its keys from one artifact. */
  ghost predicate Served(roles: Roles, role: Role) {
    (exists id, key :: Bound(roles, role, id, key)) && ReadOnce(roles, role)
  }

  /** Each key a role reads comes from one artifact. */
  ghost predicate ReadOnce(roles: Roles, role: Role) {
    forall a, b, key :: Bound(roles, role, a, key) && Bound(roles, role, b, key) ==> a == b
  }

  /**
   * A declaration leaves the target reading each key once exactly when no key it adds survives in another artifact:
   * the component it replaces must have been the only reader there.
   */
  lemma {:induction false} TargetOnceIff(roles: Roles, d: Declaration)
    requires Media(d) && ReadOnce(roles, Target)
    ensures ReadOnce(Declare(roles, d), Target) <==>
            forall id, key :: id != d.id && key in d.keys && Bound(roles, Target, id, key) ==>
              Bound(roles, d.role, id, key)
  {
    var after := Declare(roles, d);
    if ReadOnce(after, Target) {
      forall id, key | id != d.id && key in d.keys && Bound(roles, Target, id, key)
        ensures Bound(roles, d.role, id, key)
      {
        BoundAfter(roles, d, Target, id, key);
        BoundAfter(roles, d, Target, d.id, key);
        assert Bound(after, Target, d.id, key);
      }
    }
    if forall id, key ::
         id != d.id && key in d.keys && Bound(roles, Target, id, key) ==> Bound(roles, d.role, id, key) {
      forall a, b, key | Bound(after, Target, a, key) && Bound(after, Target, b, key)
        ensures a == b
      {
        BoundAfter(roles, d, Target, a, key);
        BoundAfter(roles, d, Target, b, key);
      }
    }
  }

  /** Without empty bindings, a role whose keys are held can be bound exactly when it is served. */
  lemma {:induction false} BindableIffServed(artifacts: map<ArtifactId, Preparation>, roles: Roles, role: Role)
    requires KeysHeld(artifacts, Pruned(roles)) && role in roles.bindings
    ensures Bindable(artifacts, Pruned(roles).bindings[role]) <==> Served(Pruned(roles), role)
  {
    var pruned := Pruned(roles);
    var declarations := pruned.bindings[role];
    forall id | id in declarations
      ensures id in artifacts && declarations[id] <= artifacts[id].keys
    {
      var key :| key in declarations[id];
      assert Bound(pruned, role, id, key);
      assert forall k :: k in declarations[id] ==> Bound(pruned, role, id, k);
    }
    assert declarations != map[] <==> exists id, key :: Bound(pruned, role, id, key) by {
      if declarations != map[] {
        var id :| id in declarations;
        var key :| key in declarations[id];
        assert Bound(pruned, role, id, key);
      }
    }
    SeparateIffOnce(pruned, role);
  }

  lemma {:induction false} SeparateIffOnce(roles: Roles, role: Role)
    requires role in roles.bindings
    ensures var declarations := roles.bindings[role];
            (forall a, b :: a in declarations && b in declarations && a != b ==> declarations[a] !! declarations[b])
            <==> ReadOnce(roles, role)
  {
    var declarations := roles.bindings[role];
    if ReadOnce(roles, role) {
      forall a, b | a in declarations && b in declarations && a != b
        ensures declarations[a] !! declarations[b]
      {
        forall key | key in declarations[a]
          ensures key !in declarations[b]
        {
          assert Bound(roles, role, a, key);
          assert Bound(roles, role, b, key) ==> a == b;
        }
      }
    }
  }

  class SourceDeclarations {
    var artifacts: map<ArtifactId, Preparation>
    var roles: Roles

    ghost predicate Valid()
      reads this
    {
      roles.HasTarget() && Admitted(artifacts, roles)
    }

    constructor (artifacts: map<ArtifactId, Preparation>, roles: Roles)
      ensures this.artifacts == artifacts && this.roles == roles
    {
      this.artifacts, this.roles := artifacts, roles;
    }

    /** Removes a replaced component's keys from the target, one artifact at a time. */
    method Withdraw(target: map<ArtifactId, Keys>, previous: map<ArtifactId, Keys>)
      returns (remaining: map<ArtifactId, Keys>)
      ensures remaining == Withdrawn(target, previous)
    {
      var todo := previous.Keys;
      remaining := target;
      while todo != {}
        invariant todo <= previous.Keys
        invariant remaining ==
                  map id | id in target ::
                    if id in previous && id !in todo then target[id] - previous[id] else target[id]
        decreases todo
      {
        var physical :| physical in todo;
        if physical in remaining {
          var active := set key | key in remaining[physical] && key !in previous[physical];
          assert active == target[physical] - previous[physical];
          remaining := remaining[physical := active];
        }
        todo := todo - {physical};
      }
      assert remaining == Withdrawn(target, previous);
    }

    /** Replaces one logical component. */
    method DeclareRole(role: Role, id: ArtifactId, keys: Keys)
      requires roles.HasTarget() && role != Target
      modifies this`roles
      ensures roles == Declare(old(roles), Declaration(role, id, keys))
    {
      var target := roles.bindings[Target];
      var remaining := Withdraw(target, BindingOf(roles, role));
      roles := Roles(roles.bindings[role := map[id := keys]][Target := Extended(remaining, id, keys)]);
    }

    /** The first admitted artifact that already holds all of a companion's sources. */
    method FindExisting(preparation: Preparation) returns (existing: Option<ArtifactId>)
      ensures existing.Some? ==> existing.value in artifacts
      ensures existing.Some? ==> ContainsSameSources(artifacts[existing.value], preparation, preparation.keys)
      ensures existing.Some? ==>
                forall id :: id in artifacts && Holds(preparation, id) ==> IdLeq(existing.value, id)
      ensures existing.None? ==> forall id :: id in artifacts ==>
                !ContainsSameSources(artifacts[id], preparation, preparation.keys)
    {
      existing := None;
      var todo := artifacts.Keys;
      while todo != {}
        invariant todo <= artifacts.Keys
        invariant existing.Some? ==> existing.value in artifacts && Holds(preparation, existing.value)
        invariant forall id :: id in artifacts && id !in todo && Holds(preparation, id) ==>
                    existing.Some? && IdLeq(existing.value, id)
        decreases todo
      {
        var id :| id in todo;
        if ContainsSameSources(artifacts[id], preparation, preparation.keys) {
          IdOrder(id, id, id);
          if existing.None? || IdLeq(id, existing.value) {
            forall other | other in artifacts && existing.Some? && IdLeq(existing.value, other)
              ensures IdLeq(id, other)
            {
              IdOrder(id, existing.value, other);
            }
            existing := Some(id);
          } else {
            IdOrder(id, existing.value, id);
          }
        }
        todo := todo - {id};
      }
    }

    predicate Holds(preparation: Preparation, id: ArtifactId)
      requires id in artifacts
      reads this
    {
      ContainsSameSources(artifacts[id], preparation, preparation.keys)
    }

    /** Binds one companion to an artifact and declares each of its roles. */
    method AddCompanion(companion: MediaCompanion) returns (fault: Option<SourceError>, id: ArtifactId)
      requires Valid() && companion.Valid()
      modifies this
      ensures fault.Some? ==> Stuck(old(artifacts), companion, fault.value)
      ensures fault.None? ==> Chooses(old(artifacts), companion, id)
      ensures fault.None? ==> Valid() && id in artifacts && artifacts == Grown(old(artifacts), companion, id)
      ensures fault.None? ==> roles == Declared(old(roles), companion.Declarations(id), |companion.roles|)
    {
      id := companion.OwnId();
      if !companion.intact {
        return Some(SourceChanged), id;
      }
      var existing := FindExisting(companion.preparation);
      assert forall other :: HoldsSources(artifacts, companion, other) <==>
               other in artifacts && Holds(companion.preparation, other);
      if existing.Some? {
        id := existing.value;
        assert HoldsSources(artifacts, companion, id);
      }
      ghost var ds := companion.Declarations(id);
      ghost var allowed := artifacts[id := companion.preparation];
      for i := 0 to |companion.roles|
        invariant artifacts == old(artifacts) && roles.HasTarget()
        invariant roles == Declared(old(roles), ds, i) && Admitted(allowed, roles)
      {
        DeclareAdmitted(allowed, roles, ds[i], allowed);
        DeclaredNext(old(roles), ds, i + 1);
        DeclareRole(companion.roles[i].0, id, companion.roles[i].1);
      }
      if existing.None? {
        if id in artifacts {
          return Some(OverlappingSources), id;
        }
        artifacts := artifacts[id := companion.preparation];
      }
      assert artifacts.Keys == allowed.Keys;
      fault := None;
    }

    /**
     * Applies every companion in order, then drops empty bindings. Each is bound to the artifact it must be; the first
     * that cannot be bound ends the rewrite with its fault.
     */
    method AddCompanions(companions: seq<MediaCompanion>)
      returns (fault: Option<SourceError>, ghost ids: seq<ArtifactId>)
      requires Valid() && forall i :: 0 <= i < |companions| ==> companions[i].Valid()
      modifies this
      ensures |ids| <= |companions| && AllChosen(old(artifacts), companions, ids)
      ensures fault.None? <==> |ids| == |companions|
      ensures fault.Some? ==> Stuck(HeldAfter(old(artifacts), companions, ids), companions[|ids|], fault.value)
      ensures fault.None? ==> Valid() && artifacts == HeldAfter(old(artifacts), companions, ids)
      ensures fault.None? ==> exists bound :: Applied(old(roles), companions, ids, bound) && roles == Pruned(bound)
    {
      ids := [];
      AppliedNone(roles, companions);
      for i := 0 to |companions|
        invariant Valid() && |ids| == i && Applied(old(roles), companions, ids, roles)
        invariant AllChosen(old(artifacts), companions, ids)
        invariant artifacts == HeldAfter(old(artifacts), companions, ids)
      {
        ghost var before := roles;
        var id;
        fault, id := AddCompanion(companions[i]);
        if fault.Some? {
          return;
        }
        AppliedNext(old(roles), companions, ids, id, before);
        AllChosenNext(old(artifacts), companions, ids, id);
        ids := ids + [id];
      }
      PrunedAdmitted(artifacts, roles);
      roles := Pruned(roles);
      fault := None;
    }

    /** Opens one role's view of an artifact: all of it, or the listed keys, which it must hold. */
    method OpenView(id: ArtifactId, keys: Keys) returns (r: Result<View, BindError>)
      ensures r == Err(Unadmitted) <==> id !in artifacts
      ensures r.Err? ==> r.error in {Unadmitted, UnknownTensor}
      ensures r.Ok? <==> id in artifacts && keys <= artifacts[id].keys
      ensures r.Ok? ==> r.value == ViewOf(artifacts[id], id, keys)
    {
      if id !in artifacts {
        return Err(Unadmitted);
      }
      if artifacts[id].keys == keys {
        return Ok(Whole(id));
      }
      var todo := keys;
      while todo != {}
        invariant todo <= keys && forall key :: key in keys && key !in todo ==> key in artifacts[id].keys
      {
        var key :| key in todo;
        if key !in artifacts[id].keys {
          return Err(UnknownTensor);
        }
        todo := todo - {key};
      }
      return Ok(Part(id, keys));
    }

    /** Opens every view of one role. */
    method OpenViews(declarations: map<ArtifactId, Keys>) returns (r: Result<map<ArtifactId, View>, BindError>)
      ensures r == Err(Unadmitted) ==> exists id :: id in declarations && id !in artifacts
      ensures r == Err(UnknownTensor) ==> Unheld(artifacts, declarations)
      ensures r.Err? ==> r.error in {Unadmitted, UnknownTensor}
      ensures r.Ok? <==> forall id :: id in declarations ==> id in artifacts && declarations[id] <= artifacts[id].keys
      ensures r.Ok? ==> r.value.Keys == declarations.Keys
      ensures r.Ok? ==> forall id :: id in declarations && id in artifacts ==>
                          r.value[id] == ViewOf(artifacts[id], id, declarations[id])
    {
      var views: map<ArtifactId, View> := map[];
      var todo := declarations.Keys;
      while todo != {}
        invariant todo <= declarations.Keys && views.Keys == declarations.Keys - todo
        invariant forall id :: id in views ==> id in artifacts && declarations[id] <= artifacts[id].keys
        invariant forall id :: id in views ==> views[id] == ViewOf(artifacts[id], id, declarations[id])
      {
        var id :| id in todo;
        var view := OpenView(id, declarations[id]);
        if view.Err? {
          return Err(view.error);
        }
        views := views[id := view.value];
        todo := todo - {id};
      }
      return Ok(views);
    }

    /** Opens one role's views and, as a composite does, gives every key its one artifact. */
    method BindRole(declarations: map<ArtifactId, Keys>) returns (r: Result<RoleView, BindError>)
      ensures r == Err(Unadmitted) ==> exists id :: id in declarations && id !in artifacts
      ensures r == Err(UnknownTensor) ==> Unheld(artifacts, declarations)
      ensures r.Err? ==> r.error != Unopenable
      ensures r.Ok? <==> Bindable(artifacts, declarations)
      ensures r.Ok? ==> ViewsDeclared(artifacts, declarations, r.value)
    {
      var views := OpenViews(declarations);
      if views.Err? {
        return Err(views.error);
      }
      if declarations == map[] {
        return Err(EmptyRole);
      }
      var owners: map<string, ArtifactId> := map[];
      var todo := declarations.Keys;
      while todo != {}
        invariant todo <= declarations.Keys && OwnersOf(declarations, declarations.Keys - todo, owners)
      {
        var id :| id in todo;
        var claimed := ClaimKeys(owners, id, declarations[id]);
        if claimed.None? {
          SharedKey(declarations, declarations.Keys - todo, owners, id);
          return Err(AmbiguousKey);
        }
        OwnersGrow(declarations, declarations.Keys - todo, owners, id);
        assert declarations.Keys - (todo - {id}) == (declarations.Keys - todo) + {id};
        owners := claimed.value;
        todo := todo - {id};
      }
      assert declarations.Keys - todo == declarations.Keys;
      OwnersSeparate(declarations, owners);
      return Ok(RoleView(views.value, owners));
    }

    /**
     * Binds every role. It succeeds exactly when each artifact can be opened and each role's declarations can be
     * bound; then a role resolves a key to an artifact exactly when it is declared to.
     */
    method Bind() returns (r: Result<map<Role, RoleView>, BindError>)
      ensures r.Ok? <==> Openable(artifacts) &&
                         forall role :: role in roles.bindings ==> Bindable(artifacts, roles.bindings[role])
      ensures r == Err(Unadmitted) ==> !Admitted(artifacts, roles)
      ensures r == Err(UnknownTensor) ==> !KeysHeld(artifacts, roles)
      ensures r == Err(Unopenable) <==> !Openable(artifacts)
      ensures r.Ok? ==> r.value.Keys == roles.bindings.Keys
      ensures r.Ok? ==> forall role :: role in roles.bindings ==>
                          ViewsDeclared(artifacts, roles.bindings[role], r.value[role])
      ensures r.Ok? ==> forall role, id, key :: role in roles.bindings ==>
                          (r.value[role].Resolves(key, id) <==> Bound(roles, role, id, key))
    {
      if exists id :: id in artifacts && artifacts[id].MetadataOnly? {
        return Err(Unopenable);
      }
      var views: map<Role, RoleView> := map[];
      var todo := roles.bindings.Keys;
      while todo != {}
        invariant todo <= roles.bindings.Keys && views.Keys == roles.bindings.Keys - todo
        invariant AllViews(artifacts, roles.bindings, views)
      {
        var role :| role in todo;
        var view := BindRole(roles.bindings[role]);
        if view.Err? {
          if view.error == UnknownTensor {
            UnheldKey(artifacts, roles, role);
          }
          return Err(view.error);
        }
        AllViewsNext(artifacts, roles.bindings, views, role, view.value);
        views := views[role := view.value];
        todo := todo - {role};
      }
      ViewsResolve(artifacts, roles, views);
      return Ok(views);
    }

    /**
     * The rewrite, then the binding. When the original keys are held by their artifacts and each companion's roles by
     * its own source, every bound key stays inside its artifact; then binding succeeds exactly when every artifact
     * opens and every role still reads some key and no key from two artifacts.
     */
    method RewriteAndBind(companions: seq<MediaCompanion>)
      returns (r: Result<map<Role, RoleView>, StartError>, ghost ids: seq<ArtifactId>)
      requires Valid() && forall i :: 0 <= i < |companions| ==> companions[i].Valid()
      modifies this
      ensures |ids| <= |companions| && AllChosen(old(artifacts), companions, ids)
      ensures (r.Err? && r.error.Rewriting?) <==> |ids| < |companions|
      ensures |ids| < |companions| ==>
                Stuck(HeldAfter(old(artifacts), companions, ids), companions[|ids|], r.error.fault)
      ensures |ids| == |companions| ==> artifacts == HeldAfter(old(artifacts), companions, ids)
      ensures |ids| == |companions| ==>
                exists bound :: Applied(old(roles), companions, ids, bound) && roles == Pruned(bound)
      ensures r != Err(Binding(Unadmitted))
      ensures r.Ok? ==> r.value.Keys == roles.bindings.Keys
      ensures r.Ok? ==> forall role, id, key :: role in roles.bindings ==>
                          (r.value[role].Resolves(key, id) <==> Bound(roles, role, id, key))
      ensures (|ids| == |companions| && KeysHeld(old(artifacts), old(roles)) &&
               forall i :: 0 <= i < |companions| ==> companions[i].Sourced()) ==>
                && KeysHeld(artifacts, roles) && r != Err(Binding(UnknownTensor))
                && (r.Ok? <==> Openable(artifacts) && forall role :: role in roles.bindings ==> Served(roles, role))
    {
      var fault;
      fault, ids := AddCompanions(companions);
      if fault.Some? {
        return Err(Rewriting(fault.value)), ids;
      }
      ghost var bound :| Applied(old(roles), companions, ids, bound) && roles == Pruned(bound);
      if KeysHeld(old(artifacts), old(roles)) && forall i :: 0 <= i < |companions| ==> companions[i].Sourced() {
        RewriteHeld(old(artifacts), companions, ids, old(roles), bound);
        PrunedHeld(artifacts, bound);
        forall role | role in roles.bindings
          ensures Bindable(artifacts, roles.bindings[role]) <==> Served(roles, role)
        {
          BindableIffServed(artifacts, bound, role);
        }
      }
      var views := Bind();
      r := if views.Ok? then Ok(views.value) else Err(Binding(views.error));
    }
  }

  /** Why a start fails: while rewriting, or while binding. */
  datatype StartError = Rewriting(fault: SourceError) | Binding(error: BindError)

  // ---- binding ----

  /** A role's view of one artifact. */
  datatype View = Whole(id: ArtifactId) | Part(id: ArtifactId, keys: Keys)

  /** The whole artifact when all of its keys are declared, else just the declared ones. */
  function ViewOf(artifact: Preparation, id: ArtifactId, keys: Keys): View {
    if keys == artifact.keys then Whole(id) else Part(id, keys)
  }

  /** A role's views and the artifact each key is read from. */
  datatype RoleView = RoleView(views: map<ArtifactId, View>, owners: map<string, ArtifactId>) {
    predicate Resolves(key: string, id: ArtifactId) {
      key in owners && owners[key] == id
    }
  }

  datatype BindError = Unopenable | Unadmitted | UnknownTensor | EmptyRole | AmbiguousKey

  /** Artifacts known only by metadata cannot be opened. */
  predicate Openable(artifacts: map<ArtifactId, Preparation>) {
    forall id :: id in artifacts ==> !artifacts[id].MetadataOnly?
  }

  /** Some artifact, each admitted and holding its keys, and no key in two of them. */
  predicate Bindable(artifacts: map<ArtifactId, Preparation>, declarations: map<ArtifactId, Keys>) {
    && declarations != map[]
    && (forall id :: id in declarations ==> id in artifacts && declarations[id] <= artifacts[id].keys)
    && (forall a, b :: a in declarations && b in declarations && a != b ==> declarations[a] !! declarations[b])
  }

  /** Some declared key is missing from its artifact. */
  predicate Unheld(artifacts: map<ArtifactId, Preparation>, declarations: map<ArtifactId, Keys>) {
    exists id :: id in declarations && id in artifacts && !(declarations[id] <= artifacts[id].keys)
  }

  lemma UnheldKey(artifacts: map<ArtifactId, Preparation>, roles: Roles, role: Role)
    requires role in roles.bindings && Unheld(artifacts, roles.bindings[role])
    ensures !KeysHeld(artifacts, roles)
  {
    var declarations := roles.bindings[role];
    var id :| id in declarations && id in artifacts && !(declarations[id] <= artifacts[id].keys);
    var key :| key in declarations[id] && key !in artifacts[id].keys;
    assert Bound(roles, role, id, key);
  }

  /** The keys of the artifacts done so far, each owned by its artifact. */
  ghost predicate OwnersOf(declarations: map<ArtifactId, Keys>, done: set<ArtifactId>,
                           owners: map<string, ArtifactId>)
  {
    forall key, id ::
      (key in owners && owners[key] == id) <==> (id in done && id in declarations && key in declarations[id])
  }

  /** A role's views are its declarations, and each key is owned by the artifact declaring it. */
  ghost predicate ViewsDeclared(artifacts: map<ArtifactId, Preparation>, declarations: map<ArtifactId, Keys>,
                                view: RoleView) {
    && view.views.Keys == declarations.Keys
    && (forall id :: id in declarations && id in artifacts ==>
          view.views[id] == ViewOf(artifacts[id], id, declarations[id]))
    && OwnersOf(declarations, declarations.Keys, view.owners)
  }

  ghost predicate AllViews(artifacts: map<ArtifactId, Preparation>, bindings: map<Role, map<ArtifactId, Keys>>,
                           views: map<Role, RoleView>) {
    forall role :: role in views ==> role in bindings && Bindable(artifacts, bindings[role]) &&
                                     ViewsDeclared(artifacts, bindings[role], views[role])
  }

  lemma AllViewsNext(artifacts: map<ArtifactId, Preparation>, bindings: map<Role, map<ArtifactId, Keys>>,
                     views: map<Role, RoleView>, role: Role, view: RoleView)
    requires AllViews(artifacts, bindings, views) && role in bindings && Bindable(artifacts, bindings[role])
    requires ViewsDeclared(artifacts, bindings[role], view)
    ensures AllViews(artifacts, bindings, views[role := view])
  {
  }

  lemma OwnersResolve(roles: Roles, role: Role, view: RoleView, id: ArtifactId, key: string)
    requires role in roles.bindings && OwnersOf(roles.bindings[role], roles.bindings[role].Keys, view.owners)
    ensures view.Resolves(key, id) <==> Bound(roles, role, id, key)
  {
  }

  /** Views of every role resolve a key to an artifact exactly when the role is bound to it. */
  lemma ViewsResolve(artifacts: map<ArtifactId, Preparation>, roles: Roles, views: map<Role, RoleView>)
    requires views.Keys == roles.bindings.Keys && AllViews(artifacts, roles.bindings, views)
    ensures forall role, id, key :: role in roles.bindings ==>
              (views[role].Resolves(key, id) <==> Bound(roles, role, id, key))
  {
    forall role, id, key | role in roles.bindings
      ensures views[role].Resolves(key, id) <==> Bound(roles, role, id, key)
    {
      assert role in views && ViewsDeclared(artifacts, roles.bindings[role], views[role]);
      OwnersResolve(roles, role, views[role], id, key);
    }
  }

  /** Inserts an artifact's keys unless one is owned already. */
  method ClaimKeys(owners: map<string, ArtifactId>, id: ArtifactId, keys: Keys)
    returns (r: Option<map<string, ArtifactId>>)
    ensures r.Some? <==> keys !! owners.Keys
    ensures r.Some? ==> r.value == owners + map key | key in keys :: id
  {
    var claimed := owners;
    var todo := keys;
    while todo != {}
      invariant todo <= keys && (keys - todo) !! owners.Keys
      invariant claimed == owners + map key | key in keys - todo :: id
    {
      var key :| key in todo;
      if key in claimed {
        return None;
      }
      claimed := claimed[key := id];
      todo := todo - {key};
    }
    assert keys - todo == keys;
    return Some(claimed);
  }

  lemma OwnersGrow(declarations: map<ArtifactId, Keys>, done: set<ArtifactId>, owners: map<string, ArtifactId>,
                   id: ArtifactId)
    requires OwnersOf(declarations, done, owners) && id in declarations && id !in done
    requires declarations[id] !! owners.Keys
    ensures OwnersOf(declarations, done + {id}, owners + map key | key in declarations[id] :: id)
  {
  }

  lemma SharedKey(declarations: map<ArtifactId, Keys>, done: set<ArtifactId>, owners: map<string, ArtifactId>,
                  id: ArtifactId)
    requires OwnersOf(declarations, done, owners) && id in declarations && id !in done
    requires !(declarations[id] !! owners.Keys)
    ensures exists other :: other in declarations && other != id && !(declarations[other] !! declarations[id])
  {
    var key :| key in declarations[id] && key in owners;
    var other := owners[key];
    assert key in declarations[other];
  }

  lemma OwnersSeparate(declarations: map<ArtifactId, Keys>, owners: map<string, ArtifactId>)
    requires OwnersOf(declarations, declarations.Keys, owners)
    ensures forall a, b :: a in declarations && b in declarations && a != b ==> declarations[a] !! declarations[b]
  {
    forall a, b | a in declarations && b in declarations && a != b
      ensures declarations[a] !! declarations[b]
    {
      forall key | key in declarations[a]
        ensures key !in declarations[b]
      {
        assert owners[key] == a;
      }
    }
  }
}
