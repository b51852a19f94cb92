/** Bounding compiler outputs: whole-unit eviction from a directory, and retention of remote snapshots. */
module RustCache {
  import opened Wrappers
  import opened Sequences
  import opened Sorting

  // ---- whole-unit eviction ----

  datatype File = File(path: string, size: nat, modified: nat)

  /** Files of one compilation unit. */
  type Unit = seq<File>

  type Keys = File -> string

  /** Retention class, then the time of the latest file. */
  datatype Priority = Priority(class_: nat, latest: nat)

  type Priorities = Unit -> Priority

  function Size(files: seq<File>): nat {
    if files == [] then 0 else Size(files[..|files| - 1]) + files[|files| - 1].size
  }

  function UnitsSize(units: seq<Unit>): nat {
    if units == [] then 0 else Size(units[0]) + UnitsSize(units[1..])
  }

  predicate Below(a: Priority, b: Priority) {
    a.class_ < b.class_ || (a.class_ == b.class_ && a.latest <= b.latest)
  }

  function ByPriority(priority: Priorities): (Unit, Unit) -> bool {
    (a: Unit, b: Unit) => Below(priority(a), priority(b))
  }

  lemma {:induction false} ByPriorityPreorder(priority: Priorities)
    ensures Preorder(ByPriority(priority))
  {
  }

  /** Adds a file to the unit with its key, or starts one. */
  function Place(units: seq<Unit>, key: Keys, f: File): seq<Unit> {
    if units == [] then [[f]]
    else if units[0] != [] && key(units[0][0]) == key(f) then [units[0] + [f]] + units[1..]
    else [units[0]] + Place(units[1..], key, f)
  }

  ghost predicate InSome(units: seq<Unit>, f: File) {
    exists u :: u in units && f in u
  }

  lemma {:induction false} PlaceMembers(units: seq<Unit>, key: Keys, f: File, g: File)
    ensures InSome(Place(units, key, f), g) <==> g == f || InSome(units, g)
  {
    var placed := Place(units, key, f);
    if units == [] {
      assert [f] in placed && f in [f];
    } else if units[0] != [] && key(units[0][0]) == key(f) {
      var grown := units[0] + [f];
      assert grown in placed && (g in grown <==> g in units[0] || g == f);
      assert units[0] in units;
      assert forall u :: u in units[1..] ==> u in placed && u in units;
    } else {
      PlaceMembers(units[1..], key, f, g);
      assert units[0] in units && units[0] in placed;
      assert forall u :: u in Place(units[1..], key, f) ==> u in placed;
      assert forall u :: u in units[1..] ==> u in units;
    }
  }

  /** What placing keeps, for each unit: nonempty, one key. */
  ghost predicate OneKey(units: seq<Unit>, key: Keys) {
    forall i :: 0 <= i < |units| ==> units[i] != [] && forall f :: f in units[i] ==> key(f) == key(units[i][0])
  }

  ghost predicate KeyAbsent(units: seq<Unit>, key: Keys, k: string) {
    forall i :: 0 <= i < |units| && units[i] != [] ==> key(units[i][0]) != k
  }

  ghost predicate KeysDiffer(units: seq<Unit>, key: Keys) {
    forall i, j :: 0 <= i < j < |units| && units[i] != [] && units[j] != [] ==>
      key(units[i][0]) != key(units[j][0])
  }

  lemma {:induction false} PlaceKeys(units: seq<Unit>, key: Keys, f: File, k: string)
    requires OneKey(units, key) && KeysDiffer(units, key)
    ensures OneKey(Place(units, key, f), key) && KeysDiffer(Place(units, key, f), key)
    ensures KeyAbsent(units, key, k) && key(f) != k ==> KeyAbsent(Place(units, key, f), key, k)
    ensures UnitsSize(Place(units, key, f)) == UnitsSize(units) + f.size
  {
    if units == [] {
      assert Size([f]) == Size([]) + f.size;
    } else if key(units[0][0]) == key(f) {
      var grown := units[0] + [f];
      assert grown[..|grown| - 1] == units[0];
    } else {
      var head, rest := units[0], units[1..];
      assert KeyAbsent(rest, key, key(head[0]));
      PlaceKeys(rest, key, f, key(head[0]));
      PlaceKeys(rest, key, f, k);
    }
  }

  method Group(files: seq<File>, key: Keys) returns (units: seq<Unit>)
    ensures OneKey(units, key) && KeysDiffer(units, key) && UnitsSize(units) == Size(files)
    ensures forall g :: g in files <==> InSome(units, g)
  {
    units := [];
    for i := 0 to |files|
      invariant OneKey(units, key) && KeysDiffer(units, key) && UnitsSize(units) == Size(files[..i])
      invariant forall g :: g in files[..i] <==> InSome(units, g)
    {
      PlaceKeys(units, key, files[i], "");
      forall g
        ensures InSome(Place(units, key, files[i]), g) <==> g == files[i] || g in files[..i]
      {
        PlaceMembers(units, key, files[i], g);
      }
      assert files[..i + 1] == files[..i] + [files[i]];
      units := Place(units, key, files[i]);
    }
    assert files[..|files|] == files;
  }

  // ---- the eviction loop ----

  lemma {:induction false} InsertSize(leq: (Unit, Unit) -> bool, u: Unit, units: seq<Unit>)
    ensures UnitsSize(Insert(leq, u, units)) == Size(u) + UnitsSize(units)
  {
    if units != [] && !leq(u, units[0]) {
      InsertSize(leq, u, units[1..]);
      assert ([units[0]] + Insert(leq, u, units[1..]))[1..] == Insert(leq, u, units[1..]);
    } else {
      assert ([u] + units)[1..] == units;
    }
  }

  lemma {:induction false} SortedSize(leq: (Unit, Unit) -> bool, units: seq<Unit>)
    ensures UnitsSize(Sorted(leq, units)) == UnitsSize(units)
  {
    if units != [] {
      SortedSize(leq, units[1..]);
      InsertSize(leq, units[0], Sorted(leq, units[1..]));
    }
  }

  /** Evicts units from the front until the rest fits, and not one more. */
  method Evict(units: seq<Unit>, limit: nat) returns (evicted: nat, total: nat)
    ensures evicted <= |units| && total == UnitsSize(units[evicted..]) <= limit
    ensures evicted > 0 ==> UnitsSize(units[evicted - 1..]) > limit
  {
    evicted, total := 0, UnitsSize(units);
    while evicted < |units| && total > limit
      invariant evicted <= |units| && total == UnitsSize(units[evicted..])
      invariant evicted > 0 ==> UnitsSize(units[evicted - 1..]) > limit
    {
      assert units[evicted..][1..] == units[evicted + 1..];
      total := total - Size(units[evicted]);
      evicted := evicted + 1;
    }
  }

  /** A file with its whole unit is gone. */
  ghost predicate Gone(units: seq<Unit>, evicted: nat, f: File)
    requires evicted <= |units|
  {
    exists i :: 0 <= i < evicted && f in units[i]
  }

  /** Files sharing a key share a unit. */
  lemma {:induction false} SameUnit(units: seq<Unit>, key: Keys, i: nat, j: nat, f: File, g: File)
    requires OneKey(units, key) && KeysDiffer(units, key)
    requires i < |units| && j < |units| && f in units[i] && g in units[j]
    ensures key(f) == key(g) <==> i == j
  {
    assert key(units[i][0]) == key(f) && key(units[j][0]) == key(g);
    if i < j {
      assert key(units[i][0]) != key(units[j][0]);
    } else if j < i {
      assert key(units[j][0]) != key(units[i][0]);
    }
  }

  class OutputTree {
    var present: set<File>

    constructor (present: set<File>)
      ensures this.present == present
    {
      this.present := present;
    }

    /**
     * Refuses a negative limit; otherwise leaves a tree within the limit. Files sharing a unit key stay or go
     * together; an evicted unit never outranks a kept one; the reported total is the size of what is left; and putting
     * back the last evicted unit would exceed the limit.
     */
    method Prune(files: seq<File>, key: Keys, priority: Priorities, limit: int)
      returns (total: Option<nat>, ghost units: seq<Unit>, ghost evicted: nat)
      requires forall f :: f in present <==> f in files
      modifies this
      ensures total.None? <==> limit < 0
      ensures total.None? ==> present == old(present)
      ensures total.Some? ==> Pruned(files, key, priority, units) && Settled(files, units, evicted, present)
      ensures total.Some? ==> evicted <= |units| && total.value == UnitsSize(units[evicted..]) <= limit
      ensures total.Some? && evicted > 0 ==> UnitsSize(units[evicted - 1..]) > limit
      ensures total.Some? ==>
                forall f, g :: f in files && g in files && key(f) == key(g) ==> (f in present <==> g in present)
    {
      units, evicted := [], 0;
      if limit < 0 {
        return None, units, evicted;
      }
      var grouped := Group(files, key);
      var leq := ByPriority(priority);
      var queue := Sorted(leq, grouped);
      ByPriorityPreorder(priority);
      SortedOrders(leq, grouped);
      SortedSize(leq, grouped);
      SortedGroups(leq, grouped, key);
      assert forall f :: InSome(queue, f) <==> InSome(grouped, f);
      var count, left := Evict(queue, limit);
      units, evicted := queue, count;
      var i := 0;
      while i < count
        invariant i <= count
        invariant Settled(files, units, i, present)
      {
        present := present - set f | f in queue[i];
        assert forall f :: Gone(units, i + 1, f) <==> Gone(units, i, f) || f in queue[i];
        i := i + 1;
      }
      forall f, g | f in files && g in files && key(f) == key(g)
        ensures Gone(units, evicted, f) <==> Gone(units, evicted, g)
      {
        GoneTogether(units, key, evicted, f, g);
      }
      total := Some(left);
    }
  }

  /** The units of a tree, in eviction order: single-keyed, distinct, complete, with the size of the files. */
  ghost predicate Pruned(files: seq<File>, key: Keys, priority: Priorities, units: seq<Unit>) {
    && OneKey(units, key) && KeysDiffer(units, key) && Ordered(ByPriority(priority), units)
    && (forall f :: f in files <==> InSome(units, f))
    && UnitsSize(units) == Size(files)
  }

  /** Exactly the files of the first units are gone. */
  ghost predicate Settled(files: seq<File>, units: seq<Unit>, evicted: nat, present: set<File>) {
    evicted <= |units| && forall f :: f in present <==> f in files && !Gone(units, evicted, f)
  }

  /** Eviction takes whole units. */
  lemma {:induction false} GoneTogether(units: seq<Unit>, key: Keys, evicted: nat, f: File, g: File)
    requires OneKey(units, key) && KeysDiffer(units, key) && evicted <= |units|
    requires InSome(units, f) && InSome(units, g) && key(f) == key(g)
    ensures Gone(units, evicted, f) <==> Gone(units, evicted, g)
  {
    var u :| u in units && f in u;
    var v :| v in units && g in v;
    var i :| 0 <= i < |units| && units[i] == u;
    var j :| 0 <= j < |units| && units[j] == v;
    SameUnit(units, key, i, j, f, g);
    forall k | 0 <= k < evicted
      ensures f in units[k] <==> g in units[k]
    {
      if f in units[k] {
        SameUnit(units, key, k, j, f, g);
      }
      if g in units[k] {
        SameUnit(units, key, i, k, f, g);
      }
    }
  }

  /** Sorting units keeps them single-keyed, with distinct keys and the same files. */
  lemma {:induction false} SortedGroups(leq: (Unit, Unit) -> bool, units: seq<Unit>, key: Keys)
    requires OneKey(units, key) && KeysDiffer(units, key)
    ensures OneKey(Sorted(leq, units), key) && KeysDiffer(Sorted(leq, units), key)
    ensures forall u :: u in Sorted(leq, units) <==> u in units
  {
    SortedMembers(leq, units);
    var sorted := Sorted(leq, units);
    forall i | 0 <= i < |sorted|
      ensures sorted[i] != [] && forall f :: f in sorted[i] ==> key(f) == key(sorted[i][0])
    {
      assert sorted[i] in units;
      var k :| 0 <= k < |units| && units[k] == sorted[i];
    }
    SortedDiffers(leq, units, key);
  }

  lemma {:induction false} SortedDiffers(leq: (Unit, Unit) -> bool, units: seq<Unit>, key: Keys)
    requires OneKey(units, key) && KeysDiffer(units, key)
    ensures KeysDiffer(Sorted(leq, units), key)
  {
    if units != [] {
      var head, rest := units[0], units[1..];
      SortedDiffers(leq, rest, key);
      SortedMembers(leq, rest);
      var sorted := Sorted(leq, rest);
      forall i | 0 <= i < |sorted| && sorted[i] != []
        ensures key(sorted[i][0]) != key(head[0])
      {
        assert sorted[i] in rest;
        var k :| 0 <= k < |rest| && rest[k] == sorted[i];
        assert units[k + 1] == rest[k];
      }
      InsertDiffers(leq, head, sorted, key);
    }
  }

  lemma {:induction false} InsertDiffers(leq: (Unit, Unit) -> bool, u: Unit, units: seq<Unit>, key: Keys)
    requires u != [] && KeysDiffer(units, key) && KeyAbsent(units, key, key(u[0]))
    ensures KeysDiffer(Insert(leq, u, units), key)
  {
    if units != [] && !leq(u, units[0]) {
      var head, rest := units[0], units[1..];
      InsertDiffers(leq, u, rest, key);
      InsertPermutes(leq, u, rest);
      var inserted := Insert(leq, u, rest);
      forall j | 0 <= j < |inserted| && inserted[j] != [] && head != []
        ensures key(inserted[j][0]) != key(head[0])
      {
        assert inserted[j] in multiset([u] + rest);
        if inserted[j] != u {
          assert inserted[j] in rest;
          var k :| 0 <= k < |rest| && rest[k] == inserted[j];
          assert units[k + 1] == rest[k];
        }
      }
      var all := Insert(leq, u, units);
      assert all == [head] + inserted;
    }
  }

  // ---- remote snapshots ----

  datatype Cache = Cache(id: nat, key: string, createdAt: nat, size: nat)

  predicate StartsWith(s: string, prefix: string) {
    |prefix| <= |s| && s[..|prefix|] == prefix
  }

  predicate Superseded(c: Cache) {
    StartsWith(c.key, "rust-v2-")
  }

  predicate Recognized(c: Cache) {
    Superseded(c) || StartsWith(c.key, "rust-v3-") || StartsWith(c.key, "rust-v4-")
  }

  /** The text up to the first double dash. */
  function BeforeDashes(s: string): string {
    if |s| < 2 then s else if s[0] == '-' && s[1] == '-' then "" else [s[0]] + BeforeDashes(s[1..])
  }

  /** The text after the first dash, if there is one. */
  function AfterDash(s: string): Option<string> {
    if s == "" then None else if s[0] == '-' then Some(s[1..]) else AfterDash(s[1..])
  }

  /** What follows the second dash before the first double dash. */
  function Configuration(c: Cache): Option<string> {
    match AfterDash(BeforeDashes(c.key))
    case None => None
    case Some(rest) => AfterDash(rest)
  }

  lemma {:induction false} BeforeSplit(s: string, k: nat)
    requires k < |s| && forall i :: 0 <= i < k ==> !(s[i] == '-' && s[i + 1] == '-')
    ensures BeforeDashes(s) == s[..k] + BeforeDashes(s[k..])
  {
    if k == 0 {
      assert s[0..] == s && s[..0] == "";
    } else {
      var rest := s[1..];
      assert rest[k - 1..] == s[k..] && s[..k] == [s[0]] + rest[..k - 1];
      BeforeSplit(rest, k - 1);
      assert BeforeDashes(s) == [s[0]] + BeforeDashes(rest);
    }
  }

  lemma {:induction false} AfterSkips(s: string, t: string)
    requires forall i :: 0 <= i < |s| ==> s[i] != '-'
    ensures AfterDash(s + t) == AfterDash(t)
  {
    if s == "" {
      assert s + t == t;
    } else {
      assert (s + t)[1..] == s[1..] + t;
      AfterSkips(s[1..], t);
    }
  }

  /** Among recognized keys exactly those with a dash right after the version prefix have no configuration. */
  lemma {:induction false} ConfigurationAbsent(c: Cache)
    requires Recognized(c)
    ensures Configuration(c).None? <==> |c.key| > 8 && c.key[8] == '-'
  {
    var key := c.key;
    var version := key[..8];
    assert version[0] == 'r' && version[1] == 'u' && version[2] == 's' && version[3] == 't' && version[4] == '-';
    assert version[5] == 'v' && version[6] != '-' && version[7] == '-';
    assert forall i :: 0 <= i < 8 ==> key[i] == version[i];
    BeforeSplit(key, 7);
    var rest := BeforeDashes(key[7..]);
    var all := key[..7] + rest;
    assert all == key[..4] + (['-'] + (key[5..7] + rest));
    AfterSkips(key[..4], ['-'] + (key[5..7] + rest));
    assert (['-'] + (key[5..7] + rest))[1..] == key[5..7] + rest;
    AfterSkips(key[5..7], rest);
  }

  function Sizes(caches: seq<Cache>): nat {
    if caches == [] then 0 else Sizes(caches[..|caches| - 1]) + caches[|caches| - 1].size
  }

  predicate Newer(a: Cache, b: Cache) {
    a.createdAt >= b.createdAt
  }

  /** What the sweep makes of a key. */
  datatype Label = Foreign | Unreadable | OldFormat | Current(configuration: string)

  type Labels = Cache -> Label

  /** Keys of other tools, recognized keys without a configuration, the old format, and the rest by configuration. */
  function LabelOf(c: Cache): Label {
    if !Recognized(c) then Foreign
    else
      match Configuration(c)
      case None => Unreadable
      case Some(s) => if Superseded(c) then OldFormat else Current(s)
  }

  /** The first so many kept snapshots are as recent as this one and leave no room for it. */
  predicate NoRoom(c: Cache, kept: seq<Cache>, n: int, limit: int) {
    0 <= n <= |kept| && Sizes(kept[..n]) + c.size > limit && forall k :: 0 <= k < n ==> Newer(kept[k], c)
  }

  /** A kept snapshot of the same configuration is as recent. */
  predicate Replaced(tag: Labels, c: Cache, kept: seq<Cache>) {
    exists k :: 0 <= k < |kept| && tag(kept[k]) == tag(c) && Newer(kept[k], c)
  }

  /** Why a snapshot is dropped: an old format, a kept one as recent for its configuration, or no room beside newer. */
  ghost predicate Dropped(tag: Labels, c: Cache, kept: seq<Cache>, limit: int) {
    tag(c) == OldFormat || Replaced(tag, c, kept) || exists n :: NoRoom(c, kept, n, limit)
  }

  predicate OneEach(tag: Labels, kept: seq<Cache>) {
    && (forall i :: 0 <= i < |kept| ==> tag(kept[i]).Current?)
    && (forall i, j :: 0 <= i < j < |kept| ==> tag(kept[i]) != tag(kept[j]))
  }

  /** Newest first, one per configuration, none of the old format, within the limit. */
  ghost predicate Retained(tag: Labels, kept: seq<Cache>, limit: int) {
    Ordered(Newer, kept) && OneEach(tag, kept) && (kept != [] ==> Sizes(kept) <= limit)
  }

  /** Every recognized snapshot is kept or removed, as often as it is listed, and no other is touched. */
  ghost predicate Divided(tag: Labels, all: seq<Cache>, kept: seq<Cache>, removed: seq<Cache>) {
    forall c :: multiset(kept)[c] + multiset(removed)[c] == if tag(c).Foreign? then 0 else multiset(all)[c]
  }

  lemma {:induction false} NewerPreorder()
    ensures Preorder(Newer)
  {
  }

  /** A drop stays justified when more is kept after it. */
  lemma {:induction false} DroppedGrows(tag: Labels, c: Cache, kept: seq<Cache>, more: Cache, limit: int)
    requires Dropped(tag, c, kept, limit)
    ensures Dropped(tag, c, kept + [more], limit)
  {
    var longer := kept + [more];
    if Replaced(tag, c, kept) {
      var k :| 0 <= k < |kept| && tag(kept[k]) == tag(c) && Newer(kept[k], c);
      assert longer[k] == kept[k];
    } else if n :| NoRoom(c, kept, n, limit) {
      assert longer[..n] == kept[..n];
      assert NoRoom(c, longer, n, limit);
    }
  }

  /** The configurations seen are those of the kept snapshots. */
  predicate Seen(tag: Labels, kept: seq<Cache>, seen: set<string>) {
    && (forall i :: 0 <= i < |kept| && tag(kept[i]).Current? ==> tag(kept[i]).configuration in seen)
    && (forall s :: s in seen ==> exists i :: 0 <= i < |kept| && tag(kept[i]) == Current(s))
  }

  /** The running state of the sweep, with what it has kept. */
  datatype State = State(seen: set<string>, total: int, remove: seq<Cache>, kept: seq<Cache>)

  /** Visits one snapshot: passes over it, removes it or keeps it. */
  function Visit(tag: Labels, limit: int, s: State, c: Cache): State {
    match tag(c)
    case Foreign => s
    case Unreadable => s
    case OldFormat => s.(remove := s.remove + [c])
    case Current(configuration) =>
      if configuration in s.seen || s.total + c.size > limit then s.(remove := s.remove + [c])
      else State(s.seen + {configuration}, s.total + c.size, s.remove, s.kept + [c])
  }

  function Visitor(tag: Labels, limit: int): (State, Cache) -> State {
    (s: State, c: Cache) => Visit(tag, limit, s, c)
  }

  const START: State := State({}, 0, [], [])

  /** The state after visiting some snapshots. */
  function Reached(tag: Labels, limit: int, done: seq<Cache>): State {
    Fold(Visitor(tag, limit), START, done)
  }

  lemma {:induction false} ReachedNext(tag: Labels, limit: int, done: seq<Cache>) returns (front: seq<Cache>, c: Cache)
    requires done != []
    ensures done == front + [c] && |front| < |done|
    ensures Reached(tag, limit, done) == Visit(tag, limit, Reached(tag, limit, front), c)
  {
    front, c := done[..|done| - 1], done[|done| - 1];
  }

  predicate Readable(tag: Labels, ordered: seq<Cache>) {
    forall i :: 0 <= i < |ordered| ==> !tag(ordered[i]).Unreadable?
  }

  ghost predicate AllDropped(tag: Labels, removed: seq<Cache>, kept: seq<Cache>, limit: int) {
    forall i :: 0 <= i < |removed| ==> Dropped(tag, removed[i], kept, limit)
  }

  lemma {:induction false} DividedGrows(tag: Labels, done: seq<Cache>, s: State, limit: int, c: Cache)
    requires Divided(tag, done, s.kept, s.remove) && !tag(c).Unreadable?
    ensures var v := Visit(tag, limit, s, c); Divided(tag, done + [c], v.kept, v.remove)
  {
  }

  lemma {:induction false} ReachedDivides(tag: Labels, limit: int, done: seq<Cache>)
    requires Readable(tag, done)
    ensures var s := Reached(tag, limit, done); Divided(tag, done, s.kept, s.remove)
    decreases |done|
  {
    if done != [] {
      var front, c := ReachedNext(tag, limit, done);
      assert done[|front|] == c && forall i :: 0 <= i < |front| ==> done[i] == front[i];
      ReachedDivides(tag, limit, front);
      DividedGrows(tag, front, Reached(tag, limit, front), limit, c);
    }
  }

  ghost predicate Tallied(tag: Labels, s: State) {
    Seen(tag, s.kept, s.seen) && s.total == Sizes(s.kept)
  }

  lemma {:induction false} TalliedGrows(tag: Labels, limit: int, s: State, c: Cache)
    requires Tallied(tag, s)
    ensures Tallied(tag, Visit(tag, limit, s, c))
  {
    var longer := s.kept + [c];
    assert longer[..|s.kept|] == s.kept;
    assert longer[|s.kept|] == c && forall i :: 0 <= i < |s.kept| ==> longer[i] == s.kept[i];
  }

  lemma {:induction false} ReachedTallies(tag: Labels, limit: int, done: seq<Cache>)
    ensures Tallied(tag, Reached(tag, limit, done))
    decreases |done|
  {
    if done != [] {
      var front, c := ReachedNext(tag, limit, done);
      ReachedTallies(tag, limit, front);
      TalliedGrows(tag, limit, Reached(tag, limit, front), c);
    }
  }

  /** What is kept was visited, so it is as recent as what comes next. */
  lemma {:induction false} KeptNewer(tag: Labels, limit: int, done: seq<Cache>, c: Cache)
    requires Readable(tag, done) && Ordered(Newer, done + [c])
    ensures var kept := Reached(tag, limit, done).kept; forall k :: 0 <= k < |kept| ==> Newer(kept[k], c)
  {
    ReachedDivides(tag, limit, done);
    var s, all := Reached(tag, limit, done), done + [c];
    forall k | 0 <= k < |s.kept|
      ensures Newer(s.kept[k], c)
    {
      assert s.kept[k] in multiset(s.kept);
      assert s.kept[k] in multiset(done);
      var i :| 0 <= i < |done| && done[i] == s.kept[k];
      assert Newer(all[i], all[|done|]);
    }
  }

  lemma {:induction false} KeepRetains(tag: Labels, kept: seq<Cache>, c: Cache, limit: int)
    requires Retained(tag, kept, limit) && tag(c).Current? && Sizes(kept) + c.size <= limit
    requires forall k :: 0 <= k < |kept| ==> tag(kept[k]) != tag(c) && Newer(kept[k], c)
    ensures Retained(tag, kept + [c], limit)
  {
    assert (kept + [c])[..|kept|] == kept;
  }

  lemma {:induction false} RetainedGrows(tag: Labels, limit: int, s: State, c: Cache)
    requires Tallied(tag, s) && Retained(tag, s.kept, limit)
    requires forall k :: 0 <= k < |s.kept| ==> Newer(s.kept[k], c)
    ensures Retained(tag, Visit(tag, limit, s, c).kept, limit)
  {
    if tag(c).Current? && tag(c).configuration !in s.seen && s.total + c.size <= limit {
      KeepRetains(tag, s.kept, c, limit);
    }
  }

  lemma {:induction false} ReachedRetains(tag: Labels, limit: int, done: seq<Cache>)
    requires Readable(tag, done) && Ordered(Newer, done)
    ensures Retained(tag, Reached(tag, limit, done).kept, limit)
    decreases |done|
  {
    if done != [] {
      var front, c := ReachedNext(tag, limit, done);
      assert done[|front|] == c && forall i :: 0 <= i < |front| ==> done[i] == front[i];
      ReachedRetains(tag, limit, front);
      ReachedTallies(tag, limit, front);
      KeptNewer(tag, limit, front, c);
      RetainedGrows(tag, limit, Reached(tag, limit, front), c);
    }
  }

  /** A drop the sweep makes is justified when it is made. */
  lemma {:induction false} DropJustified(tag: Labels, s: State, c: Cache, limit: int)
    requires Tallied(tag, s)
    requires forall k :: 0 <= k < |s.kept| ==> Newer(s.kept[k], c)
    requires tag(c) == OldFormat ||
             (tag(c).Current? && (tag(c).configuration in s.seen || s.total + c.size > limit))
    ensures Dropped(tag, c, s.kept, limit)
  {
    assert s.kept[..|s.kept|] == s.kept;
    assert s.total + c.size > limit ==> NoRoom(c, s.kept, |s.kept|, limit);
  }

  lemma {:induction false} DropsGrow(tag: Labels, limit: int, s: State, c: Cache)
    requires Tallied(tag, s) && AllDropped(tag, s.remove, s.kept, limit)
    requires forall k :: 0 <= k < |s.kept| ==> Newer(s.kept[k], c)
    ensures var v := Visit(tag, limit, s, c); AllDropped(tag, v.remove, v.kept, limit)
  {
    var v := Visit(tag, limit, s, c);
    forall i | 0 <= i < |v.remove|
      ensures Dropped(tag, v.remove[i], v.kept, limit)
    {
      if v.kept != s.kept {
        DroppedGrows(tag, s.remove[i], s.kept, c, limit);
      } else if i == |s.remove| {
        DropJustified(tag, s, c, limit);
      }
    }
  }

  lemma {:induction false} ReachedDrops(tag: Labels, limit: int, done: seq<Cache>)
    requires Readable(tag, done) && Ordered(Newer, done)
    ensures var s := Reached(tag, limit, done); AllDropped(tag, s.remove, s.kept, limit)
    decreases |done|
  {
    if done != [] {
      var front, c := ReachedNext(tag, limit, done);
      assert done[|front|] == c && forall i :: 0 <= i < |front| ==> done[i] == front[i];
      ReachedDrops(tag, limit, front);
      ReachedTallies(tag, limit, front);
      KeptNewer(tag, limit, front, c);
      DropsGrow(tag, limit, Reached(tag, limit, front), c);
    }
  }

  /** The sweep over snapshots sorted newest first. */
  method Sweep(tag: Labels, ordered: seq<Cache>, limit: int)
    returns (r: Result<seq<Cache>, ()>, ghost kept: seq<Cache>)
    ensures r.Err? <==> !Readable(tag, ordered)
    ensures r.Ok? ==> r.value == Reached(tag, limit, ordered).remove && kept == Reached(tag, limit, ordered).kept
  {
    var seen: set<string>, total, remove := {}, 0, [];
    kept := [];
    for i := 0 to |ordered|
      invariant Reached(tag, limit, ordered[..i]) == State(seen, total, remove, kept)
      invariant forall k :: 0 <= k < i ==> !tag(ordered[k]).Unreadable?
    {
      var c := ordered[i];
      assert ordered[..i + 1][..i] == ordered[..i];
      match tag(c) {
        case Foreign =>
        case Unreadable => return Err(()), kept;
        case OldFormat => remove := remove + [c];
        case Current(configuration) =>
          if configuration in seen || total + c.size > limit {
            remove := remove + [c];
          } else {
            seen, total, kept := seen + {configuration}, total + c.size, kept + [c];
          }
      }
    }
    assert ordered[..|ordered|] == ordered;
    return Ok(remove), kept;
  }

  /** Sorting changes neither what is listed nor how often. */
  lemma {:induction false} DividedAnyOrder(tag: Labels, all: seq<Cache>, ordered: seq<Cache>, kept: seq<Cache>,
                                           removed: seq<Cache>)
    requires multiset(ordered) == multiset(all) && Divided(tag, ordered, kept, removed)
    ensures Divided(tag, all, kept, removed)
  {
  }

  /**
   * Decides which snapshots to remove. Visiting newest first, it keeps at most one snapshot per configuration, none
   * of the old format, within the limit. One is removed only for its format, for an as recent kept one of its
   * configuration, or because it does not fit beside kept ones as recent. Every recognized snapshot is kept or
   * removed, once for each listing, and no other is touched. A key with no configuration ends it.
   */
  method Expired(caches: seq<Cache>, limit: int) returns (r: Result<seq<Cache>, ()>, ghost kept: seq<Cache>)
    ensures r.Err? <==> exists c :: c in caches && LabelOf(c).Unreadable?
    ensures r.Ok? ==> Retained(LabelOf, kept, limit) && Divided(LabelOf, caches, kept, r.value)
    ensures r.Ok? ==> AllDropped(LabelOf, r.value, kept, limit)
  {
    NewerPreorder();
    SortedOrders(Newer, caches);
    SortedMembers(Newer, caches);
    SortedPermutes(Newer, caches);
    var ordered := Sorted(Newer, caches);
    r, kept := Sweep(LabelOf, ordered, limit);
    if r.Ok? {
      ReachedDivides(LabelOf, limit, ordered);
      ReachedRetains(LabelOf, limit, ordered);
      ReachedDrops(LabelOf, limit, ordered);
      DividedAnyOrder(LabelOf, caches, ordered, kept, r.value);
    }
    assert forall i :: 0 <= i < |ordered| ==> ordered[i] in caches;
  }

  /**
   * What is kept is settled by the listing: two outcomes with the same promises on snapshots of distinct times keep
   * the same snapshots, so newest-first retention leaves no choice.
   */
  lemma {:induction false} RetentionDetermined(tag: Labels, all: seq<Cache>, limit: int, kept: seq<Cache>,
                                               removed: seq<Cache>, kept': seq<Cache>, removed': seq<Cache>, n: nat)
    requires Retained(tag, kept, limit) && Divided(tag, all, kept, removed)
    requires Retained(tag, kept', limit) && Divided(tag, all, kept', removed')
    requires AllDropped(tag, removed, kept, limit)
    requires AllDropped(tag, removed', kept', limit)
    requires forall i, j :: 0 <= i < j < |all| ==> all[i].createdAt != all[j].createdAt
    requires n <= |kept| && n <= |kept'| && kept[..n] == kept'[..n]
    ensures kept == kept'
    decreases |kept| - n
  {
    if n < |kept| {
      NextKept(tag, all, limit, kept, removed, kept', removed', n);
      NextKept(tag, all, limit, kept', removed', kept, removed, n);
      SameTime(tag, all, kept, removed, kept', removed', n);
      assert kept[..n + 1] == kept[..n] + [kept[n]] && kept'[..n + 1] == kept'[..n] + [kept'[n]];
      RetentionDetermined(tag, all, limit, kept, removed, kept', removed', n + 1);
    } else {
      if n < |kept'| {
        NextKept(tag, all, limit, kept', removed', kept, removed, n);
      }
      assert kept == kept[..n] && kept' == kept'[..n];
    }
  }

  /** After a common start, the other outcome also keeps something, as recent as this one's next. */
  lemma {:induction false} NextKept(tag: Labels, all: seq<Cache>, limit: int, kept: seq<Cache>, removed: seq<Cache>,
                 kept': seq<Cache>, removed': seq<Cache>, n: nat)
    requires Retained(tag, kept, limit) && Divided(tag, all, kept, removed)
    requires Retained(tag, kept', limit) && Divided(tag, all, kept', removed')
    requires AllDropped(tag, removed', kept', limit)
    requires n < |kept| && n <= |kept'| && kept[..n] == kept'[..n]
    ensures n < |kept'| && Newer(kept'[n], kept[n])
  {
    var c := kept[n];
    assert forall i :: 0 <= i < n ==> kept'[i] == kept'[..n][i] == kept[..n][i] == kept[i];
    KeptOrRemoved(tag, all, kept, removed, kept', removed', c);
    if c in kept' {
      var m :| 0 <= m < |kept'| && kept'[m] == c;
    } else {
      DroppedAfter(tag, limit, kept, kept', n);
    }
  }

  /** What one outcome keeps, the other keeps or removes. */
  lemma {:induction false} KeptOrRemoved(tag: Labels, all: seq<Cache>, kept: seq<Cache>, removed: seq<Cache>,
                                         kept': seq<Cache>, removed': seq<Cache>, c: Cache)
    requires Divided(tag, all, kept, removed) && Divided(tag, all, kept', removed') && c in kept
    ensures c in kept' || c in removed'
  {
    assert c in multiset(kept);
    assert multiset(kept')[c] + multiset(removed')[c] == multiset(kept)[c] + multiset(removed)[c] > 0;
    assert c in multiset(kept') || c in multiset(removed');
  }

  /** What the other outcome dropped, it dropped for something it kept later than the common start. */
  lemma {:induction false} DroppedAfter(tag: Labels, limit: int, kept: seq<Cache>, kept': seq<Cache>, n: nat)
    requires Retained(tag, kept, limit) && Ordered(Newer, kept')
    requires n < |kept| && n <= |kept'| && forall i :: 0 <= i < n ==> kept[i] == kept'[i]
    requires Dropped(tag, kept[n], kept', limit)
    ensures n < |kept'| && Newer(kept'[n], kept[n])
  {
    var c := kept[n];
    assert tag(c).Current?;
    if Replaced(tag, c, kept') {
      var k :| 0 <= k < |kept'| && tag(kept'[k]) == tag(c) && Newer(kept'[k], c);
      assert n <= k;
    } else {
      var m :| NoRoom(c, kept', m, limit);
      FitsThrough(kept, n, limit);
      if m <= n {
        assert kept'[..m] == kept[..m];
        SizesClimb(kept, m, n);
      }
    }
  }

  /** Every kept snapshot fits beside the ones before it. */
  lemma {:induction false} FitsThrough(kept: seq<Cache>, n: nat, limit: int)
    requires n < |kept| && Sizes(kept) <= limit
    ensures Sizes(kept[..n]) + kept[n].size <= limit
  {
    assert kept[..n + 1][..n] == kept[..n] && kept[..|kept|] == kept;
    SizesClimb(kept, n + 1, |kept|);
  }

  lemma {:induction false} SizesClimb(caches: seq<Cache>, m: nat, n: nat)
    requires m <= n <= |caches|
    ensures Sizes(caches[..m]) <= Sizes(caches[..n])
  {
    if m < n {
      SizesClimb(caches, m, n - 1);
      assert caches[..n][..n - 1] == caches[..n - 1];
    }
  }

  /** Distinct times tell snapshots apart. */
  lemma {:induction false} SameTime(tag: Labels, all: seq<Cache>, kept: seq<Cache>, removed: seq<Cache>,
                                    kept': seq<Cache>,
                 removed': seq<Cache>, n: nat)
    requires Divided(tag, all, kept, removed) && Divided(tag, all, kept', removed')
    requires forall i, j :: 0 <= i < j < |all| ==> all[i].createdAt != all[j].createdAt
    requires n < |kept| && n < |kept'| && Newer(kept[n], kept'[n]) && Newer(kept'[n], kept[n])
    ensures kept[n] == kept'[n]
  {
    assert kept[n] in multiset(kept) && kept'[n] in multiset(kept');
    assert kept[n] in multiset(all) && kept'[n] in multiset(all);
    var i :| 0 <= i < |all| && all[i] == kept[n];
    var j :| 0 <= j < |all| && all[j] == kept'[n];
  }
}
