/** Admission of a SafeTensors header: every tensor is well formed and the payload is tiled without gap or overlap. */
module Tiling {
  import opened Wrappers
  import opened Sorting

  const MAX_HEADER_BYTES: nat := 16 * 1024 * 1024

  datatype Tensor = Tensor(dtype: string, shape: seq<int>, offsets: seq<int>)

  datatype Interval = Interval(first: int, end: int)

  datatype Error = HeaderBounds | Shape | Offsets | Outside | Encoding | Geometry | GapOrOverlap | PayloadLength

  // ---- one tensor ----

  function Width(dtype: string): Option<nat> {
    if dtype in {"BOOL", "U8", "I8", "F8_E4M3", "F8_E4M3FN", "F8_E5M2", "F8_E8M0"} then Some(1)
    else if dtype in {"I16", "U16", "F16", "BF16"} then Some(2)
    else if dtype in {"I32", "U32", "F32"} then Some(4)
    else if dtype in {"I64", "U64", "F64"} then Some(8)
    else None
  }

  function Elements(shape: seq<int>): int {
    if shape == [] then 1 else Elements(shape[..|shape| - 1]) * shape[|shape| - 1]
  }

  /** In bounds, with a known encoding, and exactly as long as its geometry says. */
  predicate WellFormed(t: Tensor, payload: int) {
    && (forall i :: 0 <= i < |t.shape| ==> t.shape[i] >= 0)
    && |t.offsets| == 2
    && 0 <= t.offsets[0] <= t.offsets[1] <= payload
    && Width(t.dtype).Some?
    && t.offsets[1] - t.offsets[0] == Elements(t.shape) * Width(t.dtype).value
  }

  method CheckTensor(t: Tensor, payload: int) returns (r: Result<Interval, Error>)
    ensures r.Ok? <==> WellFormed(t, payload)
    ensures r.Ok? ==> r.value == Interval(t.offsets[0], t.offsets[1])
  {
    for i := 0 to |t.shape|
      invariant forall k :: 0 <= k < i ==> t.shape[k] >= 0
    {
      if t.shape[i] < 0 {
        return Err(Shape);
      }
    }
    if |t.offsets| != 2 {
      return Err(Offsets);
    }
    var first, end := t.offsets[0], t.offsets[1];
    if first < 0 || end < first || end > payload {
      return Err(Outside);
    }
    var width := Width(t.dtype);
    if width == None {
      return Err(Encoding);
    }
    var elements := 1;
    for i := 0 to |t.shape|
      invariant elements == Elements(t.shape[..i])
    {
      assert t.shape[..i + 1][..i] == t.shape[..i];
      elements := elements * t.shape[i];
    }
    assert t.shape[..|t.shape|] == t.shape;
    if end - first != elements * width.value {
      return Err(Geometry);
    }
    return Ok(Interval(first, end));
  }

  // ---- tiling ----

  predicate Holds(s: Interval, x: int) {
    s.first <= x < s.end
  }

  /** How many intervals hold a byte. */
  function Covering(s: seq<Interval>, x: int): nat {
    if s == [] then 0 else (if Holds(s[0], x) then 1 else 0) + Covering(s[1..], x)
  }

  /** Every byte in the range belongs to exactly one interval. */
  ghost predicate EveryByteOnce(s: seq<Interval>, low: int, high: int) {
    forall x :: low <= x < high ==> Covering(s, x) == 1
  }

  predicate AllWithin(s: seq<Interval>, low: int, high: int) {
    forall i :: 0 <= i < |s| ==> low <= s[i].first <= s[i].end <= high
  }

  /** No empty interval points strictly inside another. */
  predicate NoneInside(s: seq<Interval>) {
    forall a, b :: a in s && b in s && a.first == a.end ==> !(b.first < a.first < b.end)
  }

  ghost predicate Tiled(s: seq<Interval>, low: int, high: int) {
    low <= high && AllWithin(s, low, high) && EveryByteOnce(s, low, high) && NoneInside(s)
  }

  /** The scan over sorted intervals: each begins where the last ended, and the last ends at the payload's end. */
  predicate Chained(s: seq<Interval>, cursor: int, high: int) {
    if s == [] then cursor == high else s[0].first == cursor && Chained(s[1..], s[0].end, high)
  }

  predicate Leq(a: Interval, b: Interval) {
    a.first < b.first || (a.first == b.first && a.end <= b.end)
  }

  lemma LeqPreorder()
    ensures Preorder(Leq)
  {
  }

  lemma {:induction false} NotCovered(s: seq<Interval>, x: int)
    requires forall i :: 0 <= i < |s| ==> !Holds(s[i], x)
    ensures Covering(s, x) == 0
  {
    if s != [] {
      NotCovered(s[1..], x);
    }
  }

  lemma {:induction false} CoveredBy(s: seq<Interval>, x: int) returns (i: nat)
    requires Covering(s, x) > 0
    ensures i < |s| && Holds(s[i], x)
  {
    if Holds(s[0], x) {
      i := 0;
    } else {
      i := CoveredBy(s[1..], x);
      i := i + 1;
    }
  }

  lemma {:induction false} HoldingCounts(s: seq<Interval>, x: int, i: nat)
    requires i < |s| && Holds(s[i], x)
    ensures Covering(s, x) > 0
  {
    if i > 0 {
      HoldingCounts(s[1..], x, i - 1);
    }
  }

  lemma {:induction false} ChainedWithin(s: seq<Interval>, cursor: int, high: int)
    requires Chained(s, cursor, high) && forall i :: 0 <= i < |s| ==> s[i].first <= s[i].end
    ensures cursor <= high && AllWithin(s, cursor, high)
  {
    if s != [] {
      ChainedWithin(s[1..], s[0].end, high);
    }
  }

  lemma {:induction false} ChainedTiles(s: seq<Interval>, cursor: int, high: int)
    requires Chained(s, cursor, high) && forall i :: 0 <= i < |s| ==> s[i].first <= s[i].end
    ensures Tiled(s, cursor, high)
  {
    ChainedWithin(s, cursor, high);
    if s != [] {
      var rest := s[1..];
      ChainedTiles(rest, s[0].end, high);
      forall x | cursor <= x < high
        ensures Covering(s, x) == 1
      {
        if x < s[0].end {
          NotCovered(rest, x);
        }
      }
      forall a, b | a in s && b in s && a.first == a.end
        ensures !(b.first < a.first < b.end)
      {
        assert a == s[0] || a in rest;
        assert b == s[0] || b in rest;
      }
    }
  }

  /** In a sorted tiling the head starts at the cursor. */
  lemma HeadAtCursor(s: seq<Interval>, cursor: int, high: int)
    requires s != [] && Ordered(Leq, s) && Tiled(s, cursor, high)
    ensures s[0].first == cursor
  {
    if cursor < high {
      var k := CoveredBy(s, cursor);
    }
  }

  /** Without its head, a sorted tiling tiles what is left. */
  lemma TailTiles(s: seq<Interval>, cursor: int, high: int)
    requires s != [] && Ordered(Leq, s) && Tiled(s, cursor, high) && s[0].first == cursor
    ensures Tiled(s[1..], s[0].end, high)
  {
    var head, rest := s[0], s[1..];
    forall i | 0 <= i < |rest|
      ensures head.end <= rest[i].first
    {
      var a := rest[i];
      assert a == s[i + 1] && Leq(head, a);
      assert a in s && head in s;
      assert Covering(s, a.first) == (if Holds(head, a.first) then 1 else 0) + Covering(rest, a.first);
      if a.first < head.end && a.first != a.end {
        HoldingCounts(rest, a.first, i);
      }
    }
    assert AllWithin(rest, head.end, high);
    assert forall x :: head.end <= x < high ==> Covering(s, x) == Covering(rest, x);
  }

  lemma {:induction false} TiledChains(s: seq<Interval>, cursor: int, high: int)
    requires Ordered(Leq, s) && Tiled(s, cursor, high)
    ensures Chained(s, cursor, high)
  {
    if s == [] {
      assert cursor < high ==> Covering(s, cursor) == 1;
    } else {
      HeadAtCursor(s, cursor, high);
      TailTiles(s, cursor, high);
      TiledChains(s[1..], s[0].end, high);
    }
  }

  lemma {:induction false} InsertCovers(a: Interval, s: seq<Interval>, x: int)
    ensures Covering(Insert(Leq, a, s), x) == (if Holds(a, x) then 1 else 0) + Covering(s, x)
  {
    if s != [] && !Leq(a, s[0]) {
      InsertCovers(a, s[1..], x);
      assert ([s[0]] + Insert(Leq, a, s[1..]))[1..] == Insert(Leq, a, s[1..]);
    } else {
      assert ([a] + s)[1..] == s;
    }
  }

  lemma {:induction false} SortedCovers(s: seq<Interval>, x: int)
    ensures Covering(Sorted(Leq, s), x) == Covering(s, x)
  {
    if s != [] {
      SortedCovers(s[1..], x);
      InsertCovers(s[0], Sorted(Leq, s[1..]), x);
    }
  }

  /** Tiling does not depend on the order the intervals were listed in. */
  lemma SortedTiles(s: seq<Interval>, low: int, high: int)
    ensures Tiled(Sorted(Leq, s), low, high) <==> Tiled(s, low, high)
  {
    var t := Sorted(Leq, s);
    SortedMembers(Leq, s);
    forall x
      ensures Covering(t, x) == Covering(s, x)
    {
      SortedCovers(s, x);
    }
    assert AllWithin(t, low, high) <==> forall a :: a in t ==> low <= a.first <= a.end <= high;
    assert AllWithin(s, low, high) <==> forall a :: a in s ==> low <= a.first <= a.end <= high;
  }

  /** Sorting and scanning accepts exactly the tilings. */
  lemma ScanExact(s: seq<Interval>, high: nat)
    requires forall i :: 0 <= i < |s| ==> 0 <= s[i].first <= s[i].end <= high
    ensures Chained(Sorted(Leq, s), 0, high) <==> Tiled(s, 0, high)
  {
    var t := Sorted(Leq, s);
    LeqPreorder();
    SortedOrders(Leq, s);
    SortedMembers(Leq, s);
    SortedTiles(s, 0, high);
    if Chained(t, 0, high) {
      forall i | 0 <= i < |t|
        ensures t[i].first <= t[i].end
      {
        assert t[i] in s;
      }
      ChainedTiles(t, 0, high);
    }
    if Tiled(t, 0, high) {
      TiledChains(t, 0, high);
    }
  }

  method Scan(s: seq<Interval>, high: int) returns (r: Result<(), Error>)
    ensures r.Ok? <==> Chained(s, 0, high)
  {
    var cursor := 0;
    for i := 0 to |s|
      invariant Chained(s, 0, high) <==> Chained(s[i..], cursor, high)
    {
      if s[i].first != cursor {
        return Err(GapOrOverlap);
      }
      assert s[i..][1..] == s[i + 1..];
      cursor := s[i].end;
    }
    if cursor != high {
      return Err(PayloadLength);
    }
    return Ok(());
  }

  // ---- the header ----

  function Intervals(tensors: seq<Tensor>): seq<Interval>
    requires forall i :: 0 <= i < |tensors| ==> |tensors[i].offsets| == 2
  {
    seq(|tensors|, i requires 0 <= i < |tensors| => Interval(tensors[i].offsets[0], tensors[i].offsets[1]))
  }

  /** The header leaves a payload after its length word and text. */
  predicate HeaderFits(size: nat, length: nat) {
    0 < length <= MAX_HEADER_BYTES && length + 8 <= size
  }

  ghost predicate Admissible(size: nat, length: nat, tensors: seq<Tensor>) {
    && HeaderFits(size, length)
    && var payload := size - 8 - length;
       && (forall i :: 0 <= i < |tensors| ==> WellFormed(tensors[i], payload))
       && Tiled(Intervals(tensors), 0, payload)
  }

  /**
   * Accepts exactly the headers whose tensors are well formed and tile the payload: every payload byte in one tensor,
   * none outside, and no empty tensor pointing strictly inside another.
   */
  method Admit(size: nat, length: nat, tensors: seq<Tensor>) returns (r: Result<(), Error>)
    ensures r.Ok? <==> Admissible(size, length, tensors)
  {
    if length == 0 || length > MAX_HEADER_BYTES || length + 8 > size {
      return Err(HeaderBounds);
    }
    var payload := size - 8 - length;
    var intervals := [];
    for i := 0 to |tensors|
      invariant forall k :: 0 <= k < i ==> WellFormed(tensors[k], payload)
      invariant intervals == Intervals(tensors[..i])
    {
      var interval := CheckTensor(tensors[i], payload);
      if interval.Err? {
        return Err(interval.error);
      }
      intervals := intervals + [interval.value];
    }
    assert tensors[..|tensors|] == tensors;
    ScanExact(intervals, payload);
    r := Scan(Sorted(Leq, intervals), payload);
  }

  // ---- conservation ----

  function Bytes(s: seq<Interval>): int {
    if s == [] then 0 else s[0].end - s[0].first + Bytes(s[1..])
  }

  lemma {:induction false} ChainedBytes(s: seq<Interval>, cursor: int, high: int)
    requires Chained(s, cursor, high)
    ensures Bytes(s) == high - cursor
  {
    if s != [] {
      ChainedBytes(s[1..], s[0].end, high);
    }
  }

  lemma {:induction false} InsertBytes(a: Interval, s: seq<Interval>)
    ensures Bytes(Insert(Leq, a, s)) == a.end - a.first + Bytes(s)
  {
    if s != [] && !Leq(a, s[0]) {
      InsertBytes(a, s[1..]);
      assert ([s[0]] + Insert(Leq, a, s[1..]))[1..] == Insert(Leq, a, s[1..]);
    } else {
      assert ([a] + s)[1..] == s;
    }
  }

  lemma {:induction false} SortedBytes(s: seq<Interval>)
    ensures Bytes(Sorted(Leq, s)) == Bytes(s)
  {
    if s != [] {
      SortedBytes(s[1..]);
      InsertBytes(s[0], Sorted(Leq, s[1..]));
    }
  }

  /** The tensors of an admitted header use up the payload, byte for byte. */
  lemma PayloadConserved(size: nat, length: nat, tensors: seq<Tensor>)
    requires Admissible(size, length, tensors)
    ensures Bytes(Intervals(tensors)) == size - 8 - length
  {
    var s, high := Intervals(tensors), size - 8 - length;
    ScanExact(s, high);
    ChainedBytes(Sorted(Leq, s), 0, high);
    SortedBytes(s);
  }
}
