/** Readers over a byte prefix: sequencing, repetition, and the two laws every reader built from them keeps. */
module Parsing {
  import opened Arith
  import opened Bytes
  import opened Sequences

  /** Outcome of reading from a cursor: a value, malformed bytes, or too short a prefix. */
  datatype Parse<+T> = Done(value: T, next: nat) | Invalid(at: nat) | NeedMore {
    /** How far the cursor had moved when the outcome was known. */
    function End(): nat
      requires !NeedMore?
    {
      if Done? then next else at
    }
  }

  type Reader<!T> = (seq<Byte>, nat) -> Parse<T>

  function Pure<T>(value: T): Reader<T> {
    (data: seq<Byte>, cursor: nat) => Done(value, cursor)
  }

  function Fail<T>(): Reader<T> {
    (data: seq<Byte>, cursor: nat) => Invalid(cursor)
  }

  /** Exactly `count` bytes; asking for more than the limit is answered like asking past the end. */
  function Raw(count: nat, limit: nat): Reader<seq<Byte>> {
    (data: seq<Byte>, cursor: nat) =>
      if count > limit || cursor + count > |data| then NeedMore
      else Done(data[cursor..cursor + count], cursor + count)
  }

  function Bind<A, B>(first: Reader<A>, rest: A -> Reader<B>): Reader<B> {
    (data: seq<Byte>, cursor: nat) =>
      match first(data, cursor)
      case Done(value, next) => rest(value)(data, next)
      case Invalid(at) => Invalid(at)
      case NeedMore => NeedMore
  }

  function Map<A, B>(first: Reader<A>, f: A -> B): Reader<B> {
    (data: seq<Byte>, cursor: nat) =>
      match first(data, cursor)
      case Done(value, next) => Done(f(value), next)
      case Invalid(at) => Invalid(at)
      case NeedMore => NeedMore
  }

  /** Refuses at the current cursor unless the condition holds. */
  function Guard<T>(ok: bool, rest: Reader<T>): Reader<T> {
    (data: seq<Byte>, cursor: nat) => if ok then rest(data, cursor) else Invalid(cursor)
  }

  /** Reads `count` items in order; each reader sees the items already read. */
  function Repeat<T>(read: seq<T> -> Reader<T>, count: nat): Reader<seq<T>> {
    if count == 0 then Pure([]) else Bind(Repeat(read, count - 1), More(read))
  }

  function More<T>(read: seq<T> -> Reader<T>): seq<T> -> Reader<seq<T>> {
    (items: seq<T>) => Map(read(items), Append(items))
  }

  function Append<T>(items: seq<T>): T -> seq<T> {
    (item: T) => items + [item]
  }

  // ---- self-delimiting ----

  /** Two inputs share their first `end` bytes. */
  predicate Agree(a: seq<Byte>, b: seq<Byte>, end: nat) {
    end <= |a| && end <= |b| && forall i :: 0 <= i < end ==> a[i] == b[i]
  }

  predicate Settled<T>(a: seq<Byte>, b: seq<Byte>, r: Parse<T>) {
    !r.NeedMore? && Agree(a, b, r.End())
  }

  predicate Delimits<T(==)>(a: seq<Byte>, b: seq<Byte>, cursor: nat, ra: Parse<T>, rb: Parse<T>) {
    && (!ra.NeedMore? ==> cursor <= ra.End() <= Max(cursor, |a|))
    && (Settled(a, b, ra) ==> rb == ra)
  }

  /**
   * A settled outcome ends at or after its start, inside any input it started in, and is the same on every input
   * that agrees up to that end.
   */
  ghost predicate SelfDelimiting<T>(p: Reader<T>) {
    forall a, b, cursor: nat :: Delimits(a, b, cursor, p(a, cursor), p(b, cursor))
  }

  lemma PureDelimits<T>(value: T)
    ensures SelfDelimiting(Pure(value))
  {
  }

  lemma FailDelimits<T>()
    ensures SelfDelimiting(Fail<T>())
  {
  }

  lemma RawDelimits(count: nat, limit: nat)
    ensures SelfDelimiting(Raw(count, limit))
  {
    var p := Raw(count, limit);
    forall a, b, cursor: nat
      ensures Delimits(a, b, cursor, p(a, cursor), p(b, cursor))
    {
      if Settled(a, b, p(a, cursor)) {
        assert a[cursor..cursor + count] == b[cursor..cursor + count];
      }
    }
  }

  lemma BindDelimits<A(!new), B>(first: Reader<A>, rest: A -> Reader<B>)
    requires SelfDelimiting(first) && forall value :: SelfDelimiting(rest(value))
    ensures SelfDelimiting(Bind(first, rest))
  {
    var p := Bind(first, rest);
    forall a, b, cursor: nat
      ensures Delimits(a, b, cursor, p(a, cursor), p(b, cursor))
    {
      var ra := first(a, cursor);
      assert Delimits(a, b, cursor, ra, first(b, cursor));
      if ra.Done? {
        var next := rest(ra.value);
        assert SelfDelimiting(next);
        assert Delimits(a, b, ra.next, next(a, ra.next), next(b, ra.next));
      }
    }
  }

  lemma MapDelimits<A, B>(first: Reader<A>, f: A -> B)
    requires SelfDelimiting(first)
    ensures SelfDelimiting(Map(first, f))
  {
    var p := Map(first, f);
    forall a, b, cursor: nat
      ensures Delimits(a, b, cursor, p(a, cursor), p(b, cursor))
    {
      assert Delimits(a, b, cursor, first(a, cursor), first(b, cursor));
    }
  }

  lemma GuardDelimits<T>(ok: bool, rest: Reader<T>)
    requires ok ==> SelfDelimiting(rest)
    ensures SelfDelimiting(Guard(ok, rest))
  {
    var p := Guard(ok, rest);
    forall a, b, cursor: nat
      ensures Delimits(a, b, cursor, p(a, cursor), p(b, cursor))
    {
      if ok {
        assert Delimits(a, b, cursor, rest(a, cursor), rest(b, cursor));
      }
    }
  }

  lemma {:induction false} RepeatDelimits<T(!new)>(read: seq<T> -> Reader<T>, count: nat)
    requires forall items :: SelfDelimiting(read(items))
    ensures SelfDelimiting(Repeat(read, count))
  {
    if count == 0 {
      PureDelimits<seq<T>>([]);
    } else {
      RepeatDelimits(read, count - 1);
      forall items
        ensures SelfDelimiting(More(read)(items))
      {
        MapDelimits(read(items), Append(items));
      }
      BindDelimits(Repeat(read, count - 1), More(read));
    }
  }

  // ---- reading back ----

  /** The bytes stand in the input at the cursor. */
  predicate At(data: seq<Byte>, cursor: nat, bytes: seq<Byte>) {
    cursor + |bytes| <= |data| && data[cursor..cursor + |bytes|] == bytes
  }

  /** Wherever the bytes stand, the reader consumes exactly them and yields the value. */
  ghost predicate Reads<T>(p: Reader<T>, bytes: seq<Byte>, value: T) {
    forall data, cursor: nat :: At(data, cursor, bytes) ==> p(data, cursor) == Done(value, cursor + |bytes|)
  }

  lemma AtSplit(data: seq<Byte>, cursor: nat, x: seq<Byte>, y: seq<Byte>)
    requires At(data, cursor, x + y)
    ensures At(data, cursor, x) && At(data, cursor + |x|, y)
  {
    var s := data[cursor..cursor + |x + y|];
    assert s[..|x|] == x && s[|x|..] == y;
    assert data[cursor..cursor + |x|] == s[..|x|];
    assert data[cursor + |x|..cursor + |x| + |y|] == s[|x|..];
  }

  lemma PureReads<T>(value: T)
    ensures Reads(Pure(value), [], value)
  {
  }

  lemma RawReads(bytes: seq<Byte>, limit: nat)
    requires |bytes| <= limit
    ensures Reads(Raw(|bytes|, limit), bytes, bytes)
  {
  }

  lemma BindReads<A, B>(first: Reader<A>, rest: A -> Reader<B>, x: seq<Byte>, a: A, y: seq<Byte>, b: B)
    requires Reads(first, x, a) && Reads(rest(a), y, b)
    ensures Reads(Bind(first, rest), x + y, b)
  {
    var p := Bind(first, rest);
    forall data, cursor: nat | At(data, cursor, x + y)
      ensures p(data, cursor) == Done(b, cursor + |x + y|)
    {
      AtSplit(data, cursor, x, y);
    }
  }

  lemma MapReads<A, B>(first: Reader<A>, f: A -> B, x: seq<Byte>, a: A)
    requires Reads(first, x, a)
    ensures Reads(Map(first, f), x, f(a))
  {
  }

  lemma GuardReads<T>(rest: Reader<T>, x: seq<Byte>, a: T)
    requires Reads(rest, x, a)
    ensures Reads(Guard(true, rest), x, a)
  {
  }

  lemma {:induction false} RepeatReads<T>(read: seq<T> -> Reader<T>, parts: seq<seq<Byte>>, items: seq<T>)
    requires |parts| == |items|
    requires forall i :: 0 <= i < |items| ==> Reads(read(items[..i]), parts[i], items[i])
    ensures Reads(Repeat(read, |items|), Joined(parts), items)
  {
    var n := |items|;
    if n == 0 {
      assert items == [];
      PureReads<seq<T>>([]);
    } else {
      var front, last := items[..n - 1], items[n - 1];
      assert front + [last] == items;
      assert forall i :: 0 <= i < n - 1 ==> front[..i] == items[..i];
      RepeatReads(read, parts[..n - 1], front);
      MapReads(read(front), Append(front), parts[n - 1], last);
      BindReads(Repeat(read, n - 1), More(read), Joined(parts[..n - 1]), front, parts[n - 1], items);
    }
  }
}
