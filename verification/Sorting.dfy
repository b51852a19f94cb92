/** Stable sorting by a preorder given as a function. */
module Sorting {

  ghost predicate Preorder<T(!new)>(leq: (T, T) -> bool) {
    && (forall a, b :: leq(a, b) || leq(b, a))
    && (forall a, b, c :: leq(a, b) && leq(b, c) ==> leq(a, c))
  }

  ghost predicate Ordered<T>(leq: (T, T) -> bool, s: seq<T>) {
    forall i, j :: 0 <= i < j < |s| ==> leq(s[i], s[j])
  }

  /** Places an element before the first one it may precede. */
  function Insert<T>(leq: (T, T) -> bool, x: T, s: seq<T>): seq<T> {
    if s == [] || leq(x, s[0]) then [x] + s else [s[0]] + Insert(leq, x, s[1..])
  }

  function Sorted<T>(leq: (T, T) -> bool, s: seq<T>): seq<T> {
    if s == [] then [] else Insert(leq, s[0], Sorted(leq, s[1..]))
  }

  lemma {:induction false} InsertPermutes<T>(leq: (T, T) -> bool, x: T, s: seq<T>)
    ensures multiset(Insert(leq, x, s)) == multiset([x] + s)
  {
    if s != [] && !leq(x, s[0]) {
      InsertPermutes(leq, x, s[1..]);
      assert s == [s[0]] + s[1..];
    }
  }

  lemma {:induction false} SortedPermutes<T>(leq: (T, T) -> bool, s: seq<T>)
    ensures multiset(Sorted(leq, s)) == multiset(s)
  {
    if s != [] {
      SortedPermutes(leq, s[1..]);
      InsertPermutes(leq, s[0], Sorted(leq, s[1..]));
      assert s == [s[0]] + s[1..];
    }
  }

  /** Sorting keeps the same members. */
  lemma SortedMembers<T>(leq: (T, T) -> bool, s: seq<T>)
    ensures |Sorted(leq, s)| == |s| && forall x :: x in Sorted(leq, s) <==> x in s
  {
    SortedPermutes(leq, s);
    var t := Sorted(leq, s);
    assert |multiset(t)| == |t| && |multiset(s)| == |s|;
    forall x
      ensures x in t <==> x in s
    {
      assert x in t <==> x in multiset(t);
      assert x in s <==> x in multiset(s);
    }
  }

  lemma {:induction false} InsertOrders<T(!new)>(leq: (T, T) -> bool, x: T, s: seq<T>)
    requires Preorder(leq) && Ordered(leq, s)
    ensures Ordered(leq, Insert(leq, x, s))
  {
    if s != [] {
      if leq(x, s[0]) {
        var t := [x] + s;
        forall i, j | 0 <= i < j < |t|
          ensures leq(t[i], t[j])
        {
          assert leq(s[0], s[0]);
        }
      } else {
        assert Ordered(leq, s[1..]);
        InsertOrders(leq, x, s[1..]);
        var rest := Insert(leq, x, s[1..]);
        InsertPermutes(leq, x, s[1..]);
        forall j | 0 <= j < |rest|
          ensures leq(s[0], rest[j])
        {
          assert rest[j] in multiset([x] + s[1..]);
        }
      }
    }
  }

  lemma {:induction false} SortedOrders<T(!new)>(leq: (T, T) -> bool, s: seq<T>)
    requires Preorder(leq)
    ensures Ordered(leq, Sorted(leq, s))
  {
    if s != [] {
      SortedOrders(leq, s[1..]);
      InsertOrders(leq, s[0], Sorted(leq, s[1..]));
    }
  }

  // ---- name order ----

  /** Lexicographic order of names, which is also the order of their UTF-8 bytes. */
  predicate NameLeq(a: string, b: string) {
    a == "" || (b != "" && (a[0] < b[0] || (a[0] == b[0] && NameLeq(a[1..], b[1..]))))
  }

  lemma {:induction false} NameTotal(a: string, b: string)
    ensures NameLeq(a, b) || NameLeq(b, a)
    ensures NameLeq(a, b) && NameLeq(b, a) ==> a == b
  {
    if a != "" && b != "" && a[0] == b[0] {
      NameTotal(a[1..], b[1..]);
      assert a == [a[0]] + a[1..] && b == [b[0]] + b[1..];
    }
  }

  lemma {:induction false} NameTransitive(a: string, b: string, c: string)
    requires NameLeq(a, b) && NameLeq(b, c)
    ensures NameLeq(a, c)
  {
    if a != "" && a[0] == b[0] == c[0] {
      NameTransitive(a[1..], b[1..], c[1..]);
    }
  }
}
