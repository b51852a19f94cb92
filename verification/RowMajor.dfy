/** Row-major ordinals of multi-dimensional coordinates. */
module RowMajor {
  import opened Arith

  function Size(shape: seq<nat>): nat {
    if shape == [] then 1 else shape[0] * Size(shape[1..])
  }

  ghost predicate Positive(shape: seq<nat>) {
    forall d :: 0 <= d < |shape| ==> shape[d] > 0
  }

  lemma {:induction false} SizePositive(shape: seq<nat>)
    ensures Positive(shape) <==> Size(shape) > 0
  {
    if shape != [] {
      SizePositive(shape[1..]);
      assert Positive(shape) <==> shape[0] > 0 && Positive(shape[1..]) by {
        assert forall d :: 1 <= d < |shape| ==> shape[d] == shape[1..][d - 1];
      }
      if shape[0] > 0 && Size(shape[1..]) > 0 { MulStrict(0, shape[0], Size(shape[1..])); }
    }
  }

  predicate InShape(shape: seq<nat>, c: seq<nat>) {
    |c| == |shape| && forall d :: 0 <= d < |shape| ==> c[d] < shape[d]
  }

  /** The position of a coordinate in row-major order. */
  function Flatten(shape: seq<nat>, c: seq<nat>): nat
    requires |c| == |shape|
  {
    if shape == [] then 0 else c[0] * Size(shape[1..]) + Flatten(shape[1..], c[1..])
  }

  lemma {:induction false} FlattenBound(shape: seq<nat>, c: seq<nat>)
    requires InShape(shape, c)
    ensures Flatten(shape, c) < Size(shape)
  {
    if shape != [] {
      FlattenBound(shape[1..], c[1..]);
      MulMonotone(c[0] + 1, shape[0], Size(shape[1..]));
      assert (c[0] + 1) * Size(shape[1..]) == c[0] * Size(shape[1..]) + Size(shape[1..]);
    }
  }

  /** The coordinate at a row-major position. */
  function Unflatten(shape: seq<nat>, i: nat): (c: seq<nat>)
    requires Size(shape) > 0
    ensures |c| == |shape|
  {
    if shape == [] then []
    else
      SizePositive(shape);
      SizePositive(shape[1..]);
      var tail := Size(shape[1..]);
      [i / tail] + Unflatten(shape[1..], i % tail)
  }

  lemma ConsInShape(shape: seq<nat>, head: nat, tail: seq<nat>)
    requires shape != [] && head < shape[0] && InShape(shape[1..], tail)
    ensures InShape(shape, [head] + tail)
    ensures Flatten(shape, [head] + tail) == head * Size(shape[1..]) + Flatten(shape[1..], tail)
  {
    var c := [head] + tail;
    assert c[1..] == tail;
    assert forall d :: 1 <= d < |shape| ==> c[d] == tail[d - 1] && shape[d] == shape[1..][d - 1];
  }

  lemma HeadBound(i: nat, s: nat, t: nat)
    requires t > 0 && i < s * t
    ensures i / t < s && (i / t) * t + i % t == i
  {
    DivBracket(i, t, s);
  }

  /** The leading coordinate and the position within its row. */
  lemma UnflattenCons(shape: seq<nat>, i: nat) returns (head: nat, low: nat)
    requires shape != [] && i < Size(shape)
    ensures low < Size(shape[1..]) && head < shape[0] && head * Size(shape[1..]) + low == i
    ensures Unflatten(shape, i) == [head] + Unflatten(shape[1..], low)
  {
    SizePositive(shape);
    SizePositive(shape[1..]);
    var tail := Size(shape[1..]);
    HeadBound(i, shape[0], tail);
    head, low := i / tail, i % tail;
  }

  lemma {:induction false} UnflattenInShape(shape: seq<nat>, i: nat)
    requires i < Size(shape)
    ensures InShape(shape, Unflatten(shape, i)) && Flatten(shape, Unflatten(shape, i)) == i
    decreases |shape|
  {
    if shape != [] {
      var head, low := UnflattenCons(shape, i);
      UnflattenInShape(shape[1..], low);
      FlattenAtHead(shape, i, head, low, Unflatten(shape[1..], low));
    }
  }

  lemma FlattenAtHead(shape: seq<nat>, i: nat, head: nat, low: nat, rest: seq<nat>)
    requires shape != [] && head < shape[0] && InShape(shape[1..], rest)
    requires head * Size(shape[1..]) + low == i && Flatten(shape[1..], rest) == low
    ensures InShape(shape, [head] + rest) && Flatten(shape, [head] + rest) == i
  {
    ConsInShape(shape, head, rest);
  }

  lemma {:induction false} UnflattenFlatten(shape: seq<nat>, c: seq<nat>)
    requires InShape(shape, c)
    ensures Size(shape) > 0
    ensures Unflatten(shape, Flatten(shape, c)) == c
  {
    FlattenBound(shape, c);
    if shape != [] {
      SizePositive(shape);
      SizePositive(shape[1..]);
      UnflattenFlatten(shape[1..], c[1..]);
      FlattenBound(shape[1..], c[1..]);
      DivUnique(Flatten(shape, c), Size(shape[1..]), c[0], Flatten(shape[1..], c[1..]));
    }
  }

  /** Lexicographic order on coordinates of one rank. */
  predicate LexLess(c: seq<nat>, d: seq<nat>)
    requires |c| == |d|
  {
    c != [] && (c[0] < d[0] || (c[0] == d[0] && LexLess(c[1..], d[1..])))
  }

  /** Row-major order is lexicographic order. */
  lemma {:induction false} LexIffFlatten(shape: seq<nat>, c: seq<nat>, d: seq<nat>)
    requires InShape(shape, c) && InShape(shape, d)
    ensures LexLess(c, d) <==> Flatten(shape, c) < Flatten(shape, d)
  {
    if shape != [] {
      var tail := Size(shape[1..]);
      LexIffFlatten(shape[1..], c[1..], d[1..]);
      FlattenBound(shape[1..], c[1..]);
      FlattenBound(shape[1..], d[1..]);
      if c[0] < d[0] {
        MulMonotone(c[0] + 1, d[0], tail);
        assert (c[0] + 1) * tail == c[0] * tail + tail;
      } else if d[0] < c[0] {
        MulMonotone(d[0] + 1, c[0], tail);
        assert (d[0] + 1) * tail == d[0] * tail + tail;
      }
    }
  }

  /** A coordinate read through per-axis starts and strides. */
  function Strided(starts: seq<nat>, strides: seq<nat>, c: seq<nat>): (p: seq<nat>)
    requires |starts| == |strides| == |c|
    ensures |p| == |c|
    ensures forall d :: 0 <= d < |c| ==> p[d] == starts[d] + c[d] * strides[d]
  {
    if c == [] then [] else [starts[0] + c[0] * strides[0]] + Strided(starts[1..], strides[1..], c[1..])
  }

  /** Positive strides keep lexicographic order. */
  lemma {:induction false} StridedLex(starts: seq<nat>, strides: seq<nat>, c: seq<nat>, d: seq<nat>)
    requires |starts| == |strides| == |c| == |d| && Positive(strides)
    requires LexLess(c, d)
    ensures LexLess(Strided(starts, strides, c), Strided(starts, strides, d))
  {
    if c[0] < d[0] {
      MulStrict(c[0], d[0], strides[0]);
    } else {
      assert Positive(strides[1..]) by {
        assert forall k :: 0 <= k < |strides| - 1 ==> strides[1..][k] == strides[k + 1];
      }
      StridedLex(starts[1..], strides[1..], c[1..], d[1..]);
    }
  }

  /** Splitting a position by a suffix of the shape. */
  lemma SplitPosition(n: nat, s: nat, t: nat)
    requires s > 0 && t > 0
    ensures s * t > 0
    ensures n / (s * t) == (n / t) / s
    ensures (n % (s * t)) / t == (n / t) % s
    ensures (n % (s * t)) % t == n % t
  {
    MulStrict(0, s, t);
    var q, r := n / t, n % t;
    var a, b := q / s, q % s;
    assert n == a * (s * t) + (b * t + r) by {
      assert n == q * t + r && q == a * s + b;
      assert (a * s + b) * t == a * (s * t) + b * t;
    }
    MulMonotone(b + 1, s, t);
    assert (b + 1) * t == b * t + t;
    DivUnique(n, s * t, a, b * t + r);
    DivUnique(b * t + r, t, b, r);
  }
}
