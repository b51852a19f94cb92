/** Bytes, fixed-width integers in either byte order, and UTF-8 text. */
module Bytes {
  import opened Wrappers

  type Byte = b: int | 0 <= b < 256

  // ---- fixed-width integers ----

  function Pow256(width: nat): (p: nat)
    ensures p > 0
  {
    if width == 0 then 1 else 256 * Pow256(width - 1)
  }

  function FromLittle(bs: seq<Byte>): (n: nat)
    ensures n < Pow256(|bs|)
  {
    if bs == [] then 0 else bs[0] + 256 * FromLittle(bs[1..])
  }

  function ToLittle(n: nat, width: nat): (bs: seq<Byte>)
    ensures |bs| == width
  {
    if width == 0 then [] else [n % 256] + ToLittle(n / 256, width - 1)
  }

  lemma {:induction false} LittleRoundTrip(n: nat, width: nat)
    requires n < Pow256(width)
    ensures FromLittle(ToLittle(n, width)) == n
  {
    if width > 0 {
      LittleRoundTrip(n / 256, width - 1);
      assert ToLittle(n, width)[1..] == ToLittle(n / 256, width - 1);
    }
  }

  function Reversed(bs: seq<Byte>): (r: seq<Byte>)
    ensures |r| == |bs| && forall i :: 0 <= i < |bs| ==> r[i] == bs[|bs| - 1 - i]
  {
    if bs == [] then [] else [bs[|bs| - 1]] + Reversed(bs[..|bs| - 1])
  }

  function FromBytes(bs: seq<Byte>, big: bool): (n: nat)
    ensures n < Pow256(|bs|)
  {
    FromLittle(if big then Reversed(bs) else bs)
  }

  function ToBytes(n: nat, width: nat, big: bool): (bs: seq<Byte>)
    ensures |bs| == width
  {
    if big then Reversed(ToLittle(n, width)) else ToLittle(n, width)
  }

  /** Encoding and reading back agree in either byte order. */
  lemma IntegerRoundTrip(n: nat, width: nat, big: bool)
    requires n < Pow256(width)
    ensures FromBytes(ToBytes(n, width, big), big) == n
  {
    LittleRoundTrip(n, width);
    var little := ToLittle(n, width);
    assert Reversed(Reversed(little)) == little;
  }

  /** Two's complement. */
  function Signed(n: nat, width: nat): int
    requires n < Pow256(width)
  {
    if 2 * n >= Pow256(width) then n - Pow256(width) else n
  }

  function Unsigned(v: int, width: nat): int {
    if v < 0 then v + Pow256(width) else v
  }

  predicate FitsSigned(v: int, width: nat) {
    0 <= 2 * v + Pow256(width) < 2 * Pow256(width)
  }

  lemma SignedRoundTrip(v: int, width: nat)
    requires FitsSigned(v, width)
    ensures 0 <= Unsigned(v, width) < Pow256(width) && Signed(Unsigned(v, width), width) == v
  {
  }

  // ---- UTF-8 ----

  predicate Continuation(b: Byte) {
    0x80 <= b < 0xC0
  }

  predicate ScalarPoint(n: int) {
    0 <= n < 0xD800 || 0xE000 <= n < 0x11_0000
  }

  /** Encoded length announced by a leading byte; zero for a byte that cannot lead. */
  function Width(lead: Byte): nat {
    if lead < 0x80 then 1
    else if 0xC2 <= lead < 0xE0 then 2
    else if 0xE0 <= lead < 0xF0 then 3
    else if 0xF0 <= lead < 0xF5 then 4
    else 0
  }

  /** Appends six bits to a code point under construction. */
  function Push(high: int, b: Byte): int {
    high * 64 + ((b as int) - 0x80)
  }

  /** The code point of a complete sequence of the announced width, if it is well formed and shortest. */
  function CodePoint(bs: seq<Byte>): Option<char>
    requires bs != [] && |bs| == Width(bs[0])
  {
    var lead: int := bs[0];
    match |bs|
    case 1 => Some(lead as char)
    case 2 =>
      if Continuation(bs[1]) then Some(Push(lead - 0xC0, bs[1]) as char) else None
    case 3 =>
      if Continuation(bs[1]) && Continuation(bs[2]) then
        var n := Push(Push(lead - 0xE0, bs[1]), bs[2]);
        if n >= 0x800 && ScalarPoint(n) then Some(n as char) else None
      else None
    case _ =>
      if Continuation(bs[1]) && Continuation(bs[2]) && Continuation(bs[3]) then
        var n := Push(Push(Push(lead - 0xF0, bs[1]), bs[2]), bs[3]);
        if n >= 0x1_0000 && ScalarPoint(n) then Some(n as char) else None
      else None
  }

  /** Strict decoding: every byte belongs to a well-formed shortest sequence. */
  function DecodeUtf8(bs: seq<Byte>): Option<string> {
    if bs == [] then Some("")
    else
      var w := Width(bs[0]);
      if w == 0 || w > |bs| then None
      else
        match CodePoint(bs[..w])
        case None => None
        case Some(c) =>
          match DecodeUtf8(bs[w..])
          case None => None
          case Some(rest) => Some([c] + rest)
  }

  /** The continuation byte holding the low six bits. */
  function Low(n: nat): Byte {
    0x80 + n % 64
  }

  function EncodeChar(c: char): (bs: seq<Byte>)
    ensures bs != []
  {
    var n := c as int;
    var n1 := n / 64;
    var n2 := n1 / 64;
    var n3 := n2 / 64;
    if n < 0x80 then [n]
    else if n < 0x800 then [0xC0 + n1, Low(n)]
    else if n < 0x1_0000 then [0xE0 + n2, Low(n1), Low(n)]
    else [0xF0 + n3, Low(n2), Low(n1), Low(n)]
  }

  function EncodeUtf8(s: string): seq<Byte> {
    if s == "" then [] else EncodeChar(s[0]) + EncodeUtf8(s[1..])
  }

  lemma PushLow(n: nat)
    ensures Continuation(Low(n)) && Push(n / 64, Low(n)) == n
  {
  }

  lemma LowPush(high: nat, b: Byte)
    requires Continuation(b)
    ensures Push(high, b) >= 0 && Push(high, b) / 64 == high && Low(Push(high, b)) == b
  {
  }

  lemma CharRoundTrip(c: char)
    ensures |EncodeChar(c)| == Width(EncodeChar(c)[0]) && CodePoint(EncodeChar(c)) == Some(c)
  {
    var n := c as int;
    PushLow(n);
    PushLow(n / 64);
    PushLow(n / 64 / 64);
  }

  /** A well-formed sequence is the encoding of its code point. */
  lemma CharCanonical(bs: seq<Byte>)
    requires bs != [] && |bs| == Width(bs[0]) && CodePoint(bs).Some?
    ensures EncodeChar(CodePoint(bs).value) == bs
  {
    var lead: int := bs[0];
    match |bs|
    case 1 =>
    case 2 =>
      LowPush(lead - 0xC0, bs[1]);
    case 3 =>
      LowPush(lead - 0xE0, bs[1]);
      LowPush(Push(lead - 0xE0, bs[1]), bs[2]);
    case _ =>
      LowPush(lead - 0xF0, bs[1]);
      LowPush(Push(lead - 0xF0, bs[1]), bs[2]);
      LowPush(Push(Push(lead - 0xF0, bs[1]), bs[2]), bs[3]);
  }

  /** Decoding undoes encoding for every text. */
  lemma {:induction false} Utf8RoundTrip(s: string)
    ensures DecodeUtf8(EncodeUtf8(s)) == Some(s)
  {
    if s != "" {
      Utf8RoundTrip(s[1..]);
      CharRoundTrip(s[0]);
      var head, tail := EncodeChar(s[0]), EncodeUtf8(s[1..]);
      assert (head + tail)[..|head|] == head && (head + tail)[|head|..] == tail;
      assert s == [s[0]] + s[1..];
    }
  }

  /** Encoding undoes decoding, so equal texts have equal bytes. */
  lemma {:induction false} Utf8Canonical(bs: seq<Byte>)
    requires DecodeUtf8(bs).Some?
    ensures EncodeUtf8(DecodeUtf8(bs).value) == bs
  {
    if bs != [] {
      var w := Width(bs[0]);
      var head, tail := bs[..w], bs[w..];
      assert bs == head + tail;
      var c, rest := CodePoint(head).value, DecodeUtf8(tail).value;
      var s := [c] + rest;
      assert DecodeUtf8(bs) == Some(s) && s[1..] == rest;
      CharCanonical(head);
      Utf8Canonical(tail);
    }
  }
}
