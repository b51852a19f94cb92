/** A writer for the GGUF header grammar, and the round trip through the reader in both byte orders. */
module GgufCodec {
  import opened Wrappers
  import opened Arith
  import opened Bytes
  import opened Sequences
  import opened Parsing
  import opened Gguf

  /** A metadata entry with the value kind, and for arrays the element kind, it is written under. */
  datatype Written = Written(key: string, kind: nat, element: nat, value: Value)

  // ---- what can be written ----

  predicate TextFits(s: string) {
    |EncodeUtf8(s)| <= MAX_HEADER_BYTES
  }

  predicate ScalarFits(kind: nat, v: Value) {
    if kind == TEXT_KIND then v.Text? && TextFits(v.s)
    else
      match ScalarWidth(kind)
      case None => false
      case Some(width) =>
        if FloatKind(kind) then v.Float? && v.width == width && v.bits < Pow256(width)
        else if kind == BOOL_KIND then v.Bool?
        else if SignedKind(kind) then v.Int? && FitsSigned(v.n, width)
        else v.Int? && 0 <= v.n < Pow256(width)
  }

  predicate ValueFits(kind: nat, element: nat, v: Value) {
    if kind != ARRAY_KIND then ScalarFits(kind, v)
    else
      && v.Array?
      && |v.elements| <= MAX_ENTRIES
      && element < Pow256(4)
      && element != ARRAY_KIND
      && forall i :: 0 <= i < |v.elements| ==> ScalarFits(element, v.elements[i])
  }

  predicate EntryFits(w: Written) {
    TextFits(w.key) && w.kind < Pow256(4) && ValueFits(w.kind, w.element, w.value)
  }

  predicate TensorFits(t: Tensor) {
    && TextFits(t.name)
    && 1 <= |t.dimensions| <= 4
    && (forall i :: 0 <= i < |t.dimensions| ==> t.dimensions[i] < Pow256(8))
    && t.ggmlType < Pow256(4)
    && t.offset < Pow256(8)
  }

  /** Entries that can be written, under distinct keys. */
  predicate MetadataFits(ws: seq<Written>) {
    && |ws| <= MAX_ENTRIES
    && (forall i :: 0 <= i < |ws| ==> EntryFits(ws[i]))
    && (forall i, j :: 0 <= i < j < |ws| ==> ws[i].key != ws[j].key)
  }

  /** Tensors that can be written, under distinct names. */
  predicate TensorsFit(ts: seq<Tensor>) {
    && |ts| <= MAX_ENTRIES
    && (forall i :: 0 <= i < |ts| ==> TensorFits(ts[i]))
    && (forall i, j :: 0 <= i < j < |ts| ==> ts[i].name != ts[j].name)
  }

  // ---- writing ----

  function Mapped<A, B>(f: A -> B, xs: seq<A>): (ys: seq<B>)
    ensures |ys| == |xs| && forall i :: 0 <= i < |xs| ==> ys[i] == f(xs[i])
  {
    seq(|xs|, i requires 0 <= i < |xs| => f(xs[i]))
  }

  function WriteText(s: string, big: bool): seq<Byte> {
    ToBytes(|EncodeUtf8(s)|, 8, big) + EncodeUtf8(s)
  }

  /** The unsigned number stored for a fixed-width scalar. */
  function Stored(width: nat, v: Value): nat {
    match v
    case Float(_, bits) => bits
    case Bool(b) => if b then 1 else 0
    case Int(n) => Max(0, Unsigned(n, width))
    case _ => 0
  }

  function WriteScalar(kind: nat, v: Value, big: bool): seq<Byte> {
    if v.Text? then WriteText(v.s, big)
    else
      match ScalarWidth(kind)
      case None => []
      case Some(width) => ToBytes(Stored(width, v), width, big)
  }

  function ScalarWriter(kind: nat, big: bool): Value -> seq<Byte> {
    (v: Value) => WriteScalar(kind, v, big)
  }

  function WriteValue(kind: nat, element: nat, v: Value, big: bool): seq<Byte> {
    if !v.Array? then WriteScalar(kind, v, big)
    else
      ToBytes(element, 4, big) +
      (ToBytes(|v.elements|, 8, big) + Joined(Mapped(ScalarWriter(element, big), v.elements)))
  }

  function WriteEntry(w: Written, big: bool): seq<Byte> {
    WriteText(w.key, big) + (ToBytes(w.kind, 4, big) + WriteValue(w.kind, w.element, w.value, big))
  }

  function EntryWriter(big: bool): Written -> seq<Byte> {
    (w: Written) => WriteEntry(w, big)
  }

  function DimensionWriter(big: bool): nat -> seq<Byte> {
    (n: nat) => ToBytes(n, 8, big)
  }

  function WriteShape(t: Tensor, big: bool): seq<Byte> {
    Joined(Mapped(DimensionWriter(big), t.dimensions)) + (ToBytes(t.ggmlType, 4, big) + ToBytes(t.offset, 8, big))
  }

  function WriteTensor(t: Tensor, big: bool): seq<Byte> {
    WriteText(t.name, big) + (ToBytes(|t.dimensions|, 4, big) + WriteShape(t, big))
  }

  function TensorWriter(big: bool): Tensor -> seq<Byte> {
    (t: Tensor) => WriteTensor(t, big)
  }

  function WriteSections(ws: seq<Written>, ts: seq<Tensor>, big: bool): seq<Byte> {
    Joined(Mapped(EntryWriter(big), ws)) + Joined(Mapped(TensorWriter(big), ts))
  }

  function WriteBody(ws: seq<Written>, ts: seq<Tensor>, big: bool): seq<Byte> {
    ToBytes(VERSION, 4, big) +
    (ToBytes(|ts|, 8, big) + (ToBytes(|ws|, 8, big) + WriteSections(ws, ts, big)))
  }

  function WriteHeader(ws: seq<Written>, ts: seq<Tensor>, big: bool): seq<Byte> {
    (if big then BIG_MAGIC else LITTLE_MAGIC) + WriteBody(ws, ts, big)
  }

  // ---- reading what was written ----

  /** Powers of the widths in use. */
  lemma Powers()
    ensures Pow256(1) == 256 && Pow256(4) == 0x1_0000_0000 && Pow256(8) == 0x1_0000_0000_0000_0000
  {
    assert Pow256(2) == 65536;
    assert Pow256(4) == 0x1_0000_0000;
    assert Pow256(6) == 0x1_0000_0000_0000;
  }

  lemma {:induction false} NumberReads(n: nat, width: nat, big: bool)
    requires n < Pow256(width) && width <= 8
    ensures Reads(Number(width, big), ToBytes(n, width, big), n)
  {
    var bytes := ToBytes(n, width, big);
    IntegerRoundTrip(n, width, big);
    RawReads(bytes, MAX_HEADER_BYTES);
    MapReads(Raw(width, MAX_HEADER_BYTES), NumberOf(big), bytes, bytes);
  }

  lemma {:induction false} CountReads(n: nat, big: bool)
    requires n <= MAX_ENTRIES
    ensures Reads(Count(big), ToBytes(n, 8, big), n)
  {
    var bytes := ToBytes(n, 8, big);
    assert n < Pow256(8) by {
      Powers();
    }
    NumberReads(n, 8, big);
    PureReads(n);
    GuardReads(Pure(n), [], n);
    BindReads(Number(8, big), Bounded, bytes, n, [], n);
    assert bytes + [] == bytes;
  }

  lemma {:induction false} DecodedReads(s: string)
    requires TextFits(s)
    ensures Reads(Decoded(|EncodeUtf8(s)|), EncodeUtf8(s), s)
  {
    var bytes := EncodeUtf8(s);
    RawReads(bytes, MAX_HEADER_BYTES);
    Utf8RoundTrip(s);
    PureReads(s);
    BindReads(Raw(|bytes|, MAX_HEADER_BYTES), DecodedFrom, bytes, bytes, [], s);
    assert bytes + [] == bytes;
  }

  lemma {:induction false} LineReads(s: string, big: bool)
    requires TextFits(s)
    ensures Reads(Line(big), WriteText(s, big), s)
  {
    var length: nat := |EncodeUtf8(s)|;
    assert length < Pow256(8) by {
      Powers();
    }
    NumberReads(length, 8, big);
    DecodedReads(s);
    BindReads(Number(8, big), Decoded, ToBytes(length, 8, big), length, EncodeUtf8(s), s);
  }

  lemma {:induction false} StoredBack(kind: nat, width: nat, v: Value)
    requires ScalarWidth(kind) == Some(width) && ScalarFits(kind, v)
    ensures Stored(width, v) < Pow256(width) && ScalarOf(kind, width, Stored(width, v)) == v
  {
    Powers();
    if v.Int? && SignedKind(kind) {
      SignedRoundTrip(v.n, width);
    }
  }

  lemma {:induction false} ScalarReads(kind: nat, v: Value, big: bool)
    requires ScalarFits(kind, v)
    ensures Reads(Scalar(kind, big), WriteScalar(kind, v, big), v)
  {
    if kind == TEXT_KIND {
      LineReads(v.s, big);
      MapReads(Line(big), TextValue, WriteText(v.s, big), v.s);
    } else {
      var width := ScalarWidth(kind).value;
      var n := Stored(width, v);
      StoredBack(kind, width, v);
      NumberReads(n, width, big);
      MapReads(Number(width, big), ScalarValue(kind, width), ToBytes(n, width, big), n);
    }
  }

  lemma {:induction false} ElementsRead(kind: nat, vs: seq<Value>, big: bool)
    requires kind != ARRAY_KIND && forall i :: 0 <= i < |vs| ==> ScalarFits(kind, vs[i])
    ensures Reads(ElementsOf(kind, big)(|vs|), Joined(Mapped(ScalarWriter(kind, big), vs)), Array(vs))
  {
    var parts := Mapped(ScalarWriter(kind, big), vs);
    var read := Element(kind, big);
    forall i | 0 <= i < |vs|
      ensures Reads(read(vs[..i]), parts[i], vs[i])
    {
      ScalarReads(kind, vs[i], big);
    }
    RepeatReads(read, parts, vs);
    MapReads(Repeat(read, |vs|), ArrayValue, Joined(parts), vs);
    GuardReads(Map(Repeat(read, |vs|), ArrayValue), Joined(parts), Array(vs));
  }

  lemma {:induction false} ValueReads(kind: nat, element: nat, v: Value, big: bool)
    requires ValueFits(kind, element, v)
    ensures Reads(ValueOf(kind, big), WriteValue(kind, element, v, big), v)
  {
    if kind != ARRAY_KIND {
      ScalarReads(kind, v, big);
    } else {
      var vs := v.elements;
      var count: nat := |vs|;
      var elements := Joined(Mapped(ScalarWriter(element, big), vs));
      ElementsRead(element, vs, big);
      CountReads(|vs|, big);
      BindReads(Count(big), ElementsOf(element, big), ToBytes(count, 8, big), count, elements, v);
      NumberReads(element, 4, big);
      BindReads(Number(4, big), ArrayOf(big), ToBytes(element, 4, big), element,
        ToBytes(|vs|, 8, big) + elements, v);
    }
  }

  function Read(w: Written): Entry {
    Entry(w.key, w.value)
  }

  lemma {:induction false} EntryReads(earlier: seq<Entry>, w: Written, big: bool)
    requires EntryFits(w) && !HasKey(earlier, w.key)
    ensures Reads(MetadataEntry(big)(earlier), WriteEntry(w, big), Read(w))
  {
    var value := WriteValue(w.kind, w.element, w.value, big);
    var kind := ToBytes(w.kind, 4, big);
    ValueReads(w.kind, w.element, w.value, big);
    MapReads(ValueOf(w.kind, big), EntryValue(w.key), value, w.value);
    NumberReads(w.kind, 4, big);
    var rest := Bind(Number(4, big), EntryOfKind(w.key, big));
    BindReads(Number(4, big), EntryOfKind(w.key, big), kind, w.kind, value, Read(w));
    GuardReads(rest, kind + value, Read(w));
    LineReads(w.key, big);
    BindReads(Line(big), EntryFor(earlier, big), WriteText(w.key, big), w.key, kind + value, Read(w));
  }

  lemma {:induction false} MetadataReads(ws: seq<Written>, big: bool)
    requires MetadataFits(ws)
    ensures Reads(Repeat(MetadataEntry(big), |ws|), Joined(Mapped(EntryWriter(big), ws)), Mapped(Read, ws))
  {
    var entries, parts := Mapped(Read, ws), Mapped(EntryWriter(big), ws);
    var read := MetadataEntry(big);
    forall i | 0 <= i < |ws|
      ensures Reads(read(entries[..i]), parts[i], entries[i])
    {
      EntryReads(entries[..i], ws[i], big);
    }
    RepeatReads(read, parts, entries);
  }

  lemma {:induction false} ShapeReads(t: Tensor, big: bool)
    requires TensorFits(t)
    ensures Reads(Bind(Repeat(Dimension(big), |t.dimensions|), TensorShaped(t.name, big)), WriteShape(t, big), t)
  {
    var dimensions := t.dimensions;
    var parts := Mapped(DimensionWriter(big), dimensions);
    var read := Dimension(big);
    forall i | 0 <= i < |dimensions|
      ensures Reads(read(dimensions[..i]), parts[i], dimensions[i])
    {
      NumberReads(dimensions[i], 8, big);
    }
    RepeatReads(read, parts, dimensions);
    var kind, offset := ToBytes(t.ggmlType, 4, big), ToBytes(t.offset, 8, big);
    NumberReads(t.offset, 8, big);
    MapReads(Number(8, big), TensorPlaced(t.name, dimensions, t.ggmlType), offset, t.offset);
    NumberReads(t.ggmlType, 4, big);
    BindReads(Number(4, big), TensorTyped(t.name, dimensions, big), kind, t.ggmlType, offset, t);
    BindReads(Repeat(read, |dimensions|), TensorShaped(t.name, big), Joined(parts), dimensions, kind + offset, t);
  }

  lemma {:induction false} TensorReads(earlier: seq<Tensor>, t: Tensor, big: bool)
    requires TensorFits(t) && !HasName(earlier, t.name)
    ensures Reads(TensorEntry(big)(earlier), WriteTensor(t, big), t)
  {
    var rank: nat := |t.dimensions|;
    var shaped := Bind(Repeat(Dimension(big), rank), TensorShaped(t.name, big));
    ShapeReads(t, big);
    GuardReads(shaped, WriteShape(t, big), t);
    assert rank < Pow256(4) by {
      Powers();
    }
    NumberReads(rank, 4, big);
    var ranked := ToBytes(rank, 4, big);
    BindReads(Number(4, big), TensorRanked(earlier, t.name, big), ranked, rank, WriteShape(t, big), t);
    LineReads(t.name, big);
    BindReads(Line(big), TensorNamed(earlier, big), WriteText(t.name, big), t.name, ranked + WriteShape(t, big), t);
  }

  lemma {:induction false} TensorsRead(ts: seq<Tensor>, big: bool)
    requires TensorsFit(ts)
    ensures Reads(Repeat(TensorEntry(big), |ts|), Joined(Mapped(TensorWriter(big), ts)), ts)
  {
    var parts := Mapped(TensorWriter(big), ts);
    var read := TensorEntry(big);
    forall i | 0 <= i < |ts|
      ensures Reads(read(ts[..i]), parts[i], ts[i])
    {
      TensorReads(ts[..i], ts[i], big);
    }
    RepeatReads(read, parts, ts);
  }

  lemma {:induction false} SectionsRead(ws: seq<Written>, ts: seq<Tensor>, big: bool)
    requires MetadataFits(ws) && TensorsFit(ts)
    ensures Reads(WithMetadata(|ts|, big)(|ws|), WriteSections(ws, ts, big), Contents(Mapped(Read, ws), ts))
  {
    var entries := Mapped(Read, ws);
    var tensors := Joined(Mapped(TensorWriter(big), ts));
    TensorsRead(ts, big);
    MapReads(Repeat(TensorEntry(big), |ts|), WholeContents(entries), tensors, ts);
    MetadataReads(ws, big);
    BindReads(Repeat(MetadataEntry(big), |ws|), Sections(|ts|, big), Joined(Mapped(EntryWriter(big), ws)), entries,
      tensors, Contents(entries, ts));
  }

  lemma {:induction false} CountsRead(ws: seq<Written>, ts: seq<Tensor>, big: bool)
    requires MetadataFits(ws) && TensorsFit(ts)
    ensures Reads(Bind(Count(big), WithTensors(big)),
                  ToBytes(|ts|, 8, big) + (ToBytes(|ws|, 8, big) + WriteSections(ws, ts, big)),
                  Contents(Mapped(Read, ws), ts))
  {
    var contents, sections := Contents(Mapped(Read, ws), ts), WriteSections(ws, ts, big);
    var metadataCount: nat, tensorCount: nat := |ws|, |ts|;
    SectionsRead(ws, ts, big);
    CountReads(metadataCount, big);
    BindReads(Count(big), WithMetadata(tensorCount, big), ToBytes(metadataCount, 8, big), metadataCount,
      sections, contents);
    CountReads(tensorCount, big);
    BindReads(Count(big), WithTensors(big), ToBytes(tensorCount, 8, big), tensorCount,
      ToBytes(metadataCount, 8, big) + sections, contents);
  }

  lemma {:induction false} BodyReads(ws: seq<Written>, ts: seq<Tensor>, big: bool)
    requires MetadataFits(ws) && TensorsFit(ts)
    ensures Reads(Body(big), WriteBody(ws, ts, big), Contents(Mapped(Read, ws), ts))
  {
    var contents := Contents(Mapped(Read, ws), ts);
    var rest := ToBytes(|ts|, 8, big) + (ToBytes(|ws|, 8, big) + WriteSections(ws, ts, big));
    CountsRead(ws, ts, big);
    GuardReads(Bind(Count(big), WithTensors(big)), rest, contents);
    assert VERSION < Pow256(4) by {
      Powers();
    }
    NumberReads(VERSION, 4, big);
    BindReads(Number(4, big), Versioned(big), ToBytes(VERSION, 4, big), VERSION, rest, contents);
  }

  lemma MagicBody(data: seq<Byte>, big: bool, body: seq<Byte>)
    requires At(data, 0, (if big then BIG_MAGIC else LITTLE_MAGIC) + body)
    ensures At(data, 4, body) && ParseHeader(data) == Bind(Body(big), Finish(big))(data, 4)
  {
    var magic: seq<Byte> := if big then BIG_MAGIC else LITTLE_MAGIC;
    AtSplit(data, 0, magic, body);
    RawReads(magic, MAX_HEADER_BYTES);
    assert BIG_MAGIC[0] != LITTLE_MAGIC[0];
    assert Magic(magic) == Bind(Body(big), Finish(big));
  }

  /**
   * Round trip: any metadata and tensors the format can hold, written in either byte order and followed by any
   * payload, are read back exactly and in order, with the header length and the aligned start of the payload; the
   * only refusal left is a declared alignment that is not a positive integer.
   */
  lemma {:induction false} HeaderRoundTrip(ws: seq<Written>, ts: seq<Tensor>, big: bool, payload: seq<Byte>)
    requires MetadataFits(ws) && TensorsFit(ts)
    ensures var header := WriteHeader(ws, ts, big);
            var contents := Contents(Mapped(Read, ws), ts);
            ParseHeader(header + payload) ==
              match Alignment(contents.metadata)
              case None => Invalid(|header|)
              case Some(alignment) =>
                Done(Header(big, |header|, DataStart(|header|, alignment), contents), |header|)
  {
    var body := WriteBody(ws, ts, big);
    var header := WriteHeader(ws, ts, big);
    var data := header + payload;
    assert At(data, 0, header);
    MagicBody(data, big, body);
    BodyReads(ws, ts, big);
    assert Body(big)(data, 4) == Done(Contents(Mapped(Read, ws), ts), |header|);
  }
}
