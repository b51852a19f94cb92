/** The header grammar of a GGUF version 3 container, read from a byte prefix. */
module Gguf {
  import opened Wrappers
  import opened Arith
  import opened Bytes
  import opened Parsing

  const MAX_HEADER_BYTES: nat := 16 * 1024 * 1024
  const MAX_ENTRIES: nat := 1_000_000
  const VERSION: nat := 3
  const DEFAULT_ALIGNMENT: nat := 32

  /** Metadata values; integers of every width and sign are one kind, floats keep their bits. */
  datatype Value =
    | Int(n: int)
    | Float(width: nat, bits: nat)
    | Bool(b: bool)
    | Text(s: string)
    | Array(elements: seq<Value>)

  datatype Entry = Entry(key: string, value: Value)

  datatype Tensor = Tensor(name: string, dimensions: seq<nat>, ggmlType: nat, offset: nat)

  datatype Contents = Contents(metadata: seq<Entry>, tensors: seq<Tensor>)

  /** What header inspection reports. */
  datatype Header = Header(big: bool, headerBytes: nat, dataStart: nat, contents: Contents)

  // ---- numbers and text ----

  function Number(width: nat, big: bool): Reader<nat> {
    Map(Raw(width, MAX_HEADER_BYTES), NumberOf(big))
  }

  function NumberOf(big: bool): seq<Byte> -> nat {
    (bytes: seq<Byte>) => FromBytes(bytes, big)
  }

  function Count(big: bool): Reader<nat> {
    Bind(Number(8, big), Bounded)
  }

  function Bounded(n: nat): Reader<nat> {
    Guard(n <= MAX_ENTRIES, Pure(n))
  }

  function Line(big: bool): Reader<string> {
    Bind(Number(8, big), Decoded)
  }

  function Decoded(length: nat): Reader<string> {
    Bind(Raw(length, MAX_HEADER_BYTES), DecodedFrom)
  }

  function DecodedFrom(bytes: seq<Byte>): Reader<string> {
    match DecodeUtf8(bytes)
    case None => Fail()
    case Some(s) => Pure(s)
  }

  // ---- metadata ----

  const TEXT_KIND: nat := 8
  const ARRAY_KIND: nat := 9

  /** Fixed-width scalar kinds. */
  function ScalarWidth(kind: nat): Option<nat> {
    match kind
    case 0 => Some(1) case 1 => Some(1) case 7 => Some(1)
    case 2 => Some(2) case 3 => Some(2)
    case 4 => Some(4) case 5 => Some(4) case 6 => Some(4)
    case 10 => Some(8) case 11 => Some(8) case 12 => Some(8)
    case _ => None
  }

  predicate SignedKind(kind: nat) {
    kind == 1 || kind == 3 || kind == 5 || kind == 11
  }

  predicate FloatKind(kind: nat) {
    kind == 6 || kind == 12
  }

  const BOOL_KIND: nat := 7

  function ScalarOf(kind: nat, width: nat, n: nat): Value {
    if FloatKind(kind) then Float(width, n)
    else if kind == BOOL_KIND then Bool(n != 0)
    else if SignedKind(kind) && n < Pow256(width) then Int(Signed(n, width))
    else Int(n)
  }

  /** A value that is not an array. */
  function Scalar(kind: nat, big: bool): Reader<Value> {
    if kind == TEXT_KIND then Map(Line(big), TextValue)
    else
      match ScalarWidth(kind)
      case None => Fail()
      case Some(width) => Map(Number(width, big), ScalarValue(kind, width))
  }

  function TextValue(s: string): Value {
    Text(s)
  }

  function ScalarValue(kind: nat, width: nat): nat -> Value {
    (n: nat) => ScalarOf(kind, width, n)
  }

  /** Array elements share one kind; a nested array is refused once its count has been read. */
  function ValueOf(kind: nat, big: bool): Reader<Value> {
    if kind != ARRAY_KIND then Scalar(kind, big) else Bind(Number(4, big), ArrayOf(big))
  }

  function ArrayOf(big: bool): nat -> Reader<Value> {
    (element: nat) => Bind(Count(big), ElementsOf(element, big))
  }

  function ElementsOf(element: nat, big: bool): nat -> Reader<Value> {
    (count: nat) =>
      Guard(element != ARRAY_KIND, Map(Repeat(Element(element, big), count), ArrayValue))
  }

  function Element(kind: nat, big: bool): seq<Value> -> Reader<Value> {
    (earlier: seq<Value>) => Scalar(kind, big)
  }

  function ArrayValue(elements: seq<Value>): Value {
    Array(elements)
  }

  predicate HasKey(entries: seq<Entry>, key: string) {
    exists i :: 0 <= i < |entries| && entries[i].key == key
  }

  /** One entry; a key already read is refused before its value. */
  function MetadataEntry(big: bool): seq<Entry> -> Reader<Entry> {
    (earlier: seq<Entry>) => Bind(Line(big), EntryFor(earlier, big))
  }

  function EntryFor(earlier: seq<Entry>, big: bool): string -> Reader<Entry> {
    (key: string) => Guard(!HasKey(earlier, key), Bind(Number(4, big), EntryOfKind(key, big)))
  }

  function EntryOfKind(key: string, big: bool): nat -> Reader<Entry> {
    (kind: nat) => Map(ValueOf(kind, big), EntryValue(key))
  }

  function EntryValue(key: string): Value -> Entry {
    (value: Value) => Entry(key, value)
  }

  // ---- tensors ----

  predicate HasName(tensors: seq<Tensor>, name: string) {
    exists i :: 0 <= i < |tensors| && tensors[i].name == name
  }

  /** One tensor descriptor; the rank is read before a repeated name is refused. */
  function TensorEntry(big: bool): seq<Tensor> -> Reader<Tensor> {
    (earlier: seq<Tensor>) => Bind(Line(big), TensorNamed(earlier, big))
  }

  function TensorNamed(earlier: seq<Tensor>, big: bool): string -> Reader<Tensor> {
    (name: string) => Bind(Number(4, big), TensorRanked(earlier, name, big))
  }

  function TensorRanked(earlier: seq<Tensor>, name: string, big: bool): nat -> Reader<Tensor> {
    (rank: nat) =>
      Guard(1 <= rank <= 4 && !HasName(earlier, name), Bind(Repeat(Dimension(big), rank), TensorShaped(name, big)))
  }

  function Dimension(big: bool): seq<nat> -> Reader<nat> {
    (earlier: seq<nat>) => Number(8, big)
  }

  function TensorShaped(name: string, big: bool): seq<nat> -> Reader<Tensor> {
    (dimensions: seq<nat>) => Bind(Number(4, big), TensorTyped(name, dimensions, big))
  }

  function TensorTyped(name: string, dimensions: seq<nat>, big: bool): nat -> Reader<Tensor> {
    (ggmlType: nat) => Map(Number(8, big), TensorPlaced(name, dimensions, ggmlType))
  }

  function TensorPlaced(name: string, dimensions: seq<nat>, ggmlType: nat): nat -> Tensor {
    (offset: nat) => Tensor(name, dimensions, ggmlType, offset)
  }

  // ---- the whole header ----

  const LITTLE_MAGIC: seq<Byte> := [0x47, 0x47, 0x55, 0x46]
  const BIG_MAGIC: seq<Byte> := [0x46, 0x55, 0x47, 0x47]

  /** Version, the two counts, metadata and tensors; the byte order is known from the magic. */
  function Body(big: bool): Reader<Contents> {
    Bind(Number(4, big), Versioned(big))
  }

  function Versioned(big: bool): nat -> Reader<Contents> {
    (version: nat) => Guard(version == VERSION, Bind(Count(big), WithTensors(big)))
  }

  function WithTensors(big: bool): nat -> Reader<Contents> {
    (tensorCount: nat) => Bind(Count(big), WithMetadata(tensorCount, big))
  }

  function WithMetadata(tensorCount: nat, big: bool): nat -> Reader<Contents> {
    (metadataCount: nat) => Bind(Repeat(MetadataEntry(big), metadataCount), Sections(tensorCount, big))
  }

  function Sections(tensorCount: nat, big: bool): seq<Entry> -> Reader<Contents> {
    (metadata: seq<Entry>) => Map(Repeat(TensorEntry(big), tensorCount), WholeContents(metadata))
  }

  function WholeContents(metadata: seq<Entry>): seq<Tensor> -> Contents {
    (tensors: seq<Tensor>) => Contents(metadata, tensors)
  }

  /** The value of a key; keys are unique. */
  function Lookup(entries: seq<Entry>, key: string): Option<Value> {
    if entries == [] then None
    else if entries[|entries| - 1].key == key then Some(entries[|entries| - 1].value)
    else Lookup(entries[..|entries| - 1], key)
  }

  /** A positive integer alignment; a declared value of any other type is refused. */
  function Alignment(metadata: seq<Entry>): (a: Option<nat>)
    ensures a.Some? ==> a.value > 0
  {
    match Lookup(metadata, "general.alignment")
    case None => Some(DEFAULT_ALIGNMENT)
    case Some(Int(n)) => if n > 0 then Some(n) else None
    case Some(_) => None
  }

  function DataStart(cursor: nat, alignment: nat): nat
    requires alignment > 0
  {
    (cursor + alignment - 1) / alignment * alignment
  }

  /** Padding reaches the least aligned offset at or after the header. */
  lemma DataStartLeast(cursor: nat, alignment: nat, k: nat)
    requires alignment > 0
    ensures DataStart(cursor, alignment) % alignment == 0
    ensures cursor <= DataStart(cursor, alignment) < cursor + alignment
    ensures cursor <= k * alignment ==> DataStart(cursor, alignment) <= k * alignment
  {
    var q := DivCeil(cursor, alignment);
    DivCeilBounds(cursor, alignment);
    MultipleMod(q, alignment);
    if cursor <= k * alignment {
      DivCeilLeast(cursor, alignment, k);
      MulMonotone(q, k, alignment);
    }
  }

  /** The alignment check that follows the last tensor. */
  function Finish(big: bool): Contents -> Reader<Header> {
    (contents: Contents) =>
      (data: seq<Byte>, cursor: nat) =>
        match Alignment(contents.metadata)
        case None => Invalid(cursor)
        case Some(alignment) => Done(Header(big, cursor, DataStart(cursor, alignment), contents), cursor)
  }

  function Magic(magic: seq<Byte>): Reader<Header> {
    if magic == BIG_MAGIC then Bind(Body(true), Finish(true))
    else if magic == LITTLE_MAGIC then Bind(Body(false), Finish(false))
    else Fail()
  }

  function HeaderReader(): Reader<Header> {
    Bind(Raw(4, MAX_HEADER_BYTES), Magic)
  }

  function ParseHeader(data: seq<Byte>): Parse<Header> {
    HeaderReader()(data, 0)
  }

  // ---- every reader is self-delimiting ----

  lemma NumberDelimits(width: nat, big: bool)
    ensures SelfDelimiting(Number(width, big))
  {
    RawDelimits(width, MAX_HEADER_BYTES);
    MapDelimits(Raw(width, MAX_HEADER_BYTES), NumberOf(big));
  }

  lemma CountDelimits(big: bool)
    ensures SelfDelimiting(Count(big))
  {
    NumberDelimits(8, big);
    forall n: nat
      ensures SelfDelimiting(Bounded(n))
    {
      PureDelimits(n);
      GuardDelimits(n <= MAX_ENTRIES, Pure(n));
    }
    BindDelimits(Number(8, big), Bounded);
  }

  lemma LineDelimits(big: bool)
    ensures SelfDelimiting(Line(big))
  {
    NumberDelimits(8, big);
    forall length
      ensures SelfDelimiting(Decoded(length))
    {
      RawDelimits(length, MAX_HEADER_BYTES);
      BindDelimits(Raw(length, MAX_HEADER_BYTES), DecodedFrom);
    }
    BindDelimits(Number(8, big), Decoded);
  }

  lemma ScalarDelimits(kind: nat, big: bool)
    ensures SelfDelimiting(Scalar(kind, big))
  {
    if kind == TEXT_KIND {
      LineDelimits(big);
      MapDelimits(Line(big), TextValue);
    } else if ScalarWidth(kind).Some? {
      var width := ScalarWidth(kind).value;
      NumberDelimits(width, big);
      MapDelimits(Number(width, big), ScalarValue(kind, width));
    }
  }

  lemma ElementsDelimit(element: nat, count: nat, big: bool)
    ensures SelfDelimiting(ElementsOf(element, big)(count))
  {
    ScalarDelimits(element, big);
    RepeatDelimits(Element(element, big), count);
    var elements := Repeat(Element(element, big), count);
    MapDelimits(elements, ArrayValue);
    GuardDelimits(element != ARRAY_KIND, Map(elements, ArrayValue));
  }

  lemma ArrayDelimits(element: nat, big: bool)
    ensures SelfDelimiting(ArrayOf(big)(element))
  {
    CountDelimits(big);
    forall count
      ensures SelfDelimiting(ElementsOf(element, big)(count))
    {
      ElementsDelimit(element, count, big);
    }
    BindDelimits(Count(big), ElementsOf(element, big));
  }

  lemma ValueDelimits(kind: nat, big: bool)
    ensures SelfDelimiting(ValueOf(kind, big))
  {
    if kind != ARRAY_KIND {
      ScalarDelimits(kind, big);
    } else {
      NumberDelimits(4, big);
      forall element
        ensures SelfDelimiting(ArrayOf(big)(element))
      {
        ArrayDelimits(element, big);
      }
      BindDelimits(Number(4, big), ArrayOf(big));
    }
  }

  lemma EntryForDelimits(earlier: seq<Entry>, key: string, big: bool)
    ensures SelfDelimiting(EntryFor(earlier, big)(key))
  {
    NumberDelimits(4, big);
    forall kind
      ensures SelfDelimiting(EntryOfKind(key, big)(kind))
    {
      ValueDelimits(kind, big);
      MapDelimits(ValueOf(kind, big), EntryValue(key));
    }
    BindDelimits(Number(4, big), EntryOfKind(key, big));
    GuardDelimits(!HasKey(earlier, key), Bind(Number(4, big), EntryOfKind(key, big)));
  }

  lemma EntryDelimits(earlier: seq<Entry>, big: bool)
    ensures SelfDelimiting(MetadataEntry(big)(earlier))
  {
    LineDelimits(big);
    forall key
      ensures SelfDelimiting(EntryFor(earlier, big)(key))
    {
      EntryForDelimits(earlier, key, big);
    }
    BindDelimits(Line(big), EntryFor(earlier, big));
  }

  lemma ShapedDelimits(name: string, dimensions: seq<nat>, big: bool)
    ensures SelfDelimiting(TensorShaped(name, big)(dimensions))
  {
    NumberDelimits(4, big);
    NumberDelimits(8, big);
    forall ggmlType
      ensures SelfDelimiting(TensorTyped(name, dimensions, big)(ggmlType))
    {
      MapDelimits(Number(8, big), TensorPlaced(name, dimensions, ggmlType));
    }
    BindDelimits(Number(4, big), TensorTyped(name, dimensions, big));
  }

  lemma RankedDelimits(earlier: seq<Tensor>, name: string, rank: nat, big: bool)
    ensures SelfDelimiting(TensorRanked(earlier, name, big)(rank))
  {
    NumberDelimits(8, big);
    RepeatDelimits(Dimension(big), rank);
    forall dimensions
      ensures SelfDelimiting(TensorShaped(name, big)(dimensions))
    {
      ShapedDelimits(name, dimensions, big);
    }
    var shaped := Bind(Repeat(Dimension(big), rank), TensorShaped(name, big));
    BindDelimits(Repeat(Dimension(big), rank), TensorShaped(name, big));
    GuardDelimits(1 <= rank <= 4 && !HasName(earlier, name), shaped);
  }

  lemma TensorDelimits(earlier: seq<Tensor>, big: bool)
    ensures SelfDelimiting(TensorEntry(big)(earlier))
  {
    LineDelimits(big);
    NumberDelimits(4, big);
    forall name
      ensures SelfDelimiting(TensorNamed(earlier, big)(name))
    {
      forall rank
        ensures SelfDelimiting(TensorRanked(earlier, name, big)(rank))
      {
        RankedDelimits(earlier, name, rank, big);
      }
      BindDelimits(Number(4, big), TensorRanked(earlier, name, big));
    }
    BindDelimits(Line(big), TensorNamed(earlier, big));
  }

  lemma SectionsDelimit(tensorCount: nat, metadata: seq<Entry>, big: bool)
    ensures SelfDelimiting(Sections(tensorCount, big)(metadata))
  {
    forall earlier
      ensures SelfDelimiting(TensorEntry(big)(earlier))
    {
      TensorDelimits(earlier, big);
    }
    RepeatDelimits(TensorEntry(big), tensorCount);
    MapDelimits(Repeat(TensorEntry(big), tensorCount), WholeContents(metadata));
  }

  lemma MetadataDelimits(tensorCount: nat, metadataCount: nat, big: bool)
    ensures SelfDelimiting(WithMetadata(tensorCount, big)(metadataCount))
  {
    forall earlier
      ensures SelfDelimiting(MetadataEntry(big)(earlier))
    {
      EntryDelimits(earlier, big);
    }
    RepeatDelimits(MetadataEntry(big), metadataCount);
    forall metadata
      ensures SelfDelimiting(Sections(tensorCount, big)(metadata))
    {
      SectionsDelimit(tensorCount, metadata, big);
    }
    BindDelimits(Repeat(MetadataEntry(big), metadataCount), Sections(tensorCount, big));
  }

  lemma BodyDelimits(big: bool)
    ensures SelfDelimiting(Body(big))
  {
    NumberDelimits(4, big);
    CountDelimits(big);
    forall tensorCount
      ensures SelfDelimiting(WithTensors(big)(tensorCount))
    {
      forall metadataCount
        ensures SelfDelimiting(WithMetadata(tensorCount, big)(metadataCount))
      {
        MetadataDelimits(tensorCount, metadataCount, big);
      }
      BindDelimits(Count(big), WithMetadata(tensorCount, big));
    }
    BindDelimits(Count(big), WithTensors(big));
    forall version
      ensures SelfDelimiting(Versioned(big)(version))
    {
      GuardDelimits(version == VERSION, Bind(Count(big), WithTensors(big)));
    }
    BindDelimits(Number(4, big), Versioned(big));
  }

  lemma FinishedDelimits(big: bool)
    ensures SelfDelimiting(Bind(Body(big), Finish(big)))
  {
    BodyDelimits(big);
    BindDelimits(Body(big), Finish(big));
  }

  lemma MagicDelimits(magic: seq<Byte>)
    ensures SelfDelimiting(Magic(magic))
  {
    if magic == BIG_MAGIC {
      FinishedDelimits(true);
    } else if magic == LITTLE_MAGIC {
      FinishedDelimits(false);
    } else {
      FailDelimits<Header>();
    }
  }

  lemma HeaderDelimits()
    ensures SelfDelimiting(HeaderReader())
  {
    RawDelimits(4, MAX_HEADER_BYTES);
    forall magic
      ensures SelfDelimiting(Magic(magic))
    {
      MagicDelimits(magic);
    }
    BindDelimits(Raw(4, MAX_HEADER_BYTES), Magic);
  }

  /**
   * An accepted or refused header is decided by the bytes up to where reading stopped: every input that shares them,
   * those bytes alone included, gets the same verdict.
   */
  lemma ReadBytesDecide(a: seq<Byte>, b: seq<Byte>)
    requires !ParseHeader(a).NeedMore?
    ensures ParseHeader(a).End() <= |a|
    ensures Agree(a, b, ParseHeader(a).End()) ==> ParseHeader(b) == ParseHeader(a)
    ensures ParseHeader(a[..ParseHeader(a).End()]) == ParseHeader(a)
  {
    HeaderDelimits();
    assert Delimits(a, b, 0, HeaderReader()(a, 0), HeaderReader()(b, 0));
    var c := a[..ParseHeader(a).End()];
    assert Delimits(a, c, 0, HeaderReader()(a, 0), HeaderReader()(c, 0));
  }

  /** Lengthening the input never changes a verdict already reached. */
  lemma PrefixDecides(file: seq<Byte>, length: nat)
    requires length <= |file|
    ensures var r := ParseHeader(file[..length]);
            !r.NeedMore? ==> r.End() <= length && ParseHeader(file) == r
  {
    HeaderDelimits();
    var a := file[..length];
    assert Delimits(a, file, 0, HeaderReader()(a, 0), HeaderReader()(file, 0));
  }
}
