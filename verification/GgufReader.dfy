/** The header reader as it runs: one cursor advanced by every read, and retrieval that lengthens its prefix. */
module GgufReader {
  import opened Wrappers
  import opened Arith
  import opened Bytes
  import opened Parsing
  import opened Gguf

  /** Why a read stopped: the bytes are refused, or the prefix ends too early. */
  datatype Stop = Malformed | Short

  /** A step reports what the grammar says, and on success leaves the cursor where the grammar does. */
  predicate Tracks<T(==)>(r: Result<T, Stop>, spec: Parse<T>, cursor: nat) {
    match spec
    case Done(value, next) => r == Ok(value) && cursor == next
    case Invalid(_) => r == Err(Malformed)
    case NeedMore => r == Err(Short)
  }

  /** A repetition that stopped stays stopped. */
  lemma {:induction false} RepeatStops<T>(read: seq<T> -> Reader<T>, data: seq<Byte>, start: nat, i: nat, count: nat)
    requires i <= count && !Repeat(read, i)(data, start).Done?
    ensures Repeat(read, count)(data, start) == Repeat(read, i)(data, start)
  {
    if i < count {
      RepeatStops(read, data, start, i, count - 1);
    }
  }

  /** One more item read inside a repetition: either it is appended, or the whole repetition stops as it did. */
  lemma RepeatItem<T>(read: seq<T> -> Reader<T>, data: seq<Byte>, start: nat, i: nat, count: nat,
                      items: seq<T>, at: nat, item: Result<T, Stop>, cursor: nat)
    requires i < count && Repeat(read, i)(data, start) == Done(items, at)
    requires Tracks(item, read(items)(data, at), cursor)
    ensures item.Ok? ==> Repeat(read, i + 1)(data, start) == Done(items + [item.value], cursor)
    ensures item.Err? ==> Tracks(Err(item.error), Repeat(read, count)(data, start), cursor)
  {
    assert Repeat(read, i + 1)(data, start) == Map(read(items), Append(items))(data, at);
    if item.Err? {
      RepeatStops(read, data, start, i + 1, count);
    }
  }

  class Inspection {
    const data: seq<Byte>
    var big: bool
    var cursor: nat

    constructor (data: seq<Byte>)
      ensures this.data == data && cursor == 0 && !big
    {
      this.data := data;
      cursor := 0;
      big := false;
    }

    method Take(count: nat) returns (r: Result<seq<Byte>, Stop>)
      modifies this`cursor
      ensures Tracks(r, Raw(count, MAX_HEADER_BYTES)(data, old(cursor)), cursor)
    {
      if count > MAX_HEADER_BYTES || cursor + count > |data| {
        return Err(Short);
      }
      r := Ok(data[cursor..cursor + count]);
      cursor := cursor + count;
    }

    method TakeNumber(width: nat) returns (r: Result<nat, Stop>)
      modifies this`cursor
      ensures Tracks(r, Number(width, big)(data, old(cursor)), cursor)
    {
      var bytes :- Take(width);
      return Ok(FromBytes(bytes, big));
    }

    method TakeCount() returns (r: Result<nat, Stop>)
      modifies this`cursor
      ensures Tracks(r, Count(big)(data, old(cursor)), cursor)
    {
      var n :- TakeNumber(8);
      if n > MAX_ENTRIES {
        return Err(Malformed);
      }
      return Ok(n);
    }

    method TakeText() returns (r: Result<string, Stop>)
      modifies this`cursor
      ensures Tracks(r, Line(big)(data, old(cursor)), cursor)
    {
      var length :- TakeNumber(8);
      var bytes :- Take(length);
      match DecodeUtf8(bytes)
      case None => return Err(Malformed);
      case Some(s) => return Ok(s);
    }

    method TakeScalar(kind: nat) returns (r: Result<Value, Stop>)
      modifies this`cursor
      ensures Tracks(r, Scalar(kind, big)(data, old(cursor)), cursor)
    {
      if kind == TEXT_KIND {
        var s :- TakeText();
        return Ok(Text(s));
      }
      var width := ScalarWidth(kind);
      if width == None {
        return Err(Malformed);
      }
      var n :- TakeNumber(width.value);
      return Ok(ScalarOf(kind, width.value, n));
    }

    method TakeElements(kind: nat, count: nat) returns (r: Result<seq<Value>, Stop>)
      modifies this`cursor
      ensures Tracks(r, Repeat(Element(kind, big), count)(data, old(cursor)), cursor)
    {
      var elements := [];
      ghost var start, read := cursor, Element(kind, big);
      for i := 0 to count
        invariant Repeat(read, i)(data, start) == Done(elements, cursor)
      {
        ghost var at := cursor;
        var element := TakeScalar(kind);
        RepeatItem(read, data, start, i, count, elements, at, element, cursor);
        if element.Err? {
          return Err(element.error);
        }
        elements := elements + [element.value];
      }
      return Ok(elements);
    }

    method TakeValue(kind: nat) returns (r: Result<Value, Stop>)
      modifies this`cursor
      ensures Tracks(r, ValueOf(kind, big)(data, old(cursor)), cursor)
    {
      if kind != ARRAY_KIND {
        r := TakeScalar(kind);
        return;
      }
      var element :- TakeNumber(4);
      var count :- TakeCount();
      if element == ARRAY_KIND {
        return Err(Malformed);
      }
      var elements :- TakeElements(element, count);
      return Ok(Array(elements));
    }

    method TakeEntry(earlier: seq<Entry>) returns (r: Result<Entry, Stop>)
      modifies this`cursor
      ensures Tracks(r, MetadataEntry(big)(earlier)(data, old(cursor)), cursor)
    {
      var key :- TakeText();
      if HasKey(earlier, key) {
        return Err(Malformed);
      }
      var kind :- TakeNumber(4);
      var value :- TakeValue(kind);
      return Ok(Entry(key, value));
    }

    method TakeMetadata(count: nat) returns (r: Result<seq<Entry>, Stop>)
      modifies this`cursor
      ensures Tracks(r, Repeat(MetadataEntry(big), count)(data, old(cursor)), cursor)
    {
      var metadata := [];
      ghost var start, read := cursor, MetadataEntry(big);
      for i := 0 to count
        invariant Repeat(read, i)(data, start) == Done(metadata, cursor)
      {
        ghost var at := cursor;
        var entry := TakeEntry(metadata);
        RepeatItem(read, data, start, i, count, metadata, at, entry, cursor);
        if entry.Err? {
          return Err(entry.error);
        }
        metadata := metadata + [entry.value];
      }
      return Ok(metadata);
    }

    method TakeDimensions(rank: nat) returns (r: Result<seq<nat>, Stop>)
      modifies this`cursor
      ensures Tracks(r, Repeat(Dimension(big), rank)(data, old(cursor)), cursor)
    {
      var dimensions := [];
      ghost var start, read := cursor, Dimension(big);
      for i := 0 to rank
        invariant Repeat(read, i)(data, start) == Done(dimensions, cursor)
      {
        ghost var at := cursor;
        var dimension := TakeNumber(8);
        RepeatItem(read, data, start, i, rank, dimensions, at, dimension, cursor);
        if dimension.Err? {
          return Err(dimension.error);
        }
        dimensions := dimensions + [dimension.value];
      }
      return Ok(dimensions);
    }

    method TakeTensor(earlier: seq<Tensor>) returns (r: Result<Tensor, Stop>)
      modifies this`cursor
      ensures Tracks(r, TensorEntry(big)(earlier)(data, old(cursor)), cursor)
    {
      var name :- TakeText();
      var rank :- TakeNumber(4);
      if !(1 <= rank <= 4) || HasName(earlier, name) {
        return Err(Malformed);
      }
      var dimensions :- TakeDimensions(rank);
      var ggmlType :- TakeNumber(4);
      var offset :- TakeNumber(8);
      return Ok(Tensor(name, dimensions, ggmlType, offset));
    }

    method TakeTensors(count: nat) returns (r: Result<seq<Tensor>, Stop>)
      modifies this`cursor
      ensures Tracks(r, Repeat(TensorEntry(big), count)(data, old(cursor)), cursor)
    {
      var tensors := [];
      ghost var start, read := cursor, TensorEntry(big);
      for i := 0 to count
        invariant Repeat(read, i)(data, start) == Done(tensors, cursor)
      {
        ghost var at := cursor;
        var tensor := TakeTensor(tensors);
        RepeatItem(read, data, start, i, count, tensors, at, tensor, cursor);
        if tensor.Err? {
          return Err(tensor.error);
        }
        tensors := tensors + [tensor.value];
      }
      return Ok(tensors);
    }

    method TakeContents(tensorCount: nat, metadataCount: nat) returns (r: Result<Contents, Stop>)
      modifies this`cursor
      ensures Tracks(r, WithMetadata(tensorCount, big)(metadataCount)(data, old(cursor)), cursor)
    {
      var metadata :- TakeMetadata(metadataCount);
      var tensors :- TakeTensors(tensorCount);
      return Ok(Contents(metadata, tensors));
    }

    method TakeCounted() returns (r: Result<Contents, Stop>)
      modifies this`cursor
      ensures Tracks(r, Bind(Count(big), WithTensors(big))(data, old(cursor)), cursor)
    {
      var tensorCount :- TakeCount();
      var metadataCount :- TakeCount();
      r := TakeContents(tensorCount, metadataCount);
    }

    method TakeBody() returns (r: Result<Contents, Stop>)
      modifies this`cursor
      ensures Tracks(r, Body(big)(data, old(cursor)), cursor)
    {
      var version :- TakeNumber(4);
      assert Body(big)(data, old(cursor)) ==
             Guard(version == VERSION, Bind(Count(big), WithTensors(big)))(data, cursor);
      if version != VERSION {
        return Err(Malformed);
      }
      r := TakeCounted();
    }

    method TakeHeader() returns (r: Result<Header, Stop>)
      modifies this
      ensures Tracks(r, HeaderReader()(data, old(cursor)), cursor)
    {
      var magic :- Take(4);
      assert BIG_MAGIC[0] != LITTLE_MAGIC[0];
      big := magic == BIG_MAGIC;
      if !big && magic != LITTLE_MAGIC {
        return Err(Malformed);
      }
      var contents :- TakeBody();
      var alignment := Alignment(contents.metadata);
      if alignment == None {
        return Err(Malformed);
      }
      return Ok(Header(big, cursor, DataStart(cursor, alignment.value), contents));
    }
  }

  /** Inspects one prefix. */
  method Inspect(prefix: seq<Byte>) returns (r: Result<Header, Stop>)
    ensures r.Ok? <==> ParseHeader(prefix).Done?
    ensures r.Ok? ==> r.value == ParseHeader(prefix).value
    ensures r == Err(Short) <==> ParseHeader(prefix) == NeedMore
  {
    var inspection := new Inspection(prefix);
    r := inspection.TakeHeader();
  }

  // ---- retrieval ----

  const FIRST_LENGTH: nat := 65536

  datatype RetrievalError = Refused | TooLong | DataStartBeyondFile

  function Bound(file: seq<Byte>): nat {
    Min(MAX_HEADER_BYTES, |file|)
  }

  lemma HeaderEnd(data: seq<Byte>)
    ensures ParseHeader(data).Done? ==> ParseHeader(data).value.headerBytes == ParseHeader(data).next <= |data|
  {
    PrefixDecides(data, |data|);
    assert data[..|data|] == data;
    if ParseHeader(data).Done? {
      var magic := data[0..4];
      assert ParseHeader(data) == Magic(magic)(data, 4);
      var big := magic == BIG_MAGIC;
      assert Magic(magic) == Bind(Body(big), Finish(big));
    }
  }

  /** Verdicts on growing prefixes of one file agree once reached. */
  lemma PrefixesAgree(file: seq<Byte>, short: nat, long: nat)
    requires short <= long <= |file| && !ParseHeader(file[..short]).NeedMore?
    ensures ParseHeader(file[..long]) == ParseHeader(file[..short])
  {
    PrefixDecides(file[..long], short);
    assert file[..long][..short] == file[..short];
  }

  /**
   * Retrieval doubles the prefix until the header settles. Its result is the verdict on the longest prefix it may
   * read, so the starting length and the doubling never show; what it returns describes the whole file, together
   * with exactly the header's bytes.
   */
  method Retrieve(file: seq<Byte>) returns (r: Result<(Header, seq<Byte>), RetrievalError>)
    ensures r == Err(Refused) <==> ParseHeader(file[..Bound(file)]).Invalid?
    ensures r == Err(TooLong) <==> ParseHeader(file[..Bound(file)]).NeedMore?
    ensures r.Ok? ==> var (header, prefix) := r.value;
                      && ParseHeader(file) == Done(header, header.headerBytes)
                      && header.headerBytes <= Bound(file)
                      && prefix == file[..header.headerBytes]
                      && (header.contents.tensors != [] ==> header.dataStart <= |file|)
    ensures r == Err(DataStartBeyondFile) ==>
              ParseHeader(file).Done? &&
              ParseHeader(file).value.contents.tensors != [] && ParseHeader(file).value.dataStart > |file|
  {
    var bound := Bound(file);
    var length := Min(FIRST_LENGTH, |file|);
    var inspected := Inspect(file[..length]);
    while inspected == Err(Short)
      invariant length <= bound && (length < bound ==> length >= FIRST_LENGTH)
      invariant inspected.Ok? <==> ParseHeader(file[..length]).Done?
      invariant inspected.Ok? ==> inspected.value == ParseHeader(file[..length]).value
      invariant inspected == Err(Short) <==> ParseHeader(file[..length]) == NeedMore
      decreases bound - length, inspected.Err?
    {
      if length >= bound {
        return Err(TooLong);
      }
      length := Min(length * 2, bound);
      inspected := Inspect(file[..length]);
    }
    PrefixesAgree(file, length, bound);
    if inspected.Err? {
      return Err(Refused);
    }
    HeaderEnd(file[..length]);
    PrefixDecides(file, length);
    var header := inspected.value;
    if header.contents.tensors != [] && header.dataStart > |file| {
      return Err(DataStartBeyondFile);
    }
    assert file[..length][..header.headerBytes] == file[..header.headerBytes];
    return Ok((header, file[..length][..header.headerBytes]));
  }
}
