/** Resumable download of one pinned payload: a partial file, bounded retries, and admission by digest. */
module Download {
  import opened Wrappers
  import opened Arith
  import opened Bytes

  const CHUNK: nat := 8 * 1024 * 1024
  const ATTEMPTS: nat := 5

  type Digest = seq<Byte> -> string

  /** What one read of the connection gives: bytes, a network fault, or the end of the process. */
  datatype Read = Block(bytes: seq<Byte>) | Fault | Crash

  /** What one request meets: no usable connection, an error status included, or a reply. */
  datatype Response = Unreachable | Reply(status: nat, contentRange: Option<(nat, nat, nat)>, stream: seq<Read>)

  /** How one transfer ended. */
  datatype Transfer = Complete | Broken | Overlong | Killed | RangeRefused | FreshRefused

  datatype Outcome =
    | Verified
    | DestinationDiffers
    | PartialTooLong
    | Refused(transfer: Transfer)
    | RetriesExhausted
    | PartialMissing
    | PartialDiffers
    | Interrupted

  /** Bytes a stream yields before it ends, faults or is cut. */
  function Delivered(stream: seq<Read>): seq<Byte> {
    if stream == [] || !stream[0].Block? || stream[0].bytes == [] then []
    else stream[0].bytes + Delivered(stream[1..])
  }

  /** A connection that neither faults nor is cut. */
  predicate Clean(stream: seq<Read>) {
    forall i :: 0 <= i < |stream| ==> stream[i].Block?
  }

  /** One read of at most `count` bytes, and the stream after it. */
  function ReadFrom(stream: seq<Read>, count: nat): (Read, seq<Read>) {
    if stream == [] then (Block([]), [])
    else if stream[0].Block? && |stream[0].bytes| > count then
      (Block(stream[0].bytes[..count]), [Block(stream[0].bytes[count..])] + stream[1..])
    else (stream[0], stream[1..])
  }

  /** A read takes the next delivered bytes; anything else means nothing more is delivered. */
  lemma ReadTakes(stream: seq<Read>, count: nat)
    requires count > 0
    ensures var (read, after) := ReadFrom(stream, count);
            && (read.Block? && read.bytes != [] ==>
                  |read.bytes| <= count && Delivered(stream) == read.bytes + Delivered(after))
            && (!(read.Block? && read.bytes != []) ==> Delivered(stream) == [])
  {
    if stream != [] && stream[0].Block? && |stream[0].bytes| > count {
      var bytes := stream[0].bytes;
      var after := [Block(bytes[count..])] + stream[1..];
      assert after[1..] == stream[1..];
      assert bytes == bytes[..count] + bytes[count..];
    }
  }

  lemma ReadClean(stream: seq<Read>, count: nat)
    requires Clean(stream)
    ensures ReadFrom(stream, count).0.Block? && Clean(ReadFrom(stream, count).1)
  {
  }

  /** Moving past the next bytes of a sequence. */
  lemma Advance(all: seq<Byte>, done: nat, next: seq<Byte>, after: seq<Byte>, held: seq<Byte>)
    requires done <= |all| && all[done..] == next + after
    ensures done + |next| <= |all| && all[done + |next|..] == after
    ensures held + all[..done] + next == held + all[..done + |next|]
  {
    var end := done + |next|;
    assert |all[done..]| == |all| - done;
    assert all[end..] == all[done..][|next|..];
    assert all[..end] == all[..done] + all[done..][..|next|];
  }

  /** The bytes a transfer adds: what was delivered, up to what was asked for. */
  function Added(stream: seq<Read>, remaining: nat): seq<Byte> {
    if |Delivered(stream)| <= remaining then Delivered(stream) else Delivered(stream)[..remaining]
  }

  /** When the reply is accepted, its stream sends the payload from the offset, as far as it gets. */
  predicate HonestFrom(response: Response, payload: seq<Byte>, start: nat) {
    response.Reply? && Accepts(response, start, |payload|) ==>
      start <= |payload| && Delivered(response.stream) <= payload[start..]
  }

  /**
   * A server, answering each attempt by where it resumes; honest when every reply the client accepts sends the payload
   * from there. A reply with another status or range may carry anything.
   */
  datatype Server = Server(replies: (nat, nat) -> Response) {
    ghost predicate Honest(payload: seq<Byte>) {
      forall attempt: nat, start: nat :: start <= |payload| ==> HonestFrom(replies(attempt, start), payload, start)
    }

    /** Answers the first request in full. */
    ghost predicate Delivers(payload: seq<Byte>) {
      forall start: nat :: start < |payload| ==>
        var response := replies(0, start);
        response.Reply? && Accepts(response, start, |payload|) && Clean(response.stream) &&
        Delivered(response.stream) == payload[start..]
    }
  }

  predicate Accepts(response: Response, start: nat, size: nat)
    requires response.Reply?
  {
    if start > 0 then response.status == 206 && response.contentRange == Some((start, size - 1, size))
    else response.status == 200
  }

  class Shard {
    const size: nat
    const expected: string
    const digest: Digest
    var partial: Option<seq<Byte>>
    var destination: Option<seq<Byte>>

    constructor (size: nat, expected: string, digest: Digest)
      ensures this.size == size && this.expected == expected && this.digest == digest
      ensures partial == None && destination == None
    {
      this.size := size;
      this.expected := expected;
      this.digest := digest;
      partial := None;
      destination := None;
    }

    function Held(): seq<Byte>
      reads this
    {
      if partial.Some? then partial.value else []
    }

    /** An admitted payload has the pinned length and digest. */
    predicate Admitted()
      reads this
    {
      destination.Some? ==> |destination.value| == size && digest(destination.value) == expected
    }

    /** Appends blocks until the pinned length is reached or the stream gives out. */
    method Drain(stream: seq<Read>) returns (end: Option<Transfer>, rest: seq<Read>)
      requires partial.Some? && |partial.value| < size
      modifies this`partial
      ensures partial.Some? && Held() == old(Held()) + Added(stream, size - |old(Held())|)
      ensures end.None? <==> |Delivered(stream)| >= size - |old(Held())|
      ensures end.None? ==> |Held()| == size
      ensures end.None? ==> Delivered(stream) == Added(stream, size - |old(Held())|) + Delivered(rest)
      ensures end.Some? ==> end.value in {Broken, Killed}
      ensures Clean(stream) ==> Clean(rest)
    {
      ghost var held, all, done := Held(), Delivered(stream), 0;
      var remaining := size - |partial.value|;
      rest := stream;
      while remaining > 0
        invariant 0 <= done <= |all| && all[done..] == Delivered(rest)
        invariant partial.Some? && partial.value == held + all[..done]
        invariant remaining >= 0 && done + remaining == size - |held|
        invariant Clean(stream) ==> Clean(rest)
      {
        var count := Min(CHUNK, remaining);
        var (read, after) := ReadFrom(rest, count);
        ReadTakes(rest, count);
        if Clean(rest) {
          ReadClean(rest, count);
        }
        if !read.Block? || read.bytes == [] {
          assert done == |all|;
          return Some(if read == Crash then Killed else Broken), rest;
        }
        Advance(all, done, read.bytes, Delivered(after), held);
        partial := Some(partial.value + read.bytes);
        done := done + |read.bytes|;
        remaining := remaining - |read.bytes|;
        rest := after;
      }
      assert all == all[..done] + all[done..];
      end := None;
    }

    /** Appends what the stream delivers, and nothing past the pinned length. */
    method Receive(stream: seq<Read>) returns (end: Transfer)
      requires partial.Some? && |partial.value| < size
      modifies this`partial
      ensures partial.Some? && Held() == old(Held()) + Added(stream, size - |old(Held())|)
      ensures end in {Complete, Broken, Overlong, Killed}
      ensures end == Complete ==> |Held()| == size
      ensures end == Overlong <==> |Delivered(stream)| > size - |old(Held())|
      ensures Clean(stream) && |Delivered(stream)| == size - |old(Held())| ==> end == Complete
    {
      var stopped, rest := Drain(stream);
      if stopped.Some? {
        return stopped.value;
      }
      var (read, _) := ReadFrom(rest, 1);
      ReadTakes(rest, 1);
      if Clean(rest) {
        ReadClean(rest, 1);
      }
      match read
      case Crash => return Killed;
      case Fault => return Broken;
      case Block(bytes) => return if bytes != [] then Overlong else Complete;
    }

    /** One request, resumed where the partial file ends. */
    method Attempt(response: Response) returns (end: Transfer)
      requires |Held()| < size
      modifies this`partial
      ensures response.Reply? && Accepts(response, |old(Held())|, size) ==>
                Held() == old(Held()) + Added(response.stream, size - |old(Held())|)
      ensures !(response.Reply? && Accepts(response, |old(Held())|, size)) ==>
                partial == old(partial) && end != Complete
      ensures end == Complete ==> |Held()| == size
      ensures old(partial.Some?) || end == Complete ==> partial.Some?
      ensures (response.Reply? && Accepts(response, |old(Held())|, size) && Clean(response.stream) &&
               |Delivered(response.stream)| == size - |old(Held())|) ==> end == Complete
    {
      var start := |Held()|;
      if response.Unreachable? {
        return Broken;
      }
      if start > 0 && (response.status != 206 || response.contentRange != Some((start, size - 1, size))) {
        return RangeRefused;
      }
      if start == 0 && response.status != 200 {
        return FreshRefused;
      }
      if partial == None {
        partial := Some([]);
      }
      end := Receive(response.stream);
    }

    /**
     * Up to five requests. The partial file only grows, stays within the pinned length, and holds only payload bytes
     * when it did before and the server is honest.
     */
    method Fetch(server: Server, ghost payload: seq<Byte>) returns (failed: Option<Outcome>)
      requires |payload| == size
      modifies this`partial
      ensures old(Held()) <= Held()
      ensures |old(Held())| <= size ==> |Held()| <= size
      ensures |old(Held())| > size <==> failed == Some(PartialTooLong)
      ensures server.Honest(payload) && old(Held()) <= payload ==> Held() <= payload
      ensures old(partial.Some?) ==> partial.Some?
      ensures failed == None ==> |Held()| == size
      ensures server.Delivers(payload) && |old(Held())| <= size ==> failed == None && (size > 0 ==> partial.Some?)
      ensures failed.Some? ==> failed.value in {PartialTooLong, RetriesExhausted, Interrupted} || failed.value.Refused?
    {
      var attempt := 0;
      while true
        invariant attempt < ATTEMPTS
        invariant old(Held()) <= Held()
        invariant attempt > 0 ==> |Held()| <= size
        invariant attempt == 0 ==> partial == old(partial)
        invariant server.Honest(payload) && old(Held()) <= payload ==> Held() <= payload
        invariant old(partial.Some?) ==> partial.Some?
        invariant server.Delivers(payload) && |old(Held())| <= size ==> attempt == 0
        decreases ATTEMPTS - attempt
      {
        var start := |Held()|;
        if start > size {
          return Some(PartialTooLong);
        }
        if start == size {
          return None;
        }
        ghost var before := Held();
        var response := server.replies(attempt, start);
        var end := Attempt(response);
        if server.Honest(payload) && before <= payload {
          assert HonestFrom(response, payload, start);
          assert payload == before + payload[start..];
        }
        match end {
          case Complete => return None;
          case Broken =>
            if attempt == ATTEMPTS - 1 {
              return Some(RetriesExhausted);
            }
          case Killed => return Some(Interrupted);
          case _ => return Some(Refused(end));
        }
        attempt := attempt + 1;
      }
    }

    /**
     * One run. An existing destination is never touched; a new one appears only from a partial file of the pinned
     * length and digest, whatever the server did; any other end leaves the partial file, grown at most by what was
     * delivered.
     */
    method Run(server: Server, ghost payload: seq<Byte>) returns (outcome: Outcome)
      requires |payload| == size
      modifies this
      ensures old(destination.Some?) ==> destination == old(destination) && partial == old(partial)
      ensures outcome == Verified ==> destination.Some? && Admitted()
      ensures outcome == Verified && old(destination) == None ==> partial == None && old(Held()) <= destination.value
      ensures outcome != Verified ==> destination == old(destination) && old(Held()) <= Held()
      ensures outcome != Verified && |old(Held())| <= size ==> |Held()| <= size
      ensures server.Honest(payload) && old(Held()) <= payload && old(destination) == None ==>
                Held() <= payload && (outcome == Verified ==> destination == Some(payload))
      ensures (server.Honest(payload) && old(Held()) <= payload && old(destination) == None &&
               digest(payload) == expected) ==> outcome != PartialDiffers
      ensures (server.Honest(payload) && server.Delivers(payload) && old(Held()) <= payload &&
               old(destination) == None && digest(payload) == expected && size > 0) ==> outcome == Verified
    {
      if destination.Some? {
        if |destination.value| != size || digest(destination.value) != expected {
          return DestinationDiffers;
        }
        return Verified;
      }
      var failed := Fetch(server, payload);
      if failed.Some? {
        return failed.value;
      }
      if partial == None {
        return PartialMissing;
      }
      if server.Honest(payload) && old(Held()) <= payload {
        assert partial.value == payload;
      }
      if |partial.value| != size || digest(partial.value) != expected {
        return PartialDiffers;
      }
      destination := partial;
      partial := None;
      return Verified;
    }

    /**
     * Any number of runs, each against its own server. Once admitted, the payload stays as it is; until then the
     * partial file never loses a byte; against honest servers it is always a prefix of the payload, so what is
     * admitted is the payload itself.
     */
    method Runs(servers: seq<Server>, ghost payload: seq<Byte>)
      requires |payload| == size && |Held()| <= size && Admitted()
      modifies this
      ensures Admitted() && |Held()| <= size
      ensures old(destination.Some?) ==> destination == old(destination) && partial == old(partial)
      ensures old(destination) == None && destination == None ==> old(Held()) <= Held()
      ensures old(destination) == None && destination.Some? ==> old(Held()) <= destination.value
      ensures (forall i :: 0 <= i < |servers| ==> servers[i].Honest(payload)) && old(destination) == None &&
              old(Held()) <= payload ==>
                if destination.Some? then destination.value == payload else Held() <= payload
    {
      for i := 0 to |servers|
        invariant Admitted() && |Held()| <= size
        invariant old(destination.Some?) ==> destination == old(destination) && partial == old(partial)
        invariant old(destination) == None && destination == None ==> old(Held()) <= Held()
        invariant old(destination) == None && destination.Some? ==> old(Held()) <= destination.value
        invariant (forall k :: 0 <= k < |servers| ==> servers[k].Honest(payload)) && old(destination) == None &&
                  old(Held()) <= payload ==>
                    if destination.Some? then destination.value == payload else Held() <= payload
      {
        var _ := Run(servers[i], payload);
      }
    }
  }
}
