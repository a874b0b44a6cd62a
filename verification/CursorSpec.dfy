/**
 The reference reader: a plain cursor over fixed bytes. `BufferedSource` and every composed source are
 proved to answer each call the way this cursor may answer it.
 */
module CursorSpec {
  import opened Basics

  /** The `(kind, message)` pair of a fatal error of the inner source, kept as an opaque value. */
  datatype Failure = Failure(kind: nat, message: string)

  datatype IoError = TimedOut | BehindRingStart | Inner(failure: Failure)

  /** One call a client may make. */
  datatype Call = ReadCall(room: nat) | SeekCall(from: SeekFrom)

  /** One finished call of a reader, with its answer. */
  datatype Event =
    | ReadOk(room: nat, bytes: seq<Byte>)
    | ReadErr(room: nat, error: IoError)
    | SeekOk(from: SeekFrom, newPos: nat)
    | SeekErr(from: SeekFrom)

  /** The call an event answers. */
  function CallOf(event: Event): Call {
    match event
    case ReadOk(room, _) => ReadCall(room)
    case ReadErr(room, _) => ReadCall(room)
    case SeekOk(from, _) => SeekCall(from)
    case SeekErr(from) => SeekCall(from)
  }

  function CallsOf(events: seq<Event>): seq<Call> {
    if events == [] then [] else [CallOf(events[0])] + CallsOf(events[1..])
  }

  lemma CallsOfOne(event: Event)
    ensures CallsOf([event]) == [CallOf(event)]
  {
    assert [event][1..] == [];
  }

  lemma {:induction false} CallsOfAppend(first: seq<Event>, second: seq<Event>)
    ensures CallsOf(first + second) == CallsOf(first) + CallsOf(second)
  {
    if first == [] {
      assert first + second == second;
    } else {
      assert (first + second)[1..] == first[1..] + second;
      CallsOfAppend(first[1..], second);
    }
  }

  /** Where a seek goes: the anchor plus the signed offset, an error outside the `u64` range. */
  function SeekTarget(total: u64, pos: u64, from: SeekFrom): Result<u64> {
    match from
    case Start(offset) => Ok(offset)
    case Current(delta) => AddSigned(pos, delta)
    case End(delta) => AddSigned(total, delta)
  }

  /** Seeks in plain arithmetic: from the start, from where the cursor stands, or from the end. */
  lemma SeekTargetIsTheSum(total: u64, pos: u64, n: u64, d: i64)
    ensures SeekTarget(total, pos, Start(n)) == Ok(n)
    ensures SeekTarget(total, pos, Current(d)).Ok? <==> 0 <= pos + d < U64_LIMIT
    ensures SeekTarget(total, pos, Current(d)).Ok? ==> SeekTarget(total, pos, Current(d)).value == pos + d
    ensures SeekTarget(total, pos, End(d)).Ok? <==> 0 <= total + d < U64_LIMIT
    ensures SeekTarget(total, pos, End(d)).Ok? ==> SeekTarget(total, pos, End(d)).value == total + d
  {
  }

  /** Asking for the position with `Current(0)` tells it and moves nothing. */
  lemma PositionQuery(data: seq<Byte>, pos: u64, event: Event)
    requires |data| < U64_LIMIT && Allowed(data, pos, event) && CallOf(event) == SeekCall(Current(0))
    ensures event == SeekOk(Current(0), pos) && After(pos, event) == pos
  {
  }

  /**
   The answers a cursor standing at `pos` may give. A read may be short but never empty while bytes remain
   and there is room. Where a reader's errors come from is for the reader to say; an error moves no cursor.
   */
  ghost predicate Allowed(data: seq<Byte>, pos: u64, event: Event)
    requires |data| < U64_LIMIT
  {
    match event
    case ReadOk(room, bytes) =>
      && |bytes| <= room
      && (bytes == [] <==> room == 0 || pos >= |data|)
      && (bytes != [] ==> pos + |bytes| <= |data| && bytes == data[pos..pos + |bytes|])
    case ReadErr(room, error) => room > 0 && error != BehindRingStart
    case SeekOk(from, newPos) => SeekTarget(|data|, pos, from) == Ok(newPos)
    case SeekErr(from) => SeekTarget(|data|, pos, from).Err?
  }

  /** The cursor after an answer: reads advance by what they delivered, errors leave it alone. */
  function After(pos: nat, event: Event): nat {
    match event
    case ReadOk(_, bytes) => pos + |bytes|
    case ReadErr(_, _) => pos
    case SeekOk(_, newPos) => newPos
    case SeekErr(_) => pos
  }

  /** A whole conversation, taking the cursor from `pos` to `end`. */
  ghost predicate Conforms(data: seq<Byte>, pos: u64, events: seq<Event>, end: nat)
    requires |data| < U64_LIMIT
    decreases |events|
  {
    if events == [] then pos == end
    else
      && Allowed(data, pos, events[0])
      && After(pos, events[0]) < U64_LIMIT
      && Conforms(data, After(pos, events[0]), events[1..], end)
  }

  lemma ConformsNothing(data: seq<Byte>, pos: u64)
    requires |data| < U64_LIMIT
    ensures Conforms(data, pos, [], pos)
  {
  }

  /** One allowed answer is a conversation. */
  lemma ConformsOne(data: seq<Byte>, pos: u64, event: Event)
    requires |data| < U64_LIMIT && After(pos, event) < U64_LIMIT
    ensures Allowed(data, pos, event) ==> Conforms(data, pos, [event], After(pos, event))
  {
    assert [event][1..] == [];
  }

  /** Conversations compose. */
  lemma {:induction false} ConformsAppend(data: seq<Byte>, pos: u64, first: seq<Event>, mid: u64,
                                          second: seq<Event>, end: nat)
    requires |data| < U64_LIMIT
    requires Conforms(data, pos, first, mid)
    requires Conforms(data, mid, second, end)
    ensures Conforms(data, pos, first + second, end)
    decreases |first|
  {
    if first == [] {
      assert first + second == second;
    } else {
      assert (first + second)[1..] == first[1..] + second;
      ConformsAppend(data, After(pos, first[0]), first[1..], mid, second, end);
    }
  }

  /** The bytes delivered by the reads of a conversation, in order. */
  function Delivered(events: seq<Event>): seq<Byte> {
    if events == [] then []
    else (if events[0].ReadOk? then events[0].bytes else []) + Delivered(events[1..])
  }

  ghost predicate OnlyReads(events: seq<Event>) {
    forall i :: 0 <= i < |events| ==> events[i].ReadOk? || events[i].ReadErr?
  }

  /**
   Streaming never loses, repeats or reorders a byte: with no seek in between, the bytes delivered by any
   number of short, failed and retried reads are exactly the stretch the cursor moved over.
   */
  lemma {:induction false} StreamingDeliversTheStretch(data: seq<Byte>, pos: u64, events: seq<Event>, end: nat)
    requires |data| < U64_LIMIT
    requires OnlyReads(events)
    requires Conforms(data, pos, events, end)
    ensures pos <= end
    ensures pos <= |data| ==> end <= |data| && Delivered(events) == data[pos..end]
    ensures pos > |data| ==> end == pos && Delivered(events) == []
    decreases |events|
  {
    if events != [] {
      var mid := After(pos, events[0]);
      StreamingDeliversTheStretch(data, mid, events[1..], end);
      if pos <= |data| {
        JoinSlices(data, pos, mid, end);
      }
    }
  }
}
