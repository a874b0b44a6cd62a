/**
 The composable readers: `MemReader`, `SubSource` and `ConcatSource` behind one class, whose `kind` stands for
 the dynamic dispatch of `Box<dyn BytesSource>`. Only positions ever change.
 */
module Sources {
  import opened Basics
  import opened CursorSpec
  import opened Shapes

  datatype Kind =
    | MemReader(buf: seq<Byte>)
    | SubSource(inner: Source, base: u64, len: u64)
    | ConcatSource(parts: seq<Source>, starts: seq<u64>)

  class Source {
    const kind: Kind
    var pos: u64
    ghost const shape: Shape
    ghost const repr: set<Source>

    /** The object tree is built as `shape` says, and no node is among its own descendants. */
    ghost predicate Valid()
      decreases shape
    {
      && this in repr
      && WellFormed(shape)
      && match kind
         case MemReader(buf) => shape == Leaf(buf)
         case SubSource(inner, base, len) =>
           && shape.Window? && inner.shape == shape.inner && base == shape.base && len == shape.len
           && this !in inner.repr && inner.repr <= repr
           && inner.Valid()
         case ConcatSource(parts, starts) =>
           && shape.Join? && |parts| == |shape.parts| && |starts| == |parts| + 1
           && (forall i :: 0 <= i < |parts| ==> parts[i].shape == shape.parts[i])
           && (forall i :: 0 <= i < |parts| ==> this !in parts[i].repr && parts[i].repr <= repr)
           && (forall i :: 0 <= i < |starts| ==> starts[i] == StartOf(shape.parts, i))
           && (forall i :: 0 <= i < |parts| ==> parts[i].Valid())
    }

    /** The bytes this source serves. */
    ghost function Content(): seq<Byte> {
      Denote(shape)
    }

    constructor Mem(buf: seq<Byte>)
      requires |buf| < U64_LIMIT
      ensures Valid() && pos == 0 && shape == Leaf(buf) && repr == {this}
    {
      kind, pos := MemReader(buf), 0;
      shape, repr := Leaf(buf), {this};
    }

    constructor Sub(inner: Source, base: u64, len: u64)
      requires inner.Valid() && base + len <= |inner.Content()|
      ensures Valid() && pos == 0 && shape == Window(inner.shape, base, len) && repr == {this} + inner.repr
    {
      kind, pos := SubSource(inner, base, len), 0;
      shape, repr := Window(inner.shape, base, len), {this} + inner.repr;
    }

    constructor Concat(parts: seq<Source>, starts: seq<u64>, ghost shapes: seq<Shape>)
      requires |shapes| == |parts| && |starts| == |parts| + 1
      requires forall i :: 0 <= i < |parts| ==> parts[i].Valid() && parts[i].shape == shapes[i]
      requires forall i :: 0 <= i < |starts| ==> starts[i] == StartOf(shapes, i)
      ensures Valid() && pos == 0 && shape == Join(shapes) && repr == {this} + Nodes(parts)
    {
      kind, pos := ConcatSource(parts, starts), 0;
      shape, repr := Join(shapes), {this} + Nodes(parts);
      StartsGrow(shapes, |parts|, |parts|);
    }

    /** The part containing `position`, `None` at or past the end; empty parts are skipped. */
    static method SegmentFor(parts: seq<Source>, starts: seq<u64>, position: u64, ghost shapes: seq<Shape>)
      returns (found: Option<nat>)
      requires |shapes| == |parts| && |starts| == |parts| + 1
      requires forall i :: 0 <= i < |starts| ==> starts[i] == StartOf(shapes, i)
      ensures found.None? <==> position >= |DenoteAll(shapes)|
      ensures found.Some? ==> Holds(shapes, found.value, position)
      ensures found.Some? ==> forall j :: Holds(shapes, j, position) ==> j == found.value
    {
      StartsGrow(shapes, |parts|, |parts|);
      if position >= starts[|parts|] { return None; }
      for i := 0 to |parts|
        invariant starts[i] <= position
      {
        if position >= starts[i] && position < starts[i + 1] {
          forall j | Holds(shapes, j, position) ensures j == i { HolderIsUnique(shapes, i, j, position); }
          return Some(i);
        }
      }
      assert false;
      return None;
    }

    /**
     `read(&mut out[..limit])`. The bytes delivered are those of the content at this source's own position;
     where the inner cursors were left makes no difference.
     */
    method Read(out: array<Byte>, limit: nat) returns (n: nat)
      requires Valid() && limit <= out.Length
      modifies repr, out
      ensures n == ReadLen(shape, old(pos), limit) <= limit
      ensures n > 0 ==> old(pos) + n <= |Content()| && out[..n] == Content()[old(pos)..old(pos) + n]
      ensures out[n..] == old(out[n..])
      ensures pos == old(pos) + n
      decreases shape, 1
    {
      match kind
      case MemReader(_) => n := ReadMem(out, limit);
      case SubSource(_, _, _) => n := ReadSub(out, limit);
      case ConcatSource(_, _) => n := ReadConcat(out, limit);
    }

    method ReadMem(out: array<Byte>, limit: nat) returns (n: nat)
      requires Valid() && kind.MemReader? && limit <= out.Length
      modifies this`pos, out
      ensures n == if old(pos) >= |kind.buf| then 0 else Min(limit, |kind.buf| - old(pos))
      ensures n == ReadLen(shape, old(pos), limit) <= limit
      ensures n > 0 ==> old(pos) + n <= |Content()| && out[..n] == Content()[old(pos)..old(pos) + n]
      ensures out[n..] == old(out[n..])
      ensures pos == old(pos) + n
    {
      if limit == 0 { return 0; }
      var len := |kind.buf|;
      if pos >= len { return 0; }
      n := Min(limit, len - pos);
      forall i | 0 <= i < n { out[i] := kind.buf[pos + i]; }
      pos := pos + n;
    }

    method ReadSub(out: array<Byte>, limit: nat) returns (n: nat)
      requires Valid() && kind.SubSource? && limit <= out.Length
      modifies repr, out
      ensures n == ReadLen(shape, old(pos), limit) <= limit
      ensures n > 0 ==> old(pos) + n <= |Content()| && out[..n] == Content()[old(pos)..old(pos) + n]
      ensures out[n..] == old(out[n..])
      ensures pos == old(pos) + n
      decreases shape, 0
    {
      hide Denote, ReadLen, WellFormed;
      if limit == 0 || pos >= kind.len {
        WindowEnd(limit);
        return 0;
      }
      WindowRead(limit);
      var want := Min(limit, kind.len - pos);
      var moved := kind.inner.Seek(Start(kind.base + pos));
      n := kind.inner.Read(out, want);
      pos := pos + n;
    }

    lemma WindowEnd(limit: nat)
      requires Valid() && kind.SubSource? && (limit == 0 || pos >= kind.len)
      ensures ReadLen(shape, pos, limit) == 0
    {
    }

    lemma WindowRead(limit: nat)
      requires Valid() && kind.SubSource? && pos < kind.len && limit > 0
      ensures var at, want := kind.base + pos, Min(limit, kind.len - pos);
              && at < U64_LIMIT
              && var n := ReadLen(kind.inner.shape, at, want);
                 && n == ReadLen(shape, pos, limit) && pos + n <= |Content()|
                 && at + n <= |kind.inner.Content()|
                 && Content()[pos..pos + n] == kind.inner.Content()[at..at + n]
    {
      DenoteFits(shape.inner);
      var n := ReadLen(shape, pos, limit);
      WindowBytes(shape.inner, kind.base, kind.len, pos, n);
    }

    method ReadConcat(out: array<Byte>, limit: nat) returns (n: nat)
      requires Valid() && kind.ConcatSource? && limit <= out.Length
      modifies repr, out
      ensures n == ReadLen(shape, old(pos), limit) <= limit
      ensures n > 0 ==> old(pos) + n <= |Content()| && out[..n] == Content()[old(pos)..old(pos) + n]
      ensures out[n..] == old(out[n..])
      ensures pos == old(pos) + n
      decreases shape, 0
    {
      hide Denote, ReadLen, WellFormed, StartOf, Valid;
      ConcatLayout();
      if limit == 0 {
        JoinEnd(limit);
        return 0;
      }
      var found := SegmentFor(kind.parts, kind.starts, pos, shape.parts);
      if found.None? {
        JoinEnd(limit);
        return 0;
      }
      var i := found.value;
      PartRead(i, limit);
      n := ReadSegment(kind.parts[i], kind.starts[i], kind.starts[i + 1], out, limit);
    }

    lemma ConcatLayout()
      requires Valid() && kind.ConcatSource?
      ensures shape.Join? && |kind.parts| == |shape.parts| && |kind.starts| == |kind.parts| + 1 && this in repr
      ensures forall i :: 0 <= i < |kind.starts| ==> kind.starts[i] == StartOf(shape.parts, i)
    {
    }

    lemma JoinEnd(limit: nat)
      requires Valid() && kind.ConcatSource? && (limit == 0 || pos >= |DenoteAll(shape.parts)|)
      ensures ReadLen(shape, pos, limit) == 0
    {
    }

    lemma PartRead(i: nat, limit: nat)
      requires Valid() && kind.ConcatSource? && Holds(shape.parts, i, pos) && limit > 0
      ensures var part, start, end := kind.parts[i], kind.starts[i], kind.starts[i + 1];
              && part.Valid() && part.shape == shape.parts[i] && this !in part.repr && part.repr <= repr
              && end - start == |part.Content()| && start <= pos < end
              && var n := ReadLen(part.shape, pos - start, Min(limit, end - pos));
                 && n == ReadLen(shape, pos, limit) && pos + n <= |Content()|
                 && pos - start + n <= |part.Content()|
                 && Content()[pos..pos + n] == part.Content()[pos - start..pos - start + n]
    {
      hide Denote, ReadLen, StartOf;
      JoinReads(shape.parts, pos, limit);
      assert shape == Join(shape.parts) && kind.parts[i].shape == shape.parts[i];
      HolderRead(shape.parts, i, pos, limit);
    }

    /** Position the part that occupies `[start, end)` and read from it, no further than its end. */
    method ReadSegment(part: Source, start: u64, end: u64, out: array<Byte>, limit: nat) returns (n: nat)
      requires part.Valid() && this !in part.repr
      requires start <= pos < end && end - start == |part.Content()| && limit <= out.Length
      modifies this`pos, part.repr, out
      ensures n == ReadLen(part.shape, old(pos) - start, Min(limit, end - old(pos))) <= limit
      ensures n > 0 ==> old(pos) - start + n <= |part.Content()|
      ensures n > 0 ==> out[..n] == part.Content()[old(pos) - start..old(pos) - start + n]
      ensures out[n..] == old(out[n..])
      ensures pos == old(pos) + n
      decreases part.shape, 2
    {
      var want := Min(limit, end - pos);
      var intra := pos - start;
      var moved := part.Seek(Start(intra));
      n := part.Read(out, want);
      pos := pos + n;
    }

    /** Every kind moves only its own cursor; positions past the end are allowed. */
    method Seek(from: SeekFrom) returns (r: Result<u64>)
      requires Valid()
      modifies this`pos
      ensures |Content()| < U64_LIMIT && r == SeekTarget(|Content()|, old(pos), from)
      ensures match from
              case Start(n) => r == Ok(n)
              case Current(d) =>
                && (r.Ok? <==> 0 <= old(pos) + d < U64_LIMIT)
                && (r.Ok? ==> r.value == old(pos) + d)
              case End(d) =>
                && (r.Ok? <==> 0 <= |Content()| + d < U64_LIMIT)
                && (r.Ok? ==> r.value == |Content()| + d)
      ensures pos == if r.Ok? then r.value else old(pos)
    {
      DenoteFits(shape);
      var total: u64;
      match kind {
        case MemReader(buf) => total := |buf|;
        case SubSource(_, _, len) => total := len;
        case ConcatSource(parts, starts) =>
          StartsGrow(shape.parts, |parts|, |parts|);
          total := starts[|parts|];
      }
      r := match from
           case Start(n) => Ok(n)
           case End(d) => AddSigned(total, d)
           case Current(d) => AddSigned(pos, d);
      if r.Ok? { pos := r.value; }
    }
  }

  ghost function Nodes(parts: seq<Source>): set<Source> {
    set i, node | 0 <= i < |parts| && node in parts[i].repr :: node
  }

  lemma WindowBytes(inner: Shape, base: nat, len: nat, pos: nat, n: nat)
    requires WellFormed(Window(inner, base, len)) && pos + n <= len
    ensures Denote(Window(inner, base, len))[pos..pos + n] == Denote(inner)[base + pos..base + pos + n]
  {
    SubSlice(Denote(inner), base, base + len, pos, pos + n);
  }

  /** `stream_len`: the length of any source, found without disturbing its position. */
  method StreamLen(src: Source) returns (length: u64)
    requires src.Valid()
    modifies src`pos
    ensures length == |src.Content()| && src.pos == old(src.pos)
  {
    var saved := src.pos;
    var end := src.Seek(End(0));
    assert end == Ok(|src.Content()|);
    if saved != end.value {
      var back := src.Seek(Start(saved));
    }
    return end.value;
  }

  /** `SubSource::new`: a window that does not overflow and does not leave the inner source. */
  method NewSub(inner: Source, base: u64, len: u64) returns (r: Result<Source>)
    requires inner.Valid()
    modifies inner`pos
    ensures r.Ok? <==> base + len <= |inner.Content()|
    ensures r.Ok? ==>
              && r.value.Valid() && fresh(r.value) && r.value.repr == {r.value} + inner.repr && r.value.pos == 0
              && r.value.shape == Window(inner.shape, base, len)
              && inner.pos == base
    ensures r.Err? ==> inner.pos == old(inner.pos)
  {
    DenoteFits(inner.shape);
    if base + len >= U64_LIMIT { return Err; }
    var innerLen := StreamLen(inner);
    if base + len > innerLen { return Err; }
    var moved := inner.Seek(Start(base));
    var sub := new Source.Sub(inner, base, len);
    return Ok(sub);
  }

  ghost function ShapesOf(parts: seq<Source>): (shapes: seq<Shape>)
    ensures |shapes| == |parts| && forall i :: 0 <= i < |parts| ==> shapes[i] == parts[i].shape
  {
    seq(|parts|, i requires 0 <= i < |parts| => parts[i].shape)
  }

  lemma NothingBefore(shapes: seq<Shape>)
    ensures StartOf(shapes, 0) == 0
  {
  }

  /** `ConcatSource::new`: the table of starts, an error exactly when the total does not fit in a `u64`. */
  method NewConcat(parts: seq<Source>) returns (r: Result<Source>)
    requires forall i :: 0 <= i < |parts| ==> parts[i].Valid()
    modifies Nodes(parts)
    ensures r.Ok? <==> |DenoteAll(ShapesOf(parts))| < U64_LIMIT
    ensures r.Ok? ==>
              && r.value.Valid() && fresh(r.value) && r.value.repr == {r.value} + Nodes(parts) && r.value.pos == 0
              && r.value.shape == Join(ShapesOf(parts))
  {
    hide Denote, StartOf, ReadLen, WellFormed, Source.Valid;
    ghost var shapes := ShapesOf(parts);
    NothingBefore(shapes);
    var starts: seq<u64> := [];
    var acc: u64 := 0;
    for i := 0 to |parts|
      invariant |starts| == i && acc == StartOf(shapes, i)
      invariant forall j :: 0 <= j < i ==> starts[j] == StartOf(shapes, j)
    {
      starts := starts + [acc];
      assert parts[i] in Nodes(parts) by { ContentFits(parts[i]); }
      var len := parts[i].Seek(End(0));
      SegmentBytes(shapes, i);
      StartsGrow(shapes, i + 1, |parts|);
      if acc + len.value >= U64_LIMIT { return Err; }
      acc := acc + len.value;
    }
    starts := starts + [acc];
    StartsGrow(shapes, |parts|, |parts|);
    if |parts| > 0 {
      assert parts[0] in Nodes(parts) by { ContentFits(parts[0]); }
      var moved := parts[0].Seek(Start(0));
    }
    var source := new Source.Concat(parts, starts, shapes);
    return Ok(source);
  }

  /** Reading until zero delivers exactly what lies ahead of the cursor, and stops. */
  method ReadToEnd(src: Source, chunk: array<Byte>) returns (all: seq<Byte>)
    requires src.Valid() && chunk.Length > 0
    modifies src.repr, chunk
    ensures all == src.Content()[Min(old(src.pos), |src.Content()|)..]
    ensures src.pos == Max(old(src.pos), |src.Content()|)
  {
    all := [];
    ghost var total := |src.Content()|;
    ghost var from := Min(src.pos, total);
    while true
      invariant old(src.pos) <= src.pos
      invariant src.pos <= Max(old(src.pos), total)
      invariant all == src.Content()[from..Min(src.pos, total)]
      decreases total - src.pos
    {
      var n := src.Read(chunk, chunk.Length);
      if n == 0 { return; }
      all := all + chunk[..n];
    }
  }

  lemma ContentFits(src: Source)
    requires src.Valid()
    ensures |src.Content()| < U64_LIMIT && WellFormed(src.shape) && src in src.repr
  {
    DenoteFits(src.shape);
  }

  /** Any calls on any composition are answered one by one, never with an error of a read, as a plain cursor would. */
  method Converse(src: Source, calls: seq<Call>) returns (events: seq<Event>)
    requires src.Valid()
    modifies src.repr
    ensures |src.Content()| < U64_LIMIT
    ensures Conforms(src.Content(), old(src.pos), events, src.pos)
    ensures CallsOf(events) == calls
    ensures forall i :: 0 <= i < |events| ==> !events[i].ReadErr?
  {
    hide Source.Valid, Denote, ReadLen, Conforms;
    ContentFits(src);
    events := [];
    ConformsNothing(src.Content(), src.pos);
    for k := 0 to |calls|
      invariant |events| == k && Conforms(src.Content(), old(src.pos), events, src.pos)
      invariant CallsOf(events) == calls[..k] && forall i :: 0 <= i < k ==> !events[i].ReadErr?
    {
      var event;
      ghost var before := src.pos;
      match calls[k] {
        case ReadCall(room) =>
          var out := new Byte[room](_ => 0);
          var n := src.Read(out, room);
          event := ReadOk(room, out[..n]);
        case SeekCall(from) =>
          var r := src.Seek(from);
          event := if r.Ok? then SeekOk(from, r.value) else SeekErr(from);
      }
      ConformsOne(src.Content(), before, event);
      ConformsAppend(src.Content(), old(src.pos), events, before, [event], src.pos);
      CallsOfAppend(events, [event]);
      CallsOfOne(event);
      assert calls[..k + 1] == calls[..k] + [calls[k]];
      events := events + [event];
    }
  }
}
