/**
 `open_bytes`: the recursive dispatcher that gives URIs their meaning. A URI means a `Shape`; opening it
 builds a source of that shape.
 */
module Opener {
  import opened Basics
  import opened Text
  import opened Shapes
  import opened Sources
  import S = SliceUri
  import C = ConcatUri
  import D = DataUri

  /** The bytes behind the names: the `mem://` table and, by whole URI text, whatever the file driver can open. */
  datatype Env = Env(mem: map<Str, seq<Byte>>, files: map<Str, seq<Byte>>) {
    ghost predicate Fits() {
      && (forall id :: id in mem ==> |mem[id]| < U64_LIMIT)
      && (forall uri :: uri in files ==> |files[uri]| < U64_LIMIT)
    }
  }

  function LookUp(table: map<Str, seq<Byte>>, key: Str): Result<seq<Byte>> {
    if key in table then Ok(table[key]) else Err
  }

  /** `open_mem`: a non-empty id without `/` that is registered. */
  function MemBytes(env: Env, uri: Str): Result<seq<Byte>> {
    var id := Split(uri).1;
    if id == [] then Err else if SLASH in id then Err else LookUp(env.mem, id)
  }

  // ---- the meaning of a URI -----------------------------------------------------------------------

  function LeafOf(r: Result<seq<Byte>>): Result<Shape> {
    match r
    case Ok(bytes) => Ok(Leaf(bytes))
    case Err => Err
  }

  ghost function Meaning(env: Env, uri: Str): Result<Shape>
    decreases |uri|
  {
    var scheme := Split(uri).0;
    if EqIgnoreCase(scheme, FILE) then LeafOf(LookUp(env.files, uri))
    else if EqIgnoreCase(scheme, MEM) then LeafOf(MemBytes(env, uri))
    else if EqIgnoreCase(scheme, DATA) then
      match D.Parse(uri)
      case Ok(x) => Ok(Leaf(x.data))
      case Err => Err
    else if EqIgnoreCase(scheme, SLICE) then
      match S.Parse(uri)
      case Ok(x) => Windowed(Meaning(env, x.inner), x.offset, x.length)
      case Err => Err
    else if EqIgnoreCase(scheme, CONCAT) then
      match C.Parse(uri)
      case Ok(x) => Joined(Meanings(env, x.segments, |uri|))
      case Err => Err
    else Err
  }

  /** The meanings of segments, all of them shorter than `bound`; a nested `concat:` is refused. */
  ghost function Meanings(env: Env, segments: seq<Str>, bound: nat): Result<seq<Shape>>
    requires forall i :: 0 <= i < |segments| ==> |segments[i]| < bound
    decreases bound, |segments|
  {
    if segments == [] then Ok([])
    else if EqIgnoreCase(Split(segments[0]).0, CONCAT) then Err
    else
      match (Meaning(env, segments[0]), Meanings(env, segments[1..], bound))
      case (Ok(first), Ok(rest)) => Ok([first] + rest)
      case _ => Err
  }

  ghost function Windowed(inner: Result<Shape>, offset: nat, length: nat): Result<Shape> {
    match inner
    case Ok(s) => if offset + length <= |Denote(s)| then Ok(Window(s, offset, length)) else Err
    case Err => Err
  }

  ghost function Joined(parts: Result<seq<Shape>>): Result<Shape> {
    match parts
    case Ok(shapes) => if |DenoteAll(shapes)| < U64_LIMIT then Ok(Join(shapes)) else Err
    case Err => Err
  }

  /** The bytes a URI stands for. */
  ghost function Bytes(env: Env, uri: Str): Result<seq<Byte>> {
    match Meaning(env, uri)
    case Ok(s) => Ok(Denote(s))
    case Err => Err
  }

  lemma {:induction false} MeaningIsWellFormed(env: Env, uri: Str)
    requires env.Fits() && |uri| < U64_LIMIT
    ensures Meaning(env, uri).Ok? ==> WellFormed(Meaning(env, uri).value)
    decreases |uri|
  {
    if EqIgnoreCase(Split(uri).0, SLICE) {
      if S.Parse(uri).Ok? { MeaningIsWellFormed(env, S.Parse(uri).value.inner); }
    } else if EqIgnoreCase(Split(uri).0, CONCAT) {
      if C.Parse(uri).Ok? { MeaningsAreWellFormed(env, C.Parse(uri).value.segments, |uri|); }
    }
  }

  lemma {:induction false} MeaningsAreWellFormed(env: Env, segments: seq<Str>, bound: nat)
    requires env.Fits() && bound < U64_LIMIT
    requires forall i :: 0 <= i < |segments| ==> |segments[i]| < bound
    ensures var r := Meanings(env, segments, bound);
            r.Ok? ==> |r.value| == |segments| && forall i :: 0 <= i < |r.value| ==> WellFormed(r.value[i])
    decreases bound, |segments|
  {
    if segments != [] {
      MeaningIsWellFormed(env, segments[0]);
      MeaningsAreWellFormed(env, segments[1..], bound);
    }
  }

  /** The bound only serves termination. */
  lemma {:induction false} BoundIsIrrelevant(env: Env, segments: seq<Str>, a: nat, b: nat)
    requires forall i :: 0 <= i < |segments| ==> |segments[i]| < a && |segments[i]| < b
    ensures Meanings(env, segments, a) == Meanings(env, segments, b)
    decreases |segments|
  {
    if segments != [] {
      BoundIsIrrelevant(env, segments[1..], a, b);
    }
  }

  // ---- opening ------------------------------------------------------------------------------------

  method OpenLeaf(bytes: Result<seq<Byte>>) returns (r: Result<Source>)
    requires bytes.Ok? ==> |bytes.value| < U64_LIMIT
    ensures r.Ok? <==> bytes.Ok?
    ensures r.Ok? ==> r.value.Valid() && fresh(r.value.repr) && r.value.pos == 0 && r.value.shape == Leaf(bytes.value)
  {
    if bytes.Err? { return Err; }
    var leaf := new Source.Mem(bytes.value);
    return Ok(leaf);
  }

  /**
   Opening terminates on every URI, succeeds exactly when the URI has a meaning, and yields a fresh reader at
   position 0 that serves it.
   */
  method OpenBytes(env: Env, uri: Str) returns (r: Result<Source>)
    requires env.Fits() && |uri| < U64_LIMIT
    ensures r.Ok? <==> Meaning(env, uri).Ok?
    ensures r.Ok? ==>
              r.value.Valid() && fresh(r.value.repr) && r.value.pos == 0 && r.value.shape == Meaning(env, uri).value
    decreases |uri|, 2
  {
    var scheme := Split(uri).0;
    if EqIgnoreCase(scheme, FILE) {
      r := OpenLeaf(LookUp(env.files, uri));
    } else if EqIgnoreCase(scheme, MEM) {
      r := OpenLeaf(MemBytes(env, uri));
    } else if EqIgnoreCase(scheme, DATA) {
      var x := D.ParseBytes(uri);
      r := OpenLeaf(if x.Ok? then Ok(x.value.data) else Err);
    } else if EqIgnoreCase(scheme, SLICE) {
      var x := S.Parse(uri);
      if x.Err? { return Err; }
      r := OpenSlice(env, x.value);
    } else if EqIgnoreCase(scheme, CONCAT) {
      var x := C.Parse(uri);
      if x.Err? { return Err; }
      r := OpenConcat(env, x.value, |uri|);
    } else {
      r := Err;
    }
  }

  /** `SliceUri::open` */
  method OpenSlice(env: Env, x: S.SliceUri) returns (r: Result<Source>)
    requires env.Fits() && |x.inner| < U64_LIMIT
    ensures r.Ok? <==> Windowed(Meaning(env, x.inner), x.offset, x.length).Ok?
    ensures r.Ok? ==>
              && r.value.Valid() && fresh(r.value.repr) && r.value.pos == 0
              && r.value.shape == Windowed(Meaning(env, x.inner), x.offset, x.length).value
    decreases |x.inner|, 3
  {
    var inner := OpenBytes(env, x.inner);
    if inner.Err? { return Err; }
    r := NewSub(inner.value, x.offset, x.length);
  }

  /** `ConcatUri::open` on segments shorter than `bound` */
  method OpenConcat(env: Env, x: C.ConcatUri, ghost bound: nat) returns (r: Result<Source>)
    requires env.Fits() && bound < U64_LIMIT
    requires forall i :: 0 <= i < |x.segments| ==> |x.segments[i]| < bound
    ensures r.Ok? <==> Joined(Meanings(env, x.segments, bound)).Ok?
    ensures r.Ok? ==>
              && r.value.Valid() && fresh(r.value.repr) && r.value.pos == 0
              && r.value.shape == Joined(Meanings(env, x.segments, bound)).value
    decreases bound, 1
  {
    var sources := OpenSegments(env, x.segments, bound);
    if sources.Err? { return Err; }
    r := NewConcat(sources.value);
  }

  method OpenSegments(env: Env, segments: seq<Str>, ghost bound: nat) returns (r: Result<seq<Source>>)
    requires env.Fits() && bound < U64_LIMIT
    requires forall i :: 0 <= i < |segments| ==> |segments[i]| < bound
    ensures r.Ok? <==> Meanings(env, segments, bound).Ok?
    ensures r.Ok? ==>
              && Meanings(env, segments, bound) == Ok(ShapesOf(r.value))
              && forall i :: 0 <= i < |r.value| ==> r.value[i].Valid() && fresh(r.value[i].repr)
    decreases bound, 0
  {
    hide Denote, WellFormed, Meaning;
    var parts: seq<Source> := [];
    ghost var goal := Meanings(env, segments, bound);
    assert segments[0..] == segments && ShapesOf(parts) == [];
    PrefixedNothing(goal);
    for i := 0 to |segments|
      invariant |parts| == i
      invariant forall k :: 0 <= k < i ==> parts[k].Valid() && fresh(parts[k].repr)
      invariant goal == Prefixed(ShapesOf(parts), Meanings(env, segments[i..], bound))
    {
      var part := OpenSegment(env, segments[i]);
      assert segments[i..][1..] == segments[i + 1..];
      if part.Err? { return Err; }
      PrefixedStep(ShapesOf(parts), [part.value.shape], Meanings(env, segments[i + 1..], bound));
      assert ShapesOf(parts + [part.value]) == ShapesOf(parts) + [part.value.shape];
      parts := parts + [part.value];
    }
    assert segments[|segments|..] == [] && ShapesOf(parts) + [] == ShapesOf(parts);
    return Ok(parts);
  }

  /** `open_segment`: everything but a nested `concat:` goes through the dispatcher. */
  method OpenSegment(env: Env, seg: Str) returns (r: Result<Source>)
    requires env.Fits() && |seg| < U64_LIMIT
    ensures r.Ok? <==> !EqIgnoreCase(Split(seg).0, CONCAT) && Meaning(env, seg).Ok?
    ensures r.Ok? ==>
              r.value.Valid() && fresh(r.value.repr) && r.value.pos == 0 && r.value.shape == Meaning(env, seg).value
    decreases |seg|, 3
  {
    if EqIgnoreCase(Split(seg).0, CONCAT) { return Err; }
    r := OpenBytes(env, seg);
  }
}
