/** Laws of composed URIs: what formatted values mean, and how windows move through slices and concatenations. */
module Composition {
  import opened Basics
  import opened Text
  import opened Decimal
  import opened Shapes
  import opened Opener
  import S = SliceUri
  import C = ConcatUri
  import D = DataUri

  // ---- typed values and their texts ---------------------------------------------------------------

  lemma SchemesDiffer()
    ensures !EqIgnoreCase(DATA, FILE) && !EqIgnoreCase(DATA, MEM)
    ensures !EqIgnoreCase(SLICE, FILE) && !EqIgnoreCase(SLICE, MEM) && !EqIgnoreCase(SLICE, DATA)
    ensures !EqIgnoreCase(CONCAT, FILE) && !EqIgnoreCase(CONCAT, MEM) && !EqIgnoreCase(CONCAT, DATA)
    ensures !EqIgnoreCase(CONCAT, SLICE) && !EqIgnoreCase(SLICE, CONCAT)
  {
    assert ToLower(DATA[0]) != ToLower(FILE[0]);
  }

  lemma SliceFormatMeans(env: Env, x: S.SliceUri)
    ensures Split(S.Format(x)).0 == SLICE
    ensures x.inner != [] ==> Meaning(env, S.Format(x)) == Windowed(Meaning(env, x.inner), x.offset, x.length)
    ensures x.inner == [] ==> Meaning(env, S.Format(x)).Err?
  {
    SplitScheme(SLICE, S.Payload(x));
    SchemesDiffer();
    if x.inner != [] { S.RoundTrip(x); } else { S.EmptyInnerFails(x); }
  }

  /**
   Opening a typed slice and opening its text are the same thing, but for an empty inner reference: there the
   text is refused, while the typed value opens if the empty path does.
   */
  lemma SliceMeansItsValue(env: Env, x: S.SliceUri)
    ensures var typed := Windowed(Meaning(env, x.inner), x.offset, x.length);
            Meaning(env, S.Format(x)) == typed <==> x.inner != [] || typed.Err?
  {
    SliceFormatMeans(env, x);
  }

  /** What the text of any typed concatenation means: its segments cut at their separators, opened and joined. */
  ghost function TextMeaning(env: Env, x: C.ConcatUri, bound: nat): Result<Shape>
    requires forall i :: 0 <= i < |x.segments| ==> |x.segments[i]| < bound
  {
    var pieces := C.Pieces(C.Unmarked(x.segments));
    C.PiecesOf(C.Unmarked(x.segments), bound);
    if C.New(pieces).Ok? then Joined(Meanings(env, pieces, bound)) else Err
  }

  lemma ConcatTextMeans(env: Env, x: C.ConcatUri, bound: nat)
    requires forall i :: 0 <= i < |x.segments| ==> |x.segments[i]| < bound
    ensures Meaning(env, C.Format(x)) == TextMeaning(env, x, bound)
  {
    hide C.Parse, C.Pieces, C.Unmarked;
    SplitScheme(CONCAT, C.JoinBar(x.segments));
    SchemesDiffer();
    C.FormatParsesToPieces(x);
    C.PiecesOf(C.Unmarked(x.segments), bound);
    if C.Parse(C.Format(x)).Ok? {
      BoundIsIrrelevant(env, C.Parse(C.Format(x)).value.segments, |C.Format(x)|, bound);
    }
  }

  lemma ConcatFormatMeans(env: Env, x: C.ConcatUri, bound: nat)
    requires C.New(x.segments).Ok?
    requires forall i :: 0 <= i < |x.segments| ==> |x.segments[i]| < bound
    ensures Meaning(env, C.Format(x)) == Joined(Meanings(env, x.segments, bound))
  {
    hide Meaning, Meanings, C.Pieces, C.Unmarked, C.New;
    C.AcceptedIffPieces(x.segments);
    ConcatTextMeans(env, x, bound);
  }

  /** A concatenation that opens has as many parts as segments. */
  lemma {:induction false} AsManyParts(env: Env, segments: seq<Str>, bound: nat)
    requires forall i :: 0 <= i < |segments| ==> |segments[i]| < bound
    requires Meanings(env, segments, bound).Ok?
    ensures |Meanings(env, segments, bound).value| == |segments|
    decreases |segments|
  {
    if segments != [] { AsManyParts(env, segments[1..], bound); }
  }

  /** The first segment opens the same without a `//` the splitter takes off it. */
  ghost predicate SameWithoutAuthority(env: Env, segments: seq<Str>) {
    segments != [] && AUTHORITY <= segments[0] ==>
      var rest := segments[0][2..];
      !EqIgnoreCase(Split(rest).0, CONCAT) && Meaning(env, rest) == Meaning(env, segments[0])
  }

  lemma UnmarkedMeans(env: Env, x: C.ConcatUri, bound: nat)
    requires x.segments != [] && forall i :: 0 <= i < |x.segments| ==> |x.segments[i]| < bound
    requires Meanings(env, x.segments, bound).Ok?
    ensures var u := C.Unmarked(x.segments);
            && (forall i :: 0 <= i < |u| ==> |u[i]| < bound)
            && (Meanings(env, u, bound) == Meanings(env, x.segments, bound) <==> SameWithoutAuthority(env, x.segments))
  {
    var u, shapes := C.Unmarked(x.segments), Meanings(env, x.segments, bound).value;
    assert u[1..] == x.segments[1..];
    assert forall i :: 1 <= i < |u| ==> u[i] == x.segments[i];
    assert shapes == [shapes[0]] + shapes[1..];
    MeaningsCons(env, x.segments, bound, shapes[0], shapes[1..]);
    MeaningsCons(env, u, bound, shapes[0], shapes[1..]);
  }

  lemma SameCompositionIff(env: Env, x: C.ConcatUri, bound: nat)
    requires x.segments != [] && forall i :: 0 <= i < |x.segments| ==> |x.segments[i]| < bound
    requires Joined(Meanings(env, x.segments, bound)).Ok?
    ensures TextMeaning(env, x, bound) == Joined(Meanings(env, x.segments, bound)) <==>
              C.New(C.Unmarked(x.segments)).Ok? && SameWithoutAuthority(env, x.segments)
  {
    hide Meaning, Meanings, SameWithoutAuthority, C.Pieces, C.Unmarked;
    var u, pieces := C.Unmarked(x.segments), C.Pieces(C.Unmarked(x.segments));
    UnmarkedMeans(env, x, bound);
    C.PiecesOf(u, bound);
    AsManyParts(env, x.segments, bound);
    if Meanings(env, pieces, bound).Ok? { AsManyParts(env, pieces, bound); }
  }

  /** Both fail, or both open and serve the same bytes. */
  ghost predicate SameBytes(a: Result<Shape>, b: Result<Shape>) {
    (a.Ok? <==> b.Ok?) && (a.Ok? ==> Denote(a.value) == Denote(b.value))
  }

  /** The first segment serves the same bytes without a `//` the splitter takes off it. */
  ghost predicate SameBytesWithoutAuthority(env: Env, segments: seq<Str>) {
    segments != [] && AUTHORITY <= segments[0] ==>
      var rest := segments[0][2..];
      !EqIgnoreCase(Split(rest).0, CONCAT) && Bytes(env, rest) == Bytes(env, segments[0])
  }

  /** What stands before a common rest is the same exactly if the whole is. */
  lemma CancelSuffix(a: seq<Byte>, b: seq<Byte>, rest: seq<Byte>)
    ensures a + rest == b + rest <==> a == b
  {
    if a + rest == b + rest {
      assert (a + rest)[..|a|] == a && (b + rest)[..|b|] == b;
    }
  }

  /** Segments opened one after the other. */
  lemma OpensHeadAndTail(env: Env, segments: seq<Str>, bound: nat)
    requires segments != [] && forall i :: 0 <= i < |segments| ==> |segments[i]| < bound
    ensures var r, rest := Meanings(env, segments, bound), Meanings(env, segments[1..], bound);
            && (r.Ok? <==> !EqIgnoreCase(Split(segments[0]).0, CONCAT) && Meaning(env, segments[0]).Ok? && rest.Ok?)
            && (r.Ok? ==> DenoteAll(r.value) == Bytes(env, segments[0]).value + DenoteAll(rest.value))
  {
    hide Meaning;
    var r, rest := Meanings(env, segments, bound), Meanings(env, segments[1..], bound);
    if r.Ok? { assert r.value == [Meaning(env, segments[0]).value] + rest.value && r.value[1..] == rest.value; }
  }

  /**
   Without separators inside the segments a typed value and its text serve the same bytes exactly if the constructor
   accepts the value but for a leading `//`, and the first segment serves the same bytes without it.
   */
  lemma SameBytesIff(env: Env, x: C.ConcatUri, bound: nat)
    requires forall i :: 0 <= i < |x.segments| ==> |x.segments[i]| < bound && BAR !in x.segments[i]
    requires Joined(Meanings(env, x.segments, bound)).Ok?
    ensures SameBytes(Meaning(env, C.Format(x)), Joined(Meanings(env, x.segments, bound))) <==>
              C.New(C.Unmarked(x.segments)).Ok? && SameBytesWithoutAuthority(env, x.segments)
  {
    hide Meaning, Meanings, DenoteAll, C.Pieces, C.Format;
    var u := C.Unmarked(x.segments);
    ConcatTextMeans(env, x, bound);
    C.PiecesOf(u, bound);
    if x.segments != [] {
      assert u[1..] == x.segments[1..];
      OpensHeadAndTail(env, x.segments, bound);
      OpensHeadAndTail(env, u, bound);
      if Meanings(env, u, bound).Ok? {
        CancelSuffix(Bytes(env, u[0]).value, Bytes(env, x.segments[0]).value,
                     DenoteAll(Meanings(env, u[1..], bound).value));
      }
    }
  }

  /**
   Opening a typed concatenation against opening its text, for every value the public field allows. The text means
   the segments cut at their separators, or nothing if the constructor would refuse those. So for accepted values the
   two agree. Of the others that open,
     - those without separators inside the segments serve the bytes of their text exactly when a leading `//` is all
       that is wrong and the first segment serves the same bytes without it,
     - and any is the same composition as its text exactly when the first segment opens just the same without it, a
       separator never being harmless. That bytes still agree is a coincidence of the pieces: see `BarsMayHide`.
   A value that does not open agrees with its text exactly when the pieces do not open either.
   */
  lemma ConcatMeansItsValue(env: Env, x: C.ConcatUri, bound: nat)
    requires forall i :: 0 <= i < |x.segments| ==> |x.segments[i]| < bound
    ensures var typed, text := Joined(Meanings(env, x.segments, bound)), Meaning(env, C.Format(x));
            && text == TextMeaning(env, x, bound)
            && (C.New(x.segments).Ok? ==> text == typed)
            && (typed.Ok? && (forall i :: 0 <= i < |x.segments| ==> BAR !in x.segments[i]) ==>
                  (SameBytes(text, typed) <==>
                     C.New(C.Unmarked(x.segments)).Ok? && SameBytesWithoutAuthority(env, x.segments)))
            && (typed.Ok? ==>
                  (text == typed <==> C.New(C.Unmarked(x.segments)).Ok? && SameWithoutAuthority(env, x.segments)))
            && (typed.Err? ==> (SameBytes(text, typed) <==> TextMeaning(env, x, bound).Err?))
  {
    hide Meaning, SameWithoutAuthority, SameBytesWithoutAuthority;
    ConcatTextMeans(env, x, bound);
    if C.New(x.segments).Ok? { ConcatFormatMeans(env, x, bound); }
    if Joined(Meanings(env, x.segments, bound)).Ok? {
      if forall i :: 0 <= i < |x.segments| ==> BAR !in x.segments[i] { SameBytesIff(env, x, bound); }
      if x.segments == [] {
        EmptyConcatOpensOnlyTyped(env, bound);
      } else {
        SameCompositionIff(env, x, bound);
      }
    }
  }

  lemma PathMeans(env: Env, path: Str)
    requires COLON !in path
    ensures Split(path).0 == FILE && Meaning(env, path) == LeafOf(LookUp(env.files, path))
  {
  }

  /** The text of one segment spelled `p|q` opens two paths, the typed value one. */
  lemma BarredPath(env: Env, p: Str, q: Str, bound: nat)
    requires p != [] && q != [] && COLON !in p + q && BAR !in p + q && !(AUTHORITY <= p)
    requires |p| + 1 + |q| < bound
    ensures var x := C.ConcatUri([p + [BAR] + q]);
            && C.New(C.Unmarked(x.segments)).Err?
            && Meaning(env, C.Format(x)) == Joined(Meanings(env, [p, q], bound))
  {
    hide Meaning, Meanings, C.SplitBar;
    var x := C.ConcatUri([p + [BAR] + q]);
    assert (p + [BAR] + q)[|p|] == BAR;
    assert C.Unmarked(x.segments) == x.segments by {
      if |p| == 1 { assert (p + [BAR] + q)[1] == BAR; } else { assert (p + [BAR] + q)[..2] == p[..2]; }
    }
    C.SplitAtBar(p, q);
    C.OnePiece(p);
    C.OnePiece(q);
    assert x.segments[1..] == [];
    assert C.Pieces(x.segments) == [p, q];
    ConcatTextMeans(env, x, bound);
  }

  lemma OneLeaf(env: Env, p: Str, bound: nat)
    requires COLON !in p && |p| < bound
    ensures p in env.files ==> Meanings(env, [p], bound) == Ok([Leaf(env.files[p])])
    ensures p !in env.files ==> Meanings(env, [p], bound).Err?
  {
    PathMeans(env, p);
    assert !EqIgnoreCase(FILE, CONCAT);
    assert Meanings(env, [p][1..], bound) == Ok([]);
    if p in env.files { assert [Leaf(env.files[p])] + [] == [Leaf(env.files[p])]; }
  }

  lemma TwoLeaves(env: Env, p: Str, q: Str, bound: nat)
    requires COLON !in p && COLON !in q && |p| < bound && |q| < bound
    requires p in env.files && q in env.files
    ensures Meanings(env, [p, q], bound) == Ok([Leaf(env.files[p]), Leaf(env.files[q])])
  {
    PathMeans(env, p);
    OneLeaf(env, q, bound);
    assert !EqIgnoreCase(FILE, CONCAT);
    assert [p, q][1..] == [q];
    assert [Leaf(env.files[p])] + [Leaf(env.files[q])] == [Leaf(env.files[p]), Leaf(env.files[q])];
  }

  /**
   Values the constructor refuses for a `|` differ from their texts even where nothing shows it: if the files `p|q`,
   `p` and `q` are there the bytes may coincide, and without `p|q` only the text opens.
   */
  lemma BarsMayHide()
    ensures var p, q := [0x70], [0x71];
            var pq := p + [BAR] + q;
            var x := C.ConcatUri([pq]);
            var without, with := Env(map[], map[p := [1], q := [2]]), Env(map[], map[p := [1], q := [2], pq := [1, 2]]);
            && C.New(C.Unmarked(x.segments)).Err?
            && Bytes(with, C.Format(x)) == Ok([1, 2])
            && SameBytes(Meaning(with, C.Format(x)), Joined(Meanings(with, x.segments, 4)))
            && Meaning(with, C.Format(x)) != Joined(Meanings(with, x.segments, 4))
            && Bytes(without, C.Format(x)) == Ok([1, 2])
            && Joined(Meanings(without, x.segments, 4)).Err?
  {
    hide Meaning, Meanings, C.New, C.Unmarked, C.Format;
    var p: Str, q: Str := [0x70], [0x71];
    var pq := p + [BAR] + q;
    var x := C.ConcatUri([pq]);
    var without, with := Env(map[], map[p := [1], q := [2]]), Env(map[], map[p := [1], q := [2], pq := [1, 2]]);
    assert p[0] != q[0] && |pq| == 3;
    BarredPath(with, p, q, 4);
    BarredPath(without, p, q, 4);
    TwoLeaves(with, p, q, 4);
    TwoLeaves(without, p, q, 4);
    OneLeaf(with, pq, 4);
    OneLeaf(without, pq, 4);
    LeavesJoined([1], [2]);
    assert without.files[p] == [1] && without.files[q] == [2];
    assert with.files[p] == [1] && with.files[q] == [2] && with.files[pq] == [1] + [2];
    assert Joined(Meanings(with, x.segments, 4)) == Ok(Join([Leaf([1] + [2])]));
    assert Meaning(with, C.Format(x)) == Ok(Join([Leaf([1]), Leaf([2])]));
    assert Meaning(without, C.Format(x)) == Ok(Join([Leaf([1]), Leaf([2])]));
    assert |[Leaf([1]), Leaf([2])]| != |[Leaf([1] + [2])]|;
  }

  lemma LeavesJoined(a: seq<Byte>, b: seq<Byte>)
    ensures Denote(Join([Leaf(a), Leaf(b)])) == a + b && Denote(Join([Leaf(a + b)])) == a + b
  {
    assert [Leaf(a), Leaf(b)][1..] == [Leaf(b)] && [Leaf(b)][1..] == [] && [Leaf(a + b)][1..] == [];
    assert DenoteAll([Leaf(b)]) == Denote(Leaf(b)) + DenoteAll([]) == b;
    assert DenoteAll([Leaf(a), Leaf(b)]) == Denote(Leaf(a)) + DenoteAll([Leaf(b)]);
    assert DenoteAll([Leaf(a + b)]) == Denote(Leaf(a + b)) + DenoteAll([]) == a + b;
  }

  /** The empty concatenation opens as an empty source, its text does not open. */
  lemma EmptyConcatOpensOnlyTyped(env: Env, bound: nat)
    ensures Joined(Meanings(env, [], bound)) == Ok(Join([])) && DenoteAll([]) == []
    ensures Meaning(env, C.Format(C.ConcatUri([]))).Err?
  {
    SplitScheme(CONCAT, []);
    SchemesDiffer();
  }

  /**
   Opening a typed data value always serves its payload; its text serves the same exactly when it carries the
   payload. Values the constructor accepts all do.
   */
  lemma DataMeansItsValue(env: Env, x: D.DataUri)
    ensures D.New(x.mediatype, x.base64, x.data).Ok? ==> Meaning(env, D.Format(x)) == Ok(Leaf(x.data))
    ensures var m := StripPrefix(x.mediatype, AUTHORITY);
            Meaning(env, D.Format(x)) == Ok(Leaf(x.data)) <==>
              && COMMA !in x.mediatype && !(AUTHORITY <= m)
              && (x.base64 || D.StripMarker(m).None? || x.data == [])
  {
    hide D.Parse, D.Rest;
    D.PayloadSurvivesIff(x);
    SplitScheme(DATA, D.Rest(x));
    SchemesDiffer();
  }

  /**
   What ids open: spelled `mem://`, exactly the registered ones that are not empty and hold no `/`. The short
   spelling opens the same, for any id that is not itself led by `//`.
   */
  lemma MemMeansItsBuffer(env: Env, id: Str)
    ensures var r := Bytes(env, MEM + [COLON] + (AUTHORITY + id));
            && (r.Ok? <==> id != [] && SLASH !in id && id in env.mem)
            && (r.Ok? ==> r.value == env.mem[id])
            && (!(AUTHORITY <= id) ==> Bytes(env, MEM + [COLON] + id) == r)
  {
    hide Meanings;
    assert AUTHORITY <= AUTHORITY + id && (AUTHORITY + id)[2..] == id;
    SplitScheme(MEM, id);
    SplitScheme(MEM, AUTHORITY + id);
    assert !EqIgnoreCase(MEM, FILE);
  }

  lemma {:induction false} NestedConcatFails(env: Env, segments: seq<Str>, bound: nat, i: nat)
    requires forall k :: 0 <= k < |segments| ==> |segments[k]| < bound
    requires i < |segments| && EqIgnoreCase(Split(segments[i]).0, CONCAT)
    ensures Meanings(env, segments, bound).Err?
    decreases |segments|
  {
    if i > 0 { NestedConcatFails(env, segments[1..], bound, i - 1); }
  }

  /** A concatenation is never a segment of a concatenation, in any spelling of its scheme. */
  lemma NestedConcatIsRefused(env: Env, x: C.ConcatUri, i: nat)
    requires C.New(x.segments).Ok? && i < |x.segments|
    requires CaseVariant(Split(x.segments[i]).0, CONCAT)
    ensures Meaning(env, C.Format(x)).Err?
  {
    EqIgnoreCaseIff(Split(x.segments[i]).0, CONCAT);
    ConcatFormatMeans(env, x, C.LongerThanAll(x.segments));
    NestedConcatFails(env, x.segments, C.LongerThanAll(x.segments), i);
  }

  lemma FormatsAreNotEmpty(x: S.SliceUri)
    ensures S.Format(x) != []
  {
  }

  // ---- slices of slices ---------------------------------------------------------------------------

  /**
   A slice of a slice opens exactly when each window lies inside what it windows, and then it serves the same
   bytes as one slice at the sum of the offsets.
   */
  lemma NestedSlicesCollapse(env: Env, outerOffset: u64, outerLength: u64, offset: u64, length: u64, uri: Str)
    requires env.Fits() && |uri| < U64_LIMIT && uri != []
    ensures var nested := S.Format(S.SliceUri(outerOffset, outerLength, S.Format(S.SliceUri(offset, length, uri))));
            && (Bytes(env, nested).Ok? <==>
                  && Bytes(env, uri).Ok? && offset + length <= |Bytes(env, uri).value|
                  && outerOffset + outerLength <= length)
            && (Bytes(env, nested).Ok? ==>
                  && offset + outerOffset < U64_LIMIT
                  && Bytes(env, nested) == Bytes(env, S.Format(S.SliceUri(offset + outerOffset, outerLength, uri))))
  {
    hide Meaning, S.Format, WellFormed;
    var inner := S.SliceUri(offset, length, uri);
    FormatsAreNotEmpty(inner);
    SliceFormatMeans(env, inner);
    SliceFormatMeans(env, S.SliceUri(outerOffset, outerLength, S.Format(inner)));
    MeaningIsWellFormed(env, uri);
    if Meaning(env, uri).Ok? {
      var s := Meaning(env, uri).value;
      DenoteFits(s);
      if offset + length <= |Denote(s)| && outerOffset + outerLength <= length {
        WindowsCollapse(s, offset, length, outerOffset, outerLength);
        SliceFormatMeans(env, S.SliceUri(offset + outerOffset, outerLength, uri));
      }
    }
  }

  // ---- slices of concatenations -------------------------------------------------------------------

  /** The texts of a window pushed into the segments, whose lengths are `lens`. */
  ghost function WindowUris(segments: seq<Str>, lens: seq<u64>, base: nat, count: nat): (r: seq<Str>)
    requires |segments| == |lens|
    ensures |r| == |segments|
  {
    if segments == [] then []
    else
      var (o, l) := Overlap(lens[0], base, count);
      [S.Format(S.SliceUri(o, l, segments[0]))] + WindowUris(segments[1..], lens[1..], Monus(base, lens[0]), count - l)
  }

  lemma MeaningsCons(env: Env, texts: seq<Str>, bound: nat, s: Shape, rest: seq<Shape>)
    requires texts != [] && forall i :: 0 <= i < |texts| ==> |texts[i]| < bound
    ensures Meanings(env, texts, bound) == Ok([s] + rest) <==>
              && !EqIgnoreCase(Split(texts[0]).0, CONCAT)
              && Meaning(env, texts[0]) == Ok(s) && Meanings(env, texts[1..], bound) == Ok(rest)
  {
    var r := Meanings(env, texts, bound);
    if r == Ok([s] + rest) {
      assert r.value[0] == s && r.value[1..] == rest;
    }
  }

  /** The window of one segment means the window of that segment. */
  lemma PieceMeans(env: Env, segment: Str, s: Shape, o: u64, l: u64)
    requires segment != [] && Meaning(env, segment) == Ok(s) && o + l <= |Denote(s)|
    ensures var w := S.Format(S.SliceUri(o, l, segment));
            !EqIgnoreCase(Split(w).0, CONCAT) && Meaning(env, w) == Ok(Window(s, o, l))
  {
    SliceFormatMeans(env, S.SliceUri(o, l, segment));
    SchemesDiffer();
  }

  lemma UnfoldPieces(segments: seq<Str>, lens: seq<u64>, base: nat, count: nat, bound: nat, shapes: seq<Shape>)
    requires segments != [] && |segments| == |lens| == |shapes| && lens[0] == |Denote(shapes[0])|
    requires forall i :: 0 <= i < |segments| ==> |WindowUris(segments, lens, base, count)[i]| < bound
    ensures var (o, l) := Overlap(lens[0], base, count);
            var rest := WindowUris(segments[1..], lens[1..], Monus(base, lens[0]), count - l);
            && WindowUris(segments, lens, base, count)[0] == S.Format(S.SliceUri(o, l, segments[0]))
            && WindowUris(segments, lens, base, count)[1..] == rest
            && (forall i :: 0 <= i < |rest| ==> |rest[i]| < bound)
            && WindowParts(shapes, base, count)
               == [Window(shapes[0], o, l)] + WindowParts(shapes[1..], Monus(base, lens[0]), count - l)
  {
    hide S.Format, Denote;
    var (o, l) := Overlap(lens[0], base, count);
    var rest := WindowUris(segments[1..], lens[1..], Monus(base, lens[0]), count - l);
    var all := WindowUris(segments, lens, base, count);
    assert all == [S.Format(S.SliceUri(o, l, segments[0]))] + rest;
    forall i | 0 <= i < |rest| ensures |rest[i]| < bound { assert rest[i] == all[i + 1]; }
  }

  lemma NoPieces(env: Env, segments: seq<Str>, lens: seq<u64>, base: nat, count: nat, bound: nat, shapes: seq<Shape>)
    requires segments == [] && |segments| == |lens| == |shapes|
    ensures Meanings(env, WindowUris(segments, lens, base, count), bound) == Ok(WindowParts(shapes, base, count))
  {
  }

  lemma {:induction false} WindowUrisMean(env: Env, segments: seq<Str>, lens: seq<u64>, base: nat, count: nat,
                                          a: nat, b: nat, shapes: seq<Shape>)
    requires |segments| == |lens| == |shapes|
    requires forall i :: 0 <= i < |segments| ==> segments[i] != [] && |segments[i]| < a
    requires Meanings(env, segments, a) == Ok(shapes)
    requires forall i :: 0 <= i < |lens| ==> lens[i] == |Denote(shapes[i])|
    requires forall i :: 0 <= i < |segments| ==> |WindowUris(segments, lens, base, count)[i]| < b
    ensures Meanings(env, WindowUris(segments, lens, base, count), b) == Ok(WindowParts(shapes, base, count))
    decreases |segments|
  {
    hide Meaning, Meanings, S.Format, WindowUris, WindowParts, Denote, Split, EqIgnoreCase;
    if segments == [] {
      NoPieces(env, segments, lens, base, count, b, shapes);
    } else {
      var (o, l) := Overlap(lens[0], base, count);
      UnfoldPieces(segments, lens, base, count, b, shapes);
      assert shapes == [shapes[0]] + shapes[1..];
      MeaningsCons(env, segments, a, shapes[0], shapes[1..]);
      PieceMeans(env, segments[0], shapes[0], o, l);
      WindowUrisMean(env, segments[1..], lens[1..], Monus(base, lens[0]), count - l, a, b, shapes[1..]);
      MeaningsCons(env, WindowUris(segments, lens, base, count), b, Window(shapes[0], o, l),
                   WindowParts(shapes[1..], Monus(base, lens[0]), count - l));
    }
  }

  lemma PrintHasNoBar(n: nat)
    ensures BAR !in Print(n)
  {
    assert !IsDigit(BAR);
  }

  lemma PieceIsSegment(segment: Str, o: u64, l: u64)
    requires BAR !in segment
    ensures var w := S.Format(S.SliceUri(o, l, segment)); BAR !in w && w != [] && !(AUTHORITY <= w)
  {
    PrintHasNoBar(o);
    PrintHasNoBar(l);
    assert S.Format(S.SliceUri(o, l, segment))[0] == SLICE[0];
  }

  lemma {:induction false} WindowUrisAreSegments(segments: seq<Str>, lens: seq<u64>, base: nat, count: nat)
    requires |segments| == |lens|
    requires forall i :: 0 <= i < |segments| ==> BAR !in segments[i]
    ensures forall i :: 0 <= i < |segments| ==>
              var w := WindowUris(segments, lens, base, count)[i]; BAR !in w && w != [] && !(AUTHORITY <= w)
    decreases |segments|
  {
    hide S.Format;
    if segments != [] {
      var (o, l) := Overlap(lens[0], base, count);
      PieceIsSegment(segments[0], o, l);
      WindowUrisAreSegments(segments[1..], lens[1..], Monus(base, lens[0]), count - l);
    }
  }

  lemma PiecesAreAccepted(segments: seq<Str>, lens: seq<u64>, base: nat, count: nat)
    requires C.New(segments).Ok? && |segments| == |lens|
    ensures C.New(WindowUris(segments, lens, base, count)).Ok?
    ensures forall i :: 0 <= i < |segments| ==> segments[i] != []
  {
    hide WindowUris;
    WindowUrisAreSegments(segments, lens, base, count);
  }

  lemma PiecesMean(env: Env, x: C.ConcatUri, shapes: seq<Shape>, lens: seq<u64>, base: u64, count: u64)
    requires C.New(x.segments).Ok?
    requires Meanings(env, x.segments, C.LongerThanAll(x.segments)) == Ok(shapes)
    requires |x.segments| == |lens| == |shapes|
    requires forall i :: 0 <= i < |lens| ==> lens[i] == |Denote(shapes[i])|
    requires base + count <= |DenoteAll(shapes)| < U64_LIMIT
    ensures var pieces := C.ConcatUri(WindowUris(x.segments, lens, base, count));
            && C.New(pieces.segments).Ok?
            && Meaning(env, C.Format(pieces)) == Ok(Join(WindowParts(shapes, base, count)))
  {
    hide Meaning, Meanings, Denote, DenoteAll, C.Format, C.New, WindowUris, WindowParts, C.LongerThanAll;
    var pieces := WindowUris(x.segments, lens, base, count);
    PiecesAreAccepted(x.segments, lens, base, count);
    WindowUrisMean(env, x.segments, lens, base, count, C.LongerThanAll(x.segments), C.LongerThanAll(pieces), shapes);
    ConcatFormatMeans(env, C.ConcatUri(pieces), C.LongerThanAll(pieces));
    WindowOverJoin(shapes, base, count);
  }

  /**
   A slice of a concatenation serves the same bytes as the concatenation of the slices of its segments, as
   texts that are formatted, parsed and opened.
   */
  lemma SliceOfConcatIsConcatOfSlices(env: Env, x: C.ConcatUri, shapes: seq<Shape>, lens: seq<u64>,
                                      base: u64, count: u64)
    requires C.New(x.segments).Ok?
    requires Meanings(env, x.segments, C.LongerThanAll(x.segments)) == Ok(shapes)
    requires |x.segments| == |lens| == |shapes|
    requires forall i :: 0 <= i < |lens| ==> lens[i] == |Denote(shapes[i])|
    requires base + count <= |DenoteAll(shapes)| < U64_LIMIT
    ensures var pieces := C.ConcatUri(WindowUris(x.segments, lens, base, count));
            && C.New(pieces.segments).Ok?
            && Bytes(env, S.Format(S.SliceUri(base, count, C.Format(x)))) == Ok(DenoteAll(shapes)[base..base + count])
            && Bytes(env, C.Format(pieces)) == Ok(DenoteAll(shapes)[base..base + count])
  {
    hide Meaning, Meanings, DenoteAll, C.Format, C.New, S.Format, WindowUris, WindowParts, C.LongerThanAll;
    PiecesMean(env, x, shapes, lens, base, count);
    ConcatFormatMeans(env, x, C.LongerThanAll(x.segments));
    FormatIsNotEmpty(x);
    SliceFormatMeans(env, S.SliceUri(base, count, C.Format(x)));
    WindowOverJoin(shapes, base, count);
  }

  lemma FormatIsNotEmpty(x: C.ConcatUri)
    ensures C.Format(x) != []
  {
  }
}
