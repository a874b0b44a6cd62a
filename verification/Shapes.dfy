/** What composed sources mean: windows are subsequences, concatenations are flattenings. */
module Shapes {
  import opened Basics

  /** How a source was put together from memory leaves. */
  datatype Shape = Leaf(bytes: seq<Byte>) | Window(inner: Shape, base: nat, len: nat) | Join(parts: seq<Shape>)

  /** The shapes the constructors admit: windows lie inside, and every length fits in a `u64`. */
  ghost predicate WellFormed(s: Shape) {
    match s
    case Leaf(bytes) => |bytes| < U64_LIMIT
    case Window(inner, base, len) => WellFormed(inner) && base + len <= |Denote(inner)|
    case Join(parts) => (forall i :: 0 <= i < |parts| ==> WellFormed(parts[i])) && |DenoteAll(parts)| < U64_LIMIT
  }

  /** The bytes a source of this shape serves. */
  ghost function Denote(s: Shape): seq<Byte> {
    match s
    case Leaf(bytes) => bytes
    case Window(inner, base, len) =>
      var all := Denote(inner);
      if base + len <= |all| then all[base..base + len] else []
    case Join(parts) => DenoteAll(parts)
  }

  ghost function DenoteAll(parts: seq<Shape>): seq<Byte> {
    if parts == [] then [] else Denote(parts[0]) + DenoteAll(parts[1..])
  }

  /** Offset at which part `i` begins. */
  ghost function StartOf(parts: seq<Shape>, i: nat): nat
    requires i <= |parts|
  {
    if i == 0 then 0 else |Denote(parts[0])| + StartOf(parts[1..], i - 1)
  }

  lemma DenoteFits(s: Shape)
    requires WellFormed(s)
    ensures |Denote(s)| < U64_LIMIT
  {
  }

  lemma {:induction false} DenoteAllSplit(a: seq<Shape>, b: seq<Shape>)
    ensures DenoteAll(a + b) == DenoteAll(a) + DenoteAll(b)
  {
    if a == [] {
      assert a + b == b;
    } else {
      assert (a + b)[1..] == a[1..] + b;
      DenoteAllSplit(a[1..], b);
    }
  }

  /** Part `i` occupies exactly the stretch between its start and the next one. */
  lemma {:induction false} SegmentBytes(parts: seq<Shape>, i: nat)
    requires i < |parts|
    ensures StartOf(parts, i + 1) == StartOf(parts, i) + |Denote(parts[i])| <= |DenoteAll(parts)|
    ensures DenoteAll(parts)[StartOf(parts, i)..StartOf(parts, i + 1)] == Denote(parts[i])
    decreases i
  {
    var head := Denote(parts[0]);
    if i > 0 {
      SegmentBytes(parts[1..], i - 1);
      ShiftedSlice(head, DenoteAll(parts[1..]), StartOf(parts[1..], i - 1), StartOf(parts[1..], i));
    } else {
      assert StartOf(parts[1..], 0) == 0;
      assert (head + DenoteAll(parts[1..]))[..|head|] == head;
    }
  }

  lemma ShiftedSlice(head: seq<Byte>, tail: seq<Byte>, lo: nat, hi: nat)
    requires lo <= hi <= |tail|
    ensures (head + tail)[|head| + lo..|head| + hi] == tail[lo..hi]
  {
  }

  lemma {:induction false} StartsGrow(parts: seq<Shape>, i: nat, j: nat)
    requires i <= j <= |parts|
    ensures StartOf(parts, i) <= StartOf(parts, j) <= |DenoteAll(parts)|
    ensures j == |parts| ==> StartOf(parts, j) == |DenoteAll(parts)|
    decreases j
  {
    if j > 0 {
      StartsGrow(parts[1..], if i == 0 then 0 else i - 1, j - 1);
    }
  }

  /** Empty parts notwithstanding, exactly one part holds the byte at `pos`. */
  ghost predicate Holds(parts: seq<Shape>, i: nat, pos: nat) {
    i < |parts| && StartOf(parts, i) <= pos < StartOf(parts, i + 1)
  }

  lemma HolderIsUnique(parts: seq<Shape>, i: nat, j: nat, pos: nat)
    requires Holds(parts, i, pos) && Holds(parts, j, pos)
    ensures i == j
  {
    if i < j {
      StartsGrow(parts, i + 1, j);
    } else if j < i {
      StartsGrow(parts, j + 1, i);
    }
  }

  /** Any stretch inside one part of a concatenation is that part's own stretch. */
  lemma StretchOfSegment(parts: seq<Shape>, i: nat, from: nat, n: nat)
    requires i < |parts| && from + n <= |Denote(parts[i])|
    ensures StartOf(parts, i) + from + n <= |DenoteAll(parts)|
    ensures DenoteAll(parts)[StartOf(parts, i) + from..StartOf(parts, i) + from + n] == Denote(parts[i])[from..from + n]
  {
    SegmentBytes(parts, i);
    SubSlice(DenoteAll(parts), StartOf(parts, i), StartOf(parts, i + 1), from, from + n);
  }

  // ---- the length of a read -----------------------------------------------------------------------

  /** How many bytes a read of up to `limit` bytes at `pos` delivers: inner cursors play no part in it. */
  ghost function ReadLen(s: Shape, pos: nat, limit: nat): (n: nat)
    requires WellFormed(s)
    ensures n <= limit
    ensures n == 0 <==> limit == 0 || pos >= |Denote(s)|
    ensures n > 0 ==> pos + n <= |Denote(s)|
    decreases s
  {
    match s
    case Leaf(bytes) => if pos >= |bytes| then 0 else Min(limit, |bytes| - pos)
    case Window(inner, base, len) => if pos >= len then 0 else ReadLen(inner, base + pos, Min(limit, len - pos))
    case Join(parts) => ReadLenAll(parts, pos, limit)
  }

  ghost function ReadLenAll(parts: seq<Shape>, pos: nat, limit: nat): (n: nat)
    requires forall i :: 0 <= i < |parts| ==> WellFormed(parts[i])
    ensures n <= limit
    ensures n == 0 <==> limit == 0 || pos >= |DenoteAll(parts)|
    ensures n > 0 ==> pos + n <= |DenoteAll(parts)|
    decreases parts
  {
    if parts == [] then 0
    else
      var len := |Denote(parts[0])|;
      if pos < len then ReadLen(parts[0], pos, Min(limit, len - pos)) else ReadLenAll(parts[1..], pos - len, limit)
  }

  /** Reading a concatenation is reading the part that holds the position, up to its end. */
  lemma {:induction false} ReadLenOfHolder(parts: seq<Shape>, i: nat, pos: nat, limit: nat)
    requires forall i :: 0 <= i < |parts| ==> WellFormed(parts[i])
    requires Holds(parts, i, pos)
    ensures ReadLenAll(parts, pos, limit)
         == ReadLen(parts[i], pos - StartOf(parts, i), Min(limit, StartOf(parts, i + 1) - pos))
    decreases i
  {
    if i > 0 {
      StartsGrow(parts, 1, i);
      assert StartOf(parts, 1) == |Denote(parts[0])| + StartOf(parts[1..], 0);
      ReadLenOfHolder(parts[1..], i - 1, pos - |Denote(parts[0])|, limit);
    } else {
      assert StartOf(parts[1..], 0) == 0;
    }
  }

  /** Both halves of a concatenation's read: how much the holder delivers, and that it is the right bytes. */
  lemma HolderRead(parts: seq<Shape>, i: nat, pos: nat, limit: nat)
    requires forall i :: 0 <= i < |parts| ==> WellFormed(parts[i])
    requires Holds(parts, i, pos)
    ensures StartOf(parts, i + 1) == StartOf(parts, i) + |Denote(parts[i])|
    ensures var intra, want := pos - StartOf(parts, i), Min(limit, StartOf(parts, i + 1) - pos);
            var n := ReadLen(parts[i], intra, want);
            && n == ReadLenAll(parts, pos, limit)
            && pos + n <= |DenoteAll(parts)| && intra + n <= |Denote(parts[i])|
            && DenoteAll(parts)[pos..pos + n] == Denote(parts[i])[intra..intra + n]
  {
    SegmentBytes(parts, i);
    ReadLenOfHolder(parts, i, pos, limit);
    StretchOfSegment(parts, i, pos - StartOf(parts, i), ReadLenAll(parts, pos, limit));
  }

  /** A concatenation is read as its parts are. */
  lemma JoinReads(parts: seq<Shape>, pos: nat, limit: nat)
    requires WellFormed(Join(parts))
    ensures forall i :: 0 <= i < |parts| ==> WellFormed(parts[i])
    ensures Denote(Join(parts)) == DenoteAll(parts) && ReadLen(Join(parts), pos, limit) == ReadLenAll(parts, pos, limit)
  {
  }

  /** Made of windows only, with no seam inside. */
  predicate Seamless(s: Shape) {
    match s
    case Leaf(_) => true
    case Window(inner, _, _) => Seamless(inner)
    case Join(_) => false
  }

  /** Without seams a read delivers all there is room for. */
  lemma {:induction false} SeamlessReadsFill(s: Shape, pos: nat, limit: nat)
    requires WellFormed(s) && Seamless(s)
    ensures ReadLen(s, pos, limit) == if pos >= |Denote(s)| then 0 else Min(limit, |Denote(s)| - pos)
  {
    match s
    case Leaf(_) =>
    case Window(inner, base, len) =>
      if pos < len { SeamlessReadsFill(inner, base + pos, Min(limit, len - pos)); }
    case Join(_) =>
  }

  /** A concatenation of such parts delivers all there is room for up to the next seam. */
  lemma ReadsToTheSeam(parts: seq<Shape>, i: nat, pos: nat, limit: nat)
    requires WellFormed(Join(parts)) && Holds(parts, i, pos) && Seamless(parts[i])
    ensures ReadLen(Join(parts), pos, limit) == Min(limit, StartOf(parts, i + 1) - pos)
  {
    hide Denote;
    JoinReads(parts, pos, limit);
    SegmentBytes(parts, i);
    if limit > 0 {
      ReadLenOfHolder(parts, i, pos, limit);
      SeamlessReadsFill(parts[i], pos - StartOf(parts, i), Min(limit, StartOf(parts, i + 1) - pos));
    }
  }

  // ---- laws of composition ------------------------------------------------------------------------

  /** A window of a window is the window at the sum of the offsets. */
  lemma WindowsCollapse(s: Shape, base: nat, len: nat, outerBase: nat, outerLen: nat)
    requires base + len <= |Denote(s)| && outerBase + outerLen <= len
    ensures Denote(Window(Window(s, base, len), outerBase, outerLen)) == Denote(Window(s, base + outerBase, outerLen))
  {
    SubSlice(Denote(s), base, base + len, outerBase, outerBase + outerLen);
  }

  /** The piece of a part of length `len` starting at `start` that a window `[base, base + count)` covers. */
  function Overlap(len: nat, base: nat, count: nat): (r: (nat, nat))
    ensures r.0 + r.1 <= len && r.1 <= count
  {
    var lo := Min(base, len);
    (lo, Min(base + count, len) - lo)
  }

  function Monus(a: nat, b: nat): nat {
    if a <= b then 0 else a - b
  }

  /** A window over a concatenation, pushed into the parts. */
  ghost function WindowParts(parts: seq<Shape>, base: nat, count: nat): (r: seq<Shape>)
    ensures |r| == |parts|
  {
    if parts == [] then []
    else
      var len := |Denote(parts[0])|;
      var (o, l) := Overlap(len, base, count);
      [Window(parts[0], o, l)] + WindowParts(parts[1..], Monus(base, len), count - l)
  }

  lemma SliceOfConcat(head: seq<Byte>, tail: seq<Byte>, base: nat, count: nat)
    requires base + count <= |head| + |tail|
    ensures var (o, l) := Overlap(|head|, base, count);
            && l <= count && Monus(base, |head|) + (count - l) <= |tail|
            && (head + tail)[base..base + count]
               == head[o..o + l] + tail[Monus(base, |head|)..Monus(base, |head|) + (count - l)]
  {
    if base + count <= |head| {
      SliceInHead(head, tail, base, count);
      assert head[base..base + count] == head[base..base + count] + tail[0..0];
    } else if base >= |head| {
      SliceInTail(head, tail, base, count);
      var stretch := tail[base - |head|..base - |head| + count];
      assert stretch == head[|head|..|head|] + stretch;
    } else {
      SliceAcross(head, tail, base, count);
    }
  }

  lemma SliceInHead(head: seq<Byte>, tail: seq<Byte>, base: nat, count: nat)
    requires base + count <= |head|
    ensures (head + tail)[base..base + count] == head[base..base + count]
  {
    assert (head + tail)[0..|head|] == head;
    SubSlice(head + tail, 0, |head|, base, base + count);
  }

  lemma SliceInTail(head: seq<Byte>, tail: seq<Byte>, base: nat, count: nat)
    requires |head| <= base && base + count <= |head| + |tail|
    ensures (head + tail)[base..base + count] == tail[base - |head|..base - |head| + count]
  {
    assert (head + tail)[|head|..|head| + |tail|] == tail;
    SubSlice(head + tail, |head|, |head| + |tail|, base - |head|, base - |head| + count);
  }

  lemma SliceAcross(head: seq<Byte>, tail: seq<Byte>, base: nat, count: nat)
    requires base <= |head| <= base + count <= |head| + |tail|
    ensures (head + tail)[base..base + count] == head[base..|head|] + tail[0..base + count - |head|]
  {
    JoinSlices(head + tail, base, |head|, base + count);
    SliceInHead(head, tail, base, |head| - base);
    SliceInTail(head, tail, |head|, base + count - |head|);
  }

  lemma WindowPartsStep(parts: seq<Shape>, base: nat, count: nat)
    requires parts != []
    ensures var len := |Denote(parts[0])|; var (o, l) := Overlap(len, base, count);
            DenoteAll(WindowParts(parts, base, count))
            == Denote(parts[0])[o..o + l] + DenoteAll(WindowParts(parts[1..], Monus(base, len), count - l))
  {
    var len := |Denote(parts[0])|;
    var (o, l) := Overlap(len, base, count);
    assert WindowParts(parts, base, count)[1..] == WindowParts(parts[1..], Monus(base, len), count - l);
  }

  /** A window over a concatenation serves the same bytes as the concatenation of the windows. */
  lemma {:induction false} WindowOverJoin(parts: seq<Shape>, base: nat, count: nat)
    requires base + count <= |DenoteAll(parts)|
    ensures DenoteAll(WindowParts(parts, base, count)) == DenoteAll(parts)[base..base + count]
  {
    hide Denote, WindowParts;
    if parts != [] {
      var len := |Denote(parts[0])|;
      SliceOfConcat(Denote(parts[0]), DenoteAll(parts[1..]), base, count);
      WindowPartsStep(parts, base, count);
      WindowOverJoin(parts[1..], Monus(base, len), count - Overlap(len, base, count).1);
    }
  }
}
