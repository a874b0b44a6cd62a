/** The `concat:<a>|<b>|...` grammar. */
module ConcatUri {
  import opened Basics
  import opened Text

  datatype ConcatUri = ConcatUri(segments: seq<Str>)

  /** `str::split('|')` */
  function SplitBar(s: Str): (parts: seq<Str>)
    ensures parts != []
    ensures forall i :: 0 <= i < |parts| ==> BAR !in parts[i] && |parts[i]| <= |s|
    decreases |s|
  {
    match Find(s, BAR)
    case None => [s]
    case Some(i) => [s[..i]] + SplitBar(s[i + 1..])
  }

  /** `join("|")` */
  function JoinBar(parts: seq<Str>): Str {
    if parts == [] then []
    else if |parts| == 1 then parts[0]
    else parts[0] + [BAR] + JoinBar(parts[1..])
  }

  lemma {:induction false} JoinOfSplit(s: Str)
    ensures JoinBar(SplitBar(s)) == s
    decreases |s|
  {
    hide Find;
    match Find(s, BAR)
    case None =>
    case Some(i) =>
      JoinOfSplit(s[i + 1..]);
      assert SplitBar(s)[1..] == SplitBar(s[i + 1..]);
      assert s == s[..i] + [BAR] + s[i + 1..];
  }

  lemma {:induction false} SplitOfJoin(parts: seq<Str>)
    requires parts != [] && forall i :: 0 <= i < |parts| ==> BAR !in parts[i]
    ensures SplitBar(JoinBar(parts)) == parts
  {
    if |parts| > 1 {
      FindAfter(parts[0], BAR, JoinBar(parts[1..]));
      var s := JoinBar(parts);
      assert s[..|parts[0]|] == parts[0] && s[|parts[0]| + 1..] == JoinBar(parts[1..]);
      SplitOfJoin(parts[1..]);
    }
  }

  predicate HasEmpty(parts: seq<Str>) {
    exists i :: 0 <= i < |parts| && parts[i] == []
  }

  function New(segments: seq<Str>): Result<ConcatUri> {
    if segments == [] then Err
    else if exists i :: 0 <= i < |segments| && (segments[i] == [] || BAR in segments[i]) then Err
    else if AUTHORITY <= segments[0] then Err
    else Ok(ConcatUri(segments))
  }

  function Format(x: ConcatUri): Str {
    CONCAT + [COLON] + JoinBar(x.segments)
  }

  function Parse(uri: Str): (r: Result<ConcatUri>)
    ensures r.Ok? ==> forall i :: 0 <= i < |r.value.segments| ==> |r.value.segments[i]| < |uri|
  {
    var (scheme, rest) := Split(uri);
    if !EqIgnoreCase(scheme, CONCAT) then Err else ParseRest(rest)
  }

  function ParseRest(rest: Str): (r: Result<ConcatUri>)
    ensures r.Ok? ==> forall i :: 0 <= i < |r.value.segments| ==> |r.value.segments[i]| <= |rest|
  {
    if rest == [] then Err
    else
      var parts := SplitBar(rest);
      if HasEmpty(parts) then Err
      else if AUTHORITY <= parts[0] then Err
      else Ok(ConcatUri(parts))
  }

  /** Every value the parser produces is one the constructor accepts. */
  lemma ParsedIsAccepted(uri: Str)
    ensures Parse(uri).Ok? ==> New(Parse(uri).value.segments) == Parse(uri)
  {
  }

  /** The printed payload starts with `//` exactly when the first segment does. */
  lemma JoinKeepsAuthority(parts: seq<Str>)
    requires parts != []
    ensures AUTHORITY <= JoinBar(parts) <==> AUTHORITY <= parts[0]
    ensures parts[0] != [] ==> JoinBar(parts) != []
  {
    if |parts| > 1 { AuthorityStands(parts[0], BAR, JoinBar(parts[1..])); }
  }

  /** `parse(format(x)) == x` exactly for the values the constructor accepts. */
  lemma RoundTrip(x: ConcatUri)
    ensures Parse(Format(x)) == Ok(x) <==> New(x.segments).Ok?
  {
    if Parse(Format(x)) == Ok(x) { ParsedIsAccepted(Format(x)); }
    if New(x.segments).Ok? {
      JoinKeepsAuthority(x.segments);
      SplitScheme(CONCAT, JoinBar(x.segments));
      SplitOfJoin(x.segments);
    }
  }

  /** For lists of non-empty `|`-free segments only a leading `//` stands in the way. */
  lemma RoundTripUnlessAuthority(segments: seq<Str>)
    requires segments != []
    requires forall i :: 0 <= i < |segments| ==> segments[i] != [] && BAR !in segments[i]
    ensures Parse(Format(ConcatUri(segments))) == Ok(ConcatUri(segments)) <==> !(AUTHORITY <= segments[0])
  {
    RoundTrip(ConcatUri(segments));
  }

  // ---- what any text says -------------------------------------------------------------------------

  /** No separator at either end, none next to another: no segment is empty. */
  predicate NoEmptySegment(rest: Str) {
    && rest != [] && rest[0] != BAR && rest[|rest| - 1] != BAR
    && forall i :: 0 < i < |rest| ==> !(rest[i - 1] == BAR && rest[i] == BAR)
  }

  /** Of the segments of a text the first ends at the first separator, and the others are those of what follows. */
  lemma {:induction false} EmptySegments(rest: Str)
    ensures HasEmpty(SplitBar(rest)) <==> !NoEmptySegment(rest)
    decreases |rest|
  {
    hide Find;
    match Find(rest, BAR)
    case None =>
      assert forall i :: 0 <= i < |rest| ==> rest[i] != BAR;
      assert HasEmpty([rest]) <==> rest == [] by { if rest == [] { assert [rest][0] == []; } }
    case Some(k) =>
      var tail := rest[k + 1..];
      EmptySegments(tail);
      assert SplitBar(rest) == [rest[..k]] + SplitBar(tail);
      HasEmptyCons(rest[..k], SplitBar(tail));
      NoEmptyCons(rest, k);
  }

  lemma HasEmptyCons(head: Str, tail: seq<Str>)
    ensures HasEmpty([head] + tail) <==> head == [] || HasEmpty(tail)
  {
    var all := [head] + tail;
    assert all[0] == head;
    if HasEmpty(tail) {
      var i :| 0 <= i < |tail| && tail[i] == [];
      assert all[i + 1] == [];
    }
  }

  lemma NoEmptyCons(rest: Str, k: nat)
    requires k < |rest| && rest[k] == BAR && BAR !in rest[..k]
    ensures NoEmptySegment(rest) <==> k > 0 && NoEmptySegment(rest[k + 1..])
  {
    var tail := rest[k + 1..];
    assert forall i :: 0 <= i < k ==> rest[i] != BAR by {
      forall i | 0 <= i < k ensures rest[i] != BAR { assert rest[..k][i] == rest[i]; }
    }
    assert forall i :: k < i < |rest| ==> rest[i] == tail[i - k - 1];
    if k > 0 && NoEmptySegment(tail) {
      forall i | 0 < i < |rest| ensures !(rest[i - 1] == BAR && rest[i] == BAR) {
        if i > k + 1 { assert !(tail[i - k - 2] == BAR && tail[i - k - 1] == BAR); }
      }
    }
    if NoEmptySegment(rest) && |tail| > 0 {
      forall i | 0 < i < |tail| ensures !(tail[i - 1] == BAR && tail[i] == BAR) {
        assert !(rest[i + k] == BAR && rest[i + k + 1] == BAR);
      }
      assert rest[k + 1] != BAR;
    }
  }

  /** Exactly these texts parse; the segments are what lies between the separators. */
  lemma ParsesIff(scheme: Str, rest: Str)
    requires CaseVariant(scheme, CONCAT) && !(AUTHORITY <= rest)
    ensures var r := Parse(scheme + [COLON] + rest);
            && (r.Ok? <==> NoEmptySegment(rest))
            && (r.Ok? ==> r.value.segments == SplitBar(rest))
  {
    hide CaseVariant, Split, Find;
    EqIgnoreCaseIff(scheme, CONCAT);
    VariantSplits(scheme, CONCAT, rest);
    EmptySegments(rest);
    JoinOfSplit(rest);
    JoinKeepsAuthority(SplitBar(rest));
  }

  // ---- values the constructor refuses -------------------------------------------------------------

  /** Splitting splits whatever stands before a separator and whatever stands behind it. */
  lemma {:induction false} SplitAtBar(head: Str, tail: Str)
    ensures SplitBar(head + [BAR] + tail) == SplitBar(head) + SplitBar(tail)
    decreases |head|
  {
    hide Find;
    var s := head + [BAR] + tail;
    match Find(head, BAR)
    case None =>
      FindAfter(head, BAR, tail);
      assert s[..|head|] == head && s[|head| + 1..] == tail;
    case Some(i) =>
      assert s == head[..i] + [BAR] + (head[i + 1..] + [BAR] + tail);
      FindAfter(head[..i], BAR, head[i + 1..] + [BAR] + tail);
      assert s[..i] == head[..i] && s[i + 1..] == head[i + 1..] + [BAR] + tail;
      SplitAtBar(head[i + 1..], tail);
  }

  /** The segments cut at their separators. */
  function Pieces(segments: seq<Str>): seq<Str> {
    if segments == [] then [] else SplitBar(segments[0]) + Pieces(segments[1..])
  }

  lemma {:induction false} SplitOfJoinIsPieces(segments: seq<Str>)
    requires segments != []
    ensures SplitBar(JoinBar(segments)) == Pieces(segments)
  {
    if |segments| > 1 {
      SplitAtBar(segments[0], JoinBar(segments[1..]));
      SplitOfJoinIsPieces(segments[1..]);
    } else {
      assert Pieces(segments[1..]) == [];
    }
  }

  /** There are as many pieces as segments only if the segments are the pieces. */
  lemma {:induction false} PiecesOf(segments: seq<Str>, bound: nat)
    requires forall i :: 0 <= i < |segments| ==> |segments[i]| < bound
    ensures |Pieces(segments)| >= |segments|
    ensures |Pieces(segments)| == |segments| <==> Pieces(segments) == segments
    ensures Pieces(segments) == segments <==> forall i :: 0 <= i < |segments| ==> BAR !in segments[i]
    ensures forall i :: 0 <= i < |Pieces(segments)| ==> BAR !in Pieces(segments)[i] && |Pieces(segments)[i]| < bound
  {
    if segments != [] {
      PiecesOf(segments[1..], bound);
      OnePiece(segments[0]);
      assert segments == [segments[0]] + segments[1..];
    }
  }

  lemma OnePiece(segment: Str)
    ensures |SplitBar(segment)| == 1 <==> BAR !in segment
    ensures BAR !in segment ==> SplitBar(segment) == [segment]
  {
  }

  /** The segments once the splitter has taken one `//` for the authority-style spelling. */
  function Unmarked(segments: seq<Str>): (r: seq<Str>)
    ensures (forall i :: 0 <= i < |segments| ==> BAR !in segments[i]) ==> forall i :: 0 <= i < |r| ==> BAR !in r[i]
    ensures |r| == |segments| && forall i :: 0 <= i < |r| ==> |r[i]| <= |segments[i]|
  {
    if segments == [] then [] else [StripPrefix(segments[0], AUTHORITY)] + segments[1..]
  }

  lemma JoinBehind(prefix: Str, parts: seq<Str>, longer: seq<Str>)
    requires parts != [] && |longer| == |parts| && longer[0] == prefix + parts[0] && longer[1..] == parts[1..]
    ensures JoinBar(longer) == prefix + JoinBar(parts)
  {
    if |parts| > 1 {
      assert prefix + parts[0] + [BAR] + JoinBar(parts[1..]) == prefix + (parts[0] + [BAR] + JoinBar(parts[1..]));
    }
  }

  lemma JoinUnmarked(segments: seq<Str>)
    ensures StripPrefix(JoinBar(segments), AUTHORITY) == JoinBar(Unmarked(segments))
  {
    if segments != [] {
      JoinKeepsAuthority(segments);
      var t := Unmarked(segments);
      assert t[1..] == segments[1..];
      if AUTHORITY <= segments[0] {
        assert segments[0] == AUTHORITY + t[0];
        JoinBehind(AUTHORITY, t, segments);
      } else {
        assert t == segments;
      }
    }
  }

  /** For every value, also those the constructor refuses: what its text parses to. */
  lemma FormatParsesToPieces(x: ConcatUri)
    ensures Parse(Format(x)) == New(Pieces(Unmarked(x.segments)))
  {
    hide SplitBar, Find;
    SplitScheme(CONCAT, JoinBar(x.segments));
    JoinUnmarked(x.segments);
    if x.segments != [] {
      SplitOfJoinIsPieces(Unmarked(x.segments));
      PiecesOf(Unmarked(x.segments), LongerThanAll(Unmarked(x.segments)));
      if JoinBar(Unmarked(x.segments)) == [] { NothingJoined(Unmarked(x.segments)); }
    }
  }

  lemma NothingJoined(segments: seq<Str>)
    requires segments != [] && JoinBar(segments) == []
    ensures HasEmpty(Pieces(segments))
  {
    SplitOfJoinIsPieces(segments);
    assert SplitBar(JoinBar(segments))[0] == [];
  }

  /** The constructor accepts a value exactly when its segments are their own pieces and these are accepted. */
  lemma AcceptedIffPieces(segments: seq<Str>)
    ensures New(segments).Ok? <==> Pieces(Unmarked(segments)) == segments && New(Pieces(Unmarked(segments))).Ok?
  {
    PiecesOf(segments, LongerThanAll(segments));
    if segments != [] && !(AUTHORITY <= segments[0]) { assert Unmarked(segments) == segments; }
  }

  ghost function LongerThanAll(texts: seq<Str>): (bound: nat)
    ensures forall i :: 0 <= i < |texts| ==> |texts[i]| < bound
  {
    if texts == [] then 0 else Max(|texts[0]| + 1, LongerThanAll(texts[1..]))
  }

  /** The printed text in characters: `concat:` and the segments, joined. */
  lemma FormatSpelled(x: ConcatUri)
    ensures exists name: Str :: Spells(name, "concat:") && Format(x) == name + JoinBar(x.segments)
  {
    NamesSpelled();
    assert Spells(CONCAT + [COLON], "concat:");
  }

  // ---- parsing and printing again -----------------------------------------------------------------

  /** `format(parse(u))` normalises the spelling of the scheme and drops one `//`, nothing else. */
  lemma FormatOfParse(uri: Str)
    requires Parse(uri).Ok?
    ensures Format(Parse(uri).value) == CONCAT + [COLON] + Split(uri).1
    ensures uri == Split(uri).0 + [COLON] + Split(uri).1 || uri == Split(uri).0 + [COLON] + AUTHORITY + Split(uri).1
    ensures EqIgnoreCase(Split(uri).0, CONCAT)
    ensures Format(Parse(uri).value) == uri <==> CONCAT + [COLON] <= uri && !(CONCAT + [COLON] + AUTHORITY <= uri)
  {
    hide Find;
    var (scheme, rest) := Split(uri);
    JoinOfSplit(rest);
    BareIffNoScheme(uri);
    SplitLosesOnlyAuthority(uri);
    if uri == scheme + [COLON] + AUTHORITY + rest {
      assert |uri| == 9 + |rest|;
      if CONCAT + [COLON] <= uri { assert uri[..9] == CONCAT + [COLON] + AUTHORITY; }
    } else {
      RestHasNoAuthority(uri);
      assert |rest| >= 2 ==> rest[..2] == uri[7..9] && (CONCAT + [COLON] + AUTHORITY)[7..9] == AUTHORITY;
    }
  }

  lemma RestHasNoAuthority(uri: Str)
    requires Parse(uri).Ok?
    ensures !(AUTHORITY <= Split(uri).1)
  {
    var rest := Split(uri).1;
    JoinOfSplit(rest);
    JoinKeepsAuthority(SplitBar(rest));
  }
}
