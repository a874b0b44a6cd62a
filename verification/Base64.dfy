/** Base64 with the standard alphabet and padding (section 4 of RFC 4648), in shifts and masks. */
module Base64 {
  import opened Basics
  import opened Text

  // ---- the alphabet -------------------------------------------------------------------------------

  /** The alphabet table: A-Z, a-z, 0-9, '+', '/'. */
  function Alpha(v: Byte): (b: Byte)
    requires v < 64
    ensures b != PAD && !IsSpace(b) && B64Value(b) == Some(v)
  {
    if v < 26 then 0x41 + v
    else if v < 52 then 0x61 + (v - 26)
    else if v < 62 then 0x30 + (v - 52)
    else if v == 62 then 0x2B
    else 0x2F
  }

  function B64Value(b: Byte): (r: Option<Byte>)
    ensures r.Some? ==> r.value < 64
  {
    if IsUpper(b) then Some(b - 0x41)
    else if IsLower(b) then Some(b - 0x61 + 26)
    else if IsDigit(b) then Some(b - 0x30 + 52)
    else if b == 0x2B then Some(62)
    else if b == 0x2F then Some(63)
    else None
  }

  lemma AlphaOfValue(b: Byte)
    requires B64Value(b).Some?
    ensures Alpha(B64Value(b).value) == b
  {
  }

  /** The table of section 4 of RFC 4648: the letters in order, the digits, then `+` and `/`. */
  lemma AlphabetTable(v: Byte)
    requires v < 64
    ensures v < 26 ==> Alpha(v) as int == 'A' as int + v as int
    ensures 26 <= v < 52 ==> Alpha(v) as int == 'a' as int + (v as int - 26)
    ensures 52 <= v < 62 ==> Alpha(v) as int == '0' as int + (v as int - 52)
    ensures v == 62 ==> Alpha(v) as int == '+' as int
    ensures v == 63 ==> Alpha(v) as int == '/' as int
  {
  }

  /** A byte has a value exactly if it is in the table, namely its place there. */
  lemma ValueIsPlace(b: Byte, v: Byte)
    ensures B64Value(b) == Some(v) <==> v < 64 && b == Alpha(v)
  {
    if B64Value(b) == Some(v) { AlphaOfValue(b); }
  }

  // ---- one group ----------------------------------------------------------------------------------

  function Triple(b0: Byte, b1: Byte, b2: Byte): bv32 {
    (b0 as bv32 << 16) | (b1 as bv32 << 8) | (b2 as bv32)
  }

  function Sextet(t: bv32, shift: bv5): (v: Byte)
    ensures v < 64
  {
    ((t >> shift) & 0x3F) as Byte
  }

  function Quad(c0: Byte, c1: Byte, c2: Byte, c3: Byte): bv32 {
    (c0 as bv32 << 18) | (c1 as bv32 << 12) | (c2 as bv32 << 6) | (c3 as bv32)
  }

  function Octet(t: bv32, shift: bv5): Byte {
    ((t >> shift) & 0xFF) as Byte
  }

  /** Octets and sextets of a group fit back together, and each shift picks out its own part. */
  lemma OctetsOfTriple(b0: Byte, b1: Byte, b2: Byte)
    ensures var t := Triple(b0, b1, b2);
            t < 0x100_0000 && Octet(t, 16) == b0 && Octet(t, 8) == b1 && Octet(t, 0) == b2
  {
  }

  lemma SextetsOfQuad(c0: Byte, c1: Byte, c2: Byte, c3: Byte)
    requires c0 < 64 && c1 < 64 && c2 < 64 && c3 < 64
    ensures var q := Quad(c0, c1, c2, c3);
            q < 0x100_0000 && Sextet(q, 18) == c0 && Sextet(q, 12) == c1 && Sextet(q, 6) == c2 && Sextet(q, 0) == c3
  {
  }

  lemma TripleOfOctets(t: bv32)
    requires t < 0x100_0000
    ensures Triple(Octet(t, 16), Octet(t, 8), Octet(t, 0)) == t
  {
  }

  lemma QuadOfSextets(t: bv32)
    requires t < 0x100_0000
    ensures Quad(Sextet(t, 18), Sextet(t, 12), Sextet(t, 6), Sextet(t, 0)) == t
  {
  }

  lemma TripleThroughSextets(b0: Byte, b1: Byte, b2: Byte)
    ensures var t := Triple(b0, b1, b2);
            var q := Quad(Sextet(t, 18), Sextet(t, 12), Sextet(t, 6), Sextet(t, 0));
            Octet(q, 16) == b0 && Octet(q, 8) == b1 && Octet(q, 0) == b2
  {
    OctetsOfTriple(b0, b1, b2);
    QuadOfSextets(Triple(b0, b1, b2));
  }

  lemma QuadThroughOctets(c0: Byte, c1: Byte, c2: Byte, c3: Byte)
    requires c0 < 64 && c1 < 64 && c2 < 64 && c3 < 64
    ensures var q := Quad(c0, c1, c2, c3);
            var t := Triple(Octet(q, 16), Octet(q, 8), Octet(q, 0));
            Sextet(t, 18) == c0 && Sextet(t, 12) == c1 && Sextet(t, 6) == c2 && Sextet(t, 0) == c3
  {
    SextetsOfQuad(c0, c1, c2, c3);
    TripleOfOctets(Quad(c0, c1, c2, c3));
  }

  predicate IsSpace(b: Byte) {
    b == 0x20 || b == 0x09 || b == 0x0A || b == 0x0D
  }

  // ---- the encoder --------------------------------------------------------------------------------

  /** The first `n` sextets of a 24-bit group, as alphabet bytes. */
  function Letters(t: bv32, n: nat): (s: Str)
    requires n <= 4
    ensures |s| == n
  {
    [Alpha(Sextet(t, 18)), Alpha(Sextet(t, 12)), Alpha(Sextet(t, 6)), Alpha(Sextet(t, 0))][..n]
  }

  function Encode(data: seq<Byte>): (s: Str)
    ensures |s| % 4 == 0
    ensures s == [] <==> data == []
  {
    if data == [] then []
    else if |data| == 1 then Letters(Triple(data[0], 0, 0), 2) + [PAD, PAD]
    else if |data| == 2 then Letters(Triple(data[0], data[1], 0), 3) + [PAD]
    else Letters(Triple(data[0], data[1], data[2]), 4) + Encode(data[3..])
  }

  // ---- the decoder --------------------------------------------------------------------------------

  function Clean(s: Str): (c: Str)
    ensures |c| <= |s|
  {
    if s == [] then [] else (if IsSpace(s[0]) then [] else [s[0]]) + Clean(s[1..])
  }

  /** One group of four: two to four letters, then padding, which only the last group may have. */
  function DecodeGroup(g: Str, last: bool): (r: Result<seq<Byte>>)
    requires |g| == 4
    ensures r.Ok? ==> 0 < |r.value| <= 3
  {
    if B64Value(g[0]).None? || B64Value(g[1]).None? then Err
    else
      var c0, c1 := B64Value(g[0]).value, B64Value(g[1]).value;
      if g[2] == PAD && g[3] == PAD then
        if last then Ok([Octet(Quad(c0, c1, 0, 0), 16)]) else Err
      else if B64Value(g[2]).None? then Err
      else
        var c2 := B64Value(g[2]).value;
        if g[3] == PAD then
          if last then Ok([Octet(Quad(c0, c1, c2, 0), 16), Octet(Quad(c0, c1, c2, 0), 8)]) else Err
        else if B64Value(g[3]).None? then Err
        else
          var q := Quad(c0, c1, c2, B64Value(g[3]).value);
          Ok([Octet(q, 16), Octet(q, 8), Octet(q, 0)])
  }

  function DecodeGroups(c: Str): (r: Result<seq<Byte>>)
    requires |c| % 4 == 0
    ensures r.Ok? ==> |r.value| <= |c|
  {
    if c == [] then Ok([])
    else
      match (DecodeGroup(c[..4], |c| == 4), DecodeGroups(c[4..]))
      case (Ok(bytes), Ok(rest)) => Ok(bytes + rest)
      case _ => Err
  }

  function Decode(s: Str): (r: Result<seq<Byte>>)
    ensures r.Ok? ==> |r.value| <= |s|
  {
    var c := Clean(s);
    if |c| % 4 != 0 then Err else DecodeGroups(c)
  }

  // ---- encode then decode -------------------------------------------------------------------------

  predicate NoSpace(s: Str) {
    forall i :: 0 <= i < |s| ==> !IsSpace(s[i])
  }

  lemma {:induction false} CleanIsIdentity(s: Str)
    requires NoSpace(s)
    ensures Clean(s) == s
  {
    if s != [] {
      CleanIsIdentity(s[1..]);
    }
  }

  lemma {:induction false} EncodeHasNoSpace(data: seq<Byte>)
    ensures NoSpace(Encode(data))
  {
    if |data| > 2 {
      EncodeHasNoSpace(data[3..]);
    }
  }

  lemma LettersDecode(c0: Byte, c1: Byte, c2: Byte, c3: Byte, last: bool)
    requires c0 < 64 && c1 < 64 && c2 < 64 && c3 < 64
    ensures var q := Quad(c0, c1, c2, c3);
            DecodeGroup([Alpha(c0), Alpha(c1), Alpha(c2), Alpha(c3)], last)
            == Ok([Octet(q, 16), Octet(q, 8), Octet(q, 0)])
    ensures var q := Quad(c0, c1, c2, 0);
            DecodeGroup([Alpha(c0), Alpha(c1), Alpha(c2), PAD], true) == Ok([Octet(q, 16), Octet(q, 8)])
    ensures DecodeGroup([Alpha(c0), Alpha(c1), PAD, PAD], true) == Ok([Octet(Quad(c0, c1, 0, 0), 16)])
  {
  }

  /** Groups with padding leave the sextets they omit at zero. */
  lemma ShortGroups(b0: Byte, b1: Byte)
    ensures Sextet(Triple(b0, b1, 0), 0) == 0
    ensures Sextet(Triple(b0, 0, 0), 6) == 0 && Sextet(Triple(b0, 0, 0), 0) == 0
  {
  }

  /** A full group decodes to the bytes it was made from. */
  lemma FullGroup(b0: Byte, b1: Byte, b2: Byte, last: bool)
    ensures DecodeGroup(Letters(Triple(b0, b1, b2), 4), last) == Ok([b0, b1, b2])
  {
    var t := Triple(b0, b1, b2);
    TripleThroughSextets(b0, b1, b2);
    LettersDecode(Sextet(t, 18), Sextet(t, 12), Sextet(t, 6), Sextet(t, 0), last);
    assert Letters(t, 4) == [Alpha(Sextet(t, 18)), Alpha(Sextet(t, 12)), Alpha(Sextet(t, 6)), Alpha(Sextet(t, 0))];
  }

  lemma GroupOfTwo(b0: Byte, b1: Byte)
    ensures DecodeGroup(Letters(Triple(b0, b1, 0), 3) + [PAD], true) == Ok([b0, b1])
  {
    var t := Triple(b0, b1, 0);
    TripleThroughSextets(b0, b1, 0);
    ShortGroups(b0, b1);
    LettersDecode(Sextet(t, 18), Sextet(t, 12), Sextet(t, 6), 0, true);
    assert Letters(t, 3) + [PAD] == [Alpha(Sextet(t, 18)), Alpha(Sextet(t, 12)), Alpha(Sextet(t, 6)), PAD];
  }

  lemma GroupOfOne(b0: Byte)
    ensures DecodeGroup(Letters(Triple(b0, 0, 0), 2) + [PAD, PAD], true) == Ok([b0])
  {
    var t := Triple(b0, 0, 0);
    TripleThroughSextets(b0, 0, 0);
    ShortGroups(b0, 0);
    LettersDecode(Sextet(t, 18), Sextet(t, 12), 0, 0, true);
    assert Letters(t, 2) + [PAD, PAD] == [Alpha(Sextet(t, 18)), Alpha(Sextet(t, 12)), PAD, PAD];
  }

  lemma SingleGroup(g: Str, bytes: seq<Byte>)
    requires |g| == 4 && DecodeGroup(g, true) == Ok(bytes)
    ensures DecodeGroups(g) == Ok(bytes)
  {
    assert g[..4] == g && g[4..] == [] && bytes + [] == bytes;
  }

  lemma {:induction false} GroupsRoundTrip(data: seq<Byte>)
    ensures DecodeGroups(Encode(data)) == Ok(data)
  {
    hide DecodeGroup, Letters, Triple;
    if data == [] {
    } else if |data| == 1 {
      GroupOfOne(data[0]);
      assert data == [data[0]];
      SingleGroup(Encode(data), data);
    } else if |data| == 2 {
      GroupOfTwo(data[0], data[1]);
      assert data == [data[0], data[1]];
      SingleGroup(Encode(data), data);
    } else {
      var s := Encode(data);
      FullGroup(data[0], data[1], data[2], |s| == 4);
      GroupsRoundTrip(data[3..]);
      assert s[..4] == Letters(Triple(data[0], data[1], data[2]), 4) && s[4..] == Encode(data[3..]);
      assert data == [data[0], data[1], data[2]] + data[3..];
    }
  }

  /** Decoding what the encoder emits returns the payload. */
  lemma RoundTrip(data: seq<Byte>)
    ensures Decode(Encode(data)) == Ok(data)
  {
    EncodeHasNoSpace(data);
    CleanIsIdentity(Encode(data));
    GroupsRoundTrip(data);
  }

  // ---- which letters stand for which bits ---------------------------------------------------------

  lemma SextetsAreQuotients(b0: Byte, b1: Byte, b2: Byte)
    ensures var t := Triple(b0, b1, b2);
            && Sextet(t, 18) == b0 / 4
            && Sextet(t, 12) == b0 % 4 * 16 + b1 / 16
            && Sextet(t, 6) == b1 % 16 * 4 + b2 / 64
            && Sextet(t, 0) == b2 % 64
  {
  }

  lemma OctetsAreQuotients(c0: Byte, c1: Byte, c2: Byte, c3: Byte)
    requires c0 < 64 && c1 < 64 && c2 < 64 && c3 < 64
    ensures var q := Quad(c0, c1, c2, c3);
            && Octet(q, 16) == c0 * 4 + c1 / 16
            && Octet(q, 8) == c1 % 16 * 16 + c2 / 4
            && Octet(q, 0) == c2 % 4 * 64 + c3
  {
  }

  /** Three bytes are printed as four letters of six bits each, high bits first, and the rest follows. */
  lemma EncodeEmits(b0: Byte, b1: Byte, b2: Byte, rest: seq<Byte>)
    ensures b0 / 4 < 64 && b0 % 4 * 16 + b1 / 16 < 64 && b1 % 16 * 4 + b2 / 64 < 64 && b2 % 64 < 64
    ensures Encode([b0, b1, b2] + rest)
         == [Alpha(b0 / 4), Alpha(b0 % 4 * 16 + b1 / 16), Alpha(b1 % 16 * 4 + b2 / 64), Alpha(b2 % 64)] + Encode(rest)
  {
    hide Alpha, Triple, Sextet;
    SextetsAreQuotients(b0, b1, b2);
    assert ([b0, b1, b2] + rest)[3..] == rest;
  }

  /** Two bytes are printed as three letters and one `=`, one byte as two letters and two. */
  lemma EncodeEmitsTail(b0: Byte, b1: Byte)
    ensures b0 / 4 < 64 && b0 % 4 * 16 + b1 / 16 < 64 && b1 % 16 * 4 < 64 && b0 % 4 * 16 < 64
    ensures Encode([b0, b1]) == [Alpha(b0 / 4), Alpha(b0 % 4 * 16 + b1 / 16), Alpha(b1 % 16 * 4), PAD]
    ensures Encode([b0]) == [Alpha(b0 / 4), Alpha(b0 % 4 * 16), PAD, PAD]
  {
    hide Alpha, Triple, Sextet;
    SextetsAreQuotients(b0, b1, 0);
    SextetsAreQuotients(b0, 0, 0);
    PlainQuotients(b0, b1);
  }

  lemma PlainQuotients(b0: Byte, b1: Byte)
    ensures b1 % 16 * 4 + 0 / 64 == b1 % 16 * 4 && b0 % 4 * 16 + 0 / 16 == b0 % 4 * 16
  {
  }

  /** Four letters are read as three bytes; padding drops the bits that do not fill a byte. */
  lemma DecodeReads(c0: Byte, c1: Byte, c2: Byte, c3: Byte)
    requires c0 < 64 && c1 < 64 && c2 < 64 && c3 < 64
    ensures Decode([Alpha(c0), Alpha(c1), Alpha(c2), Alpha(c3)])
         == Ok([c0 * 4 + c1 / 16, c1 % 16 * 16 + c2 / 4, c2 % 4 * 64 + c3])
    ensures Decode([Alpha(c0), Alpha(c1), Alpha(c2), PAD]) == Ok([c0 * 4 + c1 / 16, c1 % 16 * 16 + c2 / 4])
    ensures Decode([Alpha(c0), Alpha(c1), PAD, PAD]) == Ok([c0 * 4 + c1 / 16])
  {
    hide Alpha, Quad, Octet, DecodeGroup, DecodeGroups, Clean;
    LettersDecode(c0, c1, c2, c3, true);
    OctetsAreQuotients(c0, c1, c2, c3);
    OctetsAreQuotients(c0, c1, c2, 0);
    OctetsAreQuotients(c0, c1, 0, 0);
    OneGroup([Alpha(c0), Alpha(c1), Alpha(c2), Alpha(c3)]);
    OneGroup([Alpha(c0), Alpha(c1), Alpha(c2), PAD]);
    OneGroup([Alpha(c0), Alpha(c1), PAD, PAD]);
  }

  lemma OneGroup(g: Str)
    requires |g| == 4 && NoSpace(g) && DecodeGroup(g, true).Ok?
    ensures Decode(g) == DecodeGroup(g, true)
  {
    CleanIsIdentity(g);
    SingleGroup(g, DecodeGroup(g, true).value);
  }

  /** Full groups are read one after the other. */
  lemma DecodeInGroups(g: Str, rest: Str)
    requires |g| == 4 && NoSpace(g) && NoSpace(rest) && rest != [] && PAD !in g
    ensures Decode(g + rest) == match Decode(g)
                                case Ok(bytes) => Prefixed(bytes, Decode(rest))
                                case Err => Err
  {
    hide DecodeGroup;
    CleanIsIdentity(g + rest);
    CleanIsIdentity(g);
    CleanIsIdentity(rest);
    assert (g + rest)[..4] == g && (g + rest)[4..] == rest;
    assert g[..4] == g && g[4..] == [];
    UnpaddedGroup(g);
    if |rest| % 4 == 0 && DecodeGroup(g, true).Ok? { SingleGroup(g, DecodeGroup(g, true).value); }
  }

  lemma UnpaddedGroup(g: Str)
    requires |g| == 4 && PAD !in g
    ensures DecodeGroup(g, false) == DecodeGroup(g, true)
  {
    assert g[2] in g && g[3] in g;
  }

  // ---- what the decoder accepts -------------------------------------------------------------------

  predicate Letter(b: Byte) {
    B64Value(b).Some?
  }

  /** Whole quads of letters whose last one or two bytes may be padding. */
  predicate PaddedBy(c: Str, pad: nat) {
    && |c| % 4 == 0 && pad <= 2 && pad <= |c|
    && (forall i :: 0 <= i < |c| - pad ==> Letter(c[i]))
    && (forall i :: |c| - pad <= i < |c| ==> c[i] == PAD)
  }

  predicate WellPadded(c: Str) {
    PaddedBy(c, 0) || PaddedBy(c, 1) || PaddedBy(c, 2)
  }

  lemma GroupAccepts(g: Str)
    requires |g| == 4
    ensures DecodeGroup(g, true).Ok? <==> WellPadded(g)
    ensures DecodeGroup(g, false).Ok? <==> PaddedBy(g, 0)
  {
    assert B64Value(PAD).None?;
  }

  lemma SplitPadding(c: Str, pad: nat)
    requires |c| % 4 == 0 && |c| > 4 && pad <= 2
    ensures PaddedBy(c, pad) <==> PaddedBy(c[..4], 0) && PaddedBy(c[4..], pad)
  {
    assert forall i :: 4 <= i < |c| ==> c[i] == c[4..][i - 4];
    assert forall i :: 0 <= i < 4 ==> c[i] == c[..4][i];
  }

  lemma {:induction false} GroupsAccept(c: Str)
    requires |c| % 4 == 0
    ensures DecodeGroups(c).Ok? <==> WellPadded(c)
    decreases |c|
  {
    if |c| == 4 {
      GroupAccepts(c);
      assert c[..4] == c && c[4..] == [];
    } else if |c| > 4 {
      GroupAccepts(c[..4]);
      GroupsAccept(c[4..]);
      SplitPadding(c, 0);
      SplitPadding(c, 1);
      SplitPadding(c, 2);
    }
  }

  /** The decoder accepts exactly the texts that, without white space, are correctly padded quads. */
  lemma AcceptsIffWellPadded(s: Str)
    ensures Decode(s).Ok? <==> WellPadded(Clean(s))
  {
    if |Clean(s)| % 4 == 0 { GroupsAccept(Clean(s)); }
  }

  /** White space is the space, the tab and the two line breaks. */
  lemma SpaceSpelled(b: Byte)
    ensures IsSpace(b) <==> exists i :: 0 <= i < 4 && b as int == " \t\n\r"[i] as int
  {
    assert " \t\n\r"[0] as int == 0x20 && " \t\n\r"[1] as int == 9;
    assert " \t\n\r"[2] as int == 10 && " \t\n\r"[3] as int == 13;
  }

  lemma {:induction false} CleanInParts(s: Str, t: Str)
    ensures Clean(s + t) == Clean(s) + Clean(t)
  {
    if s == [] {
      assert s + t == t;
    } else {
      assert (s + t)[1..] == s[1..] + t;
      CleanInParts(s[1..], t);
    }
  }

  /** White space anywhere changes nothing. */
  lemma SpaceIsIgnored(s: Str, b: Byte, t: Str)
    requires exists i :: 0 <= i < 4 && b as int == " \t\n\r"[i] as int
    ensures Decode(s + [b] + t) == Decode(s + t)
  {
    hide IsSpace, Clean, DecodeGroups;
    SpaceSpelled(b);
    CleanOfSpace(b);
    CleanInParts(s + [b], t);
    CleanInParts(s, [b]);
    CleanInParts(s, t);
    assert Clean(s) + [] == Clean(s);
  }

  lemma CleanOfSpace(b: Byte)
    requires IsSpace(b)
    ensures Clean([b]) == []
  {
    assert [b][1..] == [];
  }

  lemma {:induction false} CleanKeeps(s: Str, b: Byte)
    requires b in s && !IsSpace(b)
    ensures b in Clean(s)
  {
    if s[0] == b {
      assert Clean(s)[0] == b;
    } else {
      CleanKeeps(s[1..], b);
    }
  }

  /** A byte that is neither a letter nor padding nor white space makes the text undecodable. */
  lemma ForeignByteFails(s: Str, b: Byte)
    requires b in s && !IsSpace(b) && !Letter(b) && b != PAD
    ensures Decode(s).Err?
  {
    CleanKeeps(s, b);
    AcceptsIffWellPadded(s);
  }

  lemma {:induction false} GroupsShrink(c: Str)
    requires |c| % 4 == 0 && DecodeGroups(c).Ok?
    ensures 4 * |DecodeGroups(c).value| <= 3 * |c|
  {
    if c != [] { GroupsShrink(c[4..]); }
  }

  /** Decoding always makes a text shorter, unless there is none. */
  lemma DecodeShrinks(s: Str)
    requires s != [] && Decode(s).Ok?
    ensures |Decode(s).value| < |s|
  {
    GroupsShrink(Clean(s));
  }

  /** Encoded texts hold no `%` and are no shorter than the payload. */
  lemma {:induction false} EncodeIsPlain(data: seq<Byte>)
    ensures PERCENT !in Encode(data) && |Encode(data)| >= |data|
  {
    if |data| > 2 { EncodeIsPlain(data[3..]); }
  }

  // ---- decode then encode -------------------------------------------------------------------------

  /** The bits of the last letter that padding leaves without a byte (section 3.5 of RFC 4648) are zero. */
  predicate UnusedBitsZero(c: Str) {
    var n := |c|;
    n >= 4 && c[n - 1] == PAD ==>
      if c[n - 2] == PAD then B64Value(c[n - 3]).Some? && B64Value(c[n - 3]).value & 0x0F == 0
      else B64Value(c[n - 2]).Some? && B64Value(c[n - 2]).value & 0x03 == 0
  }

  /** Dropping octets clears the low bits of a group, and with them the low bits of its last sextet. */
  lemma DroppedOctets(q: bv32)
    requires q < 0x100_0000
    ensures Triple(Octet(q, 16), Octet(q, 8), 0) == q & 0xFF_FF00
    ensures Triple(Octet(q, 16), 0, 0) == q & 0xFF_0000
  {
  }

  lemma ClearedSextets(q: bv32)
    ensures var t := q & 0xFF_FF00;
            Sextet(t, 18) == Sextet(q, 18) && Sextet(t, 12) == Sextet(q, 12) && Sextet(t, 6) == Sextet(q, 6) & 0x3C
    ensures var t := q & 0xFF_0000;
            Sextet(t, 18) == Sextet(q, 18) && Sextet(t, 12) == Sextet(q, 12) & 0x30
  {
  }

  lemma ClearedBits(c: Byte)
    requires c < 64
    ensures c & 0x3C == c <==> c & 0x03 == 0
    ensures c & 0x30 == c <==> c & 0x0F == 0
  {
  }

  lemma UnusedBitsOfTwo(c0: Byte, c1: Byte)
    requires c0 < 64 && c1 < 64
    ensures var t := Triple(Octet(Quad(c0, c1, 0, 0), 16), 0, 0);
            Sextet(t, 18) == c0 && (Sextet(t, 12) == c1 <==> c1 & 0x0F == 0)
  {
    var q := Quad(c0, c1, 0, 0);
    SextetsOfQuad(c0, c1, 0, 0);
    DroppedOctets(q);
    ClearedSextets(q);
    ClearedBits(c1);
  }

  lemma UnusedBitsOfThree(c0: Byte, c1: Byte, c2: Byte)
    requires c0 < 64 && c1 < 64 && c2 < 64
    ensures var q := Quad(c0, c1, c2, 0); var t := Triple(Octet(q, 16), Octet(q, 8), 0);
            Sextet(t, 18) == c0 && Sextet(t, 12) == c1 && (Sextet(t, 6) == c2 <==> c2 & 0x03 == 0)
  {
    var q := Quad(c0, c1, c2, 0);
    SextetsOfQuad(c0, c1, c2, 0);
    DroppedOctets(q);
    ClearedSextets(q);
    ClearedBits(c2);
  }

  lemma AlphaIsInjective(v: Byte, b: Byte)
    requires v < 64 && Letter(b)
    ensures Alpha(v) == b <==> v == B64Value(b).value
  {
    AlphaOfValue(b);
  }

  /** Re-encoding a full group gives it back. */
  lemma FullGroupReencodes(g: Str, last: bool)
    requires |g| == 4 && PaddedBy(g, 0)
    ensures DecodeGroup(g, last).Ok?
    ensures Encode(DecodeGroup(g, last).value) == g && |DecodeGroup(g, last).value| == 3
  {
    GroupAccepts(g);
    assert g[2] != PAD && g[3] != PAD;
    var c0, c1, c2, c3 := B64Value(g[0]).value, B64Value(g[1]).value, B64Value(g[2]).value, B64Value(g[3]).value;
    QuadThroughOctets(c0, c1, c2, c3);
    AlphaOfValue(g[0]);
    AlphaOfValue(g[1]);
    AlphaOfValue(g[2]);
    AlphaOfValue(g[3]);
    var bytes := DecodeGroup(g, last).value;
    assert Encode(bytes) == Letters(Triple(bytes[0], bytes[1], bytes[2]), 4) + Encode(bytes[3..]);
    assert bytes[3..] == [] && g == [g[0], g[1], g[2], g[3]];
  }

  /** Re-encoding a padded group gives it back exactly when its unused bits are zero. */
  lemma GroupOfTwoReencodes(g: Str)
    requires |g| == 4 && PaddedBy(g, 1)
    ensures DecodeGroup(g, true).Ok?
    ensures Encode(DecodeGroup(g, true).value) == g <==> UnusedBitsZero(g)
  {
    assert B64Value(PAD).None? && g[2] != PAD && g[3] == PAD;
    var c0, c1, c2 := B64Value(g[0]).value, B64Value(g[1]).value, B64Value(g[2]).value;
    var bytes := DecodeGroup(g, true).value;
    var t := Triple(bytes[0], bytes[1], 0);
    UnusedBitsOfThree(c0, c1, c2);
    AlphaIsInjective(Sextet(t, 18), g[0]);
    AlphaIsInjective(Sextet(t, 12), g[1]);
    AlphaIsInjective(Sextet(t, 6), g[2]);
    assert Encode(bytes) == [Alpha(Sextet(t, 18)), Alpha(Sextet(t, 12)), Alpha(Sextet(t, 6)), PAD];
    assert g == [g[0], g[1], g[2], PAD];
  }

  lemma GroupOfOneReencodes(g: Str)
    requires |g| == 4 && PaddedBy(g, 2)
    ensures DecodeGroup(g, true).Ok?
    ensures Encode(DecodeGroup(g, true).value) == g <==> UnusedBitsZero(g)
  {
    assert B64Value(PAD).None? && g[2] == PAD && g[3] == PAD;
    var c0, c1 := B64Value(g[0]).value, B64Value(g[1]).value;
    var bytes := DecodeGroup(g, true).value;
    var t := Triple(bytes[0], 0, 0);
    UnusedBitsOfTwo(c0, c1);
    AlphaIsInjective(Sextet(t, 18), g[0]);
    AlphaIsInjective(Sextet(t, 12), g[1]);
    assert Encode(bytes) == [Alpha(Sextet(t, 18)), Alpha(Sextet(t, 12)), PAD, PAD];
    assert g == [g[0], g[1], PAD, PAD];
  }

  lemma LastGroupReencodes(c: Str)
    requires |c| == 4 && DecodeGroups(c).Ok?
    ensures Encode(DecodeGroups(c).value) == c <==> UnusedBitsZero(c)
  {
    assert c[..4] == c && c[4..] == [];
    GroupAccepts(c);
    SingleGroup(c, DecodeGroup(c, true).value);
    if PaddedBy(c, 0) {
      FullGroupReencodes(c, true);
    } else if PaddedBy(c, 1) {
      GroupOfTwoReencodes(c);
    } else {
      GroupOfOneReencodes(c);
    }
  }

  /** All groups but the last are full, so only the last decides. */
  lemma EarlierGroupReencodes(c: Str)
    requires |c| % 4 == 0 && |c| > 4 && DecodeGroups(c).Ok?
    ensures DecodeGroups(c[4..]).Ok?
    ensures Encode(DecodeGroups(c).value) == c <==> Encode(DecodeGroups(c[4..]).value) == c[4..]
  {
    GroupsAccept(c);
    SplitPadding(c, 0);
    SplitPadding(c, 1);
    SplitPadding(c, 2);
    FullGroupReencodes(c[..4], false);
    var head, rest := DecodeGroup(c[..4], false).value, DecodeGroups(c[4..]).value;
    EncodeAppend(head, rest);
    assert c == c[..4] + c[4..];
    assert (Encode(head) + Encode(rest))[4..] == Encode(rest);
  }

  lemma UnusedBitsOfTail(c: Str)
    requires |c| % 4 == 0 && |c| > 4
    ensures UnusedBitsZero(c) <==> UnusedBitsZero(c[4..])
  {
    var n := |c|;
    assert c[n - 1] == c[4..][n - 5] && c[n - 2] == c[4..][n - 6] && c[n - 3] == c[4..][n - 7];
  }

  lemma {:induction false} GroupsReencode(c: Str)
    requires |c| % 4 == 0 && DecodeGroups(c).Ok?
    ensures Encode(DecodeGroups(c).value) == c <==> UnusedBitsZero(c)
    decreases |c|
  {
    hide DecodeGroups, DecodeGroup, Encode, UnusedBitsZero;
    if c == [] {
      NothingReencodes();
    } else if |c| == 4 {
      LastGroupReencodes(c);
    } else {
      EarlierGroupReencodes(c);
      UnusedBitsOfTail(c);
      GroupsReencode(c[4..]);
    }
  }

  lemma NothingReencodes()
    ensures DecodeGroups([]) == Ok([]) && Encode([]) == [] && UnusedBitsZero([])
  {
  }

  lemma EncodeAppend(head: seq<Byte>, rest: seq<Byte>)
    requires |head| == 3
    ensures Encode(head + rest) == Encode(head) + Encode(rest)
  {
    assert (head + rest)[3..] == rest && head[3..] == [];
  }

  /** Re-encoding gives the text minus its white space exactly when the unused trailing bits are zero. */
  lemma ReencodesIffUnusedBitsZero(s: Str)
    requires Decode(s).Ok?
    ensures Encode(Decode(s).value) == Clean(s) <==> UnusedBitsZero(Clean(s))
  {
    GroupsReencode(Clean(s));
  }

  // ---- the loops ----------------------------------------------------------------------------------

  lemma {:induction false} CleanAppend(s: Str, b: Byte)
    ensures Clean(s + [b]) == Clean(s) + if IsSpace(b) then [] else [b]
  {
    hide IsSpace;
    if s == [] {
      assert Clean([b]) == (if IsSpace(b) then [] else [b]) + Clean([]);
    } else {
      assert (s + [b])[1..] == s[1..] + [b];
      CleanAppend(s[1..], b);
    }
  }

  method StripSpace(s: Str) returns (c: Str)
    ensures c == Clean(s)
  {
    c := [];
    for i := 0 to |s|
      invariant c == Clean(s[..i])
    {
      CleanAppend(s[..i], s[i]);
      assert s[..i + 1] == s[..i] + [s[i]];
      if IsSpace(s[i]) { continue; }
      c := c + [s[i]];
    }
    assert s[..|s|] == s;
  }

  lemma EncodeStep(data: seq<Byte>, i: nat)
    requires i <= |data|
    ensures i + 3 <= |data| ==>
              Encode(data[i..]) == Letters(Triple(data[i], data[i + 1], data[i + 2]), 4) + Encode(data[i + 3..])
    ensures i + 1 == |data| ==> Encode(data[i..]) == Letters(Triple(data[i], 0, 0), 2) + [PAD, PAD]
    ensures i + 2 == |data| ==> Encode(data[i..]) == Letters(Triple(data[i], data[i + 1], 0), 3) + [PAD]
    ensures i == |data| ==> Encode(data[i..]) == []
  {
    if i + 3 <= |data| { assert data[i..][3..] == data[i + 3..]; }
  }

  /** The encoding loop: three bytes a turn, then the remainder. */
  method EncodeBytes(data: seq<Byte>) returns (out: Str)
    ensures out == Encode(data)
  {
    out := [];
    var i := 0;
    assert data[0..] == data;
    while i + 3 <= |data|
      invariant i <= |data|
      invariant Encode(data) == out + Encode(data[i..])
    {
      EncodeStep(data, i);
      out := out + Letters(Triple(data[i], data[i + 1], data[i + 2]), 4);
      i := i + 3;
    }
    EncodeStep(data, i);
    if i + 1 == |data| {
      out := out + (Letters(Triple(data[i], 0, 0), 2) + [PAD, PAD]);
    } else if i + 2 == |data| {
      out := out + (Letters(Triple(data[i], data[i + 1], 0), 3) + [PAD]);
    }
  }

  /** One turn of the decoding loop: four bytes into `chunk`, counting the padding. */
  method ReadGroup(g: Str, last: bool) returns (r: Result<seq<Byte>>)
    requires |g| == 4
    ensures r == DecodeGroup(g, last)
  {
    var chunk := new Byte[4](_ => 0);
    var pad := 0;
    for j := 0 to 4
      invariant pad <= j
      invariant forall k :: 0 <= k < j - pad ==> Letter(g[k]) && chunk[k] == B64Value(g[k]).value
      invariant forall k :: j - pad <= k < j ==> g[k] == PAD && chunk[k] == 0
    {
      assert B64Value(PAD).None?;
      if g[j] == PAD {
        pad := pad + 1;
        chunk[j] := 0;
      } else {
        if pad > 0 { return Err; }
        var v := B64Value(g[j]);
        if v.None? { return Err; }
        chunk[j] := v.value;
      }
    }
    if pad > 2 { return Err; }
    if pad > 0 && !last { return Err; }
    var triple := Quad(chunk[0], chunk[1], chunk[2], chunk[3]);
    var out := [Octet(triple, 16)];
    if pad < 2 { out := out + [Octet(triple, 8)]; }
    if pad < 1 { out := out + [Octet(triple, 0)]; }
    assert pad == 0 ==> g[3] != PAD && out == [Octet(triple, 16), Octet(triple, 8), Octet(triple, 0)];
    assert pad == 1 ==> g[2] != PAD && out == [Octet(triple, 16), Octet(triple, 8)];
    return Ok(out);
  }

  lemma GroupsStep(c: Str, i: nat, out: seq<Byte>)
    requires |c| % 4 == 0 && i % 4 == 0 && i < |c|
    ensures var g := DecodeGroup(c[i..i + 4], i + 4 == |c|);
            Prefixed(out, DecodeGroups(c[i..]))
            == if g.Ok? then Prefixed(out + g.value, DecodeGroups(c[i + 4..])) else Err
  {
    assert c[i..][..4] == c[i..i + 4] && c[i..][4..] == c[i + 4..];
    var g, rest := DecodeGroup(c[i..i + 4], i + 4 == |c|), DecodeGroups(c[i + 4..]);
    if g.Ok? && rest.Ok? { assert out + (g.value + rest.value) == out + g.value + rest.value; }
  }

  /** The decoding loop over the text without white space. */
  method DecodeLoop(clean: Str) returns (r: Result<seq<Byte>>)
    requires |clean| % 4 == 0
    ensures r == DecodeGroups(clean)
  {
    var out: seq<Byte> := [];
    var i := 0;
    hide DecodeGroup, Quad, Octet;
    ghost var goal := DecodeGroups(clean);
    ghost var rest := goal;
    PrefixedNothing(goal);
    assert clean[0..] == clean;
    while i < |clean|
      invariant i <= |clean| && i % 4 == 0
      invariant rest == DecodeGroups(clean[i..])
      invariant goal == Prefixed(out, rest)
    {
      GroupsStep(clean, i, out);
      var group := ReadGroup(clean[i..i + 4], i + 4 == |clean|);
      if group.Err? { return Err; }
      out := out + group.value;
      i := i + 4;
      rest := DecodeGroups(clean[i..]);
    }
    assert clean[i..] == [] && out + [] == out;
    return Ok(out);
  }

  method DecodeBytes(s: Str) returns (r: Result<seq<Byte>>)
    ensures r == Decode(s)
  {
    var clean := StripSpace(s);
    if |clean| % 4 != 0 { return Err; }
    r := DecodeLoop(clean);
  }
}
