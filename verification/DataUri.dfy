/** The `data:[<mediatype>][;base64],<payload>` grammar (section 3 of RFC 2397). */
module DataUri {
  import opened Basics
  import opened Text
  import Base64
  import Percent

  datatype DataUri = DataUri(mediatype: Str, base64: bool, data: seq<Byte>)

  /** The prefix before a trailing `;base64`, in any case. */
  function StripMarker(header: Str): (r: Option<Str>)
    ensures r.Some? ==> r.value <= header && EqIgnoreCase(header[|r.value|..], MARKER)
  {
    if |header| < |MARKER| then None
    else if EqIgnoreCase(header[|header| - |MARKER|..], MARKER) then Some(header[..|header| - |MARKER|])
    else None
  }

  /** What is cut off is exactly a spelling of the marker at the end, in any case of its letters. */
  lemma MarkerIff(header: Str, mediatype: Str)
    ensures StripMarker(header) == Some(mediatype) <==>
              exists tail: Str :: CaseVariant(tail, MARKER) && header == mediatype + tail
  {
    if StripMarker(header) == Some(mediatype) {
      EqIgnoreCaseIff(header[|mediatype|..], MARKER);
      assert header == mediatype + header[|mediatype|..];
    }
    forall tail: Str | CaseVariant(tail, MARKER) && header == mediatype + tail
      ensures StripMarker(header) == Some(mediatype)
    {
      EqIgnoreCaseIff(tail, MARKER);
      assert header[|header| - |MARKER|..] == tail && header[..|header| - |MARKER|] == mediatype;
    }
  }

  function New(mediatype: Str, base64: bool, data: seq<Byte>): Result<DataUri> {
    if COMMA in mediatype then Err
    else if !base64 && StripMarker(mediatype).Some? then Err
    else if AUTHORITY <= mediatype then Err
    else Ok(DataUri(mediatype, base64, data))
  }

  function Header(x: DataUri): Str {
    if x.base64 then x.mediatype + MARKER else x.mediatype
  }

  function Body(x: DataUri): Str {
    if x.base64 then Base64.Encode(x.data) else Percent.Encode(x.data)
  }

  function Rest(x: DataUri): Str {
    Header(x) + [COMMA] + Body(x)
  }

  function Format(x: DataUri): Str {
    DATA + [COLON] + Rest(x)
  }

  function Parse(uri: Str): (r: Result<DataUri>)
    ensures r.Ok? ==> |r.value.data| <= |uri|
  {
    var (scheme, rest) := Split(uri);
    if !EqIgnoreCase(scheme, DATA) then Err else ParseRest(rest)
  }

  function ParseRest(rest: Str): (r: Result<DataUri>)
    ensures r.Ok? ==> |r.value.data| <= |rest|
  {
    match Find(rest, COMMA)
    case None => Err
    case Some(comma) =>
      var header, payload := rest[..comma], rest[comma + 1..];
      var base64 := StripMarker(header).Some?;
      var mediatype := if base64 then StripMarker(header).value else header;
      if AUTHORITY <= mediatype then Err
      else
        match if base64 then Base64.Decode(payload) else Percent.Decode(payload)
        case Err => Err
        case Ok(data) => Ok(DataUri(mediatype, base64, data))
  }

  /** Every value the parser produces is one the constructor accepts. */
  lemma ParsedIsAccepted(uri: Str)
    ensures Parse(uri).Ok? ==>
              New(Parse(uri).value.mediatype, Parse(uri).value.base64, Parse(uri).value.data) == Parse(uri)
  {
    if Parse(uri).Ok? {
      var rest := Split(uri).1;
      var header := rest[..Find(rest, COMMA).value];
      assert COMMA !in header;
      if StripMarker(header).Some? {
        assert COMMA !in header[..|header| - |MARKER|];
      }
    }
  }

  lemma MarkerStripsBack(mediatype: Str)
    ensures StripMarker(mediatype + MARKER) == Some(mediatype)
  {
    assert CaseVariant(MARKER, MARKER);
    MarkerIff(mediatype + MARKER, mediatype);
  }

  /** The text after `data:` starts with `//` only if the mediatype does. */
  lemma PayloadHasNoAuthority(x: DataUri)
    requires !(AUTHORITY <= x.mediatype)
    ensures !(AUTHORITY <= Rest(x))
  {
    var b := if x.base64 then MARKER[0] else COMMA;
    var tail := Rest(x)[|x.mediatype| + 1..];
    assert Rest(x) == x.mediatype + [b] + tail;
    AuthorityStands(x.mediatype, b, tail);
  }

  /** The formatted text splits at the comma it was joined with. */
  lemma SplitsWhereJoined(x: DataUri)
    requires COMMA !in x.mediatype && !(AUTHORITY <= x.mediatype)
    ensures var rest := Rest(x);
            && Split(Format(x)) == (DATA, rest)
            && Find(rest, COMMA) == Some(|Header(x)|)
            && rest[..|Header(x)|] == Header(x) && rest[|Header(x)| + 1..] == Body(x)
  {
    hide Split, Find, Body;
    SplitScheme(DATA, Rest(x));
    PayloadHasNoAuthority(x);
    assert COMMA !in MARKER;
    FindAfter(Header(x), COMMA, Body(x));
  }

  lemma BodyDecodes(x: DataUri)
    ensures (if x.base64 then Base64.Decode(Body(x)) else Percent.Decode(Body(x))) == Ok(x.data)
  {
    Base64.RoundTrip(x.data);
    Percent.RoundTrip(x.data);
  }

  lemma AcceptedRoundTrips(x: DataUri)
    requires New(x.mediatype, x.base64, x.data).Ok?
    ensures Parse(Format(x)) == Ok(x)
  {
    hide Base64.Decode, Percent.Decode, Body, Find, Split;
    SplitsWhereJoined(x);
    BodyDecodes(x);
    MarkerStripsBack(x.mediatype);
  }

  /** `parse(format(x)) == x` exactly for the values the constructor accepts, whatever the payload. */
  lemma RoundTrip(x: DataUri)
    ensures Parse(Format(x)) == Ok(x) <==> New(x.mediatype, x.base64, x.data).Ok?
  {
    if Parse(Format(x)) == Ok(x) { ParsedIsAccepted(Format(x)); }
    if New(x.mediatype, x.base64, x.data).Ok? { AcceptedRoundTrips(x); }
  }

  // ---- what any text says -------------------------------------------------------------------------

  lemma SplitsAtComma(scheme: Str, header: Str, payload: Str)
    requires CaseVariant(scheme, DATA) && COMMA !in header && !(AUTHORITY <= header)
    ensures Parse(scheme + [COLON] + (header + [COMMA] + payload)) == ParseRest(header + [COMMA] + payload)
    ensures var rest := header + [COMMA] + payload;
            Find(rest, COMMA) == Some(|header|) && rest[..|header|] == header && rest[|header| + 1..] == payload
  {
    hide ParseRest, Split, Find;
    var rest := header + [COMMA] + payload;
    EqIgnoreCaseIff(scheme, DATA);
    VariantSplits(scheme, DATA, rest);
    FindAfter(header, COMMA, payload);
    AuthorityStands(header, COMMA, payload);
  }

  /** With a marker before the first comma, in any case, the rest is base64. */
  lemma ParsesMarked(scheme: Str, mediatype: Str, marker: Str, payload: Str)
    requires CaseVariant(scheme, DATA) && CaseVariant(marker, MARKER)
    requires COMMA !in mediatype && !(AUTHORITY <= mediatype)
    ensures Parse(scheme + [COLON] + (mediatype + marker + [COMMA] + payload))
         == match Base64.Decode(payload)
            case Ok(data) => Ok(DataUri(mediatype, true, data))
            case Err => Err
  {
    hide Base64.Decode, Find, StripMarker;
    MarkerHasNoComma(marker);
    AuthorityStands(mediatype, marker[0], marker[1..]);
    assert mediatype + [marker[0]] + marker[1..] == mediatype + marker;
    MarkerIff(mediatype + marker, mediatype);
    SplitsAtComma(scheme, mediatype + marker, payload);
  }

  lemma MarkerHasNoComma(marker: Str)
    requires CaseVariant(marker, MARKER)
    ensures COMMA !in marker && marker[0] != SLASH
  {
    forall i | 0 <= i < |marker| ensures marker[i] != COMMA && (i == 0 ==> marker[i] != SLASH) {
      assert SameLetter(marker[i], MARKER[i]);
      SameLetterIff(marker[i], MARKER[i]);
    }
  }

  /** Without one it is percent-encoded. */
  lemma ParsesUnmarked(scheme: Str, mediatype: Str, payload: Str)
    requires CaseVariant(scheme, DATA) && COMMA !in mediatype && !(AUTHORITY <= mediatype)
    requires |mediatype| >= |MARKER| ==> !CaseVariant(mediatype[|mediatype| - |MARKER|..], MARKER)
    ensures Parse(scheme + [COLON] + (mediatype + [COMMA] + payload))
         == match Percent.Decode(payload)
            case Ok(data) => Ok(DataUri(mediatype, false, data))
            case Err => Err
  {
    hide Percent.Decode, Find;
    if |mediatype| >= |MARKER| { EqIgnoreCaseIff(mediatype[|mediatype| - |MARKER|..], MARKER); }
    SplitsAtComma(scheme, mediatype, payload);
  }

  /** Without a comma there is no data. */
  lemma NothingWithoutComma(scheme: Str, rest: Str)
    requires CaseVariant(scheme, DATA) && COMMA !in rest
    ensures Parse(scheme + [COLON] + rest).Err?
  {
    hide Split, CaseVariant;
    VariantSplits(scheme, DATA, rest);
  }

  /** The printed text in characters: `data:`, the mediatype, `;base64` if so flagged, a comma, the payload. */
  lemma FormatSpelled(x: DataUri)
    ensures exists name: Str, marker: Str ::
              && Spells(name, "data:") && Spells(marker, if x.base64 then ";base64" else "")
              && Format(x) == name + x.mediatype + marker + [COMMA]
                              + (if x.base64 then Base64.Encode(x.data) else Percent.Encode(x.data))
  {
    hide Base64.Encode, Percent.Encode;
    NamesSpelled();
    var name, marker := DATA + [COLON], if x.base64 then MARKER else [];
    assert Spells(name, "data:") && Spells(marker, if x.base64 then ";base64" else "");
    assert Format(x) == name + x.mediatype + marker + [COMMA] + Body(x);
  }

  // ---- values the constructor refuses -------------------------------------------------------------

  lemma MarkedAuthority(mediatype: Str)
    requires StripMarker(mediatype).Some?
    ensures AUTHORITY <= StripMarker(mediatype).value <==> AUTHORITY <= mediatype
  {
    var v := StripMarker(mediatype).value;
    assert mediatype == v + mediatype[|v|..];
    assert ToLower(mediatype[|v|]) == MARKER[0];
  }

  /** What decoders make of a payload with a comma before the real one: something longer, or nothing. */
  lemma PayloadBehindComma(x: DataUri, tail: Str)
    ensures Base64.Decode(tail + [COMMA] + Body(x)).Err?
    ensures var r := Percent.Decode(tail + [COMMA] + Body(x)); r.Ok? ==> r.value != x.data
  {
    hide Base64.Decode, Base64.Encode, Percent.Decode, Percent.Encode;
    Base64.ForeignByteFails(tail + [COMMA] + Body(x), COMMA);
    Percent.DecodeBehind(tail, COMMA, Body(x));
    if x.base64 {
      Base64.EncodeIsPlain(x.data);
      Percent.DecodeIsIdentity(Body(x));
    } else {
      Percent.RoundTrip(x.data);
    }
  }

  /** The first comma of the mediatype is where the text is split. */
  lemma SplitsAtFirstComma(x: DataUri) returns (c: nat, tail: Str)
    requires COMMA in x.mediatype
    ensures Find(Rest(x), COMMA) == Some(c) && Rest(x)[c + 1..] == tail + [COMMA] + Body(x)
  {
    hide Body;
    c := Find(x.mediatype, COMMA).value;
    tail := Header(x)[c + 1..];
    assert Header(x) == x.mediatype[..c] + [COMMA] + tail;
    assert Rest(x) == x.mediatype[..c] + [COMMA] + (tail + [COMMA] + Body(x));
    FindAfter(x.mediatype[..c], COMMA, tail + [COMMA] + Body(x));
  }

  /** A comma in the mediatype moves into the payload, which then decodes to something else or not at all. */
  lemma CommaSpoilsPayload(x: DataUri)
    requires COMMA in x.mediatype
    ensures ParseRest(Rest(x)).Ok? ==> ParseRest(Rest(x)).value.data != x.data
  {
    hide Base64.Decode, Percent.Decode, Rest, Body, StripMarker, Find;
    var c, tail := SplitsAtFirstComma(x);
    PayloadBehindComma(x, tail);
  }

  /** Percent-encoded bytes read as base64 are never themselves. */
  lemma WrongCodec(data: seq<Byte>)
    ensures Base64.Decode(Percent.Encode(data)) == Ok(data) <==> data == []
  {
    var s := Percent.Encode(data);
    if PERCENT in s {
      Base64.ForeignByteFails(s, PERCENT);
    } else {
      Percent.UnescapedIsIdentity(data);
      if data != [] && Base64.Decode(s).Ok? { Base64.DecodeShrinks(s); }
    }
  }

  lemma RestSurvives(x: DataUri)
    requires COMMA !in x.mediatype
    ensures (ParseRest(Rest(x)).Ok? && ParseRest(Rest(x)).value.data == x.data) <==>
              !(AUTHORITY <= x.mediatype) && (x.base64 || StripMarker(x.mediatype).None? || x.data == [])
  {
    hide Base64.Decode, Base64.Encode, Percent.Decode, Percent.Encode, Find;
    assert COMMA !in MARKER;
    FindAfter(Header(x), COMMA, Body(x));
    assert Rest(x)[..|Header(x)|] == Header(x) && Rest(x)[|Header(x)| + 1..] == Body(x);
    MarkerStripsBack(x.mediatype);
    BodyDecodes(x);
    if StripMarker(x.mediatype).Some? { MarkedAuthority(x.mediatype); }
    WrongCodec(x.data);
  }

  /**
   For every value, built by the constructor or not: the formatted text carries the payload exactly when the
   mediatype holds no comma, does not start with `//` once one `//` is taken off, and does not pass for a
   base64 marker, unless there is no payload.
   */
  lemma PayloadSurvivesIff(x: DataUri)
    ensures var r, m := Parse(Format(x)), StripPrefix(x.mediatype, AUTHORITY);
            (r.Ok? && r.value.data == x.data) <==>
              && COMMA !in x.mediatype && !(AUTHORITY <= m)
              && (x.base64 || StripMarker(m).None? || x.data == [])
  {
    hide Parse, ParseRest, Format, Rest, StripMarker;
    var y := x.(mediatype := StripPrefix(x.mediatype, AUTHORITY));
    FormatLosesAuthority(x);
    assert AUTHORITY <= x.mediatype ==> x.mediatype == AUTHORITY + y.mediatype;
    assert COMMA in x.mediatype <==> COMMA in y.mediatype;
    if COMMA in y.mediatype { CommaSpoilsPayload(y); } else { RestSurvives(y); }
  }

  /** The splitter takes one `//` off the mediatype. */
  lemma FormatLosesAuthority(x: DataUri)
    ensures Parse(Format(x)) == ParseRest(Rest(x.(mediatype := StripPrefix(x.mediatype, AUTHORITY))))
  {
    hide ParseRest, Rest, Split, Find;
    SplitScheme(DATA, Rest(x));
    if AUTHORITY <= x.mediatype {
      RestOfMarked(x.(mediatype := x.mediatype[2..]), x);
    } else {
      PayloadHasNoAuthority(x);
    }
  }

  lemma RestOfMarked(x: DataUri, marked: DataUri)
    requires marked == x.(mediatype := AUTHORITY + x.mediatype)
    ensures Rest(marked) == AUTHORITY + Rest(x)
  {
    hide Base64.Encode, Percent.Encode;
    assert Header(marked) == AUTHORITY + Header(x) && Body(marked) == Body(x);
  }

  // ---- the loops ----------------------------------------------------------------------------------

  /** `format`, with its two payload loops. */
  method FormatBytes(x: DataUri) returns (s: Str)
    ensures s == Format(x)
  {
    var payload;
    if x.base64 {
      payload := Base64.EncodeBytes(x.data);
      s := DATA + [COLON] + (x.mediatype + MARKER + [COMMA] + payload);
    } else {
      payload := Percent.EncodeBytes(x.data);
      s := DATA + [COLON] + (x.mediatype + [COMMA] + payload);
    }
  }

  /** `parse`, with its two payload loops. */
  method ParseBytes(uri: Str) returns (r: Result<DataUri>)
    ensures r == Parse(uri)
  {
    var (scheme, rest) := Split(uri);
    if !EqIgnoreCase(scheme, DATA) { return Err; }
    var comma := Find(rest, COMMA);
    if comma.None? { return Err; }
    var header, payload := rest[..comma.value], rest[comma.value + 1..];
    var stripped := StripMarker(header);
    var mediatype := if stripped.Some? then stripped.value else header;
    if AUTHORITY <= mediatype { return Err; }
    var data;
    if stripped.Some? {
      data := Base64.DecodeBytes(payload);
    } else {
      data := Percent.DecodeBytes(payload);
    }
    if data.Err? { return Err; }
    return Ok(DataUri(mediatype, stripped.Some?, data.value));
  }
}
