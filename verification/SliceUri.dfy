/** The `slice:<offset>+<length>!<inner>` grammar. */
module SliceUri {
  import opened Basics
  import opened Text
  import opened Decimal

  datatype SliceUri = SliceUri(offset: u64, length: u64, inner: Str)

  function New(offset: u64, length: u64, inner: Str): Result<SliceUri> {
    if inner == [] then Err
    else if BANG in inner then Err
    else Ok(SliceUri(offset, length, inner))
  }

  function Format(x: SliceUri): Str {
    SLICE + [COLON] + Payload(x)
  }

  function Payload(x: SliceUri): Str {
    Print(x.offset) + [PLUS] + Print(x.length) + [BANG] + x.inner
  }

  function Parse(uri: Str): (r: Result<SliceUri>)
    ensures r.Ok? ==> |r.value.inner| < |uri|
  {
    var (scheme, rest) := Split(uri);
    if !EqIgnoreCase(scheme, SLICE) then Err else ParseHeader(rest)
  }

  function ParseHeader(rest: Str): (r: Result<SliceUri>)
    ensures r.Ok? ==> |r.value.inner| < |rest|
  {
    match Find(rest, BANG)
    case None => Err
    case Some(bang) =>
      var range, inner := rest[..bang], rest[bang + 1..];
      match Find(range, PLUS)
      case None => Err
      case Some(plus) =>
        match ParseCanonical(range[..plus])
        case Err => Err
        case Ok(offset) =>
          match ParseCanonical(range[plus + 1..])
          case Err => Err
          case Ok(length) => if inner == [] then Err else Ok(SliceUri(offset, length, inner))
  }

  lemma ParsePayload(x: SliceUri)
    requires x.inner != []
    ensures ParseHeader(Payload(x)) == Ok(x)
  {
    hide Print, ParseCanonical, Find;
    var rest, range := Payload(x), Print(x.offset) + [PLUS] + Print(x.length);
    assert rest == range + [BANG] + x.inner;
    FindAfter(range, BANG, x.inner);
    FindAfter(Print(x.offset), PLUS, Print(x.length));
    CanonicalRoundTrip(Print(x.offset), x.offset);
    CanonicalRoundTrip(Print(x.length), x.length);
    assert range[..|Print(x.offset)|] == Print(x.offset);
    assert range[|Print(x.offset)| + 1..] == Print(x.length);
    assert rest[..|range|] == range && rest[|range| + 1..] == x.inner;
  }

  lemma ParsedIsPayload(rest: Str, x: SliceUri)
    requires ParseHeader(rest) == Ok(x)
    ensures x.inner != [] && rest == Payload(x)
  {
    hide Print, ParseCanonical, Find;
    var bang := Find(rest, BANG).value;
    var range := rest[..bang];
    var plus := Find(range, PLUS).value;
    var offset, length := range[..plus], range[plus + 1..];
    assert offset == Print(x.offset) by { CanonicalRoundTrip(offset, x.offset); }
    assert length == Print(x.length) by { CanonicalRoundTrip(length, x.length); }
    assert range == offset + [PLUS] + length;
    assert rest == range + [BANG] + rest[bang + 1..];
  }

  /** The header parser accepts exactly the payloads `format` emits, and reads back what was printed. */
  lemma HeaderRoundTrip(rest: Str, x: SliceUri)
    ensures ParseHeader(rest) == Ok(x) <==> x.inner != [] && rest == Payload(x)
  {
    if x.inner != [] { ParsePayload(x); }
    if ParseHeader(rest) == Ok(x) { ParsedIsPayload(rest, x); }
  }

  /** What a header says: the numbers its two canonical tokens mean, in that order, and what stands behind the `!`. */
  lemma HeaderMeans(offset: Str, length: Str, inner: Str)
    requires Canonical(offset) && Canonical(length) && inner != []
    ensures var r := ParseHeader(offset + [PLUS] + length + [BANG] + inner);
            && r.Ok? && r.value.offset == Numeral(offset) && r.value.length == Numeral(length)
            && r.value.inner == inner
  {
    hide Print, ParseHeader, ParseCanonical, Canonical;
    ParsesToNumeral(offset);
    ParsesToNumeral(length);
    var x := SliceUri(ParseCanonical(offset).value, ParseCanonical(length).value, inner);
    CanonicalRoundTrip(offset, x.offset);
    CanonicalRoundTrip(length, x.length);
    ParsePayload(x);
  }

  /** Nothing else is a header. */
  lemma OnlyHeadersParse(rest: Str)
    requires ParseHeader(rest).Ok?
    ensures exists offset: Str, length: Str, inner: Str ::
              && Canonical(offset) && Canonical(length) && inner != []
              && rest == offset + [PLUS] + length + [BANG] + inner
  {
    hide Print, ParseHeader, Canonical;
    var x := ParseHeader(rest).value;
    ParsedIsPayload(rest, x);
    PrintsNumeral(x.offset);
    PrintsNumeral(x.length);
  }

  /** The printed text in characters. */
  lemma FormatSpelled(x: SliceUri)
    ensures exists name: Str, offset: Str, length: Str ::
              && Spells(name, "slice:") && Canonical(offset) && Canonical(length)
              && Numeral(offset) == x.offset && Numeral(length) == x.length
              && Format(x) == name + offset + [PLUS] + length + [BANG] + x.inner
  {
    hide Print, Canonical;
    NamesSpelled();
    PrintsNumeral(x.offset);
    PrintsNumeral(x.length);
    assert Spells(SLICE + [COLON], "slice:");
    assert Format(x) == (SLICE + [COLON]) + Print(x.offset) + [PLUS] + Print(x.length) + [BANG] + x.inner;
  }

  /** The constructor accepts exactly the values whose text holds one `!`. */
  lemma NewIffOneBang(offset: u64, length: u64, inner: Str)
    ensures var r, text := New(offset, length, inner), Format(SliceUri(offset, length, inner));
            && (r.Ok? <==>
                  && inner != []
                  && forall i, j :: 0 <= i < |text| && 0 <= j < |text| && text[i] == text[j] == BANG ==> i == j)
            && (r.Ok? ==> r.value == SliceUri(offset, length, inner))
  {
    var head := SLICE + [COLON] + Print(offset) + [PLUS] + Print(length);
    var text := Format(SliceUri(offset, length, inner));
    assert BANG !in head;
    assert text == head + [BANG] + inner;
    assert text[|head|] == BANG;
    if BANG in inner {
      var k :| 0 <= k < |inner| && inner[k] == BANG;
      assert text[|head| + 1 + k] == BANG;
    }
  }

  /** `parse(format(x)) == x` for every value with an inner reference, a `!` in it or not. */
  lemma RoundTrip(x: SliceUri)
    ensures Parse(Format(x)) == Ok(x) <==> x.inner != []
  {
    SplitScheme(SLICE, Payload(x));
    assert !(AUTHORITY <= Payload(x)) by { assert Payload(x)[0] == Print(x.offset)[0]; }
    HeaderRoundTrip(Payload(x), x);
  }

  lemma EmptyInnerFails(x: SliceUri)
    requires x.inner == []
    ensures Parse(Format(x)).Err?
  {
    SplitScheme(SLICE, Payload(x));
    assert !(AUTHORITY <= Payload(x)) by { assert Payload(x)[0] == Print(x.offset)[0]; }
    if ParseHeader(Payload(x)).Ok? {
      var y := ParseHeader(Payload(x)).value;
      ParsedIsPayload(Payload(x), y);
      SamePayload(x, y);
    }
  }

  /** The first `!` of a payload stands behind the numbers, so the payload tells what follows it. */
  lemma SamePayload(x: SliceUri, y: SliceUri)
    requires Payload(x) == Payload(y)
    ensures x.inner == y.inner
  {
    var a, b := Print(x.offset) + [PLUS] + Print(x.length), Print(y.offset) + [PLUS] + Print(y.length);
    assert BANG !in a && BANG !in b;
    FindAfter(a, BANG, x.inner);
    FindAfter(b, BANG, y.inner);
    assert Payload(x) == a + [BANG] + x.inner && Payload(y) == b + [BANG] + y.inner;
    assert Payload(x)[|a| + 1..] == x.inner && Payload(y)[|b| + 1..] == y.inner;
  }

  /** `format(parse(u))` normalises the spelling of the scheme and drops one `//`, nothing else. */
  lemma FormatOfParse(uri: Str)
    requires Parse(uri).Ok?
    ensures Format(Parse(uri).value) == SLICE + [COLON] + Split(uri).1
    ensures uri == Split(uri).0 + [COLON] + Split(uri).1 || uri == Split(uri).0 + [COLON] + AUTHORITY + Split(uri).1
    ensures EqIgnoreCase(Split(uri).0, SLICE)
    ensures Format(Parse(uri).value) == uri <==> SLICE + [COLON] <= uri && !(SLICE + [COLON] + AUTHORITY <= uri)
  {
    hide Print, ParseHeader, Find;
    var (scheme, rest) := Split(uri);
    var x := Parse(uri).value;
    HeaderRoundTrip(rest, x);
    BareIffNoScheme(uri);
    SplitLosesOnlyAuthority(uri);
    assert rest[0] == Print(x.offset)[0];
    if uri == scheme + [COLON] + AUTHORITY + rest {
      assert uri[|scheme| + 1] == SLASH;
      if SLICE + [COLON] <= uri { assert uri[..6] == SLICE + [COLON]; }
    } else {
      assert uri[|scheme| + 1] == rest[0];
    }
  }

  /** `new` is stricter than the round trip needs: it refuses every nested slice the parser accepts. */
  lemma NewRefusesRoundTrippingValues(offset: u64, length: u64, inner: SliceUri)
    requires inner.inner != []
    ensures var x := SliceUri(offset, length, Format(inner));
            New(offset, length, x.inner).Err? && Parse(Format(x)) == Ok(x)
  {
    var x := SliceUri(offset, length, Format(inner));
    RoundTrip(x);
    assert Format(inner)[6 + |Print(inner.offset)| + 1 + |Print(inner.length)|] == BANG;
  }

  /** Whatever `new` accepts round-trips. */
  lemma NewIsSafe(offset: u64, length: u64, inner: Str)
    requires New(offset, length, inner).Ok?
    ensures Parse(Format(New(offset, length, inner).value)) == New(offset, length, inner)
  {
    RoundTrip(SliceUri(offset, length, inner));
  }
}
