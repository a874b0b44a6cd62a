/** URI texts as bytes, the shared scheme splitter, and the few string operations the grammars use. */
module Text {
  import opened Basics

  type Str = seq<Byte>

  const SLASH: Byte := 0x2F
  const COLON: Byte := 0x3A
  const COMMA: Byte := 0x2C
  const BANG: Byte := 0x21
  const PLUS: Byte := 0x2B
  const BAR: Byte := 0x7C
  const PERCENT: Byte := 0x25
  const PAD: Byte := 0x3D

  const FILE: Str := [0x66, 0x69, 0x6C, 0x65]
  const MEM: Str := [0x6D, 0x65, 0x6D]
  const DATA: Str := [0x64, 0x61, 0x74, 0x61]
  const SLICE: Str := [0x73, 0x6C, 0x69, 0x63, 0x65]
  const CONCAT: Str := [0x63, 0x6F, 0x6E, 0x63, 0x61, 0x74]
  /** ";base64" */
  const MARKER: Str := [0x3B, 0x62, 0x61, 0x73, 0x65, 0x36, 0x34]

  predicate IsUpper(b: Byte) { 0x41 <= b <= 0x5A }

  predicate IsLower(b: Byte) { 0x61 <= b <= 0x7A }

  predicate IsDigit(b: Byte) { 0x30 <= b <= 0x39 }

  predicate IsAlpha(b: Byte) { IsUpper(b) || IsLower(b) }

  function ToLower(b: Byte): Byte {
    if IsUpper(b) then b + 0x20 else b
  }

  predicate EqIgnoreCase(a: Str, b: Str) {
    |a| == |b| && forall i :: 0 <= i < |a| ==> ToLower(a[i]) == ToLower(b[i])
  }

  /** Index of the first `b`. */
  function Find(s: Str, b: Byte): (r: Option<nat>)
    ensures r.None? ==> b !in s
    ensures r.Some? ==> r.value < |s| && s[r.value] == b && b !in s[..r.value]
  {
    if s == [] then None
    else if s[0] == b then Some(0)
    else
      match Find(s[1..], b)
      case None => None
      case Some(i) => Some(i + 1)
  }

  /** The first occurrence is found behind any prefix that lacks the byte. */
  lemma {:induction false} FindAfter(prefix: Str, b: Byte, rest: Str)
    requires b !in prefix
    ensures Find(prefix + [b] + rest, b) == Some(|prefix|)
  {
    if prefix == [] {
      assert (prefix + [b] + rest)[0] == b;
    } else {
      assert prefix[0] in prefix;
      assert (prefix + [b] + rest)[1..] == prefix[1..] + [b] + rest;
      FindAfter(prefix[1..], b, rest);
    }
  }

  function StripPrefix(s: Str, prefix: Str): Str {
    if prefix <= s then s[|prefix|..] else s
  }

  const AUTHORITY: Str := [SLASH, SLASH]

  /** Whatever follows a byte other than `/` does not decide whether a text starts with `//`. */
  lemma AuthorityStands(head: Str, b: Byte, tail: Str)
    requires b != SLASH
    ensures AUTHORITY <= head + [b] + tail <==> AUTHORITY <= head
  {
    var s := head + [b] + tail;
    assert s[|head|] == b;
    if |head| >= 2 { assert head[..2] == s[..2]; }
  }

  predicate IsSchemeByte(b: Byte) {
    IsAlpha(b) || IsDigit(b) || b == PLUS || b == 0x2D || b == 0x2E
  }

  /** Scheme and rest; whatever has no well-formed scheme is a bare path. */
  function Split(uri: Str): (r: (Str, Str))
    ensures |r.1| <= |uri|
    ensures r.0 != FILE ==> |r.1| < |uri|
  {
    match Find(uri, COLON)
    case None => (FILE, uri)
    case Some(idx) =>
      var scheme, rest := uri[..idx], uri[idx + 1..];
      if |scheme| == 1 && IsAlpha(scheme[0]) then (FILE, uri)
      else if scheme == [] || !IsAlpha(scheme[0]) || exists i :: 0 <= i < |scheme| && !IsSchemeByte(scheme[i]) then
        (FILE, uri)
      else (scheme, StripPrefix(rest, AUTHORITY))
  }

  /** A scheme name `split` recognises. */
  predicate IsScheme(s: Str) {
    |s| >= 2 && IsAlpha(s[0]) && forall i :: 0 <= i < |s| ==> IsSchemeByte(s[i])
  }

  lemma SplitScheme(scheme: Str, payload: Str)
    requires IsScheme(scheme)
    ensures Split(scheme + [COLON] + payload) == (scheme, StripPrefix(payload, AUTHORITY))
  {
    var uri := scheme + [COLON] + payload;
    FindAfter(scheme, COLON, payload);
    assert uri[..|scheme|] == scheme && uri[|scheme| + 1..] == payload;
  }

  /** A scheme of at least two bytes stands before the first colon. */
  ghost predicate HasScheme(uri: Str) {
    exists i :: 0 <= i < |uri| && uri[i] == COLON && IsScheme(uri[..i])
  }

  /** A URI is taken as a bare path exactly when it has no scheme; a drive letter is not one. */
  lemma BareIffNoScheme(uri: Str)
    ensures Split(uri) == (FILE, uri) <==> !HasScheme(uri)
  {
    if HasScheme(uri) {
      var i :| 0 <= i < |uri| && uri[i] == COLON && IsScheme(uri[..i]);
      assert uri == uri[..i] + [COLON] + uri[i + 1..];
      SplitScheme(uri[..i], uri[i + 1..]);
      assert |Split(uri).1| < |uri|;
    }
  }

  /** A letter before the first colon is a drive, whatever follows, `//` included. */
  lemma DriveLettersAreBare(letter: Byte, rest: Str)
    requires IsAlpha(letter)
    ensures var uri := [letter, COLON] + rest; Split(uri) == (FILE, uri)
  {
    var uri := [letter, COLON] + rest;
    FindAfter([letter], COLON, rest);
    assert uri == [letter] + [COLON] + rest && uri[..1] == [letter];
  }

  /** Of a URI with a scheme, `file:` included, a split loses the colon and possibly one `//`, nothing else. */
  lemma SplitLosesOnlyAuthority(uri: Str)
    requires HasScheme(uri)
    ensures var (scheme, rest) := Split(uri);
            && IsScheme(scheme)
            && (uri == scheme + [COLON] + rest || uri == scheme + [COLON] + AUTHORITY + rest)
  {
    hide Find, Split;
    var idx :| 0 <= idx < |uri| && uri[idx] == COLON && IsScheme(uri[..idx]);
    var scheme, rest := uri[..idx], uri[idx + 1..];
    assert uri == scheme + [COLON] + rest;
    SplitScheme(scheme, rest);
    if AUTHORITY <= rest {
      assert rest == AUTHORITY + rest[2..];
      assert uri == scheme + [COLON] + AUTHORITY + rest[2..];
    }
  }

  // ---- the names and byte classes in characters ---------------------------------------------------

  /** The bytes are the codes of the characters. */
  predicate Spells(s: Str, text: string) {
    |s| == |text| && forall i :: 0 <= i < |s| ==> s[i] as int == text[i] as int
  }

  lemma NamesSpelled()
    ensures Spells(FILE, "file") && Spells(MEM, "mem") && Spells(DATA, "data")
    ensures Spells(SLICE, "slice") && Spells(CONCAT, "concat") && Spells(MARKER, ";base64")
    ensures Spells([COLON], ":") && Spells(AUTHORITY, "//") && Spells([COMMA], ",") && Spells([PERCENT], "%")
    ensures Spells([BANG], "!") && Spells([PLUS], "+") && Spells([BAR], "|") && Spells([PAD], "=")
  {
  }

  predicate Between(lo: char, b: Byte, hi: char) {
    lo as int <= b as int <= hi as int
  }

  /** Schemes consist of letters, digits, `+`, `-` and `.`. */
  lemma ClassesSpelled(b: Byte)
    ensures IsDigit(b) <==> Between('0', b, '9')
    ensures IsAlpha(b) <==> Between('A', b, 'Z') || Between('a', b, 'z')
    ensures IsSchemeByte(b) <==> || Between('A', b, 'Z') || Between('a', b, 'z') || Between('0', b, '9')
                                 || b as int == '+' as int || b as int == '-' as int || b as int == '.' as int
  {
  }

  // ---- spelling variants --------------------------------------------------------------------------

  /** The same byte, or the same letter in the other case. */
  predicate SameLetter(a: Byte, b: Byte) {
    || a == b
    || (Between('A', a, 'Z') && b == a + 0x20)
    || (Between('A', b, 'Z') && a == b + 0x20)
  }

  predicate CaseVariant(a: Str, b: Str) {
    |a| == |b| && forall i :: 0 <= i < |a| ==> SameLetter(a[i], b[i])
  }

  lemma SameLetterIff(a: Byte, b: Byte)
    ensures SameLetter(a, b) <==> ToLower(a) == ToLower(b)
  {
    ClassesSpelled(a);
    ClassesSpelled(b);
    assert IsUpper(a) <==> Between('A', a, 'Z');
    assert IsUpper(b) <==> Between('A', b, 'Z');
  }

  /** The comparison that ignores case identifies exactly the spelling variants. */
  lemma EqIgnoreCaseIff(a: Str, b: Str)
    ensures EqIgnoreCase(a, b) <==> CaseVariant(a, b)
  {
    if |a| == |b| {
      forall i | 0 <= i < |a| ensures SameLetter(a[i], b[i]) <==> ToLower(a[i]) == ToLower(b[i]) {
        SameLetterIff(a[i], b[i]);
      }
    }
  }

  /** A variant of a scheme is a scheme, and splits off like it. */
  lemma VariantSplits(scheme: Str, name: Str, rest: Str)
    requires IsScheme(name) && CaseVariant(scheme, name)
    ensures IsScheme(scheme)
    ensures Split(scheme + [COLON] + rest) == (scheme, StripPrefix(rest, AUTHORITY))
  {
    forall i | 0 <= i < |scheme|
      ensures IsAlpha(scheme[i]) <==> IsAlpha(name[i])
      ensures IsSchemeByte(scheme[i])
    {
      VariantClass(scheme[i], name[i]);
    }
    SplitScheme(scheme, rest);
  }

  lemma VariantClass(a: Byte, b: Byte)
    requires SameLetter(a, b)
    ensures IsAlpha(a) <==> IsAlpha(b)
    ensures IsSchemeByte(a) <==> IsSchemeByte(b)
  {
    ClassesSpelled(a);
    ClassesSpelled(b);
  }
}
