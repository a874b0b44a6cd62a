/** What the opener makes of any text, scheme by scheme and in any spelling of the scheme. */
module Dispatch {
  import opened Basics
  import opened Text
  import opened Decimal
  import opened Shapes
  import opened Opener
  import S = SliceUri
  import C = ConcatUri
  import D = DataUri
  import Base64
  import Percent
  import Composition

  // ---- schemes ------------------------------------------------------------------------------------

  /** The schemes that are not looked up as a whole. */
  predicate Known(name: Str) {
    name == MEM || name == DATA || name == SLICE || name == CONCAT
  }

  lemma SameComparison(scheme: Str, name: Str, other: Str)
    requires CaseVariant(scheme, name)
    ensures EqIgnoreCase(scheme, other) <==> EqIgnoreCase(name, other)
  {
    EqIgnoreCaseIff(scheme, name);
  }

  /** The case of a scheme's letters does not matter. */
  lemma SchemeCaseIsIrrelevant(env: Env, scheme: Str, name: Str, rest: Str)
    requires Known(name) && CaseVariant(scheme, name)
    ensures Meaning(env, scheme + [COLON] + rest) == Meaning(env, name + [COLON] + rest)
  {
    hide Split, CaseVariant, EqIgnoreCase, S.ParseHeader, C.ParseRest, D.ParseRest, Meanings;
    assert IsScheme(name);
    assert CaseVariant(name, name) by { EqIgnoreCaseIff(name, name); SameAsItself(name); }
    VariantSplits(scheme, name, rest);
    VariantSplits(name, name, rest);
    SameComparison(scheme, name, FILE);
    SameComparison(scheme, name, MEM);
    SameComparison(scheme, name, DATA);
    SameComparison(scheme, name, SLICE);
    SameComparison(scheme, name, CONCAT);
    EqIgnoreCaseIff(scheme, name);
    assert |scheme + [COLON] + rest| == |name + [COLON] + rest| by { SameLength(scheme, name); }
    FileIsNotKnown(name);
  }

  lemma SameAsItself(name: Str)
    ensures EqIgnoreCase(name, name)
  {
  }

  lemma SameLength(scheme: Str, name: Str)
    requires CaseVariant(scheme, name)
    ensures |scheme| == |name|
  {
  }

  lemma FileIsNotKnown(name: Str)
    requires Known(name)
    ensures !EqIgnoreCase(name, FILE)
  {
    Composition.SchemesDiffer();
    assert !EqIgnoreCase(MEM, FILE);
  }

  /** A bare path and a `file:` text, in any spelling, open exactly what is stored under the whole text. */
  lemma FileTextsAreLookedUp(env: Env, uri: Str, scheme: Str, rest: Str)
    requires !HasScheme(uri) || (CaseVariant(scheme, FILE) && uri == scheme + [COLON] + rest)
    ensures Bytes(env, uri).Ok? <==> uri in env.files
    ensures uri in env.files ==> Bytes(env, uri) == Ok(env.files[uri])
  {
    hide Split;
    assert EqIgnoreCase(FILE, FILE);
    if HasScheme(uri) {
      VariantSplits(scheme, FILE, rest);
      EqIgnoreCaseIff(scheme, FILE);
    } else {
      BareIffNoScheme(uri);
    }
  }

  /** No other scheme opens anything. */
  lemma UnknownSchemesFail(env: Env, scheme: Str, rest: Str)
    requires IsScheme(scheme) && !CaseVariant(scheme, FILE)
    requires forall name :: Known(name) ==> !CaseVariant(scheme, name)
    ensures Bytes(env, scheme + [COLON] + rest).Err?
  {
    hide Split, CaseVariant;
    SplitScheme(scheme, rest);
    EqIgnoreCaseIff(scheme, FILE);
    EqIgnoreCaseIff(scheme, MEM);
    EqIgnoreCaseIff(scheme, DATA);
    EqIgnoreCaseIff(scheme, SLICE);
    EqIgnoreCaseIff(scheme, CONCAT);
  }

  // ---- whole texts --------------------------------------------------------------------------------

  /** A slice text serves the window its two numbers name, in the bytes of the text behind the `!`. */
  lemma SliceTextServes(env: Env, scheme: Str, offset: Str, length: Str, inner: Str)
    requires CaseVariant(scheme, SLICE) && Canonical(offset) && Canonical(length) && inner != []
    ensures var r, from, count := Bytes(env, scheme + [COLON] + (offset + [PLUS] + length + [BANG] + inner)),
                                  Numeral(offset), Numeral(length);
            && (r.Ok? <==> Bytes(env, inner).Ok? && from + count <= |Bytes(env, inner).value|)
            && (r.Ok? ==> 0 <= from <= from + count && r.value == Bytes(env, inner).value[from..from + count])
  {
    hide Canonical, Numeral, S.ParseHeader, Split, CaseVariant;
    var rest := offset + [PLUS] + length + [BANG] + inner;
    SchemeCaseIsIrrelevant(env, scheme, SLICE, rest);
    S.HeaderMeans(offset, length, inner);
    var x := S.ParseHeader(rest).value;
    S.HeaderRoundTrip(rest, x);
    S.RoundTrip(x);
    Composition.SliceFormatMeans(env, x);
  }

  /** A data text serves its payload, decoded as its header says. */
  lemma DataTextServes(env: Env, scheme: Str, mediatype: Str, marker: Str, payload: Str)
    requires CaseVariant(scheme, DATA) && COMMA !in mediatype && !(AUTHORITY <= mediatype)
    ensures CaseVariant(marker, MARKER) ==>
              Bytes(env, scheme + [COLON] + (mediatype + marker + [COMMA] + payload)) == Base64.Decode(payload)
    ensures (|mediatype| >= |MARKER| ==> !CaseVariant(mediatype[|mediatype| - |MARKER|..], MARKER)) ==>
              Bytes(env, scheme + [COLON] + (mediatype + [COMMA] + payload)) == Percent.Decode(payload)
  {
    hide CaseVariant, D.Parse, Base64.Decode, Percent.Decode;
    if CaseVariant(marker, MARKER) {
      D.ParsesMarked(scheme, mediatype, marker, payload);
      DataMeans(env, scheme, mediatype + marker + [COMMA] + payload);
    }
    if |mediatype| >= |MARKER| ==> !CaseVariant(mediatype[|mediatype| - |MARKER|..], MARKER) {
      D.ParsesUnmarked(scheme, mediatype, payload);
      DataMeans(env, scheme, mediatype + [COMMA] + payload);
    }
  }

  lemma DataMeans(env: Env, scheme: Str, rest: Str)
    requires CaseVariant(scheme, DATA)
    ensures var uri := scheme + [COLON] + rest;
            Bytes(env, uri) == match D.Parse(uri)
                               case Ok(x) => Ok(x.data)
                               case Err => Err
  {
    hide D.Parse, Split, CaseVariant;
    VariantSplits(scheme, DATA, rest);
    SameComparison(scheme, DATA, FILE);
    SameComparison(scheme, DATA, MEM);
    SameComparison(scheme, DATA, DATA);
    SameAsItself(DATA);
    Composition.SchemesDiffer();
  }

  /** The bytes of all segments one after the other, if every one opens and none is a concatenation itself. */
  ghost function Flattened(env: Env, segments: seq<Str>): Result<seq<Byte>> {
    if segments == [] then Ok([])
    else if CaseVariant(Split(segments[0]).0, CONCAT) then Err
    else
      match Bytes(env, segments[0])
      case Ok(bytes) => Prefixed(bytes, Flattened(env, segments[1..]))
      case Err => Err
  }

  lemma {:induction false} MeaningsFlatten(env: Env, segments: seq<Str>, bound: nat)
    requires forall i :: 0 <= i < |segments| ==> |segments[i]| < bound
    ensures Meanings(env, segments, bound).Ok? <==> Flattened(env, segments).Ok?
    ensures Flattened(env, segments).Ok? ==>
              DenoteAll(Meanings(env, segments, bound).value) == Flattened(env, segments).value
    decreases |segments|
  {
    hide Meaning, Meanings, EqIgnoreCase, CaseVariant;
    if segments == [] {
      NothingMeant(env, bound);
    } else {
      EqIgnoreCaseIff(Split(segments[0]).0, CONCAT);
      Composition.OpensHeadAndTail(env, segments, bound);
      MeaningsFlatten(env, segments[1..], bound);
    }
  }

  lemma NothingMeant(env: Env, bound: nat)
    ensures Meanings(env, [], bound) == Ok([]) && DenoteAll([]) == []
  {
  }

  /** A concatenation text serves its segments one after the other, provided the total fits in a `u64`. */
  lemma ConcatTextServes(env: Env, scheme: Str, segments: seq<Str>)
    requires CaseVariant(scheme, CONCAT) && C.New(segments).Ok?
    ensures var r, all := Bytes(env, scheme + [COLON] + C.JoinBar(segments)), Flattened(env, segments);
            && (r.Ok? <==> all.Ok? && |all.value| < U64_LIMIT)
            && (r.Ok? ==> r == all)
  {
    hide CaseVariant, Meaning, Meanings, C.New, Flattened;
    var x, bound := C.ConcatUri(segments), C.LongerThanAll(segments);
    SchemeCaseIsIrrelevant(env, scheme, CONCAT, C.JoinBar(segments));
    Composition.ConcatFormatMeans(env, x, bound);
    MeaningsFlatten(env, segments, bound);
  }
}
