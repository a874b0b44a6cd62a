/** Percent-encoding of payload bytes (section 2.1 of RFC 3986). */
module Percent {
  import opened Basics
  import opened Text

  predicate IsHex(b: Byte) {
    IsDigit(b) || 0x41 <= b <= 0x46 || 0x61 <= b <= 0x66
  }

  function HexNibble(b: Byte): (r: Option<Byte>)
    ensures r.Some? <==> IsHex(b)
    ensures r.Some? ==> r.value < 16
  {
    if IsDigit(b) then Some(b - 0x30)
    else if 0x61 <= b <= 0x66 then Some(b - 0x61 + 10)
    else if 0x41 <= b <= 0x46 then Some(b - 0x41 + 10)
    else None
  }

  /** The unreserved bytes of section 2.3 of RFC 3986. */
  predicate IsUnreserved(b: Byte) {
    IsAlpha(b) || IsDigit(b) || b == 0x2D || b == 0x2E || b == 0x5F || b == 0x7E
  }

  /** One uppercase hexadecimal digit, as `{:02X}` prints it. */
  function HexByte(nibble: Byte): (b: Byte)
    requires nibble < 16
    ensures IsHex(b) && HexNibble(b) == Some(nibble)
  {
    if nibble < 10 then 0x30 + nibble else 0x41 + (nibble - 10)
  }

  function EncodeByte(b: Byte): Str {
    if IsUnreserved(b) then [b] else [PERCENT, HexByte(b >> 4), HexByte(b & 0x0F)]
  }

  function Encode(data: seq<Byte>): Str {
    if data == [] then [] else EncodeByte(data[0]) + Encode(data[1..])
  }

  function Decode(s: Str): (r: Result<seq<Byte>>)
    ensures r.Ok? ==> |r.value| <= |s|
  {
    if s == [] then Ok([])
    else if s[0] == PERCENT then
      if |s| <= 2 then Err
      else
        match (HexNibble(s[1]), HexNibble(s[2]))
        case (Some(hi), Some(lo)) => Prefixed([(hi << 4) | lo], Decode(s[3..]))
        case _ => Err
    else Prefixed([s[0]], Decode(s[1..]))
  }

  lemma NibblesMakeTheByte(b: Byte)
    ensures b >> 4 < 16 && b & 0x0F < 16 && ((b >> 4) << 4) | (b & 0x0F) == b
  {
  }

  /** Decoding what the printer emits returns the payload. */
  lemma {:induction false} RoundTrip(data: seq<Byte>)
    ensures Decode(Encode(data)) == Ok(data)
  {
    if data != [] {
      RoundTrip(data[1..]);
      NibblesMakeTheByte(data[0]);
      assert Encode(data)[|EncodeByte(data[0])|..] == Encode(data[1..]);
      assert data == [data[0]] + data[1..];
    }
  }

  // ---- what escapes mean --------------------------------------------------------------------------

  /** The digits of escapes as they are printed, each at the place it stands for. */
  const HEX_DIGITS := "0123456789ABCDEF"

  predicate IsHexDigit(v: Byte, b: Byte) {
    v < 16 && b as int == HEX_DIGITS[v as int] as int
  }

  /** Which digit it is, whatever its case, is its place among the sixteen. */
  lemma NibbleIsPlace(v: Byte, upper: Byte, b: Byte)
    requires IsHexDigit(v, upper) && SameLetter(b, upper)
    ensures HexNibble(b) == Some(v)
  {
    PlaceOfDigit(v, upper);
    ClassesSpelled(b);
    ClassesSpelled(upper);
  }

  lemma PlaceOfDigit(v: Byte, upper: Byte)
    requires IsHexDigit(v, upper)
    ensures v < 10 ==> upper == 0x30 + v
    ensures v >= 10 ==> upper == 0x41 + (v - 10)
  {
    assert HEX_DIGITS[..10] == "0123456789" && HEX_DIGITS[10..] == "ABCDEF";
  }

  /** An escape stands for sixteen times its first digit plus its second; what follows it is decoded on its own. */
  lemma EscapeMeans(h: Byte, l: Byte, upperH: Byte, upperL: Byte, a: Byte, b: Byte, rest: Str)
    requires IsHexDigit(h, upperH) && IsHexDigit(l, upperL)
    requires SameLetter(a, upperH) && SameLetter(b, upperL)
    ensures Decode([PERCENT, a, b] + rest) == Prefixed([16 * h + l], Decode(rest))
  {
    NibbleIsPlace(h, upperH, a);
    NibbleIsPlace(l, upperL, b);
    assert ([PERCENT, a, b] + rest)[3..] == rest;
    ShiftIsTimes(h, l);
  }

  lemma ShiftIsTimes(h: Byte, l: Byte)
    requires h < 16 && l < 16
    ensures (h << 4) | l == 16 * h + l
  {
  }

  /** Every other byte, `+` included, stands for itself. */
  lemma PlainByteMeans(b: Byte, rest: Str)
    requires b != PERCENT
    ensures Decode([b] + rest) == Prefixed([b], Decode(rest))
  {
    assert ([b] + rest)[1..] == rest;
  }

  /** The same text with the digits of its escapes in upper case. */
  function UpperEscapes(s: Str): Str {
    if s == [] then []
    else if s[0] == PERCENT && |s| > 2 then [PERCENT, Upper(s[1]), Upper(s[2])] + UpperEscapes(s[3..])
    else [s[0]] + UpperEscapes(s[1..])
  }

  function Upper(b: Byte): Byte {
    if Between('a', b, 'z') then b - 0x20 else b
  }

  lemma UpperIsHexAlike(b: Byte)
    ensures HexNibble(Upper(b)) == HexNibble(b)
  {
    ClassesSpelled(b);
  }

  /** The case of the digits of escapes does not matter. */
  lemma {:induction false} EscapeCaseIsIrrelevant(s: Str)
    ensures Decode(UpperEscapes(s)) == Decode(s)
    decreases |s|
  {
    hide HexNibble, Upper;
    if s != [] {
      if s[0] == PERCENT && |s| > 2 {
        UpperIsHexAlike(s[1]);
        UpperIsHexAlike(s[2]);
        EscapeCaseIsIrrelevant(s[3..]);
        assert UpperEscapes(s)[3..] == UpperEscapes(s[3..]);
      } else {
        EscapeCaseIsIrrelevant(s[1..]);
        assert UpperEscapes(s)[1..] == UpperEscapes(s[1..]);
      }
    }
  }

  // ---- what is escaped ----------------------------------------------------------------------------

  /** The unreserved characters: letters, digits, `-`, `.`, `_` and `~`. */
  predicate Unreserved(b: Byte) {
    || Between('A', b, 'Z') || Between('a', b, 'z') || Between('0', b, '9')
    || b as int == '-' as int || b as int == '.' as int || b as int == '_' as int || b as int == '~' as int
  }

  /** Exactly the unreserved bytes are printed as they are, all others as an escape with upper-case digits. */
  lemma EscapesAllButUnreserved(b: Byte)
    ensures Unreserved(b) ==> Encode([b]) == [b]
    ensures !Unreserved(b) ==>
              && |Encode([b])| == 3 && Encode([b])[0] == PERCENT
              && IsHexDigit(b / 16, Encode([b])[1]) && IsHexDigit(b % 16, Encode([b])[2])
  {
    ClassesSpelled(b);
    assert [b][1..] == [] && Encode([b]) == EncodeByte(b);
    HalvesOfByte(b);
    if !Unreserved(b) {
      PrintedDigit(b / 16);
      PrintedDigit(b % 16);
    }
  }

  lemma HalvesOfByte(b: Byte)
    ensures b >> 4 == b / 16 < 16 && b & 0x0F == b % 16 < 16
  {
  }

  lemma PrintedDigit(v: Byte)
    requires v < 16
    ensures IsHexDigit(v, HexByte(v))
  {
    assert HEX_DIGITS[..10] == "0123456789" && HEX_DIGITS[10..] == "ABCDEF";
  }

  /** Payloads are printed byte by byte. */
  lemma {:induction false} EncodeInParts(first: seq<Byte>, second: seq<Byte>)
    ensures Encode(first + second) == Encode(first) + Encode(second)
  {
    if first == [] {
      assert first + second == second;
    } else {
      assert (first + second)[1..] == first[1..] + second;
      EncodeInParts(first[1..], second);
    }
  }

  lemma {:induction false} DecodeIsIdentity(s: Str)
    requires PERCENT !in s
    ensures Decode(s) == Ok(s)
  {
    if s != [] {
      DecodeIsIdentity(s[1..]);
      assert s == [s[0]] + s[1..];
    }
  }

  /** A payload printed without escapes is printed as it is. */
  lemma {:induction false} UnescapedIsIdentity(data: seq<Byte>)
    requires PERCENT !in Encode(data)
    ensures Encode(data) == data
  {
    if data != [] {
      assert Encode(data)[0] == EncodeByte(data[0])[0];
      assert Encode(data)[|EncodeByte(data[0])|..] == Encode(data[1..]);
      UnescapedIsIdentity(data[1..]);
    }
  }

  /** No escape reaches over a byte that is no hexadecimal digit: what follows it is decoded on its own. */
  lemma {:induction false} DecodeBehind(prefix: Str, b: Byte, rest: Str)
    requires b != PERCENT && !IsHex(b)
    ensures var r := Decode(prefix + [b] + rest);
            r.Ok? ==> Decode(rest).Ok? && |r.value| > |Decode(rest).value|
    decreases |prefix|
  {
    var s := prefix + [b] + rest;
    if prefix == [] {
      assert s[1..] == rest;
    } else if prefix[0] != PERCENT {
      assert s[1..] == prefix[1..] + [b] + rest;
      DecodeBehind(prefix[1..], b, rest);
    } else if |prefix| > 2 {
      assert s[3..] == prefix[3..] + [b] + rest;
      DecodeBehind(prefix[3..], b, rest);
    } else {
      assert s[|prefix|] == b;
    }
  }

  /** Every `%` of the text is followed by two hexadecimal digits. */
  predicate WellEscaped(s: Str) {
    forall i :: 0 <= i < |s| && s[i] == PERCENT ==> i + 2 < |s| && IsHex(s[i + 1]) && IsHex(s[i + 2])
  }

  /** The decoder fails exactly on a truncated or non-hexadecimal escape. */
  lemma {:induction false} DecodesIffWellEscaped(s: Str)
    ensures Decode(s).Ok? <==> WellEscaped(s)
    decreases |s|
  {
    if s != [] {
      if s[0] == PERCENT {
        if |s| > 2 && IsHex(s[1]) && IsHex(s[2]) {
          DecodesIffWellEscaped(s[3..]);
          TailEscapes(s, 3);
        }
      } else {
        DecodesIffWellEscaped(s[1..]);
        TailEscapes(s, 1);
      }
    }
  }

  lemma TailEscapes(s: Str, k: nat)
    requires k <= |s|
    requires forall i :: 0 <= i < k && s[i] == PERCENT ==> i + 2 < |s| && IsHex(s[i + 1]) && IsHex(s[i + 2])
    ensures WellEscaped(s) <==> WellEscaped(s[k..])
  {
    if WellEscaped(s[k..]) {
      forall i | 0 <= i < |s| && s[i] == PERCENT
        ensures i + 2 < |s| && IsHex(s[i + 1]) && IsHex(s[i + 2])
      {
        if i >= k { assert s[k..][i - k] == PERCENT; }
      }
    }
  }

  /** The decoding loop, an index over the text and an output that grows. */
  method DecodeBytes(s: Str) returns (r: Result<seq<Byte>>)
    ensures r == Decode(s)
  {
    var out: seq<Byte> := [];
    var i := 0;
    assert s[0..] == s;
    PrefixedNothing(Decode(s));
    while i < |s|
      invariant i <= |s|
      invariant Decode(s) == Prefixed(out, Decode(s[i..]))
    {
      var b := s[i];
      if b == PERCENT {
        if i + 2 >= |s| { return Err; }
        var hi := HexNibble(s[i + 1]);
        if hi.None? { return Err; }
        var lo := HexNibble(s[i + 2]);
        if lo.None? { return Err; }
        assert s[i..][3..] == s[i + 3..];
        PrefixedStep(out, [(hi.value << 4) | lo.value], Decode(s[i + 3..]));
        out := out + [(hi.value << 4) | lo.value];
        i := i + 3;
      } else {
        assert s[i..][1..] == s[i + 1..];
        PrefixedStep(out, [b], Decode(s[i + 1..]));
        out := out + [b];
        i := i + 1;
      }
    }
    assert s[i..] == [] && out + [] == out;
    return Ok(out);
  }

  /** The printing loop of `format`. */
  method EncodeBytes(data: seq<Byte>) returns (s: Str)
    ensures s == Encode(data)
  {
    hide EncodeByte;
    s := [];
    for i := 0 to |data|
      invariant Encode(data) == s + Encode(data[i..])
    {
      assert data[i..][1..] == data[i + 1..];
      s := s + EncodeByte(data[i]);
    }
  }
}
