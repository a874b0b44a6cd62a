/** Canonical decimal `u64` tokens: no sign, no leading zeros. */
module Decimal {
  import opened Basics
  import opened Text

  function DigitByte(d: nat): (b: Byte)
    requires d < 10
    ensures IsDigit(b) && DigitValue(b) == d
  {
    match d
    case 0 => 0x30 case 1 => 0x31 case 2 => 0x32 case 3 => 0x33 case 4 => 0x34
    case 5 => 0x35 case 6 => 0x36 case 7 => 0x37 case 8 => 0x38 case _ => 0x39
  }

  function DigitValue(b: Byte): (d: nat)
    requires IsDigit(b)
    ensures d < 10
  {
    if b == 0x30 then 0 else if b == 0x31 then 1 else if b == 0x32 then 2 else if b == 0x33 then 3
    else if b == 0x34 then 4 else if b == 0x35 then 5 else if b == 0x36 then 6 else if b == 0x37 then 7
    else if b == 0x38 then 8 else 9
  }

  lemma DigitByteOfValue(b: Byte)
    requires IsDigit(b)
    ensures DigitByte(DigitValue(b)) == b
  {
  }

  predicate AllDigits(s: Str) {
    forall i :: 0 <= i < |s| ==> IsDigit(s[i])
  }

  /** The number a digit string denotes. */
  function Value(s: Str): nat
    requires AllDigits(s)
  {
    if s == [] then 0 else Value(s[..|s| - 1]) * 10 + DigitValue(s[|s| - 1])
  }

  /** How `format!` prints a number. */
  function Print(n: nat): (s: Str)
    ensures s != [] && AllDigits(s)
    ensures |s| > 1 ==> s[0] != 0x30
    ensures n > 0 ==> s[0] != 0x30
  {
    if n < 10 then [DigitByte(n)] else Print(n / 10) + [DigitByte(n % 10)]
  }

  function ParseCanonical(s: Str): Result<u64> {
    if s == [] then Err
    else if !AllDigits(s) then Err
    else if |s| > 1 && s[0] == 0x30 then Err
    else if Value(s) >= U64_LIMIT then Err
    else Ok(Value(s))
  }

  lemma {:induction false} ValueOfPrint(n: nat)
    ensures Value(Print(n)) == n
  {
    if n >= 10 {
      ValueOfPrint(n / 10);
      assert Print(n)[..|Print(n)| - 1] == Print(n / 10);
    } else {
      assert Print(n)[..0] == [];
    }
  }

  lemma {:induction false} PrintOfValue(s: Str)
    requires s != [] && AllDigits(s) && (|s| > 1 ==> s[0] != 0x30)
    ensures Print(Value(s)) == s
    ensures s[0] != 0x30 ==> Value(s) > 0
  {
    var front, last := s[..|s| - 1], s[|s| - 1];
    DigitByteOfValue(last);
    if front == [] {
      assert Value(front) == 0 && s == [last];
    } else {
      PrintOfValue(front);
      assert Value(s) / 10 == Value(front) && Value(s) % 10 == DigitValue(last);
      assert s == front + [last];
    }
  }

  /** Printing and canonical parsing are inverse on the whole of `u64`, and nothing else parses. */
  lemma CanonicalRoundTrip(s: Str, n: u64)
    ensures ParseCanonical(s) == Ok(n) <==> s == Print(n)
  {
    ValueOfPrint(n);
    if ParseCanonical(s) == Ok(n) { PrintOfValue(s); }
  }

  // ---- the numbers meant --------------------------------------------------------------------------

  /** The number a numeral means: each digit counts its distance from `0`, at a tenth of the place before it. */
  ghost function Numeral(s: Str): int {
    if s == [] then 0 else 10 * Numeral(s[..|s| - 1]) + (s[|s| - 1] as int - '0' as int)
  }

  lemma DigitMeans(b: Byte)
    requires IsDigit(b)
    ensures DigitValue(b) == b as int - '0' as int
  {
  }

  /** One more digit shifts the number by a place and adds the digit. */
  lemma OneMoreDigit(s: Str, b: Byte)
    requires AllDigits(s) && IsDigit(b)
    ensures Value(s + [b]) == 10 * Value(s) + (b as int - '0' as int)
  {
    DigitMeans(b);
    assert (s + [b])[..|s|] == s;
  }

  lemma {:induction false} ValueIsNumeral(s: Str)
    requires AllDigits(s)
    ensures Value(s) == Numeral(s)
  {
    if s != [] {
      DigitMeans(s[|s| - 1]);
      ValueIsNumeral(s[..|s| - 1]);
    }
  }

  /** A canonical token: digits, no leading zero, a number that fits in a `u64`. */
  ghost predicate Canonical(s: Str) {
    && s != [] && (forall i :: 0 <= i < |s| ==> Between('0', s[i], '9'))
    && (|s| > 1 ==> s[0] as int != '0' as int)
    && Numeral(s) < U64_LIMIT
  }

  /** Exactly the canonical tokens parse, to the number they mean. */
  lemma ParsesToNumeral(s: Str)
    ensures ParseCanonical(s).Ok? <==> Canonical(s)
    ensures ParseCanonical(s).Ok? ==> ParseCanonical(s).value == Numeral(s)
  {
    forall i | 0 <= i < |s| ensures IsDigit(s[i]) <==> Between('0', s[i], '9') { ClassesSpelled(s[i]); }
    assert AllDigits(s) <==> forall i :: 0 <= i < |s| ==> Between('0', s[i], '9');
    if AllDigits(s) { ValueIsNumeral(s); }
  }

  /** What is printed is the canonical token of the number. */
  lemma PrintsNumeral(n: u64)
    ensures Canonical(Print(n)) && Numeral(Print(n)) == n
  {
    CanonicalRoundTrip(Print(n), n);
    ParsesToNumeral(Print(n));
  }
}
