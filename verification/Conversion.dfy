/** Decimal text to integers: decimalInteger and kqlToInteger in internal/database/kql_conversion.go. */
module Conversion {
  import opened Arithmetic
  import opened DecimalText
  import opened Limits
  import opened Wrappers

  const MIN_INT32 := -0x8000_0000
  const MAX_INT32 := 0x7FFF_FFFF

  /** No string is longer than this. */
  const MAX_LENGTH := 0x4000_0000_0000_0000

  function InRange(n: int): Option<int> {
    if MIN_INT64 <= n <= MAX_INT64 then Some(n) else None
  }

  // ----- Library functions on strings -------------------------------------------------------

  /** strings.TrimLeft(s, "+-"). */
  function TrimSigns(s: string): string {
    if s != "" && (s[0] == '+' || s[0] == '-') then TrimSigns(s[1..]) else s
  }

  lemma {:induction false} SignsAreFew(s: string)
    ensures |TrimSigns(s)| <= |s|
  {
    if s != "" {
      SignsAreFew(s[1..]);
    }
  }

  /** strings.IndexAny and strings.IndexByte: the first position of one of the characters, or -1. */
  function FirstOf(s: string, chars: set<char>): (i: int)
    ensures -1 <= i < |s|
  {
    if s == "" then -1
    else if s[0] in chars then 0
    else if FirstOf(s[1..], chars) < 0 then -1
    else 1 + FirstOf(s[1..], chars)
  }

  /** strconv.ParseInt(s, 10, 64): an optional sign and digits, in range. */
  function ParseInt(s: string): Option<int> {
    var digits := if s != "" && (s[0] == '+' || s[0] == '-') then s[1..] else s;
    if digits == "" || !AllDigits(digits) then None
    else
      var n: int := NatOf(digits);
      InRange(if s[0] == '-' then -n else n)
  }

  lemma {:induction false} FirstOfConcat(a: string, b: string, chars: set<char>)
    requires forall i :: 0 <= i < |a| ==> a[i] !in chars
    ensures FirstOf(a + b, chars) == if FirstOf(b, chars) < 0 then -1 else |a| + FirstOf(b, chars)
  {
    if a == "" {
      assert a + b == b;
    } else {
      assert (a + b)[1..] == a[1..] + b;
      FirstOfConcat(a[1..], b, chars);
    }
  }

  // ----- The parts of a matching text ---------------------------------------------------------

  lemma SignTrimmed(l: Literal)
    requires WellFormed(l)
    ensures TrimSigns(Render(l)) == Unsigned(l)
    ensures Render(l) != "" && (Render(l)[0] == '-' <==> l.sign == "-")
    ensures |Unsigned(l)| >= |Mantissa(l)| >= |Digits(l)|
  {
    var u := Unsigned(l);
    assert u[0] == if l.whole != "" then l.whole[0] else '.';
    if l.sign != "" {
      assert Render(l)[1..] == u;
    } else {
      assert Render(l) == u;
    }
  }

  lemma ExponentFound(l: Literal)
    requires WellFormed(l)
    ensures FirstOf(Unsigned(l), {'e', 'E'}) == if l.exponent.None? then -1 else |Mantissa(l)|
    ensures l.exponent.Some? ==> Unsigned(l)[|Mantissa(l)| + 1..] == ExponentText(l)
    ensures Unsigned(l)[..|Mantissa(l)|] == Mantissa(l)
    ensures if l.exponent.None? then Unsigned(l) == Mantissa(l) && ExponentOf(l) == 0 else |Mantissa(l)| < |Unsigned(l)|
  {
    var tail := if l.exponent.None? then "" else [l.exponent.value.marker] + ExponentText(l);
    forall i | 0 <= i < |Mantissa(l)|
      ensures Mantissa(l)[i] !in {'e', 'E'}
    {
      assert IsDigit(Mantissa(l)[i]) || Mantissa(l)[i] == '.';
    }
    FirstOfConcat(Mantissa(l), tail, {'e', 'E'});
  }

  lemma PointFound(l: Literal)
    requires WellFormed(l)
    ensures FirstOf(Mantissa(l), {'.'}) == if l.point then |l.whole| else -1
    ensures l.point ==> Mantissa(l)[..|l.whole|] + Mantissa(l)[|l.whole| + 1..] == Digits(l)
    ensures !l.point ==> Mantissa(l) == Digits(l) == l.whole
  {
    var rest := (if l.point then "." else "") + l.fraction;
    assert Mantissa(l) == l.whole + rest;
    FirstOfConcat(l.whole, rest, {'.'});
  }

  lemma ExponentParsed(l: Literal)
    requires WellFormed(l) && l.exponent.Some?
    ensures ParseInt(ExponentText(l)) == InRange(ExponentOf(l))
    ensures ExponentText(l) != "" && (ExponentText(l)[0] == '-' <==> l.exponent.value.sign == "-")
  {
    var e, text := l.exponent.value, ExponentText(l);
    assert IsDigit(e.digits[0]);
    if e.sign == "" {
      assert text == e.digits;
    } else {
      assert text[1..] == e.digits;
    }
  }

  // ----- Truncation ------------------------------------------------------------------------------

  /** mantissa * 10^x rounded down. */
  function Magnitude(mantissa: nat, x: int): nat {
    if x >= 0 then mantissa * Pow10(x) else Div(mantissa, Pow10(-x))
  }

  // t is a digit string without a leading zero; its decimal point stands behind position p,
  // counted from its left end.

  lemma PointBeforeDigits(t: string, p: int)
    requires AllDigits(t) && p <= 0
    ensures Magnitude(NatOf(t), p - |t|) == 0
  {
    NatOfBelow(t);
    Pow10Monotone(|t|, |t| - p);
    hide Pow10, NatOf;
    if p == |t| {
      assert NatOf(t) * Pow10(0) == 0;
    } else {
      QuotientIs(NatOf(t), Pow10(|t| - p), 0, NatOf(t));
    }
  }

  lemma PointInsideDigits(t: string, p: int)
    requires AllDigits(t) && 0 < p < |t| && t[0] != '0'
    ensures Magnitude(NatOf(t), p - |t|) == NatOf(t[..p]) >= Pow10(p - 1)
  {
    assert t == t[..p] + t[p..];
    NatOfConcat(t[..p], t[p..]);
    NatOfBelow(t[p..]);
    NatOfAtLeast(t[..p]);
    hide Pow10, NatOf;
    QuotientIs(NatOf(t), Pow10(|t| - p), NatOf(t[..p]), NatOf(t[p..]));
  }

  lemma PointAfterDigits(t: string, p: int)
    requires AllDigits(t) && t != "" && p >= |t| && t[0] != '0'
    ensures AllDigits(t + Zeros(p - |t|))
    ensures Magnitude(NatOf(t), p - |t|) == NatOf(t + Zeros(p - |t|)) >= Pow10(p - 1)
  {
    NatOfZeros(p - |t|);
    NatOfConcat(t, Zeros(p - |t|));
    NatOfAtLeast(t);
    Pow10Sum(|t| - 1, p - |t|);
    hide Pow10, NatOf, Zeros;
    ProductBound(Pow10(|t| - 1), Pow10(p - |t|), NatOf(t), Pow10(p - |t|));
  }

  lemma Pow10OfNineteen()
    ensures Pow10(19) > 0x8000_0000_0000_0000
  {
    assert Pow10(10) == 10_000_000_000;
    Pow10Sum(10, 9);
    assert Pow10(9) == 1_000_000_000;
  }

  // ----- The code -------------------------------------------------------------------------------------

  /** What is left of the exponent after clamping to `limit`. */
  function Clamped(exponent: int, limit: int): int {
    if exponent > limit then limit else if exponent < -limit then -limit else exponent
  }

  /** The exponent part: cut off, parsed, and clamped so that no exponent-sized text is ever built. */
  method ReadExponent(text: string, ghost l: Literal) returns (mantissa: string, exponent: int)
    requires WellFormed(l) && text == Unsigned(l) && |text| < MAX_LENGTH
    ensures mantissa == Mantissa(l) && exponent == Clamped(ExponentOf(l), |text| + 20)
  {
    mantissa, exponent := text, 0;
    hide Unsigned, Mantissa, ExponentText, ExponentOf, FirstOf, ParseInt, WellFormed, AllDigits, IsSign;
    ExponentFound(l);
    if l.exponent.Some? {
      ExponentParsed(l);
      OutOfRangeKeepsSign(l);
    }
    var index := FirstOf(text, {'e', 'E'});
    if index >= 0 {
      var exponentText := text[index + 1..];
      var parsed := ParseInt(exponentText);
      var limit := |text| + 20;
      if parsed.None? || parsed.value > limit || parsed.value < -limit {
        exponent := limit;
        if exponentText != "" && exponentText[0] == '-' {
          exponent := -limit;
        }
      } else {
        exponent := parsed.value;
      }
      mantissa := text[..index];
    }
  }

  lemma OutOfRangeKeepsSign(l: Literal)
    requires WellFormed(l) && l.exponent.Some?
    ensures ExponentOf(l) < 0 ==> l.exponent.value.sign == "-"
    ensures ExponentOf(l) > 0 ==> l.exponent.value.sign != "-"
  {}

  /** The digits with the point taken out, and where the point was. */
  method TakePoint(mantissa: string, ghost l: Literal) returns (digits: string, point: int)
    requires WellFormed(l) && mantissa == Mantissa(l)
    ensures digits == Digits(l) && point == |l.whole|
  {
    PointFound(l);
    digits := mantissa;
    point := FirstOf(mantissa, {'.'});
    if point < 0 {
      point := |mantissa|;
    } else {
      digits := mantissa[..point] + mantissa[point + 1..];
    }
  }

  /**
    decimalInteger.  The regular expression match is done by a library: `matched` is its result and
    `l` any way to read a matching text.  The answer is the exact value truncated toward zero,
    and it is missing exactly when that value is outside the signed 64-bit range.
   */
  method DecimalInteger(text: string, matched: bool, ghost l: Literal) returns (r: Option<int>)
    requires |text| < MAX_LENGTH
    requires matched ==> WellFormed(l) && Render(l) == text
    ensures r.Some? <==> matched && -0x8000_0000_0000_0000 <= Truncated(ValueOf(l)) <= 0x7FFF_FFFF_FFFF_FFFF
    ensures r.Some? ==> r.value == Truncated(ValueOf(l))
  {
    hide Render, Unsigned, Mantissa, Digits, ExponentText, ExponentOf, FirstOf, ParseInt, WellFormed, IsSign;
    hide TrimSigns, TrimZeros, NatOf;
    if !matched {
      return None;
    }
    SignTrimmed(l);
    DigitParts(l);
    var negative := text != "" && text[0] == '-';
    var body := TrimSigns(text);
    assert |body| <= |text| by {
      SignsAreFew(text);
    }
    var limit := |body| + 20;
    var mantissa, exponent := ReadExponent(body, l);
    var digits, point := TakePoint(mantissa, l);
    var trimmed := TrimZeros(digits);
    TrimZerosKeepsValue(digits);
    point := point - (|digits| - |trimmed|);
    r := Place(negative, trimmed, point, exponent);
    ghost var p := point + ExponentOf(l);
    ClampIsExact(l, negative, trimmed, point, ExponentOf(l), limit);
  }

  lemma DigitParts(l: Literal)
    requires WellFormed(l)
    ensures AllDigits(Digits(l)) && |Digits(l)| == |l.whole| + |l.fraction|
    ensures Truncated(ValueOf(l)) == Signed(l.sign, Magnitude(NatOf(Digits(l)), ExponentOf(l) - |l.fraction|))
  {}

  /** The answer for digits t (without a leading zero) with the point at position p. */
  function Placed(negative: bool, t: string, p: int): Option<int>
    requires AllDigits(t)
  {
    InRange(Signed(if negative then "-" else "", Magnitude(NatOf(t), p - |t|)))
  }

  /** The end of decimalInteger: the special cases, then the digits before the point. */
  method Place(negative: bool, trimmed: string, point: int, exponent: int) returns (r: Option<int>)
    requires AllDigits(trimmed) && (trimmed != "" ==> trimmed[0] != '0')
    ensures r == Placed(negative, trimmed, point + exponent)
  {
    if trimmed == "" {
      NothingPlaced(negative, point + exponent);
      return Some(0);
    }
    var p := point + exponent;
    if p <= 0 {
      PointBeforeDigits(trimmed, p);
      return Some(0);
    }
    if p > 19 {
      TooLarge(negative, trimmed, p);
      return None;
    }
    var shifted;
    if |trimmed| > p {
      PointInsideDigits(trimmed, p);
      shifted := trimmed[..p];
    } else {
      PointAfterDigits(trimmed, p);
      shifted := trimmed + Zeros(p - |trimmed|);
    }
    r := ParseInt(if negative then "-" + shifted else shifted);
    ParsedDigits(negative, shifted);
  }

  lemma ParsedDigits(negative: bool, s: string)
    requires AllDigits(s) && s != ""
    ensures ParseInt(if negative then "-" + s else s) == InRange(Signed(if negative then "-" else "", NatOf(s)))
  {
    assert ("-" + s)[1..] == s;
    assert IsDigit(s[0]);
  }

  lemma NothingPlaced(negative: bool, p: int)
    ensures Placed(negative, "", p) == Some(0)
  {
    assert NatOf("") == 0;
    if p < 0 {
      QuotientIs(0, Pow10(-p), 0, 0);
    }
  }

  lemma TooLarge(negative: bool, t: string, p: int)
    requires AllDigits(t) && t != "" && t[0] != '0' && p > 19
    ensures Placed(negative, t, p).None?
  {
    if p < |t| {
      PointInsideDigits(t, p);
    } else {
      PointAfterDigits(t, p);
    }
    Pow10OfNineteen();
    Pow10Monotone(19, p - 1);
  }

  /** Clamping the exponent to the text's length plus 20 never changes the answer. */
  lemma ClampIsExact(l: Literal, negative: bool, t: string, point: int, exponent: int, limit: int)
    requires AllDigits(t) && (t != "" ==> t[0] != '0')
    requires -limit + 20 <= point <= limit - 20
    ensures Placed(negative, t, point + Clamped(exponent, limit)) == Placed(negative, t, point + exponent)
  {
    if t == "" {
      NothingPlaced(negative, point + Clamped(exponent, limit));
      NothingPlaced(negative, point + exponent);
    } else if exponent > limit {
      TooLarge(negative, t, point + limit);
      TooLarge(negative, t, point + exponent);
    } else if exponent < -limit {
      PointBeforeDigits(t, point - limit);
      PointBeforeDigits(t, point + exponent);
    }
  }

  /** kqlToInteger on text. */
  method KqlToInteger(text: string, bits: int, matched: bool, ghost l: Literal) returns (r: Option<int>)
    requires |text| < MAX_LENGTH
    requires matched ==> WellFormed(l) && Render(l) == text
    ensures r.Some? <==> matched && -0x8000_0000_0000_0000 <= Truncated(ValueOf(l)) <= 0x7FFF_FFFF_FFFF_FFFF &&
                         (bits == 32 ==> -0x8000_0000 <= Truncated(ValueOf(l)) <= 0x7FFF_FFFF)
    ensures r.Some? ==> r.value == Truncated(ValueOf(l))
  {
    r := DecimalInteger(text, matched, l);
    if r.Some? && bits == 32 && (r.value < MIN_INT32 || r.value > MAX_INT32) {
      r := None;
    }
  }
}
