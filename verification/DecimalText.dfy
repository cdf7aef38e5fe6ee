/** Decimal number texts, their exact values, and how the texts split into their parts. */
module DecimalText {
  import opened Wrappers

  // ----- Digits ---------------------------------------------------------------------------

  predicate IsDigit(c: char) {
    '0' <= c <= '9'
  }

  predicate AllDigits(s: string) {
    forall i :: 0 <= i < |s| ==> IsDigit(s[i])
  }

  function Pow10(n: nat): (p: nat)
    ensures p >= 1
  {
    if n == 0 then 1 else 10 * Pow10(n - 1)
  }

  function DigitValue(c: char): nat
    requires IsDigit(c)
  {
    c as nat - '0' as nat
  }

  /** The natural number a digit string stands for. */
  function NatOf(s: string): nat
    requires AllDigits(s)
  {
    if s == "" then 0 else 10 * NatOf(s[..|s| - 1]) + DigitValue(s[|s| - 1])
  }

  lemma {:induction false} Pow10Sum(a: nat, b: nat)
    ensures Pow10(a + b) == Pow10(a) * Pow10(b)
  {
    if b > 0 {
      Pow10Sum(a, b - 1);
      assert Pow10(a + b) == 10 * Pow10(a + (b - 1));
    }
  }

  lemma {:induction false} Pow10Monotone(a: nat, b: nat)
    requires a <= b
    ensures Pow10(a) <= Pow10(b)
    decreases b
  {
    if a < b {
      Pow10Monotone(a, b - 1);
    }
  }

  lemma Shift(x: nat, n: nat)
    ensures x * Pow10(n + 1) == 10 * (x * Pow10(n))
  {
    assert x * (10 * Pow10(n)) == 10 * (x * Pow10(n));
  }

  lemma {:induction false} NatOfConcat(a: string, b: string)
    requires AllDigits(a) && AllDigits(b)
    ensures AllDigits(a + b) && NatOf(a + b) == NatOf(a) * Pow10(|b|) + NatOf(b)
  {
    if b == "" {
      assert a + b == a;
    } else {
      var front, last := b[..|b| - 1], |b| - 1;
      NatOfConcat(a, front);
      assert (a + b)[..|a + b| - 1] == a + front;
      Shift(NatOf(a), last);
    }
  }

  lemma {:induction false} NatOfBelow(s: string)
    requires AllDigits(s)
    ensures NatOf(s) < Pow10(|s|)
  {
    if s != "" {
      NatOfBelow(s[..|s| - 1]);
    }
  }

  function Zeros(n: nat): string {
    seq(n, _ => '0')
  }

  lemma {:induction false} NatOfZeros(n: nat)
    ensures AllDigits(Zeros(n)) && NatOf(Zeros(n)) == 0
  {
    if n > 0 {
      assert Zeros(n)[..n - 1] == Zeros(n - 1);
      NatOfZeros(n - 1);
    }
  }

  /** A digit string without a leading zero has as many digits as its value says. */
  lemma {:induction false} NatOfAtLeast(s: string)
    requires AllDigits(s) && s != "" && s[0] != '0'
    ensures NatOf(s) >= Pow10(|s| - 1)
  {
    if |s| > 1 {
      NatOfAtLeast(s[..|s| - 1]);
    } else {
      assert s[..0] == "";
    }
  }

  // ----- Trimming ---------------------------------------------------------------------------

  /** strings.TrimLeft(s, "0"). */
  function TrimZeros(s: string): string {
    if s != "" && s[0] == '0' then TrimZeros(s[1..]) else s
  }

  /** strings.TrimRight(s, "0"). */
  function TrimTrailingZeros(s: string): string {
    if s != "" && s[|s| - 1] == '0' then TrimTrailingZeros(s[..|s| - 1]) else s
  }

  lemma {:induction false} TrimZerosSplits(s: string)
    ensures var t := TrimZeros(s);
            |t| <= |s| && s == Zeros(|s| - |t|) + t && (t != "" ==> t[0] != '0')
    decreases |s|
  {
    if s != "" && s[0] == '0' {
      TrimZerosSplits(s[1..]);
      assert s == ['0'] + s[1..];
      assert Zeros(|s| - |TrimZeros(s)|) == ['0'] + Zeros(|s| - 1 - |TrimZeros(s)|);
    }
  }

  lemma TrimZerosKeepsValue(s: string)
    requires AllDigits(s)
    ensures var t := TrimZeros(s);
            && |t| <= |s| && AllDigits(t) && NatOf(t) == NatOf(s) && (t != "" ==> t[0] != '0')
  {
    var t := TrimZeros(s);
    TrimZerosSplits(s);
    assert t == s[|s| - |t|..];
    hide TrimZeros;
    NatOfZeros(|s| - |t|);
    NatOfConcat(Zeros(|s| - |t|), t);
  }

  lemma {:induction false} TrimTrailingZerosScales(s: string)
    requires AllDigits(s)
    ensures var t := TrimTrailingZeros(s);
            && |t| <= |s| && t == s[..|t|] && AllDigits(t) && NatOf(s) == NatOf(t) * Pow10(|s| - |t|)
            && (t != "" ==> t[|t| - 1] != '0')
            && (NatOf(s) > 0 ==> t != "")
    decreases |s|
  {
    if s != "" && s[|s| - 1] == '0' {
      var front, t := s[..|s| - 1], TrimTrailingZeros(s);
      TrimTrailingZerosScales(front);
      Shift(NatOf(t), |front| - |t|);
    } else {
      assert Pow10(0) == 1;
    }
  }

  // ----- Literals ----------------------------------------------------------------------------

  datatype Exponent = Exponent(marker: char, sign: string, digits: string)

  /** The parts of a text that matches decimalText (internal/database/kql_conversion.go). */
  datatype Literal = Literal(sign: string, whole: string, point: bool, fraction: string, exponent: Option<Exponent>)

  predicate IsSign(s: string) {
    s == "" || s == "+" || s == "-"
  }

  predicate WellFormed(l: Literal) {
    && IsSign(l.sign) && AllDigits(l.whole) && AllDigits(l.fraction)
    && (l.whole == "" ==> l.fraction != "")
    && (!l.point ==> l.fraction == "")
    && (l.exponent.Some? ==>
          var e := l.exponent.value;
          e.marker in {'e', 'E'} && IsSign(e.sign) && AllDigits(e.digits) && e.digits != "")
  }

  function Mantissa(l: Literal): string {
    l.whole + (if l.point then "." else "") + l.fraction
  }

  function ExponentText(l: Literal): string {
    if l.exponent.None? then "" else l.exponent.value.sign + l.exponent.value.digits
  }

  /** The text behind the sign. */
  function Unsigned(l: Literal): string {
    Mantissa(l) + if l.exponent.None? then "" else [l.exponent.value.marker] + ExponentText(l)
  }

  function Render(l: Literal): string {
    l.sign + Unsigned(l)
  }

  // ----- Values ------------------------------------------------------------------------------

  function Signed(sign: string, n: int): int {
    if sign == "-" then -n else n
  }

  function Digits(l: Literal): string {
    l.whole + l.fraction
  }

  function ExponentOf(l: Literal): int
    requires WellFormed(l)
  {
    if l.exponent.None? then 0 else Signed(l.exponent.value.sign, NatOf(l.exponent.value.digits))
  }

  /** The exact value is mantissa * 10^exponent, with a sign. */
  datatype Decimal = Decimal(negative: bool, mantissa: nat, exponent: int)

  function ValueOf(l: Literal): Decimal
    requires WellFormed(l)
  {
    Decimal(l.sign == "-", NatOf(Digits(l)), ExponentOf(l) - |l.fraction|)
  }

  /** Equality of exact values, compared at the smaller of the two exponents; zero has no sign. */
  ghost predicate SameValue(a: Decimal, b: Decimal) {
    var c := if a.exponent < b.exponent then a.exponent else b.exponent;
    && (a.negative == b.negative || a.mantissa == 0)
    && a.mantissa * Pow10(a.exponent - c) == b.mantissa * Pow10(b.exponent - c)
  }

  /** The value truncated toward zero. */
  ghost function Truncated(d: Decimal): int {
    var magnitude := if d.exponent >= 0 then d.mantissa * Pow10(d.exponent) else d.mantissa / Pow10(-d.exponent);
    if d.negative then -magnitude else magnitude
  }

  /** What the regular expression decimalText accepts. */
  ghost predicate Matches(text: string) {
    exists l :: WellFormed(l) && Render(l) == text
  }
}
