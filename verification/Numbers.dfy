/** Canonical numbers: normalizeNumber in internal/database/sqlite_functions.go. */
module Numbers {
  import opened Arithmetic
  import opened Conversion
  import opened DecimalText
  import opened Limits
  import opened Wrappers

  datatype Normalized = Normalized(negative: bool, digits: string, scale: int)

  const ZERO: Normalized := Normalized(false, "0", 0)

  /** The normal form of a number, or None where a 64-bit step would overflow. */
  function NormalForm(l: Literal): Option<Normalized>
    requires WellFormed(l)
  {
    var t := TrimZeros(Digits(l));
    var d := TrimTrailingZeros(t);
    var scale := ExponentOf(l) - |l.fraction|;
    if t == "" then Some(ZERO)
    else if InRange(ExponentOf(l)).None? || scale < MIN_INT64 || scale > MAX_INT64 - (|t| - |d|) then None
    else Some(Normalized(l.sign == "-", d, scale + (|t| - |d|)))
  }

  /** No leading and no trailing zero digit, or the one form of zero. */
  ghost predicate Canonical(n: Normalized) {
    AllDigits(n.digits) && n.digits != "" &&
    (n == ZERO || (n.digits[0] != '0' && n.digits[|n.digits| - 1] != '0'))
  }

  function Denotes(n: Normalized): Decimal
    requires AllDigits(n.digits)
  {
    Decimal(n.negative, NatOf(n.digits), n.scale)
  }

  // ----- Equality of exact values -------------------------------------------------------------

  /** The mantissas agree when both are written with exponent c. */
  ghost predicate SameAt(a: Decimal, b: Decimal, c: int)
    requires c <= a.exponent && c <= b.exponent
  {
    a.mantissa * Pow10(a.exponent - c) == b.mantissa * Pow10(b.exponent - c)
  }

  lemma Rescale(a: Decimal, b: Decimal, c: int, d: int)
    requires d <= c <= a.exponent && c <= b.exponent
    ensures SameAt(a, b, c) <==> SameAt(a, b, d)
  {
    Pow10Sum(a.exponent - c, c - d);
    Pow10Sum(b.exponent - c, c - d);
    hide Pow10;
    ScaledProducts(a.mantissa, Pow10(a.exponent - c), b.mantissa, Pow10(b.exponent - c), Pow10(c - d));
  }

  lemma ScaledProducts(m: nat, x: nat, n: nat, y: nat, k: nat)
    requires k >= 1
    ensures m * x == n * y <==> m * (x * k) == n * (y * k)
  {
    assert m * (x * k) == (m * x) * k && n * (y * k) == (n * y) * k;
    Cancel(m * x, n * y, k);
  }

  lemma Cancel(x: nat, y: nat, k: nat)
    requires k >= 1
    ensures x == y <==> x * k == y * k
  {
    NextMultiple(x, y, k);
    NextMultiple(y, x, k);
  }

  lemma SameValueAt(a: Decimal, b: Decimal, c: int)
    requires c <= a.exponent && c <= b.exponent
    ensures SameValue(a, b) <==> (a.negative == b.negative || a.mantissa == 0) && SameAt(a, b, c)
  {
    Rescale(a, b, if a.exponent < b.exponent then a.exponent else b.exponent, c);
  }

  lemma ZeroOnlyIfZero(a: Decimal, b: Decimal, c: int)
    requires c <= a.exponent && c <= b.exponent && SameAt(a, b, c)
    ensures a.mantissa == 0 <==> b.mantissa == 0
  {
    Cancel(a.mantissa, 0, Pow10(a.exponent - c));
    Cancel(b.mantissa, 0, Pow10(b.exponent - c));
  }

  lemma SameValueSymmetric(a: Decimal, b: Decimal)
    ensures SameValue(a, b) <==> SameValue(b, a)
  {
    var c := if a.exponent < b.exponent then a.exponent else b.exponent;
    SameValueAt(a, b, c);
    SameValueAt(b, a, c);
    if SameAt(a, b, c) {
      ZeroOnlyIfZero(a, b, c);
    }
  }

  lemma SameValueTransitive(a: Decimal, b: Decimal, d: Decimal)
    requires SameValue(a, b) && SameValue(b, d)
    ensures SameValue(a, d)
  {
    var c0 := if a.exponent < b.exponent then a.exponent else b.exponent;
    var c := if c0 < d.exponent then c0 else d.exponent;
    SameValueAt(a, b, c);
    SameValueAt(b, d, c);
    SameValueAt(a, d, c);
    ZeroOnlyIfZero(a, b, c);
  }

  // ----- The normal form is a canonical form of the same value ------------------------------------

  lemma NormalFormKeepsValue(l: Literal)
    requires WellFormed(l) && NormalForm(l).Some?
    ensures Canonical(NormalForm(l).value) && SameValue(Denotes(NormalForm(l).value), ValueOf(l))
  {
    var n := NormalForm(l).value;
    var t := TrimZeros(Digits(l));
    TrimZerosKeepsValue(Digits(l));
    TrimTrailingZerosScales(t);
    if t == "" {
      assert NatOf("0") == 0 && NatOf("") == 0;
    } else {
      NatOfAtLeast(t);
      var d := TrimTrailingZeros(t);
      assert d[0] == t[0];
      assert SameAt(Denotes(n), ValueOf(l), ExponentOf(l) - |l.fraction|) by {
        assert Pow10(0) == 1;
      }
      hide NormalForm;
      SameValueAt(Denotes(n), ValueOf(l), ExponentOf(l) - |l.fraction|);
    }
  }

  lemma {:induction false} DigitsDetermined(a: string, b: string)
    requires AllDigits(a) && AllDigits(b) && NatOf(a) == NatOf(b)
    requires a == "" || a[0] != '0'
    requires b == "" || b[0] != '0'
    ensures a == b
    decreases |a|
  {
    if a == "" || b == "" {
      if a != "" {
        NatOfAtLeast(a);
      }
      if b != "" {
        NatOfAtLeast(b);
      }
      assert NatOf("") == 0;
    } else {
      var x, y := a[..|a| - 1], b[..|b| - 1];
      assert NatOf(x) == NatOf(y) && a[|a| - 1] == b[|b| - 1];
      DigitsDetermined(x, y);
      assert a == x + [a[|a| - 1]] && b == y + [b[|b| - 1]];
    }
  }

  lemma NotAMultipleOfTen(n: Normalized)
    requires Canonical(n) && n != ZERO
    ensures NatOf(n.digits) % 10 != 0 && NatOf(n.digits) > 0
  {
    NatOfAtLeast(n.digits);
  }

  lemma ScalesAgree(a: Normalized, b: Normalized)
    requires Canonical(a) && Canonical(b) && a != ZERO && b != ZERO
    requires a.scale < b.scale
    ensures !SameAt(Denotes(a), Denotes(b), a.scale)
  {
    NotAMultipleOfTen(a);
    var k := b.scale - a.scale;
    assert Pow10(0) == 1 && Pow10(k) == 10 * Pow10(k - 1);
    var m, p := NatOf(b.digits), Pow10(k - 1);
    assert m * (10 * p) == (m * p) * 10;
    QuotientIs(m * (10 * p), 10, m * p, 0);
  }

  /** Two canonical numbers have the same value exactly when they are the same. */
  lemma CanonicalDecides(a: Normalized, b: Normalized)
    requires Canonical(a) && Canonical(b)
    ensures SameValue(Denotes(a), Denotes(b)) <==> a == b
  {
    var x, y := Denotes(a), Denotes(b);
    assert NatOf("0") == 0 by {
      assert "0"[..0] == "";
    }
    if a == b {
    } else if a == ZERO || b == ZERO {
      if a != ZERO {
        NotAMultipleOfTen(a);
      }
      if b != ZERO {
        NotAMultipleOfTen(b);
      }
      var c := if a.scale < b.scale then a.scale else b.scale;
      if SameAt(x, y, c) {
        ZeroOnlyIfZero(x, y, c);
      }
    } else if a.scale < b.scale {
      ScalesAgree(a, b);
    } else if b.scale < a.scale {
      ScalesAgree(b, a);
    } else if SameValue(x, y) {
      assert Pow10(0) == 1;
      NotAMultipleOfTen(a);
      DigitsDetermined(a.digits, b.digits);
    }
  }

  /** Normal forms are equal exactly when the numbers are equal as exact decimals. */
  lemma NormalFormDecides(k: Literal, l: Literal)
    requires WellFormed(k) && WellFormed(l) && NormalForm(k).Some? && NormalForm(l).Some?
    ensures NormalForm(k) == NormalForm(l) <==> SameValue(ValueOf(k), ValueOf(l))
  {
    var m, n := NormalForm(k).value, NormalForm(l).value;
    NormalFormKeepsValue(k);
    NormalFormKeepsValue(l);
    CanonicalDecides(m, n);
    hide NormalForm, SameValue, Canonical;
    SameValueSymmetric(Denotes(m), ValueOf(k));
    SameValueSymmetric(Denotes(n), ValueOf(l));
    if m == n {
      SameValueTransitive(ValueOf(k), Denotes(m), ValueOf(l));
    }
    if SameValue(ValueOf(k), ValueOf(l)) {
      SameValueTransitive(Denotes(m), ValueOf(k), ValueOf(l));
      SameValueTransitive(Denotes(m), ValueOf(l), Denotes(n));
    }
  }

  // ----- The code ------------------------------------------------------------------------------------

  /** strings.Trim(s, "0.") == "" */
  predicate OnlyZerosAndPoint(s: string) {
    forall i :: 0 <= i < |s| ==> s[i] == '0' || s[i] == '.'
  }

  lemma {:induction false} ZeroDigitsTrimAway(s: string)
    ensures TrimZeros(s) == "" <==> forall i :: 0 <= i < |s| ==> s[i] == '0'
  {
    if s != "" && s[0] == '0' {
      ZeroDigitsTrimAway(s[1..]);
      assert forall i :: 1 <= i < |s| ==> s[i] == s[1..][i - 1];
    }
  }

  lemma ZeroMantissa(l: Literal)
    requires WellFormed(l)
    ensures OnlyZerosAndPoint(Mantissa(l)) <==> TrimZeros(Digits(l)) == ""
  {
    ZeroDigitsTrimAway(Digits(l));
    var m, d, w, gap := Mantissa(l), Digits(l), |l.whole|, if l.point then 1 else 0;
    assert forall i :: 0 <= i < |d| ==> d[i] == m[if i < w then i else i + gap];
    assert forall i :: 0 <= i < |m| ==> (l.point && i == w) || m[i] == d[if i < w then i else i - gap];
    assert forall i :: 0 <= i < |d| ==> IsDigit(d[i]);
  }

  /** The exponent is cut off and parsed, unless the number is zero whatever its exponent. */
  method SplitExponent(value: string, ghost l: Literal) returns (zero: bool, mantissa: string, exponent: Option<int>)
    requires WellFormed(l) && value == Unsigned(l)
    ensures zero ==> TrimZeros(Digits(l)) == ""
    ensures !zero ==> mantissa == Mantissa(l) && exponent == InRange(ExponentOf(l))
    ensures !zero && exponent.None? ==> TrimZeros(Digits(l)) != ""
  {
    zero, mantissa, exponent := false, value, Some(0);
    hide Unsigned, Mantissa, Digits, ExponentText, ExponentOf, FirstOf, ParseInt, WellFormed, TrimZeros,
        OnlyZerosAndPoint;
    ExponentFound(l);
    ZeroMantissa(l);
    if l.exponent.Some? {
      ExponentParsed(l);
    }
    var index := FirstOf(value, {'e', 'E'});
    if index >= 0 {
      mantissa := value[..index];
      if OnlyZerosAndPoint(mantissa) {
        zero := true;
      } else {
        exponent := ParseInt(value[index + 1..]);
      }
    }
  }

  method NormalizeNumber(text: string, ghost l: Literal) returns (r: Option<Normalized>)
    requires WellFormed(l) && text == Render(l)
    ensures r == NormalForm(l)
  {
    SignTrimmed(l);
    var negative, value := false, text;
    if text[0] == '-' {
      negative, value := true, text[1..];
    } else if text[0] == '+' {
      value := text[1..];
    }
    hide Render, Unsigned, Mantissa, ExponentText, FirstOf, NatOf, ParseInt, Digits;
    SignCut(l);
    var zero, mantissa, exponent := SplitExponent(value, l);
    if zero {
      return Some(ZERO);
    }
    var point, digits;
    digits, point := TakePoint(mantissa, l);
    DigitParts(l);
    var fractional := |digits| - point;
    if exponent.None? {
      return None;
    }
    digits := TrimZeros(digits);
    if digits == "" {
      return Some(ZERO);
    }
    if exponent.value < MIN_INT64 + fractional {
      return None;
    }
    var scale := exponent.value - fractional;
    var trimmed := TrimTrailingZeros(digits);
    if |digits| > |trimmed| && scale > MAX_INT64 - (|digits| - |trimmed|) {
      return None;
    }
    r := Some(Normalized(negative, trimmed, scale + (|digits| - |trimmed|)));
  }

  lemma SignCut(l: Literal)
    requires WellFormed(l)
    ensures Render(l) != ""
    ensures Unsigned(l) == if Render(l)[0] == '-' || Render(l)[0] == '+' then Render(l)[1..] else Render(l)
    ensures Render(l)[0] == '-' <==> l.sign == "-"
  {
    var u := Unsigned(l);
    assert u[0] == if l.whole != "" then l.whole[0] else '.';
    assert l.sign != "" ==> Render(l)[1..] == u;
    assert l.sign == "" ==> Render(l) == u;
  }
}
