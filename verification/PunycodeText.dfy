/**
  The texts of Punycode's encoder and decoder are those of RFC 3492: the encoder writes the one canonical text that
  denotes its input, and whatever the decoder reads denotes its output.
 */
module PunycodeText {
  import opened Arithmetic
  import opened Punycode
  import opened Wrappers
  import Rfc = Rfc3492

  // ----- The parts of a text -------------------------------------------------------------------

  lemma DigitIs(d: nat)
    requires d < BASE
    ensures Rfc.DigitOf(Digit(d)) == d && Rfc.Small([Digit(d)]) && Digit(d) != '-' as nat
  {}

  lemma DigitValueIs(c: nat)
    ensures Rfc.DigitOf(c) == if DigitValue(c).Some? then DigitValue(c).value else -1
  {}

  lemma ThresholdIs(k: nat, bias: nat)
    ensures Threshold(k, bias) == Rfc.Threshold(k, bias)
  {}

  lemma {:induction false} ScaledIs(delta: nat, k: nat)
    ensures Scaled(delta, k) == k + Rfc.Scaled(delta)
  {
    if delta > 455 {
      ScaledIs(delta / 35, k + 36);
    }
  }

  /** The bias adaptation is that of section 6.1. */
  lemma AdaptIs(delta: nat, points: nat, first: bool)
    requires points > 0
    ensures Adapt(delta, points, first) == Rfc.Bias(delta, points, first)
  {
    var part := if first then delta / 700 else delta / 2;
    ScaledIs(part + Div(part, points), 0);
  }

  lemma ValueOfMore(d: nat, rest: seq<nat>, k: nat, bias: nat)
    requires d < BASE && rest != [] && d >= Threshold(k, bias) && Rfc.Value(rest, k + BASE, bias) >= 0
    ensures Rfc.Value([Digit(d)] + rest, k, bias) == d + (BASE - Threshold(k, bias)) * Rfc.Value(rest, k + BASE, bias)
  {
    DigitIs(d);
    ThresholdIs(k, bias);
    assert ([Digit(d)] + rest)[1..] == rest;
  }

  lemma ValueOfLast(d: nat, k: nat, bias: nat)
    requires d < Threshold(k, bias)
    ensures Rfc.Value([Digit(d)], k, bias) == d
  {
    DigitIs(d);
    ThresholdIs(k, bias);
  }

  /** The digits of an integer have its value, in small letters. */
  lemma {:induction false} DigitsAre(q: nat, k: nat, bias: nat)
    ensures Digits(q, k, bias) != [] && Rfc.Value(Digits(q, k, bias), k, bias) == q
    ensures Rfc.Small(Digits(q, k, bias)) && '-' as nat !in Digits(q, k, bias)
    decreases q
  {
    hide Rfc.Value, Rfc.DigitOf, Digit, Low, High, Threshold;
    var t := Threshold(k, bias);
    if q < t {
      DigitIs(q);
      ValueOfLast(q, k, bias);
    } else {
      SplitDigit(q, t);
      DigitIs(Low(q, t));
      DigitsAre(High(q, t), k + BASE, bias);
      ValueOfMore(Low(q, t), Digits(High(q, t), k + BASE, bias), k, bias);
      SmallConcat([Digit(Low(q, t))], Digits(High(q, t), k + BASE, bias));
    }
  }

  lemma SmallConcat(a: seq<nat>, b: seq<nat>)
    requires Rfc.Small(a) && Rfc.Small(b)
    ensures Rfc.Small(a + b)
  {}

  /** The text of a list of deltas. */
  ghost function TextOf(deltas: seq<nat>, bias: nat, handled: nat, first: bool): seq<nat> {
    if deltas == [] then []
    else
      Digits(deltas[0], BASE, bias) + TextOf(deltas[1..], Adapt(deltas[0], handled + 1, first), handled + 1, false)
  }

  lemma {:induction false} TextIs(deltas: seq<nat>, bias: nat, handled: nat, first: bool)
    ensures var t := TextOf(deltas, bias, handled, first);
            Rfc.Integers(t, deltas, bias, handled, first) && Rfc.Small(t) && '-' as nat !in t
    decreases |deltas|
  {
    if deltas != [] {
      var digits, next := Digits(deltas[0], BASE, bias), Adapt(deltas[0], handled + 1, first);
      var rest := TextOf(deltas[1..], next, handled + 1, false);
      DigitsAre(deltas[0], BASE, bias);
      AdaptIs(deltas[0], handled + 1, first);
      TextIs(deltas[1..], next, handled + 1, false);
      SmallConcat(digits, rest);
      hide Rfc.Value, Rfc.Bias, Digits, Adapt, Rfc.Small;
      var t := TextOf(deltas, bias, handled, first);
      assert t[..|digits|] == digits && t[|digits|..] == rest;
    }
  }

  // ----- The encoder's deltas --------------------------------------------------------------------

  ghost function ScanDeltas(s: seq<nat>, n: nat, j: nat, delta: nat): seq<nat>
    requires j <= |s|
    decreases |s| - j
  {
    if j == |s| then []
    else if s[j] == n then [delta] + ScanDeltas(s, n, j + 1, 0)
    else ScanDeltas(s, n, j + 1, if s[j] < n then delta + 1 else delta)
  }

  ghost function EncodeDeltas(s: seq<nat>, n: nat, delta: nat, bias: nat, handled: nat, basic: nat): seq<nat>
    decreases MAX_RUNE + 1 - n
  {
    var m := NextRune(s, n);
    if handled >= |s| || m > MAX_RUNE then []
    else
      var start := delta + Turns(n, m, handled);
      var p := Scan(s, m, 0, start, bias, handled, basic);
      ScanDeltas(s, m, 0, start) + EncodeDeltas(s, m + 1, p.delta + 1, p.bias, p.handled, basic)
  }

  lemma TextUnfolds(delta: nat, deltas: seq<nat>, bias: nat, handled: nat, first: bool)
    ensures TextOf([delta] + deltas, bias, handled, first)
         == Digits(delta, BASE, bias) + TextOf(deltas, Adapt(delta, handled + 1, first), handled + 1, false)
  {
    assert ([delta] + deltas)[1..] == deltas;
  }

  /** What a pass writes is the text of its deltas. */
  lemma {:induction false} ScanText(s: seq<nat>, n: nat, j: nat, delta: nat, bias: nat, handled: nat, basic: nat,
                                    rest: seq<nat>)
    requires j <= |s| && basic <= handled
    ensures var p := Scan(s, n, j, delta, bias, handled, basic);
            basic <= p.handled &&
            TextOf(ScanDeltas(s, n, j, delta) + rest, bias, handled, handled == basic)
            == p.digits + TextOf(rest, p.bias, p.handled, p.handled == basic)
    decreases |s| - j
  {
    hide Adapt, Digits, TextOf;
    if j == |s| {
      assert [] + rest == rest;
    } else if s[j] == n {
      var next := Adapt(delta, handled + 1, handled == basic);
      var more := ScanDeltas(s, n, j + 1, 0) + rest;
      ScanText(s, n, j + 1, 0, next, handled + 1, basic, rest);
      assert ScanDeltas(s, n, j, delta) + rest == [delta] + more;
      TextUnfolds(delta, more, bias, handled, handled == basic);
    } else {
      ScanText(s, n, j + 1, if s[j] < n then delta + 1 else delta, bias, handled, basic, rest);
    }
  }

  lemma EncodeStep(s: seq<nat>, n: nat, delta: nat, bias: nat, handled: nat, basic: nat)
    requires handled < |s| && EncodeFrom(s, n, delta, bias, handled, basic).Some?
    ensures var m := NextRune(s, n);
            n <= m <= MAX_RUNE &&
            var start := delta + Turns(n, m, handled);
            var p := Scan(s, m, 0, start, bias, handled, basic);
            var rest := EncodeFrom(s, m + 1, p.delta + 1, p.bias, p.handled, basic);
            rest.Some? && EncodeFrom(s, n, delta, bias, handled, basic).value == p.digits + rest.value &&
            EncodeDeltas(s, n, delta, bias, handled, basic)
            == ScanDeltas(s, m, 0, start) + EncodeDeltas(s, m + 1, p.delta + 1, p.bias, p.handled, basic)
  {
    hide Scan, ScanDeltas, Turns;
  }

  lemma NothingToEncode(s: seq<nat>, n: nat, delta: nat, bias: nat, handled: nat, basic: nat)
    requires handled >= |s|
    ensures EncodeFrom(s, n, delta, bias, handled, basic) == Some([])
    ensures EncodeDeltas(s, n, delta, bias, handled, basic) == [] && TextOf([], bias, handled, handled == basic) == []
  {}

  lemma {:induction false} EncodeText(s: seq<nat>, n: nat, delta: nat, bias: nat, handled: nat, basic: nat)
    requires basic <= handled && EncodeFrom(s, n, delta, bias, handled, basic).Some?
    ensures EncodeFrom(s, n, delta, bias, handled, basic).value
         == TextOf(EncodeDeltas(s, n, delta, bias, handled, basic), bias, handled, handled == basic)
    decreases MAX_RUNE + 1 - n
  {
    hide *;
    if handled < |s| {
      EncodeStep(s, n, delta, bias, handled, basic);
      var m := NextRune(s, n);
      var start := delta + Turns(n, m, handled);
      var p := Scan(s, m, 0, start, bias, handled, basic);
      ScanText(s, m, 0, start, bias, handled, basic, EncodeDeltas(s, m + 1, p.delta + 1, p.bias, p.handled, basic));
      EncodeText(s, m + 1, p.delta + 1, p.bias, p.handled, basic);
    } else {
      NothingToEncode(s, n, delta, bias, handled, basic);
    }
  }

  // ----- The deltas insert the input ------------------------------------------------------------------

  lemma InsertionStep(output: seq<nat>, n: nat, i: nat, delta: nat, rest: seq<nat>, next: seq<nat>, m: nat, place: nat)
    requires place <= |output| && next == Insert(output, place, m) && n <= m
    requires Div(i + delta, |output| + 1) == m - n && Mod(i + delta, |output| + 1) == place
    ensures Rfc.Insertions(output, n, i, [delta] + rest) == Rfc.Insertions(next, m, place + 1, rest)
  {
    SameDivision(i + delta, |output| + 1);
    hide Div, Mod, Rfc.Quotient, Rfc.Remainder, Rfc.Insertions;
    Rfc.InsertionsUnfold(output, n, i, delta, rest);
  }

  lemma SameDivision(a: nat, b: nat)
    requires b > 0
    ensures Div(a, b) == Rfc.Quotient(a, b) && Mod(a, b) == Rfc.Remainder(a, b)
  {}

  /** A pass inserts the code points that it writes. */
  lemma {:induction false} ScanInserts(s: seq<nat>, n: nat, j: nat, delta: nat, bias: nat, handled: nat, basic: nat,
                                       at: Stand, rest: seq<nat>)
    requires ValidRunes(s) && |s| <= MAX_BYTES && j <= |s| && InStep(s, n, j, delta, handled, basic, at)
    ensures var p := Scan(s, n, j, delta, bias, handled, basic);
            var end := ScanStand(s, n, j, delta, bias, handled, basic, at);
            InStep(s, n, |s|, p.delta, p.handled, basic, end) &&
            Rfc.Insertions(Written(s, n, j), at.n, at.i, ScanDeltas(s, n, j, delta) + rest)
            == Rfc.Insertions(Written(s, n, |s|), end.n, end.i, rest)
    decreases |s| - j
  {
    hide Keep, Written, InStep, Adapt, Digits, WeightFits, ValidRunes, Rfc.Insertions;
    if j == |s| {
      assert [] + rest == rest;
    } else if s[j] == n {
      var fits := at.fits && at.i + delta <= MAX_INT && WeightFits(delta, 1, BASE, bias);
      var more := ScanDeltas(s, n, j + 1, 0) + rest;
      EmitPlace(s, n, j, delta, handled, basic, at);
      EmitKeepsStep(s, n, j, delta, handled, basic, at, fits);
      InsertionStep(Written(s, n, j), at.n, at.i, delta, more, Written(s, n, j + 1), n, Placed(s, n, j));
      ScanInserts(s, n, j + 1, 0, Adapt(delta, handled + 1, handled == basic), handled + 1, basic,
                  Stand(fits, n, Placed(s, n, j) + 1), rest);
      assert ScanDeltas(s, n, j, delta) + rest == [delta] + more;
    } else {
      SkipKeepsStep(s, n, j, delta, handled, basic, at);
      ScanInserts(s, n, j + 1, if s[j] < n then delta + 1 else delta, bias, handled, basic, at, rest);
    }
  }

  lemma AllInserted(s: seq<nat>, n: nat, delta: nat, handled: nat, basic: nat, at: Stand)
    requires handled >= |s| && InStep(s, n, 0, delta, handled, basic, at)
    ensures Rfc.Insertions(Written(s, n, 0), at.n, at.i, []) == s
  {
    KeepLength(s, n, 0, |s|);
    assert s[..|s|] == s;
  }

  lemma {:induction false} EncodeInserts(s: seq<nat>, n: nat, delta: nat, bias: nat, handled: nat, basic: nat,
                                         at: Stand)
    requires ValidRunes(s) && |s| <= MAX_BYTES && InStep(s, n, 0, delta, handled, basic, at)
    requires EncodeFrom(s, n, delta, bias, handled, basic).Some?
    ensures Rfc.Insertions(Written(s, n, 0), at.n, at.i, EncodeDeltas(s, n, delta, bias, handled, basic)) == s
    decreases MAX_RUNE + 1 - n
  {
    hide *;
    if handled < |s| {
      EncodeStep(s, n, delta, bias, handled, basic);
      EncodeUnfolds(s, n, delta, bias, handled, basic, at);
      var m := NextRune(s, n);
      var start := delta + Turns(n, m, handled);
      var p := Scan(s, m, 0, start, bias, handled, basic);
      var end := ScanStand(s, m, 0, start, bias, handled, basic, at);
      JumpKeepsStep(s, n, m, delta, handled, basic, at);
      ScanInserts(s, m, 0, start, bias, handled, basic, at,
                  EncodeDeltas(s, m + 1, p.delta + 1, p.bias, p.handled, basic));
      PassEndKeepsStep(s, m, p.delta, p.handled, basic, end);
      EncodeInserts(s, m + 1, p.delta + 1, p.bias, p.handled, basic, end);
    } else {
      NothingToEncode(s, n, delta, bias, handled, basic);
      AllInserted(s, n, delta, handled, basic, at);
    }
  }

  /** The encoder's text denotes its input, and has the canonical form. */
  lemma EncodedTextDenotes(s: seq<nat>)
    requires Encode(s).Some?
    ensures Rfc.Denotes(Encode(s).value, s) && Rfc.Canonical(Encode(s).value)
  {
    var basic := Basic(s);
    EncodeForm(s);
    StartsInStep(s);
    BasicIsAscii(s);
    hide Encode, EncodeFrom, EncodeDeltas, InStep, Written, ValidRunes, Rfc.Insertions, Rfc.Integers, Rfc.Small, Basic;
    var deltas := EncodeDeltas(s, INITIAL_N, 0, INITIAL_BIAS, |basic|, |basic|);
    EncodeText(s, INITIAL_N, 0, INITIAL_BIAS, |basic|, |basic|);
    EncodeInserts(s, INITIAL_N, 0, INITIAL_BIAS, |basic|, |basic|, Stand(true, INITIAL_N, 0));
    TextIs(deltas, INITIAL_BIAS, |basic|, true);
    var integers := Integers(s).value;
    TextDenotes(Encode(s).value, s, basic, integers, deltas);
  }

  lemma TextDenotes(t: seq<nat>, s: seq<nat>, basic: seq<nat>, integers: seq<nat>, deltas: seq<nat>)
    requires (forall k :: 0 <= k < |basic| ==> basic[k] < 0x80) && '-' as nat !in integers && Rfc.Small(integers)
    requires t == (basic + if basic == [] then [] else [HYPHEN]) + integers
    requires Rfc.Integers(integers, deltas, INITIAL_BIAS, |basic|, true)
    requires Rfc.Insertions(basic, INITIAL_N, 0, deltas) == s
    ensures Rfc.Denotes(t, s) && Rfc.Canonical(t)
  {
    hide Rfc.Integers, Rfc.Insertions, Rfc.Small;
    assert basic == [] ==> t == integers;
    assert Rfc.Parts(t, basic, integers) && Rfc.CanonicalParts(t, basic, integers);
  }

  /** The encoder's text is the only one in canonical form that denotes the input under RFC 3492. */
  lemma OnlyText(s: seq<nat>, t: seq<nat>)
    requires Encode(s).Some?
    ensures Rfc.Canonical(t) && Rfc.Denotes(t, s) <==> t == Encode(s).value
  {
    hide *;
    EncodedTextDenotes(s);
    if Rfc.Canonical(t) && Rfc.Denotes(t, s) {
      Rfc.OneText(t, Encode(s).value, s);
    }
  }

  // ----- The decoder ------------------------------------------------------------------------------------

  lemma ValueOfText(t: seq<nat>, k: nat, bias: nat, d: nat)
    requires t != [] && DigitValue(t[0]) == Some(d)
    ensures |t| == 1 && d < Threshold(k, bias) ==> Rfc.Value(t, k, bias) == d
    ensures |t| > 1 && d >= Threshold(k, bias) && Rfc.Value(t[1..], k + BASE, bias) >= 0 ==>
              Rfc.Value(t, k, bias) == d + (BASE - Threshold(k, bias)) * Rfc.Value(t[1..], k + BASE, bias)
  {
    DigitValueIs(t[0]);
    ThresholdIs(k, bias);
  }

  lemma Weighted(d: nat, b: nat, w: nat, high: nat)
    ensures (d + b * high) * w == d * w + high * (w * b)
  {
    SplitWeight(d + b * high, w, b, d, high);
  }

  lemma ReadOnwards(input: seq<nat>, position: nat, i: nat, w: nat, k: nat, bias: nat) returns (d: nat, more: bool)
    requires w >= 1 && i <= MAX_INT && ReadDigits(input, position, i, w, k, bias).Some?
    ensures position < |input| && DigitValue(input[position]) == Some(d) && (more <==> d >= Threshold(k, bias))
    ensures !more ==> ReadDigits(input, position, i, w, k, bias) == Some((position + 1, i + d * w))
    ensures more ==> w * (BASE - Threshold(k, bias)) >= 1 && 0 <= i + d * w <= MAX_INT
    ensures more ==>
              ReadDigits(input, position, i, w, k, bias)
              == ReadDigits(input, position + 1, i + d * w, w * (BASE - Threshold(k, bias)), k + BASE, bias)
  {
    d := DigitValue(input[position]).value;
    more := d >= Threshold(k, bias);
    FitsIffNoOverflow(d, i, w);
    Product(d, w);
    ScaleBounds(1, w, BASE - Threshold(k, bias));
    hide DigitValue, Threshold;
  }

  /** The decoder's limits: integers in 31 bits, valid code points, and no more than 65536 of them. */
  ghost predicate Within(points: nat, n: nat, i: nat, deltas: seq<nat>)
    decreases |deltas|
  {
    if deltas == [] then true
    else
      var r := n + Rfc.Quotient(i + deltas[0], points + 1);
      i + deltas[0] <= 0x7FFF_FFFF && r <= 0x10FFFF && !(0xD800 <= r <= 0xDFFF) && points < 65536 &&
      Within(points + 1, r, Rfc.Remainder(i + deltas[0], points + 1) + 1, deltas[1..])
  }

  lemma NoLimit(points: nat, n: nat, i: nat)
    ensures Within(points, n, i, [])
  {}

  lemma WithinStep(points: nat, n: nat, i: nat, delta: nat, rest: seq<nat>, r: nat, place: nat)
    requires r == n + Div(i + delta, points + 1) && place == Mod(i + delta, points + 1)
    requires i + delta <= MAX_INT && r <= MAX_RUNE && !Surrogate(r) && points < MAX_BYTES
    requires Within(points + 1, r, place + 1, rest)
    ensures Within(points, n, i, [delta] + rest)
  {
    SameDivision(i + delta, points + 1);
    hide Rfc.Quotient, Rfc.Remainder, Div, Mod;
    assert ([delta] + rest)[1..] == rest;
  }

  /** What the decoder reads is an integer in the sense of the standard. */
  lemma {:induction false} ReadIsValue(input: seq<nat>, position: nat, i: nat, w: nat, k: nat, bias: nat)
    requires w >= 1 && i <= MAX_INT && ReadDigits(input, position, i, w, k, bias).Some?
    ensures var (next, x) := ReadDigits(input, position, i, w, k, bias).value;
            var q := Rfc.Value(input[position..next], k, bias);
            q >= 0 && x == i + q * w
    decreases |input| - position
  {
    hide ReadDigits, DigitValue, Threshold, Rfc.Value;
    var d, more := ReadOnwards(input, position, i, w, k, bias);
    var (next, x) := ReadDigits(input, position, i, w, k, bias).value;
    var t, b := input[position..next], BASE - Threshold(k, bias);
    ValueOfText(t, k, bias, d);
    if more {
      ReadIsValue(input, position + 1, i + d * w, w * b, k + BASE, bias);
      assert t[1..] == input[position + 1..next];
      var high := Rfc.Value(t[1..], k + BASE, bias);
      Weighted(d, b, w, high);
      Product(b, high);
    }
  }

  lemma DecodeStep(input: seq<nat>, position: nat, output: seq<nat>, n: nat, i: nat, bias: nat)
    returns (next: nat, x: nat, place: nat, r: nat)
    requires i <= MAX_INT && position < |input| && DecodeFrom(input, position, output, n, i, bias).Some?
    ensures ReadDigits(input, position, i, 1, BASE, bias) == Some((next, x))
    ensures r == n + Div(x, |output| + 1) && place == Mod(x, |output| + 1) && place + 1 <= MAX_INT
    ensures i <= x <= MAX_INT && position < next <= |input| && place <= |output|
    ensures r <= MAX_RUNE && !Surrogate(r) && |output| < MAX_BYTES
    ensures DecodeFrom(input, position, output, n, i, bias)
         == DecodeFrom(input, next, Insert(output, place, r), r, place + 1, Adapt(x - i, |output| + 1, i == 0))
  {
    var read := ReadDigits(input, position, i, 1, BASE, bias).value;
    next, x := read.0, read.1;
    r, place := n + Div(x, |output| + 1), Mod(x, |output| + 1);
    hide ReadDigits, Adapt, Insert, Div, Mod;
  }

  /** The decoder follows section 6.2: the deltas that it has read give its output. */
  lemma {:induction false} DecodeReads(input: seq<nat>, position: nat, output: seq<nat>, n: nat, i: nat, bias: nat)
    returns (deltas: seq<nat>)
    requires i <= MAX_INT && position <= |input| && DecodeFrom(input, position, output, n, i, bias).Some?
    ensures Rfc.Integers(input[position..], deltas, bias, |output|, i == 0)
    ensures Rfc.Insertions(output, n, i, deltas) == DecodeFrom(input, position, output, n, i, bias).value
    ensures Within(|output|, n, i, deltas)
    decreases |input| - position
  {
    hide ReadDigits, Adapt, DecodeFrom, Insert, Div, Mod, Rfc.Value, Rfc.Bias, Rfc.Integers, Rfc.Insertions, Within;
    if position == |input| {
      NothingToRead(input, output, n, i, bias);
      deltas := [];
      NoLimit(|output|, n, i);
      return;
    }
    var next, x, place, r := DecodeStep(input, position, output, n, i, bias);
    ReadIsValue(input, position, i, 1, BASE, bias);
    AdaptIs(x - i, |output| + 1, i == 0);
    InsertLength(output, place, r);
    var rest := DecodeReads(input, next, Insert(output, place, r), r, place + 1, Adapt(x - i, |output| + 1, i == 0));
    deltas := [x - i] + rest;
    WithinStep(|output|, n, i, x - i, rest, r, place);
    InsertionStep(output, n, i, x - i, rest, Insert(output, place, r), r, place);
    Slices(input, position, next);
    IntegersStep(input[position..], next - position, input[next..], x - i, rest, bias, |output|, i == 0);
  }

  lemma NothingToRead(input: seq<nat>, output: seq<nat>, n: nat, i: nat, bias: nat)
    requires i <= MAX_INT
    ensures Rfc.Integers(input[|input|..], [], bias, |output|, i == 0)
    ensures DecodeFrom(input, |input|, output, n, i, bias) == Some(Rfc.Insertions(output, n, i, []))
  {}

  lemma Slices(input: seq<nat>, position: nat, next: nat)
    requires position <= next <= |input|
    ensures input[position..][..next - position] == input[position..next]
    ensures input[position..][next - position..] == input[next..]
  {}

  lemma InsertLength(output: seq<nat>, place: nat, r: nat)
    requires place <= |output|
    ensures |Insert(output, place, r)| == |output| + 1
  {}

  lemma IntegersStep(t: seq<nat>, m: nat, rest: seq<nat>, delta: nat, deltas: seq<nat>, bias: nat, points: nat,
                     first: bool)
    requires 0 < m <= |t| && t[m..] == rest && Rfc.Value(t[..m], BASE, bias) == delta
    requires Rfc.Integers(rest, deltas, Rfc.Bias(delta, points + 1, first), points + 1, false)
    ensures Rfc.Integers(t, [delta] + deltas, bias, points, first)
  {
    assert ([delta] + deltas)[1..] == deltas;
  }

  // ----- What the decoder accepts ------------------------------------------------------------------------

  /** An integer of the standard is read up to its end, unless it or a weight leaves 31 bits. */
  lemma {:induction false} ReadsInteger(input: seq<nat>, position: nat, next: nat, i: nat, w: nat, k: nat, bias: nat,
                                        q: nat)
    requires w >= 1 && i <= MAX_INT && position < next <= |input| && q == Rfc.Value(input[position..next], k, bias)
    requires i + q * w <= MAX_INT && WeightFits(q, w, k, bias)
    ensures ReadDigits(input, position, i, w, k, bias) == Some((next, i + q * w))
    decreases next - position
  {
    hide ReadDigits, DigitValue, Threshold, Rfc.Value, Rfc.Threshold, Rfc.DigitOf, Low, High;
    var t := input[position..next];
    Rfc.ValueSplits(t, k, bias);
    DigitValueIs(t[0]);
    Rfc.DigitBelow(t[0]);
    ThresholdIs(k, bias);
    var d := DigitValue(input[position]).value;
    ReadOneDigit(input, position, i, w, k, bias, d);
    if |t| > 1 {
      var threshold := Threshold(k, bias);
      var b, high := BASE - threshold, Rfc.Value(t[1..], k + BASE, bias);
      SplitDigit(q, threshold);
      Rfc.SplitUnique(b, d, Low(q, threshold), high, High(q, threshold));
      SplitWeight(q, w, b, d, high);
      Product(high, w * b);
      assert t[1..] == input[position + 1..next];
      ReadsInteger(input, position + 1, next, i + d * w, w * b, k + BASE, bias, high);
    }
  }

  lemma WithinUnfolds(points: nat, n: nat, i: nat, deltas: seq<nat>)
    requires deltas != [] && Within(points, n, i, deltas)
    ensures var r, place := n + Div(i + deltas[0], points + 1), Mod(i + deltas[0], points + 1);
            (i + deltas[0] <= MAX_INT && r <= MAX_RUNE && !Surrogate(r) && points < MAX_BYTES && place <= points &&
             Within(points + 1, r, place + 1, deltas[1..]))
  {
    SameDivision(i + deltas[0], points + 1);
    hide Rfc.Quotient, Div, Mod;
  }

  lemma AcceptStep(input: seq<nat>, position: nat, output: seq<nat>, n: nat, i: nat, bias: nat, next: nat, x: nat)
    requires i <= x <= MAX_INT && n <= MAX_RUNE && position < |input|
    requires ReadDigits(input, position, i, 1, BASE, bias) == Some((next, x))
    requires var r := n + Div(x, |output| + 1); r <= MAX_RUNE && !Surrogate(r) && |output| < MAX_BYTES
    ensures var r, place := n + Div(x, |output| + 1), Mod(x, |output| + 1);
            (place <= |output| && place + 1 <= MAX_INT &&
             DecodeFrom(input, position, output, n, i, bias)
             == DecodeFrom(input, next, Insert(output, place, r), r, place + 1, Adapt(x - i, |output| + 1, i == 0)))
  {
    hide ReadDigits, Adapt, Insert, Div, Mod;
  }

  lemma {:induction false} DecodesIntegers(input: seq<nat>, position: nat, output: seq<nat>, n: nat, i: nat, bias: nat,
                                           deltas: seq<nat>)
    requires i <= MAX_INT && position <= |input| && n <= MAX_RUNE && bias <= MAX_BIAS
    requires Rfc.Integers(input[position..], deltas, bias, |output|, i == 0) && Within(|output|, n, i, deltas)
    ensures DecodeFrom(input, position, output, n, i, bias) == Some(Rfc.Insertions(output, n, i, deltas))
    decreases |deltas|
  {
    hide ReadDigits, DecodeFrom, Adapt, Insert, Div, Mod, Within, WeightFits, Surrogate;
    hide Rfc.Value, Rfc.Bias, Rfc.Integers, Rfc.Insertions;
    if deltas == [] {
      Rfc.NoText(input[position..], bias, |output|, i == 0);
      Suffix(input, position);
      NothingToRead(input, output, n, i, bias);
      return;
    }
    var m := Rfc.FirstInteger(input[position..], deltas, bias, |output|, i == 0);
    var next, delta := position + m, deltas[0];
    Slices(input, position, next);
    WithinUnfolds(|output|, n, i, deltas);
    WeightGuardNeverFires(delta, bias);
    ReadsInteger(input, position, next, i, 1, BASE, bias, delta);
    AcceptStep(input, position, output, n, i, bias, next, i + delta);
    AdaptIs(delta, |output| + 1, i == 0);
    AdaptBounded(delta, |output| + 1, i == 0);
    var r, place := n + Div(i + delta, |output| + 1), Mod(i + delta, |output| + 1);
    InsertLength(output, place, r);
    DecodesIntegers(input, next, Insert(output, place, r), r, place + 1, Adapt(delta, |output| + 1, i == 0),
                    deltas[1..]);
    InsertionStep(output, n, i, delta, deltas[1..], Insert(output, place, r), r, place);
    assert [delta] + deltas[1..] == deltas;
  }

  lemma Suffix(input: seq<nat>, position: nat)
    requires position <= |input| && input[position..] == []
    ensures position == |input|
  {
    assert |input[position..]| == |input| - position;
  }

  /** The text t denotes the string s, and keeps to the decoder's limits on the way. */
  ghost predicate DenotesWithin(t: seq<nat>, s: seq<nat>) {
    exists basic, integers, deltas ::
      Rfc.Parts(t, basic, integers) && Reads(basic, integers, deltas, s)
  }

  ghost predicate Reads(basic: seq<nat>, integers: seq<nat>, deltas: seq<nat>, s: seq<nat>) {
    Rfc.Integers(integers, deltas, 72, |basic|, true) && Rfc.Insertions(basic, 128, 0, deltas) == s &&
    Within(|basic|, 128, 0, deltas)
  }

  /** The part of a text behind its last hyphen. */
  function Tail(t: seq<nat>): (position: nat)
    ensures position <= |t|
  {
    LastHyphenIs(t);
    LastHyphen(t) + 1
  }

  function Head(t: seq<nat>): seq<nat> {
    if Tail(t) == 0 then [] else t[..Tail(t) - 1]
  }

  lemma DecodeUnfolds(t: seq<nat>)
    requires |t| <= MAX_BYTES && forall k :: 0 <= k < |t| ==> t[k] < 0x80
    ensures Decode(t) == DecodeFrom(t, Tail(t), Head(t), INITIAL_N, 0, INITIAL_BIAS)
  {
    LastHyphenIs(t);
    hide LastHyphen, DecodeFrom;
  }

  lemma HeadAndTail(t: seq<nat>)
    requires forall k :: 0 <= k < |t| ==> t[k] < 0x80
    ensures Rfc.Parts(t, Head(t), t[Tail(t)..])
  {
    LastHyphenIs(t);
    hide LastHyphen;
    if Tail(t) > 0 {
      assert t == Head(t) + [HYPHEN] + t[Tail(t)..];
    } else {
      assert t[0..] == t;
    }
  }

  lemma PartsAre(t: seq<nat>, basic: seq<nat>, integers: seq<nat>)
    requires Rfc.Parts(t, basic, integers)
    ensures basic == Head(t) && integers == t[Tail(t)..]
  {
    LastHyphenIs(t);
    hide LastHyphen;
    if HYPHEN in t {
      Rfc.LastHyphen(t, basic, integers);
    } else {
      Rfc.NoHyphen(t, basic, integers);
      assert t[0..] == t;
    }
  }

  /**
    The decoder reads the standard: it gives s exactly for the ASCII texts of at most 65536 bytes that denote s and keep
    to its limits.
   */
  lemma DecodesIff(t: seq<nat>, s: seq<nat>)
    ensures Decode(t) == Some(s) <==>
            |t| <= 65536 && (forall k :: 0 <= k < |t| ==> t[k] < 128) && DenotesWithin(t, s)
  {
    if |t| <= 65536 && (forall k :: 0 <= k < |t| ==> t[k] < 128) {
      DecodeUnfolds(t);
      HeadAndTail(t);
      hide Decode, DecodeFrom, Head, Tail, Rfc.Parts, Rfc.Integers, Rfc.Insertions, Within;
      if Decode(t) == Some(s) {
        var deltas := DecodeReads(t, Tail(t), Head(t), INITIAL_N, 0, INITIAL_BIAS);
        assert Reads(Head(t), t[Tail(t)..], deltas, s);
      }
      if DenotesWithin(t, s) {
        var basic, integers, deltas :| Rfc.Parts(t, basic, integers) && Reads(basic, integers, deltas, s);
        PartsAre(t, basic, integers);
        DecodesIntegers(t, Tail(t), Head(t), INITIAL_N, 0, INITIAL_BIAS, deltas);
      }
    } else {
      hide DecodeFrom, LastHyphen, DenotesWithin;
    }
  }

  /** Whatever the decoder returns, its input denotes it under RFC 3492. */
  lemma DecodedTextDenotes(t: seq<nat>)
    requires Decode(t).Some?
    ensures Rfc.Denotes(t, Decode(t).value)
  {
    hide Decode, Rfc.Parts, Rfc.Integers, Rfc.Insertions, Within;
    var s := Decode(t).value;
    DecodesIff(t, s);
    var basic, integers, deltas :| Rfc.Parts(t, basic, integers) && Reads(basic, integers, deltas, s);
  }

  lemma {:induction false} LastHyphenIs(t: seq<nat>)
    ensures -1 <= LastHyphen(t) < |t| && (LastHyphen(t) >= 0 ==> t[LastHyphen(t)] == HYPHEN)
    ensures forall k :: LastHyphen(t) < k < |t| ==> t[k] != HYPHEN
  {
    if t != [] && t[|t| - 1] != HYPHEN {
      LastHyphenIs(t[..|t| - 1]);
    }
  }

  /** The other round trip: what was decoded from a canonical text is encoded into the same text, if at all. */
  lemma EncodeInvertsDecode(t: seq<nat>)
    requires Rfc.Canonical(t) && Decode(t).Some? && Encode(Decode(t).value).Some?
    ensures Encode(Decode(t).value).value == t
  {
    hide *;
    DecodedTextDenotes(t);
    OnlyText(Decode(t).value, t);
  }

  // ----- Two texts ----------------------------------------------------------------------------------------

  /** A text of characters as code points. */
  function Codes(text: string): seq<nat> {
    seq(|text|, i requires 0 <= i < |text| => text[i] as nat)
  }

  lemma DigitsOf25957()
    ensures Digits(25957, BASE, INITIAL_BIAS) == Codes("wgv") && Adapt(25957, 1, true) == 23
  {
    assert Digits(21, 108, 72) == [118];
    assert Digits(741, 72, 72) == [103] + Digits(21, 108, 72);
    assert Scaled(74, 0) == 23;
  }

  lemma DigitsOf654()
    ensures Digits(654, BASE, 23) == Codes("71a")
  {
    assert Digits(0, 108, 23) == [97];
    assert Digits(27, 72, 23) == [49] + Digits(0, 108, 23);
  }

  lemma OnePass(s: seq<nat>, n: nat, delta: nat, bias: nat, handled: nat, basic: nat, m: nat, start: nat, p: Pass)
    requires handled < |s| && m == NextRune(s, n) && n <= m <= MAX_RUNE
    requires start == delta + (m - n) * (handled + 1) <= MAX_INT
    requires p == Scan(s, m, 0, start, bias, handled, basic)
    ensures EncodeFrom(s, n, delta, bias, handled, basic)
         == Prepend(p.digits, EncodeFrom(s, m + 1, p.delta + 1, p.bias, p.handled, basic))
  {
    hide Scan;
  }

  lemma ScanUnfolds(s: seq<nat>, n: nat, j: nat, delta: nat, bias: nat, handled: nat, basic: nat)
    requires j < |s|
    ensures Scan(s, n, j, delta, bias, handled, basic)
         == if s[j] == n then
              var rest := Scan(s, n, j + 1, 0, Adapt(delta, handled + 1, handled == basic), handled + 1, basic);
              rest.(digits := Digits(delta, BASE, bias) + rest.digits)
            else Scan(s, n, j + 1, if s[j] < n then delta + 1 else delta, bias, handled, basic)
  {
    hide Adapt, Digits;
  }

  lemma ScanEnds(s: seq<nat>, n: nat, delta: nat, bias: nat, handled: nat, basic: nat)
    ensures Scan(s, n, |s|, delta, bias, handled, basic) == Pass([], delta, bias, handled)
  {}

  lemma FirstPass(s: seq<nat>)
    requires s == [0x65E5, 0x672C]
    ensures Scan(s, 0x65E5, 0, 25957, INITIAL_BIAS, 0, 0) == Pass(Codes("wgv"), 0, 23, 1)
  {
    DigitsOf25957();
    hide Scan, Digits, Adapt;
    ScanUnfolds(s, 0x65E5, 0, 25957, INITIAL_BIAS, 0, 0);
    ScanUnfolds(s, 0x65E5, 1, 0, 23, 1, 0);
    ScanEnds(s, 0x65E5, 0, 23, 1, 0);
    assert Codes("wgv") + [] == Codes("wgv");
  }

  lemma SecondPass(s: seq<nat>)
    requires s == [0x65E5, 0x672C]
    ensures Scan(s, 0x672C, 0, 653, 23, 1, 0) == Pass(Codes("71a"), 0, Adapt(654, 2, false), 2)
  {
    DigitsOf654();
    hide Scan, Digits, Adapt;
    ScanUnfolds(s, 0x672C, 0, 653, 23, 1, 0);
    ScanUnfolds(s, 0x672C, 1, 654, 23, 1, 0);
    ScanEnds(s, 0x672C, 0, Adapt(654, 2, false), 2, 0);
    assert Codes("71a") + [] == Codes("71a");
  }

  lemma {:induction false} NoBasic(s: seq<nat>)
    requires forall k :: 0 <= k < |s| ==> s[k] >= 0x80
    ensures Basic(s) == []
  {
    if s != [] {
      NoBasic(s[..|s| - 1]);
    }
  }

  lemma NextRunes(s: seq<nat>)
    requires s == [0x65E5, 0x672C]
    ensures NextRune(s, INITIAL_N) == 0x65E5 && NextRune(s, 0x65E6) == 0x672C
  {
    assert s[1..] == [0x672C] && s[1..][1..] == [];
  }

  lemma IntegersOfTwo(s: seq<nat>)
    requires s == [0x65E5, 0x672C]
    ensures EncodeFrom(s, INITIAL_N, 0, INITIAL_BIAS, 0, 0) == Some(Codes("wgv71a"))
  {
    NextRunes(s);
    FirstPass(s);
    SecondPass(s);
    hide Scan, Digits, Adapt, NextRune, EncodeFrom, Prepend, Codes;
    OnePass(s, INITIAL_N, 0, INITIAL_BIAS, 0, 0, 0x65E5, 25957, Pass(Codes("wgv"), 0, 23, 1));
    OnePass(s, 0x65E6, 1, 23, 1, 0, 0x672C, 653, Pass(Codes("71a"), 0, Adapt(654, 2, false), 2));
    NothingToEncode(s, 0x672D, 1, Adapt(654, 2, false), 2, 0);
    PrependSome(Codes("71a"), Some([]));
    PrependSome(Codes("wgv"), Some(Codes("71a") + []));
    SixCodes();
  }

  lemma SixCodes()
    ensures Codes("wgv") + (Codes("71a") + []) == Codes("wgv71a")
  {}

  lemma WithoutBasic(s: seq<nat>, t: seq<nat>)
    requires ValidRunes(s) && |s| <= SHORT && forall k :: 0 <= k < |s| ==> s[k] >= 0x80
    requires EncodeFrom(s, INITIAL_N, 0, INITIAL_BIAS, 0, 0) == Some(t)
    ensures Encode(s) == Some(t) && Decode(t) == Some(s)
  {
    hide Encode, Decode, EncodeFrom, ValidRunes;
    ShortRoundTrip(s);
    EncodeForm(s);
    NoBasic(s);
    assert [] + t == t;
  }

  /** The code points U+65E5 and U+672C. */
  lemma EncodesTwoRunes()
    ensures Encode([0x65E5, 0x672C]) == Some(Codes("wgv71a"))
    ensures Decode(Codes("wgv71a")) == Some([0x65E5, 0x672C])
  {
    hide Encode, Decode, EncodeFrom, Codes;
    IntegersOfTwo([0x65E5, 0x672C]);
    WithoutBasic([0x65E5, 0x672C], Codes("wgv71a"));
  }
}
