/**
  Punycode (RFC 3492) as internal/database/kql_punycode.go implements it, over code points.

  The encoder and the decoder are methods, proved equal to the functions Encode and Decode.
  The theorems are about those functions: what the encoder writes, the decoder either reads
  back exactly or refuses, and it refuses exactly when one of its guards fires.
 */
module Punycode {
  import opened Arithmetic
  import opened Limits
  import opened Wrappers
  import Utf8

  const BASE := 36
  const T_MIN := 1
  const T_MAX := 26
  const SKEW := 38
  const DAMP := 700
  const INITIAL_BIAS := 72
  const INITIAL_N := 128
  const MAX_BYTES := 65536
  const MAX_INT := 0x7FFF_FFFF
  const MAX_RUNE := Utf8.MAX_RUNE
  const HYPHEN := 45

  predicate Surrogate(r: nat) {
    0xD800 <= r <= 0xDFFF
  }

  /** The code points a valid UTF-8 string can hold. */
  predicate ValidRunes(s: seq<nat>) {
    forall i :: 0 <= i < |s| ==> s[i] <= MAX_RUNE && !Surrogate(s[i])
  }

  function Utf8Length(s: seq<nat>): nat {
    |Utf8.EncodeAll(s)|
  }

  // ----- Bias adaptation (section 6.1) and digits ---------------------------------------

  function Scaled(delta: nat, k: nat): nat {
    if delta > (BASE - T_MIN) * T_MAX / 2 then Scaled(delta / (BASE - T_MIN), k + BASE)
    else k + (BASE - T_MIN + 1) * delta / (delta + SKEW)
  }

  function Adapt(delta: nat, points: nat, first: bool): nat
    requires points > 0
  {
    var halved := if first then delta / DAMP else delta / 2;
    Scaled(halved + Div(halved, points), 0)
  }

  function Threshold(k: nat, bias: nat): (t: nat)
    ensures T_MIN <= t <= T_MAX
  {
    if k <= bias then T_MIN else if k >= bias + T_MAX then T_MAX else k - bias
  }

  function Digit(d: nat): nat
    requires d < BASE
  {
    if d < 26 then 97 + d else 48 + (d - 26)
  }

  function DigitValue(c: nat): Option<nat> {
    if 97 <= c <= 122 then Some(c - 97)
    else if 65 <= c <= 90 then Some(c - 65)
    else if 48 <= c <= 57 then Some(c - 48 + 26)
    else None
  }

  /** The digit written for q under threshold t when more digits follow, and what is left of q. */
  function Low(q: nat, t: nat): nat
    requires T_MIN <= t <= T_MAX && t <= q
  {
    t + (q - t) % (BASE - t)
  }

  function High(q: nat, t: nat): nat
    requires T_MIN <= t <= T_MAX && t <= q
  {
    (q - t) / (BASE - t)
  }

  /** A generalized variable-length integer: q under the thresholds from k on. */
  function Digits(q: nat, k: nat, bias: nat): seq<nat>
    decreases q
  {
    var t := Threshold(k, bias);
    if q < t then [Digit(q)]
    else
      SplitDigit(q, t);
      [Digit(Low(q, t))] + Digits(High(q, t), k + BASE, bias)
  }

  lemma SplitDigit(q: nat, t: nat)
    requires T_MIN <= t <= T_MAX && t <= q
    ensures t <= Low(q, t) < BASE
    ensures q == Low(q, t) + (BASE - t) * High(q, t)
    ensures High(q, t) < q && High(q, t) <= q / 10
  {
    var b, d := BASE - t, High(q, t);
    assert (q - t) % b + b * d == q - t;
    Grows(d, b - 10);
  }

  lemma Grows(a: nat, b: nat)
    ensures 10 * a <= (b + 10) * a
  {
    assert (b + 10) * a == b * a + 10 * a;
  }

  // ----- Encoding (section 6.3) ----------------------------------------------------------

  function Basic(s: seq<nat>): seq<nat> {
    if s == [] then []
    else
      var last := |s| - 1;
      Basic(s[..last]) + if s[last] < 0x80 then [s[last]] else []
  }

  /** What one pass over the input leaves behind. */
  datatype Pass = Pass(digits: seq<nat>, delta: nat, bias: nat, handled: nat)

  /** The inner loop from position j on: code points below n advance delta, those equal to n are written. */
  function Scan(s: seq<nat>, n: nat, j: nat, delta: nat, bias: nat, handled: nat, basic: nat): Pass
    requires j <= |s|
    decreases |s| - j
  {
    if j == |s| then Pass([], delta, bias, handled)
    else if s[j] == n then
      var rest := Scan(s, n, j + 1, 0, Adapt(delta, handled + 1, handled == basic), handled + 1, basic);
      rest.(digits := Digits(delta, BASE, bias) + rest.digits)
    else Scan(s, n, j + 1, if s[j] < n then delta + 1 else delta, bias, handled, basic)
  }

  /** The smallest code point of s that is at least n, or the upper limit. */
  function NextRune(s: seq<nat>, n: nat): (next: nat)
    ensures next <= MAX_RUNE ==> n <= next && next in s
    ensures forall i :: 0 <= i < |s| && s[i] >= n ==> next <= s[i]
  {
    if s == [] then MAX_RUNE + 1
    else
      var m := NextRune(s[1..], n);
      if n <= s[0] < m then s[0] else m
  }

  /** How far delta moves when n moves to m: one full turn through the positions for each code point. */
  function Turns(n: nat, m: nat, handled: nat): nat
    requires n <= m
  {
    (m - n) * (handled + 1)
  }

  /** The outer loop: the digits for all code points from n on, or the overflow guard's refusal. */
  function EncodeFrom(s: seq<nat>, n: nat, delta: nat, bias: nat, handled: nat, basic: nat): Option<seq<nat>>
    decreases MAX_RUNE + 1 - n
  {
    var m := NextRune(s, n);
    if handled >= |s| then Some([])
    else if m > MAX_RUNE || Turns(n, m, handled) > MAX_INT - delta then None
    else
      var p := Scan(s, m, 0, delta + Turns(n, m, handled), bias, handled, basic);
      match EncodeFrom(s, m + 1, p.delta + 1, p.bias, p.handled, basic)
      case None => None
      case Some(rest) => Some(p.digits + rest)
  }

  function Prepend(written: seq<nat>, rest: Option<seq<nat>>): Option<seq<nat>> {
    if rest.None? then None else Some(written + rest.value)
  }

  lemma PrependSome(written: seq<nat>, rest: Option<seq<nat>>)
    requires rest.Some?
    ensures Prepend(written, rest) == Some(written + rest.value)
  {}

  function Encode(s: seq<nat>): Option<seq<nat>> {
    var basic := Basic(s);
    if !ValidRunes(s) || Utf8Length(s) > MAX_BYTES then None
    else
      match EncodeFrom(s, INITIAL_N, 0, INITIAL_BIAS, |basic|, |basic|)
      case None => None
      case Some(digits) => Some(basic + (if basic == [] then [] else [HYPHEN]) + digits)
  }

  // ----- Decoding (section 6.2) -----------------------------------------------------------

  /** One variable-length integer: the position behind it and the value of i, or a refusal. */
  function ReadDigits(input: seq<nat>, position: nat, i: nat, w: nat, k: nat, bias: nat): (read: Option<(nat, nat)>)
    requires w >= 1 && i <= MAX_INT
    ensures read.Some? ==> position < read.value.0 <= |input| && i <= read.value.1 <= MAX_INT
    decreases |input| - position
  {
    if position >= |input| then None
    else
      match DigitValue(input[position])
      case None => None
      case Some(digit) =>
        if digit > (MAX_INT - i) / w then None
        else
          FitsIffNoOverflow(digit, i, w);
          var t := Threshold(k, bias);
          if digit < t then Some((position + 1, i + digit * w))
          else if w > MAX_INT / (BASE - t) then None
          else ReadDigits(input, position + 1, i + digit * w, w * (BASE - t), k + BASE, bias)
  }

  lemma FitsIffNoOverflow(digit: nat, i: nat, w: nat)
    requires w >= 1 && i <= MAX_INT
    ensures digit <= (MAX_INT - i) / w <==> i + digit * w <= MAX_INT
  {
    var room := (MAX_INT - i) / w;
    assert room * w <= MAX_INT - i < (room + 1) * w;
    if digit <= room {
      assert digit * w <= room * w;
    } else {
      assert digit * w >= (room + 1) * w;
    }
  }

  function Insert(output: seq<nat>, i: nat, r: nat): seq<nat>
    requires i <= |output|
  {
    output[..i] + [r] + output[i..]
  }

  function DecodeFrom(input: seq<nat>, position: nat, output: seq<nat>, n: nat, i: nat, bias: nat): Option<seq<nat>>
    requires i <= MAX_INT
    decreases |input| - position
  {
    if position >= |input| then Some(output)
    else
      match ReadDigits(input, position, i, 1, BASE, bias)
      case None => None
      case Some((next, value)) =>
        var count := |output| + 1;
        if Div(value, count) > MAX_INT - n then None
        else
          var (r, at) := (n + Div(value, count), Mod(value, count));
          if r > MAX_RUNE || Surrogate(r) || |output| >= MAX_BYTES then None
          else DecodeFrom(input, next, Insert(output, at, r), r, at + 1, Adapt(value - i, count, i == 0))
  }

  /** The index of the last hyphen, or -1. */
  function LastHyphen(input: seq<nat>): int {
    if input == [] then -1
    else if input[|input| - 1] == HYPHEN then |input| - 1
    else LastHyphen(input[..|input| - 1])
  }

  function Decode(input: seq<nat>): Option<seq<nat>> {
    if |input| > MAX_BYTES || exists i :: 0 <= i < |input| && input[i] >= 0x80 then None
    else
      var last := LastHyphen(input);
      if 0 <= last < |input| then DecodeFrom(input, last + 1, input[..last], INITIAL_N, 0, INITIAL_BIAS)
      else DecodeFrom(input, 0, [], INITIAL_N, 0, INITIAL_BIAS)
  }

  // ----- Variable-length integers read back ------------------------------------------------

  /** The weights of the digits of q stay in range: the decoder's second overflow guard. */
  ghost predicate WeightFits(q: nat, w: int, k: nat, bias: nat)
    decreases q
  {
    var t := Threshold(k, bias);
    q < t || (SplitDigit(q, t); w * (BASE - t) <= MAX_INT && WeightFits(High(q, t), w * (BASE - t), k + BASE, bias))
  }

  lemma DigitReadsBack(d: nat)
    requires d < BASE
    ensures DigitValue(Digit(d)) == Some(d) && Digit(d) < 0x80 && Digit(d) != HYPHEN
  {}

  lemma WeightGuard(w: nat, b: nat)
    requires w >= 1 && b >= 1
    ensures w > MAX_INT / b <==> w * b > MAX_INT
  {
    var room := MAX_INT / b;
    assert room * b <= MAX_INT < (room + 1) * b;
    if w <= room {
      assert w * b <= room * b;
    } else {
      assert w * b >= (room + 1) * b;
    }
  }

  lemma SplitWeight(q: nat, w: nat, b: nat, low: nat, high: nat)
    requires q == low + b * high
    ensures q * w == low * w + high * (w * b)
    ensures low * w <= q * w
  {
    assert (b * high) * w == high * (w * b);
    assert high * (w * b) >= 0;
  }

  /** One step of the decoder's loop, with the two overflow guards written as products. */
  lemma ReadOneDigit(input: seq<nat>, position: nat, i: nat, w: nat, k: nat, bias: nat, d: nat)
    requires w >= 1 && i <= MAX_INT && d < BASE
    requires position < |input| && DigitValue(input[position]) == Some(d)
    ensures var t := Threshold(k, bias);
            && w * (BASE - t) >= 1
            && ReadDigits(input, position, i, w, k, bias)
               == if i + d * w > MAX_INT then None
                  else if d < t then Some((position + 1, i + d * w))
                  else if w * (BASE - t) > MAX_INT then None
                  else ReadDigits(input, position + 1, i + d * w, w * (BASE - t), k + BASE, bias)
  {
    var t := Threshold(k, bias);
    FitsIffNoOverflow(d, i, w);
    WeightGuard(w, BASE - t);
    assert w * (BASE - t) >= 1 by {
      Grows(w, BASE - t - 10);
    }
    hide Threshold, Digit, DigitValue;
  }

  /** Reading what Digits wrote gives i + q * w, unless one of the two overflow guards fires. */
  lemma {:induction false} DigitsReadBack(input: seq<nat>, position: nat, q: nat, i: nat, w: nat, k: nat, bias: nat)
    requires w >= 1 && i <= MAX_INT
    requires position <= |input| && Digits(q, k, bias) <= input[position..]
    ensures ReadDigits(input, position, i, w, k, bias)
         == if i + q * w <= MAX_INT && WeightFits(q, w, k, bias)
            then Some((position + |Digits(q, k, bias)|, i + q * w)) else None
    decreases q
  {
    hide Low, High, Threshold, Digit, ReadDigits;
    var t := Threshold(k, bias);
    var digits := Digits(q, k, bias);
    assert input[position] == input[position..][0] == digits[0];
    if q < t {
      DigitReadsBack(q);
      ReadOneDigit(input, position, i, w, k, bias, q);
    } else {
      SplitDigit(q, t);
      DigitReadsBack(Low(q, t));
      ReadOneDigit(input, position, i, w, k, bias, Low(q, t));
      DigitsReadBackOnwards(input, position, q, i, w, k, bias);
    }
  }

  lemma {:induction false} DigitsReadBackOnwards(input: seq<nat>, position: nat, q: nat, i: nat, w: nat, k: nat,
                                                 bias: nat)
    requires w >= 1 && i <= MAX_INT && q >= Threshold(k, bias)
    requires position < |input| && Digits(q, k, bias) <= input[position..]
    requires var b := BASE - Threshold(k, bias); w * b >= 1
    ensures var b, low := BASE - Threshold(k, bias), Low(q, Threshold(k, bias));
            (if i + low * w > MAX_INT then None
             else if w * b > MAX_INT then None
             else ReadDigits(input, position + 1, i + low * w, w * b, k + BASE, bias))
            == if i + q * w <= MAX_INT && WeightFits(q, w, k, bias)
               then Some((position + |Digits(q, k, bias)|, i + q * w)) else None
    decreases q, 0
  {
    hide Low, High, Threshold, Digit, ReadDigits;
    var t := Threshold(k, bias);
    SplitDigit(q, t);
    var b, low, high := BASE - t, Low(q, t), High(q, t);
    SplitWeight(q, w, b, low, high);
    if i + low * w <= MAX_INT && w * b <= MAX_INT {
      assert input[position + 1..] == input[position..][1..];
      assert Digits(q, k, bias)[1..] == Digits(high, k + BASE, bias);
      DigitsReadBack(input, position + 1, high, i + low * w, w * b, k + BASE, bias);
    }
  }

  // ----- Where the decoder stands --------------------------------------------------------

  /** The code points already written when the pass for n has reached position j, in input order. */
  ghost function Keep(s: seq<nat>, n: nat, j: nat, k: nat): seq<nat>
    requires k <= |s|
  {
    if k == 0 then []
    else Keep(s, n, j, k - 1) + if s[k - 1] < n || (s[k - 1] == n && k - 1 < j) then [s[k - 1]] else []
  }

  ghost function Written(s: seq<nat>, n: nat, j: nat): seq<nat> {
    Keep(s, n, j, |s|)
  }

  /** How many of them stand before position j. */
  ghost function Placed(s: seq<nat>, n: nat, j: nat): nat
    requires j <= |s|
  {
    |Keep(s, n, j, j)|
  }

  lemma {:induction false} KeepBefore(s: seq<nat>, n: nat, j: nat, k: nat)
    requires k <= j && j < |s|
    ensures Keep(s, n, j + 1, k) == Keep(s, n, j, k)
  {
    if k > 0 {
      KeepBefore(s, n, j, k - 1);
    }
  }

  /** Writing position j inserts its code point at its place. */
  lemma {:induction false} KeepInserts(s: seq<nat>, n: nat, j: nat, k: nat)
    requires j < k <= |s| && s[j] == n
    ensures Placed(s, n, j) <= |Keep(s, n, j, k)|
    ensures Keep(s, n, j + 1, k) == Insert(Keep(s, n, j, k), Placed(s, n, j), n)
    ensures Placed(s, n, j + 1) == Placed(s, n, j) + 1
  {
    KeepBefore(s, n, j, j);
    if k == j + 1 {
      assert Keep(s, n, j, k) == Keep(s, n, j, j);
    } else {
      KeepInserts(s, n, j, k - 1);
    }
  }

  lemma {:induction false} KeepSkips(s: seq<nat>, n: nat, j: nat, k: nat)
    requires j < |s| && k <= |s| && s[j] != n
    ensures Keep(s, n, j + 1, k) == Keep(s, n, j, k)
    ensures Placed(s, n, j + 1) == Placed(s, n, j) + if s[j] < n then 1 else 0
  {
    KeepBefore(s, n, j, j);
    if k > 0 {
      KeepSkips(s, n, j, k - 1);
    }
  }

  /** Between two passes nothing is written: no code point lies between n and m. */
  lemma {:induction false} KeepJumps(s: seq<nat>, n: nat, m: nat, k: nat)
    requires k <= |s| && n <= m && forall i :: 0 <= i < |s| ==> s[i] < n || m <= s[i]
    ensures Keep(s, m, 0, k) == Keep(s, n, 0, k)
  {
    if k > 0 {
      KeepJumps(s, n, m, k - 1);
    }
  }

  lemma {:induction false} KeepEndsPass(s: seq<nat>, n: nat, k: nat)
    requires k <= |s|
    ensures Keep(s, n, |s|, k) == Keep(s, n + 1, 0, k)
  {
    if k > 0 {
      KeepEndsPass(s, n, k - 1);
    }
  }

  lemma {:induction false} KeepLength(s: seq<nat>, n: nat, j: nat, k: nat)
    requires k <= |s|
    ensures |Keep(s, n, j, k)| <= k
    ensures |Keep(s, n, j, k)| == k ==> Keep(s, n, j, k) == s[..k]
    ensures forall i :: 0 <= i < k && s[i] >= n && !(s[i] == n && i < j) ==> |Keep(s, n, j, k)| < k
  {
    if k > 0 {
      KeepLength(s, n, j, k - 1);
    }
  }

  lemma {:induction false} BasicIsKept(s: seq<nat>, k: nat)
    requires k <= |s|
    ensures Basic(s[..k]) == Keep(s, INITIAL_N, 0, k)
  {
    if k > 0 {
      BasicIsKept(s, k - 1);
      assert s[..k][..k - 1] == s[..k - 1];
    }
  }

  /** The decoder's n and i, and whether none of its overflow guards has fired so far. */
  datatype Stand = Stand(fits: bool, n: nat, i: nat)

  /** Following the encoder's inner loop: each integer must fit on top of the decoder's position. */
  ghost function ScanStand(s: seq<nat>, n: nat, j: nat, delta: nat, bias: nat, handled: nat, basic: nat,
                           at: Stand): Stand
    requires j <= |s|
    decreases |s| - j
  {
    if j == |s| then at
    else if s[j] == n then
      ScanStand(s, n, j + 1, 0, Adapt(delta, handled + 1, handled == basic), handled + 1, basic,
                Stand(at.fits && at.i + delta <= MAX_INT && WeightFits(delta, 1, BASE, bias), n, Placed(s, n, j) + 1))
    else ScanStand(s, n, j + 1, if s[j] < n then delta + 1 else delta, bias, handled, basic, at)
  }

  ghost function EncodeStand(s: seq<nat>, n: nat, delta: nat, bias: nat, handled: nat, basic: nat, at: Stand): Stand
    decreases MAX_RUNE + 1 - n
  {
    var m := NextRune(s, n);
    if handled >= |s| || m > MAX_RUNE then at
    else
      var start := delta + Turns(n, m, handled);
      var p := Scan(s, m, 0, start, bias, handled, basic);
      EncodeStand(s, m + 1, p.delta + 1, p.bias, p.handled, basic, ScanStand(s, m, 0, start, bias, handled, basic, at))
  }

  /** The loop invariant that ties the two machines together. */
  ghost predicate InStep(s: seq<nat>, n: nat, j: nat, delta: nat, handled: nat, basic: nat, at: Stand)
    requires j <= |s|
  {
    && handled == |Written(s, n, j)|
    && INITIAL_N <= at.n <= n
    && at.i <= handled
    && at.n * (handled + 1) + at.i + delta == n * (handled + 1) + Placed(s, n, j)
    && (at.i == 0 <==> handled == basic)
    && basic <= handled
  }

  lemma SplitValue(n: nat, from: nat, count: nat, i: nat, delta: nat, placed: nat)
    requires count > 0 && from <= n && placed < count
    requires from * count + i + delta == n * count + placed
    ensures Div(i + delta, count) == n - from && Mod(i + delta, count) == placed
  {
    assert i + delta == (n - from) * count + placed;
    QuotientIs(i + delta, count, n - from, placed);
  }

  lemma DecodeInserts(input: seq<nat>, position: nat, next: nat, value: nat, output: seq<nat>, from: nat, i: nat,
                      bias: nat, n: nat, placed: nat)
    requires i <= MAX_INT && position < |input|
    requires ReadDigits(input, position, i, 1, BASE, bias) == Some((next, value))
    requires Div(value, |output| + 1) == n - from && Mod(value, |output| + 1) == placed <= |output|
    requires from <= n <= MAX_RUNE && !Surrogate(n) && |output| < MAX_BYTES
    ensures placed + 1 <= MAX_INT
    ensures DecodeFrom(input, position, output, from, i, bias)
         == DecodeFrom(input, next, Insert(output, placed, n), n, placed + 1, Adapt(value - i, |output| + 1, i == 0))
  {
    hide ReadDigits, Adapt, Insert, Div, Mod;
  }

  /** One integer of the encoder is one insertion of the decoder, and they agree on the first one. */
  lemma EmitDecodes(input: seq<nat>, position: nat, s: seq<nat>, n: nat, j: nat, delta: nat, bias: nat, handled: nat,
                    basic: nat, at: Stand)
    requires ValidRunes(s) && |s| <= MAX_BYTES && j < |s| && s[j] == n
    requires InStep(s, n, j, delta, handled, basic, at) && at.i <= MAX_INT
    requires position <= |input| && Digits(delta, BASE, bias) <= input[position..]
    ensures Placed(s, n, j) + 1 <= MAX_INT
    ensures DecodeFrom(input, position, Written(s, n, j), at.n, at.i, bias)
         == if at.i + delta <= MAX_INT && WeightFits(delta, 1, BASE, bias)
            then DecodeFrom(input, position + |Digits(delta, BASE, bias)|, Written(s, n, j + 1), n,
                            Placed(s, n, j) + 1, Adapt(delta, handled + 1, handled == basic))
            else None
  {
    var digits := Digits(delta, BASE, bias);
    hide ValidRunes, InStep, Written, Placed, Adapt, Insert, Digits, ReadDigits, WeightFits, DecodeFrom, Div, Mod;
    EmitPlace(s, n, j, delta, handled, basic, at);
    DigitsReadBack(input, position, delta, at.i, 1, BASE, bias);
    DigitsNonempty(delta, bias);
    ReadThenInsert(input, position, position + |digits|, s, n, j, delta, bias, handled, basic, at);
  }

  lemma ReadThenInsert(input: seq<nat>, position: nat, next: nat, s: seq<nat>, n: nat, j: nat, delta: nat, bias: nat,
                       handled: nat, basic: nat, at: Stand)
    requires ValidRunes(s) && |s| <= MAX_BYTES && j < |s| && s[j] == n
    requires InStep(s, n, j, delta, handled, basic, at) && at.i <= MAX_INT
    requires position < |input|
    requires ReadDigits(input, position, at.i, 1, BASE, bias)
          == if at.i + delta <= MAX_INT && WeightFits(delta, 1, BASE, bias) then Some((next, at.i + delta)) else None
    ensures Placed(s, n, j) + 1 <= MAX_INT
    ensures DecodeFrom(input, position, Written(s, n, j), at.n, at.i, bias)
         == if at.i + delta <= MAX_INT && WeightFits(delta, 1, BASE, bias)
            then DecodeFrom(input, next, Written(s, n, j + 1), n,
                            Placed(s, n, j) + 1, Adapt(delta, handled + 1, handled == basic))
            else None
  {
    hide ValidRunes, InStep, Written, Placed, Adapt, Insert, ReadDigits, WeightFits, DecodeFrom, Div, Mod;
    EmitPlace(s, n, j, delta, handled, basic, at);
    if at.i + delta <= MAX_INT && WeightFits(delta, 1, BASE, bias) {
      DecodeInserts(input, position, next, at.i + delta, Written(s, n, j), at.n, at.i, bias, n, Placed(s, n, j));
    } else {
      DecodeRefuses(input, position, Written(s, n, j), at.n, at.i, bias);
    }
  }

  lemma DecodeRefuses(input: seq<nat>, position: nat, output: seq<nat>, n: nat, i: nat, bias: nat)
    requires i <= MAX_INT && position < |input| && ReadDigits(input, position, i, 1, BASE, bias).None?
    ensures DecodeFrom(input, position, output, n, i, bias).None?
  {}

  /** The decoder's division finds the code point and the place of position j. */
  lemma EmitPlace(s: seq<nat>, n: nat, j: nat, delta: nat, handled: nat, basic: nat, at: Stand)
    requires ValidRunes(s) && |s| <= MAX_BYTES && j < |s| && s[j] == n
    requires InStep(s, n, j, delta, handled, basic, at)
    ensures at.n <= n <= MAX_RUNE && !Surrogate(n)
    ensures Placed(s, n, j) <= |Written(s, n, j)| == handled < MAX_BYTES
    ensures Written(s, n, j + 1) == Insert(Written(s, n, j), Placed(s, n, j), n)
    ensures Div(at.i + delta, handled + 1) == n - at.n && Mod(at.i + delta, handled + 1) == Placed(s, n, j)
    ensures at.i == 0 <==> handled == basic
  {
    KeepLength(s, n, j, |s|);
    KeepInserts(s, n, j, |s|);
    SplitValue(n, at.n, handled + 1, at.i, delta, Placed(s, n, j));
  }

  lemma DigitsNonempty(q: nat, bias: nat)
    ensures Digits(q, BASE, bias) != []
  {}

  lemma EmitKeepsStep(s: seq<nat>, n: nat, j: nat, delta: nat, handled: nat, basic: nat, at: Stand, fits: bool)
    requires j < |s| && s[j] == n && InStep(s, n, j, delta, handled, basic, at)
    ensures InStep(s, n, j + 1, 0, handled + 1, basic, Stand(fits, n, Placed(s, n, j) + 1))
  {
    KeepInserts(s, n, j, |s|);
  }

  lemma SkipKeepsStep(s: seq<nat>, n: nat, j: nat, delta: nat, handled: nat, basic: nat, at: Stand)
    requires j < |s| && s[j] != n && InStep(s, n, j, delta, handled, basic, at)
    ensures InStep(s, n, j + 1, if s[j] < n then delta + 1 else delta, handled, basic, at)
    ensures Written(s, n, j + 1) == Written(s, n, j)
  {
    KeepSkips(s, n, j, |s|);
  }

  ghost predicate AtIntegers(input: seq<nat>, position: nat, digits: seq<nat>) {
    position <= |input| && digits <= input[position..]
  }

  lemma IntegersSplit(input: seq<nat>, position: nat, a: seq<nat>, b: seq<nat>)
    requires AtIntegers(input, position, a + b)
    ensures AtIntegers(input, position, a) && AtIntegers(input, position + |a|, b)
  {
    assert (a + b)[..|a|] == a;
    assert input[position..][..|a|] == a;
    assert input[position + |a|..] == input[position..][|a|..];
    assert (a + b)[|a|..] == b;
    assert input[position..][..|a + b|][|a|..] == b;
  }

  /** A whole pass in lockstep. */
  lemma {:induction false} ScanDecodes(input: seq<nat>, position: nat, s: seq<nat>, n: nat, j: nat, delta: nat,
                                       bias: nat, handled: nat, basic: nat, at: Stand)
    requires ValidRunes(s) && |s| <= MAX_BYTES && j <= |s|
    requires InStep(s, n, j, delta, handled, basic, at) && at.i <= MAX_INT
    requires AtIntegers(input, position, Scan(s, n, j, delta, bias, handled, basic).digits)
    ensures var p := Scan(s, n, j, delta, bias, handled, basic);
            var end := ScanStand(s, n, j, delta, bias, handled, basic, at);
            && InStep(s, n, |s|, p.delta, p.handled, basic, end) && end.i <= MAX_INT
            && (end.fits ==> at.fits)
            && (at.fits ==>
                 DecodeFrom(input, position, Written(s, n, j), at.n, at.i, bias)
                 == if end.fits then DecodeFrom(input, position + |p.digits|, Written(s, n, |s|), end.n, end.i, p.bias)
                     else None)
    decreases |s| - j
  {
    hide WeightFits, DecodeFrom, Keep, Digits, Adapt, InStep, ValidRunes;
    if j < |s| {
      if s[j] == n {
        var digits := Digits(delta, BASE, bias);
        var rest := Scan(s, n, j + 1, 0, Adapt(delta, handled + 1, handled == basic), handled + 1, basic).digits;
        IntegersSplit(input, position, digits, rest);
        var fits := at.fits && at.i + delta <= MAX_INT && WeightFits(delta, 1, BASE, bias);
        EmitDecodes(input, position, s, n, j, delta, bias, handled, basic, at);
        EmitKeepsStep(s, n, j, delta, handled, basic, at, fits);
        ScanDecodes(input, position + |digits|, s, n, j + 1, 0, Adapt(delta, handled + 1, handled == basic),
                    handled + 1, basic, Stand(fits, n, Placed(s, n, j) + 1));
      } else {
        SkipKeepsStep(s, n, j, delta, handled, basic, at);
        ScanDecodes(input, position, s, n, j + 1, if s[j] < n then delta + 1 else delta, bias, handled, basic, at);
      }
    }
  }

  lemma JumpKeepsStep(s: seq<nat>, n: nat, m: nat, delta: nat, handled: nat, basic: nat, at: Stand)
    requires InStep(s, n, 0, delta, handled, basic, at)
    requires n <= m && forall i :: 0 <= i < |s| ==> s[i] < n || m <= s[i]
    ensures InStep(s, m, 0, delta + Turns(n, m, handled), handled, basic, at)
    ensures Written(s, m, 0) == Written(s, n, 0)
  {
    KeepJumps(s, n, m, |s|);
    assert n * (handled + 1) + (m - n) * (handled + 1) == m * (handled + 1);
  }

  lemma PassEndKeepsStep(s: seq<nat>, n: nat, delta: nat, handled: nat, basic: nat, at: Stand)
    requires InStep(s, n, |s|, delta, handled, basic, at)
    ensures InStep(s, n + 1, 0, delta + 1, handled, basic, at)
    ensures Written(s, n + 1, 0) == Written(s, n, |s|)
  {
    KeepEndsPass(s, n, |s|);
    assert (n + 1) * (handled + 1) == n * (handled + 1) + handled + 1;
  }

  lemma EncodeUnfolds(s: seq<nat>, n: nat, delta: nat, bias: nat, handled: nat, basic: nat, at: Stand)
    requires handled < |s| && EncodeFrom(s, n, delta, bias, handled, basic).Some?
    ensures var m := NextRune(s, n);
            && n <= m <= MAX_RUNE
            && (forall i :: 0 <= i < |s| ==> s[i] < n || m <= s[i])
            && var start := delta + Turns(n, m, handled);
               var p := Scan(s, m, 0, start, bias, handled, basic);
               var rest := EncodeFrom(s, m + 1, p.delta + 1, p.bias, p.handled, basic);
               && rest.Some?
               && EncodeFrom(s, n, delta, bias, handled, basic) == Prepend(p.digits, rest)
               && EncodeStand(s, n, delta, bias, handled, basic, at)
                  == EncodeStand(s, m + 1, p.delta + 1, p.bias, p.handled, basic,
                      ScanStand(s, m, 0, start, bias, handled, basic, at))
  {
    hide Turns, Scan, ScanStand;
  }

  /** The remaining passes in lockstep: the decoder ends with the whole input, or refuses. */
  lemma {:induction false} EncodeDecodes(input: seq<nat>, position: nat, s: seq<nat>, n: nat, delta: nat, bias: nat,
                                         handled: nat, basic: nat, at: Stand)
    requires ValidRunes(s) && |s| <= MAX_BYTES
    requires InStep(s, n, 0, delta, handled, basic, at) && at.i <= MAX_INT && at.fits
    requires EncodeFrom(s, n, delta, bias, handled, basic).Some?
    requires position <= |input| && input[position..] == EncodeFrom(s, n, delta, bias, handled, basic).value
    ensures DecodeFrom(input, position, Written(s, n, 0), at.n, at.i, bias)
         == if EncodeStand(s, n, delta, bias, handled, basic, at).fits then Some(s) else None
    decreases MAX_RUNE + 1 - n
  {
    hide *;
    if handled < |s| {
      EncodeUnfolds(s, n, delta, bias, handled, basic, at);
      var m := NextRune(s, n);
      var start := delta + Turns(n, m, handled);
      var p := Scan(s, m, 0, start, bias, handled, basic);
      var end := ScanStand(s, m, 0, start, bias, handled, basic, at);
      var rest := EncodeFrom(s, m + 1, p.delta + 1, p.bias, p.handled, basic).value;
      PrependSome(p.digits, Some(rest));
      JumpKeepsStep(s, n, m, delta, handled, basic, at);
      IntegersSplit(input, position, p.digits, rest);
      ScanDecodes(input, position, s, m, 0, start, bias, handled, basic, at);
      PassEndKeepsStep(s, m, p.delta, p.handled, basic, end);
      assert input[position + |p.digits|..] == rest;
      if end.fits {
        EncodeDecodes(input, position + |p.digits|, s, m + 1, p.delta + 1, p.bias, p.handled, basic, end);
      } else {
        StandStaysUnfit(s, m + 1, p.delta + 1, p.bias, p.handled, basic, end);
      }
    } else {
      AllWritten(input, position, s, n, delta, bias, handled, basic, at);
    }
  }

  lemma AllWritten(input: seq<nat>, position: nat, s: seq<nat>, n: nat, delta: nat, bias: nat, handled: nat, basic: nat,
                   at: Stand)
    requires handled >= |s| && InStep(s, n, 0, delta, handled, basic, at) && at.i <= MAX_INT
    requires position <= |input| && input[position..] == EncodeFrom(s, n, delta, bias, handled, basic).value
    ensures DecodeFrom(input, position, Written(s, n, 0), at.n, at.i, bias) == Some(s)
    ensures EncodeStand(s, n, delta, bias, handled, basic, at) == at
  {
    KeepLength(s, n, 0, |s|);
    assert s[..|s|] == s;
  }

  lemma {:induction false} ScanStandStaysUnfit(s: seq<nat>, n: nat, j: nat, delta: nat, bias: nat, handled: nat,
                                               basic: nat, at: Stand)
    requires j <= |s| && !at.fits
    ensures !ScanStand(s, n, j, delta, bias, handled, basic, at).fits
    decreases |s| - j
  {
    if j < |s| {
      if s[j] == n {
        ScanStandStaysUnfit(s, n, j + 1, 0, Adapt(delta, handled + 1, handled == basic), handled + 1, basic,
                            Stand(false, n, Placed(s, n, j) + 1));
      } else {
        ScanStandStaysUnfit(s, n, j + 1, if s[j] < n then delta + 1 else delta, bias, handled, basic, at);
      }
    }
  }

  lemma {:induction false} StandStaysUnfit(s: seq<nat>, n: nat, delta: nat, bias: nat, handled: nat, basic: nat,
                                           at: Stand)
    requires !at.fits
    ensures !EncodeStand(s, n, delta, bias, handled, basic, at).fits
    decreases MAX_RUNE + 1 - n
  {
    var m := NextRune(s, n);
    if handled < |s| && m <= MAX_RUNE {
      var start := delta + Turns(n, m, handled);
      var p := Scan(s, m, 0, start, bias, handled, basic);
      ScanStandStaysUnfit(s, m, 0, start, bias, handled, basic, at);
      StandStaysUnfit(s, m + 1, p.delta + 1, p.bias, p.handled, basic,
                      ScanStand(s, m, 0, start, bias, handled, basic, at));
    }
  }

  // ----- The round trip --------------------------------------------------------------------

  ghost predicate Clean(digits: seq<nat>) {
    forall i :: 0 <= i < |digits| ==> digits[i] < 0x80 && digits[i] != HYPHEN
  }

  lemma {:induction false} DigitsClean(q: nat, k: nat, bias: nat)
    ensures Clean(Digits(q, k, bias))
    decreases q
  {
    var t := Threshold(k, bias);
    if q < t {
      DigitReadsBack(q);
    } else {
      SplitDigit(q, t);
      DigitReadsBack(Low(q, t));
      DigitsClean(High(q, t), k + BASE, bias);
    }
  }

  lemma {:induction false} ScanClean(s: seq<nat>, n: nat, j: nat, delta: nat, bias: nat, handled: nat, basic: nat)
    requires j <= |s|
    ensures Clean(Scan(s, n, j, delta, bias, handled, basic).digits)
    decreases |s| - j
  {
    hide Adapt, Digits;
    if j < |s| {
      if s[j] == n {
        DigitsClean(delta, BASE, bias);
        ScanClean(s, n, j + 1, 0, Adapt(delta, handled + 1, handled == basic), handled + 1, basic);
      } else {
        ScanClean(s, n, j + 1, if s[j] < n then delta + 1 else delta, bias, handled, basic);
      }
    }
  }

  lemma {:induction false} EncodeClean(s: seq<nat>, n: nat, delta: nat, bias: nat, handled: nat, basic: nat)
    requires EncodeFrom(s, n, delta, bias, handled, basic).Some?
    ensures Clean(EncodeFrom(s, n, delta, bias, handled, basic).value)
    decreases MAX_RUNE + 1 - n
  {
    hide Scan, Turns;
    if handled < |s| {
      var m := NextRune(s, n);
      var start := delta + Turns(n, m, handled);
      var p := Scan(s, m, 0, start, bias, handled, basic);
      ScanClean(s, m, 0, start, bias, handled, basic);
      EncodeClean(s, m + 1, p.delta + 1, p.bias, p.handled, basic);
    }
  }

  lemma {:induction false} BasicIsAscii(s: seq<nat>)
    ensures forall i :: 0 <= i < |Basic(s)| ==> Basic(s)[i] < 0x80
  {
    if s != [] {
      BasicIsAscii(s[..|s| - 1]);
    }
  }

  lemma {:induction false} CleanHasNoHyphen(prefix: seq<nat>, digits: seq<nat>)
    requires Clean(digits) && (prefix == [] || prefix[|prefix| - 1] == HYPHEN)
    ensures LastHyphen(prefix + digits) == |prefix| - 1
  {
    if digits != [] {
      var all := prefix + digits;
      assert all[..|all| - 1] == prefix + digits[..|digits| - 1];
      CleanHasNoHyphen(prefix, digits[..|digits| - 1]);
    } else {
      assert prefix + digits == prefix;
    }
  }

  lemma {:induction false} NoShorterInUtf8(s: seq<nat>)
    ensures |s| <= Utf8Length(s)
  {
    if s != [] {
      NoShorterInUtf8(s[1..]);
    }
  }

  /** Following the encoder: no overflow guard of the decoder fires. */
  ghost predicate StandFits(s: seq<nat>) {
    EncodeStand(s, INITIAL_N, 0, INITIAL_BIAS, |Basic(s)|, |Basic(s)|, Stand(true, INITIAL_N, 0)).fits
  }

  /** The encoder's output in front of its integers. */
  ghost function Prefix(s: seq<nat>): seq<nat> {
    Basic(s) + if Basic(s) == [] then [] else [HYPHEN]
  }

  ghost function Integers(s: seq<nat>): Option<seq<nat>> {
    EncodeFrom(s, INITIAL_N, 0, INITIAL_BIAS, |Basic(s)|, |Basic(s)|)
  }

  lemma EncodeForm(s: seq<nat>)
    requires Encode(s).Some?
    ensures ValidRunes(s) && |s| <= MAX_BYTES
    ensures Integers(s).Some? && Encode(s).value == Prefix(s) + Integers(s).value
    ensures forall i :: 0 <= i < |Encode(s).value| ==> Encode(s).value[i] < 0x80
    ensures LastHyphen(Encode(s).value) == |Prefix(s)| - 1
  {
    hide EncodeFrom;
    EncodeClean(s, INITIAL_N, 0, INITIAL_BIAS, |Basic(s)|, |Basic(s)|);
    BasicIsAscii(s);
    CleanHasNoHyphen(Prefix(s), Integers(s).value);
    NoShorterInUtf8(s);
  }

  lemma DecodeOpens(e: seq<nat>, basic: seq<nat>, prefix: seq<nat>)
    requires |e| <= MAX_BYTES && forall i :: 0 <= i < |e| ==> e[i] < 0x80
    requires prefix == basic + (if basic == [] then [] else [HYPHEN]) && prefix <= e
    requires LastHyphen(e) == |prefix| - 1
    ensures Decode(e) == DecodeFrom(e, |prefix|, basic, INITIAL_N, 0, INITIAL_BIAS)
  {
    hide DecodeFrom, LastHyphen;
    assert basic != [] ==> e[..|basic|] == basic;
  }

  lemma StartsInStep(s: seq<nat>)
    ensures Written(s, INITIAL_N, 0) == Basic(s)
    ensures InStep(s, INITIAL_N, 0, 0, |Basic(s)|, |Basic(s)|, Stand(true, INITIAL_N, 0))
  {
    BasicIsKept(s, |s|);
    assert s[..|s|] == s;
  }

  /** The decoder never reads back anything but the encoder's input, and refuses exactly when a guard fires. */
  lemma DecodeFollowsEncode(s: seq<nat>)
    requires Encode(s).Some?
    ensures Decode(Encode(s).value)
         == if |Encode(s).value| <= MAX_BYTES && StandFits(s) then Some(s) else None
  {
    var e, prefix := Encode(s).value, Prefix(s);
    EncodeForm(s);
    StartsInStep(s);
    hide Encode, Decode, DecodeFrom, EncodeFrom, EncodeStand, LastHyphen, Written, InStep, ValidRunes;
    if |e| <= MAX_BYTES {
      assert e[|prefix|..] == Integers(s).value;
      DecodeOpens(e, Basic(s), prefix);
      EncodeDecodes(e, |prefix|, s, INITIAL_N, 0, INITIAL_BIAS, |Basic(s)|, |Basic(s)|, Stand(true, INITIAL_N, 0));
    } else {
      DecodeRefusesLong(e);
    }
  }

  lemma DecodeRefusesLong(e: seq<nat>)
    requires |e| > MAX_BYTES
    ensures Decode(e).None?
  {}

  // ----- Which integers fit ----------------------------------------------------------------

  /** How many code points of s are below n. */
  function Below(s: seq<nat>, n: nat): nat {
    if s == [] then 0 else Below(s[..|s| - 1], n) + if s[|s| - 1] < n then 1 else 0
  }

  /** The largest code point of s below n that is not basic, or where the decoder starts. */
  function Prior(s: seq<nat>, n: nat): (m: nat)
    ensures m == INITIAL_N || INITIAL_N < m < n
  {
    if s == [] then INITIAL_N
    else
      var m, last := Prior(s[..|s| - 1], n), s[|s| - 1];
      if m < last < n then last else m
  }

  /** A turn through the code points below n, and the end, for every step from the code point before. */
  function Turn(s: seq<nat>, n: nat): int {
    (n - Prior(s, n)) * (Below(s, n) + 1)
  }

  /**
    The integer for position j, where a code point occurs for the first time, added to the decoder's position, is
    at most 2^31 - 1: it takes the decoder to this code point, and then past the smaller ones in front of it.
   */
  predicate InReach(s: seq<nat>, j: nat)
    requires j < |s|
  {
    Turn(s, s[j]) + Below(s[..j], s[j]) <= MAX_INT
  }

  /** No integer of the encoder takes the decoder beyond 31 bits. */
  predicate IntegersFit(s: seq<nat>) {
    forall j :: 0 <= j < |s| && s[j] >= INITIAL_N && s[j] !in s[..j] ==> InReach(s, j)
  }

  /** The same for the code points from n on. */
  ghost predicate FitFrom(s: seq<nat>, n: nat) {
    forall j :: 0 <= j < |s| && s[j] >= n && s[j] !in s[..j] ==> InReach(s, j)
  }

  /** The same for one code point, from position k on. */
  ghost predicate FitAt(s: seq<nat>, n: nat, k: nat) {
    forall j :: k <= j < |s| && s[j] == n && s[j] !in s[..j] ==> InReach(s, j)
  }

  /** The code point written last when the pass for n has reached position j. */
  ghost function LastRune(s: seq<nat>, n: nat, j: nat): nat
    requires j <= |s|
  {
    if n in s[..j] then n else Prior(s, n)
  }

  lemma {:induction false} KeepCounts(s: seq<nat>, n: nat, j: nat, k: nat)
    requires k <= |s| && j <= |s| && n !in s[..j]
    ensures |Keep(s, n, j, k)| == Below(s[..k], n)
  {
    if k > 0 {
      KeepCounts(s, n, j, k - 1);
      assert s[..k][..k - 1] == s[..k - 1];
      assert k - 1 < j ==> s[k - 1] in s[..j];
    }
  }

  lemma {:induction false} PriorJumps(s: seq<nat>, n: nat, m: nat)
    requires n <= m && forall i :: 0 <= i < |s| ==> s[i] < n || m <= s[i]
    ensures Prior(s, n) == Prior(s, m)
  {
    if s != [] {
      PriorJumps(s[..|s| - 1], n, m);
    }
  }

  lemma {:induction false} PriorEndsPass(s: seq<nat>, n: nat)
    requires n >= INITIAL_N && n in s
    ensures Prior(s, n + 1) == n
  {
    var front, last := s[..|s| - 1], s[|s| - 1];
    assert s == front + [last];
    if n in front {
      PriorEndsPass(front, n);
    }
  }

  // ----- The weights always fit -------------------------------------------------------------

  /** No bias that the encoder reaches while its integers fit is larger. */
  const MAX_BIAS := 213

  function PowerOf35(d: nat): nat {
    if d == 0 then 1 else 35 * PowerOf35(d - 1)
  }

  lemma {:induction false} ScaledBounded(delta: nat, k: nat, d: nat)
    requires delta <= 455 * PowerOf35(d)
    ensures Scaled(delta, k) <= k + 36 * d + 33
    decreases d
  {
    if delta > 455 {
      ScaledBounded(delta / 35, k + BASE, d - 1);
    } else {
      LastTerm(delta);
    }
  }

  lemma LastTerm(delta: nat)
    requires delta <= 455
    ensures (BASE - T_MIN + 1) * delta / (delta + SKEW) <= 33
  {
    assert 36 * delta < 34 * (delta + 38);
  }

  lemma AdaptBounded(delta: nat, points: nat, first: bool)
    requires points > 0 && delta <= MAX_INT
    ensures Adapt(delta, points, first) <= MAX_BIAS
  {
    var halved := if first then delta / DAMP else delta / 2;
    assert Div(halved, points) <= halved by {
      ShareBelow(halved, points);
    }
    assert PowerOf35(5) == 52_521_875;
    ScaledBounded(halved + Div(halved, points), 0, 5);
  }

  lemma ShareBelow(x: nat, points: nat)
    requires points > 0
    ensures Div(x, points) <= x
  {
    var q := x / points;
    assert q * points <= x;
    assert q <= q * points;
  }

  /** What the decoder's weight is after d digits, under a bias of at most 213. */
  ghost predicate WeightAt(w: int, d: nat, bias: nat) {
    w >= 1 && bias <= MAX_BIAS && (d <= 5 ==> w <= PowerOf35(d))
  }

  lemma {:induction false} WeightsFit(q: nat, w: int, d: nat, bias: nat)
    requires WeightAt(w, d, bias) && q * w <= MAX_INT
    ensures WeightFits(q, w, BASE * (d + 1), bias)
    decreases q
  {
    var k := BASE * (d + 1);
    var t := Threshold(k, bias);
    if q >= t {
      SplitDigit(q, t);
      var x := w * (BASE - t);
      WeightStep(q, w, d, bias, t, x);
      WeightsFit(High(q, t), x, d + 1, bias);
    }
  }

  /** One more digit: few digits have a small weight, and from the seventh on the threshold is 26. */
  lemma WeightStep(q: nat, w: int, d: nat, bias: nat, t: nat, x: int)
    requires WeightAt(w, d, bias) && q * w <= MAX_INT && t == Threshold(BASE * (d + 1), bias) && t <= q
    requires x == w * (BASE - t)
    ensures x <= MAX_INT && WeightAt(x, d + 1, bias)
    ensures High(q, t) * x <= MAX_INT
  {
    SplitDigit(q, t);
    var low, high := Low(q, t), High(q, t);
    SplitWeight(q, w, BASE - t, low, high);
    Product(low, w);
    ProductBound(t, w, q, w);
    StepBounds(w, BASE - t, d);
    hide Low, High;
    if d >= 6 {
      assert t == T_MAX;
    }
  }

  lemma ScaleBounds(q: nat, w: nat, b: nat)
    requires q >= 1 && 1 <= b <= 35
    ensures w <= q * w && w <= w * b <= 35 * w
  {}

  lemma StepBounds(w: nat, b: nat, d: nat)
    requires w >= 1 && 1 <= b <= 35 && (d <= 5 ==> w <= PowerOf35(d))
    ensures w * b >= 1 && w * b <= 35 * w
    ensures d <= 5 ==> w * b <= PowerOf35(d + 1) <= MAX_INT
  {
    ProductBound(w, b, w, 35);
    ProductBound(1, 1, w, b);
    assert PowerOf35(6) == 1_838_265_625;
    if d <= 5 {
      Powers35Grow(d + 1, 6);
    }
  }

  lemma {:induction false} Powers35Grow(a: nat, b: nat)
    requires a <= b
    ensures PowerOf35(a) <= PowerOf35(b)
    decreases b
  {
    if a < b {
      Powers35Grow(a, b - 1);
    }
  }

  /** The decoder's second overflow guard never fires on an integer of the encoder that passes the first one. */
  lemma WeightGuardNeverFires(q: nat, bias: nat)
    requires q <= MAX_INT && bias <= MAX_BIAS
    ensures WeightFits(q, 1, BASE, bias)
  {
    WeightsFit(q, 1, 0, bias);
  }

  // ----- The decoder's guards along the encoder ---------------------------------------------

  lemma Distance(from: nat, n: nat, count: nat, i: nat, delta: nat, placed: nat)
    requires from <= n && from * count + i + delta == n * count + placed
    ensures i + delta == (n - from) * count + placed
  {
    assert from * count + (n - from) * count == n * count;
  }

  lemma StepDistance(s: seq<nat>, n: nat, j: nat, delta: nat, handled: nat, basic: nat, at: Stand)
    requires j <= |s| && InStep(s, n, j, delta, handled, basic, at)
    ensures at.n <= n && handled == |Written(s, n, j)|
    ensures at.i + delta == (n - at.n) * (handled + 1) + Placed(s, n, j)
  {
    Distance(at.n, n, handled + 1, at.i, delta, Placed(s, n, j));
  }

  /** The first overflow guard on the integer for position j. */
  lemma EmissionFits(s: seq<nat>, n: nat, j: nat, delta: nat, handled: nat, basic: nat, at: Stand)
    requires |s| <= MAX_BYTES && j < |s| && s[j] == n >= INITIAL_N
    requires InStep(s, n, j, delta, handled, basic, at) && at.n == LastRune(s, n, j)
    ensures at.i + delta <= MAX_INT <==> n in s[..j] || InReach(s, j)
  {
    StepDistance(s, n, j, delta, handled, basic, at);
    hide InStep;
    KeepLength(s, n, j, j);
    if n !in s[..j] {
      KeepCounts(s, n, j, j);
      KeepCounts(s, n, j, |s|);
      hide Keep, Below, Prior;
      assert s[..|s|] == s;
    } else {
      hide *;
      NoDistance(n, handled + 1);
    }
  }

  lemma NoDistance(n: nat, count: nat)
    ensures (n - n) * count == 0
  {}

  /** What holds along the encoder besides InStep. */
  ghost predicate Tracks(s: seq<nat>, n: nat, j: nat, bias: nat, at: Stand)
    requires j <= |s|
  {
    at.n == LastRune(s, n, j) && (at.fits ==> bias <= MAX_BIAS)
  }

  lemma EmitTracks(s: seq<nat>, n: nat, j: nat, delta: nat, bias: nat, handled: nat, basic: nat, at: Stand)
    requires |s| <= MAX_BYTES && j < |s| && s[j] == n >= INITIAL_N
    requires InStep(s, n, j, delta, handled, basic, at) && Tracks(s, n, j, bias, at)
    ensures var fits := at.fits && at.i + delta <= MAX_INT && WeightFits(delta, 1, BASE, bias);
            (fits <==> at.fits && (n in s[..j] || InReach(s, j))) &&
            Tracks(s, n, j + 1, Adapt(delta, handled + 1, handled == basic), Stand(fits, n, Placed(s, n, j) + 1))
  {
    EmissionFits(s, n, j, delta, handled, basic, at);
    assert s[..j + 1][j] == n;
    hide WeightFits, Adapt, Placed, InReach, InStep;
    if at.fits && at.i + delta <= MAX_INT {
      WeightGuardNeverFires(delta, bias);
      AdaptBounded(delta, handled + 1, handled == basic);
    }
  }

  lemma SkipTracks(s: seq<nat>, n: nat, j: nat, bias: nat, at: Stand)
    requires j < |s| && s[j] != n && Tracks(s, n, j, bias, at)
    ensures Tracks(s, n, j + 1, bias, at)
  {
    assert s[..j + 1] == s[..j] + [s[j]];
  }

  lemma FitAtStep(s: seq<nat>, n: nat, j: nat)
    requires j < |s|
    ensures FitAt(s, n, j) <==> (s[j] == n && n !in s[..j] ==> InReach(s, j)) && FitAt(s, n, j + 1)
  {
    hide InReach;
  }

  /** Along a pass the guards stay silent exactly if the first occurrence of its code point is in reach. */
  lemma {:induction false} ScanFits(s: seq<nat>, n: nat, j: nat, delta: nat, bias: nat, handled: nat, basic: nat,
                                    at: Stand)
    requires |s| <= MAX_BYTES && j <= |s| && n >= INITIAL_N
    requires InStep(s, n, j, delta, handled, basic, at) && Tracks(s, n, j, bias, at)
    ensures var p := Scan(s, n, j, delta, bias, handled, basic);
            var end := ScanStand(s, n, j, delta, bias, handled, basic, at);
            && (end.fits <==> at.fits && FitAt(s, n, j))
            && InStep(s, n, |s|, p.delta, p.handled, basic, end) && Tracks(s, n, |s|, p.bias, end)
            && handled <= p.handled && (end.fits ==> |p.digits| <= 11 * (p.handled - handled))
    decreases |s| - j
  {
    hide WeightFits, Keep, Digits, Adapt, InStep, InReach, Tracks, FitAt;
    if j < |s| {
      FitAtStep(s, n, j);
      if s[j] == n {
        var fits := at.fits && at.i + delta <= MAX_INT && WeightFits(delta, 1, BASE, bias);
        EmitTracks(s, n, j, delta, bias, handled, basic, at);
        EmitKeepsStep(s, n, j, delta, handled, basic, at, fits);
        ScanFits(s, n, j + 1, 0, Adapt(delta, handled + 1, handled == basic), handled + 1, basic,
                 Stand(fits, n, Placed(s, n, j) + 1));
        if fits {
          TenDigits(delta, bias);
        }
      } else {
        SkipKeepsStep(s, n, j, delta, handled, basic, at);
        SkipTracks(s, n, j, bias, at);
        ScanFits(s, n, j + 1, if s[j] < n then delta + 1 else delta, bias, handled, basic, at);
      }
    } else {
      NothingLeft(s, n);
    }
  }

  lemma NothingLeft(s: seq<nat>, n: nat)
    ensures FitAt(s, n, |s|)
  {}

  lemma TenDigits(q: nat, bias: nat)
    requires q <= MAX_INT
    ensures |Digits(q, BASE, bias)| <= 11
  {
    assert q < PowerOfTen(10);
    DigitsShort(q, BASE, bias, 10);
  }

  function PowerOfTen(d: nat): nat {
    if d == 0 then 1 else 10 * PowerOfTen(d - 1)
  }

  lemma {:induction false} DigitsShort(q: nat, k: nat, bias: nat, d: nat)
    requires q < PowerOfTen(d)
    ensures |Digits(q, k, bias)| <= d + 1
    decreases q
  {
    var t := Threshold(k, bias);
    if q >= t {
      SplitDigit(q, t);
      DigitsShort(High(q, t), k + BASE, bias, d - 1);
    }
  }

  lemma {:induction false} KeepsAllBelow(s: seq<nat>, n: nat, k: nat)
    requires k <= |s| && forall i :: 0 <= i < k ==> s[i] < n
    ensures |Keep(s, n, 0, k)| == k
  {
    if k > 0 {
      KeepsAllBelow(s, n, k - 1);
    }
  }

  lemma NextExists(s: seq<nat>, n: nat)
    requires ValidRunes(s) && |Written(s, n, 0)| < |s|
    ensures n <= NextRune(s, n) <= MAX_RUNE
    ensures forall i :: 0 <= i < |s| ==> s[i] < n || NextRune(s, n) <= s[i]
  {
    if forall i :: 0 <= i < |s| ==> s[i] < n {
      KeepsAllBelow(s, n, |s|);
    }
  }

  lemma EncodeEnds(s: seq<nat>, n: nat, delta: nat, bias: nat, handled: nat, basic: nat, at: Stand)
    requires handled >= |s| && InStep(s, n, 0, delta, handled, basic, at)
    ensures EncodeStand(s, n, delta, bias, handled, basic, at) == at
    ensures EncodeFrom(s, n, delta, bias, handled, basic) == Some([]) && handled == |s|
  {
    KeepLength(s, n, 0, |s|);
  }

  lemma RoundUnfolds(s: seq<nat>, n: nat, delta: nat, bias: nat, handled: nat, basic: nat, at: Stand)
    requires handled < |s|
    requires n <= NextRune(s, n) <= MAX_RUNE && delta + Turns(n, NextRune(s, n), handled) <= MAX_INT
    ensures var m := NextRune(s, n);
            var start := delta + Turns(n, m, handled);
            var p := Scan(s, m, 0, start, bias, handled, basic);
            && EncodeStand(s, n, delta, bias, handled, basic, at)
               == EncodeStand(s, m + 1, p.delta + 1, p.bias, p.handled, basic,
                   ScanStand(s, m, 0, start, bias, handled, basic, at))
            && EncodeFrom(s, n, delta, bias, handled, basic)
               == Prepend(p.digits, EncodeFrom(s, m + 1, p.delta + 1, p.bias, p.handled, basic))
  {
    hide Scan, ScanStand, Turns;
  }

  lemma FitFromNext(s: seq<nat>, n: nat, m: nat)
    requires n <= m && forall i :: 0 <= i < |s| ==> s[i] < n || m <= s[i]
    ensures FitFrom(s, n) <==> FitAt(s, m, 0) && FitFrom(s, m + 1)
  {
    hide InReach;
  }

  /** The encoder's guard stays silent as well: it allows for less than the decoder's. */
  lemma FirstOccurrence(s: seq<nat>, m: nat, delta: nat, handled: nat, basic: nat, at: Stand)
    requires m >= INITIAL_N && m in s && FitAt(s, m, 0)
    requires InStep(s, m, 0, delta, handled, basic, at) && at.n == Prior(s, m)
    ensures at.i + delta <= MAX_INT
  {
    hide *;
    FirstInReach(s, m);
    TurnIs(s, m);
    StepDistance(s, m, 0, delta, handled, basic, at);
    NothingPlaced(s, m);
    KeepCounts(s, m, 0, |s|);
    assert s[..|s|] == s;
    WrittenIs(s, m);
  }

  lemma WrittenIs(s: seq<nat>, n: nat)
    ensures Written(s, n, 0) == Keep(s, n, 0, |s|)
  {}

  lemma TurnIs(s: seq<nat>, n: nat)
    ensures Turn(s, n) == (n - Prior(s, n)) * (Below(s, n) + 1)
  {}

  lemma FirstInReach(s: seq<nat>, m: nat)
    requires m >= INITIAL_N && m in s && FitAt(s, m, 0)
    ensures Turn(s, m) <= MAX_INT
  {
    var j := FirstOf(s, m);
    hide Turn, Below;
    assert InReach(s, j);
  }

  lemma NothingPlaced(s: seq<nat>, n: nat)
    ensures Placed(s, n, 0) == 0
  {}

  lemma FirstOf(s: seq<nat>, m: nat) returns (j: nat)
    requires m in s
    ensures j < |s| && s[j] == m && m !in s[..j]
  {
    var front, last := s[..|s| - 1], s[|s| - 1];
    assert s == front + [last];
    if m in front {
      j := FirstOf(front, m);
      assert front[..j] == s[..j];
    } else {
      j := |s| - 1;
    }
  }

  /** One pass: how the run, the condition and the encoder's guard go together. */
  lemma RoundFits(s: seq<nat>, n: nat, delta: nat, bias: nat, handled: nat, basic: nat, at: Stand)
    requires ValidRunes(s) && |s| <= MAX_BYTES && handled < |s| && n >= INITIAL_N
    requires InStep(s, n, 0, delta, handled, basic, at) && Tracks(s, n, 0, bias, at)
    ensures var m := NextRune(s, n);
            && n <= m <= MAX_RUNE
            && var start := delta + Turns(n, m, handled);
               var p := Scan(s, m, 0, start, bias, handled, basic);
               var end := ScanStand(s, m, 0, start, bias, handled, basic, at);
               && InStep(s, m + 1, 0, p.delta + 1, p.handled, basic, end) && Tracks(s, m + 1, 0, p.bias, end)
               && (end.fits && FitFrom(s, m + 1) <==> at.fits && FitFrom(s, n))
               && (at.fits && FitFrom(s, n) ==> start <= MAX_INT && end.fits)
               && handled <= p.handled && (end.fits ==> |p.digits| <= 11 * (p.handled - handled))
  {
    hide *;
    StepDistance(s, n, 0, delta, handled, basic, at);
    NextExists(s, n);
    var m := NextRune(s, n);
    var start := delta + Turns(n, m, handled);
    JumpKeepsStep(s, n, m, delta, handled, basic, at);
    TracksJump(s, n, m, bias, at);
    FitFromNext(s, n, m);
    if FitAt(s, m, 0) {
      FirstOccurrence(s, m, start, handled, basic, at);
    }
    ScanFits(s, m, 0, start, bias, handled, basic, at);
    var p := Scan(s, m, 0, start, bias, handled, basic);
    var end := ScanStand(s, m, 0, start, bias, handled, basic, at);
    PassEndKeepsStep(s, m, p.delta, p.handled, basic, end);
    TracksPassEnd(s, m, p.bias, end);
  }

  lemma TracksJump(s: seq<nat>, n: nat, m: nat, bias: nat, at: Stand)
    requires Tracks(s, n, 0, bias, at)
    requires n <= m && forall i :: 0 <= i < |s| ==> s[i] < n || m <= s[i]
    ensures Tracks(s, m, 0, bias, at) && at.n == Prior(s, m)
  {
    PriorJumps(s, n, m);
  }

  lemma TracksPassEnd(s: seq<nat>, n: nat, bias: nat, at: Stand)
    requires n >= INITIAL_N && n in s && Tracks(s, n, |s|, bias, at)
    ensures Tracks(s, n + 1, 0, bias, at)
  {
    assert s[..|s|] == s;
    PriorEndsPass(s, n);
  }

  /**
    The run that follows the encoder comes through exactly if every code point still to be written is in reach,
    and then the encoder comes through as well.
   */
  lemma {:induction false} EncodeFits(s: seq<nat>, n: nat, delta: nat, bias: nat, handled: nat, basic: nat, at: Stand)
    requires ValidRunes(s) && |s| <= MAX_BYTES && n >= INITIAL_N
    requires InStep(s, n, 0, delta, handled, basic, at) && Tracks(s, n, 0, bias, at)
    ensures EncodeStand(s, n, delta, bias, handled, basic, at).fits <==> at.fits && FitFrom(s, n)
    ensures at.fits && FitFrom(s, n) ==>
              var e := EncodeFrom(s, n, delta, bias, handled, basic);
              e.Some? && handled <= |s| && |e.value| <= 11 * (|s| - handled)
    decreases MAX_RUNE + 1 - n
  {
    hide *;
    if handled < |s| {
      RoundFits(s, n, delta, bias, handled, basic, at);
      var m := NextRune(s, n);
      var start := delta + Turns(n, m, handled);
      var p := Scan(s, m, 0, start, bias, handled, basic);
      var end := ScanStand(s, m, 0, start, bias, handled, basic, at);
      EncodeFits(s, m + 1, p.delta + 1, p.bias, p.handled, basic, end);
      StandUnfolds(s, n, delta, bias, handled, basic, at);
      if start <= MAX_INT {
        RoundUnfolds(s, n, delta, bias, handled, basic, at);
        PrependLength(p.digits, EncodeFrom(s, m + 1, p.delta + 1, p.bias, p.handled, basic));
      }
    } else {
      EncodeEnds(s, n, delta, bias, handled, basic, at);
      NoneLeft(s, n, delta, handled, basic, at);
    }
  }

  lemma PrependLength(written: seq<nat>, rest: Option<seq<nat>>)
    ensures rest.Some? ==> Prepend(written, rest).Some? && |Prepend(written, rest).value| == |written| + |rest.value|
  {}

  lemma StandUnfolds(s: seq<nat>, n: nat, delta: nat, bias: nat, handled: nat, basic: nat, at: Stand)
    requires handled < |s| && n <= NextRune(s, n) <= MAX_RUNE
    ensures var m := NextRune(s, n);
            var start := delta + Turns(n, m, handled);
            var p := Scan(s, m, 0, start, bias, handled, basic);
            EncodeStand(s, n, delta, bias, handled, basic, at)
            == EncodeStand(s, m + 1, p.delta + 1, p.bias, p.handled, basic,
                ScanStand(s, m, 0, start, bias, handled, basic, at))
  {
    hide Scan, ScanStand, Turns;
  }

  lemma NoneLeft(s: seq<nat>, n: nat, delta: nat, handled: nat, basic: nat, at: Stand)
    requires handled >= |s| && InStep(s, n, 0, delta, handled, basic, at)
    ensures FitFrom(s, n)
  {
    KeepLength(s, n, 0, |s|);
  }

  lemma RunFits(s: seq<nat>)
    requires ValidRunes(s) && |s| <= MAX_BYTES
    ensures StandFits(s) <==> IntegersFit(s)
    ensures IntegersFit(s) ==> Integers(s).Some? && |Integers(s).value| <= 11 * |s|
  {
    StartsInStep(s);
    PriorOfStart(s);
    KeepLength(s, INITIAL_N, 0, |s|);
    assert IntegersFit(s) == FitFrom(s, INITIAL_N);
    hide EncodeFrom, EncodeStand, InStep, InReach, IntegersFit, FitFrom, Keep;
    EncodeFits(s, INITIAL_N, 0, INITIAL_BIAS, |Basic(s)|, |Basic(s)|, Stand(true, INITIAL_N, 0));
  }

  lemma {:induction false} PriorOfStart(s: seq<nat>)
    ensures Prior(s, INITIAL_N) == INITIAL_N
  {
    if s != [] {
      PriorOfStart(s[..|s| - 1]);
    }
  }

  // ----- When it succeeds, and when it does not ---------------------------------------------

  /**
    The decoder never reads back anything but the encoder's input; and it reads it back exactly when the encoded
    text is within the length limit and every code point is in reach of the one before.
   */
  lemma DecodeInvertsEncodeIff(s: seq<nat>)
    requires Encode(s).Some?
    ensures Decode(Encode(s).value)
         == if |Encode(s).value| <= MAX_BYTES && IntegersFit(s) then Some(s) else None
  {
    EncodeForm(s);
    hide *;
    RunFits(s);
    DecodeFollowsEncode(s);
  }

  /** Where every code point is in reach the encoder accepts: its own guard allows for less than the decoder's. */
  lemma FittingIsEncoded(s: seq<nat>)
    requires ValidRunes(s) && Utf8Length(s) <= MAX_BYTES && IntegersFit(s)
    ensures Encode(s).Some? && |Encode(s).value| <= |Basic(s)| + 1 + 11 * |s|
  {
    NoShorterInUtf8(s);
    RunFits(s);
    hide EncodeFrom, IntegersFit, ValidRunes, Utf8Length;
  }

  lemma {:induction false} AsciiIsBasic(s: seq<nat>)
    requires forall i :: 0 <= i < |s| ==> s[i] < 0x80
    ensures Basic(s) == s && Utf8Length(s) == |s|
    decreases |s|
  {
    if s != [] {
      AsciiIsBasic(s[..|s| - 1]);
      AsciiIsBasic(s[1..]);
    }
  }

  /**
    "Decoding inverts encoding" (docs/KQL_IMPLEMENTATION.md) does not hold for every input: a
    nonempty ASCII text is encoded with one more byte, so at the length limit it cannot be read back.
   */
  lemma AsciiRoundTripIff(s: seq<nat>)
    requires s != [] && forall i :: 0 <= i < |s| ==> s[i] < 0x80
    ensures Encode(s).Some? <==> |s| <= MAX_BYTES
    ensures Encode(s).Some? ==> Encode(s).value == s + [HYPHEN]
    ensures Encode(s).Some? ==> (Decode(Encode(s).value) == Some(s) <==> |s| < MAX_BYTES)
  {
    AsciiIsBasic(s);
    assert Integers(s) == Some([]);
    assert IntegersFit(s);
    if Encode(s).Some? {
      hide Decode;
      DecodeInvertsEncodeIff(s);
    }
  }

  /** The counterexample at the other guard is of this form: ASCII text and one code point behind it. */
  ghost predicate AsciiThenRune(s: seq<nat>) {
    var last := |s| - 1;
    s != [] && INITIAL_N <= s[last] <= MAX_RUNE && !Surrogate(s[last]) && forall i :: 0 <= i < last ==> s[i] < 0x80
  }

  lemma {:induction false} AllBelow(s: seq<nat>, n: nat)
    requires n >= INITIAL_N && forall i :: 0 <= i < |s| ==> s[i] < 0x80
    ensures Below(s, n) == |s| && Prior(s, n) == INITIAL_N
  {
    if s != [] {
      AllBelow(s[..|s| - 1], n);
    }
  }

  lemma LastTurn(s: seq<nat>)
    requires AsciiThenRune(s)
    ensures var last := |s| - 1; Turn(s, s[last]) == (s[last] - INITIAL_N) * |s| && Below(s[..last], s[last]) == last
  {
    AllBelow(s[..|s| - 1], s[|s| - 1]);
    LastIsNotBelow(s);
    hide Below, Prior;
  }

  lemma LastOf(s: seq<nat>)
    requires AsciiThenRune(s)
    ensures IntegersFit(s) <==> (s[|s| - 1] - INITIAL_N) * |s| + |s| - 1 <= MAX_INT
  {
    LastTurn(s);
    assert s[|s| - 1] !in s[..|s| - 1];
    hide Below, Turn;
    assert InReach(s, |s| - 1) <==> IntegersFit(s);
  }

  lemma LastIsNotBelow(s: seq<nat>)
    requires s != []
    ensures Below(s, s[|s| - 1]) == Below(s[..|s| - 1], s[|s| - 1])
    ensures Prior(s, s[|s| - 1]) == Prior(s[..|s| - 1], s[|s| - 1])
  {}

  lemma {:induction false} BasicOfAppended(a: seq<nat>, c: nat)
    requires c >= 0x80 && forall i :: 0 <= i < |a| ==> a[i] < 0x80
    ensures Basic(a + [c]) == a && |a| < Utf8Length(a + [c]) <= |a| + 4
    ensures NextRune(a + [c], INITIAL_N) == if c <= MAX_RUNE then c else MAX_RUNE + 1
  {
    AsciiIsBasic(a);
    assert (a + [c])[..|a|] == a;
    AppendedTail(a, c);
    AppendedBytes(a, c);
    hide Basic, NextRune, Utf8Length;
  }

  lemma {:induction false} AppendedTail(a: seq<nat>, c: nat)
    requires c >= 0x80 && forall i :: 0 <= i < |a| ==> a[i] < 0x80
    ensures NextRune(a + [c], INITIAL_N) == if c <= MAX_RUNE then c else MAX_RUNE + 1
  {
    if a != [] {
      AppendedTail(a[1..], c);
      assert (a + [c])[1..] == a[1..] + [c];
    } else {
      assert [] + [c] == [c];
    }
  }

  lemma {:induction false} AppendedBytes(a: seq<nat>, c: nat)
    requires forall i :: 0 <= i < |a| ==> a[i] < 0x80
    ensures |a| < Utf8Length(a + [c]) <= |a| + 4
  {
    if a != [] {
      AppendedBytes(a[1..], c);
      assert (a + [c])[1..] == a[1..] + [c];
    } else {
      assert [] + [c] == [c];
      assert Utf8.EncodeAll([c]) == Utf8.Encode(c) + Utf8.EncodeAll([]);
    }
  }

  lemma {:induction false} ScanHandles(s: seq<nat>, n: nat, j: nat, delta: nat, bias: nat, handled: nat, basic: nat)
    requires j < |s| && s[|s| - 1] == n
    ensures Scan(s, n, j, delta, bias, handled, basic).handled > handled
    decreases |s| - j
  {
    hide Adapt, Digits;
    if j + 1 < |s| {
      if s[j] == n {
        ScanHandles(s, n, j + 1, 0, Adapt(delta, handled + 1, handled == basic), handled + 1, basic);
      } else {
        ScanHandles(s, n, j + 1, if s[j] < n then delta + 1 else delta, bias, handled, basic);
      }
    }
  }

  /** ASCII text and one code point behind it: the two guards side by side. */
  lemma OneRuneEncodes(s: seq<nat>)
    requires AsciiThenRune(s) && Utf8Length(s) <= MAX_BYTES
    ensures Encode(s).Some? <==> (s[|s| - 1] - INITIAL_N) * |s| <= MAX_INT
  {
    var last := |s| - 1;
    assert s == s[..last] + [s[last]];
    BasicOfAppended(s[..last], s[last]);
    OneRuneIsValid(s);
    hide *;
    OneRuneIntegers(s);
    EncodeIsSome(s);
  }

  lemma OneRuneIsValid(s: seq<nat>)
    requires AsciiThenRune(s)
    ensures ValidRunes(s)
  {}

  lemma EncodeIsSome(s: seq<nat>)
    requires ValidRunes(s) && Utf8Length(s) <= MAX_BYTES
    ensures Encode(s).Some? <==> EncodeFrom(s, INITIAL_N, 0, INITIAL_BIAS, |Basic(s)|, |Basic(s)|).Some?
  {
    hide EncodeFrom, Basic, Utf8Length, ValidRunes;
  }

  lemma OneRuneIntegers(s: seq<nat>)
    requires AsciiThenRune(s) && NextRune(s, INITIAL_N) == s[|s| - 1]
    ensures EncodeFrom(s, INITIAL_N, 0, INITIAL_BIAS, |s| - 1, |s| - 1).Some? <==>
              (s[|s| - 1] - INITIAL_N) * |s| <= MAX_INT
  {
    var last := |s| - 1;
    var m := s[last];
    var p := Scan(s, m, 0, Turns(INITIAL_N, m, last), INITIAL_BIAS, last, last);
    ScanHandles(s, m, 0, Turns(INITIAL_N, m, last), INITIAL_BIAS, last, last);
    assert EncodeFrom(s, m + 1, p.delta + 1, p.bias, p.handled, last) == Some([]);
    hide Scan, NextRune;
  }

  /**
    The encoder's guard does not see the steps within a pass, which the decoder's does: of such texts those are
    encoded and cannot be read back for which the first product fits in 31 bits and the sum does not.
   */
  lemma OneRuneReadsBackIff(s: seq<nat>)
    requires AsciiThenRune(s) && Utf8Length(s) <= MAX_BYTES && Encode(s).Some? && |Encode(s).value| <= MAX_BYTES
    ensures Decode(Encode(s).value) == if (s[|s| - 1] - INITIAL_N) * |s| + |s| - 1 <= MAX_INT then Some(s) else None
  {
    LastOf(s);
    hide *;
    DecodeInvertsEncodeIff(s);
  }

  /** Such a text: 1999 times the letter a, and U+1062CD. */
  lemma EncodedButNotReadBack()
    ensures var s := seq(1999, _ => 97) + [0x1062CD];
            Encode(s).Some? && Decode(Encode(s).value).None?
  {
    var s := seq(1999, _ => 97) + [0x1062CD];
    BasicOfAppended(seq(1999, _ => 97), 0x1062CD);
    LastOf(s);
    hide *;
    OneRuneEncodes(s);
    DecodeInvertsEncodeIff(s);
  }

  /** Up to this many code points nothing is out of reach. */
  const SHORT := 1927

  lemma {:induction false} ShortInUtf8(s: seq<nat>)
    ensures Utf8Length(s) <= 4 * |s|
  {
    if s != [] {
      ShortInUtf8(s[1..]);
    }
  }

  lemma {:induction false} BelowBounded(s: seq<nat>, n: nat)
    ensures Below(s, n) <= |s|
    ensures n in s ==> Below(s, n) < |s|
  {
    if s != [] {
      BelowBounded(s[..|s| - 1], n);
      assert s == s[..|s| - 1] + [s[|s| - 1]];
    }
  }

  lemma {:induction false} BelowMonotone(s: seq<nat>, n: nat, j: nat)
    requires j <= |s|
    ensures Below(s[..j], n) <= Below(s, n)
    decreases |s|
  {
    if j < |s| {
      BelowMonotone(s[..|s| - 1], n, j);
      assert s[..|s| - 1][..j] == s[..j];
    } else {
      assert s[..j] == s;
    }
  }

  lemma ShortFits(s: seq<nat>)
    requires ValidRunes(s) && |s| <= SHORT
    ensures IntegersFit(s)
  {
    forall j | 0 <= j < |s| && s[j] >= INITIAL_N && s[j] !in s[..j]
      ensures InReach(s, j)
    {
      BelowBounded(s, s[j]);
      BelowMonotone(s, s[j], j);
      ShortTurn(s, s[j]);
      hide Below, Turn;
    }
  }

  lemma ShortTurn(s: seq<nat>, n: nat)
    requires INITIAL_N <= n <= MAX_RUNE && Below(s, n) < SHORT
    ensures Turn(s, n) <= (MAX_RUNE - INITIAL_N) * SHORT
  {
    var steps, count := n - Prior(s, n), Below(s, n) + 1;
    hide Below, Prior;
    ProductBound(steps, count, MAX_RUNE - INITIAL_N, SHORT);
  }

  /** Every valid input of up to 1927 code points is encoded and read back: no guard fires on either side. */
  lemma ShortRoundTrip(s: seq<nat>)
    requires ValidRunes(s) && |s| <= SHORT
    ensures Encode(s).Some? && Decode(Encode(s).value) == Some(s)
  {
    ShortInUtf8(s);
    ShortFits(s);
    BasicIsKept(s, |s|);
    assert s[..|s|] == s;
    KeepLength(s, INITIAL_N, 0, |s|);
    hide Decode, Encode, Utf8Length, IntegersFit, Keep;
    FittingIsEncoded(s);
    DecodeInvertsEncodeIff(s);
  }

  /** The bound is sharp: with one code point more there is an input that the encoder refuses. */
  lemma ShortIsSharp()
    ensures var s := seq(SHORT, _ => 97) + [MAX_RUNE];
            ValidRunes(s) && |s| == SHORT + 1 && Utf8Length(s) <= MAX_BYTES && Encode(s).None?
  {
    var s := seq(SHORT, _ => 97) + [MAX_RUNE];
    BasicOfAppended(seq(SHORT, _ => 97), MAX_RUNE);
    hide Encode, Utf8Length, Basic, NextRune;
    OneRuneEncodes(s);
  }

  // ----- The code -----------------------------------------------------------------------------

  method PunycodeAdapt(delta: nat, points: nat, first: bool) returns (bias: nat)
    requires points > 0
    ensures bias == Adapt(delta, points, first)
  {
    var d: nat := if first then delta / DAMP else delta / 2;
    d := d + d / points;
    var k: nat := 0;
    while d > (BASE - T_MIN) * T_MAX / 2
      invariant Scaled(d, k) == Adapt(delta, points, first)
    {
      d := d / (BASE - T_MIN);
      k := k + BASE;
    }
    bias := k + (BASE - T_MIN + 1) * d / (d + SKEW);
  }

  lemma PrependNothing(rest: Option<seq<nat>>)
    ensures Prepend([], rest) == rest
  {
    if rest.Some? {
      assert [] + rest.value == rest.value;
    }
  }

  lemma PrependToNothing(text: seq<nat>)
    ensures Prepend(text, Some([])) == Some(text)
  {
    assert text + [] == text;
  }

  method WriteInteger(delta: nat, bias: nat) returns (digits: seq<nat>)
    ensures digits == Digits(delta, BASE, bias)
  {
    digits := [];
    var q: nat, k: nat := delta, BASE;
    while q >= Threshold(k, bias)
      invariant digits + Digits(q, k, bias) == Digits(delta, BASE, bias)
      decreases q
    {
      var t := Threshold(k, bias);
      SplitDigit(q, t);
      digits := digits + [Digit(t + (q - t) % (BASE - t))];
      q := (q - t) / (BASE - t);
      k := k + BASE;
    }
    digits := digits + [Digit(q)];
  }

  method PunycodeEncode(input: seq<nat>) returns (output: Option<seq<nat>>)
    ensures output == Encode(input)
  {
    if !ValidRunes(input) || Utf8Length(input) > MAX_BYTES {
      return None;
    }
    var text := CopyBasic(input);
    var basic := |text|;
    if basic > 0 {
      text := text + [HYPHEN];
    }
    var integers := WriteIntegers(input, basic);
    if integers.None? {
      return None;
    }
    output := Some(text + integers.value);
  }

  /** The outer loop; the output built so far is `text`. */
  method WriteIntegers(input: seq<nat>, basic: nat) returns (output: Option<seq<nat>>)
    requires ValidRunes(input)
    ensures output == EncodeFrom(input, INITIAL_N, 0, INITIAL_BIAS, basic, basic)
  {
    ghost var all := EncodeFrom(input, INITIAL_N, 0, INITIAL_BIAS, basic, basic);
    var text: seq<nat> := [];
    var handled: nat := basic;
    var n: nat, delta: nat, bias: nat := INITIAL_N, 0, INITIAL_BIAS;
    assert n <= MAX_RUNE + 1;
    hide *;
    PrependNothing(all);
    while handled < |input|
      invariant n <= MAX_RUNE + 1
      invariant all == Prepend(text, EncodeFrom(input, n, delta, bias, handled, basic))
      decreases MAX_RUNE + 1 - n
    {
      var ok;
      ok, text, n, delta, bias, handled := AddRound(input, text, n, delta, bias, handled, basic, all);
      if !ok {
        return None;
      }
    }
    EncodeStops(input, n, delta, bias, handled, basic);
    PrependToNothing(text);
    output := Some(text);
  }

  /** The output with one more round behind it. */
  method AddRound(input: seq<nat>, text: seq<nat>, n: nat, delta: nat, bias: nat, handled: nat, basic: nat,
                  ghost all: Option<seq<nat>>)
    returns (ok: bool, longer: seq<nat>, m: nat, delta': nat, bias': nat, handled': nat)
    requires ValidRunes(input) && handled < |input| && n <= MAX_RUNE + 1
    requires all == Prepend(text, EncodeFrom(input, n, delta, bias, handled, basic))
    ensures !ok ==> all.None?
    ensures ok ==> n < m <= MAX_RUNE + 1 && all == Prepend(longer, EncodeFrom(input, m, delta', bias', handled', basic))
  {
    hide *;
    longer, m, delta', bias', handled' := text, n, delta, bias, handled;
    var round := WriteRound(input, n, delta, bias, handled, basic);
    ok := round.Some?;
    if !ok {
      PrependRefused(text);
      return;
    }
    var p := round.value.1;
    m, delta', bias', handled' := round.value.0 + 1, p.delta + 1, p.bias, p.handled;
    PrependTwice(text, p.digits, EncodeFrom(input, m, delta', bias', handled', basic));
    longer := text + p.digits;
  }

  /** One round: the next code point, the overflow guard, and the pass over the input. */
  method WriteRound(input: seq<nat>, n: nat, delta: nat, bias: nat, handled: nat, basic: nat)
    returns (round: Option<(nat, Pass)>)
    requires ValidRunes(input) && handled < |input| && n <= MAX_RUNE + 1
    ensures round.None? ==> EncodeFrom(input, n, delta, bias, handled, basic).None?
    ensures round.Some? ==>
              var (m, p) := round.value;
              && n <= m <= MAX_RUNE
              && EncodeFrom(input, n, delta, bias, handled, basic)
                 == Prepend(p.digits, EncodeFrom(input, m + 1, p.delta + 1, p.bias, p.handled, basic))
  {
    hide *;
    var m := FindNext(input, n);
    var turns := Turns(n, m, handled);
    NextIsRune(n, m, handled, delta);
    EncodeStep(input, n, m, turns, delta, bias, handled, basic);
    if turns > MAX_INT - delta {
      return None;
    }
    var pass := ScanPass(input, m, delta + turns, bias, handled, basic);
    round := Some((m, pass));
  }

  method CopyBasic(input: seq<nat>) returns (text: seq<nat>)
    ensures text == Basic(input)
  {
    text := [];
    for i := 0 to |input|
      invariant text == Basic(input[..i])
    {
      assert input[..i + 1][..i] == input[..i];
      if input[i] < 0x80 {
        text := text + [input[i]];
      }
    }
    assert input[..|input|] == input;
  }

  lemma PrependTwice(a: seq<nat>, b: seq<nat>, rest: Option<seq<nat>>)
    ensures Prepend(a, Prepend(b, rest)) == Prepend(a + b, rest)
  {
    if rest.Some? {
      assert a + (b + rest.value) == (a + b) + rest.value;
    }
  }

  lemma EncodeStops(s: seq<nat>, n: nat, delta: nat, bias: nat, handled: nat, basic: nat)
    requires handled >= |s|
    ensures EncodeFrom(s, n, delta, bias, handled, basic) == Some([])
  {}

  lemma PrependRefused(text: seq<nat>)
    ensures Prepend(text, None) == None
  {}

  /** One round of the outer loop; with no code point left, m is so large that the guard refuses. */
  lemma EncodeStep(s: seq<nat>, n: nat, m: nat, turns: int, delta: nat, bias: nat, handled: nat, basic: nat)
    requires handled < |s| && n <= m
    requires m == if NextRune(s, n) <= MAX_RUNE then NextRune(s, n) else MAX_INT64
    requires turns == Turns(n, m, handled)
    requires m == MAX_INT64 ==> turns > MAX_INT - delta
    ensures turns > MAX_INT - delta ==> EncodeFrom(s, n, delta, bias, handled, basic).None?
    ensures turns <= MAX_INT - delta ==>
              && m <= MAX_RUNE
              && var p := Scan(s, m, 0, delta + turns, bias, handled, basic);
                 EncodeFrom(s, n, delta, bias, handled, basic)
                 == Prepend(p.digits, EncodeFrom(s, m + 1, p.delta + 1, p.bias, p.handled, basic))
  {
    hide Scan, Turns;
  }

  method FindNext(input: seq<nat>, n: nat) returns (m: nat)
    requires ValidRunes(input)
    ensures m == if NextRune(input, n) <= MAX_RUNE then NextRune(input, n) else MAX_INT64
    ensures n <= MAX_RUNE + 1 ==> n <= m
  {
    m := MAX_INT64;
    for i := 0 to |input|
      invariant m == MAX_INT64 || (n <= m <= MAX_RUNE && m in input)
      invariant forall k :: 0 <= k < i && n <= input[k] ==> m <= input[k]
    {
      if n <= input[i] && input[i] < m {
        m := input[i];
      }
    }
    NextRuneExists(input, n);
  }

  lemma {:induction false} NextRuneExists(s: seq<nat>, n: nat)
    ensures forall i :: 0 <= i < |s| && n <= s[i] <= MAX_RUNE ==> NextRune(s, n) <= s[i]
    ensures NextRune(s, n) <= MAX_RUNE + 1
  {
    if s != [] {
      NextRuneExists(s[1..], n);
    }
  }

  lemma NextIsRune(n: nat, m: nat, handled: nat, delta: nat)
    requires n <= m && n <= MAX_RUNE + 1
    ensures m >= MAX_INT64 ==> Turns(n, m, handled) > MAX_INT - delta
  {
    ScaleBounds(handled + 1, m - n, 1);
  }

  method ScanPass(s: seq<nat>, n: nat, start: nat, bias0: nat, handled0: nat, basic: nat)
    returns (pass: Pass)
    ensures pass == Scan(s, n, 0, start, bias0, handled0, basic)
  {
    var digits: seq<nat>, delta: nat, bias, handled := [], start, bias0, handled0;
    for j := 0 to |s|
      invariant var rest := Scan(s, n, j, delta, bias, handled, basic);
                rest.(digits := digits + rest.digits) == Scan(s, n, 0, start, bias0, handled0, basic)
    {
      if s[j] < n {
        delta := delta + 1;
      }
      if s[j] == n {
        var integer := WriteInteger(delta, bias);
        digits := digits + integer;
        bias := PunycodeAdapt(delta, handled + 1, handled == basic);
        delta := 0;
        handled := handled + 1;
      }
    }
    pass := Pass(digits, delta, bias, handled);
  }

  method PunycodeDecode(input: seq<nat>) returns (output: Option<seq<nat>>)
    ensures output == Decode(input)
  {
    if |input| > MAX_BYTES {
      return None;
    }
    for i := 0 to |input|
      invariant forall k :: 0 <= k < i ==> input[k] < 0x80
    {
      if input[i] >= 0x80 {
        return None;
      }
    }
    var last := LastHyphen(input);
    if 0 <= last < |input| {
      output := ReadIntegers(input, last + 1, input[..last]);
    } else {
      output := ReadIntegers(input, 0, []);
    }
  }

  /** One integer is read and its rune inserted. */
  method ReadRune(input: seq<nat>, position: nat, runes: seq<nat>, n: nat, i: nat, bias: nat)
    returns (ok: bool, next: nat, longer: seq<nat>, m: nat, j: nat, adapted: nat)
    requires position < |input| && i <= MAX_INT
    ensures !ok ==> DecodeFrom(input, position, runes, n, i, bias).None?
    ensures ok ==> next > position && j <= MAX_INT
    ensures ok ==> DecodeFrom(input, position, runes, n, i, bias) == DecodeFrom(input, next, longer, m, j, adapted)
  {
    assert MAX_BYTES <= MAX_INT;
    hide *;
    ok, next, longer, m, j, adapted := false, position, runes, n, i, bias;
    DecodeUnfolds(input, position, runes, n, i, bias);
    var read := ReadInteger(input, position, i, bias);
    if read.None? {
      return;
    }
    var count := |runes| + 1;
    next := read.value.0;
    adapted := PunycodeAdapt(read.value.1 - i, count, i == 0);
    var turns := Div(read.value.1, count);
    j := Mod(read.value.1, count);
    if turns > MAX_INT - n {
      return;
    }
    m := n + turns;
    if m > MAX_RUNE || Surrogate(m) || |runes| >= MAX_BYTES {
      return;
    }
    longer := InsertRune(runes, j, m);
    j := j + 1;
    ok := true;
  }

  /** The main loop, from the position behind the last hyphen. */
  method ReadIntegers(input: seq<nat>, start: nat, basic: seq<nat>) returns (output: Option<seq<nat>>)
    ensures output == DecodeFrom(input, start, basic, INITIAL_N, 0, INITIAL_BIAS)
  {
    ghost var all := DecodeFrom(input, start, basic, INITIAL_N, 0, INITIAL_BIAS);
    var runes: seq<nat>, position := basic, start;
    var n: nat, i: nat, bias: nat := INITIAL_N, 0, INITIAL_BIAS;
    hide *;
    while position < |input|
      invariant i <= MAX_INT
      invariant DecodeFrom(input, position, runes, n, i, bias) == all
      decreases |input| - position
    {
      var ok;
      ok, position, runes, n, i, bias := ReadRune(input, position, runes, n, i, bias);
      if !ok {
        return None;
      }
    }
    DecodeStops(input, position, runes, n, i, bias);
    output := Some(runes);
  }

  lemma DecodeStops(input: seq<nat>, position: nat, runes: seq<nat>, n: nat, i: nat, bias: nat)
    requires i <= MAX_INT && position >= |input|
    ensures DecodeFrom(input, position, runes, n, i, bias) == Some(runes)
  {}

  /** Growing by one, moving the tail up and storing into the gap is an insertion. */
  method InsertRune(before: seq<nat>, i: nat, r: nat) returns (runes: seq<nat>)
    requires i <= |before|
    ensures runes == Insert(before, i, r)
  {
    runes := before + [0];
    runes := runes[..i + 1] + runes[i..|runes| - 1];
    runes := runes[i := r];
  }

  lemma DecodeUnfolds(input: seq<nat>, position: nat, runes: seq<nat>, n: nat, i: nat, bias: nat)
    requires i <= MAX_INT && position < |input|
    ensures var read := ReadDigits(input, position, i, 1, BASE, bias);
            if read.None? then DecodeFrom(input, position, runes, n, i, bias).None?
            else
              var (next, value) := read.value;
              var count := |runes| + 1;
              var (r, at) := (n + Div(value, count), Mod(value, count));
              DecodeFrom(input, position, runes, n, i, bias)
              == if Div(value, count) > MAX_INT - n || r > MAX_RUNE || Surrogate(r) || |runes| >= MAX_BYTES then None
                 else DecodeFrom(input, next, Insert(runes, at, r), r, at + 1, Adapt(value - i, count, i == 0))
  {
    hide ReadDigits, Adapt, Insert, Div, Mod;
  }

  /** One round of the decoder's inner loop. */
  lemma ReadUnfolds(input: seq<nat>, position: nat, i: nat, w: nat, k: nat, bias: nat, digit: nat, j: nat, x: nat)
    requires w >= 1 && i <= MAX_INT && position < |input| && DigitValue(input[position]) == Some(digit)
    requires j == i + digit * w && x == w * (BASE - Threshold(k, bias)) && x >= 1
    requires digit <= (MAX_INT - i) / w ==> j <= MAX_INT
    ensures ReadDigits(input, position, i, w, k, bias)
         == if digit > (MAX_INT - i) / w then None
            else if digit < Threshold(k, bias) then Some((position + 1, j))
            else if w > MAX_INT / (BASE - Threshold(k, bias)) then None
            else ReadDigits(input, position + 1, j, x, k + BASE, bias)
  {
    hide DigitValue, Threshold;
  }

  /** One digit of an integer: it cannot be read, it is the last one, or the place value goes up. */
  method ReadPlace(input: seq<nat>, position: nat, i: nat, w: nat, k: nat, bias: nat)
    returns (more: bool, read: Option<(nat, nat)>, j: nat, x: nat)
    requires w >= 1 && i <= MAX_INT
    ensures !more ==> read == ReadDigits(input, position, i, w, k, bias)
    ensures more ==> position < |input| && j <= MAX_INT && x >= 1
    ensures more ==> ReadDigits(input, position + 1, j, x, k + BASE, bias) == ReadDigits(input, position, i, w, k, bias)
  {
    hide ReadDigits, DigitValue, Threshold;
    more, read, j, x := false, None, 0, 1;
    if position >= |input| || DigitValue(input[position]).None? {
      ReadStops(input, position, i, w, k, bias);
      return;
    }
    var digit := DigitValue(input[position]).value;
    var t := Threshold(k, bias);
    Product(digit, w);
    FitsIffNoOverflow(digit, i, w);
    ScaleBounds(1, w, BASE - t);
    j, x := i + digit * w, w * (BASE - t);
    ReadUnfolds(input, position, i, w, k, bias, digit, j, x);
    if digit > (MAX_INT - i) / w {
      return;
    }
    if digit < t {
      read := Some((position + 1, j));
      return;
    }
    if w > MAX_INT / (BASE - t) {
      return;
    }
    more := true;
  }

  method ReadInteger(input: seq<nat>, start: nat, i0: nat, bias: nat) returns (read: Option<(nat, nat)>)
    requires i0 <= MAX_INT
    ensures read == ReadDigits(input, start, i0, 1, BASE, bias)
  {
    ghost var all := ReadDigits(input, start, i0, 1, BASE, bias);
    var position, i: nat, w: nat, k: nat := start, i0, 1, BASE;
    hide *;
    var more;
    more, read, i, w := ReadPlace(input, position, i, w, k, bias);
    while more
      invariant !more ==> read == all
      invariant more ==> position < |input| && w >= 1 && i <= MAX_INT
      invariant more ==> ReadDigits(input, position + 1, i, w, k + BASE, bias) == all
      decreases |input| - position, more
    {
      position, k := position + 1, k + BASE;
      more, read, i, w := ReadPlace(input, position, i, w, k, bias);
    }
  }

  lemma ReadStops(input: seq<nat>, position: nat, i: nat, w: nat, k: nat, bias: nat)
    requires w >= 1 && i <= MAX_INT
    requires position >= |input| || DigitValue(input[position]).None?
    ensures ReadDigits(input, position, i, w, k, bias).None?
  {}
}
