/**
  What a Punycode text denotes, after sections 3.2, 5, 6.1 and 6.2 of RFC 3492 and with the numbers given there:
  no guard against overflow, and nothing taken from the program.  Texts and strings are sequences of code points.
 */
module Rfc3492 {

  /** The letters stand for 0 to 25, in either case, and the digits for 26 to 35; -1 for any other code point. */
  ghost function DigitOf(c: nat): int {
    if 'a' as nat <= c <= 'z' as nat then c - 'a' as nat
    else if 'A' as nat <= c <= 'Z' as nat then c - 'A' as nat
    else if '0' as nat <= c <= '9' as nat then c - '0' as nat + 26
    else -1
  }

  ghost function Threshold(k: nat, bias: nat): nat {
    if k <= bias then 1 else if k >= bias + 26 then 26 else k - bias
  }

  /** The value of a generalized variable-length integer, where every digit but the last one reaches its threshold. */
  ghost function Value(t: seq<nat>, k: nat, bias: nat): int {
    if t == [] || DigitOf(t[0]) < 0 then -1
    else if |t| == 1 then if DigitOf(t[0]) < Threshold(k, bias) then DigitOf(t[0]) else -1
    else if DigitOf(t[0]) < Threshold(k, bias) || Value(t[1..], k + 36, bias) < 0 then -1
    else DigitOf(t[0]) + (36 - Threshold(k, bias)) * Value(t[1..], k + 36, bias)
  }

  ghost function Quotient(a: nat, b: nat): nat
    requires b > 0
  {
    a / b
  }

  ghost function Remainder(a: nat, b: nat): (r: nat)
    requires b > 0
    ensures r < b
  {
    a % b
  }

  /** Section 6.1. */
  ghost function Bias(delta: nat, points: nat, first: bool): nat
    requires points > 0
  {
    var part := if first then delta / 700 else delta / 2;
    Scaled(part + Quotient(part, points))
  }

  ghost function Scaled(delta: nat): nat {
    if delta > 455 then 36 + Scaled(delta / 35) else 36 * delta / (delta + 38)
  }

  /** A text of integers, each under the bias that the one before leads to. */
  ghost predicate Integers(t: seq<nat>, deltas: seq<nat>, bias: nat, points: nat, first: bool)
    decreases |deltas|
  {
    if deltas == [] then t == []
    else
      exists m :: 0 < m <= |t| && Value(t[..m], 36, bias) == deltas[0] &&
        Integers(t[m..], deltas[1..], Bias(deltas[0], points + 1, first), points + 1, false)
  }

  /** Section 6.2: each delta moves the position through the output, whose every turn is one code point more. */
  ghost function Insertions(output: seq<nat>, n: nat, i: nat, deltas: seq<nat>): seq<nat>
    decreases |deltas|
  {
    if deltas == [] then output
    else
      var place, turns := Remainder(i + deltas[0], |output| + 1), Quotient(i + deltas[0], |output| + 1);
      Insertions(output[..place] + [n + turns] + output[place..], n + turns, place + 1, deltas[1..])
  }

  /** The basic code points stand before the last hyphen, if there is one; the integers follow. */
  ghost predicate Parts(t: seq<nat>, basic: seq<nat>, integers: seq<nat>) {
    (forall k :: 0 <= k < |basic| ==> basic[k] < 128) && '-' as nat !in integers &&
    (t == basic + ['-' as nat] + integers || (basic == [] && t == integers))
  }

  /** The text t denotes the string s. */
  ghost predicate Denotes(t: seq<nat>, s: seq<nat>) {
    exists basic, integers, deltas ::
      Parts(t, basic, integers) && Integers(integers, deltas, 72, |basic|, true) &&
      Insertions(basic, 128, 0, deltas) == s
  }

  /** The form that encoding gives to a text: small letters in the integers, and no hyphen without basic code points. */
  ghost predicate Canonical(t: seq<nat>) {
    exists basic, integers :: Parts(t, basic, integers) && CanonicalParts(t, basic, integers)
  }

  ghost predicate CanonicalParts(t: seq<nat>, basic: seq<nat>, integers: seq<nat>) {
    (basic == [] ==> t == integers) && Small(integers)
  }

  ghost predicate Small(t: seq<nat>) {
    forall k :: 0 <= k < |t| ==> !('A' as nat <= t[k] <= 'Z' as nat)
  }

  // ----- A text has one reading, and a string one canonical text -----------------------------------

  lemma SmallDigits(c: nat, d: nat)
    requires DigitOf(c) == DigitOf(d) >= 0 && Small([c]) && Small([d])
    ensures c == d
  {
    assert [c][0] == c && [d][0] == d;
  }

  lemma {:induction false} Times(b: nat, x: nat, y: nat)
    requires x < y
    ensures b * x + b <= b * y
    decreases y
  {
    if x + 1 < y {
      Times(b, x, y - 1);
    }
    assert b * y == b * (y - 1) + b;
  }

  /** Digit and rest of an integer that goes on are determined. */
  lemma SplitUnique(b: nat, d: int, e: int, high: nat, other: nat)
    requires d - e < b && e - d < b && d + b * high == e + b * other
    ensures d == e && high == other
  {
    if high < other {
      Times(b, high, other);
    } else if other < high {
      Times(b, other, high);
    }
  }

  lemma ValueSplits(t: seq<nat>, k: nat, bias: nat)
    requires Value(t, k, bias) >= 0
    ensures t != [] && DigitOf(t[0]) >= 0
    ensures var d, b := DigitOf(t[0]), 36 - Threshold(k, bias);
            if |t| == 1 then Value(t, k, bias) == d < Threshold(k, bias)
            else Value(t[1..], k + 36, bias) >= 0 && d >= Threshold(k, bias) &&
                 Value(t, k, bias) == d + b * Value(t[1..], k + 36, bias) >= d
  {
    if |t| > 1 {
      AtLeastDigit(DigitOf(t[0]), 36 - Threshold(k, bias), Value(t[1..], k + 36, bias));
    }
  }

  lemma AtLeastDigit(d: nat, b: nat, high: nat)
    ensures d + b * high >= d
  {}

  lemma DigitBelow(c: nat)
    ensures DigitOf(c) < 36
  {}

  /** An integer has one text in small letters. */
  lemma {:induction false} IntegerUnique(t: seq<nat>, u: seq<nat>, k: nat, bias: nat)
    requires Value(t, k, bias) == Value(u, k, bias) >= 0 && Small(t) && Small(u)
    ensures t == u
  {
    hide Value, DigitOf;
    ValueSplits(t, k, bias);
    ValueSplits(u, k, bias);
    assert Small([t[0]]) && Small([u[0]]);
    if |t| > 1 && |u| > 1 {
      DigitBelow(t[0]);
      DigitBelow(u[0]);
      SplitUnique(36 - Threshold(k, bias), DigitOf(t[0]), DigitOf(u[0]), Value(t[1..], k + 36, bias),
                  Value(u[1..], k + 36, bias));
      IntegerUnique(t[1..], u[1..], k + 36, bias);
      assert t == [t[0]] + t[1..] && u == [u[0]] + u[1..];
    }
    SmallDigits(t[0], u[0]);
  }

  lemma NoText(t: seq<nat>, bias: nat, points: nat, first: bool)
    requires Integers(t, [], bias, points, first)
    ensures t == []
  {}

  lemma SmallParts(t: seq<nat>, m: nat)
    requires m <= |t| && Small(t)
    ensures Small(t[..m]) && Small(t[m..]) && t == t[..m] + t[m..]
  {}

  lemma FirstInteger(t: seq<nat>, deltas: seq<nat>, bias: nat, points: nat, first: bool) returns (m: nat)
    requires deltas != [] && Integers(t, deltas, bias, points, first)
    ensures 0 < m <= |t| && Value(t[..m], 36, bias) == deltas[0]
    ensures Integers(t[m..], deltas[1..], Bias(deltas[0], points + 1, first), points + 1, false)
  {
    m :| 0 < m <= |t| && Value(t[..m], 36, bias) == deltas[0] &&
      Integers(t[m..], deltas[1..], Bias(deltas[0], points + 1, first), points + 1, false);
  }

  lemma {:induction false} TextUnique(t: seq<nat>, u: seq<nat>, deltas: seq<nat>, bias: nat, points: nat, first: bool)
    requires Integers(t, deltas, bias, points, first) && Small(t)
    requires Integers(u, deltas, bias, points, first) && Small(u)
    ensures t == u
    decreases |deltas|
  {
    if deltas != [] {
      hide *;
      var m := FirstInteger(t, deltas, bias, points, first);
      var l := FirstInteger(u, deltas, bias, points, first);
      SmallParts(t, m);
      SmallParts(u, l);
      IntegerUnique(t[..m], u[..l], 36, bias);
      TextUnique(t[m..], u[l..], deltas[1..], Bias(deltas[0], points + 1, first), points + 1, false);
    } else {
      NoText(t, bias, points, first);
      NoText(u, bias, points, first);
    }
  }

  /** The code points of s up to m. */
  ghost function UpTo(s: seq<nat>, m: nat): seq<nat> {
    if s == [] then [] else UpTo(s[..|s| - 1], m) + if s[|s| - 1] <= m then [s[|s| - 1]] else []
  }

  lemma {:induction false} UpToConcat(a: seq<nat>, b: seq<nat>, m: nat)
    ensures UpTo(a + b, m) == UpTo(a, m) + UpTo(b, m)
  {
    if b == [] {
      assert a + b == a;
    } else {
      UpToConcat(a, b[..|b| - 1], m);
      assert (a + b)[..|a + b| - 1] == a + b[..|b| - 1];
    }
  }

  lemma {:induction false} UpToAll(s: seq<nat>, m: nat)
    requires forall k :: 0 <= k < |s| ==> s[k] <= m
    ensures UpTo(s, m) == s
  {
    if s != [] {
      var front := s[..|s| - 1];
      assert forall k :: 0 <= k < |front| ==> front[k] == s[k];
      UpToAll(front, m);
      assert s == front + [s[|s| - 1]];
    }
  }

  lemma InsertLarger(s: seq<nat>, place: nat, x: nat, m: nat)
    requires place <= |s| && x > m
    ensures UpTo(Insert(s, place, x), m) == UpTo(s, m)
  {
    UpToConcat(s[..place] + [x], s[place..], m);
    UpToConcat(s[..place], [x], m);
    UpToConcat(s[..place], s[place..], m);
    assert s == s[..place] + s[place..];
    assert [x][..0] == [];
  }

  /** What is inserted from n on does not show among the smaller code points. */
  lemma {:induction false} LaterAreLarger(output: seq<nat>, n: nat, i: nat, deltas: seq<nat>, m: nat)
    requires n > m
    ensures UpTo(Insertions(output, n, i, deltas), m) == UpTo(output, m)
    decreases |deltas|
  {
    if deltas != [] {
      var place, turns := Remainder(i + deltas[0], |output| + 1), Quotient(i + deltas[0], |output| + 1);
      InsertLarger(output, place, n + turns, m);
      LaterAreLarger(Insert(output, place, n + turns), n + turns, place + 1, deltas[1..], m);
    }
  }

  /** The decoder's output so far: nothing is larger than n, and n itself stands before the position. */
  ghost predicate Sorted(output: seq<nat>, n: nat, i: nat) {
    i <= |output| && forall k :: 0 <= k < |output| ==> output[k] <= n && (output[k] == n ==> k < i)
  }

  ghost function Insert(output: seq<nat>, place: nat, x: nat): seq<nat>
    requires place <= |output|
  {
    output[..place] + [x] + output[place..]
  }

  /** The delta that leads through so many turns of an output of this length and on to a place. */
  ghost function Distance(length: nat, i: nat, place: nat, turns: nat): int {
    turns * (length + 1) + place - i
  }

  /** One step: where the delta leads to. */
  lemma Step(output: seq<nat>, n: nat, i: nat, deltas: seq<nat>) returns (place: nat, turns: nat)
    requires Sorted(output, n, i) && deltas != []
    ensures deltas[0] == Distance(|output|, i, place, turns) && place <= |output| && (turns == 0 ==> place >= i)
    ensures Sorted(Insert(output, place, n + turns), n + turns, place + 1)
    ensures Insertions(output, n, i, deltas)
         == Insertions(Insert(output, place, n + turns), n + turns, place + 1, deltas[1..])
  {
    var v, c := i + deltas[0], |output| + 1;
    place, turns := Remainder(v, c), Quotient(v, c);
    assert v == turns * c + place;
    assert turns == 0 ==> place == v;
    InsertSorted(output, n, i, place, turns);
    hide Quotient, Remainder;
  }

  lemma InsertSorted(output: seq<nat>, n: nat, i: nat, place: nat, turns: nat)
    requires Sorted(output, n, i) && place <= |output| && (turns == 0 ==> place >= i)
    ensures Sorted(Insert(output, place, n + turns), n + turns, place + 1)
  {}

  /** What is inserted behind a position, or is larger, leaves the code points up to n in front of it as they are. */
  lemma {:induction false} FrontStays(output: seq<nat>, n: nat, i: nat, deltas: seq<nat>, p: nat)
    requires Sorted(output, n, i) && p < i
    ensures |UpTo(Insertions(output, n, i, deltas), n)| >= |output|
    ensures UpTo(Insertions(output, n, i, deltas), n)[..p + 1] == output[..p + 1]
    decreases |deltas|
  {
    hide *;
    SortedUpTo(output, n, i, n);
    SortedLength(output, n, i);
    if deltas == [] {
      NoInsertions(output, n, i);
    } else {
      var place, turns := Step(output, n, i, deltas);
      var longer := Insert(output, place, n + turns);
      if turns == 0 {
        InsertFront(output, place, n, p);
        FrontStays(longer, n, place + 1, deltas[1..], p);
      } else {
        LaterAreLarger(longer, n + turns, place + 1, deltas[1..], n);
        InsertLarger(output, place, n + turns, n);
      }
    }
  }

  lemma NoInsertions(output: seq<nat>, n: nat, i: nat)
    ensures Insertions(output, n, i, []) == output
  {}

  lemma InsertFront(output: seq<nat>, place: nat, x: nat, p: nat)
    requires p < place <= |output|
    ensures |Insert(output, place, x)| == |output| + 1 && Insert(output, place, x)[..p + 1] == output[..p + 1]
  {}

  lemma SortedLength(output: seq<nat>, n: nat, i: nat)
    requires Sorted(output, n, i)
    ensures i <= |output|
  {}

  lemma SortedUpTo(output: seq<nat>, n: nat, i: nat, m: nat)
    requires Sorted(output, n, i) && n <= m
    ensures UpTo(output, m) == output
  {
    UpToAll(output, m);
  }

  /** The first insertion can be seen in the result. */
  lemma FirstShows(output: seq<nat>, n: nat, i: nat, deltas: seq<nat>, place: nat, turns: nat)
    requires Sorted(output, n, i) && place <= |output| && (turns == 0 ==> place >= i)
    ensures var result := Insertions(Insert(output, place, n + turns), n + turns, place + 1, deltas);
            |UpTo(result, n + turns)| > |output| &&
            UpTo(result, n + turns)[..place + 1] == output[..place] + [n + turns] &&
            forall m :: n <= m < n + turns ==> UpTo(result, m) == output
  {
    hide Insertions, UpTo;
    var longer := Insert(output, place, n + turns);
    InsertSorted(output, n, i, place, turns);
    FrontStays(longer, n + turns, place + 1, deltas, place);
    assert longer[..place + 1] == output[..place] + [n + turns];
    var result := Insertions(longer, n + turns, place + 1, deltas);
    forall m | n <= m < n + turns
      ensures UpTo(result, m) == output
    {
      LaterAreLarger(longer, n + turns, place + 1, deltas, m);
      InsertLarger(output, place, n + turns, m);
      SortedUpTo(output, n, i, m);
    }
  }

  lemma {:induction false} LengthOf(output: seq<nat>, n: nat, i: nat, deltas: seq<nat>)
    ensures |Insertions(output, n, i, deltas)| == |output| + |deltas|
    decreases |deltas|
  {
    if deltas != [] {
      var place, turns := Remainder(i + deltas[0], |output| + 1), Quotient(i + deltas[0], |output| + 1);
      LengthOf(output[..place] + [n + turns] + output[place..], n + turns, place + 1, deltas[1..]);
    }
  }

  lemma SameFirst(output: seq<nat>, n: nat, i: nat, a: seq<nat>, b: seq<nat>, p: nat, t: nat, q: nat, u: nat)
    requires Sorted(output, n, i) && p <= |output| && q <= |output|
    requires (t == 0 ==> p >= i) && (u == 0 ==> q >= i)
    requires Insertions(Insert(output, p, n + t), n + t, p + 1, a)
          == Insertions(Insert(output, q, n + u), n + u, q + 1, b)
    ensures p == q && t == u
  {
    hide Insertions, UpTo;
    FirstShows(output, n, i, a, p, t);
    FirstShows(output, n, i, b, q, u);
    var result := Insertions(Insert(output, p, n + t), n + t, p + 1, a);
    assert t == u;
    var low := UpTo(result, n + t);
    hide Insert;
    if p < q {
      Earlier(output, low, p, q, n + t);
      assert false;
    }
    if q < p {
      Earlier(output, low, q, p, n + t);
      assert false;
    }
  }

  lemma Earlier(output: seq<nat>, low: seq<nat>, p: nat, q: nat, x: nat)
    requires p < q <= |output| && q < |low|
    requires low[..p + 1] == output[..p] + [x] && low[..q + 1] == output[..q] + [x]
    ensures output[p] == x
  {
    assert low[p] == low[..p + 1][p] && low[p] == low[..q + 1][p];
  }

  /** The deltas can be told from the result. */
  lemma {:induction false} DeltasUnique(output: seq<nat>, n: nat, i: nat, a: seq<nat>, b: seq<nat>)
    requires Sorted(output, n, i) && Insertions(output, n, i, a) == Insertions(output, n, i, b)
    ensures a == b
    decreases |a|
  {
    LengthOf(output, n, i, a);
    LengthOf(output, n, i, b);
    if a != [] {
      hide *;
      var p, t := Step(output, n, i, a);
      var q, u := Step(output, n, i, b);
      SameFirst(output, n, i, a[1..], b[1..], p, t, q, u);
      DeltasUnique(Insert(output, p, n + t), n + t, p + 1, a[1..], b[1..]);
      assert a == [a[0]] + a[1..] && b == [b[0]] + b[1..];
    }
  }

  lemma InsertionsUnfold(output: seq<nat>, n: nat, i: nat, delta: nat, rest: seq<nat>)
    ensures var place, turns := Remainder(i + delta, |output| + 1), Quotient(i + delta, |output| + 1);
            Insertions(output, n, i, [delta] + rest)
            == Insertions(Insert(output, place, n + turns), n + turns, place + 1, rest)
  {
    hide Quotient, Remainder;
    assert ([delta] + rest)[1..] == rest;
  }

  /** The basic code points of the result are those in front. */
  lemma BasicShows(basic: seq<nat>, deltas: seq<nat>)
    requires forall k :: 0 <= k < |basic| ==> basic[k] < 128
    ensures UpTo(Insertions(basic, 128, 0, deltas), 127) == basic
  {
    LaterAreLarger(basic, 128, 0, deltas, 127);
    UpToAll(basic, 127);
  }

  /** The parts of a text before and after its last hyphen are determined. */
  lemma PartsUnique(t: seq<nat>, basic: seq<nat>, integers: seq<nat>, b: seq<nat>, i: seq<nat>)
    requires Parts(t, basic, integers) && Parts(t, b, i) && '-' as nat in t
    ensures basic == b && integers == i
  {
    LastHyphen(t, basic, integers);
    LastHyphen(t, b, i);
  }

  lemma LastHyphen(t: seq<nat>, basic: seq<nat>, integers: seq<nat>)
    requires Parts(t, basic, integers) && '-' as nat in t
    ensures |basic| < |t| && t[|basic|] == '-' as nat && forall k :: |basic| < k < |t| ==> t[k] != '-' as nat
    ensures basic == t[..|basic|] && integers == t[|basic| + 1..]
  {
    assert t == basic + ['-' as nat] + integers;
    assert forall k :: |basic| < k < |t| ==> t[k] == integers[k - |basic| - 1];
  }

  /** The reading of a canonical text is by its canonical parts. */
  lemma Reading(t: seq<nat>, s: seq<nat>) returns (basic: seq<nat>, integers: seq<nat>, deltas: seq<nat>)
    requires Canonical(t) && Denotes(t, s)
    ensures Parts(t, basic, integers) && CanonicalParts(t, basic, integers)
    ensures Integers(integers, deltas, 72, |basic|, true) && Insertions(basic, 128, 0, deltas) == s
  {
    hide Integers, Insertions;
    var b, i :| Parts(t, b, i) && CanonicalParts(t, b, i);
    basic, integers, deltas :| Parts(t, basic, integers) && Integers(integers, deltas, 72, |basic|, true) &&
      Insertions(basic, 128, 0, deltas) == s;
    if '-' as nat in t {
      PartsUnique(t, basic, integers, b, i);
    } else {
      NoHyphen(t, basic, integers);
      NoHyphen(t, b, i);
    }
  }

  lemma NoHyphen(t: seq<nat>, basic: seq<nat>, integers: seq<nat>)
    requires Parts(t, basic, integers) && '-' as nat !in t
    ensures basic == [] && t == integers
  {
    assert (basic + ['-' as nat] + integers)[|basic|] == '-' as nat;
  }

  /** A string has at most one canonical text. */
  lemma OneText(t: seq<nat>, u: seq<nat>, s: seq<nat>)
    requires Canonical(t) && Canonical(u) && Denotes(t, s) && Denotes(u, s)
    ensures t == u
  {
    var b, i, deltas := Reading(t, s);
    var c, j, others := Reading(u, s);
    hide Integers, Insertions, Canonical, Denotes, UpTo;
    BasicShows(b, deltas);
    BasicShows(c, others);
    DeltasUnique(b, 128, 0, deltas, others);
    TextUnique(i, j, deltas, 72, |b|, true);
  }
}
