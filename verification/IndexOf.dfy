/** UTF-8 as a code on sequences of code points: what byte positions say about character positions. */
module Utf8 {
  import opened Occurrences

  const MAX_RUNE: nat := 0x10_FFFF

  ghost predicate Runes(s: seq<nat>) {
    forall i :: 0 <= i < |s| ==> s[i] <= MAX_RUNE
  }

  function Encode(c: nat): (bytes: seq<nat>)
    ensures bytes != []
  {
    if c < 0x80 then [c]
    else if c < 0x800 then [0xC0 + c / 64, 0x80 + c % 64]
    else if c < 0x1_0000 then [0xE0 + c / 4096, 0x80 + c / 64 % 64, 0x80 + c % 64]
    else [0xF0 + c / 262144, 0x80 + c / 4096 % 64, 0x80 + c / 64 % 64, 0x80 + c % 64]
  }

  function EncodeAll(s: seq<nat>): seq<nat> {
    if s == [] then [] else Encode(s[0]) + EncodeAll(s[1..])
  }

  /** utf8.RuneStart: not a continuation byte. */
  predicate RuneStart(b: nat) {
    b < 0x80 || b >= 0xC0
  }

  /** The byte position of character q. */
  ghost function Offset(s: seq<nat>, q: nat): nat
    requires q <= |s|
  {
    |EncodeAll(s[..q])|
  }

  lemma StartThenContinuation(c: nat)
    requires c <= MAX_RUNE
    ensures RuneStart(Encode(c)[0])
    ensures forall i :: 1 <= i < |Encode(c)| ==> !RuneStart(Encode(c)[i])
  {}

  /** The code is prefix-free: the first character of a text can be read off its bytes. */
  lemma FirstCharacter(a: nat, b: nat, x: seq<nat>, y: seq<nat>)
    requires a <= MAX_RUNE && b <= MAX_RUNE
    requires Encode(a) + x == Encode(b) + y
    ensures a == b && x == y
  {
    var all := Encode(a) + x;
    assert all[0] == Encode(a)[0] == Encode(b)[0];
    assert |Encode(a)| == |Encode(b)|;
    assert all[..|Encode(a)|] == Encode(a) == Encode(b);
    SameBytes(a, b);
    assert all[|Encode(a)|..] == x == y;
  }

  /** The value a byte sequence stands for. */
  function Value(e: seq<int>): int
    requires e != []
  {
    match |e|
    case 1 => e[0]
    case 2 => (e[0] - 0xC0) * 64 + (e[1] - 0x80)
    case 3 => (e[0] - 0xE0) * 4096 + (e[1] - 0x80) * 64 + (e[2] - 0x80)
    case _ => if |e| < 4 then 0 else (e[0] - 0xF0) * 262144 + (e[1] - 0x80) * 4096 + (e[2] - 0x80) * 64 + (e[3] - 0x80)
  }

  lemma Sextets(c: nat)
    ensures c == c / 64 * 64 + c % 64
    ensures c == c / 4096 * 4096 + c / 64 % 64 * 64 + c % 64
    ensures c == c / 262144 * 262144 + c / 4096 % 64 * 4096 + c / 64 % 64 * 64 + c % 64
  {
    assert c / 4096 == c / 64 / 64;
    assert c / 262144 == c / 4096 / 64;
  }

  lemma ValueOfEncode(c: nat)
    requires c <= MAX_RUNE
    ensures Value(Encode(c)) == c
    ensures |Encode(c)| == if c < 128 then 1 else if c < 2048 then 2 else if c < 65536 then 3 else 4
  {
    Sextets(c);
  }

  lemma SameBytes(a: nat, b: nat)
    requires a <= MAX_RUNE && b <= MAX_RUNE && Encode(a) == Encode(b)
    ensures a == b
  {
    hide Value, Encode;
    ValueOfEncode(a);
    ValueOfEncode(b);
  }

  lemma {:induction false} EncodeConcat(a: seq<nat>, b: seq<nat>)
    ensures EncodeAll(a + b) == EncodeAll(a) + EncodeAll(b)
  {
    hide Encode;
    if a == [] {
      assert a + b == b;
    } else {
      EncodeConcat(a[1..], b);
      assert (a + b)[1..] == a[1..] + b;
    }
  }

  lemma SplitAt(s: seq<nat>, q: nat)
    requires q <= |s|
    ensures EncodeAll(s) == EncodeAll(s[..q]) + EncodeAll(s[q..])
    ensures EncodeAll(s)[Offset(s, q)..] == EncodeAll(s[q..])
    ensures Offset(s, q) <= |EncodeAll(s)|
  {
    hide Encode, EncodeAll;
    var left, right := s[..q], s[q..];
    assert left + right == s;
    EncodeConcat(left, right);
    var front, back := EncodeAll(left), EncodeAll(right);
    assert (front + back)[|front|..] == back;
  }

  /** Character q takes the bytes from its offset to the next one: a start byte and continuation bytes. */
  lemma CharacterBytes(s: seq<nat>, q: nat)
    requires Runes(s) && q < |s|
    ensures Offset(s, q) < Offset(s, q + 1) <= |EncodeAll(s)|
    ensures RuneStart(EncodeAll(s)[Offset(s, q)])
    ensures forall i :: Offset(s, q) < i < Offset(s, q + 1) ==> !RuneStart(EncodeAll(s)[i])
  {
    hide Encode, RuneStart;
    var bytes, o, c := EncodeAll(s), Offset(s, q), Encode(s[q]);
    SplitAt(s, q);
    NextOffset(s, q);
    SplitAt(s, q + 1);
    StartThenContinuation(s[q]);
    assert bytes[o..] == c + EncodeAll(s[q..][1..]);
    hide *;
    BytesFrom(bytes, o, c, EncodeAll(s[q..][1..]));
  }

  lemma BytesFrom(bytes: seq<nat>, o: nat, c: seq<nat>, rest: seq<nat>)
    requires o <= |bytes| && bytes[o..] == c + rest
    ensures forall i :: o <= i < o + |c| ==> bytes[i] == c[i - o]
  {
    forall i | o <= i < o + |c|
      ensures bytes[i] == c[i - o]
    {
      assert bytes[o..][i - o] == bytes[i];
    }
  }

  lemma NextOffset(s: seq<nat>, q: nat)
    requires q < |s|
    ensures Offset(s, q + 1) == Offset(s, q) + |Encode(s[q])|
  {
    hide Encode;
    assert s[..q + 1] == s[..q] + [s[q]];
    EncodeConcat(s[..q], [s[q]]);
    assert EncodeAll([s[q]]) == Encode(s[q]);
  }

  lemma {:induction false} OffsetMonotone(s: seq<nat>, a: nat, b: nat)
    requires Runes(s) && a <= b <= |s|
    ensures Offset(s, a) + (b - a) <= Offset(s, b)
    decreases b
  {
    if a < b {
      OffsetMonotone(s, a, b - 1);
      CharacterBytes(s, b - 1);
    }
  }

  lemma OffsetEnds(s: seq<nat>)
    ensures Offset(s, 0) == 0 && Offset(s, |s|) == |EncodeAll(s)|
  {
    assert s[..0] == [] && s[..|s|] == s;
  }

  /** A start byte is the beginning of a character. */
  lemma {:induction false} StartIsOffset(s: seq<nat>, p: nat, q: nat) returns (at: nat)
    requires Runes(s) && q <= |s| && p < Offset(s, q) <= |EncodeAll(s)|
    requires RuneStart(EncodeAll(s)[p])
    ensures at < q && Offset(s, at) == p
    decreases q
  {
    OffsetEnds(s);
    CharacterBytes(s, q - 1);
    if p >= Offset(s, q - 1) {
      at := q - 1;
    } else {
      at := StartIsOffset(s, p, q - 1);
    }
  }

  /** A byte-wise prefix of a text is a character-wise prefix. */
  lemma {:induction false} PrefixOfBytes(s: seq<nat>, m: seq<nat>)
    requires Runes(s) && Runes(m) && EncodeAll(m) <= EncodeAll(s)
    ensures m <= s
  {
    hide Encode;
    if m != [] {
      assert s != [];
      var rest := EncodeAll(s)[|EncodeAll(m)|..];
      assert EncodeAll(s) == EncodeAll(m) + rest;
      assert EncodeAll(m) + rest == Encode(m[0]) + (EncodeAll(m[1..]) + rest);
      FirstCharacter(s[0], m[0], EncodeAll(s[1..]), EncodeAll(m[1..]) + rest);
      PrefixOfBytes(s[1..], m[1..]);
    }
  }

  lemma BytesOfOccurrence(s: seq<nat>, m: seq<nat>, q: nat)
    requires Runes(s) && OccursAt(s, m, q)
    ensures Offset(s, q + |m|) == Offset(s, q) + |EncodeAll(m)| <= |EncodeAll(s)|
    ensures EncodeAll(s)[Offset(s, q)..Offset(s, q + |m|)] == EncodeAll(m)
  {
    var k := q + |m|;
    assert s[..k] == s[..q] + m;
    EncodeConcat(s[..q], m);
    SplitAt(s, k);
    assert EncodeAll(s)[..Offset(s, k)] == EncodeAll(s[..k]);
  }

  /** On valid UTF-8 a byte match is a character match, and it begins and ends between characters. */
  lemma ByteMatchIsOccurrence(s: seq<nat>, m: seq<nat>, p: nat) returns (q: nat)
    requires Runes(s) && Runes(m) && m != []
    requires p + |EncodeAll(m)| <= |EncodeAll(s)| && EncodeAll(s)[p..p + |EncodeAll(m)|] == EncodeAll(m)
    ensures OccursAt(s, m, q) && Offset(s, q) == p && Offset(s, q + |m|) == p + |EncodeAll(m)|
  {
    StartsWithStart(m);
    OffsetEnds(s);
    hide *;
    assert EncodeAll(s)[p] == EncodeAll(s)[p..p + |EncodeAll(m)|][0];
    q := StartIsOffset(s, p, |s|);
    SplitAt(s, q);
    assert EncodeAll(s[q..])[..|EncodeAll(m)|] == EncodeAll(m);
    PrefixIsOccurrence(s, m, q);
    BytesOfOccurrence(s, m, q);
  }

  lemma StartsWithStart(m: seq<nat>)
    requires Runes(m) && m != []
    ensures EncodeAll(m) != [] && RuneStart(EncodeAll(m)[0])
  {
    StartThenContinuation(m[0]);
  }

  lemma PrefixIsOccurrence(s: seq<nat>, m: seq<nat>, q: nat)
    requires Runes(s) && Runes(m) && q <= |s| && EncodeAll(m) <= EncodeAll(s[q..])
    ensures OccursAt(s, m, q)
  {
    hide EncodeAll;
    PrefixOfBytes(s[q..], m);
    assert s[q..q + |m|] == s[q..][..|m|];
  }
}

/** kqlIndexOf in internal/database/kql_indexof.go. */
module IndexOf {
  import opened Kmp
  import opened Limits
  import opened Occurrences
  import opened Utf8

  /** Where a window of `length` characters from `lo` ends; a negative length is no limit. */
  function Limit(w: seq<nat>, lo: nat, length: int): int {
    if 0 <= length < |w| - lo then lo + length else |w|
  }

  /**
    The naive search: the n-th match by character position, where each match lies wholly inside
    a window of `length` characters that starts one past the previous match.  `q` scans from `lo`.
   */
  ghost function Nth(w: seq<nat>, m: seq<nat>, lo: nat, q: nat, length: int, n: nat): int
    decreases |w| + 1 - q
  {
    if q + |m| > Limit(w, lo, length) || q > |w| then -1
    else if !OccursAt(w, m, q) then Nth(w, m, lo, q + 1, length, n)
    else if n <= 1 then q
    else Nth(w, m, q + 1, q + 1, length, n - 1)
  }

  datatype Answer = Null | ZeroOccurrence | TooLong | At(position: int)

  ghost function IndexOf(text: seq<nat>, m: seq<nat>, start: int, length: int, occurrence: int): Answer {
    var s := if start < 0 then start + |text| else start;
    if s < 0 || length < -1 || occurrence < 0 then Null
    else if occurrence == 0 then ZeroOccurrence
    else if s > |text| then At(-1)
    else
      var q := Nth(text[s..], m, 0, 0, length, occurrence);
      At(if q < 0 then -1 else s + q)
  }

  // ----- What the naive search finds --------------------------------------------------------

  /** q is the first match at or after lo, and it lies inside the window from lo. */
  ghost predicate FirstInWindow(w: seq<nat>, m: seq<nat>, lo: nat, length: int, q: nat) {
    && lo <= q && q + |m| <= Limit(w, lo, length) && OccursAt(w, m, q)
    && forall p :: lo <= p < q ==> !OccursAt(w, m, p)
  }

  ghost predicate NoneInWindow(w: seq<nat>, m: seq<nat>, lo: nat, length: int) {
    forall p :: lo <= p && p + |m| <= Limit(w, lo, length) ==> !OccursAt(w, m, p)
  }

  /** The chain of matches that Nth follows, as a relation. */
  ghost predicate Chain(w: seq<nat>, m: seq<nat>, lo: nat, length: int, found: seq<nat>)
    decreases |found|
  {
    found == [] || (FirstInWindow(w, m, lo, length, found[0]) && Chain(w, m, found[0] + 1, length, found[1..]))
  }

  lemma {:induction false} NthFollowsChain(w: seq<nat>, m: seq<nat>, lo: nat, q: nat, length: int, n: nat)
    returns (found: seq<nat>)
    requires n >= 1 && lo <= q && forall p :: lo <= p < q ==> !OccursAt(w, m, p)
    ensures Chain(w, m, lo, length, found)
    ensures Nth(w, m, lo, q, length, n) >= 0 ==> |found| == n && found[n - 1] == Nth(w, m, lo, q, length, n)
    ensures Nth(w, m, lo, q, length, n) < 0 ==>
              |found| < n && NoneInWindow(w, m, if found == [] then lo else found[|found| - 1] + 1, length)
    decreases |w| + 1 - q
  {
    if q + |m| > Limit(w, lo, length) || q > |w| {
      found := [];
    } else if !OccursAt(w, m, q) {
      found := NthFollowsChain(w, m, lo, q + 1, length, n);
    } else if n == 1 {
      found := [q];
    } else {
      var rest := NthFollowsChain(w, m, q + 1, q + 1, length, n - 1);
      found := [q] + rest;
      assert found[1..] == rest;
    }
  }

  // ----- The same in positions of the text ----------------------------------------------------

  /** q is the first occurrence of m at or after lo, and ends within `length` characters of lo, if that is a limit. */
  ghost predicate FirstAt(text: seq<nat>, m: seq<nat>, lo: nat, length: int, q: nat) {
    lo <= q && OccursAt(text, m, q) && (length >= 0 ==> q + |m| <= lo + length) &&
    forall p :: lo <= p < q ==> !OccursAt(text, m, p)
  }

  ghost predicate NoneAt(text: seq<nat>, m: seq<nat>, lo: nat, length: int) {
    forall p :: lo <= p && (length >= 0 ==> p + |m| <= lo + length) ==> !OccursAt(text, m, p)
  }

  /** Occurrences, each the first in a window that starts one past the occurrence before. */
  ghost predicate Windows(text: seq<nat>, m: seq<nat>, lo: nat, length: int, found: seq<nat>)
    decreases |found|
  {
    found == [] || (FirstAt(text, m, lo, length, found[0]) && Windows(text, m, found[0] + 1, length, found[1..]))
  }

  lemma OccursShifted(text: seq<nat>, m: seq<nat>, s: nat, p: nat)
    requires s <= |text|
    ensures OccursAt(text[s..], m, p) <==> OccursAt(text, m, s + p)
  {
    if p + |m| <= |text| - s {
      assert text[s..][p..p + |m|] == text[s + p..s + p + |m|];
    }
  }

  lemma FirstShifted(text: seq<nat>, m: seq<nat>, s: nat, lo: nat, length: int, q: nat)
    requires s <= |text| && FirstInWindow(text[s..], m, lo, length, q)
    ensures FirstAt(text, m, s + lo, length, s + q)
  {
    OccursShifted(text, m, s, q);
    forall p | s + lo <= p < s + q
      ensures !OccursAt(text, m, p)
    {
      OccursShifted(text, m, s, p - s);
    }
  }

  lemma NoneShifted(text: seq<nat>, m: seq<nat>, s: nat, lo: nat, length: int)
    requires s <= |text| && NoneInWindow(text[s..], m, lo, length)
    ensures NoneAt(text, m, s + lo, length)
  {
    forall p | s + lo <= p && (length >= 0 ==> p + |m| <= s + lo + length)
      ensures !OccursAt(text, m, p)
    {
      OccursShifted(text, m, s, p - s);
    }
  }

  function Shifted(found: seq<nat>, s: nat): seq<nat> {
    seq(|found|, i requires 0 <= i < |found| => s + found[i])
  }

  lemma {:induction false} ChainShifted(text: seq<nat>, m: seq<nat>, s: nat, lo: nat, length: int, found: seq<nat>)
    requires s <= |text| && Chain(text[s..], m, lo, length, found)
    ensures Windows(text, m, s + lo, length, Shifted(found, s))
    decreases |found|
  {
    hide FirstInWindow, FirstAt;
    if found != [] {
      FirstShifted(text, m, s, lo, length, found[0]);
      ChainShifted(text, m, s, found[0] + 1, length, found[1..]);
      assert Shifted(found, s)[1..] == Shifted(found[1..], s);
      assert s + (found[0] + 1) == Shifted(found, s)[0] + 1;
    }
  }

  /**
    What indexof answers: null for a start before the text, a length below -1 or a negative occurrence; else the
    occurrence with that number, where a negative start counts from the end of the text, and -1 if there are fewer.
   */
  lemma IndexOfCounts(text: seq<nat>, m: seq<nat>, start: int, length: int, occurrence: int) returns (found: seq<nat>)
    ensures var s := if start < 0 then start + |text| else start;
            var r := IndexOf(text, m, start, length, occurrence);
            if s < 0 || length < -1 || occurrence < 0 then r == Null
            else if occurrence == 0 then r == ZeroOccurrence
            else if s > |text| then r == At(-1)
            else
              Windows(text, m, s, length, found) && |found| <= occurrence &&
              if |found| == occurrence then r == At(found[occurrence - 1])
              else r == At(-1) && NoneAt(text, m, if found == [] then s else found[|found| - 1] + 1, length)
  {
    var s := if start < 0 then start + |text| else start;
    found := [];
    if 0 <= s <= |text| && length >= -1 && occurrence >= 1 {
      var w := text[s..];
      hide Nth, Chain, Windows, NoneAt, NoneInWindow;
      var chain := NthFollowsChain(w, m, 0, 0, length, occurrence);
      ChainShifted(text, m, s, 0, length, chain);
      found := Shifted(chain, s);
      if Nth(w, m, 0, 0, length, occurrence) < 0 {
        NoneShifted(text, m, s, if chain == [] then 0 else chain[|chain| - 1] + 1, length);
      }
    }
  }

  /** The empty string matches everywhere, whatever the window length. */
  lemma {:induction false} EmptyMatch(w: seq<nat>, lo: nat, length: int, n: nat)
    requires n >= 1
    ensures Nth(w, [], lo, lo, length, n) == if lo + n - 1 <= |w| then lo + n - 1 else -1
    decreases n
  {
    if lo <= |w| {
      assert OccursAt(w, [], lo);
      if n > 1 {
        EmptyMatch(w, lo + 1, length, n - 1);
      }
    }
  }

  // ----- The scan ---------------------------------------------------------------------------

  /** The state of the byte loop: c characters are complete, and no match ending by then is pending. */
  ghost predicate Scanned(w: seq<nat>, m: seq<nat>, lo: nat, length: int, n: nat, q: nat, i: nat, c: nat) {
    && c <= |w| && Offset(w, c) <= i && (c < |w| ==> i < Offset(w, c + 1))
    && lo <= q && c + 1 <= q + |m| && (q == lo || q + |m| == c + 1)
    && (lo == 0 || lo + |m| <= c + 1)
  }

  method RuneCount(ghost s: seq<nat>, bytes: seq<nat>) returns (count: nat)
    requires Runes(s) && bytes == EncodeAll(s)
    ensures count == |s|
  {
    count := 0;
    ghost var c := 0;
    OffsetEnds(s);
    for i := 0 to |bytes|
      invariant c <= |s| && Offset(s, c) <= i && (c < |s| ==> i < Offset(s, c + 1))
      invariant count == if i == Offset(s, c) then c else c + 1
    {
      ghost var before := c;
      c := NextByte(s, i, c);
      if RuneStart(bytes[i]) {
        count := count + 1;
      }
    }
    AllComplete(s, |bytes|, c);
  }

  lemma AllComplete(s: seq<nat>, i: nat, c: nat)
    requires Runes(s) && i == |EncodeAll(s)|
    requires c <= |s| && Offset(s, c) <= i && (c < |s| ==> i < Offset(s, c + 1))
    ensures c == |s|
  {
    OffsetEnds(s);
    if c < |s| {
      OffsetMonotone(s, c + 1, |s|);
    }
  }

  /** Moving one byte on: a character is complete when its last byte has been read. */
  lemma NextByte(s: seq<nat>, i: nat, c: nat) returns (c': nat)
    requires Runes(s) && i < |EncodeAll(s)|
    requires c <= |s| && Offset(s, c) <= i && (c < |s| ==> i < Offset(s, c + 1))
    ensures c < |s| && c' == (if i + 1 == Offset(s, c + 1) then c + 1 else c)
    ensures Offset(s, c') <= i + 1 && (c' < |s| ==> i + 1 < Offset(s, c' + 1))
    ensures RuneStart(EncodeAll(s)[i]) <==> i == Offset(s, c)
  {
    OffsetEnds(s);
    CharacterBytes(s, c);
    c' := if i + 1 == Offset(s, c + 1) then c + 1 else c;
    if c' < |s| {
      CharacterBytes(s, c');
    }
  }

  /** A match ends at byte i exactly when one ends with the character that is complete there. */
  lemma MatchAtByte(w: seq<nat>, m: seq<nat>, i: nat, c: nat)
    requires Runes(w) && Runes(m) && m != []
    requires c <= |w| && Offset(w, c) <= i <= |EncodeAll(w)| && (c < |w| ==> i < Offset(w, c + 1))
    ensures MatchEnds(EncodeAll(w), i, EncodeAll(m))
       <==> i == Offset(w, c) && |m| <= c && OccursAt(w, m, c - |m|)
  {
    hide EncodeAll, OccursAt, MatchEnds, Offset;
    if MatchEnds(EncodeAll(w), i, EncodeAll(m)) {
      var q := MatchOccurs(w, m, i);
      if q + |m| < c {
        OffsetMonotone(w, q + |m|, c);
      } else if q + |m| > c {
        OffsetMonotone(w, c + 1, q + |m|);
      }
    }
    if i == Offset(w, c) && |m| <= c && OccursAt(w, m, c - |m|) {
      OccurrenceMatches(w, m, c - |m|);
    }
  }

  lemma MatchOccurs(w: seq<nat>, m: seq<nat>, i: nat) returns (q: nat)
    requires Runes(w) && Runes(m) && m != []
    requires MatchEnds(EncodeAll(w), i, EncodeAll(m))
    ensures OccursAt(w, m, q) && q + |m| <= |w| && Offset(w, q + |m|) == i
  {
    hide EncodeAll;
    q := ByteMatchIsOccurrence(w, m, i - |EncodeAll(m)|);
  }

  lemma OccurrenceMatches(w: seq<nat>, m: seq<nat>, q: nat)
    requires Runes(w) && OccursAt(w, m, q) && q + |m| <= |w|
    ensures MatchEnds(EncodeAll(w), Offset(w, q + |m|), EncodeAll(m))
  {
    hide EncodeAll;
    BytesOfOccurrence(w, m, q);
  }

  /** No match ends with the byte just read: the naive scan moves along. */
  lemma NoMatchHere(w: seq<nat>, m: seq<nat>, lo: nat, length: int, n: nat, q: nat, i: nat, c: nat, c': nat)
    returns (q': nat)
    requires m != [] && Scanned(w, m, lo, length, n, q, i, c)
    requires c < |w| && c' == (if i + 1 == Offset(w, c + 1) then c + 1 else c)
    requires Offset(w, c') <= i + 1 && (c' < |w| ==> i + 1 < Offset(w, c' + 1))
    requires i + 1 == Offset(w, c') && |m| <= c' ==> !OccursAt(w, m, c' - |m|)
    requires c + 1 <= Limit(w, lo, length)
    ensures Scanned(w, m, lo, length, n, q', i + 1, c')
    ensures Nth(w, m, lo, q', length, n) == Nth(w, m, lo, q, length, n)
  {
    q' := if c' == c + 1 && q + |m| == c' then q + 1 else q;
  }

  /** A match ends with the byte just read: the naive scan finds it too, inside its window. */
  lemma MatchHere(w: seq<nat>, m: seq<nat>, lo: nat, length: int, n: nat, q: nat, i: nat, c: nat, c': nat)
    requires m != [] && n >= 1 && Scanned(w, m, lo, length, n, q, i, c)
    requires c < |w| && c' == c + 1 && i + 1 == Offset(w, c') && (c' < |w| ==> i + 1 < Offset(w, c' + 1))
    requires |m| <= c' <= Limit(w, lo, length) && OccursAt(w, m, c' - |m|)
    ensures var p := c' - |m|;
            && Nth(w, m, lo, q, length, n) == (if n == 1 then p else Nth(w, m, p + 1, p + 1, length, n - 1))
            && Scanned(w, m, p + 1, length, n - 1, p + 1, i + 1, c')
  {
    var p := c' - |m|;
    assert q <= p;
    assert q == p;
  }

  /** The byte loop over the window, with the failure table of the search string. */
  method Scan(ghost w: seq<nat>, ghost m: seq<nat>, window: seq<nat>, pattern: seq<nat>, failure: seq<nat>,
              characters: nat, matchCharacters: nat, length: int, occurrence0: nat)
    returns (position: int)
    requires Runes(w) && Runes(m) && m != [] && occurrence0 >= 1
    requires window == EncodeAll(w) && pattern == EncodeAll(m) && IsFailureTable(pattern, failure)
    requires characters == |w| && matchCharacters == |m|
    ensures position == Nth(w, m, 0, 0, length, occurrence0)
  {
    hide EncodeAll, Nth, OccursAt, MatchEnds, Offset, EndsWith, Runes;
    var occurrence := occurrence0;
    var characterPosition := 0;
    var searchEnd := if 0 <= length < characters then length else characters;
    var j := 0;
    ghost var lo: nat, q: nat, c: nat := 0, 0, 0;
    ScanStarts(w, m, length, occurrence);
    for i := 0 to |window|
      invariant Scanned(w, m, lo, length, occurrence, q, i, c)
      invariant occurrence >= 1 && searchEnd == Limit(w, lo, length)
      invariant characterPosition == if i == Offset(w, c) then c else c + 1
      invariant Longest(window, i, pattern, j)
      invariant Nth(w, m, lo, q, length, occurrence) == Nth(w, m, 0, 0, length, occurrence0)
    {
      ghost var c' := NextByte(w, i, c);
      if RuneStart(window[i]) {
        characterPosition := characterPosition + 1;
      }
      if characterPosition > searchEnd {
        PastTheWindow(w, m, lo, length, occurrence, q);
        return -1;
      }
      ghost var from := j;
      ghost var fallbacks;
      j, fallbacks := Advance(window, i, pattern, failure, |pattern|, j);
      ExtendsLongest(window, i, pattern, from, j);
      MatchAtByte(w, m, i + 1, c');
      if j == |pattern| {
        FullMatch(window, i + 1, pattern);
        MatchHere(w, m, lo, length, occurrence, q, i, c, c');
        occurrence := occurrence - 1;
        var matchPosition := characterPosition - matchCharacters;
        if occurrence == 0 {
          return matchPosition;
        }
        var searchStart := matchPosition + 1;
        searchEnd := characters;
        if length >= 0 && length < searchEnd - searchStart {
          searchEnd := searchStart + length;
        }
        lo, q := searchStart, searchStart;
        AfterMatch(window, i + 1, pattern, failure[j - 1]);
        j := failure[j - 1];
      } else {
        NotFullMatch(window, i + 1, pattern, j);
        q := NoMatchHere(w, m, lo, length, occurrence, q, i, c, c');
        ShortOfPattern(window, i + 1, pattern, j);
      }
      c := c';
    }
    AllComplete(w, |window|, c);
    PastTheWindow(w, m, lo, length, occurrence, q);
    position := -1;
  }

  lemma ScanStarts(w: seq<nat>, m: seq<nat>, length: int, n: nat)
    requires Runes(w) && m != []
    ensures Scanned(w, m, 0, length, n, 0, 0, 0)
    ensures Longest(EncodeAll(w), 0, EncodeAll(m), 0)
  {
    OffsetEnds(w);
    if w != [] {
      CharacterBytes(w, 0);
    }
  }

  lemma PastTheWindow(w: seq<nat>, m: seq<nat>, lo: nat, length: int, n: nat, q: nat)
    requires q + |m| > Limit(w, lo, length)
    ensures Nth(w, m, lo, q, length, n) == -1
  {}

  /** The byte index of character `start`, found by counting characters. */
  method ByteIndex(ghost s: seq<nat>, bytes: seq<nat>, start: nat) returns (beginByte: nat)
    requires Runes(s) && bytes == EncodeAll(s) && start <= |s|
    ensures beginByte == Offset(s, start)
  {
    hide EncodeAll, Runes;
    beginByte := |bytes|;
    var position := 0;
    ghost var c := 0;
    OffsetEnds(s);
    if s != [] {
      CharacterBytes(s, 0);
    }
    for i := 0 to |bytes|
      invariant c <= |s| && Offset(s, c) <= i && (c < |s| ==> i < Offset(s, c + 1))
      invariant position == if i == Offset(s, c) then c else c + 1
      invariant beginByte == if start < position then Offset(s, start) else |bytes|
    {
      ghost var before := c;
      c := NextByte(s, i, c);
      if RuneStart(bytes[i]) {
        if position == start {
          beginByte := i;
        }
        position := position + 1;
      }
    }
    AllComplete(s, |bytes|, c);
  }

  /** kqlIndexOf on text and match given by their code points; too long a search string is an error. */
  method KqlIndexOf(text: seq<nat>, m: seq<nat>, start0: int, length: int, occurrence: int) returns (r: Answer)
    requires Runes(text) && Runes(m)
    ensures r == IndexOf(text, m, start0, length, occurrence) || (r.TooLong? && |EncodeAll(m)| > 4194304)
  {
    var bytes, pattern := EncodeAll(text), EncodeAll(m);
    var count := RuneCount(text, bytes);
    var start := start0;
    if start < 0 {
      start := start + count;
    }
    if start < 0 || length < -1 || occurrence < 0 {
      return Null;
    }
    if occurrence == 0 {
      return ZeroOccurrence;
    }
    if start > count {
      return At(-1);
    }
    ghost var w := text[start..];
    if m == [] {
      EmptyMatch(w, 0, length, occurrence);
      return At(if occurrence - 1 > count - start then -1 else start + occurrence - 1);
    }
    var beginByte := ByteIndex(text, bytes, start);
    SplitAt(text, start);
    var window := bytes[beginByte..];
    hide EncodeAll, Nth, OccursAt;
    if |pattern| > |window| {
      LongerThanWindow(w, m, length, occurrence);
      return At(-1);
    }
    if |pattern| > MAX_BYTES {
      return TooLong;
    }
    var failure, fallbacks := FailureTable(pattern);
    var matchCharacters := RuneCount(m, pattern);
    var q := Scan(w, m, window, pattern, failure, count - start, matchCharacters, length, occurrence);
    r := At(if q < 0 then -1 else start + q);
  }

  lemma {:induction false} NoOccurrence(w: seq<nat>, m: seq<nat>, lo: nat, q: nat, length: int, n: nat)
    requires forall p :: q <= p ==> !OccursAt(w, m, p)
    ensures Nth(w, m, lo, q, length, n) == -1
    decreases |w| + 1 - q
  {
    if q + |m| <= Limit(w, lo, length) && q <= |w| {
      NoOccurrence(w, m, lo, q + 1, length, n);
    }
  }

  lemma LongerThanWindow(w: seq<nat>, m: seq<nat>, length: int, n: nat)
    requires Runes(w) && |EncodeAll(m)| > |EncodeAll(w)|
    ensures Nth(w, m, 0, 0, length, n) == -1
  {
    forall p | 0 <= p
      ensures !OccursAt(w, m, p)
    {
      if OccursAt(w, m, p) {
        BytesOfOccurrence(w, m, p);
      }
    }
    NoOccurrence(w, m, 0, 0, length, n);
  }
}
