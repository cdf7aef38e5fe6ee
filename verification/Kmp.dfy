/**
  The Knuth-Morris-Pratt search that internal/database/kql_indexof.go and
  internal/database/kql_countof.go share: the failure table and one step of the scan.
 */
module Kmp {

  /** The first k bytes of the pattern are the last k bytes of text[..i]. */
  ghost predicate EndsWith(text: seq<nat>, i: nat, pattern: seq<nat>, k: nat) {
    k <= i <= |text| && k <= |pattern| && text[i - k..i] == pattern[..k]
  }

  /** A proper border of pattern[..i]. */
  ghost predicate Border(pattern: seq<nat>, i: nat, k: nat) {
    k < i && EndsWith(pattern, i, pattern, k)
  }

  ghost predicate LongestBorder(pattern: seq<nat>, i: nat, f: nat) {
    Border(pattern, i, f) && forall k: nat :: Border(pattern, i, k) ==> k <= f
  }

  ghost predicate NoLonger(text: seq<nat>, i: nat, pattern: seq<nat>, j: nat) {
    forall k: nat :: EndsWith(text, i, pattern, k) ==> k <= j
  }

  /** failure[i] is the length of the longest proper border of the first i + 1 bytes. */
  ghost predicate IsFailureTable(pattern: seq<nat>, failure: seq<nat>) {
    |failure| == |pattern| && forall i :: 0 <= i < |pattern| ==> LongestBorder(pattern, i + 1, failure[i])
  }

  /** The pattern stands in the text so that it ends before position i. */
  ghost predicate MatchEnds(text: seq<nat>, i: nat, pattern: seq<nat>) {
    EndsWith(text, i, pattern, |pattern|)
  }

  /** The scan's state at position i: the longest prefix of the pattern, short of all of it, that ends here. */
  ghost predicate Longest(text: seq<nat>, i: nat, pattern: seq<nat>, j: nat) {
    && j < |pattern| && EndsWith(text, i, pattern, j)
    && forall k: nat :: k < |pattern| && EndsWith(text, i, pattern, k) ==> k <= j
  }

  lemma EndsWithLess(text: seq<nat>, i: nat, pattern: seq<nat>, j: nat, k: nat)
    requires EndsWith(text, i, pattern, j) && k <= j
    ensures EndsWith(text, i, pattern, k) <==> EndsWith(pattern, j, pattern, k)
  {
    assert text[i - k..i] == text[i - j..i][j - k..];
    assert pattern[j - k..j] == pattern[..j][j - k..];
  }

  lemma EndsWithNext(text: seq<nat>, i: nat, pattern: seq<nat>, k: nat)
    requires i < |text| && k < |pattern|
    ensures EndsWith(text, i + 1, pattern, k + 1) <==> EndsWith(text, i, pattern, k) && text[i] == pattern[k]
  {
    if k <= i {
      assert text[i - k..i + 1] == text[i - k..i] + [text[i]];
      assert pattern[..k + 1] == pattern[..k] + [pattern[k]];
    }
  }

  /** Falling back along the table skips no candidate. */
  lemma FallBack(text: seq<nat>, i: nat, pattern: seq<nat>, j: nat, f: nat)
    requires EndsWith(text, i, pattern, j) && LongestBorder(pattern, j, f)
    ensures EndsWith(text, i, pattern, f)
    ensures forall k: nat :: k < j && EndsWith(text, i, pattern, k) ==> k <= f
  {
    EndsWithLess(text, i, pattern, j, f);
    forall k: nat | k < j && EndsWith(text, i, pattern, k)
      ensures k <= f
    {
      EndsWithLess(text, i, pattern, j, k);
      assert Border(pattern, j, k);
    }
  }

  lemma FullMatch(text: seq<nat>, i: nat, pattern: seq<nat>)
    requires EndsWith(text, i, pattern, |pattern|)
    ensures MatchEnds(text, i, pattern)
  {}

  lemma NotFullMatch(text: seq<nat>, i: nat, pattern: seq<nat>, j: nat)
    requires NoLonger(text, i, pattern, j) && j < |pattern|
    ensures !MatchEnds(text, i, pattern)
  {}

  lemma ShortOfPattern(text: seq<nat>, i: nat, pattern: seq<nat>, j: nat)
    requires EndsWith(text, i, pattern, j) && NoLonger(text, i, pattern, j) && j < |pattern|
    ensures Longest(text, i, pattern, j)
  {}

  /**
    One step over text[i]: the inner loop falls back until the next byte fits.  The number of
    fallbacks is paid for by the matched length, so a whole scan makes at most one per byte.
   */
  method Advance(text: seq<nat>, i: nat, pattern: seq<nat>, failure: seq<nat>, known: nat, from: nat)
    returns (j: nat, ghost fallbacks: nat)
    requires i < |text| && from < |pattern| && from <= known <= |failure|
    requires forall p :: 0 <= p < known ==> LongestBorder(pattern, p + 1, failure[p])
    requires EndsWith(text, i, pattern, from)
    ensures EndsWith(text, i + 1, pattern, j)
    ensures forall k: nat :: k <= from && EndsWith(text, i, pattern, k) && text[i] == pattern[k] ==> k + 1 <= j
    ensures j <= from + 1 && (text[i] == pattern[from] ==> j == from + 1)
    ensures fallbacks + j <= from + 1
  {
    j, fallbacks := from, 0;
    while j > 0 && text[i] != pattern[j]
      invariant j <= from && EndsWith(text, i, pattern, j)
      invariant forall k: nat :: j < k <= from && EndsWith(text, i, pattern, k) ==> text[i] != pattern[k]
      invariant fallbacks + j <= from
    {
      FallBack(text, i, pattern, j, failure[j - 1]);
      j, fallbacks := failure[j - 1], fallbacks + 1;
    }
    EndsWithNext(text, i, pattern, j);
    if text[i] == pattern[j] {
      j := j + 1;
    }
  }

  lemma ExtendsLongest(text: seq<nat>, i: nat, pattern: seq<nat>, from: nat, j: nat)
    requires i < |text| && Longest(text, i, pattern, from)
    requires forall k: nat :: k <= from && EndsWith(text, i, pattern, k) && text[i] == pattern[k] ==> k + 1 <= j
    ensures NoLonger(text, i + 1, pattern, j)
  {
    var next := i + 1;
    forall k: nat | EndsWith(text, next, pattern, k)
      ensures k <= j
    {
      if k > 0 {
        EndsWithNext(text, i, pattern, k - 1);
      }
    }
  }

  /** After a match the scan goes on with the longest border of the whole pattern. */
  lemma AfterMatch(text: seq<nat>, i: nat, pattern: seq<nat>, f: nat)
    requires pattern != [] && MatchEnds(text, i, pattern) && LongestBorder(pattern, |pattern|, f)
    ensures Longest(text, i, pattern, f)
  {
    FallBack(text, i, pattern, |pattern|, f);
  }

  /** The table, and at most one fallback per byte of the pattern. */
  method FailureTable(pattern: seq<nat>) returns (table: seq<nat>, ghost fallbacks: nat)
    requires pattern != []
    ensures IsFailureTable(pattern, table)
    ensures fallbacks <= |pattern|
  {
    var failure := new nat[|pattern|](_ => 0);
    var j := 0;
    fallbacks := 0;
    FirstBorder(pattern);
    for i := 1 to |pattern|
      invariant j == failure[i - 1]
      invariant forall p :: 0 <= p < i ==> LongestBorder(pattern, p + 1, failure[p])
      invariant fallbacks + j <= i
    {
      ghost var from := j;
      ghost var more;
      j, more := Advance(pattern, i, pattern, failure[..], i, j);
      fallbacks := fallbacks + more;
      ExtendsBorder(pattern, i, from, j);
      failure[i] := j;
    }
    table := failure[..];
  }

  lemma FirstBorder(pattern: seq<nat>)
    requires pattern != []
    ensures LongestBorder(pattern, 1, 0)
  {}

  lemma ExtendsBorder(pattern: seq<nat>, i: nat, from: nat, j: nat)
    requires 1 <= i < |pattern| && LongestBorder(pattern, i, from)
    requires EndsWith(pattern, i + 1, pattern, j) && j <= from + 1
    requires forall k: nat :: k <= from && EndsWith(pattern, i, pattern, k) && pattern[i] == pattern[k] ==> k + 1 <= j
    ensures LongestBorder(pattern, i + 1, j)
  {
    var next := i + 1;
    forall k: nat | Border(pattern, next, k)
      ensures k <= j
    {
      if k > 0 {
        EndsWithNext(pattern, i, pattern, k - 1);
        assert Border(pattern, i, k - 1);
      }
    }
  }
}

/** countof with kind "normal": internal/database/kql_countof.go. */
module CountOf {
  import opened Kmp
  import opened Occurrences

  /** The positions where the search string occurs, overlaps included. */
  ghost function Positions(source: seq<nat>, search: seq<nat>): set<nat> {
    set p | 0 <= p <= |source| && OccursAt(source, search, p)
  }

  /** How many of the occurrences end at position i or before. */
  ghost function EndingBy(source: seq<nat>, search: seq<nat>, i: nat): nat
    requires i <= |source|
  {
    if i == 0 then 0
    else EndingBy(source, search, i - 1) + if MatchEnds(source, i, search) then 1 else 0
  }

  ghost function PositionsBy(source: seq<nat>, search: seq<nat>, i: nat): set<nat> {
    set p | p in Positions(source, search) && p + |search| <= i
  }

  lemma OneMorePosition(source: seq<nat>, search: seq<nat>, i: nat)
    requires search != [] && 0 < i <= |source|
    ensures PositionsBy(source, search, i)
         == PositionsBy(source, search, i - 1) + if MatchEnds(source, i, search) then {i - |search|} else {}
    ensures i - |search| !in PositionsBy(source, search, i - 1)
  {
    forall p | p in PositionsBy(source, search, i) && p !in PositionsBy(source, search, i - 1)
      ensures p == i - |search| && MatchEnds(source, i, search)
    {}
    if MatchEnds(source, i, search) {
      assert OccursAt(source, search, i - |search|);
    }
  }

  lemma {:induction false} EndingByCounts(source: seq<nat>, search: seq<nat>, i: nat)
    requires search != [] && i <= |source|
    ensures |PositionsBy(source, search, i)| == EndingBy(source, search, i)
  {
    if i == 0 {
      assert PositionsBy(source, search, i) == {};
    } else {
      hide PositionsBy, MatchEnds, Positions;
      OneMorePosition(source, search, i);
      EndingByCounts(source, search, i - 1);
    }
  }

  lemma StartOfScan(source: seq<nat>, search: seq<nat>)
    requires search != []
    ensures Longest(source, 0, search, 0)
  {}

  method CountOfNormal(source: seq<nat>, search: seq<nat>) returns (count: nat, ghost fallbacks: nat)
    ensures count == if search == [] then 0 else |Positions(source, search)|
    ensures fallbacks <= |source| + |search|
  {
    if |search| == 0 || |search| > |source| {
      assert search != [] ==> Positions(source, search) == {};
      return 0, 0;
    }
    var prefix;
    prefix, fallbacks := FailureTable(search);
    ghost var table := fallbacks;
    count := 0;
    var j := 0;
    hide EndsWith, Border, MatchEnds, Longest, NoLonger, LongestBorder;
    StartOfScan(source, search);
    for i := 0 to |source|
      invariant Longest(source, i, search, j)
      invariant count == EndingBy(source, search, i)
      invariant fallbacks + j <= table + i
    {
      ghost var from := j;
      ghost var more;
      j, more := Advance(source, i, search, prefix, |search|, j);
      fallbacks := fallbacks + more;
      ExtendsLongest(source, i, search, from, j);
      if j == |search| {
        count := count + 1;
        FullMatch(source, i + 1, search);
        AfterMatch(source, i + 1, search, prefix[j - 1]);
        j := prefix[j - 1];
      } else {
        NotFullMatch(source, i + 1, search, j);
        ShortOfPattern(source, i + 1, search, j);
      }
    }
    EndingByCounts(source, search, |source|);
    assert Positions(source, search) == PositionsBy(source, search, |source|);
  }
}
