/** replace_strings: kqlReplaceStrings in internal/database/kql_replacements.go.  Texts are sequences of bytes. */
module ReplaceStrings {
  import opened Limits
  import opened Occurrences
  import opened Wrappers

  type Text = seq<nat>

  /** One lookup with its rewrite; None for a value that is not a JSON string. */
  datatype Rule = Rule(search: Option<Text>, rewrite: Option<Text>)

  predicate Active(r: Rule) {
    r.search.Some? && r.search.value != []
  }

  /** What takes the place of a match; a rewrite that is not a string keeps the matched text. */
  function Written(r: Rule, match': Text): Text {
    if r.rewrite.Some? then r.rewrite.value else match'
  }

  /**
    The meaning of the rules: the first rule takes its occurrences from left to right, what it writes is final,
    and the other rules apply to the texts between.
   */
  function Rewritten(text: Text, rules: seq<Rule>): Text
    decreases |rules|, |text|, 1
  {
    if rules == [] then text
    else if !Active(rules[0]) then Rewritten(text, rules[1..])
    else
      var index := FindFrom(text, rules[0].search.value, 0);
      if index < 0 then Rewritten(text, rules[1..]) else AtMatch(text, rules, index, index + |rules[0].search.value|)
  }

  function AtMatch(text: Text, rules: seq<Rule>, m: nat, n: nat): Text
    requires m < n <= |text| && rules != []
    decreases |rules|, |text|, 0
  {
    Rewritten(text[..m], rules[1..]) + Written(rules[0], text[m..n]) + Rewritten(text[n..], rules)
  }

  datatype Part = Part(start: nat, end: nat, rewrite: Option<Text>, locked: bool)

  /** The parts lie side by side from one position to another. */
  ghost predicate Tiles(parts: seq<Part>, from: nat, to: nat) {
    if parts == [] then from == to
    else parts[0].start == from <= parts[0].end && Tiles(parts[1..], parts[0].end, to)
  }

  function Slice(text: Text, p: Part): Text
    requires p.start <= p.end <= |text|
  {
    text[p.start..p.end]
  }

  ghost predicate Inside(parts: seq<Part>, n: nat) {
    forall i :: 0 <= i < |parts| ==> parts[i].start <= parts[i].end <= n
  }

  /** What a part stands for when the given rules are still to come. */
  function Meaning(text: Text, p: Part, rules: seq<Rule>): Text
    requires p.start <= p.end <= |text|
  {
    if !p.locked then Rewritten(Slice(text, p), rules)
    else if p.rewrite.Some? then p.rewrite.value else Slice(text, p)
  }

  ghost function Meanings(text: Text, parts: seq<Part>, rules: seq<Rule>): Text
    requires Inside(parts, |text|)
  {
    if parts == [] then [] else Meaning(text, parts[0], rules) + Meanings(text, parts[1..], rules)
  }

  /** A locked part is a match of one of the rules applied so far, and carries its rewrite. */
  ghost predicate LockedBy(text: Text, p: Part, r: Rule)
    requires p.start <= p.end <= |text|
  {
    Active(r) && Slice(text, p) == r.search.value && p.rewrite == r.rewrite
  }

  /** No lookup that was applied occurs in a part still open. */
  ghost predicate Searched(text: Text, p: Part, rules: seq<Rule>)
    requires p.start <= p.end <= |text|
  {
    if p.locked then exists j :: 0 <= j < |rules| && LockedBy(text, p, rules[j])
    else p.rewrite.None? && forall j :: 0 <= j < |rules| && Active(rules[j]) ==>
        !OccursIn(Slice(text, p), rules[j].search.value)
  }

  ghost predicate AllSearched(text: Text, parts: seq<Part>, rules: seq<Rule>)
    requires Inside(parts, |text|)
  {
    forall i :: 0 <= i < |parts| ==> Searched(text, parts[i], rules)
  }

  // ----- Lists of parts ------------------------------------------------------------------------

  lemma {:induction false} MeaningsConcat(text: Text, a: seq<Part>, b: seq<Part>, rules: seq<Rule>)
    requires Inside(a, |text|) && Inside(b, |text|)
    ensures Inside(a + b, |text|) && Meanings(text, a + b, rules) == Meanings(text, a, rules) + Meanings(text, b, rules)
  {
    hide Meaning;
    if a == [] {
      assert a + b == b;
    } else {
      assert (a + b)[1..] == a[1..] + b;
      MeaningsConcat(text, a[1..], b, rules);
    }
  }

  lemma MeaningsOne(text: Text, p: Part, rules: seq<Rule>)
    requires p.start <= p.end <= |text|
    ensures Inside([p], |text|) && Meanings(text, [p], rules) == Meaning(text, p, rules)
  {
    hide Meaning;
    assert [p][1..] == [];
  }

  lemma {:induction false} TilesConcat(a: seq<Part>, b: seq<Part>, from: nat, mid: nat, to: nat)
    requires Tiles(a, from, mid) && Tiles(b, mid, to)
    ensures Tiles(a + b, from, to)
  {
    if a == [] {
      assert a + b == b;
    } else {
      assert (a + b)[1..] == a[1..] + b;
      TilesConcat(a[1..], b, a[0].end, mid, to);
    }
  }

  // ----- One rule on one open part ---------------------------------------------------------------

  lemma SliceOfSlice(text: Text, start: nat, end: nat, p: nat, q: nat)
    requires start <= end <= |text| && p <= q <= end - start
    ensures text[start..end][p..q] == text[start + p..start + q]
  {
    var a, b := text[start..end][p..q], text[start + p..start + q];
    assert |a| == |b| && forall k :: 0 <= k < |a| ==> a[k] == b[k];
  }

  lemma OccurrenceInSlice(text: Text, search: Text, start: nat, end: nat, p: nat)
    requires start <= end <= |text|
    ensures OccursAt(text[start..end], search, p) <==> start + p + |search| <= end && OccursAt(text, search, start + p)
  {
    if start + p + |search| <= end {
      SliceOfSlice(text, start, end, p, p + |search|);
    }
  }

  lemma MatchTaken(text: Text, rules: seq<Rule>)
    requires rules != [] && Active(rules[0]) && FindFrom(text, rules[0].search.value, 0) >= 0
    ensures var m := FindFrom(text, rules[0].search.value, 0);
            var n := m + |rules[0].search.value|;
            n <= |text| && text[m..n] == rules[0].search.value && Rewritten(text, rules) == AtMatch(text, rules, m, n)
  {
    hide FindFrom, AtMatch;
  }

  /** The text from start on, when the rule's next match is at m. */
  lemma TakeMatch(text: Text, start: nat, end: nat, rules: seq<Rule>, m: nat, n: nat)
    requires start <= m && n <= end <= |text| && rules != [] && Active(rules[0]) && n == m + |rules[0].search.value|
    requires FindFrom(text[start..end], rules[0].search.value, 0) == m - start
    ensures text[m..n] == rules[0].search.value
    ensures Rewritten(text[start..end], rules) ==
              Rewritten(text[start..m], rules[1..]) + Written(rules[0], text[m..n]) + Rewritten(text[n..end], rules)
  {
    hide Written, Rewritten;
    var t := text[start..end];
    assert Rewritten(t, rules) == AtMatch(t, rules, m - start, n - start) by {
      MatchTaken(t, rules);
    }
    SliceOfSlice(text, start, end, 0, m - start);
    SliceOfSlice(text, start, end, m - start, n - start);
    SliceOfSlice(text, start, end, n - start, end - start);
    assert t[..m - start] == t[0..m - start] && t[n - start..] == t[n - start..end - start];
  }

  /** The next match splits the text into an open text, the match and the rest. */
  lemma SplitAtMatch(text: Text, start: nat, end: nat, rules: seq<Rule>, m: nat, n: nat)
    requires start <= m && n <= end <= |text| && rules != [] && Active(rules[0]) && n == m + |rules[0].search.value|
    requires FindFrom(text[start..end], rules[0].search.value, 0) == m - start
    ensures text[m..n] == rules[0].search.value && !OccursIn(text[start..m], rules[0].search.value)
    ensures Rewritten(text[start..end], rules) == Rewritten(text[start..m], rules[1..]) + Rewritten(text[m..end], rules)
    ensures Rewritten(text[m..end], rules) == Written(rules[0], text[m..n]) + Rewritten(text[n..end], rules)
  {
    hide Written, Rewritten;
    TakeMatch(text, start, end, rules, m, n);
    NoEarlierMatch(text, rules[0].search.value, start, end, m);
    OccurrenceInSlice(text, rules[0].search.value, start, end, m - start);
    OccurrenceInSlice(text, rules[0].search.value, m, end, 0);
    assert FindFrom(text[m..end], rules[0].search.value, 0) == 0;
    TakeMatch(text, m, end, rules, m, n);
    NothingToRewrite(rules[1..]);
    assert text[m..m] == [];
  }

  lemma NoEarlierMatch(text: Text, search: Text, start: nat, end: nat, m: nat)
    requires start <= m <= end <= |text| && FindFrom(text[start..end], search, 0) == m - start
    requires search != []
    ensures !OccursIn(text[start..m], search)
  {
    forall p | OccursAt(text[start..m], search, p)
      ensures false
    {
      OccurrenceInSlice(text, search, start, m, p);
      OccurrenceInSlice(text, search, start, end, p);
    }
  }

  lemma {:induction false} NothingToRewrite(rules: seq<Rule>)
    ensures Rewritten([], rules) == []
  {
    if rules != [] {
      NothingToRewrite(rules[1..]);
    }
  }

  lemma NoMatch(text: Text, rules: seq<Rule>)
    requires rules != [] && Active(rules[0]) && FindFrom(text, rules[0].search.value, 0) < 0
    ensures Rewritten(text, rules) == Rewritten(text, rules[1..]) && !OccursIn(text, rules[0].search.value)
  {}

  /** A slice of a part in which the earlier lookups do not occur. */
  lemma SearchedSlice(text: Text, search: Text, start: nat, end: nat, from: nat, to: nat)
    requires start <= from <= to <= end <= |text| && !OccursIn(text[start..end], search)
    ensures !OccursIn(text[from..to], search)
  {
    forall p | OccursAt(text[from..to], search, p)
      ensures false
    {
      OccurrenceInSlice(text, search, from, to, p);
      OccurrenceInSlice(text, search, start, end, from - start + p);
    }
  }

  lemma OpenPiece(text: Text, part: Part, done: seq<Rule>, r: Rule, from: nat, to: nat)
    requires part.start <= part.end <= |text| && !part.locked && Searched(text, part, done)
    requires part.start <= from <= to <= part.end && Active(r) && !OccursIn(text[from..to], r.search.value)
    ensures Searched(text, Part(from, to, None, false), done + [r])
  {
    forall j | 0 <= j < |done| && Active(done[j])
      ensures !OccursIn(text[from..to], done[j].search.value)
    {
      SearchedSlice(text, done[j].search.value, part.start, part.end, from, to);
    }
  }

  lemma LockedPiece(text: Text, done: seq<Rule>, r: Rule, m: nat, n: nat)
    requires m <= n <= |text| && Active(r) && text[m..n] == r.search.value
    ensures Searched(text, Part(m, n, r.rewrite, true), done + [r])
  {
    assert LockedBy(text, Part(m, n, r.rewrite, true), (done + [r])[|done|]);
  }

  /** Pieces so far: they tile the beginning of the part, and with the rest of it mean what the part means. */
  ghost predicate Pieces(text: Text, part: Part, done: seq<Rule>, rules: seq<Rule>, pieces: seq<Part>, start: nat)
    requires part.start <= part.end <= |text| && rules != []
  {
    part.start <= start <= part.end && Tiles(pieces, part.start, start) && Inside(pieces, |text|) &&
    AllSearched(text, pieces, done + [rules[0]]) &&
    Meanings(text, pieces, rules[1..]) + Rewritten(text[start..part.end], rules) == Rewritten(Slice(text, part), rules)
  }

  /** One more piece that means the text it covers. */
  lemma OneMorePiece(text: Text, pieces: seq<Part>, p: Part, from: nat, rules: seq<Rule>, searched: seq<Rule>)
    requires Tiles(pieces, from, p.start) && p.start <= p.end <= |text| && Inside(pieces, |text|)
    requires AllSearched(text, pieces, searched) && Searched(text, p, searched)
    ensures Tiles(pieces + [p], from, p.end) && Inside(pieces + [p], |text|)
    ensures AllSearched(text, pieces + [p], searched)
    ensures Meanings(text, pieces + [p], rules) == Meanings(text, pieces, rules) + Meaning(text, p, rules)
  {
    MeaningsOne(text, p, rules);
    MeaningsConcat(text, pieces, [p], rules);
    TilesConcat(pieces, [p], from, p.start, p.end);
    hide Meaning, Meanings, Searched;
  }

  lemma PieceAdded(text: Text, part: Part, done: seq<Rule>, rules: seq<Rule>, pieces: seq<Part>, start: nat, p: Part)
    requires part.start <= part.end <= |text| && rules != [] && Pieces(text, part, done, rules, pieces, start)
    requires p.start == start <= p.end <= part.end && Searched(text, p, done + [rules[0]])
    requires Rewritten(text[start..part.end], rules) ==
               Meaning(text, p, rules[1..]) + Rewritten(text[p.end..part.end], rules)
    ensures Pieces(text, part, done, rules, pieces + [p], p.end)
  {
    hide Meaning, Meanings, Searched, Rewritten, AllSearched, Tiles, Inside;
    OneMorePiece(text, pieces, p, part.start, rules[1..], done + [rules[0]]);
  }

  /** The pieces of one open part under the rule; None when there are too many parts. */
  method SplitPart(text: Text, part: Part, before: nat, ghost done: seq<Rule>, ghost rules: seq<Rule>, r: Rule)
    returns (pieces: Option<seq<Part>>)
    requires part.start <= part.end <= |text| && !part.locked
    requires rules != [] && r == rules[0] && Active(r) && Searched(text, part, done)
    ensures pieces.Some? ==> Pieces(text, part, done, rules, pieces.value, part.end)
    ensures pieces.Some? ==> |pieces.value| <= part.end - part.start
    ensures pieces.None? ==> before + (part.end - part.start) > 65536
  {
    hide Meanings, Searched, Rewritten, AllSearched, Tiles, Inside, Pieces, FindFrom, OccursIn;
    var search := r.search.value;
    var next: seq<Part> := [];
    var start := part.start;
    NoPieces(text, part, done, rules);
    while start < part.end
      invariant part.start <= start <= part.end && Pieces(text, part, done, rules, next, start)
      invariant |next| <= start - part.start
    {
      var index := FindFrom(text[start..part.end], search, 0);
      if index < 0 {
        break;
      }
      OccurrenceInSlice(text, search, start, part.end, index);
      index := index + start;
      var end := index + |search|;
      SplitAtMatch(text, start, part.end, rules, index, end);
      if index > start {
        OpenPiece(text, part, done, r, start, index);
        PieceAdded(text, part, done, rules, next, start, Part(start, index, None, false));
        next := next + [Part(start, index, None, false)];
      }
      LockedPiece(text, done, r, index, end);
      PieceAdded(text, part, done, rules, next, index, Part(index, end, r.rewrite, true));
      next := next + [Part(index, end, r.rewrite, true)];
      if before + |next| > MAX_PARTS {
        return None;
      }
      start := end;
    }
    if start < part.end {
      NoMatch(text[start..part.end], rules);
      NothingToRewrite(rules);
      assert text[part.end..part.end] == [];
      OpenPiece(text, part, done, r, start, part.end);
      PieceAdded(text, part, done, rules, next, start, Part(start, part.end, None, false));
      next := next + [Part(start, part.end, None, false)];
    }
    pieces := Some(next);
  }

  lemma NoPieces(text: Text, part: Part, done: seq<Rule>, rules: seq<Rule>)
    requires part.start <= part.end <= |text| && rules != []
    ensures Pieces(text, part, done, rules, [], part.start)
  {
    hide Rewritten;
  }

  // ----- One rule on all parts ------------------------------------------------------------------

  /**
    The parts after some rules: a tiling of the text, searched for those rules, that means the text under all of
    them.
   */
  ghost predicate State(text: Text, parts: seq<Part>, done: seq<Rule>, rest: seq<Rule>) {
    Tiles(parts, 0, |text|) && Inside(parts, |text|) && AllSearched(text, parts, done) &&
    Meanings(text, parts, rest) == Rewritten(text, done + rest)
  }

  /** The parts before position j have their pieces in next. */
  ghost predicate Halfway(text: Text, parts: seq<Part>, j: nat, next: seq<Part>, pos: nat, done: seq<Rule>,
                          rules: seq<Rule>, whole: Text)
    requires rules != [] && j <= |parts|
  {
    Tiles(next, 0, pos) && Tiles(parts[j..], pos, |text|) && Inside(next, |text|) && Inside(parts, |text|) &&
    AllSearched(text, next, done + [rules[0]]) && AllSearched(text, parts, done) &&
    Meanings(text, next, rules[1..]) + Meanings(text, parts[j..], rules) == whole &&
    forall i :: 0 <= i < j && parts[i].locked ==> parts[i] in next
  }

  lemma SearchedConcat(text: Text, a: seq<Part>, b: seq<Part>, rules: seq<Rule>)
    requires Inside(a, |text|) && Inside(b, |text|) && AllSearched(text, a, rules) && AllSearched(text, b, rules)
    ensures Inside(a + b, |text|) && AllSearched(text, a + b, rules)
  {
    hide Searched;
  }

  /** Part j gives way to its pieces. */
  lemma PartDone(text: Text, parts: seq<Part>, j: nat, next: seq<Part>, pos: nat, done: seq<Rule>, rules: seq<Rule>,
                 whole: Text, pieces: seq<Part>)
    requires rules != [] && j < |parts| && Halfway(text, parts, j, next, pos, done, rules, whole)
    requires Tiles(pieces, parts[j].start, parts[j].end) && Inside(pieces, |text|)
    requires AllSearched(text, pieces, done + [rules[0]])
    requires parts[j].start <= parts[j].end <= |text|
    requires Meanings(text, pieces, rules[1..]) == Meaning(text, parts[j], rules)
    requires parts[j].locked ==> parts[j] in pieces
    ensures Halfway(text, parts, j + 1, next + pieces, parts[j].end, done, rules, whole)
  {
    var tail := parts[j..];
    assert tail[0] == parts[j] && tail[1..] == parts[j + 1..];
    assert Meanings(text, tail, rules) == Meaning(text, parts[j], rules) + Meanings(text, parts[j + 1..], rules);
    assert pos == parts[j].start;
    hide Meaning, Meanings, Searched;
    TilesConcat(next, pieces, 0, pos, parts[j].end);
    MeaningsConcat(text, next, pieces, rules[1..]);
    SearchedConcat(text, next, pieces, done + [rules[0]]);
    hide Tiles, AllSearched, Inside;
    Regroup(Meanings(text, next, rules[1..]), Meaning(text, parts[j], rules), Meanings(text, parts[j + 1..], rules));
  }

  lemma Regroup(a: Text, b: Text, c: Text)
    ensures a + (b + c) == (a + b) + c
  {}

  lemma LockedStays(text: Text, p: Part, done: seq<Rule>, rules: seq<Rule>)
    requires p.start <= p.end <= |text| && p.locked && rules != [] && Searched(text, p, done)
    ensures Tiles([p], p.start, p.end) && Inside([p], |text|) && AllSearched(text, [p], done + [rules[0]])
    ensures Meanings(text, [p], rules[1..]) == Meaning(text, p, rules)
  {
    assert [p][1..] == [];
    var j :| 0 <= j < |done| && LockedBy(text, p, done[j]);
    assert LockedBy(text, p, (done + [rules[0]])[j]);
    MeaningsOne(text, p, rules[1..]);
  }

  lemma PiecesDone(text: Text, part: Part, done: seq<Rule>, rules: seq<Rule>, pieces: seq<Part>)
    requires part.start <= part.end <= |text| && !part.locked && rules != []
    requires Pieces(text, part, done, rules, pieces, part.end)
    ensures Tiles(pieces, part.start, part.end) && Inside(pieces, |text|) &&
              AllSearched(text, pieces, done + [rules[0]])
    ensures Meanings(text, pieces, rules[1..]) == Meaning(text, part, rules)
  {
    hide Tiles, AllSearched, Meanings, Rewritten;
    NothingToRewrite(rules);
    assert text[part.end..part.end] == [];
  }

  /** Locked parts are carried over and never searched again; open parts are split at their matches. */
  method ApplyRule(text: Text, parts: seq<Part>, r: Rule, budget: int, ghost done: seq<Rule>, ghost rules: seq<Rule>)
    returns (next: Option<seq<Part>>, work: int)
    requires rules != [] && r == rules[0] && Active(r) && State(text, parts, done, rules)
    ensures next.Some? ==> State(text, next.value, done + [rules[0]], rules[1..])
    ensures next.Some? ==> forall i :: 0 <= i < |parts| && parts[i].locked ==> parts[i] in next.value
    ensures next.Some? ==> |next.value| <= |text| && work >= budget - |parts| - |text|
    ensures next.None? ==> |text| > 65536 || budget < |parts| + |text|
  {
    work := budget;
    var pieces: seq<Part> := [];
    var j := 0;
    ghost var pos: nat, whole := 0, Rewritten(text, done + rules);
    StartHalfway(text, parts, done, rules);
    hide Meaning, Meanings, Searched, Rewritten, Tiles, AllSearched, Halfway, State, Pieces;
    while j < |parts|
      invariant 0 <= j <= |parts| && Halfway(text, parts, j, pieces, pos, done, rules, whole)
      invariant |pieces| <= pos <= |text| && work >= budget - j - pos
    {
      var part := parts[j];
      HalfwayPart(text, parts, j, pieces, pos, done, rules, whole);
      work := work - 1;
      if !part.locked {
        work := work - (part.end - part.start);
      }
      if work < 0 {
        return None, work;
      }
      if part.locked {
        LockedStays(text, part, done, rules);
        LockedIsNotEmpty(text, part, done);
        PartDone(text, parts, j, pieces, pos, done, rules, whole, [part]);
        pieces := pieces + [part];
      } else {
        var split := SplitPart(text, part, |pieces|, done, rules, r);
        if split.None? || |pieces| + |split.value| > MAX_PARTS {
          return None, work;
        }
        PiecesDone(text, part, done, rules, split.value);
        PartDone(text, parts, j, pieces, pos, done, rules, whole, split.value);
        pieces := pieces + split.value;
      }
      pos, j := part.end, j + 1;
    }
    EndHalfway(text, parts, pieces, pos, done, rules);
    next := Some(pieces);
  }

  lemma StartHalfway(text: Text, parts: seq<Part>, done: seq<Rule>, rules: seq<Rule>)
    requires rules != [] && State(text, parts, done, rules)
    ensures Halfway(text, parts, 0, [], 0, done, rules, Rewritten(text, done + rules))
  {
    hide Searched, Rewritten, Meaning;
    assert parts[0..] == parts;
  }

  lemma HalfwayPart(text: Text, parts: seq<Part>, j: nat, next: seq<Part>, pos: nat, done: seq<Rule>, rules: seq<Rule>,
                    whole: Text)
    requires rules != [] && j < |parts| && Halfway(text, parts, j, next, pos, done, rules, whole)
    ensures pos == parts[j].start <= parts[j].end <= |text| && Searched(text, parts[j], done)
  {
    hide Searched, Rewritten, Meaning, Meanings;
  }

  lemma LockedIsNotEmpty(text: Text, p: Part, done: seq<Rule>)
    requires p.start <= p.end <= |text| && p.locked && Searched(text, p, done)
    ensures p.start < p.end
  {
    var j :| 0 <= j < |done| && LockedBy(text, p, done[j]);
    assert |Slice(text, p)| == p.end - p.start;
  }

  lemma EndHalfway(text: Text, parts: seq<Part>, next: seq<Part>, pos: nat, done: seq<Rule>, rules: seq<Rule>)
    requires rules != [] && Halfway(text, parts, |parts|, next, pos, done, rules, Rewritten(text, done + rules))
    ensures State(text, next, done + [rules[0]], rules[1..])
    ensures forall i :: 0 <= i < |parts| && parts[i].locked ==> parts[i] in next
  {
    assert parts[|parts|..] == [];
    assert (done + [rules[0]]) + rules[1..] == done + rules;
    hide Searched, Rewritten, Meaning;
  }

  lemma RuleSkipped(text: Text, parts: seq<Part>, done: seq<Rule>, rules: seq<Rule>)
    requires rules != [] && !Active(rules[0]) && State(text, parts, done, rules)
    ensures State(text, parts, done + [rules[0]], rules[1..])
  {
    assert (done + [rules[0]]) + rules[1..] == done + rules;
    SkippedMeanings(text, parts, rules);
    hide Rewritten, Meaning, Meanings, Tiles, Searched;
    forall i | 0 <= i < |parts|
      ensures Searched(text, parts[i], done + [rules[0]])
    {
      SkippedSearched(text, parts[i], done, rules[0]);
    }
  }

  lemma SkippedSearched(text: Text, p: Part, done: seq<Rule>, r: Rule)
    requires p.start <= p.end <= |text| && !Active(r) && Searched(text, p, done)
    ensures Searched(text, p, done + [r])
  {
    if p.locked {
      var j :| 0 <= j < |done| && LockedBy(text, p, done[j]);
      assert LockedBy(text, p, (done + [r])[j]);
    }
  }

  lemma {:induction false} SkippedMeanings(text: Text, parts: seq<Part>, rules: seq<Rule>)
    requires rules != [] && !Active(rules[0]) && Inside(parts, |text|)
    ensures Meanings(text, parts, rules) == Meanings(text, parts, rules[1..])
  {
    if parts != [] {
      SkippedMeanings(text, parts[1..], rules);
      assert Meaning(text, parts[0], rules) == Meaning(text, parts[0], rules[1..]);
    }
  }

  // ----- The result --------------------------------------------------------------------------------

  datatype ReplaceError = TextTooLong | UnequalLengths | TooMuchWork | TooLong

  lemma MeaningsStep(text: Text, parts: seq<Part>, i: nat)
    requires Inside(parts, |text|) && i < |parts|
    ensures Meanings(text, parts[..i + 1], []) == Meanings(text, parts[..i], []) + Meaning(text, parts[i], [])
  {
    assert parts[..i + 1] == parts[..i] + [parts[i]];
    MeaningsOne(text, parts[i], []);
    hide Meaning, Meanings;
    MeaningsConcat(text, parts[..i], [parts[i]], []);
  }

  /** The length of the result, or None when it would be too long. */
  method Measure(text: Text, parts: seq<Part>) returns (size: Option<nat>)
    requires Inside(parts, |text|) && forall i :: 0 <= i < |parts| && !parts[i].locked ==> parts[i].rewrite.None?
    ensures size.Some? <==> |Meanings(text, parts, [])| <= MAX_BYTES
    ensures size.Some? ==> size.value == |Meanings(text, parts, [])|
  {
    var total, i: nat := 0, 0;
    assert parts[..0] == [];
    while i < |parts|
      invariant 0 <= i <= |parts| && total == |Meanings(text, parts[..i], [])| <= MAX_BYTES
    {
      hide Meanings;
      var part := parts[i];
      var length := part.end - part.start;
      if part.rewrite.Some? {
        length := |part.rewrite.value|;
      }
      MeaningsStep(text, parts, i);
      if length > MAX_BYTES - total {
        MeaningsGrow(text, parts, i + 1);
        return None;
      }
      total, i := total + length, i + 1;
    }
    assert parts[..i] == parts;
    size := Some(total);
  }

  lemma {:induction false} MeaningsGrow(text: Text, parts: seq<Part>, i: nat)
    requires Inside(parts, |text|) && i <= |parts|
    ensures |Meanings(text, parts[..i], [])| <= |Meanings(text, parts, [])|
  {
    hide Meaning, Meanings;
    MeaningsConcat(text, parts[..i], parts[i..], []);
    assert parts == parts[..i] + parts[i..];
  }

  /** Writes the rewrites and the open texts; nothing beyond the measured length is written. */
  method WriteParts(text: Text, parts: seq<Part>, size: nat) returns (result: Text)
    requires Inside(parts, |text|) && forall i :: 0 <= i < |parts| && !parts[i].locked ==> parts[i].rewrite.None?
    requires size == |Meanings(text, parts, [])|
    ensures result == Meanings(text, parts, []) && |result| == size
  {
    result := [];
    var i := 0;
    assert parts[..0] == [];
    while i < |parts|
      invariant 0 <= i <= |parts| && result == Meanings(text, parts[..i], []) && |result| <= size
    {
      hide Meanings;
      MeaningsStep(text, parts, i);
      MeaningsGrow(text, parts, i + 1);
      var part := parts[i];
      result := result + if part.rewrite.Some? then part.rewrite.value else text[part.start..part.end];
      i := i + 1;
    }
    assert parts[..i] == parts;
  }

  lemma StartState(text: Text, parts: seq<Part>, rules: seq<Rule>)
    requires parts == [Part(0, |text|, None, false)]
    ensures State(text, parts, [], rules)
  {
    hide Rewritten;
    MeaningsOne(text, parts[0], rules);
    assert parts == [parts[0]] && parts[1..] == [] && text[0..|text|] == text && [] + rules == rules;
    assert Tiles(parts, 0, |text|);
    assert Meanings(text, parts, rules) == Rewritten(text, rules);
  }

  lemma EndState(text: Text, parts: seq<Part>, rules: seq<Rule>)
    requires State(text, parts, rules, [])
    ensures Inside(parts, |text|) && Meanings(text, parts, []) == Rewritten(text, rules)
    ensures forall i :: 0 <= i < |parts| && !parts[i].locked ==> parts[i].rewrite.None?
  {
    assert rules + [] == rules;
    hide Rewritten, Meanings, Tiles;
    forall i | 0 <= i < |parts| && !parts[i].locked
      ensures parts[i].rewrite.None?
    {
      assert Searched(text, parts[i], rules);
    }
  }

  /** The i-th lookup goes with the i-th rewrite. */
  function Rules(searches: seq<Option<Text>>, rewrites: seq<Option<Text>>): (rules: seq<Rule>)
    requires |searches| == |rewrites|
    ensures |rules| == |searches| && forall i :: 0 <= i < |rules| ==> rules[i] == Rule(searches[i], rewrites[i])
  {
    seq(|searches|, i requires 0 <= i < |searches| == |rewrites| => Rule(searches[i], rewrites[i]))
  }

  lemma OneMoreRule(i: nat, count: nat, cost: nat)
    requires i < count
    ensures i * cost + cost == (i + 1) * cost <= count * cost
  {}

  method KqlReplaceStrings(text: Text, searches: seq<Option<Text>>, rewrites: seq<Option<Text>>)
    returns (r: Result<Text, ReplaceError>)
    ensures r.Ok? ==>
              |searches| == |rewrites| && r.value == Rewritten(text, Rules(searches, rewrites)) &&
              |r.value| <= 4194304
    ensures r == Err(TextTooLong) <==> |text| > 4194304
    ensures r == Err(UnequalLengths) <==> |text| <= 4194304 && |searches| != |rewrites|
    ensures r == Err(TooMuchWork) ==> |text| > 65536 || |searches| * (2 * |text| + 1) > 67108864
    ensures r == Err(TooLong) ==> |searches| == |rewrites| && |Rewritten(text, Rules(searches, rewrites))| > 4194304
  {
    if |text| > MAX_BYTES {
      return Err(TextTooLong);
    }
    if |searches| != |rewrites| {
      return Err(UnequalLengths);
    }
    ghost var rules := Rules(searches, rewrites);
    var parts := [Part(0, |text|, None, false)];
    var work := MAX_WORK;
    StartState(text, parts, rules);
    hide Rewritten, State, Meanings;
    assert rules[..0] == [] && rules[0..] == rules;
    var i := 0;
    while i < |searches|
      invariant 0 <= i <= |searches| && State(text, parts, rules[..i], rules[i..])
      invariant |parts| <= |text| + 1 && work >= MAX_WORK - i * (2 * |text| + 1)
    {
      OneMoreRule(i, |searches|, 2 * |text| + 1);
      assert rules[i..][1..] == rules[i + 1..] && rules[..i] + [rules[i]] == rules[..i + 1];
      if searches[i].None? || searches[i].value == [] {
        RuleSkipped(text, parts, rules[..i], rules[i..]);
      } else {
        var next;
        next, work := ApplyRule(text, parts, Rule(searches[i], rewrites[i]), work, rules[..i], rules[i..]);
        if next.None? {
          return Err(TooMuchWork);
        }
        parts := next.value;
      }
      i := i + 1;
    }
    assert rules[..i] == rules && rules[i..] == [];
    EndState(text, parts, rules);
    var size := Measure(text, parts);
    if size.None? {
      return Err(TooLong);
    }
    var result := WriteParts(text, parts, size.value);
    r := Ok(result);
  }

  // ----- What a rule writes is final ---------------------------------------------------------

  /** strings.Split: the texts between the occurrences of a, taken from left to right. */
  function Split(text: Text, a: Text): (gaps: seq<Text>)
    requires a != []
    ensures gaps != []
  {
    var index := FindFrom(text, a, 0);
    if index < 0 then [text] else [text[..index]] + Split(text[index + |a|..], a)
  }

  /** strings.Join */
  function Join(gaps: seq<Text>, separator: Text): Text {
    if gaps == [] then [] else if |gaps| == 1 then gaps[0] else gaps[0] + separator + Join(gaps[1..], separator)
  }

  /** Every gap under the given rules. */
  function RewrittenGaps(gaps: seq<Text>, rules: seq<Rule>): seq<Text> {
    seq(|gaps|, i requires 0 <= i < |gaps| => Rewritten(gaps[i], rules))
  }

  /** Splitting loses nothing and leaves no occurrence behind. */
  lemma {:induction false} SplitIs(text: Text, a: Text)
    requires a != []
    ensures Join(Split(text, a), a) == text
    ensures forall i :: 0 <= i < |Split(text, a)| ==> !OccursIn(Split(text, a)[i], a)
  {
    var index := FindFrom(text, a, 0);
    if index >= 0 {
      SplitIs(text[index + |a|..], a);
      FrontHasNone(text, a, index);
      assert text == text[..index] + a + text[index + |a|..];
    }
  }

  lemma FrontHasNone(text: Text, a: Text, index: nat)
    requires a != [] && index <= |text| && forall p :: 0 <= p < index ==> !OccursAt(text, a, p)
    ensures !OccursIn(text[..index], a)
  {
    if p: nat :| OccursAt(text[..index], a, p) {
      assert text[..index][p..p + |a|] == text[p..p + |a|];
      assert OccursAt(text, a, p);
    }
  }

  /**
    What a rule writes is final: the rules after it work on the texts between its matches, each by itself, and
    neither search what was written nor across it.
   */
  lemma {:induction false} RewritesAreFinal(text: Text, r: Rule, rules: seq<Rule>)
    requires Active(r)
    ensures var a := r.search.value;
            Rewritten(text, [r] + rules) == Join(RewrittenGaps(Split(text, a), rules), Written(r, a))
    decreases |text|
  {
    var a, all := r.search.value, [r] + rules;
    assert all[1..] == rules;
    var index := FindFrom(text, a, 0);
    if index >= 0 {
      var rest := text[index + |a|..];
      RewritesAreFinal(rest, r, rules);
      MatchTaken(text, all);
      GapsSplit(text[..index], Split(rest, a), rules, Written(r, a));
    } else {
      assert RewrittenGaps([text], rules) == [Rewritten(text, rules)];
    }
  }

  lemma GapsSplit(first: Text, gaps: seq<Text>, rules: seq<Rule>, separator: Text)
    requires gaps != []
    ensures Join(RewrittenGaps([first] + gaps, rules), separator)
         == Rewritten(first, rules) + separator + Join(RewrittenGaps(gaps, rules), separator)
  {
    assert RewrittenGaps([first] + gaps, rules)[1..] == RewrittenGaps(gaps, rules);
  }

  /** In particular a lookup alone becomes its rewrite, whatever rules follow. */
  lemma LookupBecomesRewrite(a: Text, b: Text, rules: seq<Rule>)
    requires a != []
    ensures Rewritten(a, [Rule(Some(a), Some(b))] + rules) == b
  {
    assert OccursAt(a, a, 0) by {
      assert a[0..|a|] == a;
    }
    assert FindFrom(a, a, 0) == 0;
    assert a[..0] == [] && a[|a|..] == [];
    assert Split(a, a) == [[], []];
    RewritesAreFinal(a, Rule(Some(a), Some(b)), rules);
    NothingToRewrite(rules);
    assert RewrittenGaps([[], []], rules) == [[], []];
    assert Join([[], []], b) == [] + b + [];
  }
}
