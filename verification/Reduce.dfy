/**
  The reduce operator's clustering: reduceAggregate in internal/database/kql_reduce.go.  Texts are sequences of code
  points.
 */
module Reduce {
  import opened Wrappers

  const MAX_VALUES: nat := 262144
  const MAX_BYTES: nat := 67108864
  const MAX_TERMS: nat := 256
  const MAX_TOTAL_TERMS: nat := 4194304

  // ----- Globs -------------------------------------------------------------------------------

  /** A star stands for any text, every other character for itself. */
  ghost predicate Matches(glob: string, text: string)
    decreases |glob|
  {
    if glob == "" then text == ""
    else if glob[0] == '*' then exists k :: 0 <= k <= |text| && Matches(glob[1..], text[k..])
    else text != "" && glob[0] == text[0] && Matches(glob[1..], text[1..])
  }

  lemma {:induction false} MatchesConcat(g: string, t: string, h: string, u: string)
    requires Matches(g, t) && Matches(h, u)
    ensures Matches(g + h, t + u)
    decreases |g|
  {
    if g == "" {
      assert g + h == h && t + u == u;
    } else {
      assert (g + h)[1..] == g[1..] + h;
      if g[0] == '*' {
        var k :| 0 <= k <= |t| && Matches(g[1..], t[k..]);
        MatchesConcat(g[1..], t[k..], h, u);
        assert (t + u)[k..] == t[k..] + u;
        assert Matches((g + h)[1..], (t + u)[k..]);
      } else {
        MatchesConcat(g[1..], t[1..], h, u);
        assert (t + u)[1..] == t[1..] + u;
      }
    }
  }

  /** A text matches itself, even with stars in it. */
  lemma {:induction false} MatchesItself(t: string)
    ensures Matches(t, t)
  {
    if t != "" {
      MatchesItself(t[1..]);
      if t[0] == '*' {
        assert t[1..] == t[1..][0..];
      }
    }
  }

  lemma StarMatches(t: string)
    ensures Matches("*", t)
  {
    assert t[|t|..] == "" && "*"[1..] == "";
    assert Matches("*"[1..], t[|t|..]);
  }

  // ----- Terms and separators --------------------------------------------------------------------

  datatype Entry = Entry(terms: seq<string>, separators: seq<string>)

  /** The first n separators, each with the term after it. */
  ghost function Pairs(terms: seq<string>, separators: seq<string>, n: nat): string
    requires n <= |terms| && n <= |separators|
  {
    if n == 0 then "" else Pairs(terms, separators, n - 1) + separators[n - 1] + terms[n - 1]
  }

  /** Separator, term, separator, term, ..., separator. */
  ghost function Interleaved(e: Entry): string
    requires |e.separators| == |e.terms| + 1
  {
    Pairs(e.terms, e.separators, |e.terms|) + e.separators[|e.terms|]
  }

  /** All characters, or none, are separators. */
  ghost predicate AllAre(s: string, isSeparator: char -> bool, wanted: bool) {
    forall j :: 0 <= j < |s| ==> isSeparator(s[j]) == wanted
  }

  ghost predicate Gaps(separators: seq<string>, isSeparator: char -> bool) {
    (forall i :: 0 <= i < |separators| ==> AllAre(separators[i], isSeparator, true)) &&
    forall i :: 0 < i < |separators| ==> separators[i] != ""
  }

  ghost predicate Words(terms: seq<string>, isSeparator: char -> bool) {
    forall i :: 0 <= i < |terms| ==> AllAre(terms[i], isSeparator, false) && terms[i] != ""
  }

  /**
    Runs of separators and of other characters, in turn; only the first and the last run of separators may be
    empty.
   */
  ghost predicate IsSplit(text: string, e: Entry, isSeparator: char -> bool) {
    |e.separators| == |e.terms| + 1 && Interleaved(e) == text && Words(e.terms, isSeparator) &&
    Gaps(e.separators[..|e.terms|], isSeparator) && AllAre(e.separators[|e.terms|], isSeparator, true)
  }

  lemma {:induction false} PairsAppend(terms: seq<string>, separators: seq<string>, n: nat, t: seq<string>,
                                       s: seq<string>)
    requires n <= |terms| && n <= |separators|
    ensures Pairs(terms + t, separators + s, n) == Pairs(terms, separators, n)
  {
    if n > 0 {
      PairsAppend(terms, separators, n - 1, t, s);
    }
  }

  /** The loop's state: finished terms and gaps, and the open term or gap. */
  ghost predicate Splitting(read: string, terms: seq<string>, separators: seq<string>, term: string, gap: string,
                            inTerm: bool, isSeparator: char -> bool) {
    Words(terms, isSeparator) && Gaps(separators, isSeparator) &&
    AllAre(term, isSeparator, false) && AllAre(gap, isSeparator, true) &&
    if inTerm then
      |separators| == |terms| + 1 && term != "" && gap == "" &&
      read == Pairs(terms, separators, |terms|) + separators[|terms|] + term
    else
      |separators| == |terms| && term == "" && (terms != [] ==> gap != "" ) &&
          read == Pairs(terms, separators, |terms|) + gap
  }

  lemma CloseTerm(terms: seq<string>, separators: seq<string>, term: string)
    requires |separators| == |terms| + 1
    ensures Pairs(terms + [term], separators, |terms| + 1) ==
              Pairs(terms, separators, |terms|) + separators[|terms|] + term
  {
    PairsAppend(terms, separators, |terms|, [term], []);
    assert separators + [] == separators;
  }

  lemma CloseGap(terms: seq<string>, separators: seq<string>, gap: string)
    requires |separators| == |terms|
    ensures Pairs(terms, separators + [gap], |terms|) == Pairs(terms, separators, |terms|)
  {
    PairsAppend(terms, separators, |terms|, [], [gap]);
    assert terms + [] == terms;
  }

  lemma ReadSeparator(read: string, terms: seq<string>, separators: seq<string>, term: string, gap: string,
                      inTerm: bool,
                      isSeparator: char -> bool, r: char)
    requires Splitting(read, terms, separators, term, gap, inTerm, isSeparator) && isSeparator(r)
    ensures Splitting(read + [r],
                      if inTerm then terms + [term] else terms, separators, "", gap + [r], false, isSeparator)
  {
    hide Pairs;
    if inTerm {
      CloseTerm(terms, separators, term);
    }
  }

  lemma ReadOther(read: string, terms: seq<string>, separators: seq<string>, term: string, gap: string, inTerm: bool,
                  isSeparator: char -> bool, r: char)
    requires Splitting(read, terms, separators, term, gap, inTerm, isSeparator) && !isSeparator(r)
    ensures Splitting(read + [r], terms,
                      if inTerm then separators else separators + [gap], term + [r], "", true, isSeparator)
  {
    hide Pairs;
    if !inTerm {
      CloseGap(terms, separators, gap);
    }
  }

  lemma ReadEnd(read: string, terms: seq<string>, separators: seq<string>, term: string, gap: string, inTerm: bool,
                isSeparator: char -> bool)
    requires Splitting(read, terms, separators, term, gap, inTerm, isSeparator)
    ensures IsSplit(read, Entry(if inTerm then terms + [term] else terms, separators + [gap]), isSeparator)
  {
    hide Pairs;
    var all := if inTerm then terms + [term] else terms;
    if inTerm {
      CloseTerm(terms, separators, term);
    }
    CloseGap(all, separators, gap);
    assert (separators + [gap])[..|all|] == separators;
  }

  method Split(text: string, isSeparator: char -> bool) returns (e: Entry)
    ensures IsSplit(text, e, isSeparator)
  {
    var terms: seq<string>, separators: seq<string> := [], [];
    var term, gap := "", "";
    var inTerm, i := false, 0;
    while i < |text|
      invariant 0 <= i <= |text|
      invariant Splitting(text[..i], terms, separators, term, gap, inTerm, isSeparator)
      invariant if inTerm then gap == "" else term == ""
    {
      hide Splitting;
      var r := text[i];
      assert text[..i + 1] == text[..i] + [r];
      if isSeparator(r) {
        ReadSeparator(text[..i], terms, separators, term, gap, inTerm, isSeparator, r);
        if inTerm {
          terms, term, inTerm := terms + [term], "", false;
        }
        gap := gap + [r];
      } else {
        ReadOther(text[..i], terms, separators, term, gap, inTerm, isSeparator, r);
        if !inTerm {
          separators, gap, inTerm := separators + [gap], "", true;
        }
        term := term + [r];
      }
      i := i + 1;
    }
    assert text[..i] == text;
    ReadEnd(text, terms, separators, term, gap, inTerm, isSeparator);
    if inTerm {
      terms := terms + [term];
    }
    separators := separators + [gap];
    e := Entry(terms, separators);
  }

  // ----- Patterns --------------------------------------------------------------------------------

  type Frequency = map<(nat, string), nat>

  function CountOf(frequency: Frequency, p: nat, term: string): nat {
    if (p, term) in frequency then frequency[(p, term)] else 0
  }

  predicate IsFrequent(frequency: Frequency, support: real, p: nat, term: string) {
    CountOf(frequency, p, term) as real > support
  }

  /** Which terms of an entry are frequent at their positions. */
  function Kept(e: Entry, frequency: Frequency, support: real): (keep: seq<bool>)
    ensures |keep| == |e.terms| && forall p :: 0 <= p < |keep| ==>
              keep[p] == IsFrequent(frequency, support, p, e.terms[p])
  {
    seq(|e.terms|, p requires 0 <= p < |e.terms| => IsFrequent(frequency, support, p, e.terms[p]))
  }

  ghost predicate Fitting(e: Entry, keep: seq<bool>) {
    |keep| == |e.terms| && |e.separators| == |e.terms| + 1
  }

  ghost function Masked(terms: seq<string>, keep: seq<bool>): (masked: seq<string>)
    requires |keep| == |terms|
    ensures |masked| == |terms| && forall i :: 0 <= i < |terms| ==> masked[i] == if keep[i] then terms[i] else "*"
  {
    seq(|terms|, i requires 0 <= i < |terms| == |keep| => if keep[i] then terms[i] else "*")
  }

  ghost function NextKept(keep: seq<bool>, p: nat): (q: nat)
    requires p <= |keep|
    ensures p <= q <= |keep| && (q < |keep| ==> keep[q]) && forall i :: p <= i < q ==> !keep[i]
    decreases |keep| - p
  {
    if p == |keep| || keep[p] then p else NextKept(keep, p + 1)
  }

  /** From position p on, which is the first or follows a kept term: a star for everything up to the next kept term. */
  ghost function Glob(e: Entry, keep: seq<bool>, p: nat): string
    requires Fitting(e, keep) && p <= |keep|
    decreases |keep| - p
  {
    var q := NextKept(keep, p);
    (if q == p then e.separators[p] else "*") + if q == |keep| then "" else e.terms[q] + Glob(e, keep, q + 1)
  }

  /**
    With the default separators every other term becomes a star; with given ones a star takes its separators with
    it.
   */
  ghost function PatternText(e: Entry, keep: seq<bool>, custom: bool): string
    requires Fitting(e, keep)
  {
    if custom then Glob(e, keep, 0) else Interleaved(Entry(Masked(e.terms, keep), e.separators))
  }

  // ----- A pattern matches the text it is made from -----------------------------------------------

  /** The text from position p on. */
  ghost function From(e: Entry, p: nat): string
    requires |e.separators| == |e.terms| + 1 && p <= |e.terms|
    decreases |e.terms| - p
  {
    if p == |e.terms| then e.separators[p] else e.separators[p] + (e.terms[p] + From(e, p + 1))
  }

  lemma {:induction false} FromIsRest(e: Entry, p: nat)
    requires |e.separators| == |e.terms| + 1 && p <= |e.terms|
    ensures Pairs(e.terms, e.separators, p) + From(e, p) == Interleaved(e)
    decreases |e.terms| - p
  {
    if p < |e.terms| {
      FromIsRest(e, p + 1);
      Regroup(Pairs(e.terms, e.separators, p), e.separators[p], e.terms[p], From(e, p + 1));
    }
  }

  lemma Regroup(a: string, b: string, c: string, d: string)
    ensures (a + b + c) + d == a + (b + (c + d))
  {}

  /** What stands between position p and the term at q. */
  lemma {:induction false} FromSplits(e: Entry, p: nat, q: nat) returns (between: string)
    requires |e.separators| == |e.terms| + 1 && p <= q < |e.terms|
    ensures From(e, p) == between + (e.terms[q] + From(e, q + 1))
    ensures p == q ==> between == e.separators[p]
    decreases q - p
  {
    if p == q {
      between := e.separators[p];
    } else {
      var rest := FromSplits(e, p + 1, q);
      between := e.separators[p] + e.terms[p] + rest;
      Regroup(e.separators[p], e.terms[p], rest, e.terms[q] + From(e, q + 1));
      assert e.separators[p] + (e.terms[p] + (rest + (e.terms[q] + From(e, q + 1)))) ==
          between + (e.terms[q] + From(e, q + 1));
    }
  }

  lemma {:induction false} GlobMatches(e: Entry, keep: seq<bool>, p: nat)
    requires Fitting(e, keep) && p <= |keep|
    ensures Matches(Glob(e, keep, p), From(e, p))
    decreases |keep| - p
  {
    hide Matches;
    var q := NextKept(keep, p);
    if q == |keep| {
      if p < q {
        StarMatches(From(e, p));
        assert "*" + "" == "*";
      } else {
        MatchesItself(e.separators[p]);
        assert e.separators[p] + "" == e.separators[p];
      }
    } else {
      var between := FromSplits(e, p, q);
      GlobMatches(e, keep, q + 1);
      MatchesItself(e.terms[q]);
      MatchesConcat(e.terms[q], e.terms[q], Glob(e, keep, q + 1), From(e, q + 1));
      if p == q {
        MatchesItself(between);
      } else {
        StarMatches(between);
      }
      MatchesConcat(if p == q then e.separators[p] else "*", between, e.terms[q] + Glob(e, keep, q + 1),
          e.terms[q] + From(e, q + 1));
    }
  }

  lemma {:induction false} MaskedMatches(e: Entry, keep: seq<bool>, n: nat)
    requires Fitting(e, keep) && n <= |keep|
    ensures Matches(Pairs(Masked(e.terms, keep), e.separators, n), Pairs(e.terms, e.separators, n))
  {
    hide Matches;
    if n == 0 {
      MatchesItself("");
    } else {
      MaskedMatches(e, keep, n - 1);
      var masked := Masked(e.terms, keep);
      if keep[n - 1] {
        MatchesItself(e.terms[n - 1]);
      } else {
        StarMatches(e.terms[n - 1]);
      }
      MatchStep(Pairs(masked, e.separators, n - 1), Pairs(e.terms, e.separators, n - 1), e.separators[n - 1],
          masked[n - 1], e.terms[n - 1]);
    }
  }

  lemma MatchStep(g: string, t: string, s: string, h: string, u: string)
    requires Matches(g, t) && Matches(h, u)
    ensures Matches(g + s + h, t + s + u)
  {
    hide Matches;
    MatchesItself(s);
    MatchesConcat(g, t, s, s);
    MatchesConcat(g + s, t + s, h, u);
  }

  /** Both kinds of pattern match the text, whichever terms are kept. */
  lemma PatternMatches(e: Entry, keep: seq<bool>, custom: bool)
    requires Fitting(e, keep)
    ensures Matches(PatternText(e, keep, custom), Interleaved(e))
  {
    hide Matches;
    if custom {
      GlobMatches(e, keep, 0);
      FromIsRest(e, 0);
      assert "" + From(e, 0) == From(e, 0);
    } else {
      var n, masked := |keep|, Masked(e.terms, keep);
      MaskedMatches(e, keep, n);
      MatchesItself(e.separators[n]);
      MatchesConcat(Pairs(masked, e.separators, n), Pairs(e.terms, e.separators, n), e.separators[n], e.separators[n]);
    }
  }

  /** What is still to be written after a star. */
  ghost function AfterStar(e: Entry, keep: seq<bool>, p: nat): string
    requires Fitting(e, keep) && p <= |keep|
  {
    var q := NextKept(keep, p);
    if q == |keep| then "" else e.terms[q] + Glob(e, keep, q + 1)
  }

  /** What is still to be written from position p on. */
  ghost function Unwritten(e: Entry, keep: seq<bool>, p: nat, custom: bool, wildcard: bool): string
    requires Fitting(e, keep) && p <= |keep|
  {
    if !custom then From(Entry(Masked(e.terms, keep), e.separators), p)
    else if wildcard then AfterStar(e, keep, p)
    else Glob(e, keep, p)
  }

  /** One turn of the loop that writes a pattern. */
  lemma WriteTerm(e: Entry, keep: seq<bool>, p: nat, custom: bool, wildcard: bool)
    requires Fitting(e, keep) && p < |keep|
    ensures var separator := if custom && (wildcard || !keep[p]) then "" else e.separators[p];
            var term := if keep[p] then e.terms[p] else if wildcard && custom then "" else "*";
            Unwritten(e, keep, p, custom, wildcard) == (separator + term) + Unwritten(e, keep, p + 1, custom, !keep[p])
  {
    if custom {
      if keep[p] {
        assert NextKept(keep, p) == p;
        if wildcard {
          assert "" + e.terms[p] == e.terms[p];
        }
      } else {
        assert NextKept(keep, p) == NextKept(keep, p + 1);
        assert "" + "" == "" && "" + "*" == "*";
      }
    } else {
      var masked := Entry(Masked(e.terms, keep), e.separators);
      assert From(masked, p) == e.separators[p] + (masked.terms[p] + From(masked, p + 1));
    }
  }

  lemma WriteEnd(e: Entry, keep: seq<bool>, custom: bool, wildcard: bool)
    requires Fitting(e, keep)
    ensures Unwritten(e, keep, |keep|, custom, wildcard) == if wildcard && custom then "" else e.separators[|keep|]
  {
    assert e.separators[|keep|] + "" == e.separators[|keep|];
  }

  /** The candidate pattern of an entry, and whether any of its terms is frequent. */
  method PatternOf(item: Entry, frequency: Frequency, support: real, custom: bool)
    returns (text: string, frequent: bool)
    requires |item.separators| == |item.terms| + 1
    ensures text == PatternText(item, Kept(item, frequency, support), custom)
    ensures frequent <==> true in Kept(item, frequency, support)
  {
    ghost var keep := Kept(item, frequency, support);
    var builder, wildcard := "", false;
    frequent := false;
    ghost var whole := Unwritten(item, keep, 0, custom, false);
    assert "" + whole == whole;
    var p := 0;
    while p < |item.terms|
      invariant 0 <= p <= |item.terms|
      invariant builder + Unwritten(item, keep, p, custom, wildcard) == whole
      invariant frequent <==> true in keep[..p]
    {
      hide Unwritten;
      WriteTerm(item, keep, p, custom, wildcard);
      var keepIt := IsFrequent(frequency, support, p, item.terms[p]);
      assert keep[..p + 1] == keep[..p] + [keepIt];
      ghost var before, was := builder, wildcard;
      var separator := "";
      if !(custom && (wildcard || !keepIt)) {
        separator := item.separators[p];
      }
      var term := "";
      if keepIt {
        term := item.terms[p];
        frequent, wildcard := true, false;
      } else {
        if !(wildcard && custom) {
          term := "*";
        }
        wildcard := true;
      }
      Associate(builder, separator + term, Unwritten(item, keep, p + 1, custom, !keepIt));
      builder := builder + (separator + term);
      p := p + 1;
    }
    WriteEnd(item, keep, custom, wildcard);
    assert keep[..p] == keep;
    hide Unwritten;
    text := builder + if wildcard && custom then "" else item.separators[p];
    WholeIsPattern(item, keep, custom);
  }

  lemma Associate(a: string, b: string, c: string)
    ensures a + (b + c) == (a + b) + c
  {}

  lemma WholeIsPattern(e: Entry, keep: seq<bool>, custom: bool)
    requires Fitting(e, keep)
    ensures Unwritten(e, keep, 0, custom, false) == PatternText(e, keep, custom)
  {
    if !custom {
      FromIsRest(Entry(Masked(e.terms, keep), e.separators), 0);
    }
  }

  /** A pattern that keeps a term is not empty. */
  lemma {:induction false} PatternNotEmpty(e: Entry, keep: seq<bool>, custom: bool)
    requires Fitting(e, keep) && true in keep && forall i :: 0 <= i < |e.terms| ==> e.terms[i] != ""
    ensures PatternText(e, keep, custom) != ""
  {
    if custom {
      var i :| 0 <= i < |keep| && keep[i];
      assert NextKept(keep, 0) <= i;
      assert |Glob(e, keep, 0)| >= |e.terms[NextKept(keep, 0)]|;
    } else {
      var masked := Masked(e.terms, keep);
      assert masked[|keep| - 1] != "";
      assert |Pairs(masked, e.separators, |keep|)| >= |masked[|keep| - 1]|;
    }
  }

  // ----- Weights ------------------------------------------------------------------------------------

  ghost function Sum(ws: seq<nat>): nat {
    if ws == [] then 0 else Sum(ws[..|ws| - 1]) + ws[|ws| - 1]
  }

  /** The weight of the values with one label. */
  ghost function WeightWhere(labels: seq<string>, ws: seq<nat>, t: string): nat
    requires |labels| == |ws|
  {
    if labels == [] then 0
    else
      var n := |labels| - 1;
      WeightWhere(labels[..n], ws[..n], t) + if labels[n] == t then ws[n] else 0
  }

  /** The weight of the entries that have the term at position p. */
  ghost function TermWeight(entries: seq<Entry>, ws: seq<nat>, p: nat, term: string): nat
    requires |entries| == |ws|
  {
    if entries == [] then 0
    else
      var n := |entries| - 1;
      TermWeight(entries[..n], ws[..n], p, term) +
          if p < |entries[n].terms| && entries[n].terms[p] == term then ws[n] else 0
  }

  /** The terms of an entry that more than the support of the values have at the same position. */
  ghost function Frequent(entries: seq<Entry>, ws: seq<nat>, support: real, e: Entry): (keep: seq<bool>)
    requires |entries| == |ws|
    ensures |keep| == |e.terms|
    ensures forall p :: 0 <= p < |keep| ==> (keep[p] <==> TermWeight(entries, ws, p, e.terms[p]) as real > support)
  {
    seq(|e.terms|, p requires 0 <= p < |e.terms| => TermWeight(entries, ws, p, e.terms[p]) as real > support)
  }

  /** How a value is cut up: as Split says, or as one term when that gives too many. */
  ghost predicate IsEntry(text: string, e: Entry, isSeparator: char -> bool) {
    (IsSplit(text, e, isSeparator) && |e.terms| <= 256) ||
    (e == Entry([text], ["", ""]) && exists s :: IsSplit(text, s, isSeparator) && |s.terms| > 256)
  }

  lemma EntryFacts(text: string, e: Entry, isSeparator: char -> bool)
    requires IsEntry(text, e, isSeparator)
    ensures |e.separators| == |e.terms| + 1 && Interleaved(e) == text
    ensures forall i :: 0 <= i < |e.terms| ==> e.terms[i] != ""
  {
    if !IsSplit(text, e, isSeparator) {
      assert Pairs(e.terms, e.separators, 1) == text;
      assert "" + "" + text + "" == text;
      var s :| IsSplit(text, s, isSeparator) && |s.terms| > MAX_TERMS;
      assert |Pairs(s.terms, s.separators, |s.terms|)| >= |s.terms[|s.terms| - 1]|;
    }
  }

  method CutUp(text: string, isSeparator: char -> bool) returns (e: Entry)
    ensures IsEntry(text, e, isSeparator)
  {
    e := Split(text, isSeparator);
    if |e.terms| > MAX_TERMS {
      e := Entry([text], ["", ""]);
    }
  }

  /** Adds one value's weight to each of its terms. */
  method AddTerms(frequency: Frequency, terms: seq<string>, count: nat) returns (f: Frequency)
    ensures forall q: nat, t :: CountOf(f, q, t) == CountOf(frequency, q, t) +
              if q < |terms| && terms[q] == t then count else 0
  {
    f := frequency;
    var p := 0;
    while p < |terms|
      invariant 0 <= p <= |terms|
      invariant forall q: nat, t :: CountOf(f, q, t) == CountOf(frequency, q, t) +
                  if q < p && terms[q] == t then count else 0
    {
      f := f[(p, terms[p]) := CountOf(f, p, terms[p]) + count];
      p := p + 1;
    }
  }

  ghost predicate AllEntries(order: seq<string>, entries: seq<Entry>, isSeparator: char -> bool) {
    |entries| == |order| && forall i :: 0 <= i < |order| ==> IsEntry(order[i], entries[i], isSeparator)
  }

  /** The table says of every position and term how many values have it there. */
  ghost predicate Tabulates(frequency: Frequency, entries: seq<Entry>, ws: seq<nat>) {
    |entries| == |ws| && forall p: nat, t :: CountOf(frequency, p, t) == TermWeight(entries, ws, p, t)
  }

  ghost function TermCount(entries: seq<Entry>): nat {
    if entries == [] then 0 else TermCount(entries[..|entries| - 1]) + |entries[|entries| - 1].terms|
  }

  /** The first values alone have more terms than the table may count. */
  ghost predicate TooManyIn(order: seq<string>, isSeparator: char -> bool) {
    exists some :: |some| <= |order| && AllEntries(order[..|some|], some, isSeparator) && TermCount(some) > 4194304
  }

  lemma EnoughTerms(order: seq<string>, isSeparator: char -> bool, some: seq<Entry>)
    requires |some| <= |order| && TermCount(some) > 4194304
    requires forall j :: 0 <= j < |some| ==> IsEntry(order[j], some[j], isSeparator)
    ensures TooManyIn(order, isSeparator)
  {
    hide IsEntry;
    assert AllEntries(order[..|some|], some, isSeparator);
  }

  method BuildEntries(order: seq<string>, ws: seq<nat>, isSeparator: char -> bool)
    returns (ok: bool, entries: seq<Entry>, frequency: Frequency, total: nat)
    requires |order| == |ws|
    ensures !ok ==> TooManyIn(order, isSeparator)
    ensures ok ==> |entries| == |order| && total == Sum(ws)
    ensures ok ==> AllEntries(order, entries, isSeparator) && Tabulates(frequency, entries, ws)
  {
    entries, frequency, total := [], map[], 0;
    var totalTerms, i := 0, 0;
    assert ws[..0] == [];
    while i < |order|
      invariant 0 <= i == |entries| <= |order| && total == Sum(ws[..i]) && totalTerms == TermCount(entries)
      invariant forall j :: 0 <= j < i ==> IsEntry(order[j], entries[j], isSeparator)
      invariant forall p: nat, t :: CountOf(frequency, p, t) == TermWeight(entries, ws[..i], p, t)
    {
      hide IsEntry, CountOf, TooManyIn;
      var e := CutUp(order[i], isSeparator);
      totalTerms := totalTerms + |e.terms|;
      assert (entries + [e])[..i] == entries;
      if totalTerms > MAX_TOTAL_TERMS {
        EnoughTerms(order, isSeparator, entries + [e]);
        return false, entries, frequency, total;
      }
      ghost var before, known := frequency, entries;
      assert ws[..i + 1][..i] == ws[..i];
      entries, total := entries + [e], total + ws[i];
      frequency := AddTerms(frequency, e.terms, ws[i]);
      assert entries[..i] == known;
      i := i + 1;
    }
    assert ws[..i] == ws;
    ok := true;
  }

  // ----- Candidates ---------------------------------------------------------------------------------

  datatype Candidate = Candidate(count: nat, representative: string)

  /** The pattern of an entry with a frequent term, and the empty text for one without. */
  ghost function Label(e: Entry, keep: seq<bool>, custom: bool): string
    requires Fitting(e, keep)
  {
    if true in keep then PatternText(e, keep, custom) else ""
  }

  /** The labels that are not empty, each once, in order of appearance. */
  ghost function Distinct(labels: seq<string>): seq<string> {
    if labels == [] then []
    else
      var front, last := labels[..|labels| - 1], labels[|labels| - 1];
      if last == "" || last in front then Distinct(front) else Distinct(front) + [last]
  }

  /** The first value with the label. */
  ghost function FirstValue(labels: seq<string>, order: seq<string>, t: string): string
    requires |labels| == |order|
  {
    if labels == [] then ""
    else
      var n := |labels| - 1;
      if t in labels[..n] then FirstValue(labels[..n], order[..n], t) else order[n]
  }

  /** The map and the list of candidates after some values. */
  ghost predicate Candidates(labels: seq<string>, ws: seq<nat>, order: seq<string>, candidates: map<string, Candidate>,
                             names: seq<string>)
    requires |labels| == |ws| == |order|
  {
    names == Distinct(labels) && (forall t :: t in candidates <==> t != "" && t in labels) &&
    forall t :: t in candidates ==> candidates[t] == Candidate(WeightWhere(labels, ws, t), FirstValue(labels, order, t))
  }

  lemma {:induction false} NoWeight(labels: seq<string>, ws: seq<nat>, t: string)
    requires |labels| == |ws| && t !in labels
    ensures WeightWhere(labels, ws, t) == 0
  {
    if labels != [] {
      NoWeight(labels[..|labels| - 1], ws[..|labels| - 1], t);
    }
  }

  lemma OneMoreLabel(labels: seq<string>, ws: seq<nat>, order: seq<string>, tag: string, w: nat, value: string,
                     t: string)
    requires |labels| == |ws| == |order|
    ensures WeightWhere(labels + [tag], ws + [w], t) == WeightWhere(labels, ws, t) + if tag == t then w else 0
    ensures FirstValue(labels + [tag], order + [value], t) == if t in labels then FirstValue(labels, order, t)
              else value
    ensures Distinct(labels + [tag]) == if tag == "" || tag in labels then Distinct(labels)
              else Distinct(labels) + [tag]
  {
    var n := |labels|;
    assert (labels + [tag])[..n] == labels && (ws + [w])[..n] == ws && (order + [value])[..n] == order;
  }

  lemma CandidatesStep(labels: seq<string>, ws: seq<nat>, order: seq<string>, candidates: map<string, Candidate>,
                       names: seq<string>,
                       tag: string, w: nat, value: string)
    requires |labels| == |ws| == |order| && Candidates(labels, ws, order, candidates, names)
    ensures tag == "" ==> Candidates(labels + [tag], ws + [w], order + [value], candidates, names)
    ensures tag in candidates ==>
              Candidates(labels + [tag], ws + [w], order + [value],
                         candidates[tag := candidates[tag].(count := candidates[tag].count + w)], names)
    ensures tag != "" && tag !in candidates ==>
              Candidates(labels + [tag], ws + [w], order + [value], candidates[tag := Candidate(w, value)],
                  names + [tag])
  {
    hide WeightWhere, FirstValue, Distinct;
    forall t
      ensures WeightWhere(labels + [tag], ws + [w], t) == WeightWhere(labels, ws, t) + if tag == t then w else 0
      ensures FirstValue(labels + [tag], order + [value], t) == if t in labels then FirstValue(labels, order, t)
                else value
    {
      OneMoreLabel(labels, ws, order, tag, w, value, t);
    }
    OneMoreLabel(labels, ws, order, tag, w, value, tag);
    if tag !in labels {
      NoWeight(labels, ws, tag);
    }
  }

  /** An entry with a separator more than terms, none of them empty. */
  ghost predicate Cut(e: Entry) {
    |e.separators| == |e.terms| + 1 && forall j :: 0 <= j < |e.terms| ==> e.terms[j] != ""
  }

  method LabelOf(e: Entry, frequency: Frequency, support: real, custom: bool) returns (tag: string)
    requires Cut(e)
    ensures tag == Label(e, Kept(e, frequency, support), custom)
  {
    hide PatternText;
    var text, frequent := PatternOf(e, frequency, support, custom);
    if frequent {
      PatternNotEmpty(e, Kept(e, frequency, support), custom);
    }
    tag := if frequent then text else "";
  }

  /** Counts a value for its candidate pattern; one without a pattern is left out. */
  method AddCandidate(candidates: map<string, Candidate>, names: seq<string>, tag: string, w: nat, value: string,
                      ghost labels: seq<string>, ghost ws: seq<nat>, ghost order: seq<string>)
    returns (more: map<string, Candidate>, named: seq<string>)
    requires |labels| == |ws| == |order| && Candidates(labels, ws, order, candidates, names)
    ensures Candidates(labels + [tag], ws + [w], order + [value], more, named)
  {
    hide Candidates;
    CandidatesStep(labels, ws, order, candidates, names, tag, w, value);
    more, named := candidates, names;
    if tag == "" {
      return;
    }
    if tag in candidates {
      more := candidates[tag := candidates[tag].(count := candidates[tag].count + w)];
    } else {
      more, named := candidates[tag := Candidate(w, value)], names + [tag];
    }
  }

  ghost predicate Labelled(tags: seq<string>, entries: seq<Entry>, frequency: Frequency, support: real, custom: bool) {
    |tags| <= |entries| &&
    forall i :: 0 <= i < |tags| ==>
        Cut(entries[i]) && tags[i] == Label(entries[i], Kept(entries[i], frequency, support), custom)
  }

  lemma LabelledStep(tags: seq<string>, entries: seq<Entry>, frequency: Frequency, support: real, custom: bool,
                     tag: string)
    requires Labelled(tags, entries, frequency, support, custom) && |tags| < |entries| && Cut(entries[|tags|])
    requires tag == Label(entries[|tags|], Kept(entries[|tags|], frequency, support), custom)
    ensures Labelled(tags + [tag], entries, frequency, support, custom)
  {
    hide Cut, Label, Kept;
  }

  lemma NothingLabelled(entries: seq<Entry>, frequency: Frequency, support: real, custom: bool)
    ensures Labelled([], entries, frequency, support, custom) && Candidates([], [], [], map[], [])
  {}

  /** The labels of the values, and the candidate patterns with their counts. */
  method Assign(order: seq<string>, ws: seq<nat>, entries: seq<Entry>, frequency: Frequency, support: real,
                custom: bool)
    returns (tags: seq<string>, candidates: map<string, Candidate>, names: seq<string>)
    requires |order| == |ws| == |entries| && forall i :: 0 <= i < |entries| ==> Cut(entries[i])
    ensures |tags| == |order| && Labelled(tags, entries, frequency, support, custom)
    ensures Candidates(tags, ws, order, candidates, names)
  {
    hide *;
    tags, candidates, names := [], map[], [];
    var i := 0;
    NothingLabelled(entries, frequency, support, custom);
    assert ws[..0] == [] && order[..0] == [];
    while i < |order|
      invariant 0 <= i == |tags| <= |order| && Labelled(tags, entries, frequency, support, custom)
      invariant Candidates(tags, ws[..i], order[..i], candidates, names)
    {
      assert ws[..i] + [ws[i]] == ws[..i + 1] && order[..i] + [order[i]] == order[..i + 1];
      var tag := LabelOf(entries[i], frequency, support, custom);
      candidates, names := AddCandidate(candidates, names, tag, ws[i], order[i], tags, ws[..i], order[..i]);
      LabelledStep(tags, entries, frequency, support, custom, tag);
      tags, i := tags + [tag], i + 1;
    }
    assert ws[..i] == ws && order[..i] == order;
  }

  // ----- The report ----------------------------------------------------------------------------------

  datatype Row = Row(pattern: string, count: nat, representative: string)

  const OTHERS: string := "others"

  /** The label has a pattern that enough values share. */
  ghost predicate Supported(labels: seq<string>, ws: seq<nat>, support: real, t: string)
    requires |labels| == |ws|
  {
    t != "" && WeightWhere(labels, ws, t) as real > support
  }

  /** What kind=source says of each value. */
  ghost function Final(labels: seq<string>, ws: seq<nat>, support: real, t: string): string
    requires |labels| == |ws|
  {
    if Supported(labels, ws, support, t) then t else OTHERS
  }

  /** The weight of the values whose label holds. */
  ghost function WeightIn(labels: seq<string>, ws: seq<nat>, chosen: iset<string>): nat
    requires |labels| == |ws|
  {
    if labels == [] then 0
    else
      var n := |labels| - 1;
      WeightIn(labels[..n], ws[..n], chosen) + if labels[n] in chosen then ws[n] else 0
  }

  ghost function Unsupported(labels: seq<string>, ws: seq<nat>, support: real): iset<string>
    requires |labels| == |ws|
  {
    iset t | !Supported(labels, ws, support, t)
  }

  /** The rows of the supported candidates, in the order of the candidates. */
  ghost function Rows(names: seq<string>, labels: seq<string>, ws: seq<nat>, order: seq<string>,
                      support: real): seq<Row>
    requires |labels| == |ws| == |order|
  {
    if names == [] then []
    else
      var n := |names| - 1;
      Rows(names[..n], labels, ws, order, support) +
      if Supported(labels, ws, support, names[n]) then [Row(names[n], WeightWhere(labels, ws, names[n]),
          FirstValue(labels, order, names[n]))]
      else []
  }

  ghost function CountSum(rows: seq<Row>): nat {
    if rows == [] then 0 else CountSum(rows[..|rows| - 1]) + rows[|rows| - 1].count
  }

  // ----- Every value is counted once -------------------------------------------------------------

  /** The weight of the listed labels that are among the chosen ones. */
  ghost function ListedWeight(names: seq<string>, labels: seq<string>, ws: seq<nat>, chosen: iset<string>): nat
    requires |labels| == |ws|
  {
    if names == [] then 0
    else
      var n := |names| - 1;
      ListedWeight(names[..n], labels, ws, chosen) + if names[n] in chosen then WeightWhere(labels, ws, names[n]) else 0
  }

  ghost predicate Once(names: seq<string>) {
    forall i, j :: 0 <= i < j < |names| ==> names[i] != names[j]
  }

  /** One more value adds its weight to one listed label at most. */
  lemma {:induction false} ListedStep(names: seq<string>, labels: seq<string>, ws: seq<nat>, chosen: iset<string>,
                                      tag: string, w: nat)
    requires |labels| == |ws| && Once(names)
    ensures ListedWeight(names, labels + [tag], ws + [w], chosen) ==
            ListedWeight(names, labels, ws, chosen) + if tag in names && tag in chosen then w else 0
  {
    if names != [] {
      var front, last := names[..|names| - 1], names[|names| - 1];
      assert names == front + [last];
      ListedStep(front, labels, ws, chosen, tag, w);
      OneMoreLabel(labels, ws, labels, tag, w, tag, last);
    }
  }

  lemma {:induction false} ListedAppend(names: seq<string>, name: string, labels: seq<string>, ws: seq<nat>,
                                        chosen: iset<string>)
    requires |labels| == |ws|
    ensures ListedWeight(names + [name], labels, ws, chosen) ==
            ListedWeight(names, labels, ws, chosen) + if name in chosen then WeightWhere(labels, ws, name) else 0
  {
    assert (names + [name])[..|names|] == names;
  }

  lemma {:induction false} DistinctIs(labels: seq<string>)
    ensures Once(Distinct(labels)) && forall t :: t in Distinct(labels) <==> t != "" && t in labels
  {
    if labels != [] {
      DistinctIs(labels[..|labels| - 1]);
      assert labels == labels[..|labels| - 1] + [labels[|labels| - 1]];
    }
  }

  /** The distinct chosen labels together weigh what the values so labelled weigh. */
  lemma {:induction false} ListedIsWeightIn(labels: seq<string>, ws: seq<nat>, chosen: iset<string>)
    requires |labels| == |ws| && "" !in chosen
    ensures ListedWeight(Distinct(labels), labels, ws, chosen) == WeightIn(labels, ws, chosen)
  {
    if labels != [] {
      var n := |labels| - 1;
      var front, weights, tag, w := labels[..n], ws[..n], labels[n], ws[n];
      assert labels == front + [tag] && ws == weights + [w];
      ListedIsWeightIn(front, weights, chosen);
      DistinctIs(front);
      ListedStep(Distinct(front), front, weights, chosen, tag, w);
      if tag != "" && tag !in front {
        ListedAppend(Distinct(front), tag, labels, ws, chosen);
        OneMoreLabel(front, weights, front, tag, w, tag, tag);
        NoWeight(front, weights, tag);
      }
    }
  }

  lemma {:induction false} Complement(labels: seq<string>, ws: seq<nat>, chosen: iset<string>, others: iset<string>)
    requires |labels| == |ws| && forall t :: t in chosen <==> t !in others
    ensures WeightIn(labels, ws, chosen) + WeightIn(labels, ws, others) == Sum(ws)
  {
    if labels != [] {
      Complement(labels[..|labels| - 1], ws[..|labels| - 1], chosen, others);
    }
  }

  lemma {:induction false} RowsWeigh(names: seq<string>, labels: seq<string>, ws: seq<nat>, order: seq<string>,
                                     support: real, chosen: iset<string>)
    requires |labels| == |ws| == |order| && forall t :: t in chosen <==> Supported(labels, ws, support, t)
    ensures CountSum(Rows(names, labels, ws, order, support)) == ListedWeight(names, labels, ws, chosen)
  {
    if names != [] {
      hide WeightWhere, FirstValue;
      var n := |names| - 1;
      RowsWeigh(names[..n], labels, ws, order, support, chosen);
      var rows := Rows(names[..n], labels, ws, order, support);
      if Supported(labels, ws, support, names[n]) {
        var r := Row(names[n], WeightWhere(labels, ws, names[n]), FirstValue(labels, order, names[n]));
        assert (rows + [r])[..|rows|] == rows;
      } else {
        assert Rows(names, labels, ws, order, support) == rows;
      }
    }
  }

  /** The counts of the patterns and of the others add up to the number of values. */
  lemma EveryValueCounted(labels: seq<string>, ws: seq<nat>, order: seq<string>, support: real)
    requires |labels| == |ws| == |order|
    ensures CountSum(Rows(Distinct(labels), labels, ws, order, support)) + WeightIn(labels, ws,
              Unsupported(labels, ws, support)) == Sum(ws)
  {
    var chosen := iset t | Supported(labels, ws, support, t);
    hide Supported, WeightWhere, Rows, WeightIn, ListedWeight, Distinct;
    RowsWeigh(Distinct(labels), labels, ws, order, support, chosen);
    assert "" !in chosen by {
      EmptyUnsupported(labels, ws, support);
    }
    ListedIsWeightIn(labels, ws, chosen);
    Complement(labels, ws, chosen, Unsupported(labels, ws, support));
  }

  lemma EmptyUnsupported(labels: seq<string>, ws: seq<nat>, support: real)
    requires |labels| == |ws|
    ensures !Supported(labels, ws, support, "")
  {}

  // ----- Sorting the rows ------------------------------------------------------------------------------

  ghost predicate Descending(rows: seq<Row>) {
    forall i, j :: 0 <= i < j < |rows| ==> rows[i].count >= rows[j].count
  }

  ghost function WithCount(rows: seq<Row>, c: nat): seq<Row> {
    if rows == [] then []
    else
      var front, last := rows[..|rows| - 1], rows[|rows| - 1];
      WithCount(front, c) + if last.count == c then [last] else []
  }

  /** Behind every row that counts as much or more. */
  function InsertRow(r: Row, rows: seq<Row>): seq<Row> {
    if rows == [] || rows[|rows| - 1].count >= r.count then rows + [r]
    else InsertRow(r, rows[..|rows| - 1]) + [rows[|rows| - 1]]
  }

  lemma {:induction false} InsertRowOrders(r: Row, rows: seq<Row>)
    requires Descending(rows)
    ensures Descending(InsertRow(r, rows)) && (forall x :: x in InsertRow(r, rows) <==> x == r || x in rows)
  {
    if rows != [] && rows[|rows| - 1].count < r.count {
      var front, last := rows[..|rows| - 1], rows[|rows| - 1];
      InsertRowOrders(r, front);
      assert rows == front + [last];
      var inner := InsertRow(r, front);
      forall i | 0 <= i < |inner|
        ensures inner[i].count >= last.count
      {
        assert inner[i] in inner;
      }
    }
  }

  lemma {:induction false} InsertRowSums(r: Row, rows: seq<Row>)
    ensures CountSum(InsertRow(r, rows)) == CountSum(rows) + r.count
  {
    if rows == [] || rows[|rows| - 1].count >= r.count {
      assert (rows + [r])[..|rows|] == rows;
    } else {
      var front, last := rows[..|rows| - 1], rows[|rows| - 1];
      InsertRowSums(r, front);
      var inner := InsertRow(r, front);
      assert (inner + [last])[..|inner|] == inner;
    }
  }

  lemma {:induction false} InsertRowIsStable(r: Row, rows: seq<Row>, c: nat)
    ensures WithCount(InsertRow(r, rows), c) == WithCount(rows, c) + if r.count == c then [r] else []
  {
    if rows == [] || rows[|rows| - 1].count >= r.count {
      assert (rows + [r])[..|rows|] == rows;
    } else {
      var front, last := rows[..|rows| - 1], rows[|rows| - 1];
      InsertRowIsStable(r, front, c);
      var inner := InsertRow(r, front);
      assert (inner + [last])[..|inner|] == inner;
      if last.count == c {
        assert WithCount(front, c) + [] + [last] == WithCount(front, c) + [last] + [];
      }
    }
  }

  /** sort.SliceStable by descending count: rows of one count stay in their order. */
  method SortRows(rows: seq<Row>) returns (sorted: seq<Row>)
    ensures Descending(sorted) && CountSum(sorted) == CountSum(rows)
    ensures forall c :: WithCount(sorted, c) == WithCount(rows, c)
  {
    sorted := [];
    var i := 0;
    assert rows[..0] == [];
    while i < |rows|
      invariant 0 <= i <= |rows| && Descending(sorted) && CountSum(sorted) == CountSum(rows[..i])
      invariant forall c :: WithCount(sorted, c) == WithCount(rows[..i], c)
    {
      hide InsertRow, Descending;
      assert rows[..i + 1][..i] == rows[..i];
      forall c
        ensures WithCount(InsertRow(rows[i], sorted), c) == WithCount(rows[..i + 1], c)
      {
        InsertRowIsStable(rows[i], sorted, c);
      }
      InsertRowOrders(rows[i], sorted);
      InsertRowSums(rows[i], sorted);
      sorted, i := InsertRow(rows[i], sorted), i + 1;
    }
    assert rows[..i] == rows;
  }

  method SupportOf(threshold: real, total: nat) returns (support: real)
    ensures support == Support(threshold, total)
  {
    support := threshold * total as real;
  }

  /** How many values a pattern must have more than. */
  ghost function Support(threshold: real, total: nat): real {
    threshold * total as real
  }

  // ----- Finishing -----------------------------------------------------------------------------------

  /** The labels of the values, by the terms that are frequent among them. */
  ghost predicate LabelsOf(labels: seq<string>, entries: seq<Entry>, ws: seq<nat>, support: real, custom: bool) {
    |labels| == |entries| == |ws| &&
    forall i :: 0 <= i < |labels| ==>
        Cut(entries[i]) && labels[i] == Label(entries[i], Frequent(entries, ws, support, entries[i]), custom)
  }

  lemma KeptIsFrequent(e: Entry, frequency: Frequency, support: real, entries: seq<Entry>, ws: seq<nat>)
    requires Tabulates(frequency, entries, ws)
    ensures Kept(e, frequency, support) == Frequent(entries, ws, support, e)
  {
    hide CountOf, TermWeight;
  }

  lemma LabelledIsLabelsOf(labels: seq<string>, entries: seq<Entry>, frequency: Frequency, ws: seq<nat>, support: real,
                           custom: bool)
    requires |labels| == |entries| == |ws| && Labelled(labels, entries, frequency, support, custom)
    requires Tabulates(frequency, entries, ws)
    ensures LabelsOf(labels, entries, ws, support, custom)
  {
    hide Label, Tabulates, Kept, Frequent;
    forall i | 0 <= i < |labels|
      ensures Cut(entries[i]) && labels[i] == Label(entries[i], Frequent(entries, ws, support, entries[i]), custom)
    {
      KeptIsFrequent(entries[i], frequency, support, entries, ws);
    }
  }

  /** Every pattern that is reported for a value matches the value. */
  lemma LabelsMatch(order: seq<string>, labels: seq<string>, entries: seq<Entry>, ws: seq<nat>, support: real,
                    custom: bool,
                    isSeparator: char -> bool, i: nat)
    requires i < |labels| == |order| && LabelsOf(labels, entries, ws, support, custom) &&
               IsEntry(order[i], entries[i], isSeparator)
    ensures labels[i] != "" ==> Matches(labels[i], order[i])
    ensures Supported(labels, ws, support, labels[i]) ==> Matches(Final(labels, ws, support, labels[i]), order[i])
  {
    hide IsEntry, Matches, PatternText;
    EntryFacts(order[i], entries[i], isSeparator);
    PatternMatches(entries[i], Frequent(entries, ws, support, entries[i]), custom);
  }

  datatype Report = Sources(rows: seq<(string, string)>) | Table(patterns: seq<Row>, others: nat)

  ghost predicate IsReport(report: Report, order: seq<string>, labels: seq<string>, ws: seq<nat>, support: real)
    requires |labels| == |ws| == |order|
  {
    match report
    case Sources(rows) =>
      |rows| == |order| && forall i :: 0 <= i < |order| ==> rows[i] == (order[i], Final(labels, ws, support, labels[i]))
    case Table(patterns, others) =>
      Descending(patterns) && (forall c ::
          WithCount(patterns, c) == WithCount(Rows(Distinct(labels), labels, ws, order, support), c)) &&
      others == WeightIn(labels, ws, Unsupported(labels, ws, support)) && CountSum(patterns) + others == Sum(ws)
  }

  /** Values without a supported pattern become others. */
  method Settle(order: seq<string>, ws: seq<nat>, labels: seq<string>, candidates: map<string, Candidate>,
                ghost names: seq<string>, support: real)
    returns (tags: seq<string>, others: nat)
    requires |labels| == |ws| == |order| && Candidates(labels, ws, order, candidates, names)
    ensures |tags| == |labels| && forall i :: 0 <= i < |tags| ==> tags[i] == Final(labels, ws, support, labels[i])
    ensures others == WeightIn(labels, ws, Unsupported(labels, ws, support))
  {
    hide Candidates, Supported, WeightIn;
    ghost var chosen := Unsupported(labels, ws, support);
    tags, others := [], 0;
    var i := 0;
    NothingIn(labels, ws, chosen);
    while i < |labels|
      invariant 0 <= i == |tags| <= |labels|
      invariant forall j :: 0 <= j < i ==> tags[j] == Final(labels, ws, support, labels[j])
      invariant others == WeightIn(labels[..i], ws[..i], chosen)
    {
      WeightInStep(labels, ws, chosen, i);
      SupportedIs(labels, ws, order, candidates, names, support, i);
      if labels[i] == "" || candidates[labels[i]].count as real <= support {
        tags, others := tags + [OTHERS], others + ws[i];
      } else {
        tags := tags + [labels[i]];
      }
      i := i + 1;
    }
    assert labels[..i] == labels && ws[..i] == ws;
  }

  lemma NothingIn(labels: seq<string>, ws: seq<nat>, chosen: iset<string>)
    requires |labels| == |ws|
    ensures WeightIn(labels[..0], ws[..0], chosen) == 0
  {}

  lemma WeightInStep(labels: seq<string>, ws: seq<nat>, chosen: iset<string>, i: nat)
    requires i < |labels| == |ws|
    ensures WeightIn(labels[..i + 1], ws[..i + 1], chosen) ==
              WeightIn(labels[..i], ws[..i], chosen) + if labels[i] in chosen then ws[i] else 0
  {
    assert labels[..i + 1][..i] == labels[..i] && ws[..i + 1][..i] == ws[..i];
  }

  lemma SupportedIs(labels: seq<string>, ws: seq<nat>, order: seq<string>, candidates: map<string, Candidate>,
                    names: seq<string>, support: real, i: nat)
    requires |labels| == |ws| == |order| && i < |labels| && Candidates(labels, ws, order, candidates, names)
    ensures labels[i] != "" ==> labels[i] in candidates
    ensures Supported(labels, ws, support, labels[i]) <==>
              labels[i] != "" && !(candidates[labels[i]].count as real <= support)
  {
    hide WeightWhere;
  }

  /** The supported candidates in the order in which they came up. */
  method Collect(ws: seq<nat>, labels: seq<string>, candidates: map<string, Candidate>, names: seq<string>,
                 support: real, ghost order: seq<string>)
    returns (rows: seq<Row>)
    requires |labels| == |ws| == |order| && Candidates(labels, ws, order, candidates, names)
    ensures rows == Rows(names, labels, ws, order, support)
  {
    rows := [];
    var i := 0;
    assert names[..0] == [];
    while i < |names|
      invariant 0 <= i <= |names| && rows == Rows(names[..i], labels, ws, order, support)
    {
      assert names[..i + 1][..i] == names[..i];
      CandidateIs(labels, ws, order, candidates, names, support, i);
      hide Candidates, Supported, WeightWhere, FirstValue;
      var candidate := candidates[names[i]];
      if candidate.count as real > support {
        rows := rows + [Row(names[i], candidate.count, candidate.representative)];
      }
      i := i + 1;
    }
    assert names[..i] == names;
  }

  lemma CandidateIs(labels: seq<string>, ws: seq<nat>, order: seq<string>, candidates: map<string, Candidate>,
                    names: seq<string>, support: real, i: nat)
    requires |labels| == |ws| == |order| && i < |names| && Candidates(labels, ws, order, candidates, names)
    ensures names[i] in candidates
    ensures candidates[names[i]] == Candidate(WeightWhere(labels, ws, names[i]), FirstValue(labels, order, names[i]))
    ensures Supported(labels, ws, support, names[i]) <==> candidates[names[i]].count as real > support
  {
    hide WeightWhere, FirstValue, Distinct;
    DistinctIs(labels);
    assert names[i] in names;
  }

  // ----- Counting the values ----------------------------------------------------------------------------

  ghost function Occurrences(taken: seq<string>, v: string): nat {
    if taken == [] then 0
    else Occurrences(taken[..|taken| - 1], v) + if taken[|taken| - 1] == v then 1 else 0
  }

  /** The values, each once, in the order in which they first came. */
  ghost function Values(taken: seq<string>): seq<string> {
    if taken == [] then []
    else
      var front, last := taken[..|taken| - 1], taken[|taken| - 1];
      if last in front then Values(front) else Values(front) + [last]
  }

  function Weights(order: seq<string>, counts: map<string, nat>): (ws: seq<nat>)
    requires forall i :: 0 <= i < |order| ==> order[i] in counts
    ensures |ws| == |order| && forall i :: 0 <= i < |order| ==> ws[i] == counts[order[i]]
  {
    seq(|order|, i requires 0 <= i < |order| && order[i] in counts => counts[order[i]])
  }

  lemma {:induction false} ValuesAre(taken: seq<string>)
    ensures Once(Values(taken)) && forall v :: v in Values(taken) <==> v in taken
  {
    if taken != [] {
      ValuesAre(taken[..|taken| - 1]);
      assert taken == taken[..|taken| - 1] + [taken[|taken| - 1]];
    }
  }

  lemma OneMoreValue(taken: seq<string>, v: string, u: string)
    ensures Occurrences(taken + [v], u) == Occurrences(taken, u) + if u == v then 1 else 0
    ensures Values(taken + [v]) == if v in taken then Values(taken) else Values(taken) + [v]
  {
    assert (taken + [v])[..|taken|] == taken;
  }

  lemma {:induction false} NoOccurrence(taken: seq<string>, v: string)
    requires v !in taken
    ensures Occurrences(taken, v) == 0
  {
    if taken != [] {
      NoOccurrence(taken[..|taken| - 1], v);
    }
  }

  /** The weights of distinct values when one value's count goes up by one. */
  lemma SumLast(order: seq<string>, counts: map<string, nat>)
    requires order != [] && forall i :: 0 <= i < |order| ==> order[i] in counts
    ensures Sum(Weights(order, counts)) == Sum(Weights(order[..|order| - 1], counts)) + counts[order[|order| - 1]]
  {
    assert Weights(order, counts)[..|order| - 1] == Weights(order[..|order| - 1], counts);
  }

  lemma {:induction false} SumRaised(order: seq<string>, counts: map<string, nat>, v: string)
    requires Once(order) && v in order && forall i :: 0 <= i < |order| ==> order[i] in counts
    ensures Sum(Weights(order, counts[v := counts[v] + 1])) == Sum(Weights(order, counts)) + 1
  {
    hide Sum, Weights;
    var n := |order| - 1;
    var front, more := order[..n], counts[v := counts[v] + 1];
    assert order == front + [order[n]];
    SumLast(order, counts);
    SumLast(order, more);
    if order[n] == v {
      assert v !in front;
      assert Weights(front, counts) == Weights(front, more);
    } else {
      SumRaised(front, counts, v);
    }
  }

  lemma SumNew(order: seq<string>, counts: map<string, nat>, v: string)
    requires v !in order && forall i :: 0 <= i < |order| ==> order[i] in counts
    ensures Sum(Weights(order + [v], counts[v := 1])) == Sum(Weights(order, counts)) + 1
  {
    assert Weights(order + [v], counts[v := 1])[..|order|] == Weights(order, counts);
  }

  /** The table of counts after some values. */
  ghost predicate Counted(taken: seq<string>, order: seq<string>, counts: map<string, nat>) {
    order == Values(taken) && (forall v :: v in counts <==> v in taken) &&
    (forall v :: v in counts ==> counts[v] == Occurrences(taken, v)) &&
    (forall i :: 0 <= i < |order| ==> order[i] in counts) && Sum(Weights(order, counts)) == |taken|
  }

  lemma CountedStep(taken: seq<string>, order: seq<string>, counts: map<string, nat>, v: string)
    requires Counted(taken, order, counts)
    ensures v in counts ==> Counted(taken + [v], order, counts[v := counts[v] + 1])
    ensures v !in counts ==> Counted(taken + [v], order + [v], counts[v := 1])
  {
    hide Occurrences, Values, Weights, Sum;
    forall u
      ensures Occurrences(taken + [v], u) == Occurrences(taken, u) + if u == v then 1 else 0
    {
      OneMoreValue(taken, v, u);
    }
    OneMoreValue(taken, v, v);
    ValuesAre(taken);
    if v in counts {
      assert v in order;
      SumRaised(order, counts, v);
    } else {
      NoOccurrence(taken, v);
      assert v !in order;
      SumNew(order, counts, v);
    }
  }

  lemma CountedOrder(taken: seq<string>, order: seq<string>, counts: map<string, nat>)
    requires Counted(taken, order, counts)
    ensures order == Values(taken) && forall v :: v in counts <==> v in taken
  {}

  datatype ReduceError = BadThreshold | TooManyValues | TooManyBytes | TooManyTerms

  class ReduceAggregate {
    var counts: map<string, nat>
    var order: seq<string>
    var bytes: nat
    var threshold: real
    var separators: string
    var configured: bool
    const source: bool
    /** Whether a character is a letter or a digit. */
    const isWord: char -> bool
    /** The values taken in so far. */
    ghost var taken: seq<string>

    ghost predicate Valid()
      reads this
    {
      Counted(taken, order, counts) && (!configured ==> taken == [])
    }

    constructor (source: bool, isWord: char -> bool)
      ensures Valid() && taken == [] && !configured && this.source == source && this.isWord == isWord
    {
      this.source, this.isWord := source, isWord;
      counts, order, bytes, threshold, separators, configured, taken := map[], [], 0, 0.1, "", false, [];
    }

    /** The first call fixes the threshold and the separators; a null value changes nothing else. */
    method Step(value: Option<string>, thresholdValue: Option<real>, separatorsValue: Option<string>,
                size: string -> nat) returns (r: Option<ReduceError>)
      requires Valid()
      modifies this
      ensures Valid() && configured
      ensures taken == if r.None? && value.Some? then old(taken) + [value.value] else old(taken)
      ensures old(configured) ==> threshold == old(threshold) && separators == old(separators)
      ensures r == Some(TooManyValues) ==>
                value.Some? && value.value !in old(taken) && |Values(old(taken))| >= 262144
      ensures r == Some(TooManyBytes) ==>
                value.Some? && value.value !in old(taken) && old(bytes) + size(value.value) > 67108864
      ensures r == Some(TooManyTerms) ==> false
      ensures bytes ==
              old(bytes) + if r.None? && value.Some? && value.value !in old(taken) then size(value.value) else 0
      ensures r == Some(BadThreshold) ==>
                !old(configured) && thresholdValue.Some? && !(0.0 <= thresholdValue.value <= 1.0)
      ensures !old(configured) && r != Some(BadThreshold) ==>
                threshold == (if thresholdValue.Some? then thresholdValue.value else 0.1) &&
                separators == if separatorsValue.Some? then separatorsValue.value else old(separators)
    {
      hide Counted, Values;
      CountedOrder(taken, order, counts);
      r := None;
      if !configured {
        configured, threshold := true, 0.1;
        if thresholdValue.Some? {
          if thresholdValue.value < 0.0 || thresholdValue.value > 1.0 {
            return Some(BadThreshold);
          }
          threshold := thresholdValue.value;
        }
        if separatorsValue.Some? {
          separators := separatorsValue.value;
        }
      }
      if value.None? {
        return;
      }
      var text := value.value;
      CountedStep(taken, order, counts, text);
      var count := 0;
      if text !in counts {
        if |order| >= MAX_VALUES {
          return Some(TooManyValues);
        }
        if bytes + size(text) > MAX_BYTES {
          return Some(TooManyBytes);
        }
        order := order + [text];
        bytes := bytes + size(text);
      } else {
        count := counts[text];
      }
      counts := counts[text := count + 1];
      taken := taken + [text];
    }

    /** Given characters, or everything but letters and digits. */
    function Separator(): (separates: char -> bool)
      reads this
      ensures forall c :: separates(c) <==> if separators != "" then c in separators else !isWord(c)
    {
      var given, word := separators, isWord;
      c => if given != "" then c in given else !word(c)
    }

    /** The values with their patterns, or the patterns with their counts; what the labels are says the ghost result. */
    method Done() returns (r: Result<Report, ReduceError>, ghost labels: seq<string>, ghost entries: seq<Entry>)
      requires Valid()
      ensures r.Ok? ==> |labels| == |order| && forall i :: 0 <= i < |order| ==> order[i] in counts
      ensures r.Ok? ==> AllEntries(order, entries, Separator())
      ensures r.Ok? ==> LabelsOf(labels, entries, Weights(order, counts), Support(threshold, |taken|), separators != "")
      ensures r.Ok? ==> IsReport(r.value, order, labels, Weights(order, counts), Support(threshold, |taken|))
      ensures r.Ok? && order != [] ==> r.value.Sources? == source
      ensures r.Err? ==> r.error == TooManyTerms && TooManyIn(order, Separator())
    {
      CountedFacts(taken, order, counts);
      hide Counted, Sum, Weights, AllEntries, LabelsOf, IsReport, Support;
      var ws := Weights(order, counts);
      r, labels, entries := Cluster(order, ws, Separator(), threshold, separators != "", source, |taken|);
    }
  }

  method Cluster(order: seq<string>, ws: seq<nat>, isSeparator: char -> bool, threshold: real, custom: bool,
                 source: bool, ghost n: nat)
    returns (r: Result<Report, ReduceError>, ghost labels: seq<string>, ghost entries: seq<Entry>)
    requires |order| == |ws| && n == Sum(ws)
    ensures r.Ok? ==> |labels| == |order| && AllEntries(order, entries, isSeparator)
    ensures r.Ok? ==> LabelsOf(labels, entries, ws, Support(threshold, n), custom)
    ensures r.Ok? ==> IsReport(r.value, order, labels, ws, Support(threshold, n))
    ensures r.Ok? && order != [] ==> r.value.Sources? == source
    ensures r.Err? ==> r.error == TooManyTerms && TooManyIn(order, isSeparator)
  {
    if order == [] {
      labels, entries := [], [];
      EmptyReport(isSeparator, Support(threshold, n), custom);
      return Ok(Table([], 0)), labels, entries;
    }
    hide *;
    var ok, cut, frequency, total := BuildEntries(order, ws, isSeparator);
    entries := cut;
    if !ok {
      return Err(TooManyTerms), [], entries;
    }
    var support := SupportOf(threshold, total);
    AllCut(order, cut, isSeparator);
    var tags, candidates, names := Assign(order, ws, cut, frequency, support, custom);
    labels := tags;
    LabelledIsLabelsOf(tags, cut, frequency, ws, support, custom);
    var report := MakeReport(order, ws, tags, candidates, names, support, source);
    r := Ok(report);
  }

  lemma EmptyReport(isSeparator: char -> bool, support: real, custom: bool)
    ensures AllEntries([], [], isSeparator) && LabelsOf([], [], [], support, custom)
    ensures IsReport(Table([], 0), [], [], [], support)
  {}

  lemma AllCut(order: seq<string>, entries: seq<Entry>, isSeparator: char -> bool)
    requires AllEntries(order, entries, isSeparator)
    ensures forall i :: 0 <= i < |entries| ==> Cut(entries[i])
  {
    hide IsEntry;
    forall i | 0 <= i < |entries|
      ensures Cut(entries[i])
    {
      EntryFacts(order[i], entries[i], isSeparator);
    }
  }

  lemma CountedFacts(taken: seq<string>, order: seq<string>, counts: map<string, nat>)
    requires Counted(taken, order, counts)
    ensures forall i :: 0 <= i < |order| ==> order[i] in counts
    ensures Sum(Weights(order, counts)) == |taken|
  {}

  method MakeReport(order: seq<string>, ws: seq<nat>, labels: seq<string>, candidates: map<string, Candidate>,
                    names: seq<string>, support: real, source: bool)
    returns (report: Report)
    requires |labels| == |ws| == |order| && Candidates(labels, ws, order, candidates, names)
    ensures report.Sources? == source && IsReport(report, order, labels, ws, support)
  {
    hide Candidates, Descending, WithCount, CountSum, WeightIn, Supported, Rows, Sum;
    NamesAre(labels, ws, order, candidates, names);
    var tags, others := Settle(order, ws, labels, candidates, names, support);
    if source {
      var rows: seq<(string, string)> := seq(|order|, i requires 0 <= i < |order| == |tags| => (order[i], tags[i]));
      return Sources(rows);
    }
    var patterns := Collect(ws, labels, candidates, names, support, order);
    EveryValueCounted(labels, ws, order, support);
    var sorted := SortRows(patterns);
    report := Table(sorted, others);
  }

  lemma NamesAre(labels: seq<string>, ws: seq<nat>, order: seq<string>, candidates: map<string, Candidate>,
                 names: seq<string>)
    requires |labels| == |ws| == |order| && Candidates(labels, ws, order, candidates, names)
    ensures names == Distinct(labels)
  {}
}
