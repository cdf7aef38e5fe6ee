/** Merging t-digests: digest in internal/database/kql_sketches.go, with real numbers for the floating-point ones. */
module TDigest {
  import opened Wrappers

  const EXACT_VALUES: nat := 4096
  const COMPRESSION: real := 200.0
  const SLACK: real := 0.000000001

  datatype Centroid = Centroid(mean: real, weight: real)

  // ----- Totals over lists of points -----------------------------------------------------------

  ghost function Total(ps: seq<Centroid>, f: Centroid -> real): real {
    if ps == [] then 0.0 else Total(ps[..|ps| - 1], f) + f(ps[|ps| - 1])
  }

  ghost function Weight(ps: seq<Centroid>): real {
    Total(ps, (c: Centroid) => c.weight)
  }

  /** The weighted sum of the means. */
  ghost function Moment(ps: seq<Centroid>): real {
    Total(ps, (c: Centroid) => c.mean * c.weight)
  }

  /** The weight of the points up to v. */
  ghost function AtMost(ps: seq<Centroid>, v: real): real {
    Total(ps, (c: Centroid) => if c.mean <= v then c.weight else 0.0)
  }

  ghost predicate Positive(ps: seq<Centroid>) {
    forall i :: 0 <= i < |ps| ==> ps[i].weight > 0.0
  }

  ghost predicate Ascending(ps: seq<Centroid>) {
    forall i, j :: 0 <= i < j < |ps| ==> ps[i].mean <= ps[j].mean
  }

  ghost predicate Within(ps: seq<Centroid>, low: real, high: real) {
    forall i :: 0 <= i < |ps| ==> low <= ps[i].mean <= high
  }

  lemma TotalOne(ps: seq<Centroid>, p: Centroid, f: Centroid -> real)
    ensures Total(ps + [p], f) == Total(ps, f) + f(p)
  {
    assert (ps + [p])[..|ps|] == ps;
  }

  lemma {:induction false} TotalConcat(a: seq<Centroid>, b: seq<Centroid>, f: Centroid -> real)
    ensures Total(a + b, f) == Total(a, f) + Total(b, f)
  {
    if b == [] {
      assert a + b == a;
    } else {
      TotalConcat(a, b[..|b| - 1], f);
      assert (a + b)[..|a + b| - 1] == a + b[..|b| - 1];
    }
  }

  lemma RemoveOne(front: seq<Centroid>, last: Centroid, before: seq<Centroid>, after: seq<Centroid>)
    requires multiset(front + [last]) == multiset(before + [last] + after)
    ensures multiset(front) == multiset(before + after)
  {
    assert multiset(front + [last]) == multiset(front) + multiset{last};
    assert multiset(before + [last] + after) == multiset(before) + multiset{last} + multiset(after);
    assert multiset(before + after) == multiset(before) + multiset(after);
    forall c
      ensures multiset(front)[c] == multiset(before + after)[c]
    {
      assert (multiset(front) + multiset{last})[c] == (multiset(before + after) + multiset{last})[c];
    }
  }

  /** A total does not depend on the order. */
  lemma {:induction false} TotalPermuted(a: seq<Centroid>, b: seq<Centroid>, f: Centroid -> real)
    requires multiset(a) == multiset(b)
    ensures Total(a, f) == Total(b, f)
  {
    if a == [] {
      assert |b| == |multiset(b)| == |multiset(a)| == 0;
    } else {
      var front, last := a[..|a| - 1], a[|a| - 1];
      assert a == front + [last];
      assert last in multiset(b);
      var i :| 0 <= i < |b| && b[i] == last;
      var before, after := b[..i], b[i + 1..];
      assert b == before + [last] + after;
      RemoveOne(front, last, before, after);
      TotalPermuted(front, before + after, f);
      TotalConcat(before + [last], after, f);
      TotalOne(before, last, f);
      TotalConcat(before, after, f);
    }
  }

  lemma PermutedPoints(a: seq<Centroid>, b: seq<Centroid>)
    requires multiset(a) == multiset(b)
    ensures forall x :: x in a <==> x in b
  {
    forall x
      ensures x in a <==> x in b
    {
      assert x in a <==> x in multiset(a);
      assert x in b <==> x in multiset(b);
    }
  }

  // ----- Sorting ----------------------------------------------------------------------------------

  function InsertPoint(p: Centroid, ps: seq<Centroid>): (r: seq<Centroid>)
    ensures multiset(r) == multiset(ps) + multiset{p}
  {
    if ps == [] || p.mean < ps[0].mean then [p] + ps
    else
      assert ps == [ps[0]] + ps[1..];
      [ps[0]] + InsertPoint(p, ps[1..])
  }

  lemma {:induction false} InsertKeepsAscending(p: Centroid, ps: seq<Centroid>)
    requires Ascending(ps)
    ensures Ascending(InsertPoint(p, ps))
  {
    if ps != [] && p.mean >= ps[0].mean {
      InsertKeepsAscending(p, ps[1..]);
      var tail := InsertPoint(p, ps[1..]);
      forall i | 0 <= i < |tail|
        ensures ps[0].mean <= tail[i].mean
      {
        assert tail[i] in multiset(tail);
        assert tail[i] == p || tail[i] in ps[1..];
      }
    }
  }

  /**
    Only that the result is sorted and a permutation is promised, as for sort.Slice: points of one mean may come
    in any order.
   */
  method SortPoints(points: seq<Centroid>) returns (sorted: seq<Centroid>)
    ensures Ascending(sorted) && multiset(sorted) == multiset(points)
  {
    sorted := [];
    var i := 0;
    while i < |points|
      invariant 0 <= i <= |points| && Ascending(sorted)
      invariant multiset(sorted) == multiset(points[..i])
    {
      InsertKeepsAscending(points[i], sorted);
      assert points[..i + 1] == points[..i] + [points[i]];
      sorted, i := InsertPoint(points[i], sorted), i + 1;
    }
    assert points[..i] == points;
  }

  // ----- Joining a point to a centroid -----------------------------------------------------------------

  function Join(last: Centroid, p: Centroid): Centroid
    requires last.weight > 0.0 && p.weight > 0.0
  {
    Centroid(last.mean + (p.mean - last.mean) * p.weight / (last.weight + p.weight), last.weight + p.weight)
  }

  lemma Fraction(x: real, w: real, total: real)
    requires 0.0 < w < total && x >= 0.0
    ensures 0.0 <= x * w / total <= x && (x * w / total) * total == x * w
  {
    var q := x * w / total;
    assert q * total == x * w;
    assert x * w <= x * total;
    Factor(q, total);
    assert (x - q) * total == x * total - q * total;
    Factor(x - q, total);
  }

  lemma Factor(q: real, total: real)
    requires total > 0.0 && q * total >= 0.0
    ensures q >= 0.0
  {}

  /** The joined centroid has the weight and the moment of both, and lies between them. */
  lemma JoinConserves(last: Centroid, p: Centroid)
    requires last.weight > 0.0 && p.weight > 0.0 && last.mean <= p.mean
    ensures Join(last, p).weight == last.weight + p.weight
    ensures Join(last, p).mean * Join(last, p).weight == last.mean * last.weight + p.mean * p.weight
    ensures last.mean <= Join(last, p).mean <= p.mean
  {
    var x, w, total := p.mean - last.mean, p.weight, last.weight + p.weight;
    Fraction(x, w, total);
    var d := x * w / total;
    assert (last.mean + d) * total == last.mean * total + d * total;
    assert last.mean * total == last.mean * last.weight + last.mean * w;
    assert x * w == p.mean * w - last.mean * w;
  }

  /** What a centroid may weigh at relative position q. */
  function Limit(count: real, q: real): real {
    4.0 * count * q * (1.0 - q) / COMPRESSION
  }

  /** The k1 scale function of compress. */
  method ScaleLimit(count: real, q: real) returns (limit: real)
    ensures limit == Limit(count, q)
  {
    limit := 4.0 * count * q * (1.0 - q) / 200.0;
  }

  lemma LimitBound(count: real, q: real)
    requires count > 0.0
    ensures Limit(count, q) <= count / COMPRESSION
  {
    var h := q - 0.5;
    assert h * h >= 0.0;
    var y := 4.0 * q * (1.0 - q);
    assert y == 1.0 - 4.0 * (h * h);
    assert 4.0 * count * q * (1.0 - q) == count * y;
    assert count * y <= count * 1.0;
  }

  function RealMax(a: real, b: real): (m: real)
    ensures a <= m && b <= m && (m == a || m == b)
  {
    if a < b then b else a
  }

  function RealMin(a: real, b: real): (m: real)
    ensures m <= a && m <= b && (m == a || m == b)
  {
    if a < b then a else b
  }

  // ----- Merging sorted points ------------------------------------------------------------------------

  /** Whether weights a and b, after a weight of before, may be one centroid. */
  predicate MayJoin(count: real, before: real, a: real, b: real)
    requires count > 0.0
  {
    a + b <= RealMax(Limit(count, (before + (a + b) / 2.0) / count), 1.0)
  }

  /** A centroid is one of the points, or it obeys the limit of its place. */
  ghost predicate Fits(points: seq<Centroid>, merged: seq<Centroid>, k: nat, count: real)
    requires count > 0.0 && k < |merged|
  {
    merged[k] in points || MayJoin(count, Weight(merged[..k]), merged[k].weight, 0.0)
  }

  /** Where a centroid ends, some first part of the next one no longer fitted in. */
  ghost predicate Closed(merged: seq<Centroid>, k: nat, count: real)
    requires count > 0.0 && k + 1 < |merged|
  {
    exists w: real :: 0.0 < w <= merged[k + 1].weight && !MayJoin(count, Weight(merged[..k]), merged[k].weight, w)
  }

  ghost predicate Shape(points: seq<Centroid>, merged: seq<Centroid>) {
    Positive(merged) && Ascending(merged) && |merged| <= |points| && (points != [] ==> merged != []) &&
    (merged != [] ==> points[0].mean <= merged[0].mean && merged[|merged| - 1].mean <= points[|points| - 1].mean)
  }

  ghost predicate SameTotals(points: seq<Centroid>, merged: seq<Centroid>) {
    Weight(merged) == Weight(points) && Moment(merged) == Moment(points)
  }

  ghost predicate Places(points: seq<Centroid>, merged: seq<Centroid>, count: real)
    requires count > 0.0
  {
    (forall k: nat :: k < |merged| ==> Fits(points, merged, k, count)) &&
    (forall k: nat :: k + 1 < |merged| ==> Closed(merged, k, count))
  }

  /** What compressing keeps and what it achieves. */
  ghost predicate Compressed(points: seq<Centroid>, merged: seq<Centroid>, count: real)
    requires count > 0.0
  {
    Shape(points, merged) && SameTotals(points, merged) && Places(points, merged, count)
  }

  /** The points still to come are no smaller than those merged. */
  ghost predicate Before(merged: seq<Centroid>, rest: seq<Centroid>) {
    forall k, j :: 0 <= k < |merged| && 0 <= j < |rest| ==> merged[k].mean <= rest[j].mean
  }

  lemma Rest(points: seq<Centroid>, i: nat)
    requires i < |points| && Positive(points) && Ascending(points)
    ensures points[..i + 1] == points[..i] + [points[i]]
    ensures points[i..] == [points[i]] + points[i + 1..] && Before([points[i]], points[i + 1..]) &&
              points[i].weight > 0.0
  {}

  lemma AppendTotals(before: seq<Centroid>, merged: seq<Centroid>, p: Centroid)
    requires SameTotals(before, merged)
    ensures SameTotals(before + [p], merged + [p])
  {
    TotalOne(before, p, (c: Centroid) => c.weight);
    TotalOne(before, p, (c: Centroid) => c.mean * c.weight);
    TotalOne(merged, p, (c: Centroid) => c.weight);
    TotalOne(merged, p, (c: Centroid) => c.mean * c.weight);
  }

  lemma AppendPlaces(before: seq<Centroid>, merged: seq<Centroid>, p: Centroid, count: real)
    requires count > 0.0 && p.weight > 0.0 && Places(before, merged, count)
    requires merged != [] ==> !MayJoin(count, Weight(merged[..|merged| - 1]), merged[|merged| - 1].weight, p.weight)
    ensures Places(before + [p], merged + [p], count)
  {
    hide Weight, MayJoin;
    var more := merged + [p];
    forall k: nat | k < |more|
      ensures Fits(before + [p], more, k, count)
    {
      assert k < |merged| ==> Fits(before, merged, k, count) && more[..k] == merged[..k];
    }
    forall k: nat | k + 1 < |more|
      ensures Closed(more, k, count)
    {
      assert more[..k] == merged[..k];
      if k + 1 < |merged| {
        assert Closed(merged, k, count);
        var w: real :| 0.0 < w <= merged[k + 1].weight && !MayJoin(count, Weight(merged[..k]), merged[k].weight, w);
        assert !MayJoin(count, Weight(more[..k]), more[k].weight, w);
      } else {
        assert !MayJoin(count, Weight(more[..k]), more[k].weight, p.weight);
      }
    }
  }

  lemma AppendPoint(points: seq<Centroid>, i: nat, merged: seq<Centroid>, count: real)
    requires i < |points| && Positive(points) && Ascending(points) && count > 0.0
    requires Compressed(points[..i], merged, count) && Before(merged, points[i..])
    requires merged != [] ==> !MayJoin(count, Weight(merged[..|merged| - 1]), merged[|merged| - 1].weight,
               points[i].weight)
    ensures Compressed(points[..i + 1], merged + [points[i]], count) && Before(merged + [points[i]], points[i + 1..])
  {
    hide SameTotals, Places;
    Rest(points, i);
    AppendTotals(points[..i], merged, points[i]);
    AppendPlaces(points[..i], merged, points[i], count);
    assert points[i..][0] == points[i];
  }

  lemma JoinTotals(before: seq<Centroid>, front: seq<Centroid>, last: Centroid, p: Centroid)
    requires last.weight > 0.0 && p.weight > 0.0 && last.mean <= p.mean
    requires SameTotals(before, front + [last])
    ensures SameTotals(before + [p], front + [Join(last, p)])
  {
    var joined := Join(last, p);
    JoinConserves(last, p);
    hide Join;
    TotalOne(before, p, (c: Centroid) => c.weight);
    TotalOne(before, p, (c: Centroid) => c.mean * c.weight);
    TotalOne(front, joined, (c: Centroid) => c.weight);
    TotalOne(front, joined, (c: Centroid) => c.mean * c.weight);
    TotalOne(front, last, (c: Centroid) => c.weight);
    TotalOne(front, last, (c: Centroid) => c.mean * c.weight);
  }

  lemma JoinPlaces(before: seq<Centroid>, front: seq<Centroid>, last: Centroid, p: Centroid, count: real)
    requires count > 0.0 && last.weight > 0.0 && p.weight > 0.0 && Places(before, front + [last], count)
    requires MayJoin(count, Weight(front), last.weight, p.weight)
    ensures Places(before + [p], front + [Join(last, p)], count)
  {
    hide Weight;
    var merged, more := front + [last], front + [Join(last, p)];
    forall k: nat | k < |more|
      ensures Fits(before + [p], more, k, count)
    {
      assert more[..k] == merged[..k];
      assert Fits(before, merged, k, count);
    }
    forall k: nat | k + 1 < |more|
      ensures Closed(more, k, count)
    {
      hide MayJoin;
      assert more[..k] == merged[..k];
      assert Closed(merged, k, count);
      var w: real :| 0.0 < w <= merged[k + 1].weight && !MayJoin(count, Weight(merged[..k]), merged[k].weight, w);
      assert !MayJoin(count, Weight(more[..k]), more[k].weight, w);
    }
  }

  lemma JoinPoint(points: seq<Centroid>, i: nat, merged: seq<Centroid>, count: real)
    requires i < |points| && Positive(points) && Ascending(points) && count > 0.0
    requires Compressed(points[..i], merged, count) && Before(merged, points[i..]) && merged != []
    requires MayJoin(count, Weight(merged[..|merged| - 1]), merged[|merged| - 1].weight, points[i].weight)
    ensures Compressed(points[..i + 1], merged[..|merged| - 1] + [Join(merged[|merged| - 1], points[i])], count)
    ensures Before(merged[..|merged| - 1] + [Join(merged[|merged| - 1], points[i])], points[i + 1..])
  {
    hide SameTotals, Places;
    var front, last := merged[..|merged| - 1], merged[|merged| - 1];
    Rest(points, i);
    assert merged == front + [last] && points[i..][0] == points[i];
    JoinConserves(last, points[i]);
    JoinTotals(points[..i], front, last, points[i]);
    JoinPlaces(points[..i], front, last, points[i], count);
    hide Join, MayJoin;
  }

  lemma LastWeight(merged: seq<Centroid>, point: Centroid)
    requires merged != [] && Positive(merged) && point.weight > 0.0
    ensures Weight(merged[..|merged| - 1]) == Weight(merged) - merged[|merged| - 1].weight
    ensures Weight(merged[..|merged| - 1] + [Join(merged[|merged| - 1], point)]) == Weight(merged) + point.weight
  {
    var front, last := merged[..|merged| - 1], merged[|merged| - 1];
    TotalOne(front, last, (c: Centroid) => c.weight);
    TotalOne(front, Join(last, point), (c: Centroid) => c.weight);
    assert merged == front + [last];
  }

  /** The loop of compress. */
  method MergeSorted(points: seq<Centroid>, count: real) returns (merged: seq<Centroid>)
    requires Positive(points) && Ascending(points) && count > 0.0
    ensures Compressed(points, merged, count)
  {
    merged := [];
    var cumulative := 0.0;
    var i := 0;
    assert points[..0] == [] && points[0..] == points;
    while i < |points|
      invariant 0 <= i <= |points|
      invariant Compressed(points[..i], merged, count) && Before(merged, points[i..])
      invariant Positive(merged) && cumulative == Weight(merged)
    {
      hide Compressed, Before, Weight, Join, Limit, Ascending;
      var point, n := points[i], |merged|;
      if n > 0 {
        var last := merged[n - 1];
        LastWeight(merged, point);
        var q := (cumulative - last.weight + (last.weight + point.weight) / 2.0) / count;
        var limit := ScaleLimit(count, q);
        if last.weight + point.weight <= RealMax(limit, 1.0) {
          JoinPoint(points, i, merged, count);
          merged := merged[..n - 1] + [Join(last, point)];
          CompressedIsPositive(points[..i + 1], merged, count);
          cumulative := cumulative + point.weight;
          i := i + 1;
          continue;
        }
      }
      AppendPoint(points, i, merged, count);
      AppendedWeight(merged, point);
      merged := merged + [point];
      cumulative := cumulative + point.weight;
      i := i + 1;
    }
    assert points[..i] == points;
  }

  lemma CompressedIsPositive(points: seq<Centroid>, merged: seq<Centroid>, count: real)
    requires count > 0.0 && Compressed(points, merged, count)
    ensures Positive(merged)
  {}

  lemma AppendedWeight(merged: seq<Centroid>, point: Centroid)
    ensures Weight(merged + [point]) == Weight(merged) + point.weight
  {
    TotalOne(merged, point, (c: Centroid) => c.weight);
  }

  // ----- The digest ---------------------------------------------------------------------------------

  function Pairs(values: seq<real>, weights: seq<real>): (ps: seq<Centroid>)
    requires |values| == |weights|
    ensures |ps| == |values| && forall i :: 0 <= i < |ps| ==> ps[i] == Centroid(values[i], weights[i])
  {
    seq(|values|, i requires 0 <= i < |values| == |weights| => Centroid(values[i], weights[i]))
  }

  /** The least and the greatest mean of a list that is not empty. */
  ghost predicate Extremes(ps: seq<Centroid>, low: real, high: real) {
    ps != [] ==>
      Within(ps, low, high) && (exists i :: 0 <= i < |ps| && ps[i].mean == low) &&
          exists i :: 0 <= i < |ps| && ps[i].mean == high
  }

  /** What the fields of a digest say about everything it has taken in. */
  ghost predicate Summary(seen: seq<Centroid>, points: seq<Centroid>, count: real, low: real, high: real) {
    Positive(seen) && Positive(points) && count == Weight(seen) && SameTotals(seen, points) &&
    Extremes(seen, low, high) && Within(points, low, high)
  }

  lemma {:induction false} WeightPositive(ps: seq<Centroid>)
    requires Positive(ps)
    ensures Weight(ps) >= 0.0 && (Weight(ps) == 0.0 <==> ps == [])
  {
    if ps != [] {
      var front, last := ps[..|ps| - 1], ps[|ps| - 1];
      WeightPositive(front);
      TotalOne(front, last, (c: Centroid) => c.weight);
      assert ps == front + [last];
    }
  }

  lemma SummaryAppend(seen: seq<Centroid>, points: seq<Centroid>, count: real, low: real, high: real, p: Centroid,
                      l: real, h: real)
    requires Summary(seen, points, count, low, high) && p.weight > 0.0
    requires l == if count == 0.0 || p.mean < low then p.mean else low
    requires h == if count == 0.0 || p.mean > high then p.mean else high
    ensures Summary(seen + [p], points + [p], count + p.weight, l, h)
  {
    AppendTotals(seen, points, p);
    TotalOne(seen, p, (c: Centroid) => c.weight);
    WeightPositive(seen);
    WeightPositive(points);
    hide Weight, SameTotals;
    var more := seen + [p];
    assert more[|seen|] == p && forall i :: 0 <= i < |seen| ==> more[i] == seen[i];
  }

  lemma SummaryCompressed(seen: seq<Centroid>, points: seq<Centroid>, sorted: seq<Centroid>, merged: seq<Centroid>,
                          count: real, low: real, high: real)
    requires Summary(seen, points, count, low, high) && points != []
    requires count > 0.0 && Ascending(sorted) && multiset(sorted) == multiset(points) &&
               Compressed(sorted, merged, count)
    ensures Summary(seen, merged, count, low, high) && Ascending(merged) && merged != []
  {
    hide Compressed, Weight, Moment;
    CompressedKeeps(points, sorted, merged, count, low, high);
  }

  lemma SummaryPositive(seen: seq<Centroid>, points: seq<Centroid>, count: real, low: real, high: real)
    requires Summary(seen, points, count, low, high)
    ensures Positive(points) && count >= 0.0
    ensures seen == [] <==> count == 0.0
    ensures points == [] <==> count == 0.0
  {
    WeightPositive(seen);
    WeightPositive(points);
  }

  lemma SummaryPermuted(seen: seq<Centroid>, other: seq<Centroid>, points: seq<Centroid>, count: real, low: real,
                        high: real)
    requires Summary(seen, points, count, low, high) && multiset(other) == multiset(points)
    ensures Summary(seen, other, count, low, high)
  {
    TotalPermuted(other, points, (c: Centroid) => c.weight);
    TotalPermuted(other, points, (c: Centroid) => c.mean * c.weight);
    PermutedPoints(other, points);
    assert forall i :: 0 <= i < |other| ==> other[i] in points;
  }

  lemma SeenPermuted(seen: seq<Centroid>, other: seq<Centroid>, points: seq<Centroid>, count: real, low: real,
                     high: real)
    requires Summary(seen, points, count, low, high) && multiset(other) == multiset(seen)
    ensures Summary(other, points, count, low, high)
  {
    TotalPermuted(other, seen, (c: Centroid) => c.weight);
    TotalPermuted(other, seen, (c: Centroid) => c.mean * c.weight);
    PermutedPoints(other, seen);
    hide Weight, Moment;
    assert forall i :: 0 <= i < |other| ==> other[i] in seen;
    if other != [] {
      assert other[0] in seen;
      var i, j :| 0 <= i < |seen| && seen[i].mean == low && 0 <= j < |seen| && seen[j].mean == high;
      assert seen[i] in other && seen[j] in other;
    }
  }

  // ----- Merging summaries -------------------------------------------------------------------------

  lemma WeightConcat(a: seq<Centroid>, b: seq<Centroid>)
    ensures Weight(a + b) == Weight(a) + Weight(b) && Moment(a + b) == Moment(a) + Moment(b)
  {
    TotalConcat(a, b, (c: Centroid) => c.weight);
    TotalConcat(a, b, (c: Centroid) => c.mean * c.weight);
  }

  /** Both lists' extremes, when the first list was extended by exact values of the second. */
  lemma ExtremesMerge(mine: seq<Centroid>, taken: seq<Centroid>, others: seq<Centroid>, l: real, h: real, low: real,
                      high: real, first: bool)
    requires Extremes(mine + taken, l, h) && Extremes(others, low, high) && others != []
    requires Within(taken, low, high) && (first <==> mine + taken == [])
    ensures Extremes(mine + others, if first || low < l then low else l, if first || high > h then high else h)
  {
    var all := mine + others;
    var i, j :| 0 <= i < |others| && others[i].mean == low && 0 <= j < |others| && others[j].mean == high;
    assert all[|mine| + i].mean == low && all[|mine| + j].mean == high;
    if !first {
      var both := mine + taken;
      var m, n :| 0 <= m < |both| && both[m].mean == l && 0 <= n < |both| && both[n].mean == h;
      assert m < |mine| ==> all[m].mean == l;
      assert n < |mine| ==> all[n].mean == h;
      assert m >= |mine| ==> both[m] == taken[m - |mine|];
      assert n >= |mine| ==> both[n] == taken[n - |mine|];
      assert forall k :: 0 <= k < |mine| ==> both[k] == mine[k];
    }
  }

  lemma TotalsMerge(mine: seq<Centroid>, taken: seq<Centroid>, points: seq<Centroid>, others: seq<Centroid>,
                    central: seq<Centroid>)
    requires SameTotals(mine + taken, points) && SameTotals(others, central + taken)
    ensures SameTotals(mine + others, points + central)
    ensures Weight(mine + others) == Weight(mine + taken) + Weight(central)
  {
    WeightConcat(mine, taken);
    WeightConcat(mine, others);
    WeightConcat(central, taken);
    WeightConcat(points, central);
    hide Weight, Moment;
  }

  lemma Parts(a: seq<Centroid>, b: seq<Centroid>, low: real, high: real)
    ensures Positive(a + b) <==> Positive(a) && Positive(b)
    ensures Within(a + b, low, high) <==> Within(a, low, high) && Within(b, low, high)
  {
    assert forall i :: 0 <= i < |a| ==> a[i] == (a + b)[i];
    assert forall i :: 0 <= i < |b| ==> b[i] == (a + b)[|a| + i];
  }

  lemma Wider(ps: seq<Centroid>, low: real, high: real, l: real, h: real)
    requires Within(ps, low, high) && l <= low && high <= h
    ensures Within(ps, l, h)
  {}

  lemma SummaryMerge(mine: seq<Centroid>, taken: seq<Centroid>, points: seq<Centroid>, n: real, l: real, h: real,
                     others: seq<Centroid>, central: seq<Centroid>, m: real, low: real, high: real)
    requires Summary(mine + taken, points, n, l, h) && Summary(others, central + taken, m, low, high) && others != []
    ensures Summary(mine + others, points + central, n + Weight(central),
                    if n == 0.0 || low < l then low else l, if n == 0.0 || high > h then high else h)
  {
    var low', high' := if n == 0.0 || low < l then low else l, if n == 0.0 || high > h then high else h;
    SummaryPositive(mine + taken, points, n, l, h);
    TotalsMerge(mine, taken, points, others, central);
    hide Weight, SameTotals, Positive, Within;
    Parts(central, taken, low, high);
    Parts(mine, taken, l, h);
    Parts(mine, others, l, h);
    Parts(points, central, low', high');
    ExtremesMerge(mine, taken, others, l, h, low, high, n == 0.0);
    hide Extremes;
    Wider(central, low, high, low', high');
    if points == [] {
      NoPoints(low', high');
    } else {
      Wider(points, l, h, low', high');
    }
  }

  lemma NoPoints(low: real, high: real)
    ensures Within([], low, high)
    ensures Summary([], [], 0.0, low, high)
  {}

  lemma Reorder(a: seq<Centroid>, b: seq<Centroid>, c: seq<Centroid>)
    ensures multiset(a + b + c) == multiset(a + c + b)
  {}

  // ----- Percentiles -----------------------------------------------------------------------------------

  /** v is the least mean whose cumulative weight reaches the target. */
  ghost predicate Reaches(ps: seq<Centroid>, target: real, v: real) {
    (exists i :: 0 <= i < |ps| && ps[i].mean == v) && AtMost(ps, v) >= target &&
    forall i :: 0 <= i < |ps| && ps[i].mean < v ==> AtMost(ps, ps[i].mean) < target
  }

  lemma ReachesOnce(ps: seq<Centroid>, target: real, u: real, v: real)
    requires Reaches(ps, target, u) && Reaches(ps, target, v)
    ensures u == v
  {}

  lemma {:induction false} AtMostBounds(ps: seq<Centroid>, v: real)
    requires Positive(ps)
    ensures 0.0 <= AtMost(ps, v) <= Weight(ps)
    ensures (forall i :: 0 <= i < |ps| ==> ps[i].mean <= v) ==> AtMost(ps, v) == Weight(ps)
    ensures (forall i :: 0 <= i < |ps| ==> ps[i].mean > v) ==> AtMost(ps, v) == 0.0
  {
    if ps != [] {
      var front, last := ps[..|ps| - 1], ps[|ps| - 1];
      AtMostBounds(front, v);
      TotalOne(front, last, (c: Centroid) => c.weight);
      TotalOne(front, last, (c: Centroid) => if c.mean <= v then c.weight else 0.0);
      assert ps == front + [last];
    }
  }

  lemma AtMostSplit(ps: seq<Centroid>, k: nat, v: real)
    requires k <= |ps| && Positive(ps)
    ensures AtMost(ps, v) == AtMost(ps[..k], v) + AtMost(ps[k..], v)
  {
    assert ps == ps[..k] + ps[k..];
    TotalConcat(ps[..k], ps[k..], (c: Centroid) => if c.mean <= v then c.weight else 0.0);
  }

  /** Where the running sum of sorted points first reaches the target. */
  lemma FirstReached(ps: seq<Centroid>, k: nat, target: real)
    requires Positive(ps) && Ascending(ps) && k < |ps|
    requires Weight(ps[..k]) < target || k == 0
    requires Weight(ps[..k + 1]) >= target
    ensures Reaches(ps, target, ps[k].mean)
  {
    hide Weight, AtMost, Reaches;
    var v := ps[k].mean;
    AtMostSplit(ps, k + 1, v);
    AtMostBounds(ps[..k + 1], v);
    AtMostBounds(ps[k + 1..], v);
    forall i | 0 <= i < |ps| && ps[i].mean < v
      ensures AtMost(ps, ps[i].mean) < target
    {
      var u := ps[i].mean;
      assert i < k;
      AtMostSplit(ps, k, u);
      AtMostBounds(ps[..k], u);
      AtMostBounds(ps[k..], u);
    }
    ReachesIs(ps, target, k);
  }

  lemma ReachesIs(ps: seq<Centroid>, target: real, k: nat)
    requires k < |ps| && AtMost(ps, ps[k].mean) >= target
    requires forall i :: 0 <= i < |ps| && ps[i].mean < ps[k].mean ==> AtMost(ps, ps[i].mean) < target
    ensures Reaches(ps, target, ps[k].mean)
  {}

  lemma ReachesPermuted(a: seq<Centroid>, b: seq<Centroid>, target: real, v: real)
    requires multiset(a) == multiset(b) && Reaches(a, target, v)
    ensures Reaches(b, target, v)
  {
    hide AtMost;
    PermutedPoints(a, b);
    AtMostPermuted(a, b, v);
    var i :| 0 <= i < |a| && a[i].mean == v;
    assert a[i] in b;
    forall j | 0 <= j < |b| && b[j].mean < v
      ensures AtMost(b, b[j].mean) < target
    {
      assert b[j] in a;
      AtMostPermuted(a, b, b[j].mean);
    }
  }

  lemma AtMostPermuted(a: seq<Centroid>, b: seq<Centroid>, v: real)
    requires multiset(a) == multiset(b)
    ensures AtMost(a, v) == AtMost(b, v)
  {
    TotalPermuted(a, b, (c: Centroid) => if c.mean <= v then c.weight else 0.0);
  }

  /** The cumulative weight a percentile asks for. */
  function Target(p: real, count: real): real {
    p / 100.0 * count - SLACK * count
  }

  // ----- The nearest rank -------------------------------------------------------------------------

  /** p percent of the count, in hundredths, up to the slack. */
  ghost function Share(p: real, count: real): real {
    (p - 0.0000001) * count
  }

  /** The weight of the points below v. */
  ghost function BelowWeight(ps: seq<Centroid>, v: real): real {
    Total(ps, (c: Centroid) => if c.mean < v then c.weight else 0.0)
  }

  /**
    The value v is the p-th percentile: up to it lies at least p percent of the weight, and below it less, or
    nothing at all. The program allows for an error of 1e-9 of the weight, which is 1e-7 percent.
   */
  ghost predicate IsPercentile(ps: seq<Centroid>, p: real, v: real) {
    (exists i :: 0 <= i < |ps| && ps[i].mean == v) &&
    100.0 * AtMost(ps, v) >= Share(p, Weight(ps)) &&
    (100.0 * BelowWeight(ps, v) < Share(p, Weight(ps)) || forall i :: 0 <= i < |ps| ==> ps[i].mean >= v)
  }

  lemma {:induction false} SameTotal(ps: seq<Centroid>, f: Centroid -> real, g: Centroid -> real)
    requires forall i :: 0 <= i < |ps| ==> f(ps[i]) == g(ps[i])
    ensures Total(ps, f) == Total(ps, g)
  {
    if ps != [] {
      SameTotal(ps[..|ps| - 1], f, g);
    }
  }

  /** The point next below v, if there is one. */
  lemma {:induction false} NextBelow(ps: seq<Centroid>, v: real) returns (i: int)
    ensures -1 <= i < |ps|
    ensures i < 0 ==> forall k :: 0 <= k < |ps| ==> ps[k].mean >= v
    ensures i >= 0 ==> ps[i].mean < v && forall k :: 0 <= k < |ps| && ps[k].mean < v ==> ps[k].mean <= ps[i].mean
  {
    if ps == [] {
      return -1;
    }
    var last := |ps| - 1;
    i := NextBelow(ps[..last], v);
    assert forall k :: 0 <= k < last ==> ps[..last][k] == ps[k];
    if ps[last].mean < v && (i < 0 || ps[i].mean < ps[last].mean) {
      i := last;
    }
  }

  lemma PercentOf(p: real, count: real, w: real)
    ensures w >= Target(p, count) <==> 100.0 * w >= Share(p, count)
  {
    assert 100.0 * Target(p, count) == Share(p, count);
  }

  /** The point at which the running sum reaches the target is the percentile. */
  lemma ReachedIsPercentile(ps: seq<Centroid>, p: real, count: real, v: real)
    requires count == Weight(ps) && Reaches(ps, Target(p, count), v)
    ensures IsPercentile(ps, p, v)
  {
    hide Target, AtMost, BelowWeight, Weight, Share;
    PercentOf(p, count, AtMost(ps, v));
    assert exists k :: 0 <= k < |ps| && ps[k].mean == v;
    var i := NextBelow(ps, v);
    if i >= 0 {
      BelowIsAtMost(ps, v, i);
      PercentOf(p, count, AtMost(ps, ps[i].mean));
    }
  }

  lemma BelowIsAtMost(ps: seq<Centroid>, v: real, i: nat)
    requires i < |ps| && ps[i].mean < v && forall k :: 0 <= k < |ps| && ps[k].mean < v ==> ps[k].mean <= ps[i].mean
    ensures BelowWeight(ps, v) == AtMost(ps, ps[i].mean)
  {
    var u := ps[i].mean;
    SameTotal(ps, (c: Centroid) => if c.mean < v then c.weight else 0.0,
              (c: Centroid) => if c.mean <= u then c.weight else 0.0);
  }

  ghost function CountUpTo(ps: seq<Centroid>, v: real): nat {
    if ps == [] then 0 else CountUpTo(ps[..|ps| - 1], v) + if ps[|ps| - 1].mean <= v then 1 else 0
  }

  ghost function CountBelow(ps: seq<Centroid>, v: real): nat {
    if ps == [] then 0 else CountBelow(ps[..|ps| - 1], v) + if ps[|ps| - 1].mean < v then 1 else 0
  }

  lemma {:induction false} UnitWeights(ps: seq<Centroid>, v: real)
    requires forall i :: 0 <= i < |ps| ==> ps[i].weight == 1.0
    ensures Weight(ps) == |ps| as real && AtMost(ps, v) == CountUpTo(ps, v) as real
    ensures BelowWeight(ps, v) == CountBelow(ps, v) as real
  {
    if ps != [] {
      UnitWeights(ps[..|ps| - 1], v);
    }
  }

  /** In an ascending list the k-th value is v, if fewer than k are smaller and at least k are not larger. */
  lemma {:induction false} KthValue(ps: seq<Centroid>, v: real, k: nat)
    requires Ascending(ps) && 1 <= k <= |ps| && CountBelow(ps, v) < k <= CountUpTo(ps, v)
    ensures ps[k - 1].mean == v
  {
    CountsFrom(ps, v, k - 1);
  }

  lemma {:induction false} CountsFrom(ps: seq<Centroid>, v: real, k: nat)
    requires Ascending(ps) && k < |ps|
    ensures ps[k].mean < v ==> CountBelow(ps, v) >= k + 1
    ensures ps[k].mean > v ==> CountUpTo(ps, v) <= k
    decreases |ps|
  {
    var front := ps[..|ps| - 1];
    if k < |ps| - 1 {
      CountsFrom(front, v, k);
    } else {
      CountsBounded(front, v);
    }
  }

  lemma {:induction false} CountsBounded(ps: seq<Centroid>, v: real)
    ensures CountBelow(ps, v) <= |ps| && CountUpTo(ps, v) <= |ps|
    ensures (forall i :: 0 <= i < |ps| ==> ps[i].mean <= v) ==> CountUpTo(ps, v) == |ps|
    ensures (forall i :: 0 <= i < |ps| ==> ps[i].mean < v) ==> CountBelow(ps, v) == |ps|
  {
    if ps != [] {
      CountsBounded(ps[..|ps| - 1], v);
    }
  }

  /** The least number of values that make up p percent of n, up to the slack. */
  ghost predicate IsRank(k: nat, p: real, n: nat) {
    1 <= k <= n && MakesUp(k, p, n) && forall j: nat :: 1 <= j < k ==> !MakesUp(j, p, n)
  }

  /** So many of n values are p percent of them, up to the slack. */
  ghost predicate MakesUp(k: nat, p: real, n: nat) {
    100.0 * k as real >= Share(p, n as real)
  }

  lemma {:induction false} RankAtMost(p: real, n: nat, most: nat) returns (k: nat)
    requires 1 <= most <= n && MakesUp(most, p, n)
    ensures IsRank(k, p, n) && k <= most
  {
    if most == 1 || !MakesUp(most - 1, p, n) {
      k := most;
    } else {
      k := RankAtMost(p, n, most - 1);
    }
  }

  /** Of n values of weight 1 the percentile is the k-th smallest, for the least k that is p percent of n. */
  lemma NearestRank(all: seq<Centroid>, sorted: seq<Centroid>, p: real, v: real) returns (k: nat)
    requires IsPercentile(all, p, v) && forall i :: 0 <= i < |all| ==> all[i].weight == 1.0
    requires Ascending(sorted) && multiset(sorted) == multiset(all)
    ensures IsRank(k, p, |all|) && k <= |sorted| && sorted[k - 1].mean == v
  {
    hide *;
    SameCounts(sorted, all, v);
    CountsOf(all, p, v);
    k := RankAtMost(p, |all|, CountUpTo(all, v));
    SmallerThanRank(all, v, p, k);
    KthValue(sorted, v, k);
  }

  /** What the percentile says of the numbers of values. */
  lemma CountsOf(all: seq<Centroid>, p: real, v: real)
    requires IsPercentile(all, p, v) && forall i :: 0 <= i < |all| ==> all[i].weight == 1.0
    ensures 1 <= CountUpTo(all, v) <= |all| && MakesUp(CountUpTo(all, v), p, |all|)
    ensures !MakesUp(CountBelow(all, v), p, |all|) || forall i :: 0 <= i < |all| ==> all[i].mean >= v
  {
    hide AtMost, BelowWeight, Weight, Share;
    UnitWeights(all, v);
    CountsBounded(all, v);
    var i :| 0 <= i < |all| && all[i].mean == v;
    SomeUpTo(all, v, i);
  }

  lemma SameCounts(sorted: seq<Centroid>, all: seq<Centroid>, v: real)
    requires multiset(sorted) == multiset(all) && forall i :: 0 <= i < |all| ==> all[i].weight == 1.0
    ensures |sorted| == |all|
    ensures CountUpTo(sorted, v) == CountUpTo(all, v) && CountBelow(sorted, v) == CountBelow(all, v)
  {
    assert |sorted| == |multiset(sorted)| == |multiset(all)| == |all|;
    PermutedPoints(sorted, all);
    forall i | 0 <= i < |sorted|
      ensures sorted[i].weight == 1.0
    {
      assert sorted[i] in sorted;
    }
    AtMostPermuted(sorted, all, v);
    BelowPermuted(sorted, all, v);
    UnitWeights(all, v);
    UnitWeights(sorted, v);
  }

  lemma BelowPermuted(a: seq<Centroid>, b: seq<Centroid>, v: real)
    requires multiset(a) == multiset(b)
    ensures BelowWeight(a, v) == BelowWeight(b, v)
  {
    TotalPermuted(a, b, (c: Centroid) => if c.mean < v then c.weight else 0.0);
  }

  lemma {:induction false} SomeUpTo(ps: seq<Centroid>, v: real, i: nat)
    requires i < |ps| && ps[i].mean == v
    ensures CountUpTo(ps, v) >= 1
  {
    if i < |ps| - 1 {
      SomeUpTo(ps[..|ps| - 1], v, i);
    }
  }

  lemma {:induction false} NoneBelow(ps: seq<Centroid>, v: real)
    requires forall i :: 0 <= i < |ps| ==> ps[i].mean >= v
    ensures CountBelow(ps, v) == 0
  {
    if ps != [] {
      NoneBelow(ps[..|ps| - 1], v);
    }
  }

  lemma SmallerThanRank(all: seq<Centroid>, v: real, p: real, k: nat)
    requires IsRank(k, p, |all|)
    requires !MakesUp(CountBelow(all, v), p, |all|) || forall i :: 0 <= i < |all| ==> all[i].mean >= v
    ensures CountBelow(all, v) < k
  {
    if forall i :: 0 <= i < |all| ==> all[i].mean >= v {
      NoneBelow(all, v);
    }
  }

  lemma TargetBelow(p: real, count: real)
    requires p < 100.0 && count > 0.0
    ensures Target(p, count) < count
  {
    var share := p / 100.0;
    assert (1.0 - share) * count > 0.0 by {
      Positives(1.0 - share, count);
    }
    assert share * count == count - (1.0 - share) * count;
  }

  lemma Positives(a: real, b: real)
    requires a > 0.0 && b > 0.0
    ensures a * b > 0.0
  {}

  /** The fields of digestEncoding. */
  datatype Encoding = Encoding(kind: string, count: real, min: real, max: real, points: seq<Centroid>, compacted: bool)

  /** What decoding accepts. */
  ghost predicate Decodable(e: Encoding) {
    e.kind != "" && e.count > 0.0 && Positive(e.points)
  }

  lemma DecodableIs(e: Encoding)
    ensures Decodable(e) <==> e.kind != "" && e.count > 0.0 && Positive(e.points)
  {}

  /** An encoding that sums up the given points, as every encoding of a digest with a kind does. */
  ghost predicate Consistent(e: Encoding, all: seq<Centroid>) {
    e.kind != "" && Ascending(e.points) && Summary(all, e.points, e.count, e.min, e.max) &&
    if |all| <= EXACT_VALUES then !e.compacted && multiset(e.points) == multiset(all) else e.compacted
  }

  lemma ConsistentIsDecodable(e: Encoding, all: seq<Centroid>)
    requires Consistent(e, all)
    ensures Decodable(e) <==> all != []
  {
    hide Ascending, Weight, SameTotals, Extremes;
    SummaryPositive(all, e.points, e.count, e.min, e.max);
  }

  lemma Restored(e: Encoding, all: seq<Centroid>, d: Digest)
    requires Consistent(e, all) && d.seen == all && |d.exact| == |d.weights| && d.Points() == e.points
    requires d.count == e.count > 0.0 && d.min == e.min && d.max == e.max
    requires if e.compacted then d.exact == [] else d.centroids == []
    ensures d.Valid()
  {
    hide Ascending, Summary;
    SummaryPositive(all, e.points, e.count, e.min, e.max);
    assert |e.points| == |multiset(e.points)| && |all| == |multiset(all)|;
    if e.compacted {
      assert d.centroids == e.points;
    } else {
      NothingAscends();
    }
  }

  lemma NothingAscends()
    ensures Ascending([])
  {}

  /** Only what has been taken in matters, not its order. */
  lemma ConsistentPermuted(e: Encoding, all: seq<Centroid>, other: seq<Centroid>)
    requires Consistent(e, all) && multiset(all) == multiset(other)
    ensures Consistent(e, other)
  {
    hide Ascending;
    assert |all| == |multiset(all)| == |multiset(other)| == |other|;
    SeenPermuted(all, other, e.points, e.count, e.min, e.max);
  }

  class Digest {
    var kind: string
    /** The values kept as they are, with their weights. */
    var exact: seq<real>
    var weights: seq<real>
    var centroids: seq<Centroid>
    var count: real
    var min: real
    var max: real
    /** Everything that was ever taken in. */
    ghost var seen: seq<Centroid>

    ghost function Points(): seq<Centroid>
      requires |exact| == |weights|
      reads this
    {
      centroids + Pairs(exact, weights)
    }

    ghost predicate Valid()
      reads this
    {
      |exact| == |weights| <= EXACT_VALUES && Ascending(centroids) &&
      Summary(seen, Points(), count, min, max) &&
      (|seen| <= EXACT_VALUES ==> centroids == [] && multiset(Points()) == multiset(seen)) &&
      (|seen| > EXACT_VALUES ==> centroids != [])
    }

    constructor (kind: string)
      ensures Valid() && exact == [] && weights == [] && centroids == [] && seen == [] && this.kind == kind
    {
      this.kind := kind;
      exact, weights, centroids, seen := [], [], [], [];
      count, min, max := 0.0, 0.0, 0.0;
      hide Summary;
      NoPoints(0.0, 0.0);
    }

    /** What the readers rely on; a decoded digest has it whenever the encoded one had. */
    ghost predicate Readable()
      reads this
    {
      |exact| == |weights| && Positive(Points()) && count == Weight(Points()) && Within(Points(), min, max)
    }

    method Sorted() returns (points: seq<Centroid>)
      requires |exact| == |weights|
      ensures Ascending(points) && multiset(points) == multiset(Points())
    {
      points := SortPoints(centroids + Pairs(exact, weights));
    }

    /** The nearest-rank percentile, with a little slack. */
    method Percentile(p: real) returns (r: Option<real>)
      requires Readable()
      ensures r.None? <==> count == 0.0 || p < 0.0 || p > 100.0
      ensures r.Some? && p == 0.0 ==> r.value == min
      ensures r.Some? && p == 100.0 ==> r.value == max
      ensures r.Some? && 0.0 < p < 100.0 ==> IsPercentile(Points(), p, r.value)
    {
      if count == 0.0 || p < 0.0 || p > 100.0 {
        return None;
      }
      if p == 0.0 {
        return Some(min);
      }
      if p == 100.0 {
        return Some(max);
      }
      hide Ascending, Reaches, Weight, Target, AtMost, IsPercentile;
      WeightPositive(Points());
      TargetBelow(p, count);
      var found := FindReached(Target(p, count));
      if found.None? {
        return Some(max);
      }
      r := Some(RealMin(RealMax(found.value, min), max));
      ReachedIsWithin(Points(), Target(p, count), found.value, min, max);
      ReachedIsPercentile(Points(), p, count, found.value);
    }

    /** The running sum over the sorted points. */
    method FindReached(target: real) returns (v: Option<real>)
      requires Readable()
      ensures v.Some? ==> Reaches(Points(), target, v.value)
      ensures v.None? ==> Points() == [] || count < target
    {
      hide Ascending, Reaches, Weight, AtMost;
      var points := Sorted();
      SortedPoints(points, Points());
      var cumulative, i := 0.0, 0;
      NoWeight();
      assert points[..0] == [];
      while i < |points|
        invariant 0 <= i <= |points| && cumulative == Weight(points[..i])
        invariant cumulative < target || i == 0
      {
        AppendedWeight(points[..i], points[i]);
        assert points[..i + 1] == points[..i] + [points[i]];
        cumulative := cumulative + points[i].weight;
        if cumulative >= target {
          FirstReached(points, i, target);
          ReachesPermuted(points, Points(), target, points[i].mean);
          return Some(points[i].mean);
        }
        i := i + 1;
      }
      assert points[..i] == points && |points| == |multiset(points)| == |multiset(Points())| == |Points()|;
      v := None;
    }

    /** The weight of the values up to the given one. */
    method Rank(value: real) returns (total: real)
      requires |exact| == |weights|
      ensures total == AtMost(Points(), value)
    {
      hide Ascending, AtMost;
      var points := Sorted();
      AtMostPermuted(points, Points(), value);
      total := 0.0;
      var i := 0;
      NothingAtMost(value);
      assert points[..0] == [];
      while i < |points|
        invariant 0 <= i <= |points| && total == AtMost(points[..i], value)
      {
        AtMostOne(points[..i], points[i], value);
        assert points[..i + 1] == points[..i] + [points[i]];
        if points[i].mean <= value {
          total := total + points[i].weight;
        }
        i := i + 1;
      }
      assert points[..i] == points;
    }

    /** Null for an empty digest. */
    method Encode() returns (e: Option<Encoding>)
      requires |exact| == |weights|
      ensures e.None? <==> count == 0.0
      ensures e.Some? ==> e.value.kind == kind && e.value.count == count && e.value.min == min && e.value.max == max
      ensures e.Some? ==> Ascending(e.value.points) && multiset(e.value.points) == multiset(Points())
      ensures e.Some? ==> (e.value.compacted <==> centroids != [])
      ensures Valid() && e.Some? && kind != "" ==> Consistent(e.value, seen)
    {
      if count == 0.0 {
        return None;
      }
      var points := Sorted();
      e := Some(Encoding(kind, count, min, max, points, |centroids| > 0));
      if Valid() {
        hide Summary, Ascending;
        SummaryPermuted(seen, points, Points(), count, min, max);
      }
    }

    /** The text of a digest; without a kind it has taken in nothing or cannot be decoded. */
    method Finish() returns (e: Option<Encoding>)
      requires Valid()
      ensures Sketches(e, if kind == "" then [] else seen)
    {
      e := Encode();
      hide Ascending;
      SummaryPositive(seen, Points(), count, min, max);
      if e.Some? && kind != "" {
        ConsistentIsDecodable(e.value, seen);
      }
    }

    /** A consistent encoding gives a digest with the history that was encoded. */
    static method Decode(e: Encoding, ghost all: seq<Centroid>) returns (r: Option<Digest>)
      ensures r.Some? <==> Decodable(e)
      ensures r.Some? && Consistent(e, all) ==> r.value.Valid() && r.value.seen == all
      ensures r.Some? ==> fresh(r.value) && |r.value.exact| == |r.value.weights| && r.value.Points() == e.points
      ensures r.Some? ==>
                r.value.kind == e.kind && r.value.count == e.count && r.value.min == e.min && r.value.max == e.max
      ensures r.Some? ==> if e.compacted then r.value.exact == [] else r.value.centroids == []
    {
      hide *;
      DecodableIs(e);
      if e.kind == "" || e.count <= 0.0 {
        return None;
      }
      var d := new Digest(e.kind);
      d.count, d.min, d.max := e.count, e.min, e.max;
      d.seen := all;
      var ok := d.TakePoints(e.points, e.compacted);
      if !ok {
        return None;
      }
      if Consistent(e, all) {
        Restored(e, all, d);
      }
      r := Some(d);
    }

    method TakePoints(points: seq<Centroid>, compacted: bool) returns (ok: bool)
      requires exact == [] && weights == [] && centroids == []
      modifies `exact, `weights, `centroids
      ensures ok <==> Positive(points)
      ensures ok ==> |exact| == |weights| && Points() == points && if compacted then exact == [] else centroids == []
    {
      var i := 0;
      while i < |points|
        invariant 0 <= i <= |points| && |exact| == |weights| && Positive(points[..i])
        invariant if compacted then exact == [] && centroids == points[..i]
                    else centroids == [] && Pairs(exact, weights) == points[..i]
      {
        if points[i].weight <= 0.0 {
          return false;
        }
        assert points[..i + 1] == points[..i] + [points[i]];
        if compacted {
          centroids := centroids + [points[i]];
        } else {
          exact := exact + [points[i].mean];
          weights := weights + [points[i].weight];
        }
        i := i + 1;
      }
      assert points[..i] == points;
      ok := true;
    }

    /** Every point goes into a centroid. */
    method Compress() returns (ghost sorted: seq<Centroid>)
      requires |exact| == |weights| && Positive(Points()) && count > 0.0
      modifies `exact, `weights, `centroids
      ensures exact == [] && weights == []
      ensures Ascending(sorted) && multiset(sorted) == multiset(old(Points())) && Compressed(sorted, centroids, count)
    {
      var points := centroids + Pairs(exact, weights);
      exact, weights := [], [];
      var ordered := SortPoints(points);
      PermutedPoints(ordered, points);
      assert forall i :: 0 <= i < |ordered| ==> ordered[i] in points;
      hide Compressed, Ascending;
      centroids := MergeSorted(ordered, count);
      sorted := ordered;
    }

    /** One more point among the exact ones. */
    method Store(value: real, weight: real)
      requires Valid() && weight > 0.0
      modifies this
      ensures kind == old(kind) && centroids == old(centroids)
      ensures exact == old(exact) + [value] && weights == old(weights) + [weight] && |exact| == |weights|
      ensures seen == old(seen) + [Centroid(value, weight)] && Points() == old(Points()) + [Centroid(value, weight)]
      ensures Summary(seen, Points(), count, min, max)
    {
      hide Summary, Ascending;
      ghost var points, all := Points(), seen;
      ghost var low, high, n := min, max, count;
      if count == 0.0 || value < min {
        min := value;
      }
      if count == 0.0 || value > max {
        max := value;
      }
      count := count + weight;
      exact := exact + [value];
      weights := weights + [weight];
      seen := seen + [Centroid(value, weight)];
      SummaryAppend(all, points, n, low, high, Centroid(value, weight), min, max);
      assert Points() == points + [Centroid(value, weight)];
    }

    /** One more value; a weight that is not positive changes nothing. */
    method Add(value: real, weight: real)
      requires Valid()
      modifies this
      ensures Valid() && kind == old(kind)
      ensures seen == if weight <= 0.0 then old(seen) else old(seen) + [Centroid(value, weight)]
    {
      hide Summary, Ascending;
      if weight <= 0.0 {
        return;
      }
      assert |Points()| == |multiset(Points())| && |seen| == |multiset(seen)|;
      Store(value, weight);
      if |exact| > EXACT_VALUES {
        Settle();
      } else {
        assert multiset(Points()) == multiset(old(Points())) + multiset{Centroid(value, weight)};
        assert multiset(seen) == multiset(old(seen)) + multiset{Centroid(value, weight)};
      }
    }

    /** The exact values of the other digest one by one, then its centroids all at once. */
    method Merge(other: Digest)
      requires Valid() && other.Valid() && other != this
      modifies this
      ensures Valid() && multiset(seen) == multiset(old(seen)) + multiset(other.seen)
      ensures kind == if old(kind) == "" && other.count != 0.0 then other.kind else old(kind)
    {
      hide Summary, Ascending;
      SummaryPositive(other.seen, other.Points(), other.count, other.min, other.max);
      if other.count == 0.0 {
        return;
      }
      if kind == "" {
        kind := other.kind;
      }
      ghost var named, taken := kind, Pairs(other.exact, other.weights);
      var i := 0;
      while i < |other.exact|
        invariant 0 <= i <= |other.exact| && Valid() && kind == named
        invariant seen == old(seen) + taken[..i]
      {
        assert taken[i] == other.Points()[|other.centroids| + i];
        Add(other.exact[i], other.weights[i]);
        assert taken[..i + 1] == taken[..i] + [taken[i]];
        i := i + 1;
      }
      assert taken[..i] == taken;
      if other.centroids != [] {
        TakeCentroids(other, old(seen), taken);
      } else {
        assert other.Points() == taken;
      }
    }

    method TakeCentroids(other: Digest, ghost mine: seq<Centroid>, ghost taken: seq<Centroid>)
      requires Valid() && other.Valid() && other != this && other.centroids != []
      requires seen == mine + taken && taken == Pairs(other.exact, other.weights)
      modifies this
      ensures Valid() && seen == mine + other.seen && kind == old(kind)
    {
      hide Summary, Ascending;
      StoreCentroids(other, mine, taken);
      Settle();
    }

    method StoreCentroids(other: Digest, ghost mine: seq<Centroid>, ghost taken: seq<Centroid>)
      requires Valid() && other.Valid() && other != this && other.centroids != []
      requires seen == mine + taken && taken == Pairs(other.exact, other.weights)
      modifies `min, `max, `count, `centroids, `seen
      ensures seen == mine + other.seen && Points() != [] && Summary(seen, Points(), count, min, max)
    {
      hide Summary, Ascending, Weight, Positive, Within, Extremes, SameTotals;
      ghost var points, n, l, h := Points(), count, min, max;
      SummaryPositive(other.seen, other.Points(), other.count, other.min, other.max);
      SummaryMerge(mine, taken, points, n, l, h, other.seen, other.centroids, other.count, other.min, other.max);
      if count == 0.0 || other.min < min {
        min := other.min;
      }
      if count == 0.0 || other.max > max {
        max := other.max;
      }
      count := AddWeights(count, other.centroids);
      centroids := centroids + other.centroids;
      seen := mine + other.seen;
      Reorder(old(centroids), other.centroids, Pairs(exact, weights));
      SummaryPermuted(seen, Points(), points + other.centroids, count, min, max);
    }

    static method AddWeights(start: real, points: seq<Centroid>) returns (total: real)
      ensures total == start + Weight(points)
    {
      total := start;
      var i := 0;
      while i < |points|
        invariant 0 <= i <= |points| && total == start + Weight(points[..i])
      {
        AppendedWeight(points[..i], points[i]);
        assert points[..i + 1] == points[..i] + [points[i]];
        total := total + points[i].weight;
        i := i + 1;
      }
      assert points[..i] == points;
    }

    method Settle()
      requires |exact| == |weights| && Points() != [] && |seen| > EXACT_VALUES
      requires Summary(seen, Points(), count, min, max)
      modifies `exact, `weights, `centroids
      ensures Valid()
    {
      hide Summary, Ascending;
      ghost var points := Points();
      SummaryPositive(seen, points, count, min, max);
      ghost var sorted := Compress();
      SummaryCompressed(seen, points, sorted, centroids, count, min, max);
      assert Points() == centroids;
    }
  }

  lemma CompressedKeeps(points: seq<Centroid>, sorted: seq<Centroid>, merged: seq<Centroid>, count: real, low: real,
                        high: real)
    requires Ascending(sorted) && multiset(sorted) == multiset(points) && count > 0.0 &&
               Compressed(sorted, merged, count)
    requires Within(points, low, high) && points != []
    ensures Positive(merged) && Ascending(merged) && merged != [] && SameTotals(points, merged) &&
              Within(merged, low, high)
  {
    TotalPermuted(sorted, points, (c: Centroid) => c.weight);
    TotalPermuted(sorted, points, (c: Centroid) => c.mean * c.weight);
    assert |sorted| == |multiset(sorted)| == |multiset(points)| == |points|;
    hide Weight, Moment, Places;
    PermutedPoints(sorted, points);
    assert sorted[0] in points && sorted[|sorted| - 1] in points;
  }

  lemma NoWeight()
    ensures Weight([]) == 0.0
  {}

  lemma NothingAtMost(v: real)
    ensures AtMost([], v) == 0.0
  {}

  lemma AtMostOne(ps: seq<Centroid>, p: Centroid, v: real)
    ensures AtMost(ps + [p], v) == AtMost(ps, v) + if p.mean <= v then p.weight else 0.0
  {
    TotalOne(ps, p, (c: Centroid) => if c.mean <= v then c.weight else 0.0);
  }

  lemma SortedPoints(sorted: seq<Centroid>, points: seq<Centroid>)
    requires multiset(sorted) == multiset(points) && Positive(points)
    ensures Positive(sorted) && Weight(sorted) == Weight(points)
  {
    TotalPermuted(sorted, points, (c: Centroid) => c.weight);
    PermutedPoints(sorted, points);
    assert forall i :: 0 <= i < |sorted| ==> sorted[i] in points;
  }

  lemma ReachedIsWithin(ps: seq<Centroid>, target: real, v: real, low: real, high: real)
    requires Reaches(ps, target, v) && Within(ps, low, high)
    ensures low <= v <= high
  {
    hide AtMost;
  }

  /** Decoding what was encoded gives the same answers: they depend on the points and not on their order. */
  lemma AnswersSurvive(points: seq<Centroid>, decoded: seq<Centroid>, v: real, target: real)
    requires multiset(points) == multiset(decoded)
    ensures AtMost(points, v) == AtMost(decoded, v)
    ensures Reaches(points, target, v) <==> Reaches(decoded, target, v)
    ensures Weight(points) == Weight(decoded)
  {
    hide Reaches, AtMost;
    AtMostPermuted(points, decoded, v);
    TotalPermuted(points, decoded, (c: Centroid) => c.weight);
    if Reaches(points, target, v) {
      ReachesPermuted(points, decoded, target, v);
    }
    if Reaches(decoded, target, v) {
      ReachesPermuted(decoded, points, target, v);
    }
  }

  /**
    No more than 4096 values: the digest still has exactly the values it has taken in, so that its percentiles are
    exact.
   */
  lemma ExactWhileFew(d: Digest, p: real, v: real)
    requires d.Valid()
    ensures d.Readable() && (d.centroids == [] <==> |d.seen| <= 4096)
    ensures |d.seen| <= 4096 ==> (IsPercentile(d.Points(), p, v) <==> IsPercentile(d.seen, p, v))
  {
    hide IsPercentile;
    if |d.seen| > 4096 {
      return;
    }
    if IsPercentile(d.Points(), p, v) {
      PercentileSurvives(d.Points(), d.seen, p, v);
    }
    if IsPercentile(d.seen, p, v) {
      PercentileSurvives(d.seen, d.Points(), p, v);
    }
  }

  lemma PercentileSurvives(points: seq<Centroid>, others: seq<Centroid>, p: real, v: real)
    requires multiset(points) == multiset(others) && IsPercentile(points, p, v)
    ensures IsPercentile(others, p, v)
  {
    AtMostPermuted(points, others, v);
    TotalPermuted(points, others, (c: Centroid) => c.weight);
    BelowPermuted(points, others, v);
    hide AtMost, BelowWeight, Total;
    PermutedPoints(others, points);
    var i :| 0 <= i < |points| && points[i].mean == v;
    assert points[i] in others;
    assert forall k :: 0 <= k < |others| ==> others[k] in others && others[k] in points;
  }

  /** A centroid that is not a single value weighs no more than a 200th of everything, or 1. */
  lemma CentroidsStayLight(points: seq<Centroid>, merged: seq<Centroid>, count: real, k: nat)
    requires count > 0.0 && Compressed(points, merged, count) && k < |merged|
    ensures merged[k] in points || merged[k].weight <= count / 200.0 || merged[k].weight <= 1.0
  {
    assert Fits(points, merged, k, count);
    LimitBound(count, (Weight(merged[..k]) + (merged[k].weight + 0.0) / 2.0) / count);
    hide Limit, Weight;
  }

  // ----- Sketches made by the aggregates ------------------------------------------------------------

  /** How the text of a digest comes about: from the values of a group, or by merging such texts, to any depth. */
  datatype Sketch = Values(kind: string, values: seq<Centroid>) | Merged(parts: seq<Sketch>)

  /** The values that count. */
  ghost function Heavy(ps: seq<Centroid>): seq<Centroid> {
    if ps == [] then []
    else Heavy(ps[..|ps| - 1]) + if ps[|ps| - 1].weight <= 0.0 then [] else [ps[|ps| - 1]]
  }

  /** All values below a sketch. */
  ghost function AllIn(s: Sketch): seq<Centroid> {
    match s
    case Values(kind, values) => if kind == "" then [] else Heavy(values)
    case Merged(parts) => AllOf(parts)
  }

  ghost function AllOf(parts: seq<Sketch>): seq<Centroid> {
    if parts == [] then [] else AllOf(parts[..|parts| - 1]) + AllIn(parts[|parts| - 1])
  }

  /** The text stands for these values: it sums them up, or there are none and nothing can be decoded. */
  ghost predicate Sketches(e: Option<Encoding>, all: seq<Centroid>) {
    if all == [] then e.None? || !Decodable(e.value) else e.Some? && Consistent(e.value, all)
  }

  /** The aggregate tdigest. */
  method Aggregate(kind: string, values: seq<Centroid>) returns (e: Option<Encoding>)
    ensures Sketches(e, if kind == "" then [] else Heavy(values))
  {
    hide Summary, Ascending, Sketches, Heavy;
    NothingHeavy();
    assert values[..0] == [];
    var d := new Digest(kind);
    var i := 0;
    while i < |values|
      invariant 0 <= i <= |values| && d.Valid() && d.kind == kind && fresh(d)
      invariant d.seen == Heavy(values[..i])
    {
      HeavyStep(values, i);
      d.Add(values[i].mean, values[i].weight);
      i := i + 1;
    }
    assert values[..i] == values;
    e := d.Finish();
  }

  lemma NothingHeavy()
    ensures Heavy([]) == []
  {}

  lemma HeavyStep(values: seq<Centroid>, i: nat)
    requires i < |values|
    ensures Heavy(values[..i + 1]) ==
            if values[i].weight <= 0.0 then Heavy(values[..i]) else Heavy(values[..i]) + [values[i]]
  {
    assert values[..i + 1][..i] == values[..i];
  }

  /** One step of tdigest_merge: what cannot be decoded is passed over. */
  method MergeStep(d: Digest, value: Option<Encoding>, ghost all: seq<Centroid>)
    requires d.Valid() && Sketches(value, all) && (d.kind == "" ==> d.seen == [])
    modifies d
    ensures d.Valid() && multiset(d.seen) == multiset(old(d.seen)) + multiset(all)
    ensures d.kind == "" ==> d.seen == []
  {
    hide Summary, Ascending, Decodable, Consistent;
    if value.Some? {
      if all != [] {
        ConsistentIsDecodable(value.value, all);
      }
      var other := Digest.Decode(value.value, all);
      if other.Some? {
        DecodableIs(value.value);
        d.Merge(other.value);
        NothingSeen(other.value);
      }
    }
  }

  lemma NothingSeen(d: Digest)
    requires d.Valid()
    ensures d.seen == [] <==> d.count == 0.0
  {
    SummaryPositive(d.seen, d.Points(), d.count, d.min, d.max);
  }

  /**
    The text made in this way sums up all values below it, wherever and however often digests were encoded and
    merged.
   */
  method Make(s: Sketch) returns (e: Option<Encoding>)
    ensures Sketches(e, AllIn(s))
  {
    match s
    case Values(kind, values) =>
      e := Aggregate(kind, values);
    case Merged(parts) =>
      var d := new Digest("");
      var i := 0;
      while i < |parts|
        invariant 0 <= i <= |parts| && d.Valid() && fresh(d)
        invariant multiset(d.seen) == multiset(AllOf(parts[..i]))
        invariant d.kind == "" ==> d.seen == []
      {
        hide Sketches;
        assert parts[..i + 1][..i] == parts[..i];
        var part := Make(parts[i]);
        MergeStep(d, part, AllIn(parts[i]));
        i := i + 1;
      }
      assert parts[..i] == parts;
      e := d.Finish();
      SketchesPermuted(e, d.seen, AllOf(parts));
  }

  lemma SketchesPermuted(e: Option<Encoding>, all: seq<Centroid>, other: seq<Centroid>)
    requires Sketches(e, all) && multiset(all) == multiset(other)
    ensures Sketches(e, other)
  {
    hide Consistent, Decodable;
    assert |all| == |multiset(all)| == |multiset(other)| == |other|;
    if all != [] {
      ConsistentPermuted(e.value, all, other);
    }
  }

  /** A percentile of a text that stands for at most 4096 values is the nearest-rank percentile of these values. */
  method KqlPercentileTDigest(value: Option<Encoding>, p: real, ghost all: seq<Centroid>) returns (r: Option<real>)
    requires Sketches(value, all)
    ensures r.None? <==> all == [] || p < 0.0 || p > 100.0
    ensures r.Some? && p == 0.0 ==> exists high :: Extremes(all, r.value, high)
    ensures r.Some? && p == 100.0 ==> exists low :: Extremes(all, low, r.value)
    ensures r.Some? && 0.0 < p < 100.0 && |all| <= 4096 ==> IsPercentile(all, p, r.value)
    ensures r.Some? && 0.0 < p < 100.0 ==> IsPercentile(value.value.points, p, r.value)
  {
    hide Ascending, Reaches, Target, AtMost, Decodable, Consistent, IsPercentile;
    if value.None? {
      return None;
    }
    if all != [] {
      ConsistentIsDecodable(value.value, all);
    }
    var d := Digest.Decode(value.value, all);
    if d.None? {
      return None;
    }
    assert Extremes(all, d.value.min, d.value.max);
    NothingSeen(d.value);
    r := d.value.Percentile(p);
    if |all| <= EXACT_VALUES && r.Some? {
      ExactWhileFew(d.value, p, r.value);
    }
  }
}
