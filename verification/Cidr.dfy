/**
  The CIDR cover of an address range, kqlIPv4RangeToCIDRList in internal/database/kql_ipv4.go.
  A block is a run of 2^hostBits addresses whose first address is a multiple of its size
  (section 3.1 of RFC 4632).
 */
module CidrCover {
  import opened Arithmetic

  const ADDRESS_BITS: nat := 32

  datatype Block = Block(address: nat, hostBits: nat) {
    function Size(): nat {
      Pow2(hostBits)
    }

    function End(): nat {
      address + Size()
    }

    ghost predicate Aligned() {
      hostBits <= ADDRESS_BITS && address % Size() == 0
    }

    ghost predicate Inside(first: nat, last: nat) {
      first <= address && End() <= last + 1
    }

    ghost predicate Has(x: nat) {
      address <= x < End()
    }
  }

  // ----- Powers of two -------------------------------------------------------------------

  /** bits.TrailingZeros32: 32 for zero. */
  function TrailingZeros(x: nat): nat {
    if x == 0 then ADDRESS_BITS else if x % 2 == 1 then 0 else 1 + TrailingZeros(x / 2)
  }

  /** bits.Len64(x) - 1. */
  function FloorLog2(x: nat): nat
    requires x > 0
  {
    if x == 1 then 0 else 1 + FloorLog2(x / 2)
  }

  lemma {:induction false} FloorLog2Bounds(x: nat)
    requires x > 0
    ensures Pow2(FloorLog2(x)) <= x < 2 * Pow2(FloorLog2(x))
  {
    if x > 1 {
      FloorLog2Bounds(x / 2);
    }
  }

  /** For an address, trailing zeros count exactly the block sizes it is a multiple of. */
  lemma {:induction false} AlignedIffTrailingZeros(x: nat, h: nat)
    requires x < Pow2(ADDRESS_BITS) && h <= ADDRESS_BITS
    ensures x % Pow2(h) == 0 <==> h <= TrailingZeros(x)
    decreases h
  {
    hide Pow2;
    Pow2Step(h);
    if h > 0 && x > 0 {
      Halved(x, Pow2(h - 1), Pow2(h));
      if x % 2 == 0 {
        AlignedIffTrailingZeros(x / 2, h - 1);
      }
    } else if h > 0 {
      QuotientIs(0, Pow2(h), 0, 0);
    }
  }

  lemma Pow2Step(h: nat)
    ensures Pow2(h) == if h == 0 then 1 else 2 * Pow2(h - 1)
  {}

  lemma Halved(x: nat, p: nat, d: nat)
    requires p > 0 && d == 2 * p
    ensures x % d == 0 <==> x % 2 == 0 && (x / 2) % p == 0
  {
    if x % d == 0 {
      var q := Multiple(x, d);
      assert x == 2 * (q * p);
      QuotientIs(x / 2, p, q, 0);
    }
    if x % 2 == 0 && (x / 2) % p == 0 {
      var q := Multiple(x / 2, p);
      assert x == q * d;
      QuotientIs(x, d, q, 0);
    }
  }

  /** Two blocks are nested or apart. */
  lemma NestedOrApart(a: Block, b: Block, x: nat)
    requires a.Aligned() && b.Aligned() && a.hostBits <= b.hostBits
    requires a.Has(x) && b.Has(x)
    ensures b.address <= a.address && a.End() <= b.End()
  {
    var size, ratio := a.Size(), Pow2(b.hostBits - a.hostBits);
    Pow2Sum(b.hostBits - a.hostBits, a.hostBits);
    hide Pow2;
    var qa := Multiple(a.address, size);
    var qb := Multiple(b.address, b.Size());
    assert b.address == (qb * ratio) * size && b.End() == (qb * ratio + ratio) * size by {
      Regroup(qb, ratio, size);
    }
    NextMultiple(qa, qb * ratio, size);
    NextMultiple(qb * ratio, qa, size);
    NextMultiple(qa, qb * ratio + ratio, size);
    NextMultiple(qb * ratio + ratio, qa, size);
  }

  lemma Regroup(q: nat, ratio: nat, size: nat)
    ensures q * (ratio * size) == (q * ratio) * size
    ensures q * (ratio * size) + ratio * size == (q * ratio + ratio) * size
  {}

  // ----- The greedy cover ------------------------------------------------------------------

  function Fit(start: nat, last: nat): nat
    requires start <= last
  {
    var remaining := FloorLog2(last - start + 1);
    if remaining < TrailingZeros(start) then remaining else TrailingZeros(start)
  }

  function Cover(start: nat, last: nat): seq<Block>
    decreases last + 1 - start
  {
    if start > last then []
    else
      var block := Block(start, Fit(start, last));
      [block] + Cover(block.End(), last)
  }

  /** The chosen block is the largest aligned block that starts here and fits. */
  lemma FitIsLargest(start: nat, last: nat, h: nat)
    requires start <= last < Pow2(ADDRESS_BITS)
    ensures Block(start, Fit(start, last)).Aligned() && Block(start, Fit(start, last)).End() <= last + 1
    ensures Block(start, h).Aligned() && Block(start, h).End() <= last + 1 ==> h <= Fit(start, last)
  {
    var fit, remaining := Fit(start, last), FloorLog2(last - start + 1);
    hide Pow2, FloorLog2, TrailingZeros;
    Pow2Step(remaining + 1);
    FloorLog2Bounds(last - start + 1);
    Pow2Monotone(fit, remaining);
    TrailingZerosBound(start);
    AlignedIffTrailingZeros(start, fit);
    if Block(start, h).Aligned() && Block(start, h).End() <= last + 1 {
      AlignedIffTrailingZeros(start, h);
      if h > remaining {
        Pow2Monotone(remaining + 1, h);
      }
    }
  }

  lemma {:induction false} TrailingZerosBound(x: nat)
    requires x < Pow2(ADDRESS_BITS)
    ensures TrailingZeros(x) <= ADDRESS_BITS
  {
    TrailingZerosBelow(x, ADDRESS_BITS);
  }

  lemma {:induction false} TrailingZerosBelow(x: nat, n: nat)
    requires x < Pow2(n)
    ensures x > 0 ==> TrailingZeros(x) <= n
    decreases n
  {
    if x > 0 && n > 0 {
      TrailingZerosBelow(x / 2, n - 1);
    }
  }

  /** No aligned block of the range lies across the boundary at `cut`. */
  ghost predicate Clean(first: nat, last: nat, cut: nat) {
    forall d: Block :: d.Aligned() && d.Inside(first, last) ==> d.End() <= cut || cut <= d.address
  }

  /** After one greedy block the next boundary is clean, and the block is maximal in the range. */
  lemma GreedyStep(first: nat, last: nat, start: nat)
    requires first <= start <= last < Pow2(ADDRESS_BITS) && Clean(first, last, start)
    ensures var b := Block(start, Fit(start, last));
            && Clean(first, last, b.End())
            && (forall d: Block, x :: d.Aligned() && d.Inside(first, last) && d.Has(x) && b.Has(x) ==>
                  b.address <= d.address && d.End() <= b.End())
  {
    var b := Block(start, Fit(start, last));
    FitIsLargest(start, last, 0);
    forall d: Block, x | d.Aligned() && d.Inside(first, last) && d.Has(x) && b.Has(x)
      ensures b.address <= d.address && d.End() <= b.End()
    {
      if d.hostBits <= b.hostBits {
        NestedOrApart(d, b, x);
      } else {
        NestedOrApart(b, d, x);
        assert d.address == start;
        FitIsLargest(start, last, d.hostBits);
      }
    }
    forall d: Block | d.Aligned() && d.Inside(first, last)
      ensures d.End() <= b.End() || b.End() <= d.address
    {
      if d.address < b.End() < d.End() {
        assert d.Has(b.End() - 1) && b.Has(b.End() - 1);
      }
    }
  }

  // ----- What the cover is -------------------------------------------------------------------

  /** Consecutive aligned blocks from `start` up to and including `last`. */
  ghost predicate Tiles(blocks: seq<Block>, start: nat, last: nat) {
    && (forall i :: 0 <= i < |blocks| ==> blocks[i].Aligned())
    && (forall i :: 0 <= i < |blocks| - 1 ==> blocks[i].End() == blocks[i + 1].address)
    && if blocks == [] then start == last + 1
       else blocks[0].address == start && blocks[|blocks| - 1].End() == last + 1
  }

  lemma {:induction false} CoverTiles(start: nat, last: nat)
    requires start <= last + 1 <= Pow2(ADDRESS_BITS)
    ensures Tiles(Cover(start, last), start, last)
    decreases last + 1 - start
  {
    if start <= last {
      var b := Block(start, Fit(start, last));
      FitIsLargest(start, last, 0);
      CoverTiles(b.End(), last);
      hide Fit, Pow2, Tiles;
      TilesCons(b, Cover(b.End(), last), last);
    }
  }

  lemma TilesCons(b: Block, rest: seq<Block>, last: nat)
    requires b.Aligned() && Tiles(rest, b.End(), last)
    ensures Tiles([b] + rest, b.address, last)
  {
    hide Pow2;
    assert forall i :: 0 < i <= |rest| ==> ([b] + rest)[i] == rest[i - 1];
  }

  /** Disjoint blocks whose union is exactly the range. */
  lemma {:induction false} TilesCoverOnce(blocks: seq<Block>, start: nat, last: nat, x: nat)
    requires Tiles(blocks, start, last)
    ensures start <= x <= last <==> exists i :: 0 <= i < |blocks| && blocks[i].Has(x)
    ensures forall i, j :: 0 <= i < j < |blocks| && blocks[i].Has(x) ==> !blocks[j].Has(x)
    ensures forall i :: 0 <= i < |blocks| ==> blocks[i].Inside(start, last)
    decreases |blocks|
  {
    if blocks != [] {
      var rest := blocks[1..];
      TilesCoverOnce(rest, blocks[0].End(), last, x);
      forall i | 1 <= i < |blocks|
        ensures blocks[i] == rest[i - 1]
      {}
      assert blocks[0].End() <= last + 1 by {
        if rest != [] {
          assert rest[0].Inside(blocks[0].End(), last);
        }
      }
      if start <= x <= last {
        if blocks[0].Has(x) {
        } else {
          var i :| 0 <= i < |rest| && rest[i].Has(x);
          assert blocks[i + 1].Has(x);
        }
      }
    }
  }

  // ----- No shorter list ------------------------------------------------------------------------

  /** How many of the blocks start at `from` or later. */
  ghost function StartsFrom(blocks: seq<Block>, from: nat): nat {
    if blocks == [] then 0
    else StartsFrom(blocks[..|blocks| - 1], from) + if blocks[|blocks| - 1].address >= from then 1 else 0
  }

  lemma {:induction false} FewerStart(blocks: seq<Block>, from: nat, to: nat, i: nat)
    requires from <= to && (i < |blocks| ==> from <= blocks[i].address < to)
    ensures StartsFrom(blocks, to) + (if i < |blocks| then 1 else 0) <= StartsFrom(blocks, from) <= |blocks|
    decreases |blocks|
  {
    if blocks != [] {
      var front := blocks[..|blocks| - 1];
      FewerStart(front, from, to, i);
    }
  }

  ghost predicate Covering(blocks: seq<Block>, first: nat, last: nat, start: nat) {
    && (forall i :: 0 <= i < |blocks| ==> blocks[i].Aligned() && blocks[i].Inside(first, last))
    && (forall x :: start <= x <= last ==> Covered(blocks, x))
  }

  ghost predicate Covered(blocks: seq<Block>, x: nat) {
    exists i :: 0 <= i < |blocks| && blocks[i].Has(x)
  }

  lemma {:induction false} CoverIsShortestFrom(blocks: seq<Block>, first: nat, last: nat, start: nat)
    requires first <= start <= last + 1 <= Pow2(ADDRESS_BITS) && Clean(first, last, start)
    requires Covering(blocks, first, last, start)
    ensures |Cover(start, last)| <= StartsFrom(blocks, start)
    decreases last + 1 - start
  {
    if start <= last {
      var b := Block(start, Fit(start, last));
      GreedyStep(first, last, start);
      FitIsLargest(start, last, 0);
      assert Covered(blocks, start);
      var i :| 0 <= i < |blocks| && blocks[i].Has(start);
      assert b.Has(start);
      hide Pow2, Fit, Covered, Clean;
      FewerStart(blocks, start, b.End(), i);
      CoverIsShortestFrom(blocks, first, last, b.End());
    }
  }

  /** No list of aligned blocks with the same union is shorter, however it is ordered or overlaps. */
  lemma CoverIsShortest(blocks: seq<Block>, first: nat, last: nat)
    requires first <= last < Pow2(ADDRESS_BITS)
    requires Covering(blocks, first, last, first)
    ensures |Cover(first, last)| <= |blocks|
  {
    CoverIsShortestFrom(blocks, first, last, first);
    FewerStart(blocks, first, first, |blocks|);
  }

  // ----- Each block size at most twice -------------------------------------------------------------

  ghost predicate Maximal(b: Block, first: nat, last: nat) {
    forall d: Block, x :: d.Aligned() && d.Inside(first, last) && d.Has(x) && b.Has(x) ==>
      b.address <= d.address && d.End() <= b.End()
  }

  lemma {:induction false} CoverIsMaximal(first: nat, last: nat, start: nat, i: nat)
    requires first <= start <= last + 1 <= Pow2(ADDRESS_BITS) && Clean(first, last, start)
    requires i < |Cover(start, last)|
    ensures Maximal(Cover(start, last)[i], first, last)
    decreases last + 1 - start
  {
    GreedyStep(first, last, start);
    FitIsLargest(start, last, 0);
    if i > 0 {
      hide Fit, Pow2, Clean, Maximal;
      CoverIsMaximal(first, last, Block(start, Fit(start, last)).End(), i - 1);
    }
  }

  /** A maximal block lies within one size of an end of the range: the next larger block around it sticks out. */
  lemma MaximalIsNearAnEnd(b: Block, first: nat, last: nat)
    requires b.Aligned() && b.Inside(first, last) && Maximal(b, first, last) && b.hostBits < ADDRESS_BITS
    ensures b.address < first + b.Size() || b.End() + b.Size() > last + 1
  {
    var p := b.Size();
    assert Pow2(b.hostBits + 1) == 2 * p;
    var q := Multiple(b.address, p);
    if b.address >= first + p && b.End() + p <= last + 1 {
      var parent := Block(if q % 2 == 0 then b.address else b.address - p, b.hostBits + 1);
      HalfSteps(q, p);
      assert parent.Aligned() && parent.Inside(first, last) && parent.Has(b.address) && b.Has(b.address);
      assert false;
    }
  }

  lemma HalfSteps(q: nat, p: nat)
    requires p > 0
    ensures q % 2 == 0 ==> (q * p) % (2 * p) == 0
    ensures q % 2 == 1 ==> q * p >= p && (q * p - p) % (2 * p) == 0
  {
    var h := q / 2;
    Doubled(h, p);
    QuotientIs(h * (2 * p), 2 * p, h, 0);
  }

  lemma Doubled(h: nat, p: nat)
    ensures (2 * h) * p == h * (2 * p) && (2 * h + 1) * p == h * (2 * p) + p
  {}

  lemma {:induction false} TilesInOrder(blocks: seq<Block>, start: nat, last: nat, i: nat, j: nat)
    requires Tiles(blocks, start, last) && i < j < |blocks|
    ensures blocks[i].End() <= blocks[j].address
    decreases j
  {
    if i < j - 1 {
      TilesInOrder(blocks, start, last, i, j - 1);
    }
  }

  /** No three blocks of the cover have the same size. */
  lemma SizesAtMostTwice(first: nat, last: nat, i: nat, j: nat, k: nat)
    requires first <= last < Pow2(ADDRESS_BITS)
    requires i < j < k < |Cover(first, last)|
    ensures !(Cover(first, last)[i].hostBits == Cover(first, last)[j].hostBits == Cover(first, last)[k].hostBits)
  {
    hide Cover, Maximal, Pow2;
    var blocks := Cover(first, last);
    CoverTiles(first, last);
    TilesInOrder(blocks, first, last, i, j);
    TilesInOrder(blocks, first, last, j, k);
    TilesCoverOnce(blocks, first, last, 0);
    CoverIsMaximal(first, last, first, j);
    assert blocks[j].End() <= last + 1;
    if blocks[j].hostBits < ADDRESS_BITS {
      MaximalIsNearAnEnd(blocks[j], first, last);
    }
  }

  // ----- The code -------------------------------------------------------------------------------------

  /**
    The loop of kqlIPv4RangeToCIDRList; `start` reaches 2^32 without wrapping when the range ends at the last
    address.
   */
  method RangeToCidrList(first: nat, last: nat) returns (ranges: seq<Block>)
    requires first <= last < Pow2(ADDRESS_BITS)
    ensures ranges == Cover(first, last)
    ensures Tiles(ranges, first, last)
  {
    ranges := [];
    var start := first;
    hide Pow2, TrailingZeros, FloorLog2, Tiles;
    while start <= last
      invariant first <= start <= last + 1 && ranges + Cover(start, last) == Cover(first, last)
      decreases last + 1 - start
    {
      var hostBits := TrailingZeros(start);
      var remainingBits := FloorLog2(last - start + 1);
      if remainingBits < hostBits {
        hostBits := remainingBits;
      }
      FitIsLargest(start, last, 0);
      ranges := ranges + [Block(start, hostBits)];
      start := start + Pow2(hostBits);
    }
    CoverTiles(first, last);
  }
}
