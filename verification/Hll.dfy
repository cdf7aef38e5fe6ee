/** HyperLogLog sketches: hllSketch in internal/database/kql_sketches.go. */
module Hll {
  import opened Arithmetic
  import opened Wrappers

  const MAX_SPARSE: nat := 4096

  /** The precisions of the accuracy levels: 12, 14, 16, 17 and 18. */
  type Precision = p: nat | 12 <= p <= 18 && p != 13 && p != 15 witness 12

  predicate IsPrecision(p: int) {
    p == 12 || p == 14 || p == 16 || p == 17 || p == 18
  }

  /** An unsigned 64-bit number. */
  type Hash = h: nat | h < 0x1_0000_0000_0000_0000

  // ----- Index and rank of a hash -----------------------------------------------------------

  /** hash >> (64 - p) */
  function Index(p: Precision, hash: Hash): nat {
    Div(hash, Pow2(64 - p))
  }

  /** The number of binary digits of x. */
  function BitLength(x: nat): nat {
    if x == 0 then 0 else 1 + BitLength(x / 2)
  }

  /** hash << p | 1 << (p - 1): the low p bits of the shifted hash are zero, so that or is a sum. */
  function Rest(p: Precision, hash: Hash): nat {
    Mod(hash * Pow2(p), Pow2(64)) + Pow2(p - 1)
  }

  /** bits.LeadingZeros64(rest) + 1 */
  function Rho(p: Precision, hash: Hash): int {
    64 - BitLength(Rest(p, hash)) + 1
  }

  lemma Pow2Of16()
    ensures Pow2(16) == 0x1_0000
  {
    assert Pow2(2) == 4;
    hide Pow2;
    Pow2Sum(2, 2);
    Pow2Sum(4, 4);
    Pow2Sum(8, 8);
  }

  lemma Pow2Of64()
    ensures Pow2(64) == 0x1_0000_0000_0000_0000
  {
    hide Pow2;
    Pow2Of16();
    Pow2Sum(16, 16);
    Pow2Sum(32, 32);
  }

  lemma QuotientBelow(x: nat, a: nat, b: nat)
    requires b > 0 && x < a * b
    ensures Div(x, b) < a
  {
    var q := Div(x, b);
    assert q * b <= x;
    NextMultiple(a, q, b);
  }

  /** Every hash falls into one of the 2^p registers. */
  lemma IndexInRange(p: Precision, hash: Hash)
    ensures Index(p, hash) < Pow2(p)
  {
    hide Pow2;
    Pow2Of64();
    Pow2Sum(p, 64 - p);
    QuotientBelow(hash, Pow2(p), Pow2(64 - p));
  }

  lemma {:induction false} BitLengthBounds(x: nat, n: nat)
    ensures x < Pow2(n) ==> BitLength(x) <= n
    ensures x >= Pow2(n) ==> BitLength(x) > n
  {
    if n > 0 && x > 0 {
      BitLengthBounds(x / 2, n - 1);
    }
  }

  lemma MultipleBelow(q: nat, d: nat, x: nat, total: nat)
    requires d > 0 && q * d < total * d && x < d
    ensures q * d + x < total * d
  {
    NextMultiple(q, total, d);
    NextMultiple(total, q, d);
  }

  /** The shifted hash leaves its low p bits free, so the or cannot overflow. */
  lemma RestBelow(p: Precision, hash: Hash)
    ensures Pow2(p - 1) <= Rest(p, hash) < Pow2(64)
  {
    Pow2Sum(64 - p, p);
    var d, total := Pow2(p), Pow2(64 - p);
    assert Pow2(p - 1) < d;
    hide Pow2;
    ScaledRemainder(hash, total, d);
    MultipleBelow(Mod(hash, total), d, Pow2(p - 1), total);
  }

  lemma ScaledRemainder(x: nat, m: nat, d: nat)
    requires m > 0 && d > 0
    ensures m * d > 0 && Mod(x * d, m * d) == Mod(x, m) * d && Mod(x, m) * d < m * d
  {
    var q, r := x / m, x % m;
    assert x == q * m + r;
    assert x * d == q * (m * d) + r * d by {
      assert (q * m) * d == q * (m * d);
      assert (q * m + r) * d == (q * m) * d + r * d;
    }
    NextMultiple(r, m, d);
    assert r * d < m * d;
    Product(m, d);
    QuotientIs(x * d, m * d, q, r * d);
  }

  /** A rank fits in its byte, and is never that of an untouched register. */
  lemma RhoRange(p: Precision, hash: Hash)
    ensures 1 <= Rho(p, hash) <= 65 - p
  {
    RestBelow(p, hash);
    BitLengthBounds(Rest(p, hash), 64);
    BitLengthBounds(Rest(p, hash), p - 1);
  }

  /** Binary digit i of x. */
  predicate Bit(x: nat, i: nat) {
    Mod(Div(x, Pow2(i)), 2) == 1
  }

  lemma RemainderOfDouble(x: nat, d: nat)
    requires d > 0
    ensures Mod(x, 2 * d) == Mod(x, d) + if Mod(Div(x, d), 2) == 1 then d else 0
  {
    var q, r := x / d, x % d;
    var h, b := q / 2, q % 2;
    assert x == (2 * h + b) * d + r == h * (2 * d) + (b * d + r);
    assert b * d <= d;
    QuotientIs(x, 2 * d, h, b * d + r);
  }

  lemma RemainderStep(x: nat, n: nat)
    ensures Mod(x, Pow2(n + 1)) == Mod(x, Pow2(n)) + if Bit(x, n) then Pow2(n) else 0
  {
    assert Pow2(n + 1) == 2 * Pow2(n);
    RemainderOfDouble(x, Pow2(n));
  }

  /** The low n digits make up a number of at least 2^m exactly if one of the digits from m on is a one. */
  lemma {:induction false} LowDigits(x: nat, n: nat, m: nat)
    requires m <= n
    ensures Mod(x, Pow2(n)) >= Pow2(m) <==> exists i: nat :: m <= i < n && Bit(x, i)
    decreases n
  {
    hide *;
    if m < n {
      LowDigits(x, n - 1, m);
      RemainderStep(x, n - 1);
      Pow2Monotone(m, n - 1);
    }
  }

  lemma ScaledBound(low: nat, d: nat, c: nat, m: nat)
    requires c < d
    ensures low * d + c >= m * d <==> low >= m
  {
    NextMultiple(low, m, d);
    NextMultiple(m, low, d);
  }

  lemma Halves(p: Precision)
    ensures Pow2(p - 1) < Pow2(p)
  {}

  lemma RhoOfRest(p: Precision, hash: Hash, k: nat)
    requires 1 <= k <= 64 - p
    ensures Rho(p, hash) <= k <==> Rest(p, hash) >= Pow2(64 - k)
  {
    hide Rest, Pow2;
    BitLengthBounds(Rest(p, hash), 64 - k);
  }

  /** The rank is at most k exactly if the bits after the index make up a number of this size. */
  lemma RhoOfLowDigits(p: Precision, hash: Hash, k: nat)
    requires 1 <= k <= 64 - p
    ensures Rho(p, hash) <= k <==> Mod(hash, Pow2(64 - p)) >= Pow2(64 - p - k)
  {
    hide Rho, Pow2, Mod;
    RhoOfRest(p, hash, k);
    Pow2Sum(64 - p, p);
    Pow2Sum(64 - p - k, p);
    Halves(p);
    ScaledRemainder(hash, Pow2(64 - p), Pow2(p));
    ScaledBound(Mod(hash, Pow2(64 - p)), Pow2(p), Pow2(p - 1), Pow2(64 - p - k));
  }

  /** One of the first k digits after the index is a one. */
  ghost predicate OneAmong(p: Precision, hash: Hash, k: nat)
    requires k <= 64 - p
  {
    exists i: nat :: 64 - p - k <= i < 64 - p && Bit(hash, i)
  }

  /**
    The rank is where the first one stands among the 64 - p digits of the hash after the index, counted from 1:
    it is at most k exactly if one of the first k of them is a one.
   */
  lemma RhoFindsFirstOne(p: Precision, hash: Hash, k: nat)
    requires 1 <= k <= 64 - p
    ensures Rho(p, hash) <= k <==> OneAmong(p, hash, k)
  {
    hide Rho, Bit, Pow2, Mod;
    RhoOfLowDigits(p, hash, k);
    LowDigits(hash, 64 - p, 64 - p - k);
  }

  // ----- The register of a hash ---------------------------------------------------------------

  lemma Rearrange(h: nat, s: nat, a: nat, b: nat, r: nat)
    ensures (h * b + s) * a + r == h * (a * b) + (s * a + r)
  {
    assert (h * b) * a == h * (a * b);
  }

  lemma BelowProduct(s: nat, r: nat, a: nat, b: nat)
    requires s < b && r < a
    ensures 0 <= s * a + r < a * b
  {
    NextMultiple(s, b, a);
    Product(s, a);
  }

  lemma DivTwice(x: nat, a: nat, b: nat)
    requires a > 0 && b > 0
    ensures a * b > 0 && Div(Div(x, a), b) == Div(x, a * b)
  {
    var q, r := Div(x, a), Mod(x, a);
    var h, s := Div(q, b), Mod(q, b);
    assert x == q * a + r && q == h * b + s;
    hide Div, Mod;
    Rearrange(h, s, a, b, r);
    BelowProduct(s, r, a, b);
    DivIs(x, a * b, h, s * a + r);
  }

  lemma DivIs(x: nat, count: nat, q: nat, r: nat)
    requires r < count && x == q * count + r
    ensures Div(x, count) == q
  {
    QuotientIs(x, count, q, r);
  }

  /** The register's number consists of the first p digits of the hash. */
  lemma IndexDigit(p: Precision, hash: Hash, j: nat)
    requires j < p
    ensures Bit(Index(p, hash), j) <==> Bit(hash, 64 - p + j)
  {
    hide Mod, Div, Pow2;
    DivTwice(hash, Pow2(64 - p), Pow2(j));
    Pow2Sum(64 - p, j);
  }

  /** The first p digits of the hash, read as a number, are i. */
  ghost predicate Spells(p: Precision, hash: Hash, i: nat) {
    i < Pow2(p) && forall j: nat :: j < p ==> (Bit(hash, 64 - p + j) <==> Bit(i, j))
  }

  /** A number below 2^n is determined by its n digits. */
  lemma {:induction false} DigitsDetermine(x: nat, y: nat, n: nat)
    requires forall j: nat :: j < n ==> (Bit(x, j) <==> Bit(y, j))
    ensures Mod(x, Pow2(n)) == Mod(y, Pow2(n))
  {
    hide Bit, Mod;
    if n > 0 {
      DigitsDetermine(x, y, n - 1);
      RemainderStep(x, n - 1);
      RemainderStep(y, n - 1);
    } else {
      NoDigits(x);
      NoDigits(y);
    }
  }

  lemma NoDigits(x: nat)
    ensures Mod(x, Pow2(0)) == 0
  {}

  lemma SmallRemainder(x: nat, n: nat)
    requires x < Pow2(n)
    ensures Mod(x, Pow2(n)) == x
  {
    QuotientIs(x, Pow2(n), 0, x);
  }

  lemma IndexSpells(p: Precision, hash: Hash, i: nat)
    ensures Index(p, hash) == i <==> Spells(p, hash, i)
  {
    hide Bit, Mod, Pow2, Index;
    IndexInRange(p, hash);
    forall j: nat | j < p
      ensures Bit(Index(p, hash), j) <==> Bit(hash, 64 - p + j)
    {
      IndexDigit(p, hash, j);
    }
    if Spells(p, hash, i) {
      DigitsDetermine(Index(p, hash), i, p);
      SmallRemainder(Index(p, hash), p);
      SmallRemainder(i, p);
    }
  }

  // ----- Sketches as values ---------------------------------------------------------------------

  datatype Sketch = Sparse(p: Precision, hashes: set<Hash>) | Dense(p: Precision, registers: seq<nat>)

  ghost predicate Proper(s: Sketch) {
    match s
    case Sparse(p, hashes) => |hashes| <= MAX_SPARSE
    case Dense(p, registers) => |registers| == Pow2(p)
  }

  /** The largest rank up to k among the hashes of one register. */
  ghost function Highest(p: Precision, hashes: set<Hash>, i: nat, k: nat): nat {
    if k == 0 then 0
    else if exists h :: h in hashes && Index(p, h) == i && Rho(p, h) == k then k
    else Highest(p, hashes, i, k - 1)
  }

  ghost function Register(p: Precision, hashes: set<Hash>, i: nat): nat {
    Highest(p, hashes, i, 64)
  }

  ghost function Registers(p: Precision, hashes: set<Hash>): (rs: seq<nat>)
    ensures |rs| == Pow2(p)
  {
    seq(Pow2(p), i requires 0 <= i => Register(p, hashes, i))
  }

  /** The sketch of a set of hashes: sparse while they are few, otherwise the largest rank of each register. */
  ghost function SketchOf(p: Precision, hashes: set<Hash>): Sketch {
    if |hashes| <= MAX_SPARSE then Sparse(p, hashes) else Dense(p, Registers(p, hashes))
  }

  function Max(a: int, b: int): int {
    if a < b then b else a
  }

  ghost function Raise(registers: seq<nat>, p: Precision, hash: Hash): (raised: seq<nat>)
    requires |registers| == Pow2(p)
    ensures |raised| == Pow2(p)
    ensures forall i :: 0 <= i < Pow2(p) ==> raised[i] == if i == Index(p, hash) then Max(registers[i], Rho(p, hash))
              else registers[i]
  {
    IndexInRange(p, hash);
    registers[Index(p, hash) := Max(registers[Index(p, hash)], Rho(p, hash))]
  }

  /** One more hash. */
  ghost function AddTo(s: Sketch, hash: Hash): (t: Sketch)
    requires Proper(s)
    ensures Proper(t)
  {
    match s
    case Sparse(p, hashes) => SketchOf(p, hashes + {hash})
    case Dense(p, registers) => Dense(p, Raise(registers, p, hash))
  }

  /** What register i of a sketch holds, or would hold if it were dense. */
  ghost function At(s: Sketch, i: nat): nat
    requires Proper(s) && i < Pow2(s.p)
  {
    match s
    case Sparse(p, hashes) => Register(p, hashes, i)
    case Dense(p, registers) => registers[i]
  }

  /** Two sketches in one; sketches of different precision only while both are sparse. */
  ghost function Merged(s: Sketch, t: Sketch): (m: Option<Sketch>)
    requires Proper(s) && Proper(t)
    ensures m.Some? ==> Proper(m.value)
  {
    if s.Sparse? && t.Sparse? then Some(SketchOf(Min(s.p, t.p), s.hashes + t.hashes))
    else if s.p != t.p then None
    else Some(Dense(s.p, seq(Pow2(s.p), i requires 0 <= i < Pow2(s.p) => Max(At(s, i), At(t, i)))))
  }

  // ----- Registers of sets of hashes ------------------------------------------------------------

  lemma {:induction false} HighestIs(p: Precision, hashes: set<Hash>, i: nat, k: nat)
    ensures Highest(p, hashes, i, k) <= k
    ensures Highest(p, hashes, i, k) > 0 ==> exists h ::
              h in hashes && Index(p, h) == i && Rho(p, h) == Highest(p, hashes, i, k)
    ensures forall h :: h in hashes && Index(p, h) == i && Rho(p, h) <= k ==> Rho(p, h) <= Highest(p, hashes, i, k)
  {
    hide Index, Rho;
    if k > 0 {
      HighestIs(p, hashes, i, k - 1);
    }
  }

  /** The register is the maximum of the ranks, and 0 when there are none. */
  lemma RegisterIsMaximum(p: Precision, hashes: set<Hash>, i: nat)
    ensures Register(p, hashes, i) > 0 ==> exists h ::
              h in hashes && Index(p, h) == i && Rho(p, h) == Register(p, hashes, i)
    ensures forall h :: h in hashes && Index(p, h) == i ==> Rho(p, h) <= Register(p, hashes, i)
  {
    HighestIs(p, hashes, i, 64);
    hide Rho, Index, Highest;
    forall h | h in hashes
      ensures Rho(p, h) <= 64
    {
      RhoRange(p, h);
    }
  }

  /**
    The register with number i holds the largest rank of the hashes whose first p digits spell i, and 0 when there
    are none; the rank is where the first one stands among the other digits.
   */
  lemma RegisterIsMaximumOfDigits(p: Precision, hashes: set<Hash>, i: nat)
    ensures Register(p, hashes, i) > 0 ==>
              exists h :: h in hashes && Spells(p, h, i) && Rho(p, h) == Register(p, hashes, i)
    ensures forall h :: h in hashes && Spells(p, h, i) ==> 1 <= Rho(p, h) <= Register(p, hashes, i)
    ensures forall h, k: nat :: h in hashes && 1 <= k <= 64 - p ==> (Rho(p, h) <= k <==> OneAmong(p, h, k))
  {
    RegisterIsMaximum(p, hashes, i);
    hide Register, Rho, Index, Spells, Bit, OneAmong;
    forall h | h in hashes
      ensures Index(p, h) == i <==> Spells(p, h, i)
      ensures Rho(p, h) >= 1
    {
      IndexSpells(p, h, i);
      RhoRange(p, h);
    }
    forall h, k: nat | h in hashes && 1 <= k <= 64 - p
      ensures Rho(p, h) <= k <==> OneAmong(p, h, k)
    {
      RhoFindsFirstOne(p, h, k);
    }
  }

  /** The hash 2^63 falls into register 2048 of 4096. */
  lemma IndexOfHighBit()
    ensures Index(12, 0x8000_0000_0000_0000) == 2048
  {
    Pow2Of16();
    hide Pow2;
    Pow2Sum(16, 16);
    Pow2Sum(32, 16);
    assert Pow2(48) == 0x1_0000_0000_0000;
    Pow2Sum(48, 4);
    SixteenIs();
    assert Pow2(52) == 0x10_0000_0000_0000;
    QuotientIs(0x8000_0000_0000_0000, 0x10_0000_0000_0000, 2048, 0);
  }

  lemma SixteenIs()
    ensures Pow2(4) == 16
  {}

  lemma RegisterOfUnion(p: Precision, a: set<Hash>, b: set<Hash>, i: nat)
    ensures Register(p, a + b, i) == Max(Register(p, a, i), Register(p, b, i))
  {
    hide Register, Rho, Index;
    RegisterIsMaximum(p, a, i);
    RegisterIsMaximum(p, b, i);
    RegisterIsMaximum(p, a + b, i);
  }

  lemma RegisterOfOne(p: Precision, hash: Hash, i: nat)
    ensures Register(p, {hash}, i) == if Index(p, hash) == i then Rho(p, hash) else 0
  {
    hide Register, Rho, Index;
    RegisterIsMaximum(p, {hash}, i);
    RhoRange(p, hash);
    assert hash in {hash};
  }

  lemma RaiseAll(p: Precision, hashes: set<Hash>, hash: Hash)
    ensures Registers(p, hashes + {hash}) == Raise(Registers(p, hashes), p, hash)
  {
    var before, after := Registers(p, hashes), Registers(p, hashes + {hash});
    hide Register, Rho, Index, Pow2, Raise;
    forall i | 0 <= i < Pow2(p)
      ensures after[i] == Raise(before, p, hash)[i]
    {
      RegisterOfUnion(p, hashes, {hash}, i);
      RegisterOfOne(p, hash, i);
    }
    assert after == Raise(before, p, hash);
  }

  // ----- Encodings ------------------------------------------------------------------------------

  /** The fields of hllEncoding: every text by what it decodes to, None for one that does not decode. */
  datatype Encoding = Encoding(precision: int, sparse: seq<Option<Hash>>, dense: Option<Option<seq<nat>>>)

  ghost predicate Encodes(e: Encoding, s: Sketch) {
    e.precision == s.p &&
    match s
    case Dense(_, registers) => e.sparse == [] && e.dense == Some(Some(registers))
    case Sparse(_, hashes) =>
      e.dense.None? && |e.sparse| == |hashes| && (forall i :: 0 <= i < |e.sparse| ==> e.sparse[i].Some?) &&
      Ascending(e.sparse) && forall h :: h in hashes <==> Some(h) in e.sparse
  }

  ghost predicate Ascending(texts: seq<Option<Hash>>)
    requires forall i :: 0 <= i < |texts| ==> texts[i].Some?
  {
    forall i, j :: 0 <= i < j < |texts| ==> texts[i].value < texts[j].value
  }

  ghost function Decoded(e: Encoding): (s: Option<Sketch>)
    ensures s.Some? ==> Proper(s.value)
  {
    if !IsPrecision(e.precision) || |e.sparse| > MAX_SPARSE then None
    else if e.dense.Some? then
      if e.dense.value.None? || |e.dense.value.value| != Pow2(e.precision) then None
      else Some(Dense(e.precision, e.dense.value.value))
    else if exists i :: 0 <= i < |e.sparse| && e.sparse[i].None? then None
    else
      SetIsSmaller(e.sparse);
      Some(Sparse(e.precision, HashesIn(e.sparse)))
  }

  ghost function HashesIn(texts: seq<Option<Hash>>): set<Hash> {
    set i | 0 <= i < |texts| && texts[i].Some? :: texts[i].value
  }

  lemma {:induction false} SetIsSmaller(texts: seq<Option<Hash>>)
    ensures |HashesIn(texts)| <= |texts|
  {
    if texts != [] {
      var front, last := texts[..|texts| - 1], texts[|texts| - 1];
      SetIsSmaller(front);
      assert texts == front + [last];
      assert HashesIn(texts) == HashesIn(front) + if last.Some? then {last.value} else {};
    }
  }

  lemma RoundTrip(s: Sketch, e: Encoding)
    requires Proper(s) && Encodes(e, s)
    ensures Decoded(e) == Some(s)
  {
    if s.Sparse? {
      forall h | h in s.hashes
        ensures h in HashesIn(e.sparse)
      {
        var i :| 0 <= i < |e.sparse| && e.sparse[i] == Some(h);
        assert e.sparse[i].value in HashesIn(e.sparse);
      }
      assert HashesIn(e.sparse) == s.hashes;
    }
  }

  // ----- A sketch is a function of its hashes ---------------------------------------------------

  lemma AddToSketch(p: Precision, hashes: set<Hash>, hash: Hash)
    ensures Proper(SketchOf(p, hashes)) && AddTo(SketchOf(p, hashes), hash) == SketchOf(p, hashes + {hash})
  {
    hide Registers, Raise;
    if |hashes| > MAX_SPARSE {
      Bigger(hashes, {hash});
      RaiseAll(p, hashes, hash);
    }
  }

  lemma Bigger(a: set<Hash>, b: set<Hash>)
    ensures |a + b| >= |a| && |a + b| >= |b|
  {
    assert a + b == a + (b - a) == b + (a - b);
  }

  lemma AtOfSketch(p: Precision, hashes: set<Hash>, i: nat)
    requires i < Pow2(p)
    ensures Proper(SketchOf(p, hashes)) && At(SketchOf(p, hashes), i) == Register(p, hashes, i)
  {
    hide Register;
  }

  /** Merging sketches of sets is the sketch of the union. */
  lemma MergeIsUnion(p: Precision, a: set<Hash>, q: Precision, b: set<Hash>)
    requires p == q || (|a| <= MAX_SPARSE && |b| <= MAX_SPARSE)
    ensures Proper(SketchOf(p, a)) && Proper(SketchOf(q, b))
    ensures Merged(SketchOf(p, a), SketchOf(q, b)) == Some(SketchOf(Min(p, q), a + b))
  {
    Bigger(a, b);
    hide Register, Pow2, At;
    var s, t := SketchOf(p, a), SketchOf(q, b);
    if !(s.Sparse? && t.Sparse?) {
      forall i | 0 <= i < Pow2(p)
        ensures Merged(s, t).value.registers[i] == Registers(p, a + b)[i]
      {
        AtOfSketch(p, a, i);
        AtOfSketch(p, b, i);
        RegisterOfUnion(p, a, b, i);
      }
      assert Merged(s, t).value.registers == Registers(p, a + b);
    }
  }

  /** A dense sketch merges with a sketch of its own precision only. */
  lemma MergeRefused(p: Precision, a: set<Hash>, q: Precision, b: set<Hash>)
    ensures Proper(SketchOf(p, a)) && Proper(SketchOf(q, b))
    ensures Merged(SketchOf(p, a), SketchOf(q, b)).None? <==> p != q && (|a| > MAX_SPARSE || |b| > MAX_SPARSE)
  {
    hide Register;
  }

  /** How a sketch may come about. */
  datatype Build =
    | New(p: Precision)
    | Add(before: Build, hash: Hash)
    | Merge(left: Build, right: Build)
    | Recoded(before: Build, encoding: Encoding)

  function Hashes(b: Build): set<Hash> {
    match b
    case New(_) => {}
    case Add(before, hash) => Hashes(before) + {hash}
    case Merge(left, right) => Hashes(left) + Hashes(right)
    case Recoded(before, _) => Hashes(before)
  }

  function PrecisionOf(b: Build): Precision {
    match b
    case New(p) => p
    case Add(before, _) => PrecisionOf(before)
    case Merge(left, right) => Min(PrecisionOf(left), PrecisionOf(right))
    case Recoded(before, _) => PrecisionOf(before)
  }

  /** The sketch built, or None where a merge is refused. */
  ghost function Built(b: Build): (s: Option<Sketch>)
    ensures s.Some? ==> Proper(s.value)
  {
    match b
    case New(p) => Some(Sparse(p, {}))
    case Add(before, hash) => (match Built(before) case None => None case Some(s) => Some(AddTo(s, hash)))
    case Merge(left, right) =>
      (match (Built(left), Built(right))
       case (Some(s), Some(t)) => Merged(s, t)
       case _ => None)
    case Recoded(before, encoding) =>
      match Built(before)
      case None => None
      case Some(s) => if Encodes(encoding, s) then Decoded(encoding) else None
  }

  /** A sketch that was built is sparse exactly up to 4096 hashes. */
  lemma SparseUpTo4096(b: Build)
    requires Built(b).Some?
    ensures Built(b).value == if |Hashes(b)| <= 4096 then Sparse(PrecisionOf(b), Hashes(b))
                              else Dense(PrecisionOf(b), Registers(PrecisionOf(b), Hashes(b)))
  {
    SketchIsFunctionOfHashes(b);
    hide Built, Registers;
  }

  /** Whatever was added, merged, encoded and decoded, in whatever order: only the set of hashes counts. */
  lemma {:induction false} SketchIsFunctionOfHashes(b: Build)
    requires Built(b).Some?
    ensures Built(b).value == SketchOf(PrecisionOf(b), Hashes(b))
  {
    hide Registers, Encodes, Decoded;
    match b {
      case New(p) =>
      case Add(before, hash) =>
        SketchIsFunctionOfHashes(before);
        AddToSketch(PrecisionOf(before), Hashes(before), hash);
      case Merge(left, right) =>
        SketchIsFunctionOfHashes(left);
        SketchIsFunctionOfHashes(right);
        MergeRefused(PrecisionOf(left), Hashes(left), PrecisionOf(right), Hashes(right));
        MergeIsUnion(PrecisionOf(left), Hashes(left), PrecisionOf(right), Hashes(right));
      case Recoded(before, encoding) =>
        SketchIsFunctionOfHashes(before);
        RoundTrip(Built(before).value, encoding);
    }
  }

  // ----- Laws of merging ------------------------------------------------------------------------

  lemma MergeCommutes(s: Sketch, t: Sketch)
    requires Proper(s) && Proper(t)
    ensures Merged(s, t) == Merged(t, s)
  {
    hide At, SketchOf, Pow2, Proper;
    if s.Sparse? && t.Sparse? {
      assert s.hashes + t.hashes == t.hashes + s.hashes;
    } else if s.p == t.p {
      assert Merged(s, t).value.registers == Merged(t, s).value.registers;
    }
  }

  lemma MergeIsIdempotent(s: Sketch)
    requires Proper(s)
    ensures Merged(s, s) == Some(s)
  {
    hide Pow2;
    if s.Sparse? {
      assert s.hashes + s.hashes == s.hashes;
    } else {
      assert Merged(s, s).value.registers == s.registers;
    }
  }

  lemma MergeAt(s: Sketch, t: Sketch, i: nat)
    requires Proper(s) && Proper(t) && s.p == t.p && i < Pow2(s.p)
    ensures Merged(s, t).Some? && Merged(s, t).value.p == s.p && Proper(Merged(s, t).value)
    ensures At(Merged(s, t).value, i) == Max(At(s, i), At(t, i))
    ensures Merged(s, t).value.Sparse? <==> s.Sparse? && t.Sparse? && |s.hashes + t.hashes| <= MAX_SPARSE
  {
    hide Register, Pow2;
    if s.Sparse? && t.Sparse? {
      AtOfSketch(s.p, s.hashes + t.hashes, i);
      RegisterOfUnion(s.p, s.hashes, t.hashes, i);
    }
  }

  /** Sketches of one precision may be merged in any grouping. */
  lemma MergeAssociates(s: Sketch, t: Sketch, u: Sketch)
    requires Proper(s) && Proper(t) && Proper(u) && s.p == t.p == u.p
    ensures Merged(s, t).Some? && Proper(Merged(s, t).value) && Merged(t, u).Some? && Proper(Merged(t, u).value)
    ensures Merged(Merged(s, t).value, u) == Merged(s, Merged(t, u).value)
  {
    MergeAt(s, t, 0);
    MergeAt(t, u, 0);
    var st, tu := Merged(s, t).value, Merged(t, u).value;
    MergeAt(st, u, 0);
    MergeAt(s, tu, 0);
    hide Pow2, At, Merged, Proper;
    var left, right := Merged(st, u).value, Merged(s, tu).value;
    if s.Sparse? && t.Sparse? && u.Sparse? {
      SparseMergesAssociate(s, t, u);
    } else {
      forall i | 0 <= i < Pow2(s.p)
        ensures At(left, i) == At(right, i)
      {
        MergeAt(s, t, i);
        MergeAt(t, u, i);
        MergeAt(st, u, i);
        MergeAt(s, tu, i);
      }
      SameRegisters(left, right);
    }
  }

  lemma SameRegisters(s: Sketch, t: Sketch)
    requires Proper(s) && Proper(t) && s.Dense? && t.Dense? && s.p == t.p
    requires forall i :: 0 <= i < Pow2(s.p) ==> At(s, i) == At(t, i)
    ensures s == t
  {
    hide Pow2;
    assert forall i :: 0 <= i < |s.registers| ==> s.registers[i] == At(s, i) == At(t, i) == t.registers[i];
  }

  lemma SparseMergesAssociate(s: Sketch, t: Sketch, u: Sketch)
    requires Proper(s) && Proper(t) && Proper(u) && s.p == t.p == u.p
    requires s.Sparse? && t.Sparse? && u.Sparse?
    ensures Merged(s, t).Some? && Proper(Merged(s, t).value) && Merged(t, u).Some? && Proper(Merged(t, u).value)
    ensures Merged(Merged(s, t).value, u) == Merged(s, Merged(t, u).value)
  {
    assert s == SketchOf(s.p, s.hashes) && t == SketchOf(s.p, t.hashes) && u == SketchOf(s.p, u.hashes);
    hide Merged, SketchOf, Proper;
    MergeIsUnion(s.p, s.hashes, s.p, t.hashes);
    MergeIsUnion(s.p, t.hashes, s.p, u.hashes);
    MergeIsUnion(s.p, s.hashes + t.hashes, s.p, u.hashes);
    MergeIsUnion(s.p, s.hashes, s.p, t.hashes + u.hashes);
    assert (s.hashes + t.hashes) + u.hashes == s.hashes + (t.hashes + u.hashes);
  }

  /** What two sketches must satisfy to be merged: one precision, or few hashes on both sides. */
  predicate Mergeable(x: Build, y: Build) {
    PrecisionOf(x) == PrecisionOf(y) || (|Hashes(x)| <= MAX_SPARSE && |Hashes(y)| <= MAX_SPARSE)
  }

  lemma MergeableIsBuilt(x: Build, y: Build)
    requires Built(x).Some? && Built(y).Some?
    ensures Built(Merge(x, y)).Some? <==> Mergeable(x, y)
  {
    SketchIsFunctionOfHashes(x);
    SketchIsFunctionOfHashes(y);
    hide SketchOf, Merged;
    MergeRefused(PrecisionOf(x), Hashes(x), PrecisionOf(y), Hashes(y));
  }

  lemma NotBuilt(x: Build, y: Build)
    requires Built(x).None? || Built(y).None?
    ensures Built(Merge(x, y)).None?
  {}

  /**
    The two groupings of three sketches give the same, be it a sketch or a refusal, if and only if both or neither
    of them find their sketches mergeable at each step. Precisions and numbers of hashes decide that.
   */
  lemma GroupingAgreesIff(x: Build, y: Build, z: Build)
    requires Built(x).Some? && Built(y).Some? && Built(z).Some?
    ensures Built(Merge(Merge(x, y), z)) == Built(Merge(x, Merge(y, z))) <==>
              ((Mergeable(x, y) && Mergeable(Merge(x, y), z)) <==> (Mergeable(y, z) && Mergeable(x, Merge(y, z))))
  {
    var left, right := Merge(Merge(x, y), z), Merge(x, Merge(y, z));
    assert Hashes(left) == Hashes(right) && PrecisionOf(left) == PrecisionOf(right);
    hide *;
    MergeableIsBuilt(x, y);
    MergeableIsBuilt(y, z);
    if Built(Merge(x, y)).Some? {
      MergeableIsBuilt(Merge(x, y), z);
    } else {
      NotBuilt(Merge(x, y), z);
    }
    if Built(Merge(y, z)).Some? {
      MergeableIsBuilt(x, Merge(y, z));
    } else {
      NotBuilt(x, Merge(y, z));
    }
    if Built(left).Some? && Built(right).Some? {
      SketchIsFunctionOfHashes(left);
      SketchIsFunctionOfHashes(right);
    }
  }

  /** A sketch to which the hashes below n were added. */
  function Adds(p: Precision, n: nat): Build
    requires n <= 65536
  {
    if n == 0 then New(p) else Add(Adds(p, n - 1), n - 1)
  }

  lemma {:induction false} AddsAre(p: Precision, n: nat)
    requires n <= 65536
    ensures Built(Adds(p, n)).Some? && PrecisionOf(Adds(p, n)) == p
    ensures |Hashes(Adds(p, n))| == n && forall h :: h in Hashes(Adds(p, n)) ==> h < n
  {
    hide AddTo;
    if n > 0 {
      AddsAre(p, n - 1);
    }
  }

  /** They do not always agree: a sparse sketch can first take on the precision of another sparse one. */
  lemma MixedGroupingMatters(n: nat)
    requires MAX_SPARSE < n <= 65536
    ensures Built(Merge(Merge(New(12), New(14)), Adds(12, n))).Some?
    ensures Built(Merge(New(12), Merge(New(14), Adds(12, n)))).None?
  {
    var x, y, z := New(12), New(14), Adds(12, n);
    AddsAre(12, n);
    assert Hashes(Merge(x, y)) == {} && PrecisionOf(Merge(x, y)) == 12;
    assert Mergeable(x, y) && Mergeable(Merge(x, y), z) && !Mergeable(y, z);
    assert Built(x).Some? && Built(y).Some?;
    hide *;
    MergeableIsBuilt(x, y);
    MergeableIsBuilt(Merge(x, y), z);
    MergeableIsBuilt(y, z);
    NotBuilt(x, Merge(y, z));
  }

  // ----- The code ---------------------------------------------------------------------------------

  class HllSketch {
    var p: Precision
    var sparse: set<Hash>
    /** Absent while the sketch is sparse. */
    var registers: array?<nat>

    ghost predicate Valid()
      reads this, registers
    {
      Proper(Value())
    }

    ghost function Value(): Sketch
      reads this, registers
    {
      if registers == null then Sparse(p, sparse) else Dense(p, registers[..])
    }

    ghost function Repr(): set<object>
      reads this
    {
      if registers == null then {this} else {this, registers}
    }

    constructor (p: Precision)
      ensures Valid() && Value() == Sparse(p, {}) && registers == null
    {
      this.p, sparse, registers := p, {}, null;
    }

    /** The register of a dense sketch that a hash falls into is raised to its rank. */
    method RaiseRegister(hash: Hash)
      requires Valid() && registers != null
      modifies registers
      ensures Valid() && Value() == Dense(p, Raise(old(registers[..]), p, hash))
    {
      hide Rho, Index, Pow2;
      IndexInRange(p, hash);
      RhoRange(p, hash);
      var index := Index(p, hash);
      var rho := Rho(p, hash);
      if rho > registers[index] {
        registers[index] := rho;
      }
      assert registers[..] == Raise(old(registers[..]), p, hash);
    }

    method AddHash(hash: Hash)
      requires Valid()
      modifies Repr()
      ensures Valid() && p == old(p) && Value() == AddTo(old(Value()), hash)
      ensures Fresh(old(registers), registers)
    {
      hide Rho, Index, Pow2, Raise, Registers;
      if registers == null {
        sparse := sparse + {hash};
        if |sparse| > MAX_SPARSE {
          Densify();
        }
        return;
      }
      RaiseRegister(hash);
    }

    /** Turns the sparse hashes into registers, in the arbitrary order of the map. */
    method Densify()
      requires registers == null
      modifies this
      ensures p == old(p) && registers != null && fresh(registers) && registers.Length == Pow2(p)
      ensures Value() == Dense(p, Registers(p, old(sparse)))
    {
      hide Rho, Index, Pow2, Raise, Register;
      registers := new nat[Pow2(p)](_ => 0);
      var remaining := sparse;
      ghost var all := sparse;
      sparse := {};
      EmptyRegisters(p);
      assert all - remaining == {} && registers[..] == Registers(p, {});
      while remaining != {}
        invariant remaining <= all && Valid() && p == old(p)
        invariant registers != null && fresh(registers)
        invariant registers[..] == Registers(p, all - remaining)
        decreases remaining
      {
        var hash :| hash in remaining;
        RaiseAll(p, all - remaining, hash);
        RaiseRegister(hash);
        assert all - (remaining - {hash}) == (all - remaining) + {hash};
        remaining := remaining - {hash};
      }
      assert all - remaining == all;
    }

    /** False, and nothing changed, when the precisions differ and one of the two is dense. */
    method Merge(other: HllSketch) returns (ok: bool)
      requires Valid() && other.Valid() && other != this && (registers != null ==> other.registers != registers)
      modifies Repr()
      ensures Valid() && ok == Merged(old(Value()), other.Value()).Some?
      ensures ok ==> Merged(old(Value()), other.Value()) == Some(Value())
      ensures !ok ==> Value() == old(Value())
    {
      hide Rho, Index, Pow2, Raise, Registers, Register, At, SketchOf;
      ghost var s, t := Value(), other.Value();
      if other.p != p {
        if registers != null || other.registers != null {
          return false;
        }
        p := Min(p, other.p);
      }
      if other.registers == null {
        assert Merged(s, t) == Merged(Value(), Sparse(p, other.sparse));
        AddAll(other.sparse);
      } else {
        RaiseAllTo(other.registers);
      }
      ok := true;
    }

    method AddAll(hashes: set<Hash>)
      requires Valid() && |hashes| <= MAX_SPARSE
      modifies Repr()
      ensures Valid() && Some(Value()) == Merged(old(Value()), Sparse(old(p), hashes))
    {
      hide Rho, Index, Pow2, Raise, Registers, Register, At, SketchOf, Merged, AddTo;
      ghost var s := Value();
      var remaining := hashes;
      NothingToAdd(s);
      assert hashes - remaining == {};
      while remaining != {}
        invariant remaining <= hashes && Valid() && Fresh(old(registers), registers)
        invariant Proper(s) && Proper(Sparse(s.p, hashes - remaining))
        invariant Some(Value()) == Merged(s, Sparse(s.p, hashes - remaining))
        decreases remaining
      {
        var hash :| hash in remaining;
        OneMore(s, hashes, remaining, hash);
        AddHash(hash);
        remaining := remaining - {hash};
      }
      assert hashes - remaining == hashes;
      assert s.p == old(p);
    }

    method RaiseAllTo(others: array<nat>)
      requires Valid() && others.Length == Pow2(p) && (registers != null ==> others != registers)
      modifies Repr()
      ensures Valid() && Some(Value()) == Merged(old(Value()), Dense(old(p), others[..]))
    {
      hide Rho, Index, Pow2, Raise, Registers, Register, At, SketchOf, Merged, AddTo;
      ghost var s := Value();
      if registers == null {
        Densify();
      }
      var mine: array<nat> := registers;
      ghost var before := mine[..];
      assert others[..] == old(others[..]);
      var i := 0;
      while i < others.Length
        invariant 0 <= i <= others.Length == mine.Length && mine == registers
        invariant forall j :: 0 <= j < i ==> mine[j] == Max(before[j], others[j])
        invariant forall j :: i <= j < mine.Length ==> mine[j] == before[j]
        invariant others[..] == old(others[..]) && p == old(p)
      {
        if others[i] > mine[i] {
          mine[i] := others[i];
        }
        i := i + 1;
      }
      MergedRegisters(s, before, others[..], registers[..]);
    }
  }

  /** Insertion into an ascending list, which is how the list is sorted here. */
  function InsertHash(h: Hash, hs: seq<Hash>): seq<Hash> {
    if hs == [] || h < hs[0] then [h] + hs else [hs[0]] + InsertHash(h, hs[1..])
  }

  ghost predicate Lists(hs: seq<Hash>, hashes: set<Hash>) {
    |hs| == |hashes| && (forall i, j :: 0 <= i < j < |hs| ==> hs[i] < hs[j]) && forall h :: h in hashes <==> h in hs
  }

  lemma {:induction false} InsertKeepsListed(h: Hash, hs: seq<Hash>)
    requires h !in hs && forall i, j :: 0 <= i < j < |hs| ==> hs[i] < hs[j]
    ensures |InsertHash(h, hs)| == |hs| + 1
    ensures forall i, j :: 0 <= i < j < |hs| + 1 ==> InsertHash(h, hs)[i] < InsertHash(h, hs)[j]
    ensures forall x :: x in InsertHash(h, hs) <==> x == h || x in hs
  {
    if hs != [] && h >= hs[0] {
      InsertKeepsListed(h, hs[1..]);
      assert hs == [hs[0]] + hs[1..];
      var tail := InsertHash(h, hs[1..]);
      assert forall i :: 0 <= i < |tail| ==> tail[i] in tail;
    }
  }

  lemma SortedEncodes(p: Precision, hashes: set<Hash>, sorted: seq<Hash>, texts: seq<Option<Hash>>)
    requires Lists(sorted, hashes) && |texts| == |sorted| &&
               forall i :: 0 <= i < |texts| ==> texts[i] == Some(sorted[i])
    ensures Encodes(Encoding(p, texts, None), Sparse(p, hashes))
  {
    forall h: Hash
      ensures h in sorted <==> Some(h) in texts
    {
      if h in sorted {
        var i :| 0 <= i < |sorted| && sorted[i] == h;
        assert texts[i] == Some(h);
      }
    }
  }

  lemma ListOneMore(h: Hash, hs: seq<Hash>, hashes: set<Hash>)
    requires Lists(hs, hashes) && h !in hashes
    ensures Lists(InsertHash(h, hs), hashes + {h})
  {
    hide InsertHash;
    InsertKeepsListed(h, hs);
  }

  /** The hashes in ascending order, whatever order the map yields. */
  method SortHashes(hashes: set<Hash>) returns (sorted: seq<Hash>)
    ensures Lists(sorted, hashes)
  {
    var remaining := hashes;
    sorted := [];
    assert Lists(sorted, hashes - remaining);
    while remaining != {}
      invariant remaining <= hashes && Lists(sorted, hashes - remaining)
      decreases remaining
    {
      hide InsertHash, Lists;
      var hash :| hash in remaining;
      ListOneMore(hash, sorted, hashes - remaining);
      assert hashes - (remaining - {hash}) == (hashes - remaining) + {hash};
      sorted, remaining := InsertHash(hash, sorted), remaining - {hash};
    }
    assert hashes - remaining == hashes;
  }

  method Encode(sketch: HllSketch) returns (e: Encoding)
    requires sketch.Valid()
    ensures Encodes(e, sketch.Value())
  {
    if sketch.registers != null {
      return Encoding(sketch.p, [], Some(Some(sketch.registers[..])));
    }
    var sorted := SortHashes(sketch.sparse);
    var texts: seq<Option<Hash>> := seq(|sorted|, i requires 0 <= i < |sorted| => Some(sorted[i]));
    SortedEncodes(sketch.p, sketch.sparse, sorted, texts);
    e := Encoding(sketch.p, texts, None);
  }

  method Decode(e: Encoding) returns (r: Option<HllSketch>)
    ensures r.Some? <==> Decoded(e).Some?
    ensures r.Some? ==> fresh(r.value.Repr()) && r.value.Valid() && Decoded(e) == Some(r.value.Value())
  {
    if !IsPrecision(e.precision) || |e.sparse| > MAX_SPARSE {
      return None;
    }
    var sketch := new HllSketch(e.precision);
    if e.dense.Some? {
      if e.dense.value.None? || |e.dense.value.value| != Pow2(e.precision) {
        return None;
      }
      var bytes := e.dense.value.value;
      var registers := new nat[|bytes|](i requires 0 <= i < |bytes| => bytes[i]);
      assert registers[..] == bytes;
      sketch.sparse, sketch.registers := {}, registers;
      return Some(sketch);
    }
    var i := 0;
    SetIsSmaller(e.sparse);
    while i < |e.sparse|
      invariant 0 <= i <= |e.sparse| && fresh(sketch) && sketch.registers == null && sketch.p == e.precision
      invariant forall j :: 0 <= j < i ==> e.sparse[j].Some?
      invariant sketch.sparse == HashesIn(e.sparse[..i])
    {
      if e.sparse[i].None? {
        return None;
      }
      assert e.sparse[..i + 1] == e.sparse[..i] + [e.sparse[i]];
      sketch.sparse := sketch.sparse + {e.sparse[i].value};
      i := i + 1;
    }
    assert e.sparse[..i] == e.sparse;
    r := Some(sketch);
  }

  lemma NothingToAdd(s: Sketch)
    requires Proper(s)
    ensures Proper(Sparse(s.p, {})) && Merged(s, Sparse(s.p, {})) == Some(s)
  {
    hide Pow2, Register;
    if s.Sparse? {
      assert s.hashes + {} == s.hashes;
    } else {
      forall i | 0 <= i < Pow2(s.p)
        ensures Merged(s, Sparse(s.p, {})).value.registers[i] == s.registers[i]
      {
        RegisterIsMaximum(s.p, {}, i);
      }
      assert Merged(s, Sparse(s.p, {})).value.registers == s.registers;
    }
  }

  lemma OneMore(s: Sketch, hashes: set<Hash>, remaining: set<Hash>, hash: Hash)
    requires Proper(s) && |hashes| <= MAX_SPARSE && hash in remaining && remaining <= hashes
    requires Proper(Sparse(s.p, hashes - remaining))
    ensures Proper(Sparse(s.p, hashes - (remaining - {hash})))
    ensures Merged(s, Sparse(s.p, hashes - remaining)).Some?
    ensures Merged(s, Sparse(s.p, hashes - (remaining - {hash}))) ==
              Some(AddTo(Merged(s, Sparse(s.p, hashes - remaining)).value, hash))
  {
    var done, more := hashes - remaining, hashes - (remaining - {hash});
    assert more == done + {hash};
    assert |more| <= |hashes| by {
      assert more + (remaining - {hash}) == hashes;
      Bigger(more, remaining - {hash});
    }
    assert Proper(Sparse(s.p, more));
    hide *;
    if s.Sparse? {
      SparseOneMore(s, done, more, hash);
    } else {
      DenseOneMore(s, done, more, hash);
    }
  }

  lemma SparseOneMore(s: Sketch, done: set<Hash>, more: set<Hash>, hash: Hash)
    requires Proper(s) && s.Sparse? && more == done + {hash}
    requires Proper(Sparse(s.p, done)) && Proper(Sparse(s.p, more))
    ensures Merged(s, Sparse(s.p, done)).Some?
    ensures Merged(s, Sparse(s.p, more)) == Some(AddTo(Merged(s, Sparse(s.p, done)).value, hash))
  {
    hide SketchOf, AddTo;
    assert s.hashes + more == (s.hashes + done) + {hash};
    AddToSketch(s.p, s.hashes + done, hash);
  }

  lemma DenseOneMore(s: Sketch, done: set<Hash>, more: set<Hash>, hash: Hash)
    requires Proper(s) && s.Dense? && more == done + {hash}
    requires Proper(Sparse(s.p, done)) && Proper(Sparse(s.p, more))
    ensures Merged(s, Sparse(s.p, done)).Some?
    ensures Merged(s, Sparse(s.p, more)) == Some(AddTo(Merged(s, Sparse(s.p, done)).value, hash))
  {
    hide Pow2, Register, Rho, Index, Raise;
    var a, b := Merged(s, Sparse(s.p, done)).value.registers, Merged(s, Sparse(s.p, more)).value.registers;
    forall i | 0 <= i < Pow2(s.p)
      ensures b[i] == Raise(a, s.p, hash)[i]
    {
      RegisterOfUnion(s.p, done, {hash}, i);
      RegisterOfOne(s.p, hash, i);
    }
    assert b == Raise(a, s.p, hash);
  }

  lemma MergedRegisters(s: Sketch, before: seq<nat>, others: seq<nat>, after: seq<nat>)
    requires Proper(s) && |before| == |others| == |after| == Pow2(s.p)
    requires before == if s.Sparse? then Registers(s.p, s.hashes) else s.registers
    requires forall i :: 0 <= i < |after| ==> after[i] == Max(before[i], others[i])
    ensures Proper(Dense(s.p, others)) && Merged(s, Dense(s.p, others)) == Some(Dense(s.p, after))
  {
    hide Pow2, Register;
    assert Merged(s, Dense(s.p, others)).value.registers == after;
  }

  /** Registers are kept, or allocated anew. */
  twostate predicate Fresh(before: array?<nat>, new after: array?<nat>) {
    before == after || (after != null && fresh(after))
  }

  lemma EmptyRegisters(p: Precision)
    ensures Registers(p, {}) == seq(Pow2(p), _ => 0)
  {
    hide Pow2;
    forall i | 0 <= i < Pow2(p)
      ensures Registers(p, {})[i] == 0
    {
      RegisterIsMaximum(p, {}, i);
    }
  }
}
