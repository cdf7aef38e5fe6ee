/** Facts about products and remainders that the other modules share. */
module Arithmetic {

  lemma Product(a: nat, b: nat)
    ensures a * b >= 0
  {}

  lemma ProductBound(a: nat, b: nat, c: nat, d: nat)
    requires a <= c && b <= d
    ensures a * b <= c * d
  {}

  lemma NextMultiple(a: nat, b: nat, count: nat)
    ensures a < b ==> a * count + count <= b * count
    ensures a <= b ==> a * count <= b * count
  {
    if a < b {
      assert (a + 1) * count <= b * count;
    }
  }

  lemma QuotientIs(x: nat, count: nat, q: nat, r: nat)
    requires r < count && x == q * count + r
    ensures x / count == q && x % count == r
  {
    var d := x / count;
    assert x == d * count + x % count;
    NextMultiple(d, q, count);
    NextMultiple(q, d, count);
  }

  lemma Multiple(x: nat, size: nat) returns (q: nat)
    requires size > 0 && x % size == 0
    ensures q == x / size && x == q * size
  {
    q := x / size;
  }

  function Min(a: int, b: int): int {
    if a < b then a else b
  }

  /** Division and remainder of naturals, with the bounds the callers need. */
  function Div(a: nat, b: nat): (q: nat)
    requires b > 0
  {
    a / b
  }

  function Mod(a: nat, b: nat): (r: nat)
    requires b > 0
    ensures r < b
  {
    a % b
  }

  // ----- Powers of two -----------------------------------------------------------------------

  function Pow2(n: nat): (p: nat)
    ensures p >= 1
  {
    if n == 0 then 1 else 2 * Pow2(n - 1)
  }

  lemma {:induction false} Pow2Sum(a: nat, b: nat)
    ensures Pow2(a + b) == Pow2(a) * Pow2(b)
  {
    if b > 0 {
      Pow2Sum(a, b - 1);
      assert Pow2(a + b) == 2 * Pow2(a + (b - 1));
    }
  }

  lemma {:induction false} Pow2Monotone(a: nat, b: nat)
    requires a <= b
    ensures Pow2(a) <= Pow2(b)
    decreases b
  {
    if a < b {
      Pow2Monotone(a, b - 1);
    }
  }
}
