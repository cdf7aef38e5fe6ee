/** The escalating wait between answers: cooldownAfter in internal/database/questions.go, in 64-bit arithmetic. */
module Cooldown {
  import opened Arithmetic
  import opened Limits

  const HALF: int := 0x4000_0000_0000_0000

  type Duration = d: int | MIN_INT64 <= d <= MAX_INT64

  const FREE_ATTEMPTS: nat := 10

  /** A product or difference as the machine computes it. */
  function Wrapped(x: int): Duration
    requires 2 * MIN_INT64 <= x <= 2 * MAX_INT64 + 1
  {
    if x > MAX_INT64 then x - 2 * (MAX_INT64 + 1) else if x < MIN_INT64 then x + 2 * (MAX_INT64 + 1) else x
  }

  /** cooldown, doubled n times. */
  function Doubled(cooldown: int, n: nat): int {
    if n == 0 then cooldown else 2 * Doubled(cooldown, n - 1)
  }

  function Escalations(attempts: nat): nat {
    if attempts <= FREE_ATTEMPTS then 0 else attempts - FREE_ATTEMPTS
  }

  /** The wait that the configuration promises: doubled for every attempt after the tenth, up to the cap. */
  function Promised(cooldown: Duration, cap: Duration, attempts: nat): int {
    if cooldown <= 0 || cooldown >= cap then cooldown else Min(cap, Doubled(cooldown, Escalations(attempts)))
  }

  /** Some doubling below the cap leaves the 64 bits. */
  ghost predicate Overflows(cooldown: Duration, cap: Duration, attempts: nat) {
    exists j :: 0 <= j < Escalations(attempts) && HALF <= Doubled(cooldown, j) < cap
  }

  /** The wait that is enforced: none where the machine's result is not positive. */
  ghost function Required(cooldown: Duration, cap: Duration, attempts: nat): (wait: nat)
    ensures cooldown > 0 && cap <= HALF ==> wait == Promised(cooldown, cap, attempts)
  {
    if cooldown <= 0 then 0
    else if cooldown < cap && Overflows(cooldown, cap, attempts) then 0
    else
      DoubledGrows(cooldown, 0, Escalations(attempts));
      Promised(cooldown, cap, attempts)
  }

  lemma {:induction false} DoubledGrows(cooldown: int, m: nat, n: nat)
    requires cooldown > 0 && m <= n
    ensures 0 < Doubled(cooldown, m) <= Doubled(cooldown, n)
    decreases n
  {
    if m < n {
      DoubledGrows(cooldown, m, n - 1);
    } else if n > 0 {
      DoubledGrows(cooldown, n - 1, n - 1);
    }
  }

  lemma {:induction false} DoubledIs(cooldown: int, n: nat)
    ensures Doubled(cooldown, n) == cooldown * Pow2(n)
  {
    if n > 0 {
      DoubledIs(cooldown, n - 1);
      assert cooldown * (2 * Pow2(n - 1)) == 2 * (cooldown * Pow2(n - 1));
    }
  }

  /** The promise in numbers: ten attempts at the base cooldown, then twice as long each time, up to the cap. */
  lemma PromisedIs(cooldown: Duration, cap: Duration, attempts: nat)
    ensures attempts <= 10 || cooldown <= 0 || cooldown >= cap ==> Promised(cooldown, cap, attempts) == cooldown
    ensures attempts > 10 && 0 < cooldown < cap ==>
              Promised(cooldown, cap, attempts) == Min(cap, cooldown * Pow2(attempts - 10))
  {
    DoubledIs(cooldown, Escalations(attempts));
    hide Pow2;
  }

  method CooldownAfter(initial: Duration, cap: Duration, attempts: nat) returns (wait: Duration)
    ensures wait == Promised(initial, cap, attempts) <==>
              initial <= 0 || initial >= cap || !Overflows(initial, cap, attempts)
    ensures wait != Promised(initial, cap, attempts) ==> wait < 0
    ensures (if wait > 0 then wait else 0) == Required(initial, cap, attempts)
  {
    var cooldown: Duration := initial;
    var attempt := FREE_ATTEMPTS;
    ghost var j: nat := 0;
    while attempt < attempts && cooldown > 0 && cooldown < cap
      invariant attempt == FREE_ATTEMPTS + j && (j > 0 ==> attempt <= attempts && 0 < initial < cap)
      invariant j == 0 ==> cooldown == initial
      invariant cooldown > 0 ==> cooldown == Doubled(initial, j)
      invariant j > 0 && cooldown > 0 ==> forall i :: 0 <= i < j ==>
                  Doubled(initial, i) < HALF && Doubled(initial, i) < cap
      invariant j > 0 && cooldown <= 0 ==> cooldown < 0 && HALF <= Doubled(initial, j - 1) < cap
      decreases attempts - attempt
    {
      cooldown := Wrapped(cooldown * 2);
      attempt, j := attempt + 1, j + 1;
    }
    ghost var k := Escalations(attempts);
    if 0 < initial {
      DoubledGrows(initial, 0, k);
    }
    if 0 < initial < cap {
      if cooldown > 0 {
        Reached(initial, cap, attempts, j);
      } else {
        assert HALF <= Doubled(initial, j - 1) < cap && j - 1 < k;
      }
    }
    if cap > initial && cooldown > cap {
      return cap;
    }
    wait := cooldown;
  }

  /** The loop has stopped after j doublings, none of which overflowed. */
  lemma Reached(initial: Duration, cap: Duration, attempts: nat, j: nat)
    requires 0 < initial < cap && j <= Escalations(attempts)
    requires forall i :: 0 <= i < j ==> Doubled(initial, i) < HALF
    requires j == Escalations(attempts) || Doubled(initial, j) >= cap
    ensures !Overflows(initial, cap, attempts)
    ensures Min(cap, Doubled(initial, j)) == Promised(initial, cap, attempts)
  {
    DoubledGrows(initial, j, Escalations(attempts));
    forall i | j <= i < Escalations(attempts)
      ensures Doubled(initial, i) >= cap
    {
      DoubledGrows(initial, j, i);
    }
  }

  /** With a cap of at most 2^62 nanoseconds, about 146 years, nothing overflows. */
  lemma SafeCap(initial: Duration, cap: Duration, attempts: nat)
    requires cap <= HALF
    ensures !Overflows(initial, cap, attempts)
  {}

  /** Beyond that the promise can fail: the eleventh wrong answer lifts the cooldown altogether. */
  lemma LargeCapOverflows()
    ensures Overflows(HALF, MAX_INT64, 11)
    ensures Promised(HALF, MAX_INT64, 11) == MAX_INT64
  {
    assert Doubled(HALF, 0) == HALF;
    assert Doubled(HALF, 1) == 2 * HALF;
  }
}
