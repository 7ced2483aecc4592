/** `rand` and `srand` of lib/stdlib.c: the linear congruential recurrence of the example in
    section 7.20.2.2 of ISO/IEC 9899:1999, modulo 2^32, and a proof that it has full period. */
module RandomNumbers {
  import opened Machine

  const MULTIPLIER := 1103515245
  const INCREMENT := 12345

  function NextSeed(seed: int): int {
    (seed * MULTIPLIER + INCREMENT) % WORD
  }

  class Generator {
    var seed: int

    constructor ()
      ensures Valid() && seed == 1
    {
      seed := 1;
    }

    ghost predicate Valid()
      reads this
    {
      0 <= seed < WORD
    }

    method Rand() returns (r: int)
      requires Valid()
      modifies this
      ensures Valid() && seed == NextSeed(old(seed))
      ensures seed == (old(seed) * 1103515245 + 12345) % 0x1_0000_0000
      ensures 0 <= r < 32768 && r == Output(seed) && r == seed / 0x1_0000 % 0x8000
    {
      seed := (seed * MULTIPLIER + INCREMENT) % WORD;
      r := seed / 65536 % 32768;
    }

    method Srand(s: int)
      requires 0 <= s < WORD
      modifies this
      ensures Valid() && seed == s
    {
      seed := s;
    }
  }

  function Output(seed: int): int { seed / 65536 % 32768 }

  /** The seed after n calls. */
  ghost function SeedAfter(n: nat, seed: int): int {
    if n == 0 then seed else NextSeed(SeedAfter(n - 1, seed))
  }

  // ---------------------------------------------------------------- without wrapping

  /** The recurrence over the integers: the real seed is this value modulo 2^32. */
  ghost function Iterate(n: nat, x: int): int {
    if n == 0 then x else Iterate(n - 1, x) * MULTIPLIER + INCREMENT
  }

  ghost function Power(n: nat): int {
    if n == 0 then 1 else Power(n - 1) * MULTIPLIER
  }

  ghost function Pow2(k: nat): int
    ensures Pow2(k) >= 1
  {
    if k == 0 then 1 else 2 * Pow2(k - 1)
  }

  lemma ModStep(x: int, y: int)
    requires y == x % WORD
    ensures NextSeed(y) == (x * MULTIPLIER + INCREMENT) % WORD
  {
  }

  lemma {:induction false} SeedIsIterate(n: nat, seed: int)
    requires 0 <= seed < WORD
    ensures SeedAfter(n, seed) == Iterate(n, seed) % WORD
  {
    if n > 0 {
      SeedIsIterate(n - 1, seed);
      ModStep(Iterate(n - 1, seed), SeedAfter(n - 1, seed));
    }
  }

  lemma {:induction false} IterateTwice(m: nat, n: nat, x: int)
    ensures Iterate(m + n, x) == Iterate(m, Iterate(n, x))
    ensures Power(m + n) == Power(m) * Power(n)
  {
    if m > 0 {
      IterateTwice(m - 1, n, x);
      assert m + n - 1 == m - 1 + n;
      assert Power(m - 1) * Power(n) * MULTIPLIER == Power(m - 1) * MULTIPLIER * Power(n);
    }
  }

  lemma {:induction false} IterateIsAffine(n: nat, x: int)
    ensures Iterate(n, x) == Power(n) * x + Iterate(n, 0)
  {
    if n > 0 {
      IterateIsAffine(n - 1, x);
      assert (Power(n - 1) * x + Iterate(n - 1, 0)) * MULTIPLIER ==
             Power(n - 1) * MULTIPLIER * x + Iterate(n - 1, 0) * MULTIPLIER;
    }
  }

  // ---------------------------------------------------------------- blocks of 2^k steps

  /** 2^k steps multiply by 1 modulo 4 * 2^k and add an odd multiple of 2^k. */
  lemma {:induction false} BlockShape(k: nat) returns (t: int, u: int)
    ensures Power(Pow2(k)) == 1 + 4 * Pow2(k) * t
    ensures Iterate(Pow2(k), 0) == Pow2(k) * (2 * u + 1)
  {
    if k == 0 {
      t, u := 275878811, 6172;
      assert Power(1) == Power(0) * MULTIPLIER && Iterate(1, 0) == Iterate(0, 0) * MULTIPLIER + INCREMENT;
    } else {
      var p := Pow2(k - 1);
      var t0, u0 := BlockShape(k - 1);
      IterateTwice(p, p, 0);
      IterateIsAffine(p, Iterate(p, 0));
      t, u := t0 + 2 * p * t0 * t0, u0 + p * t0 * (2 * u0 + 1);
      Squares(p, t0, u0);
    }
  }

  lemma Squares(p: int, t: int, u: int)
    ensures (1 + 4 * p * t) * (1 + 4 * p * t) == 1 + 4 * (2 * p) * (t + 2 * p * t * t)
    ensures (1 + 4 * p * t) * (p * (2 * u + 1)) + p * (2 * u + 1) == 2 * p * (2 * (u + p * t * (2 * u + 1)) + 1)
  {
  }

  /** 2^k steps shift the state by 2^k modulo 2^(k+1). */
  lemma BlockShifts(k: nat, x: int) returns (q: int)
    ensures Iterate(Pow2(k), x) == x + Pow2(k) + 2 * Pow2(k) * q
  {
    var p := Pow2(k);
    var t, u := BlockShape(k);
    IterateIsAffine(p, x);
    q := 2 * t * x + u;
    assert (1 + 4 * p * t) * x + p * (2 * u + 1) == x + p + 2 * p * (2 * t * x + u);
  }

  lemma {:induction false} BlocksShift(k: nat, n: nat, s: nat, x: int) returns (q: int)
    ensures n + s * Pow2(k) >= 0
    ensures Iterate(n + s * Pow2(k), x) == Iterate(n, x) + s * Pow2(k) + 2 * Pow2(k) * q
    decreases s
  {
    var p := Pow2(k);
    if s == 0 {
      q := 0;
    } else {
      var q0 := BlocksShift(k, n, s - 1, x);
      var before := n + (s - 1) * p;
      assert before + p == n + s * p;
      IterateTwice(p, before, x);
      var q1 := BlockShifts(k, Iterate(before, x));
      q := q0 + q1;
      assert (s - 1) * p + p == s * p;
      assert 2 * p * q0 + 2 * p * q1 == 2 * p * (q0 + q1);
    }
  }

  // ---------------------------------------------------------------- the full period

  /** d is a multiple of 2^k. */
  ghost predicate Divides(k: nat, d: int) {
    k == 0 || (d % 2 == 0 && Divides(k - 1, d / 2))
  }

  lemma {:induction false} DividesTimes(k: nat, w: int)
    ensures Divides(k, Pow2(k) * w)
    ensures Divides(k + 1, Pow2(k) * w) <==> w % 2 == 0
  {
    if k > 0 {
      DividesTimes(k - 1, w);
      assert Pow2(k) * w == 2 * (Pow2(k - 1) * w);
      assert Pow2(k) * w / 2 == Pow2(k - 1) * w;
    } else {
      assert Pow2(0) * w == w;
    }
  }

  lemma {:induction false} Factor(k: nat, d: int) returns (w: int)
    requires Divides(k, d)
    ensures d == Pow2(k) * w
    ensures d >= 0 ==> w >= 0
  {
    if k == 0 {
      w := d;
    } else {
      w := Factor(k - 1, d / 2);
      assert Pow2(k) * w == 2 * (Pow2(k - 1) * w);
    }
  }

  lemma {:induction false} DividesLess(k: nat, d: int)
    requires Divides(k + 1, d)
    ensures Divides(k, d)
  {
    if k > 0 {
      DividesLess(k - 1, d / 2);
    }
  }

  lemma Distribute(p: int, a: int, b: int)
    ensures p * a + p * b == p * (a + b)
  {
  }

  lemma OddMultiple(p: int, s: int, q: int)
    ensures s * p + 2 * p * q == p * (s + 2 * q)
  {
  }

  lemma SameResidue(a: int, b: int)
    ensures (a - b) % WORD == 0 <==> a % WORD == b % WORD
  {
  }

  lemma {:induction false} DifferenceAfterBlocks(k: nat, n: nat, s: nat, x: int) returns (q: int)
    ensures n + s * Pow2(k) >= 0
    ensures Iterate(n + s * Pow2(k), x) - Iterate(n, x) == Pow2(k) * (s + 2 * q)
  {
    q := BlocksShift(k, n, s, x);
    OddMultiple(Pow2(k), s, q);
  }

  lemma SameParity(s: int, q: int)
    ensures (s + 2 * q) % 2 == s % 2
  {
  }

  /** Two calls see the same seed modulo 2^k exactly when their numbers agree modulo 2^k. */
  lemma {:induction false} SeedsAgreeIff(k: nat, n: nat, m: nat, x: int)
    requires n <= m
    ensures Divides(k, Iterate(m, x) - Iterate(n, x)) <==> Divides(k, m - n)
  {
    if k > 0 {
      var d := Iterate(m, x) - Iterate(n, x);
      SeedsAgreeIff(k - 1, n, m, x);
      if Divides(k, d) { DividesLess(k - 1, d); }
      if Divides(k, m - n) { DividesLess(k - 1, m - n); }
      if Divides(k - 1, m - n) {
        SeedsAgreeAtBlock(k - 1, n, m, x);
      }
    }
  }

  lemma SeedsAgreeAtBlock(k: nat, n: nat, m: nat, x: int)
    requires n <= m && Divides(k, m - n)
    ensures Divides(k + 1, Iterate(m, x) - Iterate(n, x)) <==> Divides(k + 1, m - n)
  {
    var s := Factor(k, m - n);
    assert n + s * Pow2(k) == m;
    var q := DifferenceAfterBlocks(k, n, s, x);
    SameParity(s, q);
    DividesTimes(k, s);
    DividesTimes(k, s + 2 * q);
  }

  /** Every value modulo 2^k turns up within 2^k calls. */
  lemma {:induction false} EveryValueTurnsUp(k: nat, x: int, y: int) returns (n: nat)
    ensures n < Pow2(k) && Divides(k, Iterate(n, x) - y)
  {
    n := 0;
    if k > 0 {
      n := EveryValueTurnsUp(k - 1, x, y);
      var w := Factor(k - 1, Iterate(n, x) - y);
      DividesTimes(k - 1, w);
      if w % 2 != 0 {
        n := OneMoreBlock(k - 1, n, x, y, w);
      }
    }
  }

  lemma {:induction false} OneMoreBlock(k: nat, n: nat, x: int, y: int, w: int) returns (n': nat)
    requires Iterate(n, x) - y == Pow2(k) * w && w % 2 != 0
    ensures n' == n + Pow2(k) && Divides(k + 1, Iterate(n', x) - y)
  {
    n' := n + Pow2(k);
    var q := OddFactor(k, n, x);
    SumOfOdds(Pow2(k), w, q);
    DividesTimes(k, w + (1 + 2 * q));
  }

  lemma OddFactor(k: nat, n: nat, x: int) returns (q: int)
    ensures Iterate(n + Pow2(k), x) - Iterate(n, x) == Pow2(k) * (1 + 2 * q)
  {
    IterateTwice(Pow2(k), n, x);
    q := BlockShifts(k, Iterate(n, x));
    OddMultiple(Pow2(k), 1, q);
  }

  lemma SumOfOdds(p: int, w: int, q: int)
    requires w % 2 != 0
    ensures p * w + p * (1 + 2 * q) == p * (w + (1 + 2 * q)) && (w + (1 + 2 * q)) % 2 == 0
  {
    Distribute(p, w, 1 + 2 * q);
  }

  lemma Pow2Of32()
    ensures Pow2(32) == WORD
  {
    assert Pow2(8) == 256;
    assert Pow2(16) == 65536;
    assert Pow2(24) == 0x100_0000;
  }

  lemma Divides32(d: int)
    ensures Divides(32, d) <==> d % WORD == 0
  {
    Pow2Of32();
    if d % WORD == 0 {
      DividesTimes(32, d / WORD);
      assert Pow2(32) * (d / WORD) == d;
    }
    if Divides(32, d) {
      var w := Factor(32, d);
    }
  }

  /** From every seed, two calls leave the same seed exactly when their numbers agree
      modulo 2^32: the first 2^32 seeds are all different and then they repeat. */
  lemma {:induction false} SeedsRepeatIff(seed: int, n: nat, m: nat)
    requires 0 <= seed < WORD && n <= m
    ensures SeedAfter(n, seed) == SeedAfter(m, seed) <==> (m - n) % WORD == 0
  {
    SeedIsIterate(n, seed);
    SeedIsIterate(m, seed);
    SeedsAgreeIff(32, n, m, seed);
    Divides32(m - n);
    Divides32(Iterate(m, seed) - Iterate(n, seed));
    SameResidue(Iterate(m, seed), Iterate(n, seed));
  }

  /** From every seed, every 32-bit value is the seed after some number of calls below 2^32. */
  lemma {:induction false} EverySeedIsVisited(seed: int, y: int) returns (n: nat)
    requires 0 <= seed < WORD && 0 <= y < WORD
    ensures n < WORD && SeedAfter(n, seed) == y
  {
    Pow2Of32();
    n := EveryValueTurnsUp(32, seed, y);
    SeedIsIterate(n, seed);
    Divides32(Iterate(n, seed) - y);
    SameResidue(Iterate(n, seed), y);
  }

  /** So `rand` returns each of its 32768 values from every seed. */
  lemma {:induction false} EveryOutputIsReturned(seed: int, r: int) returns (n: nat)
    requires 0 <= seed < WORD && 0 <= r < 32768
    ensures n < WORD && Output(SeedAfter(n, seed)) == r && SeedAfter(n, seed) / 0x1_0000 == r
  {
    n := EverySeedIsVisited(seed, r * 65536);
  }

  /** The first outputs from seed 1. */
  lemma FirstOutputs()
    ensures Output(SeedAfter(1, 1)) == 16838 && Output(SeedAfter(2, 1)) == 5758 && Output(SeedAfter(3, 1)) == 10113
  {
    assert SeedAfter(0, 1) == 1;
    assert SeedAfter(1, 1) == 1103527590;
    assert SeedAfter(2, 1) == 2524885223;
    assert SeedAfter(3, 1) == 662824084;
  }

  // ---------------------------------------------------------------- the period of the outputs

  lemma Divides31(d: int)
    ensures Divides(31, d) <==> d % 0x8000_0000 == 0
  {
    Pow2Of32();
    assert Pow2(32) == 2 * Pow2(31);
    if d % 0x8000_0000 == 0 {
      DividesTimes(31, d / 0x8000_0000);
      assert Pow2(31) * (d / 0x8000_0000) == d;
    }
    if Divides(31, d) {
      var w := Factor(31, d);
    }
  }

  /** A multiple of 2^30 that is none of 2^31. */
  lemma OddMultipleOf30(d: int)
    requires Divides(30, d) && !Divides(31, d)
    ensures d % 0x8000_0000 == 0x4000_0000
  {
    Pow2Of32();
    assert Pow2(32) == 2 * Pow2(31) && Pow2(31) == 2 * Pow2(30);
    var w := Factor(30, d);
    DividesTimes(30, w);
  }

  lemma LowPart(a: int)
    ensures a % WORD % 0x8000_0000 == a % 0x8000_0000
  {
    var q, r := a / WORD, a % WORD;
    assert a == 0x8000_0000 * (2 * q) + r;
  }

  lemma OutputOf(h: int, l: int)
    requires 0 <= l < 0x8000_0000
    ensures Output(h * 0x8000_0000 + l) == l / 65536
  {
    assert (h * 0x8000_0000 + l) / 65536 == h * 32768 + l / 65536;
  }

  /** The output is bits 16 to 30 of the seed. */
  lemma OutputBits(a: int)
    ensures Output(a % WORD) == a % 0x8000_0000 / 65536
  {
    var r := a % WORD;
    LowPart(a);
    OutputOf(r / 0x8000_0000, r % 0x8000_0000);
  }

  /** Two numbers that differ by 2^30 modulo 2^31. */
  lemma Halfway(a: int, b: int)
    requires (a - b) % 0x8000_0000 == 0x4000_0000
    ensures var x, y := a % 0x8000_0000, b % 0x8000_0000; x == y + 0x4000_0000 || x == y - 0x4000_0000
  {
  }

  lemma Equal31(a: int, b: int)
    requires (a - b) % 0x8000_0000 == 0
    ensures a % 0x8000_0000 == b % 0x8000_0000
  {
  }

  lemma OutputsAgree(a: int, b: int)
    ensures (a - b) % 0x8000_0000 == 0 ==> Output(a % WORD) == Output(b % WORD)
    ensures (a - b) % 0x8000_0000 == 0x4000_0000 ==> Output(a % WORD) != Output(b % WORD)
  {
    OutputBits(a);
    OutputBits(b);
    if (a - b) % 0x8000_0000 == 0 { Equal31(a, b); }
    if (a - b) % 0x8000_0000 == 0x4000_0000 { Halfway(a, b); }
  }

  /** The outputs repeat with period d. */
  ghost predicate Period(seed: int, d: nat) {
    forall n: nat :: Output(SeedAfter(n + d, seed)) == Output(SeedAfter(n, seed))
  }

  lemma PeriodDoubles(seed: int, d: nat)
    requires Period(seed, d)
    ensures Period(seed, 2 * d)
  {
    forall n: nat ensures Output(SeedAfter(n + 2 * d, seed)) == Output(SeedAfter(n, seed)) {
      assert n + 2 * d == n + d + d;
      assert Output(SeedAfter(n + d + d, seed)) == Output(SeedAfter(n + d, seed));
    }
  }

  lemma OutputFlips(seed: int, d: nat)
    requires 0 <= seed < WORD && Divides(30, d) && !Divides(31, d)
    ensures Output(SeedAfter(d, seed)) != Output(SeedAfter(0, seed))
  {
    SeedsAgreeIff(30, 0, d, seed);
    SeedsAgreeIff(31, 0, d, seed);
    OddMultipleOf30(Iterate(d, seed) - Iterate(0, seed));
    SeedIsIterate(d, seed);
    SeedIsIterate(0, seed);
    OutputsAgree(Iterate(d, seed), Iterate(0, seed));
  }

  lemma {:induction false} NoShorterPeriod(seed: int, d: nat, k: nat)
    requires 0 <= seed < WORD && k <= 30 && Divides(k, d) && !Divides(31, d)
    ensures !Period(seed, d)
    decreases 30 - k
  {
    if Divides(30, d) {
      OutputFlips(seed, d);
      assert 0 + d == d;
    } else if Period(seed, d) {
      PeriodDoubles(seed, d);
      assert 2 * d / 2 == d;
      NoShorterPeriod(seed, 2 * d, k + 1);
    }
  }

  /** From every seed the outputs have period 2^31 exactly: half the period of the seeds, and far
      longer than the 2^15 values there are. */
  lemma OutputsRepeatIff(seed: int, d: nat)
    requires 0 <= seed < WORD
    ensures Period(seed, d) <==> d % 0x8000_0000 == 0
  {
    Divides31(d);
    if Divides(31, d) {
      forall n: nat ensures Output(SeedAfter(n + d, seed)) == Output(SeedAfter(n, seed)) {
        SeedsAgreeIff(31, n, n + d, seed);
        Divides31(Iterate(n + d, seed) - Iterate(n, seed));
        SeedIsIterate(n, seed);
        SeedIsIterate(n + d, seed);
        OutputsAgree(Iterate(n + d, seed), Iterate(n, seed));
      }
    } else {
      NoShorterPeriod(seed, d, 0);
    }
  }
}
