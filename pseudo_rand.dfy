/** The linear congruential generator of regular/src/rand.rs: the state is
    multiplied by 1103515245 and incremented by 12345, both wrapping at
    2^64, and the new state is the output. */
module PseudoRandom {
  import opened Base

  const MULTIPLIER: nat := 1103515245
  const INCREMENT: nat := 12345

  /** `s.wrapping_mul(1103515245).wrapping_add(12345)`. */
  function Next(s: u64): u64
  {
    ((s * MULTIPLIER) % U64_LIMIT + INCREMENT) % U64_LIMIT
  }

  class PseudoRand {
    var s: u64

    /** PseudoRand::new. */
    constructor (seed: u64)
      ensures s == seed
    {
      s := seed;
    }

    /** PseudoRand::rand: advance the state and return it. */
    method Rand() returns (x: u64)
      modifies this
      ensures x == Next(old(s)) && s == x
    {
      x := ((s * MULTIPLIER) % U64_LIMIT + INCREMENT) % U64_LIMIT;
      s := x;
    }
  }

  /** The first k outputs of a generator seeded with `seed`. */
  function Outputs(seed: u64, k: nat): (r: seq<u64>)
    ensures |r| == k
    ensures k > 0 ==> r[0] == Next(seed)
    decreases k
  {
    if k == 0 then [] else [Next(seed)] + Outputs(Next(seed), k - 1)
  }

  /** Each output is the generator step applied to the one before. */
  lemma {:induction false} OutputsChain(seed: u64, k: nat, i: nat)
    requires 0 < i < k
    ensures Outputs(seed, k)[i] == Next(Outputs(seed, k)[i - 1])
    decreases k
  {
    if i > 1 {
      OutputsChain(Next(seed), k - 1, i - 1);
    }
  }

  function Pow2(k: nat): (r: nat)
    ensures r > 0
  {
    if k == 0 then 1 else 2 * Pow2(k - 1)
  }

  lemma {:induction false} Pow2Divides(k: nat)
    requires k <= 64
    ensures Pow2(k) * Pow2(64 - k) == U64_LIMIT
  {
    Pow2Add(k, 64 - k);
    Pow2Of64();
  }

  lemma {:induction false} Pow2Add(a: nat, b: nat)
    ensures Pow2(a + b) == Pow2(a) * Pow2(b)
    decreases a
  {
    if a > 0 {
      Pow2Add(a - 1, b);
    }
  }

  lemma Pow2Of64()
    ensures Pow2(64) == U64_LIMIT
  {
    Pow2Of8();
    Pow2Add(8, 8);
    assert Pow2(16) == 0x1_0000;
    Pow2Add(16, 16);
    assert Pow2(32) == 0x1_0000_0000;
    Pow2Add(32, 32);
  }

  lemma Pow2Of8()
    ensures Pow2(8) == 256
  {
    assert Pow2(2) == 4;
    assert Pow2(4) == 16;
    assert Pow2(6) == 64;
  }

  /** An affine map modulo m depends only on its argument modulo m. */
  lemma AffineMod(s: int, a: int, c: int, m: nat)
    requires m > 0
    ensures (s * a + c) % m == ((s % m) * a + c) % m
  {
    var q, r := s / m, s % m;
    assert s == q * m + r;
    assert s * a == (q * m) * a + r * a;
    assert (q * m) * a == (q * a) * m;
    ModAddMultiple(r * a + c, q * a, m);
  }

  /** The low k bits of the next state depend only on the low k bits of the
      current one: the low bits of this generator cycle with period at most
      2^k whatever the seed. */
  lemma LowBitsDependOnLowBits(s: u64, t: u64, k: nat)
    requires k <= 64 && s % Pow2(k) == t % Pow2(k)
    ensures Next(s) % Pow2(k) == Next(t) % Pow2(k)
  {
    LowBits(s, k);
    LowBits(t, k);
    AffineMod(s, MULTIPLIER, INCREMENT, Pow2(k));
    AffineMod(t, MULTIPLIER, INCREMENT, Pow2(k));
  }

  /** Next(s) modulo 2^k is (s * 1103515245 + 12345) modulo 2^k. */
  lemma LowBits(s: u64, k: nat)
    requires k <= 64
    ensures Next(s) % Pow2(k) == (s * MULTIPLIER + INCREMENT) % Pow2(k)
  {
    var m, t := Pow2(k), Pow2(64 - k);
    Pow2Divides(k);
    var x := s * MULTIPLIER;
    var q := x / U64_LIMIT;
    var y := x % U64_LIMIT + INCREMENT;
    ModOfMod(y, m, t);
    SplitMultiple(x, q, m, t);
    ModAddMultiple(y, q * t, m);
  }

  /** x is its remainder modulo m * t plus a multiple of m. */
  lemma SplitMultiple(x: int, q: int, m: nat, t: nat)
    requires m * t == U64_LIMIT && q == x / U64_LIMIT
    ensures x % U64_LIMIT + INCREMENT + q * t * m == x + INCREMENT
  {
    assert x == q * U64_LIMIT + x % U64_LIMIT;
    assert q * U64_LIMIT == q * t * m;
  }

  /** The lowest bit alternates: odd and even outputs take turns. */
  lemma LowBitAlternates(s: u64)
    ensures Next(s) % 2 != s % 2
  {
    assert Pow2(1) == 2;
    LowBits(s, 1);
    AffineMod(s, MULTIPLIER, INCREMENT, 2);
    if s % 2 == 0 {
      assert (0 * MULTIPLIER + INCREMENT) % 2 == 1;
    } else {
      assert (1 * MULTIPLIER + INCREMENT) % 2 == 0;
    }
  }
}
