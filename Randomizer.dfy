// The engine's pseudo random number generator (os::Randomizer in
// irrlicht/os.cpp): a Park-Miller style multiplicative generator modulo the
// prime m = 2147483399, stepped with Schrage's method so that no
// intermediate value leaves the range of a signed 32-bit integer.
//
// The source keeps the seed in a static field; here it is the field of a
// Generator object.  The seed never becomes negative, so C's truncating
// `/` and `%` agree with Dafny's on every value the generator sees.
module Randomizer {

  const M: int := 2147483399
  const A: int := 40692
  const Q: int := 52774
  const R: int := 3791

  /** The seed both the static initialiser and `reset` install. */
  const InitialSeed: int := 0x0f0f0f0f

  /** The largest value of a signed 32-bit integer. */
  const S32Max: int := 0x7fff_ffff

  /** Schrage's precondition: m = a·q + r with r < q, and all constants fit s32. */
  lemma ConstantsAreSchrage()
    ensures M == A * Q + R && 0 <= R < Q
    ensures 0 < A && 0 < M <= S32Max
    ensures Q == M / A && R == M % A
  {
  }

  /** The initial seed is a valid state of the generator. */
  lemma InitialSeedInRange()
    ensures 0 <= InitialSeed < M
  {
  }

  /** The two products `rand` forms, before subtracting. */
  function HighPart(seed: int): (h: int)
    requires 0 <= seed < M
    ensures 0 <= h <= A * (Q - 1)
  {
    A * (seed % Q)
  }

  function LowPart(seed: int): (l: int)
    requires 0 <= seed < M
    ensures 0 <= l <= seed
  {
    LowPartBound(seed);
    R * (seed / Q)
  }

  lemma LowPartBound(seed: int)
    requires 0 <= seed
    ensures R * (seed / Q) <= seed
  {
    var k := seed / Q;
    assert seed == Q * k + seed % Q;
    assert R * k <= Q * k;
  }

  /** One step of `rand`: a·(seed mod q) − r·(seed div q), plus m when negative. */
  function Step(seed: int): (next: int)
    requires 0 <= seed < M
    ensures 0 <= next < M
  {
    var t := HighPart(seed) - LowPart(seed);
    if t < 0 then t + M else t
  }

  /** Neither intermediate product nor their difference leaves the s32 range. */
  lemma NoOverflow(seed: int)
    requires 0 <= seed < M
    ensures HighPart(seed) <= S32Max && LowPart(seed) <= S32Max
    ensures -S32Max <= HighPart(seed) - LowPart(seed) <= S32Max
    ensures 0 <= Step(seed) <= S32Max
  {
  }

  /** The Schrage step is exactly multiplication by a modulo m. */
  lemma {:induction false} StepIsMultiplication(seed: int)
    requires 0 <= seed < M
    ensures Step(seed) == (A * seed) % M
  {
    var k := seed / Q;
    var t := HighPart(seed) - LowPart(seed);
    calc {
      A * seed;
      A * (Q * k + seed % Q);
      A * Q * k + A * (seed % Q);
      (M - R) * k + A * (seed % Q);
      M * k + t;
    }
    if t < 0 {
      ModOfMultiple(A * seed, k - 1, t + M);
    } else {
      ModOfMultiple(A * seed, k, t);
    }
  }

  /** If y = m·k + x with 0 <= x < m then y mod m = x. */
  lemma ModOfMultiple(y: int, k: int, x: int)
    requires 0 <= x < M && y == M * k + x
    ensures y % M == x
  {
    var d := y / M;
    assert y == M * d + y % M;
    assert M * (d - k) == x - y % M;
  }

  /** The n-th value the generator returns after `reset`. */
  function AfterReset(n: nat): (s: int)
    ensures 0 <= s < M
  {
    if n == 0 then InitialSeed else Step(AfterReset(n - 1))
  }

  lemma {:induction false} AfterResetIsPower(n: nat)
    ensures AfterReset(n) == (Power(A, n) * InitialSeed) % M
  {
    if n > 0 {
      AfterResetIsPower(n - 1);
      StepIsMultiplication(AfterReset(n - 1));
      MulMod(A, Power(A, n - 1) * InitialSeed);
      assert A * (Power(A, n - 1) * InitialSeed) == Power(A, n) * InitialSeed;
    }
  }

  function Power(b: int, n: nat): int
  {
    if n == 0 then 1 else b * Power(b, n - 1)
  }

  /** (a · (x mod m)) mod m = (a · x) mod m. */
  lemma MulMod(a: int, x: int)
    ensures (a * (x % M)) % M == (a * x) % M
  {
    var k := x / M;
    assert x == M * k + x % M;
    assert a * x == M * (a * k) + a * (x % M);
    var y := a * (x % M);
    assert y == M * (y / M) + y % M;
    ModOfMultiple(a * x, a * k + y / M, y % M);
  }

  /** The generator object; `seed` is the static field of the source. */
  class Generator {
    var seed: int

    ghost predicate Valid()
      reads this
    {
      0 <= seed < M
    }

    constructor ()
      ensures Valid() && seed == InitialSeed
    {
      seed := InitialSeed;
    }

    /** rand: advances the seed by one Schrage step and returns it. */
    method Rand() returns (r: int)
      requires Valid()
      modifies this
      ensures Valid()
      ensures seed == Step(old(seed)) && r == seed
      ensures r == (A * old(seed)) % M
    {
      var t := A * (seed % Q) - R * (seed / Q);
      if t < 0 {
        t := t + M;
      }
      seed := t;
      StepIsMultiplication(old(seed));
      return seed;
    }

    /** reset: reinstalls the initial seed. */
    method Reset()
      modifies this
      ensures Valid() && seed == InitialSeed
    {
      seed := InitialSeed;
    }
  }
}
