/** The minimal standard generator (util/random.h): multiplication by 16807 modulo 2^31 - 1,
    without a division. */
module Randoms {
  import Coding

  const M: nat := 2147483647
  const A: nat := 16807
  const TWO31: nat := 2147483648

  /** The inverse of A modulo M. */
  const A_INVERSE: nat := 1407677000

  /** A seed that is neither 0 nor M modulo M. */
  predicate Good(seed: nat) {
    1 <= seed < M
  }

  /** The specification of one step. */
  function Successor(seed: nat): nat {
    seed * A % M
  }

  /** A number less than 2^31 above the bits from 31 on: what it is modulo M. */
  lemma {:induction false} Fold(product: nat)
    ensures (product / TWO31 + product % TWO31) % M == product % M
  {
    var hi, lo := product / TWO31, product % TWO31;
    assert product == (hi + lo) + hi * M;
    AddMultiple(hi + lo, hi);
  }

  lemma {:induction false} AddMultiple(x: nat, k: nat)
    ensures (x + k * M) % M == x % M
  {
    if k > 0 {
      assert x + k * M == (x + (k - 1) * M) + M;
      AddMultiple(x, k - 1);
    }
  }

  /** A times a good seed is no multiple of M, since A has an inverse. */
  lemma {:induction false} NotMultiple(seed: nat)
    requires Good(seed)
    ensures Good(Successor(seed))
  {
    if Successor(seed) == 0 {
      var q := seed * A / M;
      assert seed * A == q * M;
      InverseStep(seed);
      AddMultiple(0, q * A_INVERSE);
      assert seed * A * A_INVERSE == (q * M) * A_INVERSE == 0 + (q * A_INVERSE) * M;
    }
  }

  lemma {:induction false} InverseStep(seed: nat)
    requires Good(seed)
    ensures seed * A * A_INVERSE % M == seed
  {
    assert A * A_INVERSE == 1 + 11017 * M;
    assert seed * A * A_INVERSE == seed * (A * A_INVERSE) == seed + (seed * 11017) * M;
    AddMultiple(seed, seed * 11017);
  }

  /** Every good seed comes from exactly one: a step can be undone. */
  lemma {:induction false} StepInverse(seed: nat)
    requires Good(seed)
    ensures Successor(seed) * A_INVERSE % M == seed
  {
    var q := seed * A / M;
    assert seed * A == Successor(seed) + q * M;
    assert seed * A * A_INVERSE == Successor(seed) * A_INVERSE + (q * A_INVERSE) * M;
    AddMultiple(Successor(seed) * A_INVERSE, q * A_INVERSE);
    InverseStep(seed);
  }

  lemma {:induction false} SuccessorInjective(s: nat, t: nat)
    requires Good(s) && Good(t) && Successor(s) == Successor(t)
    ensures s == t
  {
    StepInverse(s);
    StepInverse(t);
  }

  function Power(n: nat): nat {
    if n == 0 then 1 else A * Power(n - 1)
  }

  function Iterated(seed: nat, n: nat): nat {
    if n == 0 then seed else Successor(Iterated(seed, n - 1))
  }

  /** After n calls the seed is still good, and is A^n times the first one modulo M. */
  lemma {:induction false} AfterCalls(seed: nat, n: nat)
    requires Good(seed)
    ensures Good(Iterated(seed, n)) && Iterated(seed, n) == seed * Power(n) % M
  {
    if n > 0 {
      AfterCalls(seed, n - 1);
      NotMultiple(Iterated(seed, n - 1));
      var x := seed * Power(n - 1);
      TimesA(x);
      assert seed * (A * Power(n - 1)) == x * A;
    }
  }

  lemma {:induction false} TimesA(x: nat)
    ensures (x % M) * A % M == x * A % M
  {
    var r, q := x % M, x / M;
    assert x == r + q * M;
    assert x * A == r * A + (q * A) * M;
    AddMultiple(r * A, q * A);
  }

  /** The folded product is never M, so one subtraction brings it below M. */
  lemma {:induction false} FoldedRange(seed: nat)
    requires Good(seed)
    ensures var s := seed * A / TWO31 + seed * A % TWO31;
            1 <= s < 2 * M && s != M && Successor(seed) == if s > M then s - M else s
  {
    var product := seed * A;
    Fold(product);
    NotMultiple(seed);
  }

  class Random {
    var seed: nat

    predicate Valid()
      reads this
    {
      Good(seed)
    }

    constructor (s: nat)
      ensures Valid()
      ensures seed == if Good(s % TWO31) then s % TWO31 else 1
    {
      var low := s % TWO31;
      // Avoid bad seeds.
      seed := if low == 0 || low == M then 1 else low;
    }

    method Next() returns (r: nat)
      requires Valid()
      modifies this
      ensures Valid() && r == seed == Successor(old(seed))
    {
      NotMultiple(seed);
      FoldedRange(seed);
      var product := seed * A;
      // M is also the mask of the low 31 bits.
      seed := product / TWO31 + product % TWO31;
      if seed > M {
        seed := seed - M;
      }
      r := seed;
    }

    /** A number below n. */
    method Uniform(n: nat) returns (r: nat)
      requires Valid() && n > 0
      modifies this
      ensures Valid() && seed == Successor(old(seed)) && r == seed % n < n
    {
      r := Next();
      r := r % n;
    }

    /** A number below 2^maxLog, from two steps. */
    method Skewed(maxLog: nat) returns (r: nat)
      requires Valid() && maxLog < 31
      modifies this
      ensures Valid() && seed == Iterated(old(seed), 2)
      ensures r < Coding.Pow2(maxLog)
      ensures r == seed % Coding.Pow2(Successor(old(seed)) % (maxLog + 1))
    {
      assert Iterated(seed, 2) == Successor(Iterated(seed, 1)) && Iterated(seed, 1) == Successor(Iterated(seed, 0));
      var base := Uniform(maxLog + 1);
      Pow2Grows(base, maxLog);
      r := Uniform(Coding.Pow2(base));
    }
  }

  lemma {:induction false} Pow2Grows(m: nat, n: nat)
    requires m <= n
    ensures Coding.Pow2(m) <= Coding.Pow2(n)
  {
    if m < n {
      Pow2Grows(m, n - 1);
    }
  }
}
