/**
 * Rounding helpers of the wage engine: ceiling of hours, ceiling to the won,
 * and ceiling to the next multiple of 10 won. All rounding is upward.
 */
module Rounding {

  /** `math.ceil`: the least integer not below x. */
  function Ceil(x: real): (r: int)
    ensures x <= r as real
    ensures (r - 1) as real < x
  {
    -((-x).Floor)
  }

  /** Ceiling is monotone. */
  lemma CeilMonotone(x: real, y: real)
    requires x <= y
    ensures Ceil(x) <= Ceil(y)
  {
  }

  /** `ceil_if`: the monthly hour amount rounded up to a whole hour when the flag is on. */
  function CeilIf(x: real, flag: bool): (r: real)
    ensures !flag ==> r == x
    ensures flag ==> x <= r < x + 1.0 && r == r.Floor as real
    ensures x == 0.0 ==> r == 0.0
    ensures 0.0 < x ==> 0.0 < r
  {
    if flag then Ceil(x) as real else x
  }

  /** Rounding up to a whole hour never passes a whole-number bound. */
  lemma CeilIfAtMost(x: real, n: int, flag: bool)
    requires x <= n as real
    ensures CeilIf(x, flag) <= n as real
  {
    if flag {
      CeilMonotone(x, n as real);
      CeilOfWhole(n);
    }
  }

  /** A whole number is its own ceiling. */
  lemma CeilOfWhole(n: int)
    ensures Ceil(n as real) == n
  {
  }

  /**
   * `won_ceil`: the least whole won amount not below x. The source subtracts
   * 1e-12 first to absorb binary floating-point error; on exact reals that
   * correction is not needed.
   */
  function WonCeil(x: real): (r: int)
    ensures x <= r as real < x + 1.0
  {
    Ceil(x)
  }

  /** `ceil_ones`: the least multiple of 10 not below n (ceil(n / 10) * 10). */
  function CeilOnes(n: int): (r: int)
    ensures r % 10 == 0
    ensures n <= r < n + 10
  {
    Ceil(n as real / 10.0) * 10
  }

  /** A multiple of 10 is left unchanged, so rounding to 10 won twice changes nothing. */
  lemma CeilOnesIdempotent(n: int)
    ensures CeilOnes(CeilOnes(n)) == CeilOnes(n)
  {
  }

  /** A multiple of 10 is a fixed point of CeilOnes. */
  lemma CeilOnesFixesMultiples(k: int)
    ensures CeilOnes(10 * k) == 10 * k
  {
  }

  /**
   * A pay component as the source finalizes it: rounded up to the won, then,
   * when the component's 10-won option is on, up to the next 10 won. The result
   * is the least admissible amount not below x.
   */
  function Finalize(x: real, tens: bool): (r: int)
    ensures x <= r as real
    ensures r as real < x + (if tens then 10.0 else 1.0)
    ensures tens ==> r % 10 == 0
  {
    var c := WonCeil(x);
    if tens then CeilOnes(c) else c
  }

  /** Finalizing is monotone in the amount. */
  lemma FinalizeMonotone(x: real, y: real, tens: bool)
    requires x <= y
    ensures Finalize(x, tens) <= Finalize(y, tens)
  {
  }

  /** Zero stays zero. */
  lemma FinalizeZero(tens: bool)
    ensures Finalize(0.0, tens) == 0
  {
  }
}
