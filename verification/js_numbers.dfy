/** The part of JavaScript's number semantics the entity decoder relies on:
    `Number(text)` rounds the exact value the text denotes to the nearest IEEE
    754 double (binary64, round half to even, `Infinity` once the rounded value
    reaches 2^1024), and `String.fromCharCode` applies `ToUint16` to it
    (truncation toward zero, then modulo 2^16; `Infinity` gives 0).

    Only non-negative values occur here, so a double is a mantissa and a binary
    exponent: `Finite(m, e)` has the value m * 2^e. */
module JsNumbers {
  /** 2^52 and 2^53: a normal double's mantissa lies between them. */
  const TwoTo52: nat := 0x10_0000_0000_0000
  const TwoTo53: nat := 0x20_0000_0000_0000

  /** The largest exponent a finite double's 53-bit mantissa can carry
      (2^53 * 2^971 is 2^1024), and the scale of the smallest subnormal
      (2^-1074). */
  const MaxExponent: nat := 971
  const MinExponent: nat := 1074

  /** `x * 10^k`, by repeated multiplication by ten. */
  function Times10Pow(x: nat, k: nat): (r: nat)
    ensures x <= r
  {
    if k == 0 then x else 10 * Times10Pow(x, k - 1)
  }

  lemma {:induction false} Times10PowSum(x: nat, y: nat, k: nat)
    ensures Times10Pow(x + y, k) == Times10Pow(x, k) + Times10Pow(y, k)
  {
    if k > 0 {
      Times10PowSum(x, y, k - 1);
    }
  }

  lemma {:induction false} Times10PowAdd(x: nat, i: nat, j: nat)
    ensures Times10Pow(x, i + j) == Times10Pow(Times10Pow(x, i), j)
    decreases j
  {
    if j > 0 {
      Times10PowAdd(x, i, j - 1);
    }
  }

  /** Multiplying by ten `k` times is scaling by 10^k. */
  lemma {:induction false} Times10PowScales(x: nat, k: nat)
    ensures Times10Pow(x, k) == x * Times10Pow(1, k)
  {
    if k > 0 {
      Times10PowScales(x, k - 1);
    }
  }

  /** `x * 2^k`, by doubling. */
  function Times2Pow(x: nat, k: nat): (r: nat)
    ensures x <= r
  {
    if k == 0 then x else 2 * Times2Pow(x, k - 1)
  }

  /** `x / 2^k` rounded down, by halving. */
  function Halve(x: nat, k: nat): nat {
    if k == 0 then x else Halve(x / 2, k - 1)
  }

  lemma {:induction false} Times2PowShift(x: nat, k: nat)
    ensures Times2Pow(2 * x, k) == Times2Pow(x, k + 1)
  {
    if k > 0 {
      Times2PowShift(x, k - 1);
    }
  }

  lemma {:induction false} Times2PowMonotone(x: nat, i: nat, j: nat)
    requires i <= j
    ensures Times2Pow(x, i) <= Times2Pow(x, j)
    decreases j
  {
    if i < j {
      Times2PowMonotone(x, i, j - 1);
    }
  }

  /** Halving undoes doubling. */
  lemma {:induction false} HalveTimes2Pow(x: nat, k: nat)
    ensures Halve(Times2Pow(x, k), k) == x
  {
    if k > 0 {
      Times2PowShift(x, k - 1);
      assert Times2Pow(x, k) / 2 == Times2Pow(x, k - 1);
      HalveTimes2Pow(x, k - 1);
    }
  }

  /** A non-negative double. */
  datatype Double = Finite(mantissa: nat, exponent: int) | Infinity

  function Abs(x: int): nat {
    if x < 0 then -x else x
  }

  /** `m` is within one half of `n / d`. */
  predicate WithinHalf(m: nat, d: nat, n: nat) {
    2 * Abs(m * d - n) <= d
  }

  /** The integer nearest to `n / d`, halves going to the even neighbour. */
  function RoundHalfEven(n: nat, d: nat): (m: nat)
    requires d > 0
    ensures WithinHalf(m, d, n)
    ensures 2 * Abs(m * d - n) == d ==> m % 2 == 0
  {
    var q, r := n / d, n % d;
    assert n == q * d + r;
    assert (q + 1) * d == q * d + d;
    if 2 * r < d then q
    else if 2 * r > d then q + 1
    else if q % 2 == 0 then q
    else q + 1
  }

  /** A value after `steps` doublings. */
  datatype Scaled = Scaled(value: nat, steps: nat)

  /** Doubling the numerator `n` (counting from `steps`) until it reaches
      `bound`, but not past the subnormal scale `MinExponent`. With `bound`
      = 2^52 * b this scales `n / b` into the mantissa range. */
  function ScaleDown(n: nat, bound: nat, steps: nat): (r: Scaled)
    ensures steps <= r.steps
    ensures r.steps < MinExponent ==> r.value >= bound
    ensures steps < r.steps ==> r.value < 2 * bound
    ensures steps <= MinExponent ==> r.steps <= MinExponent
    ensures r.value == Times2Pow(n, r.steps - steps)
    decreases MinExponent - steps
  {
    if steps >= MinExponent || n >= bound then Scaled(n, steps)
    else
      var r := ScaleDown(2 * n, bound, steps + 1);
      Times2PowShift(n, r.steps - (steps + 1));
      r
  }

  /** Doubling the denominator `d` (counting from `steps`) until `a / d`
      drops below 2^53, or up to one past `MaxExponent`. */
  function ScaleUp(a: nat, d: nat, steps: nat): (r: Scaled)
    ensures steps <= r.steps
    ensures r.steps <= MaxExponent ==> a < TwoTo53 * r.value
    ensures steps < r.steps ==> 2 * a >= TwoTo53 * r.value
    ensures steps <= MaxExponent + 1 ==> r.steps <= MaxExponent + 1
    ensures r.value == Times2Pow(d, r.steps - steps)
    decreases MaxExponent + 1 - steps
  {
    if steps > MaxExponent || a < TwoTo53 * d then Scaled(d, steps)
    else
      var r := ScaleUp(a, 2 * d, steps + 1);
      Times2PowShift(d, r.steps - (steps + 1));
      r
  }

  /** `ScaleDown` stops at the first number of doublings that reaches the
      bound. */
  lemma {:induction false} ScaleDownAt(n: nat, bound: nat, steps: nat, k: nat)
    requires steps + k <= MinExponent
    requires Times2Pow(n, k) >= bound
    requires k > 0 ==> Times2Pow(n, k - 1) < bound
    ensures ScaleDown(n, bound, steps) == Scaled(Times2Pow(n, k), steps + k)
    decreases k
  {
    if k > 0 {
      Times2PowShift(n, k - 1);
      if k > 1 {
        Times2PowShift(n, k - 2);
      }
      ScaleDownAt(2 * n, bound, steps + 1, k - 1);
    }
  }

  /** With a mantissa between 2^52 and 2^53, `m * 2^e` reaches 2^1024 exactly
      when the exponent is past `MaxExponent`, or at it with the mantissa
      rounded up to 2^53. */
  predicate Overflows(m: nat, e: nat) {
    e > MaxExponent || (e == MaxExponent && m >= TwoTo53)
  }

  /** Rounding a value below 2^53: the numerator is doubled `s` times into
      the mantissa range and rounded; the exponent is `-s`. The result is
      within half a unit in the last place of `a / b`. */
  function RoundBelow(a: nat, b: nat): (d: Double)
    requires b > 0
    ensures d.Finite? && d.exponent <= 0
    ensures WithinHalf(d.mantissa, b, Times2Pow(a, -d.exponent))
  {
    var r := ScaleDown(a, TwoTo52 * b, 0);
    Finite(RoundHalfEven(r.value, b), -(r.steps as int))
  }

  /** Rounding a value of 2^53 or more: the denominator is doubled `e` times
      and the quotient rounded; `Infinity` when that overflows. A finite
      result is within half a unit in the last place of `a / b`. */
  function RoundAbove(a: nat, b: nat): (d: Double)
    requires b > 0
    ensures d.Finite? ==> d.exponent >= 0 && WithinHalf(d.mantissa, Times2Pow(b, d.exponent), a)
  {
    var r := ScaleUp(a, b, 0);
    var m := RoundHalfEven(a, r.value);
    if Overflows(m, r.steps) then Infinity else Finite(m, r.steps)
  }

  /** `Number`'s rounding of the exact value `a / b`. */
  function NearestDouble(a: nat, b: nat): (d: Double)
    requires b > 0
    ensures a < TwoTo53 * b ==> d.Finite? && d.exponent <= 0
    ensures d.Finite? && d.exponent <= 0 ==> WithinHalf(d.mantissa, b, Times2Pow(a, -d.exponent))
    ensures d.Finite? && d.exponent >= 0 ==> WithinHalf(d.mantissa, Times2Pow(b, d.exponent), a)
  {
    if a < TwoTo53 * b then RoundBelow(a, b) else RoundAbove(a, b)
  }

  /** The integer part of a finite double. */
  function Floor(d: Double): nat
    requires d.Finite?
  {
    if d.exponent >= 0 then Times2Pow(d.mantissa, d.exponent)
    else Halve(d.mantissa, -d.exponent)
  }

  /** `ToUint16`: truncation, then modulo 2^16; `Infinity` gives 0. */
  function ToUint16(d: Double): (u: nat)
    ensures u < 0x1_0000
    ensures d.Infinity? ==> u == 0
  {
    if d.Infinity? then 0 else Floor(d) % 0x1_0000
  }

  /** Dividing by one changes nothing. */
  lemma RoundHalfEvenByOne(n: nat)
    ensures RoundHalfEven(n, 1) == n
  {
    assert n / 1 == n && n % 1 == 0;
  }

  /** An integer below 2^53 is doubled into the mantissa range and halved
      back exactly. */
  lemma {:induction false} ExactBelow(n: nat)
    requires n < TwoTo53
    ensures NearestDouble(n, 1).Finite? && Floor(NearestDouble(n, 1)) == n
  {
    var r := ScaleDown(n, TwoTo52, 0);
    assert TwoTo52 * 1 == TwoTo52;
    RoundHalfEvenByOne(r.value);
    assert NearestDouble(n, 1) == Finite(r.value, -(r.steps as int));
    HalveTimes2Pow(n, r.steps);
  }

  /** 2^53 itself is the mantissa 2^52 with exponent 1. */
  lemma ExactTwoTo53()
    ensures NearestDouble(TwoTo53, 1) == Finite(TwoTo52, 1)
  {
    assert ScaleUp(TwoTo53, 2, 1) == Scaled(2, 1);
    assert ScaleUp(TwoTo53, 1, 0) == Scaled(2, 1);
    assert RoundHalfEven(TwoTo53, 2) == TwoTo52;
  }

  /** Every integer up to 2^53 is a double: `Number` reads it exactly. */
  lemma ExactInteger(n: nat)
    requires n <= TwoTo53
    ensures NearestDouble(n, 1).Finite? && Floor(NearestDouble(n, 1)) == n
    ensures ToUint16(NearestDouble(n, 1)) == n % 0x1_0000
  {
    if n < TwoTo53 {
      ExactBelow(n);
    } else {
      ExactTwoTo53();
    }
  }

  lemma {:induction false} Times2PowAdd(x: nat, i: nat, j: nat)
    ensures Times2Pow(x, i + j) == Times2Pow(Times2Pow(x, i), j)
    decreases j
  {
    if j > 0 {
      Times2PowAdd(x, i, j - 1);
    }
  }

  /** Doubling `x` is scaling `x` by the doubled one. */
  lemma {:induction false} Times2PowScales(x: nat, k: nat)
    ensures Times2Pow(x, k) == x * Times2Pow(1, k)
  {
    if k > 0 {
      Times2PowScales(x, k - 1);
    }
  }

  lemma TwoTo46()
    ensures Times2Pow(1, 46) == 0x4000_0000_0000
  {
    assert Times2Pow(1, 8) == 0x100;
    assert Times2Pow(0x100, 8) == 0x1_0000;
    assert Times2Pow(0x1_0000, 8) == 0x100_0000;
    assert Times2Pow(0x100_0000, 8) == 0x1_0000_0000;
    assert Times2Pow(0x1_0000_0000, 8) == 0x100_0000_0000;
    assert Times2Pow(0x100_0000_0000, 6) == 0x4000_0000_0000;
    Times2PowAdd(1, 8, 8);
    Times2PowAdd(1, 16, 8);
    Times2PowAdd(1, 24, 8);
    Times2PowAdd(1, 32, 8);
    Times2PowAdd(1, 40, 6);
  }

  /** 10^17, in two steps. */
  lemma TenTo17()
    ensures Times10Pow(1, 17) == 100_000_000_000_000_000
  {
    assert Times10Pow(1, 9) == 1_000_000_000;
    assert Times10Pow(1_000_000_000, 8) == 100_000_000_000_000_000;
    Times10PowAdd(1, 9, 8);
  }

  /** 65.99999999999999999 (66 - 10^-17) is nearer to 66 than to any other
      double: `Number` reads it as 66. */
  lemma NearlySixtySix(a: nat, b: nat)
    requires a == 6599999999999999999 && b == 100_000_000_000_000_000
    ensures NearestDouble(a, b).Finite? && Floor(NearestDouble(a, b)) == 66
    ensures ToUint16(NearestDouble(a, b)) == 66
  {
    TwoTo46();
    assert Times2Pow(1, 45) == 0x2000_0000_0000;
    Times2PowScales(a, 46);
    Times2PowScales(a, 45);
    Times2PowScales(66, 46);
    ScaleDownAt(a, TwoTo52 * b, 0, 46);
    assert RoundHalfEven(Times2Pow(a, 46), b) == Times2Pow(66, 46);
    assert NearestDouble(a, b) == Finite(Times2Pow(66, 46), -46);
    HalveTimes2Pow(66, 46);
  }

  /** Values of 2^1024 and more are `Infinity`. */
  lemma Overflow(a: nat, b: nat)
    requires b > 0
    requires a >= TwoTo53 * Times2Pow(b, MaxExponent)
    ensures NearestDouble(a, b) == Infinity
  {
    var r := ScaleUp(a, b, 0);
    if r.steps <= MaxExponent {
      Times2PowMonotone(b, r.steps, MaxExponent);
      assert false;
    }
  }
}
