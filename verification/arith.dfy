/** Integer facts about division with a symbolic divisor, and rounding up to a
    multiple, the arithmetic behind padding and work estimation. */
module Arith {

  lemma MulNonneg(a: int, b: int)
    requires a >= 0 && b >= 0
    ensures a * b >= 0
  {
  }

  /** Quotient and remainder are the only pair with `n == q * d + r` and `0 <= r < d`. */
  lemma DivModUnique(n: int, d: int, q: int, r: int)
    requires d > 0 && 0 <= r < d && n == q * d + r
    ensures n / d == q && n % d == r
  {
    var q0 := n / d;
    var r0 := n % d;
    assert (q - q0) * d == r0 - r;
    if q > q0 {
      MulNonneg(q - q0 - 1, d);
    } else if q < q0 {
      MulNonneg(q0 - q - 1, d);
    }
  }

  /** Adding one divisor adds one to the quotient and keeps the remainder. */
  lemma DivModShift(x: int, d: int)
    requires d > 0
    ensures (x + d) / d == x / d + 1
    ensures (x + d) % d == x % d
  {
    DivModUnique(x + d, d, x / d + 1, x % d);
  }

  /** The smallest multiple of `m` that is at least `n`, computed the way the
      packer does it: add `m - n % m` only when `n` is not already a multiple. */
  function RoundUp(n: nat, m: nat): (r: nat)
    requires m > 0
    ensures r % m == 0
    ensures n <= r < n + m
    ensures r == n <==> n % m == 0
  {
    if n % m != 0 then
      DivModUnique(n + (m - n % m), m, n / m + 1, 0);
      n + (m - n % m)
    else n
  }

  /** Rounding up is the least multiple at or above `n`. */
  lemma RoundUpIsLeast(n: nat, m: nat, k: nat)
    requires m > 0
    requires k % m == 0 && n <= k
    ensures RoundUp(n, m) <= k
  {
    var r := RoundUp(n, m);
    if r > k {
      DivModUnique(r - k, m, r / m - k / m, 0);
    }
  }

  /** Adding whole multiples of `m` moves the rounded value by the same amount. */
  lemma RoundUpAddMultiple(n: nat, m: nat, k: nat)
    requires m > 0
    ensures RoundUp(n + k * m, m) == RoundUp(n, m) + k * m
  {
    MulNonneg(k, m);
    DivModUnique(n + k * m, m, n / m + k, n % m);
  }

  /** Two multiples of `m` add up to a multiple of `m`. */
  lemma AlignedSum(a: nat, b: nat, m: nat)
    requires m > 0 && a % m == 0 && b % m == 0
    ensures (a + b) % m == 0
  {
    var qa := a / m;
    var qb := b / m;
    assert a == qa * m;
    assert b == qb * m;
    assert a + b == (qa + qb) * m;
    DivModUnique(a + b, m, qa + qb, 0);
  }

  /** Every size rounded up to a multiple of `m`, summed; the sum of a prefix
      is computed first, as a loop over the sizes accumulates it. */
  function SumRoundedUp(sizes: seq<nat>, m: nat): (r: nat)
    requires m > 0
    ensures r % m == 0
  {
    if |sizes| == 0 then 0
    else
      var a := SumRoundedUp(sizes[..|sizes| - 1], m);
      var b := RoundUp(sizes[|sizes| - 1], m);
      AlignedSum(a, b, m);
      a + b
  }

  function Sum(sizes: seq<nat>): nat
  {
    if |sizes| == 0 then 0 else Sum(sizes[..|sizes| - 1]) + sizes[|sizes| - 1]
  }

  /** The rounded sum never undercounts and adds less than one `m` per size;
      it equals the plain sum exactly when every size is already a multiple
      of `m`. */
  lemma {:induction false} SumRoundedUpBounds(sizes: seq<nat>, m: nat)
    requires m > 0
    ensures Sum(sizes) <= SumRoundedUp(sizes, m) <= Sum(sizes) + m * |sizes|
    ensures SumRoundedUp(sizes, m) == Sum(sizes) <==> forall i :: 0 <= i < |sizes| ==> sizes[i] % m == 0
  {
    if |sizes| > 0 {
      var init := sizes[..|sizes| - 1];
      SumRoundedUpBounds(init, m);
      assert m * |sizes| == m * |init| + m;
      assert forall i :: 0 <= i < |init| ==> init[i] == sizes[i];
    }
  }
}
