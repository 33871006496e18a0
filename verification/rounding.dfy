/** Powers of ten and the single rounding rule of the monetary model:
    round to the nearest integer, ties away from zero ("round half up" in the
    terminology of Python's `decimal` module). */
module Rounding {

  function Pow10(n: nat): (r: nat)
    ensures r >= 1
  {
    if n == 0 then 1 else 10 * Pow10(n - 1)
  }

  lemma {:induction false} Pow10Add(a: nat, b: nat)
    ensures Pow10(a + b) == Pow10(a) * Pow10(b)
  {
    if a != 0 {
      Pow10Add(a - 1, b);
      calc {
        Pow10(a + b);
        10 * Pow10(a - 1 + b);
        10 * (Pow10(a - 1) * Pow10(b));
        (10 * Pow10(a - 1)) * Pow10(b);
      }
    }
  }

  /** The reference meaning of round-half-up: `c` is within one half of `x`,
      and when `x` lies exactly halfway between two integers, `c` is the one
      of larger magnitude. */
  ghost predicate IsHalfUpRounding(x: real, c: int) {
    if x >= 0.0 then c as real - 0.5 <= x < c as real + 0.5
    else c as real - 0.5 < x <= c as real + 0.5
  }

  /** At most one integer is the half-up rounding of a given value. */
  lemma HalfUpUnique(x: real, c1: int, c2: int)
    requires IsHalfUpRounding(x, c1) && IsHalfUpRounding(x, c2)
    ensures c1 == c2
  {
  }

  /** An integer rounds to itself. */
  lemma HalfUpOfInteger(n: int, c: int)
    ensures IsHalfUpRounding(n as real, c) <==> c == n
  {
    if IsHalfUpRounding(n as real, c) {
      HalfUpUnique(n as real, c, n);
    }
  }

  /** Ties away from zero make the rule symmetric about zero. */
  lemma HalfUpNegate(x: real, c: int)
    ensures IsHalfUpRounding(-x, -c) <==> IsHalfUpRounding(x, c)
  {
  }

  /** Rounding preserves the (non-strict) order of the values rounded. */
  lemma HalfUpMonotone(x: real, y: real, cx: int, cy: int)
    requires x <= y
    requires IsHalfUpRounding(x, cx) && IsHalfUpRounding(y, cy)
    ensures cx <= cy
  {
  }

  lemma DivideBounds(a: real, b: real, d: real)
    requires d > 0.0
    ensures a <= b / d <==> a * d <= b
    ensures a < b / d <==> a * d < b
    ensures b / d <= a <==> b <= a * d
    ensures b / d < a <==> b < a * d
  {
    assert b / d * d == b;
  }

  /** Integer cross-multiplied bounds establish the half-up rounding of a
      quotient `n / d`. */
  lemma HalfUpOfQuotient(n: int, d: int, c: int)
    requires d > 0
    requires n >= 0 ==> (2 * c - 1) * d <= 2 * n < (2 * c + 1) * d
    requires n < 0 ==> (2 * c - 1) * d < 2 * n <= (2 * c + 1) * d
    ensures IsHalfUpRounding(n as real / d as real, c)
  {
    var x := n as real / d as real;
    BoundBelow(n, d, c);
    BoundAbove(n, d, c);
    assert x >= 0.0 <==> n >= 0 by {
      DivideBounds(0.0, n as real, d as real);
    }
  }

  /** The lower half-unit bound, cross-multiplied and divided out. */
  lemma BoundBelow(n: int, d: int, c: int)
    requires d > 0
    ensures (2 * c - 1) * d <= 2 * n ==> c as real - 0.5 <= n as real / d as real
    ensures (2 * c - 1) * d < 2 * n ==> c as real - 0.5 < n as real / d as real
  {
    var k := (2 * c - 1) * d;
    HalfProduct(2 * c - 1, d, k);
    DivideBounds(c as real - 0.5, n as real, d as real);
  }

  lemma BoundAbove(n: int, d: int, c: int)
    requires d > 0
    ensures 2 * n < (2 * c + 1) * d ==> n as real / d as real < c as real + 0.5
    ensures 2 * n <= (2 * c + 1) * d ==> n as real / d as real <= c as real + 0.5
  {
    var k := (2 * c + 1) * d;
    HalfProduct(2 * c + 1, d, k);
    DivideBounds(c as real + 0.5, n as real, d as real);
  }

  /** `k = m·d` read as reals and halved. */
  lemma HalfProduct(m: int, d: int, k: int)
    requires k == m * d
    ensures k as real / 2.0 == (m as real / 2.0) * d as real
  {
  }

  /** `n / d` rounded half up, computed on integers: the quotient is rounded
      on its magnitude so that ties go away from zero. */
  function RoundHalfUp(n: int, d: int): (c: int)
    requires d > 0
    ensures IsHalfUpRounding(n as real / d as real, c)
  {
    var m := if n >= 0 then n else -n;
    var q := (2 * m + d) / (2 * d);
    var c := if n >= 0 then q else -q;
    RoundHalfUpBounds(m, d, q);
    HalfUpOfQuotient(n, d, c);
    c
  }

  lemma RoundHalfUpBounds(m: nat, d: int, q: int)
    requires d > 0
    requires q == (2 * m + d) / (2 * d)
    ensures (2 * q - 1) * d <= 2 * m < (2 * q + 1) * d
  {
    var r := (2 * m + d) % (2 * d);
    assert 2 * m + d == (2 * d) * q + r;
    assert 0 <= r < 2 * d;
    assert (2 * q - 1) * d == (2 * d) * q - d;
    assert (2 * q + 1) * d == (2 * d) * q + d;
  }

  /** `RoundHalfUp` is exactly the reference rounding: both directions. */
  lemma RoundHalfUpIff(n: int, d: int, c: int)
    requires d > 0
    ensures c == RoundHalfUp(n, d) <==> IsHalfUpRounding(n as real / d as real, c)
  {
    if IsHalfUpRounding(n as real / d as real, c) {
      HalfUpUnique(n as real / d as real, c, RoundHalfUp(n, d));
    }
  }
}
