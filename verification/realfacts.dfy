/** Single-step facts of real arithmetic. Each is stated over plain
    variables so that a proof about decimals can use one product or quotient
    law at a time. */
module RealFacts {

  lemma RealProduct(a: int, b: int)
    ensures (a * b) as real == a as real * b as real
  {
  }

  lemma RealSum(a: int, b: int)
    ensures (a + b) as real == a as real + b as real
  {
  }

  lemma QuotientOfProduct(p: real, q: real)
    requires q != 0.0
    ensures p * q / q == p
    ensures p * (1.0 / q) == p / q
  {
  }

  lemma ReciprocalOfProduct(p: real, q: real)
    requires p > 0.0 && q > 0.0
    ensures 1.0 / (p * q) == (1.0 / p) * (1.0 / q)
    ensures p / (p * q) == 1.0 / q
  {
  }

  lemma ProductOrder(x: real, y: real, s: real)
    requires s > 0.0
    ensures x < y <==> x * s < y * s
    ensures x <= y <==> x * s <= y * s
    ensures x == y <==> x * s == y * s
  {
  }

  lemma Distribute(a: real, b: real, s: real)
    ensures (a + b) * s == a * s + b * s
    ensures (a - b) * s == a * s - b * s
  {
  }

  /** Replacing a factor by an equal one. */
  lemma MulEq(a: real, x: real, y: real)
    requires x == y
    ensures a * x == a * y
    ensures x * a == y * a
  {
  }
}
