/** Multiplication and division facts that the numeric proofs share. */
module Arith {

  /** The values of an unsigned int are those below it. */
  const U32: nat := 0x1_0000_0000

  lemma MulMono(x: int, y: int, d: int)
    requires x <= y && d >= 0
    ensures x * d <= y * d
  {
  }

  lemma Distribute(x: int, y: int, d: int)
    ensures (x + y) * d == x * d + y * d
  {
  }

  lemma RootOrder(a: nat, b: nat)
    requires a * a < b * b
    ensures a < b
  {
    if b <= a {
      MulMono(b, a, b);
      MulMono(b, a, a);
    }
  }

  /** The only multiple of d strictly between -d and d is 0. */
  lemma SmallMultiple(x: int, d: int)
    requires d > 0 && -d < x * d < d
    ensures x == 0
  {
    if x >= 1 {
      MulMono(1, x, d);
    } else if x <= -1 {
      MulMono(x, -1, d);
    }
  }

  lemma DivStep(n: nat, d: nat)
    requires d >= 1
    ensures n / d * d <= n < n / d * d + d
  {
  }

  /** A quotient is known by its remainder. */
  lemma QuotientIs(x: nat, d: nat, q: nat)
    requires d >= 1 && q * d <= x < q * d + d
    ensures x / d == q
  {
    DivStep(x, d);
    var e := x / d;
    if e < q {
      MulMono(e + 1, q, d);
    } else if q < e {
      MulMono(q + 1, e, d);
    }
  }

  /** Dividing twice is dividing by the product. */
  lemma DivDiv(x: nat, a: nat, p: nat)
    requires a >= 1 && p >= 1
    ensures x / a / p == x / (a * p)
  {
    DivStep(x, a);
    DivStep(x / a, p);
    MulMono(1, p, a);
    TwoRemainders(x, a, p, x / a, x / a / p);
    QuotientIs(x, a * p, x / a / p);
  }

  lemma TwoRemainders(x: nat, a: nat, p: nat, q: nat, t: nat)
    requires q * a <= x < q * a + a && t * p <= q < t * p + p
    ensures t * (a * p) <= x < t * (a * p) + a * p
  {
    MulMono(t * p, q, a);
    MulMono(q + 1, t * p + p, a);
    Distribute(q, 1, a);
    Distribute(t * p, p, a);
    assert t * p * a == t * (a * p);
  }

  lemma MultipleMod(q: int, d: int)
    requires d > 0
    ensures (q * d) % d == 0 && (q * d) / d == q
  {
    var n := q * d;
    assert n == n / d * d + n % d;
    assert (q - n / d) * d == n % d;
    SmallMultiple(q - n / d, d);
  }

  lemma ModuloPlusMultiple(x: nat, k: nat, m: nat)
    requires m >= 1
    ensures (x + k * m) % m == x % m
  {
    var y := x + k * m;
    var q, r := y / m, y % m;
    assert y == q * m + r && x == x / m * m + x % m;
    assert (q - k - x / m) * m == q * m - k * m - x / m * m;
    SmallMultiple(q - k - x / m, m);
  }

  // ----- powers -----

  function Pow2(n: nat): (p: nat)
    ensures p >= 1
  {
    if n == 0 then 1 else 2 * Pow2(n - 1)
  }

  lemma {:induction false} Pow2Adds(m: nat, n: nat)
    ensures Pow2(m + n) == Pow2(m) * Pow2(n)
  {
    if n > 0 {
      Pow2Adds(m, n - 1);
    }
  }

  lemma {:induction false} Pow2Grows(m: nat, n: nat)
    requires m <= n
    ensures Pow2(m) <= Pow2(n)
    ensures m < n ==> 2 * Pow2(m) <= Pow2(n)
  {
    if m < n {
      Pow2Grows(m, n - 1);
    }
  }

  lemma Pow2Values()
    ensures Pow2(1) == 2 && Pow2(8) == 0x100 && Pow2(16) == 0x1_0000 && Pow2(32) == 0x1_0000_0000
  {
    assert Pow2(8) == 0x100;
    Pow2Adds(8, 8);
    Pow2Adds(16, 16);
  }

  // ----- bits -----

  /** Bit i of x. */
  function BitAt(x: nat, i: nat): (b: nat)
    ensures b <= 1
  {
    x / Pow2(i) % 2
  }

  lemma LowBit(x: nat)
    ensures BitAt(x, 0) == x % 2
  {
    assert Pow2(0) == 1;
  }

  /** Halving moves every bit down by one. */
  lemma HalfBit(x: nat, i: nat)
    ensures BitAt(x / 2, i) == BitAt(x, i + 1)
  {
    DivDiv(x, 2, Pow2(i));
  }
}
