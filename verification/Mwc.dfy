/**
 rand of firmware/drivers/8258/random.c: two 16-bit multiply-with-carry generators whose states
 hold the carry in the upper and the digit in the lower half of an unsigned int.
 */
module Mwc {
  import opened Arith

  const BASE: nat := 0x1_0000

  /** One step with multiplier a. */
  function Next(a: nat, x: nat): (r: nat) {
    a * (x % BASE) + x / BASE
  }

  function Iterate(a: nat, x: nat, n: nat): (r: nat) {
    if n == 0 then x else Next(a, Iterate(a, x, n - 1))
  }

  function Power(n: nat): (p: nat)
    ensures p >= 1
  {
    if n == 0 then 1 else BASE * Power(n - 1)
  }

  function Modulus(a: nat): (m: int) {
    a * BASE - 1
  }

  /** Bitwise exclusive-or, from the low end. */
  function Xor(a: nat, b: nat): (r: nat)
    decreases a + b
  {
    if a == 0 && b == 0 then 0 else 2 * Xor(a / 2, b / 2) + if a % 2 != b % 2 then 1 else 0
  }

  lemma {:induction false} XorTwice(a: nat, b: nat)
    ensures Xor(Xor(a, b), b) == a
    decreases a + b
  {
    if a > 0 || b > 0 {
      XorTwice(a / 2, b / 2);
    }
  }

  /** The law of exclusive-or: a bit of the result is set exactly when the two bits differ. */
  lemma {:induction false} XorBits(a: nat, b: nat, i: nat)
    ensures BitAt(Xor(a, b), i) == 1 <==> BitAt(a, i) != BitAt(b, i)
  {
    hide BitAt;
    if i == 0 {
      LowBit(a);
      LowBit(b);
      LowBit(Xor(a, b));
    } else {
      XorBits(a / 2, b / 2, i - 1);
      HalfBit(a, i - 1);
      HalfBit(b, i - 1);
      HalfBit(Xor(a, b), i - 1);
    }
  }

  lemma {:induction false} XorFits(a: nat, b: nat, k: nat)
    requires a < Pow2(k) && b < Pow2(k)
    ensures Xor(a, b) < Pow2(k)
  {
    if k > 0 {
      XorFits(a / 2, b / 2, k - 1);
    }
  }

  /** The digits of z above those of w. */
  function Mixed(w: nat, z: nat): (r: nat) {
    (z % BASE * BASE + w) % U32
  }

  /** The low digit of the mixed word is w's; above it the digit of z is added to the carry of w. */
  lemma MixedDigits(w: nat, z: nat)
    ensures Mixed(w, z) % BASE == w % BASE
    ensures Mixed(w, z) / BASE == (z + w / BASE) % BASE
  {
    var x, h := z % BASE + w / BASE, (z % BASE + w / BASE) % BASE;
    assert z % BASE * BASE + w == h * BASE + w % BASE + x / BASE * U32;
    ModuloPlusMultiple(h * BASE + w % BASE, x / BASE, U32);
    assert z + w / BASE == x + z / BASE * BASE;
    ModuloPlusMultiple(x, z / BASE, BASE);
  }

  class Generator {
    var w: nat
    var z: nat

    constructor (w: nat, z: nat)
      ensures this.w == w && this.z == z
    {
      this.w, this.z := w, z;
    }

    /** rand: clockTime is the tick register. Neither state computation overflows. */
    method Rand(clockTime: nat) returns (result: nat)
      requires w < U32 && z < U32 && clockTime < U32
      modifies this
      ensures w == Next(18000, old(w)) < U32 && z == Next(36969, old(z)) < U32
      ensures result < U32 && Xor(result, clockTime) == Mixed(w, z)
    {
      NoOverflow(18000, w);
      NoOverflow(36969, z);
      w := 18000 * (w % BASE) + w / BASE;
      z := 36969 * (z % BASE) + z / BASE;
      ShiftKeepsLow(z);
      result := (z * BASE % U32 + w) % U32;
      Pow2Values();
      XorFits(result, clockTime, 32);
      XorTwice(result, clockTime);
      result := Xor(result, clockTime);
    }
  }

  lemma ShiftKeepsLow(z: nat)
    ensures z * BASE % U32 == z % BASE * BASE
  {
    assert z * BASE == z / BASE * U32 + z % BASE * BASE;
  }

  lemma NoOverflow(a: nat, x: nat)
    requires a < BASE && x < U32
    ensures Next(a, x) < U32
  {
    assert a * (x % BASE) <= a * (BASE - 1);
  }

  /** The law of one step: multiplying by 2^16 undoes it modulo a * 2^16 - 1. */
  lemma StepLaw(a: nat, x: nat)
    ensures BASE * Next(a, x) == x + x % BASE * Modulus(a)
  {
    var lo := x % BASE;
    assert BASE * (a * lo) == lo * (a * BASE);
    assert lo * Modulus(a) == lo * (a * BASE) - lo;
  }

  /** After n steps: 2^(16 n) times the state is the seed plus a multiple of the modulus. */
  lemma {:induction false} RunLaw(a: nat, x: nat, n: nat) returns (k: nat)
    ensures Power(n) * Iterate(a, x, n) == x + k * Modulus(a)
  {
    if n == 0 {
      k := 0;
    } else {
      var y, p := Iterate(a, x, n - 1), Power(n - 1);
      var k' := RunLaw(a, x, n - 1);
      StepLaw(a, y);
      k := k' + p * (y % BASE);
      assert Power(n) * Next(a, y) == p * (BASE * Next(a, y));
      RunStep(p, y, y % BASE, Modulus(a), x, k');
    }
  }

  lemma RunStep(p: nat, y: nat, lo: nat, m: int, x: nat, k: nat)
    requires p * y == x + k * m
    ensures p * (y + lo * m) == x + (k + p * lo) * m
  {
    assert p * (lo * m) == (p * lo) * m;
    Distribute(k, p * lo, m);
    Distribute(y, lo * m, p);
  }

  /** The multiply-with-carry law for both generators of rand. */
  lemma MultiplyWithCarryLaw(w: nat, z: nat, n: nat)
    ensures Power(n) * Iterate(18000, w, n) % (18000 * BASE - 1) == w % (18000 * BASE - 1)
    ensures Power(n) * Iterate(36969, z, n) % (36969 * BASE - 1) == z % (36969 * BASE - 1)
  {
    var i := RunLaw(18000, w, n);
    var j := RunLaw(36969, z, n);
    ModuloPlusMultiple(w, i, 18000 * BASE - 1);
    ModuloPlusMultiple(z, j, 36969 * BASE - 1);
  }

  /** A generator that is not at zero never gets there, and never overflows. */
  lemma {:induction false} StaysNonZero(a: nat, x: nat, n: nat)
    requires 1 <= a < BASE && 1 <= x < U32
    ensures 1 <= Iterate(a, x, n) < U32
  {
    if n > 0 {
      var y := Iterate(a, x, n - 1);
      StaysNonZero(a, x, n - 1);
      NoOverflow(a, y);
      MulMono(1, a, y % BASE);
    }
  }

  lemma StepStaysBelow(a: nat, x: nat)
    requires 1 <= a < BASE && x < Modulus(a)
    ensures Next(a, x) < Modulus(a)
  {
    var lo, hi := x % BASE, x / BASE;
    if lo == BASE - 1 {
      assert hi < a - 1;
    } else {
      MulMono(lo, BASE - 2, a);
      assert hi <= a - 1;
    }
  }

  lemma StepInjective(a: nat, x: nat, y: nat)
    requires 1 <= a < BASE && x < Modulus(a) && y < Modulus(a) && Next(a, x) == Next(a, y)
    ensures x == y
  {
    var m, lo, lo' := Modulus(a), x % BASE, y % BASE;
    StepLaw(a, x);
    StepLaw(a, y);
    hide Next, Modulus;
    SmallDifference(lo, lo', x, y, m);
  }

  lemma SmallDifference(lo: nat, lo': nat, x: nat, y: nat, m: int)
    requires x + lo * m == y + lo' * m && x < m && y < m
    ensures x == y
  {
    Distribute(lo - lo', lo', m);
    SmallMultiple(lo - lo', m);
  }

  /** Below the modulus a step is a permutation: it stays there and no two states collide. */
  lemma StepPermutes(a: nat, x: nat, y: nat)
    requires 1 <= a < BASE && x < Modulus(a) && y < Modulus(a)
    ensures Next(a, x) < Modulus(a)
    ensures Next(a, x) == Next(a, y) <==> x == y
  {
    StepStaysBelow(a, x);
    if Next(a, x) == Next(a, y) {
      StepInjective(a, x, y);
    }
  }

  // ----- stuck generators -----

  /** The multipliers of rand. */
  predicate Multiplier(a: nat) {
    a == 18000 || a == 36969
  }

  /** Neither multiplier less one shares a divisor with 65535: Bezout's identity. */
  lemma Coprime(a: nat) returns (u: int, v: int)
    requires Multiplier(a)
    ensures u * (a - 1) + v * (BASE - 1) == 1
  {
    u, v := if a == 18000 then 18704 else -3643, if a == 18000 then -5137 else 2055;
  }

  lemma OnlyFullDigit(a: nat, lo: nat, hi: nat)
    requires Multiplier(a) && lo < BASE && (a - 1) * lo == (BASE - 1) * hi
    ensures lo == 0 || lo == BASE - 1
  {
    var u, v := Coprime(a);
    var t := u * hi + v * lo;
    assert lo == (u * (a - 1) + v * (BASE - 1)) * lo == u * ((a - 1) * lo) + v * (BASE - 1) * lo;
    assert lo == t * (BASE - 1);
    SmallMultiple(if lo == BASE - 1 then t - 1 else t, BASE - 1);
  }

  /** A step changes every 32-bit state but two: zero, and the modulus. */
  lemma StuckExactly(a: nat, x: nat)
    requires Multiplier(a) && x < U32
    ensures Next(a, x) == x <==> x == 0 || x == Modulus(a)
  {
    if Next(a, x) == x {
      OnlyFullDigit(a, x % BASE, x / BASE);
    }
  }

  /** A multiple of the modulus goes to the modulus in one step. */
  lemma MultipleCollapses(a: nat, k: nat)
    requires Multiplier(a) && 1 <= k <= BASE
    ensures Next(a, k * Modulus(a)) == Modulus(a)
  {
    var m, x, lo := Modulus(a), k * Modulus(a), (BASE - k) % BASE;
    assert k * (a * BASE) == k * a * BASE;
    MulMono(1, k, a);
    ModuloPlusMultiple(BASE - k, k * a - 1, BASE);
    StepLaw(a, x);
    hide Next;
    if k < BASE {
      Distribute(k, lo, m);
    }
    assert BASE * Next(a, x) == BASE * m;
  }

  /**
   The bad seeds: a generator ever comes to a stop exactly when its seed is a multiple of the
   modulus, zero or not.
   */
  lemma StopsExactly(a: nat, x: nat)
    requires Multiplier(a) && x < U32
    ensures (exists n: nat :: Next(a, Iterate(a, x, n)) == Iterate(a, x, n)) <==> x % Modulus(a) == 0
  {
    if n: nat :| Next(a, Iterate(a, x, n)) == Iterate(a, x, n) {
      StopMeansMultiple(a, x, n);
    }
    if x % Modulus(a) == 0 {
      var k := x / Modulus(a);
      assert x == k * Modulus(a);
      if k == 0 {
        assert Next(a, Iterate(a, x, 0)) == Iterate(a, x, 0);
      } else {
        MultipleCollapses(a, k);
        StuckExactly(a, Modulus(a));
        assert Iterate(a, x, 1) == Next(a, Iterate(a, x, 0)) == Modulus(a);
        assert Next(a, Iterate(a, x, 1)) == Iterate(a, x, 1);
      }
    }
  }

  lemma {:induction false} StaysIn32Bits(a: nat, x: nat, n: nat)
    requires a < BASE && x < U32
    ensures Iterate(a, x, n) < U32
  {
    if n > 0 {
      StaysIn32Bits(a, x, n - 1);
      NoOverflow(a, Iterate(a, x, n - 1));
    }
  }

  lemma StopMeansMultiple(a: nat, x: nat, n: nat)
    requires Multiplier(a) && x < U32 && Next(a, Iterate(a, x, n)) == Iterate(a, x, n)
    ensures x % Modulus(a) == 0
  {
    hide Next;
    var m, y := Modulus(a), Iterate(a, x, n);
    StaysIn32Bits(a, x, n);
    StuckExactly(a, y);
    var k := RunLaw(a, x, n);
    var c := if y == 0 then -k else Power(n) - k;
    assert x == c * m;
    MultipleMod(c, m);
  }
}
