/**
 rf_phy_test_prbs9 of firmware/drivers/8258/emi.c: packets filled with the 511-bit
 pseudo-random sequence of section 5.1 of ITU-T O.150, least significant bit first.
 */
module Prbs9 {
  import opened Arith

  /** The sequence itself: nine ones, then each bit is the sum of the bits 5 and 9 before it. */
  function Bit(k: nat): (b: bool) {
    if k < 9 then true else Bit(k - 5) != Bit(k - 9)
  }

  function Value(b: bool): (v: nat) {
    if b then 1 else 0
  }

  /** n bits of the sequence from k on, the first one least significant. */
  function Pack(k: nat, n: nat): (x: nat)
    decreases n
  {
    if n == 0 then 0 else Value(Bit(k)) + 2 * Pack(k + 1, n - 1)
  }

  /** rf_phy_test_prbs9: byte i holds bits 8 i to 8 i + 7 of the sequence. */
  method FillPrbs9(n: int) returns (p: seq<nat>)
    ensures |p| == if n > 0 then n else 0
    ensures forall i :: 0 <= i < |p| ==> p[i] == Pack(8 * i, 8) < 0x100
  {
    hide Pack, Bit, Pow2;
    Pow2Values();
    p := [];
    var x := 0x1ff;
    FirstState();
    var i := 0;
    while i < n
      invariant 0 <= i && |p| == i && (n >= 0 ==> i <= n) && (n < 0 ==> i == 0)
      invariant x == Pack(8 * i, 9)
      invariant forall m :: 0 <= m < i ==> p[m] == Pack(8 * m, 8) < 0x100
    {
      var d := 0;
      var j := 0;
      PackNone(8 * i);
      while j < 8
        invariant 0 <= j <= 8
        invariant x == Pack(8 * i + j, 9)
        invariant d == Pack(8 * i, j) < Pow2(j)
      {
        NextState(8 * i + j);
        PackLast(8 * i, j);
        PackLast(8 * i, j + 1);
        if x % 2 == 1 {
          d := d + Pow2(j);
        }
        // bit 8 becomes bit 4 xor bit 0
        x := x / 2 + if x / 16 % 2 != x % 2 then 0x100 else 0;
        j := j + 1;
      }
      p := p + [d];
      i := i + 1;
    }
  }

  // ----- the register and the sequence -----

  lemma FirstState()
    ensures Pack(0, 9) == 0x1ff
  {
  }

  lemma PackNone(k: nat)
    ensures Pack(k, 0) == 0 < Pow2(0)
  {
  }

  lemma Unpack(k: nat, n: nat)
    requires n >= 1
    ensures Pack(k, n) == Value(Bit(k)) + 2 * Pack(k + 1, n - 1)
  {
  }

  lemma {:induction false} PackLast(k: nat, n: nat)
    ensures Pack(k, n + 1) == Pack(k, n) + Pow2(n) * Value(Bit(k + n))
    ensures Pack(k, n) < Pow2(n)
    decreases n
  {
    if n > 0 {
      PackLast(k + 1, n - 1);
    }
  }

  /** Equal windows hold equal bits. */
  lemma {:induction false} PackInjective(i: nat, j: nat, n: nat, t: nat)
    requires Pack(i, n) == Pack(j, n) && t < n
    ensures Bit(i + t) == Bit(j + t)
    decreases n
  {
    hide Bit;
    assert Pack(i, n) % 2 == Value(Bit(i)) && Pack(j, n) % 2 == Value(Bit(j));
    if t > 0 {
      PackInjective(i + 1, j + 1, n - 1, t - 1);
    }
  }

  /** The recurrence of the sequence. */
  lemma Recurrence(k: nat)
    ensures Bit(k + 9) == (Bit(k + 4) != Bit(k))
  {
  }

  /** One step of the shift register moves the window by one bit. */
  lemma NextState(k: nat)
    ensures var x := Pack(k, 9);
            && x % 2 == Value(Bit(k))
            && Pack(k + 1, 9) == x / 2 + if x / 16 % 2 != x % 2 then 0x100 else 0
  {
    Recurrence(k);
    Pow2Values();
    PackLast(k + 1, 8);
    hide Bit, Pack, Pow2;
    Unpack(k, 9);
    Unpack(k + 1, 8);
    Unpack(k + 2, 7);
    Unpack(k + 3, 6);
    Unpack(k + 4, 5);
    Shift(Pack(k, 9), Value(Bit(k)), Value(Bit(k + 1)), Value(Bit(k + 2)), Value(Bit(k + 3)),
          Value(Bit(k + 4)), Pack(k + 5, 4));
  }

  lemma Shift(x: nat, v0: nat, v1: nat, v2: nat, v3: nat, v4: nat, rest: nat)
    requires v0 <= 1 && v1 <= 1 && v2 <= 1 && v3 <= 1 && v4 <= 1
    requires x == v0 + 2 * (v1 + 2 * (v2 + 2 * (v3 + 2 * (v4 + 2 * rest))))
    ensures x % 2 == v0 && x / 2 == v1 + 2 * (v2 + 2 * (v3 + 2 * (v4 + 2 * rest))) && x / 16 % 2 == v4
  {
    assert x / 16 == v4 + 2 * rest;
  }

  /** The register never gets stuck at zero. */
  lemma {:induction false} StateNeverZero(k: nat)
    ensures 0 < Pack(k, 9) < 0x200
  {
    PackLast(k, 9);
    Pow2Values();
    assert Pow2(9) == 2 * Pow2(8);
    hide Pack, Pow2;
    if Pack(k, 9) == 0 {
      var t := SomeOne(k);
      ZeroWindow(k, 9);
    }
  }

  lemma {:induction false} ZeroWindow(k: nat, n: nat)
    requires Pack(k, n) == 0
    ensures forall t :: k <= t < k + n ==> !Bit(t)
    decreases n
  {
    hide Bit;
    if n > 0 {
      ZeroWindow(k + 1, n - 1);
    }
  }

  /** Any nine bits in a row contain a one. */
  lemma {:induction false} SomeOne(k: nat) returns (t: nat)
    ensures k <= t < k + 9 && Bit(t)
  {
    t := k;
    if k > 0 {
      t := SomeOne(k - 1);
      if t == k - 1 {
        Recurrence(k - 1);
        t := if Bit(k + 8) then k + 8 else k + 3;
      }
    }
  }

  // ----- the period -----

  /*
   x^16 and its squares modulo x^9 + x^4 + 1, read as laws of the sequence: squaring a power
   turns every offset into its double, and the recurrence brings large offsets down again.
   */

  lemma Jump16(k: nat)
    ensures Bit(k + 16) == (Bit(k + 7) != (Bit(k + 6) != Bit(k + 2)))
  {
    hide Bit;
    Recurrence(k + 7);
    Recurrence(k + 2);
  }

  lemma Jump32(k: nat)
    ensures Bit(k + 32) == (Bit(k + 7) != (Bit(k + 5) != (Bit(k + 3) != Bit(k))))
  {
    hide Bit;
    Jump16(k + 16);
    Jump16(k + 7);
    Jump16(k + 6);
    Jump16(k + 2);
    Recurrence(k + 5);
    Recurrence(k + 3);
    Recurrence(k);
  }

  lemma Jump64(k: nat)
    ensures Bit(k + 64) == (Bit(k + 6) != (Bit(k + 4) != Bit(k + 1)))
  {
    hide Bit;
    Jump32(k + 32);
    Jump32(k + 7);
    Jump32(k + 5);
    Jump32(k + 3);
    Jump32(k);
    Recurrence(k + 5);
    Recurrence(k + 1);
    Recurrence(k);
  }

  lemma Jump128(k: nat)
    ensures Bit(k + 128) == (Bit(k + 8) != (Bit(k + 7) != (Bit(k + 3) != Bit(k + 2))))
  {
    hide Bit;
    Jump64(k + 64);
    Jump64(k + 6);
    Jump64(k + 4);
    Jump64(k + 1);
    Recurrence(k + 3);
  }

  lemma Jump256(k: nat)
    ensures Bit(k + 256) == (Bit(k + 7) != (Bit(k + 5) != (Bit(k + 2) != Bit(k))))
  {
    hide Bit;
    Jump128(k + 128);
    Jump128(k + 8);
    Jump128(k + 7);
    Jump128(k + 3);
    Jump128(k + 2);
    Recurrence(k + 7);
    Recurrence(k + 5);
    Recurrence(k + 2);
    Recurrence(k);
  }

  /** x^512 is x: the sequence repeats after 511 bits. */
  lemma Jump512(k: nat)
    ensures Bit(k + 512) == Bit(k + 1)
  {
    hide Bit;
    Jump256(k + 256);
    Jump256(k + 7);
    Jump256(k + 5);
    Jump256(k + 2);
    Jump256(k);
    Recurrence(k + 5);
    Recurrence(k + 1);
    Recurrence(k);
  }

  lemma Period511(k: nat)
    ensures Bit(k + 511) == Bit(k)
  {
    hide Bit;
    if k > 0 {
      Jump512(k - 1);
    } else {
      Recurrence(0);
      Recurrence(511);
      Jump512(8);
      Jump512(3);
    }
  }

  // ----- no shorter period -----

  predicate Repeats(k: nat, d: nat) {
    Bit(k + d) == Bit(k)
  }

  ghost predicate Period(d: nat) {
    forall k: nat :: Repeats(k, d)
  }

  lemma DifferenceIsPeriod(a: nat, b: nat)
    requires b < a && Period(a) && Period(b)
    ensures Period(a - b)
  {
    hide Bit;
    var d := a - b;
    forall k: nat
      ensures Repeats(k, d)
    {
      assert Repeats(k + d, b) && Repeats(k, a);
    }
  }

  lemma ModuloDifference(a: nat, b: nat, g: nat)
    requires b < a && g >= 1 && (a - b) % g == 0 && b % g == 0
    ensures a % g == 0
  {
    assert a == (a - b) / g * g + b / g * g;
    Distribute((a - b) / g, b / g, g);
    MultipleMod((a - b) / g + b / g, g);
  }

  /** Euclid on periods: the difference of two is one, so a common divisor of both is one. */
  lemma {:induction false} CommonPeriod(a: nat, b: nat) returns (g: nat)
    requires 1 <= a && 1 <= b && Period(a) && Period(b)
    ensures 1 <= g <= a && g <= b && Period(g) && a % g == 0 && b % g == 0
    decreases a + b, if a < b then 1 else 0
  {
    hide Repeats, Period;
    if a == b {
      g := a;
    } else if a < b {
      g := CommonPeriod(b, a);
    } else {
      DifferenceIsPeriod(a, b);
      g := CommonPeriod(a - b, b);
      ModuloDifference(a, b, g);
    }
  }

  /** The first bits, as far as they are needed. */
  lemma FirstBits()
    ensures Bit(0) && Bit(1) && Bit(2) && Bit(8)
    ensures !Bit(9) && !Bit(11) && Bit(14) && Bit(16)
  {
    Recurrence(0);
    Recurrence(2);
    Recurrence(5);
    Recurrence(7);
  }

  lemma {:induction false} MultipleIsPeriod(g: nat, n: nat)
    requires Period(g)
    ensures Period(n * g)
  {
    hide Bit;
    if n > 0 {
      MultipleIsPeriod(g, n - 1);
      forall k: nat
        ensures Repeats(k, n * g)
      {
        assert n * g == (n - 1) * g + g;
        assert Repeats(k + (n - 1) * g, g) && Repeats(k, (n - 1) * g);
      }
    } else {
      assert 0 * g == 0;
    }
  }

  lemma NotPeriod7Or73()
    ensures !Period(7) && !Period(73)
  {
    hide Bit;
    FirstBits();
    assert !Repeats(2, 7);
    // x^73 = x^64 x^9: bit 74 from bits 16, 14 and 11
    Jump64(10);
    assert !Repeats(1, 73);
  }

  /** 511 is 7 times 73. */
  lemma DivisorOf511(g: nat)
    requires 1 <= g < 511 && 511 % g == 0
    ensures 7 % g == 0 || 73 % g == 0
  {
    var q := 511 / g;
    assert g * q == 511;
    if g >= 23 {
      if q >= 23 {
        MulMono(23, g, q);
      }
      SmallFactor(q, g);
    } else {
      SmallFactor(g, q);
    }
  }

  lemma SmallFactor(f: nat, g: nat)
    requires 1 <= f <= 22 && f * g == 511
    ensures (f == 1 && g == 511) || (f == 7 && g == 73)
  {
  }

  /** 511 is the least period: every shorter one fails. */
  lemma LeastPeriod(d: nat)
    requires 1 <= d
    ensures Period(d) <==> d % 511 == 0
  {
    hide Bit;
    forall k: nat
      ensures Repeats(k, 511)
    {
      Period511(k);
    }
    hide Repeats, Period;
    if Period(d) {
      var g := CommonPeriod(511, d);
      if g < 511 {
        DivisorOf511(g);
        MultipleIsPeriod(g, 7 / g);
        MultipleIsPeriod(g, 73 / g);
        NotPeriod7Or73();
      }
    }
    if d % 511 == 0 {
      MultipleIsPeriod(511, d / 511);
    }
  }

  // ----- maximal length -----

  /** Two equal states make the whole sequence repeat, forwards ... */
  lemma {:induction false} EqualStatesForward(i: nat, d: nat, t: nat)
    requires forall s :: i <= s < i + 9 ==> Repeats(s, d)
    ensures Repeats(i + t, d)
  {
    hide Bit;
    if t >= 9 {
      EqualStatesForward(i, d, t - 9);
      EqualStatesForward(i, d, t - 5);
      Recurrence(i + t - 9);
      Recurrence(i + t + d - 9);
    }
  }

  /** ... and backwards. */
  lemma {:induction false} EqualStatesBackward(i: nat, d: nat)
    requires forall s :: i <= s < i + 9 ==> Repeats(s, d)
    ensures forall s :: 0 <= s < i + 9 ==> Repeats(s, d)
  {
    hide Bit;
    if i > 0 {
      Recurrence(i - 1);
      Recurrence(i - 1 + d);
      assert Repeats(i + 8, d) && Repeats(i + 3, d);
      assert Repeats(i - 1, d);
      EqualStatesBackward(i - 1, d);
    }
  }

  lemma EqualStatesMeanPeriod(i: nat, d: nat)
    requires Pack(i, 9) == Pack(i + d, 9)
    ensures Period(d)
  {
    hide Bit, Pack;
    forall s | i <= s < i + 9
      ensures Repeats(s, d)
    {
      PackInjective(i, i + d, 9, s - i);
    }
    EqualStatesBackward(i, d);
    forall k: nat
      ensures Repeats(k, d)
    {
      EqualStatesForward(0, d, k);
    }
  }

  /**
   Maximal length: the register is in the same state at bits i and i + d exactly when d is a
   multiple of 511, so it passes through 511 different states, all nonzero ones.
   */
  lemma MaximalLength(i: nat, d: nat)
    requires 1 <= d
    ensures Pack(i, 9) == Pack(i + d, 9) <==> d % 511 == 0
  {
    hide Bit, Pack, Period;
    LeastPeriod(d);
    if Pack(i, 9) == Pack(i + d, 9) {
      EqualStatesMeanPeriod(i, d);
    }
    if d % 511 == 0 {
      SameWindow(i, d, 9);
    }
  }

  lemma {:induction false} SameWindow(i: nat, d: nat, n: nat)
    requires Period(d)
    ensures Pack(i, n) == Pack(i + d, n)
    decreases n
  {
    hide Bit;
    if n > 0 {
      assert Repeats(i, d);
      SameWindow(i + 1, d, n - 1);
      assert i + 1 + d == i + d + 1;
    }
  }

  /** Bit j of byte i is bit 8 i + j of the sequence. */
  lemma ByteBits(i: nat, j: nat)
    requires j < 8
    ensures BitAt(Pack(8 * i, 8), j) == Value(Bit(8 * i + j))
  {
    PackBits(8 * i, 8, j);
  }

  lemma {:induction false} PackBits(k: nat, n: nat, j: nat)
    requires j < n
    ensures BitAt(Pack(k, n), j) == Value(Bit(k + j))
    decreases n
  {
    hide Bit, BitAt;
    Unpack(k, n);
    if j == 0 {
      LowBit(Pack(k, n));
    } else {
      PackBits(k + 1, n - 1, j - 1);
      HalfBit(Pack(k, n), j - 1);
    }
  }

  /** The first two bytes. */
  lemma FirstBytes()
    ensures Pack(0, 8) == 0xff && Pack(8, 8) == 0xc1
  {
  }
}
