/**
 rf_access_code_16to32 and rf_access_code_32to16 of firmware/proj_lib/rf_drv_8267.h: each bit of
 a 16-bit code becomes a pair of bits, 01 for a one and 10 for a zero, in reverse order.
 */
module AccessCode {
  import opened Arith

  /** The pairs of the low n bits of code, bit 0 most significant. */
  function Expand(code: nat, n: nat): (r: nat) {
    if n == 0 then 0 else 4 * Expand(code, n - 1) + if BitAt(code, n - 1) == 1 then 1 else 2
  }

  /** The low bits of the n low pairs of w, pair 0 most significant. */
  function Compress(w: nat, n: nat): (r: nat) {
    if n == 0 then 0 else 2 * Compress(w, n - 1) + BitAt(w, 2 * (n - 1))
  }

  /** rf_access_code_16to32 */
  method Expand16To32(code: nat) returns (r: nat)
    requires code < 0x1_0000
    ensures r == Expand(code, 16) < 0x1_0000_0000
  {
    hide Pow2, BitAt;
    Pow2Values();
    Pow2Zero();
    r := 0;
    for i := 0 to 16
      invariant r == Expand(code, i) < Pow2(2 * i)
    {
      Pow2Grows(2 * i, 2 * i + 1);
      Pow2Grows(2 * i + 1, 2 * i + 2);
      Pow2Grows(2 * i + 2, 32);
      r := r * 4 % 0x1_0000_0000;
      r := r + if BitAt(code, i) == 1 then 1 else 2;
    }
  }

  /** rf_access_code_32to16 */
  method Compress32To16(code: nat) returns (r: nat)
    requires code < 0x1_0000_0000
    ensures r == Compress(code, 16) < 0x1_0000
  {
    hide Pow2, BitAt;
    Pow2Values();
    Pow2Zero();
    r := 0;
    for i := 0 to 16
      invariant r == Compress(code, i) < Pow2(i)
    {
      Pow2Grows(i, i + 1);
      Pow2Grows(i + 1, 16);
      r := r * 2 % 0x1_0000;
      r := r + if BitAt(code, i * 2) == 1 then 1 else 0;
    }
  }

  lemma Pow2Zero()
    ensures Pow2(0) == 1
  {
  }

  // ----- round trips, for any number of pairs -----

  /** A number is read from its low bit, or from its high one. */
  lemma {:induction false} LowBitFirst(w: nat, n: nat)
    requires n >= 1
    ensures Compress(w, n) == BitAt(w, 0) * Pow2(n - 1) + Compress(w / 4, n - 1)
    ensures Compress(w / 4, n - 1) < Pow2(n - 1)
  {
    if n > 1 {
      LowBitFirst(w, n - 1);
      ShiftBit(w, 2 * (n - 2));
    }
  }

  lemma ShiftBit(w: nat, i: nat)
    ensures BitAt(w / 4, i) == BitAt(w, i + 2)
  {
    DivDiv(w, 4, Pow2(i));
    assert Pow2(i + 2) == 2 * Pow2(i + 1);
  }

  lemma DivAddMultiple(x: nat, k: nat, p: nat)
    requires p >= 1
    ensures (x + k * p) / p == x / p + k
  {
    DivStep(x, p);
    DivStep(x + k * p, p);
    var a, b := (x + k * p) / p, x / p + k;
    Distribute(x / p, k, p);
    if a < b {
      MulMono(a + 1, b, p);
      Distribute(a, 1, p);
    } else if b < a {
      MulMono(b + 1, a, p);
      Distribute(b, 1, p);
    }
  }

  lemma EvenMultiple(c: nat, t: nat, q: nat)
    requires q >= 1
    ensures (c + (t * 2) * q) / q % 2 == c / q % 2
  {
    DivAddMultiple(c, t * 2, q);
    ModuloPlusMultiple(c / q, t, 2);
  }

  lemma Reassociate(b: nat, h: nat, q: nat)
    ensures b * ((2 * h) * q) == ((b * h) * 2) * q
  {
  }

  /** A bit added above position j does not show at position j. */
  lemma HigherBit(c: nat, b: nat, j: nat, n: nat)
    requires j < n
    ensures BitAt(c + b * Pow2(n), j) == BitAt(c, j)
  {
    var h := Pow2(n - j - 1);
    Pow2Adds(n - j, j);
    Reassociate(b, h, Pow2(j));
    EvenMultiple(c, b * h, Pow2(j));
  }

  /** Expanding looks only at the low bits. */
  lemma {:induction false} ExpandLow(c: nat, b: nat, m: nat, n: nat)
    requires m <= n
    ensures Expand(c + b * Pow2(n), m) == Expand(c, m)
  {
    if m > 0 {
      ExpandLow(c, b, m - 1, n);
      HigherBit(c, b, m - 1, n);
    }
  }

  lemma TopBit(c: nat, b: nat, p: nat)
    requires p >= 1 && c < p && b <= 1
    ensures (c + b * p) / p % 2 == b
  {
    DivAddMultiple(c, b, p);
    assert c / p == 0 by {
      DivStep(c, p);
      if c / p >= 1 {
        MulMono(1, c / p, p);
      }
    }
  }

  lemma ExpandStep(c: nat, n: nat)
    requires n >= 1
    ensures Expand(c, n) == 4 * Expand(c, n - 1) + if BitAt(c, n - 1) == 1 then 1 else 2
    ensures Expand(c, n) / 4 == Expand(c, n - 1)
    ensures BitAt(Expand(c, n), 0) == BitAt(c, n - 1)
  {
    var e, v := Expand(c, n - 1), if BitAt(c, n - 1) == 1 then 1 else 2;
    assert Expand(c, n) == 4 * e + v;
    hide Pow2, Expand;
    LowBit(Expand(c, n));
    assert Expand(c, n) / 4 == e && Expand(c, n) % 2 == v % 2;
  }

  /** The top bit of an n-bit number and the rest. */
  lemma TopSplit(c: nat, n: nat)
    requires n >= 1 && c < Pow2(n)
    ensures var p := Pow2(n - 1);
            var b, low := BitAt(c, n - 1), c % p;
            c == low + b * p && low < p
  {
    var p := Pow2(n - 1);
    assert Pow2(n) == 2 * p;
    assert BitAt(c, n - 1) == c / p % 2;
    hide Pow2, BitAt;
    SmallQuotient(c, p);
  }

  lemma SmallQuotient(c: nat, p: nat)
    requires p >= 1 && c < 2 * p
    ensures c / p % 2 == c / p && c == c % p + c / p * p && c % p < p
  {
    DivStep(c, p);
    if c / p >= 2 {
      MulMono(2, c / p, p);
    }
  }

  /** Compressing an expanded code gives the code back. */
  lemma {:induction false} CompressExpand(c: nat, n: nat)
    requires c < Pow2(n)
    ensures Compress(Expand(c, n), n) == c
  {
    hide Pow2, Expand, Compress, BitAt;
    if n == 0 {
      CompressExpandNone(c);
    } else {
      var b, low := BitAt(c, n - 1), c % Pow2(n - 1);
      TopSplit(c, n);
      CompressExpand(low, n - 1);
      ExpandLow(low, b, n - 1, n - 1);
      LowBitFirst(Expand(c, n), n);
      ExpandStep(c, n);
    }
  }

  lemma CompressExpandNone(c: nat)
    requires c < Pow2(0)
    ensures Compress(Expand(c, 0), 0) == c
  {
  }

  /** Pair k of a compressed word. */
  function Pair(w: nat, k: nat): (p: nat) {
    w / Pow2(2 * k) % 4
  }

  /** All n pairs are 01 or 10. */
  predicate Balanced(w: nat, n: nat) {
    forall k :: 0 <= k < n ==> Pair(w, k) == 1 || Pair(w, k) == 2
  }

  lemma PairShift(w: nat, k: nat)
    ensures Pair(w / 4, k) == Pair(w, k + 1)
  {
    DivDiv(w, 4, Pow2(2 * k));
    assert Pow2(2 * k + 2) == 2 * Pow2(2 * k + 1);
  }

  lemma BalancedStep(w: nat, n: nat)
    requires n >= 1
    ensures Balanced(w, n) <==> (w % 4 == 1 || w % 4 == 2) && Balanced(w / 4, n - 1)
  {
    assert Pair(w, 0) == w % 4;
    forall k | 0 <= k < n - 1
      ensures Pair(w / 4, k) == Pair(w, k + 1)
    {
      PairShift(w, k);
    }
    if (w % 4 == 1 || w % 4 == 2) && Balanced(w / 4, n - 1) {
      forall k | 0 <= k < n
        ensures Pair(w, k) == 1 || Pair(w, k) == 2
      {
        if k > 0 {
          PairShift(w, k - 1);
        }
      }
    }
    if Balanced(w, n) {
      assert forall k :: 0 <= k < n - 1 ==> Pair(w / 4, k) == Pair(w, k + 1);
    }
  }

  /** Expanding a compressed word gives the word back exactly when all its pairs are 01 or 10. */
  lemma {:induction false} ExpandCompress(w: nat, n: nat)
    requires w < Pow2(2 * n)
    ensures Expand(Compress(w, n), n) == w <==> Balanced(w, n)
  {
    hide Pow2, Expand, Compress, BitAt, Balanced;
    if n == 0 {
      ExpandCompressNone(w);
    } else {
      var b, low := BitAt(w, 0), Compress(w / 4, n - 1);
      Quarter(w, n);
      LowBit(w);
      ExpandCompress(w / 4, n - 1);
      BalancedStep(w, n);
      LowBitFirst(w, n);
      BitOfSum(low, b, n - 1);
      ExpandLow(low, b, n - 1, n - 1);
      ExpandStep(low + b * Pow2(n - 1), n);
    }
  }

  lemma ExpandCompressNone(w: nat)
    requires w < Pow2(0)
    ensures Expand(Compress(w, 0), 0) == w && Balanced(w, 0)
  {
  }

  lemma Quarter(w: nat, n: nat)
    requires n >= 1 && w < Pow2(2 * n)
    ensures w / 4 < Pow2(2 * (n - 1))
  {
    FourTimes(2 * (n - 1));
    hide Pow2;
  }

  lemma FourTimes(m: nat)
    ensures Pow2(m + 2) == 4 * Pow2(m)
  {
    assert Pow2(m + 2) == 2 * Pow2(m + 1);
  }

  lemma BitOfSum(low: nat, b: nat, n: nat)
    requires low < Pow2(n) && b <= 1
    ensures BitAt(low + b * Pow2(n), n) == b
  {
    TopBit(low, b, Pow2(n));
  }

  // ----- what the two conversions say, bit by bit -----

  lemma {:induction false} ExpandFits(c: nat, n: nat)
    ensures Expand(c, n) < Pow2(2 * n)
  {
    hide Pow2;
    if n > 0 {
      ExpandFits(c, n - 1);
      FourTimes(2 * (n - 1));
    } else {
      Pow2Zero();
    }
  }

  /** Bit k of the code is pair n - 1 - k of the expanded word: 01 for a one, 10 for a zero. */
  lemma {:induction false} ExpandPairs(c: nat, n: nat, k: nat)
    requires k < n
    ensures Pair(Expand(c, n), n - 1 - k) == if BitAt(c, k) == 1 then 1 else 2
    ensures Expand(c, n) < Pow2(2 * n)
  {
    hide Pow2, BitAt, Expand, Pair;
    ExpandFits(c, n);
    ExpandStep(c, n);
    if k == n - 1 {
      LowPair(Expand(c, n));
    } else {
      ExpandPairs(c, n - 1, k);
      PairShift(Expand(c, n), n - 2 - k);
    }
  }

  lemma LowPair(w: nat)
    ensures Pair(w, 0) == w % 4
  {
    assert Pow2(0) == 1;
  }

  /** The low bit of pair k is bit n - 1 - k of the compressed code. */
  lemma {:induction false} CompressBits(w: nat, n: nat, k: nat)
    requires k < n
    ensures BitAt(Compress(w, n), n - 1 - k) == BitAt(w, 2 * k)
  {
    assert Compress(w, n) == 2 * Compress(w, n - 1) + BitAt(w, 2 * (n - 1));
    hide Pow2, BitAt, Compress;
    if k == n - 1 {
      LowBit(Compress(w, n));
    } else {
      CompressBits(w, n - 1, k);
      HalfBit(Compress(w, n), n - 2 - k);
    }
  }
}
