/**
 IsPrime of firmware/drivers/8258/uart.c: trial division by 5, 7, 11, 13, ... whose loop guard is
 i * i < n, so that the square of the last trial divisor is never tried.
 */
module Primality {
  import opened Arith

  predicate Prime(n: nat) {
    n >= 2 && forall m :: 2 <= m < n ==> n % m != 0
  }

  /** The numbers IsPrime takes for primes although they are not. */
  ghost predicate SquareOfPrime5Mod6(n: nat) {
    exists p: nat :: Prime(p) && p % 6 == 5 && n == p * p
  }

  ghost predicate Accepted(n: nat) {
    n <= 3 || Prime(n) || SquareOfPrime5Mod6(n)
  }

  predicate NoDivisorBelow(n: nat, i: nat) {
    forall m :: 2 <= m < i ==> n % m != 0
  }

  /** The largest argument for which the 32-bit i * i cannot wrap: 65531 is the last i below 2^16. */
  const LIMIT: nat := 65531 * 65531

  /** Above the limit the loop ends early only at a trial divisor whose square wraps to n or more. */
  ghost predicate StopsByWrap(n: nat) {
    exists i: nat :: WrapStop(n, i)
  }

  /** The loop guard's i * i, in 32 bits. */
  function Square32(i: nat): (s: nat)
    ensures s < U32
  {
    i * i % U32
  }

  predicate WrapStop(n: nat, i: nat) {
    5 <= i <= n && i % 6 == 5 && Square32(i) >= n
  }

  ghost predicate NoWrapStopBelow(n: nat, i: nat) {
    forall k: nat :: k < i ==> !WrapStop(n, k)
  }

  /**
   IsPrime: up to the limit 1 exactly for n <= 3, primes, and squares of primes that are 5 modulo
   6; above it, no composite number, and a prime only if the loop is stopped by the wrap.
   */
  method IsPrime(n: nat) returns (r: nat)
    requires n < U32
    ensures n <= LIMIT ==> r == if Accepted(n) then 1 else 0
    ensures n > LIMIT ==> r == if Prime(n) && StopsByWrap(n) then 1 else 0
  {
    if n <= 3 {
      return 1;
    } else if n % 2 == 0 || n % 3 == 0 {
      RejectSmall(n);
      RejectEven(n);
      return 0;
    } else {
      hide Square32, WrapStop, NoWrapStopBelow, NoDivisorBelow, Accepted, Prime, StopsByWrap;
      var i := 5;
      NoStopBelow5(n);
      FirstDivisors(n);
      while Square32(i) < n
        invariant i >= 5 && i % 6 == 5 && i <= n
        invariant n <= LIMIT ==> i <= 65531
        invariant NoDivisorBelow(n, i) && NoWrapStopBelow(n, i)
        decreases n - i
      {
        if n % i == 0 || n % (i + 2) == 0 {
          RejectRound(n, i);
          return 0;
        }
        NextRound(n, i);
        SkipSix(n, i);
        i := i + 6;
      }
      AcceptRound(n, i);
      return 1;
    }
  }

  // ----- divisibility -----

  /** A divisor of a divisor divides. */
  lemma DivisorChain(n: nat, m: nat, k: nat)
    requires m > 0 && k > 0 && n % m == 0 && m % k == 0
    ensures n % k == 0
  {
    var a, b := n / m, m / k;
    assert n == a * m && m == b * k;
    assert n == (a * b) * k;
    MultipleMod(a * b, k);
  }

  lemma Cofactor(n: nat, m: nat) returns (q: nat)
    requires 2 <= m < n && n % m == 0
    ensures n == m * q && 2 <= q < n && n % q == 0
  {
    q := n / m;
    assert n == m * q;
    MultipleMod(m, q);
  }

  /** Euclid: a number below a prime p can be cancelled from a multiple of p. */
  lemma {:induction false} CancelFactor(p: nat, a: nat, b: int, k: int)
    requires Prime(p) && 1 <= a < p && a * b == k * p
    ensures b % p == 0
    decreases a
  {
    if a == 1 {
      MultipleMod(k, p);
    } else {
      var q, r := p / a, p % a;
      assert p == q * a + r;
      assert r * b == p * b - q * (a * b) == p * b - q * (k * p) == (b - q * k) * p;
      CancelFactor(p, r, b, b - q * k);
    }
  }

  /** The square of a prime has no divisor strictly between 1 and the prime. */
  lemma DivisorOfSquare(p: nat, m: nat)
    requires Prime(p) && 1 <= m < p && (p * p) % m == 0
    ensures m == 1
  {
    var c := (p * p) / m;
    assert m * c == p * p;
    CancelFactor(p, m, c, p);
    var e := c / p;
    assert c == e * p;
    CancelPrime(p, m, e);
    MultipleMod(e, m);
  }

  lemma CancelPrime(p: nat, m: nat, e: nat)
    requires p >= 1 && m * (e * p) == p * p
    ensures e * m == p
  {
    assert m * (e * p) == (e * m) * p;
    assert (e * m - p) * p == 0;
    SmallMultiple(e * m - p, p);
  }

  // ----- the branches of IsPrime -----

  lemma SquareIsOdd(p: nat)
    requires p % 6 == 5
    ensures (p * p) % 2 == 1 && (p * p) % 3 == 1
  {
    var t := p / 6;
    assert p == 6 * t + 5;
    assert p * p == 6 * (6 * (t * t) + 10 * t + 4) + 1;
  }

  lemma RejectSmall(n: nat)
    requires n > 3 && (n % 2 == 0 || n % 3 == 0)
    ensures !Accepted(n)
  {
    forall p: nat | p % 6 == 5
      ensures n != p * p
    {
      SquareIsOdd(p);
    }
  }

  lemma RejectEven(n: nat)
    requires n > 3 && (n % 2 == 0 || n % 3 == 0)
    ensures !Prime(n)
  {
  }

  lemma NoStopBelow5(n: nat)
    ensures NoWrapStopBelow(n, 5)
  {
  }

  lemma FirstDivisors(n: nat)
    requires n % 2 != 0 && n % 3 != 0
    ensures NoDivisorBelow(n, 5)
  {
    if n % 4 == 0 {
      DivisorChain(n, 4, 2);
    }
  }

  lemma BelowRoot(i: nat, n: nat)
    requires i >= 5 && i % 6 == 5 && i * i < n <= LIMIT
    ensures i + 2 < n && i + 6 <= 65531
  {
    MulMono(5, i, i);
    RootOrder(i, 65531);
  }

  lemma NextInClass(i: nat, p: nat)
    requires i % 6 == 5 && p % 6 == 5 && i < p
    ensures i + 6 <= p
  {
  }

  lemma RejectDivisible(n: nat, i: nat)
    requires n > 3 && i >= 5 && i % 6 == 5 && i * i < n && i + 2 < n
    requires n % i == 0 || n % (i + 2) == 0
    ensures !Accepted(n)
  {
    var m := if n % i == 0 then i else i + 2;
    assert n % m == 0;
    forall p: nat | Prime(p) && p % 6 == 5
      ensures n != p * p
    {
      if n == p * p {
        RootOrder(i, p);
        NextInClass(i, p);
        DivisorOfSquare(p, m);
      }
    }
  }

  lemma MultipleOf2Or3(i: nat, m: nat)
    requires i % 6 == 5 && i < m < i + 6 && m != i + 2
    ensures m % 2 == 0 || m % 3 == 0
  {
    var t := i / 6;
    assert i == 6 * t + 5;
    if m == i + 4 {
      MultipleMod(2 * t + 3, 3);
    } else if m == i + 1 {
      MultipleMod(3 * t + 3, 2);
    } else if m == i + 3 {
      MultipleMod(3 * t + 4, 2);
    } else {
      MultipleMod(3 * t + 5, 2);
    }
  }

  /** The numbers between two rounds of trial divisors are multiples of 2 or 3. */
  lemma SkipSix(n: nat, i: nat)
    requires i >= 5 && i % 6 == 5 && NoDivisorBelow(n, i)
    requires n % i != 0 && n % (i + 2) != 0
    ensures NoDivisorBelow(n, i + 6)
  {
    forall m | i <= m < i + 6
      ensures n % m != 0
    {
      if m != i && m != i + 2 {
        MultipleOf2Or3(i, m);
        if n % m == 0 {
          DivisorChain(n, m, if m % 2 == 0 then 2 else 3);
        }
      }
    }
  }

  /** A composite number without divisors below i is at least i * i. */
  lemma LeastComposite(n: nat, m: nat, i: nat)
    requires 2 <= m < n && n % m == 0 && NoDivisorBelow(n, i)
    ensures n >= i * i
  {
    var q := Cofactor(n, m);
    assert m >= i && q >= i;
    MulMono(i, m, q);
    MulMono(i, q, i);
  }

  lemma RootIsPrime(n: nat, i: nat)
    requires i >= 2 && n == i * i && NoDivisorBelow(n, i)
    ensures Prime(i)
  {
    forall k | 2 <= k < i
      ensures i % k != 0
    {
      if i % k == 0 {
        MultipleMod(i, i);
        DivisorChain(n, i, k);
      }
    }
  }

  lemma AcceptExhausted(n: nat, i: nat)
    requires n > 3 && i >= 5 && i % 6 == 5 && NoDivisorBelow(n, i) && n <= i * i
    ensures Accepted(n)
  {
    if !Prime(n) {
      var m :| 2 <= m < n && n % m == 0;
      LeastComposite(n, m, i);
      RootIsPrime(n, i);
    }
  }

  // ----- rounds of the loop, with and without wrap -----

  lemma SquareFits(i: nat)
    requires i <= 65531
    ensures Square32(i) == i * i <= LIMIT
  {
    MulMono(i, 65531, i);
    MulMono(i, 65531, 65531);
  }

  lemma DividesItself(n: nat)
    requires n >= 1
    ensures n % n == 0
  {
  }

  /** Between two rounds no other trial divisor stops the loop. */
  lemma StopsAdvance(n: nat, i: nat)
    requires i % 6 == 5 && Square32(i) < n && NoWrapStopBelow(n, i)
    ensures NoWrapStopBelow(n, i + 6)
  {
    hide Square32;
  }

  lemma NotYetThere(n: nat, i: nat)
    requires 5 <= i <= n && i % 6 == 5 && n % 2 != 0 && n % 3 != 0 && n % i != 0 && n % (i + 2) != 0
    ensures i + 6 <= n
  {
    DividesItself(n);
    assert n != i && n != i + 2;
    NotMultiple(n);
  }

  lemma NotMultiple(n: nat)
    requires n % 2 != 0 && n % 3 != 0
    ensures n % 6 == 1 || n % 6 == 5
  {
    var q, r := n / 6, n % 6;
    assert n == r + 3 * q * 2 == r + 2 * q * 3;
    ModuloPlusMultiple(r, 3 * q, 2);
    ModuloPlusMultiple(r, 2 * q, 3);
  }

  lemma NextRound(n: nat, i: nat)
    requires 5 <= i <= n < U32 && i % 6 == 5 && n % 2 != 0 && n % 3 != 0
    requires Square32(i) < n && NoWrapStopBelow(n, i) && n % i != 0 && n % (i + 2) != 0
    requires n <= LIMIT ==> i <= 65531
    ensures i + 6 <= n && NoWrapStopBelow(n, i + 6)
    ensures n <= LIMIT ==> i + 6 <= 65531
  {
    hide Square32, WrapStop, NoWrapStopBelow;
    StopsAdvance(n, i);
    NotYetThere(n, i);
    if n <= LIMIT {
      SquareFits(i);
      BelowRoot(i, n);
    }
  }

  lemma RejectRound(n: nat, i: nat)
    requires 5 <= i <= n < U32 && i % 6 == 5
    requires Square32(i) < n && NoWrapStopBelow(n, i) && (n % i == 0 || n % (i + 2) == 0)
    requires n <= LIMIT ==> i <= 65531
    ensures if n <= LIMIT then !Accepted(n) else !(Prime(n) && StopsByWrap(n))
  {
    hide Square32, WrapStop, NoWrapStopBelow, Accepted, Prime, StopsByWrap;
    if n <= LIMIT {
      SquareFits(i);
      BelowRoot(i, n);
      RejectDivisible(n, i);
    } else {
      RejectLarge(n, i);
    }
  }

  /** A large number with a trial divisor is composite, or is itself that divisor and no stop came before. */
  lemma RejectLarge(n: nat, i: nat)
    requires 5 <= i <= n && i % 6 == 5
    requires Square32(i) < n && NoWrapStopBelow(n, i) && (n % i == 0 || n % (i + 2) == 0)
    ensures !(Prime(n) && StopsByWrap(n))
  {
    if Prime(n) {
      PrimeDivisor(n, i);
      StopsAdvance(n, i);
    }
  }

  lemma SmallModulo(n: nat, m: nat)
    requires m >= 1
    ensures n < m ==> n % m == n
  {
  }

  lemma PrimeDivisor(n: nat, i: nat)
    requires 5 <= i <= n && Prime(n) && (n % i == 0 || n % (i + 2) == 0)
    ensures n == i || n == i + 2
  {
    SmallModulo(n, i + 2);
  }

  lemma AcceptRound(n: nat, i: nat)
    requires n > 3 && 5 <= i <= n < U32 && i % 6 == 5 && NoDivisorBelow(n, i) && Square32(i) >= n
    requires n <= LIMIT ==> i <= 65531
    ensures if n <= LIMIT then Accepted(n) else Prime(n) && StopsByWrap(n)
  {
    hide Square32, Accepted;
    if i <= 65531 {
      SquareFits(i);
    }
    if n <= LIMIT {
      AcceptExhausted(n, i);
    } else {
      assert WrapStop(n, i);
      LargeIsPrime(n, i);
    }
  }

  lemma LargeIsPrime(n: nat, i: nat)
    requires 65536 <= i && 2 <= n < U32 && NoDivisorBelow(n, i)
    ensures Prime(n)
  {
    if !Prime(n) {
      var m :| 2 <= m < n && n % m == 0;
      LeastComposite(n, m, i);
      MulMono(65536, i, i);
      MulMono(65536, i, 65536);
    }
  }

  /** Squares of odd numbers are 1 modulo 8, so nothing above 2^32 - 7 is accepted, prime or not. */
  lemma NothingAtTheTop(n: nat)
    requires U32 - 7 < n < U32
    ensures !StopsByWrap(n)
  {
    forall i: nat | i % 6 == 5
      ensures Square32(i) % 8 == 1
    {
      OddSquare(i);
      KeepsModulo8(i * i);
    }
    hide Square32;
  }

  lemma OddSquare(i: nat)
    requires i % 2 == 1
    ensures i * i % 8 == 1
  {
    var a, b := i / 8, i % 8;
    Distribute(8 * a, b, i);
    Distribute(8 * a, b, b);
    assert i * i == b * b + (a * i + a * b) * 8;
    ModuloPlusMultiple(b * b, a * i + a * b, 8);
    OddDigitSquare(b);
  }

  lemma OddDigitSquare(b: nat)
    requires b == 1 || b == 3 || b == 5 || b == 7
    ensures b * b % 8 == 1
  {
  }

  lemma KeepsModulo8(x: nat)
    ensures x % U32 % 8 == x % 8
  {
  }

  /** The least number that is taken for a prime and is none. */
  lemma TwentyFive()
    ensures Accepted(25) && !Prime(25)
    ensures forall n :: 3 < n < 25 && Accepted(n) ==> Prime(n)
  {
    assert 25 % 5 == 0;
    assert Prime(5) && 25 == 5 * 5;
    forall p: nat | p % 6 == 5
      ensures p * p >= 25
    {
      MulMono(5, p, p);
    }
  }
}
