/**
 GetBetterBwpc and the divider part of uart_init_baudrate of firmware/drivers/8258/uart.c: the
 search for a bit width bwpc and a divider div with baud * (div + 1) * (bwpc + 1) near sysclk.
 */
module BaudDivider {
  import opened Arith
  import opened Primality

  /** bwpc runs from 3 to 15. */
  const WIDTHS: nat := 13

  datatype Setting = Setting(bwpc: nat, div: nat)

  // ----- specification -----

  /** The clock ticks per bit that the search aims at: sysclk / baud, moved off primes. */
  ghost function AdjustedRatio(baud: nat, sysclk: nat): (p: nat)
    requires baud >= 1
  {
    var r := sysclk / baud;
    if Accepted(r) then r + 1
    else if 10 * sysclk / baud - 10 * r > 5 && !Accepted(r + 1) then r + 1
    else r
  }

  /** Ten times the ticks per bit over the width of slot j, rounded down. */
  function Tenths(p: nat, j: nat): (t: nat) {
    (10 * p) / (j + 4)
  }

  function Dec(p: nat, j: nat): (d: nat)
    ensures d < 10
  {
    Tenths(p, j) % 10
  }

  function Int(p: nat, j: nat): (q: nat) {
    Tenths(p, j) / 10
  }

  datatype Best = Best(pos: nat, value: nat)

  /** The last slot below n with the least first decimal, among those whose quotient is not 1. */
  function LastMin(p: nat, n: nat): (b: Best) {
    if n == 0 then Best(0, 0xffff_ffff)
    else
      var b := LastMin(p, n - 1);
      if Dec(p, n - 1) <= b.value && Int(p, n - 1) != 1 then Best(n - 1, Dec(p, n - 1)) else b
  }

  /** The last slot below n with the greatest first decimal. */
  function LastMax(p: nat, n: nat): (b: Best) {
    if n == 0 then Best(0, 0)
    else
      var b := LastMax(p, n - 1);
      if Dec(p, n - 1) >= b.value then Best(n - 1, Dec(p, n - 1)) else b
  }

  /** Round down at the least decimal, or up at the greatest one, whichever is nearer. */
  predicate RoundsDown(p: nat) {
    var lo, hi := Dec(p, LastMin(p, WIDTHS).pos), Dec(p, LastMax(p, WIDTHS).pos);
    if lo < 5 && hi >= 5 then lo < 10 - hi else lo < 5 && hi < 5
  }

  function ChosenSlot(p: nat): (j: nat) {
    if RoundsDown(p) then LastMin(p, WIDTHS).pos else LastMax(p, WIDTHS).pos
  }

  /** The rounded quotient at the chosen width; div is one less. */
  function Quotient(p: nat): (q: nat) {
    if RoundsDown(p) then Int(p, ChosenSlot(p)) else Int(p, ChosenSlot(p)) + 1
  }

  function Pred32(x: nat): (r: nat) {
    if x == 0 then U32 - 1 else x - 1
  }

  function Choice(p: nat): (s: Setting) {
    Setting(ChosenSlot(p) + 3, Pred32(Quotient(p)))
  }

  /** What of the divider gets into the clock register: 15 bits, below the enable bit. */
  function RegisterDiv(div: nat): (d: nat)
    ensures d < 0x8000
  {
    div % 0x8000
  }

  // ----- the search -----

  class Uart {
    var gBwpc: nat
    var gUartDiv: nat
    var regCtrl0: nat
    var regClkDiv: nat
    var regRxTimeout0: nat

    /** GetBetterBwpc, its first part: the ratio, moved off primes. */
    method Ratio(baud: nat, sysclk: nat) returns (primeInt: nat)
      requires baud >= 1 && 10 * sysclk < U32
      ensures primeInt == AdjustedRatio(baud, sysclk) && 10 * primeInt < U32
    {
      hide Accepted;
      primeInt := sysclk / baud;
      var primeDec := 10 * sysclk / baud - 10 * primeInt;
      RatioBounds(baud, sysclk);
      assert primeDec < 10;
      var accepted := IsPrime(primeInt);
      if accepted == 1 {
        primeInt := primeInt + 1;
      } else if primeDec > 5 {
        primeInt := primeInt + 1;
        accepted := IsPrime(primeInt);
        if accepted == 1 {
          primeInt := primeInt - 1;
        }
      }
    }

    /** GetBetterBwpc, its second part: quotient and first decimal for each bit width. */
    method Tabulate(primeInt: nat) returns (dInt: array<nat>, dDec: array<nat>)
      requires 10 * primeInt < U32
      ensures dInt.Length == dDec.Length == WIDTHS
      ensures forall j :: 0 <= j < WIDTHS ==> dInt[j] == Int(primeInt, j) && dDec[j] == Dec(primeInt, j)
    {
      var dIntdec := new nat[13];
      dInt, dDec := new nat[13], new nat[13];
      var i := 3;
      while i <= 15
        invariant 3 <= i <= 16
        invariant forall j :: 0 <= j < i - 3 ==> dInt[j] == Int(primeInt, j) && dDec[j] == Dec(primeInt, j)
      {
        dIntdec[i - 3] := (10 * primeInt) / (i + 1);
        assert dIntdec[i - 3] == Tenths(primeInt, i - 3);
        dDec[i - 3] := dIntdec[i - 3] - 10 * (dIntdec[i - 3] / 10);
        dInt[i - 3] := dIntdec[i - 3] / 10;
        i := i + 1;
      }
    }

    /** GetBetterBwpc: the search over the tables. */
    method GetBetterBwpc(baud: nat, sysclk: nat)
      requires baud >= 1 && 10 * sysclk < U32
      modifies this`gBwpc, this`gUartDiv
      ensures Setting(gBwpc, gUartDiv) == Choice(AdjustedRatio(baud, sysclk))
    {
      hide Int, Dec, AdjustedRatio;
      var p := Ratio(baud, sysclk);
      var dInt, dDec := Tabulate(p);

      var positionMin, positionMax := 0, 0;
      var min, max := 0xffff_ffff, 0;
      var j := 0;
      while j < 13
        invariant 0 <= j <= 13
        invariant Best(positionMin, min) == LastMin(p, j) && positionMin < 13
        invariant Best(positionMax, max) == LastMax(p, j) && positionMax < 13
      {
        if dDec[j] <= min && dInt[j] != 1 {
          min := dDec[j];
          positionMin := j;
        }
        if dDec[j] >= max {
          max := dDec[j];
          positionMax := j;
        }
        j := j + 1;
      }
      assert positionMin == LastMin(p, WIDTHS).pos && positionMax == LastMax(p, WIDTHS).pos;

      if dDec[positionMin] < 5 && dDec[positionMax] >= 5 {
        if dDec[positionMin] < 10 - dDec[positionMax] {
          gBwpc := positionMin + 3;
          gUartDiv := Pred32(dInt[positionMin]);
        } else {
          gBwpc := positionMax + 3;
          gUartDiv := dInt[positionMax];
        }
      } else if dDec[positionMin] < 5 && dDec[positionMax] < 5 {
        gBwpc := positionMin + 3;
        gUartDiv := Pred32(dInt[positionMin]);
      } else {
        gBwpc := positionMax + 3;
        gUartDiv := dInt[positionMax];
      }
    }

    /**
     The clock part of uart_init_baudrate: the divider register keeps 15 bits and an enable bit.
     With a workable clock and a ratio of at most 131082 the registers meet the error bound.
     */
    method InitBaudrate(baud: nat, sysclk: nat)
      requires baud >= 1 && 10 * sysclk < U32
      modifies this
      ensures var s := Choice(AdjustedRatio(baud, sysclk));
              && Setting(gBwpc, gUartDiv) == s
              && regCtrl0 == s.bwpc
              && regRxTimeout0 == (s.bwpc + 1) * 12 < 0x100
              && 0x8000 <= regClkDiv < 0x1_0000 && regClkDiv - 0x8000 == RegisterDiv(s.div)
      ensures Workable(baud, sysclk) && sysclk / baud <= 131082 ==>
                && regClkDiv - 0x8000 == gUartDiv
                && 2 * Abs((regClkDiv - 0x8000 + 1) * (regCtrl0 + 1) * baud - sysclk) <= (regCtrl0 + 3) * baud
    {
      hide RoundsDown, Quotient, ChosenSlot, AdjustedRatio, Workable, Abs;
      GetBetterBwpc(baud, sysclk);
      ChoiceRounds(AdjustedRatio(baud, sysclk));
      if Workable(baud, sysclk) && sysclk / baud <= 131082 {
        UsableExactly(baud, sysclk);
        AdjustedBounds(baud, sysclk);
        KeptByRatio(AdjustedRatio(baud, sysclk));
        RegisterErrorExactly(baud, sysclk);
      }
      regCtrl0 := gBwpc;
      // 16-bit register, or-ed with bit 15
      regClkDiv := gUartDiv % 0x8000 + 0x8000;
      regRxTimeout0 := (gBwpc + 1) * 12;
    }
  }

  // ----- the ratio -----

  /** The first decimal really is one, and nothing in the search exceeds 32 bits. */
  lemma RatioBounds(baud: nat, sysclk: nat)
    requires baud >= 1 && 10 * sysclk < U32
    ensures var r := sysclk / baud;
            && 0 <= 10 * sysclk / baud - 10 * r < 10
            && r + 1 <= LIMIT
            && 10 * AdjustedRatio(baud, sysclk) < U32
  {
    var r, t := sysclk / baud, 10 * sysclk / baud;
    hide Accepted;
    DivStep(sysclk, baud);
    DivStep(10 * sysclk, baud);
    TenfoldQuotient(baud, sysclk, r, t);
    RatioFits(baud, sysclk, r);
    LargestRatio();
  }

  lemma RatioFits(baud: nat, sysclk: nat, r: nat)
    requires baud >= 1 && r * baud <= sysclk && 10 * sysclk < U32
    ensures r <= 429496729 && (r == 429496729 ==> baud == 1 && r == sysclk)
  {
    MulMono(1, baud, r);
    if baud >= 2 {
      MulMono(2, baud, r);
    }
  }

  lemma TenfoldQuotient(baud: nat, sysclk: nat, r: nat, t: nat)
    requires baud >= 1
    requires r * baud <= sysclk < r * baud + baud
    requires t * baud <= 10 * sysclk < t * baud + baud
    ensures 10 * r <= t < 10 * r + 10
  {
    if t < 10 * r {
      MulMono(t + 1, 10 * r, baud);
    } else if t >= 10 * r + 10 {
      MulMono(10 * r + 10, t, baud);
    }
  }

  /**
   The ratio aimed at, without divisions: one more than sysclk / baud if that is taken for a prime,
   or if the remainder is at least six tenths of the baud rate and one more is not taken for one.
   */
  lemma RatioExactly(baud: nat, sysclk: nat)
    requires baud >= 1
    ensures var r, p := sysclk / baud, AdjustedRatio(baud, sysclk);
            && r * baud <= sysclk < (r + 1) * baud
            && (p == r || p == r + 1)
            && (p == r + 1 <==> Accepted(r) || (10 * (sysclk - r * baud) >= 6 * baud && !Accepted(r + 1)))
  {
    hide Accepted;
    var r, t := sysclk / baud, 10 * sysclk / baud;
    DivStep(sysclk, baud);
    DivStep(10 * sysclk, baud);
    Distribute(r, 1, baud);
    assert (10 * r + 6) * baud == 10 * (r * baud) + 6 * baud;
    if t >= 10 * r + 6 {
      MulMono(10 * r + 6, t, baud);
    } else {
      MulMono(t + 1, 10 * r + 6, baud);
      Distribute(t, 1, baud);
    }
  }

  /** Rounding: the ratio aimed at is the nearer one, up from six tenths on, unless primes are near. */
  lemma RatioRounds(baud: nat, sysclk: nat)
    requires baud >= 1
    requires !Accepted(sysclk / baud) && !Accepted(sysclk / baud + 1)
    ensures var p := AdjustedRatio(baud, sysclk);
            -4 * baud <= 10 * (sysclk - p * baud) < 6 * baud
  {
    RatioExactly(baud, sysclk);
    hide Accepted, AdjustedRatio;
    var r := sysclk / baud;
    Distribute(r, 1, baud);
  }

  /** The largest ratio whose tenfold still fits is composite, so it is never moved up. */
  lemma LargestRatio()
    ensures !Accepted(429496729)
  {
    var n: nat := 429496729;
    assert n % 19 == 0;
    forall p: nat | p % 6 == 5
      ensures n != p * p
    {
      if n == p * p {
        RootOrder(20724, p);
        RootOrder(p, 20725);
      }
    }
  }

  /** From a ratio of 3 on, the search never aims at a number that IsPrime accepts. */
  lemma AdjustedIsRejected(baud: nat, sysclk: nat)
    requires baud >= 1
    ensures Accepted(AdjustedRatio(baud, sysclk)) <==> sysclk / baud <= 2
  {
    var r := sysclk / baud;
    if r > 3 && Accepted(r) {
      AcceptedIsOdd(r);
      RejectSmall(r + 1);
    } else if r == 3 {
      RejectSmall(4);
    }
  }

  lemma AcceptedIsOdd(n: nat)
    requires n > 3 && Accepted(n)
    ensures n % 2 == 1
  {
    if n % 2 == 0 {
      RejectSmall(n);
    }
  }

  // ----- what the scans find -----

  lemma {:induction false} LastMinMeans(p: nat, n: nat)
    requires n <= WIDTHS
    ensures var b := LastMin(p, n);
            if b.value == 0xffff_ffff then b.pos == 0 && forall j :: 0 <= j < n ==> Int(p, j) == 1
            else && b.pos < n && Int(p, b.pos) != 1 && b.value == Dec(p, b.pos)
                 && (forall j :: 0 <= j < n && Int(p, j) != 1 ==> b.value <= Dec(p, j))
                 && (forall j :: b.pos < j < n && Int(p, j) != 1 ==> b.value < Dec(p, j))
  {
    if n > 0 {
      LastMinMeans(p, n - 1);
    }
  }

  lemma {:induction false} LastMaxMeans(p: nat, n: nat)
    requires n <= WIDTHS
    ensures var b := LastMax(p, n);
            && (n > 0 ==> b.pos < n && b.value == Dec(p, b.pos))
            && (n == 0 ==> b == Best(0, 0))
            && (forall j :: 0 <= j < n ==> Dec(p, j) <= b.value)
            && (forall j :: b.pos < j < n ==> Dec(p, j) < b.value)
  {
    if n > 0 {
      LastMaxMeans(p, n - 1);
    }
  }

  lemma SomeQuotientIsNotOne(p: nat)
    ensures Int(p, 0) != 1 || Int(p, 12) != 1
  {
  }

  /** The rounding at the chosen slot: down by at most 4 tenths, or up by at most 5. */
  lemma ChoiceRounds(p: nat)
    ensures ChosenSlot(p) < WIDTHS
    ensures if RoundsDown(p) then Dec(p, ChosenSlot(p)) <= 4 && Int(p, ChosenSlot(p)) != 1
            else Dec(p, ChosenSlot(p)) >= 5
    ensures forall j :: 0 <= j < WIDTHS ==>
              (Int(p, j) != 1 ==> Rounding(p) <= Dec(p, j)) && Rounding(p) <= 10 - Dec(p, j)
  {
    hide Dec, Int;
    LastMinMeans(p, WIDTHS);
    LastMaxMeans(p, WIDTHS);
    SomeQuotientIsNotOne(p);
    var lo, hi := LastMin(p, WIDTHS), LastMax(p, WIDTHS);
    assert lo.value < 10 && lo.value <= hi.value;
  }

  /** By how many tenths the chosen quotient was rounded. */
  function Rounding(p: nat): (t: nat) {
    if RoundsDown(p) then Dec(p, ChosenSlot(p)) else 10 - Dec(p, ChosenSlot(p))
  }

  /**
   Which way it is rounded: down exactly when some quotient other than 1 has a decimal below 5 that
   is nearer to 0 than every decimal is to 10. So a tie is rounded up.
   */
  lemma RoundsDownExactly(p: nat)
    ensures RoundsDown(p) <==>
              exists j: nat :: j < WIDTHS && Int(p, j) != 1 && Dec(p, j) < 5 && BelowAll(p, Dec(p, j))
  {
    hide Int, Dec;
    LastMinMeans(p, WIDTHS);
    LastMaxMeans(p, WIDTHS);
    SomeQuotientIsNotOne(p);
    var lo, hi := LastMin(p, WIDTHS).pos, LastMax(p, WIDTHS).pos;
    if RoundsDown(p) {
      assert Int(p, lo) != 1 && Dec(p, lo) < 5 && BelowAll(p, Dec(p, lo));
    }
    forall j: nat | j < WIDTHS && Int(p, j) != 1 && Dec(p, j) < 5 && BelowAll(p, Dec(p, j))
      ensures RoundsDown(p)
    {
      assert Dec(p, lo) <= Dec(p, j) && Dec(p, j) + Dec(p, hi) < 10;
    }
  }

  /** Rounding down by t tenths is less than rounding up at any width. */
  predicate BelowAll(p: nat, t: nat) {
    forall k :: 0 <= k < WIDTHS ==> t + Dec(p, k) < 10
  }

  /**
   The chosen width: the largest one with the least decimal of a quotient other than 1, or with the
   greatest decimal.
   */
  lemma ChosenExactly(p: nat)
    ensures var s := ChosenSlot(p);
            && s < WIDTHS
            && (if RoundsDown(p) then
                  Int(p, s) != 1 && forall j :: 0 <= j < WIDTHS && Int(p, j) != 1 ==>
                    Dec(p, s) <= Dec(p, j) && (j > s ==> Dec(p, s) < Dec(p, j))
                else
                  forall j :: 0 <= j < WIDTHS ==>
                    Dec(p, j) <= Dec(p, s) && (j > s ==> Dec(p, j) < Dec(p, s)))
  {
    hide Int, Dec;
    LastMinMeans(p, WIDTHS);
    LastMaxMeans(p, WIDTHS);
    SomeQuotientIsNotOne(p);
  }

  /** The setting: the quotient of the ratio by the width, rounded that way, less 1. */
  lemma ChoiceExactly(p: nat)
    ensures var w, s := ChosenSlot(p) + 4, Choice(p);
            && s.bwpc + 1 == w
            && s.div == if !RoundsDown(p) then p / w else if p / w == 0 then U32 - 1 else p / w - 1
  {
    hide RoundsDown, ChosenSlot, Int, Dec;
    ChoiceRounds(p);
    SplitTenths(p, ChosenSlot(p));
  }

  // ----- optimality -----

  function Abs(x: int): (a: nat) {
    if x < 0 then -x else x
  }

  /** How many tenths the quotient q is away from the truncated quotient at slot j. */
  function Distance(p: nat, j: nat, q: nat): (t: nat) {
    Abs(10 * q - Tenths(p, j))
  }

  /**
   Optimality: no bit width from 3 to 15 together with any divider of at least 1 comes nearer,
   measured in tenths of the quotient, than the setting that is chosen.
   */
  lemma ChoiceIsOptimal(p: nat, j: nat, q: nat)
    requires j < WIDTHS && q >= 2
    ensures ChosenSlot(p) < WIDTHS && Distance(p, ChosenSlot(p), Quotient(p)) <= Distance(p, j, q)
  {
    ChoiceRounds(p);
    var s := ChosenSlot(p);
    assert Tenths(p, s) == 10 * Int(p, s) + Dec(p, s);
    assert Distance(p, s, Quotient(p)) == Rounding(p);
    assert Tenths(p, j) == 10 * Int(p, j) + Dec(p, j);
    if q <= Int(p, j) {
      assert Int(p, j) != 1;
    }
  }

  // ----- when the chosen divider is real -----

  /** The divider is at least 1 and was not produced by wrapping below zero. */
  predicate Usable(s: Setting) {
    1 <= s.div < U32 - 1
  }

  lemma LargeQuotient(p: nat, j: nat)
    requires p >= 16 && j < WIDTHS
    ensures Int(p, j) >= 1 && Int(p, j) <= p
  {
    var w, t := j + 4, Tenths(p, j);
    DivStep(10 * p, w);
    if t < 10 {
      MulMono(t + 1, 10, w);
    }
    if t >= 10 * p + 1 {
      MulMono(10 * p + 1, t, w);
      MulMono(1, w, 10 * p);
    }
  }

  /** The chosen setting as inequalities, without divisions. */
  lemma ChosenBounds(p: nat)
    ensures var s, t, q := ChosenSlot(p), Tenths(p, ChosenSlot(p)), Quotient(p);
            && s < WIDTHS
            && t * (s + 4) <= 10 * p < t * (s + 4) + (s + 4)
            && (if RoundsDown(p) then 10 * q <= t <= 10 * q + 4 && q != 1 else 10 * q - 5 <= t <= 10 * q - 1)
            && Abs(10 * q - t) == Rounding(p)
  {
    hide LastMin, LastMax, RoundsDown, ChosenSlot;
    ChoiceRounds(p);
    DivStep(10 * p, ChosenSlot(p) + 4);
    assert Tenths(p, ChosenSlot(p)) == 10 * Int(p, ChosenSlot(p)) + Dec(p, ChosenSlot(p));
  }

  /** An exact quotient of at least 2 somewhere makes the choice exact, and at least 2. */
  lemma ExactQuotient(p: nat, j: nat)
    requires p >= 2 && j < WIDTHS && Dec(p, j) == 0 && Int(p, j) >= 2
    ensures Quotient(p) >= 2
  {
    hide LastMin, LastMax, RoundsDown, ChosenSlot, Quotient, Tenths;
    ChoiceRounds(p);
    ChosenBounds(p);
    var t, q, w := Tenths(p, ChosenSlot(p)), Quotient(p), ChosenSlot(p) + 4;
    assert Rounding(p) == 0;
    if q == 0 {
      MulMono(t, 0, w);
    }
  }

  lemma SmallRatiosReal()
    ensures Quotient(8) >= 2 && Quotient(10) >= 2 && Quotient(12) >= 2 && Quotient(14) >= 2 && Quotient(15) >= 2
  {
    hide LastMin, LastMax, RoundsDown, ChosenSlot, Quotient;
    ExactQuotient(8, 0);
    ExactQuotient(10, 1);
    ExactQuotient(12, 2);
    ExactQuotient(14, 3);
    ExactQuotient(15, 1);
  }

  lemma SmallDecimals()
    ensures Dec(6, 3) == 8 && Dec(9, 6) == 9
  {
  }

  lemma SmallRatiosUnreal(p: nat)
    requires p <= 4 || p == 6 || p == 9
    ensures Quotient(p) <= 1
  {
    hide LastMin, LastMax, RoundsDown, ChosenSlot, Quotient, Tenths, Dec, Int, Rounding;
    ChoiceRounds(p);
    ChosenBounds(p);
    SmallDecimals();
    if Quotient(p) >= 2 {
      MulMono(15, Tenths(p, ChosenSlot(p)), ChosenSlot(p) + 4);
    }
  }

  /** At the ratio 9 the candidates are 2.2, to be rounded down, and 0.9, to be rounded up. */
  lemma TableAt9()
    ensures Int(9, 0) == 2 && Dec(9, 0) == 2 && Int(9, 6) == 0 && Dec(9, 6) == 9
    ensures forall j :: 1 <= j < WIDTHS ==> Int(9, j) == 1 || Dec(9, j) >= 5
    ensures forall j :: 0 <= j < WIDTHS && j != 6 ==> Dec(9, j) <= 8
  {
  }

  lemma ChoiceAt9()
    ensures Choice(9) == Setting(9, 0)
  {
    hide LastMin, LastMax, Int, Dec;
    LastMinMeans(9, WIDTHS);
    LastMaxMeans(9, WIDTHS);
    TableAt9();
  }

  lemma TableAt2()
    ensures Int(2, 12) == 0 && Dec(2, 12) == 1
    ensures forall j :: 0 <= j < WIDTHS ==> 1 <= Dec(2, j) <= 5
  {
  }

  lemma ChoiceAt2()
    ensures Choice(2) == Setting(15, U32 - 1)
  {
    hide LastMin, LastMax, Int, Dec;
    LastMinMeans(2, WIDTHS);
    LastMaxMeans(2, WIDTHS);
    TableAt2();
  }

  /** What a caller can check: the clock ticks per bit, in tenths, are 7.0 to 8.5 or at least 9.6. */
  predicate Workable(baud: nat, sysclk: nat)
    requires baud >= 1
  {
    var t := 10 * sysclk / baud;
    70 <= t <= 85 || t >= 96
  }

  /** The search aims at 8 or at a ratio of at least 10 exactly for the workable clocks. */
  lemma WorkableExactly(baud: nat, sysclk: nat)
    requires baud >= 1 && 10 * sysclk < U32
    ensures var p := AdjustedRatio(baud, sysclk); p == 8 || p >= 10 <==> Workable(baud, sysclk)
  {
    RatioBounds(baud, sysclk);
    SmallAccepted();
    hide Accepted;
  }

  lemma SmallAccepted()
    ensures Accepted(5) && Accepted(7) && Accepted(11)
    ensures !Accepted(6) && !Accepted(8) && !Accepted(9) && !Accepted(10)
  {
    SmallPrimes();
    RejectSmall(6);
    RejectSmall(8);
    RejectSmall(9);
    RejectSmall(10);
  }

  /** The chosen divider is real exactly when the clock is workable for the baud rate. */
  lemma UsableExactly(baud: nat, sysclk: nat)
    requires baud >= 1 && 10 * sysclk < U32
    ensures var s := Choice(AdjustedRatio(baud, sysclk));
            && (Usable(s) <==> Workable(baud, sysclk))
            && 3 <= s.bwpc <= 15
  {
    hide AdjustedRatio, Choice, Workable;
    WorkableExactly(baud, sysclk);
    UsableRatios(baud, sysclk);
  }

  /** Two clocks that are not: 16 MHz at 1.8 Mbaud gives div 0, at 16 Mbaud a div of 2^32 - 1. */
  lemma UnworkableExamples()
    ensures Choice(AdjustedRatio(1_800_000, 16_000_000)) == Setting(9, 0)
    ensures Choice(AdjustedRatio(16_000_000, 16_000_000)) == Setting(15, U32 - 1)
  {
    SmallAccepted();
    assert AdjustedRatio(1_800_000, 16_000_000) == 9;
    assert AdjustedRatio(16_000_000, 16_000_000) == 2;
    ChoiceAt9();
    ChoiceAt2();
  }

  lemma UsableRatios(baud: nat, sysclk: nat)
    requires baud >= 1 && 10 * sysclk < U32
    ensures var p := AdjustedRatio(baud, sysclk);
            && (Usable(Choice(p)) <==> p == 8 || p >= 10)
            && 3 <= Choice(p).bwpc <= 15
  {
    hide LastMin, LastMax, RoundsDown, ChosenSlot, Quotient, AdjustedRatio;
    var p := AdjustedRatio(baud, sysclk);
    AdjustedBounds(baud, sysclk);
    ChoiceRounds(p);
    QuotientBelow(p);
    if p >= 16 {
      QuotientLarge(p);
    } else {
      SmallPrimes();
      SmallRatiosReal();
      if p <= 4 || p == 6 || p == 9 {
        SmallRatiosUnreal(p);
      }
    }
  }

  lemma AdjustedBounds(baud: nat, sysclk: nat)
    requires baud >= 1 && 10 * sysclk < U32
    ensures var p, r := AdjustedRatio(baud, sysclk), sysclk / baud;
            && r <= p <= r + 1 && 1 <= p && 10 * p < U32
            && (p > 3 ==> !Prime(p))
  {
    RatioBounds(baud, sysclk);
    AdjustedIsRejected(baud, sysclk);
  }

  lemma QuotientLarge(p: nat)
    requires p >= 16
    ensures Quotient(p) >= 2
  {
    hide LastMin, LastMax, ChosenSlot, Int, Dec;
    ChoiceRounds(p);
    LargeQuotient(p, ChosenSlot(p));
  }

  lemma SmallPrimes()
    ensures Prime(5) && Prime(7) && Prime(11) && Prime(13)
  {
  }

  lemma QuotientBelow(p: nat)
    ensures Quotient(p) <= p + 1
  {
    hide LastMin, LastMax, RoundsDown, ChosenSlot, Quotient, Tenths, Rounding;
    ChosenBounds(p);
    MulMono(4, ChosenSlot(p) + 4, Tenths(p, ChosenSlot(p)));
  }

  // ----- the error -----

  lemma RoundedQuotient(p: nat, q: nat, w: nat, t: nat)
    requires t * w <= 10 * p < t * w + w && 10 * q - 5 <= t <= 10 * q + 4
    ensures 2 * Abs(q * w - p) <= w
  {
    MulMono(10 * q - 5, t, w);
    MulMono(t, 10 * q + 4, w);
    assert (10 * q - 5) * w == 10 * (q * w) - 5 * w;
    assert (10 * q + 4) * w == 10 * (q * w) + 4 * w;
  }

  /** Rounding the quotient to an integer moves the ratio by at most half the width. */
  lemma HalfWidth(p: nat)
    ensures var w := ChosenSlot(p) + 4; 2 * Abs(Quotient(p) * w - p) <= w
  {
    hide LastMin, LastMax, RoundsDown, ChosenSlot, Quotient, Tenths, Rounding, Abs;
    ChosenBounds(p);
    RoundedQuotient(p, Quotient(p), ChosenSlot(p) + 4, Tenths(p, ChosenSlot(p)));
  }

  /** The ratio aimed at is within one of the exact one. */
  lemma RatioWithinOne(baud: nat, sysclk: nat)
    requires baud >= 1
    ensures Abs(AdjustedRatio(baud, sysclk) * baud - sysclk) <= baud
  {
    DivStep(sysclk, baud);
    var r := sysclk / baud;
    assert (r + 1) * baud == r * baud + baud;
  }

  lemma ScaledError(x: int, w: int, b: nat)
    requires -w <= 2 * x <= w
    ensures -(w * b) <= 2 * (x * b) <= w * b
  {
    MulMono(2 * x, w, b);
    MulMono(-w, 2 * x, b);
    assert (2 * x) * b == 2 * (x * b) && (-w) * b == -(w * b);
  }

  lemma ErrorsAdd(p: nat, q: nat, w: nat, baud: nat, sysclk: nat)
    requires 2 * Abs(q * w - p) <= w && Abs(p * baud - sysclk) <= baud
    ensures 2 * Abs(q * w * baud - sysclk) <= (w + 2) * baud
  {
    var x := q * w - p;
    ScaledError(x, w, baud);
    Distribute(x, p, baud);
    Distribute(w, 2, baud);
  }

  /**
   The baud rate error: whenever the divider is real, the clock ticks of
   (div + 1) * (bwpc + 1) * baud differ from sysclk by at most (bwpc + 3) / 2 times the baud rate.
   */
  lemma BaudErrorBound(baud: nat, sysclk: nat)
    requires baud >= 1 && 10 * sysclk < U32
    ensures var p := AdjustedRatio(baud, sysclk);
            var s := Choice(p);
            Workable(baud, sysclk) ==>
              2 * Abs((s.div + 1) * (s.bwpc + 1) * baud - sysclk) <= (s.bwpc + 3) * baud
  {
    hide LastMin, LastMax, RoundsDown, ChosenSlot, Quotient, AdjustedRatio, Abs;
    var p := AdjustedRatio(baud, sysclk);
    WorkableExactly(baud, sysclk);
    UsableRatios(baud, sysclk);
    HalfWidth(p);
    RatioWithinOne(baud, sysclk);
    ErrorsAdd(p, Quotient(p), ChosenSlot(p) + 4, baud, sysclk);
  }

  // ----- exact settings -----

  /** The clock ticks per bit of a setting. */
  function Ticks(s: Setting): (t: nat) {
    (s.div + 1) * (s.bwpc + 1)
  }

  /** A quotient other than 1 whose first decimal is 0: the width divides p, or leaves 1 and is above 10. */
  predicate Near(p: nat, w: nat)
    requires w >= 1
  {
    p / w != 1 && (p % w == 0 || (w >= 11 && p % w == 1))
  }

  /** A width that divides the ratio, with a divider of at least 1. */
  predicate ExactWidth(r: nat, v: nat) {
    4 <= v <= 16 && r % v == 0 && r / v >= 2
  }

  function LargestNear(p: nat, k: nat): (w: nat)
    ensures w == 0 || 4 <= w <= k
    ensures w > 0 ==> Near(p, w)
    ensures forall v :: (if w < 4 then 4 else w + 1) <= v <= k ==> !Near(p, v)
  {
    if k < 4 then 0 else if Near(p, k) then k else LargestNear(p, k - 1)
  }

  lemma SplitTenths(p: nat, j: nat)
    requires j < WIDTHS
    ensures Int(p, j) == p / (j + 4) && Dec(p, j) == 10 * (p % (j + 4)) / (j + 4)
  {
    var w := j + 4;
    TenfoldSplit(p, w, p / w, p % w, 10 * (p % w) / w);
  }

  lemma TenfoldSplit(p: nat, w: nat, a: nat, b: nat, c: nat)
    requires w >= 1 && a == p / w && b == p % w && c == 10 * b / w
    ensures 10 * p / w == 10 * a + c && c < 10
  {
    DivStep(10 * b, w);
    if c >= 10 {
      MulMono(10, c, w);
    }
    assert p == a * w + b;
    Distribute(10 * a, c, w);
    assert 10 * a * w == 10 * (a * w);
    QuotientIs(10 * p, w, 10 * a + c);
  }

  lemma NearIsZero(p: nat, j: nat)
    requires j < WIDTHS
    ensures Near(p, j + 4) <==> Int(p, j) != 1 && Dec(p, j) == 0
  {
    hide Int, Dec;
    SplitTenths(p, j);
    SmallRemainder(p % (j + 4), j + 4);
  }

  lemma SmallRemainder(b: nat, w: nat)
    requires 4 <= w <= 16 && b < w
    ensures 10 * b / w == 0 <==> b == 0 || (b == 1 && w >= 11)
  {
    DivStep(10 * b, w);
    if 10 * b < w {
      QuotientIs(10 * b, w, 0);
    }
  }

  lemma NearFound(p: nat, v: nat)
    requires 4 <= v <= 16 && Near(p, v)
    ensures LargestNear(p, 16) >= v
  {
    hide Near;
    var w := LargestNear(p, 16);
  }

  /** A zero decimal always wins, and the last of them is taken, exact or not. */
  lemma LastNear(p: nat)
    ensures var w := LargestNear(p, 16);
            w != 0 ==> RoundsDown(p) && ChosenSlot(p) == w - 4 && Quotient(p) == p / w
  {
    hide LastMin, LastMax, Int, Dec, Near;
    var w := LargestNear(p, 16);
    if w != 0 {
      LastMinMeans(p, WIDTHS);
      LastMaxMeans(p, WIDTHS);
      var pos := LastMin(p, WIDTHS).pos;
      NearIsZero(p, w - 4);
      NearIsZero(p, pos);
      SplitTenths(p, w - 4);
    }
  }

  /**
   When an exact setting is found. Say some width divides the ratio, with a quotient of at least
   2. The choice is the largest width whose quotient has the first decimal 0, so it is exact
   if and only if that one divides the ratio too.
   */
  lemma ExactExactly(baud: nat, sysclk: nat, v: nat)
    requires baud >= 1 && 10 * sysclk < U32 && sysclk % baud == 0 && !Accepted(sysclk / baud)
    requires ExactWidth(sysclk / baud, v)
    ensures var r := sysclk / baud;
            var w, s := LargestNear(r, 16), Choice(AdjustedRatio(baud, sysclk));
            && w >= v && s.bwpc + 1 == w && s.div + 1 == r / w
            && (Ticks(s) * baud == sysclk <==> r % w == 0)
  {
    WholeRatio(baud, sysclk);
    hide Choice, Accepted, LargestNear, Near, AdjustedRatio, Ticks, ExactWidth;
    var r := sysclk / baud;
    ExactRatio(r, v);
    SameMultiple(Ticks(Choice(r)), r, baud);
  }

  lemma ExactRatio(r: nat, v: nat)
    requires ExactWidth(r, v)
    ensures var w, s := LargestNear(r, 16), Choice(r);
            w >= v && s.bwpc + 1 == w && s.div + 1 == r / w && (Ticks(s) == r <==> r % w == 0)
  {
    hide Choice, LargestNear, Near, Ticks, ExactWidth;
    NearDivisor(r, v);
    NearFound(r, v);
    NearChoice(r);
    NearIsExact(r, LargestNear(r, 16), Choice(r));
  }

  lemma NearChoice(r: nat)
    requires r >= 8 && LargestNear(r, 16) != 0
    ensures var w, s := LargestNear(r, 16), Choice(r); s.bwpc + 1 == w && s.div + 1 == r / w >= 2
  {
    hide RoundsDown, ChosenSlot, Quotient, LargestNear, Near;
    LastNear(r);
    NearQuotient(r, LargestNear(r, 16));
  }

  lemma NearDivisor(r: nat, v: nat)
    requires ExactWidth(r, v)
    ensures Near(r, v) && r >= 8 && 4 <= v <= 16
  {
    RatioAtLeast(r, v);
  }

  lemma NearQuotient(r: nat, w: nat)
    requires w >= 1 && Near(r, w) && r >= 8
    ensures r / w >= 2
  {
  }

  lemma NearIsExact(r: nat, w: nat, s: Setting)
    requires w >= 1 && s.bwpc + 1 == w && s.div + 1 == r / w
    ensures Ticks(s) == r <==> r % w == 0
  {
  }

  lemma WholeRatio(baud: nat, sysclk: nat)
    requires baud >= 1 && sysclk % baud == 0
    ensures sysclk == sysclk / baud * baud
    ensures AdjustedRatio(baud, sysclk) == sysclk / baud + if Accepted(sysclk / baud) then 1 else 0
  {
    var r := sysclk / baud;
    assert 10 * sysclk == 10 * r * baud + 0;
    QuotientIs(10 * sysclk, baud, 10 * r);
  }

  lemma RatioAtLeast(r: nat, v: nat)
    requires v >= 4 && r / v >= 2
    ensures r >= 8
  {
    DivStep(r, v);
    MulMono(2, r / v, v);
  }

  lemma SameMultiple(x: nat, y: nat, b: nat)
    requires b >= 1
    ensures x * b == y * b <==> x == y
  {
    if x < y {
      MulMono(x + 1, y, b);
      Distribute(x, 1, b);
    } else if y < x {
      MulMono(y + 1, x, b);
      Distribute(y, 1, b);
    }
  }

  /** 16 MHz at 160 kbaud: the ratio is 100 and 10 * 10 is exact, but 99 ticks are chosen. */
  lemma NearMissExample()
    ensures ExactWidth(100, 10)
    ensures Choice(AdjustedRatio(160_000, 16_000_000)) == Setting(10, 8)
  {
    RejectSmall(100);
    WholeRatio(160_000, 16_000_000);
    NearChoice(100);
  }

  // ----- what a misclassified ratio costs -----

  /** The square of a prime is divided by no width but the prime itself. */
  lemma WidthOfSquare(p: nat, w: nat)
    requires Prime(p) && p % 6 == 5 && 4 <= w <= 16 && p * p % w == 0
    ensures w == p && (p == 5 || p == 11)
  {
    MulMono(5, p, p);
    if w < p {
      DivisorOfSquare(p, w);
    } else if w > p {
      var c := Cofactor(p * p, w);
      if c >= p {
        MulMono(p, c, w);
        MulMono(p + 1, w, p);
      }
      DivisorOfSquare(p, c);
    }
  }

  /**
   The ratios that are taken for primes, squares r of primes 5 modulo 6, are moved up by one. Only
   25 and 121 of them have an exact setting, and the search still finds the one at 121, so an
   exact setting is lost at 25 alone. Elsewhere the ticks are off by at most (bwpc + 3) / 2.
   */
  lemma SquareCost(baud: nat, sysclk: nat)
    requires baud >= 1 && 10 * sysclk < U32 && sysclk % baud == 0 && SquareOfPrime5Mod6(sysclk / baud)
    ensures var r := sysclk / baud;
            var s := Choice(AdjustedRatio(baud, sysclk));
            && AdjustedRatio(baud, sysclk) == r + 1
            && ((exists v :: ExactWidth(r, v)) <==> r == 25 || r == 121)
            && (Ticks(s) == r <==> r == 121)
            && 2 * Abs(Ticks(s) - r) <= s.bwpc + 3
  {
    hide RoundsDown, Quotient, ChosenSlot, Abs, Tenths;
    var r := sysclk / baud;
    var p: nat :| Prime(p) && p % 6 == 5 && r == p * p;
    WholeRatio(baud, sysclk);
    AdjustedBounds(baud, sysclk);
    SquareWidths(p);
    SquareTicks(p);
  }

  lemma SquareWidths(p: nat)
    requires Prime(p) && p % 6 == 5
    ensures (exists v :: ExactWidth(p * p, v)) <==> p * p == 25 || p * p == 121
  {
    if v :| ExactWidth(p * p, v) {
      WidthOfSquare(p, v);
    }
    assert ExactWidth(25, 5) && ExactWidth(121, 11);
  }

  lemma SquareTicks(p: nat)
    requires Prime(p) && p % 6 == 5
    ensures var s := Choice(p * p + 1);
            (Ticks(s) == p * p <==> p * p == 121) && 2 * Abs(Ticks(s) - p * p) <= s.bwpc + 3
  {
    hide Choice, Ticks, Prime;
    MulMono(5, p, p);
    TicksWithinHalf(p * p + 1);
    TicksAtSmallSquares();
    if p != 5 && p != 11 {
      TicksMissSquare(p);
    }
  }

  lemma TicksAtSmallSquares()
    ensures Ticks(Choice(26)) == 26 && Ticks(Choice(122)) == 121
  {
    hide Choice;
    assert LargestNear(26, 16) == 13;
    NearChoice(26);
    assert LargestNear(122, 16) == 11;
    NearChoice(122);
  }

  lemma TicksMissSquare(p: nat)
    requires Prime(p) && p % 6 == 5 && p != 5 && p != 11
    ensures Ticks(Choice(p * p + 1)) != p * p
    ensures p * p != 121
  {
    var s := Choice(p * p + 1);
    hide Choice;
    WidthInRange(p * p + 1);
    if Ticks(s) == p * p {
      MultipleMod(s.div + 1, s.bwpc + 1);
      WidthOfSquare(p, s.bwpc + 1);
    }
    if p < 11 {
      MulMono(p, 10, p);
      MulMono(p, 10, 10);
    } else {
      MulMono(12, p, p);
      MulMono(12, p, 12);
    }
  }

  lemma TicksWithinHalf(p: nat)
    requires p >= 16
    ensures var s := Choice(p); 2 * Abs(Ticks(s) - p) <= s.bwpc + 1
  {
    hide RoundsDown, Quotient, ChosenSlot, Abs;
    HalfWidth(p);
    QuotientLarge(p);
  }

  /** 16 MHz at 640 kbaud is 25 ticks, exactly 5 * 5, but 26 are chosen. */
  lemma SquareExample()
    ensures Choice(AdjustedRatio(640_000, 16_000_000)) == Setting(12, 1)
  {
    TwentyFive();
    WholeRatio(640_000, 16_000_000);
    NearChoice(26);
  }

  /** 16.81 MHz at 10 kbaud is 41 * 41 ticks: 1683 are chosen, 2 off; for the ratio itself 1680 would be. */
  lemma LargeSquareExample()
    ensures Choice(AdjustedRatio(10_000, 16_810_000)) == Setting(10, 152)
    ensures Choice(1681) == Setting(15, 104)
  {
    assert Prime(41) && 1681 == 41 * 41;
    assert Accepted(1681);
    WholeRatio(10_000, 16_810_000);
    ChoiceAt1682();
    NearChoice(1681);
  }

  lemma TableAt1682()
    ensures Dec(1682, 0) == 5 && Dec(1682, 1) == 4 && Dec(1682, 2) == 3 && Dec(1682, 3) == 2
    ensures Dec(1682, 4) == 2 && Dec(1682, 5) == 8 && Dec(1682, 6) == 2 && Dec(1682, 7) == 9
    ensures Dec(1682, 8) == 1 && Dec(1682, 9) == 3 && Dec(1682, 10) == 1 && Dec(1682, 11) == 1 && Dec(1682, 12) == 1
    ensures Int(1682, 7) == 152
  {
  }

  lemma ChoiceAt1682()
    ensures Choice(1682) == Setting(10, 152)
  {
    hide LastMin, LastMax, Int, Dec;
    LastMinMeans(1682, WIDTHS);
    LastMaxMeans(1682, WIDTHS);
    TableAt1682();
  }

  // ----- the divider register -----

  /** The register keeps a real divider exactly when the ratio is below 32768.5 times the width. */
  lemma KeptExactly(p: nat)
    requires Usable(Choice(p))
    ensures var s := Choice(p); RegisterDiv(s.div) == s.div <==> 2 * p < 65537 * (s.bwpc + 1)
  {
    hide LastMin, LastMax, RoundsDown, ChosenSlot, Quotient, Tenths, Rounding, Abs;
    ChosenBounds(p);
    var t, q, w := Tenths(p, ChosenSlot(p)), Quotient(p), ChosenSlot(p) + 4;
    if q <= 0x8000 {
      MulMono(t, 327684, w);
    } else {
      MulMono(327685, t, w);
    }
  }

  /** Where the range of what fits ends, whatever width is chosen, and that both ends are sharp. */
  lemma KeptByRatio(p: nat)
    requires Usable(Choice(p))
    ensures p <= 131083 ==> RegisterDiv(Choice(p).div) == Choice(p).div
    ensures p >= 524290 ==> RegisterDiv(Choice(p).div) != Choice(p).div
    ensures p == 131084 ==> RegisterDiv(Choice(p).div) != Choice(p).div
    ensures p == 524289 ==> RegisterDiv(Choice(p).div) == Choice(p).div
  {
    hide Choice, Usable, RegisterDiv;
    KeptExactly(p);
    WidthInRange(p);
    if 131074 <= p <= 131083 {
      NotWidth4(p);
    } else if 524290 <= p <= 524295 {
      NotWidth16(p);
    } else if p == 131084 {
      NearChoice(p);
    } else if p == 524289 {
      NearChoice(p);
    }
  }

  lemma NotWidth4(p: nat)
    requires 131074 <= p <= 131083
    ensures Choice(p).bwpc >= 4
  {
    hide RoundsDown, Quotient, ChosenSlot, LargestNear, Near;
    if p == 131074 || p == 131078 || p == 131081 {
      NotSlot0(p);
    } else {
      var v := NearAbove4(p);
      NearFound(p, v);
      NearChoice(p);
    }
  }

  lemma NearAbove4(p: nat) returns (v: nat)
    requires 131074 <= p <= 131083 && p != 131074 && p != 131078 && p != 131081
    ensures 5 <= v <= 16 && Near(p, v)
  {
    v := if p == 131075 then 7 else if p <= 131077 then 12 else if p <= 131080 then 13 else 14;
  }

  lemma NotWidth16(p: nat)
    requires 524290 <= p <= 524295
    ensures Choice(p).bwpc <= 14
  {
    hide RoundsDown, Quotient, ChosenSlot;
    var v := if p <= 524291 then 13 else if p <= 524293 then 12 else if p == 524294 then 11 else 15;
    assert Near(p, v) && !Near(p, 16);
    hide LargestNear, Near;
    NearFound(p, v);
    NearChoice(p);
  }

  lemma DecimalsAtBand()
    ensures Dec(131074, 0) == 5 && Dec(131074, 1) == 8
    ensures Dec(131078, 0) == 5 && Dec(131078, 9) == 9
    ensures Dec(131081, 0) == 2 && Dec(131081, 10) == 9
  {
  }

  lemma NotSlot0(p: nat)
    requires p == 131074 || p == 131078 || p == 131081
    ensures ChosenSlot(p) != 0
  {
    hide RoundsDown, ChosenSlot, Dec, Int;
    ChoiceRounds(p);
    DecimalsAtBand();
  }

  lemma WidthInRange(p: nat)
    ensures 3 <= Choice(p).bwpc <= 15
  {
    hide RoundsDown, Quotient, ChosenSlot;
    ChoiceRounds(p);
  }

  /** A lost divider is off by at least 2^15 whole periods of the width. */
  lemma LostIsFar(q: nat, d: nat, w: nat, baud: nat, sysclk: nat)
    requires 2 * Abs(q * w * baud - sysclk) <= (w + 2) * baud
    requires 1 <= d && d + 0x8000 <= q && w >= 4 && baud >= 1
    ensures 2 * Abs(d * w * baud - sysclk) > (w + 2) * baud
  {
    var gap := q - d;
    Distribute(d, gap, w);
    Distribute(d * w, gap * w, baud);
    MulMono(0x8000, gap, w);
    MulMono(0x8000 * w, gap * w, baud);
    MulMono(w + 3, 0x8000 * w, baud);
    Distribute(w + 2, 1, baud);
  }

  /**
   The error bound for the registers: with a workable clock it holds exactly when the divider is
   kept.
   */
  lemma RegisterErrorExactly(baud: nat, sysclk: nat)
    requires baud >= 1 && 10 * sysclk < U32 && Workable(baud, sysclk)
    ensures var s := Choice(AdjustedRatio(baud, sysclk));
            var d := RegisterDiv(s.div);
            && (d == s.div <==> 2 * AdjustedRatio(baud, sysclk) < 65537 * (s.bwpc + 1))
            && (2 * Abs((d + 1) * (s.bwpc + 1) * baud - sysclk) <= (s.bwpc + 3) * baud <==> d == s.div)
  {
    hide AdjustedRatio, Choice, Workable, Abs;
    var p := AdjustedRatio(baud, sysclk);
    var s := Choice(p);
    UsableExactly(baud, sysclk);
    KeptExactly(p);
    BaudErrorBound(baud, sysclk);
    if RegisterDiv(s.div) != s.div {
      LostIsFar(s.div + 1, RegisterDiv(s.div) + 1, s.bwpc + 1, baud, sysclk);
    }
  }

  lemma LostRatio()
    ensures AdjustedRatio(110, 48_000_000) == 436364
  {
    RejectSmall(436364);
  }

  /** 48 MHz at 110 baud: the divider 109090 does not fit, and the register gets 10786. */
  lemma LostExample()
    ensures Choice(AdjustedRatio(110, 48_000_000)) == Setting(3, 109090)
    ensures RegisterDiv(109090) == 10786
  {
    LostRatio();
    hide Choice, AdjustedRatio;
    assert LargestNear(436364, 16) == 4;
    NearChoice(436364);
  }
}
