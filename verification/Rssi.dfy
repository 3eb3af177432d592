/**
 The received signal strength average of firmware/drivers/8258/emi.c: rf_emi_rx starts it and
 every good packet seen by rf_emi_rx_loop is averaged in with weight one half.
 */
module Rssi {
  import opened Arith

  /** The value of a signed char. */
  function ToS8(x: int): (r: int)
    ensures -128 <= r <= 127 && (x - r) % 0x100 == 0
  {
    (x + 128) % 0x100 - 128
  }

  /** The reading is the accumulator less 110 up to 237, and wraps to a negative number above that. */
  lemma ReadingExactly(buf: nat)
    ensures ToS8(buf - 110) == buf - 110 <==> buf <= 237
  {
  }

  datatype State = State(buf: nat, cnt: nat)

  const START := State(0, 0)

  function Step(st: State, sample: nat): (r: State) {
    var sum := (st.buf + sample) % U32;
    State(if st.cnt != 0 then sum / 2 else sum, (st.cnt + 1) % U32)
  }

  function Run(ss: seq<nat>): (r: State) {
    if ss == [] then START else Step(Run(ss[..|ss| - 1]), ss[|ss| - 1])
  }

  class Receiver {
    var emiRssibuf: nat
    var emiRxCnt: nat
    var rssi: int

    ghost predicate Saw(ss: seq<nat>)
      reads this
    {
      State(emiRssibuf, emiRxCnt) == Run(ss)
    }

    /** The counters as rf_emi_rx resets them. */
    constructor ()
      ensures Saw([]) && rssi == 0
    {
      emiRssibuf, emiRxCnt, rssi := 0, 0, 0;
    }

    /** rf_emi_rx_loop: pending is bit 0 of 0xf20, status the low bits of 0x44f. */
    method RxLoop(pending: bool, status: nat, sample: nat, ghost ss: seq<nat>)
      requires sample < 0x100 && Saw(ss) && emiRssibuf < U32
      modifies this
      ensures Saw(if pending && status % 0x10 == 0 then ss + [sample] else ss)
      ensures rssi == if pending && status % 0x10 == 0 then ToS8(emiRssibuf - 110) else old(rssi)
    {
      if pending && status % 0x10 == 0 {
        assert (ss + [sample])[..|ss|] == ss;
        emiRssibuf := (emiRssibuf + sample) % U32;
        if emiRxCnt != 0 {
          if emiRssibuf != 0 {
            emiRssibuf := emiRssibuf / 2;
          }
        }
        rssi := ToS8(emiRssibuf - 110);
        emiRxCnt := (emiRxCnt + 1) % U32;
      }
    }
  }

  // ----- accuracy -----

  /** The exact running average: the first sample, then the mean with each further one. */
  function Exact(ss: seq<nat>): (e: real)
    requires ss != []
  {
    var last := ss[|ss| - 1] as real;
    if |ss| == 1 then last else (Exact(ss[..|ss| - 1]) + last) / 2.0
  }

  predicate Within(ss: seq<nat>, lo: nat, hi: nat) {
    forall i :: 0 <= i < |ss| ==> lo <= ss[i] <= hi
  }

  lemma RunLast(ss: seq<nat>)
    requires ss != []
    ensures Run(ss) == Step(Run(ss[..|ss| - 1]), ss[|ss| - 1]) && Run([]) == START
    ensures |ss| == 1 ==> ss[..|ss| - 1] == []
  {
  }

  lemma StepFirst(sample: nat)
    requires sample < 0x100
    ensures Step(START, sample) == State(sample, 1)
  {
  }

  // ----- the counter -----

  /**
   How far above the samples the accumulator can be after n packets. The packet that finds the
   counter back at 0 is added without halving; each later one halves the excess.
   */
  function Excess(n: nat, hi: nat): (x: nat)
    requires n >= 1
    ensures x <= hi
  {
    QuotientAtMost(hi, Pow2((n - 1) % U32));
    if n <= U32 then 0 else hi / Pow2((n - 1) % U32)
  }

  lemma QuotientAtMost(x: nat, p: nat)
    requires p >= 1
    ensures x / p <= x && (x / p == 0 <==> x < p)
  {
    var q := x / p;
    DivStep(x, p);
    MulMono(1, p, q);
    if q >= 1 {
      MulMono(1, q, p);
    }
  }

  /** The excess starts at hi with every packet that meets a wrapped counter, and is halved by the others. */
  lemma ExcessStep(n: nat, hi: nat)
    requires n >= 1
    ensures Excess(n + 1, hi) == if n % U32 == 0 then hi else Excess(n, hi) / 2
  {
    var k := (n - 1) % U32;
    CountStep(n);
    if n > U32 && n % U32 != 0 {
      HalveAgain(hi, k);
    } else if n % U32 == 0 {
      assert Pow2(0) == 1;
    }
  }

  lemma CountStep(n: nat)
    requires n >= 1
    ensures n % U32 == if (n - 1) % U32 == U32 - 1 then 0 else (n - 1) % U32 + 1
    ensures n % U32 == 0 ==> n >= U32
  {
  }

  lemma HalveAgain(x: nat, k: nat)
    ensures x / Pow2(k + 1) == x / Pow2(k) / 2
  {
    DivDiv(x, Pow2(k), 2);
  }

  /** The excess is gone exactly when hi is below the power of two, at the latest after 8 packets. */
  lemma NoExcess(n: nat, hi: nat)
    requires n >= 1
    ensures Excess(n, hi) == 0 <==> n <= U32 || hi < Pow2((n - 1) % U32)
    ensures hi < 0x100 && (n - 1) % U32 >= 8 ==> Excess(n, hi) == 0
  {
    QuotientAtMost(hi, Pow2((n - 1) % U32));
    Pow2Values();
    if (n - 1) % U32 >= 8 {
      Pow2Grows(8, (n - 1) % U32);
    }
  }

  // ----- range -----

  /** One packet that averages in, and one that meets the counter at 0. */
  lemma StepKinds(st: State, sample: nat)
    requires st.buf < 0x200 && sample < 0x100 && st.cnt < U32
    ensures Step(st, sample).buf == if st.cnt == 0 then st.buf + sample else (st.buf + sample) / 2
    ensures Step(st, sample).cnt == (st.cnt + 1) % U32
  {
  }

  lemma WithinFront(ss: seq<nat>, lo: nat, hi: nat)
    requires ss != [] && Within(ss, lo, hi)
    ensures Within(ss[..|ss| - 1], lo, hi) && lo <= ss[|ss| - 1] <= hi
  {
  }

  /**
   However long the run: the accumulator never falls below the smallest sample, and exceeds the
   largest by no more than the excess that is left since the counter last wrapped.
   */
  lemma {:induction false} RangeBound(ss: seq<nat>, lo: nat, hi: nat)
    requires ss != [] && hi < 0x100 && Within(ss, lo, hi)
    ensures lo <= Run(ss).buf <= hi + Excess(|ss|, hi) && Run(ss).cnt == |ss| % U32
  {
    hide Run, Step, Excess, Within;
    var front, last := ss[..|ss| - 1], ss[|ss| - 1];
    var n := |front|;
    RunLast(ss);
    WithinFront(ss, lo, hi);
    if front == [] {
      StepFirst(last);
    } else {
      RangeBound(front, lo, hi);
      StepKinds(Run(front), last);
      CountStep(n);
      CountStep(n + 1);
      ExcessStep(n, hi);
      if n % U32 == 0 {
        NoExcess(n, hi);
      }
    }
  }

  function Repeat(x: nat, n: nat): (ss: seq<nat>)
    ensures |ss| == n
  {
    seq(n, _ => x)
  }

  /** A steady signal attains the bound: at every length it reads itself plus the whole excess. */
  lemma {:induction false} SteadySignal(x: nat, n: nat)
    requires n >= 1 && x < 0x100
    ensures Run(Repeat(x, n)).buf == x + Excess(n, x)
  {
    hide Run, Step, Excess;
    var ss := Repeat(x, n);
    RunLast(ss);
    if n == 1 {
      StepFirst(x);
      NoExcess(1, x);
    } else {
      assert ss[..n - 1] == Repeat(x, n - 1);
      SteadySignal(x, n - 1);
      RangeBound(Repeat(x, n - 1), x, x);
      StepKinds(Run(Repeat(x, n - 1)), x);
      CountStep(n - 1);
      ExcessStep(n - 1, x);
      if (n - 1) % U32 == 0 {
        NoExcess(n - 1, x);
      }
    }
  }

  /** Whatever n samples between lo and hi arrive, the accumulator ends between lo and hi. */
  ghost predicate AlwaysInRange(n: nat, lo: nat, hi: nat) {
    forall ss: seq<nat> :: |ss| == n && Within(ss, lo, hi) ==> lo <= Run(ss).buf <= hi
  }

  /**
   Exactly which run lengths keep every signal in range: those before the counter wraps, and
   those at which the halvings since the last wrap have used up the excess. For the full range
   of samples that takes 8 packets.
   */
  lemma InRangeExactly(n: nat, lo: nat, hi: nat)
    requires n >= 1 && lo <= hi < 0x100
    ensures AlwaysInRange(n, lo, hi) <==> n <= U32 || hi < Pow2((n - 1) % U32)
    ensures AlwaysInRange(n, 0, 0xff) <==> n <= U32 || (n - 1) % U32 >= 8
  {
    hide Run, Excess;
    RangeExactlyWithoutExcess(n, lo, hi);
    RangeExactlyWithoutExcess(n, 0, 0xff);
    NoExcess(n, hi);
    NoExcess(n, 0xff);
    var k := (n - 1) % U32;
    Pow2Values();
    if k < 8 {
      Pow2Grows(k + 1, 8);
      Pow2Grows(k, k + 1);
    }
  }

  lemma RangeExactlyWithoutExcess(n: nat, lo: nat, hi: nat)
    requires n >= 1 && lo <= hi < 0x100
    ensures AlwaysInRange(n, lo, hi) <==> Excess(n, hi) == 0
  {
    hide Run, Excess;
    var worst := Repeat(hi, n);
    assert |worst| == n && Within(worst, lo, hi);
    SteadySignal(hi, n);
    if Excess(n, hi) == 0 {
      forall ss: seq<nat> | |ss| == n && Within(ss, lo, hi)
        ensures lo <= Run(ss).buf <= hi
      {
        RangeBound(ss, lo, hi);
      }
    }
  }

  /**
   Every packet that finds the counter back at 0 is added whole, so a strong signal is out of
   range at each wrap.
   */
  lemma CounterWrap(ss: seq<nat>, sample: nat, lo: nat, hi: nat)
    requires ss != [] && |ss| % U32 == 0 && hi < 0x100 && Within(ss + [sample], lo, hi)
    ensures Run(ss + [sample]).buf == Run(ss).buf + sample
    ensures lo >= 1 && 2 * lo > hi ==> Run(ss + [sample]).buf > hi
  {
    hide Run, Step, Excess;
    WithinFront(ss + [sample], lo, hi);
    assert (ss + [sample])[..|ss|] == ss;
    RunLast(ss + [sample]);
    RangeBound(ss, lo, hi);
    CountStep(|ss|);
    NoExcess(|ss|, hi);
    StepKinds(Run(ss), sample);
  }

  /** A steady 100 reads 100 for 2^32 packets, then 200, 150, 125, and so on, at every wrap again. */
  lemma WrapExample()
    ensures Run(Repeat(100, U32)).buf == 100
    ensures Run(Repeat(100, U32 + 1)).buf == 200
    ensures Run(Repeat(100, U32 + 2)).buf == 150
    ensures Run(Repeat(100, U32 + 8)).buf == 100
    ensures Run(Repeat(100, 2 * U32 + 1)).buf == 200
  {
    hide Run, Repeat;
    SteadySignal(100, U32);
    SteadySignal(100, U32 + 1);
    SteadySignal(100, U32 + 2);
    SteadySignal(100, U32 + 8);
    SteadySignal(100, 2 * U32 + 1);
    assert Pow2(0) == 1 && Pow2(1) == 2 && Pow2(7) == 128;
  }

  // ----- error -----

  /**
   How far above the exact average the accumulator can be: not at all until the counter wraps,
   then a bound that starts at hi + 1 and is halved with each packet until the next wrap.
   */
  function Drift(n: nat, hi: nat): (x: real)
    requires n >= 1
    ensures x >= 0.0
  {
    if n <= U32 then 0.0 else (hi + 1) as real / Pow2((n - 1) % U32) as real
  }

  lemma HalfOfQuotient(x: real, p: nat)
    requires p >= 1
    ensures x / (2 * p) as real == x / p as real / 2.0
  {
  }

  lemma DriftStep(n: nat, hi: nat)
    requires n >= 1
    ensures Drift(n + 1, hi) == if n % U32 == 0 then (hi + 1) as real else Drift(n, hi) / 2.0
  {
    CountStep(n);
    if n > U32 && n % U32 != 0 {
      HalfOfQuotient((hi + 1) as real, Pow2((n - 1) % U32));
    } else if n % U32 == 0 {
      assert Pow2(0) == 1;
    }
  }

  lemma SmallDrift(n: nat, hi: nat)
    requires n >= 1 && n % U32 == 0 && hi < 0x100
    ensures Drift(n, hi) <= 1.0
  {
    CountStep(n);
    Pow2Values();
    Pow2Grows(8, U32 - 1);
    SmallQuotient((hi + 1) as real, Pow2(U32 - 1) as real);
  }

  lemma SmallQuotient(x: real, p: real)
    requires 0.0 <= x <= p && p > 0.0
    ensures x / p <= 1.0
  {
  }

  /**
   However long the run, the accumulator is less than 1 below the exact average, and above it by
   no more than the drift that is left since the counter last wrapped: nothing up to 2^32
   packets.
   */
  lemma {:induction false} AverageError(ss: seq<nat>, lo: nat, hi: nat)
    requires ss != [] && hi < 0x100 && Within(ss, lo, hi)
    ensures -1.0 < Run(ss).buf as real - Exact(ss) <= Drift(|ss|, hi)
  {
    hide Run, Step, Excess, Drift, Within;
    var front, last := ss[..|ss| - 1], ss[|ss| - 1];
    var n := |front|;
    RunLast(ss);
    WithinFront(ss, lo, hi);
    if front == [] {
      StepFirst(last);
    } else {
      var buf, e := Run(front).buf, Exact(front);
      RangeBound(front, lo, hi);
      AverageError(front, lo, hi);
      StepKinds(Run(front), last);
      CountStep(n);
      DriftStep(n, hi);
      if n % U32 == 0 {
        NoExcess(n, hi);
        SmallDrift(n, hi);
        AddedWhole(e, buf, last, hi);
      } else {
        AverageStep(e, buf, last, Drift(n, hi));
      }
    }
  }

  lemma HalfOf(sum: nat)
    ensures 0.0 <= sum as real / 2.0 - (sum / 2) as real <= 0.5
  {
    var h := sum / 2;
    assert sum == 2 * h + sum % 2;
    assert sum as real == 2.0 * h as real + (sum % 2) as real;
  }

  lemma AverageStep(e: real, buf: nat, last: nat, drift: real)
    requires -1.0 < buf as real - e <= drift
    ensures -1.0 < ((buf + last) / 2) as real - (e + last as real) / 2.0 <= drift / 2.0
  {
    HalfOf(buf + last);
    assert (buf + last) as real == buf as real + last as real;
  }

  lemma AddedWhole(e: real, buf: nat, last: nat, hi: nat)
    requires -1.0 < buf as real - e <= 1.0 && buf <= hi && last <= hi
    ensures -1.0 < (buf + last) as real - (e + last as real) / 2.0 <= (hi + 1) as real
  {
    assert (buf + last) as real == buf as real + last as real;
    assert buf as real <= hi as real && last as real <= hi as real;
  }
}
