/**
 adc_sample_and_get_result of firmware/drivers/8278/adc.c with the setters that fix its scale:
 eight samples are clamped and sorted as they arrive, the middle four are averaged, and the
 average is converted to millivolts.
 */
module Adc {
  import opened Arith

  const SAMPLES: nat := 8

  // ----- specification -----

  /** Bit 13 is the sign of a 14-bit sample: negative counts as 0, otherwise bits 12..0 count. */
  function Clamp(raw: nat): (s: nat)
    ensures s <= 0x1fff
  {
    if raw / 0x2000 % 2 == 1 then 0 else raw % 0x2000
  }

  function Clamped(raws: seq<nat>): (s: seq<nat>)
    ensures |s| == |raws| && forall i :: 0 <= i < |s| ==> s[i] == Clamp(raws[i])
  {
    seq(|raws|, i requires 0 <= i < |raws| => Clamp(raws[i]))
  }

  predicate Sorted(s: seq<nat>) {
    forall i, j :: 0 <= i < j < |s| ==> s[i] <= s[j]
  }

  /** x put into s before the run of larger values at its end. */
  function Insert(s: seq<nat>, x: nat): (r: seq<nat>)
    ensures |r| == |s| + 1
  {
    if s == [] || s[|s| - 1] <= x then s + [x] else Insert(s[..|s| - 1], x) + [s[|s| - 1]]
  }

  /** The values put in order one after the other. */
  function Sort(xs: seq<nat>): (r: seq<nat>)
    ensures |r| == |xs|
  {
    if xs == [] then [] else Insert(Sort(xs[..|xs| - 1]), xs[|xs| - 1])
  }

  /** The average of the middle four of eight values in order. */
  function MiddleMean(s: seq<nat>): (a: nat)
    requires |s| == SAMPLES
  {
    (s[2] + s[3] + s[4] + s[5]) / 4
  }

  function Millivolts(code: nat, divider: nat, scale: nat, vref: nat): (mv: nat) {
    divider * code * scale * vref / 0x2000
  }

  // ----- the driver -----

  /** x << k, for results that fit. */
  function ShiftLeft(x: nat, k: nat): (r: nat)
    ensures r == x * Pow2(k)
    decreases k
  {
    if k == 0 then x else ShiftLeft(2 * x, k - 1)
  }

  class AdcDriver {
    var adcCode: nat
    var preScale: nat
    var vbatDivider: nat
    var vref: nat

    /** What the setters can leave behind; preScale is 0 until adc_set_ain_pre_scaler is called. */
    predicate Configured()
      reads this
    {
      && preScale in {0, 1, 8}
      && vbatDivider in {0, 1, 2, 3}
      && vref in {900, 1175}
    }

    constructor ()
      ensures Configured() && adcCode == 0 && preScale == 0 && vbatDivider == 0 && vref == 1175
    {
      adcCode, preScale, vbatDivider, vref := 0, 0, 0, 1175;
    }

    /** adc_set_ain_pre_scaler, for ADC_PRESCALER_1 (0) and ADC_PRESCALER_1F8 (3). */
    method SetAinPreScaler(vScl: nat)
      requires Configured() && vScl in {0, 3}
      modifies this`preScale
      ensures Configured() && preScale == if vScl == 0 then 1 else 8
    {
      preScale := ShiftLeft(1, vScl);
    }

    /** adc_set_vref_vbat_divider, for ADC_VBAT_DIVIDER_OFF (0), _1F3 (2) and _1F2 (3). */
    method SetVrefVbatDivider(vbatDiv: nat)
      requires Configured() && vbatDiv in {0, 2, 3}
      modifies this`vbatDivider
      ensures Configured() && vbatDivider == match vbatDiv case 0 => 1 case 2 => 3 case _ => 2
    {
      if vbatDiv != 0 {
        vbatDivider := 5 - vbatDiv;
      } else {
        vbatDivider := 1;
      }
    }

    /** adc_set_ref_voltage, for ADC_VREF_0P9V (1) and ADC_VREF_1P2V (2), which sets nothing. */
    method SetRefVoltage(vRef: nat)
      requires Configured() && vRef in {1, 2}
      modifies this`vref
      ensures Configured() && vref == if vRef == 1 then 900 else old(vref)
    {
      if vRef != 2 {
        vref := 900;
      }
    }

    /**
     adc_sample_and_get_result; raws are the words that the converter delivers, in order. The
     result comes from the sorted clamped samples, and its product fits a signed 32-bit int.
     */
    method SampleAndGetResult(raws: seq<nat>) returns (mv: nat)
      requires Configured() && |raws| == SAMPLES
      modifies this`adcCode
      ensures adcCode == MiddleMean(Sort(Clamped(raws)))
      ensures mv == Millivolts(adcCode, vbatDivider, preScale, vref)
      ensures vbatDivider * adcCode * preScale * vref < 0x8000_0000
    {
      hide Sort, Insert;
      var sample := new nat[SAMPLES];
      ghost var xs := Clamped(raws);
      assert sample[..0] == xs[..0] == Sort(xs[..0]);
      var i := 0;
      while i < SAMPLES
        invariant 0 <= i <= SAMPLES
        invariant sample[..i] == Sort(xs[..i])
      {
        ghost var before := sample[..i];
        sample[i] := if raws[i] / 0x2000 % 2 == 1 then 0 else raws[i] % 0x2000;
        assert sample[..i] == before && sample[..i + 1] == before + [xs[i]];
        SortStep(xs, i);
        if i > 0 && sample[i] < sample[i - 1] {
          InsertSample(sample, i);
        }
        i := i + 1;
      }
      assert xs[..SAMPLES] == xs && sample[..SAMPLES] == sample[..];
      adcCode := (sample[2] + sample[3] + sample[4] + sample[5]) / 4;
      MeanIsSample(xs);
      ProductFits(adcCode, vbatDivider, preScale, vref);
      mv := vbatDivider * adcCode * preScale * vref / 0x2000;
    }
  }

  lemma SortStep(xs: seq<nat>, i: nat)
    requires i < |xs|
    ensures Sort(xs[..i + 1]) == Insert(Sort(xs[..i]), xs[i])
    ensures i == 0 || Sort(xs[..i])[i - 1] <= xs[i] ==> Sort(xs[..i + 1]) == Sort(xs[..i]) + [xs[i]]
    ensures Sort(xs[..0]) == []
  {
    assert xs[..i + 1][..i] == xs[..i];
  }

  /** Insertion goes down past a run of larger values at the end. */
  lemma {:induction false} InsertPastLarger(s: seq<nat>, x: nat, h: nat)
    requires h <= |s| && forall k :: h <= k < |s| ==> s[k] > x
    requires h == 0 || s[h - 1] <= x
    ensures Insert(s, x) == s[..h] + [x] + s[h..]
  {
    if h < |s| {
      var front := s[..|s| - 1];
      InsertPastLarger(front, x, h);
      assert front[h..] + [s[|s| - 1]] == s[h..];
      assert front[..h] == s[..h];
    } else {
      assert s[..h] == s;
    }
  }

  lemma InsertedAt(s: seq<nat>, r: seq<nat>, x: nat, h: nat)
    requires h <= |s| && |r| == |s| + 1
    requires forall k :: 0 <= k < h ==> r[k] == s[k]
    requires r[h] == x && forall k :: h < k < |r| ==> r[k] == s[k - 1]
    requires forall k :: h <= k < |s| ==> s[k] > x
    requires h == 0 || s[h - 1] <= x
    ensures r == Insert(s, x)
  {
    hide Insert;
    InsertPastLarger(s, x, h);
    assert r == s[..h] + [x] + s[h..];
  }

  /** The insertion step: sample i goes down past the larger ones before it. */
  method InsertSample(sample: array<nat>, i: nat)
    requires 0 < i < sample.Length && sample[i] < sample[i - 1]
    modifies sample
    ensures sample[..i + 1] == Insert(old(sample[..i]), old(sample[i]))
    ensures forall k :: i < k < sample.Length ==> sample[k] == old(sample[k])
  {
    hide Insert;
    ghost var was := sample[..i];
    var temp := sample[i];
    sample[i] := sample[i - 1];
    var j := i - 1;
    while j >= 0 && sample[j] > temp
      invariant -1 <= j < i
      invariant forall k :: 0 <= k <= j ==> sample[k] == was[k]
      invariant forall k :: j + 1 < k <= i ==> sample[k] == was[k - 1]
      invariant forall k :: j < k < i ==> was[k] > temp
      invariant forall k :: i < k < sample.Length ==> sample[k] == old(sample[k])
    {
      sample[j + 1] := sample[j];
      j := j - 1;
    }
    sample[j + 1] := temp;
    InsertedAt(was, sample[..i + 1], temp, j + 1);
  }

  // ----- order statistics -----

  function CountBelow(s: seq<nat>, m: nat): (c: nat)
    ensures c <= |s|
  {
    if s == [] then 0 else CountBelow(s[..|s| - 1], m) + if s[|s| - 1] < m then 1 else 0
  }

  lemma {:induction false} InsertBound(s: seq<nat>, x: nat, b: nat)
    requires x <= b && forall i :: 0 <= i < |s| ==> s[i] <= b
    ensures forall i :: 0 <= i <= |s| ==> Insert(s, x)[i] <= b
  {
    if s != [] {
      InsertBound(s[..|s| - 1], x, b);
    }
  }

  lemma {:induction false} InsertSorted(s: seq<nat>, x: nat, m: nat)
    requires Sorted(s)
    ensures Sorted(Insert(s, x))
    ensures CountBelow(Insert(s, x), m) == CountBelow(s, m) + if x < m then 1 else 0
  {
    if s == [] || s[|s| - 1] <= x {
      assert (s + [x])[..|s|] == s;
    } else {
      var front, last := s[..|s| - 1], s[|s| - 1];
      InsertSorted(front, x, m);
      InsertBound(front, x, last);
      var r := Insert(front, x);
      assert (r + [last])[..|r|] == r;
    }
  }

  lemma {:induction false} InsertPermutes(s: seq<nat>, x: nat)
    ensures multiset(Insert(s, x)) == multiset(s) + multiset{x}
  {
    if s != [] && s[|s| - 1] > x {
      var front, last := s[..|s| - 1], s[|s| - 1];
      InsertPermutes(front, x);
      assert s == front + [last];
    }
  }

  /** Sorting gives an ordered permutation. */
  lemma {:induction false} SortIsOrderedPermutation(xs: seq<nat>)
    ensures Sorted(Sort(xs)) && multiset(Sort(xs)) == multiset(xs)
  {
    if xs != [] {
      var front, last := xs[..|xs| - 1], xs[|xs| - 1];
      assert Sort(xs) == Insert(Sort(front), last) && xs == front + [last];
      hide Sort, Insert;
      SortIsOrderedPermutation(front);
      InsertPermutes(Sort(front), last);
      InsertSorted(Sort(front), last, 0);
    }
  }

  /** Sorting orders the values and keeps how many lie below any bound. */
  lemma {:induction false} SortSorts(xs: seq<nat>, m: nat)
    ensures Sorted(Sort(xs)) && CountBelow(Sort(xs), m) == CountBelow(xs, m)
  {
    if xs != [] {
      SortSorts(xs[..|xs| - 1], m);
      InsertSorted(Sort(xs[..|xs| - 1]), xs[|xs| - 1], m);
    }
  }

  /** In an ordered sequence the k-th value is below m exactly when more than k values are. */
  lemma {:induction false} Rank(s: seq<nat>, k: nat, m: nat)
    requires Sorted(s) && k < |s|
    ensures s[k] < m <==> CountBelow(s, m) > k
  {
    var n := |s| - 1;
    if k < n {
      Rank(s[..n], k, m);
      if s[n] < m {
        assert s[k] <= s[n];
      }
    } else if k > 0 {
      Rank(s[..n], k - 1, m);
      assert s[k - 1] <= s[k];
    }
  }

  lemma RankOfSort(xs: seq<nat>, k: nat, m: nat)
    requires k < |xs|
    ensures Sort(xs)[k] < m <==> CountBelow(xs, m) > k
  {
    SortSorts(xs, m);
    Rank(Sort(xs), k, m);
  }

  lemma {:induction false} CountBelowMonotone(xs: seq<nat>, ys: seq<nat>, m: nat)
    requires |xs| == |ys| && forall i :: 0 <= i < |xs| ==> xs[i] <= ys[i]
    ensures CountBelow(ys, m) <= CountBelow(xs, m)
  {
    if xs != [] {
      CountBelowMonotone(xs[..|xs| - 1], ys[..|ys| - 1], m);
    }
  }

  /** Raising values raises every order statistic. */
  lemma SortMonotone(xs: seq<nat>, ys: seq<nat>, k: nat)
    requires |xs| == |ys| && k < |xs| && forall i :: 0 <= i < |xs| ==> xs[i] <= ys[i]
    ensures Sort(xs)[k] <= Sort(ys)[k]
  {
    var m := Sort(xs)[k];
    RankOfSort(xs, k, m);
    RankOfSort(ys, k, m);
    CountBelowMonotone(xs, ys, m);
  }

  /** Values outside the touched positions bound how many lie below a limit, from both sides. */
  lemma {:induction false} CountBelowTouched(s: seq<nat>, touched: set<nat>, m: nat)
    ensures (forall i :: 0 <= i < |s| && i !in touched ==> s[i] >= m) ==> CountBelow(s, m) <= |touched|
    ensures (forall i :: 0 <= i < |s| && i !in touched ==> s[i] < m) ==> CountBelow(s, m) + |touched| >= |s|
  {
    if s != [] {
      var n := |s| - 1;
      var front, rest := s[..n], touched - {n};
      CountBelowTouched(front, rest, m);
      assert forall i :: 0 <= i < n && i !in rest ==> i !in touched && front[i] == s[i];
    }
  }

  // ----- the result -----

  /**
   Outlier tolerance: if all but at most two of the eight samples lie between lo and hi, so does
   the trimmed mean, whatever the others are.
   */
  lemma OutlierTolerance(xs: seq<nat>, touched: set<nat>, lo: nat, hi: nat)
    requires |xs| == SAMPLES && |touched| <= 2
    requires forall i :: 0 <= i < SAMPLES && i !in touched ==> lo <= xs[i] <= hi
    ensures lo <= MiddleMean(Sort(xs)) <= hi
  {
    var s := Sort(xs);
    CountBelowTouched(xs, touched, lo);
    CountBelowTouched(xs, touched, hi + 1);
    RankOfSort(xs, 2, lo);
    RankOfSort(xs, 5, hi + 1);
    SortSorts(xs, 0);
    assert s[2] <= s[3] <= s[4] <= s[5];
  }

  lemma MeanIsSample(xs: seq<nat>)
    requires |xs| == SAMPLES && forall i :: 0 <= i < SAMPLES ==> xs[i] <= 0x1fff
    ensures MiddleMean(Sort(xs)) <= 0x1fff
  {
    OutlierTolerance(xs, {}, 0, 0x1fff);
  }

  lemma ProductFits(code: nat, divider: nat, scale: nat, vref: nat)
    requires code <= 0x1fff && divider <= 3 && scale <= 8 && vref <= 1175
    ensures divider * code * scale * vref <= 3 * 0x1fff * 8 * 1175 < 0x8000_0000
  {
    MulMono(divider, 3, code);
    MulMono(divider * code, 3 * 0x1fff, scale);
    MulMono(divider * code * scale, 3 * 0x1fff * 8, vref);
  }

  /** Raising any clamped sample never lowers the voltage. */
  lemma VoltageMonotone(xs: seq<nat>, ys: seq<nat>, divider: nat, scale: nat, vref: nat)
    requires |xs| == |ys| == SAMPLES && forall i :: 0 <= i < SAMPLES ==> xs[i] <= ys[i]
    ensures Millivolts(MiddleMean(Sort(xs)), divider, scale, vref)
         <= Millivolts(MiddleMean(Sort(ys)), divider, scale, vref)
  {
    hide Sort, Millivolts;
    SortMonotone(xs, ys, 2);
    SortMonotone(xs, ys, 3);
    SortMonotone(xs, ys, 4);
    SortMonotone(xs, ys, 5);
    MillivoltsMonotone(MiddleMean(Sort(xs)), MiddleMean(Sort(ys)), divider, scale, vref);
  }

  lemma MillivoltsMonotone(a: nat, b: nat, divider: nat, scale: nat, vref: nat)
    requires a <= b
    ensures Millivolts(a, divider, scale, vref) <= Millivolts(b, divider, scale, vref)
  {
    MulMono(a, b, divider);
    MulMono(divider * a, divider * b, scale);
    MulMono(divider * a * scale, divider * b * scale, vref);
  }

  /** Full scale, divider times scale times reference, is never reached. */
  lemma VoltageBound(code: nat, divider: nat, scale: nat, vref: nat)
    requires code <= 0x1fff && divider >= 1 && scale >= 1 && vref >= 1
    ensures Millivolts(code, divider, scale, vref) < divider * scale * vref
  {
    var full := divider * scale * vref;
    assert divider * code * scale * vref == code * full;
    MulMono(code, 0x1fff, full);
    MulMono(1, divider, scale);
    MulMono(1, divider * scale, vref);
  }

  // ----- what the formulas mean -----

  /** A 13-bit sample counts as it is, a negative one as 0, and bits from 14 on do not matter. */
  lemma ClampExactly(raw: nat, high: nat)
    ensures raw < 0x2000 ==> Clamp(raw) == raw
    ensures 0x2000 <= raw < 0x4000 ==> Clamp(raw) == 0
    ensures Clamp(raw + high * 0x4000) == Clamp(raw)
  {
    assert (raw + high * 0x4000) / 0x2000 == raw / 0x2000 + high * 2;
  }

  function Sum(s: seq<nat>): (t: nat) {
    if s == [] then 0 else Sum(s[..|s| - 1]) + s[|s| - 1]
  }

  lemma {:induction false} InsertKeepsSum(s: seq<nat>, x: nat)
    ensures Sum(Insert(s, x)) == Sum(s) + x
  {
    if s == [] || s[|s| - 1] <= x {
      assert (s + [x])[..|s|] == s;
    } else {
      var front, last := s[..|s| - 1], s[|s| - 1];
      InsertKeepsSum(front, x);
      assert (Insert(front, x) + [last])[..|s|] == Insert(front, x);
    }
  }

  lemma {:induction false} SortKeepsSum(xs: seq<nat>)
    ensures Sum(Sort(xs)) == Sum(xs)
  {
    if xs != [] {
      SortKeepsSum(xs[..|xs| - 1]);
      InsertKeepsSum(Sort(xs[..|xs| - 1]), xs[|xs| - 1]);
    }
  }

  lemma SumOfEight(s: seq<nat>)
    requires |s| == SAMPLES
    ensures Sum(s) == s[0] + s[1] + s[2] + s[3] + s[4] + s[5] + s[6] + s[7]
  {
    var t := s[..4];
    SumLast(s, 8);
    SumLast(s, 7);
    SumLast(s, 6);
    SumLast(s, 5);
    SumLast(s, 4);
    SumLast(s, 3);
    SumLast(s, 2);
    SumLast(s, 1);
    assert s[..8] == s && s[..0] == [];
  }

  lemma SumLast(s: seq<nat>, n: nat)
    requires 1 <= n <= |s|
    ensures Sum(s[..n]) == Sum(s[..n - 1]) + s[n - 1]
  {
    assert s[..n][..n - 1] == s[..n - 1];
  }

  /** The mean is that of the samples without the two least and the two greatest, rounded down. */
  lemma TrimmedMean(xs: seq<nat>)
    requires |xs| == SAMPLES
    ensures var s, m := Sort(xs), MiddleMean(Sort(xs));
            && Sorted(s) && multiset(s) == multiset(xs)
            && 4 * m <= Sum(xs) - s[0] - s[1] - s[6] - s[7] <= 4 * m + 3
  {
    hide Sort, Sum;
    SortIsOrderedPermutation(xs);
    SortKeepsSum(xs);
    SumOfEight(Sort(xs));
  }

  /** The voltage in units of a full scale of 8192, rounded down. */
  lemma MillivoltsExactly(code: nat, divider: nat, scale: nat, vref: nat)
    ensures var mv := Millivolts(code, divider, scale, vref);
            mv * 0x2000 <= divider * code * scale * vref < (mv + 1) * 0x2000
  {
  }
}
