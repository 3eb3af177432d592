/**
 rc_48m_cal of firmware/drivers/8278/clock.c: a halving-step search for the capacitor code at
 which the calibration counter comes nearest to 250. The hardware is a function from the code to
 the 11-bit counter value that a calibration round reads back.
 */
module ClockCal {
  import opened Arith

  const TARGET: nat := 250
  /** Distances of 100 and more are never recorded. */
  const WORST: nat := 100

  function Distance(count: nat -> nat, code: nat): (d: nat) {
    if count(code) > TARGET then count(code) - TARGET else TARGET - count(code)
  }

  /** A larger code never counts less. */
  ghost predicate Monotone(count: nat -> nat) {
    forall u: nat, v: nat :: 0 <= u <= v < 0x100 ==> count(u) <= count(v)
  }

  predicate EvenCode(code: nat) {
    code % 2 == 0 && 2 <= code <= 254
  }

  /** What the search ends with: the best of all even codes, or 0 when none is under 100 away. */
  ghost predicate Calibrated(count: nat -> nat, code: nat) {
    if code == 0 then forall e: nat :: EvenCode(e) ==> Distance(count, e) >= WORST
    else && EvenCode(code) && Distance(count, code) < WORST
         && forall e: nat :: EvenCode(e) ==> Distance(count, code) <= Distance(count, e)
  }

  /** The codes that are written, from v with step f on: down after a high count, else up. */
  function Trials(count: nat -> nat, v: nat, f: nat): (vs: seq<nat>)
    requires v >= 2 * f
    ensures vs != [] && vs[0] == v
    decreases f
  {
    if f == 0 then [v] else [v] + Trials(count, if count(v) > TARGET then v - f else v + f, f / 2)
  }

  /** All but the last of the codes tried, which is measured but not considered. */
  function Judged(count: nat -> nat): (vs: seq<nat>) {
    var all := Trials(count, 0x80, 64);
    all[..|all| - 1]
  }

  /** The code is the first of vs with the least distance under 100, or 0 when there is none. */
  ghost predicate FirstNearest(count: nat -> nat, vs: seq<nat>, code: nat) {
    if code == 0 then forall j :: 0 <= j < |vs| ==> Distance(count, vs[j]) >= WORST
    else exists k :: 0 <= k < |vs| && NearestAt(count, vs, k) && vs[k] == code
  }

  ghost predicate NearestAt(count: nat -> nat, vs: seq<nat>, k: nat)
    requires k < |vs|
  {
    && Distance(count, vs[k]) < WORST
    && (forall j :: 0 <= j < k ==> Distance(count, vs[k]) < Distance(count, vs[j]))
    && (forall j :: k <= j < |vs| ==> Distance(count, vs[k]) <= Distance(count, vs[j]))
  }

  class Rc48m {
    /** Analog register 0x33. */
    var cap: nat
    ghost var tried: seq<nat>

    /**
     rc_48m_cal: tries eight codes, all in 1..255, and settles on the first of the nearest among
     the first seven. When the count never falls that is the best even code.
     */
    method Calibrate(count: nat -> nat)
      modifies this
      ensures tried == Trials(count, 0x80, 64)
      ensures |tried| == 8 && forall k :: 0 <= k < 8 ==> 1 <= tried[k] <= 255
      ensures FirstNearest(count, Judged(count), cap)
      ensures Monotone(count) ==> Calibrated(count, cap)
    {
      hide Trials, Rounds, Bracket, Monotone, Passed, Recorded, InRange, Calibrated, EvenCode, Distance, FirstNearest;
      cap := 0x80;
      tried := [];
      Start(count);
      var calCnt := count(cap);
      var f := 64;
      var tempD2, tempCap := WORST, 0;
      ghost var lo: nat, hi: nat := 0, 256;
      while f >= 1
        invariant Bracket(f, cap, lo, hi) && cap >= 2 * f
        invariant Passed(count, lo, hi, tempD2)
        invariant Recorded(count, tempCap, tempD2, tried)
        invariant calCnt == count(cap)
        invariant |tried| == 7 - Rounds(f) && InRange(tried)
        invariant tried + Trials(count, cap, f) == Trials(count, 0x80, 64)
        decreases f
      {
        BracketStep(f, cap, lo, hi);
        RecordStep(count, cap, tempCap, tempD2, lo, hi, tried);
        TrialStep(count, cap, f, tried);
        var tempV := cap;
        var tempD := if calCnt > 250 then calCnt - 250 else 250 - calCnt;
        DistanceIs(count, tempV, tempD);
        if calCnt > 250 {
          hi := tempV;
          cap := tempV - f;
        } else {
          lo := tempV;
          cap := tempV + f;
        }
        f := f / 2;
        calCnt := count(cap);
        if tempD2 > tempD {
          tempD2 := tempD;
          tempCap := tempV;
        }
        tried := tried + [tempV];
      }
      Finish(count, cap, lo, hi, tempCap, tempD2, tried);
      tried := tried + [cap];
      assert tried[..|tried| - 1] == Judged(count);
      cap := tempCap;
    }
  }

  lemma DistanceIs(count: nat -> nat, v: nat, d: nat)
    requires d == if count(v) > 250 then count(v) - 250 else 250 - count(v)
    ensures d == Distance(count, v)
  {
  }

  /** One round takes the next code off the list of those to be tried. */
  lemma TrialStep(count: nat -> nat, v: nat, f: nat, tried: seq<nat>)
    requires v >= 2 * f && f >= 1
    ensures var next := if count(v) > 250 then v - f else v + f;
            && next >= 2 * (f / 2)
            && tried + Trials(count, v, f) == (tried + [v]) + Trials(count, next, f / 2)
  {
  }

  /** How many rounds are left at step f. */
  function Rounds(f: nat): (r: nat) {
    if f == 0 then 0 else 1 + Rounds(f / 2)
  }

  /** Before the round with step f the code is even and halfway between lo and hi. */
  predicate Bracket(f: nat, cap: nat, lo: nat, hi: nat) {
    && f in {0, 1, 2, 4, 8, 16, 32, 64}
    && lo % 2 == 0 && hi % 2 == 0 && hi <= 256
    && (if f >= 1 then lo + 2 * f == cap && cap + 2 * f == hi && cap % 2 == 0
        else lo + 1 == cap && cap + 1 == hi)
  }

  lemma BracketStep(f: nat, cap: nat, lo: nat, hi: nat)
    requires Bracket(f, cap, lo, hi) && f >= 1
    ensures EvenCode(cap) && cap >= f + 1 && cap + f <= 255
    ensures Bracket(f / 2, cap - f, lo, cap) && Bracket(f / 2, cap + f, cap, hi)
    ensures Rounds(f) == Rounds(f / 2) + 1
  {
  }

  /** lo and hi, unless still at the ends, were tried on either side of the target. */
  ghost predicate Passed(count: nat -> nat, lo: nat, hi: nat, best: nat) {
    && (lo > 0 ==> count(lo) <= TARGET && best <= Distance(count, lo))
    && (hi < 256 ==> count(hi) > TARGET && best <= Distance(count, hi))
  }

  ghost predicate Recorded(count: nat -> nat, code: nat, best: nat, tried: seq<nat>) {
    && FirstNearest(count, tried, code)
    && (if code == 0 then best == WORST else EvenCode(code) && best == Distance(count, code) < WORST)
  }

  predicate InRange(tried: seq<nat>) {
    forall k :: 0 <= k < |tried| ==> 1 <= tried[k] <= 255
  }

  /** Trying the code v keeps the first nearest one so far and moves one end of the bracket to v. */
  lemma RecordStep(count: nat -> nat, v: nat, code: nat, best: nat, lo: nat, hi: nat, tried: seq<nat>)
    requires EvenCode(v) && InRange(tried)
    requires Passed(count, lo, hi, best) && Recorded(count, code, best, tried)
    ensures var d := Distance(count, v);
            var best', code' := if best > d then d else best, if best > d then v else code;
            && (if count(v) > TARGET then Passed(count, lo, v, best') else Passed(count, v, hi, best'))
            && Recorded(count, code', best', tried + [v])
            && InRange(tried + [v])
  {
    var d := Distance(count, v);
    var longer := tried + [v];
    if best > d {
      NearestSoFar(count, code, best, tried);
      assert NearestAt(count, longer, |tried|);
    } else if code != 0 {
      var k :| 0 <= k < |tried| && NearestAt(count, tried, k) && tried[k] == code;
      assert NearestAt(count, longer, k);
    }
  }

  lemma NearestSoFar(count: nat -> nat, code: nat, best: nat, tried: seq<nat>)
    requires Recorded(count, code, best, tried)
    ensures forall j :: 0 <= j < |tried| ==> best <= Distance(count, tried[j])
  {
  }

  /** Around the crossing two neighbouring even codes are at least as near as all others. */
  lemma NeighboursSuffice(count: nat -> nat, lo: nat, hi: nat, best: nat)
    requires Monotone(count) && lo % 2 == 0 && hi == lo + 2 && hi <= 256
    requires Passed(count, lo, hi, best)
    ensures forall e: nat :: EvenCode(e) ==> best <= Distance(count, e)
  {
    forall e: nat | EvenCode(e)
      ensures best <= Distance(count, e)
    {
      if e <= lo {
        assert count(e) <= count(lo);
      } else {
        assert count(hi) <= count(e);
      }
    }
  }

  lemma Start(count: nat -> nat)
    ensures Bracket(64, 0x80, 0, 256) && Passed(count, 0, 256, WORST)
    ensures Recorded(count, 0, WORST, []) && InRange([]) && Rounds(64) == 7
  {
  }

  lemma Finish(count: nat -> nat, cap: nat, lo: nat, hi: nat, code: nat, best: nat, tried: seq<nat>)
    requires Bracket(0, cap, lo, hi)
    requires Passed(count, lo, hi, best) && Recorded(count, code, best, tried) && InRange(tried)
    ensures Monotone(count) ==> Calibrated(count, code)
    ensures FirstNearest(count, tried, code) && Rounds(0) == 0
    ensures Trials(count, cap, 0) == [cap] && 1 <= cap <= 255
    ensures forall k :: 0 <= k < |tried| ==> 1 <= tried[k] <= 255
  {
    if Monotone(count) {
      NeighboursSuffice(count, lo, hi, best);
    }
  }

  // ----- the search in numbers -----

  lemma Unfold(count: nat -> nat, v: nat, f: nat)
    requires v >= 2 * f
    ensures Trials(count, v, f)
         == if f == 0 then [v] else [v] + Trials(count, if count(v) > 250 then v - f else v + f, f / 2)
  {
  }

  /** From v on, code k is followed by one f / 2^k lower after a count above 250, else as much higher. */
  lemma {:induction false} TrialsExactly(count: nat -> nat, v: nat, f: nat, k: nat)
    requires v >= 2 * f && k < Rounds(f)
    ensures var vs := Trials(count, v, f);
            && |vs| == Rounds(f) + 1 && vs[0] == v
            && vs[k + 1] == if count(vs[k]) > 250 then vs[k] - f / Pow2(k) else vs[k] + f / Pow2(k)
    decreases f
  {
    hide Trials;
    Unfold(count, v, f);
    var next := if count(v) > 250 then v - f else v + f;
    TrialsLength(count, next, f / 2);
    if k == 0 {
      assert Pow2(0) == 1;
    } else {
      TrialsExactly(count, next, f / 2, k - 1);
      DivDiv(f, 2, Pow2(k - 1));
    }
  }

  lemma {:induction false} TrialsLength(count: nat -> nat, v: nat, f: nat)
    requires v >= 2 * f
    ensures |Trials(count, v, f)| == Rounds(f) + 1
    decreases f
  {
    if f > 0 {
      TrialsLength(count, if count(v) > 250 then v - f else v + f, f / 2);
    }
  }

  /**
   The result in counts. A nonzero result is off by at most some b below 100, and every even code
   from 2 to 254 is off by b or more; the result is 0 exactly when all of them are off by 100 or
   more.
   */
  lemma CalibratedExactly(count: nat -> nat, code: nat)
    ensures Calibrated(count, code) <==>
              if code == 0 then AllOffBy(count, 100)
              else EvenCode(code) && exists b: nat :: b < 100 && OffByAtMost(count, code, b) && AllOffBy(count, b)
    ensures EvenCode(code) <==> code % 2 == 0 && 2 <= code <= 254
  {
    if Calibrated(count, code) && code != 0 {
      var b := Distance(count, code);
      assert OffByAtMost(count, code, b) && AllOffBy(count, b);
    }
  }

  predicate OffByAtMost(count: nat -> nat, code: nat, b: nat) {
    250 - b <= count(code) <= 250 + b
  }

  ghost predicate AllOffBy(count: nat -> nat, b: nat) {
    forall e: nat :: EvenCode(e) ==> count(e) <= 250 - b || count(e) >= 250 + b
  }

  /** A counter that never falls, whose best code, 100, counts n. */
  function Peak(n: nat): nat -> nat {
    (code: nat) => if code < 100 then 0 else if code == 100 then n else n + 1000
  }

  /** 99 counts away on either side is near enough to be taken, 100 is not. */
  lemma NearEnough(code: nat)
    ensures Monotone(Peak(151)) && Monotone(Peak(150)) && Monotone(Peak(349)) && Monotone(Peak(350))
    ensures Calibrated(Peak(151), code) || Calibrated(Peak(349), code) ==> code == 100
    ensures Calibrated(Peak(150), code) || Calibrated(Peak(350), code) ==> code == 0
  {
    assert EvenCode(100) && Distance(Peak(151), 100) == 99 == Distance(Peak(349), 100);
  }

  // ----- ties -----

  ghost predicate Increasing(count: nat -> nat) {
    forall u: nat, v: nat :: 0 <= u < v < 0x100 ==> count(u) < count(v)
  }

  /**
   The last code that counts is no multiple of 4, all before it are, and the even codes next to it
   were among those.
   */
  lemma LastJudged(count: nat -> nat)
    ensures var vs := Judged(count);
            && |vs| == 7 && vs[6] % 4 == 2
            && (forall j :: 0 <= j < 6 ==> vs[j] % 4 == 0)
            && (vs[6] == 2 || vs[6] - 2 in vs[..6]) && (vs[6] == 254 || vs[6] + 2 in vs[..6])
  {
    hide Trials, Rounds;
    Start(count);
    var v, f, lo: nat, hi: nat, seen := 128, 64, 0, 256, [];
    while f > 1
      invariant f >= 1 && Bracket(f, v, lo, hi) && v >= 2 * f
      invariant lo % 4 == 0 && hi % 4 == 0 && (lo == 0 || lo in seen) && (hi == 256 || hi in seen)
      invariant |seen| == 7 - Rounds(f) && forall j :: 0 <= j < |seen| ==> seen[j] % 4 == 0
      invariant seen + Trials(count, v, f) == Trials(count, 0x80, 64)
    {
      BracketStep(f, v, lo, hi);
      TrialStep(count, v, f, seen);
      seen := seen + [v];
      if count(v) > 250 {
        hi, v := v, v - f;
      } else {
        lo, v := v, v + f;
      }
      f := f / 2;
    }
    LastTwo(count, v);
    var all := Trials(count, 0x80, 64);
    assert all[..|all| - 1] == seen + [v];
    assert Judged(count)[..6] == seen;
  }

  lemma LastTwo(count: nat -> nat, v: nat)
    requires v >= 2
    ensures |Trials(count, v, 1)| == 2 && Rounds(1) == 1
  {
    Unfold(count, v, 1);
    Unfold(count, if count(v) > 250 then v - 1 else v + 1, 0);
  }

  /**
   Ties: when the counter strictly rises and two even codes are equally near, they are neighbours,
   and the multiple of 4 is the result.
   */
  lemma TieGoesToMultipleOf4(count: nat -> nat, code: nat, e: nat)
    requires Increasing(count) && Calibrated(count, code) && code != 0
    requires FirstNearest(count, Judged(count), code)
    requires EvenCode(e) && e != code && Distance(count, e) == Distance(count, code)
    ensures code % 4 == 0 && (e == code + 2 || e + 2 == code)
  {
    hide Judged, Calibrated, Distance, Increasing;
    TieIsNeighbour(count, code, e);
    LastJudged(count);
    var judged := Judged(count);
    var k :| 0 <= k < |judged| && NearestAt(count, judged, k) && judged[k] == code;
    EarlierIsFarther(count, judged, k, e);
  }

  lemma EarlierIsFarther(count: nat -> nat, vs: seq<nat>, k: nat, e: nat)
    requires k < |vs| && NearestAt(count, vs, k)
    ensures e in vs[..k] ==> Distance(count, vs[k]) < Distance(count, e)
  {
  }

  lemma Between(count: nat -> nat, u: nat, v: nat)
    requires Increasing(count) && EvenCode(u) && EvenCode(v) && u < v
    ensures count(u) < count(v)
    ensures u + 2 < v ==> EvenCode(u + 2) && count(u) < count(u + 2) < count(v)
  {
  }

  lemma TieIsNeighbour(count: nat -> nat, code: nat, e: nat)
    requires Increasing(count) && Calibrated(count, code) && code != 0
    requires EvenCode(e) && e != code && Distance(count, e) == Distance(count, code)
    ensures e == code + 2 || e + 2 == code
  {
    var u, v := if e < code then e else code, if e < code then code else e;
    Between(count, u, v);
  }

  // ----- accuracy -----

  /**
   Accuracy: if some code in 1..255 counts exactly 250, the code found is at least as near as each
   even code within one of it; if that code is even the result is exact.
   */
  lemma NearTarget(count: nat -> nat, c: nat, code: nat)
    requires 1 <= c <= 255 && count(c) == TARGET && Calibrated(count, code)
    ensures forall e: nat :: EvenCode(e) && c - 1 <= e <= c + 1 && Distance(count, e) < WORST ==>
              code != 0 && Distance(count, code) <= Distance(count, e)
    ensures c % 2 == 0 ==> count(code) == TARGET
  {
    if c % 2 == 0 {
      assert EvenCode(c) && Distance(count, c) == 0;
    }
  }

  /** An odd code is never the result: the target is met exactly when an even code meets it. */
  lemma ExactOnlyAtEvenCodes(count: nat -> nat, code: nat)
    requires Calibrated(count, code) && code != 0
    ensures count(code) == TARGET <==> exists e: nat :: EvenCode(e) && count(e) == TARGET
  {
    if e: nat :| EvenCode(e) && count(e) == TARGET {
      assert Distance(count, e) == 0;
    }
  }

  /** A rising counter that only the odd code 101 brings to 250. */
  function OddTarget(code: nat): (n: nat) {
    48 + 2 * code
  }

  lemma OddTargetIsMissed(code: nat)
    requires Calibrated(OddTarget, code)
    ensures Monotone(OddTarget) && OddTarget(101) == TARGET
    ensures code in {100, 102} && OddTarget(code) != TARGET
  {
    assert EvenCode(100) && Distance(OddTarget, 100) == 2;
  }

  /** A rising counter that jumps by 150 on either side of code 101, where it is exact. */
  function Jumping(code: nat): (n: nat) {
    if code < 101 then 100 else if code == 101 then TARGET else 400
  }

  lemma JumpingEndsAtZero(code: nat)
    requires Calibrated(Jumping, code)
    ensures Monotone(Jumping) && Jumping(101) == TARGET
    ensures code == 0
  {
    forall e: nat | EvenCode(e)
      ensures Distance(Jumping, e) >= WORST
    {
    }
  }
}
