/** The PWM settings of pm_pwm.c: the search for clock, pre-divider and exponent, and the duty value. */
module Pwm {
  import opened Bits

  const UINT_MAX: nat := 0xFFFF_FFFF
  const MAX_MPT: nat := 749_999_616

  /** NSEC_1024HZ, NSEC_32768HZ, NSEC_19P2MHZ */
  function ClockPeriod(clk: nat): nat { if clk == 0 then 976_562 else if clk == 1 then 30_517 else 52 }

  function PreDivide(div: nat): nat { if div == 0 then 1 else if div == 1 then 3 else if div == 2 then 5 else 6 }

  /** pt_t[div][clk] */
  function Step(clk: nat, div: nat): (t: nat)
    ensures 52 <= t <= 5_859_372
  {
    PreDivide(div) * ClockPeriod(clk)
  }

  /** The nanoseconds one step of the counter takes. */
  function StepTime(clk: nat, div: nat, m: nat): nat { Step(clk, div) * Pow2(m) }

  function Distance(a: nat, b: nat): nat { if a > b then a - b else b - a }

  function Error(p: nat, clk: nat, div: nat, m: nat): nat { Distance(p, StepTime(clk, div, m)) }

  predicate Setting(clk: nat, div: nat, m: nat) { clk < 3 && div < 4 && m < 8 }

  /** The setting (c, d, e) is tried before (clk, div, m). */
  predicate Before(c: nat, d: nat, e: nat, clk: nat, div: nat, m: nat) {
    c < clk || (c == clk && (d < div || (d == div && e < m)))
  }

  /** No smaller error, and not the same one earlier. */
  ghost predicate Preferred(p: nat, best: (nat, nat, nat), c: nat, d: nat, e: nat) {
    && Error(p, best.0, best.1, best.2) <= Error(p, c, d, e)
    && (Before(c, d, e, best.0, best.1, best.2) ==> Error(p, best.0, best.1, best.2) < Error(p, c, d, e))
  }

  /** The best of the settings tried before (clk, div, m). */
  ghost predicate BestBefore(p: nat, best: (nat, nat, nat), clk: nat, div: nat, m: nat) {
    && Setting(best.0, best.1, best.2) && Before(best.0, best.1, best.2, clk, div, m)
    && forall c, d, e | Setting(c, d, e) && Before(c, d, e, clk, div, m) :: Preferred(p, best, c, d, e)
  }

  /** No setting has a smaller error, and none that is tried earlier has the same. */
  ghost predicate Best(p: nat, clk: nat, div: nat, m: nat) {
    Setting(clk, div, m) && forall c, d, e | Setting(c, d, e) :: Preferred(p, (clk, div, m), c, d, e)
  }

  // ----- why the early break loses nothing

  lemma StepDoubles(clk: nat, div: nat, m: nat)
    ensures StepTime(clk, div, m + 1) == 2 * StepTime(clk, div, m)
  {
    var t, q := Step(clk, div), Pow2(m);
    assert t * (2 * q) == 2 * (t * q);
  }

  /** Once the error of a row has grown, it keeps growing. */
  lemma {:induction false} ErrorIsUnimodal(p: nat, clk: nat, div: nat, m: nat, later: nat)
    requires 0 < m < later && Error(p, clk, div, m) > Error(p, clk, div, m - 1)
    ensures Error(p, clk, div, later) > Error(p, clk, div, m) && StepTime(clk, div, later) > p
    decreases later
  {
    StepDoubles(clk, div, m - 1);
    StepDoubles(clk, div, later - 1);
    if later > m + 1 { ErrorIsUnimodal(p, clk, div, m, later - 1); }
  }

  /** Breaking off a row keeps the best setting the best of the whole row. */
  lemma BreakIsSafe(p: nat, best: (nat, nat, nat), clk: nat, div: nat, m: nat)
    requires Setting(clk, div, m) && m > 0 && Error(p, clk, div, m) > Error(p, clk, div, m - 1)
    requires BestBefore(p, best, clk, div, m + 1)
    ensures BestBefore(p, best, clk, div, 8)
  {
    hide Error;
    assert Preferred(p, best, clk, div, m - 1);
    forall c, d, e | Setting(c, d, e) && Before(c, d, e, clk, div, 8) ensures Preferred(p, best, c, d, e) {
      if !Before(c, d, e, clk, div, m + 1) { ErrorIsUnimodal(p, clk, div, m, e); }
    }
  }

  lemma SmallPowers()
    ensures Pow2(0) == 1 && Pow2(1) == 2 && Pow2(2) == 4 && Pow2(3) == 8 && Pow2(4) == 16
    ensures Pow2(5) == 32 && Pow2(6) == 64 && Pow2(7) == 128 && Pow2(8) == 256
  {
    assert Pow2(4) == 16;
  }

  lemma StepTimeFits(clk: nat, div: nat, m: nat)
    requires m <= 8
    ensures StepTime(clk, div, m) <= 1_499_999_232
  {
    SmallPowers();
    assert Pow2(m) <= 256;
    MulMono(Step(clk, div), Pow2(m), 256);
  }

  // ----- the period per step

  /** period_n and the size, in 32-bit arithmetic. */
  function PeriodN(us: nat): nat {
    if us < 4_294_967 then us * 1000 / 64 else us / 64 * 1000 % 0x1_0000_0000
  }

  function ExactPeriodN(us: nat): nat {
    if us < 4_294_967 then us * 1000 / 64 else us / 64 * 1000
  }

  function Sized(p: nat): (r: (nat, nat))
    ensures p <= UINT_MAX ==> r.1 < MAX_MPT
  {
    if p >= MAX_MPT then (9, p / 8) else (6, p)
  }

  /** The product wraps exactly from 274.877952 s on. */
  lemma WrapsIff(us: nat)
    ensures Sized(PeriodN(us)) == Sized(ExactPeriodN(us)) <==> us < 274_877_952
    ensures us < 274_877_952 ==> PeriodN(us) == ExactPeriodN(us)
  {
    var x := us / 64 * 1000;
    assert us / 64 <= 4_294_967 <==> us < 274_877_952;
    if us >= 274_877_952 {
      assert x >= 0x1_0000_0000 && Sized(x).1 >= 0x2000_0000;
      assert Sized(x % 0x1_0000_0000).1 < 0x2000_0000 || Sized(x % 0x1_0000_0000).0 == 6;
    }
  }

  /** The documented limit of 384 s is beyond that: the setting chosen there is for a period of 109 s. */
  lemma LongestPeriodWraps()
    ensures Sized(ExactPeriodN(384_000_000)) == (9, 750_000_000)
    ensures Sized(PeriodN(384_000_000)) == (9, 213_129_088)
  {
  }

  /** The three nested loops. */
  method FindSetting(p: nat) returns (bestClk: nat, bestDiv: nat, bestM: nat)
    requires p < MAX_MPT
    ensures Best(p, bestClk, bestDiv, bestM)
  {
    hide StepTime, Error, Step, BestSoFar, Best, Pow2;
    var minErr: nat, lastErr: nat := UINT_MAX, UINT_MAX;
    NothingTried(p);
    bestClk, bestDiv, bestM := 0, 0, 0;
    for clk := 0 to 3
      invariant BestSoFar(p, minErr, (bestClk, bestDiv, bestM), clk, 0, 0)
    {
      for div := 0 to 4
        invariant BestSoFar(p, minErr, (bestClk, bestDiv, bestM), clk, div, 0)
      {
        var tmpP := Step(clk, div);
        StepTimeStarts(clk, div);
        var m := 0;
        while m <= 7
          invariant m <= 8 && tmpP == StepTime(clk, div, m)
          invariant BestSoFar(p, minErr, (bestClk, bestDiv, bestM), clk, div, m)
          invariant m > 0 ==> lastErr == Error(p, clk, div, m - 1)
        {
          StepTimeFits(clk, div, m);
          StepDoubles(clk, div, m);
          var curErr: nat := if p > tmpP then p - tmpP else tmpP - p;
          ErrorIs(p, clk, div, m);
          Improve(p, minErr, (bestClk, bestDiv, bestM), clk, div, m);
          if curErr < minErr {
            minErr := curErr;
            bestM, bestClk, bestDiv := m, clk, div;
          }
          if m > 0 && curErr > lastErr {
            RowEnds(p, minErr, (bestClk, bestDiv, bestM), clk, div, m);
            break;
          }
          lastErr := curErr;
          tmpP := 2 * tmpP;
          m := m + 1;
        }
        NextRow(p, minErr, (bestClk, bestDiv, bestM), clk, div);
      }
      NextClock(p, minErr, (bestClk, bestDiv, bestM), clk);
    }
    AllTried(p, minErr, (bestClk, bestDiv, bestM));
  }

  /** What the loops know when it is the turn of (clk, div, m). */
  ghost predicate BestSoFar(p: nat, minErr: nat, best: (nat, nat, nat), clk: nat, div: nat, m: nat) {
    if clk == 0 && div == 0 && m == 0 then minErr == UINT_MAX
    else BestBefore(p, best, clk, div, m) && minErr == Error(p, best.0, best.1, best.2)
  }

  lemma NothingTried(p: nat)
    ensures BestSoFar(p, UINT_MAX, (0, 0, 0), 0, 0, 0)
  {
  }

  lemma NextRow(p: nat, minErr: nat, best: (nat, nat, nat), clk: nat, div: nat)
    requires BestSoFar(p, minErr, best, clk, div, 8)
    ensures BestSoFar(p, minErr, best, clk, div + 1, 0)
  {
    hide Error, Preferred;
  }

  lemma NextClock(p: nat, minErr: nat, best: (nat, nat, nat), clk: nat)
    requires BestSoFar(p, minErr, best, clk, 4, 0)
    ensures BestSoFar(p, minErr, best, clk + 1, 0, 0)
  {
    hide Error, Preferred;
  }

  lemma RowEnds(p: nat, minErr: nat, best: (nat, nat, nat), clk: nat, div: nat, m: nat)
    requires Setting(clk, div, m) && m > 0 && Error(p, clk, div, m) > Error(p, clk, div, m - 1)
    requires BestSoFar(p, minErr, best, clk, div, m + 1)
    ensures BestSoFar(p, minErr, best, clk, div, 8)
  {
    hide Error, BestBefore;
    BreakIsSafe(p, best, clk, div, m);
  }

  lemma AllTried(p: nat, minErr: nat, best: (nat, nat, nat))
    requires BestSoFar(p, minErr, best, 3, 0, 0)
    ensures Best(p, best.0, best.1, best.2)
  {
    hide Error, Preferred;
  }

  lemma StepTimeStarts(clk: nat, div: nat)
    ensures StepTime(clk, div, 0) == Step(clk, div)
  {
    SmallPowers();
  }

  lemma ErrorIs(p: nat, clk: nat, div: nat, m: nat)
    ensures Error(p, clk, div, m) == Distance(p, StepTime(clk, div, m))
  {
  }

  lemma ErrorFits(p: nat, clk: nat, div: nat, m: nat)
    requires Setting(clk, div, m) && p < MAX_MPT
    ensures Error(p, clk, div, m) < UINT_MAX
  {
    StepTimeFits(clk, div, m);
  }

  /** One round of the innermost loop. */
  lemma Improve(p: nat, minErr: nat, best: (nat, nat, nat), clk: nat, div: nat, m: nat)
    requires Setting(clk, div, m) && p < MAX_MPT && BestSoFar(p, minErr, best, clk, div, m)
    ensures if Error(p, clk, div, m) < minErr
            then BestSoFar(p, Error(p, clk, div, m), (clk, div, m), clk, div, m + 1)
            else BestSoFar(p, minErr, best, clk, div, m + 1)
  {
    hide Error;
    ErrorFits(p, clk, div, m);
  }

  // ----- how good the best setting is

  /** Between two consecutive exponents one of the two is within a third. */
  lemma {:induction false} RowCovers(p: nat, clk: nat, div: nat, m: nat) returns (e: nat)
    requires m < 8 && StepTime(clk, div, 0) <= p <= StepTime(clk, div, m)
    ensures e < 8 && 3 * Error(p, clk, div, e) <= p
  {
    hide StepTime;
    if m == 0 {
      e := 0;
    } else {
      StepDoubles(clk, div, m - 1);
      if p < StepTime(clk, div, m - 1) {
        e := RowCovers(p, clk, div, m - 1);
      } else {
        e := if 3 * Error(p, clk, div, m) <= p then m else m - 1;
      }
    }
  }

  lemma RowEndsAre()
    ensures StepTime(2, 0, 0) == 52 && StepTime(2, 0, 7) == 6656
    ensures StepTime(2, 3, 0) == 312 && StepTime(2, 3, 7) == 39_936
    ensures StepTime(1, 0, 0) == 30_517 && StepTime(1, 0, 7) == 3_906_176
    ensures StepTime(0, 0, 0) == 976_562 && StepTime(0, 0, 7) == 124_999_936
    ensures StepTime(0, 3, 0) == 5_859_372 && StepTime(0, 3, 7) == 749_999_616
  {
    SmallPowers();
  }

  /** Some setting is within a third of the period. */
  lemma SomeSettingIsNear(p: nat) returns (clk: nat, div: nat, m: nat)
    requires 39 <= p <= MAX_MPT
    ensures Setting(clk, div, m) && 3 * Error(p, clk, div, m) <= p
  {
    RowEndsAre();
    if p < 52 {
      return 2, 0, 0;
    }
    clk, div := 0, 3;
    if p <= 6656 { clk, div := 2, 0; }
    else if p <= 39_936 { clk, div := 2, 3; }
    else if p <= 3_906_176 { clk, div := 1, 0; }
    else if p <= 124_999_936 { clk, div := 0, 0; }
    m := RowCovers(p, clk, div, 7);
  }

  lemma StepTimeAtLeast(clk: nat, div: nat, m: nat)
    ensures StepTime(clk, div, m) >= 52
    ensures StepTime(clk, div, m) == 52 || StepTime(clk, div, m) >= 104
  {
    if m == 0 {
      StepTimeStarts(clk, div);
    } else {
      StepDoubles(clk, div, m - 1);
      MulMono(Step(clk, div), 1, Pow2(m - 1));
    }
  }

  /** The error of the chosen setting is at most a third exactly from 39 ns per step on. */
  lemma ErrorWithinAThird(p: nat, clk: nat, div: nat, m: nat)
    requires p <= MAX_MPT && Best(p, clk, div, m)
    ensures 3 * Error(p, clk, div, m) <= p <==> p >= 39
  {
    if p >= 39 {
      var c, d, e := SomeSettingIsNear(p);
      assert Preferred(p, (clk, div, m), c, d, e);
    } else {
      StepTimeAtLeast(clk, div, m);
    }
  }

  /** At 78 ns per step no setting does better than a third. */
  lemma AThirdIsReached(clk: nat, div: nat, m: nat)
    ensures 3 * Error(78, clk, div, m) >= 78
  {
    StepTimeAtLeast(clk, div, m);
  }

  // ----- the value

  function Counts(size: nat): nat { if size == 9 then 512 else 64 }

  /** The duty cycle in counts, rounded down. */
  function ExactValue(size: nat, periodUs: nat, dutyUs: nat): nat
    requires periodUs > 0
  {
    QuotientNonneg(dutyUs * Counts(size), periodUs);
    dutyUs * Counts(size) / periodUs
  }

  /** The duty cycle over the period in counts, which avoids the large product. */
  function CoarseValue(size: nat, periodUs: nat, dutyUs: nat): nat
    requires periodUs >= Counts(size)
  {
    QuotientNonneg(periodUs, Counts(size));
    Quotient(periodUs, Counts(size));
    assert periodUs / Counts(size) > 0;
    QuotientNonneg(dutyUs, periodUs / Counts(size));
    dutyUs / (periodUs / Counts(size))
  }

  lemma Quotient(x: nat, m: nat)
    requires m > 0
    ensures x / m * m <= x < x / m * m + m
  {
    assert x == m * (x / m) + x % m;
  }

  lemma CountsAre(size: nat)
    ensures Counts(size) == 64 || Counts(size) == 512
  {
  }

  function Clamp(size: nat, v: nat): nat { if v > Counts(size) - 1 then Counts(size) - 1 else v }

  /** Dividing by the period in counts instead is off by at most one. */
  lemma DivideFirst(n: nat, period: nat, duty: nat, q: nat, v: nat, e: nat)
    requires 0 < n <= q && duty <= period && period > 0
    requires q * n <= period < q * n + n
    requires v * q <= duty < v * q + q
    requires e * period <= duty * n < e * period + period
    ensures e <= v <= e + 1
  {
    NotBelow(n, period, duty, q, v, e);
    NotAbove(n, period, duty, q, v, e);
  }

  lemma NotBelow(n: nat, period: nat, duty: nat, q: nat, v: nat, e: nat)
    requires 0 < n && q * n <= period && duty < v * q + q && e * period <= duty * n
    ensures e <= v
  {
    if e > v {
      MulMono(q, v + 1, e);
      assert q * (v + 1) == v * q + q;
      MulMono(n, duty + 1, q * e);
      assert n * (duty + 1) == duty * n + n;
      assert n * (q * e) == e * (q * n);
      MulMono(e, q * n, period);
    }
  }

  lemma NotAbove(n: nat, period: nat, duty: nat, q: nat, v: nat, e: nat)
    requires 0 < n <= q && duty <= period && period > 0 && period < q * n + n
    requires v * q <= duty && e * period <= duty * n < e * period + period
    ensures v <= e + 1
  {
    ValueAtMost(n, period, duty, e);
    Remainders(n, q, e);
    UpperBound(n, period, duty, q, e);
    if v > e + 1 { LowerBound(n, duty, q, v, e); }
  }

  lemma Remainders(n: nat, q: nat, e: nat)
    requires 0 < n <= q && e <= n
    ensures (e + 1) * (n - 1) < q * n
  {
    MulMono(n - 1, e + 1, n + 1);
    assert (n - 1) * (n + 1) == n * n - 1;
    MulMono(n, n, q);
  }

  lemma UpperBound(n: nat, period: nat, duty: nat, q: nat, e: nat)
    requires 0 < n && period < q * n + n && duty * n < e * period + period
    ensures duty * n < (e + 1) * (q * n) + (e + 1) * (n - 1)
  {
    MulMono(e + 1, period, q * n + n - 1);
    OneMore(e, period);
    SplitProduct(e + 1, q * n, n - 1);
  }

  lemma OneMore(e: int, x: int)
    ensures (e + 1) * x == e * x + x
  {
  }

  lemma SplitProduct(a: int, x: int, y: int)
    ensures a * (x + y) == a * x + a * y
  {
  }

  lemma LowerBound(n: nat, duty: nat, q: nat, v: nat, e: nat)
    requires v * q <= duty && v > e + 1
    ensures duty * n >= (e + 1) * (q * n) + q * n
  {
    MulMono(q, e + 2, v);
    MulMono(n, q * (e + 2), duty);
    assert n * (q * (e + 2)) == (e + 2) * (q * n);
  }

  lemma ValueAtMost(n: nat, period: nat, duty: nat, e: nat)
    requires duty <= period && period > 0 && e * period <= duty * n
    ensures e <= n
  {
    MulMono(n, duty, period);
    if e > n { MulMono(period, n + 1, e); }
  }

  lemma CoarseIsClose(size: nat, periodUs: nat, dutyUs: nat)
    requires dutyUs <= periodUs && dutyUs >= 0x1_0000_0000 / Counts(size)
    ensures periodUs >= Counts(size)
    ensures var e := ExactValue(size, periodUs, dutyUs); e <= CoarseValue(size, periodUs, dutyUs) <= e + 1
  {
    var n := Counts(size);
    var q := periodUs / n;
    assert n <= q;
    DivideFirstQuotients(n, periodUs, dutyUs, q);
  }

  /** The division by the period in counts reaches the next value: possible in the overflow branch only. */
  predicate OneTooMany(size: nat, periodUs: nat, dutyUs: nat)
    requires periodUs > 0
  {
    dutyUs >= 0x1_0000_0000 / Counts(size)
        && (ExactValue(size, periodUs, dutyUs) + 1) * (periodUs / Counts(size)) <= dutyUs
  }

  /** When exactly the coarse value is one too many. */
  lemma CoarseIsOneMoreIff(size: nat, periodUs: nat, dutyUs: nat)
    requires dutyUs <= periodUs && dutyUs >= 0x1_0000_0000 / Counts(size)
    ensures periodUs >= Counts(size)
    ensures CoarseValue(size, periodUs, dutyUs)
         == ExactValue(size, periodUs, dutyUs) + if OneTooMany(size, periodUs, dutyUs) then 1 else 0
  {
    hide ExactValue;
    CoarseIsClose(size, periodUs, dutyUs);
    var q, e := periodUs / Counts(size), ExactValue(size, periodUs, dutyUs);
    assert q > 0;
    Reaches(dutyUs, q, e + 1);
  }

  lemma Reaches(x: nat, q: nat, k: nat)
    requires q > 0
    ensures x / q >= k <==> k * q <= x
  {
    Quotient(x, q);
    if x / q >= k { MulMono(q, k, x / q); } else { MulMono(q, x / q + 1, k); }
  }

  /** 28.125 s of 48.000511 s are 299 counts of 512, and 300 are stored. */
  lemma OneTooManyHappens()
    ensures ExactValue(9, 48_000_511, 28_125_000) == 299 && OneTooMany(9, 48_000_511, 28_125_000)
    ensures CoarseValue(9, 48_000_511, 28_125_000) == 300
  {
  }

  /** The value stored is the clamped exact one unless it is one too many below the greatest value. */
  lemma DutyIsRightIff(size: nat, periodUs: nat, dutyUs: nat)
    requires periodUs > 0
    ensures var e := ExactValue(size, periodUs, dutyUs);
            var stored := e + if OneTooMany(size, periodUs, dutyUs) then 1 else 0;
            Clamp(size, stored) == Clamp(size, e) <==> !OneTooMany(size, periodUs, dutyUs) || e >= Counts(size) - 1
  {
    hide ExactValue, OneTooMany;
  }

  lemma DivideFirstQuotients(n: nat, period: nat, duty: nat, q: nat)
    requires 0 < n <= q && duty <= period && period > 0 && q == period / n
    ensures duty * n / period <= duty / q <= duty * n / period + 1
  {
    Quotient(period, n);
    Quotient(duty, q);
    Quotient(duty * n, period);
    QuotientNonneg(duty, q);
    QuotientNonneg(duty * n, period);
    DivideFirst(n, period, duty, q, duty / q, duty * n / period);
  }

  // ----- the numbers in plain terms

  /** The nanoseconds of one step: 1, 3, 5 or 6 periods of the clock of 1024 Hz, 32768 Hz or 19.2 MHz, doubled up to
      seven times. */
  lemma StepTimesAre(clk: nat, div: nat, m: nat)
    requires Setting(clk, div, m)
    ensures var table := [[976_562, 30_517, 52], [2_929_686, 91_551, 156], [4_882_810, 152_585, 260],
                          [5_859_372, 183_102, 312]];
            StepTime(clk, div, m) == table[div][clk] * [1, 2, 4, 8, 16, 32, 64, 128][m]
    ensures forall p: nat :: Error(p, clk, div, m) ==
                             (if p >= StepTime(clk, div, m) then p - StepTime(clk, div, m)
                              else StepTime(clk, div, m) - p)
  {
    SmallPowers();
  }

  /** A 64th of the period in nanoseconds, or a 512th from 749_999_616 ns on, as far as it does not wrap. */
  lemma PeriodPerStep(us: nat)
    requires us < 274_877_952
    ensures var (size, p) := Sized(PeriodN(us));
            && (size == 6 || size == 9)
            && (us < 4_294_967 ==> size == 6 && 64 * p <= 1000 * us < 64 * p + 64)
            && (us >= 4_294_967 && size == 6 ==> 64 * p <= 1000 * us < 64 * p + 64_000 && p < 749_999_616)
            && (size == 9 ==> 512 * p <= 1000 * us < 512 * p + 64_512 && 8 * p + 7 >= 749_999_616)
  {
    var x := us * 1000;
    assert us < 4_294_967 ==> x / 64 < 749_999_616;
    assert us / 64 * 64 <= us < us / 64 * 64 + 64;
    assert x / 64 * 64 <= x < x / 64 * 64 + 64;
    WrapsIff(us);
    var e := ExactPeriodN(us);
    assert e / 8 * 8 <= e < e / 8 * 8 + 8;
  }

  /** The duty value: the share of the period in steps of 64 or 512, rounded down, and at most one below. */
  lemma DutyValueIs(size: nat, periodUs: nat, dutyUs: nat)
    requires (size == 6 || size == 9) && periodUs > 0
    ensures var n := if size == 6 then 64 else 512; var e := ExactValue(size, periodUs, dutyUs);
            && e * periodUs <= dutyUs * n < (e + 1) * periodUs
            && (forall v: nat :: Clamp(size, v) == if v >= n then n - 1 else v)
            && (OneTooMany(size, periodUs, dutyUs) <==>
                  dutyUs >= 0x1_0000_0000 / n && (e + 1) * (periodUs / n) <= dutyUs)
  {
    var n := Counts(size);
    Quotient(dutyUs * n, periodUs);
    OneMore(ExactValue(size, periodUs, dutyUs), periodUs);
  }

  /** The configuration that is filled in. */
  class PmPwmConfig {
    var pwmSize: nat
    var clk: nat
    var preDiv: nat
    var preDivExp: nat
    var pwmValue: nat

    constructor ()
    {
    }

    /** pm_pwm_calc_period */
    method CalcPeriod(periodUs: nat)
      requires periodUs <= UINT_MAX
      modifies this
      ensures pwmSize == Sized(PeriodN(periodUs)).0
      ensures Best(Sized(PeriodN(periodUs)).1, clk, preDiv, preDivExp)
      ensures pwmValue == old(pwmValue)
    {
      var n := 6;
      var periodN: nat;
      if periodUs < UINT_MAX / 1000 {
        periodN := periodUs * 1000 / 64;
      } else {
        periodN := periodUs / 64 * 1000 % 0x1_0000_0000;
      }
      if periodN >= MAX_MPT {
        n := 9;
        periodN := periodN / 8;
      }
      assert (n, periodN) == Sized(PeriodN(periodUs));
      var bestClk, bestDiv, bestM := FindSetting(periodN);
      pwmSize, clk, preDiv, preDivExp := n, bestClk, bestDiv, bestM;
    }

    /** pm_pwm_calc_pwm_value, on the arguments pm_pwm_config lets through */
    method CalcPwmValue(periodUs: nat, dutyUs: nat)
      requires dutyUs <= periodUs && 7 <= periodUs <= 384_000_000
      requires pwmSize == 6 || pwmSize == 9
      modifies this`pwmValue
      ensures pwmValue
           == Clamp(pwmSize, ExactValue(pwmSize, periodUs, dutyUs)
                             + if OneTooMany(pwmSize, periodUs, dutyUs) then 1 else 0)
    {
      hide ExactValue, CoarseValue, Counts;
      CountsAre(pwmSize);
      if dutyUs < 0x1_0000_0000 / Counts(pwmSize) {
        pwmValue := ExactValue(pwmSize, periodUs, dutyUs);
      } else {
        CoarseIsOneMoreIff(pwmSize, periodUs, dutyUs);
        pwmValue := CoarseValue(pwmSize, periodUs, dutyUs);
      }
      var maxPwmValue := Counts(pwmSize) - 1;
      if pwmValue > maxPwmValue {
        pwmValue := maxPwmValue;
      }
    }

    /** pm_pwm_config, up to the register writes */
    method Config(dutyUs: nat, periodUs: nat) returns (ret: int)
      requires dutyUs <= UINT_MAX && periodUs <= UINT_MAX
      modifies this
      ensures ret == 0 <==> dutyUs <= periodUs && 7 <= periodUs <= 384_000_000
      ensures ret == 0 ==>
                && pwmSize == Sized(PeriodN(periodUs)).0 && Best(Sized(PeriodN(periodUs)).1, clk, preDiv, preDivExp)
                && pwmValue == Clamp(pwmSize, ExactValue(pwmSize, periodUs, dutyUs)
                                              + if OneTooMany(pwmSize, periodUs, dutyUs) then 1 else 0)
      ensures ret == 0 && periodUs < 274_877_952 ==>
                3 * Error(Sized(ExactPeriodN(periodUs)).1, clk, preDiv, preDivExp) <= Sized(ExactPeriodN(periodUs)).1
      ensures ret != 0 ==> unchanged(this)
    {
      if dutyUs > periodUs || periodUs > 384_000_000 || periodUs < 7 {
        return -1;
      }
      CalcPeriod(periodUs);
      CalcPwmValue(periodUs, dutyUs);
      WrapsIff(periodUs);
      ErrorWithinAThird(Sized(PeriodN(periodUs)).1, clk, preDiv, preDivExp);
      return 0;
    }
  }
}
