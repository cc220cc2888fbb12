/** The three 4.4BSD scheduler formulas of src/lib/formula.c, as compositions of the 17.14
    fixed-point operations. Every intermediate value is a 32-bit raw word, so each formula carries a
    precondition that none of its steps overflows. */
module Formula {
  import opened Fixed1714
  import ThreadLimits

  // ---------------------------------------------------------------------------------------------
  // formula_priority

  /** `rc_4 = div_int(recent_cpu, 4)`. */
  function QuarterCpu(recentCpu: Fixed): Fixed {
    DivInt(recentCpu, 4)
  }

  /** Every step of `formula_priority` stays within 32 bits, and so does the rounding. */
  predicate PriorityDefined(recentCpu: Fixed, nice: int) {
    IsInt32(nice * F) && IsInt32(nice * F * 2)
    && IsInt32(ThreadLimits.PRI_MAX * F - QuarterCpu(recentCpu).raw)
    && IsInt32(ThreadLimits.PRI_MAX * F - QuarterCpu(recentCpu).raw - nice * F * 2)
    && IsInt32(ThreadLimits.PRI_MAX * F - QuarterCpu(recentCpu).raw - nice * F * 2 - F / 2)
    && IsInt32(ThreadLimits.PRI_MAX * F - QuarterCpu(recentCpu).raw - nice * F * 2 + F / 2)
  }

  /** The unrounded priority `PRI_MAX - recent_cpu / 4 - nice * 2`, computed step by step. */
  function PriorityValue(recentCpu: Fixed, nice: int): (pri: Fixed)
    requires PriorityDefined(recentCpu, nice)
    ensures pri.raw == ThreadLimits.PRI_MAX * F - QuarterCpu(recentCpu).raw - 2 * nice * F
  {
    var rc4 := QuarterCpu(recentCpu);
    var nice2 := MulInt(MakeFixed(nice, 1), 2);
    var priMax := MakeFixed(ThreadLimits.PRI_MAX, 1);
    Sub(Sub(priMax, rc4), nice2)
  }

  /** `formula_priority`, rounding the unrounded priority to the nearest integer. The source rounds
      with `to_int_round`, which is one too low on negative values; both results are at most
      PRI_MIN there, which is what the scheduler clamps them to (lemma PriorityRoundingAgrees). */
  function FormulaPriority(recentCpu: Fixed, nice: int): (p: int)
    requires PriorityDefined(recentCpu, nice)
    ensures 2 * Abs(PriorityValue(recentCpu, nice).raw - p * F) <= F
  {
    ToIntNearest(PriorityValue(recentCpu, nice))
  }

  /** `formula_priority` exactly as written, with `to_int_round`: the nearest integer for a
      non-negative unrounded priority, the floor of value - 1/2 for a negative one. */
  function FormulaPriorityAsWritten(recentCpu: Fixed, nice: int): (p: int)
    requires PriorityDefined(recentCpu, nice)
    ensures PriorityValue(recentCpu, nice).raw >= 0 ==>
              p * F <= PriorityValue(recentCpu, nice).raw + F / 2 < p * F + F
    ensures PriorityValue(recentCpu, nice).raw < 0 ==>
              p * F <= PriorityValue(recentCpu, nice).raw - F / 2 < p * F + F
  {
    ToIntRound(PriorityValue(recentCpu, nice))
  }

  /** Where the source's rounding and the nearest rounding differ, both lie at or below PRI_MIN. */
  lemma PriorityRoundingAgrees(recentCpu: Fixed, nice: int)
    requires PriorityDefined(recentCpu, nice)
    ensures FormulaPriorityAsWritten(recentCpu, nice) != FormulaPriority(recentCpu, nice) ==>
              FormulaPriorityAsWritten(recentCpu, nice) <= ThreadLimits.PRI_MIN
              && FormulaPriority(recentCpu, nice) <= ThreadLimits.PRI_MIN
  {
    RoundingsAgree(PriorityValue(recentCpu, nice));
  }

  /** With no recent CPU time, the priority is PRI_MAX - 2 * nice. */
  lemma {:induction false} PriorityAtZeroCpu(nice: int)
    requires PriorityDefined(Fixed(0), nice)
    ensures FormulaPriority(Fixed(0), nice) == ThreadLimits.PRI_MAX - 2 * nice
  {
    var n := ThreadLimits.PRI_MAX - 2 * nice;
    assert QuarterCpu(Fixed(0)).raw == 0;
    assert PriorityValue(Fixed(0), nice).raw == n * F;
    assert PriorityValue(Fixed(0), nice) == MakeFixed(n, 1);
    ToIntNearestOfInt(n);
  }

  /** The source's version gives the same whenever PRI_MAX - 2 * nice is not negative. */
  lemma {:induction false} PriorityAsWrittenAtZeroCpu(nice: int)
    requires PriorityDefined(Fixed(0), nice) && ThreadLimits.PRI_MAX - 2 * nice >= 0
    ensures FormulaPriorityAsWritten(Fixed(0), nice) == ThreadLimits.PRI_MAX - 2 * nice
  {
    var n := ThreadLimits.PRI_MAX - 2 * nice;
    assert QuarterCpu(Fixed(0)).raw == 0;
    assert PriorityValue(Fixed(0), nice) == MakeFixed(n, 1);
    ToIntRoundOfNonNegative(n);
  }

  /** More recent CPU time never raises the priority. */
  lemma {:induction false} PriorityMonotoneInCpu(rc1: Fixed, rc2: Fixed, nice: int)
    requires PriorityDefined(rc1, nice) && PriorityDefined(rc2, nice)
    requires rc1.raw <= rc2.raw
    ensures FormulaPriority(rc1, nice) >= FormulaPriority(rc2, nice)
  {
    TruncDivMono(rc1.raw, rc2.raw, 4);
    ToIntNearestMono(PriorityValue(rc2, nice), PriorityValue(rc1, nice));
  }

  /** A higher nice value never raises the priority. */
  lemma {:induction false} PriorityMonotoneInNice(recentCpu: Fixed, nice1: int, nice2: int)
    requires PriorityDefined(recentCpu, nice1) && PriorityDefined(recentCpu, nice2)
    requires nice1 <= nice2
    ensures FormulaPriority(recentCpu, nice1) >= FormulaPriority(recentCpu, nice2)
  {
    ToIntNearestMono(PriorityValue(recentCpu, nice2), PriorityValue(recentCpu, nice1));
  }

  /** The source's version is monotone in recent_cpu as well. */
  lemma {:induction false} PriorityAsWrittenMonotoneInCpu(rc1: Fixed, rc2: Fixed, nice: int)
    requires PriorityDefined(rc1, nice) && PriorityDefined(rc2, nice)
    requires rc1.raw <= rc2.raw
    ensures FormulaPriorityAsWritten(rc1, nice) >= FormulaPriorityAsWritten(rc2, nice)
  {
    TruncDivMono(rc1.raw, rc2.raw, 4);
    ToIntRoundMono(PriorityValue(rc2, nice), PriorityValue(rc1, nice));
  }

  /** The source's version is monotone in nice as well. */
  lemma {:induction false} PriorityAsWrittenMonotoneInNice(recentCpu: Fixed, nice1: int, nice2: int)
    requires PriorityDefined(recentCpu, nice1) && PriorityDefined(recentCpu, nice2)
    requires nice1 <= nice2
    ensures FormulaPriorityAsWritten(recentCpu, nice1) >= FormulaPriorityAsWritten(recentCpu, nice2)
  {
    ToIntRoundMono(PriorityValue(recentCpu, nice2), PriorityValue(recentCpu, nice1));
  }

  // ---------------------------------------------------------------------------------------------
  // formula_load_avg

  /** The decay factor 59/60; truncation makes its raw value 16110, just below 59/60 * 16384. */
  function DecayFactor(): (c: Fixed)
    ensures c.raw == 16110
    ensures 60 * c.raw <= 59 * F < 60 * c.raw + 60
  {
    MakeFixed(59, 60)
  }

  /** `formula_load_avg` does not overflow: the ready count converts to fixed point and the sum fits. */
  predicate LoadAvgDefined(loadAvg: Fixed, readyThreads: int) {
    IsInt32(readyThreads * F)
    && IsInt32(Mul(DecayFactor(), loadAvg).raw + DivInt(MakeFixed(readyThreads, 1), 60).raw)
  }

  /** `formula_load_avg`: 59/60 of the old load average plus 1/60 of the number of ready threads. */
  function FormulaLoadAvg(loadAvg: Fixed, readyThreads: int): (la: Fixed)
    requires LoadAvgDefined(loadAvg, readyThreads)
    ensures la.raw == Mul(DecayFactor(), loadAvg).raw + DivInt(MakeFixed(readyThreads, 1), 60).raw
  {
    Add(Mul(DecayFactor(), loadAvg), DivInt(MakeFixed(readyThreads, 1), 60))
  }

  /** Scaling a non-negative raw value by a fraction in [0, 1) and shifting back never grows it, and
      shrinks it when it is positive. */
  lemma ScaleByFraction(c: int, x: int)
    requires 0 <= c < F && x >= 0
    ensures 0 <= ShiftRight(c * x) <= x
    ensures x > 0 ==> ShiftRight(c * x) < x
  {
    var p, q := c * x, ShiftRight(c * x);
    MulMono(x, c, F - 1);
    assert p <= x * F - x;
    assert p >= 0;
    QuotientOrder(0, q, F);
    QuotientOrder(q, x, F);
    if x > 0 {
      QuotientOrder(q, x - 1, F);
    }
  }

  /** Multiplying a non-negative raw value by the decay factor strictly shrinks it (and keeps zero). */
  lemma DecayShrinks(x: Fixed)
    requires x.raw >= 0
    ensures 0 <= Mul(DecayFactor(), x).raw <= x.raw
    ensures x.raw > 0 ==> Mul(DecayFactor(), x).raw < x.raw
  {
    ScaleByFraction(16110, x.raw);
  }

  /** With no ready threads, a positive load average strictly decreases without going negative, and a
      zero load average stays zero. */
  lemma LoadAvgDecays(loadAvg: Fixed)
    requires loadAvg.raw >= 0
    ensures LoadAvgDefined(loadAvg, 0)
    ensures 0 <= FormulaLoadAvg(loadAvg, 0).raw <= loadAvg.raw
    ensures loadAvg.raw > 0 ==> FormulaLoadAvg(loadAvg, 0).raw < loadAvg.raw
  {
    DecayShrinks(loadAvg);
    assert MakeFixed(0, 1).raw == 0;
    assert DivInt(MakeFixed(0, 1), 60).raw == 0;
  }

  /** `n` consecutive updates of an idle system. */
  function IdleUpdates(loadAvg: Fixed, n: nat): (la: Fixed)
    requires loadAvg.raw >= 0
    ensures la.raw >= 0
    decreases n
  {
    LoadAvgDecays(loadAvg);
    if n == 0 then loadAvg else IdleUpdates(FormulaLoadAvg(loadAvg, 0), n - 1)
  }

  /** On an idle system the load average reaches exactly zero, at the latest after as many updates as
      its raw value. */
  lemma {:induction false} LoadAvgReachesZero(loadAvg: Fixed, n: nat)
    requires loadAvg.raw >= 0 && n >= loadAvg.raw
    ensures IdleUpdates(loadAvg, n).raw == 0
    decreases n
  {
    if n > 0 {
      LoadAvgDecays(loadAvg);
      LoadAvgReachesZero(FormulaLoadAvg(loadAvg, 0), n - 1);
    }
  }

  // ---------------------------------------------------------------------------------------------
  // formula_recent_cpu

  /** `two_la = mul_int(load_avg, 2)`. */
  function TwoLoad(loadAvg: Fixed): Fixed
    requires IsInt32(2 * loadAvg.raw)
  {
    MulInt(loadAvg, 2)
  }

  /** The steps of `formula_recent_cpu` do not overflow, and the divisor `2 * load_avg + 1` is not
      zero; a load average of -1/2 (raw -8192) would make it zero. */
  predicate RecentCpuDefined(recentCpu: Fixed, loadAvg: Fixed, nice: int) {
    IsInt32(2 * loadAvg.raw) && IsInt32(2 * loadAvg.raw + F) && loadAvg.raw != -F / 2
    && IsInt32(nice * F)
    && IsInt32(Mul(Div(TwoLoad(loadAvg), AddInt(TwoLoad(loadAvg), 1)), recentCpu).raw + nice * F)
  }

  /** The decay coefficient `(2 * load_avg) / (2 * load_avg + 1)`. */
  function Coefficient(loadAvg: Fixed): (c: Fixed)
    requires IsInt32(2 * loadAvg.raw) && IsInt32(2 * loadAvg.raw + F) && loadAvg.raw != -F / 2
  {
    Div(TwoLoad(loadAvg), AddInt(TwoLoad(loadAvg), 1))
  }

  /** `formula_recent_cpu`: the coefficient times the old recent CPU time, plus nice. */
  function FormulaRecentCpu(recentCpu: Fixed, loadAvg: Fixed, nice: int): (rc: Fixed)
    requires RecentCpuDefined(recentCpu, loadAvg, nice)
    ensures rc.raw == Mul(Coefficient(loadAvg), recentCpu).raw + nice * F
  {
    AddInt(Mul(Coefficient(loadAvg), recentCpu), nice)
  }

  /** With a zero load average the old recent CPU time is forgotten entirely: the result is nice. */
  lemma RecentCpuAtZeroLoad(recentCpu: Fixed, nice: int)
    requires RecentCpuDefined(recentCpu, Fixed(0), nice)
    ensures FormulaRecentCpu(recentCpu, Fixed(0), nice) == MakeFixed(nice, 1)
  {
    assert Coefficient(Fixed(0)).raw == 0;
    assert Mul(Coefficient(Fixed(0)), recentCpu).raw == 0;
  }

  /** For a non-negative load average the coefficient lies in [0, 1). */
  lemma CoefficientBelowOne(loadAvg: Fixed)
    requires loadAvg.raw >= 0 && IsInt32(2 * loadAvg.raw) && IsInt32(2 * loadAvg.raw + F)
    ensures 0 <= Coefficient(loadAvg).raw < F
  {
    var a, b := 2 * loadAvg.raw * F, 2 * loadAvg.raw + F;
    var q := TruncDiv(a, b);
    TruncDivPos(a, b);
    assert a < F * b by {
      assert F * b == 2 * loadAvg.raw * F + F * F;
    }
    assert q * b <= a;
    assert q * b < F * b;
    QuotientOrder(q, F - 1, b);
    MulAtLeast(q + 1, b);
    assert 0 <= q < F;
  }

  /** For non-negative recent CPU time and load average, the decayed value does not exceed the old one,
      so the result is at most the old value plus nice. */
  lemma RecentCpuBound(recentCpu: Fixed, loadAvg: Fixed, nice: int)
    requires RecentCpuDefined(recentCpu, loadAvg, nice)
    requires recentCpu.raw >= 0 && loadAvg.raw >= 0
    ensures 0 <= Coefficient(loadAvg).raw < F
    ensures FormulaRecentCpu(recentCpu, loadAvg, nice).raw <= recentCpu.raw + nice * F
  {
    CoefficientBelowOne(loadAvg);
    ScaleByFraction(Coefficient(loadAvg).raw, recentCpu.raw);
  }
}
