/** Splitting a bit time at the sample point: `ep1_cf02a_can_update_sample_point`. */
module SamplePoint {
  import opened CInts
  import opened Nonlinear
  import opened BestCandidate

  const SYNC_SEG: int := 1

  /** `struct can_bittiming_const`. */
  datatype Limits = Limits(tseg1Min: u32, tseg1Max: u32, tseg2Min: u32, tseg2Max: u32,
                           sjwMax: u32, brpMin: u32, brpMax: u32, brpInc: u32)

  const NOMINAL_LIMITS := Limits(1, 256, 1, 128, 128, 1, 512, 1)
  const DATA_LIMITS := Limits(1, 32, 1, 16, 16, 1, 32, 1)

  /** The shape shared by the driver's two limit tables. */
  ghost predicate WellFormed(btc: Limits) {
    && btc.tseg1Min == 1 && 2 * btc.tseg2Max <= btc.tseg1Max <= 256
    && 1 == btc.tseg2Min <= btc.tseg2Max <= 2 * btc.sjwMax + 1 && 1 <= btc.sjwMax
    && 1 == btc.brpInc == btc.brpMin <= btc.brpMax <= 1024
  }

  lemma DriverLimitsAreWellFormed()
    ensures WellFormed(NOMINAL_LIMITS) && WellFormed(DATA_LIMITS)
  {
  }

  /** `abs(a - b)` on unsigned operands: the difference is read as an `int` first. */
  function AbsDiff(a: u32, b: u32): (d: u32)
    ensures d <= 0x8000_0000
    ensures -0x8000_0000 < a - b < 0x8000_0000 ==> d == if a >= b then a - b else b - a
  {
    var d: int := ToS32(ToU32(a - b));
    if d < 0 then -d else d
  }

  function Clamp(x: u32, lo: u32, hi: u32): u32 {
    var y := if x < lo then lo else x;
    if y > hi then hi else y
  }

  /** Segments 1 and 2 when `w` ticks are wanted after the sample point. */
  function Split(btc: Limits, tseg: u32, w: u32): (u32, u32) {
    var clamped := Clamp(w, btc.tseg2Min, btc.tseg2Max);
    var rest := ToU32(tseg - clamped);
    var tseg1 := if rest > btc.tseg1Max then btc.tseg1Max else rest;
    (tseg1, if rest > btc.tseg1Max then ToU32(tseg - tseg1) else clamped)
  }

  datatype Attempt = Attempt(tseg1: u32, tseg2: u32, samplePoint: u32, error: u32)

  /** Ticks wanted after the sample point: the nominal share, rounded up or (for `i` = 1) down. */
  function WantedTicks(nominal: u32, tseg: u32, i: int): u32
    requires tseg < UINT_MAX
  {
    ToU32(tseg + SYNC_SEG - DivU32(ToU32(nominal * (tseg + SYNC_SEG)), 1000) - i)
  }

  /** The sample point, per mille, when segment 2 has `tseg2` ticks. */
  function SamplePointOf(tseg: u32, tseg2: u32): u32
    requires tseg < UINT_MAX
  {
    DivU32(ToU32(1000 * ToU32(tseg + SYNC_SEG - tseg2)), tseg + SYNC_SEG)
  }

  /** One of the two roundings of the sample point that the driver tries. */
  function TryRounding(btc: Limits, nominal: u32, tseg: u32, i: int): Attempt
    requires tseg < UINT_MAX
  {
    var (tseg1, tseg2) := Split(btc, tseg, WantedTicks(nominal, tseg, i));
    var samplePoint := SamplePointOf(tseg, tseg2);
    Attempt(tseg1, tseg2, samplePoint, AbsDiff(nominal, samplePoint))
  }

  predicate NotLate(btc: Limits, nominal: u32, tseg: u32, i: int)
    requires tseg < UINT_MAX
  {
    TryRounding(btc, nominal, tseg, i).samplePoint <= nominal
  }

  predicate Feasible(btc: Limits, nominal: u32, tseg: u32)
    requires tseg < UINT_MAX
  {
    NotLate(btc, nominal, tseg, 0) || NotLate(btc, nominal, tseg, 1)
  }

  /** Which rounding is taken: the usable one nearest the nominal sample point, the first one on a tie. */
  function BestIndex(btc: Limits, nominal: u32, tseg: u32): (i: int)
    requires tseg < UINT_MAX && Feasible(btc, nominal, tseg)
    ensures 0 <= i <= 1 && NotLate(btc, nominal, tseg, i)
  {
    var a, b := TryRounding(btc, nominal, tseg, 0), TryRounding(btc, nominal, tseg, 1);
    if NotLate(btc, nominal, tseg, 0) && (NotLate(btc, nominal, tseg, 1) ==> a.error <= b.error) then 0 else 1
  }

  function BestRounding(btc: Limits, nominal: u32, tseg: u32): Attempt
    requires tseg < UINT_MAX && Feasible(btc, nominal, tseg)
  {
    TryRounding(btc, nominal, tseg, BestIndex(btc, nominal, tseg))
  }

  /** The error `UpdateSamplePoint` reports: `UINT_MAX` when no rounding is usable. */
  function SampleError(btc: Limits, nominal: u32, tseg: u32): (e: u32)
    requires tseg < UINT_MAX
    ensures e < UINT_MAX <==> Feasible(btc, nominal, tseg)
  {
    if Feasible(btc, nominal, tseg) then BestRounding(btc, nominal, tseg).error else UINT_MAX
  }

  /** The caller's segments are kept when no rounding is usable. */
  method UpdateSamplePoint(btc: Limits, nominal: u32, tseg: u32, oldTseg1: u32, oldTseg2: u32)
    returns (samplePoint: u32, tseg1: u32, tseg2: u32, error: u32)
    requires tseg < UINT_MAX
    ensures error == SampleError(btc, nominal, tseg)
    ensures Feasible(btc, nominal, tseg)
            ==> Attempt(tseg1, tseg2, samplePoint, error) == BestRounding(btc, nominal, tseg)
    ensures !Feasible(btc, nominal, tseg) ==> (samplePoint, tseg1, tseg2) == (0, oldTseg1, oldTseg2)
  {
    samplePoint, tseg1, tseg2, error := 0, oldTseg1, oldTseg2, UINT_MAX;
    var i := 0;
    while i <= 1
      invariant 0 <= i <= 2
      invariant i == 1 && NotLate(btc, nominal, tseg, 0)
                ==> Attempt(tseg1, tseg2, samplePoint, error) == TryRounding(btc, nominal, tseg, 0)
      invariant i == 2 && Feasible(btc, nominal, tseg)
                ==> Attempt(tseg1, tseg2, samplePoint, error) == BestRounding(btc, nominal, tseg)
      invariant i == 0 || (i == 1 && !NotLate(btc, nominal, tseg, 0)) || (i == 2 && !Feasible(btc, nominal, tseg))
                ==> (samplePoint, tseg1, tseg2, error) == (0, oldTseg1, oldTseg2, UINT_MAX)
    {
      var a := TryRounding(btc, nominal, tseg, i);
      if a.samplePoint <= nominal && a.error < error {
        samplePoint := a.samplePoint;
        error := a.error;
        tseg1 := a.tseg1;
        tseg2 := a.tseg2;
      }
      i := i + 1;
    }
  }

  // ------------------------------------------------------------------
  // What a rounding makes of a bit time, for any nominal sample point.

  /** The segments are within the limits and add up. */
  predicate InLimits(btc: Limits, a: Attempt, tseg: u32) {
    a.tseg1 <= btc.tseg1Max && 1 <= a.tseg2 <= btc.tseg2Max && a.tseg1 + a.tseg2 == tseg
  }

  /** The ticks wanted after the sample point are more than the bit time has, so that segment 1 wraps. */
  predicate Overshoots(btc: Limits, nominal: u32, tseg: u32, i: int)
    requires tseg < UINT_MAX
  {
    tseg < Clamp(WantedTicks(nominal, tseg, i), btc.tseg2Min, btc.tseg2Max)
  }

  /** The least sample point, per mille, that a wrapped segment 1 can show. */
  function LeastOvershoot(btc: Limits): int {
    if btc.tseg2Max == 0 then 0 else 1000 * (SYNC_SEG + btc.tseg1Max) / btc.tseg2Max
  }

  lemma SplitNormally(btc: Limits, tseg: u32, w: u32)
    requires WellFormed(btc) && 2 <= tseg <= btc.tseg1Max + btc.tseg2Max
    requires Clamp(w, btc.tseg2Min, btc.tseg2Max) <= tseg
    ensures var (tseg1, tseg2) := Split(btc, tseg, w);
      tseg1 <= btc.tseg1Max && 1 <= tseg2 <= btc.tseg2Max && tseg1 + tseg2 == tseg
    ensures var clamped := Clamp(w, btc.tseg2Min, btc.tseg2Max);
      Split(btc, tseg, w).1 == if tseg - clamped > btc.tseg1Max then tseg - btc.tseg1Max else clamped
  {
    var clamped: int := Clamp(w, btc.tseg2Min, btc.tseg2Max);
    NoWrap(tseg - clamped);
    if tseg - clamped > btc.tseg1Max {
      NoWrap(tseg - btc.tseg1Max);
    }
  }

  lemma SplitPast(btc: Limits, tseg: u32, w: u32)
    requires WellFormed(btc) && 2 <= tseg < Clamp(w, btc.tseg2Min, btc.tseg2Max)
    ensures Split(btc, tseg, w) == (btc.tseg1Max, ToU32(tseg - btc.tseg1Max))
    ensures ToU32(tseg - btc.tseg1Max) == tseg - btc.tseg1Max + TWO_32
  {
  }

  /** A rounding is within the limits, with its true sample point, unless it overshoots; then the sample point shown
      is past the end of the bit. */
  lemma RoundingOf(btc: Limits, nominal: u32, tseg: u32, i: int)
    requires WellFormed(btc) && 2 <= tseg <= btc.tseg1Max + btc.tseg2Max && 0 <= i <= 1
    ensures var a, t := TryRounding(btc, nominal, tseg, i), tseg + SYNC_SEG;
      if Overshoots(btc, nominal, tseg, i) then
        && t <= btc.tseg2Max && a.tseg1 == btc.tseg1Max && a.tseg2 == tseg - btc.tseg1Max + TWO_32
        && a.samplePoint == 1000 * (SYNC_SEG + btc.tseg1Max) / t >= LeastOvershoot(btc) >= 2000
      else InLimits(btc, a, tseg) && a.samplePoint == 1000 * (t - a.tseg2) / t <= 1000
  {
    var w, t: int := WantedTicks(nominal, tseg, i), tseg + SYNC_SEG;
    if Overshoots(btc, nominal, tseg, i) {
      SplitPast(btc, tseg, w);
      NegativeSamplePoint(tseg, btc.tseg1Max);
      DivAntitone(1000 * (SYNC_SEG + btc.tseg1Max), t, btc.tseg2Max);
      DivIs(1000 * (SYNC_SEG + btc.tseg1Max), btc.tseg2Max, 2000);
    } else {
      SplitNormally(btc, tseg, w);
      var tseg2 := Split(btc, tseg, w).1;
      SamplePointExact(tseg, tseg2);
      DivIs(1000 * (t - tseg2), t, 1001);
    }
  }

  // ------------------------------------------------------------------
  // When a usable rounding exists.

  /** The least nominal sample point for which every bit time can be split. */
  function LeastNominal(btc: Limits): int
  {
    var total: int := SYNC_SEG + btc.tseg1Max + btc.tseg2Max;
    if total == 0 then 0 else 1000 * (SYNC_SEG + btc.tseg1Max) / total
  }

  lemma DriverNominals()
    ensures LeastNominal(NOMINAL_LIMITS) == 667 && LeastNominal(DATA_LIMITS) == 673
    ensures LeastOvershoot(NOMINAL_LIMITS) == 2007 && LeastOvershoot(DATA_LIMITS) == 2062
  {
  }

  /** So few ticks that a sample point past the end still rounds to the end. */
  predicate Short(nominal: int, t: int) {
    (nominal - 1000) * t < 1000
  }

  /** Feasibility without the driver's arithmetic: `t` ticks a bit. */
  predicate Splittable(btc: Limits, nominal: int, t: int)
    requires t > 0
  {
    if nominal <= 999 then
      // `s` of them before the sample point
      var s := nominal * t / 1000;
      if t - s > btc.tseg2Max then 1000 * (t - btc.tseg2Max) / t <= nominal
      else if s == 0 then 1000 / t <= nominal
      else true
    else t > btc.tseg2Max || Short(nominal, t) || 1000 * (SYNC_SEG + btc.tseg1Max) / t <= nominal
  }

  lemma TicksBeforeSample(nominal: int, t: int, s: int)
    requires 0 <= nominal <= 999 && 0 < t <= 1000 && s == nominal * t / 1000
    ensures 0 <= s < t && 1000 * s <= nominal * t < 1000 * (s + 1)
    ensures 0 <= nominal * t < TWO_32
  {
    MulLe(t, nominal, 999);
    MulLe(t, 0, nominal);
  }

  lemma WantedTicksExact(nominal: u32, tseg: u32, i: int, s: int)
    requires tseg < 1000 && nominal <= 999 && 0 <= i <= 1
    requires s == nominal * (tseg + SYNC_SEG) / 1000
    ensures WantedTicks(nominal, tseg, i) == tseg + SYNC_SEG - s - i
  {
    TicksBeforeSample(nominal, tseg + SYNC_SEG, s);
    NoWrap(nominal * (tseg + SYNC_SEG));
    NoWrap(tseg + SYNC_SEG - s - i);
  }

  lemma NoWrap(x: int)
    requires 0 <= x < TWO_32
    ensures ToU32(x) == x
  {
  }

  lemma SamplePointExact(tseg: u32, tseg2: u32)
    requires tseg2 <= tseg + SYNC_SEG <= 1000
    ensures SamplePointOf(tseg, tseg2) == 1000 * (tseg + SYNC_SEG - tseg2) / (tseg + SYNC_SEG)
  {
    NoWrap(tseg + SYNC_SEG - tseg2);
    NoWrap(1000 * (tseg + SYNC_SEG - tseg2));
  }

  lemma SplitAtTicks(btc: Limits, tseg: u32, w: int)
    requires WellFormed(btc)
    requires 2 <= tseg <= btc.tseg1Max + btc.tseg2Max && 0 <= w <= tseg + SYNC_SEG
    requires w <= tseg || w > btc.tseg2Max
    ensures var (tseg1, tseg2) := Split(btc, tseg, w);
      && tseg1 <= btc.tseg1Max && 1 <= tseg2 <= btc.tseg2Max && tseg1 + tseg2 == tseg
      && (w >= btc.tseg2Max ==> tseg2 == btc.tseg2Max)
      && (w < btc.tseg2Max ==> tseg2 >= w)
      && (tseg1 == 0 ==> w >= tseg)
      && (w == tseg <= btc.tseg2Max ==> tseg1 == 0)
  {
    var clamped: int := Clamp(w, 1, btc.tseg2Max);
    assert 1 <= clamped <= tseg;
    NoWrap(tseg - clamped);
    if tseg - clamped > btc.tseg1Max {
      NoWrap(tseg - btc.tseg1Max);
    }
  }

  /** All ticks after the sample point would make segment 1 negative: the wrapped sample point is too late. */
  lemma NegativeSegment(btc: Limits, nominal: u32, tseg: u32)
    requires WellFormed(btc) && nominal <= 999
    requires 2 <= tseg && tseg + SYNC_SEG <= btc.tseg2Max
    requires nominal * (tseg + SYNC_SEG) / 1000 == 0
    ensures !NotLate(btc, nominal, tseg, 0)
  {
    WantedTicksExact(nominal, tseg, 0, 0);
    NegativeSplit(btc, tseg);
    NegativeSamplePoint(tseg, btc.tseg1Max);
  }

  lemma NegativeSplit(btc: Limits, tseg: u32)
    requires WellFormed(btc) && 2 <= tseg && tseg + SYNC_SEG <= btc.tseg2Max
    ensures Split(btc, tseg, tseg + SYNC_SEG) == (btc.tseg1Max, ToU32(tseg - btc.tseg1Max))
  {
  }

  lemma NegativeSamplePoint(tseg: u32, tseg1: u32)
    requires tseg < tseg1 <= 1000
    ensures SamplePointOf(tseg, ToU32(tseg - tseg1)) == 1000 * (SYNC_SEG + tseg1) / (tseg + SYNC_SEG) >= 1000
  {
    var wrapped: int := tseg - tseg1 + TWO_32;
    assert ToU32(tseg - tseg1) == wrapped;
    assert tseg + SYNC_SEG - wrapped == SYNC_SEG + tseg1 - TWO_32;
    assert ToU32(tseg + SYNC_SEG - wrapped) == SYNC_SEG + tseg1;
    assert ToU32(1000 * (SYNC_SEG + tseg1)) == 1000 * (SYNC_SEG + tseg1);
    DivIs(1000 * (SYNC_SEG + tseg1), tseg + SYNC_SEG, 1000);
  }

  /** Even with wrap-around, the two segments add up to the bit time. */
  lemma SegmentsAddUp(btc: Limits, nominal: u32, tseg: u32)
    requires tseg < UINT_MAX && Feasible(btc, nominal, tseg)
    ensures ToU32(BestRounding(btc, nominal, tseg).tseg1 + BestRounding(btc, nominal, tseg).tseg2) == tseg
  {
    forall w: u32
      ensures ToU32(Split(btc, tseg, w).0 + Split(btc, tseg, w).1) == tseg
    {
      SplitAddsUp(btc, tseg, w);
    }
  }

  lemma SplitAddsUp(btc: Limits, tseg: u32, w: u32)
    ensures ToU32(Split(btc, tseg, w).0 + Split(btc, tseg, w).1) == tseg
  {
    var clamped: int := Clamp(w, btc.tseg2Min, btc.tseg2Max);
    var t: int, m: int := tseg, btc.tseg1Max;
    assert ToU32(t - clamped) == if t >= clamped then t - clamped else t - clamped + TWO_32;
    assert ToU32(t - m) == if t >= m then t - m else t - m + TWO_32;
  }

  /** A rounding that starts from a possible split ends in one. */
  lemma RoundingSplits(btc: Limits, nominal: u32, tseg: u32, i: int, s: int)
    requires WellFormed(btc) && nominal <= 999 && 0 <= i <= 1
    requires 2 <= tseg <= btc.tseg1Max + btc.tseg2Max
    requires s == nominal * (tseg + SYNC_SEG) / 1000
    requires i == 0 && s == 0 ==> tseg + SYNC_SEG > btc.tseg2Max
    ensures var a := TryRounding(btc, nominal, tseg, i);
      && a.tseg1 <= btc.tseg1Max && 1 <= a.tseg2 <= btc.tseg2Max && a.tseg1 + a.tseg2 == tseg
      && a.samplePoint == 1000 * (tseg + SYNC_SEG - a.tseg2) / (tseg + SYNC_SEG)
      && (a.tseg2 < tseg + SYNC_SEG - s - i ==> a.tseg2 == btc.tseg2Max)
      && (tseg + SYNC_SEG - s - i >= btc.tseg2Max ==> a.tseg2 == btc.tseg2Max)
      && (a.tseg1 == 0 ==> s + i <= 1)
      && (s == 0 && i == 1 && tseg <= btc.tseg2Max ==> a.tseg2 == tseg)
  {
    TicksBeforeSample(nominal, tseg + SYNC_SEG, s);
    WantedTicksExact(nominal, tseg, i, s);
    SplitAtTicks(btc, tseg, tseg + SYNC_SEG - s - i);
    SamplePointExact(tseg, TryRounding(btc, nominal, tseg, i).tseg2);
  }

  lemma LowFeasibleIff(btc: Limits, nominal: u32, tseg: u32)
    requires WellFormed(btc) && nominal <= 999
    requires 2 <= tseg <= btc.tseg1Max + btc.tseg2Max
    ensures Feasible(btc, nominal, tseg) <==> Splittable(btc, nominal, tseg + SYNC_SEG)
  {
    var t: int := tseg + SYNC_SEG;
    var s := nominal * t / 1000;
    TicksBeforeSample(nominal, t, s);
    RoundingSplits(btc, nominal, tseg, 1, s);
    if s == 0 && t <= btc.tseg2Max {
      NegativeSegment(btc, nominal, tseg);
    } else {
      RoundingSplits(btc, nominal, tseg, 0, s);
      var a := TryRounding(btc, nominal, tseg, 0);
      if t - s <= btc.tseg2Max {
        MulLe(1000, t - a.tseg2, s);
        DivLe(1000 * (t - a.tseg2), t, nominal, 1);
      }
    }
  }

  lemma HighTicks(nominal: int, t: int, x: int)
    requires 1000 <= nominal && 3 <= t && x == nominal * t
    ensures x >= 0 && x / 1000 >= t && (x / 1000 == t <==> Short(nominal, t))
  {
    MulLe(t, 1000, nominal);
    assert x == (nominal - 1000) * t + 1000 * t;
  }

  lemma WantedWraps(t: int, s: int, i: int)
    requires 3 <= t <= s < 4294968 && t <= 1000 && 0 <= i <= 1
    ensures ToU32(t - s - i) == if t - s - i == 0 then 0 else t - s - i + TWO_32
    ensures t - s - i != 0 ==> ToU32(t - s - i) > 1000
  {
  }

  lemma HighWanted(btc: Limits, nominal: u32, tseg: u32, i: int)
    requires WellFormed(btc) && 2 <= tseg <= btc.tseg1Max + btc.tseg2Max && 0 <= i <= 1
    requires 1000 <= nominal && nominal * (tseg + SYNC_SEG) < TWO_32
    ensures Clamp(WantedTicks(nominal, tseg, i), btc.tseg2Min, btc.tseg2Max)
            == if i == 0 && Short(nominal, tseg + SYNC_SEG) then 1 else btc.tseg2Max
  {
    var t: int := tseg + SYNC_SEG;
    var x := nominal * t;
    var s := x / 1000;
    HighTicks(nominal, t, x);
    NoWrap(x);
    assert WantedTicks(nominal, tseg, i) == ToU32(t - s - i);
    WantedWraps(t, s, i);
  }

  /** From 1000 per mille on, and without wrap-around, a rounding overshoots exactly the bit times that segment 2 can
      fill, but for the first rounding of short ones. */
  lemma HighOvershoots(btc: Limits, nominal: u32, tseg: u32, i: int)
    requires WellFormed(btc) && 2 <= tseg <= btc.tseg1Max + btc.tseg2Max && 0 <= i <= 1
    requires 1000 <= nominal && nominal * (tseg + SYNC_SEG) < TWO_32
    ensures Overshoots(btc, nominal, tseg, i)
            <==> tseg + SYNC_SEG <= btc.tseg2Max && (i == 1 || !Short(nominal, tseg + SYNC_SEG))
  {
    HighWanted(btc, nominal, tseg, i);
  }

  /** From 1000 per mille on segment 2 is as short as can be for a short bit time, and as long otherwise. */
  lemma HighRounding(btc: Limits, nominal: u32, tseg: u32, i: int)
    requires WellFormed(btc) && 2 <= tseg <= btc.tseg1Max + btc.tseg2Max && 0 <= i <= 1
    requires 1000 <= nominal && nominal * (tseg + SYNC_SEG) < TWO_32 && !Overshoots(btc, nominal, tseg, i)
    ensures TryRounding(btc, nominal, tseg, i).tseg2
            == if i == 1 || !Short(nominal, tseg + SYNC_SEG) then btc.tseg2Max
               else if tseg - 1 > btc.tseg1Max then tseg - btc.tseg1Max else 1
  {
    SplitNormally(btc, tseg, WantedTicks(nominal, tseg, i));
    HighWanted(btc, nominal, tseg, i);
  }

  /** So large a nominal sample point that even a wrapped one is not late. */
  lemma VeryHighIsFeasible(btc: Limits, nominal: u32, tseg: u32)
    requires WellFormed(btc) && 2 <= tseg <= btc.tseg1Max + btc.tseg2Max
    requires 1000 <= nominal && 1000 * (SYNC_SEG + btc.tseg1Max) / (tseg + SYNC_SEG) <= nominal
    ensures Feasible(btc, nominal, tseg)
  {
    RoundingOf(btc, nominal, tseg, 0);
  }

  lemma NoWrapBelow(btc: Limits, nominal: int, t: int)
    requires WellFormed(btc) && 0 < t && 0 <= nominal < 1000 * (SYNC_SEG + btc.tseg1Max) / t
    ensures 0 <= nominal * t < TWO_32
  {
    DivIs(1000 * (SYNC_SEG + btc.tseg1Max), t, nominal + 1);
    MulLe(t, 0, nominal);
  }

  lemma HighNotLateIff(btc: Limits, nominal: u32, tseg: u32, i: int)
    requires WellFormed(btc) && 2 <= tseg <= btc.tseg1Max + btc.tseg2Max && 0 <= i <= 1
    requires 1000 <= nominal < 1000 * (SYNC_SEG + btc.tseg1Max) / (tseg + SYNC_SEG)
    requires nominal * (tseg + SYNC_SEG) < TWO_32
    ensures NotLate(btc, nominal, tseg, i)
            <==> tseg + SYNC_SEG > btc.tseg2Max || (i == 0 && Short(nominal, tseg + SYNC_SEG))
  {
    HighOvershoots(btc, nominal, tseg, i);
    RoundingOf(btc, nominal, tseg, i);
  }

  lemma HighFeasibleIff(btc: Limits, nominal: u32, tseg: u32)
    requires WellFormed(btc) && 1000 <= nominal
    requires 2 <= tseg <= btc.tseg1Max + btc.tseg2Max
    ensures Feasible(btc, nominal, tseg) <==> Splittable(btc, nominal, tseg + SYNC_SEG)
  {
    var t: int := tseg + SYNC_SEG;
    if 1000 * (SYNC_SEG + btc.tseg1Max) / t <= nominal {
      VeryHighIsFeasible(btc, nominal, tseg);
    } else {
      NoWrapBelow(btc, nominal, t);
      HighNotLateIff(btc, nominal, tseg, 0);
      HighNotLateIff(btc, nominal, tseg, 1);
    }
  }

  /** The driver finds a usable rounding exactly for the splittable bit times, whatever the nominal sample point. */
  lemma FeasibleIffSplittable(btc: Limits, nominal: u32, tseg: u32)
    requires WellFormed(btc) && 2 <= tseg <= btc.tseg1Max + btc.tseg2Max
    ensures Feasible(btc, nominal, tseg) <==> Splittable(btc, nominal, tseg + SYNC_SEG)
  {
    if nominal <= 999 {
      LowFeasibleIff(btc, nominal, tseg);
    } else {
      HighFeasibleIff(btc, nominal, tseg);
    }
  }

  lemma LowRoundingSplits(btc: Limits, nominal: u32, tseg: u32)
    requires WellFormed(btc) && nominal <= 999
    requires 2 <= tseg <= btc.tseg1Max + btc.tseg2Max && Feasible(btc, nominal, tseg)
    ensures var a := BestRounding(btc, nominal, tseg);
      InLimits(btc, a, tseg) && (nominal >= 667 ==> a.tseg1 > 0)
  {
    var t: int := tseg + SYNC_SEG;
    var s := nominal * t / 1000;
    TicksBeforeSample(nominal, t, s);
    RoundingSplits(btc, nominal, tseg, 1, s);
    if s == 0 && t <= btc.tseg2Max {
      NegativeSegment(btc, nominal, tseg);
    } else {
      RoundingSplits(btc, nominal, tseg, 0, s);
    }
    if nominal >= 667 {
      MulLe(t, 667, nominal);
    }
  }

  lemma UsableRounding(btc: Limits, nominal: u32, tseg: u32, i: int)
    requires WellFormed(btc) && 2 <= tseg <= btc.tseg1Max + btc.tseg2Max && 0 <= i <= 1
    requires NotLate(btc, nominal, tseg, i)
    ensures var a := TryRounding(btc, nominal, tseg, i);
      && (InLimits(btc, a, tseg) <==> !Overshoots(btc, nominal, tseg, i))
      && (InLimits(btc, a, tseg) ==> a.samplePoint == 1000 * (tseg + SYNC_SEG - a.tseg2) / (tseg + SYNC_SEG))
      && (nominal < LeastOvershoot(btc) ==> InLimits(btc, a, tseg))
  {
    RoundingOf(btc, nominal, tseg, i);
  }

  /** The rounding the driver picks is a split of the bit time within the limits if and only if it does not overshoot;
      below 1000 per mille it never does. */
  lemma BestRoundingSplits(btc: Limits, nominal: u32, tseg: u32)
    requires WellFormed(btc) && 2 <= tseg <= btc.tseg1Max + btc.tseg2Max && Feasible(btc, nominal, tseg)
    ensures var a := BestRounding(btc, nominal, tseg);
      && a.samplePoint <= nominal
      && (InLimits(btc, a, tseg) <==> !Overshoots(btc, nominal, tseg, BestIndex(btc, nominal, tseg)))
      && (InLimits(btc, a, tseg) ==> a.samplePoint == 1000 * (tseg + SYNC_SEG - a.tseg2) / (tseg + SYNC_SEG))
      && (nominal < LeastOvershoot(btc) ==> InLimits(btc, a, tseg))
      && (667 <= nominal <= 999 ==> a.tseg1 > 0)
  {
    var i := BestIndex(btc, nominal, tseg);
    UsableRounding(btc, nominal, tseg, i);
    if nominal <= 999 {
      LowRoundingSplits(btc, nominal, tseg);
    }
  }

  // ------------------------------------------------------------------
  // The nearest sample point.

  /** Of the `t` ticks of a bit, `f` may lie before the sample point, which is then no later than wanted. */
  predicate Front(btc: Limits, nominal: int, t: int, f: int)
    requires t > 0
  {
    && 1 <= f <= 1 + btc.tseg1Max && 1 <= t - f <= btc.tseg2Max
    && 1000 * f / t <= nominal
  }

  /** The driver's two roundings start from the last two fronts that can be early enough. */
  lemma FrontBound(btc: Limits, nominal: int, t: int, f: int, s: int)
    requires 0 <= nominal <= 999 && 0 < t <= 1000 && s == nominal * t / 1000
    ensures 1000 * f / t <= nominal ==> f <= s + 1
    ensures f <= s ==> 1000 * f / t <= nominal
  {
    DivIs(1000 * f, t, nominal + 1);
    TicksBeforeSample(nominal, t, s);
    assert (nominal + 1) * t == nominal * t + t;
    if f <= s {
      DivIs(1000 * f, t, nominal + 1);
    }
  }

  lemma LongerFront(f: int, g: int, t: int)
    requires 0 < t <= 1000
    ensures f <= g ==> 1000 * f / t <= 1000 * g / t
    ensures f < g ==> 1000 * f / t < 1000 * g / t
  {
    DivIs(1000 * g, t, 1000 * f / t);
    DivIs(1000 * f, t, 1000 * f / t);
    DivIs(1000 * g, t, 1000 * f / t + 1);
    assert (1000 * f / t + 1) * t == 1000 * f / t * t + t;
  }

  /** No possible front is nearer to the nominal sample point than the driver's, which is one; and the driver finds
      none only if there is none. */
  ghost predicate Nearest(btc: Limits, nominal: u32, tseg: u32)
    requires tseg < UINT_MAX
  {
    var t: int := tseg + SYNC_SEG;
    && (forall f | Front(btc, nominal, t, f) :: SampleError(btc, nominal, tseg) <= nominal - 1000 * f / t)
    && (Feasible(btc, nominal, tseg) ==>
          && Front(btc, nominal, t, t - BestRounding(btc, nominal, tseg).tseg2)
          && InLimits(btc, BestRounding(btc, nominal, tseg), tseg)
          && BestRounding(btc, nominal, tseg).samplePoint == 1000 * (t - BestRounding(btc, nominal, tseg).tseg2) / t
          && SampleError(btc, nominal, tseg) == nominal - BestRounding(btc, nominal, tseg).samplePoint)
    && (SampleError(btc, nominal, tseg) == UINT_MAX <==> forall f :: !Front(btc, nominal, t, f))
  }

  /** Where a rounding that starts from `s + i` ticks ends: as near to them as the limits allow. */
  lemma RoundingFront(btc: Limits, nominal: u32, tseg: u32, i: int, s: int)
    requires WellFormed(btc) && nominal <= 999 && 0 <= i <= 1
    requires 2 <= tseg <= btc.tseg1Max + btc.tseg2Max
    requires s == nominal * (tseg + SYNC_SEG) / 1000
    requires i == 0 && s == 0 ==> tseg + SYNC_SEG > btc.tseg2Max
    ensures var a, t := TryRounding(btc, nominal, tseg, i), tseg + SYNC_SEG;
      && InLimits(btc, a, tseg) && a.samplePoint == 1000 * (t - a.tseg2) / t
      && (t - a.tseg2 <= s + i || a.tseg2 == btc.tseg2Max)
      && (t - a.tseg2 >= s + i || a.tseg2 == 1 || a.tseg1 == btc.tseg1Max)
  {
    RoundingSplits(btc, nominal, tseg, i, s);
    TicksBeforeSample(nominal, tseg + SYNC_SEG, s);
    WantedTicksExact(nominal, tseg, i, s);
    SplitNormally(btc, tseg, tseg + SYNC_SEG - s - i);
  }

  /** A usable rounding is the driver's choice, or the driver's is nearer. */
  lemma ChoiceIsNearer(btc: Limits, nominal: u32, tseg: u32, i: int)
    requires tseg < UINT_MAX && nominal < 0x8000_0000 && 0 <= i <= 1 && NotLate(btc, nominal, tseg, i)
    ensures Feasible(btc, nominal, tseg)
    ensures var a := TryRounding(btc, nominal, tseg, i);
      SampleError(btc, nominal, tseg) <= a.error == nominal - a.samplePoint
  {
  }

  /** Some rounding reaches every possible front. */
  lemma FrontIsReached(btc: Limits, nominal: u32, tseg: u32, f: int)
    requires WellFormed(btc) && nominal <= 999 && 2 <= tseg <= btc.tseg1Max + btc.tseg2Max
    requires Front(btc, nominal, tseg + SYNC_SEG, f)
    ensures Feasible(btc, nominal, tseg)
    ensures SampleError(btc, nominal, tseg) <= nominal - 1000 * f / (tseg + SYNC_SEG)
  {
    var t: int := tseg + SYNC_SEG;
    var s := nominal * t / 1000;
    FrontBound(btc, nominal, t, f, s);
    var i := if f <= s then 0 else 1;
    RoundingFront(btc, nominal, tseg, i, s);
    var g: int := t - TryRounding(btc, nominal, tseg, i).tseg2;
    FrontBound(btc, nominal, t, g, s);
    LongerFront(f, g, t);
    ChoiceIsNearer(btc, nominal, tseg, i);
  }

  lemma LowChoiceIsFront(btc: Limits, nominal: u32, tseg: u32)
    requires WellFormed(btc) && nominal <= 999 && 2 <= tseg <= btc.tseg1Max + btc.tseg2Max
    requires Feasible(btc, nominal, tseg)
    ensures var a, t := BestRounding(btc, nominal, tseg), tseg + SYNC_SEG;
      && InLimits(btc, a, tseg) && Front(btc, nominal, t, t - a.tseg2)
      && a.samplePoint == 1000 * (t - a.tseg2) / t && SampleError(btc, nominal, tseg) == nominal - a.samplePoint
  {
    BestRoundingSplits(btc, nominal, tseg);
    BelowLeastOvershoot(btc);
    ChoiceIsNearer(btc, nominal, tseg, BestIndex(btc, nominal, tseg));
  }

  lemma LowIsNearest(btc: Limits, nominal: u32, tseg: u32)
    requires WellFormed(btc) && nominal <= 999 && 2 <= tseg <= btc.tseg1Max + btc.tseg2Max
    ensures Nearest(btc, nominal, tseg)
  {
    var t: int := tseg + SYNC_SEG;
    forall f | Front(btc, nominal, t, f)
      ensures Feasible(btc, nominal, tseg) && SampleError(btc, nominal, tseg) <= nominal - 1000 * f / t
    {
      FrontIsReached(btc, nominal, tseg, f);
    }
    if Feasible(btc, nominal, tseg) {
      LowChoiceIsFront(btc, nominal, tseg);
    }
  }

  lemma BelowLeastOvershoot(btc: Limits)
    requires WellFormed(btc)
    ensures LeastOvershoot(btc) >= 2000
  {
    DivIs(1000 * (SYNC_SEG + btc.tseg1Max), btc.tseg2Max, 2000);
  }

  /** Past the end of the bit every front is early enough; the longest one is nearest. */
  function LongestFront(btc: Limits, t: int): int { if t - 1 > 1 + btc.tseg1Max then 1 + btc.tseg1Max else t - 1 }

  lemma HighFronts(btc: Limits, nominal: int, t: int)
    requires WellFormed(btc) && 1000 <= nominal && 3 <= t <= SYNC_SEG + btc.tseg1Max + btc.tseg2Max
    ensures Front(btc, nominal, t, LongestFront(btc, t))
    ensures forall f | Front(btc, nominal, t, f) :: f <= LongestFront(btc, t)
  {
    DivIs(1000 * LongestFront(btc, t), t, 1000);
  }

  /** Whether the first rounding, for so late a sample point, is at the longest front. */
  predicate FirstIsLongest(btc: Limits, nominal: int, tseg: int) {
    Short(nominal, tseg + SYNC_SEG) || btc.tseg2Max == 1 || tseg == btc.tseg1Max + btc.tseg2Max
  }

  lemma FirstRoundingIsLongest(btc: Limits, nominal: u32, tseg: u32)
    requires WellFormed(btc) && 2 <= tseg <= btc.tseg1Max + btc.tseg2Max
    requires 1000 <= nominal && nominal * (tseg + SYNC_SEG) < TWO_32 && FirstIsLongest(btc, nominal, tseg)
    ensures !Overshoots(btc, nominal, tseg, 0) && NotLate(btc, nominal, tseg, 0)
    ensures tseg + SYNC_SEG - TryRounding(btc, nominal, tseg, 0).tseg2 == LongestFront(btc, tseg + SYNC_SEG)
  {
    HighOvershoots(btc, nominal, tseg, 0);
    HighRounding(btc, nominal, tseg, 0);
    RoundingOf(btc, nominal, tseg, 0);
  }

  lemma SecondIsNoNearer(btc: Limits, nominal: u32, tseg: u32)
    requires WellFormed(btc) && 2 <= tseg <= btc.tseg1Max + btc.tseg2Max
    requires 1000 <= nominal && nominal * (tseg + SYNC_SEG) < TWO_32 && FirstIsLongest(btc, nominal, tseg)
    requires NotLate(btc, nominal, tseg, 1)
    ensures TryRounding(btc, nominal, tseg, 1).samplePoint
            <= 1000 * LongestFront(btc, tseg + SYNC_SEG) / (tseg + SYNC_SEG)
  {
    var t: int := tseg + SYNC_SEG;
    HighOvershoots(btc, nominal, tseg, 1);
    RoundingOf(btc, nominal, tseg, 1);
    if Overshoots(btc, nominal, tseg, 1) {
      MulLe(t, 1000, nominal - 1000);
    } else {
      LongerFront(t - TryRounding(btc, nominal, tseg, 1).tseg2, LongestFront(btc, t), t);
    }
  }

  lemma NoWrapIsSmall(nominal: int, t: int)
    requires 0 <= nominal && 3 <= t && nominal * t < TWO_32
    ensures nominal < 0x8000_0000
  {
    MulLe(nominal, 3, t);
  }

  lemma FirstIsChosen(btc: Limits, nominal: u32, tseg: u32)
    requires WellFormed(btc) && 2 <= tseg <= btc.tseg1Max + btc.tseg2Max
    requires 1000 <= nominal && nominal * (tseg + SYNC_SEG) < TWO_32 && FirstIsLongest(btc, nominal, tseg)
    ensures Feasible(btc, nominal, tseg) && BestIndex(btc, nominal, tseg) == 0
    ensures SampleError(btc, nominal, tseg)
            == nominal - 1000 * LongestFront(btc, tseg + SYNC_SEG) / (tseg + SYNC_SEG)
  {
    NoWrapIsSmall(nominal, tseg + SYNC_SEG);
    FirstRoundingIsLongest(btc, nominal, tseg);
    RoundingOf(btc, nominal, tseg, 0);
    ChoiceIsNearer(btc, nominal, tseg, 0);
    if NotLate(btc, nominal, tseg, 1) {
      SecondIsNoNearer(btc, nominal, tseg);
      ChoiceIsNearer(btc, nominal, tseg, 1);
    }
  }

  lemma LongestIsNearest(btc: Limits, nominal: u32, tseg: u32)
    requires WellFormed(btc) && 2 <= tseg <= btc.tseg1Max + btc.tseg2Max
    requires 1000 <= nominal && nominal * (tseg + SYNC_SEG) < TWO_32 && FirstIsLongest(btc, nominal, tseg)
    ensures Nearest(btc, nominal, tseg)
  {
    var t: int := tseg + SYNC_SEG;
    HighFronts(btc, nominal, t);
    FirstIsChosen(btc, nominal, tseg);
    FirstRoundingIsLongest(btc, nominal, tseg);
    RoundingOf(btc, nominal, tseg, 0);
    forall f | Front(btc, nominal, t, f)
      ensures SampleError(btc, nominal, tseg) <= nominal - 1000 * f / t
    {
      LongerFront(f, LongestFront(btc, t), t);
    }
  }

  /** Otherwise the driver finds nothing, or wraps, or takes the longest segment 2 where a shorter one is nearer. */
  lemma LongestIsMissed(btc: Limits, nominal: u32, tseg: u32)
    requires WellFormed(btc) && 2 <= tseg <= btc.tseg1Max + btc.tseg2Max
    requires 1000 <= nominal && nominal * (tseg + SYNC_SEG) < TWO_32 && !FirstIsLongest(btc, nominal, tseg)
    ensures !Nearest(btc, nominal, tseg)
  {
    var t: int := tseg + SYNC_SEG;
    HighFronts(btc, nominal, t);
    if Feasible(btc, nominal, tseg) {
      var i := BestIndex(btc, nominal, tseg);
      HighOvershoots(btc, nominal, tseg, i);
      RoundingOf(btc, nominal, tseg, i);
      if !Overshoots(btc, nominal, tseg, i) {
        HighRounding(btc, nominal, tseg, i);
        LongerFront(t - btc.tseg2Max, LongestFront(btc, t), t);
      }
    }
  }

  /** Main result on the sample point: as long as no product wraps around, the driver takes the nearest one that is
      possible and not late, if and only if the nominal one is below 1000 per mille, or the longest front happens to
      be its first rounding. */
  lemma NearestIff(btc: Limits, nominal: u32, tseg: u32)
    requires WellFormed(btc) && 2 <= tseg <= btc.tseg1Max + btc.tseg2Max && nominal * (tseg + SYNC_SEG) < TWO_32
    ensures Nearest(btc, nominal, tseg) <==> nominal <= 999 || FirstIsLongest(btc, nominal, tseg)
  {
    if nominal <= 999 {
      LowIsNearest(btc, nominal, tseg);
    } else if FirstIsLongest(btc, nominal, tseg) {
      LongestIsNearest(btc, nominal, tseg);
    } else {
      LongestIsMissed(btc, nominal, tseg);
    }
  }

  /** A product that leaves more ticks than the bit time has, wrapped or not, makes both roundings overshoot. */
  lemma BothOvershoot(btc: Limits, nominal: u32, tseg: u32, i: int)
    requires WellFormed(btc) && 2 <= tseg < btc.tseg2Max && 0 <= i <= 1
    requires ToU32(nominal * (tseg + SYNC_SEG)) >= 1000 * (tseg + SYNC_SEG + 1)
    ensures Overshoots(btc, nominal, tseg, i)
  {
    var t: int := tseg + SYNC_SEG;
    var s := ToU32(nominal * t) / 1000;
    assert WantedTicks(nominal, tseg, i) == ToU32(t - s - i);
    WantedWraps(t, s, i);
  }

  /** Where products wrap around, three ticks or four do so. */
  lemma ThreeOrFour(nominal: int)
    requires 0x1_0000_0000 / 128 <= nominal < 0x1_0000_0000
    ensures ToU32(nominal * 3) >= 4000 || ToU32(nominal * 4) >= 5000
  {
  }

  /** So large a nominal sample point that the product for the longest segment 2 wraps around: three ticks, or four,
      can be split, and are split out of the limits. */
  lemma WrappedIsTaken(btc: Limits, nominal: u32) returns (tseg: u32)
    requires WellFormed(btc) && 4 <= btc.tseg2Max && nominal * btc.tseg2Max >= TWO_32
    ensures 2 <= tseg <= 3 && Feasible(btc, nominal, tseg)
    ensures !InLimits(btc, BestRounding(btc, nominal, tseg), tseg)
  {
    MulLe(nominal, btc.tseg2Max, 128);
    ThreeOrFour(nominal);
    tseg := if ToU32(nominal * 3) >= 4000 then 2 else 3;
    BothOvershoot(btc, nominal, tseg, 0);
    BothOvershoot(btc, nominal, tseg, 1);
    RoundingOf(btc, nominal, tseg, 0);
    RoundingOf(btc, nominal, tseg, 1);
    DivAntitone(1000 * (SYNC_SEG + btc.tseg1Max), 3, tseg + SYNC_SEG);
  }

  /** Every usable rounding is within the limits exactly when the nominal sample point is below `LeastOvershoot`.
      (With at most three ticks in segment 2 there may be too few bit times for that once products wrap around.) */
  lemma InLimitsIffBelowOvershoot(btc: Limits, nominal: u32)
    requires WellFormed(btc) && (4 <= btc.tseg2Max || (btc.tseg2Max == 3 && nominal * btc.tseg2Max < TWO_32))
    ensures (forall tseg: u32 | 2 <= tseg <= btc.tseg1Max + btc.tseg2Max && Feasible(btc, nominal, tseg) ::
              InLimits(btc, BestRounding(btc, nominal, tseg), tseg))
            <==> nominal < LeastOvershoot(btc)
  {
    if nominal < LeastOvershoot(btc) {
      forall tseg: u32 | 2 <= tseg <= btc.tseg1Max + btc.tseg2Max && Feasible(btc, nominal, tseg)
        ensures InLimits(btc, BestRounding(btc, nominal, tseg), tseg)
      {
        BestRoundingSplits(btc, nominal, tseg);
      }
    } else if nominal * btc.tseg2Max < TWO_32 {
      OvershootIsTaken(btc, nominal, btc.tseg2Max - 1);
    } else {
      var tseg := WrappedIsTaken(btc, nominal);
    }
  }

  /** From there on a bit time no longer than segment 2 can be is taken with its segment 1 wrapped. */
  lemma OvershootIsTaken(btc: Limits, nominal: u32, tseg: u32)
    requires WellFormed(btc) && 2 <= tseg < btc.tseg2Max && LeastOvershoot(btc) <= nominal
    requires nominal * (tseg + SYNC_SEG) < TWO_32
    ensures Feasible(btc, nominal, tseg) ==> !InLimits(btc, BestRounding(btc, nominal, tseg), tseg)
    ensures tseg + SYNC_SEG == btc.tseg2Max ==> Feasible(btc, nominal, tseg)
  {
    var t: int := tseg + SYNC_SEG;
    DivIs(1000 * (SYNC_SEG + btc.tseg1Max), btc.tseg2Max, 2000);
    MulLe(t, 1000, nominal - 1000);
    HighOvershoots(btc, nominal, tseg, 0);
    HighOvershoots(btc, nominal, tseg, 1);
    RoundingOf(btc, nominal, tseg, 0);
    RoundingOf(btc, nominal, tseg, 1);
  }

  /** A bit too long for segment 2 to be short enough leaves longer ones too long as well. */
  lemma LongBits(b: int, nominal: int, t2: int, t3: int)
    requires 0 <= nominal <= 999 && 0 < b && b < t2 < t3
    requires nominal * t2 < 1000 * (t2 - b)
    ensures nominal * t3 < 1000 * (t3 - b)
    ensures 1000 * (t2 - b) / t2 <= 1000 * (t3 - b) / t3
  {
    MulLe(1000 - nominal, t2, t3);
    MulLe(b, t2, t3);
    DivLe(1000 * (t2 - b), t2, 1000 * (t3 - b), t3);
  }

  /** A bit too short to have a tick before the sample point leaves shorter ones without one as well. */
  lemma ShortBits(nominal: int, t1: int, t2: int)
    requires 0 <= nominal && 0 < t1 < t2 && nominal * t2 < 1000
    ensures nominal * t1 < 1000
    ensures 1000 / t2 <= 1000 / t1
  {
    MulLe(nominal, t1, t2);
    DivAntitone(1000, t1, t2);
  }

  /** The splittable bit times form an interval: only the longest and the shortest can fail. */
  lemma SplittableIsInterval(btc: Limits, nominal: int, t1: int, t2: int, t3: int)
    requires WellFormed(btc) && 0 <= nominal <= 999 && 0 < t1 < t2 < t3 <= 1000
    requires Splittable(btc, nominal, t1) && Splittable(btc, nominal, t3)
    ensures Splittable(btc, nominal, t2)
  {
    var s1, s2, s3 := nominal * t1 / 1000, nominal * t2 / 1000, nominal * t3 / 1000;
    TicksBeforeSample(nominal, t1, s1);
    TicksBeforeSample(nominal, t2, s2);
    TicksBeforeSample(nominal, t3, s3);
    if t2 - s2 > btc.tseg2Max {
      LongBits(btc.tseg2Max, nominal, t2, t3);
    } else if s2 == 0 {
      ShortBits(nominal, t1, t2);
    }
  }

  lemma ShorterIsShort(nominal: int, t: int, u: int)
    requires 1000 <= nominal && 0 < t <= u && Short(nominal, u)
    ensures Short(nominal, t)
  {
    MulLe(nominal - 1000, t, u);
  }

  /** The nominal sample points whose splittable bit times form one stretch: below 1000 per mille, or so little above
      that all up to the longest segment 2 are short, or so far above that not even three ticks are. */
  predicate OneStretch(btc: Limits, nominal: int) {
    nominal <= 999 || Short(nominal, btc.tseg2Max) || !Short(nominal, 3)
  }

  lemma DriverStretches(nominal: u32)
    ensures OneStretch(NOMINAL_LIMITS, nominal) <==> !(1008 <= nominal <= 1333)
    ensures OneStretch(DATA_LIMITS, nominal) <==> !(1063 <= nominal <= 1333)
  {
  }

  lemma HighSplittableIsInterval(btc: Limits, nominal: int, t1: int, t2: int, t3: int)
    requires WellFormed(btc) && 1000 <= nominal && OneStretch(btc, nominal) && 3 <= t1 < t2 < t3
    requires Splittable(btc, nominal, t1) && Splittable(btc, nominal, t3)
    ensures Splittable(btc, nominal, t2)
  {
    if t2 <= btc.tseg2Max {
      if Short(nominal, btc.tseg2Max) {
        ShorterIsShort(nominal, t2, btc.tseg2Max);
      } else {
        if Short(nominal, t1) {
          ShorterIsShort(nominal, 3, t1);
        }
        DivAntitone(1000 * (SYNC_SEG + btc.tseg1Max), t1, t2);
      }
    }
  }

  lemma AnySplittableIsInterval(btc: Limits, nominal: int, t1: int, t2: int, t3: int)
    requires WellFormed(btc) && 0 <= nominal && OneStretch(btc, nominal) && 3 <= t1 < t2 < t3 <= 1000
    requires Splittable(btc, nominal, t1) && Splittable(btc, nominal, t3)
    ensures Splittable(btc, nominal, t2)
  {
    if nominal <= 999 {
      SplittableIsInterval(btc, nominal, t1, t2, t3);
    } else {
      HighSplittableIsInterval(btc, nominal, t1, t2, t3);
    }
  }

  lemma FeasibleIsInterval(btc: Limits, nominal: u32, a: u32, b: u32, c: u32)
    requires WellFormed(btc) && OneStretch(btc, nominal)
    requires 2 <= a <= b <= c <= btc.tseg1Max + btc.tseg2Max
    requires Feasible(btc, nominal, a) && Feasible(btc, nominal, c)
    ensures Feasible(btc, nominal, b)
  {
    if a < b < c {
      FeasibleIffSplittable(btc, nominal, a);
      FeasibleIffSplittable(btc, nominal, b);
      FeasibleIffSplittable(btc, nominal, c);
      AnySplittableIsInterval(btc, nominal, a + SYNC_SEG, b + SYNC_SEG, c + SYNC_SEG);
    }
  }

  /** Outside `OneStretch` three ticks and the longest bit can be split, and as many ticks as segment 2 has cannot. */
  lemma TwoStretches(btc: Limits, nominal: u32)
    requires WellFormed(btc) && !OneStretch(btc, nominal)
    ensures 4 <= btc.tseg2Max
    ensures Feasible(btc, nominal, 2) && Feasible(btc, nominal, btc.tseg1Max + btc.tseg2Max)
    ensures !Feasible(btc, nominal, btc.tseg2Max - 1)
  {
    if btc.tseg2Max <= 3 {
      ShorterIsShort(nominal, btc.tseg2Max, 3);
    }
    FeasibleIffSplittable(btc, nominal, 2);
    FeasibleIffSplittable(btc, nominal, btc.tseg1Max + btc.tseg2Max);
    LongestSecondSegment(btc, nominal);
  }

  lemma LongestSecondSegment(btc: Limits, nominal: u32)
    requires WellFormed(btc) && 1000 <= nominal < 2000 && 3 <= btc.tseg2Max && !Short(nominal, btc.tseg2Max)
    ensures !Feasible(btc, nominal, btc.tseg2Max - 1)
  {
    FeasibleIffSplittable(btc, nominal, btc.tseg2Max - 1);
    DivIs(1000 * (SYNC_SEG + btc.tseg1Max), btc.tseg2Max, 2000);
  }

  /** Main result on feasibility: the bit times that can be split form an interval exactly under `OneStretch`. */
  lemma IntervalIffOneStretch(btc: Limits, nominal: u32)
    requires WellFormed(btc)
    ensures (forall a: u32, b: u32, c: u32 |
              2 <= a <= b <= c <= btc.tseg1Max + btc.tseg2Max
              && Feasible(btc, nominal, a) && Feasible(btc, nominal, c) ::
              Feasible(btc, nominal, b))
            <==> OneStretch(btc, nominal)
  {
    if OneStretch(btc, nominal) {
      forall a: u32, b: u32, c: u32 |
        2 <= a <= b <= c <= btc.tseg1Max + btc.tseg2Max && Feasible(btc, nominal, a) && Feasible(btc, nominal, c)
        ensures Feasible(btc, nominal, b)
      {
        FeasibleIsInterval(btc, nominal, a, b, c);
      }
    } else {
      TwoStretches(btc, nominal);
    }
  }

  /** The shortest feasible bit time from `from` on, or the first one past the longest. */
  lemma ShortestFeasible(btc: Limits, nominal: u32, from: u32) returns (lo: int)
    requires WellFormed(btc) && 2 <= from <= btc.tseg1Max + btc.tseg2Max + 1
    ensures from <= lo <= btc.tseg1Max + btc.tseg2Max + 1
    ensures forall tseg: u32 | from <= tseg < lo :: !Feasible(btc, nominal, tseg)
    ensures lo <= btc.tseg1Max + btc.tseg2Max ==> Feasible(btc, nominal, lo)
    decreases btc.tseg1Max + btc.tseg2Max + 1 - from
  {
    if from > btc.tseg1Max + btc.tseg2Max || Feasible(btc, nominal, from) {
      lo := from;
    } else {
      lo := ShortestFeasible(btc, nominal, from + 1);
    }
  }

  lemma LongestFeasible(btc: Limits, nominal: u32, last: u32) returns (hi: int)
    requires WellFormed(btc) && 1 <= last <= btc.tseg1Max + btc.tseg2Max
    ensures 1 <= hi <= last
    ensures forall tseg: u32 | hi < tseg <= last :: !Feasible(btc, nominal, tseg)
    ensures 2 <= hi ==> Feasible(btc, nominal, hi)
    decreases last
  {
    if last < 2 || Feasible(btc, nominal, last) {
      hi := last;
    } else {
      hi := LongestFeasible(btc, nominal, last - 1);
    }
  }

  /** The feasible bit times are those between two bounds. */
  lemma FeasibleBounds(btc: Limits, nominal: u32) returns (lo: int, hi: int)
    requires WellFormed(btc) && OneStretch(btc, nominal)
    ensures forall tseg: u32 | 2 <= tseg <= btc.tseg1Max + btc.tseg2Max ::
              Feasible(btc, nominal, tseg) <==> lo <= tseg <= hi
  {
    lo := ShortestFeasible(btc, nominal, 2);
    hi := LongestFeasible(btc, nominal, btc.tseg1Max + btc.tseg2Max);
    forall tseg: u32 | 2 <= tseg <= btc.tseg1Max + btc.tseg2Max && lo <= tseg <= hi
      ensures Feasible(btc, nominal, tseg)
    {
      FeasibleIsInterval(btc, nominal, lo, tseg, hi);
    }
  }

  /** A late sample point can be met by every bit time. */
  lemma LateIsSplittable(btc: Limits, nominal: int, t: int)
    requires WellFormed(btc) && LeastNominal(btc) <= nominal <= 999
    requires 3 <= t <= SYNC_SEG + btc.tseg1Max + btc.tseg2Max
    ensures Splittable(btc, nominal, t)
  {
    LateHasTicks(btc, nominal, t);
    if t > btc.tseg2Max {
      LateMeetsLongest(btc, t);
    }
  }

  lemma LateHasTicks(btc: Limits, nominal: int, t: int)
    requires WellFormed(btc) && LeastNominal(btc) <= nominal <= 999 && 3 <= t <= 1000
    ensures 1 <= nominal * t / 1000 < t
  {
    var total: int := SYNC_SEG + btc.tseg1Max + btc.tseg2Max;
    DivIs(1000 * (total - btc.tseg2Max), total, 667);
    TicksBeforeSample(nominal, t, nominal * t / 1000);
    MulLe(t, 667, nominal);
  }

  lemma LateMeetsLongest(btc: Limits, t: int)
    requires WellFormed(btc) && btc.tseg2Max < t <= SYNC_SEG + btc.tseg1Max + btc.tseg2Max
    ensures 1000 * (t - btc.tseg2Max) / t <= LeastNominal(btc)
  {
    var total: int := SYNC_SEG + btc.tseg1Max + btc.tseg2Max;
    MulLe(btc.tseg2Max, t, total);
    DivLe(1000 * (t - btc.tseg2Max), t, 1000 * (total - btc.tseg2Max), total);
  }

  /** An early one cannot be met by the longest bit time. */
  lemma EarlyIsNotSplittable(btc: Limits, nominal: int)
    requires WellFormed(btc) && 0 <= nominal < LeastNominal(btc) && nominal <= 999
    ensures !Splittable(btc, nominal, SYNC_SEG + btc.tseg1Max + btc.tseg2Max)
  {
    var total: int := SYNC_SEG + btc.tseg1Max + btc.tseg2Max;
    TicksBeforeSample(nominal, total, nominal * total / 1000);
    DivIs(1000 * (total - btc.tseg2Max), total, nominal + 1);
    EarlyTicks(nominal, total, total - btc.tseg2Max);
  }

  lemma EarlyTicks(nominal: int, t: int, front: int)
    requires (nominal + 1) * t <= 1000 * front && 0 < t
    ensures nominal * t / 1000 < front
  {
    assert (nominal + 1) * t == nominal * t + t;
  }

  lemma LowAllFeasibleIff(btc: Limits, nominal: u32)
    requires WellFormed(btc) && nominal <= 999
    ensures AllFeasible(btc, nominal) <==> LeastNominal(btc) <= nominal
  {
    if LeastNominal(btc) <= nominal {
      forall tseg: u32 | 2 <= tseg <= btc.tseg1Max + btc.tseg2Max
        ensures Feasible(btc, nominal, tseg)
      {
        FeasibleIffSplittable(btc, nominal, tseg);
        LateIsSplittable(btc, nominal, tseg + SYNC_SEG);
      }
    } else {
      EarlyIsNotSplittable(btc, nominal);
      FeasibleIffSplittable(btc, nominal, btc.tseg1Max + btc.tseg2Max);
    }
  }

  ghost predicate AllFeasible(btc: Limits, nominal: u32) {
    forall tseg: u32 | 2 <= tseg <= btc.tseg1Max + btc.tseg2Max && tseg < UINT_MAX :: Feasible(btc, nominal, tseg)
  }

  /** No bit time is too short for the nominal sample point. */
  predicate NoneTooShort(btc: Limits, nominal: int) {
    btc.tseg2Max < 3 || Short(nominal, btc.tseg2Max) || 1000 * (SYNC_SEG + btc.tseg1Max) / 3 <= nominal
  }

  lemma HighAllFeasibleIff(btc: Limits, nominal: u32)
    requires WellFormed(btc) && 1000 <= nominal
    ensures AllFeasible(btc, nominal) <==> NoneTooShort(btc, nominal)
  {
    if NoneTooShort(btc, nominal) {
      forall tseg: u32 | 2 <= tseg <= btc.tseg1Max + btc.tseg2Max
        ensures Feasible(btc, nominal, tseg)
      {
        FeasibleIffSplittable(btc, nominal, tseg);
        if tseg + SYNC_SEG <= btc.tseg2Max {
          if Short(nominal, btc.tseg2Max) {
            ShorterIsShort(nominal, tseg + SYNC_SEG, btc.tseg2Max);
          } else {
            DivAntitone(1000 * (SYNC_SEG + btc.tseg1Max), 3, tseg + SYNC_SEG);
          }
        }
      }
    } else {
      FeasibleIffSplittable(btc, nominal, 2);
      FeasibleIffSplittable(btc, nominal, btc.tseg2Max - 1);
      DivIs(1000 * (SYNC_SEG + btc.tseg1Max), btc.tseg2Max, 2000);
    }
  }

  /** Every bit time can be split exactly when the nominal sample point is late enough and, from 1000 per mille on,
      no bit time is too short for it. */
  lemma AllFeasibleIffLate(btc: Limits, nominal: u32)
    requires WellFormed(btc)
    ensures AllFeasible(btc, nominal)
            <==> LeastNominal(btc) <= nominal && (nominal <= 999 || NoneTooShort(btc, nominal))
  {
    if nominal <= 999 {
      LowAllFeasibleIff(btc, nominal);
    } else {
      HighAllFeasibleIff(btc, nominal);
      LeastNominalIsLow(btc);
    }
  }

  lemma LeastNominalIsLow(btc: Limits)
    requires WellFormed(btc)
    ensures LeastNominal(btc) < 1000
  {
    var total: int := SYNC_SEG + btc.tseg1Max + btc.tseg2Max;
    DivIs(1000 * (SYNC_SEG + btc.tseg1Max), total, 1000);
  }
}
