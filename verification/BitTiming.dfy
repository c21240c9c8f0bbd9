/** CAN bit timing: `ep1_cf02a_can_calc_bittiming` around its search, its range checker and its inverse. */
module BitTiming {
  import opened CInts
  import opened Nonlinear
  import opened LittleEndian
  import opened BestCandidate
  import opened SamplePoint
  import opened BitTimingSearch

  const CALC_MAX_ERROR: int := 50  // in one-tenth of a percent
  const EINVAL: int := -22
  const ERANGE: int := -34

  /** `struct can_bittiming`. */
  datatype Bittiming = Bittiming(bitrate: u32, samplePoint: u32, tq: u32, propSeg: u32,
                                 phaseSeg1: u32, phaseSeg2: u32, sjw: u32, brp: u32)

  /** The bit-timing message, whose fields are plain `int`s. */
  datatype Timing = Timing(propSeg: s32, phaseSeg1: s32, phaseSeg2: s32, sjw: s32, brp: s32)

  /** CiA recommended sample points, unless the caller asks for one. */
  function NominalSamplePoint(bt: Bittiming): u32 {
    if bt.samplePoint != 0 then bt.samplePoint
    else if bt.bitrate > 800000 then 750
    else if bt.bitrate > 500000 then 800
    else 875
  }

  function QueryOf(clockFreq: u32, bt: Bittiming, btc: Limits): Query {
    Query(clockFreq, bt.bitrate, NominalSamplePoint(bt), btc)
  }

  function Min(a: u32, b: u32): u32 { if a < b then a else b }

  function Max(a: u32, b: u32): u32 { if a > b then a else b }

  function SjwSetDefault(bt: Bittiming): Bittiming {
    if bt.sjw != 0 then bt else bt.(sjw := Max(1, Min(bt.phaseSeg1, bt.phaseSeg2 / 2)))
  }

  function SjwCheck(bt: Bittiming, btc: Limits): int {
    if bt.sjw > btc.sjwMax || bt.sjw > bt.phaseSeg1 || bt.sjw > bt.phaseSeg2 then EINVAL else 0
  }

  function BitTime(bt: Bittiming): u32 {
    ToU32(SYNC_SEG + bt.propSeg + bt.phaseSeg1 + bt.phaseSeg2)
  }

  /** `ep1_cf02a_check_bit_timing`. */
  function CheckBitTiming(btc: Limits, timing: Timing): int {
    var tseg1 := ToU32(timing.propSeg + timing.phaseSeg1);
    var tseg2 := ToU32(timing.phaseSeg2);
    if tseg1 < btc.tseg1Min || tseg1 > btc.tseg1Max then ERANGE
    else if tseg2 < btc.tseg2Min || tseg2 > btc.tseg2Max then ERANGE
    else if ToU32(timing.sjw) > btc.sjwMax then ERANGE
    else if ToU32(timing.brp) < btc.brpMin || ToU32(timing.brp) > btc.brpMax then ERANGE
    else 0
  }

  /** `ep1_cf02a_calc_bitrate`: bit rate and sample point of a timing message. */
  function CalcBitrate(canClock: int, timing: Timing): (int, int)
    requires var allTseg := SYNC_SEG + timing.propSeg + timing.phaseSeg1 + timing.phaseSeg2;
      allTseg > 0 && timing.brp * allTseg > 0
  {
    var allTseg: int := SYNC_SEG + timing.propSeg + timing.phaseSeg1 + timing.phaseSeg2;
    (TruncDiv(canClock, timing.brp * allTseg),
     TruncDiv(1000 * (SYNC_SEG + timing.propSeg + timing.phaseSeg1), allTseg))
  }

  /** `ep1_cf02a_calc_bit_timing` copies the result into a message. */
  function TimingOf(bt: Bittiming): Timing {
    Timing(ToS32(bt.propSeg), ToS32(bt.phaseSeg1), ToS32(bt.phaseSeg2), ToS32(bt.sjw), ToS32(bt.brp))
  }

  /** The checker accepts exactly the timings within the limits, and calls all others a range error, whatever their
      signs; as long as segment 1 adds up in an `int`. */
  lemma CheckIsRange(btc: Limits, timing: Timing)
    requires WellFormed(btc) && btc.sjwMax < 0x8000_0000
    requires -0x8000_0000 <= timing.propSeg + timing.phaseSeg1 < 0x8000_0000
    ensures CheckBitTiming(btc, timing) == 0 || CheckBitTiming(btc, timing) == -34
    ensures CheckBitTiming(btc, timing) == 0 <==>
      && btc.tseg1Min <= timing.propSeg + timing.phaseSeg1 <= btc.tseg1Max
      && btc.tseg2Min <= timing.phaseSeg2 <= btc.tseg2Max
      && 0 <= timing.sjw <= btc.sjwMax
      && btc.brpMin <= timing.brp <= btc.brpMax
  {
    WrapIs(timing.propSeg + timing.phaseSeg1);
    WrapIs(timing.phaseSeg2);
    WrapIs(timing.sjw);
    WrapIs(timing.brp);
  }

  lemma WrapIs(x: int)
    requires -0x8000_0000 <= x < 0x8000_0000
    ensures ToU32(x) == if x < 0 then x + 0x1_0000_0000 else x
  {
  }

  /** The ranges of the device, in ticks: nominal and data bit timings. */
  lemma DriverRanges(timing: Timing)
    requires -0x8000_0000 <= timing.propSeg + timing.phaseSeg1 < 0x8000_0000
    ensures CheckBitTiming(NOMINAL_LIMITS, timing) == 0 <==>
      && 1 <= timing.propSeg + timing.phaseSeg1 <= 256 && 1 <= timing.phaseSeg2 <= 128
      && 0 <= timing.sjw <= 128 && 1 <= timing.brp <= 512
    ensures CheckBitTiming(DATA_LIMITS, timing) == 0 <==>
      && 1 <= timing.propSeg + timing.phaseSeg1 <= 32 && 1 <= timing.phaseSeg2 <= 16
      && 0 <= timing.sjw <= 16 && 1 <= timing.brp <= 32
  {
    CheckIsRange(NOMINAL_LIMITS, timing);
    CheckIsRange(DATA_LIMITS, timing);
  }

  /** The driver's test of the bit-rate error, in one-tenths of a percent. */
  predicate TooInaccurate(bitrateError: u32, bitrate: u32)
    requires bitrate != 0
  {
    bitrateError != 0 && ToU32(ToU64(bitrateError * 1000) / bitrate) > CALC_MAX_ERROR
  }

  /** A search that found nothing always fails the test, whatever the truncation to 32 bits does. */
  lemma NothingIsTooInaccurate(bitrate: u32)
    requires bitrate != 0
    ensures TooInaccurate(UINT_MAX, bitrate)
  {
    var v: int := UINT_MAX * 1000;
    var quotient := v / bitrate;
    DivIs(v, bitrate, 1000);
    if quotient >= TWO_32 {
      DivIs(v, bitrate, TWO_32);
      NothingTruncated(bitrate, quotient);
    }
  }

  /** Below 1000 bit/s the quotient exceeds 32 bits; what truncation leaves of it is still large. */
  lemma NothingTruncated(bitrate: int, quotient: int)
    requires 0 < bitrate < 1000 && quotient == UINT_MAX * 1000 / bitrate
    ensures ToU32(quotient) > CALC_MAX_ERROR
  {
    DivIs(UINT_MAX * 1000, bitrate, quotient);
    if ToU32(quotient) <= CALC_MAX_ERROR {
      TruncatedProduct(quotient, bitrate);
      MulLe(bitrate, 0, ToU32(quotient));
      MulLe(bitrate, ToU32(quotient), CALC_MAX_ERROR);
      BetweenMultiples(quotient / TWO_32 * bitrate, ToU32(quotient) * bitrate, bitrate);
    }
  }

  lemma TruncatedProduct(quotient: int, bitrate: int)
    ensures quotient * bitrate == quotient / TWO_32 * bitrate * 0x1_0000_0000 + ToU32(quotient) * bitrate
  {
    var h, r := quotient / TWO_32, ToU32(quotient);
    assert quotient == h * 0x1_0000_0000 + r;
    assert (h * 0x1_0000_0000 + r) * bitrate == h * bitrate * 0x1_0000_0000 + r * bitrate;
  }

  /** 1000 * (2^32 - 1) is not just above a multiple of 2^32. */
  lemma BetweenMultiples(x: int, y: int, bitrate: int)
    requires 0 <= y <= 50 * bitrate && 0 < bitrate < 1000
    ensures !(x * 0x1_0000_0000 + y <= 4294967295 * 1000 < x * 0x1_0000_0000 + y + bitrate)
  {
  }

  /** In the exact domain the test is the 5.1 percent bound. */
  lemma AccuracyIsFivePercent(bitrateError: u32, bitrate: u32)
    requires bitrate != 0 && bitrateError <= bitrate
    ensures TooInaccurate(bitrateError, bitrate) <==> 51 * bitrate <= bitrateError * 1000
  {
    QuotientBounds(bitrateError, bitrate);
    NoWrap64(bitrateError * 1000);
    NoWrap(bitrateError * 1000 / bitrate);
  }

  lemma QuotientBounds(bitrateError: int, bitrate: int)
    requires 0 <= bitrateError <= bitrate && 0 < bitrate
    ensures 0 <= bitrateError * 1000 / bitrate <= 1000
    ensures bitrateError * 1000 / bitrate > CALC_MAX_ERROR <==> 51 * bitrate <= bitrateError * 1000
  {
    DivIs(bitrateError * 1000, bitrate, 51);
    DivIs(bitrateError * 1000, bitrate, 1001);
    DivIs(bitrateError * 1000, bitrate, 0);
  }

  /** Rounding the quotient either way misses the request by no more than the request itself. */
  lemma RoundedErrorBound(clock: int, t: int, bitrate: int, brp: int)
    requires 0 < clock && 0 < t && 0 < bitrate && 0 < brp && 0 < t * bitrate && 0 < brp * t
    requires brp <= clock / (t * bitrate) ==> brp == clock / (t * bitrate)
    ensures 0 <= clock / (brp * t) < 2 * bitrate
  {
    PrescalerOrder(clock, t, bitrate, brp);
    DivIs(clock, brp * t, 0);
    if brp == clock / (t * bitrate) {
      DivIs(clock, t * bitrate, brp + 1);
      MulLe(t * bitrate, brp + 1, 2 * brp);
      TwiceTheProduct(t, bitrate, brp);
      DivIs(clock, brp * t, 2 * bitrate);
    }
  }

  lemma TwiceTheProduct(t: int, bitrate: int, brp: int)
    ensures 2 * brp * (t * bitrate) == 2 * bitrate * (brp * t)
  {
    assert brp * (t * bitrate) == bitrate * (brp * t);
  }

  /** In the exact domain no in-range candidate misses the request by more than the request. */
  lemma CandidateErrorBound(q: Query, k: int)
    requires Exact(q) && Visits(q.btc, k) && InRange(q, k)
    ensures 0 < BrpAt(q, k) * Ticks(k)
    ensures var actual := q.clock / (BrpAt(q, k) * Ticks(k));
      BitrateErrorAt(q, k) == (if q.bitrate >= actual then q.bitrate - actual else actual - q.bitrate) <= q.bitrate
  {
    BrpAtExact(q, k);
    ExactBitTicks(q, k);
    TicksInRange(q.btc, k, BrpAt(q, k));
    RoundedErrorBound(q.clock, Ticks(k), q.bitrate, BrpAt(q, k));
  }

  /** Whether some candidate comes within 5.1 percent of the request. */
  ghost predicate SomeAccurate(q: Query)
    requires Answerable(q)
  {
    exists k :: AccurateAt(q, k)
  }

  ghost predicate AccurateAt(q: Query, k: int)
    requires Answerable(q)
  {
    Eligible(q, k) && BitrateErrorAt(q, k) * 1000 < 51 * q.bitrate
  }

  lemma NearestDecidesAccuracy(q: Query, j: int)
    requires Answerable(q) && NearestRate(q, j)
    ensures SomeAccurate(q) <==> AccurateAt(q, j)
  {
    forall k | AccurateAt(q, k)
      ensures AccurateAt(q, j)
    {
      assert CandidateAt(q, j).bitrateError <= CandidateAt(q, k).bitrateError;
    }
  }

  lemma EligibleError(q: Query, j: int)
    requires Exact(q) && Eligible(q, j)
    ensures CandidateAt(q, j).bitrateError <= q.bitrate
    ensures AccurateAt(q, j) <==> CandidateAt(q, j).bitrateError * 1000 < 51 * q.bitrate
  {
    CandidateErrorBound(q, j);
  }

  /** The accuracy test on the best candidate decides for all of them. */
  lemma BestDecidesAccuracy(q: Query)
    requires Exact(q)
    ensures TooInaccurate(SearchResult(q).bitrateError, q.bitrate) <==> !SomeAccurate(q)
  {
    var e := SearchResult(q).bitrateError;
    if e < UINT_MAX {
      var j := SelectedIsNearest(q);
      NearestDecidesAccuracy(q, j);
      EligibleError(q, j);
      AccuracyIsFivePercent(e, q.bitrate);
    } else {
      var j := SearchIsOptimal(q);
      NothingIsTooInaccurate(q.bitrate);
    }
  }

  /** What a successful calculation means. */
  ghost predicate Sound(q: Query, r: Bittiming) {
    && CheckBitTiming(q.btc, TimingOf(r)) == 0
    && 0 <= r.propSeg <= r.phaseSeg1 <= 256 && 1 <= r.phaseSeg1 && 1 <= r.phaseSeg2 <= 128
    && 1 <= r.sjw <= r.phaseSeg1 && r.sjw <= r.phaseSeg2 && 1 <= r.brp <= 1024
    && r.samplePoint <= q.nominal
    && (BitTimePositive(r); CalcBitrate(q.clock, TimingOf(r))) == (r.bitrate, r.samplePoint)
  }

  lemma BitTimePositive(r: Bittiming)
    requires 1 <= r.brp
    ensures r.brp * (SYNC_SEG + r.propSeg + r.phaseSeg1 + r.phaseSeg2) > 0
  {
    MulLe(SYNC_SEG + r.propSeg + r.phaseSeg1 + r.phaseSeg2, 1, r.brp);
  }

  /** The fields `CalcBittiming` fills from the segments. */
  function Filled(bt: Bittiming, a: Attempt, tq: u32): Bittiming {
    SjwSetDefault(bt.(samplePoint := a.samplePoint, tq := tq, propSeg := a.tseg1 / 2,
                      phaseSeg1 := a.tseg1 - a.tseg1 / 2, phaseSeg2 := a.tseg2))
  }

  /** Which jump widths suit a split: one that is given must fit both phases; the driver's own choice, half of phase 2
      but no more than phase 1, needs a tick in each and half of phase 2 or all of phase 1 within the limit. */
  predicate JumpFits(btc: Limits, sjw: u32, a: Attempt) {
    var phase1 := a.tseg1 - a.tseg1 / 2;
    if sjw != 0 then sjw <= btc.sjwMax && sjw <= phase1 && sjw <= a.tseg2
    else 0 < a.tseg1 && 0 < a.tseg2 && (phase1 <= btc.sjwMax || a.tseg2 / 2 <= btc.sjwMax)
  }

  lemma AcceptedIffJumpFits(btc: Limits, bt: Bittiming, a: Attempt, tq: u32)
    requires WellFormed(btc)
    ensures SjwCheck(Filled(bt, a, tq), btc) == 0 <==> JumpFits(btc, bt.sjw, a)
  {
  }

  /** Within the limits the driver's own choice is rejected only if segment 1 is empty. */
  lemma DefaultSjwIsAccepted(btc: Limits, bt: Bittiming, a: Attempt, tq: u32, tseg: u32)
    requires WellFormed(btc) && InLimits(btc, a, tseg) && bt.sjw == 0
    ensures SjwCheck(Filled(bt, a, tq), btc) == 0 <==> 0 < a.tseg1
  {
    AcceptedIffJumpFits(btc, bt, a, tq);
  }

  /** Segments, jump width and bit time of the filled-in result. */
  lemma FilledIsInLimits(q: Query, bt: Bittiming, a: Attempt, tq: u32, best: Candidate)
    requires WellFormed(q.btc)
    requires a.tseg1 <= q.btc.tseg1Max && 1 <= a.tseg2 <= q.btc.tseg2Max && a.tseg1 + a.tseg2 == best.tseg
    requires SjwCheck(Filled(bt, a, tq), q.btc) == 0
    ensures var r := Filled(bt, a, tq);
      && 0 <= r.propSeg <= r.phaseSeg1 <= 256 && 1 <= r.phaseSeg1 && 1 <= r.phaseSeg2 <= 128
      && r.propSeg + r.phaseSeg1 == a.tseg1 && r.phaseSeg2 == a.tseg2
      && 1 <= r.sjw <= r.phaseSeg1 && r.sjw <= r.phaseSeg2 && r.sjw <= q.btc.sjwMax
      && BitTime(r) == SYNC_SEG + best.tseg
      && r.samplePoint == a.samplePoint
  {
  }

  /** The result as the driver fills it in, and the verdict on its jump width. */
  ghost predicate FilledIn(clock: u32, btc: Limits, bt: Bittiming, a: Attempt, best: Candidate,
                           err: int, r: Bittiming)
    requires ToU32(best.brp * (SYNC_SEG + best.tseg)) != 0
  {
    var filled := Filled(bt, a, r.tq);
    && err == SjwCheck(filled, btc)
    && (err == 0 ==>
          r == filled.(brp := best.brp, bitrate := ActualBitrate(clock, best.brp, SYNC_SEG + best.tseg)))
    && (err != 0 ==> r == filled)
  }

  /** Length of a tick in nanoseconds. */
  function TimeQuantum(brp: u32, clock: u32): u32
    requires clock != 0
  {
    ToU32(ToU64(brp * 1000 * 1000 * 1000) / clock)
  }

  lemma TimeQuantumIs(brp: u32, clock: u32)
    requires clock != 0 && brp * 1000000000 < clock * TWO_32
    ensures TimeQuantum(brp, clock) * clock <= brp * 1000000000 < (TimeQuantum(brp, clock) + 1) * clock
  {
    NoWrap64(brp * 1000000000);
    QuotientFits(brp * 1000000000, clock);
    NoWrap(brp * 1000000000 / clock);
  }

  lemma NoWrap64(x: int)
    requires 0 <= x < TWO_64
    ensures ToU64(x) == x
  {
  }

  lemma QuotientFits(x: int, y: int)
    requires 0 <= x < y * TWO_32 && 0 < y
    ensures 0 <= x / y < TWO_32 && x / y * y <= x < (x / y + 1) * y
  {
    DivIs(x, y, TWO_32);
    DivIs(x, y, 0);
  }

  lemma FilledIsSound(q: Query, bt: Bittiming, a: Attempt, best: Candidate, r: Bittiming)
    requires WellFormed(q.btc) && 0 < q.clock < 0x8000_0000
    requires a.tseg1 <= q.btc.tseg1Max && 1 <= a.tseg2 <= q.btc.tseg2Max && a.tseg1 + a.tseg2 == best.tseg
    requires a.samplePoint == 1000 * (best.tseg + SYNC_SEG - a.tseg2) / (best.tseg + SYNC_SEG) <= q.nominal
    requires 1 <= best.brp <= q.btc.brpMax && 0 < best.brp * (SYNC_SEG + best.tseg) < TWO_32
    requires FilledIn(q.clock, q.btc, bt, a, best, 0, r)
    ensures Sound(q, r)
  {
    FilledIsInLimits(q, bt, a, r.tq, best);
    RealBitrate(q.clock, best.brp, SYNC_SEG + best.tseg);
    InLimitsIsSound(q, r, best.tseg);
  }

  lemma RealBitrate(clock: u32, brp: u32, ticks: int)
    requires 0 < brp * ticks < TWO_32
    ensures ToU32(brp * ticks) == brp * ticks && ActualBitrate(clock, brp, ticks) == clock / (brp * ticks)
  {
  }

  /** For sensible timings the inverse computation is two plain quotients. */
  lemma CalcBitrateIs(clock: int, timing: Timing, total: int)
    requires SYNC_SEG + timing.propSeg + timing.phaseSeg1 + timing.phaseSeg2 == total
    requires 0 <= clock && 0 < total && 0 < timing.brp * total && timing.phaseSeg2 <= total
    ensures CalcBitrate(clock, timing)
         == (clock / (timing.brp * total), 1000 * (total - timing.phaseSeg2) / total)
  {
  }

  lemma InLimitsPassesCheck(btc: Limits, timing: Timing)
    requires 0 <= timing.propSeg && 0 <= timing.phaseSeg1
    requires btc.tseg1Min <= timing.propSeg + timing.phaseSeg1 <= btc.tseg1Max
    requires btc.tseg2Min <= timing.phaseSeg2 <= btc.tseg2Max
    requires 0 <= timing.sjw <= btc.sjwMax && btc.brpMin <= timing.brp <= btc.brpMax
    ensures CheckBitTiming(btc, timing) == 0
  {
  }

  lemma InLimitsIsSound(q: Query, r: Bittiming, tseg: int)
    requires WellFormed(q.btc) && q.clock < 0x8000_0000
    requires 0 <= r.propSeg <= r.phaseSeg1 && 1 <= r.phaseSeg1 && 1 <= r.phaseSeg2 <= q.btc.tseg2Max
    requires r.propSeg + r.phaseSeg1 <= q.btc.tseg1Max
    requires r.propSeg + r.phaseSeg1 + r.phaseSeg2 == tseg
    requires 1 <= r.sjw <= r.phaseSeg1 && r.sjw <= r.phaseSeg2 && r.sjw <= q.btc.sjwMax
    requires 1 <= r.brp <= q.btc.brpMax
    requires r.samplePoint <= q.nominal
    requires r.samplePoint == 1000 * (tseg + SYNC_SEG - r.phaseSeg2) / (tseg + SYNC_SEG)
    requires 0 < r.brp * (SYNC_SEG + tseg) < TWO_32
    requires r.bitrate == q.clock / (r.brp * (SYNC_SEG + tseg))
    ensures Sound(q, r)
  {
    BitTimePositive(r);
    InLimitsPassesCheck(q.btc, TimingOf(r));
    CalcBitrateIs(q.clock, TimingOf(r), SYNC_SEG + tseg);
  }

  lemma BitTimeOfSegments(r: Bittiming, tseg1: u32, tseg2: u32, tseg: int)
    requires r.propSeg + r.phaseSeg1 == tseg1 && r.phaseSeg2 == tseg2
    requires ToU32(tseg1 + tseg2) == tseg < 1000
    ensures BitTime(r) == SYNC_SEG + tseg
  {
    var k := (tseg1 + tseg2) / TWO_32;
    assert tseg1 + tseg2 == k * 0x1_0000_0000 + tseg;
  }

  /** The largest jump that fits phase 1 and half of phase 2, but at least one tick. */
  predicate DefaultJump(sjw: int, phase1: int, phase2: int) {
    && 1 <= sjw && (sjw > 1 ==> sjw <= phase1 && 2 * sjw <= phase2)
    && (sjw >= phase1 || 2 * (sjw + 1) > phase2)
  }

  lemma DefaultJumpIs(bt: Bittiming)
    ensures SjwSetDefault(bt) == bt.(sjw := SjwSetDefault(bt).sjw)
    ensures if bt.sjw == 0 then DefaultJump(SjwSetDefault(bt).sjw, bt.phaseSeg1, bt.phaseSeg2)
            else SjwSetDefault(bt).sjw == bt.sjw
  {
  }

  /** The segments are the rounding's, the first of them halved; a jump width that was given stays. */
  ghost predicate SplitAs(bt: Bittiming, a: Attempt, r: Bittiming) {
    && r.propSeg + r.phaseSeg1 == a.tseg1 && r.phaseSeg2 == a.tseg2
    && 0 <= r.phaseSeg1 - r.propSeg <= 1
    && r.samplePoint == a.samplePoint
    && (bt.sjw != 0 ==> r.sjw == bt.sjw)
    && (bt.sjw == 0 ==> DefaultJump(r.sjw, r.phaseSeg1, r.phaseSeg2))
  }

  lemma FilledSplits(bt: Bittiming, a: Attempt, tq: u32)
    ensures SplitAs(bt, a, Filled(bt, a, tq)) && Filled(bt, a, tq).tq == tq
  {
    DefaultJumpIs(bt.(samplePoint := a.samplePoint, tq := tq, propSeg := a.tseg1 / 2,
                      phaseSeg1 := a.tseg1 - a.tseg1 / 2, phaseSeg2 := a.tseg2));
  }

  /** The tail of `ep1_cf02a_can_calc_bittiming`: from the segments to the result. */
  method FillIn(clock: u32, btc: Limits, bt: Bittiming, a: Attempt, best: Candidate)
    returns (err: int, r: Bittiming)
    requires clock != 0
    requires ToU32(a.tseg1 + a.tseg2) == best.tseg < 1000
    requires ToU32(best.brp * (SYNC_SEG + best.tseg)) != 0
    ensures FilledIn(clock, btc, bt, a, best, err, r)
    ensures err == 0 ==> r.brp == best.brp && BitTime(r) == SYNC_SEG + best.tseg
    ensures SplitAs(bt, a, r) && r.tq == TimeQuantum(best.brp, clock)
  {
    r := bt.(samplePoint := a.samplePoint, tq := TimeQuantum(best.brp, clock));
    r := r.(propSeg := a.tseg1 / 2);
    r := r.(phaseSeg1 := a.tseg1 - r.propSeg, phaseSeg2 := a.tseg2);
    r := SjwSetDefault(r);
    assert r == Filled(bt, a, TimeQuantum(best.brp, clock));
    FilledSplits(bt, a, TimeQuantum(best.brp, clock));
    err := SjwCheck(r, btc);
    if err != 0 {
      return err, r;
    }
    BitTimeOfSegments(r, a.tseg1, a.tseg2, best.tseg);
    r := r.(brp := best.brp);
    r := r.(bitrate := ActualBitrate(clock, r.brp, BitTime(r)));
  }

  /** Prescaler, bit time, segments and sample point are those of the selected candidate; the length of a tick is the
      whole nanoseconds of `brp` clock periods. */
  ghost predicate TakesSelected(q: Query, bt: Bittiming, r: Bittiming)
    requires Answerable(q)
  {
    var best := SearchResult(q);
    && r.brp == best.brp && BitTime(r) == SYNC_SEG + best.tseg
    && best.tseg < UINT_MAX && Feasible(q.btc, q.nominal, best.tseg)
    && SplitAs(bt, BestRounding(q.btc, q.nominal, best.tseg), r)
    && r.tq == TimeQuantum(r.brp, q.clock)
    && (r.brp * 1000000000 < q.clock * TWO_32 ==> r.tq * q.clock <= r.brp * 1000000000 < (r.tq + 1) * q.clock)
  }

  lemma SelectedIsTaken(q: Query, bt: Bittiming, a: Attempt, r: Bittiming)
    requires Answerable(q) && Promising(q, SearchResult(q))
    requires a == BestRounding(q.btc, q.nominal, SearchResult(q).tseg)
    requires r.brp == SearchResult(q).brp && BitTime(r) == SYNC_SEG + SearchResult(q).tseg
    requires SplitAs(bt, a, r) && r.tq == TimeQuantum(SearchResult(q).brp, q.clock)
    ensures TakesSelected(q, bt, r)
  {
    if r.brp * 1000000000 < q.clock * TWO_32 {
      TimeQuantumIs(r.brp, q.clock);
    }
  }

  /** What the calculation promises. */
  ghost predicate Calculated(q: Query, bt: Bittiming, err: int, r: Bittiming)
    requires Answerable(q)
  {
    var best := SearchResult(q);
    // An error is one code; a search that found nothing is one.
    && (err == 0 || err == -22)
    && (best.bitrateError == UINT_MAX ==> err != 0)
    // The result is the candidate the search selects.
    && (err == 0 ==> TakesSelected(q, bt, r))
    // It passes the range checker, and the inverse computation returns it, if and only if it is within the limits.
    && (err == 0 && q.clock < 0x8000_0000 ==> SoundInLimits(q, r))
    // It is accurate to 5.1 percent.
    && (err == 0 && Exact(q) ==> -51 * q.bitrate < (r.bitrate - q.bitrate) * 1000 < 51 * q.bitrate)
    // Only inaccuracy of every candidate and an unsuitable jump width are errors.
    && (Exact(q) ==> (err == 0 <==> SomeAccurate(q) && SelectedFits(q, bt.sjw)))
    // The driver's own jump width suits the sample points in use.
    && (bt.sjw == 0 && 667 <= q.nominal <= 999 && Exact(q) ==> (err == 0 <==> SomeAccurate(q)))
  }

  /** Passing the checker, being sound and being within the limits are one, and certain below `LeastOvershoot`. */
  ghost predicate SoundInLimits(q: Query, r: Bittiming)
    requires Answerable(q)
  {
    var tseg := SearchResult(q).tseg;
    && tseg < UINT_MAX && Feasible(q.btc, q.nominal, tseg)
    && (Sound(q, r) <==> InLimits(q.btc, BestRounding(q.btc, q.nominal, tseg), tseg))
    && (CheckBitTiming(q.btc, TimingOf(r)) == 0 <==> InLimits(q.btc, BestRounding(q.btc, q.nominal, tseg), tseg))
    && (q.nominal < LeastOvershoot(q.btc) ==> Sound(q, r))
  }

  /** The jump width suits the split of the selected candidate. */
  ghost predicate SelectedFits(q: Query, sjw: u32)
    requires Answerable(q)
  {
    var tseg := SearchResult(q).tseg;
    tseg < UINT_MAX && Feasible(q.btc, q.nominal, tseg) && JumpFits(q.btc, sjw, BestRounding(q.btc, q.nominal, tseg))
  }

  /** The bit rate finally reported is that of the selected candidate, so the accuracy is its accuracy. */
  lemma SelectedBitrate(q: Query, j: int, best: Candidate)
    requires Exact(q) && AccurateAt(q, j)
    requires best.brp == BrpAt(q, j) && best.tseg == j / 2
    ensures ToU32(best.brp * (SYNC_SEG + best.tseg)) != 0
    ensures var actual: int := ActualBitrate(q.clock, best.brp, SYNC_SEG + best.tseg);
      -51 * q.bitrate < (actual - q.bitrate) * 1000 < 51 * q.bitrate
  {
    CandidateErrorBound(q, j);
    TicksInRange(q.btc, j, BrpAt(q, j));
  }

  lemma FilledInIsSound(q: Query, bt: Bittiming, a: Attempt, best: Candidate, r: Bittiming)
    requires WellFormed(q.btc) && 0 < q.clock < 0x8000_0000
    requires 2 <= best.tseg <= q.btc.tseg1Max + q.btc.tseg2Max && 1 <= best.brp <= q.btc.brpMax
    requires Feasible(q.btc, q.nominal, best.tseg) && a == BestRounding(q.btc, q.nominal, best.tseg)
    requires ToU32(best.brp * (SYNC_SEG + best.tseg)) != 0 && FilledIn(q.clock, q.btc, bt, a, best, 0, r)
    ensures Sound(q, r) <==> InLimits(q.btc, a, best.tseg)
    ensures CheckBitTiming(q.btc, TimingOf(r)) == 0 <==> InLimits(q.btc, a, best.tseg)
    ensures q.nominal < LeastOvershoot(q.btc) ==> Sound(q, r)
  {
    BestRoundingSplits(q.btc, q.nominal, best.tseg);
    if InLimits(q.btc, a, best.tseg) {
      TicksInRange(q.btc, 2 * best.tseg, best.brp);
      FilledIsSound(q, bt, a, best, r);
    } else {
      RoundingOf(q.btc, q.nominal, best.tseg, BestIndex(q.btc, q.nominal, best.tseg));
      OvershotIsOutOfRange(q.btc, r);
    }
  }

  /** A wrapped segment 2 is negative in the message, and fails the check as a large number again. */
  lemma OvershotIsOutOfRange(btc: Limits, r: Bittiming)
    requires WellFormed(btc) && r.phaseSeg2 >= 0x8000_0000
    ensures CheckBitTiming(btc, TimingOf(r)) != 0
  {
    WrapIs(ToS32(r.phaseSeg2));
  }

  lemma FilledInIsAccepted(q: Query, bt: Bittiming, a: Attempt, best: Candidate, err: int, r: Bittiming)
    requires WellFormed(q.btc)
    requires 2 <= best.tseg <= q.btc.tseg1Max + q.btc.tseg2Max
    requires Feasible(q.btc, q.nominal, best.tseg) && a == BestRounding(q.btc, q.nominal, best.tseg)
    requires ToU32(best.brp * (SYNC_SEG + best.tseg)) != 0 && FilledIn(q.clock, q.btc, bt, a, best, err, r)
    ensures err == 0 <==> JumpFits(q.btc, bt.sjw, a)
    ensures bt.sjw == 0 && 667 <= q.nominal <= 999 ==> err == 0
  {
    BestRoundingSplits(q.btc, q.nominal, best.tseg);
    AcceptedIffJumpFits(q.btc, bt, a, r.tq);
    if bt.sjw == 0 && InLimits(q.btc, a, best.tseg) {
      DefaultSjwIsAccepted(q.btc, bt, a, r.tq, best.tseg);
    }
    if q.nominal <= 999 {
      BelowLeastOvershoot(q.btc);
    }
  }

  /** What the test on the best candidate lets through. */
  ghost predicate Promising(q: Query, best: Candidate)
    requires Answerable(q)
  {
    && best.bitrateError < UINT_MAX
    && 2 <= best.tseg <= q.btc.tseg1Max + q.btc.tseg2Max && 1 <= best.brp <= q.btc.brpMax
    && Feasible(q.btc, q.nominal, best.tseg)
    && ToU32(best.brp * (SYNC_SEG + best.tseg)) != 0
    && (Exact(q) ==> SomeAccurate(q))
  }

  lemma SelectedIsAccurate(q: Query, best: Candidate)
    requires Exact(q) && best == SearchResult(q) && best.bitrateError < UINT_MAX && SomeAccurate(q)
    ensures ToU32(best.brp * (SYNC_SEG + best.tseg)) != 0
    ensures var actual: int := ActualBitrate(q.clock, best.brp, SYNC_SEG + best.tseg);
      -51 * q.bitrate < (actual - q.bitrate) * 1000 < 51 * q.bitrate
  {
    var j := SelectedIsNearest(q);
    NearestDecidesAccuracy(q, j);
    SelectedBitrate(q, j, best);
  }

  lemma FilledInIsCalculated(q: Query, bt: Bittiming, a: Attempt, err: int, r: Bittiming)
    requires Answerable(q) && Promising(q, SearchResult(q))
    requires a == BestRounding(q.btc, q.nominal, SearchResult(q).tseg)
    requires FilledIn(q.clock, q.btc, bt, a, SearchResult(q), err, r)
    requires err == 0 ==> r.brp == SearchResult(q).brp && BitTime(r) == SYNC_SEG + SearchResult(q).tseg
    requires SplitAs(bt, a, r) && r.tq == TimeQuantum(SearchResult(q).brp, q.clock)
    ensures Calculated(q, bt, err, r)
  {
    var best := SearchResult(q);
    if err == 0 && q.clock < 0x8000_0000 {
      FilledInIsSound(q, bt, a, best, r);
    }
    if err == 0 && Exact(q) {
      SelectedIsAccurate(q, best);
    }
    if err == 0 {
      SelectedIsTaken(q, bt, a, r);
    }
    FilledInIsAccepted(q, bt, a, best, err, r);
  }

  lemma InaccurateIsCalculated(q: Query, bt: Bittiming)
    requires Answerable(q) && q.bitrate != 0 && TooInaccurate(SearchResult(q).bitrateError, q.bitrate)
    ensures Calculated(q, bt, EINVAL, bt)
  {
    if Exact(q) {
      BestDecidesAccuracy(q);
    }
  }

  lemma AccurateIsUsable(q: Query)
    requires Answerable(q) && q.bitrate != 0 && !TooInaccurate(SearchResult(q).bitrateError, q.bitrate)
    ensures Promising(q, SearchResult(q))
  {
    NothingIsTooInaccurate(q.bitrate);
    AcceptedIsUsable(q);
    TicksInRange(q.btc, 2 * SearchResult(q).tseg, SearchResult(q).brp);
    if Exact(q) {
      BestDecidesAccuracy(q);
    }
  }

  lemma PromisingMeans(q: Query, best: Candidate)
    requires Answerable(q) && Promising(q, best)
    ensures q.clock != 0 && 2 <= best.tseg < 1000 && ToU32(best.brp * (SYNC_SEG + best.tseg)) != 0
    ensures Feasible(q.btc, q.nominal, best.tseg)
    ensures var a := BestRounding(q.btc, q.nominal, best.tseg); ToU32(a.tseg1 + a.tseg2) == best.tseg
  {
    SegmentsAddUp(q.btc, q.nominal, best.tseg);
  }

  /** What follows once the selected candidate has been found accurate enough. */
  method SplitSelected(q: Query, bt: Bittiming, best: Candidate, oldTseg1: u32, oldTseg2: u32)
    returns (err: int, r: Bittiming)
    requires Answerable(q) && Promising(q, SearchResult(q)) && best == SearchResult(q)
    ensures Calculated(q, bt, err, r)
  {
    PromisingMeans(q, best);
    var samplePoint, tseg1, tseg2, error := UpdateSamplePoint(q.btc, q.nominal, best.tseg, oldTseg1, oldTseg2);
    var a := Attempt(tseg1, tseg2, samplePoint, error);
    assert a == BestRounding(q.btc, q.nominal, best.tseg);
    err, r := FillIn(q.clock, q.btc, bt, a, best);
    FilledInIsCalculated(q, bt, a, err, r);
  }

  /** `ep1_cf02a_can_calc_bittiming`; on an error `r` is whatever was filled in so far. */
  method CalcBittiming(clockFreq: u32, bt: Bittiming, btc: Limits) returns (err: int, r: Bittiming)
    requires Answerable(QueryOf(clockFreq, bt, btc))
    ensures Calculated(QueryOf(clockFreq, bt, btc), bt, err, r)
    // The sample point asked for, or 87.5 percent, 80 above 500 kbit/s, and 75 above 800 kbit/s.
    ensures QueryOf(clockFreq, bt, btc).nominal
         == if bt.samplePoint != 0 then bt.samplePoint
            else if bt.bitrate <= 500000 then 875 else if bt.bitrate <= 800000 then 800 else 750
  {
    var q := QueryOf(clockFreq, bt, btc);
    var best, tseg1, tseg2 := Search(q);
    assert BitTicks(q, Last(btc)) != 0;
    if best.bitrateError != 0 {
      var v64 := ToU64(best.bitrateError * 1000) / bt.bitrate;
      if ToU32(v64) > CALC_MAX_ERROR {
        InaccurateIsCalculated(q, bt);
        return EINVAL, bt;
      }
    }
    assert !TooInaccurate(best.bitrateError, q.bitrate);
    AccurateIsUsable(q);
    err, r := SplitSelected(q, bt, best, tseg1, tseg2);
  }

  // ------------------------------------------------------------------
  // The bit-timing message.

  function TimingBytes(timing: Timing): (s: seq<byte>)
    ensures |s| == 10
  {
    Le16(timing.propSeg) + Le16(timing.phaseSeg1) + Le16(timing.phaseSeg2)
    + Le16(timing.sjw) + Le16(timing.brp)
  }

  function TimingOfBytes(s: seq<byte>): Timing
    requires |s| == 10
  {
    Timing(FromLe16(s[0..2]), FromLe16(s[2..4]), FromLe16(s[4..6]), FromLe16(s[6..8]), FromLe16(s[8..10]))
  }

  predicate Fits16(timing: Timing) {
    && 0 <= timing.propSeg < TWO_16 && 0 <= timing.phaseSeg1 < TWO_16 && 0 <= timing.phaseSeg2 < TWO_16
    && 0 <= timing.sjw < TWO_16 && 0 <= timing.brp < TWO_16
  }

  lemma Fields(a: seq<byte>, b: seq<byte>, c: seq<byte>, d: seq<byte>, e: seq<byte>)
    requires |a| == |b| == |c| == |d| == |e| == 2
    ensures var s := a + b + c + d + e;
      s[0..2] == a && s[2..4] == b && s[4..6] == c && s[6..8] == d && s[8..10] == e
  {
  }

  /** The 16-bit fields carry a timing back unchanged exactly when each of them fits. */
  lemma TimingRoundTrip(timing: Timing)
    ensures TimingOfBytes(TimingBytes(timing)) == timing <==> Fits16(timing)
  {
    Fields(Le16(timing.propSeg), Le16(timing.phaseSeg1), Le16(timing.phaseSeg2),
           Le16(timing.sjw), Le16(timing.brp));
    Le16RoundTrip(timing.propSeg);
    Le16RoundTrip(timing.phaseSeg1);
    Le16RoundTrip(timing.phaseSeg2);
    Le16RoundTrip(timing.sjw);
    Le16RoundTrip(timing.brp);
  }

  /** Set-bitrate then get-bitrate: the device, which stores the message, reports what was calculated. */
  lemma ReportedAsCalculated(q: Query, r: Bittiming)
    requires Sound(q, r)
    ensures var stored := TimingOfBytes(TimingBytes(TimingOf(r)));
      && stored == TimingOf(r)
      && (BitTimePositive(r); CalcBitrate(q.clock, stored)) == (r.bitrate, r.samplePoint)
  {
    TimingRoundTrip(TimingOf(r));
    BitTimePositive(r);
  }

  /** What each byte of the message is. */
  ghost predicate SpellsTiming(s: seq<byte>, timing: Timing) {
    && |s| >= 10
    && Spells16(s[0], s[1], timing.propSeg) && Spells16(s[2], s[3], timing.phaseSeg1)
    && Spells16(s[4], s[5], timing.phaseSeg2) && Spells16(s[6], s[7], timing.sjw) && Spells16(s[8], s[9], timing.brp)
  }

  lemma TimingBytesSpell(timing: Timing, behind: seq<byte>)
    ensures SpellsTiming(TimingBytes(timing) + behind, timing)
  {
    Le16Spells(timing.propSeg);
    Le16Spells(timing.phaseSeg1);
    Le16Spells(timing.phaseSeg2);
    Le16Spells(timing.sjw);
    Le16Spells(timing.brp);
  }

  /** Pack (Set Bit Timing). */
  method PackSetBitTiming(timing: Timing, data: array<byte>)
    requires data.Length >= 10
    modifies data
    ensures data[..] == TimingBytes(timing) + old(data[10..])
    ensures SpellsTiming(data[..], timing)
  {
    var n := 0;
    data[n], data[n + 1] := ToByte(timing.propSeg), ToByte(timing.propSeg / 0x100);
    n := n + 2;
    data[n], data[n + 1] := ToByte(timing.phaseSeg1), ToByte(timing.phaseSeg1 / 0x100);
    n := n + 2;
    data[n], data[n + 1] := ToByte(timing.phaseSeg2), ToByte(timing.phaseSeg2 / 0x100);
    n := n + 2;
    data[n], data[n + 1] := ToByte(timing.sjw), ToByte(timing.sjw / 0x100);
    n := n + 2;
    data[n], data[n + 1] := ToByte(timing.brp), ToByte(timing.brp / 0x100);
    assert data[..10] == TimingBytes(timing);
    assert data[10..] == old(data[10..]);
    assert data[..] == data[..10] + data[10..];
    TimingBytesSpell(timing, data[10..]);
  }
}
