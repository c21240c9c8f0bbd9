/** What goes wrong for nominal sample points past the end of the bit, which the driver's interface passes on. */
module LateSamplePoints {
  import opened BestCandidate
  import opened BitTimingSearch
  import opened CInts
  import opened Nonlinear
  import opened SamplePoint

  // ------------------------------------------------------------------
  // A query for which the search forfeits its best candidate.

  const WIDE := Query(824884, 536, 1312, NOMINAL_LIMITS)

  /** The candidate the search forgets, 385 ticks, the bit time it forgets it at, 53 ticks, and the candidate it takes
      in the end, 3 ticks. */
  const FORGOTTEN: int := 769
  const GAP: int := 104
  const TAKEN: int := 4

  lemma WideIsExact()
    ensures Exact(WIDE) && !OneStretch(WIDE.btc, WIDE.nominal)
  {
  }

  /** Four ticks and more, up to the longest segment 2, cannot be split at 1312 per mille. */
  lemma WideFeasible(tseg: u32)
    requires 2 <= tseg <= 384
    ensures Feasible(NOMINAL_LIMITS, 1312, tseg) <==> tseg == 2 || tseg >= 128
  {
    FeasibleIffSplittable(NOMINAL_LIMITS, 1312, tseg);
    var t: int := tseg + SYNC_SEG;
    if t <= 128 {
      DivIs(257000, t, 1313);
    }
  }

  lemma WideRate(k: int, brp: u32)
    requires Visits(NOMINAL_LIMITS, k) && 1 <= brp <= 512
    ensures ToU32(brp * Ticks(k)) != 0
    ensures ActualBitrate(824884, brp, Ticks(k)) == 536 <==> brp * Ticks(k) == 1537 || brp * Ticks(k) == 1538
  {
    var p := brp * Ticks(k);
    TicksInRange(NOMINAL_LIMITS, k, brp);
    DivIs(824884, p, 536);
    DivIs(824884, p, 537);
    if p <= 1536 {
      MulLe(537, p, 1536);
    } else if p >= 1539 {
      MulLe(536, 1539, p);
    }
  }

  lemma NotAMultiple(brp: int, t: int)
    requires 129 <= t <= 385 && 1 <= brp
    ensures brp * t != 1537 && brp * t != 1538
  {
    if brp >= 12 {
      MulLe(t, 12, brp);
    } else {
      match brp
      case 1 => case 2 => case 3 => case 4 => case 5 => case 6 =>
      case 7 => case 8 => case 9 => case 10 => case 11 =>
    }
  }

  lemma WideAt(k: int, bitTicks: u32, brp: u32, rate: u32)
    requires Exact(WIDE) && Visits(WIDE.btc, k) && bitTicks == Ticks(k) * 536
    requires brp == 824884 / bitTicks + k % 2 && 1 <= brp <= 512 && rate == 824884 / (brp * Ticks(k))
    ensures InRange(WIDE, k) && BrpAt(WIDE, k) == brp
    ensures BitrateErrorAt(WIDE, k) == AbsDiff(536, rate)
  {
    WideIsExact();
    BrpAtExact(WIDE, k);
    TicksInRange(NOMINAL_LIMITS, k, brp);
  }

  /** Three ticks: only the prescaler rounded down is in range. */
  lemma WideThreeTicks()
    ensures Eligible(WIDE, TAKEN) && BitrateErrorAt(WIDE, TAKEN) == 1 && !InRange(WIDE, TAKEN + 1)
  {
    WideIsExact();
    WideFeasible(TAKEN / 2);
    WideAt(TAKEN, 1608, 512, 537);
    BrpAtExact(WIDE, TAKEN + 1);
  }

  /** The sample-point error of a bit time longer than segment 2 can be. */
  lemma LongError(btc: Limits, nominal: u32, tseg: u32, e: int)
    requires WellFormed(btc) && btc.tseg2Max <= tseg <= btc.tseg1Max + btc.tseg2Max && 2 <= tseg
    requires 1000 <= nominal < 2000 && !Short(nominal, tseg + SYNC_SEG)
    requires e == nominal - 1000 * (tseg + SYNC_SEG - btc.tseg2Max) / (tseg + SYNC_SEG)
    ensures SampleError(btc, nominal, tseg) == e
  {
    MulLe(tseg + SYNC_SEG, nominal, 2000);
    HighOvershoots(btc, nominal, tseg, 0);
    HighOvershoots(btc, nominal, tseg, 1);
    HighRounding(btc, nominal, tseg, 0);
    HighRounding(btc, nominal, tseg, 1);
    RoundingOf(btc, nominal, tseg, 0);
    RoundingOf(btc, nominal, tseg, 1);
  }

  /** The sample-point error of a short bit time. */
  lemma ShortError(btc: Limits, nominal: u32, tseg: u32, e: int)
    requires WellFormed(btc) && 2 <= tseg < btc.tseg2Max
    requires 1000 <= nominal < 2000 && Short(nominal, tseg + SYNC_SEG)
    requires e == nominal - 1000 * tseg / (tseg + SYNC_SEG)
    ensures SampleError(btc, nominal, tseg) == e
  {
    MulLe(tseg + SYNC_SEG, nominal, 2000);
    HighOvershoots(btc, nominal, tseg, 0);
    HighOvershoots(btc, nominal, tseg, 1);
    HighRounding(btc, nominal, tseg, 0);
    RoundingOf(btc, nominal, tseg, 0);
    RoundingOf(btc, nominal, tseg, 1);
  }

  lemma WideLongErrorIsPositive(k: int)
    requires Visits(WIDE.btc, k) && k / 2 >= 128 && Answerable(WIDE) && InRange(WIDE, k)
    ensures BitrateErrorAt(WIDE, k) >= 1
  {
    WideRate(k, BrpAt(WIDE, k));
    NotAMultiple(BrpAt(WIDE, k), Ticks(k));
  }

  lemma WideShortErrorIsPositive(k: int)
    requires Visits(WIDE.btc, k) && k / 2 == 2 && Answerable(WIDE) && InRange(WIDE, k)
    ensures BitrateErrorAt(WIDE, k) >= 1
  {
    WideThreeTicks();
    assert k == TAKEN || k == TAKEN + 1;
  }

  lemma WideErrorIsPositive(k: int)
    requires Answerable(WIDE) && Eligible(WIDE, k)
    ensures CandidateAt(WIDE, k).bitrateError >= 1
  {
    WideFeasible(k / 2);
    if k / 2 == 2 {
      WideShortErrorIsPositive(k);
    } else {
      WideLongErrorIsPositive(k);
    }
  }

  lemma WideCandidate(q: Query, k: int, bitTicks: u32, brp: u32, rate: u32)
    requires q == WIDE && (k == TAKEN || k == FORGOTTEN) && bitTicks == Ticks(k) * 536
    requires brp == 824884 / bitTicks + k % 2 && 1 <= brp <= 512 && rate == 824884 / (brp * Ticks(k))
    requires AbsDiff(536, rate) == 1
    ensures Answerable(q) && Eligible(q, k)
    ensures CandidateAt(q, k) == Candidate(1, if k == TAKEN then 646 else 645, k / 2, brp)
  {
    WideIsExact();
    if k == TAKEN {
      ShortError(q.btc, q.nominal, k / 2, 646);
    } else {
      LongError(q.btc, q.nominal, k / 2, 645);
    }
    WideFeasible(k / 2);
    WideAt(k, bitTicks, brp, rate);
  }

  lemma WideErrorsArePositive()
    ensures Answerable(WIDE) && forall k | Eligible(WIDE, k) :: CandidateAt(WIDE, k).bitrateError >= 1
  {
    WideIsExact();
    forall k | Eligible(WIDE, k)
      ensures CandidateAt(WIDE, k).bitrateError >= 1
    {
      WideErrorIsPositive(k);
    }
  }

  /** The longest bit time and the shortest have the nearest rate, one period off. */
  lemma WideNearest()
    ensures NearestRate(WIDE, FORGOTTEN) && CandidateAt(WIDE, FORGOTTEN) == Candidate(1, 645, 384, 4)
    ensures NearestRate(WIDE, TAKEN) && CandidateAt(WIDE, TAKEN) == Candidate(1, 646, 2, 512)
  {
    WideCandidate(WIDE, FORGOTTEN, 206360, 4, 535);
    WideCandidate(WIDE, TAKEN, 1608, 512, 537);
    WideErrorsArePositive();
  }

  lemma WideOnlyTaken(k: int)
    requires Answerable(WIDE) && k < GAP && Visits(WIDE.btc, k) && InRange(WIDE, k)
    ensures Feasible(WIDE.btc, WIDE.nominal, k / 2) ==> k == TAKEN
  {
    WideFeasible(k / 2);
    if k / 2 == 2 {
      WideThreeTicks();
      assert k == TAKEN || k == TAKEN + 1;
    }
  }

  lemma WideBetween()
    requires Answerable(WIDE)
    ensures forall k | k < GAP && Eligible(WIDE, k) :: k == TAKEN
  {
    forall k | k < GAP && Eligible(WIDE, k)
      ensures k == TAKEN
    {
      WideOnlyTaken(k);
    }
  }

  lemma WideGap()
    ensures Exact(WIDE)
    ensures Visits(WIDE.btc, GAP) && InRange(WIDE, GAP) && !Feasible(WIDE.btc, WIDE.nominal, GAP / 2)
    ensures BitrateErrorAt(WIDE, GAP) == 0
  {
    WideIsExact();
    WideFeasible(GAP / 2);
    WideAt(GAP, 28408, 29, 536);
  }

  /** The clock, bit rate and sample point for which the search returns a candidate that another one beats: the exact
      bit rate at 53 ticks, which cannot be split, makes it forget the longest bit time. */
  lemma WideForfeits() returns (j: int)
    ensures Exact(WIDE) && Forfeits(WIDE, FORGOTTEN, GAP)
    ensures j == TAKEN && NearestRate(WIDE, j) && SearchResult(WIDE).tseg == 2 && SearchResult(WIDE).brp == 512
    ensures Better(CandidateAt(WIDE, FORGOTTEN), CandidateAt(WIDE, j)) && !Optimal(WIDE, j)
  {
    WideIsExact();
    WideNearest();
    WideBetween();
    WideGap();
    assert Forfeits(WIDE, FORGOTTEN, GAP);
    j := SearchIsOptimal(WIDE);
  }

  // ------------------------------------------------------------------
  // Queries whose result is not a split of the bit time.

  /** The rounding of the selected bit time is within the limits. */
  ghost predicate TakenInLimits(q: Query)
    requires Answerable(q)
  {
    var best := SearchResult(q);
    best.bitrateError < UINT_MAX ==>
      && best.tseg < UINT_MAX && Feasible(q.btc, q.nominal, best.tseg)
      && InLimits(q.btc, BestRounding(q.btc, q.nominal, best.tseg), best.tseg)
  }

  lemma SlowerWithMore(clock: int, bitrate: int, t: int, p: int)
    requires 0 < bitrate && clock == t * bitrate && 0 < p
    ensures clock / p >= bitrate ==> p <= t
  {
    DivIs(clock, p, bitrate);
    if p > t {
      MulLt(bitrate, t, p);
    }
  }

  /** A clock of `t` periods for each bit: longer bit times do not reach the rate. */
  lemma NoLongerBitTime(q: Query, k: int, t: nat)
    requires Exact(q) && q.clock == t * q.bitrate && Visits(q.btc, k) && InRange(q, k)
    ensures BitrateErrorAt(q, k) == 0 ==> BrpAt(q, k) * Ticks(k) <= t
  {
    TicksInRange(q.btc, k, BrpAt(q, k));
    SlowerWithMore(q.clock, q.bitrate, t, BrpAt(q, k) * Ticks(k));
  }

  lemma OnePeriod(t: int, bitrate: int, clock: int)
    requires 1 < t && 0 < bitrate && clock == t * bitrate
    ensures clock > 0 && clock / (t * bitrate) == 1 && clock / t == bitrate
  {
    MulLe(bitrate, 1, t);
    DivIs(clock, t * bitrate, 1);
    DivIs(clock, t * bitrate, 2);
    DivIs(clock, t, bitrate);
    DivIs(clock, t, bitrate + 1);
    assert t * (bitrate + 1) == t * bitrate + t;
  }

  lemma OnePeriodATick(q: Query, k: int, t: nat)
    requires Exact(q) && q.clock == t * q.bitrate && 3 <= t <= q.btc.tseg2Max && k == 2 * (t - 1)
    ensures Visits(q.btc, k) && InRange(q, k) && BitrateErrorAt(q, k) == 0
  {
    assert Ticks(k) == t && k % 2 == 0;
    OnePeriod(t, q.bitrate, q.clock);
    BrpAtExact(q, k);
    TicksInRange(q.btc, k, BrpAt(q, k));
  }

  /** The search meets the rate, at a bit time of no more than `t` ticks. */
  lemma ResultIsNoLonger(q: Query, t: nat) returns (j: int)
    requires Exact(q) && q.clock == t * q.bitrate && 3 <= t <= q.btc.tseg2Max
    requires Feasible(q.btc, q.nominal, t - 1)
    ensures SearchResult(q).bitrateError == 0 && SearchResult(q).tseg == j / 2
    ensures Eligible(q, j) && BitrateErrorAt(q, j) == 0 && Ticks(j) <= t
  {
    var k: int := 2 * (t - 1);
    OnePeriodATick(q, k, t);
    j := SelectedWhenExact(q, k);
    NoLongerBitTime(q, j, t);
    TicksInRange(q.btc, j, BrpAt(q, j));
    MulLe(Ticks(j), 1, BrpAt(q, j));
  }

  lemma SelectedWhenExact(q: Query, k: int) returns (j: int)
    requires Exact(q) && Eligible(q, k) && BitrateErrorAt(q, k) == 0
    ensures SearchResult(q).bitrateError == 0 && SearchResult(q).tseg == j / 2
    ensures Eligible(q, j) && BitrateErrorAt(q, j) == 0
  {
    j := SearchIsOptimal(q);
    assert CandidateAt(q, j).bitrateError <= CandidateAt(q, k).bitrateError;
  }

  lemma NoLongerIsOvershot(btc: Limits, nominal: u32, tseg: u32)
    requires WellFormed(btc) && 2 <= tseg < btc.tseg2Max
    requires LeastOvershoot(btc) <= nominal && nominal * btc.tseg2Max < TWO_32
    ensures Feasible(btc, nominal, tseg) ==> !InLimits(btc, BestRounding(btc, nominal, tseg), tseg)
  {
    MulLe(nominal, tseg + SYNC_SEG, btc.tseg2Max);
    OvershootIsTaken(btc, nominal, tseg);
  }

  /** From `LeastOvershoot` on, whenever the clock has as many periods for each bit as segment 2 can have ticks, the
      search meets the bit rate with a wrapped segment; as long as no product wraps around. */
  lemma OvershootHappens(q: Query)
    requires Exact(q) && q.clock == q.btc.tseg2Max * q.bitrate && 3 <= q.btc.tseg2Max
    requires LeastOvershoot(q.btc) <= q.nominal && q.nominal * q.btc.tseg2Max < TWO_32
    ensures SearchResult(q).bitrateError == 0 && !TakenInLimits(q)
  {
    OvershootIsTaken(q.btc, q.nominal, q.btc.tseg2Max - 1);
    var j := ResultIsNoLonger(q, q.btc.tseg2Max);
    NoLongerIsOvershot(q.btc, q.nominal, SearchResult(q).tseg);
  }

  /** Three ticks of a prescaler of one are a faster rate than four. */
  lemma ThreeTicksAreTooFew(q: Query, j: int)
    requires Exact(q) && q.bitrate == 3 && 9 <= q.clock <= 12
    requires Visits(q.btc, j) && InRange(q, j) && BitrateErrorAt(q, j) == 0 && 3 * Ticks(j) <= q.clock
    ensures q.clock == 12 ==> Ticks(j) == 4
  {
    var brp: int := BrpAt(q, j);
    TicksInRange(q.btc, j, BrpAt(q, j));
    if q.clock == 12 && Ticks(j) == 3 {
      BrpAtExact(q, j);
    }
  }

  lemma ThreePeriodsATick(q: Query, tseg: u32)
    requires WellFormed(q.btc) && q.clock == 3 * (tseg + SYNC_SEG) && q.bitrate == 3
    requires 2 <= tseg <= 3 && tseg < q.btc.tseg2Max && Feasible(q.btc, q.nominal, tseg)
    ensures Exact(q) && SearchResult(q).bitrateError == 0 && SearchResult(q).tseg == tseg
  {
    var j := ResultIsNoLonger(q, tseg + SYNC_SEG);
    ThreeTicksAreTooFew(q, j);
  }

  /** Beyond, three or four periods for each bit do the same. */
  lemma WrappedOvershootHappens(btc: Limits, nominal: u32) returns (q: Query)
    requires WellFormed(btc) && 4 <= btc.tseg2Max && nominal * btc.tseg2Max >= TWO_32
    ensures q.btc == btc && q.nominal == nominal && Exact(q)
    ensures SearchResult(q).bitrateError == 0 && !TakenInLimits(q)
  {
    var tseg := WrappedIsTaken(btc, nominal);
    q := Query(3 * (tseg + SYNC_SEG), 3, nominal, btc);
    ThreePeriodsATick(q, tseg);
  }

  /** An 80 MHz clock, 625 kbit/s and 2007 per mille: 128 ticks, and no more than these fit a segment 2. */
  const OVERSHOT := Query(80000000, 625000, 2007, NOMINAL_LIMITS)

  lemma OvershotIsExact()
    ensures Exact(OVERSHOT)
  {
  }

  lemma OvershotBitTime(btc: Limits, nominal: u32, tseg: u32)
    requires btc == NOMINAL_LIMITS && nominal == 2007 && 2 <= tseg <= 384 && Feasible(btc, nominal, tseg)
    requires !InLimits(btc, BestRounding(btc, nominal, tseg), tseg)
    ensures tseg == 127 && BestRounding(btc, nominal, tseg).tseg1 == 256
    ensures BestRounding(btc, nominal, tseg).tseg2 == 4294967167
  {
    BestRoundingSplits(btc, nominal, tseg);
    RoundingOf(btc, nominal, tseg, BestIndex(btc, nominal, tseg));
    DivIs(257000, tseg + SYNC_SEG, 2008);
  }

  /** It gets the exact bit rate with a segment 2 of 127 - 256 ticks, modulo 2^32. */
  lemma OvershotIsTaken()
    ensures Exact(OVERSHOT) && SearchResult(OVERSHOT).bitrateError == 0 && SearchResult(OVERSHOT).tseg == 127
    ensures var tseg := SearchResult(OVERSHOT).tseg;
      && Feasible(OVERSHOT.btc, OVERSHOT.nominal, tseg)
      && BestRounding(OVERSHOT.btc, OVERSHOT.nominal, tseg).tseg1 == 256
      && BestRounding(OVERSHOT.btc, OVERSHOT.nominal, tseg).tseg2 == 4294967167
  {
    OvershotIsExact();
    OvershootHappens(OVERSHOT);
    AcceptedIsUsable(OVERSHOT);
    OvershotBitTime(OVERSHOT.btc, OVERSHOT.nominal, SearchResult(OVERSHOT).tseg);
  }

  lemma UnitRateIsExact(q: Query)
    requires WellFormed(q.btc) && q.clock == q.btc.tseg2Max && q.bitrate == 1
    ensures Exact(q)
  {
  }

  lemma SomeResultIsOut(btc: Limits, nominal: u32) returns (q: Query)
    requires WellFormed(btc) && (4 <= btc.tseg2Max || (btc.tseg2Max == 3 && nominal * btc.tseg2Max < TWO_32))
    requires LeastOvershoot(btc) <= nominal
    ensures q.btc == btc && q.nominal == nominal && Answerable(q) && !TakenInLimits(q)
  {
    if nominal * btc.tseg2Max < TWO_32 {
      q := Query(btc.tseg2Max, 1, nominal, btc);
      UnitRateIsExact(q);
      OvershootHappens(q);
    } else {
      q := WrappedOvershootHappens(btc, nominal);
    }
  }

  /** Main result on late sample points: every query's result is a split within the limits exactly when the nominal
      sample point is below `LeastOvershoot`. */
  lemma ResultsInLimitsIff(btc: Limits, nominal: u32)
    requires WellFormed(btc) && (4 <= btc.tseg2Max || (btc.tseg2Max == 3 && nominal * btc.tseg2Max < TWO_32))
    ensures (forall q: Query | q.btc == btc && q.nominal == nominal && Answerable(q) :: TakenInLimits(q))
            <==> nominal < LeastOvershoot(btc)
  {
    if nominal < LeastOvershoot(btc) {
      forall q: Query | q.btc == btc && q.nominal == nominal && Answerable(q)
        ensures TakenInLimits(q)
      {
        BelowOvershootIsInLimits(q);
      }
    } else {
      var q := SomeResultIsOut(btc, nominal);
    }
  }

  lemma BelowOvershootIsInLimits(q: Query)
    requires Answerable(q) && q.nominal < LeastOvershoot(q.btc)
    ensures TakenInLimits(q)
  {
    if SearchResult(q).bitrateError < UINT_MAX {
      AcceptedIsUsable(q);
      BestRoundingSplits(q.btc, q.nominal, SearchResult(q).tseg);
    }
  }
}
