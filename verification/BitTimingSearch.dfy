/** The search for a prescaler and a bit time: the loop of `ep1_cf02a_can_calc_bittiming`. */
module BitTimingSearch {
  import opened CInts
  import opened Nonlinear
  import opened BestCandidate
  import opened SamplePoint

  /** What the search is asked for. */
  datatype Query = Query(clock: u32, bitrate: u32, nominal: u32, btc: Limits)

  /** The loop counts `k` down from `First` to `Last`: bit time k / 2, prescaler rounded down or up. */
  function First(btc: Limits): int { (btc.tseg1Max + btc.tseg2Max) * 2 + 1 }

  function Last(btc: Limits): int { (btc.tseg1Min + btc.tseg2Min) * 2 }

  ghost predicate Visits(btc: Limits, k: int) { Last(btc) <= k <= First(btc) }

  /** Ticks of the bit time that index `k` stands for. */
  function Ticks(k: int): int { SYNC_SEG + k / 2 }

  /** Clock periods of one bit at the requested rate, in 32 bits. */
  function BitTicks(q: Query, k: int): u32 { ToU32(Ticks(k) * q.bitrate) }

  /** No divisor of the search is zero, after wrap-around. */
  ghost predicate Answerable(q: Query) {
    && WellFormed(q.btc)
    && q.clock != 0
    && forall k | Visits(q.btc, k) :: BitTicks(q, k) != 0
  }

  function BrpAt(q: Query, k: int): u32
    requires BitTicks(q, k) != 0 && q.btc.brpInc != 0
  {
    var brp := ToU32(DivU32(q.clock, BitTicks(q, k)) + k % 2);
    ToU32(DivU32(brp, q.btc.brpInc) * q.btc.brpInc)
  }

  predicate InRange(q: Query, k: int)
    requires BitTicks(q, k) != 0 && q.btc.brpInc != 0
  {
    q.btc.brpMin <= BrpAt(q, k) <= q.btc.brpMax
  }

  /** The bit rate of prescaler `brp` and `ticks` ticks a bit. */
  function ActualBitrate(clock: u32, brp: u32, ticks: int): u32
    requires ToU32(brp * ticks) != 0
  {
    DivU32(clock, ToU32(brp * ticks))
  }

  lemma TicksInRange(btc: Limits, k: int, brp: u32)
    requires WellFormed(btc) && Visits(btc, k) && 1 <= brp <= btc.brpMax
    ensures 3 <= Ticks(k) <= 385
    ensures 0 < brp * Ticks(k) < 1000000
    ensures ToU32(brp * Ticks(k)) == brp * Ticks(k)
  {
    MulLe(Ticks(k), brp, 1024);
    MulLe(Ticks(k), 1, brp);
  }

  function BitrateErrorAt(q: Query, k: int): u32
    requires Answerable(q) && Visits(q.btc, k) && InRange(q, k)
  {
    TicksInRange(q.btc, k, BrpAt(q, k));
    AbsDiff(q.bitrate, ActualBitrate(q.clock, BrpAt(q, k), Ticks(k)))
  }

  /** What the loop finds at index `k`. */
  function EntryAt(q: Query, k: int): Entry
    requires Answerable(q) && Visits(q.btc, k)
  {
    if !InRange(q, k) then Skipped
    else Visited(Candidate(BitrateErrorAt(q, k), SampleError(q.btc, q.nominal, k / 2), k / 2, BrpAt(q, k)))
  }

  /** All entries, in the order of the visit. */
  ghost function Entries(q: Query): seq<Entry>
    requires Answerable(q)
  {
    seq(First(q.btc) - Last(q.btc) + 1,
        i requires 0 <= i <= First(q.btc) - Last(q.btc) => EntryAt(q, First(q.btc) - i))
  }

  ghost function SearchResult(q: Query): Candidate
    requires Answerable(q)
  {
    Select(Entries(q), NOTHING)
  }

  lemma OneVisit(q: Query, k: int, best: Candidate)
    requires Answerable(q) && Visits(q.btc, k)
    ensures var i := First(q.btc) - k;
      Select(Entries(q)[i..], best) == Select(Entries(q)[i + 1..], Consider(EntryAt(q, k), best))
  {
    SelectNext(Entries(q), First(q.btc) - k, best);
  }

  /** The body of the loop; the segments are left behind for its caller. */
  method Visit(q: Query, k: int, before: Candidate, oldTseg1: u32, oldTseg2: u32)
    returns (best: Candidate, tseg1: u32, tseg2: u32, perfect: bool)
    requires Answerable(q) && Visits(q.btc, k)
    ensures best == Consider(EntryAt(q, k), before)
    ensures perfect ==> best.bitrateError == 0 && best.samplePointError == 0
  {
    best, tseg1, tseg2, perfect := before, oldTseg1, oldTseg2, false;
    var brp := BrpAt(q, k);
    if brp < q.btc.brpMin || brp > q.btc.brpMax {
      return;
    }
    TicksInRange(q.btc, k, brp);
    var bitrate := ActualBitrate(q.clock, brp, Ticks(k));
    var bitrateError := AbsDiff(q.bitrate, bitrate);
    if bitrateError > best.bitrateError {
      return;
    }
    if bitrateError < best.bitrateError {
      best := best.(samplePointError := UINT_MAX);
    }
    var samplePoint, samplePointError;
    samplePoint, tseg1, tseg2, samplePointError := UpdateSamplePoint(q.btc, q.nominal, k / 2, tseg1, tseg2);
    if samplePointError >= best.samplePointError {
      return;
    }
    best := Candidate(bitrateError, samplePointError, k / 2, brp);
    perfect := bitrateError == 0 && samplePointError == 0;
  }

  /** The loop. */
  method Search(q: Query) returns (best: Candidate, tseg1: u32, tseg2: u32)
    requires Answerable(q)
    ensures best == SearchResult(q)
  {
    best, tseg1, tseg2 := NOTHING, 0, 0;
    var k := First(q.btc);
    assert Entries(q)[0..] == Entries(q);
    while k >= Last(q.btc)
      invariant Last(q.btc) - 1 <= k <= First(q.btc)
      invariant Select(Entries(q)[First(q.btc) - k..], best) == SearchResult(q)
    {
      OneVisit(q, k, best);
      var perfect;
      best, tseg1, tseg2, perfect := Visit(q, k, best, tseg1, tseg2);
      if perfect {
        PerfectIsFinal(Entries(q)[First(q.btc) - k + 1..], best);
        break;
      }
      k := k - 1;
    }
  }

  // ------------------------------------------------------------------
  // Optimality.

  /** A candidate the driver could accept: prescaler in range, bit time splittable. */
  ghost predicate Eligible(q: Query, k: int)
    requires Answerable(q)
  {
    Visits(q.btc, k) && InRange(q, k) && Feasible(q.btc, q.nominal, k / 2)
  }

  ghost function CandidateAt(q: Query, k: int): Candidate
    requires Answerable(q) && Eligible(q, k)
  {
    EntryAt(q, k).c
  }

  /** `j` is the first eligible candidate that no eligible candidate beats. */
  ghost predicate Optimal(q: Query, j: int)
    requires Answerable(q)
  {
    && Eligible(q, j)
    && forall k | Eligible(q, k) ::
         && !Better(CandidateAt(q, k), CandidateAt(q, j))
         && (k > j ==> Better(CandidateAt(q, j), CandidateAt(q, k)))
  }

  /** No eligible candidate has a smaller bit-rate error than `j`. */
  ghost predicate NearestRate(q: Query, j: int)
    requires Answerable(q)
  {
    Eligible(q, j) && forall k | Eligible(q, k) :: CandidateAt(q, j).bitrateError <= CandidateAt(q, k).bitrateError
  }

  /** At `f` the search meets a better bit rate at a bit time that cannot be split, and thereby forgets `b`, although
      `b` has the nearest rate and no candidate with that rate that follows is better. */
  ghost predicate Forfeits(q: Query, b: int, f: int)
    requires Answerable(q)
  {
    && f < b && NearestRate(q, b)
    && Visits(q.btc, f) && InRange(q, f) && !Feasible(q.btc, q.nominal, f / 2)
    && BitrateErrorAt(q, f) < CandidateAt(q, b).bitrateError
    && (exists a | a < f :: NearestRate(q, a))
    && forall a | a < f && NearestRate(q, a) ::
         CandidateAt(q, b).samplePointError <= CandidateAt(q, a).samplePointError
  }

  lemma EntryMeaning(q: Query, k: int)
    requires Answerable(q) && Visits(q.btc, k)
    ensures EntryAt(q, k).Visited? ==>
      (Usable(EntryAt(q, k)) <==> Feasible(q.btc, q.nominal, k / 2)) && EntryAt(q, k).c.bitrateError < UINT_MAX
    ensures Usable(EntryAt(q, k)) <==> Eligible(q, k)
    ensures Entries(q)[First(q.btc) - k] == EntryAt(q, k)
  {
  }

  lemma EntriesAreFinite(q: Query)
    requires Answerable(q)
    ensures Finite(Entries(q))
  {
    var es := Entries(q);
    forall i | 0 <= i < |es| && es[i].Visited?
      ensures es[i].c.bitrateError < UINT_MAX
    {
      EntryMeaning(q, First(q.btc) - i);
    }
  }

  lemma EntriesAreConvex(q: Query)
    requires Answerable(q) && OneStretch(q.btc, q.nominal)
    ensures Convex(Entries(q))
  {
    var lo, hi := FeasibleBounds(q.btc, q.nominal);
    var es := Entries(q);
    forall i | 0 <= i < |es| && es[i].Visited?
      ensures Usable(es[i]) <==> lo <= (First(q.btc) - i) / 2 <= hi
    {
      EntryMeaning(q, First(q.btc) - i);
    }
    ConvexByBounds(es, First(q.btc), lo, hi);
  }

  lemma EligibleEntries(q: Query)
    requires Answerable(q)
    ensures forall k | Eligible(q, k) ::
              Usable(Entries(q)[First(q.btc) - k]) && Entries(q)[First(q.btc) - k].c == CandidateAt(q, k)
  {
    forall k | Eligible(q, k)
      ensures Usable(Entries(q)[First(q.btc) - k]) && Entries(q)[First(q.btc) - k].c == CandidateAt(q, k)
    {
      EntryMeaning(q, k);
    }
  }

  lemma UsableEntries(q: Query)
    requires Answerable(q)
    ensures forall i | 0 <= i < |Entries(q)| && Usable(Entries(q)[i]) ::
              Eligible(q, First(q.btc) - i) && Entries(q)[i].c == CandidateAt(q, First(q.btc) - i)
  {
    forall i | 0 <= i < |Entries(q)| && Usable(Entries(q)[i])
      ensures Eligible(q, First(q.btc) - i) && Entries(q)[i].c == CandidateAt(q, First(q.btc) - i)
    {
      EntryMeaning(q, First(q.btc) - i);
    }
  }

  lemma NearestRateMeaning(q: Query, j: int)
    requires Answerable(q) && Visits(q.btc, j)
    ensures LeastRate(Entries(q), First(q.btc) - j) <==> NearestRate(q, j)
    ensures NearestRate(q, j) ==> CandidateAt(q, j) == Entries(q)[First(q.btc) - j].c
  {
    var es, n := Entries(q), First(q.btc);
    EntryMeaning(q, j);
    EligibleEntries(q);
    UsableEntries(q);
  }

  lemma LeastMeaning(q: Query, j: int)
    requires Answerable(q) && Visits(q.btc, j)
    ensures LeastAt(Entries(q), First(q.btc) - j) <==> Optimal(q, j)
  {
    var es, n := Entries(q), First(q.btc);
    EntryMeaning(q, j);
    EligibleEntries(q);
    UsableEntries(q);
  }

  lemma NoneBetterAfter(q: Query, b: int, f: int)
    requires Answerable(q) && LosesAt(Entries(q), b, f)
    ensures forall k | k < First(q.btc) - f && NearestRate(q, k) ::
              Entries(q)[b].c.samplePointError <= CandidateAt(q, k).samplePointError
  {
    forall k | k < First(q.btc) - f && NearestRate(q, k)
      ensures Entries(q)[b].c.samplePointError <= CandidateAt(q, k).samplePointError
    {
      NearestRateMeaning(q, k);
    }
  }

  lemma NoEntryBetterAfter(q: Query, b: int, f: int)
    requires Answerable(q) && Forfeits(q, b, f)
    ensures forall i | First(q.btc) - f < i < |Entries(q)| && LeastRate(Entries(q), i) ::
              CandidateAt(q, b).samplePointError <= Entries(q)[i].c.samplePointError
  {
    forall i | First(q.btc) - f < i < |Entries(q)| && LeastRate(Entries(q), i)
      ensures CandidateAt(q, b).samplePointError <= Entries(q)[i].c.samplePointError
    {
      NearestRateMeaning(q, First(q.btc) - i);
    }
  }

  lemma ForfeitIsLoss(q: Query, b: int, f: int)
    requires Answerable(q) && Forfeits(q, b, f)
    ensures LosesAt(Entries(q), First(q.btc) - b, First(q.btc) - f)
  {
    NearestRateMeaning(q, b);
    EntryMeaning(q, f);
    var a :| a < f && NearestRate(q, a);
    NearestRateMeaning(q, a);
    NoEntryBetterAfter(q, b, f);
  }

  lemma LossIsForfeit(q: Query, b: int, f: int)
    requires Answerable(q) && LosesAt(Entries(q), b, f)
    ensures Forfeits(q, First(q.btc) - b, First(q.btc) - f)
  {
    var n := First(q.btc);
    NearestRateMeaning(q, n - b);
    EntryMeaning(q, n - f);
    var a :| f < a < |Entries(q)| && LeastRate(Entries(q), a);
    NearestRateMeaning(q, n - a);
    NoneBetterAfter(q, b, f);
  }

  lemma ForfeitsComeBefore(q: Query, i: int)
    requires Answerable(q)
    requires forall b, f | LosesAt(Entries(q), b, f) :: f < i
    ensures forall b, f | Forfeits(q, b, f) :: First(q.btc) - i < f
  {
    forall b, f | Forfeits(q, b, f)
      ensures First(q.btc) - i < f
    {
      ForfeitIsLoss(q, b, f);
    }
  }

  lemma SomeForfeitIffSomeLoss(q: Query)
    requires Answerable(q)
    ensures (exists b, f :: LosesAt(Entries(q), b, f)) <==> (exists b, f :: Forfeits(q, b, f))
  {
    if exists b, f :: LosesAt(Entries(q), b, f) {
      var b, f :| LosesAt(Entries(q), b, f);
      LossIsForfeit(q, b, f);
    }
    if exists b, f :: Forfeits(q, b, f) {
      var b, f :| Forfeits(q, b, f);
      ForfeitIsLoss(q, b, f);
    }
  }

  lemma NothingUsable(q: Query)
    requires Answerable(q)
    requires forall i | 0 <= i < |Entries(q)| :: !Usable(Entries(q)[i])
    ensures forall k :: !Eligible(q, k)
  {
    forall k | Visits(q.btc, k)
      ensures !Eligible(q, k)
    {
      EntryMeaning(q, k);
    }
  }

  /** Main result: for every nominal sample point the search selects a candidate of the nearest bit rate; it selects
      the first candidate that no other beats if and only if it forfeits none. */
  lemma SearchIsOptimal(q: Query) returns (j: int)
    requires Answerable(q)
    ensures SearchResult(q).bitrateError == UINT_MAX <==> forall k :: !Eligible(q, k)
    ensures SearchResult(q).bitrateError < UINT_MAX ==>
      && NearestRate(q, j)
      && SearchResult(q).(samplePointError := CandidateAt(q, j).samplePointError) == CandidateAt(q, j)
      && (Optimal(q, j) <==> !exists b, f :: Forfeits(q, b, f))
      && forall b, f | Forfeits(q, b, f) :: j < f
  {
    EntriesAreFinite(q);
    var es, n := Entries(q), First(q.btc);
    var i := SelectFindsLeast(es);
    j := n - i;
    if SearchResult(q) == NOTHING {
      NothingUsable(q);
    } else {
      NearestRateMeaning(q, j);
      LeastMeaning(q, j);
      ForfeitsComeBefore(q, i);
      SomeForfeitIffSomeLoss(q);
    }
  }

  lemma SelectedIsNearest(q: Query) returns (j: int)
    requires Answerable(q) && SearchResult(q).bitrateError < UINT_MAX
    ensures NearestRate(q, j)
    ensures var best := SearchResult(q);
      best.bitrateError == BitrateErrorAt(q, j) && best.tseg == j / 2 && best.brp == BrpAt(q, j)
  {
    j := SearchIsOptimal(q);
  }

  /** What was accepted is always an in-range candidate with a usable rounding, for any sample point. */
  lemma AcceptedIsUsable(q: Query)
    requires Answerable(q) && SearchResult(q).bitrateError < UINT_MAX
    ensures var best := SearchResult(q);
      && 2 <= best.tseg <= q.btc.tseg1Max + q.btc.tseg2Max
      && Feasible(q.btc, q.nominal, best.tseg)
      && q.btc.brpMin <= best.brp <= q.btc.brpMax
  {
    var j := SearchIsOptimal(q);
  }

  /** Nothing is forfeited when the bit times that can be split form one stretch. */
  lemma OneStretchForfeitsNothing(q: Query)
    requires Answerable(q) && OneStretch(q.btc, q.nominal)
    ensures !exists b, f :: Forfeits(q, b, f)
  {
    EntriesAreConvex(q);
    ConvexLosesNothing(Entries(q));
    SomeForfeitIffSomeLoss(q);
  }

  // ------------------------------------------------------------------
  // Floor and floor plus one are the only prescalers worth trying.

  /** The inputs for which the 32-bit arithmetic of the search is exact. */
  ghost predicate Exact(q: Query): (exact: bool)
    ensures exact ==> Answerable(q)
  {
    && WellFormed(q.btc)
    && 0 < q.clock < 0x8000_0000 && 0 < q.bitrate
    && (SYNC_SEG + q.btc.tseg1Max + q.btc.tseg2Max) * q.bitrate < TWO_32
    && (FitsIsAnswerable(q); true)
  }

  lemma FitsBitTicks(q: Query, k: int)
    requires WellFormed(q.btc) && 0 < q.bitrate && Visits(q.btc, k)
    requires (SYNC_SEG + q.btc.tseg1Max + q.btc.tseg2Max) * q.bitrate < TWO_32
    ensures 0 < BitTicks(q, k) == Ticks(k) * q.bitrate
    ensures q.bitrate < 0x4000_0000
  {
    MulLe(q.bitrate, Ticks(k), SYNC_SEG + q.btc.tseg1Max + q.btc.tseg2Max);
    MulLe(q.bitrate, 4, SYNC_SEG + q.btc.tseg1Max + q.btc.tseg2Max);
    MulLe(q.bitrate, 3, Ticks(k));
  }

  lemma FitsIsAnswerable(q: Query)
    requires WellFormed(q.btc) && 0 < q.clock && 0 < q.bitrate
    requires (SYNC_SEG + q.btc.tseg1Max + q.btc.tseg2Max) * q.bitrate < TWO_32
    ensures Answerable(q)
  {
    forall k | Visits(q.btc, k)
      ensures BitTicks(q, k) != 0
    {
      FitsBitTicks(q, k);
    }
  }

  lemma ExactBitTicks(q: Query, k: int)
    requires Exact(q) && Visits(q.btc, k)
    ensures 0 < BitTicks(q, k) == Ticks(k) * q.bitrate
    ensures q.bitrate < 0x4000_0000
  {
    FitsBitTicks(q, k);
  }

  /** Prescalers up to the quotient are too fast, larger ones too slow. */
  lemma PrescalerOrder(clock: int, t: int, bitrate: int, b: int)
    requires 0 < clock && 0 < t && 0 < bitrate && 0 < b
    ensures 0 < b * t && 0 < t * bitrate
    ensures b <= clock / (t * bitrate) <==> bitrate <= clock / (b * t)
  {
    MulLe(t, 1, b);
    MulLe(t, 1, bitrate);
    DivIs(clock, t * bitrate, b);
    DivIs(clock, b * t, bitrate);
    assert b * (t * bitrate) == bitrate * (b * t);
  }

  lemma FasterWithSmaller(clock: int, t: int, a: int, b: int)
    requires 0 < clock && 0 < t && 0 < a <= b
    ensures 0 < a * t <= b * t
    ensures clock / (b * t) <= clock / (a * t) <= clock
  {
    MulLe(t, a, b);
    MulLe(t, 1, a);
    DivAntitone(clock, a * t, b * t);
  }

  /** Floor (even `k`) and floor plus one (odd `k`), exactly. */
  lemma BrpAtExact(q: Query, k: int)
    requires Exact(q) && Visits(q.btc, k)
    ensures BitTicks(q, k) != 0
    ensures BrpAt(q, k) == q.clock / (Ticks(k) * q.bitrate) + k % 2
  {
    ExactBitTicks(q, k);
    DivAntitone(q.clock, 1, BitTicks(q, k));
  }

  /** Of two rates on the same side of the request, the nearer has the smaller error. */
  lemma NearerRate(bitrate: u32, near: u32, far: u32)
    requires bitrate < 0x4000_0000 && near < 0x8000_0000 && far < 0x8000_0000
    requires bitrate <= near <= far || far <= near < bitrate
    ensures AbsDiff(bitrate, near) <= AbsDiff(bitrate, far)
  {
  }

  /** On either side of the quotient, the prescaler nearer to it is at least as good. */
  lemma NearerIsAsGood(clock: int, t: int, bitrate: int, brp: int, b: int)
    requires 0 < clock && 0 < t && 0 < bitrate && 0 < brp && 0 < b
    requires 0 < t * bitrate && 0 < b * t && 0 < brp * t
    requires b <= brp <= clock / (t * bitrate) || clock / (t * bitrate) < brp <= b
    ensures var near, far := clock / (brp * t), clock / (b * t);
      && 0 <= near <= clock && 0 <= far <= clock
      && (bitrate <= near <= far || far <= near < bitrate)
  {
    PrescalerOrder(clock, t, bitrate, b);
    PrescalerOrder(clock, t, bitrate, brp);
    if b <= brp {
      FasterWithSmaller(clock, t, b, brp);
    } else {
      FasterWithSmaller(clock, t, brp, b);
    }
  }

  /** Whatever in-range prescaler one takes, the rounded quotient on its side is at least as good. */
  lemma RoundedQuotientIsAsGood(q: Query, t: int, b: u32) returns (k: int)
    requires Exact(q)
    requires 3 <= t <= SYNC_SEG + q.btc.tseg1Max + q.btc.tseg2Max
    requires q.btc.brpMin <= b <= q.btc.brpMax
    requires q.clock / (t * q.bitrate) <= q.btc.brpMax
    ensures Visits(q.btc, k) && InRange(q, k) && Ticks(k) == t
    ensures ToU32(b * t) != 0
    ensures BitrateErrorAt(q, k) <= AbsDiff(q.bitrate, ActualBitrate(q.clock, b, t))
  {
    var quotient := q.clock / (t * q.bitrate);
    k := 2 * (t - 1) + if b <= quotient then 0 else 1;
    assert Ticks(k) == t && k % 2 == if b <= quotient then 0 else 1;
    ExactBitTicks(q, k);
    BrpAtExact(q, k);
    var brp := BrpAt(q, k);
    TicksInRange(q.btc, k, b);
    TicksInRange(q.btc, k, brp);
    NearerIsAsGood(q.clock, t, q.bitrate, brp, b);
    NearerRate(q.bitrate, q.clock / (brp * t), q.clock / (b * t));
  }

  /** Main result: no prescaler gives a smaller bit-rate error, at any splittable bit time within reach. */
  lemma NoPrescalerIsBetter(q: Query, t: int, b: u32)
    requires Exact(q)
    requires 3 <= t <= SYNC_SEG + q.btc.tseg1Max + q.btc.tseg2Max
    requires Feasible(q.btc, q.nominal, t - SYNC_SEG)
    requires q.btc.brpMin <= b <= q.btc.brpMax
    requires q.clock / (t * q.bitrate) <= q.btc.brpMax
    ensures ToU32(b * t) != 0
    ensures SearchResult(q).bitrateError <= AbsDiff(q.bitrate, ActualBitrate(q.clock, b, t))
  {
    var k := RoundedQuotientIsAsGood(q, t, b);
    var j := SearchIsOptimal(q);
    assert Eligible(q, k);
  }
}
