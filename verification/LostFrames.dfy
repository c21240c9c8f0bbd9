/** The download tool's check for lost frames: every CAN id counts up, and a gap is a loss. */
module LostFrames {
  import opened CInts

  const MAX_CAN_IDS: nat := 256
  const UINT64_MAX: u64 := 0xFFFF_FFFF_FFFF_FFFF

  datatype Frame = Frame(canId: u32, len: int, data: u64)

  datatype Tracker = Tracker(canId: u32, lastData: u64, hasData: bool)

  /** `can_trackers`, and the totals that `total_lost_frames` and `total_error_frames` keep modulo 2^64. */
  datatype Book = Book(trackers: seq<Tracker>, lost: nat, errors: nat)

  function IndexOf(ts: seq<Tracker>, id: u32): (k: nat)
    ensures k <= |ts|
    ensures k < |ts| ==> ts[k].canId == id
    ensures forall i | 0 <= i < k :: ts[i].canId != id
  {
    if ts == [] then 0 else if ts[0].canId == id then 0 else 1 + IndexOf(ts[1..], id)
  }

  /** The trackers after looking for `id`, which is added while there is room. */
  function WithTracker(ts: seq<Tracker>, id: u32): seq<Tracker> {
    if IndexOf(ts, id) < |ts| || |ts| >= MAX_CAN_IDS then ts else ts + [Tracker(id, 0, false)]
  }

  /** `last_data + 1` of a `uint64_t`. */
  function Next(t: Tracker): u64 { ToU64(t.lastData + 1) }

  function LostBy(t: Tracker, data: u64): u64 {
    var x: int := data;
    if t.hasData && data > Next(t) then ToU64(x - t.lastData - 1) else 0
  }

  function Advance(t: Tracker, data: u64): Tracker {
    if t.hasData && data < Next(t) then t else t.(lastData := data, hasData := true)
  }

  /** What a frame changes once its tracker, at index `k`, was looked for. */
  function Enter(b: Book, k: nat, f: Frame): Book {
    var ts := b.trackers;
    var errors := b.errors + (if k < |ts| then 0 else 1) + if f.len != 8 then 1 else 0;
    if k < |ts| && f.len == 8 then Book(ts[k := Advance(ts[k], f.data)], b.lost + LostBy(ts[k], f.data), errors)
    else b.(errors := errors)
  }

  function Record(b: Book, f: Frame): Book {
    Enter(b.(trackers := WithTracker(b.trackers, f.canId)), IndexOf(b.trackers, f.canId), f)
  }

  function RecordAll(frames: seq<Frame>): Book {
    if frames == [] then Book([], 0, 0)
    else Record(RecordAll(frames[..|frames| - 1]), frames[|frames| - 1])
  }

  // ------------------------------------------------------------------
  // What the frames say, one id at a time.

  /** The counters received for an id. */
  function Seen(frames: seq<Frame>, id: u32): seq<u64> {
    if frames == [] then []
    else
      var f := frames[|frames| - 1];
      Seen(frames[..|frames| - 1], id) + if f.canId == id && f.len == 8 then [f.data] else []
  }

  function Max(xs: seq<u64>): u64
    requires xs != []
  {
    var x := xs[|xs| - 1];
    if |xs| == 1 then x else var m := Max(xs[..|xs| - 1]); if x > m then x else m
  }

  /** How often a counter after the first was larger than all before it. */
  function Advances(xs: seq<u64>): nat {
    if |xs| <= 1 then 0
    else
      var init := xs[..|xs| - 1];
      Advances(init) + if xs[|xs| - 1] > Max(init) then 1 else 0
  }

  /** Counters between the first and the largest, less those that arrived in turn. */
  function Missing(xs: seq<u64>): int {
    if xs == [] then 0
    else
      var last: int, first: int := Max(xs), xs[0];
      last - first - Advances(xs)
  }

  function TotalMissing(frames: seq<Frame>, ts: seq<Tracker>): int {
    if ts == [] then 0
    else TotalMissing(frames, ts[..|ts| - 1]) + Missing(Seen(frames, ts[|ts| - 1].canId))
  }

  /** The largest counter since the last `UINT64_MAX`, after which the next one is 0. */
  function Level(xs: seq<u64>): (level: int)
    ensures -1 <= level < UINT64_MAX
  {
    if xs == [] then -1
    else
      var x, before := xs[|xs| - 1], Level(xs[..|xs| - 1]);
      if x == UINT64_MAX then -1 else if x > before then x else before
  }

  /** What the code takes for lost when `x` follows `xs`. */
  function Loss(xs: seq<u64>, x: u64): nat {
    var next: int := x;
    if xs == [] || next <= Level(xs) then 0 else next - Level(xs) - 1
  }

  /** What is counted as lost after a `UINT64_MAX`, although counters that large came before. */
  function Overcount(xs: seq<u64>): nat {
    if xs == [] then 0
    else
      var init, x := xs[..|xs| - 1], xs[|xs| - 1];
      Overcount(init) + if UINT64_MAX in init then Loss(init, x) else 0
  }

  /** After a `UINT64_MAX` no counter is more than one above the largest since then, counting up from 0. */
  predicate CountsUpAgain(xs: seq<u64>) {
    forall i | 0 <= i < |xs| :: GoesUp(xs[..i], xs[i])
  }

  predicate GoesUp(xs: seq<u64>, x: u64) {
    UINT64_MAX in xs ==> x as int <= Level(xs) + 1
  }

  predicate AllCountUpAgain(frames: seq<Frame>, ts: seq<Tracker>) {
    forall i | 0 <= i < |ts| :: CountsUpAgain(Seen(frames, ts[i].canId))
  }

  function Reported(xs: seq<u64>): int { Missing(xs) + Overcount(xs) }

  function TotalReported(frames: seq<Frame>, ts: seq<Tracker>): int {
    if ts == [] then 0
    else TotalReported(frames, ts[..|ts| - 1]) + Reported(Seen(frames, ts[|ts| - 1].canId))
  }

  predicate Tracked(ts: seq<Tracker>, id: u32) {
    exists i :: 0 <= i < |ts| && ts[i].canId == id
  }

  /** Frames without eight bytes, and frames of ids without a tracker. */
  function Errors(frames: seq<Frame>, ts: seq<Tracker>): nat {
    if frames == [] then 0
    else
      var f := frames[|frames| - 1];
      Errors(frames[..|frames| - 1], ts) + (if f.len != 8 then 1 else 0) + if Tracked(ts, f.canId) then 0 else 1
  }

  predicate Distinct(ts: seq<Tracker>) {
    forall i, j | 0 <= i < j < |ts| :: ts[i].canId != ts[j].canId
  }

  /** Every tracker says what was seen of its id. */
  predicate Current(frames: seq<Frame>, ts: seq<Tracker>) {
    forall i | 0 <= i < |ts| ::
      var xs := Seen(frames, ts[i].canId);
      (ts[i].hasData <==> xs != []) && (xs != [] ==> ts[i].lastData == ToU64(Level(xs)))
  }

  /** While there is room every id has a tracker. */
  predicate Complete(frames: seq<Frame>, ts: seq<Tracker>) {
    |ts| < 256 ==> forall f | f in frames :: Tracked(ts, f.canId)
  }

  predicate Accounted(frames: seq<Frame>, b: Book) {
    && |b.trackers| <= 256 && Distinct(b.trackers)
    && Current(frames, b.trackers) && Complete(frames, b.trackers)
    && b.lost == TotalReported(frames, b.trackers)
    && b.errors == Errors(frames, b.trackers)
  }

  // ------------------------------------------------------------------
  // One frame more.

  function Gap(xs: seq<u64>, x: u64): int {
    if xs == [] then 0
    else
      var last: int, next: int := Max(xs), x;
      if next > last then next - last - 1 else 0
  }

  lemma MissingGrows(xs: seq<u64>, x: u64)
    ensures Missing(xs + [x]) == Missing(xs) + Gap(xs, x)
  {
    assert (xs + [x])[..|xs|] == xs;
  }

  lemma SeenGrows(frames: seq<Frame>, f: Frame, id: u32)
    ensures Seen(frames + [f], id) == Seen(frames, id) + if f.canId == id && f.len == 8 then [f.data] else []
  {
    assert (frames + [f])[..|frames|] == frames;
  }

  lemma {:induction false} MaxIsSeen(xs: seq<u64>)
    requires xs != []
    ensures Max(xs) in xs && forall x | x in xs :: x <= Max(xs)
  {
    if |xs| > 1 {
      MaxIsSeen(xs[..|xs| - 1]);
      assert xs == xs[..|xs| - 1] + [xs[|xs| - 1]];
    }
  }

  lemma {:induction false} LevelIsMax(xs: seq<u64>)
    requires xs != [] && UINT64_MAX !in xs
    ensures Level(xs) == Max(xs)
  {
    if |xs| > 1 {
      LevelIsMax(xs[..|xs| - 1]);
    }
  }

  /** One counter more: what is missing grows by the gap, and what is reported by what the code takes for lost. */
  lemma ReportedGrows(xs: seq<u64>, x: u64)
    ensures Reported(xs + [x]) == Reported(xs) + Loss(xs, x)
  {
    assert (xs + [x])[..|xs|] == xs;
    MissingGrows(xs, x);
    if xs != [] {
      MaxIsSeen(xs);
      if UINT64_MAX !in xs {
        LevelIsMax(xs);
      }
    }
  }

  lemma LevelGrows(xs: seq<u64>, x: u64)
    ensures Level(xs + [x]) == if x == UINT64_MAX then -1 else if x as int > Level(xs) then x else Level(xs)
  {
    assert (xs + [x])[..|xs|] == xs;
  }

  lemma WrappedLevel(level: int)
    requires -1 <= level < UINT64_MAX
    ensures ToU64(level) == if level == -1 then UINT64_MAX else level
    ensures ToU64(ToU64(level) + 1) == level + 1
  {
  }

  lemma WrappedLoss(x: u64, level: int)
    requires -1 <= level < x
    ensures ToU64(x - ToU64(level) - 1) == x - level - 1
  {
  }

  /** What the code does with one counter is what the history says. */
  lemma TrackerFollows(t: Tracker, xs: seq<u64>, x: u64)
    requires (t.hasData <==> xs != []) && (xs != [] ==> t.lastData == ToU64(Level(xs)))
    ensures LostBy(t, x) == Loss(xs, x)
    ensures var t' := Advance(t, x);
      t'.hasData && t'.lastData == ToU64(Level(xs + [x])) && t'.canId == t.canId
  {
    LevelGrows(xs, x);
    WrappedLevel(Level(xs));
    WrappedLevel(Level(xs + [x]));
    if Level(xs) < x as int {
      WrappedLoss(x, Level(xs));
    }
  }

  lemma {:induction false} TotalGrows(frames: seq<Frame>, f: Frame, ts: seq<Tracker>, k: nat)
    requires Distinct(ts) && k <= |ts| && (k < |ts| ==> ts[k].canId == f.canId)
    requires forall i | 0 <= i < |ts| && i != k :: ts[i].canId != f.canId
    ensures TotalReported(frames + [f], ts)
            == TotalReported(frames, ts) + if k < |ts| && f.len == 8 then Loss(Seen(frames, f.canId), f.data) else 0
    decreases |ts|
  {
    if ts != [] {
      var last := |ts| - 1;
      var xs := Seen(frames, ts[last].canId);
      TotalGrows(frames, f, ts[..last], if k < last then k else last);
      SeenGrows(frames, f, ts[last].canId);
      if k == last && f.len == 8 {
        ReportedGrows(xs, f.data);
      } else {
        assert xs + [] == xs;
      }
    }
  }

  predicate SameIds(ts: seq<Tracker>, us: seq<Tracker>) {
    |ts| == |us| && forall i | 0 <= i < |ts| :: ts[i].canId == us[i].canId
  }

  lemma {:induction false} TotalNeedsIds(frames: seq<Frame>, ts: seq<Tracker>, us: seq<Tracker>)
    requires SameIds(ts, us)
    ensures TotalReported(frames, ts) == TotalReported(frames, us)
    decreases |ts|
  {
    if ts != [] {
      TotalNeedsIds(frames, ts[..|ts| - 1], us[..|us| - 1]);
    }
  }

  lemma {:induction false} ErrorsNeedIds(frames: seq<Frame>, ts: seq<Tracker>, us: seq<Tracker>)
    requires forall f | f in frames :: Tracked(ts, f.canId) <==> Tracked(us, f.canId)
    ensures Errors(frames, ts) == Errors(frames, us)
  {
    if frames != [] {
      ErrorsNeedIds(frames[..|frames| - 1], ts, us);
    }
  }

  lemma {:induction false} UnseenWithoutTracker(frames: seq<Frame>, ts: seq<Tracker>, id: u32)
    requires forall f | f in frames :: Tracked(ts, f.canId)
    requires !Tracked(ts, id)
    ensures Seen(frames, id) == []
  {
    if frames != [] {
      UnseenWithoutTracker(frames[..|frames| - 1], ts, id);
      assert frames[|frames| - 1] in frames;
    }
  }

  lemma TrackedIff(ts: seq<Tracker>, id: u32)
    ensures Tracked(ts, id) <==> IndexOf(ts, id) < |ts|
  {
    if IndexOf(ts, id) < |ts| {
      assert ts[IndexOf(ts, id)].canId == id;
    }
  }

  /** Looking for the tracker of the next frame keeps the books right. */
  lemma TrackerAdded(frames: seq<Frame>, b: Book, id: u32)
    requires Accounted(frames, b)
    ensures Accounted(frames, b.(trackers := WithTracker(b.trackers, id)))
    ensures IndexOf(b.trackers, id) < |WithTracker(b.trackers, id)| <==> Tracked(WithTracker(b.trackers, id), id)
  {
    var ts := b.trackers;
    var k := IndexOf(ts, id);
    TrackedIff(ts, id);
    if k == |ts| && |ts| < 256 {
      var us := ts + [Tracker(id, 0, false)];
      assert us[|ts|].canId == id;
      forall x: u32 | Tracked(ts, x)
        ensures Tracked(us, x)
      {
        var i :| 0 <= i < |ts| && ts[i].canId == x;
        assert us[i].canId == x;
      }
      UnseenWithoutTracker(frames, ts, id);
      ErrorsNeedIds(frames, ts, us);
      assert us[..|ts|] == ts;
    }
  }

  /** The tracker of a frame with a counter, and what the frame adds to the loss. */
  lemma CountedTracker(frames: seq<Frame>, t: Tracker, f: Frame)
    requires t.canId == f.canId && f.len == 8
    requires var xs := Seen(frames, t.canId); (t.hasData <==> xs != []) && (xs != [] ==> t.lastData == ToU64(Level(xs)))
    ensures LostBy(t, f.data) == Loss(Seen(frames, f.canId), f.data)
    ensures var t', xs := Advance(t, f.data), Seen(frames + [f], f.canId);
      t'.canId == t.canId && t'.hasData && xs != [] && t'.lastData == ToU64(Level(xs))
  {
    var xs := Seen(frames, f.canId);
    SeenGrows(frames, f, f.canId);
    TrackerFollows(t, xs, f.data);
  }

  lemma OthersStayCurrent(frames: seq<Frame>, ts: seq<Tracker>, f: Frame, i: nat)
    requires Current(frames, ts) && i < |ts| && (ts[i].canId != f.canId || f.len != 8)
    ensures Seen(frames + [f], ts[i].canId) == Seen(frames, ts[i].canId)
  {
    SeenGrows(frames, f, ts[i].canId);
  }

  lemma CountedIsCurrent(frames: seq<Frame>, ts: seq<Tracker>, f: Frame, k: nat)
    requires Distinct(ts) && Current(frames, ts) && f.len == 8
    requires k < |ts| && ts[k].canId == f.canId
    ensures Current(frames + [f], ts[k := Advance(ts[k], f.data)])
  {
    var us := ts[k := Advance(ts[k], f.data)];
    CountedTracker(frames, ts[k], f);
    forall i | 0 <= i < |us|
      ensures var xs := Seen(frames + [f], us[i].canId);
        (us[i].hasData <==> xs != []) && (xs != [] ==> us[i].lastData == ToU64(Level(xs)))
    {
      if i != k {
        OthersStayCurrent(frames, ts, f, i);
      }
    }
  }

  /** What a frame with a counter adds to the total. */
  lemma CountedLoss(frames: seq<Frame>, ts: seq<Tracker>, f: Frame, k: nat)
    requires Distinct(ts) && Current(frames, ts) && f.len == 8
    requires k < |ts| && ts[k].canId == f.canId
    ensures TotalReported(frames + [f], ts[k := Advance(ts[k], f.data)])
         == TotalReported(frames, ts) + LostBy(ts[k], f.data)
  {
    CountedTracker(frames, ts[k], f);
    TotalGrows(frames, f, ts, k);
    TotalNeedsIds(frames + [f], ts, ts[k := Advance(ts[k], f.data)]);
  }

  lemma SameIdsSameTracked(ts: seq<Tracker>, us: seq<Tracker>)
    requires SameIds(ts, us)
    ensures forall id: u32 :: Tracked(ts, id) <==> Tracked(us, id)
  {
    forall id: u32
      ensures Tracked(ts, id) <==> Tracked(us, id)
    {
      TrackedIff(ts, id);
      TrackedIff(us, id);
      if Tracked(ts, id) {
        assert us[IndexOf(ts, id)].canId == id;
      }
      if Tracked(us, id) {
        assert ts[IndexOf(us, id)].canId == id;
      }
    }
  }

  /** A frame that is not counted. */
  lemma UncountedFrame(frames: seq<Frame>, ts: seq<Tracker>, f: Frame, k: nat)
    requires Distinct(ts) && Current(frames, ts)
    requires k <= |ts| && (k < |ts| ==> ts[k].canId == f.canId && f.len != 8)
    requires forall i | 0 <= i < |ts| && i != k :: ts[i].canId != f.canId
    ensures Current(frames + [f], ts)
    ensures TotalReported(frames + [f], ts) == TotalReported(frames, ts)
  {
    TotalGrows(frames, f, ts, k);
    forall i | 0 <= i < |ts|
      ensures Seen(frames + [f], ts[i].canId) == Seen(frames, ts[i].canId)
    {
      OthersStayCurrent(frames, ts, f, i);
    }
  }

  lemma ErrorsGrow(frames: seq<Frame>, f: Frame, ts: seq<Tracker>, us: seq<Tracker>)
    requires forall id: u32 :: Tracked(ts, id) <==> Tracked(us, id)
    ensures Errors(frames + [f], us)
         == Errors(frames, ts) + (if f.len != 8 then 1 else 0) + if Tracked(ts, f.canId) then 0 else 1
  {
    assert (frames + [f])[..|frames|] == frames;
    ErrorsNeedIds(frames, ts, us);
  }

  lemma CountedKeepsAccounted(frames: seq<Frame>, b: Book, f: Frame, k: nat)
    requires Accounted(frames, b) && f.len == 8
    requires k < |b.trackers| && b.trackers[k].canId == f.canId
    ensures var ts := b.trackers[k := Advance(b.trackers[k], f.data)];
      Accounted(frames + [f], Book(ts, b.lost + LostBy(b.trackers[k], f.data), b.errors))
  {
    var ts, us := b.trackers, b.trackers[k := Advance(b.trackers[k], f.data)];
    CountedIsCurrent(frames, ts, f, k);
    CountedLoss(frames, ts, f, k);
    SameIdsSameTracked(ts, us);
    assert us[k].canId == f.canId;
    ErrorsGrow(frames, f, ts, us);
  }

  lemma UncountedKeepsAccounted(frames: seq<Frame>, b: Book, f: Frame, known: bool)
    requires Accounted(frames, b) && (f.len != 8 || !known) && (known <==> Tracked(b.trackers, f.canId))
    requires |b.trackers| < 256 ==> known
    ensures Accounted(frames + [f], b.(errors := b.errors + (if known then 0 else 1) + if f.len != 8 then 1 else 0))
  {
    TrackedIff(b.trackers, f.canId);
    UncountedFrame(frames, b.trackers, f, IndexOf(b.trackers, f.canId));
    ErrorsGrow(frames, f, b.trackers, b.trackers);
  }

  lemma EnterKeepsAccounted(frames: seq<Frame>, b: Book, k: nat, f: Frame)
    requires Accounted(frames, b) && (k < |b.trackers| <==> Tracked(b.trackers, f.canId))
    requires if k < |b.trackers| then b.trackers[k].canId == f.canId else |b.trackers| == 256
    ensures Accounted(frames + [f], Enter(b, k, f))
  {
    if k < |b.trackers| && f.len == 8 {
      CountedKeepsAccounted(frames, b, f, k);
    } else {
      UncountedKeepsAccounted(frames, b, f, k < |b.trackers|);
    }
  }

  lemma RecordKeepsAccounted(frames: seq<Frame>, b: Book, f: Frame)
    requires Accounted(frames, b)
    ensures Accounted(frames + [f], Record(b, f))
  {
    TrackerAdded(frames, b, f.canId);
    EnterKeepsAccounted(frames, b.(trackers := WithTracker(b.trackers, f.canId)), IndexOf(b.trackers, f.canId), f);
  }

  lemma RecordOneMore(frames: seq<Frame>, f: Frame)
    ensures RecordAll(frames + [f]) == Record(RecordAll(frames), f)
  {
    assert (frames + [f])[..|frames|] == frames;
  }

  lemma BooksGrow(frames: seq<Frame>, f: Frame)
    requires Accounted(frames, RecordAll(frames))
    ensures Accounted(frames + [f], RecordAll(frames + [f]))
  {
    RecordKeepsAccounted(frames, RecordAll(frames), f);
    RecordOneMore(frames, f);
  }

  /** Main result on the accounting: over any frames, more ids than trackers and counters that wrap included, the ids
      tracked are distinct, and the total lost is the sum over them of what is missing between the first and the
      largest counter and of what is counted again after a wrap. */
  lemma {:induction false} BooksAreRight(frames: seq<Frame>)
    ensures Accounted(frames, RecordAll(frames))
  {
    if frames != [] {
      var init, f := frames[..|frames| - 1], frames[|frames| - 1];
      assert frames == init + [f];
      BooksAreRight(init);
      BooksGrow(init, f);
    }
  }

  lemma CountsUpOneMore(xs: seq<u64>, x: u64)
    ensures CountsUpAgain(xs + [x]) <==> CountsUpAgain(xs) && GoesUp(xs, x)
  {
    var ys := xs + [x];
    assert forall i | 0 <= i < |xs| :: ys[..i] == xs[..i];
    assert ys[..|xs|] == xs;
    if CountsUpAgain(ys) {
      assert GoesUp(ys[..|xs|], ys[|xs|]);
      forall i | 0 <= i < |xs|
        ensures GoesUp(xs[..i], xs[i])
      {
        assert GoesUp(ys[..i], ys[i]);
      }
    }
  }

  lemma {:induction false} NoOvercountIff(xs: seq<u64>)
    ensures Overcount(xs) == 0 <==> CountsUpAgain(xs)
  {
    if xs != [] {
      var init, x := xs[..|xs| - 1], xs[|xs| - 1];
      NoOvercountIff(init);
      assert xs == init + [x];
      CountsUpOneMore(init, x);
    }
  }

  lemma AllCountUpOneMore(frames: seq<Frame>, ts: seq<Tracker>)
    requires ts != []
    ensures AllCountUpAgain(frames, ts)
            <==> AllCountUpAgain(frames, ts[..|ts| - 1]) && CountsUpAgain(Seen(frames, ts[|ts| - 1].canId))
  {
    var last := |ts| - 1;
    if AllCountUpAgain(frames, ts[..last]) && CountsUpAgain(Seen(frames, ts[last].canId)) {
      forall i | 0 <= i < |ts|
        ensures CountsUpAgain(Seen(frames, ts[i].canId))
      {
        assert i < last ==> ts[i] == ts[..last][i];
      }
    }
  }

  lemma {:induction false} ReportedAgainstMissing(frames: seq<Frame>, ts: seq<Tracker>)
    ensures TotalReported(frames, ts) >= TotalMissing(frames, ts)
    ensures TotalReported(frames, ts) == TotalMissing(frames, ts) <==> AllCountUpAgain(frames, ts)
    decreases |ts|
  {
    if ts != [] {
      ReportedAgainstMissing(frames, ts[..|ts| - 1]);
      NoOvercountIff(Seen(frames, ts[|ts| - 1].canId));
      AllCountUpOneMore(frames, ts);
    }
  }

  /** Main result on wrapping: the total is what is missing if and only if every tracked id, after its counter reached
      `UINT64_MAX`, counts up from 0 without a gap. Otherwise it is more. */
  lemma LostIsMissingIff(frames: seq<Frame>)
    ensures var b := RecordAll(frames);
      && b.lost >= TotalMissing(frames, b.trackers)
      && (b.lost == TotalMissing(frames, b.trackers) <==> AllCountUpAgain(frames, b.trackers))
  {
    BooksAreRight(frames);
    ReportedAgainstMissing(frames, RecordAll(frames).trackers);
  }

  /** For example, after the largest counter a frame is taken for a loss of everything below it. */
  lemma WrapLosesCount()
    ensures var frames := [Frame(1, 8, UINT64_MAX), Frame(1, 8, 5)];
      RecordAll(frames).lost == 5
  {
    var a, b := Frame(1, 8, UINT64_MAX), Frame(1, 8, 5);
    assert [a, b][..1] == [a] && [a][..0] == [];
    assert RecordAll([a]) == Record(RecordAll([]), a);
    assert RecordAll([a]).trackers == [Tracker(1, UINT64_MAX, true)];
  }

  // ------------------------------------------------------------------
  // What the number means.

  /** The counters between the first and the largest that never arrived. */
  ghost function Unseen(xs: seq<u64>): set<u64>
    requires xs != []
  {
    set v: u64 | xs[0] <= v <= Max(xs) && v !in xs
  }

  /** How many frames filled a gap that had already been counted as lost. */
  function Late(xs: seq<u64>): nat {
    if |xs| <= 1 then 0
    else
      var init, x := xs[..|xs| - 1], xs[|xs| - 1];
      Late(init) + if xs[0] <= x < Max(init) && x !in init then 1 else 0
  }

  ghost function Between(a: int, b: int): (s: set<u64>)
    requires 0 <= a <= b <= TWO_64
    ensures |s| == b - a && forall v: u64 :: v in s <==> a <= v < b
    decreases b - a
  {
    if a < b then Between(a, b - 1) + {b - 1} else {}
  }

  lemma OneMore(xs: seq<u64>, x: u64)
    requires xs != []
    ensures var ys := xs + [x];
      && ys[..|xs|] == xs && ys[0] == xs[0] && xs[0] <= Max(xs)
      && Max(ys) == (if x > Max(xs) then x else Max(xs))
      && forall v: u64 :: v in ys <==> v in xs || v == x
  {
    assert (xs + [x])[..|xs|] == xs;
    assert xs[0] in xs;
    MaxIsSeen(xs);
  }

  /** A counter above all others leaves those it jumped over unseen. */
  lemma UnseenAbove(xs: seq<u64>, x: u64)
    requires xs != [] && x > Max(xs)
    ensures |Unseen(xs + [x])| == |Unseen(xs)| + Gap(xs, x)
  {
    var m: int := Max(xs);
    var between := Between(m + 1, x);
    OneMore(xs, x);
    MaxIsSeen(xs);
    forall v: u64
      ensures v in Unseen(xs + [x]) <==> v in Unseen(xs) + between
    {
    }
    assert Unseen(xs + [x]) == Unseen(xs) + between && Unseen(xs) !! between;
  }

  /** Any other counter can only turn up late. */
  lemma UnseenInside(xs: seq<u64>, x: u64)
    requires xs != [] && x <= Max(xs)
    ensures |Unseen(xs + [x])| == |Unseen(xs)| - if x in Unseen(xs) then 1 else 0
  {
    OneMore(xs, x);
    assert Unseen(xs + [x]) == Unseen(xs) - {x};
  }

  lemma UnseenGrows(xs: seq<u64>, x: u64)
    requires xs != []
    ensures |Unseen(xs + [x])| + Late(xs + [x]) == |Unseen(xs)| + Late(xs) + Gap(xs, x)
  {
    OneMore(xs, x);
    MaxIsSeen(xs);
    if x > Max(xs) {
      UnseenAbove(xs, x);
    } else {
      UnseenInside(xs, x);
      assert x in Unseen(xs) <==> xs[0] <= x < Max(xs) && x !in xs;
    }
  }

  /** Main result on the meaning: what is reported lost is what never arrived plus what arrived late. */
  lemma {:induction false} MissingMeans(xs: seq<u64>)
    requires xs != []
    ensures Missing(xs) == |Unseen(xs)| + Late(xs)
  {
    var last := |xs| - 1;
    if last == 0 {
      assert Unseen(xs) == {};
    } else {
      MissingMeans(xs[..last]);
      UnseenGrows(xs[..last], xs[last]);
      MissingGrows(xs[..last], xs[last]);
      assert xs == xs[..last] + [xs[last]];
    }
  }

  predicate InOrder(xs: seq<u64>) {
    forall i, j | 0 <= i < j < |xs| :: xs[i] < xs[j]
  }

  lemma {:induction false} NothingLateInOrder(xs: seq<u64>)
    requires xs != [] && InOrder(xs)
    ensures Late(xs) == 0 && Max(xs) == xs[|xs| - 1]
  {
    if |xs| > 1 {
      NothingLateInOrder(xs[..|xs| - 1]);
    }
  }

  /** When the counters of an id arrive in order, exactly the missing ones are reported. */
  lemma InOrderIsExact(xs: seq<u64>)
    requires xs != [] && InOrder(xs)
    ensures Missing(xs) == |set v: u64 | xs[0] <= v <= xs[|xs| - 1] && v !in xs|
  {
    MissingMeans(xs);
    NothingLateInOrder(xs);
  }

  // ------------------------------------------------------------------
  // The tool's own tables.

  lemma IndexOfIs(ts: seq<Tracker>, id: u32, k: nat)
    requires k <= |ts| && (k < |ts| ==> ts[k].canId == id) && forall i | 0 <= i < k :: ts[i].canId != id
    ensures IndexOf(ts, id) == k
  {
  }

  /** Wrapping as one goes is wrapping the sum. */
  lemma AddWrapped(w: u64, x: int, y: int)
    requires w == ToU64(x)
    ensures ToU64(w + y) == ToU64(x + y)
  {
  }

  /** The tables `ts`, `lost` and `errors` hold this book, its totals modulo 2^64. */
  predicate Shows(ts: seq<Tracker>, lost: u64, errors: u64, b: Book) {
    ts == b.trackers && lost == ToU64(b.lost) && errors == ToU64(b.errors)
  }

  function NewErrors(known: bool, f: Frame): nat {
    (if known then 0 else 1) + if f.len != 8 then 1 else 0
  }

  lemma CountedIsShown(ts: seq<Tracker>, lost: u64, errors: u64, b: Book, k: nat, f: Frame)
    requires Shows(ts, lost, errors, b) && k < |ts| && f.len == 8
    ensures Shows(ts[k := Advance(ts[k], f.data)], ToU64(lost + LostBy(ts[k], f.data)), errors, Enter(b, k, f))
  {
    AddWrapped(lost, b.lost, LostBy(ts[k], f.data));
  }

  lemma UncountedIsShown(ts: seq<Tracker>, lost: u64, errors: u64, b: Book, k: nat, f: Frame)
    requires Shows(ts, lost, errors, b)
    ensures k >= |ts| || f.len != 8 ==> Shows(ts, lost, ToU64(errors + NewErrors(k < |ts|, f)), Enter(b, k, f))
    ensures k < |ts| && f.len == 8 ==> Shows(ts, lost, ToU64(errors + NewErrors(k < |ts|, f)), b)
  {
    AddWrapped(errors, b.errors, NewErrors(k < |ts|, f));
  }

  /** `can_trackers` with `tracker_count`, and the two totals. */
  class Checker {
    const trackers: array<Tracker>
    var count: nat
    var lost: u64
    var errors: u64
    /** All frames checked so far. */
    ghost var frames: seq<Frame>

    ghost predicate Shape()
      reads this, trackers
    {
      && trackers.Length == 256 && count <= 256
      && forall i | count <= i < 256 :: !trackers[i].hasData && trackers[i].lastData == 0
    }

    ghost predicate Holds(b: Book)
      reads this, trackers
      requires Shape()
    {
      Shows(trackers[..count], lost, errors, b)
    }

    ghost predicate Valid()
      reads this, trackers
    {
      Shape() && Holds(RecordAll(frames))
    }

    /** `reset_trackers`. */
    constructor ()
      ensures Valid() && fresh(trackers) && frames == []
    {
      trackers := new Tracker[MAX_CAN_IDS](_ => Tracker(0, 0, false));
      count, lost, errors := 0, 0, 0;
      frames := [];
    }

    /** `find_or_create_tracker`; `MAX_CAN_IDS` stands for a null pointer. */
    method FindOrCreate(id: u32) returns (k: nat)
      requires Shape()
      modifies this`count, trackers
      ensures Shape()
      ensures trackers[..count] == WithTracker(old(trackers[..count]), id)
      ensures k == IndexOf(old(trackers[..count]), id) && (k < count || k == count == 256)
    {
      ghost var ts := trackers[..count];
      k := 0;
      while k < count
        invariant k <= count
        invariant forall i | 0 <= i < k :: trackers[i].canId != id
      {
        if trackers[k].canId == id {
          IndexOfIs(ts, id, k);
          return;
        }
        k := k + 1;
      }
      IndexOfIs(ts, id, count);
      if count >= MAX_CAN_IDS {
        return MAX_CAN_IDS;
      }
      trackers[count] := trackers[count].(canId := id, hasData := false);
      k := count;
      count := count + 1;
      assert trackers[..count] == ts + [Tracker(id, 0, false)];
    }

    /** A frame with a counter meets its tracker. */
    method CountGap(k: nat, f: Frame)
      requires Shape() && k < count
      modifies this`lost, trackers
      ensures Shape()
      ensures lost == ToU64(old(lost) + LostBy(old(trackers[k]), f.data))
      ensures trackers[..count] == old(trackers[..count])[k := Advance(old(trackers[k]), f.data)]
    {
      var t := trackers[k];
      var next, data: int := ToU64(t.lastData + 1), f.data;
      if t.hasData {
        if f.data > next {
          lost := ToU64(lost + ToU64(data - t.lastData - 1));
        }
      }
      if t.hasData {
        if f.data >= next {
          t := t.(lastData := f.data);
        }
      } else {
        t := t.(lastData := f.data);
      }
      trackers[k] := t.(hasData := true);
    }

    /** A frame without a tracker, and one without eight bytes, are errors. */
    method CountErrors(known: bool, f: Frame)
      modifies this`errors
      ensures errors == ToU64(old(errors) + NewErrors(known, f))
    {
      if !known {
        errors := ToU64(errors + 1);
      }
      if f.len != 8 {
        errors := ToU64(errors + 1);
      }
    }

    /** What is done once the tracker was looked for. */
    method Account(k: nat, f: Frame, ghost b: Book)
      requires Shape() && Holds(b) && (k < count || k == count == 256)
      modifies this`lost, this`errors, trackers
      ensures Shape() && Holds(Enter(b, k, f))
    {
      UncountedIsShown(trackers[..count], lost, errors, b, k, f);
      CountErrors(k != MAX_CAN_IDS, f);
      if k != MAX_CAN_IDS && f.len == 8 {
        CountedIsShown(trackers[..count], lost, errors, b, k, f);
        CountGap(k, f);
      }
    }

    /** One round of the loop over received frames, in check mode. */
    method Check(f: Frame)
      requires Valid()
      modifies this, trackers
      ensures Valid() && frames == old(frames) + [f]
    {
      ghost var b := RecordAll(frames);
      var k := FindOrCreate(f.canId);
      ghost var c := b.(trackers := trackers[..count]);
      Account(k, f, c);
      RecordOneMore(frames, f);
      frames := frames + [f];
    }
  }
}
