/** Downloading stored CAN frames by credit: the device may send as many frames per start or request as fit
    the ring, and the next request follows only when all of them have been read. */
module StoreData {
  import opened ByteRing
  import opened CInts
  import opened Sequences

  /** `sizeof(ep1_cf02a_payload_notify_recv_can_frame_t)`. */
  const FRAME_SIZE: nat := 78
  /** `EP1_CF02A_STORE_DATA_BUFFER_SIZE`. */
  const STORE_DATA_BUFFER_SIZE: nat := 32768

  /** The size of `n` frames. */
  function Bytes(n: nat): nat {
    78 * n
  }

  /** `can_frame_count_per_request` for a ring of `size` bytes. */
  function Batch(size: nat): (n: nat)
    requires size > 0
    ensures Bytes(n) < size <= Bytes(n + 1)
  {
    (size - 1) / 78
  }

  // ------------------------------------------------------------------
  // Why that batch: it is the largest one that every empty ring takes whole.

  ghost predicate AllAccepted(g: Ring, frames: seq<seq<byte>>)
    requires Valid(g)
    decreases |frames|
  {
    frames == [] ||
    (WriteRingAppends(g, frames[0]);
     Accepts(g, frames[0]) && AllAccepted(WriteRing(g, frames[0]), frames[1..]))
  }

  lemma {:induction false} AllAcceptedIff(g: Ring, frames: seq<seq<byte>>)
    requires Valid(g) && 0 < g.read && forall f | f in frames :: |f| == FRAME_SIZE
    ensures AllAccepted(g, frames) <==> frames == [] || UsedSize(g) + Bytes(|frames|) < |g.buf|
    decreases |frames|
  {
    if frames != [] {
      var g' := WriteRing(g, frames[0]);
      WriteRingAppends(g, frames[0]);
      UsedSizeIsLength(g);
      UsedSizeIsLength(g');
      AllAcceptedIff(g', frames[1..]);
    }
  }

  lemma {:induction false} SmallBatchFits(g: Ring, frames: seq<seq<byte>>)
    requires Valid(g) && UsedSize(g) + Bytes(|frames|) < |g.buf| && forall f | f in frames :: |f| == FRAME_SIZE
    ensures AllAccepted(g, frames)
    decreases |frames|
  {
    if frames != [] {
      var g' := WriteRing(g, frames[0]);
      WriteRingAppends(g, frames[0]);
      UsedSizeIsLength(g);
      UsedSizeIsLength(g');
      SmallBatchFits(g', frames[1..]);
    }
  }

  /** Main result on the batch size: `Batch` is the largest count of frames that no empty ring drops. */
  lemma BatchIsLargestLossless(size: nat, n: nat)
    requires size > 0
    ensures n <= Batch(size) <==>
      forall g: Ring, frames: seq<seq<byte>> |
        |g.buf| == size && Valid(g) && g.read == g.write
        && |frames| == n && (forall f | f in frames :: |f| == FRAME_SIZE) ::
        AllAccepted(g, frames)
  {
    if n <= Batch(size) {
      forall g: Ring, frames: seq<seq<byte>> |
        |g.buf| == size && Valid(g) && g.read == g.write
        && |frames| == n && (forall f | f in frames :: |f| == FRAME_SIZE)
        ensures AllAccepted(g, frames)
      {
        SmallBatchFits(g, frames);
      }
    } else {
      var g := Ring(seq(size, _ => 0), size, size);
      var frame: seq<byte> := seq(FRAME_SIZE, _ => 0);
      var frames := seq(n, _ => frame);
      AllAcceptedIff(g, frames);
    }
  }

  // ------------------------------------------------------------------
  // The protocol.

  datatype Phase = Stopped | Starting | Running

  /** Where the dispatch of received messages stands. */
  datatype Dispatch = Idle | Writing(frame: seq<byte>) | Counting(size: nat)

  /** Where the read call stands. */
  datatype Reader =
    | NotReading
    | Waiting(size: nat)
    | Copying(size: nat)
    | CheckingComplete
    | CheckingEmpty
    | Resetting
    | Requesting

  /** `credit`, `finished`, `wire` and `notice`, which follows the frames, belong to the device and the bus; `sent`
      (for this download), `consumed` and `dropped` are the history since the last start, `starved` says that a
      request since then never reached the device, and `restarts` counts the starts that were issued while another
      one was on its way, and have not reached the device either. */
  datatype State = State(
    ring: Ring,
    received: nat,
    complete: bool,
    dispatch: Dispatch,
    reader: Reader,
    phase: Phase,
    credit: nat,
    finished: bool,
    wire: seq<seq<byte>>,
    notice: bool,
    sent: seq<byte>,
    consumed: seq<byte>,
    dropped: nat,
    starved: bool,
    restarts: nat)

  datatype Label =
    | StartClears | StartArrives | StartFails | StopArrives
    | DeviceSends(frame: seq<byte>) | DeviceCompletes
    | DispatchTakes | DispatchWrites | DispatchCounts | DispatchCompletes
    | ReadCalled(size: nat) | ReadTimesOut | ReadWakes | ReadCopies
    | ChecksComplete | ChecksEmpty | ResetsCount | RequestArrives | RequestFails

  function Boot(size: nat): State
    requires size > 0
  {
    State(Ring(seq(size, _ => 0), 0, 0), 0, false, Idle, NotReading, Stopped, 0, false, [], false, [], [], 0, false, 0)
  }

  /** `ep1_cf02a_rx_store_data_is_read_enable`, while the device is not closing. */
  predicate ReadEnabled(s: State)
    requires |s.ring.buf| > 0
  {
    s.received / 78 >= Batch(|s.ring.buf|) || s.complete
  }

  predicate NothingUnderWay(s: State) {
    s.wire == [] && s.dispatch.Idle? && s.credit == 0 && !s.notice
  }

  /** The read call has seen that it may read. */
  predicate PastWait(s: State) {
    !s.reader.NotReading? && !s.reader.Waiting?
  }

  /** A start that finds nothing under way, no other start on its way, and no read call that has gone past its wait -
      unless the ring is too small for a frame, and there is nothing to read. */
  predicate CleanStart(s: State) {
    && s.ring.buf != [] && NothingUnderWay(s) && !s.phase.Starting?
    && (PastWait(s) ==> Batch(|s.ring.buf|) == 0)
  }

  /** What a start does before its command is sent. */
  function Restart(s: State): State {
    s.(ring := s.ring.(read := 0, write := 0), received := 0, complete := false, phase := Starting,
       finished := false, sent := [], consumed := [], starved := false,
       restarts := if s.phase.Starting? then s.restarts + 1 else s.restarts)
  }

  /** `ep1_cf02a_ioctl_set_store_data_rx_control`, which may be called at any time; a stop that fails changes
      nothing. */
  function StartStep(s: State, l: Label): State
    requires |s.ring.buf| > 0
  {
    match l
    case StartClears => Restart(s)
    case StartArrives =>
      if s.phase.Starting? then s.(phase := Running, credit := Batch(|s.ring.buf|))
      else if s.restarts > 0 then
        s.(phase := Running, finished := false, credit := Batch(|s.ring.buf|), restarts := s.restarts - 1)
      else s
    case StartFails =>
      if s.restarts > 0 then s.(restarts := s.restarts - 1)
      else if s.phase.Starting? then s.(phase := Stopped)
      else s
    case StopArrives =>
      if s.phase.Running? && !s.finished then s.(finished := true, credit := 0) else s
    case _ => s
  }

  function DeviceStep(s: State, l: Label): State {
    match l
    case DeviceSends(frame) =>
      if s.credit > 0 && |frame| == FRAME_SIZE then
        s.(credit := s.credit - 1, wire := s.wire + [frame],
           sent := if s.phase.Running? then s.sent + frame else s.sent)
      else s
    case DeviceCompletes =>
      if s.phase.Running? && !s.finished then s.(finished := true, credit := 0, notice := true) else s
    case _ => s
  }

  /** `ep1_cf02a_dispatch_msg`, one message at a time in the order of the wire. */
  ghost function DispatchStep(s: State, l: Label): State
    requires Valid(s.ring)
  {
    match l
    case DispatchTakes =>
      if s.dispatch.Idle? && s.wire != [] then s.(dispatch := Writing(s.wire[0]), wire := s.wire[1..]) else s
    case DispatchWrites =>
      if s.dispatch.Writing? then
        if Accepts(s.ring, s.dispatch.frame) then
          s.(ring := WriteRing(s.ring, s.dispatch.frame), dispatch := Counting(|s.dispatch.frame|))
        else s.(dispatch := Idle, dropped := s.dropped + 1)
      else s
    case DispatchCounts =>
      if s.dispatch.Counting? then s.(dispatch := Idle, received := s.received + s.dispatch.size) else s
    case DispatchCompletes =>
      if s.dispatch.Idle? && s.wire == [] && s.notice then s.(complete := true, notice := false) else s
    case _ => s
  }

  /** `ep1_cf02a_ioctl_read_store_data`. */
  function ReaderStep(s: State, l: Label): State
    requires Valid(s.ring) && |s.ring.buf| > 0
  {
    match l
    case ReadCalled(size) => if s.reader.NotReading? then s.(reader := Waiting(size)) else s
    case ReadTimesOut => if s.reader.Waiting? then s.(reader := NotReading) else s
    case ReadWakes => if s.reader.Waiting? && ReadEnabled(s) then s.(reader := Copying(s.reader.size)) else s
    case ReadCopies =>
      if s.reader.Copying? then
        s.(ring := ReadRing(s.ring, s.reader.size),
           consumed := s.consumed + BytesRead(s.ring, s.reader.size),
           reader := CheckingComplete)
      else s
    case ChecksComplete =>
      if s.reader.CheckingComplete? then s.(reader := if s.complete then NotReading else CheckingEmpty) else s
    case ChecksEmpty =>
      if s.reader.CheckingEmpty? then s.(reader := if s.ring.read == s.ring.write then Resetting else NotReading) else s
    case ResetsCount => if s.reader.Resetting? then s.(received := 0, reader := Requesting) else s
    case RequestArrives =>
      if s.reader.Requesting? then
        s.(reader := NotReading, credit := if s.finished then s.credit else Batch(|s.ring.buf|))
      else s
    case RequestFails => if s.reader.Requesting? then s.(reader := NotReading, starved := true) else s
    case _ => s
  }

  /** A label whose step is not possible changes nothing. */
  ghost function Step(s: State, l: Label): State {
    if !Valid(s.ring) || s.ring.buf == [] then s else
    match l
    case StartClears => StartStep(s, l)
    case StartArrives => StartStep(s, l)
    case StartFails => StartStep(s, l)
    case StopArrives => StartStep(s, l)
    case DeviceSends(_) => DeviceStep(s, l)
    case DeviceCompletes => DeviceStep(s, l)
    case DispatchTakes => DispatchStep(s, l)
    case DispatchWrites => DispatchStep(s, l)
    case DispatchCounts => DispatchStep(s, l)
    case DispatchCompletes => DispatchStep(s, l)
    case _ => ReaderStep(s, l)
  }

  /** Frames under way between the device and the ring. */
  function UnderWay(s: State): nat {
    |s.wire| + if s.dispatch.Writing? then 1 else 0
  }

  /** No frame is between the device and the count. */
  predicate Quiet(s: State) {
    UnderWay(s) == 0 && !s.dispatch.Counting?
  }

  function Uncounted(s: State): nat {
    if s.dispatch.Counting? then s.dispatch.size else 0
  }

  function InHand(s: State): seq<byte> {
    if s.dispatch.Writing? then s.dispatch.frame else []
  }

  /** Every byte sent is consumed, in the ring, or on its way, in that order. */
  predicate Conserved(s: State, contents: seq<byte>) {
    s.consumed + contents + InHand(s) + Flatten(s.wire) == s.sent
  }

  predicate FramesWhole(s: State) {
    && (forall f | f in s.wire :: |f| == FRAME_SIZE)
    && (s.dispatch.Writing? ==> |s.dispatch.frame| == FRAME_SIZE)
    && (s.dispatch.Counting? ==> s.dispatch.size == FRAME_SIZE)
  }

  /** Counted, uncounted and expected frames make up the batch, unless the device ended early or the request
      for the next batch is on its way. */
  predicate Accounted(s: State, n: nat) {
    var total := s.received + Uncounted(s) + Bytes(s.credit + UnderWay(s));
    && total <= Bytes(n)
    && (s.phase.Running? && !s.finished && !s.reader.Requesting? && !s.starved ==> total == Bytes(n))
  }

  /** What holds of the counts and of the two sides' positions, for a batch of `n` and a ring holding `used`. */
  predicate Counts(s: State, n: nat, used: nat) {
    && s.dropped == 0 && s.restarts == 0
    && FramesWhole(s) && Accounted(s, n)
    && used <= s.received + Uncounted(s)
    && (s.phase != Running ==>
        && s.credit == 0 && Quiet(s)
        && s.received == 0 && !s.complete && !s.finished && !s.notice && (PastWait(s) || s.starved ==> n == 0))
    && (s.finished ==> s.credit == 0)
    && (s.notice ==> s.finished)
    && (s.complete ==> s.finished && Quiet(s))
    && (PastWait(s) ==> s.credit == 0 && Quiet(s))
    && (s.reader.Resetting? || s.reader.Requesting? ==> used == 0)
    && (s.reader.Requesting? ==> s.received == 0)
    && (s.starved && !s.finished && n > 0 ==> s.received == 0 && s.credit == 0 && Quiet(s) && !PastWait(s))
  }

  ghost predicate Inv(s: State, size: nat) {
    && Valid(s.ring) && size > 0 && |s.ring.buf| == size
    && Counts(s, Batch(size), |Contents(s.ring)|)
    && Conserved(s, Contents(s.ring))
  }

  lemma StartKeepsCounts(s: State, n: nat, used: nat, l: Label)
    requires Counts(s, n, used) && |s.ring.buf| > 0 && n == Batch(|s.ring.buf|)
    requires l.StartClears? ==> CleanStart(s)
    ensures Counts(StartStep(s, l), n, if l.StartClears? then 0 else used)
  {
  }

  lemma StartKeepsInv(s: State, size: nat, l: Label)
    requires Inv(s, size) && (l.StartClears? ==> CleanStart(s))
    ensures Inv(StartStep(s, l), size)
  {
    StartKeepsCounts(s, Batch(size), |Contents(s.ring)|, l);
  }

  lemma DeviceKeepsCounts(s: State, n: nat, used: nat, l: Label)
    requires Counts(s, n, used)
    ensures Counts(DeviceStep(s, l), n, used)
  {
  }

  lemma DeviceConserves(s: State, contents: seq<byte>, l: Label)
    requires Conserved(s, contents) && (s.credit > 0 ==> s.phase.Running?)
    ensures Conserved(DeviceStep(s, l), contents)
  {
    match l
    case DeviceSends(frame) =>
      FlattenAppends(s.wire, frame);
      Assoc(s.consumed + contents + InHand(s), Flatten(s.wire), frame);
    case _ =>
  }

  /** The ring takes every frame: what it holds and the frame fit the batch. */
  lemma FrameFits(s: State, size: nat)
    requires Inv(s, size) && s.dispatch.Writing?
    ensures Accepts(s.ring, s.dispatch.frame)
  {
    UsedSizeIsLength(s.ring);
    AcceptedIff(s.ring, FRAME_SIZE);
  }

  /** The frame moves from the dispatcher's hand into the ring. */
  lemma WriteKeeps(s: State, n: nat, contents: seq<byte>, g: Ring)
    requires Counts(s, n, |contents|) && Conserved(s, contents) && s.dispatch.Writing? && |g.buf| == |s.ring.buf|
    ensures var s' := s.(ring := g, dispatch := Counting(|s.dispatch.frame|));
      Counts(s', n, |contents + s.dispatch.frame|) && Conserved(s', contents + s.dispatch.frame)
  {
    Assoc(s.consumed, contents, s.dispatch.frame);
  }

  lemma TakeKeeps(s: State, n: nat, contents: seq<byte>)
    requires Counts(s, n, |contents|) && Conserved(s, contents) && s.dispatch.Idle? && s.wire != []
    ensures var s' := s.(dispatch := Writing(s.wire[0]), wire := s.wire[1..]);
      Counts(s', n, |contents|) && Conserved(s', contents)
  {
    FlattenFirst(s.wire);
    Assoc(s.consumed + contents, s.wire[0], Flatten(s.wire[1..]));
  }

  lemma DispatchKeepsInv(s: State, size: nat, l: Label)
    requires Inv(s, size)
    ensures Inv(DispatchStep(s, l), size)
  {
    match l
    case DispatchTakes =>
      if s.dispatch.Idle? && s.wire != [] {
        TakeKeeps(s, Batch(size), Contents(s.ring));
      }
    case DispatchWrites =>
      if s.dispatch.Writing? {
        var g := WriteRing(s.ring, s.dispatch.frame);
        FrameFits(s, size);
        WriteRingAppends(s.ring, s.dispatch.frame);
        WriteKeeps(s, Batch(size), Contents(s.ring), g);
      }
    case _ =>
  }

  /** When the reader may go on, the device has no credit left and no frame is under way. */
  lemma WakeMeansQuiet(s: State, n: nat, used: nat)
    requires Counts(s, n, used) && |s.ring.buf| > 0 && n == Batch(|s.ring.buf|) && ReadEnabled(s)
    ensures s.credit == 0 && Quiet(s)
    ensures s.phase != Running ==> n == 0
    ensures s.starved && !s.finished ==> n == 0
  {
  }

  /** The bytes read move from the ring to the user. */
  lemma CopyKeeps(s: State, n: nat, contents: seq<byte>, got: seq<byte>, rest: seq<byte>, g: Ring)
    requires Counts(s, n, |contents|) && Conserved(s, contents) && s.reader.Copying?
    requires |g.buf| == |s.ring.buf| && got + rest == contents
    ensures var s' := s.(ring := g, consumed := s.consumed + got, reader := CheckingComplete);
      Counts(s', n, |rest|) && Conserved(s', rest)
  {
    Assoc(s.consumed, got, rest);
  }

  /** The steps of a read that leave the ring alone. */
  lemma ReaderKeepsCounts(s: State, n: nat, used: nat, l: Label)
    requires Valid(s.ring) && |s.ring.buf| > 0 && n == Batch(|s.ring.buf|)
    requires Counts(s, n, used) && !l.ReadCopies? && (s.ring.read == s.ring.write ==> used == 0)
    ensures Counts(ReaderStep(s, l), n, used)
  {
    if l.ReadWakes? && ReadEnabled(s) {
      WakeMeansQuiet(s, n, used);
    }
  }

  lemma ReadCopiesKeepsInv(s: State, size: nat)
    requires Inv(s, size) && s.reader.Copying?
    ensures Inv(ReaderStep(s, ReadCopies), size)
  {
    var got, g := BytesRead(s.ring, s.reader.size), ReadRing(s.ring, s.reader.size);
    ReadRingTakesPrefix(s.ring, s.reader.size);
    CopyKeeps(s, Batch(size), Contents(s.ring), got, Contents(g), g);
  }

  lemma ReaderKeepsConserved(s: State, contents: seq<byte>, l: Label)
    requires Valid(s.ring) && |s.ring.buf| > 0 && Conserved(s, contents) && !l.ReadCopies?
    ensures Conserved(ReaderStep(s, l), contents) && ReaderStep(s, l).ring == s.ring
  {
  }

  lemma ReaderKeepsInv(s: State, size: nat, l: Label)
    requires Inv(s, size)
    ensures Inv(ReaderStep(s, l), size)
  {
    if l.ReadCopies? {
      if s.reader.Copying? {
        ReadCopiesKeepsInv(s, size);
      }
    } else {
      UsedSizeIsLength(s.ring);
      ReaderKeepsCounts(s, Batch(size), |Contents(s.ring)|, l);
      ReaderKeepsConserved(s, Contents(s.ring), l);
    }
  }

  lemma StepKeepsInv(s: State, size: nat, l: Label)
    requires Inv(s, size) && (l.StartClears? ==> CleanStart(s))
    ensures Inv(Step(s, l), size)
  {
    if l.StartClears? || l.StartArrives? || l.StartFails? || l.StopArrives? {
      StartKeepsInv(s, size, l);
    } else if l.DeviceSends? || l.DeviceCompletes? {
      DeviceKeepsCounts(s, Batch(size), |Contents(s.ring)|, l);
      DeviceConserves(s, Contents(s.ring), l);
    } else if l.DispatchTakes? || l.DispatchWrites? || l.DispatchCounts? || l.DispatchCompletes? {
      DispatchKeepsInv(s, size, l);
    } else {
      ReaderKeepsInv(s, size, l);
    }
  }

  /** The state after a schedule of steps. */
  ghost function Exec(s: State, schedule: seq<Label>): State
    decreases |schedule|
  {
    if schedule == [] then s else Exec(Step(s, schedule[0]), schedule[1..])
  }

  /** Every start in the schedule is a clean one. */
  ghost predicate CleanStarts(s: State, schedule: seq<Label>)
    decreases |schedule|
  {
    schedule == [] ||
    ((schedule[0].StartClears? ==> CleanStart(s)) && CleanStarts(Step(s, schedule[0]), schedule[1..]))
  }

  lemma {:induction false} ExecKeepsInv(s: State, size: nat, schedule: seq<Label>)
    requires Inv(s, size) && CleanStarts(s, schedule)
    ensures Inv(Exec(s, schedule), size)
    decreases |schedule|
  {
    if schedule != [] {
      StepKeepsInv(s, size, schedule[0]);
      ExecKeepsInv(Step(s, schedule[0]), size, schedule[1..]);
    }
  }

  /** What the user has read, and what is in the ring and on its way to it, is what the device sent for this download,
      and its end is not announced early; a request finds the device without credit and everything read; the two sides
      do not use the ring at the same time. */
  ghost predicate Lossless(s: State) {
    && Valid(s.ring) && s.dropped == 0
    && s.consumed + Contents(s.ring) + InHand(s) + Flatten(s.wire) == s.sent
    && (s.complete ==> s.finished)
    && (s.reader.Requesting? ==> s.credit == 0 && Quiet(s) && Contents(s.ring) == [])
    && !(s.reader.Copying? && s.dispatch.Writing?)
  }

  // ------------------------------------------------------------------
  // Runs whose starts are clean, and runs with one that is not.

  const ANY_FRAME: seq<byte> := seq(FRAME_SIZE, _ => 0)

  lemma {:induction false} ExecTwice(s: State, first: seq<Label>, more: seq<Label>)
    ensures Exec(s, first + more) == Exec(Exec(s, first), more)
    decreases |first|
  {
    if first == [] {
      assert first + more == more;
    } else {
      assert (first + more)[1..] == first[1..] + more;
      ExecTwice(Step(s, first[0]), first[1..], more);
    }
  }

  /** The ring is not in use and takes one more frame. */
  ghost predicate CanDeliver(s: State) {
    && Valid(s.ring) && s.phase.Running? && s.credit > 0 && s.wire == [] && s.dispatch.Idle?
    && UsedSize(s.ring) + FRAME_SIZE < |s.ring.buf|
  }

  lemma OneIsTaken(s: State, more: seq<Label>)
    requires CanDeliver(s)
    ensures Exec(s, [DeviceSends(ANY_FRAME), DispatchTakes] + more)
         == Exec(s.(credit := s.credit - 1, sent := s.sent + ANY_FRAME, dispatch := Writing(ANY_FRAME)), more)
  {
    var way := [DeviceSends(ANY_FRAME), DispatchTakes] + more;
    var s1 := Step(s, way[0]);
    assert s1 == s.(credit := s.credit - 1, sent := s.sent + ANY_FRAME, wire := [ANY_FRAME]);
    var s2 := Step(s1, DispatchTakes);
    assert s2 == s.(credit := s.credit - 1, sent := s.sent + ANY_FRAME, dispatch := Writing(ANY_FRAME)) by {
      assert [ANY_FRAME][1..] == [] && s.wire == [];
    }
    assert way[1..][1..] == more;
    assert Exec(s1, way[1..]) == Exec(s2, way[1..][1..]);
    assert Exec(s, way) == Exec(s1, way[1..]);
  }

  lemma OneIsCounted(s: State, g: Ring)
    requires Valid(s.ring) && s.ring.buf != [] && s.dispatch == Writing(ANY_FRAME)
    requires Accepts(s.ring, ANY_FRAME) && g == WriteRing(s.ring, ANY_FRAME) && Valid(g) && |g.buf| == |s.ring.buf|
    ensures Exec(s, [DispatchWrites, DispatchCounts])
         == s.(ring := g, dispatch := Idle, received := s.received + FRAME_SIZE)
  {
    var way := [DispatchWrites, DispatchCounts];
    var s1 := Step(s, way[0]);
    assert s1 == s.(ring := g, dispatch := Counting(FRAME_SIZE));
    assert Exec(s1, way[1..]) == Step(s1, way[1]);
  }

  lemma OneDelivery(s: State) returns (g: Ring)
    requires CanDeliver(s)
    ensures Valid(g) && |g.buf| == |s.ring.buf| && UsedSize(g) == UsedSize(s.ring) + FRAME_SIZE
    ensures Exec(s, [DeviceSends(ANY_FRAME), DispatchTakes] + [DispatchWrites, DispatchCounts])
         == s.(ring := g, credit := s.credit - 1, sent := s.sent + ANY_FRAME, received := s.received + FRAME_SIZE)
  {
    g := WriteRing(s.ring, ANY_FRAME);
    UsedSizeIsLength(s.ring);
    WriteRingAppends(s.ring, ANY_FRAME);
    UsedSizeIsLength(g);
    OneIsTaken(s, [DispatchWrites, DispatchCounts]);
    OneIsCounted(s.(credit := s.credit - 1, sent := s.sent + ANY_FRAME, dispatch := Writing(ANY_FRAME)), g);
  }

  /** The device can send `k` frames of a batch, each of which is counted. */
  lemma {:induction false} Deliveries(s: State, k: nat) returns (way: seq<Label>, g: Ring, sent: seq<byte>)
    requires Valid(s.ring) && s.phase.Running? && s.credit >= k && s.wire == [] && s.dispatch.Idle?
    requires UsedSize(s.ring) + Bytes(k) < |s.ring.buf|
    ensures Valid(g) && |g.buf| == |s.ring.buf| && UsedSize(g) == UsedSize(s.ring) + Bytes(k) && StartClears !in way
    ensures Exec(s, way) == s.(ring := g, credit := s.credit - k, sent := sent, received := s.received + Bytes(k))
    decreases k
  {
    if k == 0 {
      way, g, sent := [], s.ring, s.sent;
    } else {
      var first := [DeviceSends(ANY_FRAME), DispatchTakes] + [DispatchWrites, DispatchCounts];
      var h := OneDelivery(s);
      way, g, sent := Deliveries(Exec(s, first), k - 1);
      ExecTwice(s, first, way);
      way := first + way;
    }
  }

  lemma ReadIsCopied(s: State, size: nat, more: seq<Label>)
    requires Valid(s.ring) && s.ring.buf != [] && s.reader.NotReading? && ReadEnabled(s)
    ensures Exec(s, [ReadCalled(size), ReadWakes, ReadCopies] + more)
         == Exec(s.(ring := ReadRing(s.ring, size), consumed := s.consumed + BytesRead(s.ring, size),
                    reader := CheckingComplete), more)
  {
    var way := [ReadCalled(size), ReadWakes, ReadCopies] + more;
    var s1 := Step(s, way[0]);
    assert s1 == s.(reader := Waiting(size));
    var s2 := Step(s1, way[1]);
    assert s2 == s.(reader := Copying(size));
    assert way[1..][1..][1..] == more;
    assert Exec(s2, way[1..][1..]) == Exec(Step(s2, way[2]), more);
    assert Exec(s1, way[1..]) == Exec(s2, way[1..][1..]);
  }

  lemma EmptyIsRequested(s: State)
    requires Valid(s.ring) && s.ring.buf != [] && s.ring.read == s.ring.write
    requires s.reader.CheckingComplete? && !s.complete
    ensures Exec(s, [ChecksComplete, ChecksEmpty, ResetsCount]) == s.(received := 0, reader := Requesting)
  {
    var way := [ChecksComplete, ChecksEmpty, ResetsCount];
    var s1 := Step(s, way[0]);
    assert s1 == s.(reader := CheckingEmpty);
    var s2 := Step(s1, way[1]);
    assert s2 == s.(reader := Resetting);
    assert Exec(s2, way[2..]) == Step(s2, way[2]);
    assert Exec(s1, way[1..]) == Exec(s2, way[2..]);
  }

  /** A reader that is enabled takes everything, and goes on to request the next batch. */
  lemma ReadsAll(s: State) returns (way: seq<Label>)
    requires Valid(s.ring) && |s.ring.buf| > 0 && s.reader.NotReading? && !s.complete && ReadEnabled(s)
    ensures StartClears !in way
    ensures var s' := Exec(s, way);
      && s' == s.(ring := s'.ring, consumed := s'.consumed, received := 0, reader := Requesting)
      && |s'.consumed| == |s.consumed| + UsedSize(s.ring)
      && Valid(s'.ring) && |s'.ring.buf| == |s.ring.buf| && UsedSize(s'.ring) == 0
  {
    var size := |s.ring.buf|;
    var g := ReadRing(s.ring, size);
    UsedSizeIsLength(s.ring);
    ReadRingTakesPrefix(s.ring, size);
    UsedSizeIsLength(g);
    way := [ReadCalled(size), ReadWakes, ReadCopies] + [ChecksComplete, ChecksEmpty, ResetsCount];
    ReadIsCopied(s, size, [ChecksComplete, ChecksEmpty, ResetsCount]);
    EmptyIsRequested(s.(ring := g, consumed := s.consumed + BytesRead(s.ring, size), reader := CheckingComplete));
  }

  lemma CountedInNext(s: State, n: nat)
    requires s.ring.buf != [] && n == Batch(|s.ring.buf|) && s.dispatch == Counting(FRAME_SIZE) && !PastWait(s)
    ensures Exec(Restart(s), [ReadTimesOut, StartArrives, DispatchCounts])
         == Restart(s).(phase := Running, reader := NotReading, credit := n, dispatch := Idle, received := FRAME_SIZE)
  {
    var way := [ReadTimesOut, StartArrives, DispatchCounts];
    var s0 := Restart(s);
    var s1 := Step(s0, way[0]);
    assert s1 == s0.(reader := NotReading);
    var s2 := Step(s1, way[1]);
    assert s2 == s1.(phase := Running, credit := n);
    assert Exec(s2, way[2..]) == Step(s2, way[2]);
    assert Exec(s1, way[1..]) == Exec(s2, way[2..]);
  }

  /** A frame counted only after the start: one frame early the next batch is requested. */
  lemma CountedLate(s: State, size: nat) returns (way: seq<Label>)
    requires Inv(s, size) && s.dispatch.Counting? && s.wire == []
    ensures !Lossless(Exec(Restart(s), way)) && StartClears !in way
  {
    var n := Batch(size);
    var first := [ReadTimesOut, StartArrives, DispatchCounts];
    CountedInNext(s, n);
    var s1 := Exec(Restart(s), first);
    var middle, g, sent := Deliveries(s1, n - 1);
    var s2 := Exec(s1, middle);
    assert s2.received == Bytes(n) && s2.credit == 1;
    var last := ReadsAll(s2);
    way := first + (middle + last);
    ExecTwice(Restart(s), first, middle + last);
    ExecTwice(s1, middle, last);
  }

  /** A read call that has gone past its wait copies while a frame is written, */
  lemma CopyGoesOn(s: State, size: nat) returns (way: seq<Label>)
    requires Inv(s, size) && s.reader.Copying? && Batch(size) > 0
    ensures !Lossless(Exec(Restart(s), way)) && StartClears !in way
  {
    var s0 := Restart(s);
    var s1 := Step(s0, StartArrives);
    assert s1 == s0.(phase := Running, credit := Batch(size));
    way := [StartArrives] + ([DeviceSends(ANY_FRAME), DispatchTakes] + []);
    OneIsTaken(s1, []);
    assert way[1..] == [DeviceSends(ANY_FRAME), DispatchTakes] + [];
    assert Exec(s0, way) == Exec(s1, way[1..]);
  }

  /** or requests a batch too many. */
  lemma CheckGoesOn(s: State, size: nat) returns (way: seq<Label>)
    requires Inv(s, size) && PastWait(s) && !s.reader.Copying? && Batch(size) > 0
    ensures !Lossless(Exec(Restart(s), way)) && StartClears !in way
  {
    var s0 := Restart(s);
    var s1 := Step(s0, StartArrives);
    assert s1 == s0.(phase := Running, credit := Batch(size));
    way := [StartArrives, ChecksComplete, ChecksEmpty, ResetsCount];
    var s2 := Step(s1, way[1]);
    assert s2 == s1.(reader := if s.reader.CheckingComplete? then CheckingEmpty else s.reader);
    var s3 := Step(s2, way[2]);
    assert s3 == s2.(reader := if s2.reader.CheckingEmpty? then Resetting else s2.reader);
    assert Step(s3, way[3]).reader.Requesting? && Step(s3, way[3]).credit > 0;
    assert Exec(s3, way[3..]) == Step(s3, way[3]);
    assert Exec(s2, way[2..]) == Exec(s3, way[3..]);
    assert Exec(s1, way[1..]) == Exec(s2, way[2..]);
    assert Exec(s0, way) == Exec(s1, way[1..]);
  }

  /** Two starts on their way: the device ends the first download before it gets the second start. */
  lemma StartedTwice(s: State, size: nat) returns (way: seq<Label>)
    requires Inv(s, size) && s.phase.Starting? && NothingUnderWay(s)
    ensures !Lossless(Exec(Restart(s), way)) && StartClears !in way
  {
    way := [StartArrives, DeviceCompletes, DispatchCompletes, StartArrives];
    var s0 := Restart(s);
    var s1 := Step(s0, way[0]);
    assert s1 == s0.(phase := Running, credit := Batch(size));
    var s2 := Step(s1, way[1]);
    assert s2 == s1.(finished := true, credit := 0, notice := true);
    var s3 := Step(s2, way[2]);
    assert s3 == s2.(complete := true, notice := false);
    var s4 := Step(s3, way[3]);
    assert s4.complete && !s4.finished;
    assert Exec(s3, way[3..]) == s4;
    assert Exec(s2, way[2..]) == Exec(s3, way[3..]);
    assert Exec(s1, way[1..]) == Exec(s2, way[2..]);
    assert Exec(s0, way) == Exec(s1, way[1..]);
  }

  lemma {:induction false} WholeFramesAreBytes(wire: seq<seq<byte>>)
    requires wire != [] && forall f | f in wire :: |f| == FRAME_SIZE
    ensures Flatten(wire) != []
  {
  }

  /** Each thing under way at a start can spoil the new download. */
  lemma StartTooEarly(s: State, size: nat) returns (way: seq<Label>)
    requires Inv(s, size) && !NothingUnderWay(s)
    ensures !Lossless(Exec(Restart(s), way)) && StartClears !in way
  {
    var s0 := Restart(s);
    if s.wire != [] {
      way := [];
      WholeFramesAreBytes(s.wire);
    } else if s.dispatch.Writing? {
      way := [];
    } else if s.dispatch.Counting? {
      way := CountedLate(s, size);
    } else if s.credit > 0 {
      way := [DeviceSends(ANY_FRAME)];
      var s1 := Step(s0, way[0]);
      assert Exec(s0, way) == s1;
      assert s1.wire == [ANY_FRAME] && s1.sent == [];
      WholeFramesAreBytes(s1.wire);
    } else {
      way := [DispatchCompletes];
      var s1 := Step(s0, way[0]);
      assert Exec(s0, way) == s1;
    }
  }

  lemma PastItsWait(s: State, size: nat) returns (way: seq<Label>)
    requires Inv(s, size) && PastWait(s) && Batch(size) > 0
    ensures !Lossless(Exec(Restart(s), way)) && StartClears !in way
  {
    if s.reader.Copying? {
      way := CopyGoesOn(s, size);
    } else {
      way := CheckGoesOn(s, size);
    }
  }

  lemma UncleanStart(s: State, size: nat) returns (way: seq<Label>)
    requires Inv(s, size) && !CleanStart(s)
    ensures !Lossless(Exec(Restart(s), way)) && StartClears !in way
  {
    if !NothingUnderWay(s) {
      way := StartTooEarly(s, size);
    } else if s.phase.Starting? {
      way := StartedTwice(s, size);
    } else {
      way := PastItsWait(s, size);
    }
  }

  lemma {:induction false} NoStartIsClean(s: State, more: seq<Label>)
    requires StartClears !in more
    ensures CleanStarts(s, more)
    decreases |more|
  {
    if more != [] {
      NoStartIsClean(Step(s, more[0]), more[1..]);
    }
  }

  lemma {:induction false} CleanThenClean(s: State, first: seq<Label>, more: seq<Label>)
    ensures CleanStarts(s, first + more) <==> CleanStarts(s, first) && CleanStarts(Exec(s, first), more)
    decreases |first|
  {
    if first == [] {
      assert first + more == more;
    } else {
      assert (first + more)[1..] == first[1..] + more;
      CleanThenClean(Step(s, first[0]), first[1..], more);
    }
  }

  lemma {:induction false} FirstUncleanStart(s: State, schedule: seq<Label>) returns (k: nat)
    requires !CleanStarts(s, schedule)
    ensures k < |schedule| && schedule[k].StartClears?
    ensures CleanStarts(s, schedule[..k]) && !CleanStart(Exec(s, schedule[..k]))
    decreases |schedule|
  {
    if schedule[0].StartClears? && !CleanStart(s) {
      k := 0;
    } else {
      k := FirstUncleanStart(Step(s, schedule[0]), schedule[1..]);
      k := k + 1;
      assert schedule[..k][1..] == schedule[1..][..k - 1];
    }
  }

  /** Main result on starting: a start issued at any point of a run whose starts were clean is followed by lossless
      runs only if and only if it is clean itself. */
  lemma StartIsCleanIff(size: nat, schedule: seq<Label>)
    requires size > 0 && CleanStarts(Boot(size), schedule)
    ensures var s := Exec(Boot(size), schedule);
      (forall more | StartClears !in more :: Lossless(Exec(Restart(s), more))) <==> CleanStart(s)
  {
    var s := Exec(Boot(size), schedule);
    ExecKeepsInv(Boot(size), size, schedule);
    if CleanStart(s) {
      StepKeepsInv(s, size, StartClears);
      forall more | StartClears !in more
        ensures Lossless(Exec(Restart(s), more))
      {
        NoStartIsClean(Restart(s), more);
        ExecKeepsInv(Restart(s), size, more);
      }
    } else {
      var way := UncleanStart(s, size);
    }
  }

  lemma CleanRunIsLossless(size: nat, schedule: seq<Label>)
    requires size > 0 && CleanStarts(Boot(size), schedule)
    ensures Lossless(Exec(Boot(size), schedule))
  {
    ExecKeepsInv(Boot(size), size, schedule);
  }

  lemma LosslessAfter(size: nat, schedule: seq<Label>, k: nat, more: seq<Label>)
    requires size > 0 && CleanStarts(Boot(size), schedule) && k <= |schedule| && StartClears !in more
    ensures Lossless(Exec(Boot(size), schedule[..k] + more))
  {
    assert schedule == schedule[..k] + schedule[k..];
    CleanThenClean(Boot(size), schedule[..k], schedule[k..]);
    CleanThenClean(Boot(size), schedule[..k], more);
    NoStartIsClean(Exec(Boot(size), schedule[..k]), more);
    CleanRunIsLossless(size, schedule[..k] + more);
  }

  lemma RestartedAt(s: State, schedule: seq<Label>, k: nat, more: seq<Label>)
    requires k < |schedule| && schedule[k] == StartClears
    requires Valid(Exec(s, schedule[..k]).ring) && Exec(s, schedule[..k]).ring.buf != []
    ensures Exec(s, schedule[..k + 1] + more) == Exec(Restart(Exec(s, schedule[..k])), more)
  {
    assert schedule[..k + 1] + more == schedule[..k] + ([StartClears] + more);
    ExecTwice(s, schedule[..k], [StartClears] + more);
    assert ([StartClears] + more)[1..] == more;
  }

  lemma LossAfter(size: nat, schedule: seq<Label>) returns (k: nat, more: seq<Label>)
    requires size > 0 && !CleanStarts(Boot(size), schedule)
    ensures k <= |schedule| && StartClears !in more && !Lossless(Exec(Boot(size), schedule[..k] + more))
  {
    k := FirstUncleanStart(Boot(size), schedule);
    ExecKeepsInv(Boot(size), size, schedule[..k]);
    more := UncleanStart(Exec(Boot(size), schedule[..k]), size);
    RestartedAt(Boot(size), schedule, k, more);
    k := k + 1;
  }

  /** Main result on the download: in whatever way a run goes on from any of its points without another start, no
      frame is lost or reordered, if and only if each of its starts is clean. */
  lemma DownloadIsLossless(size: nat, schedule: seq<Label>)
    requires size > 0
    ensures (forall k: nat, more | k <= |schedule| && StartClears !in more ::
              Lossless(Exec(Boot(size), schedule[..k] + more)))
            <==> CleanStarts(Boot(size), schedule)
  {
    if CleanStarts(Boot(size), schedule) {
      forall k: nat, more | k <= |schedule| && StartClears !in more
        ensures Lossless(Exec(Boot(size), schedule[..k] + more))
      {
        LosslessAfter(size, schedule, k, more);
      }
    } else {
      var k, more := LossAfter(size, schedule);
    }
  }

  /** Starts are not clean by themselves: as soon as the first one has reached the device there is credit under way. */
  lemma UnderWayIsReached(size: nat)
    requires size > FRAME_SIZE
    ensures CleanStarts(Boot(size), [StartClears, StartArrives])
    ensures var s := Exec(Boot(size), [StartClears, StartArrives]);
      && s == Boot(size).(phase := Running, credit := Batch(size))
      && s.reader.NotReading? && !CleanStart(s)
  {
    var way := [StartClears, StartArrives];
    var s1 := Step(Boot(size), way[0]);
    assert CleanStarts(s1, way[1..]) by {
      NoStartIsClean(s1, way[1..]);
    }
    assert Exec(s1, way[1..]) == Step(s1, way[1]);
  }

  /** Main result on progress: once the bus is quiet, a running download can go on, by reading or by sending,
      exactly when no request was lost or the device has ended the download. */
  lemma DownloadIsStuckIff(size: nat, schedule: seq<Label>)
    requires size > FRAME_SIZE && CleanStarts(Boot(size), schedule)
    ensures var s := Exec(Boot(size), schedule);
      |s.ring.buf| > 0
      && (s.phase.Running? && Quiet(s) && s.complete == s.finished && !s.reader.Requesting? ==>
            (ReadEnabled(s) || s.credit > 0 <==> !s.starved || s.complete))
  {
    ExecKeepsInv(Boot(size), size, schedule);
  }

  /** The device may send a batch, and everything before it was read. */
  ghost predicate AtBatch(s: State, n: nat) {
    && Valid(s.ring) && s.ring.buf != [] && n == Batch(|s.ring.buf|) > 0 && UsedSize(s.ring) == 0
    && s.phase.Running? && !s.finished && !s.complete && s.credit == n && s.received == 0
    && s.wire == [] && s.dispatch.Idle? && s.reader.NotReading?
  }

  /** A download whose requests arrive goes on, batch by batch. */
  lemma BatchAfterBatch(s: State, n: nat) returns (way: seq<Label>)
    requires AtBatch(s, n)
    ensures StartClears !in way
    ensures AtBatch(Exec(s, way), n) && |Exec(s, way).consumed| == |s.consumed| + 78 * n
  {
    var deliver, g, sent := Deliveries(s, n);
    var s1 := Exec(s, deliver);
    var readAll := ReadsAll(s1);
    var s2 := Exec(s1, readAll);
    ExecTwice(s, deliver, readAll + [RequestArrives]);
    ExecTwice(s1, readAll, [RequestArrives]);
    assert Exec(s2, [RequestArrives]) == Step(s2, RequestArrives);
    way := deliver + (readAll + [RequestArrives]);
  }

  lemma {:induction false} BatchesFollow(s: State, n: nat, k: nat) returns (way: seq<Label>)
    requires AtBatch(s, n)
    ensures StartClears !in way
    ensures AtBatch(Exec(s, way), n) && |Exec(s, way).consumed| == |s.consumed| + 78 * n * k
    decreases k
  {
    if k == 0 {
      way := [];
    } else {
      var first := BatchAfterBatch(s, n);
      var later := BatchesFollow(Exec(s, first), n, k - 1);
      ExecTwice(s, first, later);
      assert 78 * n * k == 78 * n * (k - 1) + 78 * n;
      way := first + later;
    }
  }

  /** Main result on delivery: one clean start is enough to read any number of batches. */
  lemma AnyNumberOfBatches(size: nat, k: nat) returns (way: seq<Label>)
    requires size > FRAME_SIZE
    ensures CleanStarts(Boot(size), way)
    ensures |Exec(Boot(size), way).consumed| == 78 * Batch(size) * k
  {
    UnderWayIsReached(size);
    var start := [StartClears, StartArrives];
    var s := Exec(Boot(size), start);
    assert AtBatch(s, Batch(size));
    way := BatchesFollow(s, Batch(size), k);
    ExecTwice(Boot(size), start, way);
    NoStartIsClean(s, way);
    CleanThenClean(Boot(size), start, way);
    way := start + way;
  }

  /** The last request never reached the device, which has not ended the download. */
  predicate Starved(s: State) {
    s.phase.Running? && s.starved && !s.finished && s.restarts == 0
  }

  /** A running download whose last request never reached the device. */
  ghost predicate Stuck(s: State, size: nat) {
    Inv(s, size) && Batch(size) > 0 && Starved(s)
  }

  lemma OthersKeepStarved(s: State, l: Label)
    requires Starved(s) && s.ring.buf != [] && Valid(s.ring) && l != StartClears && l != StopArrives
    ensures Starved(StartStep(s, l)) && Starved(DispatchStep(s, l)) && Starved(ReaderStep(s, l))
    ensures l != DeviceCompletes ==> Starved(DeviceStep(s, l))
  {
  }

  lemma StuckStays(s: State, size: nat, l: Label)
    requires Stuck(s, size) && l != StartClears && l != StopArrives && l != DeviceCompletes
    ensures Stuck(Step(s, l), size)
  {
    StepKeepsInv(s, size, l);
    OthersKeepStarved(s, l);
  }

  lemma StuckMeansIdle(s: State, size: nat)
    requires Stuck(s, size)
    ensures |s.ring.buf| > 0 && !ReadEnabled(s) && s.credit == 0 && Quiet(s)
  {
  }

  /** There are such downloads: the first batch arrives and is read, and the request for the next one is lost. */
  lemma StuckIsReached(size: nat) returns (way: seq<Label>)
    requires size > FRAME_SIZE
    ensures CleanStarts(Boot(size), way) && Stuck(Exec(Boot(size), way), size)
  {
    var first := [StartClears, StartArrives];
    UnderWayIsReached(size);
    var s1 := Exec(Boot(size), first);
    var middle, g, sent := Deliveries(s1, Batch(size));
    var s2 := Exec(s1, middle);
    var last := ReadsAll(s2);
    var s3 := Exec(s2, last);
    ExecTwice(s1, middle, last);
    ExecTwice(s1, middle + last, [RequestFails]);
    ExecTwice(Boot(size), first, middle + last + [RequestFails]);
    way := first + (middle + last + [RequestFails]);
    NoStartIsClean(s1, middle + last + [RequestFails]);
    CleanThenClean(Boot(size), first, middle + last + [RequestFails]);
    ExecKeepsInv(Boot(size), size, way);
    LostIsStarved(s3, size);
  }

  lemma LostIsStarved(s: State, size: nat)
    requires Valid(s.ring) && s.ring.buf != [] && s.reader.Requesting?
    ensures Exec(s, [RequestFails]) == s.(reader := NotReading, starved := true)
  {
    assert Exec(s, [RequestFails]) == Step(s, RequestFails);
  }

  /** A download whose request was lost stays stuck until it is started again, stopped, or ended by the device. */
  lemma {:induction false} LostRequestIsForever(s: State, size: nat, more: seq<Label>)
    requires Stuck(s, size) && StartClears !in more && StopArrives !in more && DeviceCompletes !in more
    ensures Stuck(Exec(s, more), size)
    ensures |Exec(s, more).ring.buf| > 0 && !ReadEnabled(Exec(s, more)) && Exec(s, more).credit == 0
    decreases |more|
  {
    if more == [] {
      StuckMeansIdle(s, size);
    } else {
      StuckStays(s, size, more[0]);
      LostRequestIsForever(Step(s, more[0]), size, more[1..]);
    }
  }

  /** The end has been announced, and no read call is past the point where it looks for that. */
  predicate Over(s: State) {
    s.complete && (s.reader.NotReading? || s.reader.Waiting? || s.reader.Copying? || s.reader.CheckingComplete?)
  }

  lemma OverStays(s: State, l: Label)
    requires Over(s) && l != StartClears
    ensures Over(Step(s, l))
  {
  }

  /** Main result on the end: once it is announced, no read call asks for another batch before the next start. */
  lemma {:induction false} NoRequestAfterEnd(s: State, more: seq<Label>)
    requires Over(s) && StartClears !in more
    ensures Over(Exec(s, more)) && !Exec(s, more).reader.Requesting?
    decreases |more|
  {
    if more != [] {
      OverStays(s, more[0]);
      NoRequestAfterEnd(Step(s, more[0]), more[1..]);
    }
  }

  // ------------------------------------------------------------------
  // What holds in every run, whether or not its starts are clean.

  ghost predicate RingOfSize(g: Ring, size: nat) {
    Valid(g) && |g.buf| == size > 0
  }

  lemma StepKeepsRing(s: State, size: nat, l: Label)
    requires RingOfSize(s.ring, size)
    ensures RingOfSize(Step(s, l).ring, size)
  {
    if l.DispatchWrites? && s.dispatch.Writing? {
      WriteRingAppends(s.ring, s.dispatch.frame);
    } else if l.ReadCopies? && s.reader.Copying? {
      ReadRingTakesPrefix(s.ring, s.reader.size);
    }
  }

  /** How many starts are issued and not answered yet after a step, when there were `n` of them before. */
  function StillUnanswered(n: nat, l: Label): nat {
    if l.StartClears? then n + 1 else if (l.StartArrives? || l.StartFails?) && n > 0 then n - 1 else n
  }

  function Unanswered(n: nat, schedule: seq<Label>): nat
    decreases |schedule|
  {
    if schedule == [] then n else Unanswered(StillUnanswered(n, schedule[0]), schedule[1..])
  }

  /** `n` starts are on their way. */
  predicate Answering(s: State, n: nat) {
    && s.restarts + (if s.phase.Starting? then 1 else 0) == n
    && (s.phase.Stopped? ==> n == 0)
    && (s.phase.Starting? ==> !s.finished)
    && (s.finished ==> s.credit == 0)
  }

  lemma StepAnswers(s: State, n: nat, l: Label)
    requires Answering(s, n) && Valid(s.ring) && s.ring.buf != []
    ensures Answering(Step(s, l), StillUnanswered(n, l))
  {
  }

  lemma {:induction false} StartsAreCounted(s: State, size: nat, n: nat, schedule: seq<Label>)
    requires RingOfSize(s.ring, size) && Answering(s, n)
    ensures RingOfSize(Exec(s, schedule).ring, size) && Answering(Exec(s, schedule), Unanswered(n, schedule))
    decreases |schedule|
  {
    if schedule != [] {
      var l := schedule[0];
      StepKeepsRing(s, size, l);
      StepAnswers(s, n, l);
      StartsAreCounted(Step(s, l), size, StillUnanswered(n, l), schedule[1..]);
    }
  }

  /** Whatever happened before, the device sends a batch for each start that reaches it, and a stop takes all credit. */
  lemma EveryStartIsAnswered(size: nat, schedule: seq<Label>)
    requires size > 0
    ensures var s := Exec(Boot(size), schedule);
      && (Unanswered(0, schedule) > 0 ==>
            var s' := Step(s, StartArrives);
            s'.phase.Running? && !s'.finished && s'.credit == Batch(size))
      && (s.phase.Running? ==> Ended(Step(s, StopArrives)))
  {
    StartsAreCounted(Boot(size), size, 0, schedule);
  }

  /** The device has ended the download, or has been told to. */
  predicate Ended(s: State) {
    s.phase.Running? && s.finished && s.credit == 0
  }

  lemma EndedStays(s: State, l: Label)
    requires Ended(s) && l != StartClears && l != StartArrives
    ensures Ended(Step(s, l)) && Step(s, l).sent == s.sent
  {
  }

  /** After that nothing is sent, whatever the reader asks for, until another start reaches the device. */
  lemma {:induction false} NothingAfterEnd(s: State, more: seq<Label>)
    requires Ended(s) && StartClears !in more && StartArrives !in more
    ensures Ended(Exec(s, more)) && Exec(s, more).sent == s.sent
    decreases |more|
  {
    if more != [] {
      EndedStays(s, more[0]);
      NothingAfterEnd(Step(s, more[0]), more[1..]);
    }
  }

  /** The bytes read, in the ring, dropped, or on their way to the ring. */
  ghost function Tally(s: State): nat
    requires Valid(s.ring)
  {
    |s.consumed| + |Contents(s.ring)| + 78 * (s.dropped + UnderWay(s))
  }

  lemma WriteTallies(s: State, size: nat)
    requires RingOfSize(s.ring, size) && FramesWhole(s) && s.dispatch.Writing?
    ensures var s' := DispatchStep(s, DispatchWrites);
      && RingOfSize(s'.ring, size) && FramesWhole(s') && s'.phase == s.phase
      && Tally(s') == Tally(s) && s'.sent == s.sent
  {
    WriteRingAppends(s.ring, s.dispatch.frame);
  }

  lemma CopyTallies(s: State, size: nat)
    requires RingOfSize(s.ring, size) && FramesWhole(s) && s.reader.Copying?
    ensures var s' := ReaderStep(s, ReadCopies);
      && RingOfSize(s'.ring, size) && FramesWhole(s') && s'.phase == s.phase
      && Tally(s') == Tally(s) && s'.sent == s.sent
  {
    var g, got := ReadRing(s.ring, s.reader.size), BytesRead(s.ring, s.reader.size);
    ReadRingTakesPrefix(s.ring, s.reader.size);
    assert |got| + |Contents(g)| == |Contents(s.ring)|;
    assert ReaderStep(s, ReadCopies) == s.(ring := g, consumed := s.consumed + got, reader := CheckingComplete);
  }

  /** The step from `s` to `s'` moves no byte into or out of the ring, and loses no frame. */
  predicate TalliesAlike(s: State, s': State) {
    && s'.ring == s.ring && s'.consumed == s.consumed && s'.phase == s.phase && FramesWhole(s')
    && 78 * (s'.dropped + UnderWay(s')) - |s'.sent| == 78 * (s.dropped + UnderWay(s)) - |s.sent|
  }

  lemma DispatchTallies(s: State, l: Label)
    requires Valid(s.ring) && FramesWhole(s) && !l.DispatchWrites?
    ensures TalliesAlike(s, DispatchStep(s, l))
  {
  }

  lemma DeviceTallies(s: State, l: Label)
    requires FramesWhole(s) && s.phase.Running?
    ensures TalliesAlike(s, DeviceStep(s, l))
  {
  }

  lemma OthersTally(s: State, l: Label)
    requires Valid(s.ring) && s.ring.buf != [] && FramesWhole(s) && s.phase.Running?
    requires !l.StartClears? && !l.ReadCopies?
    ensures TalliesAlike(s, StartStep(s, l)) && TalliesAlike(s, ReaderStep(s, l))
  {
  }

  lemma StepMovesOrTallies(s: State, l: Label)
    requires Valid(s.ring) && s.ring.buf != [] && FramesWhole(s) && s.phase.Running?
    requires !l.StartClears? && !(l.DispatchWrites? && s.dispatch.Writing?) && !(l.ReadCopies? && s.reader.Copying?)
    ensures TalliesAlike(s, Step(s, l))
  {
    if l.DispatchWrites? || l.ReadCopies? {
      assert Step(s, l) == s;
    } else {
      DispatchTallies(s, l);
      DeviceTallies(s, l);
      OthersTally(s, l);
    }
  }

  lemma StepTallies(s: State, size: nat, l: Label)
    requires RingOfSize(s.ring, size) && FramesWhole(s) && s.phase.Running? && !l.StartClears?
    ensures var s' := Step(s, l);
      && RingOfSize(s'.ring, size) && FramesWhole(s') && s'.phase.Running?
      && Tally(s') - |s'.sent| == Tally(s) - |s.sent|
  {
    if l.DispatchWrites? && s.dispatch.Writing? {
      WriteTallies(s, size);
    } else if l.ReadCopies? && s.reader.Copying? {
      CopyTallies(s, size);
    } else {
      StepMovesOrTallies(s, l);
    }
  }

  /** Main result on loss: while a download runs, clean or not, a frame that the ring refuses is dropped as a whole
      and counted, and nothing else is lost. */
  lemma {:induction false} EveryLossIsCounted(s: State, size: nat, more: seq<Label>)
    requires RingOfSize(s.ring, size) && FramesWhole(s) && s.phase.Running? && StartClears !in more
    ensures var s' := Exec(s, more);
      Valid(s'.ring) && Tally(s') - |s'.sent| == Tally(s) - |s.sent|
    decreases |more|
  {
    if more != [] {
      StepTallies(s, size, more[0]);
      EveryLossIsCounted(Step(s, more[0]), size, more[1..]);
    }
  }

  /** The driver's own ring and batch: 420 frames at a time. */
  lemma DriverBatch()
    ensures STORE_DATA_BUFFER_SIZE == 32768 && FRAME_SIZE == 78 && Batch(STORE_DATA_BUFFER_SIZE) == 420
  {
  }
}
