/** The transmit side: writers queue packed messages in a ring; one thread takes them out, limited by tokens and
    by a semaphore that counts transfers in flight. Every label is one step of one party, in any order. */
module Transmit {
  import opened ByteRing
  import opened CInts
  import opened Frames
  import Nonlinear
  import opened Sequences

  /** `MAX_TX_URBS`. */
  const PERMITS: nat := 4
  /** `APT_USBTRX_TX_TRANSFER_LIMIT_RATE`. */
  const LIMIT_RATE: int := 80

  /** What became of an accepted message. */
  datatype Fate = Submitted(msg: Msg) | Failed(msg: Msg) | Cleared(msg: Msg)

  /** Where the transmit thread stands. */
  datatype Thread =
    | Head
    | Clearing
    | Waits
    | ChecksExpiry
    | Refills
    | Gate
    | Acquires
    | ReadsHeader
    | ReadsRest(buffer: seq<byte>, remain: nat)
    | Charges

  /** Where the routine that stops the interface stands. */
  datatype Stopper = Resting | Asked | Trying | Holding

  /** A message on its way into the ring, with the pointers its writer loaded. */
  datatype Write = NoWrite | Pending(msg: Msg, pread: nat, pwrite: nat)

  /** The ring, the writer, the history of the messages, and the buffers given to `apt_usbtrx_setup_tx_urb`. */
  datatype Queue = Queue(
    ring: Ring,
    write: Write,
    accepted: seq<Msg>,
    queued: seq<Msg>,
    taken: seq<Msg>,
    fates: seq<Fate>,
    urbs: seq<seq<byte>>)

  /** Time in jiffies, the token bucket, and a count of its refills and of the transfers it let through. */
  datatype Limiter = Limiter(
    now: nat,
    expired: nat,
    token: int,
    rate: int,
    refills: nat,
    submitted: nat)

  /** Permits of `tx_usb_transfer_sem`: free, held by firmware writers, and passed on to transfers in flight. */
  datatype Permits = Permits(free: nat, fw: nat, inFlight: nat)

  /** `asked` is how many messages had been accepted when the stop routine last asked for a clear. */
  datatype State = State(
    queue: Queue,
    limiter: Limiter,
    permits: Permits,
    thread: Thread,
    stopper: Stopper,
    clearRequested: bool,
    asked: nat)

  datatype Label =
    | WriteLoads(msg: Msg) | WritePublishes
    | Ticks
    | RateNotified(rate: int)
    | ThreadStarts | ThreadCleared | ThreadWakes | ThreadTimesOut
    | ThreadChecksExpiry | ThreadRefills | ThreadPassesGate
    | ThreadAcquires | ThreadInterrupted
    | ThreadReadsHeader | ThreadFindsNothing | ThreadReadsRest | ThreadSubmits | ThreadFails | ThreadCharges
    | TransferCompletes
    | FwAcquires | FwSubmits | FwFails
    | StopAsks | StopSeesCleared | StopTries | StopReleases

  /** `interval` is `APT_USBTRX_TX_TOKEN_EXPIRED_TIME` in jiffies, `maxToken` is `tx_transfer_max_token`. */
  datatype Config = Config(cap: nat, maxToken: nat, interval: nat)

  function Boot(c: Config): State {
    State(Queue(Ring(seq(c.cap, _ => 0), 0, 0), NoWrite, [], [], [], [], []), Limiter(0, 0, 0, 0, 0, 0),
          Permits(PERMITS, 0, 0), Head, Resting, false, 0)
  }

  function AllCleared(ms: seq<Msg>): seq<Fate> {
    seq(|ms|, i requires 0 <= i < |ms| => Cleared(ms[i]))
  }

  // ------------------------------------------------------------------
  // Steps on the queue.

  /** `apt_usbtrx_write_tx_rb`: nothing is written for an empty or oversized payload or without room. */
  function BeginWrite(q: Queue, m: Msg): Queue {
    if q.write.Pending? || m.payload == [] || !ValidMsg(m) || FreeSize(q.ring) < FrameLength(m) then q
    else q.(write := Pending(m, q.ring.read, q.ring.write))
  }

  /** The plan the writer made from the pointers it loaded. */
  function PlanOf(cap: nat, w: Write): WritePlan
    requires w.Pending? && w.pread <= cap && w.pwrite <= cap
  {
    PlanWrite(cap, w.pread, w.pwrite, FrameLength(w.msg))
  }

  /** The frame goes where the plan says, whatever has become of the ring; what is refused there is not queued. */
  ghost function EndWrite(q: Queue): Queue {
    var w := q.write;
    if w.NoWrite? || !ValidMsg(w.msg) || w.pread > |q.ring.buf| || w.pwrite > |q.ring.buf| then q
    else
      var plan := PlanOf(|q.ring.buf|, w);
      if plan.Refuse? then q.(ring := q.ring.(write := w.pwrite), write := NoWrite)
      else
        q.(ring := Ring(Placed(q.ring.buf, w.pwrite, plan, Pack(w.msg)), q.ring.read, plan.next), write := NoWrite,
           accepted := q.accepted + [w.msg], queued := q.queued + [w.msg])
  }

  /** A clear is clean without a writer, or with one that starts from the beginning. */
  predicate CleanClear(q: Queue) {
    q.write.Pending? ==>
      && q.write.pread <= |q.ring.buf| && q.write.pwrite <= |q.ring.buf|
      && LetsClear(|q.ring.buf|, q.write.pread, q.write.pwrite, FrameLength(q.write.msg))
  }

  function ClearQueue(q: Queue): Queue {
    q.(ring := q.ring.(read := 0, write := 0), queued := [], fates := q.fates + AllCleared(q.queued))
  }

  /** The minimum that tells the length of the next message. */
  function Header(q: Queue): seq<byte>
    requires Valid(q.ring)
  {
    BytesRead(q.ring, CMD_MIN_LENGTH)
  }

  predicate HeaderUsable(q: Queue)
    requires Valid(q.ring)
  {
    |Header(q)| == CMD_MIN_LENGTH && CMD_MIN_LENGTH <= Header(q)[1] <= CMD_MAX_LENGTH
  }

  function TakeHeader(q: Queue): Queue
    requires Valid(q.ring)
  {
    var q' := q.(ring := ReadRing(q.ring, CMD_MIN_LENGTH));
    if HeaderUsable(q) && q.queued != [] then q'.(queued := q.queued[1..], taken := [q.queued[0]]) else q'
  }

  function TakeRest(q: Queue, n: nat): Queue
    requires Valid(q.ring)
  {
    q.(ring := ReadRing(q.ring, n))
  }

  /** Where the loop for the rest of a message stands after one more read. */
  function Fetched(q: Queue, buffer: seq<byte>, remain: nat): Thread
    requires Valid(q.ring)
  {
    var got := BytesRead(q.ring, remain);
    ReadsRest(buffer + got, remain - |got|)
  }

  function Finish(q: Queue, buffer: seq<byte>, how: Msg -> Fate): Queue {
    var q' := q.(urbs := q.urbs + [buffer], taken := []);
    if q.taken != [] then q'.(fates := q.fates + [how(q.taken[0])]) else q'
  }

  // ------------------------------------------------------------------
  // Steps of the parties.

  function Release(p: Permits): Permits { p.(free := p.free + 1) }

  /** `apt_usbtrx_tx_thread_func`. */
  ghost function ThreadStep(c: Config, s: State, l: Label): State
    requires Valid(s.queue.ring)
  {
    match (s.thread, l)
    case (Head, ThreadStarts) =>
      if s.clearRequested then s.(queue := ClearQueue(s.queue), thread := Clearing) else s.(thread := Waits)
    case (Clearing, ThreadCleared) => s.(clearRequested := false, thread := Head)
    case (Waits, ThreadWakes) => s.(thread := ChecksExpiry)
    case (Waits, ThreadTimesOut) => s.(thread := Head)
    case (ChecksExpiry, ThreadChecksExpiry) => s.(thread := if s.limiter.now > s.limiter.expired then Refills else Gate)
    case (Refills, ThreadRefills) =>
      s.(limiter := s.limiter.(
           expired := s.limiter.now + c.interval,
           token := if s.limiter.rate > LIMIT_RATE then 0 else c.maxToken,
           refills := s.limiter.refills + 1),
         thread := Gate)
    case (Gate, ThreadPassesGate) => s.(thread := if s.limiter.token <= 0 then Head else Acquires)
    case (Acquires, ThreadAcquires) =>
      if s.permits.free > 0 then s.(permits := s.permits.(free := s.permits.free - 1), thread := ReadsHeader) else s
    case (Acquires, ThreadInterrupted) => s.(thread := Head)
    case (ReadsHeader, ThreadReadsHeader) =>
      if HeaderUsable(s.queue) then
        s.(queue := TakeHeader(s.queue), thread := ReadsRest(Header(s.queue), Header(s.queue)[1] - CMD_MIN_LENGTH))
      else s.(queue := TakeHeader(s.queue), permits := Release(s.permits), thread := Head)
    // A message published since the thread looked at the write pointer is not seen yet.
    case (ReadsHeader, ThreadFindsNothing) => s.(permits := Release(s.permits), thread := Head)
    case (ReadsRest(buffer, remain), ThreadReadsRest) =>
      if remain > 0 then
        s.(queue := TakeRest(s.queue, remain), thread := Fetched(s.queue, buffer, remain))
      else s
    case (ReadsRest(buffer, remain), ThreadSubmits) =>
      if remain == 0 then
        s.(queue := Finish(s.queue, buffer, m => Submitted(m)),
           permits := s.permits.(inFlight := s.permits.inFlight + 1),
           limiter := s.limiter.(submitted := s.limiter.submitted + 1),
           thread := Charges)
      else s
    case (ReadsRest(buffer, remain), ThreadFails) =>
      if remain == 0 then
        s.(queue := Finish(s.queue, buffer, m => Failed(m)), permits := Release(s.permits), thread := Head)
      else s
    case (Charges, ThreadCharges) => s.(limiter := s.limiter.(token := s.limiter.token - 1), thread := Head)
    case _ => s
  }

  /** Completion callbacks and firmware writers. */
  function TransferStep(s: State, l: Label): State {
    var p := s.permits;
    match l
    case TransferCompletes => if p.inFlight > 0 then s.(permits := Release(p.(inFlight := p.inFlight - 1))) else s
    case FwAcquires => if p.free > 0 then s.(permits := p.(free := p.free - 1, fw := p.fw + 1)) else s
    case FwSubmits => if p.fw > 0 then s.(permits := p.(fw := p.fw - 1, inFlight := p.inFlight + 1)) else s
    case FwFails => if p.fw > 0 then s.(permits := Release(p.(fw := p.fw - 1))) else s
    case _ => s
  }

  /** `ep1_cf02a_stop_can_interface`, until a permit could be taken. */
  function StopperStep(s: State, l: Label): State {
    match (s.stopper, l)
    case (Resting, StopAsks) => s.(clearRequested := true, stopper := Asked, asked := |s.queue.accepted|)
    case (Asked, StopSeesCleared) => if s.clearRequested then s else s.(stopper := Trying)
    case (Trying, StopTries) =>
      if s.permits.free > 0 then s.(permits := s.permits.(free := s.permits.free - 1), stopper := Holding)
      else s.(stopper := Asked)
    case (Holding, StopReleases) => s.(permits := Release(s.permits), stopper := Resting)
    case _ => s
  }

  /** A label whose step is not possible changes nothing. */
  ghost function Step(c: Config, s: State, l: Label): State {
    if !Valid(s.queue.ring) then s else
    match l
    case WriteLoads(m) => s.(queue := BeginWrite(s.queue, m))
    case WritePublishes => s.(queue := EndWrite(s.queue))
    case Ticks => s.(limiter := s.limiter.(now := s.limiter.now + 1))
    case RateNotified(rate) => s.(limiter := s.limiter.(rate := rate))
    case TransferCompletes => TransferStep(s, l)
    case FwAcquires => TransferStep(s, l)
    case FwSubmits => TransferStep(s, l)
    case FwFails => TransferStep(s, l)
    case StopAsks => StopperStep(s, l)
    case StopSeesCleared => StopperStep(s, l)
    case StopTries => StopperStep(s, l)
    case StopReleases => StopperStep(s, l)
    case _ => ThreadStep(c, s, l)
  }

  // ------------------------------------------------------------------
  // Permits.

  function HeldByThread(t: Thread): nat {
    if t.ReadsHeader? || t.ReadsRest? then 1 else 0
  }

  function HeldByStopper(t: Stopper): nat {
    if t.Holding? then 1 else 0
  }

  predicate PermitsBalance(s: State) {
    s.permits.free + HeldByThread(s.thread) + s.permits.fw + HeldByStopper(s.stopper) + s.permits.inFlight == 4
  }

  lemma StepKeepsPermits(c: Config, s: State, l: Label)
    requires PermitsBalance(s)
    ensures PermitsBalance(Step(c, s, l))
  {
  }

  // ------------------------------------------------------------------
  // Rate.

  predicate PastGate(t: Thread) {
    t.Acquires? || t.ReadsHeader? || t.ReadsRest? || t.Charges?
  }

  predicate Bounded(c: Config, s: State) {
    var b := s.limiter;
    && b.token >= 0
    && (PastGate(s.thread) ==> b.token > 0)
    && b.submitted + b.token - (if s.thread.Charges? then 1 else 0) <= c.maxToken * b.refills
    && b.refills * (c.interval + 1) <= b.expired <= b.now + c.interval
    && (s.thread.Refills? ==> b.now > b.expired)
  }

  lemma RefillKeepsBounded(c: Config, s: State)
    requires Bounded(c, s) && Valid(s.queue.ring) && s.thread.Refills?
    ensures Bounded(c, ThreadStep(c, s, ThreadRefills))
  {
    var b := s.limiter;
    assert c.maxToken * (b.refills + 1) == c.maxToken * b.refills + c.maxToken;
    assert (b.refills + 1) * (c.interval + 1) == b.refills * (c.interval + 1) + c.interval + 1;
  }

  lemma ThreadKeepsBounded(c: Config, s: State, l: Label)
    requires Bounded(c, s) && Valid(s.queue.ring)
    ensures Bounded(c, ThreadStep(c, s, l))
  {
    if l.ThreadRefills? && s.thread.Refills? {
      RefillKeepsBounded(c, s);
    }
  }

  lemma StepKeepsBounded(c: Config, s: State, l: Label)
    requires Bounded(c, s)
    ensures Bounded(c, Step(c, s, l))
  {
    if Valid(s.queue.ring) {
      ThreadKeepsBounded(c, s, l);
    }
  }

  // ------------------------------------------------------------------
  // Alignment.

  function MsgsOf(fs: seq<Fate>): seq<Msg> {
    seq(|fs|, i requires 0 <= i < |fs| => fs[i].msg)
  }

  /** The buffers that the messages not cleared make, in order. */
  function Buffers(fs: seq<Fate>): seq<seq<byte>>
    requires AllValid(MsgsOf(fs))
  {
    if fs == [] then []
    else
      var last := |fs| - 1;
      assert MsgsOf(fs)[last] == fs[last].msg && MsgsOf(fs[..last]) == MsgsOf(fs)[..last];
      Buffers(fs[..last]) + if fs[last].Cleared? then [] else [Pack(fs[last].msg)]
  }

  /** Every accepted message has met its fate, is being taken, or is queued, in the order of acceptance, and what
      was given to the bus is what the messages not cleared pack to. */
  predicate Ledger(q: Queue) {
    && AllValid(q.accepted)
    && MsgsOf(q.fates) + q.taken + q.queued == q.accepted
    && AllValid(MsgsOf(q.fates)) && AllValid(q.taken) && AllValid(q.queued)
    && q.urbs == Buffers(q.fates)
  }

  /** The ring holds whole messages, except while the thread is within one. */
  predicate Framed(q: Queue, t: Thread, contents: seq<byte>)
    requires AllValid(q.taken) && AllValid(q.queued)
  {
    match t
    case ReadsRest(buffer, remain) =>
      && |q.taken| == 1
      && |buffer| + remain == |Pack(q.taken[0])|
      && buffer == Pack(q.taken[0])[..|buffer|]
      && contents == Pack(q.taken[0])[|buffer|..] + PackAll(q.queued)
    case _ => q.taken == [] && contents == PackAll(q.queued)
  }

  /** The writer's old view is still right. */
  predicate WriteOk(q: Queue)
    requires Valid(q.ring)
  {
    q.write.Pending? ==>
      ValidMsg(q.write.msg) && StillRight(q.ring, q.write.pread, q.write.pwrite, FrameLength(q.write.msg))
  }

  ghost predicate Aligned(q: Queue, t: Thread) {
    Valid(q.ring) && WriteOk(q) && Ledger(q) && Framed(q, t, Contents(q.ring))
  }

  lemma BeginKeepsAligned(q: Queue, t: Thread, m: Msg)
    requires Aligned(q, t)
    ensures Aligned(BeginWrite(q, m), t)
  {
  }

  /** What is queued with a frame more behind the contents. */
  lemma QueuedIsFramed(q: Queue, t: Thread, m: Msg, contents: seq<byte>)
    requires Ledger(q) && Framed(q, t, contents) && ValidMsg(m)
    ensures var q' := q.(accepted := q.accepted + [m], queued := q.queued + [m]);
      Ledger(q') && Framed(q', t, contents + Pack(m))
  {
    PackAllAppends(q.queued, m);
    Assoc(MsgsOf(q.fates) + q.taken, q.queued, [m]);
    if t.ReadsRest? {
      Assoc(Pack(q.taken[0])[|t.buffer|..], PackAll(q.queued), Pack(m));
    }
  }

  lemma EndKeepsAligned(q: Queue, t: Thread)
    requires Aligned(q, t)
    ensures Aligned(EndWrite(q), t)
  {
    var w := q.write;
    if w.Pending? && PlanOf(|q.ring.buf|, w).Store? {
      PlacedAppends(q.ring, w.pread, w.pwrite, Pack(w.msg));
      QueuedIsFramed(q, t, w.msg, Contents(q.ring));
    }
  }

  lemma {:induction false} ClearedMakeNoBuffers(fs: seq<Fate>, ms: seq<Msg>)
    requires AllValid(MsgsOf(fs)) && AllValid(ms)
    ensures MsgsOf(fs + AllCleared(ms)) == MsgsOf(fs) + ms
    ensures Buffers(fs + AllCleared(ms)) == Buffers(fs)
    decreases |ms|
  {
    var all := fs + AllCleared(ms);
    assert MsgsOf(all) == MsgsOf(fs) + ms;
    if ms == [] {
      assert all == fs;
    } else {
      var last := |ms| - 1;
      ClearedMakeNoBuffers(fs, ms[..last]);
      assert all[..|all| - 1] == fs + AllCleared(ms[..last]);
      assert all[|all| - 1] == Cleared(ms[last]);
    }
  }

  lemma ClearKeepsAligned(q: Queue)
    requires Aligned(q, Head) && CleanClear(q)
    ensures Aligned(ClearQueue(q), Clearing)
  {
    if q.write.Pending? {
      StillRightAfterClear(q.ring, q.write.pread, q.write.pwrite, FrameLength(q.write.msg));
    }
    ClearedMakeNoBuffers(q.fates, q.queued);
    assert MsgsOf(q.fates) + [] == MsgsOf(q.fates);
    assert MsgsOf(q.fates + AllCleared(q.queued)) + [] + [] == q.accepted;
  }

  /** At the header the ring is empty or starts with a whole message, whose length the header tells. */
  lemma HeaderIsWhole(q: Queue)
    requires Aligned(q, ReadsHeader)
    ensures |Header(q)| == 0 || |Header(q)| == CMD_MIN_LENGTH
    ensures HeaderUsable(q) <==> q.queued != []
    ensures |Header(q)| == 0 <==> q.queued == []
    ensures q.queued != [] ==> Header(q) == Pack(q.queued[0])[..CMD_MIN_LENGTH] && Header(q)[1] == |Pack(q.queued[0])|
  {
    if q.queued != [] {
      assert Contents(q.ring) == Pack(q.queued[0]) + PackAll(q.queued[1..]);
      assert Contents(q.ring)[..CMD_MIN_LENGTH] == Pack(q.queued[0])[..CMD_MIN_LENGTH];
    }
  }

  lemma LedgerTakes(q: Queue)
    requires Ledger(q) && q.taken == [] && q.queued != []
    ensures Ledger(q.(queued := q.queued[1..], taken := [q.queued[0]]))
  {
    assert MsgsOf(q.fates) + [] == MsgsOf(q.fates) && [q.queued[0]] + q.queued[1..] == q.queued;
    Assoc(MsgsOf(q.fates), [q.queued[0]], q.queued[1..]);
  }

  /** The writer's old view outlives a read. */
  lemma ReadKeepsWriteOk(q: Queue, size: nat)
    requires Valid(q.ring) && WriteOk(q)
    ensures Valid(ReadRing(q.ring, size)) && WriteOk(q.(ring := ReadRing(q.ring, size)))
  {
    ReadRingTakesPrefix(q.ring, size);
    if size > 0 && q.write.Pending? {
      var plan := PlanRead(|q.ring.buf|, q.ring.read, q.ring.write, size);
      PlanReadCounts(q.ring, size);
      if plan.first + plan.second > 0 {
        StillRightAfterRead(q.ring, q.write.pread, q.write.pwrite, FrameLength(q.write.msg), plan,
                            plan.first + plan.second);
      } else {
        UsedSizeIsLength(q.ring);
      }
    }
  }

  lemma HeaderKeepsAligned(q: Queue)
    requires Aligned(q, ReadsHeader)
    ensures Aligned(TakeHeader(q),
                    if HeaderUsable(q) then ReadsRest(Header(q), Header(q)[1] - CMD_MIN_LENGTH) else Head)
  {
    HeaderIsWhole(q);
    ReadKeepsWriteOk(q, CMD_MIN_LENGTH);
    ReadRingTakesPrefix(q.ring, CMD_MIN_LENGTH);
    if q.queued != [] {
      LedgerTakes(q);
      CutWithinFirst(Header(q), Contents(ReadRing(q.ring, CMD_MIN_LENGTH)), Pack(q.queued[0]), PackAll(q.queued[1..]));
    }
  }

  /** One read fetches all that remains of the message. */
  lemma RestIsThere(q: Queue, t: Thread)
    requires Aligned(q, t) && t.ReadsRest? && t.remain > 0
    ensures |BytesRead(q.ring, t.remain)| == t.remain
    ensures t.buffer + BytesRead(q.ring, t.remain) == Pack(q.taken[0])
  {
    var frame := Pack(q.taken[0]);
    TakeFirst(frame[|t.buffer|..], PackAll(q.queued));
    assert frame[..|t.buffer|] + frame[|t.buffer|..] == frame;
  }

  lemma RestIsFramed(q: Queue, t: Thread, got: seq<byte>, after: seq<byte>, g: Ring)
    requires Ledger(q) && t.ReadsRest? && Framed(q, t, got + after) && |got| == t.remain
    ensures Framed(q.(ring := g), ReadsRest(t.buffer + got, 0), after)
  {
    var frame, n := Pack(q.taken[0]), |t.buffer|;
    CutWithinFirst(got, after, frame[n..], PackAll(q.queued));
    assert frame[..n] + frame[n..] == frame;
    assert frame[n..][|got|..] + PackAll(q.queued) == PackAll(q.queued) && frame[|frame|..] == [];
    assert [] + PackAll(q.queued) == PackAll(q.queued) && frame[..|frame|] == frame;
  }

  lemma RestKeepsAligned(q: Queue, t: Thread)
    requires Aligned(q, t) && t.ReadsRest? && t.remain > 0
    ensures Aligned(TakeRest(q, t.remain), Fetched(q, t.buffer, t.remain))
  {
    RestIsThere(q, t);
    ReadKeepsWriteOk(q, t.remain);
    ReadRingTakesPrefix(q.ring, t.remain);
    var g := ReadRing(q.ring, t.remain);
    RestIsFramed(q, t, BytesRead(q.ring, t.remain), Contents(g), g);
  }

  lemma FinishKeepsAligned(q: Queue, t: Thread, how: Msg -> Fate, t': Thread)
    requires Aligned(q, t) && t.ReadsRest? && t.remain == 0 && !t'.ReadsRest?
    requires forall m :: how(m).msg == m && !how(m).Cleared?
    ensures Aligned(Finish(q, t.buffer, how), t')
  {
    var m, f := q.taken[0], how(q.taken[0]);
    assert (q.fates + [f])[..|q.fates|] == q.fates;
    assert MsgsOf(q.fates + [f]) == MsgsOf(q.fates) + [m];
    assert q.taken == [m] && t.buffer == Pack(m);
    assert MsgsOf(q.fates) + [m] + [] == MsgsOf(q.fates) + [m];
    assert Contents(q.ring) == PackAll(q.queued);
  }

  predicate MovesBytes(l: Label) {
    l.ThreadStarts? || l.ThreadReadsHeader? || l.ThreadReadsRest? || l.ThreadSubmits? || l.ThreadFails?
  }

  lemma FinishingKeepsAligned(c: Config, s: State, l: Label)
    requires Aligned(s.queue, s.thread) && (l.ThreadSubmits? || l.ThreadFails?)
    ensures var s' := ThreadStep(c, s, l); Aligned(s'.queue, s'.thread)
  {
    if s.thread.ReadsRest? && s.thread.remain == 0 {
      if l.ThreadSubmits? {
        FinishKeepsAligned(s.queue, s.thread, m => Submitted(m), Charges);
      } else {
        FinishKeepsAligned(s.queue, s.thread, m => Failed(m), Head);
      }
    }
  }

  lemma FetchingKeepsAligned(c: Config, s: State)
    requires Aligned(s.queue, s.thread)
    ensures var s' := ThreadStep(c, s, ThreadReadsRest); Aligned(s'.queue, s'.thread)
  {
    if s.thread.ReadsRest? && s.thread.remain > 0 {
      RestKeepsAligned(s.queue, s.thread);
    }
  }

  /** The thread empties the ring with this step. */
  predicate Clears(s: State, l: Label) {
    l.ThreadStarts? && s.thread.Head? && s.clearRequested
  }

  lemma StartingKeepsAligned(c: Config, s: State)
    requires Aligned(s.queue, s.thread) && (Clears(s, ThreadStarts) ==> CleanClear(s.queue))
    ensures var s' := ThreadStep(c, s, ThreadStarts); Aligned(s'.queue, s'.thread)
  {
    if Clears(s, ThreadStarts) {
      ClearKeepsAligned(s.queue);
    }
  }

  lemma HeadingKeepsAligned(c: Config, s: State)
    requires Aligned(s.queue, s.thread)
    ensures var s' := ThreadStep(c, s, ThreadReadsHeader); Aligned(s'.queue, s'.thread)
  {
    if s.thread.ReadsHeader? {
      HeaderKeepsAligned(s.queue);
    }
  }

  lemma MovingKeepsAligned(c: Config, s: State, l: Label)
    requires Aligned(s.queue, s.thread) && MovesBytes(l) && (Clears(s, l) ==> CleanClear(s.queue))
    ensures var s' := ThreadStep(c, s, l); Aligned(s'.queue, s'.thread)
  {
    match l
    case ThreadStarts => StartingKeepsAligned(c, s);
    case ThreadReadsHeader => HeadingKeepsAligned(c, s);
    case ThreadReadsRest => FetchingKeepsAligned(c, s);
    case _ => FinishingKeepsAligned(c, s, l);
  }

  lemma OthersMoveNothing(c: Config, s: State, l: Label)
    requires !MovesBytes(l) && !l.WriteLoads? && !l.WritePublishes?
    ensures var s' := Step(c, s, l);
      s'.queue == s.queue && (s'.thread == s.thread || (!s'.thread.ReadsRest? && !s.thread.ReadsRest?))
  {
  }

  lemma StepKeepsAligned(c: Config, s: State, l: Label)
    requires Aligned(s.queue, s.thread) && (Clears(s, l) ==> CleanClear(s.queue))
    ensures Aligned(Step(c, s, l).queue, Step(c, s, l).thread)
  {
    if l.WriteLoads? {
      BeginKeepsAligned(s.queue, s.thread, l.msg);
    } else if l.WritePublishes? {
      EndKeepsAligned(s.queue, s.thread);
    } else if MovesBytes(l) {
      MovingKeepsAligned(c, s, l);
    } else {
      OthersMoveNothing(c, s, l);
    }
  }

  // ------------------------------------------------------------------
  // Stopping.

  /** A request to clear is open until the thread, between two messages, has emptied the ring. */
  predicate Clearable(s: State) {
    && s.asked <= |s.queue.accepted|
    && (s.thread.Clearing? ==> s.clearRequested && |s.queue.fates| >= s.asked)
    && (!s.clearRequested ==> |s.queue.fates| >= s.asked)
    && (!s.stopper.Asked? ==> !s.clearRequested)
  }

  /** However the clears fall, every accepted message is queued, being taken, or has met its fate. */
  predicate Counted(s: State) {
    && |s.queue.fates| + |s.queue.taken| + |s.queue.queued| == |s.queue.accepted|
    && |s.queue.taken| <= (if s.thread.ReadsRest? then 1 else 0)
  }

  lemma ThreadKeepsCounted(c: Config, s: State, l: Label)
    requires Counted(s) && Valid(s.queue.ring)
    ensures Counted(ThreadStep(c, s, l))
  {
  }

  lemma StepKeepsCounted(c: Config, s: State, l: Label)
    requires Counted(s)
    ensures Counted(Step(c, s, l))
  {
    if Valid(s.queue.ring) {
      ThreadKeepsCounted(c, s, l);
    }
  }

  lemma HistoryGrows(c: Config, s: State, l: Label)
    ensures var q' := Step(c, s, l).queue; |q'.fates| >= |s.queue.fates| && |q'.accepted| >= |s.queue.accepted|
  {
  }

  /** The request is left alone, met while nothing has cleared it, or withdrawn by the thread after a clear. */
  predicate RequestKept(s: State, s': State) {
    && s'.asked == s.asked
    && (s'.thread.Clearing? && !s.thread.Clearing? ==>
          s.clearRequested && s'.clearRequested && s.thread.Head? && s'.queue == ClearQueue(s.queue))
    && (s'.clearRequested == s.clearRequested || (!s'.clearRequested && s.thread.Clearing? && !s'.thread.Clearing?))
    && (s.stopper.Asked? && !s'.stopper.Asked? ==> !s.clearRequested)
  }

  lemma ThreadKeepsRequest(c: Config, s: State, l: Label)
    requires Valid(s.queue.ring)
    ensures RequestKept(s, ThreadStep(c, s, l))
  {
  }

  lemma OthersKeepRequest(s: State, l: Label)
    requires !(l.StopAsks? && s.stopper.Resting?)
    ensures RequestKept(s, TransferStep(s, l)) && RequestKept(s, StopperStep(s, l))
  {
  }

  /** Who changes the request, and when. */
  lemma RequestSteps(c: Config, s: State, l: Label)
    ensures var s' := Step(c, s, l);
      if l.StopAsks? && s.stopper.Resting? && Valid(s.queue.ring) then
        && s'.clearRequested && s'.stopper.Asked? && s'.thread == s.thread
        && s'.asked == |s.queue.accepted| == |s'.queue.accepted|
      else RequestKept(s, s')
  {
    if Valid(s.queue.ring) && !(l.StopAsks? && s.stopper.Resting?) {
      ThreadKeepsRequest(c, s, l);
      OthersKeepRequest(s, l);
    }
  }

  lemma StepKeepsClearable(c: Config, s: State, l: Label)
    requires Clearable(s) && Counted(s)
    ensures Clearable(Step(c, s, l))
  {
    HistoryGrows(c, s, l);
    RequestSteps(c, s, l);
  }

  // ------------------------------------------------------------------
  // Whole runs.

  /** The state after a schedule of steps. */
  ghost function Exec(c: Config, s: State, schedule: seq<Label>): State
    decreases |schedule|
  {
    if schedule == [] then s else Exec(c, Step(c, s, schedule[0]), schedule[1..])
  }

  /** What holds in every run, */
  predicate Fine(c: Config, s: State) {
    PermitsBalance(s) && Bounded(c, s) && Counted(s) && Clearable(s)
  }

  lemma {:induction false} ExecKeepsFine(c: Config, s: State, schedule: seq<Label>)
    requires Fine(c, s)
    ensures Fine(c, Exec(c, s, schedule))
    decreases |schedule|
  {
    if schedule != [] {
      StepKeepsPermits(c, s, schedule[0]);
      StepKeepsBounded(c, s, schedule[0]);
      StepKeepsCounted(c, s, schedule[0]);
      StepKeepsClearable(c, s, schedule[0]);
      ExecKeepsFine(c, Step(c, s, schedule[0]), schedule[1..]);
    }
  }

  lemma BootIsFine(c: Config)
    ensures Fine(c, Boot(c)) && Aligned(Boot(c).queue, Boot(c).thread)
  {
  }

  /** and in every run in which the thread clears the ring cleanly. */
  ghost predicate CleanClears(c: Config, s: State, schedule: seq<Label>)
    decreases |schedule|
  {
    schedule == [] ||
    ((Clears(s, schedule[0]) ==> CleanClear(s.queue)) && CleanClears(c, Step(c, s, schedule[0]), schedule[1..]))
  }

  lemma {:induction false} ExecKeepsAligned(c: Config, s: State, schedule: seq<Label>)
    requires Aligned(s.queue, s.thread) && CleanClears(c, s, schedule)
    ensures Aligned(Exec(c, s, schedule).queue, Exec(c, s, schedule).thread)
    decreases |schedule|
  {
    if schedule != [] {
      StepKeepsAligned(c, s, schedule[0]);
      ExecKeepsAligned(c, Step(c, s, schedule[0]), schedule[1..]);
    }
  }

  /** The bus was given exactly the accepted messages that were not cleared, whole and in order; the header read finds
      nothing or a header, and one more read finds the rest. */
  ghost predicate InStep(s: State) {
    var q := s.queue;
    && Valid(q.ring) && AllValid(MsgsOf(q.fates)) && AllValid(q.taken) && AllValid(q.queued)
    && MsgsOf(q.fates) + q.taken + q.queued == q.accepted
    && q.urbs == Buffers(q.fates)
    && (s.thread.Head? ==> q.taken == [] && Contents(q.ring) == PackAll(q.queued))
    && (s.thread.ReadsHeader? ==>
          if q.queued == [] then Header(q) == [] else HeaderUsable(q) && Header(q)[1] == FrameLength(q.queued[0]))
    && (s.thread.ReadsRest? && s.thread.remain > 0 ==>
          |BytesRead(q.ring, s.thread.remain)| == s.thread.remain)
    && (s.thread.ReadsRest? && s.thread.remain == 0 ==> q.taken != [] && s.thread.buffer == Pack(q.taken[0]))
  }

  lemma AlignedMeansInStep(s: State)
    requires Aligned(s.queue, s.thread)
    ensures InStep(s)
  {
    if s.thread.ReadsHeader? {
      HeaderIsWhole(s.queue);
    } else if s.thread.ReadsRest? && s.thread.remain > 0 {
      RestIsThere(s.queue, s.thread);
    }
  }

  lemma {:induction false} ExecTwice(c: Config, s: State, first: seq<Label>, more: seq<Label>)
    ensures Exec(c, s, first + more) == Exec(c, Exec(c, s, first), more)
    decreases |first|
  {
    if first == [] {
      assert first + more == more;
    } else {
      assert (first + more)[1..] == first[1..] + more;
      ExecTwice(c, Step(c, s, first[0]), first[1..], more);
    }
  }

  lemma {:induction false} NoStartIsClean(c: Config, s: State, more: seq<Label>)
    requires ThreadStarts !in more
    ensures CleanClears(c, s, more)
    decreases |more|
  {
    if more != [] {
      NoStartIsClean(c, Step(c, s, more[0]), more[1..]);
    }
  }

  lemma {:induction false} CleanThenClean(c: Config, s: State, first: seq<Label>, more: seq<Label>)
    ensures CleanClears(c, s, first + more) <==> CleanClears(c, s, first) && CleanClears(c, Exec(c, s, first), more)
    decreases |first|
  {
    if first == [] {
      assert first + more == more;
    } else {
      assert (first + more)[1..] == first[1..] + more;
      CleanThenClean(c, Step(c, s, first[0]), first[1..], more);
    }
  }

  lemma {:induction false} FirstUncleanClear(c: Config, s: State, schedule: seq<Label>) returns (k: nat)
    requires !CleanClears(c, s, schedule)
    ensures k < |schedule| && CleanClears(c, s, schedule[..k])
    ensures Clears(Exec(c, s, schedule[..k]), schedule[k]) && !CleanClear(Exec(c, s, schedule[..k]).queue)
    decreases |schedule|
  {
    if Clears(s, schedule[0]) && !CleanClear(s.queue) {
      k := 0;
    } else {
      k := FirstUncleanClear(c, Step(c, s, schedule[0]), schedule[1..]);
      k := k + 1;
      assert schedule[..k][1..] == schedule[1..][..k - 1];
    }
  }

  /** Once the writer has published, the ring holds something else than what is queued. */
  lemma UncleanClear(c: Config, s: State)
    requires Aligned(s.queue, s.thread) && Clears(s, ThreadStarts) && !CleanClear(s.queue)
    ensures !InStep(Exec(c, s, [ThreadStarts, WritePublishes, ThreadCleared]))
  {
    var way := [ThreadStarts, WritePublishes, ThreadCleared];
    var q := s.queue;
    LetsClearIff(|q.ring.buf|, q.write.pread, q.write.pwrite, FrameLength(q.write.msg));
    var s1 := s.(queue := ClearQueue(q), thread := Clearing);
    assert Step(c, s, way[0]) == s1;
    var s2 := s1.(queue := EndWrite(s1.queue));
    assert Step(c, s1, way[1]) == s2;
    PublishedPastQueue(s1.queue);
    assert Exec(c, s2, way[2..]) == Step(c, s2, way[2]);
    assert Exec(c, s1, way[1..]) == Exec(c, s2, way[2..]);
    assert Exec(c, s, way) == Exec(c, s1, way[1..]);
  }

  lemma PublishedPastQueue(q: Queue)
    requires q.write.Pending? && ValidMsg(q.write.msg) && q.queued == [] && q.ring.read == q.ring.write == 0
    requires q.write.pread <= |q.ring.buf| && q.write.pwrite <= |q.ring.buf|
    requires var plan := PlanOf(|q.ring.buf|, q.write);
      if plan.Store? then plan.next != FrameLength(q.write.msg) else q.write.pwrite != 0
    ensures var q' := EndWrite(q);
      Valid(q'.ring) && AllValid(q'.queued) && |Contents(q'.ring)| != |PackAll(q'.queued)|
  {
    var m := q.write.msg;
    assert [] + [m] == [m] && PackAll([m]) == Pack(m) + PackAll([m][1..]) && [m][1..] == [];
  }

  lemma InStepAfter(c: Config, schedule: seq<Label>, k: nat, more: seq<Label>)
    requires CleanClears(c, Boot(c), schedule) && k <= |schedule| && ThreadStarts !in more
    ensures InStep(Exec(c, Boot(c), schedule[..k] + more))
  {
    assert schedule == schedule[..k] + schedule[k..];
    CleanThenClean(c, Boot(c), schedule[..k], schedule[k..]);
    CleanThenClean(c, Boot(c), schedule[..k], more);
    NoStartIsClean(c, Exec(c, Boot(c), schedule[..k]), more);
    BootIsFine(c);
    ExecKeepsAligned(c, Boot(c), schedule[..k] + more);
    AlignedMeansInStep(Exec(c, Boot(c), schedule[..k] + more));
  }

  lemma OutOfStepAfter(c: Config, schedule: seq<Label>) returns (k: nat, more: seq<Label>)
    requires !CleanClears(c, Boot(c), schedule)
    ensures k <= |schedule| && ThreadStarts !in more && !InStep(Exec(c, Boot(c), schedule[..k] + more))
  {
    k := FirstUncleanClear(c, Boot(c), schedule);
    BootIsFine(c);
    ExecKeepsAligned(c, Boot(c), schedule[..k]);
    UncleanClear(c, Exec(c, Boot(c), schedule[..k]));
    more := [WritePublishes, ThreadCleared];
    assert schedule[..k + 1] + more == schedule[..k] + [ThreadStarts, WritePublishes, ThreadCleared];
    ExecTwice(c, Boot(c), schedule[..k], [ThreadStarts, WritePublishes, ThreadCleared]);
    k := k + 1;
  }

  /** Main result on alignment: in whatever way a run goes on from any of its points while the thread finishes its
      round, queue and bus stay in step, if and only if each of the run's clears is clean. */
  lemma TransmitStaysAligned(c: Config, schedule: seq<Label>)
    ensures (forall k: nat, more | k <= |schedule| && ThreadStarts !in more ::
              InStep(Exec(c, Boot(c), schedule[..k] + more)))
            <==> CleanClears(c, Boot(c), schedule)
  {
    if CleanClears(c, Boot(c), schedule) {
      forall k: nat, more | k <= |schedule| && ThreadStarts !in more
        ensures InStep(Exec(c, Boot(c), schedule[..k] + more))
      {
        InStepAfter(c, schedule, k, more);
      }
    } else {
      var k, more := OutOfStepAfter(c, schedule);
    }
  }

  const ANY_MSG: Msg := Msg(0, [0])

  /** Such clears occur: one message is queued and the next one is being written when the stop routine asks. */
  lemma UncleanClearIsReached(c: Config)
    requires c.cap >= 10
    ensures !CleanClears(c, Boot(c), [WriteLoads(ANY_MSG), WritePublishes, WriteLoads(ANY_MSG), StopAsks, ThreadStarts])
  {
    var way := [WriteLoads(ANY_MSG), WritePublishes, WriteLoads(ANY_MSG), StopAsks, ThreadStarts];
    var s1 := Step(c, Boot(c), way[0]);
    assert s1.queue.write == Pending(ANY_MSG, 0, 0);
    var s2 := Step(c, s1, way[1]);
    assert s2.queue.ring.write == 5 && s2.queue.ring.read == 0 && |s2.queue.ring.buf| == c.cap;
    var s3 := Step(c, s2, way[2]);
    assert s3.queue.write == Pending(ANY_MSG, 0, 5);
    var s4 := Step(c, s3, way[3]);
    assert Clears(s4, ThreadStarts) && !CleanClear(s4.queue);
    assert !CleanClears(c, s4, way[4..]);
    assert !CleanClears(c, s3, way[3..]) by { assert way[3..][1..] == way[4..]; }
    assert !CleanClears(c, s2, way[2..]) by { assert way[2..][1..] == way[3..]; }
    assert !CleanClears(c, s1, way[1..]) by { assert way[1..][1..] == way[2..]; }
  }

  /** Main result on the semaphore: every permit is free, held by one party, or with a transfer in flight. */
  lemma AtMostFourInFlight(c: Config, schedule: seq<Label>)
    ensures var s := Exec(c, Boot(c), schedule);
      && s.permits.free + HeldByThread(s.thread) + s.permits.fw + HeldByStopper(s.stopper)
         + s.permits.inFlight == 4
      && s.permits.inFlight <= 4
  {
    BootIsFine(c);
    ExecKeepsFine(c, Boot(c), schedule);
  }

  /** Main result on stopping: when the stop routine goes on, every message accepted before it asked has been given
      to the bus or cleared. */
  lemma StopLeavesNothingBehind(c: Config, schedule: seq<Label>)
    ensures var s := Exec(c, Boot(c), schedule);
      s.stopper.Trying? || s.stopper.Holding? ==> |s.queue.fates| >= s.asked && !s.clearRequested
  {
    BootIsFine(c);
    ExecKeepsFine(c, Boot(c), schedule);
  }

  lemma RefillsInTime(refills: nat, now: nat, interval: nat)
    requires refills * (interval + 1) <= now + interval
    ensures refills <= (now + interval) / (interval + 1) <= now / (interval + 1) + 1
  {
    var d := interval + 1;
    Nonlinear.DivIs(now + interval, d, refills);
    Nonlinear.DivIs(now, d, 0);
    assert (now / d + 2) * d == (now / d + 1) * d + d;
    Nonlinear.DivIs(now + interval, d, now / d + 2);
  }

  /** No more than one full bucket for every interval begun. */
  predicate WithinRate(c: Config, b: Limiter) {
    b.submitted <= c.maxToken * (b.now / (c.interval + 1) + 1)
  }

  lemma BoundedByTime(c: Config, s: State)
    requires Bounded(c, s)
    ensures WithinRate(c, s.limiter)
  {
    var b := s.limiter;
    RefillsInTime(b.refills, b.now, c.interval);
    Nonlinear.MulLe(c.maxToken, b.refills, b.now / (c.interval + 1) + 1);
  }

  /** Main result on the rate: what the thread submitted by jiffy `now` is bounded by the refills there was time for. */
  lemma RateIsBounded(c: Config, schedule: seq<Label>)
    ensures WithinRate(c, Exec(c, Boot(c), schedule).limiter)
  {
    BootIsFine(c);
    ExecKeepsFine(c, Boot(c), schedule);
    BoundedByTime(c, Exec(c, Boot(c), schedule));
  }

  // ------------------------------------------------------------------
  // Throttling and progress.

  /** What a refill makes of the last rate notified: nothing above 80, a full bucket otherwise. */
  lemma RefillByRate(c: Config, s: State)
    requires Valid(s.queue.ring) && s.thread.Refills?
    ensures var s' := Step(c, s, ThreadRefills);
      && s'.thread == Gate && s'.limiter.expired == s.limiter.now + c.interval
      && (s.limiter.rate > 80 ==> s'.limiter.token == 0)
      && (s.limiter.rate <= 80 ==> s'.limiter.token == c.maxToken)
      && s' == s.(thread := s'.thread, limiter := s'.limiter)
  {
  }

  lemma StepKeepsRate(c: Config, s: State, l: Label)
    requires !l.RateNotified?
    ensures Step(c, s, l).limiter.rate == s.limiter.rate
  {
  }

  lemma {:induction false} RateStays(c: Config, s: State, more: seq<Label>)
    requires forall l | l in more :: !l.RateNotified?
    ensures Exec(c, s, more).limiter.rate == s.limiter.rate
    decreases |more|
  {
    if more != [] {
      StepKeepsRate(c, s, more[0]);
      RateStays(c, Step(c, s, more[0]), more[1..]);
    }
  }

  /** The rate notified last is the one that a refill goes by. */
  lemma LastRateDecides(c: Config, s: State, rate: int, more: seq<Label>)
    requires Valid(s.queue.ring) && forall l | l in more :: !l.RateNotified?
    ensures var s' := Exec(c, Step(c, s, RateNotified(rate)), more);
      Valid(s'.queue.ring) && s'.thread.Refills? ==>
        Step(c, s', ThreadRefills).limiter.token == if rate > 80 then 0 else c.maxToken
  {
    var s' := Exec(c, Step(c, s, RateNotified(rate)), more);
    RateStays(c, Step(c, s, RateNotified(rate)), more);
    if Valid(s'.queue.ring) && s'.thread.Refills? {
      RefillByRate(c, s');
    }
  }

  /** Every refill on the way sees a rate above 80. */
  ghost predicate HighRates(c: Config, s: State, more: seq<Label>)
    decreases |more|
  {
    more == [] ||
    ((more[0].ThreadRefills? && s.thread.Refills? ==> s.limiter.rate > 80)
     && HighRates(c, Step(c, s, more[0]), more[1..]))
  }

  lemma EmptyBucketStays(c: Config, s: State, l: Label)
    requires s.limiter.token == 0 && !PastGate(s.thread)
    requires l.ThreadRefills? && s.thread.Refills? ==> s.limiter.rate > 80
    ensures var s' := Step(c, s, l);
      s'.limiter.token == 0 && !PastGate(s'.thread) && s'.limiter.submitted == s.limiter.submitted
  {
  }

  lemma {:induction false} EmptyBucketSubmitsNothing(c: Config, s: State, more: seq<Label>)
    requires s.limiter.token == 0 && !PastGate(s.thread) && HighRates(c, s, more)
    ensures Exec(c, s, more).limiter.submitted == s.limiter.submitted
    decreases |more|
  {
    if more != [] {
      EmptyBucketStays(c, s, more[0]);
      EmptyBucketSubmitsNothing(c, Step(c, s, more[0]), more[1..]);
    }
  }

  /** Main result on throttling: after a refill at a rate above 80 nothing is submitted before one at 80 or less. */
  lemma ThrottlingStopsTransfers(c: Config, schedule: seq<Label>, more: seq<Label>)
    requires var s := Exec(c, Boot(c), schedule);
      && Valid(s.queue.ring) && s.thread.Refills? && s.limiter.rate > 80
      && HighRates(c, Step(c, s, ThreadRefills), more)
    ensures var s := Exec(c, Boot(c), schedule);
      Exec(c, Step(c, s, ThreadRefills), more).limiter.submitted == s.limiter.submitted
  {
    var s := Exec(c, Boot(c), schedule);
    RefillByRate(c, s);
    EmptyBucketSubmitsNothing(c, Step(c, s, ThreadRefills), more);
  }

  /** The rate and the time allow a message to go: there are tokens left, or the interval is over and a refill at this
      rate makes some. */
  predicate MayGo(c: Config, b: Limiter) {
    if b.now > b.expired then b.rate <= 80 && c.maxToken > 0 else b.token > 0
  }

  /** From the head of its round to the gate. */
  function ToGate(b: Limiter): seq<Label> {
    [ThreadStarts, ThreadWakes, ThreadChecksExpiry] +
    (if b.now > b.expired then [ThreadRefills, ThreadPassesGate] else [ThreadPassesGate])
  }

  /** Past the gate with a message of so many bytes behind the header. */
  function ToSubmit(rest: nat): seq<Label> {
    [ThreadAcquires, ThreadReadsHeader] + (if rest > 0 then [ThreadReadsRest, ThreadSubmits] else [ThreadSubmits])
  }

  lemma OneStep(c: Config, s: State, l: Label, more: seq<Label>)
    ensures Exec(c, s, [l] + more) == Exec(c, Step(c, s, l), more)
  {
    assert ([l] + more)[1..] == more;
  }

  lemma PassesWithTokens(c: Config, s: State)
    requires Valid(s.queue.ring) && s.thread.Gate? && s.limiter.token > 0
    ensures Exec(c, s, [ThreadPassesGate]) == s.(thread := Acquires)
  {
    assert Exec(c, s, [ThreadPassesGate]) == Step(c, s, ThreadPassesGate);
  }

  lemma RefillsAndPasses(c: Config, s: State)
    requires Valid(s.queue.ring) && s.thread.Refills? && s.limiter.rate <= 80 && c.maxToken > 0
    ensures var s' := Exec(c, s, [ThreadRefills, ThreadPassesGate]);
      && s' == s.(thread := Acquires, limiter := s'.limiter)
      && s'.limiter.submitted == s.limiter.submitted && s'.limiter.token > 0
  {
    RefillByRate(c, s);
    OneStep(c, s, ThreadRefills, [ThreadPassesGate]);
    assert [ThreadRefills] + [ThreadPassesGate] == [ThreadRefills, ThreadPassesGate];
    PassesWithTokens(c, Step(c, s, ThreadRefills));
  }

  lemma PassesGate(c: Config, s: State)
    requires Valid(s.queue.ring) && s.thread.Head? && !s.clearRequested && MayGo(c, s.limiter)
    ensures var s' := Exec(c, s, ToGate(s.limiter));
      && s' == s.(thread := Acquires, limiter := s'.limiter)
      && s'.limiter.submitted == s.limiter.submitted && s'.limiter.token > 0
  {
    var over := s.limiter.now > s.limiter.expired;
    var rest: seq<Label> := if over then [ThreadRefills, ThreadPassesGate] else [ThreadPassesGate];
    assert ToGate(s.limiter) == [ThreadStarts] + ([ThreadWakes] + ([ThreadChecksExpiry] + rest));
    OneStep(c, s, ThreadStarts, [ThreadWakes] + ([ThreadChecksExpiry] + rest));
    OneStep(c, s.(thread := Waits), ThreadWakes, [ThreadChecksExpiry] + rest);
    OneStep(c, s.(thread := ChecksExpiry), ThreadChecksExpiry, rest);
    if over {
      RefillsAndPasses(c, s.(thread := Refills));
    } else {
      PassesWithTokens(c, s.(thread := Gate));
    }
  }

  /** The bus gets exactly this message, which is thereby submitted. */
  predicate GivesToBus(s: State, s': State, m: Msg) {
    && ValidMsg(m)
    && s'.queue.urbs == s.queue.urbs + [Pack(m)] && s'.queue.fates == s.queue.fates + [Submitted(m)]
    && s'.queue.accepted == s.queue.accepted
    && s'.limiter.submitted == s.limiter.submitted + 1
  }

  /** What the thread does once it holds the whole message. */
  lemma WholeIsSubmitted(c: Config, s: State)
    requires Aligned(s.queue, s.thread) && s.thread.ReadsRest? && s.thread.remain == 0
    ensures var s' := Exec(c, s, [ThreadSubmits]);
      GivesToBus(s, s', s.queue.taken[0]) && s'.queue.queued == s.queue.queued && s'.thread == Charges
  {
    var s' := Step(c, s, ThreadSubmits);
    assert Exec(c, s, [ThreadSubmits]) == s';
    assert s.thread.buffer == Pack(s.queue.taken[0]);
  }

  lemma RestIsSubmitted(c: Config, s: State)
    requires Aligned(s.queue, s.thread) && s.thread.ReadsRest?
    ensures var way: seq<Label> := if s.thread.remain > 0 then [ThreadReadsRest, ThreadSubmits] else [ThreadSubmits];
      var s' := Exec(c, s, way);
      GivesToBus(s, s', s.queue.taken[0]) && s'.queue.queued == s.queue.queued && s'.thread == Charges
  {
    if s.thread.remain > 0 {
      RestIsThere(s.queue, s.thread);
      FetchingKeepsAligned(c, s);
      var s1 := Step(c, s, ThreadReadsRest);
      OneStep(c, s, ThreadReadsRest, [ThreadSubmits]);
      assert [ThreadReadsRest] + [ThreadSubmits] == [ThreadReadsRest, ThreadSubmits];
      WholeIsSubmitted(c, s1);
    } else {
      WholeIsSubmitted(c, s);
    }
  }

  /** The header of a queued message takes the thread to the rest of that message. */
  lemma HeaderIsTaken(c: Config, s: State)
    requires Aligned(s.queue, s.thread) && s.thread.ReadsHeader? && s.queue.queued != []
    ensures var s' := Step(c, s, ThreadReadsHeader); var m := s.queue.queued[0];
      && Aligned(s'.queue, s'.thread)
      && s'.thread.ReadsRest? && s'.thread.remain == |m.payload|
      && s'.queue.taken == [m] && s'.queue.queued == s.queue.queued[1..]
      && s'.queue.urbs == s.queue.urbs && s'.queue.fates == s.queue.fates && s'.queue.accepted == s.queue.accepted
      && s'.limiter == s.limiter
  {
    HeaderIsWhole(s.queue);
    HeadingKeepsAligned(c, s);
  }

  lemma PastGateIsSubmitted(c: Config, s: State)
    requires Aligned(s.queue, s.thread) && s.thread.Acquires? && s.permits.free > 0 && s.queue.queued != []
    ensures var m := s.queue.queued[0];
      var s' := Exec(c, s, ToSubmit(|m.payload|));
      GivesToBus(s, s', m) && s'.queue.queued == s.queue.queued[1..] && s'.thread == Charges
  {
    var m := s.queue.queued[0];
    var rest: seq<Label> := if |m.payload| > 0 then [ThreadReadsRest, ThreadSubmits] else [ThreadSubmits];
    var s1 := s.(permits := s.permits.(free := s.permits.free - 1), thread := ReadsHeader);
    assert ToSubmit(|m.payload|) == [ThreadAcquires] + ([ThreadReadsHeader] + rest);
    OneStep(c, s, ThreadAcquires, [ThreadReadsHeader] + rest);
    assert Step(c, s, ThreadAcquires) == s1;
    OneStep(c, s1, ThreadReadsHeader, rest);
    HeaderIsTaken(c, s1);
    RestIsSubmitted(c, Step(c, s1, ThreadReadsHeader));
  }

  /** Main result on progress: in every aligned state at the head of a round, with a message queued, a permit free, no
      clear requested, and rate and time allowing it, the thread goes on to give the bus exactly that message. */
  lemma QueuedIsSubmitted(c: Config, s: State)
    requires Aligned(s.queue, s.thread) && s.thread.Head? && !s.clearRequested
    requires s.queue.queued != [] && s.permits.free > 0 && MayGo(c, s.limiter)
    ensures var m := s.queue.queued[0];
      var s' := Exec(c, s, ToGate(s.limiter) + ToSubmit(|m.payload|));
      GivesToBus(s, s', m) && s'.queue.queued == s.queue.queued[1..]
  {
    var m := s.queue.queued[0];
    PassesGate(c, s);
    ExecTwice(c, s, ToGate(s.limiter), ToSubmit(|m.payload|));
    PastGateIsSubmitted(c, Exec(c, s, ToGate(s.limiter)));
  }

  function Ticking(k: nat): seq<Label> {
    seq(k, _ => Ticks)
  }

  lemma {:induction false} TimePasses(c: Config, s: State, k: nat)
    requires Valid(s.queue.ring)
    ensures Exec(c, s, Ticking(k)) == s.(limiter := s.limiter.(now := s.limiter.now + k))
    decreases k
  {
    if k > 0 {
      assert Ticking(k) == [Ticks] + Ticking(k - 1);
      OneStep(c, s, Ticks, Ticking(k - 1));
      TimePasses(c, Step(c, s, Ticks), k - 1);
    }
  }

  /** So it does, at a rate of 80 or less, after at most an interval and a jiffy, whatever tokens are left. */
  lemma QueuedIsSubmittedInTime(c: Config, s: State) returns (k: nat)
    requires Aligned(s.queue, s.thread) && s.thread.Head? && !s.clearRequested && Bounded(c, s)
    requires s.queue.queued != [] && s.permits.free > 0 && s.limiter.rate <= 80 && c.maxToken > 0
    ensures k <= c.interval + 1
    ensures var m := s.queue.queued[0];
      var b := s.limiter.(now := s.limiter.now + k);
      var s' := Exec(c, s, Ticking(k) + (ToGate(b) + ToSubmit(|m.payload|)));
      b.now > b.expired && GivesToBus(s, s', m) && s'.queue.queued == s.queue.queued[1..]
  {
    var m := s.queue.queued[0];
    k := if s.limiter.now > s.limiter.expired then 0 else s.limiter.expired - s.limiter.now + 1;
    TimePasses(c, s, k);
    var s1 := Exec(c, s, Ticking(k));
    ExecTwice(c, s, Ticking(k), ToGate(s1.limiter) + ToSubmit(|m.payload|));
    QueuedIsSubmitted(c, s1);
  }

  // ------------------------------------------------------------------
  // Nothing is held for good.

  /** The thread's steps to the head of its round when nothing comes that it waits for, and no transfer can start. */
  function WayBack(t: Thread): seq<Label> {
    match t
    case Head => []
    case Clearing => [ThreadCleared]
    case Waits => [ThreadTimesOut]
    case ChecksExpiry => [ThreadChecksExpiry, ThreadRefills, ThreadPassesGate, ThreadInterrupted]
    case Refills => [ThreadRefills, ThreadPassesGate, ThreadInterrupted]
    case Gate => [ThreadPassesGate, ThreadInterrupted]
    case Acquires => [ThreadInterrupted]
    case ReadsHeader => [ThreadFindsNothing]
    case ReadsRest(_, _) => [ThreadReadsRest, ThreadFails]
    case Charges => [ThreadCharges]
  }

  lemma TwoSteps(c: Config, s: State, l: Label, l': Label)
    ensures Exec(c, s, [l, l']) == Step(c, Step(c, s, l), l')
  {
    assert [l, l'] == [l] + [l'] && [l'] == [l'] + [];
    OneStep(c, s, l, [l']);
    OneStep(c, Step(c, s, l), l', []);
  }

  lemma FourSteps(c: Config, s: State, way: seq<Label>)
    requires |way| == 4
    ensures Exec(c, s, way) == Step(c, Step(c, Step(c, Step(c, s, way[0]), way[1]), way[2]), way[3])
  {
    assert way == [way[0]] + ([way[1]] + [way[2], way[3]]);
    OneStep(c, s, way[0], [way[1]] + [way[2], way[3]]);
    OneStep(c, Step(c, s, way[0]), way[1], [way[2], way[3]]);
    TwoSteps(c, Step(c, Step(c, s, way[0]), way[1]), way[2], way[3]);
  }

  lemma GateComesBack(c: Config, s: State)
    requires Valid(s.queue.ring) && s.thread.Gate?
    ensures Exec(c, s, [ThreadPassesGate, ThreadInterrupted]) == s.(thread := Head)
  {
    TwoSteps(c, s, ThreadPassesGate, ThreadInterrupted);
  }

  lemma RefillsComesBack(c: Config, s: State)
    requires Valid(s.queue.ring) && s.thread.Refills?
    ensures var s' := Exec(c, s, WayBack(s.thread));
      s' == s.(thread := Head, limiter := s'.limiter)
  {
    assert WayBack(s.thread) == [ThreadRefills] + [ThreadPassesGate, ThreadInterrupted];
    OneStep(c, s, ThreadRefills, [ThreadPassesGate, ThreadInterrupted]);
    RefillByRate(c, s);
    GateComesBack(c, Step(c, s, ThreadRefills));
  }

  lemma ChecksComesBack(c: Config, s: State)
    requires Valid(s.queue.ring) && s.thread.ChecksExpiry?
    ensures var s' := Exec(c, s, WayBack(s.thread));
      s' == s.(thread := Head, limiter := s'.limiter)
  {
    var rest := [ThreadRefills, ThreadPassesGate, ThreadInterrupted];
    assert WayBack(s.thread) == [ThreadChecksExpiry] + rest;
    OneStep(c, s, ThreadChecksExpiry, rest);
    if s.limiter.now > s.limiter.expired {
      RefillsComesBack(c, s.(thread := Refills));
    } else {
      assert rest == [ThreadRefills] + [ThreadPassesGate, ThreadInterrupted];
      OneStep(c, s.(thread := Gate), ThreadRefills, [ThreadPassesGate, ThreadInterrupted]);
      GateComesBack(c, s.(thread := Gate));
    }
  }

  lemma WholeFails(c: Config, s: State)
    requires Aligned(s.queue, s.thread) && s.thread.ReadsRest? && s.thread.remain == 0
    ensures var s' := Step(c, s, ThreadFails);
      && s'.thread.Head? && s'.queue.taken == [] && s'.queue.queued == s.queue.queued
      && s'.queue.fates == s.queue.fates + [Failed(s.queue.taken[0])] && s'.queue.ring == s.queue.ring
      && s'.permits == s.permits.(free := s.permits.free + 1)
      && s'.clearRequested == s.clearRequested && s'.stopper == s.stopper
  {
  }

  /** One read completes the message, and nothing else changes. */
  lemma RestIsRead(c: Config, s: State)
    requires Aligned(s.queue, s.thread) && s.thread.ReadsRest?
    ensures var s' := Step(c, s, ThreadReadsRest);
      && Aligned(s'.queue, s'.thread) && s'.thread.ReadsRest? && s'.thread.remain == 0
      && s' == s.(thread := s'.thread, queue := s.queue.(ring := s'.queue.ring))
  {
    FetchingKeepsAligned(c, s);
    if s.thread.remain > 0 {
      RestIsThere(s.queue, s.thread);
    }
  }

  lemma RestComesBack(c: Config, s: State)
    requires Aligned(s.queue, s.thread) && s.thread.ReadsRest?
    ensures var s' := Exec(c, s, [ThreadReadsRest, ThreadFails]);
      && s'.thread.Head? && s'.queue.taken == [] && s'.queue.queued == s.queue.queued
      && s'.queue.fates == s.queue.fates + [Failed(s.queue.taken[0])]
      && s'.permits == s.permits.(free := s.permits.free + 1)
      && s'.clearRequested == s.clearRequested && s'.stopper == s.stopper && Valid(s'.queue.ring)
  {
    TwoSteps(c, s, ThreadReadsRest, ThreadFails);
    RestIsRead(c, s);
    WholeFails(c, Step(c, s, ThreadReadsRest));
  }

  lemma OneStepBack(c: Config, s: State)
    requires Aligned(s.queue, s.thread) && |WayBack(s.thread)| == 1
    ensures var s' := Exec(c, s, WayBack(s.thread));
      && s' == s.(thread := Head, permits := s'.permits, limiter := s'.limiter, clearRequested := s'.clearRequested)
      && s'.clearRequested == (s.clearRequested && !s.thread.Clearing?)
      && s'.permits == s.permits.(free := s.permits.free + if s.thread.ReadsHeader? then 1 else 0)
      && s.queue.taken == []
  {
    var l := WayBack(s.thread)[0];
    assert WayBack(s.thread) == [l] + [];
    OneStep(c, s, l, []);
  }

  /** Main result on the thread: wherever it stands in an aligned state, it can come back without a transfer; it gives
      back its permit, what it had taken has failed, and a clear it was making is acknowledged. */
  lemma ThreadComesBack(c: Config, s: State)
    requires Aligned(s.queue, s.thread)
    ensures var s' := Exec(c, s, WayBack(s.thread));
      && s'.thread.Head? && s'.queue.taken == [] && s'.queue.queued == s.queue.queued
      && s'.queue.fates == s.queue.fates + (if s.thread.ReadsRest? then [Failed(s.queue.taken[0])] else [])
      && s'.permits
         == s.permits.(free := s.permits.free + if s.thread.ReadsHeader? || s.thread.ReadsRest? then 1 else 0)
      && s'.clearRequested == (s.clearRequested && !s.thread.Clearing?)
      && s'.stopper == s.stopper && Valid(s'.queue.ring)
  {
    match s.thread
    case Head =>
    case ChecksExpiry => ChecksComesBack(c, s);
    case Refills => RefillsComesBack(c, s);
    case Gate => GateComesBack(c, s);
    case ReadsRest(_, _) => RestComesBack(c, s);
    case _ => OneStepBack(c, s);
  }

  /** A header that the thread reads is gone from the ring, whether it can be used or not. */
  lemma HeaderIsConsumed(c: Config, s: State)
    requires Valid(s.queue.ring) && s.thread.ReadsHeader?
    ensures var s', before := Step(c, s, ThreadReadsHeader), Contents(s.queue.ring);
      && Valid(s'.queue.ring) && Contents(s'.queue.ring) == before[if |before| < 4 then |before| else 4..]
      && (s'.thread.ReadsRest? <==> |before| >= 4 && 4 <= before[1] <= 82)
      && (!s'.thread.ReadsRest? ==> s'.thread.Head? && s'.permits == s.permits.(free := s.permits.free + 1))
  {
    var g, got := ReadRing(s.queue.ring, CMD_MIN_LENGTH), BytesRead(s.queue.ring, CMD_MIN_LENGTH);
    ReadRingTakesPrefix(s.queue.ring, CMD_MIN_LENGTH);
    assert Contents(s.queue.ring) == got + Contents(g);
    DropFromFirst(got, Contents(g), |got|);
    assert got[|got|..] + Contents(g) == Contents(g);
  }

  /** A clear that was asked for is made as soon as the thread is at the head of its round, and the stop routine, which
      waits for that, gets a permit. */
  lemma AskedIsCleared(c: Config, s: State)
    requires Valid(s.queue.ring) && s.thread.Head? && s.stopper.Asked? && s.clearRequested && s.permits.free > 0
    ensures var s' := Exec(c, s, [ThreadStarts, ThreadCleared, StopSeesCleared, StopTries]);
      && s'.thread.Head? && s'.stopper.Holding? && !s'.clearRequested
      && s'.permits == s.permits.(free := s.permits.free - 1)
      && Valid(s'.queue.ring) && Contents(s'.queue.ring) == [] && s'.queue.queued == []
      && |s'.queue.fates| == |s.queue.fates| + |s.queue.queued|
      && forall i | 0 <= i < |s.queue.queued| :: s'.queue.fates[|s.queue.fates| + i] == Cleared(s.queue.queued[i])
  {
    FourSteps(c, s, [ThreadStarts, ThreadCleared, StopSeesCleared, StopTries]);
  }

  /** A free permit can be taken by each party that wants one, and by none when there is none. */
  lemma PermitIsTakenIff(c: Config, s: State)
    requires Valid(s.queue.ring)
    ensures Step(c, s, FwAcquires).permits.fw == s.permits.fw + 1 <==> s.permits.free > 0
    ensures s.thread.Acquires? ==> (Step(c, s, ThreadAcquires).thread.ReadsHeader? <==> s.permits.free > 0)
    ensures s.stopper.Trying? ==> (Step(c, s, StopTries).stopper.Holding? <==> s.permits.free > 0)
    ensures s.stopper.Trying? && s.permits.free == 0 ==> Step(c, s, StopTries).stopper.Asked?
  {
  }

  /** What the firmware writers hold, and what is in flight, becomes free again, whether transfers start or not. */
  lemma {:induction false} FlightsEnd(c: Config, s: State, starts: bool) returns (way: seq<Label>)
    requires Valid(s.queue.ring)
    ensures Exec(c, s, way)
         == s.(permits := Permits(s.permits.free + s.permits.fw + s.permits.inFlight, 0, 0))
    decreases 2 * s.permits.fw + s.permits.inFlight
  {
    var p := s.permits;
    if p.fw == 0 && p.inFlight == 0 {
      way := [];
    } else {
      var l := if p.fw == 0 then TransferCompletes else if starts then FwSubmits else FwFails;
      var s' := Step(c, s, l);
      assert s' == s.(permits := s'.permits);
      var rest := FlightsEnd(c, s', starts);
      OneStep(c, s, l, rest);
      way := [l] + rest;
    }
  }

  /** Main result on permits: none is lost; from every aligned state in balance some schedule makes all four free. */
  lemma PermitsComeBack(c: Config, s: State, starts: bool) returns (way: seq<Label>)
    requires Aligned(s.queue, s.thread) && PermitsBalance(s)
    ensures Exec(c, s, way).permits == Permits(4, 0, 0)
  {
    var back := WayBack(s.thread);
    var s1 := Exec(c, s, back);
    ThreadComesBack(c, s);
    var s2 := Step(c, s1, StopReleases);
    StepKeepsPermits(c, s1, StopReleases);
    var ends := FlightsEnd(c, s2, starts);
    OneStep(c, s1, StopReleases, ends);
    ExecTwice(c, s, back, [StopReleases] + ends);
    way := back + ([StopReleases] + ends);
  }

  /** Exactly which messages are queued, whatever happens between loading the pointers and publishing. */
  lemma QueuedIff(q: Queue, m: Msg, later: Queue)
    requires Valid(q.ring) && q.write.NoWrite?
    requires later.write == BeginWrite(q, m).write && |later.ring.buf| == |q.ring.buf|
    ensures EndWrite(later).write.NoWrite?
    ensures var n, more := |m.payload| + 4, if |EndWrite(later).queued| > |later.queued| then [m] else [];
      && EndWrite(later).queued == later.queued + more && EndWrite(later).accepted == later.accepted + more
      && (more == [m] <==>
            0 < |m.payload| <= 78 && (n < FreeSize(q.ring) || (n == FreeSize(q.ring) && q.ring.read == 0)))
  {
    AcceptedIff(q.ring, FrameLength(m));
  }
}
