/** Request and response over one completion: clients take turns by a semaphore, the receive path matches replies
    with the command being waited for, and either side may be slow at any point, also in the middle of a copy. */
module SyncCommand {
  import opened CInts

  /** What a reply is: an ACK, a NACK, or the response to a request. */
  datatype Head = Ack | Nack | Response(request: byte)

  /** A dispatched reply with the first byte of its payload, which in an ACK or NACK is the command it names. */
  datatype Reply = Reply(head: Head, arg: byte)

  /** The command a reply is for. */
  function CommandOf(r: Reply): byte {
    if r.head.Response? then r.head.request else r.arg
  }

  datatype Option<T> = None | Some(value: T)

  /** What `ep1_cf02a_cmd_common` makes of `*success`. */
  datatype Flag = True | False | Untouched

  datatype Outcome = Error | Answered(flag: Flag)

  /** Where a transaction stands; `Reading`, `Got` and `Parsing` hold its own copy of the reply, or the part it has. */
  datatype Pc =
    | Calling
    | Entered
    | Named
    | Ready
    | Waiting
    | Reading(head: Option<Head>, arg: Option<byte>)
    | Got(reply: Reply)
    | Parsing(reply: Reply)
    | Ended(outcome: Outcome)

  /** `downs` and `ups` count its uses of `send_msg_sem`; `began` is the event of its `init_completion`. */
  datatype Txn = Txn(get: bool, cmd: byte, pc: Pc, downs: nat, ups: nat, began: nat)

  /** The dispatcher holds a reply from the comparison on until it is signalled; the flags tell what it has copied. */
  datatype Dispatch = Idle | Holding(reply: Reply, head: bool, arg: bool)

  datatype Buffer = Buffer(head: Option<Head>, arg: byte)

  datatype Event = Began(n: nat) | Arrived(reply: Reply) | Copied(reply: Reply) | Signalled(reply: Reply)

  /** `rxId`, `done` and `buffer` are `rx_complete`; `events` is the history of what touched them. */
  datatype State = State(
    sem: nat,
    rxId: Option<byte>,
    done: nat,
    buffer: Buffer,
    dispatch: Dispatch,
    txns: seq<Txn>,
    events: seq<Event>)

  datatype Label =
    | Calls(get: bool, cmd: byte)
    | Downs(n: nat) | Interrupted(n: nat)
    | SetsId(n: nat) | Inits(n: nat)
    | Sends(n: nat) | SendFails(n: nat)
    | Wakes(n: nat) | TimesOut(n: nat) | AllocFails(n: nat)
    | CopiesHeadOut(n: nat) | CopiesArgOut(n: nat)
    | Matches(n: nat, stale: bool) | Retries(n: nat) | GivesUp(n: nat)
    | Finishes(n: nat, untouched: bool)
    | Arrives(reply: Reply) | DispatchCopiesHead | DispatchCopiesArg | DispatchSignals

  function Boot(): State {
    State(1, None, 0, Buffer(None, 0), Idle, [], [])
  }

  predicate At(s: State, n: nat, pc: Pc) {
    n < |s.txns| && s.txns[n].pc == pc
  }

  function Go(s: State, n: nat, pc: Pc): State
    requires n < |s.txns|
  {
    s.(txns := s.txns[n := s.txns[n].(pc := pc)])
  }

  /** The transaction gives the semaphore back. */
  function Leave(s: State, n: nat, pc: Pc): State
    requires n < |s.txns|
  {
    s.(sem := s.sem + 1, txns := s.txns[n := s.txns[n].(pc := pc, ups := s.txns[n].ups + 1)])
  }

  /** `apt_usbtrx_send_msg_sync`. */
  function SendStep(s: State, l: Label): State {
    match l
    case Calls(get, cmd) => s.(txns := s.txns + [Txn(get, cmd, Calling, 0, 0, 0)])
    case Downs(n) =>
      if At(s, n, Calling) && s.sem > 0 then
        s.(sem := s.sem - 1, txns := s.txns[n := s.txns[n].(pc := Entered, downs := s.txns[n].downs + 1)])
      else s
    case Interrupted(n) => if At(s, n, Calling) then Go(s, n, Ended(Error)) else s
    case SetsId(n) => if At(s, n, Entered) then Go(s, n, Named).(rxId := Some(s.txns[n].cmd)) else s
    case Inits(n) =>
      if At(s, n, Named) then
        s.(done := 0,
           txns := s.txns[n := s.txns[n].(pc := Ready, began := |s.events|)],
           events := s.events + [Began(n)])
      else s
    case Sends(n) => if At(s, n, Ready) then Go(s, n, Waiting) else s
    case SendFails(n) => if At(s, n, Ready) then Leave(s, n, Ended(Error)) else s
    case _ => s
  }

  predicate IsAnswer(head: Head) { head.Ack? || head.Nack? }

  /** Where a transaction stands that has copied this much; the two parts come in any order. */
  function Read(head: Option<Head>, arg: Option<byte>): Pc {
    if head.Some? && arg.Some? then Got(Reply(head.value, arg.value)) else Reading(head, arg)
  }

  /** The reply copied out of the buffer matches at its start. Otherwise the rest of the buffer is searched,
      which may hold anything. */
  predicate MatchesAtStart(t: Txn, r: Reply) {
    if t.get then r.head == Response(t.cmd) else IsAnswer(r.head)
  }

  /** `apt_usbtrx_wait_msg_timeout` while reception is on, and the end of `ep1_cf02a_cmd_common`. */
  function WaitStep(s: State, l: Label): State {
    match l
    case AllocFails(n) => if At(s, n, Waiting) then Leave(s, n, Ended(Error)) else s
    case Wakes(n) =>
      if At(s, n, Waiting) && s.done > 0 then Go(s, n, Reading(None, None)).(done := s.done - 1) else s
    case TimesOut(n) => if At(s, n, Waiting) then Leave(s, n, Ended(Error)) else s
    case CopiesHeadOut(n) =>
      if n < |s.txns| && s.txns[n].pc.Reading? && s.txns[n].pc.head.None? then
        Go(s, n, Read(s.buffer.head, s.txns[n].pc.arg))
      else s
    case CopiesArgOut(n) =>
      if n < |s.txns| && s.txns[n].pc.Reading? && s.txns[n].pc.arg.None? then
        Go(s, n, Read(s.txns[n].pc.head, Some(s.buffer.arg)))
      else s
    case Matches(n, stale) =>
      if n < |s.txns| && s.txns[n].pc.Got? && (MatchesAtStart(s.txns[n], s.txns[n].pc.reply) || stale) then
        Leave(s, n, Parsing(s.txns[n].pc.reply))
      else s
    // What is found may not match; a torn copy may not even be a frame.
    case Retries(n) => if n < |s.txns| && s.txns[n].pc.Got? then Go(s, n, Waiting) else s
    case GivesUp(n) => if n < |s.txns| && s.txns[n].pc.Got? then Leave(s, n, Ended(Error)) else s
    case Finishes(n, untouched) =>
      if n < |s.txns| && s.txns[n].pc.Parsing? then
        Go(s, n, Ended(Judge(s.txns[n], s.txns[n].pc.reply, untouched)))
      else s
    case _ => s
  }

  /** The verdict on a parsed reply: for a set command the reply must name the command. */
  function Judge(t: Txn, r: Reply, untouched: bool): Outcome {
    if t.get || r.head.Response? then if untouched then Answered(Untouched) else Error
    else if r.arg != t.cmd then Error
    else if r.head.Ack? then Answered(True)
    else Answered(False)
  }

  /** `apt_usbtrx_dispatch_msg` on replies: compare, copy in any order, signal, one reply at a time. */
  function DispatchStep(s: State, l: Label): State {
    var d := s.dispatch;
    match l
    case Arrives(reply) =>
      if d.Idle? && s.rxId == Some(CommandOf(reply)) then
        s.(dispatch := Holding(reply, false, false), events := s.events + [Arrived(reply)])
      else s
    case DispatchCopiesHead =>
      if d.Holding? && !d.head then
        s.(buffer := s.buffer.(head := Some(d.reply.head)), dispatch := d.(head := true),
           events := s.events + [Copied(d.reply)])
      else s
    case DispatchCopiesArg =>
      if d.Holding? && !d.arg then
        s.(buffer := s.buffer.(arg := d.reply.arg), dispatch := d.(arg := true), events := s.events + [Copied(d.reply)])
      else s
    case DispatchSignals =>
      if d.Holding? && d.head && d.arg then
        s.(done := s.done + 1, dispatch := Idle, events := s.events + [Signalled(d.reply)])
      else s
    case _ => s
  }

  predicate OfDispatch(l: Label) {
    l.Arrives? || l.DispatchCopiesHead? || l.DispatchCopiesArg? || l.DispatchSignals?
  }

  predicate OfSend(l: Label) {
    l.Calls? || l.Downs? || l.Interrupted? || l.SetsId? || l.Inits? || l.Sends? || l.SendFails?
  }

  /** A label whose step is not possible changes nothing. */
  function Step(s: State, l: Label): State {
    if OfDispatch(l) then DispatchStep(s, l) else if OfSend(l) then SendStep(s, l) else WaitStep(s, l)
  }

  function Exec(s: State, schedule: seq<Label>): State
    decreases |schedule|
  {
    if schedule == [] then s else Exec(Step(s, schedule[0]), schedule[1..])
  }

  // ------------------------------------------------------------------
  // The semaphore.

  predicate Inside(t: Txn) {
    t.pc.Entered? || t.pc.Named? || t.pc.Ready? || t.pc.Waiting? || t.pc.Reading? || t.pc.Got?
  }

  /** How often a transaction in this place has taken and given back the semaphore. */
  predicate SemaphoreUse(t: Txn) {
    if Inside(t) then t.downs == 1 && t.ups == 0
    else if t.pc.Calling? then t.downs == 0 && t.ups == 0
    else t.downs == t.ups <= 1
  }

  predicate Exclusive(s: State) {
    && s.sem <= 1
    && (forall n | 0 <= n < |s.txns| :: SemaphoreUse(s.txns[n]))
    && (s.sem == 1 ==> forall n | 0 <= n < |s.txns| :: !Inside(s.txns[n]))
    && (forall m, n | 0 <= m < n < |s.txns| :: !(Inside(s.txns[m]) && Inside(s.txns[n])))
    && (s.sem == 0 ==> exists n :: 0 <= n < |s.txns| && Inside(s.txns[n]))
  }

  // ------------------------------------------------------------------
  // Replies.

  /** A reply whose copying or signalling went on after event `b`. */
  predicate HandledAfter(events: seq<Event>, b: nat, r: Reply) {
    exists j :: b < j < |events| && (events[j] == Copied(r) || events[j] == Signalled(r))
  }

  /** One of those had this head, */
  ghost predicate HeadHandled(events: seq<Event>, b: nat, head: Head) {
    exists arg: byte :: HandledAfter(events, b, Reply(head, arg))
  }

  /** or this argument. */
  ghost predicate ArgHandled(events: seq<Event>, b: nat, arg: byte) {
    exists head: Head :: HandledAfter(events, b, Reply(head, arg))
  }

  predicate Armed(t: Txn) {
    t.pc.Ready? || t.pc.Waiting? || t.pc.Reading? || t.pc.Got? || t.pc.Parsing?
  }

  predicate CanRead(s: State, t: Txn) {
    t.pc.Reading? || (s.done > 0 && (t.pc.Ready? || t.pc.Waiting? || t.pc.Got?))
  }

  /** What a transaction has got, or can still get, was handled after its own start. */
  ghost predicate Fresh(s: State, n: nat)
    requires n < |s.txns|
  {
    var t, b := s.txns[n], s.txns[n].began;
    && (Armed(t) ==> b < |s.events| && s.events[b] == Began(n))
    && (CanRead(s, t) ==>
          && s.buffer.head.Some? && HeadHandled(s.events, b, s.buffer.head.value)
          && ArgHandled(s.events, b, s.buffer.arg))
    && (t.pc.Reading? ==> t.pc.head.None? || t.pc.arg.None?)
    && (t.pc.Reading? && t.pc.head.Some? ==> HeadHandled(s.events, b, t.pc.head.value))
    && (t.pc.Reading? && t.pc.arg.Some? ==> ArgHandled(s.events, b, t.pc.arg.value))
    && (t.pc.Got? || t.pc.Parsing? ==>
          HeadHandled(s.events, b, t.pc.reply.head) && ArgHandled(s.events, b, t.pc.reply.arg))
    && (t.pc == Ended(Answered(True)) ==> Justified(s, n, Ack))
    && (t.pc == Ended(Answered(False)) ==> Justified(s, n, Nack))
  }

  /** An answer of this kind, and one that names the command, were still being handled after the own start. */
  ghost predicate Justified(s: State, n: nat, kind: Head)
    requires n < |s.txns|
  {
    var t := s.txns[n];
    && !t.get
    && t.began < |s.events| && s.events[t.began] == Began(n)
    && HeadHandled(s.events, t.began, kind) && ArgHandled(s.events, t.began, t.cmd)
  }

  /** What was copied is in the buffer. */
  predicate CopyOk(s: State) {
    s.dispatch.Holding? ==>
      && (s.dispatch.head ==> s.buffer.head == Some(s.dispatch.reply.head))
      && (s.dispatch.arg ==> s.buffer.arg == s.dispatch.reply.arg)
  }

  /** The identifier awaited is that of the transaction inside. */
  predicate IdOk(s: State) {
    forall n | 0 <= n < |s.txns| && Inside(s.txns[n]) && !s.txns[n].pc.Entered? :: s.rxId == Some(s.txns[n].cmd)
  }

  ghost predicate Inv(s: State) {
    Exclusive(s) && CopyOk(s) && IdOk(s) && forall n | 0 <= n < |s.txns| :: Fresh(s, n)
  }

  lemma StillInside(s: State, s': State, l: Label)
    requires Exclusive(s) && s.sem == 0 && s' == SendStep(s, l)
    ensures s'.sem == 0 ==> exists n :: 0 <= n < |s'.txns| && Inside(s'.txns[n])
  {
    var h :| 0 <= h < |s.txns| && Inside(s.txns[h]);
    assert s'.sem == 0 ==> Inside(s'.txns[h]);
  }

  lemma SendKeepsExclusive(s: State, l: Label)
    requires Exclusive(s)
    ensures Exclusive(SendStep(s, l))
  {
    var s' := SendStep(s, l);
    if l.Downs? && At(s, l.n, Calling) && s.sem > 0 {
      assert Inside(s'.txns[l.n]);
    } else if s.sem == 0 {
      StillInside(s, s', l);
    }
  }

  /** The transaction inside goes out and gives the semaphore back. */
  lemma LeaveKeepsExclusive(s: State, n: nat, pc: Pc)
    requires Exclusive(s) && n < |s.txns| && Inside(s.txns[n]) && (pc.Ended? || pc.Parsing?)
    ensures Exclusive(Leave(s, n, pc))
  {
  }

  /** A transaction goes on without crossing the border. */
  lemma GoKeepsExclusive(s: State, n: nat, pc: Pc)
    requires Exclusive(s) && n < |s.txns| && Inside(s.txns[n].(pc := pc)) == Inside(s.txns[n])
    requires Inside(s.txns[n]) || (s.txns[n].pc.Parsing? && pc.Ended?)
    ensures Exclusive(Go(s, n, pc))
  {
    var s' := Go(s, n, pc);
    if s.sem == 0 {
      var h :| 0 <= h < |s.txns| && Inside(s.txns[h]);
      assert Inside(s'.txns[h]);
    }
  }

  lemma WaitKeepsExclusive(s: State, l: Label)
    requires Exclusive(s)
    ensures Exclusive(WaitStep(s, l))
  {
    var s' := WaitStep(s, l);
    if s' != s {
      var n := l.n;
      assert s'.txns == s.txns[n := s'.txns[n]];
      if s'.sem != s.sem {
        LeaveKeepsExclusive(s, n, s'.txns[n].pc);
      } else {
        GoKeepsExclusive(s, n, s'.txns[n].pc);
      }
    }
  }

  lemma HandledStays(events: seq<Event>, e: Event, b: nat)
    ensures forall r | HandledAfter(events, b, r) :: HandledAfter(events + [e], b, r)
    ensures forall head | HeadHandled(events, b, head) :: HeadHandled(events + [e], b, head)
    ensures forall arg | ArgHandled(events, b, arg) :: ArgHandled(events + [e], b, arg)
  {
    forall r | HandledAfter(events, b, r)
      ensures HandledAfter(events + [e], b, r)
    {
      var j :| b < j < |events| && (events[j] == Copied(r) || events[j] == Signalled(r));
      assert (events + [e])[j] == events[j];
    }
    forall head | HeadHandled(events, b, head)
      ensures HeadHandled(events + [e], b, head)
    {
      var arg: byte :| HandledAfter(events, b, Reply(head, arg));
      assert HandledAfter(events + [e], b, Reply(head, arg));
    }
    forall arg | ArgHandled(events, b, arg)
      ensures ArgHandled(events + [e], b, arg)
    {
      var head :| HandledAfter(events, b, Reply(head, arg));
      assert HandledAfter(events + [e], b, Reply(head, arg));
    }
  }

  lemma EventKeepsFresh(s: State, e: Event, n: nat)
    requires n < |s.txns| && Fresh(s, n)
    ensures Fresh(s.(events := s.events + [e]), n)
  {
    HandledStays(s.events, e, s.txns[n].began);
  }

  lemma LastIsHandled(events: seq<Event>, b: nat, r: Reply)
    requires |events| > 0 && b < |events| - 1
    requires events[|events| - 1] == Copied(r) || events[|events| - 1] == Signalled(r)
    ensures HandledAfter(events, b, r) && HeadHandled(events, b, r.head) && ArgHandled(events, b, r.arg)
  {
    assert HandledAfter(events, b, r);
    assert Reply(r.head, r.arg) == r;
  }

  lemma DispatchKeepsFresh(s: State, l: Label, n: nat)
    requires Inv(s) && n < |s.txns|
    ensures Fresh(DispatchStep(s, l), n)
  {
    var s', t := DispatchStep(s, l), s.txns[n];
    assert Fresh(s, n);
    if s'.events != s.events {
      var e := s'.events[|s.events|];
      EventKeepsFresh(s, e, n);
      if !l.Arrives? && Armed(t) {
        LastIsHandled(s'.events, t.began, s.dispatch.reply);
      }
    }
  }

  lemma SendKeepsFresh(s: State, l: Label, n: nat)
    requires Inv(s) && n < |SendStep(s, l).txns|
    ensures Fresh(SendStep(s, l), n)
  {
    var s' := SendStep(s, l);
    if n < |s.txns| {
      assert Fresh(s, n);
      if s'.events != s.events && n != l.n {
        assert Inside(s.txns[l.n]) && !Inside(s.txns[n]);
        EventKeepsFresh(s, Began(l.n), n);
      }
    }
  }

  lemma WaitKeepsFresh(s: State, l: Label, n: nat)
    requires Inv(s) && n < |s.txns|
    ensures Fresh(WaitStep(s, l), n)
  {
    var t := s.txns[n];
    assert Fresh(s, n);
    if l.Wakes? && l.n != n && At(s, l.n, Waiting) {
      assert !(Inside(s.txns[l.n]) && Inside(t));
    }
  }

  lemma SendKeepsIds(s: State, l: Label)
    requires Exclusive(s) && CopyOk(s) && IdOk(s)
    ensures CopyOk(SendStep(s, l)) && IdOk(SendStep(s, l))
  {
    var s' := SendStep(s, l);
    if l.SetsId? && At(s, l.n, Entered) {
      forall n | 0 <= n < |s.txns| && n != l.n
        ensures !Inside(s.txns[n])
      {
        assert Inside(s.txns[l.n]);
      }
    }
  }

  lemma WaitKeepsIds(s: State, l: Label)
    requires Exclusive(s) && CopyOk(s) && IdOk(s)
    ensures CopyOk(WaitStep(s, l)) && IdOk(WaitStep(s, l))
  {
  }

  lemma StepKeepsInv(s: State, l: Label)
    requires Inv(s)
    ensures Inv(Step(s, l))
  {
    var s' := Step(s, l);
    if OfDispatch(l) {
      forall n | 0 <= n < |s'.txns| ensures Fresh(s', n) { DispatchKeepsFresh(s, l, n); }
    } else if OfSend(l) {
      SendKeepsExclusive(s, l);
      SendKeepsIds(s, l);
      forall n | 0 <= n < |s'.txns| ensures Fresh(s', n) { SendKeepsFresh(s, l, n); }
    } else {
      WaitKeepsExclusive(s, l);
      WaitKeepsIds(s, l);
      forall n | 0 <= n < |s'.txns| ensures Fresh(s', n) { WaitKeepsFresh(s, l, n); }
    }
  }

  lemma {:induction false} ExecKeepsInv(s: State, schedule: seq<Label>)
    requires Inv(s)
    ensures Inv(Exec(s, schedule))
    decreases |schedule|
  {
    if schedule != [] {
      StepKeepsInv(s, schedule[0]);
      ExecKeepsInv(Step(s, schedule[0]), schedule[1..]);
    }
  }

  /** Main result on the semaphore: at most one transaction is inside, and a finished one has given the
      semaphore back exactly as often as it took it, which is at most once. */
  lemma OneAtATime(schedule: seq<Label>)
    ensures var s := Exec(Boot(), schedule);
      && (forall m, n | 0 <= m < n < |s.txns| :: !(Inside(s.txns[m]) && Inside(s.txns[n])))
      && (forall n | 0 <= n < |s.txns| && s.txns[n].pc.Ended? :: s.txns[n].downs == s.txns[n].ups <= 1)
      && (s.sem == 1 <==> forall n | 0 <= n < |s.txns| :: !Inside(s.txns[n]))
  {
    ExecKeepsInv(Boot(), schedule);
  }

  /** A set command is told success, or refusal, only if an ACK, or a NACK, was still being handled after its own
      `init_completion`, and so was a reply whose first byte is the command. */
  lemma SuccessWasHandledSince(schedule: seq<Label>, n: nat)
    requires n < |Exec(Boot(), schedule).txns|
    ensures var s := Exec(Boot(), schedule);
      && (s.txns[n].pc == Ended(Answered(True)) ==> Justified(s, n, Ack))
      && (s.txns[n].pc == Ended(Answered(False)) ==> Justified(s, n, Nack))
  {
    ExecKeepsInv(Boot(), schedule);
    assert Fresh(Exec(Boot(), schedule), n);
  }

  // ------------------------------------------------------------------
  // Whose reply it was.

  /** `r` was compared with the awaited identifier after event `b`. */
  predicate ArrivedAfter(events: seq<Event>, b: nat, r: Reply) {
    exists j :: b < j < |events| && events[j] == Arrived(r)
  }

  /** The dispatcher has compared an answer of this kind and not signalled it yet. */
  predicate Holds(d: Dispatch, kind: Head) { d.Holding? && d.reply.head == kind }

  /** Transaction `n`, for command `cmd`, started at event `began`, when the dispatcher stood at `held`. */
  datatype Start = Start(n: nat, cmd: byte, began: nat, held: Dispatch)

  /** A head that came with an own answer since the start, or with what the dispatcher held then. (Where responses
      come from does not matter.) */
  predicate Since(events: seq<Event>, b: Start, head: Head) {
    IsAnswer(head) ==> ArrivedAfter(events, b.began, Reply(head, b.cmd)) || Holds(b.held, head)
  }

  /** What a set command is told: success on an ACK, refusal on a NACK. */
  predicate Told(t: Txn, kind: Head) {
    !t.get && t.pc == Ended(Answered(if kind.Ack? then True else False))
  }

  /** Whatever head the started transaction has got, or can still get, is such a one. */
  ghost predicate GotSince(s: State, b: Start) {
    && b.n < |s.txns| && b.began < |s.events|
    && var t := s.txns[b.n];
    && t.cmd == b.cmd && t.began == b.began && (Armed(t) || t.pc.Ended?)
    && (Inside(t) && s.dispatch.Holding? ==> Since(s.events, b, s.dispatch.reply.head))
    && (CanRead(s, t) ==> s.buffer.head.Some? && Since(s.events, b, s.buffer.head.value))
    && (t.pc.Reading? && t.pc.head.Some? ==> Since(s.events, b, t.pc.head.value))
    && (t.pc.Got? || t.pc.Parsing? ==> Since(s.events, b, t.pc.reply.head))
    && (forall kind | IsAnswer(kind) && Told(t, kind) :: Since(s.events, b, kind))
  }

  lemma SinceStays(events: seq<Event>, e: Event, b: Start, head: Head)
    requires Since(events, b, head)
    ensures Since(events + [e], b, head)
  {
    if ArrivedAfter(events, b.began, Reply(head, b.cmd)) {
      var j :| b.began < j < |events| && events[j] == Arrived(Reply(head, b.cmd));
      assert (events + [e])[j] == events[j];
    }
  }

  lemma EventKeepsSince(s: State, e: Event, b: Start)
    requires GotSince(s, b)
    ensures GotSince(s.(events := s.events + [e]), b)
  {
    forall head | Since(s.events, b, head)
      ensures Since(s.events + [e], b, head)
    {
      SinceStays(s.events, e, b, head);
    }
  }

  lemma ArrivedIsSince(events: seq<Event>, b: Start, r: Reply)
    requires |events| > 0 && b.began < |events| - 1 && events[|events| - 1] == Arrived(r) && CommandOf(r) == b.cmd
    ensures Since(events, b, r.head)
  {
    if IsAnswer(r.head) {
      assert r == Reply(r.head, b.cmd);
    }
  }

  lemma DispatchKeepsSince(s: State, l: Label, b: Start)
    requires Inv(s) && GotSince(s, b)
    ensures GotSince(DispatchStep(s, l), b)
  {
    var s' := DispatchStep(s, l);
    if s'.events != s.events {
      EventKeepsSince(s, s'.events[|s.events|], b);
      if l.Arrives? && Inside(s.txns[b.n]) {
        ArrivedIsSince(s'.events, b, l.reply);
      }
    }
  }

  lemma SendKeepsSince(s: State, l: Label, b: Start)
    requires Inv(s) && GotSince(s, b)
    ensures GotSince(SendStep(s, l), b)
  {
    var s' := SendStep(s, l);
    if s'.events != s.events {
      EventKeepsSince(s, Began(l.n), b);
      assert Inside(s.txns[l.n]) && !Inside(s.txns[b.n]);
    }
  }

  lemma WaitKeepsSince(s: State, l: Label, b: Start)
    requires Inv(s) && GotSince(s, b)
    ensures GotSince(WaitStep(s, l), b)
  {
    if l.Wakes? && l.n != b.n && At(s, l.n, Waiting) {
      assert !(Inside(s.txns[l.n]) && Inside(s.txns[b.n]));
    }
  }

  lemma StepKeepsSince(s: State, l: Label, b: Start)
    requires Inv(s) && GotSince(s, b)
    ensures GotSince(Step(s, l), b)
  {
    if OfDispatch(l) {
      DispatchKeepsSince(s, l, b);
    } else if OfSend(l) {
      SendKeepsSince(s, l, b);
    } else {
      WaitKeepsSince(s, l, b);
    }
  }

  lemma {:induction false} ExecKeepsSince(s: State, more: seq<Label>, b: Start)
    requires Inv(s) && GotSince(s, b)
    ensures GotSince(Exec(s, more), b)
    decreases |more|
  {
    if more != [] {
      StepKeepsInv(s, more[0]);
      StepKeepsSince(s, more[0], b);
      ExecKeepsSince(Step(s, more[0]), more[1..], b);
    }
  }

  /** If the set command was told success or refusal, its own answer had arrived since its start. */
  predicate ToldItsOwn(s: State, n: nat, kind: Head) {
    n < |s.txns| &&
    (Told(s.txns[n], kind) ==> ArrivedAfter(s.events, s.txns[n].began, Reply(kind, s.txns[n].cmd)))
  }

  // ------------------------------------------------------------------
  // How a held answer reaches the transaction that has just started.

  lemma {:induction false} ExecTwice(s: State, first: seq<Label>, more: seq<Label>)
    ensures Exec(s, first + more) == Exec(Exec(s, first), more)
    decreases |first|
  {
    if first == [] {
      assert first + more == more;
    } else {
      assert (first + more)[1..] == first[1..] + more;
      ExecTwice(Step(s, first[0]), first[1..], more);
    }
  }

  lemma TwoSteps(s: State, way: seq<Label>)
    requires |way| == 2
    ensures Exec(s, way) == Step(Step(s, way[0]), way[1])
  {
    assert Exec(Step(s, way[0]), way[1..]) == Step(Step(s, way[0]), way[1]);
  }

  lemma FourSteps(s: State, way: seq<Label>)
    requires |way| == 4
    ensures Exec(s, way) == Step(Step(Step(Step(s, way[0]), way[1]), way[2]), way[3])
  {
    assert way == way[..2] + way[2..];
    ExecTwice(s, way[..2], way[2..]);
    TwoSteps(s, way[..2]);
    TwoSteps(Exec(s, way[..2]), way[2..]);
  }

  /** The dispatcher finishes with what it holds, */
  function Signals(n: nat): seq<Label> {
    [Sends(n), DispatchCopiesHead, DispatchCopiesArg, DispatchSignals]
  }

  /** the transaction copies the head, */
  function ReadsHead(n: nat): seq<Label> { [Wakes(n), CopiesHeadOut(n)] }

  /** copies the argument at once, or after another answer has come, */
  function ReadsArg(n: nat): seq<Label> { [CopiesArgOut(n)] }

  function ReadsNextArg(n: nat, next: Reply): seq<Label> {
    [Arrives(next), DispatchCopiesHead, DispatchCopiesArg, CopiesArgOut(n)]
  }

  /** and ends. */
  function Ends(n: nat): seq<Label> { [Matches(n, false), Finishes(n, false)] }

  /** No answer of this kind has arrived since `s`. */
  predicate NoneArrived(s: State, s': State, kind: Head) {
    && |s.events| <= |s'.events| && s'.events[..|s.events|] == s.events
    && forall j | |s.events| <= j < |s'.events| && s'.events[j].Arrived? :: s'.events[j].reply.head != kind
  }

  lemma NoneArrivedTwice(s: State, s1: State, s2: State, kind: Head)
    requires NoneArrived(s, s1, kind) && NoneArrived(s1, s2, kind)
    ensures NoneArrived(s, s2, kind)
  {
    forall j | |s.events| <= j < |s2.events| && s2.events[j].Arrived?
      ensures s2.events[j].reply.head != kind
    {
      assert j < |s1.events| ==> s2.events[..|s1.events|][j] == s1.events[j];
    }
    assert s2.events[..|s.events|] == s2.events[..|s1.events|][..|s.events|];
  }

  lemma OneEventMore(s: State, s': State, e: Event, kind: Head)
    requires s'.events == s.events || (s'.events == s.events + [e] && (e.Arrived? ==> e.reply.head != kind))
    ensures NoneArrived(s, s', kind)
  {
  }

  /** The two copies, as far as they are still to be made. */
  lemma HeldIsCopied(s: State, r: Reply, kind: Head)
    requires CopyOk(s) && s.dispatch.Holding? && s.dispatch.reply == r
    ensures var s' := Step(Step(s, DispatchCopiesHead), DispatchCopiesArg);
      && s' == s.(buffer := Buffer(Some(r.head), r.arg), dispatch := Holding(r, true, true), events := s'.events)
      && NoneArrived(s, s', kind)
  {
    var s1 := Step(s, DispatchCopiesHead);
    assert s1.buffer == Buffer(Some(r.head), s.buffer.arg) && s1.dispatch == s.dispatch.(head := true);
    OneEventMore(s, s1, Copied(r), kind);
    var s2 := Step(s1, DispatchCopiesArg);
    OneEventMore(s1, s2, Copied(r), kind);
    NoneArrivedTwice(s, s1, s2, kind);
  }

  lemma SignalsOneByOne(s: State, n: nat)
    ensures Exec(s, Signals(n))
         == Step(Step(Step(Step(s, Sends(n)), DispatchCopiesHead), DispatchCopiesArg), DispatchSignals)
  {
    FourSteps(s, Signals(n));
  }

  lemma ReadsOneByOne(s: State, n: nat, next: Reply)
    ensures Exec(s, ReadsNextArg(n, next))
         == Step(Step(Step(Step(s, Arrives(next)), DispatchCopiesHead), DispatchCopiesArg), CopiesArgOut(n))
  {
    FourSteps(s, ReadsNextArg(n, next));
  }

  lemma HeldIsSignalled(s: State, n: nat, r: Reply, kind: Head)
    requires CopyOk(s) && At(s, n, Ready) && s.done == 0 && s.dispatch.Holding? && s.dispatch.reply == r
    ensures var s' := Exec(s, Signals(n));
      && s'.txns == s.txns[n := s.txns[n].(pc := Waiting)] && s'.rxId == s.rxId && s'.done == 1
      && s'.buffer == Buffer(Some(r.head), r.arg) && s'.dispatch.Idle? && NoneArrived(s, s', kind)
  {
    SignalsOneByOne(s, n);
    var s1 := s.(txns := s.txns[n := s.txns[n].(pc := Waiting)]);
    assert Step(s, Sends(n)) == s1;
    HeldIsCopied(s1, r, kind);
    var s2 := Step(Step(s1, DispatchCopiesHead), DispatchCopiesArg);
    var s3 := s2.(done := s2.done + 1, dispatch := Idle, events := s2.events + [Signalled(r)]);
    assert Step(s2, DispatchSignals) == s3;
    OneEventMore(s2, s3, Signalled(r), kind);
    NoneArrivedTwice(s1, s2, s3, kind);
  }

  lemma HeadIsRead(s: State, n: nat)
    requires At(s, n, Waiting) && s.done > 0 && s.buffer.head.Some?
    ensures Exec(s, ReadsHead(n))
         == s.(done := s.done - 1, txns := s.txns[n := s.txns[n].(pc := Reading(s.buffer.head, None))])
  {
    TwoSteps(s, ReadsHead(n));
    var t := s.txns[n];
    var s1 := s.(done := s.done - 1, txns := s.txns[n := t.(pc := Reading(None, None))]);
    assert Step(s, Wakes(n)) == s1;
    var s2 := s1.(txns := s1.txns[n := t.(pc := Reading(s.buffer.head, None))]);
    assert Step(s1, CopiesHeadOut(n)) == s2;
    assert s2.txns == s.txns[n := t.(pc := Reading(s.buffer.head, None))];
  }

  lemma ArgIsRead(s: State, n: nat, head: Head)
    requires At(s, n, Reading(Some(head), None))
    ensures Exec(s, ReadsArg(n)) == s.(txns := s.txns[n := s.txns[n].(pc := Got(Reply(head, s.buffer.arg)))])
  {
    assert Exec(s, ReadsArg(n)) == Step(s, CopiesArgOut(n));
  }

  lemma ArgFollows(s: State, n: nat, head: Head)
    requires At(s, n, Reading(Some(head), None))
    ensures Step(s, CopiesArgOut(n)) == s.(txns := s.txns[n := s.txns[n].(pc := Got(Reply(head, s.buffer.arg)))])
  {
  }

  lemma NextArgIsRead(s: State, n: nat, head: Head, next: Reply)
    requires At(s, n, Reading(Some(head), None)) && s.dispatch.Idle? && s.rxId == Some(CommandOf(next))
    ensures var s' := Exec(s, ReadsNextArg(n, next));
      && s'.txns == s.txns[n := s.txns[n].(pc := Got(Reply(head, next.arg)))]
      && (next.head != head ==> NoneArrived(s, s', head))
  {
    ReadsOneByOne(s, n, next);
    var s1 := Step(s, Arrives(next));
    assert s1 == s.(dispatch := Holding(next, false, false), events := s.events + [Arrived(next)]);
    HeldIsCopied(s1, next, head);
    var s2 := Step(Step(s1, DispatchCopiesHead), DispatchCopiesArg);
    ArgFollows(s2, n, head);
    if next.head != head {
      OneEventMore(s, s1, Arrived(next), head);
      NoneArrivedTwice(s, s1, s2, head);
    }
  }

  lemma GotIsTold(s: State, n: nat, kind: Head)
    requires n < |s.txns| && !s.txns[n].get && IsAnswer(kind) && s.txns[n].pc == Got(Reply(kind, s.txns[n].cmd))
    ensures var s' := Exec(s, Ends(n));
      && s'.events == s.events && n < |s'.txns| && Told(s'.txns[n], kind)
      && s'.txns[n].began == s.txns[n].began && s'.txns[n].cmd == s.txns[n].cmd
  {
    TwoSteps(s, Ends(n));
  }

  /** Every started set command gets as far as this with any held answer. */
  lemma HeldIsRead(s: State, n: nat, kind: Head)
    requires CopyOk(s) && At(s, n, Ready) && s.done == 0 && Holds(s.dispatch, kind)
    ensures var s' := Exec(s, Signals(n) + ReadsHead(n));
      && s'.txns == s.txns[n := s.txns[n].(pc := Reading(Some(kind), None))] && s'.rxId == s.rxId
      && s'.buffer.arg == s.dispatch.reply.arg && s'.dispatch.Idle? && NoneArrived(s, s', kind)
  {
    HeldIsSignalled(s, n, s.dispatch.reply, kind);
    ExecTwice(s, Signals(n), ReadsHead(n));
    HeadIsRead(Exec(s, Signals(n)), n);
  }

  lemma ToldWithoutOwn(s: State, s1: State, n: nat, kind: Head)
    requires n < |s.txns| && s.txns[n].began == |s.events| - 1 && !s.txns[n].get && IsAnswer(kind)
    requires NoneArrived(s, s1, kind)
    requires s1.txns == s.txns[n := s.txns[n].(pc := Got(Reply(kind, s.txns[n].cmd)))]
    ensures var s' := Exec(s1, Ends(n));
      n < |s'.txns| && s'.txns[n].cmd == s.txns[n].cmd && Told(s'.txns[n], kind) && !ToldItsOwn(s', n, kind)
  {
    GotIsTold(s1, n, kind);
  }

  /** An answer that names the command is taken as it is; */
  lemma LateIsTold(s: State, n: nat, kind: Head)
    requires CopyOk(s) && At(s, n, Ready) && !s.txns[n].get && IsAnswer(kind) && s.txns[n].began == |s.events| - 1
    requires s.done == 0 && Holds(s.dispatch, kind) && s.dispatch.reply.arg == s.txns[n].cmd
    ensures var s' := Exec(s, Signals(n) + ReadsHead(n) + ReadsArg(n) + Ends(n));
      n < |s'.txns| && s'.txns[n].cmd == s.txns[n].cmd && Told(s'.txns[n], kind) && !ToldItsOwn(s', n, kind)
  {
    var s1 := Exec(s, Signals(n) + ReadsHead(n));
    HeldIsRead(s, n, kind);
    ExecTwice(s, Signals(n) + ReadsHead(n), ReadsArg(n));
    ArgIsRead(s1, n, kind);
    ExecTwice(s, Signals(n) + ReadsHead(n) + ReadsArg(n), Ends(n));
    ToldWithoutOwn(s, Exec(s1, ReadsArg(n)), n, kind);
  }

  function Other(kind: Head): Head { if kind.Ack? then Nack else Ack }

  /** any answer is, once the opposite answer to the command has overwritten its argument. */
  lemma TornIsTold(s: State, n: nat, kind: Head)
    requires CopyOk(s) && At(s, n, Ready) && !s.txns[n].get && IsAnswer(kind) && s.txns[n].began == |s.events| - 1
    requires s.done == 0 && Holds(s.dispatch, kind) && s.rxId == Some(s.txns[n].cmd)
    ensures var next := Reply(Other(kind), s.txns[n].cmd);
      var s' := Exec(s, Signals(n) + ReadsHead(n) + ReadsNextArg(n, next) + Ends(n));
      n < |s'.txns| && s'.txns[n].cmd == s.txns[n].cmd && Told(s'.txns[n], kind) && !ToldItsOwn(s', n, kind)
  {
    var next := Reply(Other(kind), s.txns[n].cmd);
    var s1 := Exec(s, Signals(n) + ReadsHead(n));
    HeldIsRead(s, n, kind);
    ExecTwice(s, Signals(n) + ReadsHead(n), ReadsNextArg(n, next));
    NextArgIsRead(s1, n, kind, next);
    NoneArrivedTwice(s, s1, Exec(s1, ReadsNextArg(n, next)), kind);
    ExecTwice(s, Signals(n) + ReadsHead(n) + ReadsNextArg(n, next), Ends(n));
    ToldWithoutOwn(s, Exec(s1, ReadsNextArg(n, next)), n, kind);
  }

  /** Main result on replies: take any set command, in any reachable state, about to start. However the run goes on,
      it is told success only by an ACK, and refusal only by a NACK, that names it and arrived after its own start -
      if and only if the dispatcher is not then between comparing an ACK, or NACK, and signalling it. */
  lemma SuccessIsOwn(schedule: seq<Label>, n: nat, kind: Head)
    requires At(Exec(Boot(), schedule), n, Named) && !Exec(Boot(), schedule).txns[n].get && IsAnswer(kind)
    ensures var s := Step(Exec(Boot(), schedule), Inits(n));
      (forall more :: ToldItsOwn(Exec(s, more), n, kind)) <==> !Holds(s.dispatch, kind)
  {
    var before := Exec(Boot(), schedule);
    var s := Step(before, Inits(n));
    ExecKeepsInv(Boot(), schedule);
    StepKeepsInv(before, Inits(n));
    if Holds(s.dispatch, kind) {
      TornIsTold(s, n, kind);
    } else {
      forall more
        ensures ToldItsOwn(Exec(s, more), n, kind)
      {
        StartedIsTold(s, more, n, kind);
      }
    }
  }

  lemma StartedIsTold(s: State, more: seq<Label>, n: nat, kind: Head)
    requires Inv(s) && At(s, n, Ready) && s.done == 0 && s.txns[n].began == |s.events| - 1 && IsAnswer(kind)
    requires !Holds(s.dispatch, kind)
    ensures ToldItsOwn(Exec(s, more), n, kind)
  {
    ExecKeepsSince(s, more, Start(n, s.txns[n].cmd, s.txns[n].began, s.dispatch));
  }

  // ------------------------------------------------------------------
  // What comes of a command.

  /** The reply to a command: the response to its request, or an ACK or NACK that names it. */
  predicate IsOwn(get: bool, cmd: byte, r: Reply) {
    if get then r.head == Response(cmd) else (r.head == Ack || r.head == Nack) && r.arg == cmd
  }

  /** What the caller is told: the response if it can be parsed, or whether the device has obeyed. */
  predicate TellsOf(get: bool, r: Reply, parses: bool, o: Outcome) {
    if get then o == (if parses then Answered(Untouched) else Error)
    else o == Answered(if r.head == Ack then True else False)
  }

  function Starts(n: nat, get: bool, cmd: byte): seq<Label> {
    [Calls(get, cmd), Downs(n), SetsId(n), Inits(n)]
  }

  /** A reply arrives, and the transaction reads it. */
  function Comes(r: Reply): seq<Label> { [Arrives(r), DispatchCopiesHead, DispatchCopiesArg, DispatchSignals] }

  function Takes(n: nat, parses: bool): seq<Label> {
    ReadsHead(n) + (ReadsArg(n) + [Matches(n, false), Finishes(n, parses)])
  }

  lemma ReplyIsSignalled(s: State, r: Reply)
    requires s.dispatch.Idle? && s.rxId == Some(CommandOf(r)) && s.done == 0
    ensures var s' := Exec(s, Comes(r));
      s' == s.(done := 1, buffer := Buffer(Some(r.head), r.arg), events := s'.events)
  {
    FourSteps(s, Comes(r));
  }

  lemma OwnIsTold(s: State, n: nat, r: Reply, parses: bool)
    requires At(s, n, Got(r)) && IsOwn(s.txns[n].get, s.txns[n].cmd, r)
    ensures var s' := Exec(s, [Matches(n, false), Finishes(n, parses)]);
      && n < |s'.txns| && s'.txns[n].pc.Ended? && TellsOf(s.txns[n].get, r, parses, s'.txns[n].pc.outcome)
      && s'.sem == s.sem + 1 && s'.done == s.done && s'.dispatch == s.dispatch
  {
    TwoSteps(s, [Matches(n, false), Finishes(n, parses)]);
  }

  lemma BufferIsTaken(s: State, n: nat, parses: bool)
    requires At(s, n, Waiting) && s.done > 0 && s.buffer.head.Some?
    requires IsOwn(s.txns[n].get, s.txns[n].cmd, Reply(s.buffer.head.value, s.buffer.arg))
    ensures var s' := Exec(s, Takes(n, parses));
      && n < |s'.txns| && s'.txns[n].pc.Ended?
      && TellsOf(s.txns[n].get, Reply(s.buffer.head.value, s.buffer.arg), parses, s'.txns[n].pc.outcome)
      && s'.sem == s.sem + 1 && s'.done == s.done - 1 && s'.dispatch == s.dispatch
  {
    var ends := [Matches(n, false), Finishes(n, parses)];
    ExecTwice(s, ReadsHead(n), ReadsArg(n) + ends);
    HeadIsRead(s, n);
    var s1 := Exec(s, ReadsHead(n));
    ExecTwice(s1, ReadsArg(n), ends);
    ArgIsRead(s1, n, s.buffer.head.value);
    OwnIsTold(Exec(s1, ReadsArg(n)), n, Reply(s.buffer.head.value, s.buffer.arg), parses);
  }

  /** A waiting transaction is told its own reply, and gives the semaphore back. */
  lemma OwnReplyIsTold(s: State, n: nat, r: Reply, parses: bool)
    requires At(s, n, Waiting) && s.rxId == Some(s.txns[n].cmd) && s.done == 0 && s.dispatch.Idle?
    requires IsOwn(s.txns[n].get, s.txns[n].cmd, r)
    ensures var s' := Exec(s, Comes(r) + Takes(n, parses));
      && n < |s'.txns| && s'.txns[n].pc.Ended? && TellsOf(s.txns[n].get, r, parses, s'.txns[n].pc.outcome)
      && s'.sem == s.sem + 1 && s'.done == 0 && s'.dispatch.Idle?
  {
    ExecTwice(s, Comes(r), Takes(n, parses));
    ReplyIsSignalled(s, r);
    BufferIsTaken(Exec(s, Comes(r)), n, parses);
  }

  lemma StartsAndWaits(s: State, n: nat, get: bool, cmd: byte)
    requires s.sem > 0 && n == |s.txns|
    ensures var s' := Exec(s, Starts(n, get, cmd) + [Sends(n)]);
      && At(s', n, Waiting) && s'.txns[n].get == get && s'.txns[n].cmd == cmd
      && s'.rxId == Some(cmd) && s'.done == 0 && s'.dispatch == s.dispatch && s'.sem == s.sem - 1
  {
    var s1 := Exec(s, Starts(n, get, cmd));
    FourSteps(s, Starts(n, get, cmd));
    ExecTwice(s, Starts(n, get, cmd), [Sends(n)]);
    assert Exec(s1, [Sends(n)]) == Step(s1, Sends(n));
  }

  /** Main result on commands: whenever the semaphore is free and the dispatcher idle, a new command of either kind
      whose reply comes in time is told that reply, whatever went before, and leaves the same behind. */
  lemma EveryCommandIsTold(s: State, get: bool, cmd: byte, r: Reply, parses: bool)
    requires s.sem > 0 && s.dispatch.Idle? && IsOwn(get, cmd, r)
    ensures var n := |s.txns|;
      var s' := Exec(s, Starts(n, get, cmd) + [Sends(n)] + (Comes(r) + Takes(n, parses)));
      && n < |s'.txns| && s'.txns[n].pc.Ended? && TellsOf(get, r, parses, s'.txns[n].pc.outcome)
      && s'.sem == s.sem && s'.done == 0 && s'.dispatch.Idle?
  {
    var n := |s.txns|;
    ExecTwice(s, Starts(n, get, cmd) + [Sends(n)], Comes(r) + Takes(n, parses));
    StartsAndWaits(s, n, get, cmd);
    OwnReplyIsTold(Exec(s, Starts(n, get, cmd) + [Sends(n)]), n, r, parses);
  }

  /** A transaction that finds something else in its copy can still be told its own reply. */
  lemma OwnReplyAfterMismatch(s: State, n: nat, other: Reply, r: Reply, parses: bool)
    requires At(s, n, Got(other)) && s.rxId == Some(s.txns[n].cmd) && s.done == 0 && s.dispatch.Idle?
    requires IsOwn(s.txns[n].get, s.txns[n].cmd, r)
    ensures var s' := Exec(s, [Retries(n)] + (Comes(r) + Takes(n, parses)));
      && n < |s'.txns| && s'.txns[n].pc.Ended? && TellsOf(s.txns[n].get, r, parses, s'.txns[n].pc.outcome)
      && s'.sem == s.sem + 1
  {
    ExecTwice(s, [Retries(n)], Comes(r) + Takes(n, parses));
    assert Exec(s, [Retries(n)]) == Step(s, Retries(n));
    OwnReplyIsTold(Step(s, Retries(n)), n, r, parses);
  }

  /** A transaction that is not answered, in a hurry: each step that is possible takes it nearer to its end. */
  function GivesIn(n: nat, fails: Label): seq<Label> {
    [SetsId(n), Inits(n), SendFails(n), fails] + ReaderGivesIn(n)
  }

  predicate HasLeft(s: State, s': State, n: nat) {
    && n < |s.txns| && n < |s'.txns| && s'.txns[n].pc == Ended(Error)
    && s'.sem == s.sem + (if Inside(s.txns[n]) then 1 else 0)
  }

  /** The second half of these steps. */
  function ReaderGivesIn(n: nat): seq<Label> {
    [CopiesHeadOut(n), CopiesArgOut(n), GivesUp(n), Interrupted(n)]
  }

  lemma EndedDoesNothing(s: State, n: nat)
    requires n < |s.txns| && s.txns[n].pc == Ended(Error)
    ensures Step(s, CopiesHeadOut(n)) == s && Step(s, CopiesArgOut(n)) == s
    ensures Step(s, GivesUp(n)) == s && Step(s, Interrupted(n)) == s
  {
  }

  lemma LeftStaysLeft(s: State, n: nat)
    requires n < |s.txns| && s.txns[n].pc == Ended(Error)
    ensures Exec(s, ReaderGivesIn(n)) == s
  {
    FourSteps(s, ReaderGivesIn(n));
    EndedDoesNothing(s, n);
  }

  lemma CallerReadsNothing(s: State, n: nat)
    requires n < |s.txns| && s.txns[n].pc.Calling?
    ensures Step(s, CopiesHeadOut(n)) == s && Step(s, CopiesArgOut(n)) == s && Step(s, GivesUp(n)) == s
    ensures HasLeft(s, Step(s, Interrupted(n)), n)
  {
  }

  lemma CallerGivesUp(s: State, n: nat)
    requires n < |s.txns| && s.txns[n].pc.Calling?
    ensures HasLeft(s, Exec(s, ReaderGivesIn(n)), n)
  {
    FourSteps(s, ReaderGivesIn(n));
    CallerReadsNothing(s, n);
  }

  lemma GotGivesUp(s: State, n: nat)
    requires n < |s.txns| && s.txns[n].pc.Got?
    ensures var s' := Step(Step(s, GivesUp(n)), Interrupted(n)); HasLeft(s, s', n)
  {
  }

  lemma BothAreRead(s: State, n: nat)
    requires n < |s.txns| && s.buffer.head.Some?
    requires s.txns[n].pc.Reading? && (s.txns[n].pc.head.None? || s.txns[n].pc.arg.None?)
    ensures var s' := Step(Step(s, CopiesHeadOut(n)), CopiesArgOut(n));
      n < |s'.txns| && s'.txns[n].pc.Got? && s'.sem == s.sem
  {
  }

  lemma ReaderGivesUp(s: State, n: nat)
    requires n < |s.txns| && (s.txns[n].pc.Got? || s.txns[n].pc.Reading?)
    requires s.txns[n].pc.Reading? ==>
      s.buffer.head.Some? && (s.txns[n].pc.head.None? || s.txns[n].pc.arg.None?)
    ensures HasLeft(s, Exec(s, ReaderGivesIn(n)), n)
  {
    FourSteps(s, ReaderGivesIn(n));
    if s.txns[n].pc.Got? {
      assert Step(Step(s, CopiesHeadOut(n)), CopiesArgOut(n)) == s;
      GotGivesUp(s, n);
    } else {
      BothAreRead(s, n);
      GotGivesUp(Step(Step(s, CopiesHeadOut(n)), CopiesArgOut(n)), n);
    }
  }

  lemma SenderGivesUp(s: State, n: nat, fails: Label, first: seq<Label>)
    requires n < |s.txns| && (fails == TimesOut(n) || fails == AllocFails(n))
    requires first == [SetsId(n), Inits(n), SendFails(n), fails]
    ensures var pc := s.txns[n].pc;
      if pc.Entered? || pc.Named? || pc.Ready? || pc.Waiting? then HasLeft(s, Exec(s, first), n)
      else Exec(s, first) == s
  {
    FourSteps(s, first);
  }

  /** Main result on leaving: in every reachable state each transaction that has not ended can end without a reply,
      whatever fails it, and gives back the semaphore if it has taken it. */
  lemma EveryCommandCanEnd(schedule: seq<Label>, n: nat, fails: Label)
    requires n < |Exec(Boot(), schedule).txns| && (fails == TimesOut(n) || fails == AllocFails(n))
    requires var pc := Exec(Boot(), schedule).txns[n].pc; !pc.Parsing? && !pc.Ended?
    ensures HasLeft(Exec(Boot(), schedule), Exec(Exec(Boot(), schedule), GivesIn(n, fails)), n)
  {
    var s := Exec(Boot(), schedule);
    ExecKeepsInv(Boot(), schedule);
    assert Fresh(s, n);
    var first := [SetsId(n), Inits(n), SendFails(n), fails];
    ExecTwice(s, first, ReaderGivesIn(n));
    SenderGivesUp(s, n, fails, first);
    var s1 := Exec(s, first);
    if s1 != s {
      LeftStaysLeft(s1, n);
    } else if s.txns[n].pc.Calling? {
      CallerGivesUp(s, n);
    } else {
      ReaderGivesUp(s, n);
    }
  }

  // ------------------------------------------------------------------
  // Two such runs.

  const ACK_7: Reply := Reply(Ack, 7)

  /** A set command times out, its ACK having been compared but not yet copied. */
  const TIMES_OUT: seq<Label> :=
    [Calls(false, 7), Downs(0), SetsId(0), Inits(0)] + [Sends(0), Arrives(ACK_7), TimesOut(0)]

  const TIMED_OUT: State :=
    State(1, Some(7), 0, Buffer(None, 0), Holding(ACK_7, false, false), [Txn(false, 7, Ended(Error), 1, 1, 0)],
          [Began(0), Arrived(ACK_7)])

  /** The next one starts. */
  function StartsNext(cmd: byte): seq<Label> { [Calls(false, cmd), Downs(1), SetsId(1), Inits(1)] }

  function NextStarted(cmd: byte): State {
    State(0, Some(cmd), 0, Buffer(None, 0), Holding(ACK_7, false, false),
          [Txn(false, 7, Ended(Error), 1, 1, 0), Txn(false, cmd, Ready, 1, 0, 2)],
          [Began(0), Arrived(ACK_7), Began(1)])
  }

  lemma FirstTimesOut()
    ensures Exec(Boot(), TIMES_OUT) == TIMED_OUT
  {
    var first: seq<Label> := [Calls(false, 7), Downs(0), SetsId(0), Inits(0)];
    var second: seq<Label> := [Sends(0), Arrives(ACK_7), TimesOut(0)];
    ExecTwice(Boot(), first, second);
    FourSteps(Boot(), first);
    var s := Exec(Boot(), first);
    assert s == State(0, Some(7), 0, Buffer(None, 0), Idle, [Txn(false, 7, Ready, 1, 0, 0)], [Began(0)]);
    var s1 := Step(s, second[0]);
    var s2 := Step(s1, second[1]);
    assert Exec(s2, second[2..]) == Step(s2, second[2]);
    assert Exec(s1, second[1..]) == Exec(s2, second[2..]);
  }

  lemma NextStarts(cmd: byte)
    ensures Exec(TIMED_OUT, StartsNext(cmd)) == NextStarted(cmd)
  {
    FourSteps(TIMED_OUT, StartsNext(cmd));
  }

  lemma NextStartedOk(cmd: byte)
    ensures Exec(Boot(), TIMES_OUT + StartsNext(cmd)) == NextStarted(cmd)
    ensures CopyOk(NextStarted(cmd)) && At(NextStarted(cmd), 1, Ready)
  {
    ExecTwice(Boot(), TIMES_OUT, StartsNext(cmd));
    FirstTimesOut();
    NextStarts(cmd);
  }

  /** The next command is the same one: it is told success by the ACK to the first. */
  lemma LateAckIsTaken()
    ensures var s := Exec(Boot(), TIMES_OUT + StartsNext(7) + (Signals(1) + ReadsHead(1) + ReadsArg(1) + Ends(1)));
      1 < |s.txns| && Told(s.txns[1], Ack) && !ToldItsOwn(s, 1, Ack)
  {
    ExecTwice(Boot(), TIMES_OUT + StartsNext(7), Signals(1) + ReadsHead(1) + ReadsArg(1) + Ends(1));
    NextStartedOk(7);
    LateIsTold(NextStarted(7), 1, Ack);
  }

  /** It is another one, and the device refuses it: it is told success by the ACK to the first, torn by the NACK. */
  lemma RefusalIsToldAsSuccess()
    ensures var way := Signals(1) + ReadsHead(1) + ReadsNextArg(1, Reply(Nack, 9)) + Ends(1);
      var s := Exec(Boot(), TIMES_OUT + StartsNext(9) + way);
      1 < |s.txns| && s.txns[1].cmd == 9 && Told(s.txns[1], Ack) && !ToldItsOwn(s, 1, Ack)
  {
    var way := Signals(1) + ReadsHead(1) + ReadsNextArg(1, Reply(Nack, 9)) + Ends(1);
    ExecTwice(Boot(), TIMES_OUT + StartsNext(9), way);
    NextStartedOk(9);
    TornIsTold(NextStarted(9), 1, Ack);
  }
}
