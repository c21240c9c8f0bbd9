/** One writer and one reader of the byte ring, interleaved step by step. Each side loads both pointers
    once, copies one byte per step, and publishes its own pointer last, so that it works on a view of the
    other side's pointer that may be out of date. Memory is sequentially consistent. */
module RingInterleaving {
  import opened ByteRing
  import opened CInts
  import opened Sequences

  datatype Writer = WriterIdle | Writing(data: seq<byte>, pread: nat, pwrite: nat, done: nat)

  datatype Reader = ReaderIdle | Reading(size: nat, pread: nat, pwrite: nat, got: seq<byte>)

  /** The ring, the two sides, and a record of what has happened to every byte offered so far. */
  datatype State = State(
    ring: Ring,
    skipCount: u64,
    writer: Writer,
    reader: Reader,
    offered: nat,
    skipped: nat,
    accepted: seq<byte>,
    consumed: seq<byte>,
    cleared: nat,
    left: seq<byte>)

  datatype Label =
    | WriterLoads(data: seq<byte>)
    | WriterCopies
    | WriterPublishes
    | ReaderLoads(size: nat)
    | ReaderCopies
    | ReaderPublishes
    | Clears

  function Start(cap: nat): State {
    State(Ring(seq(cap, _ => 0), 0, 0), 0, WriterIdle, ReaderIdle, 0, 0, [], [], 0, [])
  }

  /** What the writer works out from the pointers it loaded. */
  function WritePlanOf(cap: nat, w: Writer): WritePlan
    requires w.Writing? && w.pread <= cap && w.pwrite <= cap
  {
    PlanWrite(cap, w.pread, w.pwrite, |w.data|)
  }

  /** What the reader works out from the pointers it loaded. */
  function ReadPlanOf(cap: nat, r: Reader): ReadPlan
    requires r.Reading? && r.pread <= cap && r.pwrite <= cap
  {
    PlanRead(cap, r.pread, r.pwrite, r.size)
  }

  /** How many bytes the reader will copy. */
  function Promised(cap: nat, r: Reader): nat
    requires r.Reading? && r.pread <= cap && r.pwrite <= cap
  {
    ReadPlanOf(cap, r).first + ReadPlanOf(cap, r).second
  }

  function WriterPlan(s: State): WritePlan
    requires InBounds(s) && s.writer.Writing?
  {
    WritePlanOf(|s.ring.buf|, s.writer)
  }

  function ReaderPlan(s: State): ReadPlan
    requires InBounds(s) && s.reader.Reading?
  {
    ReadPlanOf(|s.ring.buf|, s.reader)
  }

  predicate InBounds(s: State) {
    && s.ring.read <= |s.ring.buf| && s.ring.write <= |s.ring.buf|
    && (s.writer.Writing? ==> s.writer.pread <= |s.ring.buf| && s.writer.pwrite <= |s.ring.buf|)
    && (s.reader.Reading? ==> s.reader.pread <= |s.ring.buf| && s.reader.pwrite <= |s.ring.buf|)
  }

  predicate CanCopyIn(s: State)
    requires InBounds(s)
  {
    s.writer.Writing? && WriterPlan(s).Store? && s.writer.done < |s.writer.data|
  }

  predicate CanCopyOut(s: State)
    requires InBounds(s)
  {
    s.reader.Reading? && |s.reader.got| < ReaderPlan(s).first + ReaderPlan(s).second
  }

  function CopyInTarget(s: State): nat
    requires InBounds(s) && CanCopyIn(s)
  {
    Target(s.writer.pwrite, WriterPlan(s), s.writer.done)
  }

  function CopyOutSource(s: State): nat
    requires InBounds(s) && CanCopyOut(s)
  {
    Source(s.reader.pread, ReaderPlan(s), |s.reader.got|)
  }

  predicate InBuffer(s: State)
    requires InBounds(s)
  {
    && (CanCopyIn(s) ==> CopyInTarget(s) < |s.ring.buf|)
    && (CanCopyOut(s) ==> CopyOutSource(s) < |s.ring.buf|)
  }

  function WriterStep(s: State, l: Label): (s': State)
    requires InBounds(s) && InBuffer(s)
  {
    match l
    case WriterLoads(data) =>
      if s.writer.WriterIdle? && data != [] then
        s.(writer := Writing(data, s.ring.read, s.ring.write, 0), offered := s.offered + |data|)
      else s
    case WriterCopies =>
      if CanCopyIn(s) then
        s.(ring := s.ring.(buf := s.ring.buf[CopyInTarget(s) := s.writer.data[s.writer.done]]),
           writer := s.writer.(done := s.writer.done + 1))
      else s
    case WriterPublishes =>
      if s.writer.Writing? && !CanCopyIn(s) then
        if WriterPlan(s).Store? then
          s.(ring := s.ring.(write := WriterPlan(s).next),
             writer := WriterIdle,
             accepted := s.accepted + s.writer.data)
        else
          s.(ring := s.ring.(write := s.writer.pwrite),
             writer := WriterIdle,
             skipped := s.skipped + |s.writer.data|,
             skipCount := ToU64(s.skipCount + |s.writer.data|))
      else s
    case _ => s
  }

  function ReaderStep(s: State, l: Label): (s': State)
    requires InBounds(s) && InBuffer(s)
  {
    match l
    case ReaderLoads(size) =>
      if s.reader.ReaderIdle? && size > 0 then s.(reader := Reading(size, s.ring.read, s.ring.write, []))
      else s
    case ReaderCopies =>
      if CanCopyOut(s) then s.(reader := s.reader.(got := s.reader.got + [s.ring.buf[CopyOutSource(s)]]))
      else s
    case ReaderPublishes =>
      if s.reader.Reading? && !CanCopyOut(s) then
        s.(ring := if s.reader.got != [] then s.ring.(read := ReaderPlan(s).next) else s.ring,
           reader := ReaderIdle,
           consumed := s.consumed + s.reader.got,
           left := s.left + s.reader.got)
      else s
    case _ => s
  }

  /** Clearing resets both pointers, whatever the two sides are doing. */
  ghost function ClearStep(s: State): (s': State) {
    if Valid(s.ring) then
      s.(ring := s.ring.(read := 0, write := 0),
         cleared := s.cleared + |Contents(s.ring)|,
         left := s.left + Contents(s.ring))
    else s
  }

  /** A label whose step is not possible changes nothing. */
  ghost function Step(s: State, l: Label): State {
    if !InBounds(s) || !InBuffer(s) then s else
    match l
    case WriterLoads(_) => WriterStep(s, l)
    case WriterCopies => WriterStep(s, l)
    case WriterPublishes => WriterStep(s, l)
    case Clears => ClearStep(s)
    case _ => ReaderStep(s, l)
  }

  /** The plan made from an old view does what the writer would do now, and what it copied is in place. */
  ghost predicate WriterOk(g: Ring, w: Writer)
    requires Valid(g)
  {
    w.Writing? ==>
      && w.data != [] && w.done <= |w.data| && StillRight(g, w.pread, w.pwrite, |w.data|)
      && (WritePlanOf(|g.buf|, w).Store? ==>
            Stored(g, PlanWrite(|g.buf|, g.read, g.write, |w.data|), w.data, w.done))
  }

  /** The plan made from an old view is the plan for as many bytes now, and what was copied is their prefix. A reader
      that found nothing will copy nothing. */
  ghost predicate ReaderOk(g: Ring, r: Reader)
    requires Valid(g)
  {
    r.Reading? ==>
      && r.size > 0 && r.pread <= |g.buf| && r.pwrite <= |g.buf|
      && |r.got| <= Promised(|g.buf|, r) <= |Contents(g)|
      && r.got <= Contents(g)
      && (Promised(|g.buf|, r) > 0 ==>
            && r.pread == g.read
            && ReadPlanOf(|g.buf|, r) == PlanRead(|g.buf|, g.read, g.write, Promised(|g.buf|, r)))
  }

  /** A clear is clean while the writer is idle, or starts from the beginning, */
  predicate WriterLetsClear(cap: nat, w: Writer)
    requires w.Writing? ==> w.pread <= cap && w.pwrite <= cap
  {
    w.Writing? ==> LetsClear(cap, w.pread, w.pwrite, |w.data|)
  }

  /** and while the reader is idle, or found nothing. */
  predicate ReaderLetsClear(cap: nat, r: Reader)
    requires r.Reading? ==> r.pread <= cap && r.pwrite <= cap
  {
    r.Reading? ==> Promised(cap, r) == 0
  }

  predicate CleanClear(s: State) {
    InBounds(s) && WriterLetsClear(|s.ring.buf|, s.writer) && ReaderLetsClear(|s.ring.buf|, s.reader)
  }

  ghost predicate Inv(s: State, cap: nat) {
    && |s.ring.buf| == cap && Valid(s.ring)
    && WriterOk(s.ring, s.writer) && ReaderOk(s.ring, s.reader)
    && s.left + Contents(s.ring) == s.accepted
    && |s.left| == |s.consumed| + s.cleared
    && (s.cleared == 0 ==> s.left == s.consumed)
    && s.offered == |s.accepted| + s.skipped + (if s.writer.Writing? then |s.writer.data| else 0)
    && s.skipCount == ToU64(s.skipped)
  }

  /** The plan of a writer that loads its pointers now. */
  function PlanNow(s: State): WritePlan
    requires InBounds(s) && s.writer.Writing?
  {
    PlanWrite(|s.ring.buf|, s.ring.read, s.ring.write, |s.writer.data|)
  }

  /** No step of the writer touches an unread byte, and no step of the reader leaves the unread bytes. */
  lemma StepsStayApart(s: State, cap: nat)
    requires Inv(s, cap)
    ensures InBounds(s) && InBuffer(s)
    ensures CanCopyIn(s) ==> !Unread(s.ring, CopyInTarget(s))
    ensures CanCopyOut(s) ==> Unread(s.ring, CopyOutSource(s))
    ensures CanCopyOut(s) ==> s.ring.buf[CopyOutSource(s)] == Contents(s.ring)[|s.reader.got|]
  {
    if CanCopyIn(s) {
      TargetsAreFree(s.ring, PlanNow(s), |s.writer.data|, s.writer.done);
    }
    if CanCopyOut(s) {
      SourceIsContents(s.ring, ReaderPlan(s), Promised(|s.ring.buf|, s.reader), |s.reader.got|);
    }
  }

  lemma WriterCopiesKeepsInv(s: State, cap: nat)
    requires Inv(s, cap) && InBounds(s) && InBuffer(s) && CanCopyIn(s)
    ensures Inv(WriterStep(s, WriterCopies), cap)
  {
    StepsStayApart(s, cap);
    var k, plan, n := CopyInTarget(s), PlanNow(s), s.writer.done;
    var s' := WriterStep(s, WriterCopies);
    FreeByteChange(s.ring, k, s.writer.data[n]);
    TargetsAreFree(s.ring, plan, |s.writer.data|, n);
    forall i | 0 <= i < n + 1
      ensures Target(s.ring.write, plan, i) < |s'.ring.buf|
      ensures s'.ring.buf[Target(s.ring.write, plan, i)] == s.writer.data[i]
    {
    }
  }

  /** The reader's old view outlives the writer's progress. */
  lemma ReaderOutlivesWrite(g: Ring, r: Reader, plan: WritePlan, data: seq<byte>)
    requires Valid(g) && ReaderOk(g, r) && data != []
    requires plan.Store? && plan == PlanWrite(|g.buf|, g.read, g.write, |data|) && Stored(g, plan, data, |data|)
    ensures Valid(g.(write := plan.next)) && ReaderOk(g.(write := plan.next), r)
  {
    PublishAppends(g, plan, data);
    if r.Reading? {
      var n := Promised(|g.buf|, r);
      if n > 0 {
        ReadPlanSurvives(g, ReadPlanOf(|g.buf|, r), n, plan, |data|);
      }
    }
  }

  /** The writer's old view outlives the reader's progress. */
  lemma WriterOutlivesRead(g: Ring, w: Writer, plan: ReadPlan, n: nat)
    requires Valid(g) && WriterOk(g, w)
    requires 0 < n <= |Contents(g)| && plan == PlanRead(|g.buf|, g.read, g.write, n)
    ensures Valid(g.(read := plan.next)) && WriterOk(g.(read := plan.next), w)
  {
    PublishDrops(g, plan, n);
    if w.Writing? {
      StillRightAfterRead(g, w.pread, w.pwrite, |w.data|, plan, n);
      if WritePlanOf(|g.buf|, w).Store? {
        WritePlanSurvives(g, PlanWrite(|g.buf|, g.read, g.write, |w.data|), |w.data|, plan, n);
      }
    }
  }

  lemma WrapAgain(x: nat, y: nat)
    ensures ToU64(ToU64(x) + y) == ToU64(x + y)
  {
  }

  lemma WriterPublishesKeepsInv(s: State, cap: nat)
    requires Inv(s, cap) && InBounds(s) && InBuffer(s)
    ensures Inv(WriterStep(s, WriterPublishes), cap)
  {
    if s.writer.Writing? && !CanCopyIn(s) && WriterPlan(s).Store? {
      var g, data, plan := s.ring, s.writer.data, PlanNow(s);
      PublishAppends(g, plan, data);
      ReaderOutlivesWrite(g, s.reader, plan, data);
      Assoc(s.left, Contents(g), data);
    } else if s.writer.Writing? && !CanCopyIn(s) {
      WrapAgain(s.skipped, |s.writer.data|);
    }
  }

  lemma ReaderLoadsKeepsInv(s: State, cap: nat, size: nat)
    requires Inv(s, cap) && InBounds(s) && InBuffer(s)
    ensures Inv(ReaderStep(s, ReaderLoads(size)), cap)
  {
    if size > 0 {
      PlanReadCounts(s.ring, size);
    }
  }

  lemma ReaderCopiesKeepsInv(s: State, cap: nat)
    requires Inv(s, cap) && InBounds(s) && InBuffer(s)
    ensures Inv(ReaderStep(s, ReaderCopies), cap)
  {
    if CanCopyOut(s) {
      StepsStayApart(s, cap);
      PrefixGrows(s.reader.got, Contents(s.ring));
    }
  }

  lemma ReaderTakesKeepsInv(s: State, cap: nat)
    requires Inv(s, cap) && InBounds(s) && InBuffer(s)
    requires s.reader.Reading? && !CanCopyOut(s) && s.reader.got != []
    ensures Inv(ReaderStep(s, ReaderPublishes), cap)
  {
    var g, n, got, plan := s.ring, |s.reader.got|, s.reader.got, ReaderPlan(s);
    PublishDrops(g, plan, n);
    WriterOutlivesRead(g, s.writer, plan, n);
    MoveOver(s.left, got, Contents(g));
  }

  lemma ReaderPublishesKeepsInv(s: State, cap: nat)
    requires Inv(s, cap) && InBounds(s) && InBuffer(s)
    ensures Inv(ReaderStep(s, ReaderPublishes), cap)
  {
    if s.reader.Reading? && !CanCopyOut(s) && s.reader.got != [] {
      ReaderTakesKeepsInv(s, cap);
    }
  }

  lemma ClearKeepsWriterOk(g: Ring, w: Writer)
    requires Valid(g) && WriterOk(g, w)
    requires w.Writing? ==> w.pread <= |g.buf| && w.pwrite <= |g.buf|
    requires WriterLetsClear(|g.buf|, w)
    ensures WriterOk(g.(read := 0, write := 0), w)
  {
    if w.Writing? {
      StillRightAfterClear(g, w.pread, w.pwrite, |w.data|);
    }
  }

  lemma ClearKeepsInv(s: State, cap: nat)
    requires Inv(s, cap) && CleanClear(s)
    ensures Inv(ClearStep(s), cap)
  {
    ClearKeepsWriterOk(s.ring, s.writer);
    assert s.left + Contents(s.ring) + [] == s.left + Contents(s.ring);
  }

  lemma StepKeepsInv(s: State, cap: nat, l: Label)
    requires Inv(s, cap) && (l.Clears? ==> CleanClear(s))
    ensures InBounds(s) && InBuffer(s) && Inv(Step(s, l), cap)
  {
    StepsStayApart(s, cap);
    match l
    case WriterCopies =>
      if CanCopyIn(s) {
        WriterCopiesKeepsInv(s, cap);
      }
    case WriterPublishes => WriterPublishesKeepsInv(s, cap);
    case ReaderLoads(size) => ReaderLoadsKeepsInv(s, cap, size);
    case ReaderCopies => ReaderCopiesKeepsInv(s, cap);
    case ReaderPublishes => ReaderPublishesKeepsInv(s, cap);
    case Clears => ClearKeepsInv(s, cap);
    case _ =>
  }

  /** The state after a schedule of steps. */
  ghost function Exec(s: State, schedule: seq<Label>): State
    decreases |schedule|
  {
    if schedule == [] then s else Exec(Step(s, schedule[0]), schedule[1..])
  }

  /** Every clear in the schedule is a clean one. */
  ghost predicate CleanClears(s: State, schedule: seq<Label>)
    decreases |schedule|
  {
    schedule == [] ||
    ((schedule[0].Clears? ==> CleanClear(s)) && CleanClears(Step(s, schedule[0]), schedule[1..]))
  }

  lemma {:induction false} ExecKeepsInv(s: State, cap: nat, schedule: seq<Label>)
    requires Inv(s, cap) && CleanClears(s, schedule)
    ensures Inv(Exec(s, schedule), cap)
    decreases |schedule|
  {
    if schedule != [] {
      StepKeepsInv(s, cap, schedule[0]);
      ExecKeepsInv(Step(s, schedule[0]), cap, schedule[1..]);
    }
  }

  lemma OnlyClearsClear(s: State, l: Label)
    requires l != Clears
    ensures Step(s, l).cleared == s.cleared
  {
  }

  lemma {:induction false} NothingCleared(s: State, schedule: seq<Label>)
    requires Clears !in schedule
    ensures Exec(s, schedule).cleared == s.cleared
    decreases |schedule|
  {
    if schedule != [] {
      OnlyClearsClear(s, schedule[0]);
      NothingCleared(Step(s, schedule[0]), schedule[1..]);
    }
  }

  /** Nothing is lost, duplicated, reordered or overwritten, and every byte offered is accounted for. */
  ghost predicate InOrder(s: State) {
    && Valid(s.ring) && InBounds(s) && InBuffer(s)
    && s.left + Contents(s.ring) == s.accepted
    && |s.left| == |s.consumed| + s.cleared
    && (s.cleared == 0 ==> s.consumed + Contents(s.ring) == s.accepted)
    && (s.writer.WriterIdle? ==> |s.accepted| + s.skipped == s.offered)
    && s.skipCount == ToU64(s.skipped)
    && UsedSize(s.ring) + FreeSize(s.ring) == |s.ring.buf| && UsedSize(s.ring) == |Contents(s.ring)|
    && (CanCopyIn(s) ==> !Unread(s.ring, CopyInTarget(s)))
    && (CanCopyOut(s) ==> Unread(s.ring, CopyOutSource(s)))
  }

  lemma InvMeansInOrder(s: State, cap: nat)
    requires Inv(s, cap)
    ensures InOrder(s)
  {
    UsedSizeIsLength(s.ring);
    StepsStayApart(s, cap);
  }

  // ------------------------------------------------------------------
  // Clears that come too early.

  lemma AlwaysInBuffer(s: State)
    requires InBounds(s)
    ensures InBuffer(s)
  {
  }

  lemma {:induction false} ExecTwice(s: State, first: seq<Label>, more: seq<Label>)
    ensures Exec(s, first + more) == Exec(Exec(s, first), more)
    decreases |first|
  {
    if first == [] {
      assert first + more == more;
    } else {
      assert (first + more)[1..] == first[1..] + more;
      ExecTwice(Step(s, first[0]), first[1..], more);
    }
  }

  /** A write under way ends where its plan says, whatever has become of the ring. */
  lemma {:induction false} WriteGoesOn(s: State) returns (more: seq<Label>)
    requires InBounds(s) && s.writer.Writing? && s.writer.done <= |s.writer.data|
    ensures Clears !in more
    ensures var s', plan := Exec(s, more), WriterPlan(s);
      && s'.left == s.left && s'.ring.read == s.ring.read && |s'.ring.buf| == |s.ring.buf|
      && s'.ring.write == (if plan.Store? then plan.next else s.writer.pwrite)
      && s'.accepted == s.accepted + if plan.Store? then s.writer.data else []
    decreases |s.writer.data| - s.writer.done
  {
    AlwaysInBuffer(s);
    if CanCopyIn(s) {
      var s1 := Step(s, WriterCopies);
      more := WriteGoesOn(s1);
      assert Exec(s, [WriterCopies] + more) == Exec(s1, more);
      more := [WriterCopies] + more;
    } else {
      more := [WriterPublishes];
      assert Exec(s, more) == Step(s, WriterPublishes);
    }
  }

  lemma {:induction false} ReadGoesOn(s: State) returns (more: seq<Label>)
    requires InBounds(s) && s.reader.Reading? && |s.reader.got| <= Promised(|s.ring.buf|, s.reader)
    ensures Clears !in more
    ensures var s' := Exec(s, more);
      s'.accepted == s.accepted && |s'.left| == |s.left| + Promised(|s.ring.buf|, s.reader)
    decreases Promised(|s.ring.buf|, s.reader) - |s.reader.got|
  {
    AlwaysInBuffer(s);
    if CanCopyOut(s) {
      var s1 := Step(s, ReaderCopies);
      more := ReadGoesOn(s1);
      assert Exec(s, [ReaderCopies] + more) == Exec(s1, more);
      more := [ReaderCopies] + more;
    } else {
      more := [ReaderPublishes];
      assert Exec(s, more) == Step(s, ReaderPublishes);
    }
  }

  /** A clear that is not clean spoils the run that only finishes what is under way. */
  lemma UncleanClear(s: State, cap: nat) returns (more: seq<Label>)
    requires Inv(s, cap) && !CleanClear(s)
    ensures Clears !in more && !InOrder(Exec(ClearStep(s), more))
  {
    var t := ClearStep(s);
    assert t.left == t.accepted;
    if !WriterLetsClear(cap, s.writer) {
      LetsClearIff(cap, s.writer.pread, s.writer.pwrite, |s.writer.data|);
      more := WriteGoesOn(t);
      TooLongOrTooShort(t.left, Exec(t, more), s.writer.data);
    } else {
      more := ReadGoesOn(t);
    }
  }

  lemma TooLongOrTooShort(left: seq<byte>, s: State, data: seq<byte>)
    requires s.left == left && s.ring.read == 0
    requires (s.accepted == left + data && s.ring.write != |data|) || (s.accepted == left && s.ring.write != 0)
    ensures !InOrder(s)
  {
  }

  lemma {:induction false} NoClearIsClean(s: State, more: seq<Label>)
    requires Clears !in more
    ensures CleanClears(s, more)
    decreases |more|
  {
    if more != [] {
      NoClearIsClean(Step(s, more[0]), more[1..]);
    }
  }

  lemma {:induction false} CleanThenClean(s: State, first: seq<Label>, more: seq<Label>)
    ensures CleanClears(s, first + more) <==> CleanClears(s, first) && CleanClears(Exec(s, first), more)
    decreases |first|
  {
    if first == [] {
      assert first + more == more;
    } else {
      assert (first + more)[1..] == first[1..] + more;
      CleanThenClean(Step(s, first[0]), first[1..], more);
    }
  }

  lemma {:induction false} FirstUncleanClear(s: State, schedule: seq<Label>) returns (k: nat)
    requires !CleanClears(s, schedule)
    ensures k < |schedule| && schedule[k].Clears?
    ensures CleanClears(s, schedule[..k]) && !CleanClear(Exec(s, schedule[..k]))
    decreases |schedule|
  {
    if schedule[0].Clears? && !CleanClear(s) {
      k := 0;
    } else {
      k := FirstUncleanClear(Step(s, schedule[0]), schedule[1..]);
      k := k + 1;
      assert schedule[..k][1..] == schedule[1..][..k - 1];
    }
  }

  lemma InOrderAfter(cap: nat, schedule: seq<Label>, k: nat, more: seq<Label>)
    requires CleanClears(Start(cap), schedule) && k <= |schedule| && Clears !in more
    ensures InOrder(Exec(Start(cap), schedule[..k] + more))
  {
    assert schedule == schedule[..k] + schedule[k..];
    CleanThenClean(Start(cap), schedule[..k], schedule[k..]);
    CleanThenClean(Start(cap), schedule[..k], more);
    NoClearIsClean(Exec(Start(cap), schedule[..k]), more);
    ExecKeepsInv(Start(cap), cap, schedule[..k] + more);
    InvMeansInOrder(Exec(Start(cap), schedule[..k] + more), cap);
  }

  lemma ClearedAt(s: State, schedule: seq<Label>, k: nat, more: seq<Label>)
    requires k < |schedule| && schedule[k] == Clears && InBounds(Exec(s, schedule[..k]))
    ensures Exec(s, schedule[..k + 1] + more) == Exec(ClearStep(Exec(s, schedule[..k])), more)
  {
    var s' := Exec(s, schedule[..k]);
    AlwaysInBuffer(s');
    assert schedule[..k + 1] + more == schedule[..k] + ([Clears] + more);
    ExecTwice(s, schedule[..k], [Clears] + more);
    assert ([Clears] + more)[1..] == more;
  }

  lemma DisorderAfter(cap: nat, schedule: seq<Label>) returns (k: nat, more: seq<Label>)
    requires !CleanClears(Start(cap), schedule)
    ensures k <= |schedule| && Clears !in more && !InOrder(Exec(Start(cap), schedule[..k] + more))
  {
    k := FirstUncleanClear(Start(cap), schedule);
    ExecKeepsInv(Start(cap), cap, schedule[..k]);
    StepsStayApart(Exec(Start(cap), schedule[..k]), cap);
    more := UncleanClear(Exec(Start(cap), schedule[..k]), cap);
    ClearedAt(Start(cap), schedule, k, more);
    k := k + 1;
  }

  /** Main result: from an empty ring of `cap` bytes, in whatever way a run goes on from any of its points without
      another clear, it stays in order, if and only if each of its clears is clean. */
  lemma EveryRunKeepsOrder(cap: nat, schedule: seq<Label>)
    ensures (forall k: nat, more | k <= |schedule| && Clears !in more ::
              InOrder(Exec(Start(cap), schedule[..k] + more)))
            <==> CleanClears(Start(cap), schedule)
  {
    if CleanClears(Start(cap), schedule) {
      forall k: nat, more | k <= |schedule| && Clears !in more
        ensures InOrder(Exec(Start(cap), schedule[..k] + more))
      {
        InOrderAfter(cap, schedule, k, more);
      }
    } else {
      var k, more := DisorderAfter(cap, schedule);
    }
  }

  /** A run that is never cleared hands over, or still holds, exactly what was accepted. */
  lemma UnclearedRunKeepsOrder(cap: nat, schedule: seq<Label>)
    requires Clears !in schedule
    ensures var s := Exec(Start(cap), schedule);
      InOrder(s) && s.consumed + Contents(s.ring) == s.accepted
  {
    NoClearIsClean(Start(cap), schedule);
    ExecKeepsInv(Start(cap), cap, schedule);
    InvMeansInOrder(Exec(Start(cap), schedule), cap);
    NothingCleared(Start(cap), schedule);
  }

  /** Two bytes are written and read, and a third one is about to be written when the ring is cleared. */
  const WRITES_TWO: seq<Label> := [WriterLoads([1, 2]), WriterCopies, WriterCopies, WriterPublishes]
  const READS_TWO: seq<Label> := [ReaderLoads(2), ReaderCopies, ReaderCopies, ReaderPublishes]
  const CLEARED_WITHIN: seq<Label> := [WriterLoads([3]), Clears, WriterCopies, WriterPublishes]

  /** A ring of four bytes after the first two were written, and after they were read. */
  const WITH_TWO: State := State(Ring([1, 2, 0, 0], 0, 2), 0, WriterIdle, ReaderIdle, 2, 0, [1, 2], [], 0, [])
  const READ_TWO: State := State(Ring([1, 2, 0, 0], 2, 2), 0, WriterIdle, ReaderIdle, 2, 0, [1, 2], [1, 2], 0, [1, 2])

  lemma FourSteps(s: State, way: seq<Label>)
    requires |way| == 4
    ensures Exec(s, way) == Step(Step(Step(Step(s, way[0]), way[1]), way[2]), way[3])
  {
    var s1 := Step(s, way[0]);
    var s2 := Step(s1, way[1]);
    var s3 := Step(s2, way[2]);
    assert Exec(s3, way[3..]) == Step(s3, way[3]);
    assert Exec(s2, way[2..]) == Exec(s3, way[3..]);
    assert Exec(s1, way[1..]) == Exec(s2, way[2..]);
  }

  lemma LoadsIn(s: State, data: seq<byte>)
    requires InBounds(s) && s.writer.WriterIdle? && data != []
    ensures Step(s, WriterLoads(data))
         == s.(writer := Writing(data, s.ring.read, s.ring.write, 0), offered := s.offered + |data|)
  {
    AlwaysInBuffer(s);
  }

  lemma CopiesIn(s: State, k: nat, buf: seq<byte>)
    requires InBounds(s) && CanCopyIn(s) && k == CopyInTarget(s) < |s.ring.buf|
    requires buf == s.ring.buf[k := s.writer.data[s.writer.done]]
    ensures Step(s, WriterCopies) == s.(ring := s.ring.(buf := buf), writer := s.writer.(done := s.writer.done + 1))
  {
    AlwaysInBuffer(s);
  }

  lemma PublishesIn(s: State, next: nat)
    requires InBounds(s) && s.writer.Writing? && s.writer.done == |s.writer.data|
    requires WriterPlan(s).Store? && next == WriterPlan(s).next
    ensures Step(s, WriterPublishes)
         == s.(ring := s.ring.(write := next), writer := WriterIdle, accepted := s.accepted + s.writer.data)
  {
    AlwaysInBuffer(s);
  }

  lemma TwoAreWritten()
    ensures Exec(Start(4), WRITES_TWO) == WITH_TWO
  {
    var s := Start(4);
    FourSteps(s, WRITES_TWO);
    LoadsIn(s, [1, 2]);
    var s1 := s.(writer := Writing([1, 2], 0, 0, 0), offered := 2);
    CopiesIn(s1, 0, [1, 0, 0, 0]);
    var s2 := s1.(ring := Ring([1, 0, 0, 0], 0, 0), writer := Writing([1, 2], 0, 0, 1));
    CopiesIn(s2, 1, [1, 2, 0, 0]);
    var s3 := s2.(ring := Ring([1, 2, 0, 0], 0, 0), writer := Writing([1, 2], 0, 0, 2));
    PublishesIn(s3, 2);
  }

  lemma LoadsOut(s: State, size: nat)
    requires InBounds(s) && s.reader.ReaderIdle? && size > 0
    ensures Step(s, ReaderLoads(size)) == s.(reader := Reading(size, s.ring.read, s.ring.write, []))
  {
    AlwaysInBuffer(s);
  }

  lemma CopiesOut(s: State, got: seq<byte>)
    requires InBounds(s) && CanCopyOut(s) && CopyOutSource(s) < |s.ring.buf|
    requires got == s.reader.got + [s.ring.buf[CopyOutSource(s)]]
    ensures Step(s, ReaderCopies) == s.(reader := s.reader.(got := got))
  {
    AlwaysInBuffer(s);
  }

  lemma PublishesOut(s: State, next: nat)
    requires InBounds(s) && s.reader.Reading? && !CanCopyOut(s) && s.reader.got != [] && next == ReaderPlan(s).next
    ensures Step(s, ReaderPublishes)
         == s.(ring := s.ring.(read := next), reader := ReaderIdle,
               consumed := s.consumed + s.reader.got, left := s.left + s.reader.got)
  {
    AlwaysInBuffer(s);
  }

  lemma TwoAreRead()
    ensures Exec(WITH_TWO, READS_TWO) == READ_TWO
  {
    FourSteps(WITH_TWO, READS_TWO);
    LoadsOut(WITH_TWO, 2);
    var s1 := WITH_TWO.(reader := Reading(2, 0, 2, []));
    CopiesOut(s1, [1]);
    var s2 := WITH_TWO.(reader := Reading(2, 0, 2, [1]));
    CopiesOut(s2, [1, 2]);
    var s3 := WITH_TWO.(reader := Reading(2, 0, 2, [1, 2]));
    PublishesOut(s3, 2);
  }

  lemma ClearsWithin()
    ensures Exec(READ_TWO, CLEARED_WITHIN)
         == READ_TWO.(ring := Ring([1, 2, 3, 0], 0, 3), offered := 3, accepted := [1, 2, 3])
  {
    FourSteps(READ_TWO, CLEARED_WITHIN);
    LoadsIn(READ_TWO, [3]);
    var s1 := READ_TWO.(writer := Writing([3], 2, 2, 0), offered := 3);
    assert Contents(s1.ring) == [];
    var s2 := s1.(ring := Ring([1, 2, 0, 0], 0, 0));
    assert Step(s1, Clears) == s2;
    CopiesIn(s2, 2, [1, 2, 3, 0]);
    var s3 := s2.(ring := Ring([1, 2, 3, 0], 0, 0), writer := Writing([3], 2, 2, 1));
    PublishesIn(s3, 3);
  }

  /** A clear beside a writer: two bytes that were consumed come again. */
  lemma ClearInWriteRepeats()
    ensures var s := Exec(Start(4), WRITES_TWO + (READS_TWO + CLEARED_WITHIN));
      && s.accepted == [1, 2, 3] && s.consumed == [1, 2]
      && Valid(s.ring) && Contents(s.ring) == [1, 2, 3]
  {
    ExecTwice(Start(4), WRITES_TWO, READS_TWO + CLEARED_WITHIN);
    TwoAreWritten();
    ExecTwice(WITH_TWO, READS_TWO, CLEARED_WITHIN);
    TwoAreRead();
    ClearsWithin();
  }

  // ------------------------------------------------------------------
  // A run is a run of whole operations.

  /** A whole operation: it takes effect at once. A write may also be skipped where there is room, and `size` may
      be less than the reader asked for, since either side may work on an old view. */
  datatype Op = Write(data: seq<byte>) | Skip(data: seq<byte>) | Read(size: nat) | Clear

  datatype Whole = Whole(ring: Ring, accepted: seq<byte>, consumed: seq<byte>, cleared: nat, skipped: nat)

  ghost function Do(w: Whole, op: Op): Whole {
    if !Valid(w.ring) then w else
    match op
    case Write(data) =>
      if Accepts(w.ring, data) then w.(ring := WriteRing(w.ring, data), accepted := w.accepted + data)
      else w.(skipped := w.skipped + |data|)
    case Skip(data) => w.(skipped := w.skipped + |data|)
    case Read(size) => w.(ring := ReadRing(w.ring, size), consumed := w.consumed + BytesRead(w.ring, size))
    case Clear => w.(ring := w.ring.(read := 0, write := 0), cleared := w.cleared + |Contents(w.ring)|)
  }

  ghost function DoAll(w: Whole, ops: seq<Op>): Whole
    decreases |ops|
  {
    if ops == [] then w else DoAll(Do(w, ops[0]), ops[1..])
  }

  /** The same pointers and the same unread bytes; what is in the free places does not matter. */
  ghost predicate Alike(g: Ring, h: Ring) {
    && Valid(g) && Valid(h)
    && |g.buf| == |h.buf| && g.read == h.read && g.write == h.write && Contents(g) == Contents(h)
  }

  ghost predicate Matches(s: State, w: Whole) {
    && Alike(s.ring, w.ring)
    && (s.accepted, s.consumed, s.cleared, s.skipped) == (w.accepted, w.consumed, w.cleared, w.skipped)
  }

  /** The operation that takes effect with a step: only publishing and clearing have one. */
  ghost function OpsOf(s: State, l: Label): seq<Op> {
    if !InBounds(s) || !InBuffer(s) then [] else
    match l
    case WriterPublishes =>
      if !s.writer.Writing? || CanCopyIn(s) then []
      else if WriterPlan(s).Store? then [Write(s.writer.data)] else [Skip(s.writer.data)]
    case ReaderPublishes => if !s.reader.Reading? || CanCopyOut(s) then [] else [Read(|s.reader.got|)]
    case Clears => if Valid(s.ring) then [Clear] else []
    case _ => []
  }

  ghost function OpsOfRun(s: State, schedule: seq<Label>): seq<Op>
    decreases |schedule|
  {
    if schedule == [] then [] else OpsOf(s, schedule[0]) + OpsOfRun(Step(s, schedule[0]), schedule[1..])
  }

  /** A write whose bytes are in place takes effect when it is published. */
  lemma PublishedIsWritten(g: Ring, h: Ring, data: seq<byte>, plan: WritePlan)
    requires Alike(g, h) && data != [] && plan.Store? && plan == PlanWrite(|g.buf|, g.read, g.write, |data|)
    requires Stored(g, plan, data, |data|)
    ensures Accepts(h, data) && Alike(g.(write := plan.next), WriteRing(h, data))
  {
    PublishAppends(g, plan, data);
    WriteRingAppends(h, data);
  }

  lemma PublishedIsRead(g: Ring, h: Ring, got: seq<byte>, plan: ReadPlan)
    requires Alike(g, h) && got <= Contents(g)
    requires got != [] ==> plan == PlanRead(|g.buf|, g.read, g.write, |got|)
    ensures BytesRead(h, |got|) == got
    ensures Alike(if got != [] then g.(read := plan.next) else g, ReadRing(h, |got|))
  {
    if got != [] {
      PublishDrops(g, plan, |got|);
      PublishDrops(h, plan, |got|);
    }
  }

  lemma CopyIsNoOp(s: State, cap: nat, w: Whole)
    requires Inv(s, cap) && InBounds(s) && InBuffer(s) && Matches(s, w) && CanCopyIn(s)
    ensures Matches(WriterStep(s, WriterCopies), w)
  {
    StepsStayApart(s, cap);
    FreeByteChange(s.ring, CopyInTarget(s), s.writer.data[s.writer.done]);
  }

  lemma WriterPublishIsOp(s: State, cap: nat, w: Whole)
    requires Inv(s, cap) && InBounds(s) && InBuffer(s) && Matches(s, w) && s.writer.Writing? && !CanCopyIn(s)
    ensures var op := if WriterPlan(s).Store? then Write(s.writer.data) else Skip(s.writer.data);
      Matches(WriterStep(s, WriterPublishes), Do(w, op))
  {
    if WriterPlan(s).Store? {
      PublishedIsWritten(s.ring, w.ring, s.writer.data, PlanNow(s));
    }
  }

  lemma ReaderPublishIsOp(s: State, cap: nat, w: Whole)
    requires Inv(s, cap) && InBounds(s) && InBuffer(s) && Matches(s, w) && s.reader.Reading? && !CanCopyOut(s)
    ensures Matches(ReaderStep(s, ReaderPublishes), Do(w, Read(|s.reader.got|)))
  {
    PublishedIsRead(s.ring, w.ring, s.reader.got, ReaderPlan(s));
  }

  /** Every step is one whole operation or none. */
  lemma StepIsOp(s: State, cap: nat, l: Label, w: Whole)
    requires Inv(s, cap) && Matches(s, w) && (l.Clears? ==> CleanClear(s))
    ensures |OpsOf(s, l)| <= 1
    ensures Matches(Step(s, l), if OpsOf(s, l) == [] then w else Do(w, OpsOf(s, l)[0]))
  {
    StepsStayApart(s, cap);
    match l
    case WriterCopies =>
      if CanCopyIn(s) {
        CopyIsNoOp(s, cap, w);
      }
    case WriterPublishes =>
      if s.writer.Writing? && !CanCopyIn(s) {
        WriterPublishIsOp(s, cap, w);
      }
    case ReaderPublishes =>
      if s.reader.Reading? && !CanCopyOut(s) {
        ReaderPublishIsOp(s, cap, w);
      }
    case _ =>
  }

  lemma OneOpMore(w: Whole, op: seq<Op>, ops: seq<Op>)
    requires |op| <= 1
    ensures DoAll(w, op + ops) == DoAll(if op == [] then w else Do(w, op[0]), ops)
  {
    if op == [] {
      assert op + ops == ops;
    } else {
      assert (op + ops)[1..] == ops;
    }
  }

  lemma {:induction false} RunIsOps(s: State, cap: nat, schedule: seq<Label>, w: Whole)
    requires Inv(s, cap) && Matches(s, w) && CleanClears(s, schedule)
    ensures Matches(Exec(s, schedule), DoAll(w, OpsOfRun(s, schedule)))
    decreases |schedule|
  {
    if schedule != [] {
      var l := schedule[0];
      var s', op := Step(s, l), OpsOf(s, l);
      StepIsOp(s, cap, l, w);
      StepKeepsInv(s, cap, l);
      var w' := if op == [] then w else Do(w, op[0]);
      RunIsOps(s', cap, schedule[1..], w');
      OneOpMore(w, op, OpsOfRun(s', schedule[1..]));
    }
  }

  /** Main result on atomicity: whatever the interleaving, the whole operations in the order in which they were
      published or cleared lead from the empty ring to the same pointers and unread bytes, and accept, hand over, clear
      and skip the same bytes. */
  lemma EveryRunIsWholeOperations(cap: nat, schedule: seq<Label>)
    requires CleanClears(Start(cap), schedule)
    ensures Matches(Exec(Start(cap), schedule),
                    DoAll(Whole(Start(cap).ring, [], [], 0, 0), OpsOfRun(Start(cap), schedule)))
  {
    RunIsOps(Start(cap), cap, schedule, Whole(Start(cap).ring, [], [], 0, 0));
  }
}
