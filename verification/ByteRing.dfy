/** The byte ring as a value: what one read and one write do to its pointers and bytes. */
module ByteRing {
  import opened CInts

  /** Offsets from `begin`; both pointers may rest at `end`, which is `|buf|`. */
  datatype Ring = Ring(buf: seq<byte>, read: nat, write: nat)

  /** Equal pointers mean empty only because `write` never wraps onto `begin` behind `read`. */
  predicate Valid(g: Ring) {
    g.read <= |g.buf| && g.write <= |g.buf| && (g.write < g.read ==> 0 < g.write)
  }

  /** The unread bytes, oldest first. */
  function Contents(g: Ring): seq<byte>
    requires Valid(g)
  {
    if g.read <= g.write then g.buf[g.read..g.write] else g.buf[g.read..] + g.buf[..g.write]
  }

  function UsedSize(g: Ring): int {
    if g.write >= g.read then g.write - g.read else g.write + (|g.buf| - g.read)
  }

  function FreeSize(g: Ring): int {
    |g.buf| - UsedSize(g)
  }

  /** A read takes `first` bytes at the read pointer, then `second` bytes at `begin`. */
  datatype ReadPlan = ReadPlan(first: nat, second: nat, next: nat)

  function PlanRead(cap: nat, pread: nat, pwrite: nat, size: nat): ReadPlan
    requires pread <= cap && pwrite <= cap
  {
    if pread < pwrite then
      var todo := if pread + size <= pwrite then size else pwrite - pread;
      ReadPlan(todo, 0, pread + todo)
    else if pread > pwrite then
      if pread + size <= cap then ReadPlan(size, 0, pread + size)
      else
        var first := cap - pread;
        var second := if size - first > pwrite then pwrite else size - first;
        ReadPlan(first, second, second)
    else ReadPlan(0, 0, pread)
  }

  /** A write stores `first` bytes at the write pointer, then `second` bytes at `begin`. */
  datatype WritePlan = Refuse | Store(first: nat, second: nat, next: nat)

  function PlanWrite(cap: nat, pread: nat, pwrite: nat, size: nat): WritePlan
    requires pread <= cap && pwrite <= cap
  {
    if pread <= pwrite then
      if pwrite + size <= cap then Store(size, 0, pwrite + size)
      else
        var first := cap - pwrite;
        var second := size - first;
        if second < pread then Store(first, second, second) else Refuse
    else if pwrite + size < pread then Store(size, 0, pwrite + size)
    else Refuse
  }

  /** Where byte `i` of a write goes. */
  function Target(pwrite: nat, plan: WritePlan, i: nat): nat
    requires plan.Store?
  {
    if i < plan.first then pwrite + i else i - plan.first
  }

  /** Where byte `i` of a read comes from. */
  function Source(pread: nat, plan: ReadPlan, i: nat): nat {
    if i < plan.first then pread + i else i - plan.first
  }

  /** The buffer index holds a byte that was written and not yet read. */
  predicate Unread(g: Ring, k: nat) {
    k < |g.buf| && if g.read <= g.write then g.read <= k < g.write else g.read <= k || k < g.write
  }

  /** The first `n` bytes of `data` are in place for the plan. */
  ghost predicate Stored(g: Ring, plan: WritePlan, data: seq<byte>, n: nat)
    requires plan.Store?
  {
    n <= |data| && forall i | 0 <= i < n ::
      Target(g.write, plan, i) < |g.buf| && g.buf[Target(g.write, plan, i)] == data[i]
  }

  /** The index of the `i`th unread byte. */
  function Position(g: Ring, i: nat): nat {
    if g.read <= g.write || i < |g.buf| - g.read then g.read + i else i - (|g.buf| - g.read)
  }

  lemma ContentsAt(g: Ring)
    requires Valid(g)
    ensures |Contents(g)| == UsedSize(g)
    ensures forall i | 0 <= i < |Contents(g)| :: Position(g, i) < |g.buf| && Contents(g)[i] == g.buf[Position(g, i)]
  {
  }

  lemma UsedSizeIsLength(g: Ring)
    requires Valid(g)
    ensures UsedSize(g) == |Contents(g)|
    ensures UsedSize(g) + FreeSize(g) == |g.buf|
    ensures 0 <= UsedSize(g) <= |g.buf|
    ensures g.read == g.write <==> Contents(g) == []
  {
  }

  /** Exactly which writes are accepted: those smaller than the free space, and those that fill it from `begin`. */
  lemma AcceptedIff(g: Ring, size: nat)
    requires Valid(g) && size > 0
    ensures PlanWrite(|g.buf|, g.read, g.write, size).Store?
            <==> size < FreeSize(g) || (size == FreeSize(g) && g.read == 0)
  {
  }

  /** A write in progress stays clear of the unread bytes, and puts no two bytes in one place. */
  lemma TargetsAreFree(g: Ring, plan: WritePlan, size: nat, i: nat)
    requires Valid(g) && plan.Store? && plan == PlanWrite(|g.buf|, g.read, g.write, size) && i < size
    ensures Target(g.write, plan, i) < |g.buf|
    ensures !Unread(g, Target(g.write, plan, i))
    ensures forall j | 0 <= j < size && j != i :: Target(g.write, plan, j) != Target(g.write, plan, i)
  {
  }

  /** Changing a byte that is not unread changes no contents. */
  lemma FreeByteChange(g: Ring, k: nat, x: byte)
    requires Valid(g) && k < |g.buf| && !Unread(g, k)
    ensures Contents(g.(buf := g.buf[k := x])) == Contents(g)
  {
  }

  /** Publishing a completed write appends its data. */
  lemma PublishAppends(g: Ring, plan: WritePlan, data: seq<byte>)
    requires Valid(g) && plan.Store? && plan == PlanWrite(|g.buf|, g.read, g.write, |data|)
    requires 0 < |data| && Stored(g, plan, data, |data|)
    ensures var g' := g.(write := plan.next);
      Valid(g') && Contents(g') == Contents(g) + data
  {
    var g' := g.(write := plan.next);
    ContentsAt(g);
    ContentsAt(g');
    assert |Contents(g')| == |Contents(g)| + |data|;
    forall i | 0 <= i < |Contents(g')|
      ensures Contents(g')[i] == (Contents(g) + data)[i]
    {
      if i < |Contents(g)| {
        assert Position(g', i) == Position(g, i);
      } else {
        assert Position(g', i) == Target(g.write, plan, i - |Contents(g)|);
      }
    }
  }

  /** A read plan covers a prefix of the contents. */
  lemma PlanReadCounts(g: Ring, size: nat)
    requires Valid(g) && size > 0
    ensures var plan := PlanRead(|g.buf|, g.read, g.write, size);
      && plan.first + plan.second == (if size <= |Contents(g)| then size else |Contents(g)|)
      && plan == PlanRead(|g.buf|, g.read, g.write, plan.first + plan.second)
  {
  }

  lemma SourceIsContents(g: Ring, plan: ReadPlan, n: nat, i: nat)
    requires Valid(g) && plan == PlanRead(|g.buf|, g.read, g.write, n) && n <= |Contents(g)| && i < n
    ensures Source(g.read, plan, i) < |g.buf|
    ensures g.buf[Source(g.read, plan, i)] == Contents(g)[i]
  {
  }

  /** Publishing a read drops the prefix it covers. */
  lemma PublishDrops(g: Ring, plan: ReadPlan, n: nat)
    requires Valid(g) && 0 < n <= |Contents(g)| && plan == PlanRead(|g.buf|, g.read, g.write, n)
    ensures var g' := g.(read := plan.next);
      Valid(g') && Contents(g') == Contents(g)[n..]
  {
  }

  /** A write plan survives any progress of the reader. */
  lemma WritePlanSurvives(g: Ring, wplan: WritePlan, size: nat, rplan: ReadPlan, n: nat)
    requires Valid(g) && 0 < n <= |Contents(g)| && rplan == PlanRead(|g.buf|, g.read, g.write, n)
    requires size > 0 && wplan.Store? && wplan == PlanWrite(|g.buf|, g.read, g.write, size)
    ensures Valid(g.(read := rplan.next))
    ensures wplan == PlanWrite(|g.buf|, rplan.next, g.write, size)
  {
  }

  /** A read plan survives any progress of the writer. */
  lemma ReadPlanSurvives(g: Ring, rplan: ReadPlan, n: nat, wplan: WritePlan, size: nat)
    requires Valid(g) && 0 < n <= |Contents(g)| && rplan == PlanRead(|g.buf|, g.read, g.write, n)
    requires size > 0 && wplan.Store? && wplan == PlanWrite(|g.buf|, g.read, g.write, size)
    ensures Valid(g.(write := wplan.next))
    ensures rplan == PlanRead(|g.buf|, g.read, wplan.next, n)
  {
  }

  // ------------------------------------------------------------------
  // Old views of the writer.

  /** Two plans for `size` bytes put every byte in the same place and leave the pointer at the same one. */
  predicate SamePlaces(pwrite: nat, plan: WritePlan, pwrite': nat, plan': WritePlan, size: nat) {
    && plan.Store? && plan'.Store? && plan.next == plan'.next
    && forall i | 0 <= i < size :: Target(pwrite, plan, i) == Target(pwrite', plan', i)
  }

  /** What a writer of `size` bytes is going to do with the pointers it loaded is what it would do now, or refuses. */
  predicate StillRight(g: Ring, pread: nat, pwrite: nat, size: nat)
    requires Valid(g)
  {
    && pread <= |g.buf| && pwrite <= |g.buf|
    && var plan := PlanWrite(|g.buf|, pread, pwrite, size);
    if plan.Refuse? then pwrite == g.write
    else SamePlaces(pwrite, plan, g.write, PlanWrite(|g.buf|, g.read, g.write, size), size)
  }

  lemma StillRightAfterRead(g: Ring, pread: nat, pwrite: nat, size: nat, plan: ReadPlan, n: nat)
    requires Valid(g) && size > 0 && StillRight(g, pread, pwrite, size)
    requires 0 < n <= |Contents(g)| && plan == PlanRead(|g.buf|, g.read, g.write, n)
    ensures Valid(g.(read := plan.next)) && StillRight(g.(read := plan.next), pread, pwrite, size)
  {
    PublishDrops(g, plan, n);
    if PlanWrite(|g.buf|, pread, pwrite, size).Store? {
      WritePlanSurvives(g, PlanWrite(|g.buf|, g.read, g.write, size), size, plan, n);
    }
  }

  /** A writer puts its first byte at the beginning, or is going to refuse from there. */
  predicate LetsClear(cap: nat, pread: nat, pwrite: nat, size: nat)
    requires pread <= cap && pwrite <= cap
  {
    pwrite == 0 || (pwrite == cap && PlanWrite(cap, pread, pwrite, size).Store?)
  }

  /** That is, what it leaves behind the beginning is its data and nothing else. */
  lemma LetsClearIff(cap: nat, pread: nat, pwrite: nat, size: nat)
    requires size > 0 && pread <= cap && pwrite <= cap
    ensures var plan := PlanWrite(cap, pread, pwrite, size);
      LetsClear(cap, pread, pwrite, size) <==> if plan.Store? then plan.next == size else pwrite == 0
  {
  }

  lemma StillRightAfterClear(g: Ring, pread: nat, pwrite: nat, size: nat)
    requires Valid(g) && size > 0 && StillRight(g, pread, pwrite, size) && LetsClear(|g.buf|, pread, pwrite, size)
    ensures StillRight(g.(read := 0, write := 0), pread, pwrite, size)
    ensures PlanWrite(|g.buf|, pread, pwrite, size).Store? ==>
      SamePlaces(g.write, PlanWrite(|g.buf|, g.read, g.write, size), 0, PlanWrite(|g.buf|, 0, 0, size), size)
  {
    var plan := PlanWrite(|g.buf|, pread, pwrite, size);
    if plan.Store? {
      assert PlanWrite(|g.buf|, 0, 0, size) == Store(size, 0, size);
      assert SamePlaces(pwrite, plan, 0, Store(size, 0, size), size);
    }
  }

  // ------------------------------------------------------------------
  // Whole operations, without interference.

  /** The buffer with `data` where the plan puts it. */
  ghost function Placed(buf: seq<byte>, pwrite: nat, plan: WritePlan, data: seq<byte>): (buf': seq<byte>)
    requires plan.Store? && plan.first + plan.second == |data|
    ensures |buf'| == |buf|
  {
    seq(|buf|, k requires 0 <= k < |buf| =>
      if pwrite <= k < pwrite + plan.first then data[k - pwrite]
      else if k < plan.second then data[plan.first + k]
      else buf[k])
  }

  /** A write that is refused leaves the ring as it is. */
  ghost function WriteRing(g: Ring, data: seq<byte>): (g': Ring)
    requires Valid(g)
  {
    var plan := PlanWrite(|g.buf|, g.read, g.write, |data|);
    if data == [] || plan.Refuse? then g else Ring(Placed(g.buf, g.write, plan, data), g.read, plan.next)
  }

  ghost predicate Accepts(g: Ring, data: seq<byte>)
    requires Valid(g)
  {
    data == [] || PlanWrite(|g.buf|, g.read, g.write, |data|).Store?
  }

  function ReadRing(g: Ring, size: nat): (g': Ring)
    requires Valid(g)
  {
    if size == 0 then g else g.(read := PlanRead(|g.buf|, g.read, g.write, size).next)
  }

  /** The bytes a read hands over. */
  function BytesRead(g: Ring, size: nat): seq<byte>
    requires Valid(g)
  {
    Contents(g)[..if size <= |Contents(g)| then size else |Contents(g)|]
  }

  /** `out` was copied from the places the plan of a read names. */
  ghost predicate CopiedFrom(out: seq<byte>, g: Ring, size: nat)
    requires Valid(g)
  {
    var plan := PlanRead(|g.buf|, g.read, g.write, size);
    && |out| == plan.first + plan.second
    && forall i | 0 <= i < |out| :: Source(g.read, plan, i) < |g.buf| && out[i] == g.buf[Source(g.read, plan, i)]
  }

  /** What a read copies is what it hands over. */
  lemma CopiedIsRead(out: seq<byte>, g: Ring, size: nat)
    requires Valid(g) && size > 0
    ensures CopiedFrom(out, g, size) <==> out == BytesRead(g, size)
    ensures ReadRing(g, size) == g.(read := PlanRead(|g.buf|, g.read, g.write, size).next)
  {
    var plan := PlanRead(|g.buf|, g.read, g.write, size);
    PlanReadCounts(g, size);
    forall i | 0 <= i < |BytesRead(g, size)|
      ensures Source(g.read, plan, i) < |g.buf| && Contents(g)[i] == g.buf[Source(g.read, plan, i)]
    {
      SourceIsContents(g, plan, |BytesRead(g, size)|, i);
    }
  }

  lemma WrittenIsStored(g: Ring, plan: WritePlan, data: seq<byte>)
    requires Valid(g) && data != [] && plan.Store? && plan == PlanWrite(|g.buf|, g.read, g.write, |data|)
    ensures Stored(g.(buf := Placed(g.buf, g.write, plan, data)), plan, data, |data|)
  {
    forall i | 0 <= i < |data|
      ensures Target(g.write, plan, i) < |g.buf|
      ensures Placed(g.buf, g.write, plan, data)[Target(g.write, plan, i)] == data[i]
    {
    }
  }

  lemma WrittenKeepsContents(g: Ring, plan: WritePlan, data: seq<byte>)
    requires Valid(g) && data != [] && plan.Store? && plan == PlanWrite(|g.buf|, g.read, g.write, |data|)
    ensures Contents(g.(buf := Placed(g.buf, g.write, plan, data))) == Contents(g)
  {
    var buf := Placed(g.buf, g.write, plan, data);
    forall k | 0 <= k < |g.buf| && Unread(g, k)
      ensures buf[k] == g.buf[k]
    {
    }
  }

  /** What a writer places by an old view that is still right is appended as well. */
  lemma PlacedAppends(g: Ring, pread: nat, pwrite: nat, data: seq<byte>)
    requires Valid(g) && data != [] && StillRight(g, pread, pwrite, |data|)
    requires PlanWrite(|g.buf|, pread, pwrite, |data|).Store?
    ensures var plan := PlanWrite(|g.buf|, pread, pwrite, |data|);
      var g' := Ring(Placed(g.buf, pwrite, plan, data), g.read, plan.next);
      Valid(g') && Contents(g') == Contents(g) + data
  {
    var plan, now := PlanWrite(|g.buf|, pread, pwrite, |data|), PlanWrite(|g.buf|, g.read, g.write, |data|);
    PlacedAlike(g.buf, pread, pwrite, plan, g.read, g.write, now, data);
    WrittenIsStored(g, now, data);
    WrittenKeepsContents(g, now, data);
    PublishAppends(g.(buf := Placed(g.buf, g.write, now, data)), now, data);
  }

  /** Plans that put every byte in the same place make the same buffer. */
  lemma PlacedAlike(buf: seq<byte>, pread: nat, pwrite: nat, plan: WritePlan,
                    pread': nat, pwrite': nat, plan': WritePlan, data: seq<byte>)
    requires data != [] && pread <= |buf| && pwrite <= |buf| && pread' <= |buf| && pwrite' <= |buf|
    requires plan == PlanWrite(|buf|, pread, pwrite, |data|) && plan' == PlanWrite(|buf|, pread', pwrite', |data|)
    requires SamePlaces(pwrite, plan, pwrite', plan', |data|)
    ensures Placed(buf, pwrite, plan, data) == Placed(buf, pwrite', plan', data)
  {
    assert Target(pwrite, plan, 0) == Target(pwrite', plan', 0);
    assert Target(pwrite, plan, |data| - 1) == Target(pwrite', plan', |data| - 1);
  }

  /** Main result on writes: accepted data is appended, refused data changes nothing. */
  lemma WriteRingAppends(g: Ring, data: seq<byte>)
    requires Valid(g)
    ensures Valid(WriteRing(g, data)) && |WriteRing(g, data).buf| == |g.buf|
    ensures Contents(WriteRing(g, data)) == Contents(g) + if Accepts(g, data) then data else []
    ensures Accepts(g, data)
            <==> data == [] || |data| < FreeSize(g) || (|data| == FreeSize(g) && g.read == 0)
  {
    if data != [] {
      AcceptedIff(g, |data|);
      var plan := PlanWrite(|g.buf|, g.read, g.write, |data|);
      if plan.Store? {
        WrittenIsStored(g, plan, data);
        WrittenKeepsContents(g, plan, data);
        PublishAppends(g.(buf := Placed(g.buf, g.write, plan, data)), plan, data);
      }
    }
  }

  /** Main result on reads: a prefix of the contents, as long as asked for or available, is handed over. */
  lemma ReadRingTakesPrefix(g: Ring, size: nat)
    requires Valid(g)
    ensures Valid(ReadRing(g, size)) && ReadRing(g, size).buf == g.buf
    ensures BytesRead(g, size) + Contents(ReadRing(g, size)) == Contents(g)
    ensures |BytesRead(g, size)| == size || (|BytesRead(g, size)| < size && Contents(ReadRing(g, size)) == [])
  {
    if size > 0 {
      PlanReadCounts(g, size);
      var plan := PlanRead(|g.buf|, g.read, g.write, size);
      var n := plan.first + plan.second;
      if n > 0 {
        PublishDrops(g, plan, n);
        assert Contents(g) == Contents(g)[..n] + Contents(g)[n..];
      } else {
        UsedSizeIsLength(g);
      }
    }
  }
}
