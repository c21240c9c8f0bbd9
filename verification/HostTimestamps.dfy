/** Rewriting device timestamps with the host's time in a buffer of received records. */
module HostTimestamps {
  import opened BitCount
  import opened CInts
  import opened LittleEndian
  import opened Sequences

  /** `sizeof(apt_usbtrx_timestamp_t)`; every record starts with one. */
  const TIMESTAMP_SIZE: nat := 8
  const MAX_PAYLOAD: nat := 78
  /** `EP1_AG08A_CMD_LENGTH_NOTIFY_ANALOG_INPUT`. */
  const ANALOG_COMMAND_LENGTH: int := 29

  datatype Mode = DeviceTime | HostTime

  /** `unique_func.get_read_payload_size`, which looks at no more than the byte after the timestamp; a negative
      result is an error. */
  type SizeOf = byte -> int

  /** A record is longer than its timestamp. */
  ghost predicate Usable(sizeOf: SizeOf) {
    forall c: byte :: sizeOf(c) >= 0 ==> sizeOf(c) > TIMESTAMP_SIZE
  }

  /** CAN devices: records of one size. */
  function CanSize(size: nat): SizeOf {
    _ => size
  }

  /** `ep1_ag08a_get_read_payload_size`: two bytes for each channel in the mask. */
  function AnalogSize(channel: byte): int {
    if channel == 0 then -1
    else
      var noData := 8 - CountBits(channel);
      ANALOG_COMMAND_LENGTH - 2 * noData - 4
  }

  lemma OnesOfByte(c: byte)
    ensures Ones(c) <= 8 && (c > 0 ==> Ones(c) > 0)
  {
    var d0, d1, d2 := Digits(c);
    OnesOfDigits(c, d0, d1, d2);
  }

  lemma AnalogRecordSize(channel: byte)
    ensures AnalogSize(channel) == if channel == 0 then -1 else 9 + 2 * Ones(channel)
    ensures channel != 0 ==> 11 <= AnalogSize(channel) <= 25
  {
    CountBitsCounts(channel);
    OnesOfByte(channel);
  }

  /** The record sizes of all devices are usable. */
  lemma DevicesAreUsable(size: nat)
    requires size > TIMESTAMP_SIZE
    ensures Usable(CanSize(size)) && Usable(AnalogSize)
  {
    forall c: byte
      ensures AnalogSize(c) >= 0 ==> AnalogSize(c) > TIMESTAMP_SIZE
    {
      AnalogRecordSize(c);
    }
  }

  /** The bytes of a timestamp of `us` microseconds. */
  function Timestamp(us: u64): (ts: seq<byte>)
    ensures |ts| == TIMESTAMP_SIZE
  {
    var sec: int := ToU32(us / 1000000);
    Le32(sec) + Le32(ToU32(us - sec * 1000000))
  }

  function Seconds(ts: seq<byte>): int
    requires |ts| >= TIMESTAMP_SIZE
  {
    FromLe32(ts[..4])
  }

  function Microseconds(ts: seq<byte>): int
    requires |ts| >= TIMESTAMP_SIZE
  {
    FromLe32(ts[4..8])
  }

  lemma SecondsSplit(us: int, v: int)
    requires 0 <= us && v == us / 1000000
    ensures var sec := v % TWO_32; var usec := (us - sec * 1000000) % TWO_32;
      (sec * 1000000 + usec == us && usec < 1000000) <==> v < TWO_32
  {
    assert us == v * 1000000 + us % 1000000;
  }

  /** The timestamp denotes the time exactly while its seconds fit 32 bits. */
  lemma TimestampDenotes(us: u64)
    ensures var ts := Timestamp(us);
      (Seconds(ts) * 1000000 + Microseconds(ts) == us && Microseconds(ts) < 1000000) <==> us / 1000000 < TWO_32
  {
    var sec: int := ToU32(us / 1000000);
    var usec: int := ToU32(us - sec * 1000000);
    SecondsSplit(us, us / 1000000);
    Le32RoundTrip(sec);
    Le32RoundTrip(usec);
    assert Timestamp(us)[..4] == Le32(sec) && Timestamp(us)[4..8] == Le32(usec);
  }

  /** The bytes at and after the payload pointer that the walk touches lie in the buffer. */
  ghost predicate InBuffer(sizeOf: SizeOf, s: seq<byte>, remain: int)
    requires Usable(sizeOf)
    decreases |s|
  {
    remain <= 0 ||
    (&& |s| > TIMESTAMP_SIZE
     && var n := sizeOf(s[8]);
        n < 0 || n > MAX_PAYLOAD || n > remain || (n <= |s| && InBuffer(sizeOf, s[n..], remain - n)))
  }

  /** `ts` put over the start of a record; nothing when the device's own time is kept. */
  function Stamp(record: seq<byte>, ts: seq<byte>): (r: seq<byte>)
    ensures |r| >= |record|
    ensures |ts| <= |record| ==> |r| == |record|
  {
    if |ts| <= |record| then ts + record[|ts|..] else ts
  }

  predicate ValidStamp(ts: seq<byte>) {
    ts == [] || |ts| == TIMESTAMP_SIZE
  }

  datatype Result = Result(bytes: seq<byte>, ok: bool)

  /** What the walk makes of the rest of the buffer: stamp a record, go on behind it, stop at a bad size. */
  ghost function Stamped(sizeOf: SizeOf, s: seq<byte>, remain: int, ts: seq<byte>): (r: Result)
    requires Usable(sizeOf) && InBuffer(sizeOf, s, remain) && ValidStamp(ts)
    ensures |r.bytes| == |s|
    decreases |s|
  {
    if remain <= 0 then Result(s, true)
    else
      var n := sizeOf(s[8]);
      if n < 0 || n > MAX_PAYLOAD then Result(Stamp(s, ts), false)
      else if n > remain then Result(Stamp(s, ts), true)
      else
        var later := Stamped(sizeOf, s[n..], remain - n, ts);
        Result(Stamp(s[..n], ts) + later.bytes, later.ok)
  }

  predicate WholeRecord(sizeOf: SizeOf, record: seq<byte>) {
    |record| > TIMESTAMP_SIZE && |record| <= MAX_PAYLOAD && sizeOf(record[8]) == |record|
  }

  ghost predicate WholeRecords(sizeOf: SizeOf, records: seq<seq<byte>>) {
    forall i | 0 <= i < |records| :: WholeRecord(sizeOf, records[i])
  }

  function StampAll(records: seq<seq<byte>>, ts: seq<byte>): seq<seq<byte>> {
    seq(|records|, i requires 0 <= i < |records| => Stamp(records[i], ts))
  }

  lemma FirstIsStamped(sizeOf: SizeOf, r: seq<byte>, later: seq<byte>, remain: nat, ts: seq<byte>)
    requires Usable(sizeOf) && ValidStamp(ts) && WholeRecord(sizeOf, r) && InBuffer(sizeOf, later, remain)
    ensures InBuffer(sizeOf, r + later, |r| + remain)
    ensures var after := Stamped(sizeOf, later, remain, ts);
      Stamped(sizeOf, r + later, |r| + remain, ts) == Result(Stamp(r, ts) + after.bytes, after.ok)
  {
    TakeFirst(r, later);
    DropFromFirst(r, later, |r|);
    assert [] + later == later;
  }

  lemma StampAllFirst(records: seq<seq<byte>>, ts: seq<byte>)
    requires records != []
    ensures StampAll(records, ts)[0] == Stamp(records[0], ts)
    ensures StampAll(records, ts)[1..] == StampAll(records[1..], ts)
  {
  }

  /** The walk over the records stamps all of them and leaves what is behind. */
  ghost predicate StampsAll(sizeOf: SizeOf, records: seq<seq<byte>>, behind: seq<byte>, ts: seq<byte>)
    requires Usable(sizeOf) && ValidStamp(ts)
  {
    && InBuffer(sizeOf, Flatten(records) + behind, |Flatten(records)|)
    && Stamped(sizeOf, Flatten(records) + behind, |Flatten(records)|, ts)
       == Result(Flatten(StampAll(records, ts)) + behind, true)
  }

  lemma OneMoreRecord(sizeOf: SizeOf, records: seq<seq<byte>>, behind: seq<byte>, ts: seq<byte>,
                      s: seq<byte>, out: seq<byte>)
    requires Usable(sizeOf) && ValidStamp(ts) && records != [] && WholeRecord(sizeOf, records[0])
    requires s == Flatten(records[1..]) + behind && out == Flatten(StampAll(records[1..], ts)) + behind
    requires InBuffer(sizeOf, s, |Flatten(records[1..])|)
    requires Stamped(sizeOf, s, |Flatten(records[1..])|, ts) == Result(out, true)
    ensures StampsAll(sizeOf, records, behind, ts)
  {
    FirstIsStamped(sizeOf, records[0], s, |Flatten(records[1..])|, ts);
    FlattenFirstThen(records, behind);
    StampAllFirst(records, ts);
    FlattenFirstThen(StampAll(records, ts), behind);
  }

  lemma NoRecords(sizeOf: SizeOf, behind: seq<byte>, ts: seq<byte>)
    requires Usable(sizeOf) && ValidStamp(ts)
    ensures StampsAll(sizeOf, [], behind, ts)
  {
    var none: seq<seq<byte>> := [];
    assert Flatten(none) + behind == behind && StampAll(none, ts) == none;
  }

  /** Main result on rewriting: in a concatenation of whole records every record gets the timestamp and keeps all
      its other bytes, nothing is touched behind them, and the walk succeeds. */
  lemma {:induction false} EveryRecordIsStamped(sizeOf: SizeOf, records: seq<seq<byte>>, behind: seq<byte>,
                                                ts: seq<byte>)
    requires Usable(sizeOf) && ValidStamp(ts)
    requires forall i | 0 <= i < |records| :: WholeRecord(sizeOf, records[i])
    ensures StampsAll(sizeOf, records, behind, ts)
    decreases |records|
  {
    if records == [] {
      NoRecords(sizeOf, behind, ts);
    } else {
      var later := records[1..];
      EveryRecordIsStamped(sizeOf, later, behind, ts);
      OneMoreRecord(sizeOf, records, behind, ts, Flatten(later) + behind, Flatten(StampAll(later, ts)) + behind);
    }
  }

  predicate EndsWalk(sizeOf: SizeOf, last: seq<byte>, remain: nat) {
    && 0 < remain && |last| > TIMESTAMP_SIZE
    && (sizeOf(last[8]) < 0 || sizeOf(last[8]) > 78 || sizeOf(last[8]) > remain)
  }

  /** The walk over `size` bytes of `all` succeeds or not, and leaves `out`. */
  ghost predicate WalkGives(sizeOf: SizeOf, all: seq<byte>, size: nat, ts: seq<byte>, out: seq<byte>, ok: bool)
    requires Usable(sizeOf) && ValidStamp(ts)
  {
    InBuffer(sizeOf, all, size) && Stamped(sizeOf, all, size, ts) == Result(out, ok)
  }

  lemma FirstThenRest(sizeOf: SizeOf, r: seq<byte>, s: seq<byte>, size: nat, ts: seq<byte>, out: seq<byte>, ok: bool,
                      all: seq<byte>, total: nat, after: seq<byte>)
    requires Usable(sizeOf) && ValidStamp(ts) && WholeRecord(sizeOf, r) && WalkGives(sizeOf, s, size, ts, out, ok)
    requires all == r + s && total == |r| + size && after == Stamp(r, ts) + out
    ensures WalkGives(sizeOf, all, total, ts, after, ok)
  {
    FirstIsStamped(sizeOf, r, s, size, ts);
  }

  /** These records, and `tail` behind them. */
  function Before(records: seq<seq<byte>>, tail: seq<byte>): seq<byte> {
    if records == [] then tail else records[0] + Before(records[1..], tail)
  }

  lemma {:induction false} BeforeIsFlatten(records: seq<seq<byte>>, tail: seq<byte>)
    ensures Before(records, tail) == Flatten(records) + tail
  {
    if records == [] {
      assert Flatten(records) + tail == tail;
    } else {
      BeforeIsFlatten(records[1..], tail);
      FlattenFirstThen(records, tail);
    }
  }

  lemma LastAlone(sizeOf: SizeOf, last: seq<byte>, remain: nat, ts: seq<byte>)
    requires Usable(sizeOf) && ValidStamp(ts) && EndsWalk(sizeOf, last, remain)
    ensures WalkGives(sizeOf, last, remain, ts, Stamp(last, ts), 0 <= sizeOf(last[8]) <= 78)
  {
  }

  lemma BeforeOneMore(records: seq<seq<byte>>, last: seq<byte>, ts: seq<byte>)
    requires records != []
    ensures Before(records, last) == records[0] + Before(records[1..], last)
    ensures Before(StampAll(records, ts), Stamp(last, ts))
         == Stamp(records[0], ts) + Before(StampAll(records[1..], ts), Stamp(last, ts))
    ensures |Before(records[1..], last)| >= |last|
  {
    BeforeIsFlatten(records[1..], last);
    StampAllFirst(records, ts);
  }

  /** Behind whole records a record of a bad size, or one that is cut off, is stamped as well and ends the walk; only
      the bad size is an error. */
  lemma {:induction false} LastRecordEndsWalk(sizeOf: SizeOf, records: seq<seq<byte>>, last: seq<byte>, remain: nat,
                                              ts: seq<byte>, all: seq<byte>, size: nat, out: seq<byte>, ok: bool)
    requires Usable(sizeOf) && ValidStamp(ts) && EndsWalk(sizeOf, last, remain)
    requires WholeRecords(sizeOf, records)
    requires all == Before(records, last) && size == |all| - |last| + remain
    requires out == Before(StampAll(records, ts), Stamp(last, ts))
    requires ok <==> 0 <= sizeOf(last[8]) <= 78
    ensures WalkGives(sizeOf, all, size, ts, out, ok)
    decreases |records|
  {
    if records == [] {
      assert StampAll(records, ts) == [];
      LastAlone(sizeOf, last, remain, ts);
    } else {
      var r, later := records[0], records[1..];
      BeforeOneMore(records, last, ts);
      var s, rest := Before(later, last), Before(StampAll(later, ts), Stamp(last, ts));
      LastRecordEndsWalk(sizeOf, later, last, remain, ts, s, size - |r|, rest, ok);
      FirstThenRest(sizeOf, r, s, size - |r|, ts, rest, ok, all, size, out);
    }
  }

  /** The walk over `all` has made `done` of what it passed and has `s` before it. */
  ghost predicate Walked(sizeOf: SizeOf, all: seq<byte>, size: int, ts: seq<byte>,
                         done: seq<byte>, s: seq<byte>, remain: int)
    requires Usable(sizeOf) && ValidStamp(ts) && InBuffer(sizeOf, all, size)
  {
    && InBuffer(sizeOf, s, remain)
    && var later := Stamped(sizeOf, s, remain, ts);
      Stamped(sizeOf, all, size, ts) == Result(done + later.bytes, later.ok)
  }

  lemma NoneBefore(s: seq<byte>)
    ensures [] + s == s
  {
  }

  lemma StampSplits(s: seq<byte>, n: nat, ts: seq<byte>)
    requires |ts| <= n <= |s|
    ensures Stamp(s, ts) == Stamp(s[..n], ts) + s[n..]
  {
  }

  lemma WalkOn(sizeOf: SizeOf, all: seq<byte>, size: int, ts: seq<byte>, done: seq<byte>, s: seq<byte>, remain: int)
    requires Usable(sizeOf) && ValidStamp(ts) && InBuffer(sizeOf, all, size)
    requires Walked(sizeOf, all, size, ts, done, s, remain) && remain > 0
    ensures |s| > TIMESTAMP_SIZE
    ensures var n := sizeOf(s[8]);
      if n < 0 || n > MAX_PAYLOAD then Stamped(sizeOf, all, size, ts) == Result(done + Stamp(s, ts), false)
      else if n > remain then Stamped(sizeOf, all, size, ts) == Result(done + Stamp(s, ts), true)
      else
        && n <= |s| && done + Stamp(s, ts) == done + Stamp(s[..n], ts) + s[n..]
        && Walked(sizeOf, all, size, ts, done + Stamp(s[..n], ts), s[n..], remain - n)
  {
    var n := sizeOf(s[8]);
    if 0 <= n <= MAX_PAYLOAD && n <= remain {
      var later := Stamped(sizeOf, s[n..], remain - n, ts);
      assert Stamped(sizeOf, s, remain, ts) == Result(Stamp(s[..n], ts) + later.bytes, later.ok);
      StampSplits(s, n, ts);
      Assoc(done, Stamp(s[..n], ts), s[n..]);
      Assoc(done, Stamp(s[..n], ts), later.bytes);
    }
  }

  // ------------------------------------------------------------------
  // What the bytes say.

  /** Four bytes for the seconds and four for the microseconds, the lowest first. */
  ghost predicate ReadsTime(record: seq<byte>, us: int) {
    && |record| >= 8
    && var d: seq<int> := seq(8, i requires 0 <= i < 8 => record[i] as int);
    var sec := d[0] + 256 * d[1] + 65536 * d[2] + 16777216 * d[3];
    var usec := d[4] + 256 * d[5] + 65536 * d[6] + 16777216 * d[7];
    us / 1000000 < 4294967296 ==> sec * 1000000 + usec == us && usec < 1000000
  }

  /** In host mode a record reads the host's time and keeps all bytes behind its timestamp; in device mode it stays. */
  ghost predicate Restamped(mode: Mode, us: int, before: seq<byte>, after: seq<byte>) {
    && |after| == |before| && |before| >= 8 && after[8..] == before[8..]
    && if mode.HostTime? then ReadsTime(after, us) else after == before
  }

  ghost predicate EachRestamped(mode: Mode, us: int, records: seq<seq<byte>>, after: seq<seq<byte>>) {
    |after| == |records| && forall i | 0 <= i < |records| :: Restamped(mode, us, records[i], after[i])
  }

  function StampOf(mode: Mode, us: u64): (ts: seq<byte>)
    ensures ValidStamp(ts)
  {
    if mode.HostTime? then Timestamp(us) else []
  }

  lemma TimestampReads(us: u64, behind: seq<byte>)
    ensures ReadsTime(Timestamp(us) + behind, us)
  {
    var sec: int := ToU32(us / 1000000);
    var usec: int := ToU32(us - sec * 1000000);
    SecondsSplit(us, us / 1000000);
    Le32Spells(sec);
    Le32Spells(usec);
    assert Timestamp(us) == Le32(sec) + Le32(usec);
  }

  lemma StampRestamps(mode: Mode, us: u64, record: seq<byte>)
    requires |record| > TIMESTAMP_SIZE
    ensures Restamped(mode, us, record, Stamp(record, StampOf(mode, us)))
  {
    if mode.HostTime? {
      TimestampReads(us, record[8..]);
    }
  }

  lemma {:induction false} NothingStamped(sizeOf: SizeOf, s: seq<byte>, remain: int)
    requires Usable(sizeOf) && InBuffer(sizeOf, s, remain)
    ensures Stamped(sizeOf, s, remain, []).bytes == s
    decreases |s|
  {
    if remain > 0 {
      var n := sizeOf(s[8]);
      if 0 <= n <= MAX_PAYLOAD && n <= remain {
        NothingStamped(sizeOf, s[n..], remain - n);
      }
    }
  }

  /** What the walk makes of a buffer of whole records, in terms of its bytes. */
  lemma WholeRecordsRestamped(sizeOf: SizeOf, mode: Mode, us: u64, all: seq<byte>, records: seq<seq<byte>>)
    requires Usable(sizeOf) && WholeRecords(sizeOf, records) && Flatten(records) <= all
    ensures InBuffer(sizeOf, all, |Flatten(records)|)
    ensures var r := Stamped(sizeOf, all, |Flatten(records)|, StampOf(mode, us));
      var after := StampAll(records, StampOf(mode, us));
      r.ok && EachRestamped(mode, us, records, after) && r.bytes == Flatten(after) + all[|Flatten(records)|..]
  {
    var ts, behind := StampOf(mode, us), all[|Flatten(records)|..];
    assert all == Flatten(records) + behind;
    EveryRecordIsStamped(sizeOf, records, behind, ts);
    forall i | 0 <= i < |records|
      ensures Restamped(mode, us, records[i], StampAll(records, ts)[i])
    {
      StampRestamps(mode, us, records[i]);
    }
  }

  /** `after` is what must become of the first `size` bytes of `before`: the same in device mode; success and every
      record restamped when they are whole records, and nothing else changed. */
  ghost predicate Rewritten(sizeOf: SizeOf, mode: Mode, us: int, before: seq<byte>, size: nat, after: seq<byte>,
                            ok: bool)
  {
    && (mode.DeviceTime? ==> after == before)
    && forall records: seq<seq<byte>> |
         WholeRecords(sizeOf, records) && |Flatten(records)| == size && Flatten(records) <= before ::
         ok && exists rs | EachRestamped(mode, us, records, rs) :: after == Flatten(rs) + before[size..]
  }

  lemma WalkMeans(sizeOf: SizeOf, mode: Mode, us: u64, all: seq<byte>, size: nat)
    requires Usable(sizeOf) && InBuffer(sizeOf, all, size)
    ensures var r := Stamped(sizeOf, all, size, StampOf(mode, us));
      Rewritten(sizeOf, mode, us, all, size, r.bytes, r.ok)
  {
    var r := Stamped(sizeOf, all, size, StampOf(mode, us));
    if mode.DeviceTime? {
      NothingStamped(sizeOf, all, size);
    }
    forall records: seq<seq<byte>> |
      WholeRecords(sizeOf, records) && |Flatten(records)| == size && Flatten(records) <= all
      ensures r.ok && exists rs | EachRestamped(mode, us, records, rs) :: r.bytes == Flatten(rs) + all[size..]
    {
      WholeRecordsRestamped(sizeOf, mode, us, all, records);
      assert EachRestamped(mode, us, records, StampAll(records, StampOf(mode, us)));
    }
  }

  /** Overwrites the timestamp at the payload pointer and asks for the size of the record there. */
  method Overwrite(sizeOf: SizeOf, buf: array<byte>, at: nat, ts: seq<byte>, ghost done: seq<byte>, ghost s: seq<byte>)
    returns (n: int)
    requires at == |done| && buf[..] == done + s && ValidStamp(ts) && TIMESTAMP_SIZE < |s|
    modifies buf
    ensures buf[..] == done + Stamp(s, ts) && n == sizeOf(s[8])
  {
    assert buf[at + 8] == (done + s)[at + 8] == s[8];
    forall i | at <= i < at + |ts| {
      buf[i] := ts[i - at];
    }
    n := sizeOf(buf[at + 8]);
  }

  /** `apt_usbtrx_parse_rbmsg` on the first `size` bytes of `buf`. */
  method ParseRbmsg(sizeOf: SizeOf, mode: Mode, buf: array<byte>, size: nat, relativeTimeNs: u64) returns (ok: bool)
    requires Usable(sizeOf) && InBuffer(sizeOf, buf[..], size)
    modifies buf
    ensures Result(buf[..], ok) == Stamped(sizeOf, old(buf[..]), size, StampOf(mode, relativeTimeNs / 1000))
    ensures Rewritten(sizeOf, mode, relativeTimeNs / 1000, old(buf[..]), size, buf[..], ok)
  {
    var remain: int := size;
    var payload: nat := 0;
    var ts: seq<byte> := StampOf(mode, relativeTimeNs / 1000);
    ghost var all := buf[..];
    WalkMeans(sizeOf, mode, relativeTimeNs / 1000, all, size);
    ghost var done: seq<byte>, s: seq<byte> := [], all;
    NoneBefore(all);
    NoneBefore(Stamped(sizeOf, all, size, ts).bytes);
    while remain > 0
      invariant payload == |done| && buf[..] == done + s
      invariant Walked(sizeOf, all, size, ts, done, s, remain)
      decreases remain
    {
      WalkOn(sizeOf, all, size, ts, done, s, remain);
      var n := Overwrite(sizeOf, buf, payload, ts, done, s);
      if n < 0 {
        return false;
      }
      if n > MAX_PAYLOAD {
        return false;
      }
      remain := remain - n;
      if remain < 0 {
        return true;
      }
      payload := payload + n;
      done, s := done + Stamp(s[..n], ts), s[n..];
    }
    return true;
  }
}
