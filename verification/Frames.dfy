/** The framing of messages on the wire: one frame, and the scan that finds frames in a stream. */
module Frames {
  import opened CInts
  import opened Sequences

  const MSG_SOB: byte := 0xF7
  const MSG_EOB: byte := 0xFA
  const CMD_MIN_LENGTH: nat := 4
  const CMD_MAX_LENGTH: nat := 82
  const MSG_MAX_LENGTH: nat := 128
  const MAX_PAYLOAD: nat := 78

  datatype Msg = Msg(id: byte, payload: seq<byte>)

  predicate ValidMsg(m: Msg) {
    |m.payload| <= MAX_PAYLOAD
  }

  datatype Outcome = Failure | NotEnough | Parsed(msg: Msg)

  function Pack(m: Msg): seq<byte>
    requires ValidMsg(m)
  {
    [MSG_SOB, CMD_MIN_LENGTH + |m.payload|, m.id] + m.payload + [MSG_EOB]
  }

  function FrameLength(m: Msg): nat {
    CMD_MIN_LENGTH + |m.payload|
  }

  /** The first frame of `data`. */
  function Parse(data: seq<byte>): (r: Outcome)
    requires |data| >= 2
  {
    var length: nat := data[1];
    if data[0] != MSG_SOB then Failure
    else if length < CMD_MIN_LENGTH || length > MSG_MAX_LENGTH || length > CMD_MAX_LENGTH then Failure
    else if length > |data| then NotEnough
    else if data[length - 1] != MSG_EOB then Failure
    else Parsed(Msg(data[2], data[3..length - 1]))
  }

  /** The messages found in a stream, and the bytes kept because they may start another one. */
  datatype Scanned = Scanned(msgs: seq<Msg>, rest: seq<byte>)

  function Prepend(ms: seq<Msg>, s: Scanned): Scanned {
    Scanned(ms + s.msgs, s.rest)
  }

  lemma ParsedFrameFits(data: seq<byte>)
    requires |data| >= 2 && Parse(data).Parsed?
    ensures CMD_MIN_LENGTH <= FrameLength(Parse(data).msg) <= |data| && ValidMsg(Parse(data).msg)
  {
  }

  function Scan(data: seq<byte>): Scanned
    decreases |data|
  {
    if |data| < CMD_MIN_LENGTH then Scanned([], data)
    else
      match Parse(data)
      case NotEnough => Scanned([], data)
      case Failure => Scan(data[1..])
      case Parsed(m) =>
        ParsedFrameFits(data);
        Prepend([m], Scan(data[FrameLength(m)..]))
  }

  /** The frame on the wire: start byte, its own length, identifier, payload, end byte. */
  lemma FrameBytes(m: Msg)
    requires ValidMsg(m)
    ensures var s, n := Pack(m), |m.payload|;
      && |s| == n + 4 <= 82
      && s[0] == 0xF7 && s[1] == n + 4 && s[2] == m.id && s[3..3 + n] == m.payload && s[3 + n] == 0xFA
  {
    assert Pack(m)[3..3 + |m.payload|] == m.payload;
  }

  lemma PackedIsParsed(m: Msg, tail: seq<byte>)
    requires ValidMsg(m)
    ensures Parse(Pack(m) + tail) == Parsed(m)
  {
    var data := Pack(m) + tail;
    assert data[3..FrameLength(m) - 1] == m.payload;
  }

  /** A message is parsed exactly where its frame stands. */
  lemma ParseIsInverseOfPack(data: seq<byte>, m: Msg)
    requires |data| >= 2
    ensures Parse(data) == Parsed(m) <==> ValidMsg(m) && Pack(m) <= data
  {
    if ValidMsg(m) && Pack(m) <= data {
      PackedIsParsed(m, data[FrameLength(m)..]);
      assert data == Pack(m) + data[FrameLength(m)..];
    }
    if Parse(data) == Parsed(m) {
      ParsedFrameFits(data);
      assert Pack(m) == data[..FrameLength(m)];
    }
  }

  /** More input does not change a verdict that was already reached. */
  lemma VerdictStands(a: seq<byte>, b: seq<byte>)
    requires |a| >= 2 && !Parse(a).NotEnough?
    ensures Parse(a + b) == Parse(a)
  {
    if Parse(a).Parsed? {
      assert (a + b)[3..a[1] - 1] == a[3..a[1] - 1];
    }
  }

  lemma PrependTwice(xs: seq<Msg>, ys: seq<Msg>, s: Scanned)
    ensures Prepend(xs, Prepend(ys, s)) == Prepend(xs + ys, s)
  {
    Assoc(xs, ys, s.msgs);
  }

  /** `found` is what the scan of `stream` finds before offset `at`. */
  ghost predicate ScannedTo(stream: seq<byte>, at: nat, found: seq<Msg>)
    requires at <= |stream|
  {
    Scan(stream) == Prepend(found, Scan(stream[at..]))
  }

  lemma StartScan(stream: seq<byte>)
    ensures ScannedTo(stream, 0, [])
  {
    assert stream[0..] == stream && [] + Scan(stream).msgs == Scan(stream).msgs;
  }

  lemma EndScan(stream: seq<byte>, at: nat, found: seq<Msg>)
    requires at <= |stream| < at + CMD_MIN_LENGTH && ScannedTo(stream, at, found)
    ensures Scan(stream) == Scanned(found, stream[at..])
  {
    assert found + [] == found;
  }

  /** The scan moves on by one byte, */
  lemma ScanPastFailure(stream: seq<byte>, at: nat, found: seq<Msg>)
    requires at + CMD_MIN_LENGTH <= |stream| && ScannedTo(stream, at, found) && Parse(stream[at..]).Failure?
    ensures ScannedTo(stream, at + 1, found)
  {
    DropTwice(stream, at, 1);
  }

  /** by one message, */
  lemma ScanPastMessage(stream: seq<byte>, at: nat, found: seq<Msg>, m: Msg)
    requires at + CMD_MIN_LENGTH <= |stream| && ScannedTo(stream, at, found) && Parse(stream[at..]) == Parsed(m)
    ensures at + FrameLength(m) <= |stream| && ScannedTo(stream, at + FrameLength(m), found + [m])
  {
    ParsedFrameFits(stream[at..]);
    DropTwice(stream, at, FrameLength(m));
    PrependTwice(found, [m], Scan(stream[at + FrameLength(m)..]));
  }

  /** or stops. */
  lemma ScanStopsHere(stream: seq<byte>, at: nat, found: seq<Msg>)
    requires at + CMD_MIN_LENGTH <= |stream| && ScannedTo(stream, at, found) && Parse(stream[at..]).NotEnough?
    ensures Scan(stream) == Scanned(found, stream[at..])
  {
    assert found + [] == found;
  }

  /** Scanning in two steps, carrying the rest over, is scanning at once. */
  lemma {:induction false} ScanInTwo(a: seq<byte>, b: seq<byte>)
    ensures Scan(a + b) == Prepend(Scan(a).msgs, Scan(Scan(a).rest + b))
    decreases |a|
  {
    if |a| >= CMD_MIN_LENGTH && !Parse(a).NotEnough? {
      VerdictStands(a, b);
      if Parse(a).Parsed? {
        ParsedFrameFits(a);
      }
      var n := if Parse(a).Failure? then 1 else FrameLength(Parse(a).msg);
      var head := if Parse(a).Failure? then [] else [Parse(a).msg];
      DropFromFirst(a, b, n);
      assert Scan(a) == Prepend(head, Scan(a[n..]));
      assert Scan(a + b) == Prepend(head, Scan(a[n..] + b));
      ScanInTwo(a[n..], b);
      PrependTwice(head, Scan(a[n..]).msgs, Scan(Scan(a).rest + b));
    }
  }

  /** The carry: fewer bytes than the longest frame. */
  lemma {:induction false} CarryIsShort(data: seq<byte>)
    ensures |Scan(data).rest| < CMD_MAX_LENGTH && |Scan(data).rest| <= |data|
    decreases |data|
  {
    if |data| >= CMD_MIN_LENGTH {
      match Parse(data)
      case NotEnough =>
      case Failure => CarryIsShort(data[1..]);
      case Parsed(m) =>
        ParsedFrameFits(data);
        CarryIsShort(data[FrameLength(m)..]);
    }
  }

  /** What is dispatched and carried over when the stream arrives in these chunks. */
  function Feed(chunks: seq<seq<byte>>): Scanned {
    if chunks == [] then Scanned([], [])
    else
      var before := Feed(chunks[..|chunks| - 1]);
      Prepend(before.msgs, Scan(before.rest + chunks[|chunks| - 1]))
  }

  /** Main result on reception: how the stream is cut into transfers makes no difference. */
  lemma {:induction false} ChunkingIndependence(chunks: seq<seq<byte>>)
    ensures Feed(chunks) == Scan(Flatten(chunks))
    ensures |Feed(chunks).rest| < CMD_MAX_LENGTH
  {
    if chunks != [] {
      var last := |chunks| - 1;
      ChunkingIndependence(chunks[..last]);
      ScanInTwo(Flatten(chunks[..last]), chunks[last]);
    }
    CarryIsShort(Flatten(chunks));
  }

  predicate AllValid(ms: seq<Msg>) {
    forall m | m in ms :: ValidMsg(m)
  }

  function PackAll(ms: seq<Msg>): seq<byte>
    requires AllValid(ms)
  {
    if ms == [] then [] else Pack(ms[0]) + PackAll(ms[1..])
  }

  lemma {:induction false} PackAllAppends(ms: seq<Msg>, m: Msg)
    requires ValidMsg(m) && AllValid(ms)
    ensures PackAll(ms + [m]) == PackAll(ms) + Pack(m)
  {
    if ms == [] {
      assert [] + [m] == [m] && PackAll([m][1..]) == [];
    } else {
      assert (ms + [m])[1..] == ms[1..] + [m];
      PackAllAppends(ms[1..], m);
      Assoc(Pack(ms[0]), PackAll(ms[1..]), Pack(m));
    }
  }

  lemma ScanFrame(m: Msg, tail: seq<byte>)
    requires ValidMsg(m)
    ensures Scan(Pack(m) + tail) == Prepend([m], Scan(tail))
  {
    PackedIsParsed(m, tail);
    DropFromFirst(Pack(m), tail, FrameLength(m));
    assert [] + tail == tail;
  }

  lemma {:induction false} ScanFrames(ms: seq<Msg>, tail: seq<byte>)
    requires AllValid(ms)
    ensures Scan(PackAll(ms) + tail) == Prepend(ms, Scan(tail))
    decreases |ms|
  {
    if ms == [] {
      assert PackAll(ms) + tail == tail;
    } else {
      var later := PackAll(ms[1..]) + tail;
      Assoc(Pack(ms[0]), PackAll(ms[1..]), tail);
      ScanFrame(ms[0], later);
      ScanFrames(ms[1..], tail);
      assert [ms[0]] + ms[1..] == ms;
      PrependTwice([ms[0]], ms[1..], Scan(tail));
    }
  }

  // ------------------------------------------------------------------
  // Noise before the first frame.

  /** Whether a frame that seems to start at `i` is taken, or waited for, before some message: it looks complete
      within the noise, or reaches past the first two bytes of what follows, which cannot end a frame. */
  predicate SwallowsAt(noise: seq<byte>, i: nat) {
    && i + 1 < |noise| && noise[i] == MSG_SOB
    && var length: nat := noise[i + 1];
    && CMD_MIN_LENGTH <= length <= CMD_MAX_LENGTH
    && ((i + length <= |noise| && noise[i + length - 1] == MSG_EOB) || i + length >= |noise| + 3)
  }

  predicate Harmless(noise: seq<byte>) {
    forall i | 0 <= i < |noise| :: !SwallowsAt(noise, i)
  }

  /** `data` starts like a frame. */
  predicate FrameLike(data: seq<byte>) {
    |data| >= CMD_MIN_LENGTH && data[0] == MSG_SOB && CMD_MIN_LENGTH <= data[1] <= CMD_MAX_LENGTH
  }

  lemma FailsAtOnce(noise: seq<byte>, data: seq<byte>)
    requires noise != [] && FrameLike(data) && !SwallowsAt(noise, 0)
    ensures Parse(noise + data).Failure?
  {
    var all := noise + data;
    if |noise| >= 2 && noise[0] == MSG_SOB && CMD_MIN_LENGTH <= noise[1] <= CMD_MAX_LENGTH {
      var length: nat := noise[1];
      assert all[length - 1] == if length <= |noise| then noise[length - 1] else data[length - 1 - |noise|];
    }
  }

  lemma SwallowsLater(noise: seq<byte>, i: nat)
    requires noise != []
    ensures SwallowsAt(noise[1..], i) == SwallowsAt(noise, i + 1)
  {
  }

  /** Bytes that do not swallow are skipped. */
  lemma {:induction false} ScanSkips(noise: seq<byte>, data: seq<byte>, n: nat)
    requires n <= |noise| && FrameLike(data) && forall i | 0 <= i < n :: !SwallowsAt(noise, i)
    ensures Scan(noise + data) == Scan(noise[n..] + data)
    decreases n
  {
    if n > 0 {
      FailsAtOnce(noise, data);
      DropFromFirst(noise, data, 1);
      forall i | 0 <= i < n - 1
        ensures !SwallowsAt(noise[1..], i)
      {
        SwallowsLater(noise, i);
      }
      ScanSkips(noise[1..], data, n - 1);
      DropTwice(noise, 1, n - 1);
    }
  }

  lemma FramesAreFrameLike(ms: seq<Msg>, tail: seq<byte>)
    requires ms != [] && AllValid(ms)
    ensures FrameLike(PackAll(ms) + tail)
  {
    assert PackAll(ms) + tail == Pack(ms[0]) + (PackAll(ms[1..]) + tail);
  }

  /** Messages get through whatever their payloads hold, after any harmless noise, and leave the scan where the next
      frame starts. */
  lemma StreamRoundTrip(noise: seq<byte>, ms: seq<Msg>, tail: seq<byte>)
    requires Harmless(noise) && ms != [] && AllValid(ms)
    ensures Scan(noise + PackAll(ms) + tail) == Prepend(ms, Scan(tail))
    ensures Scan(noise + PackAll(ms)) == Scanned(ms, [])
  {
    HarmlessIsSkipped(noise, ms, tail);
    HarmlessIsSkipped(noise, ms, []);
    Assoc(noise, PackAll(ms), tail);
    Assoc(noise, PackAll(ms), []);
    assert noise + PackAll(ms) + [] == noise + PackAll(ms) && ms + [] == ms;
  }

  lemma HarmlessIsSkipped(noise: seq<byte>, ms: seq<Msg>, tail: seq<byte>)
    requires Harmless(noise) && ms != [] && AllValid(ms)
    ensures Scan(noise + (PackAll(ms) + tail)) == Prepend(ms, Scan(tail))
  {
    FramesAreFrameLike(ms, tail);
    ScanSkips(noise, PackAll(ms) + tail, |noise|);
    assert noise[|noise|..] + (PackAll(ms) + tail) == PackAll(ms) + tail;
    ScanFrames(ms, tail);
  }

  /** A message that does not get through after this noise: its frame ends where the false one does, if it can. */
  function Victim(noise: seq<byte>, i: nat): (m: Msg)
    requires SwallowsAt(noise, i)
    ensures ValidMsg(m)
  {
    var length: nat := noise[i + 1];
    if i + length <= |noise| then Msg(if noise[i + 2] == 0 then 1 else 0, [])
    else Msg(MSG_EOB, seq(if i + length > |noise| + 4 then i + length - |noise| - 4 else 0, _ => 0))
  }

  lemma VictimIsLost(noise: seq<byte>, i: nat)
    requires SwallowsAt(noise, i)
    ensures var m := Victim(noise, i);
      Scan(noise[i..] + Pack(m)).msgs != [] && Scan(noise[i..] + Pack(m)).msgs[0] != m
  {
    var m := Victim(noise, i);
    var all, length: nat := noise[i..] + Pack(m), noise[i + 1];
    if i + length <= |noise| {
      assert all[length - 1] == noise[i + length - 1] && all[2] == noise[i + 2];
    } else {
      var e := i + length - 1 - |noise|;
      assert all[length - 1] == Pack(m)[e] == MSG_EOB;
    }
    assert Parse(all) == Parsed(Msg(all[2], all[3..length - 1]));
    assert Msg(all[2], all[3..length - 1]) != m;
  }

  /** Main result on framing: every list of messages gets through after this noise if and only if it is harmless. */
  lemma NoiseIsHarmlessIff(noise: seq<byte>)
    ensures (forall ms | ms != [] && AllValid(ms) :: Scan(noise + PackAll(ms)) == Scanned(ms, [])) <==> Harmless(noise)
  {
    if Harmless(noise) {
      forall ms | ms != [] && AllValid(ms)
        ensures Scan(noise + PackAll(ms)) == Scanned(ms, [])
      {
        StreamRoundTrip(noise, ms, []);
      }
    } else {
      var i := FirstSwallow(noise, 0);
      var m := Victim(noise, i);
      assert PackAll([m]) == Pack(m);
      ScanSkips(noise, Pack(m), i);
      VictimIsLost(noise, i);
      assert AllValid([m]) && Scan(noise + PackAll([m])) != Scanned([m], []);
    }
  }

  lemma FirstSwallow(noise: seq<byte>, from: nat) returns (i: nat)
    requires !Harmless(noise) && forall j | 0 <= j < from :: !SwallowsAt(noise, j)
    ensures SwallowsAt(noise, i) && forall j | 0 <= j < i :: !SwallowsAt(noise, j)
    decreases |noise| - from
  {
    if SwallowsAt(noise, from) {
      i := from;
    } else {
      i := FirstSwallow(noise, from + 1);
    }
  }

  /** For example, this noise swallows a frame, and another one is made up. */
  lemma StartByteInNoiseSwallows()
    ensures Scan([MSG_SOB, 6] + Pack(Msg(0, []))) == Scanned([Msg(MSG_SOB, [4, 0])], [])
    ensures SwallowsAt([MSG_SOB, 6], 0)
  {
    var data: seq<byte> := [MSG_SOB, 6] + Pack(Msg(0, []));
    assert data == Pack(Msg(MSG_SOB, [4, 0]));
    ParseIsInverseOfPack(data, Msg(MSG_SOB, [4, 0]));
    assert data[6..] == [];
  }

  // ------------------------------------------------------------------
  // The driver's codec, with its cursor.

  /** `apt_usbtrx_msg_parse` on the bytes from `at` on. */
  method MsgParse(data: array<byte>, at: nat, dataSize: nat) returns (r: Outcome)
    requires 2 <= dataSize && at + dataSize <= data.Length
    ensures r == Parse(data[at..at + dataSize])
  {
    ghost var window := data[at..at + dataSize];
    var n := 0;
    var sob := data[at + n];
    if sob != MSG_SOB {
      return Failure;
    }
    n := n + 1;
    var length: nat := data[at + n];
    if length < CMD_MIN_LENGTH {
      return Failure;
    }
    if length > MSG_MAX_LENGTH {
      return Failure;
    }
    if length > CMD_MAX_LENGTH {
      return Failure;
    }
    if length > dataSize {
      return NotEnough;
    }
    if data[at + length - 1] != MSG_EOB {
      return Failure;
    }
    n := n + 1;
    var id := data[at + n];
    n := n + 1;
    var payloadSize := length - CMD_MIN_LENGTH;
    var payload := data[at + n..at + n + payloadSize];
    SliceOfSlice(data[..], at, at + dataSize, 3, length - 1);
    assert data[..][at..at + dataSize] == window;
    return Parsed(Msg(id, payload));
  }

  /** `apt_usbtrx_msg_pack`: refuses when the frame does not fit. */
  method MsgPack(m: Msg, data: array<byte>, dataSize: nat) returns (ok: bool)
    requires ValidMsg(m) && dataSize <= data.Length
    modifies data
    ensures ok <==> FrameLength(m) <= dataSize
    ensures data[..] == if ok then Pack(m) + old(data[FrameLength(m)..]) else old(data[..])
  {
    var n := 0;
    var length := CMD_MIN_LENGTH + |m.payload|;
    if length > dataSize {
      return false;
    }
    data[n] := MSG_SOB;
    n := n + 1;
    data[n] := length;
    n := n + 1;
    data[n] := m.id;
    n := n + 1;
    forall i | n <= i < n + |m.payload| {
      data[i] := m.payload[i - n];
    }
    n := n + |m.payload|;
    data[n] := MSG_EOB;
    assert forall i | 0 <= i < length :: data[i] == Pack(m)[i];
    return true;
  }
}
