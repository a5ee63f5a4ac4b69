/**
 What the listener hears of a burst: every forged packet once and in order, among any frames that
 settle themselves; and a frame that does not, which makes it report a port twice.
 */
module Bursts {
  import opened Bytes
  import opened Common
  import opened FrameVerdicts
  import opened Packets
  import opened Sniffer

  // --- Forged frames --------------------------------------------------------------------------------

  /** What the payload of a forged packet asks to be reported, if the length field lets it. */
  function Asked(payload: seq<Byte>): Option<Word16> {
    if 8 <= UdpLen(payload) < 17 || payload[..4] != PREFIX then None
    else InRange(Atoi(payload[4..9]))
  }

  lemma PrefixIntact(frame: seq<Byte>, at: nat)
    requires at + 4 <= |frame|
    ensures PrefixBroken(frame, at) <==> frame[at..at + 4] != PREFIX
  {
    var s := frame[at..at + 4];
    assert forall k :: 0 <= k < 4 ==> s[k] == frame[at + k];
    if !PrefixBroken(frame, at) {
      assert forall k :: 0 <= k < 4 ==> s[k] == PREFIX[k];
    }
  }

  /** The verdict on a UDP over IPv4 frame without options that holds all nine bytes. */
  lemma PlainVerdict(frame: seq<Byte>, udpLen: Word16)
    requires |frame| >= 51
    requires frame[12..15] == [0x08, 0x00, 0x45] && frame[23..24] == [UDP_PROTO] && frame[38..40] == Be16(udpLen)
    ensures Judge(frame) == Settled(if 8 <= udpLen < 17 || frame[42..46] != PREFIX then None
                                    else InRange(Atoi(frame[46..51])))
  {
    assert frame[12] == frame[12..15][0] && frame[13] == frame[12..15][1] && frame[14] == frame[12..15][2];
    assert frame[23] == frame[23..24][0];
    assert frame[38] == frame[38..40][0] && frame[39] == frame[38..40][1];
    PrefixIntact(frame, 42);
  }

  /** Every forged frame settles itself: it is reported by its own payload, or not at all. */
  lemma ForgedVerdict(dstMac: seq<Byte>, srcMac: seq<Byte>, f: Flow, payload: seq<Byte>)
    requires |dstMac| == |srcMac| == 6
    ensures Judge(Frame(dstMac, srcMac, ForgedPacket(f, payload))) == Settled(Asked(payload))
  {
    ForgedHeaderBytes(dstMac, srcMac, f, payload);
    VerdictOfPayload(Frame(dstMac, srcMac, ForgedPacket(f, payload)), payload);
  }

  lemma VerdictOfPayload(frame: seq<Byte>, payload: seq<Byte>)
    requires |frame| >= 51 && |frame| >= 42 + |payload|
    requires frame[12..15] == [0x08, 0x00, 0x45] && frame[23..24] == [UDP_PROTO]
    requires frame[38..40] == Be16(UdpLen(payload)) && frame[42..42 + |payload|] == payload
    ensures Judge(frame) == Settled(Asked(payload))
  {
    PlainVerdict(frame, UdpLen(payload));
    if |payload| >= 9 {
      SubSlice(frame, payload, 42, 0, 4);
      SubSlice(frame, payload, 42, 4, 9);
    }
  }

  lemma SubSlice(s: seq<Byte>, t: seq<Byte>, at: nat, a: nat, b: nat)
    requires a <= b <= |t| && at + |t| <= |s| && s[at..at + |t|] == t
    ensures s[at + a..at + b] == t[a..b]
  {
    forall k | a <= k < b
      ensures s[at + k] == t[k]
    {
      assert s[at..at + |t|][k] == t[k];
    }
  }

  // --- Bursts ---------------------------------------------------------------------------------------

  /** A packet of a burst: its payload is PORT, five digits and whatever follows. */
  datatype Burst = Burst(dstMac: seq<Byte>, srcMac: seq<Byte>, flow: Flow, payload: seq<Byte>, port: Word16)

  predicate IsBurst(b: Burst) {
    |b.dstMac| == |b.srcMac| == 6 && |b.payload| <= 65507 && Names(b.payload, b.port)
  }

  function BurstFrame(b: Burst): seq<Byte>
    requires IsBurst(b)
  {
    Frame(b.dstMac, b.srcMac, ForgedPacket(b.flow, b.payload))
  }

  lemma BurstVerdict(b: Burst)
    requires IsBurst(b)
    ensures Judge(BurstFrame(b)) == Settled(Some(b.port))
  {
    ForgedVerdict(b.dstMac, b.srcMac, b.flow, b.payload);
    BurstAsked(b.payload, b.port);
  }

  lemma BurstAsked(payload: seq<Byte>, port: Word16)
    requires Names(payload, port) && |payload| <= 65507
    ensures Asked(payload) == Some(port)
  {
    assert payload[..4] == PREFIX;
    AtoiDecimal(port);
  }

  /** A payload that does not begin with P, O, R, T, or is too short, is never reported, in no buffer. */
  lemma ForeignSilent(buf: seq<Byte>, dstMac: seq<Byte>, srcMac: seq<Byte>, f: Flow, payload: seq<Byte>)
    requires |buf| == 2048 && |dstMac| == |srcMac| == 6
    requires |payload| < 9 || payload[0] != 0x50 || payload[1] != 0x4F || payload[2] != 0x52 || payload[3] != 0x54
    ensures Report(Arrived(buf, Frame(dstMac, srcMac, ForgedPacket(f, payload)))) == None
  {
    ForgedVerdict(dstMac, srcMac, f, payload);
    NotAsked(payload);
    SettledAlone(buf, Frame(dstMac, srcMac, ForgedPacket(f, payload)));
  }

  lemma NotAsked(payload: seq<Byte>)
    requires |payload| < 9 || payload[0] != 0x50 || payload[1] != 0x4F || payload[2] != 0x52 || payload[3] != 0x54
    ensures Asked(payload) == None
  {
    if |payload| >= 9 {
      var s := payload[..4];
      assert s[0] == payload[0] && s[1] == payload[1] && s[2] == payload[2] && s[3] == payload[3];
    }
  }

  // --- Runs -----------------------------------------------------------------------------------------

  /** What a frame is heard as by itself; an empty frame is a failed receive. */
  function HeardAlone(frame: seq<Byte>): Option<Word16>
    requires frame == [] || Judge(frame).Settled?
  {
    if frame == [] then None else Judge(frame).report
  }

  /** Over a run of frames that settle themselves, what the buffer held never shows. */
  lemma {:induction false} RunSettled(buf: seq<Byte>, frames: seq<seq<Byte>>)
    requires |buf| == BUF_SIZE
    requires forall i :: 0 <= i < |frames| ==> frames[i] == [] || Judge(frames[i]).Settled?
    ensures forall i :: 0 <= i < |frames| ==> Hearings(buf, frames)[i] == HeardAlone(frames[i])
    decreases |frames|
  {
    if frames != [] {
      if frames[0] != [] {
        SettledAlone(buf, frames[0]);
      }
      var r := Arrived(buf, frames[0]);
      RunSettled(r, frames[1..]);
      HearingsNext(buf, frames, 0);
      assert frames[0..] == frames;
    }
  }

  /** A packet of a burst, or anything else that its own bytes keep from being reported. */
  datatype Arrival = Packet(burst: Burst) | Other(frame: seq<Byte>)

  predicate IsArrival(a: Arrival) {
    match a
    case Packet(b) => IsBurst(b)
    case Other(frame) => frame == [] || Judge(frame) == Settled(None)
  }

  predicate AreArrivals(arrivals: seq<Arrival>) {
    forall i :: 0 <= i < |arrivals| ==> IsArrival(arrivals[i])
  }

  function FrameOf(a: Arrival): seq<Byte>
    requires IsArrival(a)
  {
    match a
    case Packet(b) => BurstFrame(b)
    case Other(frame) => frame
  }

  function Frames(arrivals: seq<Arrival>): (frames: seq<seq<Byte>>)
    requires AreArrivals(arrivals)
    ensures |frames| == |arrivals|
  {
    seq(|arrivals|, i requires 0 <= i < |arrivals| => FrameOf(arrivals[i]))
  }

  /** The ports of the burst packets among the first `n` arrivals. */
  function BurstPorts(arrivals: seq<Arrival>, n: nat): seq<Word16>
    requires n <= |arrivals|
  {
    if n == 0 then []
    else BurstPorts(arrivals, n - 1) + match arrivals[n - 1] case Packet(b) => [b.port] case Other(_) => []
  }

  lemma ArrivalAlone(a: Arrival)
    requires IsArrival(a)
    ensures FrameOf(a) == [] || Judge(FrameOf(a)).Settled?
    ensures HeardAlone(FrameOf(a)) == match a case Packet(b) => Some(b.port) case Other(_) => None
  {
    if a.Packet? {
      BurstVerdict(a.burst);
    }
  }

  lemma {:induction false} SomesOfBurst(arrivals: seq<Arrival>, hs: seq<Option<Word16>>, n: nat)
    requires n <= |arrivals| == |hs| && AreArrivals(arrivals)
    requires forall i {:trigger hs[i]} :: 0 <= i < |hs| ==>
             hs[i] == match arrivals[i] case Packet(b) => Some(b.port) case Other(_) => None
    ensures Somes(hs, n) == BurstPorts(arrivals, n)
  {
    if n > 0 {
      SomesOfBurst(arrivals, hs, n - 1);
      assert hs[n - 1] == match arrivals[n - 1] case Packet(b) => Some(b.port) case Other(_) => None;
    }
  }

  /** Every packet of a burst is reported, once and in order, and nothing else is. */
  lemma BurstHeard(buf: seq<Byte>, arrivals: seq<Arrival>)
    requires |buf| == BUF_SIZE && AreArrivals(arrivals)
    ensures Reports(buf, Frames(arrivals)) == BurstPorts(arrivals, |arrivals|)
  {
    var frames := Frames(arrivals);
    var hs := Hearings(buf, frames);
    forall i | 0 <= i < |frames|
      ensures frames[i] == [] || Judge(frames[i]).Settled?
      ensures HeardAlone(frames[i]) == match arrivals[i] case Packet(b) => Some(b.port) case Other(_) => None
    {
      ArrivalAlone(arrivals[i]);
    }
    RunSettled(buf, frames);
    forall i {:trigger hs[i]} | 0 <= i < |hs|
      ensures hs[i] == match arrivals[i] case Packet(b) => Some(b.port) case Other(_) => None
    {
      assert hs[i] == HeardAlone(frames[i]);
    }
    SomesOfBurst(arrivals, hs, |arrivals|);
  }

  // --- A frame that does not settle itself ----------------------------------------------------------

  /** Headers only: UDP over IPv4 with a length field of 17, and no payload. */
  function ShortFrame(): (frame: seq<Byte>)
    ensures |frame| == 42
  {
    seq(42, i requires 0 <= i < 42 =>
      if i == 12 then 0x08 else if i == 14 then 0x45 else if i == 23 || i == 39 then 17 else 0)
  }

  lemma ShortFrameOpen()
    ensures Judge(ShortFrame()).Open?
  {
    assert ShortFrame()[38] == 0 && ShortFrame()[39] == 17;
  }

  lemma ShortFrameReport(r: seq<Byte>, port: Word16)
    requires |r| == BUF_SIZE && r[42..51] == PREFIX + Decimal(port, 5)
    ensures Report(Arrived(r, ShortFrame())) == Some(port)
  {
    var s := Arrived(r, ShortFrame());
    var payload := PREFIX + Decimal(port, 5);
    ArrivedPrefix(r, ShortFrame(), 42);
    SliceOfPrefix(s, ShortFrame(), 42, 12, 15);
    SliceOfPrefix(s, ShortFrame(), 42, 23, 24);
    SliceOfPrefix(s, ShortFrame(), 42, 38, 40);
    WalkOf(s, 17);
    assert s[42..51] == r[42..51];
    assert payload[..4] == PREFIX && payload[4..9] == Decimal(port, 5) && payload[..9] == payload;
    ReportOf(s, payload, port);
  }

  lemma BurstInBuffer(buf: seq<Byte>, b: Burst)
    requires |buf| == BUF_SIZE && IsBurst(b)
    ensures Arrived(buf, BurstFrame(b))[42..51] == PREFIX + Decimal(b.port, 5)
  {
    FrameRoundTrip(buf, b.dstMac, b.srcMac, b.flow, b.payload);
    SliceFront(Arrived(buf, BurstFrame(b)), b.payload);
    assert b.payload[..9] == b.payload[..4] + b.payload[4..9];
    assert b.payload[..4] == PREFIX;
  }

  /** Behind such a frame the payload of the packet before it still lies in the buffer, and its port is reported again. */
  lemma StaleReport(buf: seq<Byte>, b: Burst)
    requires |buf| == BUF_SIZE && IsBurst(b)
    ensures Judge(ShortFrame()).Open?
    ensures Reports(buf, [BurstFrame(b), ShortFrame()]) == [b.port, b.port]
  {
    ShortFrameOpen();
    BurstVerdict(b);
    SettledAlone(buf, BurstFrame(b));
    BurstInBuffer(buf, b);
    ShortFrameReport(Arrived(buf, BurstFrame(b)), b.port);
    TwoReports(buf, BurstFrame(b), ShortFrame(), b.port);
  }

  lemma TwoReports(buf: seq<Byte>, x: seq<Byte>, y: seq<Byte>, port: Word16)
    requires |buf| == BUF_SIZE && x != [] && y != []
    requires Report(Arrived(buf, x)) == Some(port) && Report(Arrived(Arrived(buf, x), y)) == Some(port)
    ensures Reports(buf, [x, y]) == [port, port]
  {
    HearingsNext(buf, [x, y], 0);
    HearingsNext(Arrived(buf, x), [x, y], 1);
    assert [x, y][0..] == [x, y];
    var hs := Hearings(buf, [x, y]);
    assert hs == [Some(port), Some(port)];
    assert Somes(hs, 1) == [port];
  }
}
