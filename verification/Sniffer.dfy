/**
 The promiscuous listener: it walks Ethernet, IPv4 and UDP headers in a buffer that is reused from
 frame to frame, and logs the port a payload of the form PORTddddd reports.
 */
module Sniffer {
  import opened Bytes
  import opened Common
  import opened Packets

  const BUF_SIZE := 2048
  const PREFIX: seq<Byte> := [0x50, 0x4F, 0x52, 0x54]

  // --- The header walk ------------------------------------------------------------------------------

  /** Where the UDP payload starts and how long the header says it is (a length below 8 wraps in 64 bits). */
  datatype Payload = Payload(offset: nat, length: nat)

  function HeaderWalk(buf: seq<Byte>): (r: Option<Payload>)
    requires |buf| == BUF_SIZE
    ensures r.Some? ==> 22 <= r.value.offset <= 82
  {
    if FromBe16(buf[12], buf[13]) != 0x0800 || buf[23] != UDP_PROTO then None
    else
      var udp := 14 + buf[14] % 16 * 4;
      var len: int := FromBe16(buf[udp + 4], buf[udp + 5]);
      Some(Payload(udp + 8, (len - 8) % 0x1_0000_0000_0000_0000))
  }

  // --- The reported port ----------------------------------------------------------------------------

  predicate IsSpace(b: Byte) { b == 32 || 9 <= b <= 13 }

  predicate IsDigit(b: Byte) { 48 <= b <= 57 }

  /** The leading digits of `s`, read after the number `n`. */
  function Digits10(s: seq<Byte>, n: nat): nat {
    if s == [] || !IsDigit(s[0]) then n else Digits10(s[1..], 10 * n + (s[0] - 48))
  }

  /** `atoi`: blanks, an optional sign, digits; anything else ends the number. */
  function Atoi(s: seq<Byte>): int {
    if s == [] then 0
    else if IsSpace(s[0]) then Atoi(s[1..])
    else if s[0] == 45 then 0 - Digits10(s[1..], 0)
    else if s[0] == 43 then Digits10(s[1..], 0)
    else Digits10(s, 0)
  }

  /** The range test on the reported number. */
  function InRange(n: int): Option<Word16> { if 0 <= n < 65536 then Some(n) else None }

  /** What the listener extracts from its buffer, if anything. */
  function Report(buf: seq<Byte>): (r: Option<Word16>)
    requires |buf| == BUF_SIZE
    ensures r.Some? ==> buf[12..14] == [0x08, 0x00] && buf[23] == UDP_PROTO
  {
    match HeaderWalk(buf)
    case None => None
    case Some(p) =>
      if p.length < 9 || buf[p.offset..p.offset + 4] != PREFIX then None
      else InRange(Atoi(buf[p.offset + 4..p.offset + 9]))
  }

  /** The last `k` decimal digits of `n`, as `%0kd` prints them. */
  function Decimal(n: nat, k: nat): (s: seq<Byte>)
    ensures |s| == k && forall i :: 0 <= i < k ==> IsDigit(s[i])
  {
    if k == 0 then [] else Decimal(n / 10, k - 1) + [48 + n % 10]
  }

  function Pow10(k: nat): nat { if k == 0 then 1 else 10 * Pow10(k - 1) }

  lemma {:induction false} Digits10Append(s: seq<Byte>, n: nat, d: Byte)
    requires IsDigit(d) && forall i :: 0 <= i < |s| ==> IsDigit(s[i])
    ensures Digits10(s + [d], n) == 10 * Digits10(s, n) + (d - 48)
  {
    if s == [] {
      assert ([d])[1..] == [];
    } else {
      assert (s + [d])[1..] == s[1..] + [d];
      Digits10Append(s[1..], 10 * n + (s[0] - 48), d);
    }
  }

  lemma {:induction false} Digits10Decimal(n: nat, k: nat)
    requires n < Pow10(k)
    ensures Digits10(Decimal(n, k), 0) == n
  {
    if k > 0 {
      Digits10Decimal(n / 10, k - 1);
      Digits10Append(Decimal(n / 10, k - 1), 0, 48 + n % 10);
    }
  }

  /** Reading back a port printed with five digits. */
  lemma AtoiDecimal(p: Word16)
    ensures Atoi(Decimal(p, 5)) == p
  {
    assert Pow10(5) == 100000 by {
      assert Pow10(2) == 100;
    }
    Digits10Decimal(p, 5);
    assert IsDigit(Decimal(p, 5)[0]);
  }

  /** The number decimal digits write. */
  function Number(digits: seq<Byte>): int {
    if digits == [] then 0 else 10 * Number(digits[..|digits| - 1]) + digits[|digits| - 1] - 48
  }

  lemma {:induction false} DigitsNumber(digits: seq<Byte>)
    requires forall i :: 0 <= i < |digits| ==> 48 <= digits[i] <= 57
    ensures Digits10(digits, 0) == Number(digits)
  {
    if digits != [] {
      var init := digits[..|digits| - 1];
      DigitsNumber(init);
      Digits10Append(init, 0, digits[|digits| - 1]);
      assert digits == init + [digits[|digits| - 1]];
    }
  }

  lemma {:induction false} DigitsStop(digits: seq<Byte>, tail: seq<Byte>, n: nat)
    requires forall i :: 0 <= i < |digits| ==> 48 <= digits[i] <= 57
    requires tail == [] || !(48 <= tail[0] <= 57)
    ensures Digits10(digits + tail, n) == Digits10(digits, n)
  {
    if digits == [] {
      assert digits + tail == tail;
    } else {
      assert (digits + tail)[1..] == digits[1..] + tail;
      DigitsStop(digits[1..], tail, 10 * n + (digits[0] - 48));
    }
  }

  lemma NumberBefore(digits: seq<Byte>, tail: seq<Byte>)
    requires forall i :: 0 <= i < |digits| ==> 48 <= digits[i] <= 57
    requires tail == [] || !(48 <= tail[0] <= 57)
    ensures Digits10(digits + tail, 0) == Number(digits)
  {
    DigitsNumber(digits);
    DigitsStop(digits, tail, 0);
  }

  /** What `atoi` makes of blanks, one sign or none, digits, and a rest that continues none of them. */
  lemma {:induction false} AtoiReads(blanks: seq<Byte>, sign: seq<Byte>, digits: seq<Byte>, tail: seq<Byte>)
    requires forall i :: 0 <= i < |blanks| ==> blanks[i] == 32 || 9 <= blanks[i] <= 13
    requires sign == [] || sign == [43] || sign == [45]
    requires forall i :: 0 <= i < |digits| ==> 48 <= digits[i] <= 57
    requires tail == [] || !(48 <= tail[0] <= 57)
    requires sign == [] && digits == [] && tail != [] ==> !(tail[0] in [9, 10, 11, 12, 13, 32, 43, 45])
    ensures Atoi(blanks + (sign + (digits + tail))) == if sign == [45] then -Number(digits) else Number(digits)
    decreases |blanks|
  {
    var body := sign + (digits + tail);
    var all := blanks + body;
    NumberBefore(digits, tail);
    if blanks != [] {
      assert all[1..] == blanks[1..] + body;
      AtoiReads(blanks[1..], sign, digits, tail);
    } else {
      assert all == body;
      if sign != [] {
        assert all[1..] == digits + tail;
      } else {
        assert all == digits + tail;
        if digits != [] {
          assert all[0] == digits[0];
        } else {
          assert all == tail;
        }
      }
    }
  }

  // --- Frames forged by the sender ------------------------------------------------------------------

  /** The buffer after a frame arrived: what was there before shows beyond the end of a short frame. */
  function Arrived(buf: seq<Byte>, frame: seq<Byte>): (r: seq<Byte>)
    requires |buf| == BUF_SIZE
    ensures |r| == BUF_SIZE
  {
    if |frame| <= BUF_SIZE then Patch(buf, 0, frame) else frame[..BUF_SIZE]
  }

  lemma SliceOfPrefix(r: seq<Byte>, s: seq<Byte>, n: nat, a: nat, b: nat)
    requires a <= b <= n && n <= |r| && n <= |s| && r[..n] == s[..n]
    ensures r[a..b] == s[a..b]
  {
    assert r[a..b] == r[..n][a..b];
    assert s[a..b] == s[..n][a..b];
  }

  lemma ArrivedPrefix(buf: seq<Byte>, frame: seq<Byte>, n: nat)
    requires |buf| == BUF_SIZE && n <= |frame| && n <= BUF_SIZE
    ensures Arrived(buf, frame)[..n] == frame[..n]
  {
  }

  lemma ForgedHeaderBytes(dstMac: seq<Byte>, srcMac: seq<Byte>, f: Flow, payload: seq<Byte>)
    requires |dstMac| == |srcMac| == 6
    ensures var frame := Frame(dstMac, srcMac, ForgedPacket(f, payload));
      && frame[12..15] == [0x08, 0x00, 0x45] && frame[23..24] == [UDP_PROTO]
      && frame[38..40] == Be16(UdpLen(payload))
      && frame[42..42 + |payload|] == payload
  {
    var packet := ForgedPacket(f, payload);
    var frame := Frame(dstMac, srcMac, packet);
    assert frame[14..42 + |payload|] == packet;
    assert packet[0] == 0x45 && packet[9] == UDP_PROTO && packet[24..26] == Be16(UdpLen(payload));
    assert packet[28..] == payload;
  }

  /**
   The walk on a forged frame finds the payload and its exact length, never the padding, whatever
   the buffer held before; of a frame longer than the buffer it still finds start and length.
   */
  lemma FrameRoundTrip(buf: seq<Byte>, dstMac: seq<Byte>, srcMac: seq<Byte>, f: Flow, payload: seq<Byte>)
    requires |buf| == BUF_SIZE && |dstMac| == |srcMac| == 6 && |payload| <= 65507
    ensures var r := Arrived(buf, Frame(dstMac, srcMac, ForgedPacket(f, payload)));
      && HeaderWalk(r) == Some(Payload(42, |payload|))
      && var n := if 42 + |payload| <= BUF_SIZE then |payload| else BUF_SIZE - 42;
         r[42..42 + n] == payload[..n]
  {
    ForgedHeaderBytes(dstMac, srcMac, f, payload);
    WalkOfFrame(buf, Frame(dstMac, srcMac, ForgedPacket(f, payload)), payload);
  }

  lemma WalkOfFrame(buf: seq<Byte>, frame: seq<Byte>, payload: seq<Byte>)
    requires |buf| == BUF_SIZE && |payload| <= 65507 && 60 <= |frame| && 42 + |payload| <= |frame|
    requires frame[12..15] == [0x08, 0x00, 0x45] && frame[23..24] == [UDP_PROTO]
    requires frame[38..40] == Be16(UdpLen(payload)) && frame[42..42 + |payload|] == payload
    ensures var r := Arrived(buf, frame);
      && HeaderWalk(r) == Some(Payload(42, |payload|))
      && var n := if 42 + |payload| <= BUF_SIZE then |payload| else BUF_SIZE - 42;
         r[42..42 + n] == payload[..n]
  {
    var r := Arrived(buf, frame);
    var n := if 42 + |payload| <= BUF_SIZE then 42 + |payload| else BUF_SIZE;
    ArrivedPrefix(buf, frame, n);
    SliceOfPrefix(r, frame, n, 12, 15);
    SliceOfPrefix(r, frame, n, 23, 24);
    SliceOfPrefix(r, frame, n, 38, 40);
    SliceOfPrefix(r, frame, n, 42, n);
    assert frame[42..n] == frame[42..42 + |payload|][..n - 42];
    assert r[42..42 + (n - 42)] == payload[..n - 42];
    WalkOf(r, UdpLen(payload));
  }

  lemma WalkOf(r: seq<Byte>, udpLen: Word16)
    requires |r| == BUF_SIZE && udpLen >= 8
    requires r[12..15] == [0x08, 0x00, 0x45] && r[23..24] == [UDP_PROTO] && r[38..40] == Be16(udpLen)
    ensures HeaderWalk(r) == Some(Payload(42, udpLen - 8))
  {
    assert r[12] == r[12..15][0] && r[13] == r[12..15][1] && r[14] == r[12..15][2];
    assert r[23] == r[23..24][0];
    assert r[38] == r[38..40][0] && r[39] == r[38..40][1];
  }

  /** The payload begins with P, O, R, T and the five digits of `p`. */
  predicate Names(payload: seq<Byte>, p: Word16) {
    && 9 <= |payload|
    && payload[0] == 0x50 && payload[1] == 0x4F && payload[2] == 0x52 && payload[3] == 0x54
    && payload[4..9] == Decimal(p, 5)
  }

  /** A payload beginning PORTddddd with the digits of `p` is reported as `p`, whatever follows it. */
  lemma ForgedReport(buf: seq<Byte>, dstMac: seq<Byte>, srcMac: seq<Byte>, f: Flow, payload: seq<Byte>, p: Word16)
    requires |buf| == 2048 && |dstMac| == |srcMac| == 6 && |payload| <= 65507 && Names(payload, p)
    ensures Report(Arrived(buf, Frame(dstMac, srcMac, ForgedPacket(f, payload)))) == Some(p)
  {
    FrameRoundTrip(buf, dstMac, srcMac, f, payload);
    SliceFront(Arrived(buf, Frame(dstMac, srcMac, ForgedPacket(f, payload))), payload);
    ReportOf(Arrived(buf, Frame(dstMac, srcMac, ForgedPacket(f, payload))), payload, p);
  }

  lemma SliceFront(r: seq<Byte>, payload: seq<Byte>)
    requires |r| == BUF_SIZE && 9 <= |payload|
    requires var n := if 42 + |payload| <= BUF_SIZE then |payload| else BUF_SIZE - 42;
      r[42..42 + n] == payload[..n]
    ensures r[42..51] == payload[..9]
  {
    var n := if 42 + |payload| <= BUF_SIZE then |payload| else BUF_SIZE - 42;
    assert r[42..51] == r[42..42 + n][..9] == payload[..n][..9];
  }

  lemma ReportOf(r: seq<Byte>, payload: seq<Byte>, p: Word16)
    requires |r| == BUF_SIZE && 9 <= |payload| && payload[..4] == PREFIX && payload[4..9] == Decimal(p, 5)
    requires HeaderWalk(r) == Some(Payload(42, |payload|))
    requires r[42..51] == payload[..9]
    ensures Report(r) == Some(p)
  {
    assert r[42..46] == r[42..51][..4] == payload[..9][..4];
    assert r[46..51] == r[42..51][4..] == payload[..9][4..];
    AtoiDecimal(p);
  }

  // --- The listener ---------------------------------------------------------------------------------

  lemma LoadArrived(buf: seq<Byte>, frame: seq<Byte>, len: nat)
    requires |buf| == BUF_SIZE && len == if |frame| <= BUF_SIZE then |frame| else BUF_SIZE
    ensures Patch(buf, 0, frame[..len]) == Arrived(buf, frame)
  {
    if |frame| <= BUF_SIZE {
      assert frame[..len] == frame;
    }
  }

  /** What one round reports, when `buf` is the buffer after the frame arrived; an empty frame is a failed receive. */
  function Heard(frame: seq<Byte>, buf: seq<Byte>): Option<Word16>
    requires |buf| == BUF_SIZE
  {
    if frame == [] then None else Report(buf)
  }

  /** What is heard round by round while `frames` arrive one after the other in the same buffer. */
  function Hearings(buf: seq<Byte>, frames: seq<seq<Byte>>): (hs: seq<Option<Word16>>)
    requires |buf| == BUF_SIZE
    ensures |hs| == |frames|
    decreases |frames|
  {
    if frames == [] then []
    else
      var r := Arrived(buf, frames[0]);
      [Heard(frames[0], r)] + Hearings(r, frames[1..])
  }

  lemma HearingsNext(buf: seq<Byte>, frames: seq<seq<Byte>>, i: nat)
    requires |buf| == BUF_SIZE && i < |frames|
    ensures var r := Arrived(buf, frames[i]);
      Hearings(buf, frames[i..]) == [Heard(frames[i], r)] + Hearings(r, frames[i + 1..])
  {
    assert frames[i..][0] == frames[i] && frames[i..][1..] == frames[i + 1..];
  }

  /** The ports heard in the first `n` rounds, in order. */
  function Somes(hs: seq<Option<Word16>>, n: nat): seq<Word16>
    requires n <= |hs|
  {
    if n == 0 then []
    else Somes(hs, n - 1) + match hs[n - 1] case None => [] case Some(p) => [p]
  }

  /** The ports reported while `frames` arrive. */
  function Reports(buf: seq<Byte>, frames: seq<seq<Byte>>): seq<Word16>
    requires |buf| == BUF_SIZE
  {
    Somes(Hearings(buf, frames), |frames|)
  }

  datatype Entry = Entry(port: Word16, timestamp: nat, seqIndex: Word32)

  /** The sequence numbers of a log count up from zero, modulo 2^32. */
  ghost predicate Numbered(log: seq<Entry>) {
    forall k :: 0 <= k < |log| ==> log[k].seqIndex == k % 0x1_0000_0000
  }

  lemma NumberedNext(log: seq<Entry>, e: Entry)
    requires Numbered(log) && e.seqIndex == |log| % 0x1_0000_0000
    ensures Numbered(log + [e]) && (e.seqIndex + 1) % 0x1_0000_0000 == |log + [e]| % 0x1_0000_0000
  {
  }

  /** What a round appends to a log of `count` entries. */
  function EntryOf(heard: Option<Word16>, time: nat, count: nat): seq<Entry> {
    match heard
    case None => []
    case Some(p) => [Entry(p, time, count % 0x1_0000_0000)]
  }

  /** The log after `n` rounds: every port heard is appended with its time and the next number. */
  function LogAfter(log: seq<Entry>, hs: seq<Option<Word16>>, times: seq<nat>, n: nat): seq<Entry>
    requires n <= |hs| == |times|
  {
    if n == 0 then log
    else
      var l := LogAfter(log, hs, times, n - 1);
      l + EntryOf(hs[n - 1], times[n - 1], |l|)
  }

  /** Entries are only appended: the round that hears a port leaves port, time and number behind for good. */
  lemma {:induction false} LogEntry(log: seq<Entry>, hs: seq<Option<Word16>>, times: seq<nat>, n: nat, k: nat)
    requires k < n <= |hs| == |times| && hs[k].Some?
    ensures var at := |log| + |Somes(hs, k)|;
            var after := LogAfter(log, hs, times, n);
      && log <= after && at < |after|
      && after[at].port == hs[k].value && after[at].timestamp == times[k] && after[at].seqIndex == at % 0x1_0000_0000
  {
    LoggedPorts(log, hs, times, k);
    LogGrows(log, hs, times, n - 1);
    if k < n - 1 {
      LogEntry(log, hs, times, n - 1, k);
    }
  }

  lemma {:induction false} LogGrows(log: seq<Entry>, hs: seq<Option<Word16>>, times: seq<nat>, n: nat)
    requires n <= |hs| == |times|
    ensures log <= LogAfter(log, hs, times, n)
  {
    if n > 0 {
      LogGrows(log, hs, times, n - 1);
    }
  }

  /** The port column of the log grows by what the run reports. */
  lemma {:induction false} LoggedPorts(log: seq<Entry>, hs: seq<Option<Word16>>, times: seq<nat>, n: nat)
    requires n <= |hs| == |times|
    ensures Ports(LogAfter(log, hs, times, n)) == Ports(log) + Somes(hs, n)
  {
    if n > 0 {
      LoggedPorts(log, hs, times, n - 1);
      var l := LogAfter(log, hs, times, n - 1);
      PortsConcat(l, EntryOf(hs[n - 1], times[n - 1], |l|));
    }
  }

  lemma PortsConcat(x: seq<Entry>, y: seq<Entry>)
    ensures Ports(x + y) == Ports(x) + Ports(y)
  {
  }

  /** The port column of a log. */
  function Ports(log: seq<Entry>): (ports: seq<Word16>)
    ensures |ports| == |log|
  {
    seq(|log|, i requires 0 <= i < |log| => log[i].port)
  }

  class Listener {
    var buf: array<Byte>
    var seqIndex: Word32
    var log: seq<Entry>

    ghost predicate Valid()
      reads this
    {
      && buf.Length == BUF_SIZE
      && seqIndex == |log| % 0x1_0000_0000
      && Numbered(log)
    }

    constructor ()
      ensures Valid() && fresh(buf) && log == []
    {
      buf := new Byte[BUF_SIZE];
      seqIndex := 0;
      log := [];
    }

    /** The header walk and the payload test on whatever the buffer holds. */
    method Decode() returns (r: Option<Word16>)
      requires buf.Length == BUF_SIZE
      ensures r == Report(buf[..])
    {
      if FromBe16(buf[12], buf[13]) != 0x0800 {
        return None;
      }
      if buf[23] != UDP_PROTO {
        return None;
      }
      var iphdrLen := buf[14] % 16 * 4;
      var udp := 14 + iphdrLen;
      var payload := udp + 8;
      var udpLen: int := FromBe16(buf[udp + 4], buf[udp + 5]);
      var payloadLen := (udpLen - 8) % 0x1_0000_0000_0000_0000;
      assert HeaderWalk(buf[..]) == Some(Payload(payload, payloadLen));
      assert buf[payload..payload + 4] == buf[..][payload..payload + 4];
      assert buf[payload + 4..payload + 9] == buf[..][payload + 4..payload + 9];
      if payloadLen >= 9 && buf[payload..payload + 4] == PREFIX {
        var reported := Atoi(buf[payload + 4..payload + 9]);
        if 0 <= reported < 65536 {
          return Some(reported);
        }
      }
      return None;
    }

    /** `recvfrom`: the front of the buffer is overwritten; a frame that is too long is cut. */
    method Load(frame: seq<Byte>) returns (len: nat)
      requires buf.Length == BUF_SIZE
      modifies buf
      ensures buf[..] == Arrived(old(buf[..]), frame)
      ensures len == 0 <==> frame == []
    {
      len := if |frame| <= BUF_SIZE then |frame| else BUF_SIZE;
      LoadArrived(buf[..], frame, len);
      Store(buf, 0, frame[..len]);
    }

    method Record(port: Word16, now: nat)
      requires Valid()
      modifies this`seqIndex, this`log
      ensures Valid()
      ensures log == old(log) + [Entry(port, now, old(seqIndex))]
    {
      NumberedNext(log, Entry(port, now, seqIndex));
      log := log + [Entry(port, now, seqIndex)];
      seqIndex := (seqIndex + 1) % 0x1_0000_0000;
    }

    /** One round of the endless loop; an empty `frame` stands for a failed receive. */
    method Receive(frame: seq<Byte>, now: nat)
      requires Valid()
      modifies this`seqIndex, this`log, buf
      ensures Valid()
      ensures buf[..] == Arrived(old(buf[..]), frame)
      ensures log == old(log) + EntryOf(Heard(frame, buf[..]), now, |old(log)|)
    {
      var len := Load(frame);
      if len == 0 {
        return;
      }
      var reported := Decode();
      if reported.Some? {
        Record(reported.value, now);
      }
    }

    /** The endless loop, as far as `frames` goes. */
    method Listen(frames: seq<seq<Byte>>, times: seq<nat>)
      requires Valid() && |times| == |frames|
      modifies this`seqIndex, this`log, buf
      ensures Valid()
      ensures log == LogAfter(old(log), Hearings(old(buf[..]), frames), times, |frames|)
    {
      ghost var b, before, hs := buf, log, Hearings(buf[..], frames);
      var i := 0;
      assert frames[0..] == frames && hs[0..] == hs;
      while i < |frames|
        invariant 0 <= i <= |frames| && Valid() && buf == b
        invariant Hearings(buf[..], frames[i..]) == hs[i..]
        invariant log == LogAfter(before, hs, times, i)
      {
        HearingsNext(buf[..], frames, i);
        assert hs[i] == hs[i..][0] && hs[i + 1..] == hs[i..][1..];
        Receive(frames[i], times[i]);
        i := i + 1;
      }
    }
  }
}
