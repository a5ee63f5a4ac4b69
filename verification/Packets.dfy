/**
 UDP over IPv4 over Ethernet, forged byte by byte into a buffer, against the header layouts of
 section 3.1 of RFC 791 and of RFC 768.
 */
module Packets {
  import opened Bytes
  import opened Common
  import opened OnesComplement

  const UDP_PROTO: Byte := 17
  const MIN_FRAME := 60

  /** What one packet is forged from. */
  datatype Flow = Flow(srcIp: Word32, srcPort: Word16, dstIp: Word32, dstPort: Word16)

  // --- The layouts ----------------------------------------------------------------------------------

  function IpHeader(f: Flow, totalLen: Word16, ck: seq<Byte>): (h: seq<Byte>)
    requires |ck| == 2
    ensures |h| == 20
  {
    [0x45, 0] + Be16(totalLen) + [0, 0, 0, 0, 64, UDP_PROTO] + ck + Be32(f.srcIp) + Be32(f.dstIp)
  }

  function UdpHeader(f: Flow, udpLen: Word16, ck: seq<Byte>): (h: seq<Byte>)
    requires |ck| == 2
    ensures |h| == 8
  {
    Be16(f.srcPort) + Be16(f.dstPort) + Be16(udpLen) + ck
  }

  function PseudoHeader(f: Flow, udpLen: Word16): (h: seq<Byte>)
    ensures |h| == 12
  {
    Be32(f.srcIp) + Be32(f.dstIp) + [0, UDP_PROTO] + Be16(udpLen)
  }

  /** Lengths are cut to sixteen bits, as the casts in the forger do. */
  function UdpLen(payload: seq<Byte>): Word16 { (8 + |payload|) % 0x1_0000 }

  function TotalLen(payload: seq<Byte>): Word16 { (28 + |payload|) % 0x1_0000 }

  /** The pseudo-header and the segment with a given checksum field: what the UDP checksum covers. */
  function UdpCovered(f: Flow, payload: seq<Byte>, ck: seq<Byte>): (s: seq<Byte>)
    requires |ck| == 2
    ensures |s| == 20 + |payload|
  {
    PseudoHeader(f, UdpLen(payload)) + (UdpHeader(f, UdpLen(payload), ck) + payload)
  }

  function Assemble(f: Flow, payload: seq<Byte>, ipCk: seq<Byte>, udpCk: seq<Byte>): (s: seq<Byte>)
    requires |ipCk| == |udpCk| == 2
    ensures |s| == 28 + |payload|
  {
    IpHeader(f, TotalLen(payload), ipCk) + UdpHeader(f, UdpLen(payload), udpCk) + payload
  }

  /** The packet as the standards define it: both checksums big-endian, the UDP one never zero. */
  function RfcPacket(f: Flow, payload: seq<Byte>): (s: seq<Byte>) {
    Assemble(f, payload,
             Be16(RfcChecksum(IpHeader(f, TotalLen(payload), [0, 0]))),
             Be16(NeverZero(RfcChecksum(UdpCovered(f, payload, [0, 0])))))
  }

  /** An Ethernet frame around an IPv4 packet, padded with zeros to the minimum length. */
  function Frame(dstMac: seq<Byte>, srcMac: seq<Byte>, packet: seq<Byte>): (s: seq<Byte>)
    requires |dstMac| == |srcMac| == 6
    ensures |s| == if 14 + |packet| < MIN_FRAME then MIN_FRAME else 14 + |packet|
  {
    var bare := dstMac + srcMac + [0x08, 0x00] + packet;
    if |bare| < MIN_FRAME then bare + Zeros(MIN_FRAME - |bare|) else bare
  }

  // --- The layouts, byte by byte --------------------------------------------------------------------

  /** The 32-bit number at `at`, most significant byte first. */
  predicate Holds32(s: seq<Byte>, at: nat, w: Word32)
    requires at + 4 <= |s|
  {
    0x100_0000 * (s[at] as int) + 0x1_0000 * (s[at + 1] as int) + 0x100 * (s[at + 2] as int) + s[at + 3] == w
  }

  /** The 16-bit number at `at`, most significant byte first. */
  predicate Holds16(s: seq<Byte>, at: nat, w: Word16)
    requires at + 2 <= |s|
  {
    0x100 * (s[at] as int) + s[at + 1] == w
  }

  lemma SliceHolds32(s: seq<Byte>, at: nat, w: Word32)
    requires at + 4 <= |s| && s[at..at + 4] == Be32(w)
    ensures Holds32(s, at, w)
  {
    var b := s[at..at + 4];
    assert s[at] == b[0] && s[at + 1] == b[1] && s[at + 2] == b[2] && s[at + 3] == b[3];
  }

  lemma SliceHolds16(s: seq<Byte>, at: nat, w: Word16)
    requires at + 2 <= |s| && s[at..at + 2] == Be16(w)
    ensures Holds16(s, at, w)
  {
    var b := s[at..at + 2];
    assert s[at] == b[0] && s[at + 1] == b[1];
  }

  lemma AssembledFields(f: Flow, payload: seq<Byte>, ipCk: seq<Byte>, udpCk: seq<Byte>)
    requires |ipCk| == |udpCk| == 2
    ensures var p := Assemble(f, payload, ipCk, udpCk);
      && p[0] == 0x45 && p[1] == 0 && p[4..8] == [0, 0, 0, 0] && p[8] == 64 && p[9] == 17
      && Holds16(p, 2, (28 + |payload|) % 0x1_0000) && Holds32(p, 12, f.srcIp) && Holds32(p, 16, f.dstIp)
      && Holds16(p, 20, f.srcPort) && Holds16(p, 22, f.dstPort) && Holds16(p, 24, (8 + |payload|) % 0x1_0000)
      && p[10..12] == ipCk && p[26..28] == udpCk && p[28..] == payload
  {
    var p := Assemble(f, payload, ipCk, udpCk);
    var h, u := IpHeader(f, TotalLen(payload), ipCk), UdpHeader(f, UdpLen(payload), udpCk);
    assert p[..20] == h && p[20..28] == u;
    assert p[2..4] == h[2..4] == Be16(TotalLen(payload)) && p[12..16] == h[12..16] == Be32(f.srcIp);
    assert p[16..20] == h[16..20] == Be32(f.dstIp);
    assert p[20..22] == u[..2] == Be16(f.srcPort) && p[22..24] == u[2..4] == Be16(f.dstPort);
    assert p[24..26] == u[4..6] == Be16(UdpLen(payload));
    SliceHolds16(p, 2, TotalLen(payload));
    SliceHolds32(p, 12, f.srcIp);
    SliceHolds32(p, 16, f.dstIp);
    SliceHolds16(p, 20, f.srcPort);
    SliceHolds16(p, 22, f.dstPort);
    SliceHolds16(p, 24, UdpLen(payload));
  }

  /** Every field of the packet, the code's and the standards', at its place: addresses and ports in particular. */
  lemma PacketFields(f: Flow, payload: seq<Byte>, p: seq<Byte>)
    requires p == ForgedPacket(f, payload) || p == RfcPacket(f, payload)
    ensures |p| == 28 + |payload|
    ensures p[0] == 0x45 && p[1] == 0 && p[4..8] == [0, 0, 0, 0] && p[8] == 64 && p[9] == 17
    ensures Holds16(p, 2, (28 + |payload|) % 0x1_0000) && Holds32(p, 12, f.srcIp) && Holds32(p, 16, f.dstIp)
    ensures Holds16(p, 20, f.srcPort) && Holds16(p, 22, f.dstPort) && Holds16(p, 24, (8 + |payload|) % 0x1_0000)
    ensures p[28..] == payload
  {
    var ih, z := IpHeader(f, TotalLen(payload), [0, 0]), UdpCovered(f, payload, [0, 0]);
    AssembledFields(f, payload, Le16(Complement(ih)), Le16(NeverZero(Complement(z))));
    AssembledFields(f, payload, Be16(RfcChecksum(ih)), Be16(NeverZero(RfcChecksum(z))));
  }

  /** The header checksum, unlike the UDP one, is stored as it comes out, zero included. */
  lemma IpChecksumField(f: Flow, payload: seq<Byte>, p: seq<Byte>)
    requires p == ForgedPacket(f, payload) || p == RfcPacket(f, payload)
    ensures |p| == 28 + |payload|
    ensures p[10..12] == Be16(0xFFFF - RfcSum(p[..10] + [0, 0] + p[12..20]))
  {
    var ih, z := IpHeader(f, TotalLen(payload), [0, 0]), UdpCovered(f, payload, [0, 0]);
    ByteOrderIndependence(ih);
    BlankedHeader(f, payload, Le16(Complement(ih)), Le16(NeverZero(Complement(z))));
    BlankedHeader(f, payload, Be16(RfcChecksum(ih)), Be16(NeverZero(RfcChecksum(z))));
  }

  lemma BlankedHeader(f: Flow, payload: seq<Byte>, ipCk: seq<Byte>, udpCk: seq<Byte>)
    requires |ipCk| == |udpCk| == 2
    ensures var p := Assemble(f, payload, ipCk, udpCk);
      p[..10] + [0, 0] + p[12..20] == IpHeader(f, TotalLen(payload), [0, 0]) && p[10..12] == ipCk
  {
    var p, h := Assemble(f, payload, ipCk, udpCk), IpHeader(f, TotalLen(payload), ipCk);
    assert p[..20] == h;
    assert p[..10] == h[..10] && p[12..20] == h[12..20];
  }

  /** What the UDP checksum covers: both addresses, a zero, the protocol, the length, and the segment. */
  lemma CoveredFields(f: Flow, payload: seq<Byte>, ck: seq<Byte>)
    requires |ck| == 2
    ensures var s := UdpCovered(f, payload, ck);
      && Holds32(s, 0, f.srcIp) && Holds32(s, 4, f.dstIp) && s[8] == 0 && s[9] == 17
      && Holds16(s, 10, (8 + |payload|) % 0x1_0000)
      && Holds16(s, 12, f.srcPort) && Holds16(s, 14, f.dstPort) && Holds16(s, 16, (8 + |payload|) % 0x1_0000)
      && s[18..20] == ck && s[20..] == payload
  {
    var s, u := UdpCovered(f, payload, ck), UdpHeader(f, UdpLen(payload), ck);
    var h := PseudoHeader(f, UdpLen(payload));
    assert s[..12] == h && s[12..20] == u;
    assert s[..4] == h[..4] == Be32(f.srcIp) && s[4..8] == h[4..8] == Be32(f.dstIp);
    assert s[10..12] == h[10..12] == Be16(UdpLen(payload));
    assert s[12..14] == u[..2] == Be16(f.srcPort) && s[14..16] == u[2..4] == Be16(f.dstPort);
    assert s[16..18] == u[4..6] == Be16(UdpLen(payload)) && s[18..20] == u[6..8] == ck;
    SliceHolds32(s, 0, f.srcIp);
    SliceHolds32(s, 4, f.dstIp);
    SliceHolds16(s, 10, UdpLen(payload));
    SliceHolds16(s, 12, f.srcPort);
    SliceHolds16(s, 14, f.dstPort);
    SliceHolds16(s, 16, UdpLen(payload));
  }

  /** A frame: destination, source, type, packet, and zeros up to sixty bytes. */
  lemma FrameFields(dstMac: seq<Byte>, srcMac: seq<Byte>, packet: seq<Byte>)
    requires |dstMac| == |srcMac| == 6
    ensures var s := Frame(dstMac, srcMac, packet);
      && |s| == (if 14 + |packet| < 60 then 60 else 14 + |packet|)
      && s[..6] == dstMac && s[6..12] == srcMac && s[12] == 0x08 && s[13] == 0x00
      && s[14..14 + |packet|] == packet
      && forall i :: 14 + |packet| <= i < |s| ==> s[i] == 0
  {
  }

  // --- The packet verifies at the receiver ----------------------------------------------------------

  /** Where the pieces of an assembled packet lie, and what filling in a checksum field does to each. */
  lemma Layout(f: Flow, payload: seq<Byte>, ipCk: seq<Byte>, udpCk: seq<Byte>)
    requires |ipCk| == |udpCk| == 2
    ensures Assemble(f, payload, ipCk, udpCk)[..20] == IpHeader(f, TotalLen(payload), ipCk)
    ensures Assemble(f, payload, ipCk, udpCk)[26..28] == udpCk
    ensures PseudoHeader(f, UdpLen(payload)) + Assemble(f, payload, ipCk, udpCk)[20..] == UdpCovered(f, payload, udpCk)
    ensures Patch(IpHeader(f, TotalLen(payload), [0, 0]), 10, ipCk) == IpHeader(f, TotalLen(payload), ipCk)
    ensures Patch(UdpHeader(f, UdpLen(payload), [0, 0]), 6, udpCk) == UdpHeader(f, UdpLen(payload), udpCk)
  {
    assert Assemble(f, payload, ipCk, udpCk)[20..] == UdpHeader(f, UdpLen(payload), udpCk) + payload;
  }

  lemma CoveredField(f: Flow, payload: seq<Byte>, udpCk: seq<Byte>)
    requires |udpCk| == 2
    ensures Patch(UdpCovered(f, payload, [0, 0]), 18, udpCk) == UdpCovered(f, payload, udpCk)
    ensures UdpCovered(f, payload, [0, 0])[18] == UdpCovered(f, payload, [0, 0])[19] == 0
  {
    var uh := UdpHeader(f, UdpLen(payload), [0, 0]);
    assert Patch(uh, 6, udpCk) == UdpHeader(f, UdpLen(payload), udpCk);
    assert Patch(UdpCovered(f, payload, [0, 0]), 18, udpCk)
        == PseudoHeader(f, UdpLen(payload)) + (Patch(uh, 6, udpCk) + payload);
  }

  /** A receiver's sum over the written IP header comes out as zero. */
  lemma IpHeaderVerifies(f: Flow, payload: seq<Byte>)
    ensures Complement(RfcPacket(f, payload)[..20]) == 0
  {
    var z := IpHeader(f, TotalLen(payload), [0, 0]);
    var ck := Complement(z);
    ByteOrderIndependence(z);
    StoredChecksumVerifies(z, 10, ck);
    Layout(f, payload, Le16(ck), Be16(NeverZero(RfcChecksum(UdpCovered(f, payload, [0, 0])))));
  }

  /** A receiver's sum over pseudo-header and segment comes out as zero, and the field says a checksum was computed. */
  lemma UdpSegmentVerifies(f: Flow, payload: seq<Byte>)
    requires |payload| <= 131054
    ensures Complement(PseudoHeader(f, UdpLen(payload)) + RfcPacket(f, payload)[20..]) == 0
    ensures RfcPacket(f, payload)[26..28] != [0, 0]
  {
    var z := UdpCovered(f, payload, [0, 0]);
    ByteOrderIndependence(z);
    var rfc := NeverZero(RfcChecksum(z));
    ZeroSwaps(RfcChecksum(z));
    BeIsSwappedLe(rfc);
    CoveredField(f, payload, Be16(rfc));
    StoredChecksumVerifies(z, 18, Swap(rfc));
    Layout(f, payload, Be16(RfcChecksum(IpHeader(f, TotalLen(payload), [0, 0]))), Be16(rfc));
  }

  lemma ZeroSwaps(w: Word16)
    ensures Swap(NeverZero(w)) == NeverZero(Swap(w))
  {
  }

  /** The length fields are the true lengths exactly up to the largest UDP payload. */
  lemma LengthFieldsExactIff(payload: seq<Byte>)
    ensures UdpLen(payload) == 8 + |payload| && TotalLen(payload) == 28 + |payload| <==> |payload| <= 65507
  {
  }

  // --- The forger -----------------------------------------------------------------------------------

  method WriteUdpHeader(buf: array<Byte>, at: nat, f: Flow, udpLen: Word16)
    requires at + 8 <= buf.Length
    modifies buf
    ensures buf[..] == Patch(old(buf[..]), at, UdpHeader(f, udpLen, [0, 0]))
  {
    ghost var s := buf[..];
    PutBe16(buf, at, f.srcPort);
    PutBe16(buf, at + 2, f.dstPort);
    PatchNext(s, at, Be16(f.srcPort), Be16(f.dstPort));
    PutBe16(buf, at + 4, udpLen);
    PatchNext(s, at, Be16(f.srcPort) + Be16(f.dstPort), Be16(udpLen));
    PutLe16(buf, at + 6, 0);
    PatchNext(s, at, Be16(f.srcPort) + Be16(f.dstPort) + Be16(udpLen), Le16(0));
  }

  method WriteIpHeader(buf: array<Byte>, at: nat, f: Flow, totalLen: Word16)
    requires at + 20 <= buf.Length
    modifies buf
    ensures buf[..] == Patch(old(buf[..]), at, IpHeader(f, totalLen, [0, 0]))
  {
    ghost var s := buf[..];
    ghost var h := IpHeader(f, totalLen, [0, 0]);
    buf[at], buf[at + 1] := 0x45, 0;
    assert buf[..] == Patch(s, at, h[..2]);
    PutBe16(buf, at + 2, totalLen);
    PatchNext(s, at, h[..2], Be16(totalLen));
    PutBe16(buf, at + 4, 0);
    PatchNext(s, at, h[..2] + Be16(totalLen), Be16(0));
    PutBe16(buf, at + 6, 0);
    PatchNext(s, at, h[..2] + Be16(totalLen) + Be16(0), Be16(0));
    assert h[..8] == h[..2] + Be16(totalLen) + Be16(0) + Be16(0);
    WriteIpHeaderTail(buf, at, f, s, h);
  }

  /** The fields from the time to live on. */
  method WriteIpHeaderTail(buf: array<Byte>, at: nat, f: Flow, ghost s: seq<Byte>, ghost h: seq<Byte>)
    requires at + 20 <= buf.Length == |s| && |h| == 20
    requires buf[..] == Patch(s, at, h[..8])
    requires h[8..] == [64, UDP_PROTO, 0, 0] + Be32(f.srcIp) + Be32(f.dstIp)
    modifies buf
    ensures buf[..] == Patch(s, at, h)
  {
    buf[at + 8], buf[at + 9] := 64, UDP_PROTO;
    PatchNext(s, at, h[..8], [64, UDP_PROTO]);
    assert buf[..] == Patch(s, at, h[..8] + [64, UDP_PROTO]);
    PutLe16(buf, at + 10, 0);
    PatchNext(s, at, h[..8] + [64, UDP_PROTO], Le16(0));
    PutBe32(buf, at + 12, f.srcIp);
    PatchNext(s, at, h[..8] + [64, UDP_PROTO] + Le16(0), Be32(f.srcIp));
    PutBe32(buf, at + 16, f.dstIp);
    PatchNext(s, at, h[..8] + [64, UDP_PROTO] + Le16(0) + Be32(f.srcIp), Be32(f.dstIp));
    assert h == h[..8] + [64, UDP_PROTO] + Le16(0) + Be32(f.srcIp) + Be32(f.dstIp);
  }

  /** The packet as the code assembles it: both checksums are complements of little-endian sums. */
  function ForgedPacket(f: Flow, payload: seq<Byte>): (s: seq<Byte>)
    ensures |s| == 28 + |payload|
  {
    Assemble(f, payload,
             Le16(Complement(IpHeader(f, TotalLen(payload), [0, 0]))),
             Le16(NeverZero(Complement(UdpCovered(f, payload, [0, 0])))))
  }

  /** The sum a UDP checksum covers is never zero: the protocol number is in it. */
  lemma CoveredPositive(f: Flow, payload: seq<Byte>)
    ensures LeSum(UdpCovered(f, payload, [0, 0])) > 0
  {
    var s := UdpCovered(f, payload, [0, 0]);
    assert s == s[..8] + s[8..];
    assert s[8] == 0 && s[9] == UDP_PROTO;
    LeSumConcat(s[..8], s[8..]);
    assert s[8..][0] == s[8] && s[8..][1] == s[9];
  }

  /** The field the code stores is the standard's exactly when the wraps of its accumulator are a multiple of 65535. */
  lemma StoredFieldIff(s: seq<Byte>)
    requires LeSum(s) > 0
    ensures Le16(NeverZero(Complement(s))) == Be16(NeverZero(RfcChecksum(s))) <==> Wraps(s) % 0xFFFF == 0
  {
    var acc := LeSum(s) % 0x1_0000_0000;
    FoldSwaps(s);
    ComplementSwap(RfcSum(s));
    ZeroSwaps(RfcChecksum(s));
    BeIsSwappedLe(NeverZero(RfcChecksum(s)));
    assert Le16(NeverZero(Complement(s))) == Be16(NeverZero(RfcChecksum(s))) <==>
        NeverZero(0xFFFF - Fold(acc)) == NeverZero(0xFFFF - Fold(LeSum(s))) by {
      Le16Injective(NeverZero(Complement(s)), Swap(NeverZero(RfcChecksum(s))));
    }
    FoldOfAccumulator(s);
    if acc == 0 {
      NothingLeft(s);
    }
  }

  /** When the accumulator wraps to zero, the true residue is 65535 exactly when the wraps are a multiple of it. */
  lemma NothingLeft(s: seq<Byte>)
    requires LeSum(s) > 0 && LeSum(s) % 0x1_0000_0000 == 0
    ensures Fold(LeSum(s)) == 0xFFFF <==> Wraps(s) % 0xFFFF == 0
  {
    var k := Wraps(s);
    WrapsSplit(s);
    var q := FoldQuotient(k);
    FoldUnique(LeSum(s), Fold(k), q + 65537 * k);
  }

  lemma Le16Injective(v: Word16, w: Word16)
    ensures Le16(v) == Le16(w) <==> v == w
  {
    if Le16(v) == Le16(w) {
      assert Le16(v)[0] == Le16(w)[0] && Le16(v)[1] == Le16(w)[1];
    }
  }

  /** The code's packet is the standards' packet exactly when the UDP accumulator wraps a multiple of 65535 times. */
  lemma ForgedIsRfcIff(f: Flow, payload: seq<Byte>)
    ensures ForgedPacket(f, payload) == RfcPacket(f, payload) <==> Wraps(UdpCovered(f, payload, [0, 0])) % 0xFFFF == 0
  {
    var z := UdpCovered(f, payload, [0, 0]);
    var ipCk := Le16(Complement(IpHeader(f, TotalLen(payload), [0, 0])));
    ByteOrderIndependence(IpHeader(f, TotalLen(payload), [0, 0]));
    CoveredPositive(f, payload);
    StoredFieldIff(z);
    Layout(f, payload, ipCk, Le16(NeverZero(Complement(z))));
    Layout(f, payload, ipCk, Be16(NeverZero(RfcChecksum(z))));
  }

  /** In particular on every payload whose checksum cannot overflow. */
  lemma ForgedIsRfc(f: Flow, payload: seq<Byte>)
    requires |payload| <= 131054
    ensures ForgedPacket(f, payload) == RfcPacket(f, payload)
  {
    NoWraps(UdpCovered(f, payload, [0, 0]));
    ForgedIsRfcIff(f, payload);
  }

  /** Checksum over the pseudo-header and the segment already in the buffer, through a scratch copy. */
  method UdpChecksum(buf: array<Byte>, at: nat, f: Flow, payload: seq<Byte>) returns (ck: Word16)
    requires at + 8 + |payload| <= buf.Length
    requires buf[at..at + 8 + |payload|] == UdpHeader(f, UdpLen(payload), [0, 0]) + payload
    ensures ck == Complement(UdpCovered(f, payload, [0, 0]))
  {
    var temp := new Byte[20 + |payload|];
    ghost var blank := temp[..];
    Store(temp, 0, PseudoHeader(f, UdpLen(payload)));
    Store(temp, 12, buf[at..at + 8 + |payload|]);
    PatchNext(blank, 0, PseudoHeader(f, UdpLen(payload)), buf[at..at + 8 + |payload|]);
    assert temp[..] == UdpCovered(f, payload, [0, 0]);
    assert temp[0..0 + temp.Length] == temp[..];
    ck := Checksum(temp, 0, temp.Length);
  }

  method ForgeUdpPacket(buf: array<Byte>, at: nat, f: Flow, payload: seq<Byte>) returns (len: nat)
    requires at + 28 + |payload| <= buf.Length
    modifies buf
    ensures len == 28 + |payload|
    ensures buf[..] == Patch(old(buf[..]), at, ForgedPacket(f, payload))
  {
    ghost var s := buf[..];
    ghost var uh := UdpHeader(f, UdpLen(payload), [0, 0]);
    ghost var ih := IpHeader(f, TotalLen(payload), [0, 0]);
    WriteUdpHeader(buf, at + 20, f, UdpLen(payload));
    Store(buf, at + 28, payload);
    PatchNext(s, at + 20, uh, payload);
    WriteIpHeader(buf, at, f, TotalLen(payload));
    PatchBefore(s, at, ih, uh + payload);
    assert buf[at..at + 20] == ih;
    var ipCk := Checksum(buf, at, 20);
    PutLe16(buf, at + 10, ipCk);
    PatchInside(s, at, ih + (uh + payload), 10, Le16(ipCk));
    ghost var packet := Patch(ih + (uh + payload), 10, Le16(ipCk));
    assert buf[at + 20..at + 20 + 8 + |payload|] == packet[20..] == uh + payload;
    var udpCk := UdpChecksum(buf, at + 20, f, payload);
    PutLe16(buf, at + 26, if udpCk != 0 then udpCk else 0xFFFF);
    PatchInside(s, at, packet, 26, Le16(NeverZero(udpCk)));
    ForgedBytes(f, payload, ipCk, NeverZero(udpCk));
    len := 20 + 8 + |payload|;
  }

  lemma PatchBefore(s: seq<Byte>, at: nat, x: seq<Byte>, y: seq<Byte>)
    requires at + |x| + |y| <= |s|
    ensures Patch(Patch(s, at + |x|, y), at, x) == Patch(s, at, x + y)
  {
  }

  /** Filling in the two checksum fields of a packet assembled with zeros. */
  lemma ForgedBytes(f: Flow, payload: seq<Byte>, ipCk: Word16, udpCk: Word16)
    ensures Patch(Patch(IpHeader(f, TotalLen(payload), [0, 0]) + (UdpHeader(f, UdpLen(payload), [0, 0]) + payload),
                        10, Le16(ipCk)), 26, Le16(udpCk))
         == Assemble(f, payload, Le16(ipCk), Le16(udpCk))
  {
    var ih := IpHeader(f, TotalLen(payload), [0, 0]);
    var uh := UdpHeader(f, UdpLen(payload), [0, 0]);
    var ih' := IpHeader(f, TotalLen(payload), Le16(ipCk));
    var uh' := UdpHeader(f, UdpLen(payload), Le16(udpCk));
    Layout(f, payload, Le16(ipCk), Le16(udpCk));
    assert Patch(ih + (uh + payload), 10, Le16(ipCk)) == ih' + (uh + payload);
    assert Patch(ih' + (uh + payload), 26, Le16(udpCk)) == ih' + (Patch(uh, 6, Le16(udpCk)) + payload);
  }

  /** The other forger's UDP checksum: scratch copy and looping fold, no substitute for zero, and zero when no scratch memory is to be had. */
  method PlainUdpChecksum(f: Flow, udpPacket: array<Byte>, at: nat, len: nat, haveMemory: bool) returns (ck: Word16)
    requires at + len <= udpPacket.Length
    ensures ck == if haveMemory then Complement(PseudoHeader(f, len % 0x1_0000) + udpPacket[at..at + len]) else 0
  {
    if !haveMemory {
      return 0;
    }
    var temp := new Byte[12 + len];
    ghost var blank := temp[..];
    Store(temp, 0, PseudoHeader(f, len % 0x1_0000));
    Store(temp, 12, udpPacket[at..at + len]);
    PatchNext(blank, 0, PseudoHeader(f, len % 0x1_0000), udpPacket[at..at + len]);
    assert temp[0..0 + temp.Length] == temp[..];
    ck := IpChecksum(temp, 0, temp.Length);
  }

  /** A whole frame, padded with zeros to the Ethernet minimum. */
  method ForgeEthUdp(p: array<Byte>, dstMac: seq<Byte>, srcMac: seq<Byte>, f: Flow, payload: seq<Byte>)
    returns (frameLen: nat)
    requires |dstMac| == |srcMac| == 6
    requires 42 + |payload| <= p.Length && MIN_FRAME <= p.Length
    modifies p
    ensures frameLen == if 42 + |payload| < MIN_FRAME then MIN_FRAME else 42 + |payload|
    ensures p[..] == Patch(old(p[..]), 0, Frame(dstMac, srcMac, ForgedPacket(f, payload)))
  {
    ghost var s := p[..];
    Store(p, 0, dstMac);
    Store(p, 6, srcMac);
    PatchNext(s, 0, dstMac, srcMac);
    p[12] := 0x08;
    p[13] := 0x00;
    assert p[..] == Patch(s, 0, dstMac + srcMac + [0x08, 0x00]);
    var l := ForgeUdpPacket(p, 14, f, payload);
    PatchNext(s, 0, dstMac + srcMac + [0x08, 0x00], ForgedPacket(f, payload));
    frameLen := 14 + l;
    if frameLen < MIN_FRAME {
      Store(p, frameLen, Zeros(MIN_FRAME - frameLen));
      PatchNext(s, 0, dstMac + srcMac + [0x08, 0x00] + ForgedPacket(f, payload), Zeros(MIN_FRAME - frameLen));
      frameLen := MIN_FRAME;
    }
  }
}
