/**
 What a single frame settles. The listener reads at fixed places of a buffer that still holds the
 frame before, so a short frame may be reported by bytes it does not have. Here: which frames are
 judged by their own bytes alone, exactly.
 */
module FrameVerdicts {
  import opened Bytes
  import opened Common
  import opened Packets
  import opened Sniffer

  // --- Numbers that are cut short -------------------------------------------------------------------

  /** Something other than a digit ends the digits of `s`. */
  predicate DigitsEnd(s: seq<Byte>) {
    s != [] && (!IsDigit(s[0]) || DigitsEnd(s[1..]))
  }

  /** However `s` goes on, `atoi` and the range test make the same of it. */
  predicate NumberSettled(s: seq<Byte>) {
    if s == [] then false
    else if IsSpace(s[0]) then NumberSettled(s[1..])
    else if s[0] == 45 then DigitsEnd(s[1..]) || Digits10(s[1..], 0) > 0
    else if s[0] == 43 then DigitsEnd(s[1..])
    else DigitsEnd(s)
  }

  lemma {:induction false} EndedDigits(s: seq<Byte>, x: seq<Byte>, n: nat)
    requires DigitsEnd(s)
    ensures Digits10(s + x, n) == Digits10(s, n)
  {
    assert (s + x)[1..] == s[1..] + x;
    if IsDigit(s[0]) {
      EndedDigits(s[1..], x, 10 * n + (s[0] - 48));
    }
  }

  lemma {:induction false} DigitsGrow(s: seq<Byte>, x: seq<Byte>, n: nat)
    ensures Digits10(s + x, n) >= Digits10(s, n) >= n
    decreases |s| + |x|
  {
    if s != [] && IsDigit(s[0]) {
      assert (s + x)[1..] == s[1..] + x;
      DigitsGrow(s[1..], x, 10 * n + (s[0] - 48));
    } else if s == [] {
      assert s + x == x;
      if x != [] {
        assert x[1..] + [] == x[1..];
        DigitsGrow(x[1..], [], 10 * n + if IsDigit(x[0]) then x[0] - 48 else 0);
      }
    }
  }

  lemma {:induction false} SettledNumber(s: seq<Byte>, x: seq<Byte>)
    requires NumberSettled(s)
    ensures InRange(Atoi(s + x)) == InRange(Atoi(s))
  {
    assert (s + x)[1..] == s[1..] + x;
    if IsSpace(s[0]) {
      SettledNumber(s[1..], x);
    } else if s[0] == 45 || s[0] == 43 {
      if DigitsEnd(s[1..]) {
        EndedDigits(s[1..], x, 0);
      } else {
        DigitsGrow(s[1..], x, 0);
      }
    } else {
      EndedDigits(s, x, 0);
    }
  }

  predicate AllDigits(s: seq<Byte>) {
    forall i :: 0 <= i < |s| ==> IsDigit(s[i])
  }

  lemma {:induction false} NotEnded(s: seq<Byte>)
    requires !DigitsEnd(s)
    ensures AllDigits(s)
  {
    if s != [] {
      NotEnded(s[1..]);
      assert s == [s[0]] + s[1..];
    }
  }

  lemma {:induction false} DigitsBound(s: seq<Byte>)
    requires AllDigits(s)
    ensures Digits10(s, 0) < Pow10(|s|)
  {
    if s != [] {
      var init := s[..|s| - 1];
      DigitsBound(init);
      Digits10Append(init, 0, s[|s| - 1]);
      assert s == init + [s[|s| - 1]];
    }
  }

  /** Zero bytes end the digits. */
  lemma {:induction false} DigitsThenZeros(s: seq<Byte>, k: nat, n: nat)
    requires AllDigits(s)
    ensures Digits10(s + Zeros(k), n) == Digits10(s, n)
  {
    if s == [] {
      assert s + Zeros(k) == Zeros(k);
    } else {
      assert (s + Zeros(k))[1..] == s[1..] + Zeros(k);
      DigitsThenZeros(s[1..], k, 10 * n + (s[0] - 48));
    }
  }

  /** At most four digits can be followed by nothing or by a one, and the number differs. */
  lemma DigitsOpen(s: seq<Byte>, k: nat)
    requires |s| <= 4 && !DigitsEnd(s)
    ensures Digits10(s + Zeros(k), 0) == Digits10(s, 0) < 10000
    ensures Digits10(s + ([49] + Zeros(k)), 0) == 10 * Digits10(s, 0) + 1
  {
    NotEnded(s);
    DigitsBound(s);
    assert Pow10(4) == 10000 by {
      assert Pow10(2) == 100;
    }
    PowMonotone10(|s|, 4);
    DigitsThenZeros(s, k, 0);
    Digits10Append(s, 0, 49);
    DigitsThenZeros(s + [49], k, 0);
    assert s + ([49] + Zeros(k)) == (s + [49]) + Zeros(k);
  }

  lemma {:induction false} PowMonotone10(a: nat, b: nat)
    requires a <= b
    ensures Pow10(a) <= Pow10(b)
    decreases b
  {
    if a < b {
      PowMonotone10(a, b - 1);
    }
  }

  /** A number that is not settled can go on so that a port is reported, and so that something else is. */
  lemma {:induction false} OpenNumber(s: seq<Byte>, k: nat)
    requires |s| <= 4 && !NumberSettled(s)
    ensures InRange(Atoi(s + Zeros(k))).Some?
    ensures InRange(Atoi(s + ([49] + Zeros(k)))) != InRange(Atoi(s + Zeros(k)))
  {
    if s == [] {
      DigitsOpen(s, k);
      assert s + Zeros(k) == Zeros(k) && s + ([49] + Zeros(k)) == [49] + Zeros(k);
    } else {
      assert (s + Zeros(k))[1..] == s[1..] + Zeros(k);
      assert (s + ([49] + Zeros(k)))[1..] == s[1..] + ([49] + Zeros(k));
      if IsSpace(s[0]) {
        OpenNumber(s[1..], k);
      } else if s[0] == 45 || s[0] == 43 {
        DigitsOpen(s[1..], k);
      } else {
        DigitsOpen(s, k);
      }
    }
  }

  // --- The verdict on a frame -----------------------------------------------------------------------

  /** `Open`: the bytes of the frame do not settle what is reported. */
  datatype Verdict = Open | Settled(report: Option<Word16>)

  predicate LengthRefused(hi: Byte, lo: Byte) { 8 <= FromBe16(hi, lo) as int < 17 }

  /** A byte of the frame contradicts the prefix at `at`. */
  predicate PrefixBroken(frame: seq<Byte>, at: nat) {
    exists k :: 0 <= k < 4 && at + k < |frame| && frame[at + k] != PREFIX[k]
  }

  /** A frame that is UDP over IPv4 as far as it goes; its payload starts at `at`. */
  function JudgePayload(frame: seq<Byte>, at: nat): Verdict
    requires at >= 4
  {
    if at == 22 then Settled(None)
    else if at - 2 <= |frame| && LengthRefused(frame[at - 4], frame[at - 3]) then Settled(None)
    else if PrefixBroken(frame, at) then Settled(None)
    else if |frame| < at + 4 then Open
    else
      var digits := frame[at + 4..if |frame| < at + 9 then |frame| else at + 9];
      if |digits| == 5 || NumberSettled(digits) then Settled(InRange(Atoi(digits))) else Open
  }

  /** Where the payload starts, by the header-length nibble. */
  function PayloadAt(nibbles: Byte): (at: nat)
    ensures 22 <= at <= 82
  {
    22 + nibbles % 16 * 4
  }

  /**
   The verdict, from the length of the frame, its type and protocol, its header-length nibble, its
   length field and the bytes of its payload that are there. A header length of zero puts the
   protocol byte inside the prefix, so it is never reported.
   */
  function Judge(frame: seq<Byte>): Verdict {
    if |frame| >= 13 && frame[12] != 0x08 then Settled(None)
    else if |frame| >= 14 && frame[13] != 0x00 then Settled(None)
    else if |frame| >= 24 && frame[23] != UDP_PROTO then Settled(None)
    else if |frame| < 15 then Open
    else JudgePayload(frame, PayloadAt(frame[14]))
  }

  // --- The report, byte by byte ---------------------------------------------------------------------

  predicate PrefixAt(r: seq<Byte>, at: nat)
    requires at + 4 <= |r|
  {
    forall k :: 0 <= k < 4 ==> r[at + k] == PREFIX[k]
  }

  /** The tests before the number is read. */
  predicate Passes(r: seq<Byte>, at: nat)
    requires |r| == BUF_SIZE && 22 <= at <= 82
  {
    && r[12] == 0x08 && r[13] == 0x00 && r[23] == UDP_PROTO
    && !LengthRefused(r[at - 4], r[at - 3]) && PrefixAt(r, at)
  }

  lemma ReportBytes(r: seq<Byte>)
    requires |r| == BUF_SIZE
    ensures var at := PayloadAt(r[14]);
      Report(r) == if Passes(r, at) then InRange(Atoi(r[at + 4..at + 9])) else None
  {
    var at := PayloadAt(r[14]);
    var s := r[at..at + 4];
    assert s == PREFIX <==> PrefixAt(r, at) by {
      assert forall k :: 0 <= k < 4 ==> s[k] == r[at + k];
    }
    WrappedLength(FromBe16(r[at - 4], r[at - 3]));
  }

  /** When exactly a buffer is reported as `p`, by its bytes: type, protocol, length field, PORT and the number. */
  lemma ReportIff(r: seq<Byte>, p: Word16)
    requires |r| == 2048
    ensures var at := 22 + r[14] % 16 * 4;
      Report(r) == Some(p) <==>
        && r[12] == 0x08 && r[13] == 0x00 && r[23] == 17 && !(8 <= 256 * (r[at - 4] as int) + r[at - 3] < 17)
        && r[at] == 0x50 && r[at + 1] == 0x4F && r[at + 2] == 0x52 && r[at + 3] == 0x54
        && Atoi(r[at + 4..at + 9]) == p
  {
    ReportBytes(r);
    PrefixLetters(r, PayloadAt(r[14]));
  }

  lemma PrefixLetters(r: seq<Byte>, at: nat)
    requires at + 4 <= |r|
    ensures PrefixAt(r, at) <==> r[at] == 0x50 && r[at + 1] == 0x4F && r[at + 2] == 0x52 && r[at + 3] == 0x54
  {
    assert PREFIX[0] == 0x50 && PREFIX[1] == 0x4F && PREFIX[2] == 0x52 && PREFIX[3] == 0x54;
  }

  lemma WrappedLength(len: int)
    requires 0 <= len < 65536
    ensures (len - 8) % 0x1_0000_0000_0000_0000 < 9 <==> 8 <= len < 17
  {
    if len < 8 {
      assert (len - 8) % 0x1_0000_0000_0000_0000 == len - 8 + 0x1_0000_0000_0000_0000;
    }
  }

  lemma ArrivedAt(buf: seq<Byte>, frame: seq<Byte>, i: nat)
    requires |buf| == BUF_SIZE == 2048 && i < 2048
    ensures Arrived(buf, frame)[i] == if i < |frame| then frame[i] else buf[i]
  {
  }

  // --- Settled frames -------------------------------------------------------------------------------

  lemma ArrivedHeader(buf: seq<Byte>, frame: seq<Byte>)
    requires |buf| == BUF_SIZE
    ensures var r := Arrived(buf, frame);
      && (|frame| >= 13 ==> r[12] == frame[12]) && (|frame| >= 14 ==> r[13] == frame[13])
      && (|frame| >= 15 ==> r[14] == frame[14]) && (|frame| >= 24 ==> r[23] == frame[23])
  {
    ArrivedAt(buf, frame, 12);
    ArrivedAt(buf, frame, 13);
    ArrivedAt(buf, frame, 14);
    ArrivedAt(buf, frame, 23);
  }

  lemma BrokenPrefixFails(buf: seq<Byte>, frame: seq<Byte>, at: nat)
    requires |buf| == BUF_SIZE && at + 4 <= BUF_SIZE && PrefixBroken(frame, at)
    ensures !PrefixAt(Arrived(buf, frame), at)
  {
    var k :| 0 <= k < 4 && at + k < |frame| && frame[at + k] != PREFIX[k];
    ArrivedAt(buf, frame, at + k);
  }

  lemma WholePrefixHolds(buf: seq<Byte>, frame: seq<Byte>, at: nat)
    requires |buf| == BUF_SIZE && at + 4 <= BUF_SIZE && at + 4 <= |frame| && !PrefixBroken(frame, at)
    ensures PrefixAt(Arrived(buf, frame), at)
  {
    forall k | 0 <= k < 4
      ensures Arrived(buf, frame)[at + k] == PREFIX[k]
    {
      ArrivedAt(buf, frame, at + k);
    }
  }

  /** The digits the listener sees are those of the frame, continued by the buffer. */
  lemma DigitsSeen(buf: seq<Byte>, frame: seq<Byte>, at: nat)
    requires |buf| == BUF_SIZE && at <= 82 && at + 4 <= |frame|
    ensures var n := if |frame| < at + 9 then |frame| else at + 9;
      Arrived(buf, frame)[at + 4..at + 9] == frame[at + 4..n] + buf[n..at + 9]
  {
    var n := if |frame| < at + 9 then |frame| else at + 9;
    forall i | at + 4 <= i < at + 9
      ensures Arrived(buf, frame)[i] == if i < n then frame[i] else buf[i]
    {
      ArrivedAt(buf, frame, i);
    }
  }

  /** Header and length field of a frame that reaches the digits are its own. */
  lemma OwnHeaderPasses(buf: seq<Byte>, frame: seq<Byte>, at: nat)
    requires |buf| == BUF_SIZE && |frame| >= 15 && at == PayloadAt(frame[14]) && at != 22 && at + 4 <= |frame|
    requires frame[12] == 0x08 && frame[13] == 0x00 && frame[23] == UDP_PROTO
    requires !LengthRefused(frame[at - 4], frame[at - 3]) && !PrefixBroken(frame, at)
    ensures Arrived(buf, frame)[14] == frame[14] && Passes(Arrived(buf, frame), at)
  {
    ArrivedHeader(buf, frame);
    ArrivedAt(buf, frame, at - 4);
    ArrivedAt(buf, frame, at - 3);
    WholePrefixHolds(buf, frame, at);
  }

  /** A settled frame is reported as its verdict says, whatever the buffer held. */
  lemma SettledAlone(buf: seq<Byte>, frame: seq<Byte>)
    requires |buf| == BUF_SIZE && Judge(frame).Settled?
    ensures Report(Arrived(buf, frame)) == Judge(frame).report
  {
    var r := Arrived(buf, frame);
    ReportBytes(r);
    ArrivedHeader(buf, frame);
    if |frame| >= 15 && frame[12] == 0x08 && frame[13] == 0x00 && (|frame| >= 24 ==> frame[23] == UDP_PROTO) {
      SettledPayload(buf, frame, PayloadAt(frame[14]));
    }
  }

  lemma SettledPayload(buf: seq<Byte>, frame: seq<Byte>, at: nat)
    requires |buf| == BUF_SIZE && |frame| >= 15 && at == PayloadAt(frame[14])
    requires frame[12] == 0x08 && frame[13] == 0x00 && (|frame| >= 24 ==> frame[23] == UDP_PROTO)
    requires JudgePayload(frame, at).Settled?
    ensures Report(Arrived(buf, frame)) == JudgePayload(frame, at).report
  {
    var r := Arrived(buf, frame);
    ReportBytes(r);
    ArrivedHeader(buf, frame);
    if at == 22 {
      assert PrefixAt(r, at) ==> r[at + 1] == PREFIX[1];
    } else if at - 2 <= |frame| && LengthRefused(frame[at - 4], frame[at - 3]) {
      ArrivedAt(buf, frame, at - 4);
      ArrivedAt(buf, frame, at - 3);
    } else if PrefixBroken(frame, at) {
      BrokenPrefixFails(buf, frame, at);
    } else {
      OwnHeaderPasses(buf, frame, at);
      DigitsSeen(buf, frame, at);
      var n := if |frame| < at + 9 then |frame| else at + 9;
      if n < at + 9 {
        SettledNumber(frame[at + 4..n], buf[n..at + 9]);
      } else {
        assert frame[at + 4..n] + buf[n..at + 9] == frame[at + 4..n];
      }
    }
  }

  // --- Open frames ----------------------------------------------------------------------------------

  /** A buffer that makes up what a short frame lacks: headers, length, prefix, and zero bytes for a number. */
  function Filler(nibbles: Byte): (buf: seq<Byte>)
    ensures |buf| == BUF_SIZE
  {
    var at := PayloadAt(nibbles);
    seq(BUF_SIZE, i requires 0 <= i < BUF_SIZE =>
      if i == 12 then 0x08
      else if i == 14 then nibbles
      else if i == 23 || i == at - 3 then UDP_PROTO
      else if at <= i < at + 4 then PREFIX[i - at]
      else 0)
  }

  lemma NoPrefixInZeros(frame: seq<Byte>)
    requires |frame| < 15 || |frame| < PayloadAt(frame[14]) + 4
    ensures Report(Arrived(Zeros(BUF_SIZE), frame)) == None
  {
    var r := Arrived(Zeros(BUF_SIZE), frame);
    ReportBytes(r);
    if |frame| < 15 {
      ArrivedAt(Zeros(BUF_SIZE), frame, 23);
    } else {
      ArrivedAt(Zeros(BUF_SIZE), frame, 14);
      ArrivedAt(Zeros(BUF_SIZE), frame, PayloadAt(frame[14]) + 3);
    }
  }

  /** The nibbles a short frame has, or others that leave room before the prefix. */
  function NibblesOf(frame: seq<Byte>): Byte {
    if |frame| >= 15 then frame[14] else 0x45
  }

  lemma FillerPasses(frame: seq<Byte>)
    requires Judge(frame).Open? && |frame| < PayloadAt(NibblesOf(frame)) + 4
    ensures var at := PayloadAt(NibblesOf(frame));
            var r := Arrived(Filler(NibblesOf(frame)), frame);
      r[14] == NibblesOf(frame) && Passes(r, at)
  {
    var h := NibblesOf(frame);
    var at := PayloadAt(h);
    var buf := Filler(h);
    assert at != 22;
    ArrivedAt(buf, frame, 12);
    ArrivedAt(buf, frame, 13);
    ArrivedAt(buf, frame, 14);
    ArrivedAt(buf, frame, 23);
    FillerLength(frame, at);
    FillerPrefix(frame, at);
  }

  lemma FillerLength(frame: seq<Byte>, at: nat)
    requires Judge(frame).Open? && at == PayloadAt(NibblesOf(frame)) && at != 22
    ensures var r := Arrived(Filler(NibblesOf(frame)), frame);
      !LengthRefused(r[at - 4], r[at - 3])
  {
    var buf := Filler(NibblesOf(frame));
    ArrivedAt(buf, frame, at - 4);
    ArrivedAt(buf, frame, at - 3);
    assert buf[at - 3] == UDP_PROTO;
  }

  lemma FillerPrefix(frame: seq<Byte>, at: nat)
    requires Judge(frame).Open? && at == PayloadAt(NibblesOf(frame)) && at != 22
    ensures PrefixAt(Arrived(Filler(NibblesOf(frame)), frame), at)
  {
    var buf := Filler(NibblesOf(frame));
    assert |frame| >= 15 ==> !PrefixBroken(frame, at);
    forall k | 0 <= k < 4
      ensures Arrived(buf, frame)[at + k] == PREFIX[k]
    {
      ArrivedAt(buf, frame, at + k);
      if at + k < |frame| {
        assert frame[at + k] == PREFIX[k];
      }
    }
  }

  /** What lacks part of the prefix can be reported as port zero, or not at all. */
  lemma OpenBeforeDigits(frame: seq<Byte>)
    requires Judge(frame).Open? && |frame| < PayloadAt(NibblesOf(frame)) + 4
    ensures Report(Arrived(Filler(NibblesOf(frame)), frame)) != Report(Arrived(Zeros(BUF_SIZE), frame))
  {
    NoPrefixInZeros(frame);
    FillerPasses(frame);
    ReportBytes(Arrived(Filler(NibblesOf(frame)), frame));
    FillerDigits(frame, PayloadAt(NibblesOf(frame)));
  }

  lemma FillerDigits(frame: seq<Byte>, at: nat)
    requires at == PayloadAt(NibblesOf(frame)) && |frame| < at + 4
    ensures Atoi(Arrived(Filler(NibblesOf(frame)), frame)[at + 4..at + 9]) == 0
  {
    var r := Arrived(Filler(NibblesOf(frame)), frame);
    forall i | at + 4 <= i < at + 9
      ensures r[i] == 0
    {
      ArrivedAt(Filler(NibblesOf(frame)), frame, i);
    }
    assert r[at + 4..at + 9][0] == 0;
  }

  /** What lacks part of the number can be reported as different numbers. */
  lemma OpenInDigits(frame: seq<Byte>)
    requires Judge(frame).Open? && |frame| >= 15 && |frame| >= PayloadAt(frame[14]) + 4
    ensures |frame| < BUF_SIZE
    ensures Report(Arrived(Zeros(BUF_SIZE), frame)) != Report(Arrived(Zeros(BUF_SIZE)[|frame| := 49], frame))
  {
    var at := PayloadAt(frame[14]);
    OwnHeader(frame, at);
    var n := |frame|;
    var k := at + 8 - n;
    var zero := Zeros(BUF_SIZE);
    var one := zero[n := 49];
    assert zero[n..at + 9] == Zeros(k + 1);
    assert one[n..at + 9] == [49] + Zeros(k);
    ReportOfDigits(zero, frame, at, Zeros(k + 1));
    ReportOfDigits(one, frame, at, [49] + Zeros(k));
    TwoNumbers(frame[at + 4..], k);
  }

  lemma TwoNumbers(s: seq<Byte>, k: nat)
    requires |s| <= 4 && !NumberSettled(s)
    ensures InRange(Atoi(s + Zeros(k + 1))) != InRange(Atoi(s + ([49] + Zeros(k))))
  {
    ZerosTail(s, k);
    OpenNumber(s, k);
  }

  lemma OwnHeader(frame: seq<Byte>, at: nat)
    requires Judge(frame).Open? && |frame| >= 15 && at == PayloadAt(frame[14]) && at + 4 <= |frame|
    ensures at != 22 && |frame| < at + 9 && !NumberSettled(frame[at + 4..])
    ensures frame[12] == 0x08 && frame[13] == 0x00 && frame[23] == UDP_PROTO
    ensures !LengthRefused(frame[at - 4], frame[at - 3]) && !PrefixBroken(frame, at)
  {
    assert frame[at + 4..|frame|] == frame[at + 4..];
  }

  /** The report of a frame that ends within its digits; the buffer goes on with `tail`. */
  lemma ReportOfDigits(buf: seq<Byte>, frame: seq<Byte>, at: nat, tail: seq<Byte>)
    requires |buf| == BUF_SIZE && |frame| >= 15 && at == PayloadAt(frame[14]) && at != 22
    requires at + 4 <= |frame| < at + 9 && buf[|frame|..at + 9] == tail
    requires frame[12] == 0x08 && frame[13] == 0x00 && frame[23] == UDP_PROTO
    requires !LengthRefused(frame[at - 4], frame[at - 3]) && !PrefixBroken(frame, at)
    ensures Report(Arrived(buf, frame)) == InRange(Atoi(frame[at + 4..] + tail))
  {
    OwnHeaderPasses(buf, frame, at);
    ReportBytes(Arrived(buf, frame));
    DigitsSeen(buf, frame, at);
    assert frame[at + 4..|frame|] == frame[at + 4..];
  }

  /** One zero byte more or less behind a number makes no difference. */
  lemma {:induction false} ZerosTail(s: seq<Byte>, k: nat)
    ensures Atoi(s + Zeros(k + 1)) == Atoi(s + Zeros(k))
  {
    assert s + Zeros(k + 1) == (s + Zeros(k)) + [0];
    NulTail(s + Zeros(k));
  }

  lemma {:induction false} NulTail(s: seq<Byte>)
    ensures Atoi(s + [0]) == Atoi(s)
  {
    if s != [] {
      assert (s + [0])[1..] == s[1..] + [0];
      if IsSpace(s[0]) {
        NulTail(s[1..]);
      } else if s[0] == 45 || s[0] == 43 {
        NulDigits(s[1..], 0);
      } else {
        NulDigits(s, 0);
      }
    } else {
      assert s + [0] == [0];
    }
  }

  lemma {:induction false} NulDigits(s: seq<Byte>, n: nat)
    ensures Digits10(s + [0], n) == Digits10(s, n)
  {
    if s == [] {
      assert s + [0] == [0];
    } else {
      assert (s + [0])[1..] == s[1..] + [0];
      if IsDigit(s[0]) {
        NulDigits(s[1..], 10 * n + (s[0] - 48));
      }
    }
  }

  /** A frame's report depends on the frame alone exactly when its own bytes settle it. */
  lemma ReportAloneIff(frame: seq<Byte>)
    ensures Judge(frame).Settled? <==>
            forall b, b' :: |b| == |b'| == BUF_SIZE ==> Report(Arrived(b, frame)) == Report(Arrived(b', frame))
  {
    if Judge(frame).Settled? {
      forall b, b' | |b| == |b'| == BUF_SIZE
        ensures Report(Arrived(b, frame)) == Report(Arrived(b', frame))
      {
        SettledAlone(b, frame);
        SettledAlone(b', frame);
      }
    } else if |frame| < PayloadAt(NibblesOf(frame)) + 4 {
      OpenBeforeDigits(frame);
    } else {
      OpenInDigits(frame);
    }
  }

  /** A frame goes unreported in every buffer exactly when its own bytes say so. */
  lemma NeverReportedIff(frame: seq<Byte>)
    ensures Judge(frame) == Settled(None) <==> forall b :: |b| == BUF_SIZE ==> Report(Arrived(b, frame)) == None
  {
    if Judge(frame) == Settled(None) {
      forall b | |b| == BUF_SIZE
        ensures Report(Arrived(b, frame)) == None
      {
        SettledAlone(b, frame);
      }
    } else if forall b :: |b| == BUF_SIZE ==> Report(Arrived(b, frame)) == None {
      ReportAloneIff(frame);
      SettledAlone(Zeros(BUF_SIZE), frame);
    }
  }
}
