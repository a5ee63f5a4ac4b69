# NatGhost: verified models

NatGhost predicts the ports a NAT hands out, forges UDP packets to open holes, listens for them, and
races STUN servers for a public address. This project models that logic in Dafny and proves what each
part is for. `dafny verify dfyconfig.toml` checks all of it.

- **Linear complexity and port prediction** (`Gf2`, `Lfsr`, `BerlekampMassey`, `Predictor`, `PortBits`,
  `Binary`). Ports are unpacked to bits, the Berlekamp-Massey loop finds the shortest feedback register,
  and the register runs on to predict bits and ports. Bits are `bool`, XOR is `!=`. The coefficient
  vectors `c`, `b`, `t` are arrays of as many entries as there are bits, cut as in the code; `Run` is the
  same algorithm on polynomials of any length, and the cut is shown to lose nothing. Proved: Massey's
  theorem (the length returned is the linear complexity), the complexity profile, when the next bit is
  forced, and that a stream driven by a register of at most half the observed length is predicted exactly,
  down to the packed ports.
- **Checksums and packets** (`Bytes`, `OnesComplement`, `Packets`, `Sniffer`, `FrameVerdicts`, `Bursts`).
  Two checksum loops over little-endian loads in a 32-bit accumulator, with two folds; the forgers that
  write Ethernet, IPv4 and UDP into a buffer; the listener that reads frames back. Proved: when exactly
  the loops give RFC 1071's checksum in network byte order, when exactly forged packets are those of
  RFC 791 and RFC 768, that they verify at a receiver, which frames exactly the listener judges by their
  own bytes, and that a burst is heard packet by packet among any other frames that settle themselves.
- **STUN** (`Stun`, `StunRace`). The attribute walk of RFC 5389 sections 15 and 15.2, and the race: send,
  receive arbitrary datagrams, retry, sort, choose. Proved: the walk finds the first IPv4 mapped address
  of any padded list without reading past the message, which messages exactly decide their own answer,
  answers are written once along any run, and the chosen server is within two milliseconds of the truly
  fastest.
- **One-pass tables and arrays** (`Counters`, `Histograms`, `FlowTables`, `SharedLayout`, `ExchangeSort`).

Some results say that the code does less than it looks:

- The retry round (`kernel/memory_pool_optimization.c:210-218`) asks again exactly the entries that were
  answered without a usable address, and the receiver passes over exactly the entries that were answered
  (line 161). `RetryChangesNoResult` shows that no retry answer is ever used, whatever arrives;
  `UnusableReached` and `RetryAnswerLost` show a run in which a good answer is lost this way.
- The block writer (`kernel/memory_map.c:25-62`) computes the remainder of the port space and does not
  distribute it. `Undistributed` shows that every port is given out if and only if the number of VMs
  divides 65536. Ports are numbered from 1, so 65536 is given out in that case and 0 never is.
- The listener (`kernel/archive/sniff_listener.c:61-84`) never compares the positions it reads with the
  number of bytes received, and its buffer still holds the frame before. `StaleReport` shows a 42-byte
  frame without any payload after which the port of the packet before is reported a second time.
  `ReportAloneIff` gives the exact condition: a frame is judged by its own bytes alone if and only if
  `Judge` settles it, from its length, type, protocol, header-length nibble, length field and the payload
  bytes that are there.
- The attribute walk (`kernel/memory_pool_optimization.c:81-106`) checks for a head only and then reads a
  value of eight bytes. `BareHeadUndecided` is a message of 24 bytes whose answer is whatever lies behind
  it; `MessageDecidesIff` says exactly which messages decide their own answer. Every well-formed list does.
- The checksum's accumulator (`kernel/net.c:9-23`) wraps at 2^32. `ByteOrderIff` says on which buffers the
  result is still the standard's; `ResultBoundTight` that up to 131074 bytes it is on all buffers, and for
  every greater length not on all.
- `lfsr_predictor` (`kernel/full_spectrum_randomness_analyzer.cpp:371-413`) recovers the coefficients with a
  second copy of the loop (lines 377-396) that starts from the final length, so that it reads `s[-1]` in its
  first iteration whenever the length is at least one. What it computes is undefined. `PredictBits` and
  `PredictPorts` therefore run the register on the coefficients the complexity loop ends with: they state
  what prediction achieves with the register that loop finds, not what the second copy achieves.

What an operation and its specification share (layouts, tests, constants) is stated once more outright, on
bytes and fields: `PacketFields`, `CoveredFields`, `FrameFields`, `ReportIff`, `AtoiReads`, `EncodedBytes`,
`NextAligned`, `WalkStep`, `XorMappedDigits`, `XorDigits`, `RequestBytes`, `ElapsedExact`, `SortedIff`,
`BlockHoldsIff`, `SumsByPosition`, and the contracts of the race about transaction ids, addresses and ports.

Clock readings, random transaction ids, received datagrams and frames are arbitrary inputs of the
methods. `qsort` is known by its contract only: a permutation, sorted under the comparator. A table entry
of the race carries one field the program does not have, `answeredAt`, the clock reading its time was
measured with; it is written and never read by any branch, and statements about true times refer to it.

## Model

| member | source | states |
|---|---|---|
| Lfsr.PartingBound | kernel/full_spectrum_randomness_analyzer.cpp:337-351 | If a register of length l generates the first i bits and errs on bit i, every register that generates one bit more has length at least i + 1 - l, for any choice of taps. |
| Lfsr.GeneratesForever | kernel/full_spectrum_randomness_analyzer.cpp:398-410 | A register no longer than the source that fits twice as many bits as the source is long fits the whole stream. |
| Lfsr.ComplexityMonotone | kernel/full_spectrum_randomness_analyzer.cpp:337-355 | The linear complexity of a prefix never exceeds that of the whole. |
| BerlekampMassey.CombineConvolution | kernel/full_spectrum_randomness_analyzer.cpp:344-346 | Adding the delayed old polynomial adds the discrepancies of both, position by position. |
| BerlekampMassey.CorrectionGenerates | kernel/full_spectrum_randomness_analyzer.cpp:342-352 | After a correction the new polynomial is right about every bit up to and including the one that exposed the old one. |
| BerlekampMassey.StepKeepsInvariant | kernel/full_spectrum_randomness_analyzer.cpp:337-353 | One iteration keeps: degree at most l, recurrence on the whole prefix, no shorter register, l = m + 1 - previous length, and the previous polynomial errs exactly at m. |
| BerlekampMassey.RunInvariant | kernel/full_spectrum_randomness_analyzer.cpp:331-356 | The same at every loop head of every run. |
| BerlekampMassey.MasseyTheorem | kernel/full_spectrum_randomness_analyzer.cpp:331-356 | The final polynomial generates the sequence and no shorter register does, by any taps. |
| BerlekampMassey.ComplexityProfile | kernel/full_spectrum_randomness_analyzer.cpp:337-355 | Appending a bit keeps the complexity if it is the feedback of any shortest register, and otherwise makes it max(l, n + 1 - l). |
| BerlekampMassey.OneBitKeepsComplexity | kernel/full_spectrum_randomness_analyzer.cpp:337-355 | One of the two possible next bits leaves the complexity as it is. |
| BerlekampMassey.ComplexityZero | kernel/full_spectrum_randomness_analyzer.cpp:398-409 | The length is zero, and the predictor's state empty, exactly when no bit is set. |
| BerlekampMassey.Discrepancy | kernel/full_spectrum_randomness_analyzer.cpp:338-340 | The inner loop computes whether the current register errs on bit i. |
| BerlekampMassey.AddShifted | kernel/full_spectrum_randomness_analyzer.cpp:345-346 | In place, every entry of c takes in b delayed by i - m; the rest of b falls off the end. |
| BerlekampMassey.Correct | kernel/full_spectrum_randomness_analyzer.cpp:344-352 | The in-place correction on vectors and counters is the correction on polynomials. |
| BerlekampMassey.VectorGenerates | kernel/full_spectrum_randomness_analyzer.cpp:333-355 | The cut to n coefficients still leaves a vector that generates the sequence. |
| BerlekampMassey.LinearComplexity | kernel/full_spectrum_randomness_analyzer.cpp:331-356 | For every nonempty bit sequence the loop returns its linear complexity and ends with a vector that generates it. |
| Predictor.ExactPrediction | kernel/full_spectrum_randomness_analyzer.cpp:398-412 | What the shortest register emits is the true future of any stream generated by a register of at most half the observed length. |
| Predictor.NextBitForcedIff | kernel/full_spectrum_randomness_analyzer.cpp:402-406 | All shortest registers predict the same next bit if and only if the complexity is at most half the bits seen. |
| Predictor.Simulate | kernel/full_spectrum_randomness_analyzer.cpp:398-412 | Every predicted bit is the register's feedback on the observed bits followed by the predictions before it. |
| Predictor.PredictBits | kernel/full_spectrum_randomness_analyzer.cpp:705-710 | For any number of bits, with the coefficients of the complexity loop: the continuation follows a shortest register, and equals the true future whenever a register of at most half the observed length drives the stream. |
| PortBits.UnpackPorts | kernel/full_spectrum_randomness_analyzer.cpp:698-703 | Every port becomes its sixteen binary digits, most significant first, in order. |
| PortBits.PackBits | kernel/full_spectrum_randomness_analyzer.cpp:718-726 | Every full group of sixteen bits becomes the number it writes; a shorter tail is dropped. |
| PortBits.PackUnpack | kernel/full_spectrum_randomness_analyzer.cpp:698-726 | Packing undoes unpacking on every port list. |
| PortBits.UnpackPack | kernel/full_spectrum_randomness_analyzer.cpp:698-726 | Unpacking undoes packing up to the dropped tail. |
| PortBits.PredictPorts | kernel/full_spectrum_randomness_analyzer.cpp:698-726 | With the coefficients of the complexity loop, the packed predictions are the true next ports whenever a register of at most half the observed bits drives the allocator. |
| OnesComplement.RfcSumIsFold | kernel/net.c:20-22 | The end-around-carry sum of the standard is the plain sum folded once at the end. |
| OnesComplement.SumsByPosition | kernel/net.c:12-19 | The loops' sum counts bytes at even positions once and the others 256 times, the standard's the other way round, an odd last byte included. |
| OnesComplement.ByteOrderIndependence | kernel/net.c:9-23 | On every buffer within the overflow bound, odd lengths included, the little-endian result is the byte swap of the standard's, so the stored bytes are the standard's. |
| OnesComplement.AccumulatorBoundTight | kernel/net.c:12-19 | The 32-bit accumulator equals the true sum on all buffers of a length if and only if the length is at most 131074. |
| OnesComplement.ByteOrderIff | kernel/net.c:9-23 | On every buffer, however long: the result is the byte swap of the standard's if and only if the accumulator wrapped a multiple of 65535 times and did not end at zero after a positive sum. |
| OnesComplement.ResultBoundTight | kernel/net.c:9-23 | The result is the standard's on all buffers of a length if and only if the length is at most 131074. |
| OnesComplement.VerifiesIff | kernel/net.c:9-23 | A receiver's checksum is zero exactly when the sum is a positive multiple of 65535. |
| OnesComplement.StoredChecksumVerifies | kernel/net.c:69-70 | Storing the computed checksum, or 0xFFFF for zero, in the zeroed field makes the whole buffer check to zero. |
| OnesComplement.OneWordChange | kernel/net.c:9-23 | A changed word in a verifying buffer goes unnoticed only if 0x0000 and 0xFFFF were exchanged. |
| OnesComplement.Accumulate | kernel/net.c:11-19 | Words and the odd byte are summed modulo 2^32. |
| OnesComplement.TwoSteps | kernel/net.c:20-22 | Two folding steps reach the residue from every 32-bit sum. |
| OnesComplement.FoldRound | natghost_forge/src/checksum.c:17-19 | A round of the looping fold keeps the residue. |
| OnesComplement.Checksum | kernel/net.c:9-23 | The result with the two-step fold, on any stretch of a buffer. |
| OnesComplement.IpChecksum | natghost_forge/src/checksum.c:7-21 | The looping fold terminates with the same result, so the two checksums agree on every buffer. |
| Packets.IpHeaderVerifies | kernel/net.c:45-56 | Summing the written IP header again gives zero. |
| Packets.UdpSegmentVerifies | kernel/net.c:57-70 | Summing pseudo-header and segment again gives zero, and the stored UDP checksum is never zero. |
| Packets.LengthFieldsExactIff | kernel/net.c:39-47 | Both length fields hold the true lengths exactly for payloads up to 65507 bytes. |
| Packets.PacketFields | kernel/net.c:37-54 | Byte by byte, of the code's and of the standards' packet: version 4 and header length 20, total length, zeros, time to live 64, protocol 17, source and destination address at 12 and 16, source and destination port at 20 and 22, UDP length at 24, payload at 28. |
| Packets.IpChecksumField | kernel/net.c:52-56 | The two bytes at 10 are the standard's checksum of the header around them, zero included. |
| Packets.CoveredFields | kernel/net.c:57-69 | Byte by byte, what the UDP checksum covers: both addresses, a zero, the protocol, the length, then the segment. |
| Packets.FrameFields | kernel/net.c:74-93 | Byte by byte: destination, source, type 0x0800, packet, and zeros up to sixty bytes. |
| Packets.ForgedIsRfcIff | kernel/net.c:25-73 | For every payload: the code's packet is the packet the standards define if and only if the accumulator wrapped a multiple of 65535 times over pseudo-header and segment. |
| Packets.ForgedIsRfc | kernel/net.c:25-73 | Up to 131054 payload bytes the code's packet is the packet the standards define, checksums in network byte order. |
| Packets.WriteUdpHeader | kernel/net.c:37-40 | The eight header bytes, and nothing else, are written. |
| Packets.WriteIpHeader | kernel/net.c:45-54 | The twenty header bytes, and nothing else, are written. |
| Packets.UdpChecksum | kernel/net.c:57-69 | The scratch copy is checksummed as pseudo-header, segment and odd tail. |
| Packets.ForgeUdpPacket | kernel/net.c:25-73 | The buffer holds the packet at its place, is unchanged elsewhere, and the length is returned. |
| Packets.PlainUdpChecksum | natghost_forge/src/checksum.c:31-53 | The other forger's checksum covers the same bytes and has no substitute for zero; without memory for the scratch copy it is 0. |
| Packets.ForgeEthUdp | kernel/net.c:74-93 | The buffer begins with the frame, zero-padded to 60, is unchanged behind it, and the length is max(60, 42 + payload). |
| Sniffer.FrameRoundTrip | kernel/archive/sniff_listener.c:68-77 | On every forged frame the walk finds the payload's start and exact length, never the padding, whatever the buffer held before. |
| Sniffer.AtoiDecimal | kernel/archive/sniff_listener.c:80-82 | Reading back five printed digits gives the port. |
| Sniffer.AtoiReads | kernel/archive/sniff_listener.c:82-82 | Blanks, at most one sign, digits and anything that continues none of them are read as the signed number the digits write. |
| Sniffer.ForgedReport | kernel/archive/sniff_listener.c:68-84 | A forged frame whose payload is 0x50, 0x4F, 0x52, 0x54, the five digits of a port and anything is reported as that port, for every port. |
| Sniffer.Listener.Load | kernel/archive/sniff_listener.c:65-66 | The front of the reused buffer is overwritten; what does not fit is cut. |
| Sniffer.Listener.Decode | kernel/archive/sniff_listener.c:68-84 | The in-place walk and the payload test compute the report of the buffer's contents. |
| Sniffer.Listener.Record | kernel/archive/sniff_listener.c:85-87 | An entry is appended with the next sequence number, modulo 2^32. |
| Sniffer.Listener.Receive | kernel/archive/sniff_listener.c:64-95 | One entry, with the port, the time and the next number, is logged exactly when a frame arrived and the buffer reports a port; sequence numbers keep counting from zero. |
| Sniffer.Listener.Listen | kernel/archive/sniff_listener.c:64-95 | The loop's log is the old one with, for every round in which a port is heard, that port, that round's time and the next number. |
| Sniffer.LogEntry | kernel/archive/sniff_listener.c:83-87 | Whatever comes later, the log keeps for every round that heard a port one entry with that port, that round's time and its position modulo 2^32. |
| Sniffer.LoggedPorts | kernel/archive/sniff_listener.c:64-95 | The port column of the log grows by exactly the ports reported along the run, in order. |
| FrameVerdicts.SettledAlone | kernel/archive/sniff_listener.c:65-84 | A frame its own bytes settle is reported as they say, whatever the buffer held. |
| FrameVerdicts.ReportIff | kernel/archive/sniff_listener.c:67-84 | By the buffer's bytes: a port is reported exactly if type 0x0800, protocol 17, a length field not between 8 and 16, the bytes 0x50, 0x4F, 0x52, 0x54 behind a header of four times the low nibble, and the number behind them say so. |
| FrameVerdicts.ReportAloneIff | kernel/archive/sniff_listener.c:61-84 | A frame's report is the same in every buffer if and only if its own bytes settle it; cut headers, a cut prefix and a cut number included. |
| FrameVerdicts.NeverReportedIff | kernel/archive/sniff_listener.c:61-84 | A frame goes unreported in every buffer if and only if its own bytes say so. |
| Bursts.ForgedVerdict | kernel/archive/sniff_listener.c:68-84 | Every forged UDP frame, of any payload, settles itself: no report if its length field lies between 8 and 16 or it does not begin with PORT, otherwise the number behind it, if that is a port. |
| Bursts.ForeignSilent | kernel/archive/sniff_listener.c:79-79 | A forged frame whose payload has fewer than nine bytes or begins with other bytes than 0x50, 0x4F, 0x52, 0x54 is not reported, whatever the buffer held. |
| Bursts.RunSettled | kernel/archive/sniff_listener.c:64-95 | Over any run of frames that settle themselves, each round hears what its frame says by itself. |
| Bursts.BurstHeard | kernel/archive/sniff_listener.c:64-95 | Over any run of forged packets whose payloads are P, O, R, T and five digits, among failed receives and any frames whose own bytes rule out a report, foreign UDP included, every packet's port is reported, once and in order, and nothing else is. |
| Bursts.StaleReport | kernel/archive/sniff_listener.c:61-84 | After any burst packet a 42-byte frame without payload makes the listener report the packet's port a second time. |
| Stun.Xor32Bytes | kernel/memory_pool_optimization.c:93-95 | Taking the cookie off byte by byte takes it off the 32-bit number. |
| Binary.XorDigits | kernel/memory_pool_optimization.c:91-96 | A binary digit of the exclusive or is one exactly where the digits of the two numbers differ. |
| Stun.DecodeUndoesEncoding | kernel/memory_pool_optimization.c:91-96 | The parser's decoding undoes the encoding of section 15.2 for every address and port. |
| Stun.XorMappedDigits | kernel/memory_pool_optimization.c:89-96 | The encoded value is a zero, the family 1, and port and address with exactly the digits changed in which 0x2112, or 0x2112A442, has a one. |
| Stun.EncodedBytes | kernel/memory_pool_optimization.c:86-87 | Type and length stand in the first four bytes, the value follows, and less than four bytes fill up to a multiple of four. |
| Stun.NextAligned | kernel/memory_pool_optimization.c:100-103 | The step to the next attribute is the least multiple of four that takes in head and value, for the length in the third and fourth byte. |
| Stun.WalkStep | kernel/memory_pool_optimization.c:85-103 | One turn of the walk: the answer is found exactly at type 0x0020, a length of at least eight and family 1, and otherwise is that from the next attribute on. |
| Stun.CutCarried | kernel/memory_pool_optimization.c:85-105 | A message that ends anywhere in the padding of its last attribute still carries the list. |
| Stun.CarriesLaidOut | kernel/memory_pool_optimization.c:83-103 | An encoded list, its last padding whole, cut or missing, places every head and value where the walk reads them. |
| Stun.LaidOutWithin | kernel/memory_pool_optimization.c:85-105 | On well-formed lists the walk never reads behind the message. |
| Stun.WalkFindsFirst | kernel/memory_pool_optimization.c:85-105 | Over attributes laid out one after the other the walk yields the first IPv4 XOR-MAPPED-ADDRESS, or nothing if there is none. |
| Stun.ParseFindsFirst | kernel/memory_pool_optimization.c:81-106 | The parser's answer on any encoded list is that attribute, decoded, whatever lies behind the message or if nothing does. |
| Stun.ResponseRoundTrip | kernel/memory_pool_optimization.c:81-106 | A response with an encoded address, behind any unmapped attributes, is parsed to that address. |
| Stun.MessageDecidesIff | kernel/memory_pool_optimization.c:81-106 | All memories the walk can read give the same answer if and only if the walk stays inside the message. |
| Stun.BareHeadUndecided | kernel/memory_pool_optimization.c:81-106 | A message of 24 bytes, whose last head announces an address it does not hold, has different answers in different memories. |
| Stun.ParseXorMappedAddress | kernel/memory_pool_optimization.c:81-106 | The loop, with `remain` as its measure, computes that answer on every memory that holds what it reads. |
| StunRace.ElapsedAccurate | kernel/memory_pool_optimization.c:163-164 | The measured time is within one millisecond of the true one and not negative. |
| StunRace.ElapsedExact | kernel/memory_pool_optimization.c:163-164 | Seconds count a thousand each, and the nanoseconds between them are cut toward zero. |
| StunRace.CmpIsTotalPreorder | kernel/memory_pool_optimization.c:44-51 | The comparator is reflexive, antisymmetric in sign and transitive. |
| StunRace.SortedIff | kernel/memory_pool_optimization.c:44-51 | A table is sorted under it exactly if answered entries stand by ascending times before all unanswered ones. |
| StunRace.DeliverFirstMatch | kernel/memory_pool_optimization.c:158-173 | A datagram gives the first unanswered target whose transaction id is in its bytes 8 to 19 the time and the parsed address, if there is one, and changes no other entry. |
| StunRace.DeliverChanges | kernel/memory_pool_optimization.c:158-173 | Whatever a datagram changes is an unanswered target with exactly its transaction id, and it becomes that answer. |
| StunRace.DeliverNoMatch | kernel/memory_pool_optimization.c:157-162 | A datagram that is short, or has the transaction id of no unanswered target, changes nothing. |
| StunRace.RoundKeepsAnswers | kernel/memory_pool_optimization.c:128-183 | Over a whole receive round with arbitrary datagrams an answered entry never changes again. |
| StunRace.RunKeepsAnswers | kernel/memory_pool_optimization.c:108-183 | Along any run of send and receive rounds, in any order and to any targets, an answered entry keeps its time and address. |
| StunRace.RoundFirst | kernel/memory_pool_optimization.c:128-183 | Over a whole round an unanswered target with an id of its own takes time and address from the first datagram with that id that is read before the 100 ms are over, in whatever poll. |
| StunRace.RoundQuiet | kernel/memory_pool_optimization.c:128-183 | An entry that is no target, or whose id no datagram of the round carries, stays as it is. |
| StunRace.SendEach | kernel/memory_pool_optimization.c:112-126 | Distinct targets are asked with one request each, in order. |
| StunRace.RetryTargetsAnswered | kernel/memory_pool_optimization.c:210-214 | The retry targets are, in ascending order, exactly the answered entries that lack an address or a port other than zero. |
| StunRace.RetryChangesNoResult | kernel/memory_pool_optimization.c:210-218 | The retry round leaves every time and address as it was, whatever arrives. |
| StunRace.UnusableReached | kernel/memory_pool_optimization.c:128-183 | A response without attributes makes a freshly asked entry answered and unusable. |
| StunRace.RetryAnswerLost | kernel/memory_pool_optimization.c:210-218 | Every such entry is asked again, and a response to that request with a well-formed address leaves it as it was. |
| StunRace.EchoMatches | kernel/memory_pool_optimization.c:112-162 | A response is matched to an entry exactly if that is unanswered and bytes 8 to 19 are those of its request. |
| StunRace.RequestBytes | kernel/memory_pool_optimization.c:112-119 | The request is type 1, length 0, the cookie 0x2112A442, and the transaction id. |
| StunRace.BuildRequest | kernel/memory_pool_optimization.c:112-119 | The twenty bytes of the request: binding request, length zero, cookie, transaction id. |
| StunRace.RoundSound | kernel/memory_pool_optimization.c:128-183 | Safety over every round under a monotonic clock: unanswered entries have no address, valid entries have the nonnegative time of their own request. |
| StunRace.ResendSound | kernel/memory_pool_optimization.c:112-122 | Asking invalid entries again keeps that. |
| StunRace.FirstValidNearOptimal | kernel/memory_pool_optimization.c:237-240 | In a sorted table the first entry with an address and a port has the least measured time of all such entries, and less than 2 ms more true time than any of them. |
| StunRace.ResponseUsed | kernel/memory_pool_optimization.c:196-218 | A server whose first response in the first round holds an address and a port has them, and the time of that response, after the round. |
| StunRace.Race.SendRequest | kernel/memory_pool_optimization.c:112-122 | Only transaction id and send time of the one entry change; the request's bytes are returned. |
| StunRace.Race.BurstSendAll | kernel/memory_pool_optimization.c:124-126 | The targets are asked in order, each with its request. |
| StunRace.Race.Match | kernel/memory_pool_optimization.c:158-173 | The inner loop delivers one datagram in place. |
| StunRace.Race.ReceiveBatch | kernel/memory_pool_optimization.c:154-174 | A batch is delivered datagram by datagram, short ones skipped. |
| StunRace.Race.BurstReceive | kernel/memory_pool_optimization.c:151-181 | Polls are processed until the time limit. |
| StunRace.Race.SelectRetries | kernel/memory_pool_optimization.c:210-214 | The loop collects the retry targets in order. |
| StunRace.Race.SortByRtt | kernel/memory_pool_optimization.c:220-220 | The table is permuted and sorted under the comparator. |
| StunRace.Race.FirstValid | kernel/memory_pool_optimization.c:237-240 | The first entry with an address and a port other than zero, or -1 if there is none. |
| StunRace.Race.Rounds | kernel/memory_pool_optimization.c:205-218 | After both rounds the table is sound and its results are those of the first round. |
| StunRace.Race.Choose | kernel/memory_pool_optimization.c:196-241 | A server is chosen if and only if the first round left one with an address and a port, and a usable first response is enough for that; the chosen one is a result of the first round and nearly the fastest of all such. |
| Histograms.RepeatDistance | kernel/full_spectrum_randomness_analyzer.cpp:101-108 | The distance to the last position seen is the distance to the nearest earlier equal port. |
| Histograms.RepetitionDistances | kernel/full_spectrum_randomness_analyzer.cpp:97-108 | The count at each distance is the number of positions whose nearest earlier equal port is that far back, and all counts add up to the size minus the number of distinct ports. |
| Histograms.CycleLengths | kernel/full_spectrum_randomness_analyzer.cpp:158-172 | The same counts, for lengths strictly between 1 and 1024 only. |
| Histograms.CyclesAreRestriction | kernel/full_spectrum_randomness_analyzer.cpp:158-172 | The cycle table is exactly the restriction of the repetition histogram. |
| FlowTables.CellCounts | kernel/full_spectrum_randomness_analyzer.cpp:183-189 | Each cell is the number of neighbouring pairs. |
| FlowTables.FlowConservation | kernel/full_spectrum_randomness_analyzer.cpp:183-189 | Outgoing minus incoming count of a port is whether it is the first minus whether it is the last. |
| FlowTables.TransitionTotal | kernel/full_spectrum_randomness_analyzer.cpp:183-189 | All counts together are the number of ports minus one. |
| FlowTables.MarkovTable | kernel/full_spectrum_randomness_analyzer.cpp:182-189 | The loop builds that table, for the empty list too. |
| FlowTables.DeltaCounts | kernel/full_spectrum_randomness_analyzer.cpp:36-40 | Each entry is the number of positions at which the port minus the one before it is that difference. |
| FlowTables.DeltasTelescope | kernel/full_spectrum_randomness_analyzer.cpp:36-40 | The weighted sum of the difference histogram is last minus first port, its total the number of steps. |
| FlowTables.DeltaAnalysis | kernel/full_spectrum_randomness_analyzer.cpp:35-40 | The loop builds that histogram. |
| FlowTables.ChangesAlternate | kernel/full_spectrum_randomness_analyzer.cpp:246-268 | The counts of 01 and 10 differ by last bit minus first bit, so by at most one. |
| FlowTables.CountRuns | kernel/full_spectrum_randomness_analyzer.cpp:246-249 | The number of runs is one more than the counts of 01 and 10. |
| FlowTables.BlockFrequencies | kernel/full_spectrum_randomness_analyzer.cpp:265-268 | Every two-bit block is counted, and the total is the number of bits minus one. |
| SharedLayout.StartIsByteOffset | kernel/map_reader.c:29-44 | The block's index in ints is its byte offset. |
| SharedLayout.BlockHoldsIff | kernel/memory_map.c:51-60 | Int by int: a block begins at id times (2 + 65536 / count) with id and task count, and its ports go on from id times (65536 / count) + 1. |
| SharedLayout.WriteBlock | kernel/memory_map.c:53-59 | One block is filled in place; the blocks before it stay. |
| SharedLayout.Write | kernel/memory_map.c:25-62 | For every positive count all blocks hold their id, their task count and their consecutive ports; other counts are refused. |
| SharedLayout.Read | kernel/map_reader.c:21-50 | Exactly the ids in range are accepted, and on any memory the reader sees the id, the count and as many numbers as the count says at its own offset. |
| SharedLayout.ReaderFindsBlock | kernel/map_reader.c:29-44 | The reader's offset, by its own constants, is the writer's block. |
| SharedLayout.WriteThenRead | kernel/memory_map.c:25-62 | Reading back what was written for the same count gives the block's id, task count and consecutive ports, for every id in range. |
| SharedLayout.OwnsIffTask | kernel/memory_map.c:57-59 | A block's ports are a contiguous range. |
| SharedLayout.BlocksDisjoint | kernel/memory_map.c:51-60 | No port is in two blocks. |
| SharedLayout.BlocksCover | kernel/memory_map.c:51-60 | The ports in some block are exactly 1 to count * (65536 / count). |
| SharedLayout.Undistributed | kernel/memory_map.c:26-27 | Exactly the remainder is left over; every port is distributed if and only if the count divides 65536. |
| ExchangeSort.Sort | kernel/archive/burst_blaster.c:110-119 | The nested swaps permute the list, positive times ascending and zeros last. |
| ExchangeSort.AnsweredPrefix | kernel/archive/burst_blaster.c:122-128 | In a sorted list the answered servers come first. |
| ExchangeSort.ShowFastest | kernel/archive/burst_blaster.c:122-128 | Shown are the answered servers, five at most, and no answered server left out is faster. |

## Left out

- LinearComplexity: requires a nonempty sequence, because the code writes entry 0 of vectors that would be empty.
- PredictBits: requires a set bit, because the code erases from an empty state when the length is zero; `PredictPorts` likewise. Both run on the coefficients of the linear complexity loop; the second copy of the loop inside `lfsr_predictor` reads before the start of the stream (see above) and is not part of this model.
- ForgedIsRfc: is the case that concerns every payload of at most 131054 bytes; `ForgedIsRfcIff` decides all others.
- ParseXorMappedAddress: requires the bytes the walk reads to be memory (`Readable`), because the loop checks only for a head before it reads a value; what lies behind the message is arbitrary.
- BurstReceive: the endless loop ends at the time limit or when the given list of polls ends.
- RepetitionDistances: counters are unbounded, the code's are 32-bit; the same holds for the other tables.
- Read: requires the block and as many numbers as its count says to lie in memory; agreement with the writer is `WriteThenRead`, for the same number of VMs.
- Sockets, epoll, pcap, DNS, threads, shared-memory calls, log files and printing: I/O.
- Sending the request and the text form of addresses: only the request's bytes, time and numeric address matter to the race.
- `natghost_forge` packet assembly: the same layout as `kernel/net.c`, with a random identification field and no substitute for a zero UDP checksum.
- Entropy, autocorrelation, Fourier, chi-square and Kolmogorov-Smirnov statistics: floating point and logarithms.
- `predictive_hint_generator`: its comparator sorts ascending, so no claim about the most frequent ports holds.
- The Python scripts, `kernel/archive/burst_controller.c`, `kernel/archive/epoll_burst.c` and the sketches beside them: repetitions or reduced forms of what is modelled.
