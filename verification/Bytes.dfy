/** Bytes and the two ways a multi-byte number is laid out in them. */
module Bytes {
  import opened Common

  type Byte = b: int | 0 <= b < 256
  type Word32 = w: int | 0 <= w < 0x1_0000_0000

  /** Network byte order, as `htons` leaves it in memory. */
  function Be16(w: Word16): (s: seq<Byte>)
    ensures |s| == 2
  {
    [w / 256, w % 256]
  }

  /** Network byte order, as `htonl` leaves it in memory. */
  function Be32(w: Word32): (s: seq<Byte>)
    ensures |s| == 4
  {
    Be16(w / 0x1_0000) + Be16(w % 0x1_0000)
  }

  /** A 16-bit store by the (little-endian) host. */
  function Le16(w: Word16): (s: seq<Byte>)
    ensures |s| == 2
  {
    [w % 256, w / 256]
  }

  function Swap(w: Word16): Word16 { w % 256 * 256 + w / 256 }

  lemma {:induction false} Digits(h: Byte, l: Byte)
    ensures (256 * h + l) / 256 == h && (256 * h + l) % 256 == l
  {
  }

  function FromLe16(lo: Byte, hi: Byte): Word16 { 256 * hi + lo }

  function FromBe32(b3: Byte, b2: Byte, b1: Byte, b0: Byte): Word32 {
    0x1_0000 * FromBe16(b3, b2) + FromBe16(b1, b0)
  }

  function FromBe16(hi: Byte, lo: Byte): Word16 { 256 * hi + lo }

  function Zeros(n: nat): (s: seq<Byte>)
    ensures |s| == n
  {
    seq(n, _ => 0)
  }

  /** `s` with `bytes` written over it from position `at` on. */
  function Patch(s: seq<Byte>, at: nat, bytes: seq<Byte>): (t: seq<Byte>)
    requires at + |bytes| <= |s|
    ensures |t| == |s|
  {
    s[..at] + bytes + s[at + |bytes|..]
  }

  /** Every byte after a write is the one written there, or else the one that was there. */
  lemma PatchedByte(s: seq<Byte>, at: nat, bytes: seq<Byte>, i: nat)
    requires at + |bytes| <= |s| && i < |s|
    ensures Patch(s, at, bytes)[i] == if at <= i < at + |bytes| then bytes[i - at] else s[i]
  {
  }

  /** Two adjacent writes are one. */
  lemma PatchNext(s: seq<Byte>, at: nat, x: seq<Byte>, y: seq<Byte>)
    requires at + |x| + |y| <= |s|
    ensures Patch(Patch(s, at, x), at + |x|, y) == Patch(s, at, x + y)
  {
  }

  /** A write inside an earlier one. */
  lemma PatchInside(s: seq<Byte>, at: nat, x: seq<Byte>, p: nat, y: seq<Byte>)
    requires at + |x| <= |s| && p + |y| <= |x|
    ensures Patch(Patch(s, at, x), at + p, y) == Patch(s, at, Patch(x, p, y))
  {
  }

  /** `memcpy` of a value into a buffer. */
  method Store(buf: array<Byte>, at: nat, bytes: seq<Byte>)
    requires at + |bytes| <= buf.Length
    modifies buf
    ensures buf[..] == Patch(old(buf[..]), at, bytes)
  {
    forall k | 0 <= k < |bytes| {
      buf[at + k] := bytes[k];
    }
  }

  /** Stores `htons(w)`. */
  method PutBe16(buf: array<Byte>, at: nat, w: Word16)
    requires at + 2 <= buf.Length
    modifies buf
    ensures buf[..] == Patch(old(buf[..]), at, Be16(w))
  {
    buf[at], buf[at + 1] := w / 256, w % 256;
  }

  /** Stores `w` as the host holds it. */
  method PutLe16(buf: array<Byte>, at: nat, w: Word16)
    requires at + 2 <= buf.Length
    modifies buf
    ensures buf[..] == Patch(old(buf[..]), at, Le16(w))
  {
    buf[at], buf[at + 1] := w % 256, w / 256;
  }

  /** Stores `htonl(w)`. */
  method PutBe32(buf: array<Byte>, at: nat, w: Word32)
    requires at + 4 <= buf.Length
    modifies buf
    ensures buf[..] == Patch(old(buf[..]), at, Be32(w))
  {
    PutBe16(buf, at, w / 0x1_0000);
    PutBe16(buf, at + 2, w % 0x1_0000);
    PatchNext(old(buf[..]), at, Be16(w / 0x1_0000), Be16(w % 0x1_0000));
  }
}
