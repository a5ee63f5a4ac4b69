/**
 The attribute walk over a STUN response: type, length, value and padding to four bytes
 (section 15 of RFC 5389), looking for an IPv4 XOR-MAPPED-ADDRESS (section 15.2).
 */
module Stun {
  import opened Binary
  import opened Bytes
  import opened Common

  const MAGIC_COOKIE: Word32 := 0x2112A442
  const HEADER_LEN := 20
  const XOR_MAPPED_ADDRESS := 0x0020
  const IPV4 := 0x01

  /** A public address: the IPv4 address as a number, most significant byte first, and the port. */
  datatype Mapped = Mapped(ip: Word32, port: Word16)

  // --- Exclusive or on bytes and words --------------------------------------------------------------

  function Xor8(a: Byte, b: Byte): Byte {
    Pow2Values();
    Xor(a, b, 8)
  }

  function Xor16(a: Word16, b: Word16): Word16 {
    Pow2Values();
    Xor(a, b, 16)
  }

  function Xor32(a: Word32, b: Word32): Word32 {
    Pow2Values();
    Xor(a, b, 32)
  }

  lemma Xor16Bytes(a1: Byte, a0: Byte, b1: Byte, b0: Byte)
    ensures Xor16(FromBe16(a1, a0), FromBe16(b1, b0)) == FromBe16(Xor8(a1, b1), Xor8(a0, b0))
  {
    Pow2Values();
    ShlBytes(a1);
    ShlBytes(b1);
    ShlBytes(Xor8(a1, b1));
    XorConcat(a1, b1, 8, a0, b0, 8, FromBe16(a1, a0), FromBe16(b1, b0));
  }

  /** Taking the cookie off byte by byte is taking it off the whole number. */
  lemma Xor32Bytes(a3: Byte, a2: Byte, a1: Byte, a0: Byte, b3: Byte, b2: Byte, b1: Byte, b0: Byte)
    ensures FromBe32(Xor8(a3, b3), Xor8(a2, b2), Xor8(a1, b1), Xor8(a0, b0))
         == Xor32(FromBe32(a3, a2, a1, a0), FromBe32(b3, b2, b1, b0))
  {
    Xor16Bytes(a3, a2, b3, b2);
    Xor16Bytes(a1, a0, b1, b0);
    Xor32Halves(FromBe16(a3, a2), FromBe16(b3, b2), FromBe16(a1, a0), FromBe16(b1, b0),
                FromBe32(a3, a2, a1, a0), FromBe32(b3, b2, b1, b0));
  }

  lemma Xor32Halves(a: Word16, b: Word16, c: Word16, d: Word16, m: Word32, n: Word32)
    requires m == 0x1_0000 * a + c && n == 0x1_0000 * b + d
    ensures Xor32(m, n) == 0x1_0000 * Xor16(a, b) + Xor16(c, d)
  {
    Pow2Values();
    ShlBytes(a);
    ShlBytes(b);
    ShlBytes(Xor16(a, b));
    XorConcat(a, b, 16, c, d, 16, m, n);
  }

  // --- The attributes -------------------------------------------------------------------------------

  datatype Attribute = Attribute(typ: Word16, value: seq<Byte>, padding: seq<Byte>)

  function PaddingOf(n: nat): nat { if n % 4 == 0 then 0 else 4 - n % 4 }

  /** The length fits its field and the value is padded to a multiple of four, with any bytes. */
  predicate WellFormed(a: Attribute) {
    |a.value| < 0x1_0000 && |a.padding| == PaddingOf(|a.value|)
  }

  function Head(typ: Word16, alen: nat): (s: seq<Byte>)
    requires alen < 0x1_0000
    ensures |s| == 4
  {
    Be16(typ) + Be16(alen)
  }

  function Encode(a: Attribute): (s: seq<Byte>)
    requires WellFormed(a)
    ensures |s| == 4 + |a.value| + PaddingOf(|a.value|)
  {
    Head(a.typ, |a.value|) + a.value + a.padding
  }

  /** Type and length stand in the head, the value follows, and at most three bytes fill up to a multiple of four. */
  lemma EncodedBytes(a: Attribute)
    requires WellFormed(a)
    ensures var e := Encode(a);
      && |e| % 4 == 0 && 4 + |a.value| <= |e| < 8 + |a.value|
      && 256 * (e[0] as int) + e[1] == a.typ && 256 * (e[2] as int) + e[3] == |a.value|
      && e[4..4 + |a.value|] == a.value && e[4 + |a.value|..] == a.padding
  {
    PaddingAligns(|a.value|);
    HeadLoads(a.typ, |a.value|);
    Parts(Encode(a), Head(a.typ, |a.value|), a.value, a.padding);
  }

  lemma PaddingAligns(n: nat)
    ensures (4 + n + PaddingOf(n)) % 4 == 0 && PaddingOf(n) < 4
  {
  }

  lemma Parts(e: seq<Byte>, h: seq<Byte>, value: seq<Byte>, padding: seq<Byte>)
    requires |h| == 4 && e == h + value + padding
    ensures e[0] == h[0] && e[1] == h[1] && e[2] == h[2] && e[3] == h[3]
    ensures e[4..4 + |value|] == value && e[4 + |value|..] == padding
  {
  }

  predicate AllWellFormed(attrs: seq<Attribute>) {
    attrs == [] || (WellFormed(attrs[0]) && AllWellFormed(attrs[1..]))
  }

  function LastPadding(attrs: seq<Attribute>): nat {
    if attrs == [] then 0 else if |attrs| == 1 then |attrs[0].padding| else LastPadding(attrs[1..])
  }

  ghost function EncodeAll(attrs: seq<Attribute>): (s: seq<Byte>)
    requires AllWellFormed(attrs)
  {
    if attrs == [] then [] else Encode(attrs[0]) + EncodeAll(attrs[1..])
  }

  predicate IsMapped(a: Attribute) {
    a.typ == XOR_MAPPED_ADDRESS && |a.value| >= 8 && a.value[1] == IPV4
  }

  /** What the parser makes of a value of at least eight bytes. */
  function Decode(value: seq<Byte>): Mapped
    requires |value| >= 8
  {
    Mapped(FromBe32(Xor8(value[4], 0x21), Xor8(value[5], 0x12), Xor8(value[6], 0xA4), Xor8(value[7], 0x42)),
           Xor16(FromBe16(value[2], value[3]), MAGIC_COOKIE / 0x1_0000))
  }

  /** The value as section 15.2 builds it: address and port combined with the cookie, in network byte order. */
  function XorMappedValue(m: Mapped): (s: seq<Byte>)
    ensures |s| == 8
  {
    [0, IPV4] + Be16(Xor16(m.port, 0x2112)) + Be32(Xor32(m.ip, MAGIC_COOKIE))
  }

  lemma DecodeUndoesEncoding(m: Mapped)
    ensures Decode(XorMappedValue(m)) == m
  {
    var x, y := Xor32(m.ip, MAGIC_COOKIE), Xor16(m.port, 0x2112);
    ValueFields(XorMappedValue(m), x, y);
    DecodeWords(XorMappedValue(m), x, y);
    UndoCookie(m);
  }

  /** The two numbers a value was built from. */
  lemma ValueFields(v: seq<Byte>, x: Word32, y: Word16)
    requires v == [0, IPV4] + Be16(y) + Be32(x)
    ensures FromBe16(v[2], v[3]) == y && FromBe32(v[4], v[5], v[6], v[7]) == x
  {
    assert v[2..4] == Be16(y) && v[4..6] == Be16(x / 0x1_0000) && v[6..8] == Be16(x % 0x1_0000);
    Be16Value(v, 2, y);
    Be16Value(v, 4, x / 0x1_0000);
    Be16Value(v, 6, x % 0x1_0000);
  }

  /**
   The encoded value: a zero, the family 1, and port and address with exactly those binary digits
   changed in which the cookie 0x2112A442, or its upper half, has a one.
   */
  lemma XorMappedDigits(m: Mapped)
    ensures var v := XorMappedValue(m);
      && v[0] == 0 && v[1] == 1
      && (forall i :: 0 <= i < 16 ==> (Shr(FromBe16(v[2], v[3]), i) % 2 == 1 <==> Shr(m.port, i) % 2 != Shr(0x2112, i) % 2))
      && (forall i :: 0 <= i < 32 ==>
            (Shr(FromBe32(v[4], v[5], v[6], v[7]), i) % 2 == 1 <==> Shr(m.ip, i) % 2 != Shr(0x2112A442, i) % 2))
  {
    ValueFields(XorMappedValue(m), Xor32(m.ip, MAGIC_COOKIE), Xor16(m.port, 0x2112));
    forall i | 0 <= i < 16
      ensures Shr(Xor16(m.port, 0x2112), i) % 2 == 1 <==> Shr(m.port, i) % 2 != Shr(0x2112, i) % 2
    {
      XorDigits(m.port, 0x2112, 16, i);
    }
    forall i | 0 <= i < 32
      ensures Shr(Xor32(m.ip, MAGIC_COOKIE), i) % 2 == 1 <==> Shr(m.ip, i) % 2 != Shr(MAGIC_COOKIE, i) % 2
    {
      XorDigits(m.ip, MAGIC_COOKIE, 32, i);
    }
  }

  /** The parser's bytewise work amounts to taking the cookie off both numbers. */
  lemma DecodeWords(v: seq<Byte>, x: Word32, y: Word16)
    requires |v| >= 8 && FromBe16(v[2], v[3]) == y && FromBe32(v[4], v[5], v[6], v[7]) == x
    ensures Decode(v) == Mapped(Xor32(x, MAGIC_COOKIE), Xor16(y, MAGIC_COOKIE / 0x1_0000))
  {
    assert FromBe32(0x21, 0x12, 0xA4, 0x42) == MAGIC_COOKIE;
    Xor32Bytes(v[4], v[5], v[6], v[7], 0x21, 0x12, 0xA4, 0x42);
  }

  lemma UndoCookie(m: Mapped)
    ensures Xor32(Xor32(m.ip, MAGIC_COOKIE), MAGIC_COOKIE) == m.ip
    ensures Xor16(Xor16(m.port, 0x2112), MAGIC_COOKIE / 0x1_0000) == m.port
  {
    Pow2Values();
    XorUndo(m.ip, MAGIC_COOKIE, 32);
    XorUndo(m.port, 0x2112, 16);
  }

  lemma Be16Value(s: seq<Byte>, at: nat, w: Word16)
    requires at + 2 <= |s| && s[at..at + 2] == Be16(w)
    ensures FromBe16(s[at], s[at + 1]) == w
  {
    assert s[at] == s[at..at + 2][0] && s[at + 1] == s[at..at + 2][1];
  }

  /** The first eight bytes of the first IPv4 XOR-MAPPED-ADDRESS of a list of attributes. */
  function FirstMapped(attrs: seq<Attribute>): (r: Option<seq<Byte>>)
    ensures r.Some? ==> |r.value| == 8
  {
    if attrs == [] then None
    else if IsMapped(attrs[0]) then Some(attrs[0].value[..8])
    else FirstMapped(attrs[1..])
  }

  // --- The walk -------------------------------------------------------------------------------------

  /** The attribute at `pos` has the type and the length the parser looks for. */
  predicate Candidate(buf: seq<Byte>, pos: nat)
    requires pos + 4 <= |buf|
  {
    FromBe16(buf[pos], buf[pos + 1]) == XOR_MAPPED_ADDRESS && FromBe16(buf[pos + 2], buf[pos + 3]) as nat >= 8
  }

  /** Where the attribute after the one at `pos` begins. */
  function Next(buf: seq<Byte>, pos: nat): (next: nat)
    requires pos + 4 <= |buf|
    ensures next >= pos + 4 && (Candidate(buf, pos) ==> next >= pos + 12)
  {
    var alen: nat := FromBe16(buf[pos + 2], buf[pos + 3]);
    pos + 4 + alen + PaddingOf(alen)
  }

  /** The next attribute begins at the first multiple of four, counted from this one, behind the value. */
  lemma NextAligned(buf: seq<Byte>, pos: nat)
    requires pos + 4 <= |buf|
    ensures var alen := 256 * (buf[pos + 2] as int) + buf[pos + 3];
      (Next(buf, pos) - pos) % 4 == 0 && pos + 4 + alen <= Next(buf, pos) < pos + 8 + alen
  {
  }

  /**
   The walk from `pos` over a message of `len` bytes reads nothing at or behind `limit`. The code
   makes sure only of the four bytes of each head.
   */
  predicate Within(buf: seq<Byte>, pos: nat, len: nat, limit: nat)
    requires len <= limit <= |buf|
    decreases len - pos
  {
    if len - pos < 4 then true
    else if Candidate(buf, pos) then
      pos + 6 <= limit && if buf[pos + 5] == IPV4 then pos + 12 <= limit else Within(buf, Next(buf, pos), len, limit)
    else Within(buf, Next(buf, pos), len, limit)
  }

  /** The walk from position `pos` of a message of `len` bytes. */
  function Walk(buf: seq<Byte>, pos: nat, len: nat): (r: Option<seq<Byte>>)
    requires len <= |buf| && Within(buf, pos, len, |buf|)
    ensures r.Some? ==> |r.value| == 8
    decreases len - pos
  {
    if len - pos < 4 then None
    else if Candidate(buf, pos) && buf[pos + 5] == IPV4 then Some(buf[pos + 4..pos + 12])
    else Walk(buf, Next(buf, pos), len)
  }

  /** What one turn looks at: the type 0x0020, a length of at least eight, the family 1. */
  lemma WalkStep(buf: seq<Byte>, pos: nat, len: nat)
    requires len <= |buf| && Within(buf, pos, len, |buf|) && pos + 4 <= len
    ensures var wanted := buf[pos] == 0x00 && buf[pos + 1] == 0x20 && 256 * (buf[pos + 2] as int) + buf[pos + 3] >= 8;
      && (wanted ==> pos + 5 < |buf|)
      && (wanted && buf[pos + 5] == 1 ==> pos + 12 <= |buf| && Walk(buf, pos, len) == Some(buf[pos + 4..pos + 12]))
      && (!(wanted && buf[pos + 5] == 1) ==> Within(buf, Next(buf, pos), len, |buf|) && Walk(buf, pos, len) == Walk(buf, Next(buf, pos), len))
  {
  }

  /** Everything the parser reads of the message, and possibly behind it, lies in memory. */
  predicate Readable(buf: seq<Byte>, len: nat) {
    len <= |buf| && (len >= HEADER_LEN ==> Within(buf, HEADER_LEN, len, |buf|))
  }

  function DecodeAny(value: Option<seq<Byte>>): Option<Mapped>
    requires value.Some? ==> |value.value| == 8
  {
    match value
    case None => None
    case Some(v) => Some(Decode(v))
  }

  /** The parser's answer on a message of `len` bytes. */
  function Parse(buf: seq<Byte>, len: nat): Option<Mapped>
    requires Readable(buf, len)
  {
    if len < HEADER_LEN then None else DecodeAny(Walk(buf, HEADER_LEN, len))
  }

  /** Up to its last padding, which may be missing in part, the message from `pos` on is the list. */
  ghost predicate Carries(buf: seq<Byte>, pos: nat, len: nat, attrs: seq<Attribute>)
    requires pos <= len <= |buf|
  {
    && AllWellFormed(attrs)
    && len - pos <= |EncodeAll(attrs)|
    && |EncodeAll(attrs)| <= len - pos + LastPadding(attrs)
    && buf[pos..len] == EncodeAll(attrs)[..len - pos]
  }

  /** The whole message is the list. */
  lemma WholeCarried(buf: seq<Byte>, pos: nat, len: nat, attrs: seq<Attribute>)
    requires pos <= len <= |buf| && AllWellFormed(attrs) && buf[pos..len] == EncodeAll(attrs)
    ensures Carries(buf, pos, len, attrs)
  {
  }

  /** The message is the list, but may end anywhere in the padding of its last attribute. */
  lemma {:induction false} CutCarried(buf: seq<Byte>, pos: nat, len: nat, attrs: seq<Attribute>, a: Attribute, cut: nat)
    requires pos <= len <= |buf| && AllWellFormed(attrs) && WellFormed(a) && cut <= |a.padding|
    requires buf[pos..len] == EncodeAll(attrs) + Encode(a)[..|Encode(a)| - cut]
    ensures Carries(buf, pos, len, attrs + [a])
  {
    EncodeAppend(attrs, a);
    var all := EncodeAll(attrs) + Encode(a);
    assert all[..len - pos] == EncodeAll(attrs) + Encode(a)[..|Encode(a)| - cut];
  }

  /** The attributes are encoded one behind the other. */
  lemma {:induction false} EncodeAppend(attrs: seq<Attribute>, a: Attribute)
    requires AllWellFormed(attrs) && WellFormed(a)
    ensures AllWellFormed(attrs + [a]) && LastPadding(attrs + [a]) == |a.padding|
    ensures EncodeAll(attrs + [a]) == EncodeAll(attrs) + Encode(a)
  {
    var all := attrs + [a];
    if attrs == [] {
      assert all[1..] == [] && EncodeAll(all) == Encode(a) + EncodeAll([]);
    } else {
      assert all[1..] == attrs[1..] + [a];
      EncodeAppend(attrs[1..], a);
      assert EncodeAll(all) == Encode(attrs[0]) + (EncodeAll(attrs[1..]) + Encode(a));
    }
  }

  lemma HeadLoads(typ: Word16, alen: nat)
    requires alen < 0x1_0000
    ensures var h := Head(typ, alen);
      FromBe16(h[0], h[1]) == typ && FromBe16(h[2], h[3]) == alen
  {
    Be16Value(Head(typ, alen), 0, typ);
    Be16Value(Head(typ, alen), 2, alen);
  }

  lemma SliceFront(buf: seq<Byte>, pos: nat, len: nat, all: seq<Byte>, k: nat)
    requires pos + k <= len <= |buf| && len - pos <= |all| && buf[pos..len] == all[..len - pos]
    ensures buf[pos..pos + k] == all[..k]
  {
    forall i | 0 <= i < k
      ensures buf[pos + i] == all[i]
    {
      assert buf[pos..len][i] == all[..len - pos][i];
    }
  }

  /** The head and the value of the first attribute lie in the buffer where the walk reads them. */
  lemma HeadOf(buf: seq<Byte>, pos: nat, len: nat, attrs: seq<Attribute>)
    requires pos <= len <= |buf| && attrs != [] && Carries(buf, pos, len, attrs)
    ensures BeginsAt(buf, pos, len, attrs[0])
  {
    var a := attrs[0];
    var all := EncodeAll(attrs);
    if |attrs| > 1 {
      LastFits(attrs[1..]);
    }
    var head := Head(a.typ, |a.value|) + a.value;
    assert all[..4 + |a.value|] == head;
    SliceFront(buf, pos, len, all, 4 + |a.value|);
    assert head[4..] == a.value;
    var h := buf[pos..pos + 4 + |a.value|];
    assert buf[pos] == h[0] && buf[pos + 1] == h[1] && buf[pos + 2] == h[2] && buf[pos + 3] == h[3];
    assert buf[pos + 4..pos + 4 + |a.value|] == h[4..];
    HeadLoads(a.typ, |a.value|);
  }

  /** A nonempty list is at least as long as its last padding. */
  lemma {:induction false} LastFits(attrs: seq<Attribute>)
    requires attrs != [] && AllWellFormed(attrs)
    ensures |EncodeAll(attrs)| >= 4 + LastPadding(attrs)
  {
    if |attrs| > 1 {
      LastFits(attrs[1..]);
    }
  }

  /** Attribute `a` begins at `pos`, and its value ends inside the message. */
  ghost predicate BeginsAt(buf: seq<Byte>, pos: nat, len: nat, a: Attribute)
    requires len <= |buf|
  {
    && WellFormed(a) && pos + 4 + |a.value| <= len
    && FromBe16(buf[pos], buf[pos + 1]) == a.typ
    && FromBe16(buf[pos + 2], buf[pos + 3]) as nat == |a.value|
    && buf[pos + 4..pos + 4 + |a.value|] == a.value
  }

  /** The attributes follow each other from `pos` on, and nothing follows the last one. */
  ghost predicate LaidOut(buf: seq<Byte>, pos: nat, len: nat, attrs: seq<Attribute>)
    requires len <= |buf|
    decreases |attrs|
  {
    if attrs == [] then pos >= len
    else BeginsAt(buf, pos, len, attrs[0]) && LaidOut(buf, pos + 4 + |attrs[0].value| + PaddingOf(|attrs[0].value|), len, attrs[1..])
  }

  /** Skipping the first of several attributes leaves the message at the rest of the list. */
  lemma SkipOne(buf: seq<Byte>, pos: nat, len: nat, attrs: seq<Attribute>)
    requires pos <= len <= |buf| && |attrs| > 1 && Carries(buf, pos, len, attrs)
    ensures var next := pos + |Encode(attrs[0])|;
      next <= len && Carries(buf, next, len, attrs[1..])
  {
    var n := |Encode(attrs[0])|;
    LastFits(attrs[1..]);
    assert buf[pos + n..len] == buf[pos..len][n..];
    assert EncodeAll(attrs)[..len - pos][n..] == EncodeAll(attrs[1..])[..len - pos - n];
  }

  /** Skipping the last attribute ends the message, possibly inside its padding. */
  lemma SkipLast(buf: seq<Byte>, pos: nat, len: nat, attrs: seq<Attribute>)
    requires pos <= len <= |buf| && |attrs| == 1 && Carries(buf, pos, len, attrs)
    ensures pos + |Encode(attrs[0])| >= len
  {
    assert attrs[1..] == [];
    assert EncodeAll(attrs) == Encode(attrs[0]) + EncodeAll(attrs[1..]) == Encode(attrs[0]);
  }

  /** A message whose bytes are the encoded list has the attributes one after the other. */
  lemma {:induction false} CarriesLaidOut(buf: seq<Byte>, pos: nat, len: nat, attrs: seq<Attribute>)
    requires pos <= len <= |buf| && Carries(buf, pos, len, attrs)
    ensures LaidOut(buf, pos, len, attrs)
    decreases |attrs|
  {
    if attrs != [] {
      var next := pos + 4 + |attrs[0].value| + PaddingOf(|attrs[0].value|);
      HeadOf(buf, pos, len, attrs);
      if |attrs| == 1 {
        SkipLast(buf, pos, len, attrs);
        assert attrs[1..] == [] && next >= len;
      } else {
        SkipOne(buf, pos, len, attrs);
        CarriesLaidOut(buf, next, len, attrs[1..]);
      }
      assert LaidOut(buf, next, len, attrs[1..]);
    }
  }

  /** The test at an attribute sees that attribute, inside the message. */
  lemma HeadSeen(buf: seq<Byte>, pos: nat, len: nat, a: Attribute)
    requires len <= |buf| && BeginsAt(buf, pos, len, a)
    ensures IsMapped(a) <==> Candidate(buf, pos) && buf[pos + 5] == IPV4
    ensures Candidate(buf, pos) ==> |a.value| >= 8 && buf[pos + 4..pos + 12] == a.value[..8]
    ensures Next(buf, pos) == pos + 4 + |a.value| + PaddingOf(|a.value|)
  {
    if |a.value| >= 8 {
      var v := buf[pos + 4..pos + 4 + |a.value|];
      assert buf[pos + 5] == v[1];
      assert buf[pos + 4..pos + 12] == v[..8];
    }
  }

  /** On well-formed attributes the walk stays inside the message. */
  lemma {:induction false} LaidOutWithin(buf: seq<Byte>, pos: nat, len: nat, attrs: seq<Attribute>, limit: nat)
    requires len <= limit <= |buf| && LaidOut(buf, pos, len, attrs)
    ensures Within(buf, pos, len, limit)
    decreases |attrs|
  {
    if attrs != [] {
      HeadSeen(buf, pos, len, attrs[0]);
      LaidOutWithin(buf, pos + 4 + |attrs[0].value| + PaddingOf(|attrs[0].value|), len, attrs[1..], limit);
    }
  }

  /** The walk over well-formed attributes finds the first mapped address, and none when there is none. */
  lemma {:induction false} WalkFindsFirst(buf: seq<Byte>, pos: nat, len: nat, attrs: seq<Attribute>)
    requires len <= |buf| && LaidOut(buf, pos, len, attrs)
    ensures Within(buf, pos, len, len)
    ensures Within(buf, pos, len, |buf|) && Walk(buf, pos, len) == FirstMapped(attrs)
    decreases |attrs|
  {
    LaidOutWithin(buf, pos, len, attrs, len);
    LaidOutWithin(buf, pos, len, attrs, |buf|);
    if attrs != [] {
      HeadSeen(buf, pos, len, attrs[0]);
      WalkFindsFirst(buf, pos + 4 + |attrs[0].value| + PaddingOf(|attrs[0].value|), len, attrs[1..]);
    }
  }

  /** The parser's answer on a message that carries a list of attributes: the first mapped address, decoded. */
  lemma ParseFindsFirst(buf: seq<Byte>, len: nat, attrs: seq<Attribute>)
    requires HEADER_LEN <= len <= |buf| && Carries(buf, HEADER_LEN, len, attrs)
    ensures Readable(buf, len) && Parse(buf, len) == DecodeAny(FirstMapped(attrs))
  {
    CarriesLaidOut(buf, HEADER_LEN, len, attrs);
    WalkFindsFirst(buf, HEADER_LEN, len, attrs);
  }

  /** A response whose first mapped attribute encodes `m` is parsed to `m`, whatever stands around it. */
  lemma ResponseRoundTrip(buf: seq<Byte>, len: nat, before: seq<Attribute>, m: Mapped, padding: seq<Byte>, after: seq<Attribute>)
    requires HEADER_LEN <= len <= |buf|
    requires forall a :: a in before ==> !IsMapped(a)
    requires Carries(buf, HEADER_LEN, len, before + [Attribute(XOR_MAPPED_ADDRESS, XorMappedValue(m), padding)] + after)
    ensures Readable(buf, len) && Parse(buf, len) == Some(m)
  {
    ParseFindsFirst(buf, len, before + [Attribute(XOR_MAPPED_ADDRESS, XorMappedValue(m), padding)] + after);
    FirstIsValue(before, m, padding, after);
    DecodeUndoesEncoding(m);
  }

  lemma FirstIsValue(before: seq<Attribute>, m: Mapped, padding: seq<Byte>, after: seq<Attribute>)
    requires forall a :: a in before ==> !IsMapped(a)
    ensures FirstMapped(before + [Attribute(XOR_MAPPED_ADDRESS, XorMappedValue(m), padding)] + after) == Some(XorMappedValue(m))
  {
    FirstAfter(before, Attribute(XOR_MAPPED_ADDRESS, XorMappedValue(m), padding), after);
    assert XorMappedValue(m)[..8] == XorMappedValue(m);
  }

  lemma {:induction false} FirstAfter(before: seq<Attribute>, a: Attribute, after: seq<Attribute>)
    requires IsMapped(a) && forall x :: x in before ==> !IsMapped(x)
    ensures FirstMapped(before + [a] + after) == Some(a.value[..8])
  {
    var all := before + [a] + after;
    if before == [] {
      assert all[0] == a;
    } else {
      assert all[1..] == before[1..] + [a] + after;
      FirstAfter(before[1..], a, after);
    }
  }

  // --- When the message decides the answer ----------------------------------------------------------

  /** Eight bytes of memory behind the message are always enough. */
  lemma {:induction false} SlackSuffices(buf: seq<Byte>, pos: nat, len: nat)
    requires len + 8 <= |buf|
    ensures Within(buf, pos, len, |buf|)
    decreases len - pos
  {
    if len - pos >= 4 {
      SlackSuffices(buf, Next(buf, pos), len);
    }
  }

  /** A walk that stays inside the message is the same whatever lies behind it. */
  lemma {:induction false} WalkInside(msg: seq<Byte>, tail: seq<Byte>, pos: nat)
    requires Within(msg, pos, |msg|, |msg|)
    ensures Within(msg + tail, pos, |msg|, |msg + tail|)
    ensures Walk(msg + tail, pos, |msg|) == Walk(msg, pos, |msg|)
    decreases |msg| - pos
  {
    var buf := msg + tail;
    if |msg| - pos >= 4 {
      SameHead(msg, tail, pos);
      if Candidate(msg, pos) && msg[pos + 5] == IPV4 {
        assert buf[pos + 4..pos + 12] == msg[pos + 4..pos + 12];
      } else {
        WalkInside(msg, tail, Next(msg, pos));
      }
    }
  }

  lemma SameHead(msg: seq<Byte>, tail: seq<Byte>, pos: nat)
    requires pos + 4 <= |msg|
    ensures Candidate(msg + tail, pos) == Candidate(msg, pos) && Next(msg + tail, pos) == Next(msg, pos)
    ensures pos + 6 <= |msg| ==> (msg + tail)[pos + 5] == msg[pos + 5]
  {
  }

  function Ones(n: nat): (s: seq<Byte>)
    ensures |s| == n
  {
    seq(n, _ => 1)
  }

  /** The value found with one tail behind the message, and another one or none with the other. */
  ghost predicate Differ(msg: seq<Byte>, pos: nat)
    requires Within(msg + Zeros(8), pos, |msg|, |msg| + 8) && Within(msg + Ones(8), pos, |msg|, |msg| + 8)
  {
    var zero, one := Walk(msg + Zeros(8), pos, |msg|), Walk(msg + Ones(8), pos, |msg|);
    one.Some? && (zero.None? || zero.value[7] != one.value[7])
  }

  /** A walk that leaves the message ends in bytes that are not the message's. */
  lemma {:induction false} WalkOutside(msg: seq<Byte>, pos: nat)
    requires !Within(msg, pos, |msg|, |msg|)
    ensures Within(msg + Zeros(8), pos, |msg|, |msg| + 8) && Within(msg + Ones(8), pos, |msg|, |msg| + 8)
    ensures Differ(msg, pos)
    decreases |msg| - pos
  {
    SlackSuffices(msg + Zeros(8), pos, |msg|);
    SlackSuffices(msg + Ones(8), pos, |msg|);
    SameHead(msg, Zeros(8), pos);
    SameHead(msg, Ones(8), pos);
    if Candidate(msg, pos) && (pos + 6 > |msg| || msg[pos + 5] == IPV4) {
      LeavesHere(msg, pos);
    } else {
      WalkOutside(msg, Next(msg, pos));
    }
  }

  lemma LeavesHere(msg: seq<Byte>, pos: nat)
    requires pos + 4 <= |msg| && Candidate(msg, pos) && !Within(msg, pos, |msg|, |msg|)
    requires pos + 6 > |msg| || msg[pos + 5] == IPV4
    requires Within(msg + Zeros(8), pos, |msg|, |msg| + 8) && Within(msg + Ones(8), pos, |msg|, |msg| + 8)
    ensures Differ(msg, pos)
  {
    var z, o := msg + Zeros(8), msg + Ones(8);
    SameHead(msg, Zeros(8), pos);
    SameHead(msg, Ones(8), pos);
    assert o[pos + 5] == IPV4;
    assert Walk(o, pos, |msg|) == Some(o[pos + 4..pos + 12]);
    if pos + 6 <= |msg| {
      assert Walk(z, pos, |msg|) == Some(z[pos + 4..pos + 12]);
      assert z[pos + 11] == 0 && o[pos + 11] == 1;
    } else {
      assert z[pos + 5] == 0;
      assert Walk(z, pos, |msg|) == Walk(z, Next(z, pos), |msg|);
    }
  }

  /** The last byte of a value is seen in the address. */
  lemma DecodeLastByte(v: seq<Byte>, w: seq<Byte>)
    requires |v| == |w| == 8 && v[7] != w[7]
    ensures Decode(v) != Decode(w)
  {
    Pow2Values();
    XorUndo(v[7], 0x42, 8);
    XorUndo(w[7], 0x42, 8);
    assert Xor8(v[7], 0x42) != Xor8(w[7], 0x42);
    LowByteSeen(FromBe16(Xor8(v[4], 0x21), Xor8(v[5], 0x12)), Xor8(v[6], 0xA4), Xor8(v[7], 0x42),
                FromBe16(Xor8(w[4], 0x21), Xor8(w[5], 0x12)), Xor8(w[6], 0xA4), Xor8(w[7], 0x42));
  }

  lemma LowByteSeen(h: Word16, b1: Byte, b0: Byte, h': Word16, c1: Byte, c0: Byte)
    requires b0 != c0
    ensures 0x1_0000 * h + FromBe16(b1, b0) != 0x1_0000 * h' + FromBe16(c1, c0)
  {
    var x: int, y: int := 256 * h + b1, 256 * h' + c1;
    if x < y {
      assert 256 * x + 256 <= 256 * y;
    } else if y < x {
      assert 256 * y + 256 <= 256 * x;
    }
  }

  /** The answer depends on the message alone exactly when the walk never leaves it. */
  lemma MessageDecidesIff(msg: seq<Byte>)
    requires |msg| >= HEADER_LEN
    ensures Within(msg, HEADER_LEN, |msg|, |msg|) <==>
            forall t, t' :: Readable(msg + t, |msg|) && Readable(msg + t', |msg|) ==>
              Parse(msg + t, |msg|) == Parse(msg + t', |msg|)
  {
    if Within(msg, HEADER_LEN, |msg|, |msg|) {
      forall t, t' | Readable(msg + t, |msg|) && Readable(msg + t', |msg|)
        ensures Parse(msg + t, |msg|) == Parse(msg + t', |msg|)
      {
        WalkInside(msg, t, HEADER_LEN);
        WalkInside(msg, t', HEADER_LEN);
      }
    } else {
      WalkOutside(msg, HEADER_LEN);
      var z, o := msg + Zeros(8), msg + Ones(8);
      DifferentAnswers(z, o, |msg|, Walk(z, HEADER_LEN, |msg|), Walk(o, HEADER_LEN, |msg|));
    }
  }

  lemma DifferentAnswers(z: seq<Byte>, o: seq<Byte>, len: nat, zero: Option<seq<Byte>>, one: Option<seq<Byte>>)
    requires HEADER_LEN <= len <= |z| && len <= |o|
    requires Within(z, HEADER_LEN, len, |z|) && Walk(z, HEADER_LEN, len) == zero
    requires Within(o, HEADER_LEN, len, |o|) && Walk(o, HEADER_LEN, len) == one
    requires one.Some? && (zero.None? || zero.value[7] != one.value[7])
    ensures Readable(z, len) && Readable(o, len) && Parse(z, len) != Parse(o, len)
  {
    ParseIsDecoded(z, len, zero);
    ParseIsDecoded(o, len, one);
    AnswersDiffer(zero, one);
  }

  lemma ParseIsDecoded(buf: seq<Byte>, len: nat, found: Option<seq<Byte>>)
    requires HEADER_LEN <= len <= |buf| && Within(buf, HEADER_LEN, len, |buf|) && Walk(buf, HEADER_LEN, len) == found
    ensures Readable(buf, len) && Parse(buf, len) == DecodeAny(found)
  {
  }

  lemma AnswersDiffer(zero: Option<seq<Byte>>, one: Option<seq<Byte>>)
    requires (zero.Some? ==> |zero.value| == 8) && one.Some? && |one.value| == 8
    requires zero.None? || zero.value[7] != one.value[7]
    ensures DecodeAny(zero) != DecodeAny(one)
  {
    if zero.Some? {
      DecodeLastByte(zero.value, one.value);
    }
  }

  /** For one, a message that ends behind the head of a mapped address. */
  lemma BareHeadUndecided()
    ensures var msg: seq<Byte> := Zeros(20) + [0x00, 0x20, 0x00, 0x08];
      && Readable(msg + Zeros(8), |msg|) && Readable(msg + Ones(8), |msg|)
      && Parse(msg + Zeros(8), |msg|) != Parse(msg + Ones(8), |msg|)
  {
    var msg: seq<Byte> := Zeros(20) + [0x00, 0x20, 0x00, 0x08];
    assert Candidate(msg, 20);
    WalkOutside(msg, HEADER_LEN);
    var z, o := msg + Zeros(8), msg + Ones(8);
    DifferentAnswers(z, o, |msg|, Walk(z, HEADER_LEN, |msg|), Walk(o, HEADER_LEN, |msg|));
  }

  // --- The loop -------------------------------------------------------------------------------------

  method ParseXorMappedAddress(buf: seq<Byte>, len: nat) returns (r: Option<Mapped>)
    requires Readable(buf, len)
    ensures r == Parse(buf, len)
  {
    if len < HEADER_LEN {
      return None;
    }
    var attr := HEADER_LEN;
    var remain: int := len - HEADER_LEN;
    ghost var found := Walk(buf, HEADER_LEN, len);
    while remain >= 4
      invariant attr + remain == len
      invariant Within(buf, attr, len, |buf|) && Walk(buf, attr, len) == found
      decreases remain
    {
      var typ := FromBe16(buf[attr], buf[attr + 1]);
      var alen: nat := FromBe16(buf[attr + 2], buf[attr + 3]);
      if typ == XOR_MAPPED_ADDRESS && alen >= 8 {
        var family := buf[attr + 5];
        if family == IPV4 {
          assert found == Some(buf[attr + 4..attr + 12]);
          r := Uncover(buf, attr);
          return;
        }
      }
      var skip := 4 + alen;
      if alen % 4 != 0 {
        skip := skip + (4 - alen % 4);
      }
      assert attr + skip == Next(buf, attr);
      attr := attr + skip;
      remain := remain - skip;
    }
    return None;
  }

  /** Takes the cookie off port and address of the attribute at `attr`. */
  method Uncover(buf: seq<Byte>, attr: nat) returns (m: Option<Mapped>)
    requires attr + 12 <= |buf|
    ensures m == DecodeAny(Some(buf[attr + 4..attr + 12]))
  {
    var port := Xor16(FromBe16(buf[attr + 6], buf[attr + 7]), MAGIC_COOKIE / 0x1_0000);
    var ip := FromBe32(Xor8(buf[attr + 8], 0x21), Xor8(buf[attr + 9], 0x12),
                       Xor8(buf[attr + 10], 0xA4), Xor8(buf[attr + 11], 0x42));
    m := Some(Mapped(ip, port));
  }
}
