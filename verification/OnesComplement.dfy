/**
 The Internet checksum: the definition of RFC 1071 over big-endian words, and the two loops that
 compute it over little-endian loads in a 32-bit accumulator with two different folds.
 */
module OnesComplement {
  import opened Bytes
  import opened Common

  // --- The standard's definition --------------------------------------------------------------------

  /** Sixteen-bit one's complement addition: the carry comes back in at the low end. */
  function OnesAdd(a: Word16, b: Word16): Word16 {
    if a + b < 0x1_0000 then a + b else a + b - 0xFFFF
  }

  /** One's complement sum of the big-endian words of `s`; an odd last byte is padded with zero. */
  function RfcSum(s: seq<Byte>): Word16 {
    if s == [] then 0
    else if |s| == 1 then 256 * s[0]
    else OnesAdd(RfcSum(s[2..]), FromBe16(s[0], s[1]))
  }

  function RfcChecksum(s: seq<Byte>): Word16 { 0xFFFF - RfcSum(s) }

  // --- Plain sums -----------------------------------------------------------------------------------

  /** Sum of the little-endian words of `s`; an odd last byte counts by itself. */
  function LeSum(s: seq<Byte>): nat {
    if s == [] then 0
    else if |s| == 1 then s[0]
    else FromLe16(s[0], s[1]) + LeSum(s[2..])
  }

  function BeSum(s: seq<Byte>): nat {
    if s == [] then 0
    else if |s| == 1 then 256 * s[0]
    else FromBe16(s[0], s[1]) + BeSum(s[2..])
  }

  /** The first `n` bytes, those at even positions counted `even` times and the others `odd` times. */
  function Weighted(s: seq<Byte>, n: nat, even: nat, odd: nat): int
    requires n <= |s|
  {
    if n == 0 then 0 else Weighted(s, n - 1, even, odd) + (if n % 2 == 1 then even else odd) * s[n - 1]
  }

  lemma {:induction false} WeightedPeel(s: seq<Byte>, n: nat, even: nat, odd: nat)
    requires 2 <= n <= |s|
    ensures Weighted(s, n, even, odd) == even * s[0] + odd * s[1] + Weighted(s[2..], n - 2, even, odd)
  {
    if n == 2 {
      assert Weighted(s, 1, even, odd) == even * s[0];
    } else {
      WeightedPeel(s, n - 1, even, odd);
    }
  }

  /** Which byte counts how much: the standard takes the even ones as high bytes, the loops as low ones, an odd last byte too. */
  lemma {:induction false} SumsByPosition(s: seq<Byte>)
    ensures BeSum(s) == Weighted(s, |s|, 256, 1)
    ensures LeSum(s) == Weighted(s, |s|, 1, 256)
  {
    if |s| == 1 {
      assert Weighted(s, 0, 256, 1) == 0 && Weighted(s, 0, 1, 256) == 0;
    } else if |s| > 1 {
      SumsByPosition(s[2..]);
      WeightedPeel(s, |s|, 256, 1);
      WeightedPeel(s, |s|, 1, 256);
    }
  }

  /** Sum of the bytes at even positions. */
  function EvenSum(s: seq<Byte>): nat {
    if s == [] then 0
    else if |s| == 1 then s[0]
    else s[0] + EvenSum(s[2..])
  }

  /** The residue in 1..65535 of a nonzero number modulo 65535; zero only for zero. */
  function Fold(n: nat): Word16 {
    if n == 0 then 0 else 1 + (n - 1) % 0xFFFF
  }

  /** What both loops return: the complement of the folded 32-bit accumulator. */
  function Complement(s: seq<Byte>): Word16 {
    0xFFFF - Fold(LeSum(s) % 0x1_0000_0000)
  }

  lemma FoldUnique(n: nat, f: Word16, q: int)
    requires n == f + 0xFFFF * q && (n == 0 <==> f == 0)
    ensures Fold(n) == f
  {
    if n > 0 {
      assert n - 1 == (f - 1) + 0xFFFF * q;
    }
  }

  lemma FoldQuotient(n: nat) returns (q: nat)
    ensures n == Fold(n) + 0xFFFF * q
  {
    q := if n == 0 then 0 else (n - 1) / 0xFFFF;
  }

  lemma SmallSum(n: nat)
    requires n <= 131074
    ensures n / 2 * 0xFFFF + n % 2 * 255 < 0x1_0000_0000
  {
    if n == 131074 {
      assert n / 2 == 65537 && n % 2 == 0;
    } else {
      assert n / 2 <= 65536 && n % 2 <= 1;
    }
  }

  /** Within 32 bits the accumulator is the sum itself. */
  lemma ComplementExact(s: seq<Byte>)
    requires |s| <= 131074
    ensures LeSum(s) < 0x1_0000_0000 && Complement(s) == 0xFFFF - Fold(LeSum(s))
  {
    LeSumBound(s);
    SmallSum(|s|);
    SmallMod(LeSum(s));
  }

  lemma SmallMod(n: nat)
    requires n < 0x1_0000_0000
    ensures n % 0x1_0000_0000 == n
  {
  }

  lemma {:induction false} RfcSumIsFold(s: seq<Byte>)
    ensures RfcSum(s) == Fold(BeSum(s))
  {
    if |s| >= 2 {
      RfcSumIsFold(s[2..]);
      var q := FoldQuotient(BeSum(s[2..]));
      var a: int, b: int := RfcSum(s[2..]), FromBe16(s[0], s[1]);
      FoldUnique(BeSum(s), RfcSum(s), if a + b < 0x1_0000 then q else q + 1);
    }
  }

  // --- Byte order does not matter -------------------------------------------------------------------

  /** 256 times a big-endian word is the little-endian word plus a multiple of 65535. */
  lemma {:induction false} SumsCongruent(s: seq<Byte>)
    ensures LeSum(s) + 0xFFFF * EvenSum(s) == 256 * BeSum(s)
    ensures LeSum(s) == 0 <==> BeSum(s) == 0
  {
    if |s| >= 2 {
      SumsCongruent(s[2..]);
    }
  }

  lemma FoldSwaps(s: seq<Byte>)
    ensures Fold(LeSum(s)) == Swap(RfcSum(s))
  {
    SumsCongruent(s);
    RfcSumIsFold(s);
    var f := RfcSum(s);
    var q := FoldQuotient(BeSum(s));
    assert 256 * f == Swap(f) + 0xFFFF * (f / 256);
    FoldUnique(LeSum(s), Swap(f), f / 256 + 256 * q - EvenSum(s));
  }

  /** The accumulator cannot wrap on up to 131074 bytes. */
  lemma {:induction false} LeSumBound(s: seq<Byte>)
    ensures LeSum(s) <= |s| / 2 * 0xFFFF + |s| % 2 * 255
  {
    if |s| >= 2 {
      LeSumBound(s[2..]);
    }
  }

  /** The bound is tight: on every longer buffer of ones the accumulator is not the true sum. */
  lemma {:induction false} OnesLeSum(s: seq<Byte>)
    requires forall i :: 0 <= i < |s| ==> s[i] == 255
    ensures LeSum(s) == |s| / 2 * 0xFFFF + |s| % 2 * 255
  {
    if |s| >= 2 {
      OnesLeSum(s[2..]);
    }
  }

  lemma AccumulatorBoundTight(n: nat)
    ensures n <= 131074 <==> forall s: seq<Byte> :: |s| == n ==> LeSum(s) % 0x1_0000_0000 == LeSum(s)
  {
    if n <= 131074 {
      forall s: seq<Byte> | |s| == n
        ensures LeSum(s) % 0x1_0000_0000 == LeSum(s)
      {
        LeSumBound(s);
      }
    } else {
      var s: seq<Byte> := seq(n, _ => 255);
      OnesLeSum(s);
      assert |s| == n;
    }
  }

  /** How often the accumulator wraps around. */
  function Wraps(s: seq<Byte>): nat { LeSum(s) / 0x1_0000_0000 }

  lemma NoWraps(s: seq<Byte>)
    requires |s| <= 131074
    ensures Wraps(s) == 0
  {
    ComplementExact(s);
  }

  lemma WrapsSplit(s: seq<Byte>)
    ensures LeSum(s) == LeSum(s) % 0x1_0000_0000 + Wraps(s) + 0xFFFF * (65537 * Wraps(s))
  {
  }

  /** Two numbers fold to the same residue exactly when they differ by a multiple of 65535 and are zero together. */
  lemma FoldEqualIff(n: nat, m: nat, d: int)
    requires n == m + d
    ensures Fold(n) == Fold(m) <==> (n == 0 <==> m == 0) && exists q: int :: d == 0xFFFF * q
  {
    var q: int := FoldQuotient(n);
    var r: int := FoldQuotient(m);
    if Fold(n) == Fold(m) {
      assert d == 0xFFFF * (q - r);
    }
    if (n == 0 <==> m == 0) && exists q: int :: d == 0xFFFF * q {
      var q' :| d == 0xFFFF * q';
      FoldUnique(n, Fold(m), r + q');
    }
  }

  /** Losing the wraps keeps the residue exactly when they are a multiple of 65535 and not all of the sum. */
  lemma FoldOfAccumulator(s: seq<Byte>)
    ensures Fold(LeSum(s)) == Fold(LeSum(s) % 0x1_0000_0000) <==>
              Wraps(s) % 0xFFFF == 0 && (LeSum(s) % 0x1_0000_0000 == 0 ==> LeSum(s) == 0)
  {
    var k := Wraps(s);
    var d := k + 0xFFFF * (65537 * k);
    WrapsSplit(s);
    FoldEqualIff(LeSum(s), LeSum(s) % 0x1_0000_0000, d);
    if k % 0xFFFF == 0 {
      assert d == 0xFFFF * (k / 0xFFFF + 65537 * k);
    }
    if q: int :| d == 0xFFFF * q {
      assert k == 0xFFFF * (q - 65537 * k);
    }
  }

  /**
   Exactly when the result is right: the checksum stored by the little-endian host is the standard's
   in network byte order if and only if the wraps of the accumulator are a multiple of 65535 and do
   not leave zero of a positive sum.
   */
  lemma ByteOrderIff(s: seq<Byte>)
    ensures Complement(s) == Swap(RfcChecksum(s)) <==>
              Wraps(s) % 0xFFFF == 0 && (LeSum(s) % 0x1_0000_0000 == 0 ==> LeSum(s) == 0)
  {
    FoldOfAccumulator(s);
    FoldSwaps(s);
    ComplementSwap(RfcSum(s));
  }

  /** Within the overflow bound the stored bytes are the standard's, odd lengths included. */
  lemma ByteOrderIndependence(s: seq<Byte>)
    requires |s| <= 131074
    ensures Complement(s) == Swap(RfcChecksum(s))
    ensures Le16(Complement(s)) == Be16(RfcChecksum(s))
  {
    ComplementExact(s);
    ByteOrderIff(s);
    BeIsSwappedLe(RfcChecksum(s));
  }

  lemma BeIsSwappedLe(w: Word16)
    ensures Be16(w) == Le16(Swap(w))
  {
    Digits(w % 256, w / 256);
  }

  lemma {:induction false} LeSumConcat(x: seq<Byte>, y: seq<Byte>)
    requires |x| % 2 == 0
    ensures LeSum(x + y) == LeSum(x) + LeSum(y)
  {
    if x == [] {
      assert x + y == y;
    } else {
      assert (x + y)[2..] == x[2..] + y;
      LeSumConcat(x[2..], y);
    }
  }

  lemma {:induction false} LeSumZeros(n: nat)
    ensures LeSum(Zeros(n)) == 0
  {
    if n >= 2 {
      assert Zeros(n)[2..] == Zeros(n - 2);
      LeSumZeros(n - 2);
    }
  }

  /** A buffer of any length above the bound whose sum is exactly 2^32. */
  function JustOver(n: nat): (s: seq<Byte>)
    requires n > 131074
    ensures |s| == n
  {
    seq(131074, _ => 255) + ([1] + Zeros(n - 131075))
  }

  lemma JustOverSum(n: nat)
    requires n > 131074
    ensures LeSum(JustOver(n)) == 0x1_0000_0000
  {
    var ones: seq<Byte> := seq(131074, _ => 255);
    var rest: seq<Byte> := [1] + Zeros(n - 131075);
    OnesLeSum(ones);
    LeSumConcat(ones, rest);
    if |rest| >= 2 {
      assert rest[2..] == Zeros(|rest| - 2);
      LeSumZeros(|rest| - 2);
    }
  }

  /** The length bound is the result's own: beyond it some buffer of that length gets a wrong checksum. */
  lemma ResultBoundTight(n: nat)
    ensures n <= 131074 <==> forall s: seq<Byte> :: |s| == n ==> Complement(s) == Swap(RfcChecksum(s))
  {
    if n <= 131074 {
      forall s: seq<Byte> | |s| == n
        ensures Complement(s) == Swap(RfcChecksum(s))
      {
        ByteOrderIndependence(s);
      }
    } else {
      JustOverSum(n);
      ByteOrderIff(JustOver(n));
    }
  }

  lemma ComplementSwap(f: Word16)
    ensures 0xFFFF - Swap(f) == Swap(0xFFFF - f)
    ensures Le16(Swap(f)) == Be16(f)
    ensures Le16(0xFFFF - Swap(f)) == Be16(0xFFFF - f)
  {
    var h: Byte, l: Byte := f / 256, f % 256;
    assert 0xFFFF - f == 256 * (255 - h) + (255 - l);
    Digits(255 - h, 255 - l);
    Digits(255 - l, 255 - h);
    Digits(l, h);
  }

  // --- Verification at the receiver -----------------------------------------------------------------

  /** Zero is what a receiver sees exactly when the true sum is a positive multiple of 65535. */
  lemma VerifiesIff(s: seq<Byte>)
    requires |s| <= 131074
    ensures Complement(s) == 0 <==> exists q: nat :: q > 0 && LeSum(s) == q * 0xFFFF
  {
    ComplementExact(s);
    var q := FoldQuotient(LeSum(s));
    if Complement(s) == 0 {
      assert LeSum(s) == (q + 1) * 0xFFFF;
    }
    if q' :| q' > 0 && LeSum(s) == q' * 0xFFFF {
      FoldUnique(LeSum(s), 0xFFFF, q' - 1);
    }
  }

  /** Replacing the aligned word at `p` moves the sum by the difference. */
  lemma {:induction false} ReplaceWord(s: seq<Byte>, p: nat, w: Word16)
    requires p % 2 == 0 && p + 2 <= |s|
    ensures LeSum(Patch(s, p, Le16(w))) == LeSum(s) - FromLe16(s[p], s[p + 1]) + w
  {
    var t := Patch(s, p, Le16(w));
    if p == 0 {
      assert t[2..] == s[2..];
    } else {
      assert t[2..] == Patch(s[2..], p - 2, Le16(w));
      ReplaceWord(s[2..], p - 2, w);
    }
  }

  /** The field value actually stored: for UDP, zero is replaced by all ones. */
  function NeverZero(ck: Word16): Word16 { if ck == 0 then 0xFFFF else ck }

  /** Storing the checksum, or its nonzero form, in an aligned zero field makes the whole verify. */
  lemma StoredChecksumVerifies(s: seq<Byte>, p: nat, ck: Word16)
    requires |s| <= 131074 && p % 2 == 0 && p + 2 <= |s| && s[p] == s[p + 1] == 0
    requires ck == Complement(s) || ck == NeverZero(Complement(s))
    ensures Complement(Patch(s, p, Le16(ck))) == 0
  {
    ReplaceWord(s, p, ck);
    ComplementExact(s);
    var q := FoldQuotient(LeSum(s));
    assert LeSum(Patch(s, p, Le16(ck))) == (if Fold(LeSum(s)) == 0xFFFF && ck == 0xFFFF then q + 2 else q + 1) * 0xFFFF;
    VerifiesIff(Patch(s, p, Le16(ck)));
  }

  /** Of all one-word changes to a verifying buffer, only exchanging 0x0000 and 0xFFFF goes unnoticed. */
  lemma OneWordChange(s: seq<Byte>, p: nat, w: Word16)
    requires |s| <= 131074 && p % 2 == 0 && p + 2 <= |s|
    requires Complement(s) == 0
    ensures Complement(Patch(s, p, Le16(w))) == 0 <==>
              WordsInterchange(FromLe16(s[p], s[p + 1]), w) && LeSum(Patch(s, p, Le16(w))) > 0
  {
    var t := Patch(s, p, Le16(w));
    var v := FromLe16(s[p], s[p + 1]);
    ReplaceWord(s, p, w);
    VerifiesIff(s);
    VerifiesIff(t);
    var q: nat :| LeSum(s) == q * 0xFFFF;
    if WordsInterchange(v, w) && LeSum(t) > 0 {
      var step := if w == v then 0 else if w > v then 1 else -1;
      assert LeSum(t) == (q + step) * 0xFFFF;
    }
    if q' :| q' > 0 && LeSum(t) == q' * 0xFFFF {
      assert (q' - q) * 0xFFFF == w - v;
    }
  }

  /** Equal words, or the two representations of zero. */
  predicate WordsInterchange(v: Word16, w: Word16) {
    v == w || (v == 0 && w == 0xFFFF) || (v == 0xFFFF && w == 0)
  }

  // --- The loops ------------------------------------------------------------------------------------

  /** Both accumulation loops: words, then an odd byte, modulo 2^32. */
  method Accumulate(data: array<Byte>, at: nat, length: nat) returns (sum: Word32)
    requires at + length <= data.Length
    ensures sum == LeSum(data[at..at + length]) % 0x1_0000_0000
  {
    sum := 0;
    var len, p := length, at;
    ghost var wraps: nat := 0;
    while len > 1
      invariant len + p == at + length
      invariant wraps * 0x1_0000_0000 + sum + LeSum(data[p..at + length]) == LeSum(data[at..at + length])
    {
      assert data[p..at + length][2..] == data[p + 2..at + length];
      var next: int := sum + FromLe16(data[p], data[p + 1]);
      sum := next % 0x1_0000_0000;
      wraps := wraps + next / 0x1_0000_0000;
      p := p + 2;
      len := len - 2;
    }
    if len == 1 {
      assert data[p..at + length] == [data[p]];
      var next: int := sum + data[p];
      sum := next % 0x1_0000_0000;
      wraps := wraps + next / 0x1_0000_0000;
    }
  }

  /** The two steps of the fixed fold reach the residue from any 32-bit sum. */
  lemma TwoSteps(sum: Word32, once: nat, twice: nat)
    requires once == sum / 0x1_0000 + sum % 0x1_0000 && twice == once + once / 0x1_0000
    ensures twice % 0x1_0000 == Fold(sum)
  {
    var hi := sum / 0x1_0000;
    assert sum == once + 0xFFFF * hi;
    if once < 0x1_0000 {
      FoldUnique(sum, once, hi);
    } else {
      assert once / 0x1_0000 == 1;
      FoldUnique(sum, once - 0xFFFF, hi + 1);
    }
  }

  /** The fixed two-step fold. */
  method Checksum(data: array<Byte>, at: nat, len: nat) returns (ck: Word16)
    requires at + len <= data.Length
    ensures ck == Complement(data[at..at + len])
  {
    var sum := Accumulate(data, at, len);
    var once: nat := sum / 0x1_0000 + sum % 0x1_0000;
    var twice: nat := once + once / 0x1_0000;
    TwoSteps(sum, once, twice);
    ck := 0xFFFF - twice % 0x1_0000;
  }

  /** One round of the looping fold keeps the residue. */
  lemma FoldRound(sum: nat)
    ensures Fold(sum % 0x1_0000 + sum / 0x1_0000) == Fold(sum)
  {
    var folded := sum % 0x1_0000 + sum / 0x1_0000;
    assert sum == folded + 0xFFFF * (sum / 0x1_0000);
    var q := FoldQuotient(folded);
    FoldUnique(sum, Fold(folded), q + sum / 0x1_0000);
  }

  /** The fold that loops until no carry is left. */
  method IpChecksum(data: array<Byte>, at: nat, length: nat) returns (ck: Word16)
    requires at + length <= data.Length
    ensures ck == Complement(data[at..at + length])
  {
    var sum: nat := Accumulate(data, at, length);
    ghost var start := sum;
    while sum / 0x1_0000 != 0
      invariant Fold(sum) == Fold(start)
      decreases sum
    {
      FoldRound(sum);
      sum := sum % 0x1_0000 + sum / 0x1_0000;
    }
    ck := 0xFFFF - sum;
  }
}
