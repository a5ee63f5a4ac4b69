/** Numbers as binary digits, most significant first, and the bitwise exclusive or. */
module Binary {

  function Pow2(k: nat): (r: nat)
    ensures r >= 1
  {
    if k == 0 then 1 else 2 * Pow2(k - 1)
  }

  function BitValue(b: bool): nat { if b then 1 else 0 }

  /** The number whose binary digits are `bits`, most significant first. */
  function Value(bits: seq<bool>): nat {
    if bits == [] then 0 else 2 * Value(bits[..|bits| - 1]) + BitValue(bits[|bits| - 1])
  }

  /** `n >> i`: the last `i` binary digits dropped. */
  function Shr(n: nat, i: nat): (r: nat)
    ensures r <= n
  {
    if i == 0 then n else Shr(n, i - 1) / 2
  }

  /** The lowest `k` binary digits of `n`, most significant first. */
  function BitsOf(n: nat, k: nat): (bits: seq<bool>)
    ensures |bits| == k
  {
    if k == 0 then [] else BitsOf(n / 2, k - 1) + [n % 2 == 1]
  }

  lemma {:induction false} ValueBound(bits: seq<bool>)
    ensures Value(bits) < Pow2(|bits|)
  {
    if bits != [] {
      ValueBound(bits[..|bits| - 1]);
    }
  }

  lemma {:induction false} ShrHalf(n: nat, i: nat)
    ensures Shr(n / 2, i) == Shr(n, i + 1)
  {
    if i > 0 {
      ShrHalf(n, i - 1);
    }
  }

  /** Digit `j` from the left is what shifting by the distance to the right end exposes. */
  lemma {:induction false} BitsOfAt(n: nat, k: nat, j: nat)
    requires j < k
    ensures BitsOf(n, k)[j] == (Shr(n, k - 1 - j) % 2 == 1)
  {
    if j < k - 1 {
      BitsOfAt(n / 2, k - 1, j);
      ShrHalf(n, k - 2 - j);
    }
  }

  lemma {:induction false} ValueOfBits(n: nat, k: nat)
    requires n < Pow2(k)
    ensures Value(BitsOf(n, k)) == n
  {
    if k > 0 {
      assert BitsOf(n, k)[..k - 1] == BitsOf(n / 2, k - 1);
      ValueOfBits(n / 2, k - 1);
    }
  }

  lemma {:induction false} BitsOfValue(bits: seq<bool>)
    ensures BitsOf(Value(bits), |bits|) == bits
  {
    if bits != [] {
      BitsOfValue(bits[..|bits| - 1]);
      assert Value(bits) / 2 == Value(bits[..|bits| - 1]);
      assert bits == bits[..|bits| - 1] + [bits[|bits| - 1]];
    }
  }

  lemma {:induction false} ValueZero(bits: seq<bool>)
    ensures Value(bits) == 0 <==> true !in bits
  {
    if bits != [] {
      ValueZero(bits[..|bits| - 1]);
      assert bits == bits[..|bits| - 1] + [bits[|bits| - 1]];
    }
  }

  lemma {:induction false} PowMonotone(a: nat, b: nat)
    requires a <= b
    ensures Pow2(a) <= Pow2(b)
    decreases b
  {
    if a < b {
      PowMonotone(a, b - 1);
    }
  }

  // --- Exclusive or ---------------------------------------------------------------------------------

  function Zip(x: seq<bool>, y: seq<bool>): (z: seq<bool>)
    requires |x| == |y|
    ensures |z| == |x|
  {
    seq(|x|, i requires 0 <= i < |x| => x[i] != y[i])
  }

  /** Bitwise exclusive or of two `k`-bit numbers. */
  function Xor(a: nat, b: nat, k: nat): (r: nat)
    ensures r < Pow2(k)
  {
    ValueBound(Zip(BitsOf(a, k), BitsOf(b, k)));
    Value(Zip(BitsOf(a, k), BitsOf(b, k)))
  }

  lemma XorUndo(a: nat, b: nat, k: nat)
    requires a < Pow2(k)
    ensures Xor(Xor(a, b, k), b, k) == a
  {
    var x, y := BitsOf(a, k), BitsOf(b, k);
    BitsOfValue(Zip(x, y));
    assert Zip(Zip(x, y), y) == x;
    ValueOfBits(a, k);
  }

  /** Digit by digit, counted from the right: one exactly where the two numbers differ. */
  lemma XorDigits(a: nat, b: nat, k: nat, i: nat)
    requires i < k
    ensures Shr(Xor(a, b, k), i) % 2 == 1 <==> Shr(a, i) % 2 != Shr(b, i) % 2
  {
    var j := k - 1 - i;
    BitsOfValue(Zip(BitsOf(a, k), BitsOf(b, k)));
    BitsOfAt(Xor(a, b, k), k, j);
    BitsOfAt(a, k, j);
    BitsOfAt(b, k, j);
  }

  /** `a << k`. */
  function Shl(a: nat, k: nat): nat { if k == 0 then a else 2 * Shl(a, k - 1) }

  lemma {:induction false} ValueConcat(x: seq<bool>, y: seq<bool>)
    ensures Value(x + y) == Shl(Value(x), |y|) + Value(y)
  {
    if y == [] {
      assert x + y == x;
    } else {
      assert (x + y)[..|x + y| - 1] == x + y[..|y| - 1];
      ValueConcat(x, y[..|y| - 1]);
    }
  }

  /** The digits of a number put together from a high and a low part. */
  lemma BitsConcat(a: nat, k: nat, c: nat, j: nat, n: nat)
    requires a < Pow2(k) && c < Pow2(j) && n == Shl(a, j) + c
    ensures BitsOf(n, k + j) == BitsOf(a, k) + BitsOf(c, j)
  {
    var digits := BitsOf(a, k) + BitsOf(c, j);
    assert Value(digits) == n by {
      ValueOfBits(a, k);
      ValueOfBits(c, j);
      ValueConcat(BitsOf(a, k), BitsOf(c, j));
    }
    BitsOfValue(digits);
  }

  /** Exclusive or treats the high and the low part independently. */
  lemma XorConcat(a: nat, b: nat, k: nat, c: nat, d: nat, j: nat, m: nat, n: nat)
    requires a < Pow2(k) && b < Pow2(k) && c < Pow2(j) && d < Pow2(j)
    requires m == Shl(a, j) + c && n == Shl(b, j) + d
    ensures Xor(m, n, k + j) == Shl(Xor(a, b, k), j) + Xor(c, d, j)
  {
    BitsConcat(a, k, c, j, m);
    BitsConcat(b, k, d, j, n);
    ZipConcat(BitsOf(a, k), BitsOf(b, k), BitsOf(c, j), BitsOf(d, j));
    ValueConcat(Zip(BitsOf(a, k), BitsOf(b, k)), Zip(BitsOf(c, j), BitsOf(d, j)));
  }

  lemma ZipConcat(x: seq<bool>, y: seq<bool>, x': seq<bool>, y': seq<bool>)
    requires |x| == |y| && |x'| == |y'|
    ensures Zip(x + x', y + y') == Zip(x, y) + Zip(x', y')
  {
  }

  lemma {:induction false} ShlTwice(a: nat, j: nat, k: nat)
    ensures Shl(Shl(a, j), k) == Shl(a, j + k)
  {
    if k > 0 {
      ShlTwice(a, j, k - 1);
    }
  }

  lemma ShlBytes(a: nat)
    ensures Shl(a, 8) == 256 * a && Shl(a, 16) == 0x1_0000 * a
  {
    Shl4(a);
    Shl4(16 * a);
    ShlTwice(a, 4, 4);
    Shl4(256 * a);
    ShlTwice(a, 8, 4);
    Shl4(4096 * a);
    ShlTwice(a, 12, 4);
  }

  lemma Shl4(a: nat)
    ensures Shl(a, 4) == 16 * a
  {
    assert Shl(a, 1) == 2 * Shl(a, 0);
    assert Shl(a, 3) == 2 * Shl(a, 2);
  }

  lemma {:induction false} Pow2IsShl(k: nat)
    ensures Pow2(k) == Shl(1, k)
  {
    if k > 0 {
      Pow2IsShl(k - 1);
    }
  }

  lemma Pow2Values()
    ensures Pow2(8) == 256 && Pow2(16) == 0x1_0000 && Pow2(32) == 0x1_0000_0000
  {
    Pow2IsShl(8);
    Pow2IsShl(16);
    Pow2IsShl(32);
    ShlBytes(1);
    ShlBytes(0x1_0000);
    ShlTwice(1, 16, 16);
  }
}
