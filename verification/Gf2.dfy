/** Sums over GF(2): bits are `bool`, addition is `!=` and multiplication is `&&`. */
module Gf2 {

  /** f(0) + f(1) + ... + f(n-1). */
  ghost function XorSum(n: nat, f: int -> bool): bool
  {
    if n == 0 then false else XorSum(n - 1, f) != f(n - 1)
  }

  lemma {:induction false} XorSumExt(n: nat, f: int -> bool, g: int -> bool)
    requires forall k :: 0 <= k < n ==> f(k) == g(k)
    ensures XorSum(n, f) == XorSum(n, g)
  {
    if n > 0 {
      XorSumExt(n - 1, f, g);
    }
  }

  lemma {:induction false} XorSumZero(n: nat, f: int -> bool)
    requires forall k :: 0 <= k < n ==> !f(k)
    ensures !XorSum(n, f)
  {
    if n > 0 {
      XorSumZero(n - 1, f);
    }
  }

  lemma {:induction false} XorSumAdd(n: nat, f: int -> bool, g: int -> bool)
    ensures XorSum(n, k => f(k) != g(k)) == (XorSum(n, f) != XorSum(n, g))
  {
    if n > 0 {
      XorSumAdd(n - 1, f, g);
    }
  }

  lemma {:induction false} XorSumScale(n: nat, p: bool, f: int -> bool)
    ensures XorSum(n, k => p && f(k)) == (p && XorSum(n, f))
  {
    if n > 0 {
      XorSumScale(n - 1, p, f);
    }
  }

  /** Terms that vanish from `n` on do not change the sum. */
  lemma {:induction false} XorSumTrim(n: nat, m: nat, f: int -> bool)
    requires n <= m
    requires forall k :: n <= k < m ==> !f(k)
    ensures XorSum(m, f) == XorSum(n, f)
  {
    if n < m {
      XorSumTrim(n, m - 1, f);
    }
  }

  /** Delaying the terms by `shift` positions does not change the sum. */
  lemma {:induction false} XorSumShift(n: nat, shift: nat, f: int -> bool)
    ensures XorSum(n + shift, k => k >= shift && f(k - shift)) == XorSum(n, f)
  {
    if n == 0 {
      XorSumZero(shift, k => k >= shift && f(k - shift));
    } else {
      XorSumShift(n - 1, shift, f);
    }
  }

  /** A double sum may be taken by rows or by columns. */
  lemma {:induction false} XorSumExchange(n: nat, m: nat, f: (int, int) -> bool)
    ensures XorSum(n, a => XorSum(m, b => f(a, b))) == XorSum(m, b => XorSum(n, a => f(a, b)))
  {
    var byColumns := b => XorSum(n, a => f(a, b));
    if n == 0 {
      XorSumZero(m, byColumns);
    } else {
      var fewer := b => XorSum(n - 1, a => f(a, b));
      var last := b => f(n - 1, b);
      XorSumExchange(n - 1, m, f);
      XorSumAdd(m, fewer, last);
      forall b
        ensures byColumns(b) == (fewer(b) != last(b))
      {
        XorSumExt(n - 1, a => f(a, b), a => f(a, b));
      }
      XorSumExt(m, byColumns, b => fewer(b) != last(b));
      var rows := a => XorSum(m, b => f(a, b));
      XorSumExt(n - 1, rows, a => XorSum(m, b => f(a, b)));
      XorSumExt(m, last, b => f(n - 1, b));
    }
  }
}
