/**
 Linear feedback shift registers over GF(2), as a specification: what it means for a register to
 generate a bit sequence, what the linear complexity of a sequence is, and the bound that relates
 two registers that part ways.
 */
module Lfsr {
  import opened Gf2

  /** Tap `j` of a connection polynomial whose constant term is fixed to one; missing taps are zero. */
  predicate Tap(c: seq<bool>, j: int) {
    j == 0 || (0 < j < |c| && c[j])
  }

  /** The bit a register of length `l` with taps `c` emits at position `i` of `s`. */
  function Feedback(c: seq<bool>, l: nat, s: seq<bool>, i: nat): bool
    requires l <= i <= |s|
  {
    if l == 0 then false else Feedback(c, l - 1, s, i) != (Tap(c, l) && s[i - l])
  }

  /** Bit `i` of `s` is the one the register emits there. */
  predicate Follows(c: seq<bool>, l: nat, s: seq<bool>, i: nat)
    requires l <= i < |s|
  {
    s[i] == Feedback(c, l, s, i)
  }

  /** After its first `l` bits, every bit of `s` is the register's feedback. */
  ghost predicate Generates(c: seq<bool>, l: nat, s: seq<bool>) {
    forall i :: l <= i < |s| ==> Follows(c, l, s, i)
  }

  /** No register of length below `l` generates `s`, whatever its taps. */
  ghost predicate NoneShorter(l: nat, s: seq<bool>) {
    forall c: seq<bool>, k: nat :: Generates(c, k, s) ==> l <= k
  }

  /** `l` is the linear complexity of `s`. */
  ghost predicate IsComplexity(l: nat, s: seq<bool>) {
    (exists c :: Generates(c, l, s)) && NoneShorter(l, s)
  }

  ghost predicate DegreeAtMost(c: seq<bool>, l: int) {
    forall j :: j > l && j > 0 ==> !Tap(c, j)
  }

  // --- Changing the arguments of Feedback ---------------------------------------------------------

  /** Feedback of length `l` reads only taps 1..l. */
  lemma {:induction false} FeedbackTaps(c: seq<bool>, c': seq<bool>, l: nat, s: seq<bool>, i: nat)
    requires l <= i <= |s|
    requires forall j :: 1 <= j <= l ==> Tap(c, j) == Tap(c', j)
    ensures Feedback(c, l, s, i) == Feedback(c', l, s, i)
  {
    if l > 0 {
      FeedbackTaps(c, c', l - 1, s, i);
    }
  }

  /** Feedback at `i` reads only bits before `i`. */
  lemma {:induction false} FeedbackPrefix(c: seq<bool>, l: nat, s: seq<bool>, n: nat, i: nat)
    requires l <= i <= n <= |s|
    ensures Feedback(c, l, s[..n], i) == Feedback(c, l, s, i)
  {
    if l > 0 {
      FeedbackPrefix(c, l - 1, s, n, i);
    }
  }

  /** A prefix is generated exactly as far as the whole is. */
  lemma GeneratesPrefix(c: seq<bool>, l: nat, s: seq<bool>, n: nat)
    requires n <= |s|
    ensures Generates(c, l, s[..n]) <==> forall i :: l <= i < n ==> Follows(c, l, s, i)
  {
    forall i: nat | l <= i < n
      ensures Follows(c, l, s[..n], i) == Follows(c, l, s, i)
    {
      FeedbackPrefix(c, l, s, n, i);
    }
  }

  lemma GeneratesExtend(c: seq<bool>, l: nat, s: seq<bool>, bit: bool)
    requires Generates(c, l, s)
    requires |s| < l || bit == Feedback(c, l, s, |s|)
    ensures Generates(c, l, s + [bit])
  {
    var t := s + [bit];
    assert t[..|s|] == s;
    GeneratesPrefix(c, l, t, |s|);
    if l <= |s| {
      FeedbackPrefix(c, l, t, |s|, |s|);
    }
  }

  // --- Feedback as a full convolution -------------------------------------------------------------

  predicate At(s: seq<bool>, i: int) {
    0 <= i < |s| && s[i]
  }

  ghost function Convolution(c: seq<bool>, l: nat, s: seq<bool>, i: int): bool {
    XorSum(l + 1, j => Tap(c, j) && At(s, i - j))
  }

  /** The convolution at `i` is the discrepancy: it is set exactly where the register errs. */
  lemma {:induction false} ConvolutionIsDiscrepancy(c: seq<bool>, l: nat, s: seq<bool>, i: nat)
    requires l <= i < |s|
    ensures Convolution(c, l, s, i) == !Follows(c, l, s, i)
  {
    var term := j => Tap(c, j) && At(s, i - j);
    if l == 0 {
      assert XorSum(1, term) == (XorSum(0, term) != term(0));
    } else {
      ConvolutionIsDiscrepancy(c, l - 1, s, i);
      XorSumExt(l, term, j => Tap(c, j) && At(s, i - j));
    }
  }

  /**
   If a register of length `l` generates the first `i` bits of `s` but errs on bit `i`, then every
   register that gets bit `i` right as well is at least `i + 1 - l` long. The double sum of both
   polynomials is one by rows and would be zero by columns.
   */
  lemma PartingBound(c: seq<bool>, l: nat, e: seq<bool>, k: nat, s: seq<bool>, i: nat)
    requires l <= i < |s|
    requires Generates(c, l, s[..i]) && !Follows(c, l, s, i)
    requires Generates(e, k, s[..i + 1])
    ensures k >= i + 1 - l
  {
    if k <= i - l {
      var f := (a, b) => (Tap(e, a) && Tap(c, b)) && At(s, i - a - b);
      RowsSum(c, l, e, k, s, i, f);
      ColumnsSum(c, l, e, k, s, i, f);
      XorSumExchange(k + 1, l + 1, f);
    }
  }

  lemma RowsSum(c: seq<bool>, l: nat, e: seq<bool>, k: nat, s: seq<bool>, i: nat, f: (int, int) -> bool)
    requires l <= i < |s| && k + l <= i
    requires Generates(c, l, s[..i]) && !Follows(c, l, s, i)
    requires forall a, b :: f(a, b) == ((Tap(e, a) && Tap(c, b)) && At(s, i - a - b))
    ensures XorSum(k + 1, a => XorSum(l + 1, b => f(a, b)))
  {
    GeneratesPrefix(c, l, s, i);
    var row := a => XorSum(l + 1, b => f(a, b));
    forall a | 0 <= a <= k
      ensures row(a) == (a == 0)
    {
      var inner := b => Tap(c, b) && At(s, i - a - b);
      XorSumScale(l + 1, Tap(e, a), inner);
      XorSumExt(l + 1, b => f(a, b), b => Tap(e, a) && inner(b));
      XorSumExt(l + 1, inner, b => Tap(c, b) && At(s, (i - a) - b));
      ConvolutionIsDiscrepancy(c, l, s, i - a);
    }
    XorSumOnlyFirst(k, row);
  }

  lemma {:induction false} XorSumOnlyFirst(k: nat, row: int -> bool)
    requires forall a :: 0 <= a <= k ==> row(a) == (a == 0)
    ensures XorSum(k + 1, row)
  {
    if k > 0 {
      XorSumOnlyFirst(k - 1, row);
    } else {
      assert XorSum(0, row) == false;
    }
  }

  lemma ColumnsSum(c: seq<bool>, l: nat, e: seq<bool>, k: nat, s: seq<bool>, i: nat, f: (int, int) -> bool)
    requires l <= i < |s| && k + l <= i
    requires Generates(e, k, s[..i + 1])
    requires forall a, b :: f(a, b) == ((Tap(e, a) && Tap(c, b)) && At(s, i - a - b))
    ensures !XorSum(l + 1, b => XorSum(k + 1, a => f(a, b)))
  {
    GeneratesPrefix(e, k, s, i + 1);
    var column := b => XorSum(k + 1, a => f(a, b));
    forall b | 0 <= b <= l
      ensures !column(b)
    {
      var inner := a => Tap(e, a) && At(s, i - b - a);
      XorSumScale(k + 1, Tap(c, b), inner);
      XorSumExt(k + 1, a => f(a, b), a => Tap(c, b) && inner(a));
      XorSumExt(k + 1, inner, a => Tap(e, a) && At(s, (i - b) - a));
      ConvolutionIsDiscrepancy(e, k, s, i - b);
    }
    XorSumZero(l + 1, column);
  }

  // --- Consequences of the bound ------------------------------------------------------------------

  /**
   Once `n` observed bits cover twice the length of the source, a register that is no longer than
   the source and generates those bits generates all the others too.
   */
  lemma {:induction false} GeneratesForever(c: seq<bool>, l: nat, e: seq<bool>, k: nat, u: seq<bool>, n: nat)
    requires n <= |u| && l <= k && 2 * k <= n
    requires Generates(c, l, u[..n]) && Generates(e, k, u)
    ensures Generates(c, l, u)
    decreases |u| - n
  {
    if n == |u| {
      assert u[..n] == u;
    } else {
      GeneratesPrefix(e, k, u, n + 1);
      if !Follows(c, l, u, n) {
        PartingBound(c, l, e, k, u, n);
        assert false;
      }
      GeneratesPrefix(c, l, u, n);
      GeneratesPrefix(c, l, u, n + 1);
      GeneratesForever(c, l, e, k, u, n + 1);
    }
  }

  lemma ComplexityUnique(l: nat, l': nat, s: seq<bool>)
    requires IsComplexity(l, s) && IsComplexity(l', s)
    ensures l == l'
  {
    var c :| Generates(c, l, s);
    var c' :| Generates(c', l', s);
  }

  /** The linear complexity never falls as a sequence grows. */
  lemma ComplexityMonotone(l: nat, l': nat, s: seq<bool>, n: nat)
    requires n <= |s|
    requires IsComplexity(l, s[..n]) && IsComplexity(l', s)
    ensures l <= l'
  {
    var c :| Generates(c, l', s);
    assert s[..|s|] == s;
    GeneratesPrefix(c, l', s, |s|);
    GeneratesPrefix(c, l', s, n);
  }
}
