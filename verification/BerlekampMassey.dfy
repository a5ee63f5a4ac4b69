/**
 The Berlekamp-Massey loop over a bit sequence: its state as a value, the invariant every iteration
 keeps, Massey's theorem, and the in-place loop over two coefficient vectors proved against them.
 */
module BerlekampMassey {
  import opened Lfsr
  import opened Gf2

  /**
   `c` is the current connection polynomial and `l` its length; `b` is the polynomial that was
   current before the last change of length, which happened at bit `m` (-1: no change yet).
   */
  datatype Register = Register(c: seq<bool>, l: nat, b: seq<bool>, m: int)

  /** Adds to `c` the polynomial `b` delayed by `shift`; `size` coefficients are kept. */
  function Combine(c: seq<bool>, b: seq<bool>, shift: int, size: nat): (r: seq<bool>)
    requires shift > 0
    ensures |r| == size
    ensures forall j {:trigger Tap(r, j)} :: 0 <= j < size ==> Tap(r, j) == (Tap(c, j) != (j >= shift && Tap(b, j - shift)))
  {
    seq(size, j => Tap(c, j) != (j >= shift && Tap(b, j - shift)))
  }

  /** What the loop does at bit `i` when the discrepancy there is `d`, with no coefficient ever cut off. */
  function Step(r: Register, i: nat, d: bool): (r': Register)
    requires r.l <= i && r.m < i
    ensures r'.l <= i + 1 && r'.m <= i
  {
    if !d then r
    else
      var sum := Combine(r.c, r.b, i - r.m, i + 2);
      if 2 * r.l <= i then Register(sum, i + 1 - r.l, r.c, i) else r.(c := sum)
  }

  function Run(s: seq<bool>): (r: Register)
    ensures r.l <= |s| && r.m < |s|
  {
    if s == [] then Register([true], 0, [true], -1)
    else
      var i := |s| - 1;
      var r := Run(s[..i]);
      Step(r, i, !Follows(r.c, r.l, s, i))
  }

  /** The length `b` had as a register. */
  function PreviousLength(r: Register): int { r.m + 1 - r.l }

  /** What holds at every loop head, when `s` is the part already read. */
  ghost predicate Invariant(r: Register, s: seq<bool>) {
    && r.l <= |s| && -1 <= r.m < |s|
    && 0 <= PreviousLength(r)
    && DegreeAtMost(r.c, r.l) && DegreeAtMost(r.b, PreviousLength(r))
    && Generates(r.c, r.l, s) && NoneShorter(r.l, s)
    && (r.m >= 0 ==>
          && PreviousLength(r) <= r.m
          && Generates(r.b, PreviousLength(r), s[..r.m])
          && !Follows(r.b, PreviousLength(r), s, r.m))
  }

  /** The sum of two polynomials convolves to the sum of their convolutions. */
  lemma CombineConvolution(c: seq<bool>, l: nat, b: seq<bool>, lb: nat, shift: nat, sum: seq<bool>, l': nat, s: seq<bool>, k: nat)
    requires l <= l' <= k < |s| && shift > 0 && lb + shift <= l'
    requires DegreeAtMost(c, l) && DegreeAtMost(b, lb)
    requires forall j {:trigger Tap(sum, j)} :: 0 <= j <= l' ==> Tap(sum, j) == (Tap(c, j) != (j >= shift && Tap(b, j - shift)))
    ensures Convolution(sum, l', s, k) == (Convolution(c, l, s, k) != Convolution(b, lb, s, k - shift))
  {
    var f := j => Tap(c, j) && At(s, k - j);
    var g := j => j >= shift && Tap(b, j - shift) && At(s, k - j);
    XorSumExt(l' + 1, j => Tap(sum, j) && At(s, k - j), j => f(j) != g(j));
    XorSumAdd(l' + 1, f, g);
    XorSumTrim(l + 1, l' + 1, f);
    DelayedConvolution(b, lb, shift, l', s, k, g);
  }

  lemma DelayedConvolution(b: seq<bool>, lb: nat, shift: nat, l': nat, s: seq<bool>, k: nat, g: int -> bool)
    requires lb + shift <= l' && DegreeAtMost(b, lb)
    requires forall j :: g(j) == (j >= shift && Tap(b, j - shift) && At(s, k - j))
    ensures XorSum(l' + 1, g) == Convolution(b, lb, s, k - shift)
  {
    var h := j => Tap(b, j) && At(s, k - shift - j);
    XorSumShift(l' + 1 - shift, shift, h);
    XorSumExt(l' + 1, g, j => j >= shift && h(j - shift));
    XorSumTrim(lb + 1, l' + 1 - shift, h);
  }

  lemma CorrectionDegree(r: Register, i: nat)
    requires r.l <= i && -1 <= r.m < i && 0 <= PreviousLength(r)
    requires DegreeAtMost(r.c, r.l) && DegreeAtMost(r.b, PreviousLength(r))
    ensures var r' := Step(r, i, true);
      DegreeAtMost(r'.c, r'.l) && DegreeAtMost(r'.b, PreviousLength(r'))
  {
    var r' := Step(r, i, true);
    forall j | j > r'.l && j > 0
      ensures !Tap(r'.c, j)
    {
      if j < i + 2 {
        assert !Tap(r.c, j) && (j >= i - r.m ==> !Tap(r.b, j - (i - r.m)));
      }
    }
  }

  /** A register whose first error is at bit `i` convolves to zero before it and to one there. */
  lemma FirstErrorConvolution(c: seq<bool>, l: nat, s: seq<bool>, i: nat, k: nat)
    requires l <= k <= i < |s|
    requires Generates(c, l, s[..i]) && !Follows(c, l, s, i)
    ensures Convolution(c, l, s, k) == (k == i)
  {
    ConvolutionIsDiscrepancy(c, l, s, k);
    GeneratesPrefix(c, l, s, i);
  }

  /** The previous polynomial still errs at bit `m` once more bits follow. */
  lemma OldMismatchStays(r: Register, s: seq<bool>)
    requires |s| > 0 && Invariant(r, s[..|s| - 1])
    ensures r.m >= 0 ==>
              && Generates(r.b, PreviousLength(r), s[..r.m])
              && !Follows(r.b, PreviousLength(r), s, r.m)
  {
    var p := s[..|s| - 1];
    if r.m >= 0 {
      assert s[..r.m] == p[..r.m];
      FeedbackPrefix(r.b, PreviousLength(r), s, |s| - 1, r.m);
    }
  }

  /** Adding the delayed old polynomial leaves no error up to bit `i`: both err there, or neither does. */
  lemma CorrectionAt(c: seq<bool>, l: nat, b: seq<bool>, lb: nat, m: nat, sum: seq<bool>, l': nat, s: seq<bool>, i: nat, k: nat)
    requires lb <= m < i < |s| && l <= l' <= k <= i && lb + i - m <= l'
    requires DegreeAtMost(c, l) && Generates(c, l, s[..i]) && !Follows(c, l, s, i)
    requires DegreeAtMost(b, lb) && Generates(b, lb, s[..m]) && !Follows(b, lb, s, m)
    requires forall j {:trigger Tap(sum, j)} :: 0 <= j <= l' ==> Tap(sum, j) == (Tap(c, j) != (j >= i - m && Tap(b, j - (i - m))))
    ensures Follows(sum, l', s, k)
  {
    FirstErrorConvolution(c, l, s, i, k);
    FirstErrorConvolution(b, lb, s, m, k - (i - m));
    CombineConvolution(c, l, b, lb, i - m, sum, l', s, k);
    ConvolutionIsDiscrepancy(sum, l', s, k);
  }

  /** After a correction the new polynomial is right about the bit that exposed the old one, and still about all before. */
  lemma CorrectionGenerates(c: seq<bool>, l: nat, b: seq<bool>, lb: nat, m: int, sum: seq<bool>, l': nat, s: seq<bool>, i: nat)
    requires -1 <= m < i && |s| == i + 1 && l <= i && l <= l' && lb + i - m <= l'
    requires DegreeAtMost(c, l) && Generates(c, l, s[..i]) && !Follows(c, l, s, i)
    requires DegreeAtMost(b, lb)
    requires m >= 0 ==> lb <= m && Generates(b, lb, s[..m]) && !Follows(b, lb, s, m)
    requires forall j {:trigger Tap(sum, j)} :: 0 <= j <= l' && j <= i ==> Tap(sum, j) == (Tap(c, j) != (j >= i - m && Tap(b, j - (i - m))))
    ensures Generates(sum, l', s)
  {
    forall k | l' <= k < |s|
      ensures Follows(sum, l', s, k)
    {
      CorrectionAt(c, l, b, lb, m, sum, l', s, i, k);
    }
  }

  /** Massey's lower bound carries over to the new length. */
  lemma StepNoneShorter(r: Register, s: seq<bool>)
    requires |s| > 0
    requires Invariant(r, s[..|s| - 1])
    ensures NoneShorter(Step(r, |s| - 1, !Follows(r.c, r.l, s, |s| - 1)).l, s)
  {
    var i := |s| - 1;
    forall e: seq<bool>, k: nat | Generates(e, k, s)
      ensures Step(r, i, !Follows(r.c, r.l, s, i)).l <= k
    {
      assert s[..i + 1] == s;
      GeneratesPrefix(e, k, s, i);
      if !Follows(r.c, r.l, s, i) {
        PartingBound(r.c, r.l, e, k, s, i);
      }
    }
  }

  lemma StepKeepsInvariant(r: Register, s: seq<bool>)
    requires |s| > 0
    requires Invariant(r, s[..|s| - 1])
    ensures Invariant(Step(r, |s| - 1, !Follows(r.c, r.l, s, |s| - 1)), s)
  {
    StepNoneShorter(r, s);
    if Follows(r.c, r.l, s, |s| - 1) {
      KeepGenerates(r.c, r.l, s);
      OldMismatchStays(r, s);
    } else {
      CorrectionKeepsInvariant(r, s);
    }
  }

  lemma CorrectionStepGenerates(r: Register, s: seq<bool>)
    requires |s| > 0
    requires Invariant(r, s[..|s| - 1]) && !Follows(r.c, r.l, s, |s| - 1)
    ensures var r' := Step(r, |s| - 1, true); Generates(r'.c, r'.l, s)
  {
    var i := |s| - 1;
    var r' := Step(r, i, true);
    OldMismatchStays(r, s);
    CorrectionGenerates(r.c, r.l, r.b, PreviousLength(r), r.m, r'.c, r'.l, s, i);
  }

  lemma CorrectionKeepsInvariant(r: Register, s: seq<bool>)
    requires |s| > 0
    requires Invariant(r, s[..|s| - 1]) && !Follows(r.c, r.l, s, |s| - 1)
    requires NoneShorter(Step(r, |s| - 1, true).l, s)
    ensures Invariant(Step(r, |s| - 1, true), s)
  {
    var i := |s| - 1;
    var r' := Step(r, i, true);
    CorrectionStepGenerates(r, s);
    CorrectionDegree(r, i);
    if 2 * r.l <= i {
      assert PreviousLength(r') == r.l && r'.b == r.c && r'.m == i;
    } else {
      OldMismatchStays(r, s);
      assert PreviousLength(r') == PreviousLength(r) && r'.b == r.b && r'.m == r.m;
    }
  }

  lemma KeepGenerates(c: seq<bool>, l: nat, s: seq<bool>)
    requires |s| > 0 && l < |s|
    requires Generates(c, l, s[..|s| - 1]) && Follows(c, l, s, |s| - 1)
    ensures Generates(c, l, s)
  {
    GeneratesPrefix(c, l, s, |s| - 1);
  }

  /** Every prefix of a run satisfies the loop invariant: the loop is Massey's algorithm. */
  lemma {:induction false} RunInvariant(s: seq<bool>)
    ensures Invariant(Run(s), s)
  {
    if s != [] {
      RunInvariant(s[..|s| - 1]);
      StepKeepsInvariant(Run(s[..|s| - 1]), s);
    }
  }

  /** The degree part of the invariant. */
  lemma RunDegrees(s: seq<bool>)
    ensures var r := Run(s);
      && -1 <= r.m && 0 <= PreviousLength(r)
      && DegreeAtMost(r.c, r.l) && DegreeAtMost(r.b, PreviousLength(r))
  {
    RunInvariant(s);
  }

  /** Massey's theorem: the length the algorithm ends with is the linear complexity. */
  lemma MasseyTheorem(s: seq<bool>)
    ensures Generates(Run(s).c, Run(s).l, s)
    ensures IsComplexity(Run(s).l, s)
  {
    RunInvariant(s);
  }

  /**
   The complexity profile: whatever shortest register `c` is at hand, the next bit keeps the
   complexity when it is the register's feedback and lifts it to max(l, n + 1 - l) otherwise.
   */
  lemma ComplexityProfile(c: seq<bool>, l: nat, s: seq<bool>, bit: bool)
    requires Generates(c, l, s) && IsComplexity(l, s) && l <= |s|
    ensures IsComplexity(
              if bit == Feedback(c, l, s, |s|) || 2 * l > |s| then l else |s| + 1 - l,
              s + [bit])
  {
    var n := |s|;
    var t := s + [bit];
    assert t[..n] == s && t[..n + 1] == t;
    var l' := Run(t).l;
    MasseyTheorem(s);
    MasseyTheorem(t);
    ComplexityUnique(l, Run(s).l, s);
    ComplexityMonotone(l, l', t, n);
    FeedbackPrefix(c, l, t, n, n);
    if bit == Feedback(c, l, s, n) {
      GeneratesExtend(c, l, s, bit);
    } else {
      PartingBound(c, l, Run(t).c, l', t, n);
    }
    assert IsComplexity(l', t);
  }

  /** Of the two bits that can come next, one leaves the complexity as it is. */
  lemma OneBitKeepsComplexity(l: nat, s: seq<bool>)
    requires IsComplexity(l, s)
    ensures exists bit :: IsComplexity(l, s + [bit])
  {
    MasseyTheorem(s);
    ComplexityUnique(l, Run(s).l, s);
    var bit := Feedback(Run(s).c, l, s, |s|);
    ComplexityProfile(Run(s).c, l, s, bit);
    assert IsComplexity(l, s + [bit]);
  }

  /** The complexity is zero exactly for sequences without a one. */
  lemma ComplexityZero(l: nat, s: seq<bool>)
    requires IsComplexity(l, s)
    ensures l == 0 <==> true !in s
  {
    if l == 0 {
      var c :| Generates(c, 0, s);
      forall i: nat | i < |s|
        ensures !s[i]
      {
        assert Follows(c, 0, s, i);
      }
    }
    if true !in s {
      assert Generates([], 0, s);
    }
  }

  // --- The loop over coefficient vectors ----------------------------------------------------------

  /** A vector of coefficients holds the polynomial `c` as far as it reaches. */
  ghost predicate Holds(v: seq<bool>, c: seq<bool>) {
    forall j :: 0 <= j < |v| ==> v[j] == Tap(c, j)
  }

  lemma HoldsSameFeedback(v: seq<bool>, c: seq<bool>, l: nat, s: seq<bool>, i: nat)
    requires Holds(v, c) && l <= i <= |s| && l < |v|
    ensures Feedback(v, l, s, i) == Feedback(c, l, s, i)
  {
    FeedbackTaps(v, c, l, s, i);
  }

  method Discrepancy(c: array<bool>, l: nat, s: seq<bool>, i: nat) returns (d: bool)
    requires l <= i < |s| && l < c.Length
    ensures d == (s[i] != Feedback(c[..], l, s, i))
  {
    d := s[i];
    for j := 1 to l + 1
      invariant d == (s[i] != Feedback(c[..], j - 1, s, i))
    {
      d := d != (c[j] && s[i - j]);
    }
  }

  /** `sum` is `c` plus `b` delayed by `shift`, cut to the length of the vectors. */
  ghost predicate IsShiftedSum(sum: seq<bool>, c: seq<bool>, b: seq<bool>, shift: int)
    requires |sum| == |c| == |b| && shift > 0
  {
    forall j {:trigger sum[j]} :: 0 <= j < |sum| ==> sum[j] == (c[j] != (j >= shift && b[j - shift]))
  }

  /** Adds `b` delayed by `shift` into `c`; coefficients that fall off the end are lost. */
  method AddShifted(c: array<bool>, b: array<bool>, shift: nat)
    requires c != b && c.Length == b.Length && shift > 0
    modifies c
    ensures IsShiftedSum(c[..], old(c[..]), b[..], shift)
  {
    var j := 0;
    while j + shift < c.Length
      invariant forall k :: 0 <= k < c.Length ==>
        c[k] == (old(c[k]) != (shift <= k < j + shift && b[k - shift]))
    {
      if b[j] {
        c[j + shift] := !c[j + shift];
      }
      j := j + 1;
    }
  }

  /** The vectors `c` and `b` and the counters `l` and `m` are those of the register `r`. */
  ghost predicate Tracks(c: seq<bool>, b: seq<bool>, l: nat, m: int, r: Register) {
    l == r.l && m == r.m && Holds(c, r.c) && Holds(b, r.b)
  }

  /** `r` is where the run stands after `i` bits of `s`. */
  ghost predicate IsRun(r: Register, s: seq<bool>, i: nat) {
    i <= |s| && r == Run(s[..i])
  }

  /** The vector and the polynomial it holds have the same discrepancy, which decides the next step. */
  lemma TracksStep(c: seq<bool>, b: seq<bool>, l: nat, m: int, s: seq<bool>, i: nat, r: Register, d: bool)
    requires i < |s| == |c| && IsRun(r, s, i) && Tracks(c, b, l, m, r)
    requires d == !Follows(c, l, s, i)
    ensures IsRun(Step(r, i, d), s, i + 1)
  {
    assert s[..i + 1][..i] == s[..i];
    FeedbackPrefix(r.c, l, s, i + 1, i);
    HoldsSameFeedback(c, r.c, l, s, i);
  }

  /** The cut at the length of the vectors loses nothing they could hold. */
  lemma CutHolds(c: seq<bool>, b: seq<bool>, sum: seq<bool>, r: Register, i: nat)
    requires -1 <= r.m < i < |c| == |b| == |sum| && r.l <= i && 0 <= PreviousLength(r)
    requires Holds(c, r.c) && Holds(b, r.b)
    requires DegreeAtMost(r.c, r.l) && DegreeAtMost(r.b, PreviousLength(r))
    requires IsShiftedSum(sum, c, b, i - r.m)
    ensures Holds(sum, Combine(r.c, r.b, i - r.m, i + 2))
  {
    var whole := Combine(r.c, r.b, i - r.m, i + 2);
    forall j | 0 <= j < |sum|
      ensures sum[j] == Tap(whole, j)
    {
      if j >= i + 2 {
        assert !Tap(r.c, j) && !Tap(r.b, j - (i - r.m));
      }
    }
  }

  /** One correction on the vectors is one correction on the polynomials. */
  lemma TracksCorrection(c: seq<bool>, b: seq<bool>, l: nat, m: int, r: Register, i: nat, sum: seq<bool>)
    requires i < |c| == |b| == |sum| && Tracks(c, b, l, m, r)
    requires -1 <= m < i && l <= i && 0 <= PreviousLength(r)
    requires DegreeAtMost(r.c, r.l) && DegreeAtMost(r.b, PreviousLength(r))
    requires IsShiftedSum(sum, c, b, i - m)
    ensures if 2 * l <= i then Tracks(sum, c, i + 1 - l, i, Step(r, i, true)) else Tracks(sum, b, l, m, Step(r, i, true))
  {
    CutHolds(c, b, sum, r, i);
  }

  /** What the loop does on a discrepancy at bit `i`: `b`, shifted, is added into `c`, and the length may change. */
  method Correct(c: array<bool>, b: array<bool>, l: nat, m: int, i: nat, ghost r: Register)
    returns (l': nat, m': int, b': array<bool>)
    requires c != b && i < c.Length == b.Length && Tracks(c[..], b[..], l, m, r)
    requires -1 <= m < i && l <= i && 0 <= PreviousLength(r)
    requires DegreeAtMost(r.c, r.l) && DegreeAtMost(r.b, PreviousLength(r))
    modifies c
    ensures c != b' && b'.Length == c.Length && (b' == b || fresh(b'))
    ensures Tracks(c[..], b'[..], l', m', Step(r, i, true))
  {
    var t := new bool[c.Length](k requires 0 <= k < c.Length reads c => c[k]);
    assert t[..] == c[..];
    AddShifted(c, b, i - m);
    TracksCorrection(t[..], b[..], l, m, r, i, c[..]);
    if 2 * l <= i {
      return i + 1 - l, i, t;
    }
    return l, m, b;
  }

  /** The linear complexity of `s` and the coefficient vector the loop ends with. */
  method LinearComplexity(s: seq<bool>) returns (l: nat, coefficients: seq<bool>)
    requires |s| >= 1
    ensures l == Run(s).l <= |s| && |coefficients| == |s| && Holds(coefficients, Run(s).c)
    ensures Generates(coefficients, l, s)
    ensures IsComplexity(l, s)
  {
    var n := |s|;
    var c := new bool[n](k => k == 0);
    var b := new bool[n](k => k == 0);
    l := 0;
    var m := -1;
    ghost var r := Run([]);
    assert s[..0] == [];
    for i := 0 to n
      invariant c != b && c.Length == b.Length == n && fresh(c) && fresh(b)
      invariant IsRun(r, s, i) && Tracks(c[..], b[..], l, m, r)
    {
      RunDegrees(s[..i]);
      var d := Discrepancy(c, l, s, i);
      TracksStep(c[..], b[..], l, m, s, i, r, d);
      if d {
        l, m, b := Correct(c, b, l, m, i, r);
      }
      r := Step(r, i, d);
    }
    coefficients := c[..];
    assert s[..n] == s;
    MasseyTheorem(s);
    VectorGenerates(coefficients, s);
  }

  /** The final vector generates the sequence even when the cut took its last coefficient. */
  lemma VectorGenerates(v: seq<bool>, s: seq<bool>)
    requires |v| == |s| && Holds(v, Run(s).c)
    ensures Generates(v, Run(s).l, s)
  {
    var l := Run(s).l;
    MasseyTheorem(s);
    forall k | l <= k < |s|
      ensures Follows(v, l, s, k)
    {
      HoldsSameFeedback(v, Run(s).c, l, s, k);
      assert Follows(Run(s).c, l, s, k);
    }
  }
}
