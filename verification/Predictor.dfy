/** Running the shortest register on: which bits it predicts, and when they are the true ones. */
module Predictor {
  import opened Lfsr
  import opened BerlekampMassey

  /** Two continuations of the same `n` bits that follow the same register are equal. */
  lemma {:induction false} SameContinuation(c: seq<bool>, l: nat, u: seq<bool>, v: seq<bool>, n: nat, k: nat)
    requires l <= n <= k <= |u| && k <= |v| && u[..n] == v[..n]
    requires forall i :: n <= i < k ==> Follows(c, l, u, i) && Follows(c, l, v, i)
    ensures u[..k] == v[..k]
  {
    if n < k {
      var i := k - 1;
      SameContinuation(c, l, u, v, n, i);
      FeedbackPrefix(c, l, u, i, i);
      FeedbackPrefix(c, l, v, i, i);
      assert Follows(c, l, u, i) && Follows(c, l, v, i);
      assert u[..k] == u[..i] + [u[i]] && v[..k] == v[..i] + [v[i]];
    }
  }

  /**
   If some register of length at most half the observed bits generates the whole stream, the
   shortest register found on the observed part emits the true future.
   */
  lemma ExactPrediction(c: seq<bool>, l: nat, s: seq<bool>, predicted: seq<bool>, e: seq<bool>, k: nat, future: seq<bool>)
    requires l <= |s| && |future| <= |predicted|
    requires Generates(c, l, s) && NoneShorter(l, s)
    requires forall i :: |s| <= i < |s + predicted| ==> Follows(c, l, s + predicted, i)
    requires 2 * k <= |s| && Generates(e, k, s + future)
    ensures predicted[..|future|] == future
  {
    var u := s + future;
    var v := s + predicted;
    assert u[..|s|] == s && v[..|s|] == s;
    GeneratesPrefix(e, k, u, |s|);
    GeneratesForever(c, l, e, k, u, |s|);
    SameContinuation(c, l, u, v, |s|, |u|);
    assert future == u[|s|..] && predicted[..|future|] == v[..|u|][|s|..];
    assert u[..|u|] == u;
  }

  /**
   The shortest registers agree on the next bit exactly when the complexity is at most half the
   bits seen: below that bound the prediction is forced, above it both bits are possible.
   */
  lemma NextBitForcedIff(l: nat, s: seq<bool>)
    requires IsComplexity(l, s) && l <= |s|
    ensures 2 * l <= |s| <==>
            forall c, c' :: Generates(c, l, s) && Generates(c', l, s) ==>
              Feedback(c, l, s, |s|) == Feedback(c', l, s, |s|)
  {
    var n := |s|;
    if 2 * l <= n {
      forall c, c' | Generates(c, l, s) && Generates(c', l, s)
        ensures Feedback(c, l, s, n) == Feedback(c', l, s, n)
      {
        var u := s + [Feedback(c', l, s, n)];
        GeneratesExtend(c', l, s, u[n]);
        assert u[..n] == s;
        GeneratesForever(c, l, c', l, u, n);
        assert Follows(c, l, u, n);
        FeedbackPrefix(c, l, u, n, n);
      }
    } else {
      var c :| Generates(c, l, s);
      var other := !Feedback(c, l, s, n);
      ComplexityProfile(c, l, s, other);
      var u := s + [other];
      var c' :| Generates(c', l, u);
      assert u[..n] == s;
      GeneratesPrefix(c', l, u, n);
      assert Follows(c', l, u, n);
      FeedbackPrefix(c', l, u, n, n);
    }
  }

  /** The register's next bit from its state, the last `l` bits of the stream `u` so far. */
  method NextBit(c: seq<bool>, l: nat, state: seq<bool>, ghost u: seq<bool>) returns (next: bool)
    requires l <= |u| && |c| == l + 1 && |state| == l && state == u[|u| - l..]
    ensures next == Feedback(c, l, u, |u|)
  {
    next := false;
    for j := 1 to l + 1
      invariant next == Feedback(c, j - 1, u, |u|)
    {
      assert state[l - j] == u[|u| - j];
      next := next != (c[j] && state[l - j]);
    }
  }

  /** Dropping the oldest bit and appending the newest keeps the state the end of the stream. */
  lemma StateMoves(u: seq<bool>, l: nat, next: bool)
    requires 1 <= l <= |u|
    ensures u[|u| - l..][1..] + [next] == (u + [next])[|u| + 1 - l..]
  {
  }

  /** Runs the register on from the last `l` bits of `s`. */
  method Simulate(s: seq<bool>, c: seq<bool>, l: nat, count: nat) returns (predicted: seq<bool>)
    requires 1 <= l <= |s| && |c| == l + 1
    ensures |predicted| == count
    ensures forall i :: |s| <= i < |s| + count ==> Follows(c, l, s + predicted, i)
  {
    predicted := [];
    var state := s[|s| - l..];
    ghost var u := s;
    for i := 0 to count
      invariant |predicted| == i && u == s + predicted
      invariant state == u[|u| - l..]
      invariant forall k :: |s| <= k < |u| ==> Follows(c, l, u, k)
    {
      var next := NextBit(c, l, state, u);
      FollowsGrows(c, l, u, next, |s|);
      StateMoves(u, l, next);
      predicted := predicted + [next];
      state := state[1..] + [next];
      u := u + [next];
    }
  }

  lemma FollowsGrows(c: seq<bool>, l: nat, u: seq<bool>, next: bool, n: nat)
    requires l <= n <= |u| && next == Feedback(c, l, u, |u|)
    requires forall k :: n <= k < |u| ==> Follows(c, l, u, k)
    ensures forall k :: n <= k < |u| + 1 ==> Follows(c, l, u + [next], k)
  {
    var v := u + [next];
    assert v[..|u|] == u;
    forall k: nat | n <= k < |v|
      ensures Follows(c, l, v, k)
    {
      FeedbackPrefix(c, l, v, |u|, k);
      if k < |u| {
        assert Follows(c, l, u, k);
      }
    }
  }

  /**
   Finds the shortest register of `bits` and runs it on. The register is shortest whatever the
   bits are; the prediction is the true future of every stream that a register of at most half
   the observed length generates. A sequence without a one has no state to run on.
   */
  method PredictBits(bits: seq<bool>, count: nat) returns (predicted: seq<bool>)
    requires true in bits
    ensures |predicted| == count
    ensures exists c, l :: IsComplexity(l, bits) && Generates(c, l, bits + predicted)
    ensures forall e: seq<bool>, k: nat, future: seq<bool> ::
              |future| <= count && 2 * k <= |bits| && Generates(e, k, bits + future) ==>
                predicted[..|future|] == future
  {
    var l, c := LinearComplexity(bits);
    ComplexityZero(l, bits);
    var taps := seq(l + 1, j => 0 <= j < |c| && c[j]);
    TapsGenerate(c, taps, l, bits);
    predicted := Simulate(bits, taps, l, count);
    RunsOn(taps, l, bits, predicted);
    forall e: seq<bool>, k: nat, future: seq<bool> |
      |future| <= count && 2 * k <= |bits| && Generates(e, k, bits + future)
      ensures predicted[..|future|] == future
    {
      ExactPrediction(taps, l, bits, predicted, e, k, future);
    }
  }

  lemma TapsGenerate(c: seq<bool>, taps: seq<bool>, l: nat, s: seq<bool>)
    requires |taps| == l + 1 && forall j :: 0 <= j <= l ==> taps[j] == (j < |c| && c[j])
    requires Generates(c, l, s)
    ensures Generates(taps, l, s)
  {
    forall i: nat | l <= i < |s|
      ensures Follows(taps, l, s, i)
    {
      FeedbackTaps(c, taps, l, s, i);
      assert Follows(c, l, s, i);
    }
  }

  lemma RunsOn(c: seq<bool>, l: nat, s: seq<bool>, predicted: seq<bool>)
    requires l <= |s| && Generates(c, l, s)
    requires forall i :: |s| <= i < |s| + |predicted| ==> Follows(c, l, s + predicted, i)
    ensures Generates(c, l, s + predicted)
  {
    assert (s + predicted)[..|s|] == s;
    GeneratesPrefix(c, l, s + predicted, |s|);
  }
}
