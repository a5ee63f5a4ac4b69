/** The exchange sort of the server list: answered servers by time, unanswered ones (time zero) last. */
module ExchangeSort {

  datatype Server = Server(host: string, port: int, rttMs: nat)

  const SHOWN := 5

  /** The order the sort establishes: zero counts as later than every measured time. */
  predicate Before(a: Server, b: Server) {
    a.rttMs > 0 && (b.rttMs == 0 || a.rttMs < b.rttMs)
  }

  predicate NotAfter(a: Server, b: Server) { !Before(b, a) }

  ghost predicate Ordered(s: seq<Server>) {
    forall i, j :: 0 <= i < j < |s| ==> NotAfter(s[i], s[j])
  }

  /** Element `i` comes no later than any element between `i` and `n`. */
  ghost predicate Least(s: seq<Server>, i: nat, n: nat)
    requires i < n <= |s|
  {
    forall k :: i < k < n ==> NotAfter(s[i], s[k])
  }

  /** The first `i` elements are ordered and none comes after any of the rest. */
  ghost predicate Settled(s: seq<Server>, i: nat) {
    forall a, b :: 0 <= a < i && a < b < |s| ==> NotAfter(s[a], s[b])
  }

  /** `s` with the elements at `i` and `j` exchanged. */
  function Swapped(s: seq<Server>, i: nat, j: nat): (t: seq<Server>)
    requires i < |s| && j < |s|
    ensures |t| == |s|
  {
    s[i := s[j]][j := s[i]]
  }

  lemma SwapKeepsSettled(s: seq<Server>, i: nat, j: nat)
    requires i < j < |s| && Settled(s, i)
    ensures Settled(Swapped(s, i, j), i)
    ensures multiset(Swapped(s, i, j)) == multiset(s)
  {
    var t := Swapped(s, i, j);
    forall a, b | 0 <= a < i && a < b < |t|
      ensures NotAfter(t[a], t[b])
    {
      assert t[a] == s[a];
      assert t[b] == if b == i then s[j] else if b == j then s[i] else s[b];
    }
  }

  lemma SwapKeepsLeast(s: seq<Server>, i: nat, j: nat)
    requires i < j < |s| && Least(s, i, j) && Before(s[j], s[i])
    ensures Least(Swapped(s, i, j), i, j + 1)
  {
    var t := Swapped(s, i, j);
    forall k | i < k < j + 1
      ensures NotAfter(t[i], t[k])
    {
      if k < j {
        assert NotAfter(s[i], s[k]);
      }
    }
  }

  method Sort(servers: array<Server>)
    modifies servers
    ensures multiset(servers[..]) == multiset(old(servers[..]))
    ensures Ordered(servers[..])
  {
    var n := servers.Length;
    for i := 0 to n
      invariant multiset(servers[..]) == multiset(old(servers[..]))
      invariant Settled(servers[..], i)
    {
      for j := i + 1 to n
        invariant multiset(servers[..]) == multiset(old(servers[..]))
        invariant Settled(servers[..], i) && Least(servers[..], i, j)
      {
        if servers[j].rttMs > 0 && (servers[i].rttMs == 0 || servers[j].rttMs < servers[i].rttMs) {
          ghost var s := servers[..];
          SwapKeepsSettled(s, i, j);
          SwapKeepsLeast(s, i, j);
          var tmp := servers[i];
          servers[i] := servers[j];
          servers[j] := tmp;
          assert servers[..] == Swapped(s, i, j);
        }
      }
    }
  }

  // --- The five fastest -----------------------------------------------------------------------------

  function Answered(s: seq<Server>): seq<Server> {
    if s == [] then [] else Answered(s[..|s| - 1]) + if s[|s| - 1].rttMs > 0 then [s[|s| - 1]] else []
  }

  /** In an ordered list the answered servers are a prefix. */
  lemma {:induction false} AnsweredPrefix(s: seq<Server>)
    requires Ordered(s)
    ensures Answered(s) <= s
    ensures forall i :: |Answered(s)| <= i < |s| ==> s[i].rttMs == 0
  {
    if s != [] {
      var init := s[..|s| - 1];
      AnsweredPrefix(init);
      if |Answered(init)| < |init| {
        assert NotAfter(s[|Answered(init)|], s[|s| - 1]);
      }
    }
  }

  /** No answered server that is left out is faster than one that is shown. */
  ghost predicate Fastest(shown: seq<Server>, s: seq<Server>) {
    forall a, b :: a in shown && b in s && b !in shown && b.rttMs > 0 ==> a.rttMs <= b.rttMs
  }

  lemma PrefixFastest(shown: seq<Server>, s: seq<Server>)
    requires Ordered(s) && shown <= s && forall a :: a in shown ==> a.rttMs > 0
    ensures Fastest(shown, s)
  {
    forall a, b | a in shown && b in s && b !in shown && b.rttMs > 0
      ensures a.rttMs <= b.rttMs
    {
      var i :| 0 <= i < |shown| && shown[i] == a;
      var j :| 0 <= j < |s| && s[j] == b;
      assert j >= |shown|;
      assert NotAfter(s[i], s[j]);
    }
  }

  lemma {:induction false} AnsweredPositive(s: seq<Server>)
    ensures forall a :: a in Answered(s) ==> a.rttMs > 0
  {
    if s != [] {
      AnsweredPositive(s[..|s| - 1]);
    }
  }

  /** Shows the answered servers from the front, five at most. */
  method ShowFastest(servers: array<Server>) returns (shown: seq<Server>)
    requires Ordered(servers[..])
    ensures var answered := Answered(servers[..]);
      shown == if |answered| <= 5 then answered else answered[..5]
    ensures Fastest(shown, servers[..])
  {
    shown := [];
    var i, count := 0, 0;
    ghost var s := servers[..];
    while i < servers.Length && count < SHOWN
      invariant 0 <= i <= |s| && count == |shown| <= SHOWN
      invariant shown == Answered(s[..i])
    {
      assert s[..i + 1][..i] == s[..i];
      if servers[i].rttMs > 0 {
        shown := shown + [servers[i]];
        count := count + 1;
      }
      i := i + 1;
    }
    ShownIsAnswered(s, shown, i);
  }

  /** Where the scan stops, it has shown what it should. */
  lemma ShownIsAnswered(s: seq<Server>, shown: seq<Server>, i: nat)
    requires Ordered(s) && i <= |s| && shown == Answered(s[..i])
    requires |shown| <= SHOWN && (i == |s| || |shown| == SHOWN)
    ensures var answered := Answered(s);
      shown == if |answered| <= SHOWN then answered else answered[..SHOWN]
    ensures Fastest(shown, s)
  {
    ShownIsPrefix(s, i);
    AnsweredPrefix(s);
    AnsweredPositive(s[..i]);
    PrefixFastest(shown, s);
  }

  lemma {:induction false} ShownIsPrefix(s: seq<Server>, i: nat)
    requires i <= |s|
    ensures Answered(s[..i]) <= Answered(s)
    ensures i == |s| ==> Answered(s[..i]) == Answered(s)
    decreases |s| - i
  {
    if i < |s| {
      assert s[..i + 1][..i] == s[..i];
      ShownIsPrefix(s, i + 1);
    } else {
      assert s[..i] == s;
    }
  }
}
