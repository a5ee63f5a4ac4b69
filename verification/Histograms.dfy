/** How far apart equal ports lie: one pass with a map of last positions, against the declarative count. */
module Histograms {
  import opened Common
  import opened Counters

  /** The last position before `n` that holds `p`, or -1. */
  function LastIndex(ports: seq<Port>, n: nat, p: Port): (r: int)
    requires n <= |ports|
    ensures -1 <= r < n
    ensures r >= 0 ==> ports[r] == p
    ensures forall j :: r < j < n ==> ports[j] != p
  {
    if n == 0 then -1 else if ports[n - 1] == p then n - 1 else LastIndex(ports, n - 1, p)
  }

  /** Position `i` repeats a port whose nearest earlier occurrence is exactly `d` back. */
  predicate RepeatsAt(ports: seq<Port>, i: int, d: nat) {
    && 0 < d <= i < |ports| && ports[i - d] == ports[i]
    && forall j :: i - d < j < i ==> ports[j] != ports[i]
  }

  /** How many of the first `n` positions do. */
  ghost function CountRepeats(ports: seq<Port>, n: nat, d: nat): nat {
    CountBelow(n, i => RepeatsAt(ports, i, d))
  }

  lemma CountRepeatsStep(ports: seq<Port>, n: nat, d: nat)
    ensures CountRepeats(ports, 0, d) == 0
    ensures CountRepeats(ports, n + 1, d) == CountRepeats(ports, n, d) + if RepeatsAt(ports, n, d) then 1 else 0
  {
    var p := i => RepeatsAt(ports, i, d);
    CountNone(p);
    CountStep(n, p);
  }

  ghost function Distinct(ports: seq<Port>): set<Port> { set p | p in ports }

  /** `hist` counts distance `d` over the first `n` positions if `d` passes the filter, and has no entry otherwise. */
  ghost predicate CountsAt(hist: map<nat, nat>, ports: seq<Port>, n: nat, lo: nat, hi: nat, d: nat)
    requires n <= |ports|
  {
    if lo < d < hi && CountRepeats(ports, n, d) > 0 then d in hist && hist[d] == CountRepeats(ports, n, d) else d !in hist
  }

  ghost predicate IsHistogram(hist: map<nat, nat>, ports: seq<Port>, n: nat, lo: nat, hi: nat)
    requires n <= |ports|
  {
    forall d :: CountsAt(hist, ports, n, lo, hi, d)
  }

  ghost predicate SeenAt(lastSeen: map<Port, nat>, ports: seq<Port>, n: nat, p: Port)
    requires n <= |ports|
  {
    if LastIndex(ports, n, p) >= 0 then p in lastSeen && lastSeen[p] == LastIndex(ports, n, p) else p !in lastSeen
  }

  /** The map of last positions, as the loops maintain it. */
  ghost predicate IsLastSeen(lastSeen: map<Port, nat>, ports: seq<Port>, n: nat)
    requires n <= |ports|
  {
    forall p: Port :: SeenAt(lastSeen, ports, n, p)
  }

  lemma RepeatDistance(ports: seq<Port>, i: nat, d: nat)
    requires i < |ports|
    ensures RepeatsAt(ports, i, d) <==> LastIndex(ports, i, ports[i]) >= 0 && d == i - LastIndex(ports, i, ports[i])
  {
    RepeatsFrom(ports, i, d, LastIndex(ports, i, ports[i]));
  }

  lemma RepeatsFrom(ports: seq<Port>, i: nat, d: nat, r: int)
    requires -1 <= r < i < |ports| && (r >= 0 ==> ports[r] == ports[i])
    requires forall j :: r < j < i ==> ports[j] != ports[i]
    ensures RepeatsAt(ports, i, d) <==> r >= 0 && d == i - r
  {
    if RepeatsAt(ports, i, d) {
      assert ports[i - d] == ports[i];
    }
  }

  /** The histogram after position `i`: it takes in the distance to `r`, if there is one and it passes. */
  function Taken(hist: map<nat, nat>, i: nat, r: int, lo: nat, hi: nat): map<nat, nat>
    requires r < i
  {
    if r >= 0 && lo < i - r < hi then Inc(hist, i - r) else hist
  }

  lemma CountsAtStep(hist: map<nat, nat>, ports: seq<Port>, i: nat, lo: nat, hi: nat, d: nat)
    requires i < |ports| && CountsAt(hist, ports, i, lo, hi, d)
    ensures CountsAt(Taken(hist, i, LastIndex(ports, i, ports[i]), lo, hi), ports, i + 1, lo, hi, d)
  {
    CountRepeatsStep(ports, i, d);
    RepeatDistance(ports, i, d);
  }

  lemma HistogramStep(hist: map<nat, nat>, ports: seq<Port>, i: nat, lo: nat, hi: nat)
    requires i < |ports| && IsHistogram(hist, ports, i, lo, hi)
    ensures IsHistogram(Taken(hist, i, LastIndex(ports, i, ports[i]), lo, hi), ports, i + 1, lo, hi)
  {
    var next, n := Taken(hist, i, LastIndex(ports, i, ports[i]), lo, hi), i + 1;
    forall d: nat
      ensures CountsAt(next, ports, n, lo, hi, d)
    {
      assert CountsAt(hist, ports, i, lo, hi, d);
      CountsAtStep(hist, ports, i, lo, hi, d);
    }
  }

  lemma LastSeenStep(lastSeen: map<Port, nat>, ports: seq<Port>, i: nat)
    requires i < |ports| && IsLastSeen(lastSeen, ports, i)
    ensures IsLastSeen(lastSeen[ports[i] := i], ports, i + 1)
  {
    var next, n := lastSeen[ports[i] := i], i + 1;
    forall p: Port
      ensures SeenAt(next, ports, n, p)
    {
      assert SeenAt(lastSeen, ports, i, p);
    }
  }

  /** A new port enlarges the set of ports seen, a repeated one does not. */
  lemma DistinctStep(ports: seq<Port>, i: nat)
    requires i < |ports|
    ensures |Distinct(ports[..i + 1])| == |Distinct(ports[..i])| + if LastIndex(ports, i, ports[i]) >= 0 then 0 else 1
  {
    var r := LastIndex(ports, i, ports[i]);
    assert ports[..i + 1] == ports[..i] + [ports[i]];
    assert Distinct(ports[..i + 1]) == Distinct(ports[..i]) + {ports[i]};
    if r >= 0 {
      assert ports[..i][r] == ports[i];
      assert Distinct(ports[..i]) + {ports[i]} == Distinct(ports[..i]);
    } else {
      assert ports[i] !in ports[..i];
    }
  }

  /** One turn of either loop: the map of last positions tells the distance to the previous occurrence. */
  lemma SeenDistance(lastSeen: map<Port, nat>, ports: seq<Port>, i: nat)
    requires i < |ports| && IsLastSeen(lastSeen, ports, i)
    ensures ports[i] in lastSeen <==> LastIndex(ports, i, ports[i]) >= 0
    ensures ports[i] in lastSeen ==> lastSeen[ports[i]] == LastIndex(ports, i, ports[i])
  {
    assert SeenAt(lastSeen, ports, i, ports[i]);
  }

  lemma NothingRead(ports: seq<Port>, lo: nat, hi: nat)
    ensures IsHistogram(map[], ports, 0, lo, hi)
  {
    var empty: map<nat, nat> := map[];
    forall d: nat
      ensures CountsAt(empty, ports, 0, lo, hi, d)
    {
      CountRepeatsStep(ports, 0, d);
    }
  }

  /** Every repeated position counts once: together they are all positions but the first of each port. */
  method RepetitionDistances(ports: seq<Port>) returns (hist: map<nat, nat>)
    ensures IsHistogram(hist, ports, |ports|, 0, |ports| + 1)
    ensures Total(hist) == |ports| - |Distinct(ports)|
  {
    var lastSeen: map<Port, nat> := map[];
    hist := map[];
    assert ports[..0] == [];
    NothingRead(ports, 0, |ports| + 1);
    for i := 0 to |ports|
      invariant IsLastSeen(lastSeen, ports, i)
      invariant IsHistogram(hist, ports, i, 0, |ports| + 1)
      invariant Total(hist) == i - |Distinct(ports[..i])|
    {
      var port := ports[i];
      SeenDistance(lastSeen, ports, i);
      HistogramStep(hist, ports, i, 0, |ports| + 1);
      DistinctStep(ports, i);
      LastSeenStep(lastSeen, ports, i);
      if port in lastSeen {
        var dist: nat := i - lastSeen[port];
        TotalInc(hist, dist);
        hist := Inc(hist, dist);
      }
      lastSeen := lastSeen[port := i];
    }
    assert ports[..|ports|] == ports;
  }

  /** The same pass with the filter 1 < length < 1024. */
  method CycleLengths(ports: seq<Port>) returns (cycles: map<nat, nat>)
    ensures IsHistogram(cycles, ports, |ports|, 1, 1024)
  {
    var lastSeen: map<Port, nat> := map[];
    cycles := map[];
    NothingRead(ports, 1, 1024);
    for i := 0 to |ports|
      invariant IsLastSeen(lastSeen, ports, i)
      invariant IsHistogram(cycles, ports, i, 1, 1024)
    {
      var port := ports[i];
      SeenDistance(lastSeen, ports, i);
      HistogramStep(cycles, ports, i, 1, 1024);
      LastSeenStep(lastSeen, ports, i);
      if port in lastSeen {
        var prev := lastSeen[port];
        var cycleLen: nat := i - prev;
        if cycleLen > 1 && cycleLen < 1024 {
          cycles := Inc(cycles, cycleLen);
        }
      }
      lastSeen := lastSeen[port := i];
    }
  }

  /** The cycle table is the repetition histogram cut down to distances between 1 and 1024. */
  lemma CyclesAreRestriction(hist: map<nat, nat>, cycles: map<nat, nat>, ports: seq<Port>)
    requires IsHistogram(hist, ports, |ports|, 0, |ports| + 1)
    requires IsHistogram(cycles, ports, |ports|, 1, 1024)
    ensures cycles == map d | d in hist && 1 < d < 1024 :: hist[d]
  {
    forall d: nat
      ensures d in cycles <==> d in hist && 1 < d < 1024
      ensures d in cycles ==> cycles[d] == hist[d]
    {
      assert CountsAt(hist, ports, |ports|, 0, |ports| + 1, d) && CountsAt(cycles, ports, |ports|, 1, 1024, d);
      RepeatsBound(ports, |ports|, d);
    }
  }

  lemma {:induction false} RepeatsBound(ports: seq<Port>, n: nat, d: nat)
    requires n <= |ports|
    ensures CountRepeats(ports, n, d) > 0 ==> 0 < d < n
  {
    CountRepeatsStep(ports, 0, d);
    if n > 0 {
      CountRepeatsStep(ports, n - 1, d);
      RepeatsBound(ports, n - 1, d);
    }
  }
}
