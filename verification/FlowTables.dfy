/** Tables over neighbouring pairs: port transitions, port differences, and two-bit blocks. */
module FlowTables {
  import opened Binary
  import opened Common
  import opened Counters

  type Table = map<Port, map<Port, nat>>

  // --- Transitions ----------------------------------------------------------------------------------

  function Row(t: Table, a: Port): map<Port, nat> { if a in t then t[a] else map[] }

  /** How often `b` came right after `a`. */
  function Cell(t: Table, a: Port, b: Port): nat { Get(Row(t, a), b) }

  /** `transitions[a][b]++`. */
  function Bump(t: Table, a: Port, b: Port): Table { t[a := Inc(Row(t, a), b)] }

  function Transitions(ports: seq<Port>): Table {
    if |ports| < 2 then map[]
    else Bump(Transitions(ports[..|ports| - 1]), ports[|ports| - 2], ports[|ports| - 1])
  }

  predicate PairAt(ports: seq<Port>, i: int, a: Port, b: Port) {
    0 < i < |ports| && ports[i - 1] == a && ports[i] == b
  }

  /** The number of positions at which the neighbours are (a, b). */
  ghost function CountPairs(ports: seq<Port>, a: Port, b: Port): nat {
    CountBelow(|ports|, i => PairAt(ports, i, a, b))
  }

  lemma {:induction false} CellCounts(ports: seq<Port>, a: Port, b: Port)
    ensures Cell(Transitions(ports), a, b) == CountPairs(ports, a, b)
  {
    var here := i => PairAt(ports, i, a, b);
    if ports == [] {
      CountNone(here);
    } else {
      var n := |ports| - 1;
      var init := ports[..n];
      CountStep(n, here);
      CountExt(n, here, i => PairAt(init, i, a, b));
      CellCounts(init, a, b);
    }
  }

  /** The entries of column `b`. */
  function Column(t: Table, b: Port): map<Port, nat> { map a | a in t :: Get(t[a], b) }

  /** The row totals. */
  ghost function Outgoing(t: Table, a: Port): int { Total(Row(t, a)) }

  ghost function Incoming(t: Table, b: Port): int { Total(Column(t, b)) }

  function Is(a: Port, b: Port): int { if a == b then 1 else 0 }

  lemma BumpOutgoing(t: Table, x: Port, y: Port, a: Port)
    ensures Outgoing(Bump(t, x, y), a) == Outgoing(t, a) + Is(a, x)
  {
    TotalInc(Row(t, x), y);
  }

  lemma BumpIncoming(t: Table, x: Port, y: Port, b: Port)
    ensures Incoming(Bump(t, x, y), b) == Incoming(t, b) + Is(b, y)
  {
    var v := Cell(t, x, b) + Is(b, y);
    assert Column(Bump(t, x, y), b) == Column(t, b)[x := v];
    TotalSet(Column(t, b), x, v);
  }

  /**
   Conservation of flow: every port is left as often as it is entered, except that the first port
   is left once more and the last one entered once more.
   */
  lemma {:induction false} FlowConservation(ports: seq<Port>, a: Port)
    requires ports != []
    ensures Outgoing(Transitions(ports), a) - Incoming(Transitions(ports), a)
         == Is(a, ports[0]) - Is(a, ports[|ports| - 1])
  {
    if |ports| == 1 {
      assert Column(map[], a) == map[];
    } else {
      var n := |ports| - 1;
      FlowConservation(ports[..n], a);
      BumpOutgoing(Transitions(ports[..n]), ports[n - 1], ports[n], a);
      BumpIncoming(Transitions(ports[..n]), ports[n - 1], ports[n], a);
    }
  }

  /** Row totals summed over all rows. */
  ghost function RowTotals(t: Table): map<Port, nat> {
    map a | a in t :: RowTotal(t[a])
  }

  ghost function RowTotal(row: map<Port, nat>): nat {
    TotalNatural(row);
    Total(row)
  }

  lemma {:induction false} TotalNatural(m: map<Port, nat>)
    ensures Total(m) >= 0
    decreases |m|
  {
    if m != map[] {
      var k := Pick(m);
      Smaller(m, k);
      TotalNatural(m - {k});
      SumRemove(m, (x: Port) => 1, k);
    }
  }

  lemma BumpRowTotals(t: Table, x: Port, y: Port)
    ensures Total(RowTotals(Bump(t, x, y))) == Total(RowTotals(t)) + 1
  {
    var v := RowTotal(Inc(Row(t, x), y));
    TotalInc(Row(t, x), y);
    assert RowTotals(Bump(t, x, y)) == RowTotals(t)[x := v];
    TotalSet(RowTotals(t), x, v);
    assert Get(RowTotals(t), x) == Total(Row(t, x));
  }

  /** All transitions together are one fewer than the ports. */
  lemma {:induction false} TransitionTotal(ports: seq<Port>)
    requires ports != []
    ensures Total(RowTotals(Transitions(ports))) == |ports| - 1
  {
    if |ports| == 1 {
      assert RowTotals(map[]) == map[];
    } else {
      var n := |ports| - 1;
      TransitionTotal(ports[..n]);
      BumpRowTotals(Transitions(ports[..n]), ports[n - 1], ports[n]);
    }
  }

  method MarkovTable(ports: seq<Port>) returns (transitions: Table)
    ensures transitions == Transitions(ports)
    ensures forall a: Port, b: Port :: Cell(transitions, a, b) == CountPairs(ports, a, b)
  {
    transitions := map[];
    var i := 1;
    while i < |ports|
      invariant 1 <= i && (ports != [] ==> i <= |ports|)
      invariant ports != [] ==> transitions == Transitions(ports[..i])
      invariant ports == [] ==> transitions == map[]
    {
      var prev, curr := ports[i - 1], ports[i];
      assert ports[..i + 1][..i] == ports[..i];
      transitions := Bump(transitions, prev, curr);
      i := i + 1;
    }
    assert ports != [] ==> ports[..i] == ports;
    forall a: Port, b: Port
      ensures Cell(transitions, a, b) == CountPairs(ports, a, b)
    {
      CellCounts(ports, a, b);
    }
  }

  // --- Differences ----------------------------------------------------------------------------------

  /** The signed difference of two ports. */
  function Difference(a: Port, b: Port): int { (a as int) - (b as int) }

  function DeltaHistogram(ports: seq<Port>): map<int, nat> {
    if |ports| < 2 then map[]
    else Inc(DeltaHistogram(ports[..|ports| - 1]), Difference(ports[|ports| - 1], ports[|ports| - 2]))
  }

  predicate DeltaAt(ports: seq<Port>, i: int, d: int) {
    0 < i < |ports| && (ports[i] as int) - ports[i - 1] == d
  }

  /** Each difference is counted once per position at which it occurs. */
  lemma {:induction false} DeltaCounts(ports: seq<Port>, d: int)
    ensures Get(DeltaHistogram(ports), d) == CountBelow(|ports|, i => DeltaAt(ports, i, d))
  {
    var here := i => DeltaAt(ports, i, d);
    if ports == [] {
      CountNone(here);
    } else {
      var n := |ports| - 1;
      var init := ports[..n];
      CountStep(n, here);
      CountExt(n, here, i => DeltaAt(init, i, d));
      DeltaCounts(init, d);
    }
  }

  /** The histogram remembers the whole way from the first port to the last, and how many steps it took. */
  lemma {:induction false} DeltasTelescope(ports: seq<Port>)
    requires ports != []
    ensures Sum(DeltaHistogram(ports), (d: int) => d) == (ports[|ports| - 1] as int) - ports[0]
    ensures Total(DeltaHistogram(ports)) == |ports| - 1
  {
    if |ports| > 1 {
      var n := |ports| - 1;
      var m := DeltaHistogram(ports[..n]);
      var d: int := Difference(ports[n], ports[n - 1]);
      DeltasTelescope(ports[..n]);
      SumInc(m, (x: int) => x, d);
      TotalInc(m, d);
    }
  }

  method DeltaAnalysis(ports: seq<Port>) returns (hist: map<int, nat>)
    ensures hist == DeltaHistogram(ports)
  {
    hist := map[];
    var i := 1;
    while i < |ports|
      invariant 1 <= i && (ports != [] ==> i <= |ports|)
      invariant ports != [] ==> hist == DeltaHistogram(ports[..i])
      invariant ports == [] ==> hist == map[]
    {
      var delta: int := Difference(ports[i], ports[i - 1]);
      assert ports[..i + 1][..i] == ports[..i];
      hist := Inc(hist, delta);
      i := i + 1;
    }
    assert ports != [] ==> ports[..i] == ports;
  }

  // --- Runs and two-bit blocks ----------------------------------------------------------------------

  predicate BlockAt(bits: seq<bool>, i: int, block: seq<bool>) {
    0 < i < |bits| && [bits[i - 1], bits[i]] == block
  }

  /** The number of positions among the first `n` at which the two-bit block `block` ends. */
  ghost function CountBlocks(bits: seq<bool>, n: nat, block: seq<bool>): nat {
    CountBelow(n, i => BlockAt(bits, i, block))
  }

  lemma BlockStep(bits: seq<bool>, n: nat, block: seq<bool>)
    ensures CountBlocks(bits, 0, block) == 0
    ensures CountBlocks(bits, n + 1, block) == CountBlocks(bits, n, block) + if BlockAt(bits, n, block) then 1 else 0
  {
    var here := i => BlockAt(bits, i, block);
    CountNone(here);
    CountStep(n, here);
  }

  lemma PairIs(a: bool, b: bool, c: bool, d: bool)
    ensures [a, b] == [c, d] <==> a == c && b == d
  {
    assert [a, b][0] == a && [a, b][1] == b;
  }

  ghost function Ups(bits: seq<bool>, n: nat): nat { CountBlocks(bits, n, [false, true]) }

  ghost function Downs(bits: seq<bool>, n: nat): nat { CountBlocks(bits, n, [true, false]) }

  lemma ChangeStep(bits: seq<bool>, n: nat)
    requires n < |bits|
    ensures Ups(bits, 0) == Downs(bits, 0) == 0
    ensures Ups(bits, n + 1) == Ups(bits, n) + if n > 0 && !bits[n - 1] && bits[n] then 1 else 0
    ensures Downs(bits, n + 1) == Downs(bits, n) + if n > 0 && bits[n - 1] && !bits[n] then 1 else 0
  {
    BlockStep(bits, n, [false, true]);
    BlockStep(bits, n, [true, false]);
    if n > 0 {
      PairIs(bits[n - 1], bits[n], false, true);
      PairIs(bits[n - 1], bits[n], true, false);
    }
  }

  /** The changes up and down alternate, so their counts differ by at most one, and by what the ends say. */
  lemma {:induction false} ChangesAlternate(bits: seq<bool>, n: nat)
    requires 0 < n <= |bits|
    ensures Ups(bits, n) - Downs(bits, n) == BitValue(bits[n - 1]) - BitValue(bits[0])
  {
    ChangeStep(bits, n - 1);
    if n > 1 {
      ChangesAlternate(bits, n - 1);
    } else {
      ChangeStep(bits, 0);
    }
  }

  /** A bit sequence has one run more than it has changes. */
  method CountRuns(bits: seq<bool>) returns (runs: nat)
    ensures runs == 1 + Ups(bits, |bits|) + Downs(bits, |bits|)
  {
    runs := 1;
    if bits == [] {
      BlockStep(bits, 0, [false, true]);
      BlockStep(bits, 0, [true, false]);
      return;
    }
    ChangeStep(bits, 0);
    var i := 1;
    while i < |bits|
      invariant 1 <= i <= |bits|
      invariant runs == 1 + Ups(bits, i) + Downs(bits, i)
    {
      ChangeStep(bits, i);
      if bits[i] != bits[i - 1] {
        runs := runs + 1;
      }
      i := i + 1;
    }
  }

  /** `blocks` counts the two-bit blocks of the first `n` bits. */
  ghost predicate CountsBlocks(blocks: map<seq<bool>, nat>, bits: seq<bool>, n: nat) {
    forall block :: Get(blocks, block) == CountBlocks(bits, n, block)
  }

  method BlockFrequencies(bits: seq<bool>) returns (blocks: map<seq<bool>, nat>)
    ensures CountsBlocks(blocks, bits, |bits|)
    ensures Total(blocks) == if bits == [] then 0 else |bits| - 1
  {
    blocks := map[];
    NoBlocks(bits);
    if bits == [] {
      return;
    }
    var i := 0;
    while i + 2 <= |bits|
      invariant i + 1 <= |bits|
      invariant Total(blocks) == i
      invariant CountsBlocks(blocks, bits, i + 1)
    {
      BlocksStep(blocks, bits, i);
      TotalInc(blocks, bits[i..i + 2]);
      blocks := Inc(blocks, bits[i..i + 2]);
      i := i + 1;
    }
  }

  lemma NoBlocks(bits: seq<bool>)
    ensures CountsBlocks(map[], bits, 0) && CountsBlocks(map[], bits, 1)
  {
    var empty: map<seq<bool>, nat> := map[];
    forall block
      ensures Get(empty, block) == CountBlocks(bits, 0, block) == CountBlocks(bits, 1, block)
    {
      BlockStep(bits, 0, block);
    }
  }

  lemma BlocksStep(blocks: map<seq<bool>, nat>, bits: seq<bool>, i: nat)
    requires i + 2 <= |bits| && CountsBlocks(blocks, bits, i + 1)
    ensures CountsBlocks(Inc(blocks, bits[i..i + 2]), bits, i + 2)
  {
    var next, n := Inc(blocks, bits[i..i + 2]), i + 2;
    assert bits[i..i + 2] == [bits[i], bits[i + 1]];
    forall block
      ensures Get(next, block) == CountBlocks(bits, n, block)
    {
      BlockStep(bits, i + 1, block);
      assert Get(blocks, block) == CountBlocks(bits, i + 1, block);
    }
  }
}
