/**
 The flat shared memory of the port tasks: one process writes a block per VM, another finds its
 block by the same arithmetic. Memory is a sequence of C ints; a block is two of them and its tasks.
 */
module SharedLayout {

  const OVERALL_TASK := 65536
  const INT_SIZE := 4

  function EachTask(vmCount: nat): nat
    requires vmCount > 0
  {
    OVERALL_TASK / vmCount
  }

  /** Bytes of one block. */
  function BlockSize(vmCount: nat): nat
    requires vmCount > 0
  {
    2 * INT_SIZE + EachTask(vmCount) * INT_SIZE
  }

  /** Index of the first int of block `id`: its byte offset over the size of an int. */
  function BlockStart(vmCount: nat, id: nat): nat
    requires vmCount > 0
  {
    id * (2 + EachTask(vmCount))
  }

  lemma StartIsByteOffset(vmCount: nat, id: nat)
    requires vmCount > 0
    ensures BlockStart(vmCount, id) * INT_SIZE == id * BlockSize(vmCount)
  {
    var e := EachTask(vmCount);
    assert id * (2 + e) * 4 == id * ((2 + e) * 4);
  }

  /** Task `j` of VM `id`: the ports are handed out in order, starting from one. */
  function Task(vmCount: nat, id: nat, j: nat): nat
    requires vmCount > 0
  {
    id * EachTask(vmCount) + j + 1
  }

  /** The first `n` tasks of VM `id`. */
  function Tasks(vmCount: nat, id: nat, n: nat): (s: seq<int>)
    requires vmCount > 0
    ensures |s| == n
  {
    seq(n, j requires 0 <= j < n => Task(vmCount, id, j))
  }

  /** Block `id` of `mem` is what the writer promises. */
  ghost predicate BlockHolds(mem: seq<int>, vmCount: nat, id: nat)
    requires vmCount > 0
  {
    var at, e := BlockStart(vmCount, id), EachTask(vmCount);
    && at + 2 + e <= |mem|
    && mem[at] == id && mem[at + 1] == e
    && mem[at + 2..at + 2 + e] == Tasks(vmCount, id, e)
  }

  /** A block, int by int: its id, the number of its tasks, and one port after the other. */
  lemma BlockHoldsIff(mem: seq<int>, vmCount: nat, id: nat)
    requires vmCount > 0
    ensures var e := 65536 / vmCount;
            var at := id * (2 + e);
      BlockHolds(mem, vmCount, id) <==>
        && at + 2 + e <= |mem| && mem[at] == id && mem[at + 1] == e
        && forall p :: at + 2 <= p < at + 2 + e ==> mem[p] == id * e + (p - at - 1)
  {
    var at, e := BlockStart(vmCount, id), EachTask(vmCount);
    if at + 2 + e <= |mem| {
      assert forall j :: 0 <= j < e ==> Tasks(vmCount, id, e)[j] == id * e + (j + 1);
      Consecutive(mem, at + 2, e, id * e, Tasks(vmCount, id, e));
    }
  }

  lemma Consecutive(mem: seq<int>, from: nat, n: nat, base: nat, tasks: seq<int>)
    requires from + n <= |mem| && |tasks| == n && forall j :: 0 <= j < n ==> tasks[j] == base + (j + 1)
    ensures mem[from..from + n] == tasks <==> forall p :: from <= p < from + n ==> mem[p] == base + (p - from + 1)
  {
    var s := mem[from..from + n];
    assert forall j :: 0 <= j < n ==> s[j] == mem[from + j];
    if s == tasks {
      forall p | from <= p < from + n
        ensures mem[p] == base + (p - from + 1)
      {
        assert mem[p] == s[p - from] == tasks[p - from];
      }
    }
  }

  lemma NextStart(vmCount: nat, id: nat)
    requires vmCount > 0
    ensures BlockStart(vmCount, id + 1) == BlockStart(vmCount, id) + 2 + EachTask(vmCount)
    ensures (id + 1) * EachTask(vmCount) == id * EachTask(vmCount) + EachTask(vmCount)
  {
  }

  lemma StartMonotone(vmCount: nat, id: nat, id': nat)
    requires vmCount > 0 && id < id'
    ensures BlockStart(vmCount, id) + 2 + EachTask(vmCount) <= BlockStart(vmCount, id')
    decreases id' - id
  {
    NextStart(vmCount, id);
    if id + 1 < id' {
      StartMonotone(vmCount, id + 1, id');
    }
  }

  /** The writer: it refuses a count that is not positive, and else fills block after block with one running counter. */
  method Write(vmCount: int) returns (ok: bool, mem: array<int>)
    ensures ok <==> vmCount > 0
    ensures fresh(mem)
    ensures ok ==>
              && mem.Length * 4 == vmCount * (8 + 4 * (65536 / vmCount))
              && forall id :: 0 <= id < vmCount ==> BlockHolds(mem[..], vmCount, id)
  {
    if vmCount <= 0 {
      mem := new int[0];
      return false, mem;
    }
    var each := EachTask(vmCount);
    StartIsByteOffset(vmCount, vmCount);
    mem := new int[BlockStart(vmCount, vmCount)];
    var current := 0;
    for i := 0 to vmCount
      invariant current == i * each
      invariant forall id :: 0 <= id < i ==> BlockHolds(mem[..], vmCount, id)
    {
      NextStart(vmCount, i);
      if i + 1 < vmCount {
        StartMonotone(vmCount, i, vmCount);
      }
      current := WriteBlock(mem, vmCount, i, current);
    }
    ok := true;
  }

  /** One turn of the writer's loop. */
  method WriteBlock(mem: array<int>, vmCount: nat, i: nat, from: nat) returns (current: nat)
    requires vmCount > 0 && i < vmCount && from == i * EachTask(vmCount)
    requires BlockStart(vmCount, i) + 2 + EachTask(vmCount) <= mem.Length
    requires forall id :: 0 <= id < i ==> BlockHolds(mem[..], vmCount, id)
    modifies mem
    ensures current == from + EachTask(vmCount)
    ensures forall id :: 0 <= id <= i ==> BlockHolds(mem[..], vmCount, id)
  {
    var each := EachTask(vmCount);
    var block := BlockStart(vmCount, i);
    ghost var before := mem[..];
    current := from;
    mem[block] := i;
    mem[block + 1] := each;
    for j := 0 to each
      invariant current == from + j
      invariant mem[..block] == before[..block]
      invariant mem[block] == i && mem[block + 1] == each
      invariant mem[block + 2..block + 2 + j] == Tasks(vmCount, i, j)
    {
      current := current + 1;
      mem[block + 2 + j] := current;
      assert Tasks(vmCount, i, j + 1) == Tasks(vmCount, i, j) + [Task(vmCount, i, j)];
    }
    forall id | 0 <= id < i
      ensures BlockHolds(mem[..], vmCount, id)
    {
      StartMonotone(vmCount, id, i);
      EarlierBlock(before, mem[..], vmCount, id, block);
    }
  }

  lemma SameSlice(s: seq<int>, t: seq<int>, limit: nat, a: nat, b: nat)
    requires a <= b <= limit && limit <= |s| && limit <= |t| && s[..limit] == t[..limit]
    ensures s[a..b] == t[a..b]
  {
    forall k | a <= k < b
      ensures s[k] == t[k]
    {
      assert s[k] == s[..limit][k] && t[k] == t[..limit][k];
    }
  }

  /** A block below `limit` is not touched by writes from `limit` on. */
  lemma EarlierBlock(before: seq<int>, after: seq<int>, vmCount: nat, id: nat, limit: nat)
    requires vmCount > 0 && limit <= |before| && limit <= |after| && before[..limit] == after[..limit]
    requires BlockHolds(before, vmCount, id) && BlockStart(vmCount, id) + 2 + EachTask(vmCount) <= limit
    ensures BlockHolds(after, vmCount, id)
  {
    var at, e := BlockStart(vmCount, id), EachTask(vmCount);
    SameSlice(before, after, limit, at, at + 2);
    assert before[at] == before[at..at + 2][0] && after[at] == after[at..at + 2][0];
    assert before[at + 1] == before[at..at + 2][1] && after[at + 1] == after[at..at + 2][1];
    SameSlice(before, after, limit, at + 2, at + 2 + e);
  }

  datatype Reading = Invalid | Reading(id: int, taskCount: int, tasks: seq<int>)

  // --- The reader -----------------------------------------------------------------------------------

  // The reader is another program with its own constant and its own block size.

  const PORT_SPACE := 65536

  function ReaderBlockSize(vmCount: nat): nat
    requires vmCount > 0
  {
    2 * INT_SIZE + INT_SIZE * (PORT_SPACE / vmCount)
  }

  /** Byte offset of the block the reader looks at. */
  function ReaderOffset(vmCount: nat, vmId: nat): nat
    requires vmCount > 0
  {
    vmId * ReaderBlockSize(vmCount)
  }

  /** The reader looks where the writer wrote. */
  lemma ReaderFindsBlock(vmCount: nat, vmId: nat)
    requires vmCount > 0
    ensures ReaderOffset(vmCount, vmId) == BlockStart(vmCount, vmId) * INT_SIZE
    ensures ReaderOffset(vmCount, vmId) / INT_SIZE == BlockStart(vmCount, vmId)
  {
    StartIsByteOffset(vmCount, vmId);
    assert ReaderBlockSize(vmCount) == BlockSize(vmCount);
  }

  function Positive(n: int): nat { if n > 0 then n else 0 }

  /** The block the reader looks at, and as many tasks as it says it has, lie in memory. */
  ghost predicate InMemory(mem: seq<int>, vmCount: nat, vmId: nat)
    requires vmCount > 0
  {
    var at := ReaderOffset(vmCount, vmId) / INT_SIZE;
    at + 2 <= |mem| && at + 2 + Positive(mem[at + 1]) <= |mem|
  }

  /** The reader on any memory: it rejects ids out of range and otherwise reports what its block says. */
  method Read(mem: array<int>, vmCount: int, vmId: int) returns (r: Reading)
    requires 0 <= vmId < vmCount ==> InMemory(mem[..], vmCount, vmId)
    ensures r.Invalid? <==> vmCount <= 0 || vmId < 0 || vmId >= vmCount
    ensures r.Reading? ==>
              var at := ReaderOffset(vmCount, vmId) / INT_SIZE;
              r.id == mem[at] && r.taskCount == mem[at + 1] && r.tasks == mem[at + 2..at + 2 + Positive(mem[at + 1])]
  {
    if vmCount <= 0 || vmId < 0 || vmId >= vmCount {
      return Invalid;
    }
    var block := ReaderOffset(vmCount, vmId) / INT_SIZE;
    var id, count := mem[block], mem[block + 1];
    var tasks := [];
    var i := 0;
    while i < count
      invariant 0 <= i <= Positive(count)
      invariant tasks == mem[block + 2..block + 2 + i]
    {
      tasks := tasks + [mem[block + 2 + i]];
      i := i + 1;
    }
    r := Reading(id, count, tasks);
  }

  /** Writer and reader agree: for every positive count every valid id reads back its own id, count and ports. */
  method WriteThenRead(vmCount: int, vmId: int) returns (r: Reading)
    ensures r == if 0 <= vmId < vmCount
                 then Reading(vmId, EachTask(vmCount), Tasks(vmCount, vmId, EachTask(vmCount)))
                 else Invalid
    ensures r.Reading? ==> r.taskCount == |r.tasks| == 65536 / vmCount
    ensures r.Reading? ==> forall j :: 0 <= j < |r.tasks| ==> r.tasks[j] == vmId * (65536 / vmCount) + j + 1
  {
    var ok, mem := Write(vmCount);
    if 0 <= vmId < vmCount {
      assert BlockHolds(mem[..], vmCount, vmId);
      ReaderFindsBlock(vmCount, vmId);
    }
    r := Read(mem, vmCount, vmId);
    if r.Reading? {
      var at, e := BlockStart(vmCount, vmId), EachTask(vmCount);
      assert mem[at + 2..at + 2 + e] == mem[..][at + 2..at + 2 + e];
    }
  }

  // --- Who gets which port --------------------------------------------------------------------------

  ghost predicate Owns(vmCount: nat, id: nat, port: int)
    requires vmCount > 0
  {
    id * EachTask(vmCount) < port <= id * EachTask(vmCount) + EachTask(vmCount)
  }

  ghost predicate Distributed(vmCount: nat, port: int)
    requires vmCount > 0
  {
    exists id :: 0 <= id < vmCount && Owns(vmCount, id, port)
  }

  /** Owning a port is having it among the tasks of the block. */
  lemma OwnsIffTask(vmCount: nat, id: nat, port: int)
    requires vmCount > 0
    ensures Owns(vmCount, id, port) <==> port in Tasks(vmCount, id, EachTask(vmCount))
  {
    var tasks := Tasks(vmCount, id, EachTask(vmCount));
    if Owns(vmCount, id, port) {
      assert tasks[port - 1 - id * EachTask(vmCount)] == port;
    }
  }

  lemma {:induction false} ProductGap(a: nat, b: nat, e: nat)
    requires a < b
    ensures a * e + e <= b * e
    decreases b - a
  {
    assert (a + 1) * e == a * e + e;
    if a + 1 < b {
      ProductGap(a + 1, b, e);
    }
  }

  /** No port is given to two VMs. */
  lemma BlocksDisjoint(vmCount: nat, id: nat, id': nat, port: int)
    requires vmCount > 0 && Owns(vmCount, id, port) && Owns(vmCount, id', port)
    ensures id == id'
  {
    if id < id' {
      ProductGap(id, id', EachTask(vmCount));
    } else if id' < id {
      ProductGap(id', id, EachTask(vmCount));
    }
  }

  lemma {:induction false} FindOwner(vmCount: nat, port: int, n: nat) returns (id: nat)
    requires vmCount > 0 && 1 <= port <= n * EachTask(vmCount)
    ensures id < n && Owns(vmCount, id, port)
  {
    assert n > 0;
    id := n - 1;
    assert n * EachTask(vmCount) == id * EachTask(vmCount) + EachTask(vmCount);
    if port <= id * EachTask(vmCount) {
      id := FindOwner(vmCount, port, id);
    }
  }

  /** The ports given out are exactly 1 up to the distributed total. */
  lemma BlocksCover(vmCount: nat, port: int)
    requires vmCount > 0
    ensures Distributed(vmCount, port) <==> 1 <= port <= vmCount * (65536 / vmCount)
  {
    if 1 <= port <= vmCount * EachTask(vmCount) {
      var id := FindOwner(vmCount, port, vmCount);
    }
    if Distributed(vmCount, port) {
      var id :| 0 <= id < vmCount && Owns(vmCount, id, port);
      ProductGap(id, vmCount, EachTask(vmCount));
    }
  }

  /** Exactly the remainder stays undistributed, which is nothing exactly when the count divides 65536. */
  lemma Undistributed(vmCount: nat)
    requires vmCount > 0
    ensures vmCount * (65536 / vmCount) + 65536 % vmCount == 65536
    ensures (forall port :: 1 <= port <= 65536 ==> Distributed(vmCount, port)) <==> 65536 % vmCount == 0
  {
    forall port: int
      ensures Distributed(vmCount, port) <==> 1 <= port <= vmCount * EachTask(vmCount)
    {
      BlocksCover(vmCount, port);
    }
    if OVERALL_TASK % vmCount != 0 {
      assert !Distributed(vmCount, OVERALL_TASK);
    }
  }
}
