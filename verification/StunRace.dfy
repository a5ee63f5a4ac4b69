/**
 The race between STUN servers: requests are sent, whatever datagrams arrive are matched to the
 table by transaction id, a retry round follows, and the fastest usable server is chosen.
 */
module StunRace {
  import opened Bytes
  import opened Common
  import opened Stun

  const TIME_LIMIT_MS := 100
  const STUN_PKT_LEN := 20
  const MILLI := 1_000_000
  const SECOND := 1_000_000_000

  /** A reading of the monotonic clock. */
  datatype Time = Time(sec: int, nsec: int)

  ghost predicate IsTime(t: Time) { 0 <= t.nsec < SECOND }

  function Nanos(t: Time): int { SECOND * t.sec + t.nsec }

  ghost predicate NotAfter(t: Time, t': Time) { IsTime(t) && IsTime(t') && Nanos(t) <= Nanos(t') }

  /**
   A table entry. `rttMs` is -1 until the entry is answered; no public address is the empty string
   of the table. `answeredAt` is the clock reading used for `rttMs`; no branch looks at it.
   */
  datatype Server = Server(host: string, tid: seq<Byte>, sendTime: Time, rttMs: int,
                           publicIp: Option<Word32>, publicPort: Word16, answeredAt: Time)

  /** A received datagram: `len` bytes, and what lies behind them in the receive buffers, as far as the parser may look. */
  datatype Datagram = Datagram(bytes: seq<Byte>, len: nat)

  predicate IsDatagram(d: Datagram) { Readable(d.bytes, d.len) }

  predicate IsBatch(batch: seq<Datagram>) {
    forall i :: 0 <= i < |batch| ==> IsDatagram(batch[i])
  }

  /** One turn of the receive loop: the batch, the time it was read at, the time the loop ends at. */
  datatype Poll = Poll(batch: seq<Datagram>, now: Time, cur: Time)

  /** What a request is sent with: random transaction id and clock reading. */
  datatype Request = Request(tid: seq<Byte>, at: Time)

  predicate AreRequests(requests: seq<Request>) {
    forall i :: 0 <= i < |requests| ==> |requests[i].tid| == 12
  }

  /** The binding request that goes out. */
  function RequestPacket(tid: seq<Byte>): seq<Byte> { [0x00, 0x01, 0x00, 0x00] + Be32(MAGIC_COOKIE) + tid }

  // --- Round-trip times -----------------------------------------------------------------------------

  /** C's division, which cuts toward zero. */
  function TruncDiv(a: int, b: int): int
    requires b > 0
  {
    if a >= 0 then a / b else -((-a) / b)
  }

  function ElapsedMs(now: Time, since: Time): int {
    (now.sec - since.sec) * 1000 + TruncDiv(now.nsec - since.nsec, MILLI)
  }

  /** The measured time is within a millisecond of the true one, and is not negative. */
  lemma ElapsedAccurate(now: Time, since: Time)
    requires NotAfter(since, now)
    ensures -MILLI < MILLI * ElapsedMs(now, since) - (Nanos(now) - Nanos(since)) < MILLI
    ensures ElapsedMs(now, since) >= 0
  {
    var d := now.nsec - since.nsec;
    var q := TruncDiv(d, MILLI);
    assert -MILLI < MILLI * q - d < MILLI && -1000 < q < 1000;
    assert MILLI * ElapsedMs(now, since) - (Nanos(now) - Nanos(since)) == MILLI * q - d;
    if now.sec == since.sec {
      assert d >= 0;
    }
  }

  /** Whole seconds count a thousand each; the nanoseconds between them are cut to milliseconds toward zero. */
  lemma ElapsedExact(now: Time, since: Time)
    ensures var d := now.nsec - since.nsec;
            var cut := 1_000_000 * (ElapsedMs(now, since) - 1000 * (now.sec - since.sec));
      && (d >= 0 ==> 0 <= d - cut < 1_000_000)
      && (d <= 0 ==> -1_000_000 < d - cut <= 0)
  {
    var d := now.nsec - since.nsec;
    assert ElapsedMs(now, since) - 1000 * (now.sec - since.sec) == TruncDiv(d, 1_000_000);
  }

  // --- The comparator -------------------------------------------------------------------------------

  function CmpRtt(a: Server, b: Server): int {
    if a.rttMs < 0 && b.rttMs < 0 then 0
    else if a.rttMs < 0 then 1
    else if b.rttMs < 0 then -1
    else (if a.rttMs > b.rttMs then 1 else 0) - (if a.rttMs < b.rttMs then 1 else 0)
  }

  /** The comparator is a total preorder, which is what the sort asks of it. */
  lemma CmpIsTotalPreorder(a: Server, b: Server, c: Server)
    ensures CmpRtt(a, a) == 0
    ensures CmpRtt(a, b) == -CmpRtt(b, a)
    ensures CmpRtt(a, b) <= 0 && CmpRtt(b, c) <= 0 ==> CmpRtt(a, c) <= 0
  {
  }

  ghost predicate SortedByRtt(s: seq<Server>) {
    forall i, j :: 0 <= i < j < |s| ==> CmpRtt(s[i], s[j]) <= 0
  }

  /** In a sorted table answered entries come first, by their times, and unanswered ones last. */
  lemma SortedIff(s: seq<Server>)
    ensures SortedByRtt(s) <==>
            forall i, j :: 0 <= i < j < |s| && s[j].rttMs >= 0 ==> 0 <= s[i].rttMs <= s[j].rttMs
  {
    if forall i, j :: 0 <= i < j < |s| && s[j].rttMs >= 0 ==> 0 <= s[i].rttMs <= s[j].rttMs {
      forall i, j | 0 <= i < j < |s|
        ensures CmpRtt(s[i], s[j]) <= 0
      {
      }
    } else {
      var i, j :| 0 <= i < j < |s| && s[j].rttMs >= 0 && !(0 <= s[i].rttMs <= s[j].rttMs);
      assert CmpRtt(s[i], s[j]) > 0;
    }
  }

  predicate IsValid(s: Server) { s.publicIp.Some? && s.publicPort != 0 }

  // --- Answers --------------------------------------------------------------------------------------

  /** The entry after `d` was matched to it; a datagram without a mapped address leaves none behind. */
  function Answer(s: Server, d: Datagram, now: Time): Server
    requires IsDatagram(d)
  {
    var s' := s.(rttMs := ElapsedMs(now, s.sendTime), answeredAt := now);
    match Parse(d.bytes, d.len)
    case None => s'
    case Some(m) => s'.(publicIp := Some(m.ip), publicPort := m.port)
  }

  predicate Targets(targets: seq<nat>, n: nat) {
    forall i :: 0 <= i < |targets| ==> targets[i] < n
  }

  predicate Matches(s: Server, d: Datagram)
    requires STUN_PKT_LEN <= d.len && IsDatagram(d)
  {
    s.rttMs == -1 && d.bytes[8..20] == s.tid
  }

  /** What one datagram does to the table: the first matching target is answered, if there is one. */
  function Deliver(table: seq<Server>, targets: seq<nat>, d: Datagram, now: Time): (r: seq<Server>)
    requires Targets(targets, |table|)
    requires IsDatagram(d)
    ensures |r| == |table|
  {
    if d.len < STUN_PKT_LEN || targets == [] then table
    else if Matches(table[targets[0]], d) then table[targets[0] := Answer(table[targets[0]], d, now)]
    else Deliver(table, targets[1..], d, now)
  }

  function DeliverAll(table: seq<Server>, targets: seq<nat>, batch: seq<Datagram>, now: Time): (r: seq<Server>)
    requires Targets(targets, |table|)
    requires IsBatch(batch)
    ensures |r| == |table|
  {
    if batch == [] then table
    else
      var n := |batch| - 1;
      Deliver(DeliverAll(table, targets, batch[..n], now), targets, batch[n], now)
  }

  predicate ArePolls(polls: seq<Poll>) {
    forall i :: 0 <= i < |polls| ==> IsBatch(polls[i].batch)
  }

  /** A receive round: polls until the time limit is reached, or to the end of what happened. */
  function Round(table: seq<Server>, targets: seq<nat>, polls: seq<Poll>, start: Time): (r: seq<Server>)
    requires Targets(targets, |table|) && ArePolls(polls)
    ensures |r| == |table|
    decreases |polls|
  {
    if polls == [] then table
    else
      var after := DeliverAll(table, targets, polls[0].batch, polls[0].now);
      if ElapsedMs(polls[0].cur, start) >= TIME_LIMIT_MS then after
      else Round(after, targets, polls[1..], start)
  }

  /** Sending to the targets one after the other. */
  function SendAll(table: seq<Server>, targets: seq<nat>, requests: seq<Request>): (r: seq<Server>)
    requires Targets(targets, |table|)
    requires |targets| <= |requests|
    ensures |r| == |table|
  {
    if targets == [] then table
    else
      var n := |targets| - 1;
      var sent := SendAll(table, targets[..n], requests);
      sent[targets[n] := sent[targets[n]].(tid := requests[n].tid, sendTime := requests[n].at)]
  }

  /** The request: type 1, length 0, the cookie 0x2112A442, the transaction id. */
  lemma RequestBytes(tid: seq<Byte>)
    requires |tid| == 12
    ensures |RequestPacket(tid)| == 20
    ensures RequestPacket(tid)[..8] == [0x00, 0x01, 0x00, 0x00, 0x21, 0x12, 0xA4, 0x42]
    ensures RequestPacket(tid)[8..20] == tid
  {
    assert Be32(MAGIC_COOKIE) == [0x21, 0x12, 0xA4, 0x42];
  }

  /** A response matches an entry exactly if it is unanswered and its request had the same transaction bytes. */
  lemma EchoMatches(s: Server, d: Datagram)
    requires 20 <= d.len && IsDatagram(d) && |s.tid| == 12
    ensures Matches(s, d) <==> s.rttMs == -1 && d.bytes[8..20] == RequestPacket(s.tid)[8..20]
  {
    assert RequestPacket(s.tid)[8..20] == s.tid;
  }

  // --- Matching -------------------------------------------------------------------------------------

  /** `d` is long enough for a response and carries the transaction id `tid`. */
  ghost predicate Echoes(d: Datagram, tid: seq<Byte>)
    requires IsDatagram(d)
  {
    20 <= d.len && d.bytes[8..20] == tid
  }

  /** `after` is `before` with the time and, if `d` holds one, the address of the answer `d`. */
  ghost predicate AnsweredBy(before: Server, after: Server, d: Datagram, now: Time)
    requires IsDatagram(d)
  {
    && after.host == before.host && after.tid == before.tid && after.sendTime == before.sendTime
    && after.rttMs == ElapsedMs(now, before.sendTime) && after.answeredAt == now
    && match Parse(d.bytes, d.len)
       case None => after.publicIp == before.publicIp && after.publicPort == before.publicPort
       case Some(m) => after.publicIp == Some(m.ip) && after.publicPort == m.port
  }

  /** A datagram answers the first unanswered target with its transaction id, and nothing else. */
  lemma DeliverFirstMatch(table: seq<Server>, targets: seq<nat>, d: Datagram, now: Time, i: nat)
    requires Targets(targets, |table|) && IsDatagram(d) && i < |targets|
    requires table[targets[i]].rttMs == -1 && Echoes(d, table[targets[i]].tid)
    requires forall j :: 0 <= j < i ==> table[targets[j]].rttMs != -1 || d.bytes[8..20] != table[targets[j]].tid
    ensures AnsweredBy(table[targets[i]], Deliver(table, targets, d, now)[targets[i]], d, now)
    ensures forall k :: 0 <= k < |table| && k != targets[i] ==> Deliver(table, targets, d, now)[k] == table[k]
  {
    DeliverAnswers(table, targets, d, now, i);
  }

  lemma {:induction false} DeliverAnswers(table: seq<Server>, targets: seq<nat>, d: Datagram, now: Time, i: nat)
    requires Targets(targets, |table|) && IsDatagram(d) && STUN_PKT_LEN <= d.len && i < |targets|
    requires Matches(table[targets[i]], d) && forall j :: 0 <= j < i ==> !Matches(table[targets[j]], d)
    ensures Deliver(table, targets, d, now) == table[targets[i] := Answer(table[targets[i]], d, now)]
  {
    if i > 0 {
      assert !Matches(table[targets[0]], d);
      assert forall j :: 0 <= j < i - 1 ==> targets[1..][j] == targets[j + 1];
      DeliverAnswers(table, targets[1..], d, now, i - 1);
    }
  }

  /** What a datagram changes is an unanswered target with its transaction id, and it becomes an answered one. */
  lemma {:induction false} DeliverChanges(table: seq<Server>, targets: seq<nat>, d: Datagram, now: Time, k: nat)
    requires Targets(targets, |table|) && IsDatagram(d) && k < |table|
    requires Deliver(table, targets, d, now)[k] != table[k]
    ensures k in targets && table[k].rttMs == -1 && Echoes(d, table[k].tid)
    ensures AnsweredBy(table[k], Deliver(table, targets, d, now)[k], d, now)
  {
    if !Matches(table[targets[0]], d) {
      DeliverChanges(table, targets[1..], d, now, k);
    }
  }

  /** A datagram with no unanswered target's transaction id leaves the table as it is. */
  lemma {:induction false} DeliverNoMatch(table: seq<Server>, targets: seq<nat>, d: Datagram, now: Time)
    requires Targets(targets, |table|) && IsDatagram(d)
    requires d.len >= 20 ==>
               forall i :: 0 <= i < |targets| ==> d.bytes[8..20] != table[targets[i]].tid || table[targets[i]].rttMs != -1
    ensures Deliver(table, targets, d, now) == table
  {
    if d.len >= STUN_PKT_LEN && targets != [] {
      assert forall j :: 0 <= j < |targets| - 1 ==> targets[1..][j] == targets[j + 1];
      DeliverNoMatch(table, targets[1..], d, now);
    }
  }

  /** Two tables agree on everything an answer writes, wherever the first has an answer. */
  ghost predicate KeepsAnswers(before: seq<Server>, after: seq<Server>) {
    |before| == |after| && forall k :: 0 <= k < |before| && before[k].rttMs != -1 ==> after[k] == before[k]
  }

  lemma {:induction false} DeliverKeepsAnswers(table: seq<Server>, targets: seq<nat>, d: Datagram, now: Time)
    requires Targets(targets, |table|) && IsDatagram(d)
    ensures KeepsAnswers(table, Deliver(table, targets, d, now))
  {
    if d.len >= STUN_PKT_LEN && targets != [] && !Matches(table[targets[0]], d) {
      DeliverKeepsAnswers(table, targets[1..], d, now);
    }
  }

  lemma {:induction false} DeliverAllKeepsAnswers(table: seq<Server>, targets: seq<nat>, batch: seq<Datagram>, now: Time)
    requires Targets(targets, |table|) && IsBatch(batch)
    ensures KeepsAnswers(table, DeliverAll(table, targets, batch, now))
  {
    if batch != [] {
      var n := |batch| - 1;
      DeliverAllKeepsAnswers(table, targets, batch[..n], now);
      DeliverKeepsAnswers(DeliverAll(table, targets, batch[..n], now), targets, batch[n], now);
    }
  }

  /** Write once: a receive round never touches an entry that has its answer, whatever arrives. */
  lemma {:induction false} RoundKeepsAnswers(table: seq<Server>, targets: seq<nat>, polls: seq<Poll>, start: Time)
    requires Targets(targets, |table|) && ArePolls(polls)
    ensures KeepsAnswers(table, Round(table, targets, polls, start))
    decreases |polls|
  {
    if polls != [] {
      DeliverAllKeepsAnswers(table, targets, polls[0].batch, polls[0].now);
      var after := DeliverAll(table, targets, polls[0].batch, polls[0].now);
      RoundKeepsAnswers(after, targets, polls[1..], start);
    }
  }

  // --- Whose answer an entry takes ------------------------------------------------------------------

  /** The loop has not reached its limit of 100 milliseconds before poll `i`. */
  ghost predicate Reached(polls: seq<Poll>, start: Time, i: int) {
    forall p :: 0 <= p < i && p < |polls| ==> ElapsedMs(polls[p].cur, start) < 100
  }

  ghost predicate EchoAt(polls: seq<Poll>, tid: seq<Byte>, i: int, j: int)
    requires ArePolls(polls)
  {
    0 <= i < |polls| && 0 <= j < |polls[i].batch| && Echoes(polls[i].batch[j], tid)
  }

  /** The first datagram with the transaction id `tid` that the loop reads is number `j` of poll `i`. */
  ghost predicate FirstEcho(polls: seq<Poll>, start: Time, tid: seq<Byte>, i: int, j: int)
    requires ArePolls(polls)
  {
    && EchoAt(polls, tid, i, j) && Reached(polls, start, i)
    && forall p, q :: p < i || (p == i && q < j) ==> !EchoAt(polls, tid, p, q)
  }

  /** No other target was asked with the transaction id of entry `k`. */
  ghost predicate OwnId(table: seq<Server>, targets: seq<nat>, k: nat)
    requires Targets(targets, |table|) && k < |table|
  {
    k in targets && forall i :: 0 <= i < |targets| && targets[i] != k ==> table[targets[i]].tid != table[k].tid
  }

  ghost predicate SameIds(t: seq<Server>, t': seq<Server>) {
    |t| == |t'| && forall k :: 0 <= k < |t| ==> t[k].tid == t'[k].tid
  }

  lemma DeliverKeepsIds(table: seq<Server>, targets: seq<nat>, d: Datagram, now: Time)
    requires Targets(targets, |table|) && IsDatagram(d)
    ensures SameIds(table, Deliver(table, targets, d, now))
  {
    var after := Deliver(table, targets, d, now);
    forall k | 0 <= k < |table|
      ensures table[k].tid == after[k].tid
    {
      if after[k] != table[k] {
        DeliverChanges(table, targets, d, now, k);
      }
    }
  }

  lemma {:induction false} BatchKeepsIds(table: seq<Server>, targets: seq<nat>, batch: seq<Datagram>, now: Time)
    requires Targets(targets, |table|) && IsBatch(batch)
    ensures SameIds(table, DeliverAll(table, targets, batch, now))
  {
    if batch != [] {
      var n := |batch| - 1;
      BatchKeepsIds(table, targets, batch[..n], now);
      DeliverKeepsIds(DeliverAll(table, targets, batch[..n], now), targets, batch[n], now);
    }
  }

  /** An unanswered target whose id is its own takes the answer with that id. */
  lemma DeliverOwn(table: seq<Server>, targets: seq<nat>, d: Datagram, now: Time, k: nat)
    requires Targets(targets, |table|) && IsDatagram(d) && k < |table| && OwnId(table, targets, k)
    requires table[k].rttMs == -1 && Echoes(d, table[k].tid)
    ensures AnsweredBy(table[k], Deliver(table, targets, d, now)[k], d, now)
  {
    var i := FirstPlace(targets, k);
    DeliverFirstMatch(table, targets, d, now, i);
  }

  lemma {:induction false} FirstPlace(targets: seq<nat>, k: nat) returns (i: nat)
    requires k in targets
    ensures i < |targets| && targets[i] == k && forall j :: 0 <= j < i ==> targets[j] != k
  {
    if targets[0] == k {
      i := 0;
    } else {
      i := FirstPlace(targets[1..], k);
      i := i + 1;
    }
  }

  /** Without a datagram of its id an entry stays as it is. */
  lemma {:induction false} BatchQuiet(table: seq<Server>, targets: seq<nat>, batch: seq<Datagram>, now: Time, k: nat)
    requires Targets(targets, |table|) && IsBatch(batch) && k < |table|
    requires k !in targets || forall j :: 0 <= j < |batch| ==> !Echoes(batch[j], table[k].tid)
    ensures DeliverAll(table, targets, batch, now)[k] == table[k]
  {
    if batch != [] {
      var n := |batch| - 1;
      BatchQuiet(table, targets, batch[..n], now, k);
      var before := DeliverAll(table, targets, batch[..n], now);
      if Deliver(before, targets, batch[n], now)[k] != before[k] {
        DeliverChanges(before, targets, batch[n], now, k);
      }
    }
  }

  /** The first datagram of its id in the batch answers it. */
  lemma {:induction false} BatchFirst(table: seq<Server>, targets: seq<nat>, batch: seq<Datagram>, now: Time, k: nat, j: nat)
    requires Targets(targets, |table|) && IsBatch(batch) && k < |table| && OwnId(table, targets, k) && j < |batch|
    requires table[k].rttMs == -1 && ElapsedMs(now, table[k].sendTime) != -1
    requires Echoes(batch[j], table[k].tid) && forall q :: 0 <= q < j ==> !Echoes(batch[q], table[k].tid)
    ensures AnsweredBy(table[k], DeliverAll(table, targets, batch, now)[k], batch[j], now)
  {
    var n := |batch| - 1;
    var before := DeliverAll(table, targets, batch[..n], now);
    if j == n {
      BatchQuiet(table, targets, batch[..n], now, k);
      BatchKeepsIds(table, targets, batch[..n], now);
      DeliverOwn(before, targets, batch[n], now, k);
    } else {
      BatchFirst(table, targets, batch[..n], now, k, j);
      DeliverKeepsAnswers(before, targets, batch[n], now);
    }
  }

  /** An entry that no read datagram echoes, or that is no target, is left alone by the whole round. */
  lemma {:induction false} RoundQuiet(table: seq<Server>, targets: seq<nat>, polls: seq<Poll>, start: Time, k: nat)
    requires Targets(targets, |table|) && ArePolls(polls) && k < |table|
    requires k !in targets || forall i, j :: Reached(polls, start, i) ==> !EchoAt(polls, table[k].tid, i, j)
    ensures Round(table, targets, polls, start)[k] == table[k]
    decreases |polls|
  {
    if polls != [] {
      assert Reached(polls, start, 0);
      assert forall j :: 0 <= j < |polls[0].batch| && Echoes(polls[0].batch[j], table[k].tid) ==> EchoAt(polls, table[k].tid, 0, j);
      BatchQuiet(table, targets, polls[0].batch, polls[0].now, k);
      if ElapsedMs(polls[0].cur, start) < 100 {
        LaterEchoes(polls, start, table[k].tid);
        RoundQuiet(DeliverAll(table, targets, polls[0].batch, polls[0].now), targets, polls[1..], start, k);
      }
    }
  }

  /** What the rest of the loop reads, the whole loop reads one poll later. */
  lemma LaterEchoes(polls: seq<Poll>, start: Time, tid: seq<Byte>)
    requires ArePolls(polls) && polls != [] && ElapsedMs(polls[0].cur, start) < 100
    ensures forall i, j :: EchoAt(polls[1..], tid, i, j) <==> i >= 0 && EchoAt(polls, tid, i + 1, j)
    ensures forall i :: i >= 0 && Reached(polls[1..], start, i) ==> Reached(polls, start, i + 1)
    ensures forall i :: i > 0 && Reached(polls, start, i) ==> Reached(polls[1..], start, i - 1)
  {
    forall i | i >= 0 && Reached(polls[1..], start, i)
      ensures Reached(polls, start, i + 1)
    {
      forall p | 0 <= p < i + 1 && p < |polls|
        ensures ElapsedMs(polls[p].cur, start) < 100
      {
        assert p > 0 ==> polls[p] == polls[1..][p - 1];
      }
    }
    forall i | i > 0 && Reached(polls, start, i)
      ensures Reached(polls[1..], start, i - 1)
    {
      forall p | 0 <= p < i - 1 && p < |polls[1..]|
        ensures ElapsedMs(polls[1..][p].cur, start) < 100
      {
        assert polls[1..][p] == polls[p + 1];
      }
    }
  }

  /**
   Over a whole round an unanswered target with an id of its own takes time and address from the
   first datagram with that id that the loop reads, in whatever poll, and keeps them.
   */
  lemma {:induction false} RoundFirst(table: seq<Server>, targets: seq<nat>, polls: seq<Poll>, start: Time, k: nat, i: nat, j: nat)
    requires Targets(targets, |table|) && ArePolls(polls) && k < |table| && OwnId(table, targets, k)
    requires FirstEcho(polls, start, table[k].tid, i, j)
    requires table[k].rttMs == -1 && ElapsedMs(polls[i].now, table[k].sendTime) != -1
    ensures AnsweredBy(table[k], Round(table, targets, polls, start)[k], polls[i].batch[j], polls[i].now)
    decreases |polls|
  {
    var tid, batch, now := table[k].tid, polls[0].batch, polls[0].now;
    var after := DeliverAll(table, targets, batch, now);
    if i == 0 {
      assert forall q :: 0 <= q < j && Echoes(batch[q], tid) ==> EchoAt(polls, tid, 0, q);
      BatchFirst(table, targets, batch, now, k, j);
      FirstPollDecides(table, targets, polls, start, k);
    } else {
      assert forall q :: 0 <= q < |batch| && Echoes(batch[q], tid) ==> EchoAt(polls, tid, 0, q);
      BatchQuiet(table, targets, batch, now, k);
      OwnIdKept(table, targets, batch, now, k);
      EchoLater(polls, start, tid, i, j);
      RoundFirst(after, targets, polls[1..], start, k, i - 1, j);
    }
  }

  lemma FirstPollDecides(table: seq<Server>, targets: seq<nat>, polls: seq<Poll>, start: Time, k: nat)
    requires Targets(targets, |table|) && ArePolls(polls) && polls != [] && k < |table|
    requires DeliverAll(table, targets, polls[0].batch, polls[0].now)[k].rttMs != -1
    ensures Round(table, targets, polls, start)[k] == DeliverAll(table, targets, polls[0].batch, polls[0].now)[k]
  {
    RoundKeepsAnswers(DeliverAll(table, targets, polls[0].batch, polls[0].now), targets, polls[1..], start);
  }

  lemma OwnIdKept(table: seq<Server>, targets: seq<nat>, batch: seq<Datagram>, now: Time, k: nat)
    requires Targets(targets, |table|) && IsBatch(batch) && k < |table| && OwnId(table, targets, k)
    ensures OwnId(DeliverAll(table, targets, batch, now), targets, k)
    ensures DeliverAll(table, targets, batch, now)[k].tid == table[k].tid
  {
    BatchKeepsIds(table, targets, batch, now);
  }

  lemma EchoLater(polls: seq<Poll>, start: Time, tid: seq<Byte>, i: nat, j: nat)
    requires ArePolls(polls) && FirstEcho(polls, start, tid, i, j) && i > 0
    ensures ElapsedMs(polls[0].cur, start) < 100 && FirstEcho(polls[1..], start, tid, i - 1, j)
  {
    LaterEchoes(polls, start, tid);
    forall p, q | p < i - 1 || (p == i - 1 && q < j)
      ensures !EchoAt(polls[1..], tid, p, q)
    {
      assert p >= 0 ==> !EchoAt(polls, tid, p + 1, q);
    }
  }

  // --- The retry round ------------------------------------------------------------------------------

  /** The indices the retry round asks again: answered, but without a usable address. */
  function RetryTargets(table: seq<Server>): (r: seq<nat>)
    ensures |r| <= |table| && Targets(r, |table|)
  {
    if table == [] then []
    else
      var n := |table| - 1;
      RetryTargets(table[..n]) + if table[n].rttMs >= 0 && !IsValid(table[n]) then [n] else []
  }

  lemma {:induction false} RetryTargetsAnswered(table: seq<Server>)
    ensures forall k: nat :: k in RetryTargets(table) <==>
              k < |table| && table[k].rttMs >= 0 && (table[k].publicIp.None? || table[k].publicPort == 0)
    ensures forall i, j :: 0 <= i < j < |RetryTargets(table)| ==> RetryTargets(table)[i] < RetryTargets(table)[j]
  {
    if table != [] {
      RetryTargetsAnswered(table[..|table| - 1]);
    }
  }

  /** The part of an entry that a choice depends on. */
  function Result(s: Server): (string, int, Option<Word32>, Word16, Time) {
    (s.host, s.rttMs, s.publicIp, s.publicPort, s.answeredAt)
  }

  ghost predicate SameResults(t: seq<Server>, t': seq<Server>) {
    |t| == |t'| && forall k :: 0 <= k < |t| ==> Result(t[k]) == Result(t'[k])
  }

  lemma {:induction false} SendKeepsResults(table: seq<Server>, targets: seq<nat>, requests: seq<Request>)
    requires Targets(targets, |table|) && |targets| <= |requests|
    ensures SameResults(table, SendAll(table, targets, requests))
    ensures forall k :: 0 <= k < |table| && k !in targets ==> SendAll(table, targets, requests)[k] == table[k]
  {
    if targets != [] {
      SendKeepsResults(table, targets[..|targets| - 1], requests);
    }
  }

  /** Distinct targets are asked with one request each, in order. */
  lemma {:induction false} SendEach(table: seq<Server>, targets: seq<nat>, requests: seq<Request>, i: nat)
    requires Targets(targets, |table|) && i < |targets| <= |requests|
    requires forall a, b :: 0 <= a < b < |targets| ==> targets[a] != targets[b]
    ensures SendAll(table, targets, requests)[targets[i]]
         == table[targets[i]].(tid := requests[i].tid, sendTime := requests[i].at)
  {
    var n := |targets| - 1;
    if i < n {
      SendEach(table, targets[..n], requests, i);
    } else {
      SendKeepsResults(table, targets[..n], requests);
    }
  }

  lemma {:induction false} AnsweredTargetsBatch(table: seq<Server>, targets: seq<nat>, batch: seq<Datagram>, now: Time)
    requires Targets(targets, |table|) && IsBatch(batch)
    requires forall i :: 0 <= i < |targets| ==> table[targets[i]].rttMs != -1
    ensures DeliverAll(table, targets, batch, now) == table
  {
    if batch != [] {
      var n := |batch| - 1;
      AnsweredTargetsBatch(table, targets, batch[..n], now);
      DeliverNoMatch(table, targets, batch[n], now);
    }
  }

  lemma {:induction false} AnsweredTargetsRound(table: seq<Server>, targets: seq<nat>, polls: seq<Poll>, start: Time)
    requires Targets(targets, |table|) && ArePolls(polls)
    requires forall i :: 0 <= i < |targets| ==> table[targets[i]].rttMs != -1
    ensures Round(table, targets, polls, start) == table
    decreases |polls|
  {
    if polls != [] {
      AnsweredTargetsBatch(table, targets, polls[0].batch, polls[0].now);
      AnsweredTargetsRound(table, targets, polls[1..], start);
    }
  }

  /**
   The retry round can repair nothing: it asks only entries that have an answer, and those are
   exactly the ones the receiver passes over. Every result stays what the first round made it.
   */
  lemma RetryChangesNoResult(table: seq<Server>, requests: seq<Request>, polls: seq<Poll>, start: Time)
    requires |RetryTargets(table)| <= |requests| && ArePolls(polls)
    ensures var sent := SendAll(table, RetryTargets(table), requests);
      Round(sent, RetryTargets(table), polls, start) == sent && SameResults(table, sent)
  {
    var targets := RetryTargets(table);
    RetryTargetsAnswered(table);
    assert forall i :: 0 <= i < |targets| ==> targets[i] in targets;
    SendKeepsResults(table, targets, requests);
    var sent := SendAll(table, targets, requests);
    forall i | 0 <= i < |targets|
      ensures sent[targets[i]].rttMs != -1
    {
      assert Result(table[targets[i]]) == Result(sent[targets[i]]);
    }
    AnsweredTargetsRound(sent, targets, polls, start);
  }

  // --- Any run of rounds ----------------------------------------------------------------------------

  /** A round of sending, or a round of receiving, to and from any targets. */
  datatype Phase =
    | Sending(targets: seq<nat>, requests: seq<Request>)
    | Receiving(targets: seq<nat>, polls: seq<Poll>, start: Time)

  predicate IsPhase(p: Phase, n: nat) {
    match p
    case Sending(targets, requests) => Targets(targets, n) && |targets| <= |requests|
    case Receiving(targets, polls, _) => Targets(targets, n) && ArePolls(polls)
  }

  predicate ArePhases(phases: seq<Phase>, n: nat) {
    phases == [] || (IsPhase(phases[0], n) && ArePhases(phases[1..], n))
  }

  function AfterPhase(table: seq<Server>, p: Phase): (r: seq<Server>)
    requires IsPhase(p, |table|)
    ensures |r| == |table|
  {
    match p
    case Sending(targets, requests) => SendAll(table, targets, requests)
    case Receiving(targets, polls, start) => Round(table, targets, polls, start)
  }

  function AfterPhases(table: seq<Server>, phases: seq<Phase>): (r: seq<Server>)
    requires ArePhases(phases, |table|)
    ensures |r| == |table|
    decreases |phases|
  {
    if phases == [] then table else AfterPhases(AfterPhase(table, phases[0]), phases[1..])
  }

  /** Every answered entry keeps its answer. */
  ghost predicate AnswersStay(before: seq<Server>, after: seq<Server>) {
    |before| == |after| && forall k :: 0 <= k < |before| && before[k].rttMs != -1 ==> Result(after[k]) == Result(before[k])
  }

  lemma PhaseKeepsAnswers(table: seq<Server>, p: Phase)
    requires IsPhase(p, |table|)
    ensures AnswersStay(table, AfterPhase(table, p))
  {
    match p {
      case Sending(targets, requests) => SendKeepsResults(table, targets, requests);
      case Receiving(targets, polls, start) => RoundKeepsAnswers(table, targets, polls, start);
    }
  }

  /** Write once over any run of send and receive rounds: time and address of an answered entry never change again. */
  lemma {:induction false} RunKeepsAnswers(table: seq<Server>, phases: seq<Phase>)
    requires ArePhases(phases, |table|)
    ensures AnswersStay(table, AfterPhases(table, phases))
    decreases |phases|
  {
    if phases != [] {
      var after := AfterPhase(table, phases[0]);
      PhaseKeepsAnswers(table, phases[0]);
      RunKeepsAnswers(after, phases[1..]);
      forall k | 0 <= k < |table| && table[k].rttMs != -1
        ensures Result(AfterPhases(after, phases[1..])[k]) == Result(table[k])
      {
        assert Result(after[k]) == Result(table[k]);
      }
    }
  }

  // --- A retry that would have helped ---------------------------------------------------------------

  /** A response of the given transaction with these attribute bytes. */
  function Response(tid: seq<Byte>, attributes: seq<Byte>): (d: Datagram)
    requires |tid| == 12
    ensures |d.bytes| == d.len == 20 + |attributes|
    ensures d.bytes[8..20] == tid && d.bytes[20..] == attributes
  {
    var bytes := Zeros(8) + tid + attributes;
    assert bytes[8..20] == tid && bytes[20..] == attributes;
    Datagram(bytes, 20 + |attributes|)
  }

  function Unasked(host: string): Server { Server(host, [], Time(0, 0), -1, None, 0, Time(0, 0)) }

  /** A server whose answer carried no address. */
  function Unusable(host: string, tid: seq<Byte>, sent: Time, arrived: Time): Server {
    Server(host, tid, sent, ElapsedMs(arrived, sent), None, 0, arrived)
  }

  lemma SendOne(s: Server, r: Request)
    ensures SendAll([s], [0], [r]) == [s.(tid := r.tid, sendTime := r.at)]
  {
    assert [0][..0] == [];
  }

  /** One datagram arrives. */
  function OnePoll(d: Datagram, now: Time): (polls: seq<Poll>)
    requires IsDatagram(d)
    ensures ArePolls(polls) && polls == [Poll([d], now, now)]
  {
    [Poll([d], now, now)]
  }

  lemma RoundOne(s: Server, d: Datagram, now: Time, start: Time)
    requires IsDatagram(d) && d.len >= STUN_PKT_LEN && Matches(s, d)
    ensures Round([s], [0], OnePoll(d, now), start) == [Answer(s, d, now)]
  {
    assert [d][..0] == [];
    assert DeliverAll([s], [0], [d], now) == Deliver([s], [0], d, now) == [Answer(s, d, now)];
    assert Round([Answer(s, d, now)], [0], [], start) == [Answer(s, d, now)];
  }

  /** A response without attributes leads there: the entry is answered and has no address. */
  lemma UnusableReached(host: string, tid: seq<Byte>, sent: Time, arrived: Time)
    requires |tid| == 12 && NotAfter(sent, arrived)
    ensures IsDatagram(Response(tid, []))
    ensures Unusable(host, tid, sent, arrived).rttMs >= 0 && Unusable(host, tid, sent, arrived).publicIp.None?
    ensures Round(SendAll([Unasked(host)], [0], [Request(tid, sent)]), [0], OnePoll(Response(tid, []), arrived), sent)
         == [Unusable(host, tid, sent, arrived)]
  {
    ElapsedAccurate(arrived, sent);
    SendOne(Unasked(host), Request(tid, sent));
    RoundOne(Unasked(host).(tid := tid, sendTime := sent), Response(tid, []), arrived, sent);
  }

  /** The attribute a usable answer carries. */
  function MappedAttribute(m: Mapped): seq<Byte> {
    Encode(Attribute(XOR_MAPPED_ADDRESS, XorMappedValue(m), []))
  }

  lemma MappedResponse(tid: seq<Byte>, m: Mapped)
    requires |tid| == 12
    ensures var d := Response(tid, MappedAttribute(m));
      IsDatagram(d) && Parse(d.bytes, d.len) == Some(m)
  {
    var a := Attribute(XOR_MAPPED_ADDRESS, XorMappedValue(m), []);
    var d := Response(tid, MappedAttribute(m));
    assert EncodeAll([a]) == Encode(a) + EncodeAll([]) == Encode(a);
    assert [] + [a] + [] == [a];
    ResponseRoundTrip(d.bytes, d.len, [], m, [], []);
  }

  /** The entry after it was asked again. */
  function AskedAgain(s: Server, retry: Request): Server { s.(tid := retry.tid, sendTime := retry.at) }

  /**
   The retry's answer really is lost: an entry that was answered without a usable address is a retry
   target, a response with the new transaction id carries the address `m`, and the round that receives
   it leaves the entry without one. `UnusableReached` shows such an entry.
   */
  lemma RetryAnswerLost(s: Server, retry: Request, m: Mapped, arrived: Time)
    requires s.rttMs >= 0 && (s.publicIp.None? || s.publicPort == 0) && |retry.tid| == 12
    ensures RetryTargets([s]) == [0] && SendAll([s], [0], [retry]) == [AskedAgain(s, retry)]
    ensures var d := Response(retry.tid, MappedAttribute(m));
      && d.bytes[8..20] == AskedAgain(s, retry).tid
      && IsDatagram(d) && Parse(d.bytes, d.len) == Some(m)
      && Round([AskedAgain(s, retry)], [0], OnePoll(d, arrived), retry.at) == [AskedAgain(s, retry)]
      && AskedAgain(s, retry).publicIp == s.publicIp && AskedAgain(s, retry).publicPort == s.publicPort
  {
    var d := Response(retry.tid, MappedAttribute(m));
    MappedResponse(retry.tid, m);
    SendOne(s, retry);
    RetryOne(s);
    LostOne(AskedAgain(s, retry), d, arrived, retry.at);
  }

  lemma LostOne(s: Server, d: Datagram, now: Time, start: Time)
    requires IsDatagram(d) && s.rttMs != -1
    ensures Round([s], [0], OnePoll(d, now), start) == [s]
  {
    AnsweredTargetsRound([s], [0], OnePoll(d, now), start);
  }

  lemma RetryOne(s: Server)
    requires s.rttMs >= 0 && !IsValid(s)
    ensures RetryTargets([s]) == [0]
  {
    assert [s][..0] == [];
    assert RetryTargets([s]) == RetryTargets([]) + [0];
  }

  // --- What every reachable table satisfies ---------------------------------------------------------

  /** Unanswered entries have no address; valid ones carry the time measured from their own request. */
  ghost predicate Sound(s: Server) {
    && s.rttMs >= -1
    && (s.rttMs == -1 ==> s.publicIp.None? && s.publicPort == 0)
    && (IsValid(s) ==> NotAfter(s.sendTime, s.answeredAt) && s.rttMs == ElapsedMs(s.answeredAt, s.sendTime))
  }

  ghost predicate AllSound(table: seq<Server>) {
    forall k :: 0 <= k < |table| ==> Sound(table[k])
  }

  /** Unanswered targets were sent no later than `t`. */
  ghost predicate SentBy(table: seq<Server>, targets: seq<nat>, t: Time)
    requires Targets(targets, |table|)
  {
    forall i :: 0 <= i < |targets| && table[targets[i]].rttMs == -1 ==> NotAfter(table[targets[i]].sendTime, t)
  }

  lemma {:induction false} DeliverSound(table: seq<Server>, targets: seq<nat>, d: Datagram, now: Time)
    requires Targets(targets, |table|) && IsDatagram(d)
    requires AllSound(table) && SentBy(table, targets, now)
    ensures AllSound(Deliver(table, targets, d, now))
  {
    if d.len >= STUN_PKT_LEN && targets != [] {
      if Matches(table[targets[0]], d) {
        ElapsedAccurate(now, table[targets[0]].sendTime);
      } else {
        DeliverSound(table, targets[1..], d, now);
      }
    }
  }

  /** Delivering keeps every send time and never makes an entry unanswered again. */
  lemma {:induction false} DeliverKeepsSends(table: seq<Server>, targets: seq<nat>, d: Datagram, now: Time)
    requires Targets(targets, |table|) && IsDatagram(d)
    requires forall i :: 0 <= i < |table| ==> table[i].rttMs >= -1
    ensures forall k :: 0 <= k < |table| ==>
              && Deliver(table, targets, d, now)[k].sendTime == table[k].sendTime
              && Deliver(table, targets, d, now)[k].host == table[k].host
              && (table[k].rttMs != -1 ==> Deliver(table, targets, d, now)[k].rttMs != -1)
  {
    if d.len >= STUN_PKT_LEN && targets != [] && !Matches(table[targets[0]], d) {
      DeliverKeepsSends(table, targets[1..], d, now);
    }
  }

  lemma {:induction false} DeliverAllSound(table: seq<Server>, targets: seq<nat>, batch: seq<Datagram>, now: Time)
    requires Targets(targets, |table|) && IsBatch(batch)
    requires AllSound(table) && SentBy(table, targets, now)
    ensures var after := DeliverAll(table, targets, batch, now);
      && AllSound(after)
      && forall k :: 0 <= k < |table| ==>
           && after[k].sendTime == table[k].sendTime && after[k].host == table[k].host
           && (table[k].rttMs != -1 ==> after[k].rttMs != -1)
  {
    if batch != [] {
      var n := |batch| - 1;
      DeliverAllSound(table, targets, batch[..n], now);
      var before := DeliverAll(table, targets, batch[..n], now);
      DeliverSound(before, targets, batch[n], now);
      DeliverKeepsSends(before, targets, batch[n], now);
    }
  }

  /** The clock readings of a round never run backwards and start no earlier than `t`. */
  ghost predicate ClockFrom(t: Time, polls: seq<Poll>)
    decreases |polls|
  {
    polls == [] || (NotAfter(t, polls[0].now) && ClockFrom(polls[0].now, polls[1..]))
  }

  /** Safety over a whole round: from a sound table, any datagrams lead to a sound table. */
  lemma {:induction false} RoundSound(table: seq<Server>, targets: seq<nat>, polls: seq<Poll>, start: Time, t: Time)
    requires Targets(targets, |table|) && ArePolls(polls)
    requires AllSound(table) && SentBy(table, targets, t) && ClockFrom(t, polls)
    ensures AllSound(Round(table, targets, polls, start))
    ensures forall k :: 0 <= k < |table| ==> Round(table, targets, polls, start)[k].host == table[k].host
    decreases |polls|
  {
    if polls != [] {
      DeliverAllSound(table, targets, polls[0].batch, polls[0].now);
      var after := DeliverAll(table, targets, polls[0].batch, polls[0].now);
      RoundSound(after, targets, polls[1..], start, polls[0].now);
    }
  }

  // --- The choice -----------------------------------------------------------------------------------

  /** True round-trip time of an answered entry, in nanoseconds. */
  function TrueNanos(s: Server): int { Nanos(s.answeredAt) - Nanos(s.sendTime) }

  /** In a sorted table the first valid entry has the least measured time, and nearly the least true time. */
  lemma FirstValidNearOptimal(table: seq<Server>, best: nat, other: nat)
    requires AllSound(table) && SortedByRtt(table)
    requires best < |table| && table[best].publicIp.Some? && table[best].publicPort != 0
    requires other < |table| && table[other].publicIp.Some? && table[other].publicPort != 0
    requires forall i :: 0 <= i < best ==> table[i].publicIp.None? || table[i].publicPort == 0
    ensures 0 <= table[best].rttMs <= table[other].rttMs
    ensures TrueNanos(table[best]) < TrueNanos(table[other]) + 2 * MILLI
  {
    ElapsedAccurate(table[best].answeredAt, table[best].sendTime);
    ElapsedAccurate(table[other].answeredAt, table[other].sendTime);
    assert other == best || CmpRtt(table[best], table[other]) <= 0;
  }

  ghost predicate NearlyFastest(table: seq<Server>, best: nat) {
    && best < |table| && table[best].publicIp.Some? && table[best].publicPort != 0
    && forall k :: 0 <= k < |table| && table[k].publicIp.Some? && table[k].publicPort != 0 ==>
         && 0 <= table[best].rttMs <= table[k].rttMs
         && TrueNanos(table[best]) < TrueNanos(table[k]) + 2 * MILLI
  }

  lemma ChoiceNearlyFastest(table: seq<Server>, best: nat)
    requires AllSound(table) && SortedByRtt(table)
    requires best < |table| && table[best].publicIp.Some? && table[best].publicPort != 0
    requires forall i :: 0 <= i < best ==> table[i].publicIp.None? || table[i].publicPort == 0
    ensures NearlyFastest(table, best)
  {
    forall k | 0 <= k < |table| && table[k].publicIp.Some? && table[k].publicPort != 0
      ensures 0 <= table[best].rttMs <= table[k].rttMs && TrueNanos(table[best]) < TrueNanos(table[k]) + 2 * MILLI
    {
      FirstValidNearOptimal(table, best, k);
    }
  }

  // --- Sorting --------------------------------------------------------------------------------------

  function InsertSorted(s: seq<Server>, x: Server): (r: seq<Server>)
    ensures |r| == |s| + 1
  {
    if s == [] || CmpRtt(x, s[0]) <= 0 then [x] + s else [s[0]] + InsertSorted(s[1..], x)
  }

  function Sort(s: seq<Server>): (r: seq<Server>)
    ensures |r| == |s|
  {
    if s == [] then [] else InsertSorted(Sort(s[1..]), s[0])
  }

  lemma {:induction false} InsertKeepsAll(s: seq<Server>, x: Server)
    ensures multiset(InsertSorted(s, x)) == multiset(s) + multiset{x}
  {
    if s != [] && CmpRtt(x, s[0]) > 0 {
      InsertKeepsAll(s[1..], x);
      assert s == [s[0]] + s[1..];
    }
  }

  lemma SortedCons(x: Server, s: seq<Server>)
    requires SortedByRtt(s) && (s == [] || CmpRtt(x, s[0]) <= 0)
    ensures SortedByRtt([x] + s)
  {
    forall j | 0 <= j < |s|
      ensures CmpRtt(x, s[j]) <= 0
    {
      if j > 0 {
        CmpIsTotalPreorder(x, s[0], s[j]);
      }
    }
  }

  lemma {:induction false} InsertSorts(s: seq<Server>, x: Server)
    requires SortedByRtt(s)
    ensures SortedByRtt(InsertSorted(s, x))
  {
    if s == [] || CmpRtt(x, s[0]) <= 0 {
      SortedCons(x, s);
    } else {
      InsertSorts(s[1..], x);
      var rest := InsertSorted(s[1..], x);
      assert rest[0] == x || rest[0] == s[1];
      CmpIsTotalPreorder(s[0], x, x);
      SortedCons(s[0], rest);
    }
  }

  lemma {:induction false} SortSorts(s: seq<Server>)
    ensures SortedByRtt(Sort(s)) && multiset(Sort(s)) == multiset(s)
  {
    if s != [] {
      SortSorts(s[1..]);
      InsertSorts(Sort(s[1..]), s[0]);
      InsertKeepsAll(Sort(s[1..]), s[0]);
      assert s == [s[0]] + s[1..];
    }
  }

  lemma SoundPermuted(s: seq<Server>, t: seq<Server>)
    requires AllSound(s) && multiset(s) == multiset(t)
    ensures AllSound(t)
  {
    forall k | 0 <= k < |t|
      ensures Sound(t[k])
    {
      assert t[k] in multiset(s);
    }
  }

  // --- Between the rounds ---------------------------------------------------------------------------

  /** The targets of the first round. */
  function Everyone(n: nat): (targets: seq<nat>)
    ensures |targets| == n && Targets(targets, n)
    ensures forall i :: 0 <= i < n ==> targets[i] == i
  {
    seq(n, i => i)
  }

  lemma {:induction false} SendTimes(table: seq<Server>, n: nat, requests: seq<Request>)
    requires n <= |table| && n <= |requests|
    ensures Targets(Everyone(n), |table|)
    ensures forall k :: 0 <= k < n ==>
              SendAll(table, Everyone(n), requests)[k] == table[k].(tid := requests[k].tid, sendTime := requests[k].at)
    ensures forall k :: n <= k < |table| ==> SendAll(table, Everyone(n), requests)[k] == table[k]
  {
    if n > 0 {
      assert Everyone(n)[..n - 1] == Everyone(n - 1);
      SendTimes(table, n - 1, requests);
    }
  }

  ghost predicate SentBefore(requests: seq<Request>, start: Time) {
    forall k :: 0 <= k < |requests| ==> NotAfter(requests[k].at, start)
  }

  /** The table after everyone was asked and the first receive round is over. */
  ghost function AfterFirst(table: seq<Server>, requests: seq<Request>, polls: seq<Poll>, start: Time): (r: seq<Server>)
    requires |table| <= |requests| && ArePolls(polls)
    ensures |r| == |table|
  {
    Round(SendAll(table, Everyone(|table|), requests), Everyone(|table|), polls, start)
  }

  /** The table after the retry requests; their answers change nothing. */
  ghost function AfterRetry(table: seq<Server>, requests: seq<Request>): (r: seq<Server>)
    requires |table| <= |requests|
    ensures |r| == |table|
  {
    SendAll(table, RetryTargets(table), requests)
  }

  /** Once everyone has been asked, the first round can start. */
  lemma FirstRoundReady(table: seq<Server>, requests: seq<Request>, start: Time)
    requires |table| <= |requests| && AllSound(table)
    requires forall k :: 0 <= k < |table| ==> table[k].rttMs == -1
    requires SentBefore(requests, start)
    ensures var sent := SendAll(table, Everyone(|table|), requests);
      AllSound(sent) && SentBy(sent, Everyone(|table|), start)
  {
    SendTimes(table, |table|, requests);
  }

  /** Asking invalid entries again leaves the table sound. */
  lemma ResendSound(table: seq<Server>, requests: seq<Request>)
    requires AllSound(table) && Targets(RetryTargets(table), |table|) && |RetryTargets(table)| <= |requests|
    ensures AllSound(SendAll(table, RetryTargets(table), requests))
  {
    var sent := SendAll(table, RetryTargets(table), requests);
    RetryTargetsAnswered(table);
    SendKeepsResults(table, RetryTargets(table), requests);
    forall k | 0 <= k < |sent|
      ensures Sound(sent[k])
    {
      assert Result(table[k]) == Result(sent[k]);
      assert k in RetryTargets(table) || sent[k] == table[k];
    }
  }

  /** Some entry has an address and a port. */
  ghost predicate SomeUsable(table: seq<Server>) {
    exists k :: 0 <= k < |table| && table[k].publicIp.Some? && table[k].publicPort != 0
  }

  /** Entry `k` of the result has the host, time, address and port of some entry after the first round. */
  ghost predicate FromFirst(first: seq<Server>, s: Server) {
    exists k :: 0 <= k < |first| && first[k].host == s.host && first[k].rttMs == s.rttMs
                && first[k].publicIp == s.publicIp && first[k].publicPort == s.publicPort
  }

  /** Sorting and asking again change which entries are usable no more than where they stand. */
  lemma ChosenFrom(first: seq<Server>, asked: seq<Server>, sorted: seq<Server>)
    requires SameResults(first, asked) && multiset(sorted) == multiset(asked)
    ensures SomeUsable(sorted) <==> SomeUsable(first)
    ensures forall k :: 0 <= k < |sorted| ==> FromFirst(first, sorted[k])
  {
    forall k | 0 <= k < |sorted|
      ensures FromFirst(first, sorted[k])
    {
      assert sorted[k] in multiset(asked);
      var i :| 0 <= i < |asked| && asked[i] == sorted[k];
      assert Result(first[i]) == Result(asked[i]);
    }
    if SomeUsable(first) {
      var i :| 0 <= i < |first| && first[i].publicIp.Some? && first[i].publicPort != 0;
      assert Result(first[i]) == Result(asked[i]);
      assert asked[i] in multiset(sorted);
    }
    if SomeUsable(sorted) {
      var k :| 0 <= k < |sorted| && sorted[k].publicIp.Some? && sorted[k].publicPort != 0;
      assert FromFirst(first, sorted[k]);
    }
  }

  /**
   In the first round server `k` is asked with an id of its own, and the first response with that id
   that is read, number `j` of poll `i`, holds an address and a port.
   */
  ghost predicate RespondsUsably(n: nat, requests: seq<Request>, polls: seq<Poll>, start: Time, k: nat, i: nat, j: nat)
    requires n <= |requests| && ArePolls(polls)
  {
    && k < n && (forall o :: 0 <= o < n && o != k ==> requests[o].tid != requests[k].tid)
    && FirstEcho(polls, start, requests[k].tid, i, j) && NotAfter(requests[k].at, polls[i].now)
    && var d := polls[i].batch[j];
       Parse(d.bytes, d.len).Some? && Parse(d.bytes, d.len).value.port != 0
  }

  /** Such a server has that address after the first round. */
  lemma ResponseUsed(table: seq<Server>, requests: seq<Request>, polls: seq<Poll>, start: Time, k: nat, i: nat, j: nat)
    requires |table| <= |requests| && ArePolls(polls)
    requires forall o :: 0 <= o < |table| ==> table[o].rttMs == -1
    requires RespondsUsably(|table|, requests, polls, start, k, i, j)
    ensures var d := polls[i].batch[j];
            var s := AfterFirst(table, requests, polls, start)[k];
      && s.host == table[k].host && s.rttMs == ElapsedMs(polls[i].now, requests[k].at)
      && s.publicIp == Some(Parse(d.bytes, d.len).value.ip) && s.publicPort == Parse(d.bytes, d.len).value.port
    ensures SomeUsable(AfterFirst(table, requests, polls, start))
  {
    var all := Everyone(|table|);
    var sent := SendAll(table, all, requests);
    SendTimes(table, |table|, requests);
    assert all[k] == k;
    ElapsedAccurate(polls[i].now, requests[k].at);
    RoundFirst(sent, all, polls, start, k, i, j);
    assert AfterFirst(table, requests, polls, start)[k].publicIp.Some?;
  }

  /** No server chosen unless the first round left a usable one, and then one of its results. */
  ghost predicate ChosenOf(first: seq<Server>, s: seq<Server>, best: int) {
    && (best >= 0 <==> SomeUsable(first))
    && (best >= 0 ==> best < |s| && FromFirst(first, s[best]))
  }

  lemma ChoiceJustified(first: seq<Server>, asked: seq<Server>, s: seq<Server>, best: int)
    requires AllSound(asked) && SameResults(first, asked) && multiset(asked) == multiset(s) && SortedByRtt(s)
    requires -1 <= best < |s|
    requires best >= 0 ==> s[best].publicIp.Some? && s[best].publicPort != 0
    requires best == -1 ==> !SomeUsable(s)
    requires forall i :: 0 <= i < best ==> s[i].publicIp.None? || s[i].publicPort == 0
    ensures best >= 0 ==> NearlyFastest(s, best)
    ensures ChosenOf(first, s, best)
  {
    SoundPermuted(asked, s);
    ChosenFrom(first, asked, s);
    if best >= 0 {
      ChoiceNearlyFastest(s, best);
    }
  }

  lemma ResponsesUsed(table: seq<Server>, requests: seq<Request>, polls: seq<Poll>, start: Time)
    requires |table| <= |requests| && ArePolls(polls)
    requires forall o :: 0 <= o < |table| ==> table[o].rttMs == -1
    ensures (exists k, i, j :: RespondsUsably(|table|, requests, polls, start, k, i, j)) ==>
              SomeUsable(AfterFirst(table, requests, polls, start))
  {
    forall k, i, j | RespondsUsably(|table|, requests, polls, start, k, i, j)
      ensures SomeUsable(AfterFirst(table, requests, polls, start))
    {
      ResponseUsed(table, requests, polls, start, k, i, j);
    }
  }

  // --- The program ----------------------------------------------------------------------------------

  /** Fills in the twenty bytes of a binding request. */
  method BuildRequest(tid: seq<Byte>) returns (packet: seq<Byte>)
    requires |tid| == 12
    ensures packet == RequestPacket(tid)
  {
    var pkt := new Byte[STUN_PKT_LEN](i => 0);
    pkt[0] := 0;
    pkt[1] := 1;
    assert pkt[..] == [0, 1] + Zeros(18);
    ghost var s := pkt[..];
    PutBe32(pkt, 4, MAGIC_COOKIE);
    Store(pkt, 8, tid);
    PatchNext(s, 4, Be32(MAGIC_COOKIE), tid);
    assert s[..4] == [0x00, 0x01, 0x00, 0x00];
    packet := pkt[..];
  }

  /** The table and what the program does to it. */
  class Race {
    var table: array<Server>

    /** A freshly loaded table: nobody has answered. */
    constructor (servers: seq<Server>)
      requires forall i :: 0 <= i < |servers| ==>
        servers[i].rttMs == -1 && servers[i].publicIp.None? && servers[i].publicPort == 0
      ensures fresh(table) && table[..] == servers && AllSound(table[..])
    {
      table := new Server[|servers|](i requires 0 <= i < |servers| => servers[i]);
    }

    /** Draws a transaction id into packet and entry, notes the time, and sends the packet. */
    method SendRequest(idx: nat, request: Request) returns (packet: seq<Byte>)
      requires idx < table.Length && |request.tid| == 12
      modifies table
      ensures table[..] == old(table[..])[idx := old(table[idx]).(tid := request.tid, sendTime := request.at)]
      ensures packet == RequestPacket(request.tid)
    {
      packet := BuildRequest(request.tid);
      table[idx] := table[idx].(tid := request.tid);
      table[idx] := table[idx].(sendTime := request.at);
    }

    method BurstSendAll(targets: seq<nat>, requests: seq<Request>) returns (packets: seq<seq<Byte>>)
      requires Targets(targets, table.Length) && |targets| <= |requests| && AreRequests(requests)
      modifies table
      ensures table[..] == SendAll(old(table[..]), targets, requests)
      ensures |packets| == |targets| && forall i :: 0 <= i < |targets| ==> packets[i] == RequestPacket(requests[i].tid)
    {
      packets := [];
      for i := 0 to |targets|
        invariant table[..] == SendAll(old(table[..]), targets[..i], requests)
        invariant |packets| == i && forall k :: 0 <= k < i ==> packets[k] == RequestPacket(requests[k].tid)
      {
        assert targets[..i + 1][..i] == targets[..i];
        var packet := SendRequest(targets[i], requests[i]);
        packets := packets + [packet];
      }
      assert targets[..|targets|] == targets;
    }

    /** The inner loop of the receiver, for one datagram. */
    method Match(targets: seq<nat>, d: Datagram, now: Time)
      requires Targets(targets, table.Length) && IsDatagram(d) && d.len >= STUN_PKT_LEN
      modifies table
      ensures table[..] == Deliver(old(table[..]), targets, d, now)
    {
      var ti := 0;
      while ti < |targets|
        invariant 0 <= ti <= |targets|
        invariant table[..] == old(table[..])
        invariant Deliver(table[..], targets[ti..], d, now) == Deliver(old(table[..]), targets, d, now)
      {
        var k := targets[ti];
        assert targets[ti..][0] == k && targets[ti..][1..] == targets[ti + 1..];
        if table[k].rttMs == -1 && d.bytes[8..20] == table[k].tid {
          table[k] := table[k].(rttMs := ElapsedMs(now, table[k].sendTime), answeredAt := now);
          var mapped := ParseXorMappedAddress(d.bytes, d.len);
          if mapped.Some? {
            table[k] := table[k].(publicIp := Some(mapped.value.ip), publicPort := mapped.value.port);
          }
          return;
        }
        ti := ti + 1;
      }
    }

    method ReceiveBatch(targets: seq<nat>, batch: seq<Datagram>, now: Time)
      requires Targets(targets, table.Length) && IsBatch(batch)
      modifies table
      ensures table[..] == DeliverAll(old(table[..]), targets, batch, now)
    {
      for m := 0 to |batch|
        invariant table[..] == DeliverAll(old(table[..]), targets, batch[..m], now)
      {
        assert batch[..m + 1][..m] == batch[..m];
        if batch[m].len >= STUN_PKT_LEN {
          Match(targets, batch[m], now);
        }
      }
      assert batch[..|batch|] == batch;
    }

    method BurstReceive(targets: seq<nat>, polls: seq<Poll>, start: Time)
      requires Targets(targets, table.Length) && ArePolls(polls)
      modifies table
      ensures table[..] == Round(old(table[..]), targets, polls, start)
    {
      var i := 0;
      while i < |polls|
        invariant 0 <= i <= |polls|
        invariant Round(table[..], targets, polls[i..], start) == Round(old(table[..]), targets, polls, start)
      {
        assert polls[i..][0] == polls[i] && polls[i..][1..] == polls[i + 1..];
        ReceiveBatch(targets, polls[i].batch, polls[i].now);
        if ElapsedMs(polls[i].cur, start) >= TIME_LIMIT_MS {
          return;
        }
        i := i + 1;
      }
    }

    method SelectRetries() returns (targets: seq<nat>)
      ensures targets == RetryTargets(table[..])
    {
      targets := [];
      for i := 0 to table.Length
        invariant targets == RetryTargets(table[..i])
      {
        assert table[..i + 1][..i] == table[..i];
        if table[i].rttMs >= 0 && !IsValid(table[i]) {
          targets := targets + [i];
        }
      }
      assert table[..table.Length] == table[..];
    }

    /** `qsort` with the comparator: callers know no more than that it sorts. */
    method SortByRtt()
      modifies table
      ensures multiset(table[..]) == multiset(old(table[..]))
      ensures SortedByRtt(table[..])
    {
      var sorted := Sort(table[..]);
      SortSorts(table[..]);
      forall k | 0 <= k < table.Length {
        table[k] := sorted[k];
      }
      assert table[..] == sorted;
    }

    /** The first valid entry, or -1. */
    method FirstValid() returns (best: int)
      ensures -1 <= best < table.Length
      ensures best == -1 <==> forall i :: 0 <= i < table.Length ==> table[i].publicIp.None? || table[i].publicPort == 0
      ensures best >= 0 ==> table[best].publicIp.Some? && table[best].publicPort != 0
      ensures forall i :: 0 <= i < best ==> table[i].publicIp.None? || table[i].publicPort == 0
    {
      for i := 0 to table.Length
        invariant forall k :: 0 <= k < i ==> table[k].publicIp.None? || table[k].publicPort == 0
      {
        if IsValid(table[i]) {
          return i;
        }
      }
      return -1;
    }

    /** Both rounds on arbitrary traffic, under a clock that does not run backwards. */
    method Rounds(requests: seq<Request>, polls: seq<Poll>, start: Time,
                  retryRequests: seq<Request>, retryPolls: seq<Poll>, retryStart: Time)
      requires AllSound(table[..]) && forall k :: 0 <= k < table.Length ==> table[k].rttMs == -1
      requires table.Length <= |requests| && table.Length <= |retryRequests|
      requires ArePolls(polls) && ArePolls(retryPolls) && AreRequests(requests) && AreRequests(retryRequests)
      requires SentBefore(requests, start) && ClockFrom(start, polls)
      modifies table
      ensures table[..] == AfterRetry(AfterFirst(old(table[..]), requests, polls, start), retryRequests)
      ensures SameResults(AfterFirst(old(table[..]), requests, polls, start), table[..])
      ensures AllSound(table[..])
    {
      var all := Everyone(table.Length);
      FirstRoundReady(table[..], requests, start);
      var _ := BurstSendAll(all, requests);
      RoundSound(table[..], all, polls, start, start);
      BurstReceive(all, polls, start);
      ghost var first := table[..];
      var retries := SelectRetries();
      RetryChangesNoResult(first, retryRequests, retryPolls, retryStart);
      ResendSound(first, retryRequests);
      if |retries| > 0 {
        var _ := BurstSendAll(retries, retryRequests);
        BurstReceive(retries, retryPolls, retryStart);
      }
    }

    /**
     The whole program: the chosen server is valid if any is, has the least measured time of all
     valid ones, and its true time is less than two milliseconds above that of any of them. What is
     chosen from are the results of the first round, and a usable response in it is enough for a choice.
     */
    method Choose(requests: seq<Request>, polls: seq<Poll>, start: Time,
                  retryRequests: seq<Request>, retryPolls: seq<Poll>, retryStart: Time)
      returns (best: int)
      requires AllSound(table[..]) && forall k :: 0 <= k < table.Length ==> table[k].rttMs == -1
      requires table.Length <= |requests| && table.Length <= |retryRequests|
      requires ArePolls(polls) && ArePolls(retryPolls) && AreRequests(requests) && AreRequests(retryRequests)
      requires SentBefore(requests, start) && ClockFrom(start, polls)
      modifies table
      ensures var first := AfterFirst(old(table[..]), requests, polls, start);
        && SameResults(first, AfterRetry(first, retryRequests))
        && multiset(table[..]) == multiset(AfterRetry(first, retryRequests))
      ensures -1 <= best < table.Length
      ensures best == -1 <==> forall k :: 0 <= k < table.Length ==> table[k].publicIp.None? || table[k].publicPort == 0
      ensures best >= 0 ==> NearlyFastest(table[..], best)
      ensures ChosenOf(AfterFirst(old(table[..]), requests, polls, start), table[..], best)
      ensures (exists k, i, j :: RespondsUsably(table.Length, requests, polls, start, k, i, j)) ==> best >= 0
    {
      ghost var first := AfterFirst(table[..], requests, polls, start);
      ResponsesUsed(table[..], requests, polls, start);
      Rounds(requests, polls, start, retryRequests, retryPolls, retryStart);
      ghost var final := table[..];
      SortByRtt();
      best := FirstValid();
      ChoiceJustified(first, final, table[..], best);
    }
  }
}
