/** Maps used as counters: a key that is missing counts zero, and sums over all keys. */
module Counters {

  function Get<K>(m: map<K, nat>, k: K): nat { if k in m then m[k] else 0 }

  /** `m[k]++` on a map that creates missing entries. */
  function Inc<K>(m: map<K, nat>, k: K): map<K, nat> { m[k := Get(m, k) + 1] }

  ghost function Pick<K>(m: map<K, nat>): (k: K)
    requires m != map[]
    ensures k in m
  {
    var k :| k in m;
    k
  }

  /** The sum of w(k) * m[k] over all keys. */
  ghost function Sum<K>(m: map<K, nat>, w: K -> int): int
    decreases |m|
  {
    if m == map[] then 0
    else
      var k := Pick(m);
      Smaller(m, k);
      w(k) * m[k] + Sum(m - {k}, w)
  }

  lemma Smaller<K>(m: map<K, nat>, k: K)
    requires k in m
    ensures |m - {k}| < |m|
  {
    assert (m - {k}).Keys == m.Keys - {k};
    assert |(m - {k}).Keys| == |m.Keys| - 1;
  }

  /** Any key may be taken out first. */
  lemma {:induction false} SumRemove<K>(m: map<K, nat>, w: K -> int, k: K)
    requires k in m
    ensures Sum(m, w) == w(k) * m[k] + Sum(m - {k}, w)
    decreases |m|
  {
    var p := Pick(m);
    if p != k {
      Smaller(m, p);
      Smaller(m, k);
      SumRemove(m - {p}, w, k);
      SumRemove(m - {k}, w, p);
      assert m - {p} - {k} == m - {k} - {p};
    }
  }

  /** Setting one entry moves the sum by the difference at that key. */
  lemma SumSet<K>(m: map<K, nat>, w: K -> int, k: K, v: nat)
    ensures Sum(m[k := v], w) == Sum(m, w) + w(k) * v - w(k) * Get(m, k)
  {
    var m' := m[k := v];
    SumRemove(m', w, k);
    if k in m {
      SumRemove(m, w, k);
      assert m' - {k} == m - {k};
    } else {
      assert m' - {k} == m;
    }
  }

  lemma SumInc<K>(m: map<K, nat>, w: K -> int, k: K)
    ensures Sum(Inc(m, k), w) == Sum(m, w) + w(k)
  {
    SumSet(m, w, k, Get(m, k) + 1);
    assert w(k) * (Get(m, k) + 1) == w(k) * Get(m, k) + w(k);
  }

  /** The plain total of all counts. */
  ghost function Total<K>(m: map<K, nat>): int { Sum(m, (k: K) => 1) }

  lemma TotalSet<K>(m: map<K, nat>, k: K, v: nat)
    ensures Total(m[k := v]) == Total(m) + v - Get(m, k)
  {
    SumSet(m, (x: K) => 1, k, v);
  }

  lemma TotalInc<K>(m: map<K, nat>, k: K)
    ensures Total(Inc(m, k)) == Total(m) + 1
  {
    TotalSet(m, k, Get(m, k) + 1);
  }

  /** How many of the positions below `n` satisfy `p`. */
  ghost function CountBelow(n: nat, p: int -> bool): nat { |set i | 0 <= i < n && p(i)| }

  lemma CountNone(p: int -> bool)
    ensures CountBelow(0, p) == 0
  {
  }

  lemma CountStep(n: nat, p: int -> bool)
    ensures CountBelow(n + 1, p) == CountBelow(n, p) + if p(n) then 1 else 0
  {
    var before := set i | 0 <= i < n && p(i);
    var after := set i | 0 <= i < n + 1 && p(i);
    assert after == if p(n) then before + {n} else before;
  }

  /** The count depends on the positions below `n` only. */
  lemma CountExt(n: nat, p: int -> bool, q: int -> bool)
    requires forall i :: 0 <= i < n ==> p(i) == q(i)
    ensures CountBelow(n, p) == CountBelow(n, q)
  {
    assert (set i | 0 <= i < n && p(i)) == (set i | 0 <= i < n && q(i));
  }
}
