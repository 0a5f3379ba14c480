/**
 The interleaving arithmetic of internal/shardmath, in wrapping int64: shard k of N owns
 k, k+N, k+2N, ...
 */
module ShardMath {
  import opened Int64

  datatype Layout = Layout(shardID: int, totalShards: int) {
    /** The ranges that internal/config enforces. */
    predicate Valid() {
      1 <= shardID <= totalShards <= 1024
    }

    function Value(iter: int): int {
      Wrap(shardID + Wrap(iter * totalShards))
    }

    function Iter(v: int): int
      requires Valid()
    {
      Quot(Wrap(v - shardID), totalShards)
    }

    function SnapForward(v: int): int
      requires Valid()
    {
      var n := totalShards;
      var rem := Rem(Rem(v, n) + n, n);
      var target := Rem(shardID, n);
      if rem == target then v
      else
        var diff := target - rem;
        Wrap(v + if diff < 0 then diff + n else diff)
    }

    function MaxIter(maxValue: int): int
      requires Valid()
    {
      if maxValue < shardID then -1 else Quot(maxValue - shardID, totalShards)
    }

    /** The integer that iteration i stands for when nothing wraps. */
    function Exact(i: int): int {
      shardID + i * totalShards
    }

    /** v is one of k, k+N, k+2N, ... */
    ghost predicate Owns(v: int) {
      exists i: nat :: v == Exact(i)
    }
  }

  // ----- Value -----

  lemma ValueIsExact(l: Layout, i: nat)
    requires l.Valid() && l.Exact(i) <= MAX
    ensures l.Value(i) == l.Exact(i) == l.shardID + i * l.totalShards
  {
    hide Wrap;
    assert 0 <= i * l.totalShards;
  }

  lemma ValueIsWrapped(l: Layout, i: nat)
    requires l.Valid()
    ensures l.Value(i) == Wrap(l.Exact(i)) && 0 <= l.Exact(i)
  {
    hide Wrap;
    WrapTwice(i * l.totalShards, l.shardID);
    assert 0 <= i * l.totalShards;
  }

  lemma ExactInjective(l: Layout, m: Layout, i: nat, j: nat)
    requires l.Valid() && m.Valid() && l.totalShards == m.totalShards && l.Exact(i) == m.Exact(j)
    ensures l.shardID == m.shardID && i == j
  {
    var n := l.totalShards;
    assert (i - j) * n == m.shardID - l.shardID;
    NoSmallMultiple(i - j, n);
  }

  /** Neither two shards nor two iterations of a shard share a value, even if values wrap once. */
  lemma ValuesDisjoint(l: Layout, m: Layout, i: nat, j: nat)
    requires l.Valid() && m.Valid() && l.totalShards == m.totalShards
    requires l.Exact(i) < TWO_64 && m.Exact(j) < TWO_64
    ensures l.Value(i) == m.Value(j) <==> l.shardID == m.shardID && i == j
  {
    hide Wrap, Layout.Value, Layout.Exact;
    ValueIsWrapped(l, i);
    ValueIsWrapped(m, j);
    if l.Value(i) == m.Value(j) {
      WrapInjective(l.Exact(i), m.Exact(j));
      ExactInjective(l, m, i, j);
    }
  }

  /** MaxIter is the exact bound: iteration i fits under maxValue if and only if i <= MaxIter(maxValue). */
  lemma FitsIffWithinMaxIter(l: Layout, maxValue: int, i: nat)
    requires l.Valid() && 0 <= maxValue <= MAX
    ensures i <= l.MaxIter(maxValue) <==> l.shardID + i * l.totalShards <= maxValue
    ensures l.Exact(i) == l.shardID + i * l.totalShards
  {
    var n := l.totalShards;
    if maxValue < l.shardID {
      assert i * n >= 0;
    } else {
      var room := maxValue - l.shardID;
      DivIsGreatest(room, n, i);
    }
  }

  lemma DivIsGreatest(a: nat, n: int, i: nat)
    requires n >= 1
    ensures i <= a / n <==> i * n <= a
  {
    var q := a / n;
    assert a == q * n + a % n;
    if i <= q {
      assert (q - i) * n >= 0;
    } else {
      MulAtLeast(i - q, n);
      assert i * n == q * n + (i - q) * n;
    }
  }

  // ----- SnapForward -----

  /** Go's `((v % n) + n) % n` is the mathematical residue. */
  lemma ResidueOf(v: int, n: int)
    requires n >= 1 && v >= 0
    ensures Rem(Rem(v, n) + n, n) == v % n
  {
    var r := v % n;
    assert v == n * (v / n) + r;
    assert Rem(v, n) == r;
    assert (r + n) / n == 1 by {
      assert r + n == n * 1 + r;
      QuotientUnique(r + n, n, 1, r);
    }
  }

  /** The distance to the next owned value, before any overflow. */
  function Gap(l: Layout, v: int): (d: int)
    requires l.Valid()
    ensures 0 <= d < l.totalShards
  {
    (l.shardID - v) % l.totalShards
  }

  lemma TargetOf(l: Layout)
    requires l.Valid()
    ensures Rem(l.shardID, l.totalShards) == if l.shardID == l.totalShards then 0 else l.shardID
  {
    var n, k := l.totalShards, l.shardID;
    if k == n {
      QuotientUnique(k, n, 1, 0);
    } else {
      QuotientUnique(k, n, 0, k);
    }
  }

  lemma GapOf(k: int, n: int, vq: int, rem: int, diff: int)
    requires 1 <= k <= n && 0 <= rem < n && diff == (if k == n then 0 else k) - rem
    ensures (k - (n * vq + rem)) % n == if diff < 0 then diff + n else diff
  {
    var turns := (if k == n then 1 else 0) - (if diff < 0 then 1 else 0);
    QuotientUnique(k - (n * vq + rem), n, turns - vq, if diff < 0 then diff + n else diff);
  }

  lemma SnapIsGap(l: Layout, v: int)
    requires l.Valid() && 1 <= v <= MAX
    ensures l.SnapForward(v) == Wrap(v + Gap(l, v))
  {
    var n, k := l.totalShards, l.shardID;
    ResidueOf(v, n);
    TargetOf(l);
    var vq, rem := v / n, v % n;
    assert v == n * vq + rem;
    var diff := Rem(k, n) - rem;
    GapOf(k, n, vq, rem, diff);
  }

  /** v + Gap(l, v) is the least value of the shard at or above v. */
  lemma GapIsLeast(l: Layout, v: int)
    requires l.Valid() && v >= 1
    ensures l.Owns(v + Gap(l, v))
    ensures forall w :: l.Owns(w) && w >= v ==> w >= v + Gap(l, v)
  {
    var n, k, d := l.totalShards, l.shardID, Gap(l, v);
    var q := (k - v) / n;
    assert k - v == n * q + d;
    BelowOneMultiple(q, n);  // v >= 1 keeps k - v below n
    var i: nat := -q;
    assert i * n == -(n * q);
    assert v + d == l.Exact(i);
    forall w | l.Owns(w) && w >= v
      ensures w >= v + d
    {
      var j: nat :| w == l.Exact(j);
      assert (i - j) * n == i * n - j * n == v + d - w;
      BelowOneMultiple(i - j, n);
    }
  }

  /**
   The test of parseCounterValue and snapValue, `snapped < v || snapped > max`, rejects exactly
   when no value of this shard lies in [v, max], although the addition in SnapForward may wrap.
   */
  lemma SnapRejectsExactly(l: Layout, v: int, max: int)
    requires l.Valid() && 1 <= v <= max <= MAX
    ensures (l.SnapForward(v) < v || l.SnapForward(v) > max) <==> !exists w :: v <= w <= max && l.Owns(w)
  {
    SnapIsGap(l, v);
    GapIsLeast(l, v);
    var least := v + Gap(l, v);
    if least > MAX {
      WrapsNegative(least);
    }
    if least <= max {
      assert l.Owns(least);
    }
  }

  lemma AcceptedDidNotWrap(v: int, d: int)
    requires 1 <= v <= MAX && 0 <= d < TWO_63
    ensures Wrap(v + d) >= v ==> v + d <= MAX
  {
    if v + d > MAX {
      WrapsNegative(v + d);
    }
  }

  /** When the test accepts, the snapped value is the least one, and Iter and Value are inverse on it. */
  lemma SnapAccepted(l: Layout, v: int, max: int)
    requires l.Valid() && 1 <= v <= max <= MAX
    requires v <= l.SnapForward(v) <= max
    ensures var s := l.SnapForward(v);
            && l.Owns(s) && (forall w :: l.Owns(w) && w >= v ==> w >= s)
            && 0 <= l.Iter(s) <= l.MaxIter(max)
            && l.Value(l.Iter(s)) == s == l.shardID + l.Iter(s) * l.totalShards
  {
    SnapIsGap(l, v);
    GapIsLeast(l, v);
    AcceptedDidNotWrap(v, Gap(l, v));
    var s := l.SnapForward(v);
    var i: nat :| s == l.Exact(i);
    assert i * l.totalShards >= 0;
    QuotientUnique(i * l.totalShards, l.totalShards, i, 0);
    assert l.Iter(s) == i;
    FitsIffWithinMaxIter(l, max, i);
    ValueIsExact(l, i);
  }
}
