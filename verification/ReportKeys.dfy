/**
 The iteration space of the three nested loops of `ListSubnetsPerPool`: which pool, prefix
 and length they visit, in which order, and that each is visited once.
 */
module ReportKeys {
  import opened Sequences

  /** The lengths of a pool's prefixes and the lengths it allows its subnets. */
  datatype Shape = Shape(bits: seq<nat>, minLength: int, maxLength: int)

  /** A pool and one of its prefixes, by position, and a length. */
  datatype Key = Key(pool: nat, prefix: nat, length: int)

  /** The lengths asked for run from the pool's minimum to its maximum; those shorter than the prefix are skipped. */
  predicate IsReported(pools: seq<Shape>, k: Key) {
    && k.pool < |pools|
    && k.prefix < |pools[k.pool].bits|
    && pools[k.pool].bits[k.prefix] <= k.length
    && pools[k.pool].minLength <= k.length <= pools[k.pool].maxLength
  }

  function LengthKeys(pool: Shape, i: nat, j: nat, end: int): seq<Key>
    requires j < |pool.bits|
    decreases end - pool.minLength
  {
    if end <= pool.minLength then []
    else LengthKeys(pool, i, j, end - 1) + if end - 1 < pool.bits[j] then [] else [Key(i, j, end - 1)]
  }

  function PrefixKeys(pool: Shape, i: nat, j: nat): seq<Key>
    requires j <= |pool.bits|
  {
    if j == 0 then [] else PrefixKeys(pool, i, j - 1) + LengthKeys(pool, i, j - 1, pool.maxLength + 1)
  }

  function PoolKeys(pools: seq<Shape>, n: nat): seq<Key>
    requires n <= |pools|
  {
    if n == 0 then [] else PoolKeys(pools, n - 1) + PrefixKeys(pools[n - 1], n - 1, |pools[n - 1].bits|)
  }

  lemma {:induction false} LengthKeysOnce(pool: Shape, i: nat, j: nat, end: int)
    requires j < |pool.bits|
    ensures Distinct(LengthKeys(pool, i, j, end))
    ensures forall k :: k in LengthKeys(pool, i, j, end) <==>
              k.pool == i && k.prefix == j && pool.minLength <= k.length < end && pool.bits[j] <= k.length
    decreases end - pool.minLength
  {
    if pool.minLength < end {
      LengthKeysOnce(pool, i, j, end - 1);
    }
  }

  lemma {:induction false} PrefixKeysOnce(pool: Shape, i: nat, j: nat)
    requires j <= |pool.bits|
    ensures Distinct(PrefixKeys(pool, i, j))
    ensures forall k :: k in PrefixKeys(pool, i, j) <==>
              k.pool == i && k.prefix < j && pool.bits[k.prefix] <= k.length && pool.minLength <= k.length <= pool.maxLength
  {
    if j > 0 {
      PrefixKeysOnce(pool, i, j - 1);
      LengthKeysOnce(pool, i, j - 1, pool.maxLength + 1);
      DistinctConcat(PrefixKeys(pool, i, j - 1), LengthKeys(pool, i, j - 1, pool.maxLength + 1));
    }
  }

  /** The three loops visit every pool, prefix and reported length exactly once. */
  lemma {:induction false} PoolKeysOnce(pools: seq<Shape>, n: nat)
    requires n <= |pools|
    ensures Distinct(PoolKeys(pools, n))
    ensures forall k :: k in PoolKeys(pools, n) <==> IsReported(pools, k) && k.pool < n
  {
    if n > 0 {
      PoolKeysOnce(pools, n - 1);
      PrefixKeysOnce(pools[n - 1], n - 1, |pools[n - 1].bits|);
      DistinctConcat(PoolKeys(pools, n - 1), PrefixKeys(pools[n - 1], n - 1, |pools[n - 1].bits|));
    }
  }

  /** By pool, then prefix, then length. */
  predicate Precedes(a: Key, b: Key) {
    || a.pool < b.pool
    || (a.pool == b.pool && a.prefix < b.prefix)
    || (a.pool == b.pool && a.prefix == b.prefix && a.length < b.length)
  }

  predicate Ascends(ks: seq<Key>) {
    forall i, j :: 0 <= i < j < |ks| ==> Precedes(ks[i], ks[j])
  }

  lemma AscendsConcat(ks: seq<Key>, ls: seq<Key>)
    requires Ascends(ks) && Ascends(ls) && forall a, b :: a in ks && b in ls ==> Precedes(a, b)
    ensures Ascends(ks + ls)
  {
    forall i, j | 0 <= i < j < |ks + ls|
      ensures Precedes((ks + ls)[i], (ks + ls)[j])
    {
      if i < |ks| <= j {
        assert ks[i] in ks && ls[j - |ks|] in ls;
      }
    }
  }

  lemma AscendsOne(ks: seq<Key>, k: Key)
    requires Ascends(ks) && forall a :: a in ks ==> Precedes(a, k)
    ensures Ascends(ks + [k])
  {
    AscendsConcat(ks, [k]);
  }

  lemma {:induction false} LengthKeysAscend(pool: Shape, i: nat, j: nat, end: int)
    requires j < |pool.bits|
    ensures Ascends(LengthKeys(pool, i, j, end))
    decreases end - pool.minLength
  {
    if pool.minLength < end {
      LengthKeysAscend(pool, i, j, end - 1);
      LengthKeysOnce(pool, i, j, end - 1);
      if pool.bits[j] <= end - 1 {
        AscendsOne(LengthKeys(pool, i, j, end - 1), Key(i, j, end - 1));
      }
    }
  }

  lemma PrefixPrecedes(pool: Shape, i: nat, j: nat, a: Key, b: Key)
    requires j < |pool.bits| && a in PrefixKeys(pool, i, j) && b in LengthKeys(pool, i, j, pool.maxLength + 1)
    ensures Precedes(a, b)
  {
    PrefixKeysOnce(pool, i, j);
    LengthKeysOnce(pool, i, j, pool.maxLength + 1);
  }

  lemma OnePrefixMore(pool: Shape, i: nat, j: nat)
    requires j < |pool.bits| && Ascends(PrefixKeys(pool, i, j))
    ensures Ascends(PrefixKeys(pool, i, j) + LengthKeys(pool, i, j, pool.maxLength + 1))
  {
    var before, more := PrefixKeys(pool, i, j), LengthKeys(pool, i, j, pool.maxLength + 1);
    LengthKeysAscend(pool, i, j, pool.maxLength + 1);
    forall a, b | a in before && b in more
      ensures Precedes(a, b)
    {
      PrefixPrecedes(pool, i, j, a, b);
    }
    AscendsConcat(before, more);
  }

  lemma {:induction false} PrefixKeysAscend(pool: Shape, i: nat, j: nat)
    requires j <= |pool.bits|
    ensures Ascends(PrefixKeys(pool, i, j))
  {
    if j > 0 {
      PrefixKeysAscend(pool, i, j - 1);
      OnePrefixMore(pool, i, j - 1);
    }
  }

  lemma PoolPrecedes(pools: seq<Shape>, n: nat, a: Key, b: Key)
    requires n < |pools| && a in PoolKeys(pools, n) && b in PrefixKeys(pools[n], n, |pools[n].bits|)
    ensures Precedes(a, b)
  {
    PoolKeysOnce(pools, n);
    PrefixKeysOnce(pools[n], n, |pools[n].bits|);
  }

  /** The keys come in the order of the loops. */
  lemma {:induction false} PoolKeysAscend(pools: seq<Shape>, n: nat)
    requires n <= |pools|
    ensures Ascends(PoolKeys(pools, n))
  {
    if n > 0 {
      var last := PrefixKeys(pools[n - 1], n - 1, |pools[n - 1].bits|);
      PoolKeysAscend(pools, n - 1);
      PrefixKeysAscend(pools[n - 1], n - 1, |pools[n - 1].bits|);
      forall a, b | a in PoolKeys(pools, n - 1) && b in last
        ensures Precedes(a, b)
      {
        PoolPrecedes(pools, n - 1, a, b);
      }
      AscendsConcat(PoolKeys(pools, n - 1), last);
    }
  }

  /** What is emitted for a list of keys, in order. */
  function Emitted<T>(at: Key -> seq<T>, ks: seq<Key>): seq<T> {
    if ks == [] then [] else Emitted(at, ks[..|ks| - 1]) + at(ks[|ks| - 1])
  }

  lemma {:induction false} EmittedConcat<T>(at: Key -> seq<T>, ks: seq<Key>, ls: seq<Key>)
    ensures Emitted(at, ks + ls) == Emitted(at, ks) + Emitted(at, ls)
    decreases |ls|
  {
    if ls == [] {
      assert ks + ls == ks;
    } else {
      EmittedConcat(at, ks, ls[..|ls| - 1]);
      assert (ks + ls)[..|ks + ls| - 1] == ks + ls[..|ls| - 1];
    }
  }

  lemma EmittedSnoc<T>(at: Key -> seq<T>, ks: seq<Key>, k: Key)
    ensures Emitted(at, ks + [k]) == Emitted(at, ks) + at(k)
  {
    assert (ks + [k])[..|ks|] == ks;
  }

  lemma {:induction false} EmittedSize<T>(at: Key -> seq<T>, ks: seq<Key>)
    requires forall k :: k in ks ==> |at(k)| == 3
    ensures |Emitted(at, ks)| == 3 * |ks|
    decreases |ks|
  {
    if ks != [] {
      EmittedSize(at, ks[..|ks| - 1]);
      assert ks[|ks| - 1] in ks;
    }
  }

  /** When every key emits three elements, those of the i-th key are the i-th three. */
  lemma {:induction false} EmittedAt<T>(at: Key -> seq<T>, ks: seq<Key>, i: nat)
    requires i < |ks| && forall k :: k in ks ==> |at(k)| == 3
    ensures |Emitted(at, ks)| == 3 * |ks|
    ensures forall j :: 0 <= j < 3 ==> Emitted(at, ks)[3 * i + j] == at(ks[i])[j]
    decreases |ks|
  {
    var init, last := ks[..|ks| - 1], ks[|ks| - 1];
    EmittedSize(at, init);
    assert last in ks;
    if i < |init| {
      EmittedAt(at, init, i);
    }
  }

  /** One length after the other: `all(l)` is what is emitted for the lengths before `l`. */
  lemma {:induction false} EmittedLengths<T>(at: Key -> seq<T>, pool: Shape, i: nat, j: nat, end: int, all: int -> seq<T>)
    requires j < |pool.bits| && forall l :: l <= pool.minLength ==> all(l) == []
    requires forall l :: pool.minLength <= l < end ==> all(l + 1) == if l < pool.bits[j] then all(l) else all(l) + at(Key(i, j, l))
    ensures all(end) == Emitted(at, LengthKeys(pool, i, j, end))
    decreases end - pool.minLength
  {
    if pool.minLength < end {
      var before := LengthKeys(pool, i, j, end - 1);
      EmittedLengths(at, pool, i, j, end - 1, all);
      assert all(end - 1 + 1) == if end - 1 < pool.bits[j] then all(end - 1) else all(end - 1) + at(Key(i, j, end - 1));
      EmittedSnoc(at, before, Key(i, j, end - 1));
      assert LengthKeys(pool, i, j, end) == if end - 1 < pool.bits[j] then before else before + [Key(i, j, end - 1)];
    }
  }

  /** One pool after the other: `all` holds what the first pools emit together, `parts` what each emits. */
  lemma {:induction false} EmittedPools<T>(at: Key -> seq<T>, pools: seq<Shape>, n: nat, parts: seq<seq<T>>, all: seq<seq<T>>)
    requires n <= |pools| == |parts| && |all| == |parts| + 1 && all[0] == []
    requires forall k :: 0 <= k < |parts| ==> all[k + 1] == all[k] + parts[k]
    requires forall k :: 0 <= k < |parts| ==> parts[k] == Emitted(at, PrefixKeys(pools[k], k, |pools[k].bits|))
    ensures all[n] == Emitted(at, PoolKeys(pools, n))
  {
    if n > 0 {
      EmittedPools(at, pools, n - 1, parts, all);
      EmittedConcat(at, PoolKeys(pools, n - 1), PrefixKeys(pools[n - 1], n - 1, |pools[n - 1].bits|));
      assert all[n - 1 + 1] == all[n - 1] + parts[n - 1];
    }
  }
}
