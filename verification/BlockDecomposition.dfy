/**
 Splitting a range of addresses into CIDR blocks, and why the result is the canonical
 decomposition: disjoint, exact, and with no two sibling blocks left unmerged.
 */
module BlockDecomposition {
  import opened AddressSets
  import opened CidrBlocks
  import opened PowersOfTwo

  /** Splits [lo, hi) inside `b`: the whole of `b` is one block, anything less is split at its middle. */
  function Split(b: Block, lo: nat, hi: nat): (ds: seq<Block>)
    requires b.Lo() <= lo < hi <= b.Hi()
    ensures Tiles(ds, lo, hi)
    ensures forall d :: d in ds ==> Within(d, lo, hi) && d.exp <= b.exp
    decreases b.exp
  {
    if lo == b.Lo() && hi == b.Hi() then [b]
    else
      Halves(b);
      var left, right := Block(2 * b.index, b.exp - 1), Block(2 * b.index + 1, b.exp - 1);
      if hi <= right.Lo() then Split(left, lo, hi)
      else if right.Lo() <= lo then Split(right, lo, hi)
      else
        var low, high := Split(left, lo, right.Lo()), Split(right, right.Lo(), hi);
        TilesConcat(low, high, lo, right.Lo(), hi);
        low + high
  }

  /** The blocks lie end to end from `lo` to `hi`. */
  predicate Tiles(ds: seq<Block>, lo: int, hi: int) {
    if ds == [] then lo == hi else ds[0].Lo() == lo && Tiles(ds[1..], ds[0].Hi(), hi)
  }

  lemma {:induction false} TilesConcat(left: seq<Block>, right: seq<Block>, lo: int, mid: int, hi: int)
    requires Tiles(left, lo, mid) && Tiles(right, mid, hi)
    ensures Tiles(left + right, lo, hi)
    decreases |left|
  {
    if left == [] {
      assert left + right == right;
    } else {
      TilesConcat(left[1..], right, left[0].Hi(), mid, hi);
      assert (left + right)[1..] == left[1..] + right;
    }
  }

  predicate InSpace(space: Block, rs: seq<Range>) {
    forall r :: r in rs ==> space.Lo() <= r.lo && r.hi <= space.Hi()
  }

  /** The blocks of a whole set, range by range. */
  function Decompose(space: Block, rs: seq<Range>): (ds: seq<Block>)
    requires Normal(rs) && InSpace(space, rs)
    ensures forall d :: d in ds ==> d.exp <= space.exp
    decreases |rs|
  {
    if rs == [] then [] else Split(space, rs[0].lo, rs[0].hi) + Decompose(space, rs[1..])
  }

  /** Every aligned block of the range lies in one block of its decomposition. */
  lemma {:induction false} BlockInSplit(b: Block, lo: nat, hi: nat, c: Block) returns (d: Block)
    requires b.Lo() <= lo < hi <= b.Hi() && Within(c, lo, hi)
    ensures d in Split(b, lo, hi) && Inside(c, d)
    decreases b.exp
  {
    if lo == b.Lo() && hi == b.Hi() {
      d := b;
    } else {
      Halves(b);
      var left, right := Block(2 * b.index, b.exp - 1), Block(2 * b.index + 1, b.exp - 1);
      ProperPart(b, c, lo, hi);
      Nesting(c, left);
      Nesting(c, right);
      if c.Hi() <= right.Lo() {
        d := BlockInSplit(left, lo, if hi <= right.Lo() then hi else right.Lo(), c);
      } else {
        d := BlockInSplit(right, if right.Lo() <= lo then lo else right.Lo(), hi, c);
      }
    }
  }

  /** A block inside a proper part of `b` is smaller than `b`. */
  lemma ProperPart(b: Block, c: Block, lo: nat, hi: nat)
    requires b.Lo() <= lo && hi <= b.Hi() && Within(c, lo, hi)
    requires !(lo == b.Lo() && hi == b.Hi())
    ensures c.exp < b.exp
  {
    if b.exp < c.exp {
      Pow2Strict(b.exp, c.exp);
    }
  }

  /** No block of a split can be widened by a bit without leaving the range, unless it is all of `b`. */
  lemma {:induction false} SplitMaximal(b: Block, lo: nat, hi: nat, d: Block)
    requires b.Lo() <= lo < hi <= b.Hi() && d in Split(b, lo, hi)
    ensures d == b || (Inside(d.Parent(), b) && !Within(d.Parent(), lo, hi))
    decreases b.exp
  {
    if !(lo == b.Lo() && hi == b.Hi()) {
      Halves(b);
      var left, right := Block(2 * b.index, b.exp - 1), Block(2 * b.index + 1, b.exp - 1);
      if hi <= right.Lo() {
        SplitMaximal(left, lo, hi, d);
      } else if right.Lo() <= lo {
        SplitMaximal(right, lo, hi, d);
      } else if d in Split(left, lo, right.Lo()) {
        SplitMaximal(left, lo, right.Lo(), d);
      } else {
        SplitMaximal(right, right.Lo(), hi, d);
      }
    }
  }

  /** The number of blocks with 2^m addresses that fit in the listed blocks, block by block. */
  function WeightedCount(ds: seq<Block>, m: nat): nat {
    if ds == [] then 0
    else (if ds[0].exp < m then 0 else Pow2(ds[0].exp - m)) + WeightedCount(ds[1..], m)
  }

  lemma {:induction false} WeightedCountConcat(left: seq<Block>, right: seq<Block>, m: nat)
    ensures WeightedCount(left + right, m) == WeightedCount(left, m) + WeightedCount(right, m)
    decreases |left|
  {
    if left == [] {
      assert left + right == right;
    } else {
      WeightedCountConcat(left[1..], right, m);
      assert (left + right)[1..] == left[1..] + right;
    }
  }

  /** Indices of the aligned blocks with 2^m addresses that lie in [lo, hi). */
  function AlignedIn(lo: int, hi: int, m: nat): set<nat> {
    set i: nat | i < hi && Within(Block(i, m), lo, hi)
  }

  /** The bound in the comprehension loses nothing. */
  lemma AlignedInIff(lo: int, hi: int, m: nat, i: nat)
    ensures i in AlignedIn(lo, hi, m) <==> Within(Block(i, m), lo, hi)
  {
    IndexBound(i, m);
  }

  lemma {:induction false} IndexBound(i: nat, m: nat)
    ensures i <= Shl(i, m)
    decreases m
  {
    if m > 0 {
      IndexBound(2 * i, m - 1);
    }
  }

  /** A boundary of a block at least as large as 2^m is never inside an aligned 2^m block. */
  lemma AlignedSplits(lo: int, r: Block, hi: int, m: nat)
    requires lo <= r.Lo() <= hi && m <= r.exp
    ensures AlignedIn(lo, hi, m) == AlignedIn(lo, r.Lo(), m) + AlignedIn(r.Lo(), hi, m)
    ensures AlignedIn(lo, r.Lo(), m) !! AlignedIn(r.Lo(), hi, m)
  {
    forall i: nat
      ensures i in AlignedIn(lo, hi, m) <==> i in AlignedIn(lo, r.Lo(), m) || i in AlignedIn(r.Lo(), hi, m)
    {
      AlignedInIff(lo, hi, m, i);
      AlignedInIff(lo, r.Lo(), m, i);
      AlignedInIff(r.Lo(), hi, m, i);
      Nesting(Block(i, m), r);
    }
  }

  /** A block holds 2^(exp - m) blocks of size 2^m. */
  lemma {:induction false} AlignedInBlock(b: Block, m: nat)
    requires m <= b.exp
    ensures |AlignedIn(b.Lo(), b.Hi(), m)| == Pow2(b.exp - m)
    decreases b.exp
  {
    if m == b.exp {
      forall i: nat
        ensures i in AlignedIn(b.Lo(), b.Hi(), m) <==> i == b.index
      {
        AlignedInIff(b.Lo(), b.Hi(), m, i);
        Nesting(Block(i, m), b);
      }
      assert AlignedIn(b.Lo(), b.Hi(), m) == {b.index};
    } else {
      Halves(b);
      var left, right := Block(2 * b.index, b.exp - 1), Block(2 * b.index + 1, b.exp - 1);
      AlignedInBlock(left, m);
      AlignedInBlock(right, m);
      AlignedSplits(b.Lo(), right, b.Hi(), m);
    }
  }

  /** A proper part of `b`, or a block smaller than 2^m, holds no aligned block of size 2^m when `b` is no larger. */
  lemma NothingFits(b: Block, lo: nat, hi: nat, m: nat)
    requires b.Lo() <= lo < hi <= b.Hi() && b.exp <= m
    requires lo == b.Lo() && hi == b.Hi() ==> b.exp < m
    ensures WeightedCount(Split(b, lo, hi), m) == 0 && AlignedIn(lo, hi, m) == {}
  {
    forall c: Block | Within(c, lo, hi)
      ensures c.exp < m
    {
      if b.exp < c.exp {
        Pow2Strict(b.exp, c.exp);
      } else if c.exp == b.exp == m {
        ProperPart(b, c, lo, hi);
      }
    }
    TooSmall(Split(b, lo, hi), m);
  }

  /** For one range the weighted count is the number of aligned blocks it holds. */
  lemma {:induction false} SplitCounts(b: Block, lo: nat, hi: nat, m: nat)
    requires b.Lo() <= lo < hi <= b.Hi()
    ensures WeightedCount(Split(b, lo, hi), m) == |AlignedIn(lo, hi, m)|
    decreases b.exp
  {
    if lo == b.Lo() && hi == b.Hi() && m <= b.exp {
      AlignedInBlock(b, m);
    } else if b.exp <= m {
      NothingFits(b, lo, hi, m);
    } else {
      Halves(b);
      var left, right := Block(2 * b.index, b.exp - 1), Block(2 * b.index + 1, b.exp - 1);
      if hi <= right.Lo() {
        SplitCounts(left, lo, hi, m);
      } else if right.Lo() <= lo {
        SplitCounts(right, lo, hi, m);
      } else {
        var mid := right.Lo();
        SplitCounts(left, lo, mid, m);
        SplitCounts(right, mid, hi, m);
        WeightedCountConcat(Split(left, lo, mid), Split(right, mid, hi), m);
        AlignedSplits(lo, right, hi, m);
      }
    }
  }

  lemma {:induction false} TooSmall(ds: seq<Block>, m: nat)
    requires forall d :: d in ds ==> d.exp < m
    ensures WeightedCount(ds, m) == 0
  {
    if ds != [] {
      TooSmall(ds[1..], m);
    }
  }

  /** Indices of the aligned blocks all of whose addresses are covered. */
  ghost function AlignedCovered(rs: seq<Range>, m: nat): set<nat> {
    if rs == [] then {} else AlignedIn(rs[0].lo, rs[0].hi, m) + AlignedCovered(rs[1..], m)
  }

  lemma {:induction false} AlignedCoveredRange(rs: seq<Range>, m: nat, i: nat)
    ensures i in AlignedCovered(rs, m) <==> exists r :: r in rs && Within(Block(i, m), r.lo, r.hi)
  {
    if rs != [] {
      AlignedInIff(rs[0].lo, rs[0].hi, m, i);
      AlignedCoveredRange(rs[1..], m, i);
      assert rs == [rs[0]] + rs[1..];
    }
  }

  lemma AlignedCoveredIff(rs: seq<Range>, m: nat, i: nat)
    requires Normal(rs)
    ensures i in AlignedCovered(rs, m) <==> forall a :: Block(i, m).Has(a) ==> Covers(rs, a)
  {
    var b := Block(i, m);
    AlignedCoveredRange(rs, m, i);
    if forall a :: b.Has(a) ==> Covers(rs, a) {
      var r := RunInOneRange(rs, b.Lo(), b.Hi());
    }
  }

  /** The weighted count over the decomposition counts every covered aligned block once. */
  lemma {:induction false} DecomposeCounts(space: Block, rs: seq<Range>, m: nat)
    requires Normal(rs) && InSpace(space, rs)
    ensures WeightedCount(Decompose(space, rs), m) == |AlignedCovered(rs, m)|
    decreases |rs|
  {
    if rs != [] {
      SplitCounts(space, rs[0].lo, rs[0].hi, m);
      DecomposeCounts(space, rs[1..], m);
      WeightedCountConcat(Split(space, rs[0].lo, rs[0].hi), Decompose(space, rs[1..]), m);
      forall i | i in AlignedIn(rs[0].lo, rs[0].hi, m)
        ensures i !in AlignedCovered(rs[1..], m)
      {
        AlignedCoveredRange(rs[1..], m, i);
      }
      assert AlignedIn(rs[0].lo, rs[0].hi, m) !! AlignedCovered(rs[1..], m);
    }
  }

  /** Sorted end to end or with gaps: each block ends before the next one starts. */
  predicate Ascending(ds: seq<Block>) {
    ds != [] ==> (forall d :: d in ds[1..] ==> ds[0].Hi() <= d.Lo()) && Ascending(ds[1..])
  }

  lemma {:induction false} AscendingConcat(left: seq<Block>, right: seq<Block>)
    requires Ascending(left) && Ascending(right)
    requires forall c, d :: c in left && d in right ==> c.Hi() <= d.Lo()
    ensures Ascending(left + right)
    decreases |left|
  {
    if left == [] {
      assert left + right == right;
    } else {
      AscendingConcat(left[1..], right);
      assert (left + right)[1..] == left[1..] + right;
    }
  }

  predicate BlocksCover(ds: seq<Block>, a: int) {
    exists d :: d in ds && d.Has(a)
  }

  lemma {:induction false} TilesAscend(ds: seq<Block>, lo: int, hi: int)
    requires Tiles(ds, lo, hi)
    ensures Ascending(ds) && lo <= hi
    ensures forall d :: d in ds ==> lo <= d.Lo()
    decreases |ds|
  {
    if ds != [] {
      TilesAscend(ds[1..], ds[0].Hi(), hi);
    }
  }

  lemma {:induction false} TilesCover(ds: seq<Block>, lo: int, hi: int, a: int)
    requires Tiles(ds, lo, hi)
    ensures BlocksCover(ds, a) <==> lo <= a < hi
    decreases |ds|
  {
    if ds != [] {
      TilesCover(ds[1..], ds[0].Hi(), hi, a);
      TilesAscend(ds, lo, hi);
      TilesAscend(ds[1..], ds[0].Hi(), hi);
      assert ds == [ds[0]] + ds[1..];
      if ds[0].Has(a) {
        assert ds[0] in ds;
      }
    }
  }

  /** The decomposition is exact: disjoint blocks holding the covered addresses and no others. */
  lemma {:induction false} DecomposeExact(space: Block, rs: seq<Range>)
    requires Normal(rs) && InSpace(space, rs)
    ensures var ds := Decompose(space, rs);
            && Ascending(ds)
            && forall a :: BlocksCover(ds, a) <==> Covers(rs, a)
    decreases |rs|
  {
    if rs != [] {
      var r := rs[0];
      var first, others := Split(space, r.lo, r.hi), Decompose(space, rs[1..]);
      DecomposeExact(space, rs[1..]);
      TilesAscend(first, r.lo, r.hi);
      forall c, d | c in first && d in others
        ensures c.Hi() <= d.Lo()
      {
        assert d.Has(d.Lo()) && BlocksCover(others, d.Lo());
      }
      AscendingConcat(first, others);
      forall a
        ensures BlocksCover(first + others, a) <==> Covers(rs, a)
      {
        CoversHead(rs, a);
        TilesCover(first, r.lo, r.hi, a);
      }
    }
  }

  lemma {:induction false} OriginRange(space: Block, rs: seq<Range>, d: Block) returns (r: Range)
    requires Normal(rs) && InSpace(space, rs) && d in Decompose(space, rs)
    ensures r in rs && r.lo < r.hi && d in Split(space, r.lo, r.hi)
    decreases |rs|
  {
    if d in Split(space, rs[0].lo, rs[0].hi) {
      r := rs[0];
    } else {
      r := OriginRange(space, rs[1..], d);
    }
  }

  lemma {:induction false} RangesDisjoint(rs: seq<Range>, r: Range, q: Range, a: int)
    requires Normal(rs) && r in rs && q in rs && r.Has(a) && q.Has(a)
    ensures r == q
  {
    if r != rs[0] && q != rs[0] {
      RangesDisjoint(rs[1..], r, q, a);
    }
  }

  /** The decomposition is maximal: no block other than the whole space has a wholly covered parent. */
  lemma DecomposeMaximal(space: Block, rs: seq<Range>, d: Block)
    requires Normal(rs) && InSpace(space, rs)
    requires d in Decompose(space, rs) && d != space
    ensures exists a :: d.Parent().Has(a) && !Covers(rs, a)
  {
    if forall a :: d.Parent().Has(a) ==> Covers(rs, a) {
      var r := OriginRange(space, rs, d);
      var q := RunInOneRange(rs, d.Parent().Lo(), d.Parent().Hi());
      ParentContains(d);
      RangesDisjoint(rs, r, q, d.Lo());
      SplitMaximal(space, r.lo, r.hi, d);
    }
  }

  lemma {:induction false} SplitInDecompose(space: Block, rs: seq<Range>, r: Range, d: Block)
    requires Normal(rs) && InSpace(space, rs) && r in rs && r.lo < r.hi && d in Split(space, r.lo, r.hi)
    ensures d in Decompose(space, rs)
    decreases |rs|
  {
    if r != rs[0] {
      SplitInDecompose(space, rs[1..], r, d);
    }
  }

  /** Every wholly covered block lies in one block of the decomposition. */
  lemma CoveredBlockInDecompose(space: Block, rs: seq<Range>, c: Block) returns (d: Block)
    requires Normal(rs) && InSpace(space, rs)
    requires forall a :: c.Has(a) ==> Covers(rs, a)
    ensures d in Decompose(space, rs) && Inside(c, d)
  {
    var r := RunInOneRange(rs, c.Lo(), c.Hi());
    d := BlockInSplit(space, r.lo, r.hi, c);
    SplitInDecompose(space, rs, r, d);
  }
}
