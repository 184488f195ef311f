/**
 What the free, used and total subnet counts of a pool mean, stated on sets of aligned
 blocks, and the laws that tie them together.
 */
module SubnetAccounting {
  import opened BlockDecomposition
  import opened CidrBlocks
  import opened PowersOfTwo

  /** Address `a` of the pool belongs to no subnet. */
  predicate FreeAddress(pool: Block, subs: seq<Block>, a: int) {
    pool.Has(a) && forall s :: s in subs ==> !s.Has(a)
  }

  /** Block `c` lies in the pool and meets no subnet. */
  predicate FreeBlock(pool: Block, subs: seq<Block>, c: Block) {
    Inside(c, pool) && forall s :: s in subs ==> Disjoint(c, s)
  }

  lemma FreeBlockIff(pool: Block, subs: seq<Block>, c: Block)
    ensures FreeBlock(pool, subs, c) <==> forall a :: c.Has(a) ==> FreeAddress(pool, subs, a)
  {
    if forall a :: c.Has(a) ==> FreeAddress(pool, subs, a) {
      assert c.Has(c.Lo()) && c.Has(c.Hi() - 1);
      forall s | s in subs
        ensures Disjoint(c, s)
      {
        if !Disjoint(c, s) {
          var a := if c.Lo() < s.Lo() then s.Lo() else c.Lo();
          assert c.Has(a) && s.Has(a);
        }
      }
    }
  }

  /** Indices of the free blocks with 2^m addresses. */
  function FreeSet(pool: Block, subs: seq<Block>, m: nat): set<nat> {
    set i | i in AlignedIn(pool.Lo(), pool.Hi(), m) && FreeBlock(pool, subs, Block(i, m))
  }

  lemma FreeSetIff(pool: Block, subs: seq<Block>, m: nat, i: nat)
    ensures i in FreeSet(pool, subs, m) <==> FreeBlock(pool, subs, Block(i, m))
  {
    AlignedInIff(pool.Lo(), pool.Hi(), m, i);
  }

  /** Only which subnets are listed matters, not their order or how often they appear. */
  lemma FreeSetDependsOnMembers(pool: Block, subs: seq<Block>, others: seq<Block>, m: nat)
    requires forall s :: s in subs <==> s in others
    ensures FreeSet(pool, subs, m) == FreeSet(pool, others, m)
  {
  }

  predicate PairwiseDisjoint(subs: seq<Block>) {
    forall i, j :: 0 <= i < j < |subs| ==> Disjoint(subs[i], subs[j])
  }

  /** Every subnet listed lies in the pool, apart from the others. */
  predicate WellAllocated(pool: Block, subs: seq<Block>) {
    (forall s :: s in subs ==> Inside(s, pool)) && PairwiseDisjoint(subs)
  }

  /** Indices of the 2^m blocks that lie in a subnet at least that large. */
  ghost function WithinSubnets(subs: seq<Block>, m: nat): set<nat> {
    if subs == [] then {}
    else (if subs[0].exp < m then {} else AlignedIn(subs[0].Lo(), subs[0].Hi(), m)) + WithinSubnets(subs[1..], m)
  }

  /** Indices of the 2^m blocks of the pool that contain a smaller subnet. */
  ghost function AroundSubnets(pool: Block, subs: seq<Block>, m: nat): set<nat> {
    set i | i in AlignedIn(pool.Lo(), pool.Hi(), m) && exists s :: s in subs && s.exp < m && Inside(s, Block(i, m))
  }

  lemma {:induction false} WithinSubnetsIff(subs: seq<Block>, m: nat, i: nat)
    ensures i in WithinSubnets(subs, m) <==> exists s :: s in subs && m <= s.exp && Inside(Block(i, m), s)
  {
    if subs != [] {
      AlignedInIff(subs[0].Lo(), subs[0].Hi(), m, i);
      WithinSubnetsIff(subs[1..], m, i);
      assert subs == [subs[0]] + subs[1..];
    }
  }

  lemma {:induction false} WithinSubnetsCount(subs: seq<Block>, m: nat)
    requires PairwiseDisjoint(subs)
    ensures |WithinSubnets(subs, m)| == WeightedCount(subs, m)
  {
    if subs != [] {
      WithinSubnetsCount(subs[1..], m);
      if m <= subs[0].exp {
        AlignedInBlock(subs[0], m);
        forall i | i in AlignedIn(subs[0].Lo(), subs[0].Hi(), m)
          ensures i !in WithinSubnets(subs[1..], m)
        {
          WithinSubnetsIff(subs[1..], m, i);
        }
        assert AlignedIn(subs[0].Lo(), subs[0].Hi(), m) !! WithinSubnets(subs[1..], m);
      }
    }
  }

  /** Every block of the pool is free, or part of a subnet, or around a smaller subnet; never two of these. */
  lemma Partition(pool: Block, subs: seq<Block>, m: nat)
    requires WellAllocated(pool, subs)
    ensures AlignedIn(pool.Lo(), pool.Hi(), m)
         == FreeSet(pool, subs, m) + WithinSubnets(subs, m) + AroundSubnets(pool, subs, m)
    ensures FreeSet(pool, subs, m) !! WithinSubnets(subs, m) !! AroundSubnets(pool, subs, m)
  {
    forall i: nat
      ensures i in AlignedIn(pool.Lo(), pool.Hi(), m)
          <==> i in FreeSet(pool, subs, m) || i in WithinSubnets(subs, m) || i in AroundSubnets(pool, subs, m)
      ensures !(i in FreeSet(pool, subs, m) && i in WithinSubnets(subs, m))
      ensures !(i in FreeSet(pool, subs, m) && i in AroundSubnets(pool, subs, m))
      ensures !(i in WithinSubnets(subs, m) && i in AroundSubnets(pool, subs, m))
    {
      OneClass(pool, subs, m, i);
    }
  }

  lemma MembersDisjoint(subs: seq<Block>, s: Block, t: Block)
    requires PairwiseDisjoint(subs) && s in subs && t in subs && s != t
    ensures Disjoint(s, t)
  {
  }

  lemma OneClass(pool: Block, subs: seq<Block>, m: nat, i: nat)
    requires WellAllocated(pool, subs)
    ensures i in AlignedIn(pool.Lo(), pool.Hi(), m)
        <==> i in FreeSet(pool, subs, m) || i in WithinSubnets(subs, m) || i in AroundSubnets(pool, subs, m)
    ensures !(i in FreeSet(pool, subs, m) && i in WithinSubnets(subs, m))
    ensures !(i in FreeSet(pool, subs, m) && i in AroundSubnets(pool, subs, m))
    ensures !(i in WithinSubnets(subs, m) && i in AroundSubnets(pool, subs, m))
  {
    var b := Block(i, m);
    AlignedInIff(pool.Lo(), pool.Hi(), m, i);
    WithinSubnetsIff(subs, m, i);
    forall s | s in subs
      ensures Disjoint(b, s) <==> !(m <= s.exp && Inside(b, s)) && !(s.exp < m && Inside(s, b))
    {
      if m <= s.exp {
        Nesting(b, s);
      } else {
        Nesting(s, b);
      }
    }
    if i in WithinSubnets(subs, m) && i in AroundSubnets(pool, subs, m) {
      var s :| s in subs && m <= s.exp && Inside(b, s);
      var t :| t in subs && t.exp < m && Inside(t, b);
      MembersDisjoint(subs, s, t);
    }
  }

  lemma InsideConservation(pool: Block, subs: seq<Block>, m: nat, d: nat)
    requires WellAllocated(pool, subs) && pool.exp == m + d
    ensures Pow2(d)
         == |FreeSet(pool, subs, m)| + WeightedCount(subs, m) + |AroundSubnets(pool, subs, m)|
  {
    Partition(pool, subs, m);
    WithinSubnetsCount(subs, m);
    AlignedInBlock(pool, m);
    var f, w, a := FreeSet(pool, subs, m), WithinSubnets(subs, m), AroundSubnets(pool, subs, m);
    assert |f + w + a| == |f + w| + |a|;
  }

  /** What a subnet that meets the pool takes of it. */
  function Clip(pool: Block, s: Block): Block { if Inside(s, pool) then s else pool }

  /** What the listed subnets take of the pool; those of other prefixes take nothing. */
  function Parts(pool: Block, subs: seq<Block>): seq<Block> {
    if subs == [] then []
    else (if Disjoint(subs[0], pool) then [] else [Clip(pool, subs[0])]) + Parts(pool, subs[1..])
  }

  lemma ClipInside(pool: Block, s: Block)
    requires !Disjoint(s, pool)
    ensures Inside(Clip(pool, s), pool) && Inside(Clip(pool, s), s)
    ensures Clip(pool, s).exp == if s.exp <= pool.exp then s.exp else pool.exp
  {
    if s.exp <= pool.exp {
      Nesting(s, pool);
    } else {
      Nesting(pool, s);
      Pow2Strict(pool.exp, s.exp);
    }
  }

  lemma ClipMeets(pool: Block, s: Block, c: Block)
    requires Inside(c, pool)
    ensures Disjoint(c, s) <==> Disjoint(s, pool) || Disjoint(c, Clip(pool, s))
  {
    if !Disjoint(s, pool) {
      ClipInside(pool, s);
    }
  }

  /** Subnets that do not overlap take parts that do not. */
  lemma ClipsDisjoint(pool: Block, s: Block, t: Block)
    requires Disjoint(s, t) && !Disjoint(s, pool) && !Disjoint(t, pool)
    ensures Disjoint(Clip(pool, s), Clip(pool, t))
  {
    ClipInside(pool, s);
    ClipInside(pool, t);
  }

  lemma {:induction false} PartsIff(pool: Block, subs: seq<Block>, b: Block)
    ensures b in Parts(pool, subs) <==> exists s :: s in subs && !Disjoint(s, pool) && b == Clip(pool, s)
  {
    if subs != [] {
      PartsIff(pool, subs[1..], b);
      assert subs == [subs[0]] + subs[1..];
    }
  }

  lemma {:induction false} PartsWellAllocated(pool: Block, subs: seq<Block>)
    requires PairwiseDisjoint(subs)
    ensures WellAllocated(pool, Parts(pool, subs))
  {
    if subs != [] {
      var s, rest := subs[0], Parts(pool, subs[1..]);
      PartsWellAllocated(pool, subs[1..]);
      if !Disjoint(s, pool) {
        ClipInside(pool, s);
        forall b | b in rest
          ensures Disjoint(Clip(pool, s), b)
        {
          PartsIff(pool, subs[1..], b);
          var t :| t in subs[1..] && !Disjoint(t, pool) && b == Clip(pool, t);
          ClipsDisjoint(pool, s, t);
        }
      }
    }
  }

  lemma PartsFree(pool: Block, subs: seq<Block>, m: nat)
    ensures FreeSet(pool, Parts(pool, subs), m) == FreeSet(pool, subs, m)
  {
    forall c | Inside(c, pool)
      ensures FreeBlock(pool, Parts(pool, subs), c) <==> FreeBlock(pool, subs, c)
    {
      forall s
        ensures Disjoint(c, s) <==> Disjoint(s, pool) || Disjoint(c, Clip(pool, s))
      {
        ClipMeets(pool, s, c);
      }
      forall b
        ensures b in Parts(pool, subs) <==> exists s :: s in subs && !Disjoint(s, pool) && b == Clip(pool, s)
      {
        PartsIff(pool, subs, b);
      }
    }
    forall i: nat
      ensures i in FreeSet(pool, Parts(pool, subs), m) <==> i in FreeSet(pool, subs, m)
    {
      FreeSetIff(pool, subs, m, i);
      FreeSetIff(pool, Parts(pool, subs), m, i);
    }
  }

  lemma PartsAround(pool: Block, subs: seq<Block>, m: nat)
    requires m <= pool.exp
    ensures AroundSubnets(pool, Parts(pool, subs), m) == AroundSubnets(pool, subs, m)
  {
    forall i: nat | i in AlignedIn(pool.Lo(), pool.Hi(), m)
      ensures i in AroundSubnets(pool, Parts(pool, subs), m) <==> i in AroundSubnets(pool, subs, m)
    {
      AlignedInIff(pool.Lo(), pool.Hi(), m, i);
      forall b: Block | b.exp < m && Inside(b, Block(i, m))
        ensures b in Parts(pool, subs) <==> b in subs
      {
        SmallPart(pool, subs, b);
      }
    }
  }

  /** A block of the pool shorter than the pool itself is a part only as a whole subnet. */
  lemma SmallPart(pool: Block, subs: seq<Block>, b: Block)
    requires b.exp < pool.exp && Inside(b, pool)
    ensures b in Parts(pool, subs) <==> b in subs
  {
    PartsIff(pool, subs, b);
    assert Clip(pool, b) == b && !Disjoint(b, pool);
  }

  /**
   Conservation, for any subnets that do not overlap each other, wherever they lie: at every
   length the pool is made of its free blocks, the blocks taken by subnets of that length or
   shorter, and the blocks holding some longer subnet.
   */
  lemma Conservation(pool: Block, subs: seq<Block>, m: nat, d: nat)
    requires PairwiseDisjoint(subs) && pool.exp == m + d
    ensures Pow2(d)
         == |FreeSet(pool, subs, m)| + WeightedCount(Parts(pool, subs), m) + |AroundSubnets(pool, subs, m)|
  {
    PartsWellAllocated(pool, subs);
    InsideConservation(pool, Parts(pool, subs), m, d);
    PartsFree(pool, subs, m);
    PartsAround(pool, subs, m);
  }

  /** Index of the 2^m block around a subnet no larger than it. */
  function Enclosing(s: Block, m: nat): nat
    requires s.exp <= m
  {
    Shr(s.index, m - s.exp)
  }

  /** Indices of the free 2^m blocks that stop being free once `s` is allocated. */
  ghost function Taken(pool: Block, subs: seq<Block>, s: Block, m: nat): set<nat> {
    FreeSet(pool, subs, m) - FreeSet(pool, subs + [s], m)
  }

  lemma TakenIff(pool: Block, subs: seq<Block>, s: Block, m: nat, i: nat)
    ensures i in Taken(pool, subs, s, m) <==> FreeBlock(pool, subs, Block(i, m)) && !Disjoint(Block(i, m), s)
    ensures i in FreeSet(pool, subs + [s], m) ==> i in FreeSet(pool, subs, m)
  {
    FreeSetIff(pool, subs, m, i);
    FreeSetIff(pool, subs + [s], m, i);
    assert FreeBlock(pool, subs + [s], Block(i, m))
      <==> FreeBlock(pool, subs, Block(i, m)) && Disjoint(Block(i, m), s);
  }

  lemma TakenByLarger(pool: Block, subs: seq<Block>, s: Block, m: nat)
    requires FreeBlock(pool, subs, s) && m <= s.exp
    ensures |Taken(pool, subs, s, m)| == Pow2(s.exp - m)
  {
    forall i: nat
      ensures i in Taken(pool, subs, s, m) <==> i in AlignedIn(s.Lo(), s.Hi(), m)
    {
      TakenIff(pool, subs, s, m, i);
      AlignedInIff(s.Lo(), s.Hi(), m, i);
      Nesting(Block(i, m), s);
    }
    assert Taken(pool, subs, s, m) == AlignedIn(s.Lo(), s.Hi(), m);
    AlignedInBlock(s, m);
  }

  lemma TakenBySmaller(pool: Block, subs: seq<Block>, s: Block, m: nat)
    requires s.exp < m
    ensures Taken(pool, subs, s, m) == if FreeBlock(pool, subs, Block(Enclosing(s, m), m)) then {Enclosing(s, m)} else {}
  {
    forall i: nat
      ensures i in Taken(pool, subs, s, m) <==> i == Enclosing(s, m) && FreeBlock(pool, subs, Block(i, m))
    {
      TakenIff(pool, subs, s, m, i);
      Nesting(s, Block(i, m));
    }
  }

  lemma InsideStep(pool: Block, subs: seq<Block>, s: Block, m: nat)
    requires FreeBlock(pool, subs, s)
    ensures |FreeSet(pool, subs, m)| - |FreeSet(pool, subs + [s], m)|
         == if m <= s.exp then Pow2(s.exp - m)
            else if FreeBlock(pool, subs, Block(Enclosing(s, m), m)) then 1 else 0
  {
    if m <= s.exp {
      TakenByLarger(pool, subs, s, m);
    } else {
      TakenBySmaller(pool, subs, s, m);
    }
    var before, after, taken := FreeSet(pool, subs, m), FreeSet(pool, subs + [s], m), Taken(pool, subs, s, m);
    forall i: nat {
      TakenIff(pool, subs, s, m, i);
    }
    assert before == after + taken && after !! taken;
  }

  /** How many free blocks with 2^m addresses allocating `s` takes from the pool. */
  function Cost(pool: Block, subs: seq<Block>, s: Block, m: nat): nat {
    var part := Clip(pool, s);
    if Disjoint(s, pool) then 0
    else if m <= part.exp then Pow2(part.exp - m)
    else if FreeBlock(pool, subs, Block(Enclosing(part, m), m)) then 1 else 0
  }

  lemma ClippedAllocation(pool: Block, subs: seq<Block>, s: Block, m: nat)
    ensures FreeSet(pool, subs + [s], m)
         == if Disjoint(s, pool) then FreeSet(pool, subs, m) else FreeSet(pool, subs + [Clip(pool, s)], m)
  {
    forall i: nat
      ensures i in FreeSet(pool, subs + [s], m)
         <==> i in FreeSet(pool, subs, m) && (Disjoint(s, pool) || i in FreeSet(pool, subs + [Clip(pool, s)], m))
    {
      TakenIff(pool, subs, s, m, i);
      TakenIff(pool, subs, Clip(pool, s), m, i);
      FreeSetIff(pool, subs, m, i);
      if Inside(Block(i, m), pool) {
        ClipMeets(pool, s, Block(i, m));
      }
    }
    if !Disjoint(s, pool) {
      forall i: nat {
        TakenIff(pool, subs, Clip(pool, s), m, i);
      }
    }
  }

  /**
   Allocating space that no subnet uses, in this pool or elsewhere: of the pool's blocks it
   takes its own at every longer length and at most one at each shorter length.
   */
  lemma AllocationStep(pool: Block, subs: seq<Block>, s: Block, m: nat)
    requires forall t :: t in subs ==> Disjoint(s, t)
    ensures |FreeSet(pool, subs, m)| - |FreeSet(pool, subs + [s], m)| == Cost(pool, subs, s, m)
  {
    ClippedAllocation(pool, subs, s, m);
    if !Disjoint(s, pool) {
      ClipInside(pool, s);
      InsideStep(pool, subs, Clip(pool, s), m);
    }
  }

  lemma EnclosingAt(s: Block, a: nat, m: nat)
    requires s.Has(a) && s.exp <= m
    ensures Block(Enclosing(s, m), m) == BlockAt(a, m)
  {
    Nesting(s, BlockAt(a, m));
  }

  lemma TooLarge(pool: Block, b: Block)
    requires pool.exp < b.exp
    ensures !Inside(b, pool)
  {
    Pow2Strict(pool.exp, b.exp);
  }

  /** The same for a subnet put anywhere in the list; `d` is how many bits longer than its part of the pool the counted blocks are. */
  lemma InsertionStep(pool: Block, subs: seq<Block>, more: seq<Block>, s: Block, a: nat, m: nat, d: int)
    requires (forall t :: t in subs ==> Disjoint(s, t)) && s.Has(a)
    requires m + d == if s.exp <= pool.exp then s.exp else pool.exp
    requires forall x :: x in subs + [s] <==> x in more
    ensures |FreeSet(pool, subs, m)| - |FreeSet(pool, more, m)|
         == if Disjoint(s, pool) then 0
            else if 0 <= d then Pow2(d)
            else if FreeBlock(pool, subs, BlockAt(a, m)) then 1 else 0
  {
    AllocationStep(pool, subs, s, m);
    FreeSetDependsOnMembers(pool, subs + [s], more, m);
    if !Disjoint(s, pool) {
      ClipInside(pool, s);
      if d < 0 {
        EnclosingClip(pool, subs, s, a, m);
      }
    }
  }

  lemma EnclosingClip(pool: Block, subs: seq<Block>, s: Block, a: nat, m: nat)
    requires s.Has(a) && !Disjoint(s, pool) && Clip(pool, s).exp < m
    ensures FreeBlock(pool, subs, Block(Enclosing(Clip(pool, s), m), m)) <==> FreeBlock(pool, subs, BlockAt(a, m))
  {
    if Inside(s, pool) {
      EnclosingAt(s, a, m);
    } else {
      TooLarge(pool, Block(Enclosing(Clip(pool, s), m), m));
      TooLarge(pool, BlockAt(a, m));
    }
  }

  function IndexOf(subs: seq<Block>, i: nat): nat { if i < |subs| then subs[i].index else 0 }

  /** The listed positions hold different blocks of the pool of one size. */
  ghost predicate BlocksOfSize(pool: Block, subs: seq<Block>, listed: set<nat>, m: nat) {
    && (forall i :: i in listed ==> i < |subs| && subs[i].exp == m && Inside(subs[i], pool))
    && forall i, j :: i in listed && j in listed && i != j ==> subs[i] != subs[j]
  }

  /** Different listed blocks of one size, together with the free ones, fit in the pool. */
  lemma DistinctFit(pool: Block, subs: seq<Block>, listed: set<nat>, m: nat, d: nat)
    requires pool.exp == m + d
    requires BlocksOfSize(pool, subs, listed, m)
    ensures |listed| + |FreeSet(pool, subs, m)| <= Pow2(d)
  {
    var rest := AlignedIn(pool.Lo(), pool.Hi(), m) - FreeSet(pool, subs, m);
    forall i | i in listed
      ensures IndexOf(subs, i) in rest && subs[i] == Block(IndexOf(subs, i), m)
    {
      ListedNotFree(pool, subs, i);
    }
    InjectionSize(listed, rest, i => IndexOf(subs, i));
    FreeAndRest(pool, subs, m, d);
  }

  lemma ListedNotFree(pool: Block, subs: seq<Block>, i: nat)
    requires i < |subs| && Inside(subs[i], pool)
    ensures subs[i].index in AlignedIn(pool.Lo(), pool.Hi(), subs[i].exp) - FreeSet(pool, subs, subs[i].exp)
  {
    AlignedInIff(pool.Lo(), pool.Hi(), subs[i].exp, subs[i].index);
    FreeSetIff(pool, subs, subs[i].exp, subs[i].index);
    assert subs[i] in subs;
  }

  lemma FreeAndRest(pool: Block, subs: seq<Block>, m: nat, d: nat)
    requires pool.exp == m + d
    ensures |AlignedIn(pool.Lo(), pool.Hi(), m) - FreeSet(pool, subs, m)| + |FreeSet(pool, subs, m)| == Pow2(d)
  {
    AlignedInBlock(pool, m);
    SubsetSizes(AlignedIn(pool.Lo(), pool.Hi(), m), FreeSet(pool, subs, m));
  }

  lemma SubsetSizes<T>(all: set<T>, part: set<T>)
    requires part <= all
    ensures |all - part| + |part| == |all|
  {
  }

  lemma {:induction false} InjectionSize(a: set<nat>, b: set<nat>, f: nat -> nat)
    requires forall i :: i in a ==> f(i) in b
    requires forall i, j :: i in a && j in a && i != j ==> f(i) != f(j)
    ensures |a| <= |b|
    decreases a
  {
    if a != {} {
      var i :| i in a;
      InjectionSize(a - {i}, b - {f(i)}, f);
    }
  }
}
