/**
 Sets of addresses kept as sorted ranges with gaps between them, as the `netipx` set
 builder keeps them. The ranges are half open.
 */
module AddressSets {
  import opened CidrBlocks
  import opened PowersOfTwo

  datatype Range = Range(lo: nat, hi: nat) {
    predicate Has(a: int) { lo <= a < hi }
  }

  function RangeOf(b: Block): Range { Range(b.Lo(), b.Hi()) }

  predicate Covers(rs: seq<Range>, a: int) {
    exists r :: r in rs && r.Has(a)
  }

  predicate StartsAfter(rs: seq<Range>, x: int) {
    forall r :: r in rs ==> x < r.lo
  }

  /** Sorted, without empty, overlapping or adjacent ranges. */
  predicate Normal(rs: seq<Range>) {
    rs != [] ==> rs[0].lo < rs[0].hi && StartsAfter(rs[1..], rs[0].hi) && Normal(rs[1..])
  }

  lemma CoversHead(rs: seq<Range>, a: int)
    requires rs != []
    ensures Covers(rs, a) <==> rs[0].Has(a) || Covers(rs[1..], a)
  {
    assert rs == [rs[0]] + rs[1..];
  }

  /** Adds one range, merging it with every range it overlaps or touches. */
  function Insert(r: Range, rs: seq<Range>): (res: seq<Range>)
    requires r.lo < r.hi && Normal(rs)
    ensures Normal(res)
    ensures forall x :: x < r.lo && StartsAfter(rs, x) ==> StartsAfter(res, x)
    decreases |rs|
  {
    if rs == [] || r.hi < rs[0].lo then [r] + rs
    else if rs[0].hi < r.lo then [rs[0]] + Insert(r, rs[1..])
    else
      var lo := if r.lo < rs[0].lo then r.lo else rs[0].lo;
      var hi := if r.hi < rs[0].hi then rs[0].hi else r.hi;
      Insert(Range(lo, hi), rs[1..])
  }

  lemma {:induction false} InsertCovers(r: Range, rs: seq<Range>, a: int)
    requires r.lo < r.hi && Normal(rs)
    ensures Covers(Insert(r, rs), a) <==> r.Has(a) || Covers(rs, a)
    decreases |rs|
  {
    var res := Insert(r, rs);
    if rs == [] || r.hi < rs[0].lo {
      CoversHead(res, a);
      assert res[1..] == rs;
    } else if rs[0].hi < r.lo {
      InsertCovers(r, rs[1..], a);
      CoversHead(rs, a);
      CoversHead(res, a);
      assert res[1..] == Insert(r, rs[1..]);
    } else {
      var lo := if r.lo < rs[0].lo then r.lo else rs[0].lo;
      var hi := if r.hi < rs[0].hi then rs[0].hi else r.hi;
      InsertCovers(Range(lo, hi), rs[1..], a);
      CoversHead(rs, a);
    }
  }

  /** What is left of [lo, hi) without the ranges of `out`. */
  function Gaps(lo: nat, hi: nat, out: seq<Range>): (res: seq<Range>)
    requires Normal(out)
    ensures Normal(res)
    ensures forall r :: r in res ==> lo <= r.lo && r.hi <= hi
    decreases |out|
  {
    if hi <= lo then []
    else if out == [] || hi <= out[0].lo then [Range(lo, hi)]
    else if out[0].hi <= lo then Gaps(lo, hi, out[1..])
    else
      var rest := Gaps(out[0].hi, hi, out[1..]);
      if lo < out[0].lo then [Range(lo, out[0].lo)] + rest else rest
  }

  lemma {:induction false} GapsCover(lo: nat, hi: nat, out: seq<Range>, a: int)
    requires Normal(out)
    ensures Covers(Gaps(lo, hi, out), a) <==> lo <= a < hi && !Covers(out, a)
    decreases |out|
  {
    var res := Gaps(lo, hi, out);
    if out != [] {
      CoversHead(out, a);
    }
    if hi <= lo {
    } else if out == [] || hi <= out[0].lo {
      CoversHead(res, a);
    } else if out[0].hi <= lo {
      GapsCover(lo, hi, out[1..], a);
    } else {
      GapsCover(out[0].hi, hi, out[1..], a);
      if lo < out[0].lo {
        CoversHead(res, a);
        assert res[1..] == Gaps(out[0].hi, hi, out[1..]);
      }
    }
  }

  /** Removes the ranges of `out` from those of `rs`. */
  function Subtract(rs: seq<Range>, out: seq<Range>): (res: seq<Range>)
    requires Normal(rs) && Normal(out)
    ensures Normal(res)
    ensures forall x :: StartsAfter(rs, x) ==> StartsAfter(res, x)
    decreases |rs|
  {
    if rs == [] then []
    else
      Append(Gaps(rs[0].lo, rs[0].hi, out), Subtract(rs[1..], out), rs[0].hi)
  }

  function Append(left: seq<Range>, right: seq<Range>, x: nat): (res: seq<Range>)
    requires Normal(left) && Normal(right)
    requires forall r :: r in left ==> r.hi <= x
    requires StartsAfter(right, x)
    ensures Normal(res) && res == left + right
    decreases |left|
  {
    if left == [] then right
    else
      var res := [left[0]] + Append(left[1..], right, x);
      assert res[1..] == left[1..] + right;
      assert left[0] in left;
      res
  }

  lemma {:induction false} SubtractCovers(rs: seq<Range>, out: seq<Range>, a: int)
    requires Normal(rs) && Normal(out)
    ensures Covers(Subtract(rs, out), a) <==> Covers(rs, a) && !Covers(out, a)
    decreases |rs|
  {
    if rs != [] {
      CoversHead(rs, a);
      GapsCover(rs[0].lo, rs[0].hi, out, a);
      SubtractCovers(rs[1..], out, a);
    }
  }

  /** An unbroken run of covered addresses lies in one range: the ranges are maximal. */
  lemma {:induction false} RunInOneRange(rs: seq<Range>, lo: nat, hi: nat) returns (r: Range)
    requires Normal(rs) && lo < hi
    requires forall a :: lo <= a < hi ==> Covers(rs, a)
    ensures r in rs && r.lo <= lo && hi <= r.hi
    decreases |rs|
  {
    assert Covers(rs, lo);
    if rs[0].Has(lo) {
      r := rs[0];
      if r.hi < hi {
        assert Covers(rs, r.hi);
        CoversHead(rs, r.hi);
      }
    } else {
      forall a | lo <= a < hi
        ensures Covers(rs[1..], a)
      {
        CoversHead(rs, lo);
        CoversHead(rs, a);
      }
      r := RunInOneRange(rs[1..], lo, hi);
    }
  }

  /** Equal sets have equal range lists: the representation is canonical. */
  lemma {:induction false} NormalUnique(rs: seq<Range>, ss: seq<Range>)
    requires Normal(rs) && Normal(ss)
    requires forall a :: Covers(rs, a) <==> Covers(ss, a)
    ensures rs == ss
    decreases |rs|
  {
    if rs == [] && ss != [] {
      FirstAddressCovered(ss);
    } else if rs != [] && ss == [] {
      FirstAddressCovered(rs);
    } else if rs != [] {
      FirstRangeAgrees(rs, ss);
      FirstRangeAgrees(ss, rs);
      forall a
        ensures Covers(rs[1..], a) <==> Covers(ss[1..], a)
      {
        CoversHead(rs, a);
        CoversHead(ss, a);
      }
      NormalUnique(rs[1..], ss[1..]);
      assert rs == [rs[0]] + rs[1..] && ss == [ss[0]] + ss[1..];
    }
  }

  lemma FirstAddressCovered(rs: seq<Range>)
    requires Normal(rs) && rs != []
    ensures Covers(rs, rs[0].lo)
  {
    assert rs[0].Has(rs[0].lo);
  }

  lemma FirstRangeAgrees(rs: seq<Range>, ss: seq<Range>)
    requires Normal(rs) && Normal(ss) && rs != [] && ss != []
    requires forall a :: Covers(rs, a) ==> Covers(ss, a)
    ensures ss[0].lo <= rs[0].lo
    ensures ss[0].lo == rs[0].lo ==> rs[0].hi <= ss[0].hi
  {
    forall a | rs[0].Has(a)
      ensures Covers(rs, a)
    {
    }
    var r := RunInOneRange(ss, rs[0].lo, rs[0].hi);
    assert ss == [ss[0]] + ss[1..];
  }

  /** The `netipx` builder: ranges put in, ranges to take out, reconciled on demand. */
  class IPSetBuilder {
    var included: seq<Range>
    var removed: seq<Range>

    predicate Valid()
      reads this
    {
      Normal(included) && Normal(removed)
    }

    predicate Holds(a: int)
      reads this
    {
      Covers(included, a) && !Covers(removed, a)
    }

    constructor ()
      ensures Valid()
      ensures forall a :: !Holds(a)
    {
      included, removed := [], [];
    }

    method AddPrefix(p: Prefix)
      requires Valid()
      modifies this
      ensures Valid()
      ensures forall a :: Holds(a) <==> old(Holds(a)) || p.Masked().Has(a)
    {
      Reconcile();
      forall a {
        InsertCovers(RangeOf(p.Masked()), included, a);
      }
      included := Insert(RangeOf(p.Masked()), included);
    }

    method RemovePrefix(p: Prefix)
      requires Valid()
      modifies this
      ensures Valid()
      ensures forall a :: Holds(a) <==> old(Holds(a)) && !p.Masked().Has(a)
    {
      forall a {
        InsertCovers(RangeOf(p.Masked()), removed, a);
      }
      removed := Insert(RangeOf(p.Masked()), removed);
    }

    method Reconcile()
      requires Valid()
      modifies this
      ensures Valid() && removed == []
      ensures forall a :: Holds(a) <==> old(Holds(a))
    {
      forall a {
        SubtractCovers(included, removed, a);
      }
      included, removed := Subtract(included, removed), [];
    }

    method IPSet() returns (rs: seq<Range>)
      requires Valid()
      modifies this
      ensures Normal(rs)
      ensures forall a :: Covers(rs, a) <==> old(Holds(a))
    {
      Reconcile();
      rs := included;
      forall a ensures Covers(rs, a) <==> old(Holds(a)) {
        assert Holds(a) <==> old(Holds(a));
      }
    }
  }
}
