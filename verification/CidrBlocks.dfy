/**
 CIDR blocks (section 3.1 of RFC 4632, section 2.3 of RFC 4291) as aligned runs of
 addresses, and the prefixes that name them.

 Both address families live on one number line: an IPv4 address keeps its value and an
 IPv6 address is offset by 2^128. That keeps IPv4 before IPv6, leaves a gap between the
 two, and every IPv6 block stays aligned.
 */
module CidrBlocks {
  import opened PowersOfTwo

  /** The 2^exp addresses that share the leading bits `index`. */
  datatype Block = Block(index: nat, exp: nat) {
    function Lo(): nat { Shl(index, exp) }

    function Hi(): nat { Lo() + Pow2(exp) }

    predicate Has(a: int) { Lo() <= a < Hi() }

    /** The block one bit shorter that contains this one. */
    function Parent(): Block { Block(index / 2, exp + 1) }
  }

  predicate Within(b: Block, lo: int, hi: int) { lo <= b.Lo() && b.Hi() <= hi }

  predicate Inside(c: Block, b: Block) { Within(c, b.Lo(), b.Hi()) }

  predicate Disjoint(b: Block, c: Block) { b.Hi() <= c.Lo() || c.Hi() <= b.Lo() }

  lemma Halves(b: Block)
    requires b.exp > 0
    ensures var l, r := Block(2 * b.index, b.exp - 1), Block(2 * b.index + 1, b.exp - 1);
            l.Lo() == b.Lo() && l.Hi() == r.Lo() && r.Hi() == b.Hi()
  {
    ShlAdd(2 * b.index, 1, b.exp - 1);
    ShlOne(b.exp - 1);
  }

  lemma ParentContains(b: Block)
    ensures Inside(b, b.Parent())
  {
    Halves(b.Parent());
  }

  /** Two CIDR blocks are nested or disjoint; the leading bits decide which. */
  lemma {:induction false} Nesting(c: Block, b: Block)
    requires c.exp <= b.exp
    ensures Inside(c, b) <==> Shr(c.index, b.exp - c.exp) == b.index
    ensures Inside(c, b) <==> !Disjoint(c, b)
    decreases b.exp - c.exp
  {
    if c.exp == b.exp {
      ShlMono(c.index, b.index, c.exp);
      ShlMono(b.index, c.index, c.exp);
    } else {
      ParentContains(c);
      Nesting(c.Parent(), b);
    }
  }

  /** The block of size 2^exp around address `a`. */
  function BlockAt(a: nat, exp: nat): (b: Block)
    ensures b.exp == exp && b.Has(a)
  {
    ShrBounds(a, exp);
    Block(Shr(a, exp), exp)
  }

  datatype Family = V4 | V6

  /** Address length in bytes. */
  function Octets(f: Family): nat { if f == V4 then 4 else 16 }

  /** Address length in bits. */
  function Width(f: Family): nat { 8 * Octets(f) }

  /** Where a family's addresses start on the number line. */
  function Base(f: Family): nat { if f == V4 then 0 else TWO_128 }

  const TWO_32: nat := 0x1_0000_0000
  const TWO_128: nat := 0x1_0000_0000_0000_0000_0000_0000_0000_0000

  /** The whole address space of a family. */
  function Space(f: Family): Block { Block(if f == V4 then 0 else 1, Width(f)) }

  /** A parsed prefix. Parsing checks the length but leaves host bits set. */
  datatype RawPrefix = Prefix(family: Family, addr: nat, bits: nat) {
    predicate Valid() { bits <= Width(family) && addr < if family == V4 then TWO_32 else TWO_128 }

    function Key(): nat { Base(family) + addr }

    /** The block the prefix names, host bits cleared. */
    function Masked(): Block
      requires Valid()
    {
      BlockAt(Key(), Width(family) - bits)
    }
  }

  type Prefix = p: RawPrefix | p.Valid() witness Prefix(V4, 0, 0)

  lemma AddressCounts()
    ensures Pow2(32) == TWO_32 && Pow2(128) == TWO_128
  {
    assert Pow2(0) == 1;
    Pow2Word(0);
    Pow2Word(16);
    assert Pow2(32) == TWO_32;
    Pow2Word(32);
    Pow2Word(48);
    assert Pow2(64) == TWO_32 * TWO_32;
    Pow2Word(64);
    Pow2Word(80);
    Pow2Word(96);
    Pow2Word(112);
  }

  lemma SpaceBounds(f: Family)
    ensures Space(f).Lo() == Base(f)
    ensures Space(f).Hi() == Base(f) + if f == V4 then TWO_32 else TWO_128
  {
    AddressCounts();
    ShlOne(128);
    ShlZero(32);
  }

  /** Masked prefixes stay in their family's address space. */
  lemma PrefixInSpace(p: Prefix)
    ensures Inside(p.Masked(), Space(p.family)) && p.Masked().Has(p.Key())
  {
    SpaceBounds(p.family);
    Nesting(p.Masked(), Space(p.family));
  }

  lemma FamiliesApart(p: Prefix, o: Prefix)
    requires p.family == V4 && o.family == V6
    ensures p.Masked().Hi() <= o.Masked().Lo()
  {
    SpaceBounds(p.family);
    SpaceBounds(o.family);
    PrefixInSpace(p);
    PrefixInSpace(o);
  }

  /** `netip.Prefix.Overlaps`: equal families, and equal addresses once both are cut to the shorter length. */
  predicate Overlaps(p: Prefix, o: Prefix) {
    && p.family == o.family
    && var e := Width(p.family) - if p.bits < o.bits then p.bits else o.bits;
       Shr(p.addr, e) == Shr(o.addr, e)
  }

  lemma ShrBase(f: Family, addr: nat, exp: nat)
    requires exp <= Width(f)
    ensures Shr(Base(f) + addr, exp) == Shr(Base(f), exp) + Shr(addr, exp)
  {
    if f == V4 {
      ShrZero(exp);
    } else {
      AddressCounts();
      ShrAddPow2(128, addr, exp);
    }
  }

  /** Cut to `e` host bits, two addresses agree exactly when the block around one meets any smaller block around the other. */
  lemma CutMeets(x: nat, y: nat, e: nat, smaller: nat)
    requires smaller <= e
    ensures Shr(x, e) == Shr(y, e) <==> !Disjoint(BlockAt(x, e), BlockAt(y, smaller))
  {
    var b, c, d := BlockAt(x, e), BlockAt(y, e), BlockAt(y, smaller);
    Nesting(d, c);
    Nesting(d, b);
  }

  lemma CutMeetsAbove(base: nat, x: nat, y: nat, e: nat, smaller: nat)
    requires smaller <= e
    requires Shr(base + x, e) == Shr(base, e) + Shr(x, e) && Shr(base + y, e) == Shr(base, e) + Shr(y, e)
    ensures Shr(x, e) == Shr(y, e) <==> !Disjoint(BlockAt(base + x, e), BlockAt(base + y, smaller))
  {
    CutMeets(base + x, base + y, e, smaller);
  }

  lemma OverlapsInFamily(p: Prefix, o: Prefix)
    requires p.family == o.family && p.bits <= o.bits
    ensures Overlaps(p, o) <==> !Disjoint(p.Masked(), o.Masked())
  {
    var e, smaller := Width(p.family) - p.bits, Width(p.family) - o.bits;
    ShrBase(p.family, p.addr, e);
    ShrBase(p.family, o.addr, e);
    CutMeetsAbove(Base(p.family), p.addr, o.addr, e, smaller);
    assert p.Masked() == BlockAt(Base(p.family) + p.addr, e);
    assert o.Masked() == BlockAt(Base(p.family) + o.addr, smaller);
  }

  lemma OverlapsSymmetric(p: Prefix, o: Prefix)
    ensures Overlaps(p, o) <==> Overlaps(o, p)
  {
  }

  /** Overlapping prefixes are exactly those whose blocks share an address. */
  lemma OverlapsMeansMeeting(p: Prefix, o: Prefix)
    ensures Overlaps(p, o) <==> !Disjoint(p.Masked(), o.Masked())
  {
    if p.family == o.family {
      if p.bits <= o.bits {
        OverlapsInFamily(p, o);
      } else {
        OverlapsSymmetric(p, o);
        OverlapsInFamily(o, p);
      }
    } else if p.family == V4 {
      FamiliesApart(p, o);
    } else {
      FamiliesApart(o, p);
    }
  }
}
