/**
 The integers of binary64 arithmetic: round to nearest, ties to even, with a precision of
 53 bits (sections 3.6 and 4.3.1 of IEEE 754-2019). Values past 2^1024 are not modelled.
 */
module Float64 {
  import opened PowersOfTwo

  const PRECISION: nat := 53

  /** An integer whose significand fits in `p` bits. */
  ghost predicate Fits(n: nat, p: nat) {
    exists q: nat, e: nat :: q < Pow2(p) && n == Shl(q, e)
  }

  function ExcessBits(n: nat, p: nat): nat {
    if n < Pow2(p) then 0 else 1 + ExcessBits(n / 2, p)
  }

  /** The nearest integer that fits in `p` bits; of two equally near ones, that with the even significand. */
  function RoundTo(n: nat, p: nat): nat {
    var e := ExcessBits(n, p);
    var q := Shr(n, e);
    ShrBounds(n, e);
    var rest := n - Shl(q, e);
    if 2 * rest < Pow2(e) || (2 * rest == Pow2(e) && q % 2 == 0) then Shl(q, e) else Shl(q + 1, e)
  }

  function Round(n: nat): nat { RoundTo(n, PRECISION) }

  ghost predicate Representable(n: nat) { Fits(n, PRECISION) }

  lemma RoundToExact(n: nat, p: nat)
    requires 0 < p && n <= Pow2(p)
    ensures RoundTo(n, p) == n
  {
    if n == Pow2(p) {
      assert n / 2 == Pow2(p - 1) < Pow2(p);
      assert ExcessBits(n, p) == 1;
      assert Shr(n, 1) == n / 2 && Shl(n / 2, 1) == n;
    }
  }

  lemma {:induction false} SignificandFits(n: nat, p: nat)
    ensures Shr(n, ExcessBits(n, p)) < Pow2(p)
  {
    if n >= Pow2(p) {
      SignificandFits(n / 2, p);
    }
  }

  lemma RoundToFits(n: nat, p: nat)
    requires 0 < p
    ensures Fits(RoundTo(n, p), p)
  {
    var e := ExcessBits(n, p);
    var q := Shr(n, e);
    SignificandFits(n, p);
    if q + 1 == Pow2(p) {
      assert Shl(Pow2(p - 1), e + 1) == Shl(q + 1, e);
      assert Pow2(p - 1) < Pow2(p);
    }
  }

  function Distance(a: nat, b: nat): nat { if a < b then b - a else a - b }

  /** `r` has an even significand in units of its distance to `m`. */
  ghost predicate EvenBeside(r: nat, m: nat) {
    exists q: nat, e: nat :: r == Shl(q, e) && q % 2 == 0 && Distance(r, m) == Pow2(e)
  }

  /** Round to nearest, ties to even: no integer that fits is nearer to `n`, and beside an equally near one `r` is the even one. */
  ghost predicate Nearest(r: nat, n: nat, p: nat) {
    && Fits(r, p)
    && (forall m: nat :: Fits(m, p) ==> Distance(r, n) <= Distance(m, n))
    && (forall m: nat :: Fits(m, p) && m != r && Distance(m, n) == Distance(r, n) ==> EvenBeside(r, m))
  }

  lemma {:induction false} ShlShl(x: nat, a: nat, b: nat)
    ensures Shl(Shl(x, a), b) == Shl(x, a + b)
    decreases a
  {
    if a > 0 {
      ShlShl(2 * x, a - 1, b);
    }
  }

  /** A significand that had to be cut has its leading bit set. */
  lemma {:induction false} SignificandFull(n: nat, p: nat)
    requires 0 < p && n >= Pow2(p)
    ensures ExcessBits(n, p) > 0 && Shr(n, ExcessBits(n, p)) >= Pow2(p - 1)
  {
    if n / 2 >= Pow2(p) {
      SignificandFull(n / 2, p);
    }
  }

  /** Nothing that fits in `p` bits lies strictly between neighbours with `e` excess bits. */
  lemma NothingBetween(m: nat, q: nat, e: nat, p: nat)
    requires 0 < p && 0 < e && Pow2(p - 1) <= q && Fits(m, p)
    ensures m <= Shl(q, e) || Shl(q + 1, e) <= m
  {
    var k: nat, f: nat :| k < Pow2(p) && m == Shl(k, f);
    if e <= f {
      ShlShl(k, f - e, e);
      var j := Shl(k, f - e);
      ShlMono(j, q, e);
      ShlMono(q + 1, j, e);
    } else {
      ShlMono(k, Pow2(p), f);
      ShlGrows(Shl(Pow2(p), f), e - 1 - f);
      ShlShl(Pow2(p), f, e - 1 - f);
      assert Shl(Pow2(p), e - 1) == Shl(Pow2(p - 1), e);
      ShlMono(Pow2(p - 1), q, e);
    }
  }

  lemma {:induction false} ShlGrows(x: nat, k: nat)
    ensures x <= Shl(x, k)
    decreases k
  {
    if k > 0 {
      ShlGrows(2 * x, k - 1);
    }
  }

  /** Between two neighbours the nearer one, or the even one half-way, is nearest of all that fit. */
  lemma NearerNeighbour(n: nat, q: nat, e: nat, p: nat, r: nat)
    requires 0 < p && 0 < e && Pow2(p - 1) <= q && Shl(q, e) <= n < Shl(q, e) + Pow2(e) && Fits(r, p)
    requires var rest := n - Shl(q, e);
             r == if 2 * rest < Pow2(e) || (2 * rest == Pow2(e) && q % 2 == 0) then Shl(q, e) else Shl(q + 1, e)
    ensures Nearest(r, n, p)
  {
    ShlAdd(q, 1, e);
    ShlOne(e);
    forall m: nat | Fits(m, p)
      ensures Distance(r, n) <= Distance(m, n)
      ensures m != r && Distance(m, n) == Distance(r, n) ==> EvenBeside(r, m)
    {
      NothingBetween(m, q, e, p);
      assert r == Shl(if r == Shl(q, e) then q else q + 1, e);
      assert m != r && Distance(m, n) == Distance(r, n) ==> Distance(r, m) == Pow2(e);
    }
  }

  lemma RoundToNearest(n: nat, p: nat)
    requires 0 < p
    ensures Nearest(RoundTo(n, p), n, p)
  {
    RoundToFits(n, p);
    if n < Pow2(p) {
      RoundToExact(n, p);
    } else {
      SignificandFull(n, p);
      ShrBounds(n, ExcessBits(n, p));
      NearerNeighbour(n, Shr(n, ExcessBits(n, p)), ExcessBits(n, p), p, RoundTo(n, p));
    }
  }

  /** There is only one such integer. */
  lemma NearestUnique(r: nat, s: nat, n: nat, p: nat)
    requires Nearest(r, n, p) && Nearest(s, n, p)
    ensures r == s
  {
    if r != s {
      var h: nat, e: nat :| r == Shl(h, e) && h % 2 == 0 && Distance(r, s) == Pow2(e);
      var k: nat, f: nat :| s == Shl(k, f) && k % 2 == 0 && Distance(s, r) == Pow2(f);
      if e < f {
        Pow2Strict(e, f);
      } else if f < e {
        Pow2Strict(f, e);
      }
      EvenApart(h / 2, k / 2, e);
      EvenApart(k / 2, h / 2, e);
      assert false;
    }
  }

  lemma EvenApart(x: nat, y: nat, e: nat)
    ensures x < y ==> Shl(2 * x, e) + 2 * Pow2(e) <= Shl(2 * y, e)
  {
    ShlMono(x, y, e + 1);
  }

  /** Rounding is to nearest, ties to even, at every size, and changes nothing that fits. */
  lemma RoundNearest(n: nat)
    ensures Nearest(Round(n), n, PRECISION)
    ensures Representable(n) ==> Round(n) == n
  {
    RoundToNearest(n, PRECISION);
    if Representable(n) {
      assert Distance(Round(n), n) <= Distance(n, n);
    }
  }

  lemma RoundOnly(r: nat, n: nat)
    requires Nearest(r, n, PRECISION)
    ensures r == Round(n)
  {
    RoundToNearest(n, PRECISION);
    NearestUnique(r, Round(n), n, PRECISION);
  }

  lemma Pow2Fits(k: nat)
    ensures Representable(Pow2(k))
  {
    ShlOne(k);
    assert 1 < Pow2(PRECISION) by {
      Pow2Strict(0, PRECISION);
    }
  }

  /** Past 2^p only even integers fit in `p` bits. */
  lemma OddDoesNotFit(n: nat, p: nat)
    requires n % 2 == 1 && Fits(n, p)
    ensures n < Pow2(p)
  {
    var q: nat, e: nat :| q < Pow2(p) && n == Shl(q, e);
    if e > 0 {
      ShlAdd(q, q, e - 1);
    }
  }

  lemma OneLessDoesNotFit(k: nat, p: nat)
    requires p < k
    ensures !Fits(Pow2(k) - 1, p)
  {
    Pow2Strict(p, k);
    if Fits(Pow2(k) - 1, p) {
      OddDoesNotFit(Pow2(k) - 1, p);
    }
  }

  lemma IdentityUpTo(k: nat, p: nat)
    requires 0 < p && k <= p
    ensures forall n: nat :: n <= Pow2(k) ==> RoundTo(n, p) == n
  {
    if k < p {
      Pow2Strict(k, p);
    }
    forall n: nat | n <= Pow2(k)
      ensures RoundTo(n, p) == n
    {
      RoundToExact(n, p);
    }
  }

  /** Up to 2^53 rounding changes nothing. */
  lemma RoundIdentity(k: nat)
    requires k <= PRECISION
    ensures forall n: nat :: n <= Pow2(k) ==> Round(n) == n
  {
    IdentityUpTo(k, PRECISION);
  }

  lemma RoundRepresentable(n: nat)
    ensures Representable(Round(n))
  {
    RoundToFits(n, PRECISION);
  }

  /** One less than a large power of two is odd, and too long for a binary64 significand. */
  lemma OneLessNotRepresentable(k: nat)
    requires PRECISION < k
    ensures !Representable(Pow2(k) - 1)
  {
    OneLessDoesNotFit(k, PRECISION);
  }
}
