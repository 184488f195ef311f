/** Powers of two and bit shifts, defined one bit at a time so that every proof about them is linear. */
module PowersOfTwo {

  function Pow2(n: nat): (r: nat)
    ensures r > 0
  {
    if n == 0 then 1 else 2 * Pow2(n - 1)
  }

  /** `x << k` without overflow. */
  function Shl(x: nat, k: nat): nat
    decreases k
  {
    if k == 0 then x else Shl(2 * x, k - 1)
  }

  /** `x >> k`. */
  function Shr(x: nat, k: nat): nat
    decreases k
  {
    if k == 0 then x else Shr(x / 2, k - 1)
  }

  lemma {:induction false} Pow2Strict(a: nat, b: nat)
    requires a < b
    ensures 2 * Pow2(a) <= Pow2(b)
  {
    if a + 1 < b {
      Pow2Strict(a, b - 1);
    }
  }

  lemma {:induction false} ShlAdd(x: nat, y: nat, k: nat)
    ensures Shl(x + y, k) == Shl(x, k) + Shl(y, k)
    decreases k
  {
    if k > 0 {
      ShlAdd(2 * x, 2 * y, k - 1);
    }
  }

  lemma {:induction false} ShlOne(k: nat)
    ensures Shl(1, k) == Pow2(k)
  {
    if k > 0 {
      ShlOne(k - 1);
      ShlAdd(1, 1, k - 1);
    }
  }

  /** Distinct multiples of 2^k are at least 2^k apart. */
  lemma ShlMono(x: nat, y: nat, k: nat)
    ensures x <= y ==> Shl(x, k) <= Shl(y, k)
    ensures x < y ==> Shl(x, k) + Pow2(k) <= Shl(y, k)
  {
    if x < y {
      ShlAdd(x, y - x, k);
      ShlAdd(1, y - x - 1, k);
      ShlOne(k);
    }
  }

  lemma {:induction false} ShlZero(k: nat)
    ensures Shl(0, k) == 0
  {
    if k > 0 {
      ShlZero(k - 1);
    }
  }

  lemma Pow2Word(n: nat)
    ensures Pow2(n + 16) == 0x1_0000 * Pow2(n)
  {
    Pow2Nibble(n);
    Pow2Nibble(n + 4);
    Pow2Nibble(n + 8);
    Pow2Nibble(n + 12);
  }

  lemma Pow2Nibble(n: nat)
    ensures Pow2(n + 4) == 16 * Pow2(n)
  {
    assert Pow2(n + 4) == 4 * Pow2(n + 2);
  }

  lemma {:induction false} ShrBounds(a: nat, k: nat)
    ensures Shl(Shr(a, k), k) <= a < Shl(Shr(a, k), k) + Pow2(k)
    decreases k
  {
    if k > 0 {
      ShrBounds(a / 2, k - 1);
      var q := Shr(a, k);
      ShlAdd(q, q, k - 1);
    }
  }

  lemma {:induction false} ShrZero(k: nat)
    ensures Shr(0, k) == 0
  {
    if k > 0 {
      ShrZero(k - 1);
    }
  }

  lemma {:induction false} ShrAddPow2(n: nat, x: nat, k: nat)
    requires k <= n
    ensures Shr(Pow2(n) + x, k) == Shr(Pow2(n), k) + Shr(x, k)
    decreases k
  {
    if k > 0 {
      ShrAddPow2(n - 1, x / 2, k - 1);
    }
  }
}
