/** `RemoveElements` and `UniqueElements` of `utils/slices.go`. */
module Slices {
  import opened Sequences

  /** The elements of `s` outside `drop`, in order. */
  function Without<T(==)>(s: seq<T>, drop: seq<T>): seq<T> {
    if s == [] then []
    else Without(s[..|s| - 1], drop) + if s[|s| - 1] in drop then [] else [s[|s| - 1]]
  }

  /** The elements of `s`, each where it first occurs. */
  function Unique<T(==)>(s: seq<T>): seq<T> {
    if s == [] then []
    else Unique(s[..|s| - 1]) + if s[|s| - 1] in s[..|s| - 1] then [] else [s[|s| - 1]]
  }

  /** Where `s` has an element outside `drop`. */
  function Outside<T(==)>(s: seq<T>, drop: seq<T>): set<nat> { set i | 0 <= i < |s| && s[i] !in drop }

  /** Where `s` has an element for the first time. */
  function FirstOnes<T(==)>(s: seq<T>): set<nat> { set i | 0 <= i < |s| && s[i] !in s[..i] }

  method RemoveElements<T(==)>(slice: seq<T>, drop: seq<T>) returns (res: seq<T>)
    ensures res == Without(slice, drop)
    ensures Selects(res, slice, Outside(slice, drop))
  {
    res := [];
    for i := 0 to |slice|
      invariant res == Without(slice[..i], drop)
    {
      assert slice[..i + 1][..i] == slice[..i];
      if slice[i] in drop {
        continue;
      }
      res := res + [slice[i]];
    }
    assert slice[..|slice|] == slice;
    WithoutSelects(slice, drop);
  }

  method UniqueElements<T(==)>(slice: seq<T>) returns (res: seq<T>)
    ensures res == Unique(slice)
    ensures Selects(res, slice, FirstOnes(slice))
  {
    var seen: set<T> := {};
    res := [];
    for i := 0 to |slice|
      invariant forall x :: x in seen <==> x in slice[..i]
      invariant res == Unique(slice[..i])
    {
      assert slice[..i + 1][..i] == slice[..i];
      if slice[i] in seen {
        continue;
      }
      seen := seen + {slice[i]};
      res := res + [slice[i]];
    }
    assert slice[..|slice|] == slice;
    UniqueSelects(slice);
  }

  /** What is not dropped stays, in place and as often as it was there. */
  lemma {:induction false} WithoutSelects<T>(s: seq<T>, drop: seq<T>)
    ensures Selects(Without(s, drop), s, Outside(s, drop))
    decreases |s|
  {
    if s == [] {
      SelectsNone(Without(s, drop), s, Outside(s, drop));
    } else {
      var init, last := s[..|s| - 1], s[|s| - 1];
      WithoutSelects(init, drop);
      assert s == init + [last];
      assert Outside(s, drop) == Outside(init, drop) + if last in drop then {} else {|init|};
      SelectsSnoc(Without(init, drop), init, Outside(init, drop), last, Without(s, drop), Outside(s, drop));
    }
  }

  /** Exactly the first occurrences stay, in place. */
  lemma {:induction false} UniqueSelects<T>(s: seq<T>)
    ensures Selects(Unique(s), s, FirstOnes(s))
    decreases |s|
  {
    if s == [] {
      SelectsNone(Unique(s), s, FirstOnes(s));
    } else {
      var init, last := s[..|s| - 1], s[|s| - 1];
      UniqueSelects(init);
      assert s == init + [last];
      assert forall i :: 0 <= i < |init| ==> init[..i] == s[..i];
      assert FirstOnes(s) == FirstOnes(init) + if last in init then {} else {|init|};
      SelectsSnoc(Unique(init), init, FirstOnes(init), last, Unique(s), FirstOnes(s));
    }
  }

  lemma {:induction false} WithoutMembers<T>(s: seq<T>, drop: seq<T>, x: T)
    ensures x in Without(s, drop) <==> x in s && x !in drop
    decreases |s|
  {
    if s != [] {
      WithoutMembers(s[..|s| - 1], drop, x);
      assert s == s[..|s| - 1] + [s[|s| - 1]];
    }
  }

  lemma {:induction false} UniqueMembers<T>(s: seq<T>, x: T)
    ensures x in Unique(s) <==> x in s
    decreases |s|
  {
    if s != [] {
      UniqueMembers(s[..|s| - 1], x);
      assert s == s[..|s| - 1] + [s[|s| - 1]];
    }
  }

  /** Where an element first occurs. */
  function First<T(==)>(s: seq<T>, x: T): (i: nat)
    requires x in s
    ensures i < |s| && s[i] == x && x !in s[..i]
  {
    if s[0] == x then 0
    else
      var i := First(s[1..], x);
      assert s[..1 + i] == [s[0]] + s[1..][..i];
      1 + i
  }

  lemma FirstUnique<T>(s: seq<T>, x: T, i: nat)
    requires i < |s| && s[i] == x && x !in s[..i]
    ensures First(s, x) == i
  {
    NotBefore(s, x, i);
    NotBefore(s, x, First(s, x));
  }

  lemma NotBefore<T>(s: seq<T>, x: T, i: nat)
    requires i <= |s| && x !in s[..i]
    ensures forall k :: 0 <= k < i ==> s[k] != x
  {
    assert forall k :: 0 <= k < i ==> s[..i][k] == s[k];
  }

  /** Both occur, and `x` first. */
  predicate FirstBefore<T(==)>(s: seq<T>, x: T, y: T) { x in s && y in s && First(s, x) < First(s, y) }

  /** All occurrences of `x` are at listed positions. */
  predicate KeepsAll<T(==)>(src: seq<T>, positions: set<nat>, x: T) {
    forall i :: 0 <= i < |src| && src[i] == x ==> i in positions
  }

  /** A selection that keeps all occurrences of `x` keeps its first one first. */
  lemma FirstSelected<T>(out: seq<T>, src: seq<T>, idx: seq<nat>, positions: set<nat>, x: T)
    requires Lists(idx, positions) && Picks(out, src, idx) && x in out && KeepsAll(src, positions, x)
    ensures x in src && First(out, x) < |idx| && idx[First(out, x)] == First(src, x)
  {
    var a := First(out, x);
    assert src[idx[a]] == x;
    var p := First(src, x);
    assert p in idx;
    var k :| 0 <= k < |idx| && idx[k] == p;
    NotBefore(out, x, a);
    NotBefore(src, x, p);
  }

  /** So it keeps the order of first occurrences. */
  lemma FirstOrderSelected<T>(out: seq<T>, src: seq<T>, positions: set<nat>, x: T, y: T)
    requires Selects(out, src, positions) && KeepsAll(src, positions, x) && KeepsAll(src, positions, y)
    requires FirstBefore(out, x, y)
    ensures FirstBefore(src, x, y)
  {
    var idx: seq<nat> :| Lists(idx, positions) && Picks(out, src, idx);
    FirstOrderPicked(out, src, idx, positions, x, y);
  }

  lemma FirstOrderPicked<T>(out: seq<T>, src: seq<T>, idx: seq<nat>, positions: set<nat>, x: T, y: T)
    requires Lists(idx, positions) && Picks(out, src, idx) && KeepsAll(src, positions, x) && KeepsAll(src, positions, y)
    requires FirstBefore(out, x, y)
    ensures FirstBefore(src, x, y)
  {
    FirstSelected(out, src, idx, positions, x);
    FirstSelected(out, src, idx, positions, y);
    Increasing(idx, positions, First(out, x), First(out, y));
  }

  lemma Increasing(idx: seq<nat>, positions: set<nat>, i: nat, j: nat)
    requires Lists(idx, positions) && i < j < |idx|
    ensures idx[i] < idx[j]
  {
  }

  lemma OutsideKeeps<T>(s: seq<T>, drop: seq<T>, x: T)
    requires x in Without(s, drop)
    ensures KeepsAll(s, Outside(s, drop), x)
  {
    WithoutMembers(s, drop, x);
  }

  /** Dropping elements keeps the order of first occurrences of the others. */
  lemma WithoutOrder<T>(s: seq<T>, drop: seq<T>, x: T, y: T)
    requires FirstBefore(Without(s, drop), x, y)
    ensures FirstBefore(s, x, y)
  {
    WithoutSelects(s, drop);
    OutsideKeeps(s, drop, x);
    OutsideKeeps(s, drop, y);
    FirstOrderSelected(Without(s, drop), s, Outside(s, drop), x, y);
  }

  /** The elements come out in the order of their first occurrence, so each comes out once. */
  lemma {:induction false} UniqueInFirstOrder<T>(s: seq<T>, i: nat, j: nat)
    requires i < j < |Unique(s)|
    ensures Unique(s)[i] in s && Unique(s)[j] in s && First(s, Unique(s)[i]) < First(s, Unique(s)[j])
    ensures Unique(s)[i] != Unique(s)[j]
    decreases |s|
  {
    var init, last, n := s[..|s| - 1], s[|s| - 1], |s| - 1;
    var u := Unique(s);
    UniqueMembers(s, u[i]);
    UniqueMembers(s, u[j]);
    assert s == init + [last];
    UniqueMembers(init, u[i]);
    FirstUnique(s, u[i], First(init, u[i])) by {
      assert s[..First(init, u[i])] == init[..First(init, u[i])];
    }
    if j < |Unique(init)| {
      UniqueInFirstOrder(init, i, j);
      FirstUnique(s, u[j], First(init, u[j])) by {
        assert s[..First(init, u[j])] == init[..First(init, u[j])];
      }
    } else {
      FirstUnique(s, last, n);
    }
  }

  /** Dropping elements and removing duplicates can be done in either order. */
  lemma {:induction false} UniqueWithoutCommute<T>(s: seq<T>, drop: seq<T>)
    ensures Unique(Without(s, drop)) == Without(Unique(s), drop)
    decreases |s|
  {
    if s != [] {
      var init, last := s[..|s| - 1], s[|s| - 1];
      assert s == init + [last];
      UniqueWithoutCommute(init, drop);
      CommuteSnoc(init, last, drop);
    }
  }

  lemma CommuteSnoc<T>(s: seq<T>, x: T, drop: seq<T>)
    requires Unique(Without(s, drop)) == Without(Unique(s), drop)
    ensures Unique(Without(s + [x], drop)) == Without(Unique(s + [x]), drop)
  {
    var w, u := Without(s, drop), Unique(s);
    assert Without(s + [x], drop) == if x in drop then w else w + [x] by {
      WithoutSnoc(s, x, drop);
    }
    assert Unique(s + [x]) == if x in s then u else u + [x] by {
      UniqueSnoc(s, x);
    }
    assert Unique(w + [x]) == if x in w then Unique(w) else Unique(w) + [x] by {
      UniqueSnoc(w, x);
    }
    assert Without(u + [x], drop) == if x in drop then Without(u, drop) else Without(u, drop) + [x] by {
      WithoutSnoc(u, x, drop);
    }
    WithoutMembers(s, drop, x);
  }

  lemma UniqueSnoc<T>(s: seq<T>, x: T)
    ensures Unique(s + [x]) == Unique(s) + if x in s then [] else [x]
  {
    assert (s + [x])[..|s|] == s;
  }

  lemma WithoutSnoc<T>(s: seq<T>, x: T, drop: seq<T>)
    ensures Without(s + [x], drop) == Without(s, drop) + if x in drop then [] else [x]
  {
    assert (s + [x])[..|s|] == s;
  }

  /** Doing either twice changes nothing. */
  lemma {:induction false} Idempotent<T>(s: seq<T>, drop: seq<T>)
    ensures Without(Without(s, drop), drop) == Without(s, drop)
    ensures Unique(Unique(s)) == Unique(s)
    decreases |s|
  {
    if s != [] {
      var init, last := s[..|s| - 1], s[|s| - 1];
      Idempotent(init, drop);
      WithoutSnoc(Without(init, drop), last, drop);
      UniqueMembers(init, last);
      UniqueSnoc(Unique(init), last);
      if last in drop {
        assert Without(s, drop) == Without(init, drop);
      }
      if last in init {
        assert Unique(s) == Unique(init);
      }
    }
  }
}
