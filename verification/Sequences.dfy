/** Sequences whose elements differ from each other. */
module Sequences {

  ghost predicate Distinct<T>(s: seq<T>) {
    forall i, j :: 0 <= i < j < |s| ==> s[i] != s[j]
  }

  lemma DistinctConcat<T>(s: seq<T>, t: seq<T>)
    requires Distinct(s) && Distinct(t) && forall x :: x in s ==> x !in t
    ensures Distinct(s + t)
  {
    forall i, j | 0 <= i < j < |s + t|
      ensures (s + t)[i] != (s + t)[j]
    {
      if i < |s| <= j {
        assert s[i] in s && t[j - |s|] in t;
      }
    }
  }

  lemma {:induction false} DistinctCount<T>(s: seq<T>, x: T)
    requires Distinct(s)
    ensures multiset(s)[x] == if x in s then 1 else 0
  {
    if s != [] {
      DistinctCount(s[1..], x);
      assert s == [s[0]] + s[1..];
      assert s[0] !in s[1..];
    }
  }

  lemma SameMembersSameMultiset<T>(s: seq<T>, t: seq<T>)
    requires Distinct(s) && Distinct(t) && forall x :: x in s <==> x in t
    ensures multiset(s) == multiset(t)
  {
    forall x
      ensures multiset(s)[x] == multiset(t)[x]
    {
      DistinctCount(s, x);
      DistinctCount(t, x);
    }
  }

  function Positions<T(==)>(s: seq<T>, x: T): set<nat> { set i | 0 <= i < |s| && s[i] == x }

  /** How often something occurs is at how many positions it stands. */
  lemma {:induction false} CountPositions<T>(s: seq<T>, x: T)
    ensures multiset(s)[x] == |Positions(s, x)|
    decreases |s|
  {
    if s == [] {
      assert Positions(s, x) == {};
    } else {
      var init, last := s[..|s| - 1], s[|s| - 1];
      CountPositions(init, x);
      assert s == init + [last];
      assert Positions(s, x) == Positions(init, x) + if last == x then {|init|} else {};
    }
  }

  /** Some order of a finite set. */
  lemma {:induction false} Listing<T>(all: set<T>) returns (s: seq<T>)
    ensures Distinct(s) && forall x :: x in s <==> x in all
    decreases all
  {
    if all == {} {
      s := [];
    } else {
      var x :| x in all;
      var rest := Listing(all - {x});
      s := [x] + rest;
    }
  }

  /** `idx` lists the positions in increasing order. */
  ghost predicate Lists(idx: seq<nat>, positions: set<nat>) {
    && (forall i, j :: 0 <= i < j < |idx| ==> idx[i] < idx[j])
    && forall i :: i in idx <==> i in positions
  }

  lemma ListsMore(idx: seq<nat>, positions: set<nat>, more: set<nat>, n: nat)
    requires Lists(idx, positions) && (forall i :: i in positions ==> i < n) && more == positions + {n}
    ensures Lists(idx + [n], more)
  {
    forall i | 0 <= i < |idx|
      ensures idx[i] < n
    {
      assert idx[i] in idx;
    }
  }

  /** The elements of `src` at the listed positions. */
  ghost predicate Picks<T>(out: seq<T>, src: seq<T>, idx: seq<nat>) {
    |out| == |idx| && forall k :: 0 <= k < |idx| ==> idx[k] < |src| && out[k] == src[idx[k]]
  }

  /** `out` is `src` without the elements at other positions: none lost, repeated or moved. */
  ghost predicate Selects<T>(out: seq<T>, src: seq<T>, positions: set<nat>) {
    exists idx: seq<nat> :: Lists(idx, positions) && Picks(out, src, idx)
  }

  lemma SelectsNone<T>(out: seq<T>, src: seq<T>, positions: set<nat>)
    requires out == [] && positions == {}
    ensures Selects(out, src, positions)
  {
    assert Lists([], positions) && Picks(out, src, []);
  }

  /** One more element of the source, selected or not. */
  lemma SelectsSnoc<T>(out: seq<T>, src: seq<T>, positions: set<nat>, x: T, out': seq<T>, positions': set<nat>)
    requires Selects(out, src, positions) && forall i :: i in positions ==> i < |src|
    requires (out' == out && positions' == positions) || (out' == out + [x] && positions' == positions + {|src|})
    ensures Selects(out', src + [x], positions')
  {
    var idx: seq<nat> :| Lists(idx, positions) && Picks(out, src, idx);
    if out' == out && positions' == positions {
      assert Picks(out', src + [x], idx);
    } else {
      ListsMore(idx, positions, positions', |src|);
      assert Picks(out', src + [x], idx + [|src|]);
    }
  }

  lemma SelectsSome<T>(out: seq<T>, src: seq<T>, positions: set<nat>)
    requires Selects(out, src, positions)
    ensures out == [] <==> positions == {}
  {
    var idx: seq<nat> :| Lists(idx, positions) && Picks(out, src, idx);
    assert idx != [] ==> idx[0] in idx;
    assert forall i :: i in positions ==> i in idx;
  }

  lemma SelectedMembers<T>(out: seq<T>, src: seq<T>, positions: set<nat>, x: T)
    requires Selects(out, src, positions)
    ensures x in out <==> exists i :: i in positions && i < |src| && src[i] == x
  {
    var idx: seq<nat> :| Lists(idx, positions) && Picks(out, src, idx);
    if x in out {
      var k :| 0 <= k < |out| && out[k] == x;
      assert idx[k] in idx && src[idx[k]] == x;
    }
    if i :| i in positions && i < |src| && src[i] == x {
      var k :| 0 <= k < |idx| && idx[k] == i;
      assert out[k] == x;
    }
  }
}
