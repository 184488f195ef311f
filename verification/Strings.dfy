/** `strings.Split`, `strings.Cut` and `strings.Join` for a one-character separator, and how they undo each other. */
module Strings {

  /** Puts one more character in front of a split text. */
  function Push(c: char, sep: char, ps: seq<string>): (r: seq<string>)
    requires |ps| > 0
    ensures |r| > 0
  {
    if c == sep then [""] + ps else [[c] + ps[0]] + ps[1..]
  }

  function Split(s: string, sep: char): (ps: seq<string>)
    ensures |ps| > 0
  {
    if s == "" then [""] else Push(s[0], sep, Split(s[1..], sep))
  }

  function Join(ps: seq<string>, sep: char): string {
    if ps == [] then ""
    else if |ps| == 1 then ps[0]
    else ps[0] + [sep] + Join(ps[1..], sep)
  }

  datatype CutResult = CutResult(before: string, after: string, found: bool)

  /** Splits at the first separator. */
  function Cut(s: string, sep: char): CutResult {
    if s == "" then CutResult("", "", false)
    else if s[0] == sep then CutResult("", s[1..], true)
    else
      var r := Cut(s[1..], sep);
      CutResult([s[0]] + r.before, r.after, r.found)
  }

  lemma {:induction false} SplitPieces(s: string, sep: char)
    ensures forall p :: p in Split(s, sep) ==> sep !in p
  {
    if s != "" {
      SplitPieces(s[1..], sep);
    }
  }

  lemma PushConcat(c: char, sep: char, ps: seq<string>, qs: seq<string>)
    requires |ps| > 0
    ensures Push(c, sep, ps + qs) == Push(c, sep, ps) + qs
  {
    assert (ps + qs)[0] == ps[0] && (ps + qs)[1..] == ps[1..] + qs;
  }

  lemma {:induction false} SplitAtSeparator(a: string, sep: char, b: string)
    ensures Split(a + [sep] + b, sep) == Split(a, sep) + Split(b, sep)
  {
    var s := a + [sep] + b;
    if a == "" {
      assert s[1..] == b;
    } else {
      SplitAtSeparator(a[1..], sep, b);
      assert s[1..] == a[1..] + [sep] + b && s[0] == a[0];
      PushConcat(a[0], sep, Split(a[1..], sep), Split(b, sep));
    }
  }

  lemma {:induction false} SplitWhole(s: string, sep: char)
    requires sep !in s
    ensures Split(s, sep) == [s]
  {
    if s != "" {
      SplitWhole(s[1..], sep);
      assert [s[0]] + s[1..] == s;
    }
  }

  /** Splitting undoes joining when no piece holds the separator. */
  lemma {:induction false} SplitJoin(ps: seq<string>, sep: char)
    requires ps != [] && forall p :: p in ps ==> sep !in p
    ensures Split(Join(ps, sep), sep) == ps
  {
    SplitWhole(ps[0], sep);
    if |ps| > 1 {
      SplitJoin(ps[1..], sep);
      SplitAtSeparator(ps[0], sep, Join(ps[1..], sep));
      assert ps == [ps[0]] + ps[1..];
    }
  }

  lemma {:induction false} CutBefore(s: string, sep: char)
    ensures sep !in Cut(s, sep).before
    ensures Cut(s, sep).found <==> sep in s
  {
    if s != "" && s[0] != sep {
      CutBefore(s[1..], sep);
      assert s == [s[0]] + s[1..];
    }
  }

  /** The parts are the whole again. */
  lemma {:induction false} CutRejoins(s: string, sep: char)
    ensures var r := Cut(s, sep);
            s == r.before + if r.found then [sep] + r.after else []
  {
    if s != "" && s[0] != sep {
      CutRejoins(s[1..], sep);
    }
  }

  /** Cutting finds the first separator. */
  lemma {:induction false} CutAt(a: string, sep: char, b: string)
    requires sep !in a
    ensures Cut(a + [sep] + b, sep) == CutResult(a, b, true)
    ensures Cut(a, sep) == CutResult(a, "", false)
  {
    var s := a + [sep] + b;
    if a == "" {
      assert s[1..] == b;
    } else {
      CutAt(a[1..], sep, b);
      assert s[1..] == a[1..] + [sep] + b;
      assert a == [a[0]] + a[1..];
    }
  }
}
