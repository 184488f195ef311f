/**
 The label-name expression of `utils/kingpin_parser.go`, as a regular expression, as a
 predicate, and against the rule its comment states. Strings are sequences of characters,
 so text that is not valid UTF-8 is out of scope.
 */
module LabelNames {

  predicate Letter(c: char) { 'a' <= c <= 'z' || 'A' <= c <= 'Z' }

  predicate Digit(c: char) { '0' <= c <= '9' }

  predicate Word(c: char) { Letter(c) || Digit(c) || c == '_' }

  predicate Words(s: string) { forall c :: c in s ==> Word(c) }

  datatype Regex =
    | Class(has: char -> bool)
    | Concat(left: Regex, right: Regex)
    | Alt(left: Regex, right: Regex)
    | Star(has: char -> bool)

  /** The strings a regular expression matches as a whole. */
  ghost predicate Matches(r: Regex, s: string) {
    match r
    case Class(has) => |s| == 1 && has(s[0])
    case Concat(a, b) => exists i :: 0 <= i <= |s| && Matches(a, s[..i]) && Matches(b, s[i..])
    case Alt(a, b) => Matches(a, s) || Matches(b, s)
    case Star(has) => forall c :: c in s ==> has(c)
  }

  /** `[^_0-9][^_][a-zA-Z]` */
  ghost function LooseHead(): Regex {
    Concat(Class(c => c != '_' && !Digit(c)), Concat(Class(c => c != '_'), Class(c => Letter(c))))
  }

  /** `(?:_)[a-zA-Z0-9]` */
  ghost function UnderscoreHead(): Regex {
    Concat(Class(c => c == '_'), Class(c => Letter(c) || Digit(c)))
  }

  /** `[a-zA-Z]` */
  ghost function LetterHead(): Regex { Class(c => Letter(c)) }

  /** The anchored expression: one of three heads, then `[a-zA-Z0-9_]*`. */
  ghost function LabelRegex(): Regex {
    Concat(Alt(LooseHead(), Alt(UnderscoreHead(), LetterHead())), Star(c => Word(c)))
  }

  predicate LooseName(s: string) {
    |s| >= 3 && s[0] != '_' && !Digit(s[0]) && s[1] != '_' && Letter(s[2]) && Words(s[3..])
  }

  predicate UnderscoreName(s: string) {
    |s| >= 2 && s[0] == '_' && (Letter(s[1]) || Digit(s[1])) && Words(s[2..])
  }

  predicate LetterName(s: string) {
    |s| >= 1 && Letter(s[0]) && Words(s[1..])
  }

  /** What `MatchString` decides. */
  predicate IsLabelName(s: string) {
    LooseName(s) || UnderscoreName(s) || LetterName(s)
  }

  predicate IsHead(h: string) {
    (|h| == 3 && LooseName(h)) || (|h| == 2 && UnderscoreName(h)) || (|h| == 1 && LetterName(h))
  }

  lemma MatchesPair(a: char -> bool, b: char -> bool, s: string)
    ensures Matches(Concat(Class(a), Class(b)), s) <==> |s| == 2 && a(s[0]) && b(s[1])
  {
    if |s| == 2 && a(s[0]) && b(s[1]) {
      assert Matches(Class(a), s[..1]) && Matches(Class(b), s[1..]);
    }
  }

  lemma MatchesTriple(a: char -> bool, b: char -> bool, c: char -> bool, s: string)
    ensures Matches(Concat(Class(a), Concat(Class(b), Class(c))), s) <==> |s| == 3 && a(s[0]) && b(s[1]) && c(s[2])
  {
    var rest := Concat(Class(b), Class(c));
    if |s| == 3 && a(s[0]) && b(s[1]) && c(s[2]) {
      MatchesPair(b, c, s[1..]);
      assert Matches(Class(a), s[..1]) && Matches(rest, s[1..]);
    } else if Matches(Concat(Class(a), rest), s) {
      var i :| 0 <= i <= |s| && Matches(Class(a), s[..i]) && Matches(rest, s[i..]);
      MatchesPair(b, c, s[i..]);
    }
  }

  lemma MatchesHeads(s: string)
    ensures Matches(LooseHead(), s) <==> |s| == 3 && s[0] != '_' && !Digit(s[0]) && s[1] != '_' && Letter(s[2])
    ensures Matches(UnderscoreHead(), s) <==> |s| == 2 && s[0] == '_' && (Letter(s[1]) || Digit(s[1]))
    ensures Matches(LetterHead(), s) <==> |s| == 1 && Letter(s[0])
  {
    MatchesTriple(LooseHead().left.has, LooseHead().right.left.has, LooseHead().right.right.has, s);
    MatchesPair(UnderscoreHead().left.has, UnderscoreHead().right.has, s);
  }

  /** The predicate is the expression: it holds of exactly the strings the expression matches. */
  lemma IsLabelNameMatches(s: string)
    ensures IsLabelName(s) <==> Matches(LabelRegex(), s)
  {
    var re := LabelRegex();
    forall i | 0 <= i <= |s|
      ensures Matches(re.left, s[..i]) <==> IsHead(s[..i])
      ensures Matches(re.right, s[i..]) <==> Words(s[i..])
    {
      MatchesHeads(s[..i]);
    }
    if LooseName(s) {
      assert Matches(re.left, s[..3]) && Matches(re.right, s[3..]);
    } else if UnderscoreName(s) {
      assert Matches(re.left, s[..2]) && Matches(re.right, s[2..]);
    } else if LetterName(s) {
      assert Matches(re.left, s[..1]) && Matches(re.right, s[1..]);
    }
  }

  /** The rule in the comment: letters, digits and underscores, no leading digit, no leading "__". */
  predicate Documented(s: string) {
    |s| > 0 && Words(s) && !Digit(s[0]) && !("__" <= s)
  }

  /** The first two characters of the first alternative may be almost anything. */
  predicate Stray(s: string) {
    LooseName(s) && !(Word(s[0]) && Word(s[1]))
  }

  /** The expression and the documented rule differ exactly on "_" and on names with a stray first or second character. */
  lemma DocumentedRuleIff(s: string)
    ensures (IsLabelName(s) <==> Documented(s)) <==> s != "_" && !Stray(s)
    ensures IsLabelName(s) ==> |s| > 0 && !Digit(s[0]) && !("__" <= s)
  {
    if LooseName(s) && !Stray(s) {
      assert s == s[..3] + s[3..];
    } else if UnderscoreName(s) {
      assert s == s[..2] + s[2..];
    } else if LetterName(s) {
      assert s == s[..1] + s[1..];
    }
    if Documented(s) && s != "_" {
      assert |s| > 1 && s[0] == '_' ==> s[1] in s;
      assert s[0] in s;
      assert s == "_" || |s| > 1 || s[0] != '_';
    }
  }
}
