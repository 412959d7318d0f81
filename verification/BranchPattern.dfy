/**
 Protected-branch patterns and their translation to regular expressions
 (_protected_branch_name_matches of src/cloudops_guard/checks/gitlab.py). A text is a sequence of code points.
 */
module BranchPattern {
  import opened Wrappers
  import opened Ordering

  const STAR := 0x2A
  const DOT := 0x2E
  const BACKSLASH := 0x5C

  /** ( ) [ ] { } ? * + - | ^ $ \ . & ~ # and the six ASCII white-space characters: what re.escape escapes. */
  const SPECIAL: set<int> := {
    0x28, 0x29, 0x5B, 0x5D, 0x7B, 0x7D, 0x3F, 0x2A, 0x2B, 0x2D, 0x7C, 0x5E, 0x24, 0x5C, 0x2E, 0x26, 0x7E, 0x23,
    0x20, 0x09, 0x0A, 0x0D, 0x0B, 0x0C
  }

  function EscapeOne(c: int): Text { if c in SPECIAL then [BACKSLASH, c] else [c] }

  /** re.escape */
  function Escape(p: Text): Text {
    if p == [] then [] else EscapeOne(p[0]) + Escape(p[1..])
  }

  /** str.replace of the escaped star by ".*": leftmost occurrences first, none overlapping. */
  function ReplaceStars(s: Text): Text {
    if |s| >= 2 && s[0] == BACKSLASH && s[1] == STAR then [DOT, STAR] + ReplaceStars(s[2..])
    else if s == [] then []
    else [s[0]] + ReplaceStars(s[1..])
  }

  /** The regular expression the check compiles. */
  function RegexOf(pattern: Text): Text { ReplaceStars(Escape(pattern)) }

  /** The translation as one would specify it: a star becomes ".*", anything else is escaped. */
  function Translate(p: Text): Text {
    if p == [] then [] else (if p[0] == STAR then [DOT, STAR] else EscapeOne(p[0])) + Translate(p[1..])
  }

  lemma ReplaceSkips(c: int, rest: Text)
    requires c != BACKSLASH || rest == [] || rest[0] != STAR
    ensures ReplaceStars([c] + rest) == [c] + ReplaceStars(rest)
  {
    assert ([c] + rest)[1..] == rest;
  }

  lemma ReplaceHits(rest: Text)
    ensures ReplaceStars([BACKSLASH, STAR] + rest) == [DOT, STAR] + ReplaceStars(rest)
  {
    assert ([BACKSLASH, STAR] + rest)[2..] == rest;
  }

  lemma EscapedNeverStartsWithStar(p: Text)
    ensures Escape(p) != [] ==> Escape(p)[0] != STAR
  {
  }

  /** Escaping first and replacing the escaped star in the text afterwards confuses nothing, backslashes included. */
  lemma {:induction false} ReplacingIsTranslating(p: Text)
    ensures RegexOf(p) == Translate(p)
  {
    if p != [] {
      var c, rest := p[0], Escape(p[1..]);
      ReplacingIsTranslating(p[1..]);
      EscapedNeverStartsWithStar(p[1..]);
      if c == STAR {
        ReplaceHits(rest);
      } else if c in SPECIAL {
        assert [BACKSLASH, c] + rest == [BACKSLASH] + ([c] + rest);
        ReplaceSkips(BACKSLASH, [c] + rest);
        ReplaceSkips(c, rest);
        assert [BACKSLASH] + ([c] + ReplaceStars(rest)) == [BACKSLASH, c] + ReplaceStars(rest);
      } else {
        ReplaceSkips(c, rest);
      }
    }
  }

  // ---- The meaning of such regular expressions ----

  datatype Atom = Literal(c: int) | AnyRun

  /** Characters with a meaning of their own in a regular expression. */
  const META: set<int> := {0x28, 0x29, 0x5B, 0x5D, 0x7B, 0x7D, 0x3F, 0x2A, 0x2B, 0x7C, 0x5E, 0x24, 0x5C, 0x2E}

  predicate AsciiAlphanumeric(c: int) { 0x30 <= c <= 0x39 || 0x41 <= c <= 0x5A || 0x61 <= c <= 0x7A }

  datatype Taken = Taken(atom: Atom, length: nat)

  /** The atom a regular expression starts with, if it is a literal, an escaped literal or ".*". */
  function FirstAtom(t: Text): (r: Option<Taken>)
    ensures r.Some? ==> 0 < r.value.length <= |t|
  {
    if |t| >= 2 && t[0] == BACKSLASH && !AsciiAlphanumeric(t[1]) then Some(Taken(Literal(t[1]), 2))
    else if |t| >= 2 && t[0] == DOT && t[1] == STAR then Some(Taken(AnyRun, 2))
    else if t != [] && t[0] !in META then Some(Taken(Literal(t[0]), 1))
    else None
  }

  /** The atoms of a regular expression made of these only; None for any other syntax. */
  function ParseRegex(t: Text): Option<seq<Atom>> {
    if t == [] then Some([])
    else
      match FirstAtom(t)
      case None => None
      case Some(first) =>
        match ParseRegex(t[first.length..])
        case None => None
        case Some(more) => Some([first.atom] + more)
  }

  /** re.fullmatch with DOTALL: a run matches any characters at all. */
  predicate FullMatch(atoms: seq<Atom>, name: Text)
    decreases |atoms| + |name|
  {
    if atoms == [] then name == []
    else match atoms[0]
      case Literal(c) => name != [] && name[0] == c && FullMatch(atoms[1..], name[1..])
      case AnyRun => FullMatch(atoms[1..], name) || (name != [] && FullMatch(atoms, name[1..]))
  }

  function AtomOf(c: int): Atom { if c == STAR then AnyRun else Literal(c) }

  function AtomsOf(p: Text): seq<Atom> { seq(|p|, i requires 0 <= i < |p| => AtomOf(p[i])) }

  /** The generated text is inside the syntax above and means the pattern, character by character. */
  lemma {:induction false} TranslationParses(p: Text)
    ensures ParseRegex(Translate(p)) == Some(AtomsOf(p))
  {
    if p != [] {
      var c, t := p[0], Translate(p);
      TranslationParses(p[1..]);
      assert AtomsOf(p) == [AtomOf(c)] + AtomsOf(p[1..]);
      assert t != [];
      if c == STAR {
        assert t[0] == DOT && t[1] == STAR && t[2..] == Translate(p[1..]);
        assert FirstAtom(t) == Some(Taken(AnyRun, 2));
      } else if c in SPECIAL {
        assert t[0] == BACKSLASH && t[1] == c && t[2..] == Translate(p[1..]);
        assert FirstAtom(t) == Some(Taken(Literal(c), 2));
      } else {
        assert t[0] == c && t[1..] == Translate(p[1..]);
        assert FirstAtom(t) == Some(Taken(Literal(c), 1));
      }
    } else {
      assert AtomsOf(p) == [];
    }
  }

  // ---- What a pattern matches ----

  /** The check's verdict. */
  predicate NameMatches(pattern: Text, branch: Text) {
    var regex := ParseRegex(RegexOf(pattern));
    regex.Some? && FullMatch(regex.value, branch)
  }

  function Stars(p: Text): nat {
    if p == [] then 0 else (if p[0] == STAR then 1 else 0) + Stars(p[1..])
  }

  /** The pattern with its stars replaced, in order, by the given texts. */
  function Filled(p: Text, fills: seq<Text>): Text
    requires |fills| == Stars(p)
  {
    if p == [] then []
    else if p[0] == STAR then fills[0] + Filled(p[1..], fills[1..])
    else [p[0]] + Filled(p[1..], fills)
  }

  ghost predicate Fills(p: Text, fills: seq<Text>, name: Text) { |fills| == Stars(p) && Filled(p, fills) == name }

  lemma {:induction false} MatchFills(p: Text, name: Text) returns (fills: seq<Text>)
    requires FullMatch(AtomsOf(p), name)
    ensures Fills(p, fills, name)
    decreases |p| + |name|
  {
    if p == [] {
      fills := [];
    } else {
      assert AtomsOf(p)[1..] == AtomsOf(p[1..]);
      if p[0] != STAR {
        fills := MatchFills(p[1..], name[1..]);
        assert name == [name[0]] + name[1..];
      } else if FullMatch(AtomsOf(p[1..]), name) {
        var rest := MatchFills(p[1..], name);
        fills := [[]] + rest;
        assert fills[1..] == rest;
      } else {
        var longer := MatchFills(p, name[1..]);
        fills := [[name[0]] + longer[0]] + longer[1..];
        assert fills[1..] == longer[1..];
        assert [name[0]] + longer[0] + Filled(p[1..], longer[1..]) == [name[0]] + (longer[0] + Filled(p[1..], longer[1..]));
        assert name == [name[0]] + name[1..];
      }
    }
  }

  lemma {:induction false} RunAbsorbs(atoms: seq<Atom>, fill: Text, name: Text)
    requires FullMatch(atoms, name)
    ensures FullMatch([AnyRun] + atoms, fill + name)
    decreases |fill|
  {
    assert ([AnyRun] + atoms)[1..] == atoms;
    if fill == [] {
      assert fill + name == name;
    } else {
      RunAbsorbs(atoms, fill[1..], name);
      assert (fill + name)[1..] == fill[1..] + name;
    }
  }

  lemma {:induction false} FillsMatch(p: Text, fills: seq<Text>)
    requires |fills| == Stars(p)
    ensures FullMatch(AtomsOf(p), Filled(p, fills))
  {
    if p != [] {
      assert AtomsOf(p) == [AtomOf(p[0])] + AtomsOf(p[1..]);
      if p[0] == STAR {
        FillsMatch(p[1..], fills[1..]);
        RunAbsorbs(AtomsOf(p[1..]), fills[0], Filled(p[1..], fills[1..]));
      } else {
        FillsMatch(p[1..], fills);
        assert Filled(p, fills)[1..] == Filled(p[1..], fills);
      }
    }
  }

  /** A branch name matches exactly when it is the pattern with each star replaced by some text. */
  lemma MatchesExactly(pattern: Text, branch: Text)
    ensures NameMatches(pattern, branch) <==> exists fills :: Fills(pattern, fills, branch)
  {
    ReplacingIsTranslating(pattern);
    TranslationParses(pattern);
    if NameMatches(pattern, branch) {
      var fills := MatchFills(pattern, branch);
    }
    forall fills | Fills(pattern, fills, branch) ensures NameMatches(pattern, branch) {
      FillsMatch(pattern, fills);
    }
  }

  lemma {:induction false} NoStars(p: Text)
    requires Stars(p) == 0
    ensures Filled(p, []) == p
  {
    if p != [] {
      NoStars(p[1..]);
      assert p == [p[0]] + p[1..];
    }
  }

  /** A pattern without a star matches its own text and nothing else. */
  lemma ExactPattern(pattern: Text, branch: Text)
    requires Stars(pattern) == 0
    ensures NameMatches(pattern, branch) <==> branch == pattern
  {
    MatchesExactly(pattern, branch);
    NoStars(pattern);
    assert Fills(pattern, [], pattern);
    forall fills | Fills(pattern, fills, branch) ensures branch == pattern { assert fills == []; }
  }

  datatype Rule = Rule(name: Text, inherited: Option<bool>)

  function IfMatching(rule: Rule, branch: Text): seq<Rule> { if NameMatches(rule.name, branch) then [rule] else [] }

  /** The rules that apply to the default branch, in the snapshot's order. */
  function MatchingRules(rules: seq<Rule>, branch: Text): seq<Rule> {
    if rules == [] then [] else IfMatching(rules[0], branch) + MatchingRules(rules[1..], branch)
  }

  /** Every matching rule is listed, inherited or not, as often as the snapshot has it; no other is. */
  lemma {:induction false} MatchingRulesExactly(rules: seq<Rule>, branch: Text, rule: Rule)
    ensures multiset(MatchingRules(rules, branch))[rule] == if NameMatches(rule.name, branch) then multiset(rules)[rule] else 0
  {
    if rules != [] {
      MatchingRulesExactly(rules[1..], branch, rule);
      assert rules == [rules[0]] + rules[1..];
    }
  }

  /** The order of the rules is kept. */
  lemma {:induction false} MatchingKeepsOrder(rules: seq<Rule>, more: seq<Rule>, branch: Text)
    ensures MatchingRules(rules + more, branch) == MatchingRules(rules, branch) + MatchingRules(more, branch)
    decreases |rules|
  {
    if rules == [] {
      assert rules + more == more;
    } else {
      MatchingKeepsOrder(rules[1..], more, branch);
      assert (rules + more)[0] == rules[0] && (rules + more)[1..] == rules[1..] + more;
      Associates(IfMatching(rules[0], branch), MatchingRules(rules[1..], branch), MatchingRules(more, branch));
    }
  }
}
