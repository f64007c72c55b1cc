/**
 Worked examples: the grammar from the program's help text, the diagnostics
 of a few malformed inputs, and the effect of a repeated rule. Each text is
 a parameter pinned to one value, so the proofs go through the general
 lemmas about splitting rather than by evaluating the literal.
 */
module Examples {
  import opened Text
  import opened Sorting
  import opened Validator
  import opened Builder

  lemma ArrowRule(rule: string, left: string, right: string)
    requires '-' !in left && '-' !in right
    requires rule == left + "->" + right
    ensures Split(rule, "->") == [left, right]
  {
    SplitOneArrow(left, right);
  }

  lemma RuleAccepted(rule: string, left: char, right: string)
    requires rule == [left] + "->" + right
    requires IsUpper(left) && IsAlpha(right)
    ensures forall issue :: !Triggers(rule, issue)
    ensures RuleFindings(rule) == []
  {
    ArrowRule(rule, [left], right);
    SingleCharIsLowerCase(left);
    NoFindings(rule);
  }

  lemma AnBnSplit(text: string)
    requires text == "S->aSb;S->ab"
    ensures Split(text, ";") == ["S->aSb", "S->ab"]
    ensures Split("S->aSb", "->") == ["S", "aSb"]
    ensures Split("S->ab", "->") == ["S", "ab"]
  {
    var parts := ["S->aSb", "S->ab"];
    assert Join(parts, [';']) == text;
    SplitJoin(parts, ';');
    ArrowRule(parts[0], "S", "aSb");
    ArrowRule(parts[1], "S", "ab");
  }

  /** A text of two rules, each passing every check, is accepted. */
  lemma TwoRulesAccepted(text: string, r1: string, r2: string)
    requires Split(text, ";") == [r1, r2]
    requires forall issue :: !Triggers(r1, issue)
    requires forall issue :: !Triggers(r2, issue)
    ensures CheckCFG(text) == ""
  {
  }

  lemma AnBnRules(text: string) returns (r1: string, r2: string)
    requires text == "S->aSb;S->ab"
    ensures Split(text, ";") == [r1, r2]
    ensures forall issue :: !Triggers(r1, issue)
    ensures forall issue :: !Triggers(r2, issue)
  {
    AnBnSplit(text);
    r1, r2 := "S->aSb", "S->ab";
    AnBnRulePasses(r1);
    AnBnRulePasses(r2);
  }

  lemma AnBnRulePasses(rule: string)
    requires rule == "S->aSb" || rule == "S->ab"
    ensures forall issue :: !Triggers(rule, issue)
  {
    if rule == "S->aSb" {
      RuleAccepted(rule, 'S', "aSb");
    } else {
      RuleAccepted(rule, 'S', "ab");
    }
  }

  /** `S->aSb;S->ab` (a^n b^n), the help text's example, is accepted. */
  lemma AnBnAccepted(text: string)
    requires text == "S->aSb;S->ab"
    ensures CheckCFG(text) == ""
  {
    var r1, r2 := AnBnRules(text);
    TwoRulesAccepted(text, r1, r2);
  }

  lemma RemoveArrow(rule: string, left: string, right: string)
    requires '-' !in left && '-' !in right
    requires rule == left + "->" + right
    ensures Remove(rule, "->") == left + right
  {
    RemoveIsConcatOfSplit(rule, "->");
    SplitOneArrow(left, right);
  }

  /** The stripped text of a two-rule grammar. */
  lemma StripTwo(text: string, r1: string, r2: string, p1: string, p2: string)
    requires Split(text, ";") == [r1, r2]
    requires Remove(r1, "->") == p1 && Remove(r2, "->") == p2
    ensures Strip(text) == p1 + p2
  {
    StripPieces(text);
    var pieces := RemoveEach([r1, r2], "->");
    assert pieces[0] == p1 && pieces[1] == p2;
    assert pieces == [p1, p2];
    JoinPair(p1, p2);
  }

  lemma JoinPair(a: string, b: string)
    ensures Join([a, b], "") == a + b
  {
    assert [a, b][1..] == [b];
    assert a + "" == a;
  }

  lemma AnBnStripped(text: string)
    requires text == "S->aSb;S->ab"
    ensures Strip(text) == "SaSbSab"
  {
    AnBnSplit(text);
    AnBnRemoved("S->aSb", "S->ab");
    StripTwo(text, "S->aSb", "S->ab", "SaSb", "Sab");
    assert "SaSb" + "Sab" == "SaSbSab";
  }

  lemma AnBnRemoved(r1: string, r2: string)
    requires r1 == "S->aSb" && r2 == "S->ab"
    ensures Remove(r1, "->") == "SaSb" && Remove(r2, "->") == "Sab"
  {
    RemoveArrow(r1, "S", "aSb");
    RemoveArrow(r2, "S", "ab");
  }

  /** `S->aSb` sorts before `S->ab` since `S` precedes `b`. */
  lemma AnBnSorted(text: string)
    requires text == "S->aSb;S->ab"
    ensures SortedRules(text) == ["S->aSb", "S->ab"]
  {
    AnBnSplit(text);
    var parts := ["S->aSb", "S->ab"];
    assert parts[0] == "S->a" + "Sb" && parts[1] == "S->a" + "b";
    LexLeCommonPrefix("S->a", "Sb", "b");
    SortedUnique(parts, SortedRules(text));
  }

  /** The lowercase characters of `"S" + lows`, for a string of lowercase letters. */
  lemma LowercaseAfterS(chars: string, lows: string)
    requires chars == "S" + lows
    requires forall i :: 0 <= i < |lows| ==> IsLower(lows[i])
    ensures Lowercase(chars) == lows
  {
    assert chars[1..] == lows;
    AllLowercase(lows);
  }

  lemma {:induction false} AllLowercase(lows: string)
    requires forall i :: 0 <= i < |lows| ==> IsLower(lows[i])
    ensures Lowercase(lows) == lows
    decreases |lows|
  {
    if |lows| != 0 {
      AllLowercase(lows[1..]);
      assert [lows[0]] + lows[1..] == lows;
    }
  }

  lemma AnBnLowercase(chars: string)
    requires chars == "Sab"
    ensures Lowercase(chars) == "ab"
  {
    LowercaseAfterS(chars, "ab");
  }

  lemma AnBnEnumerates(chars: string, stripped: string)
    requires chars == "Sab" && stripped == "SaSbSab"
    ensures Enumerates(chars, stripped)
  {
  }

  lemma AnBnSetup(text: string, chars: string)
    requires text == "S->aSb;S->ab" && chars == "Sab"
    ensures Split(text, ";") == ["S->aSb", "S->ab"]
    ensures Split("S->aSb", "->") == ["S", "aSb"]
    ensures Split("S->ab", "->") == ["S", "ab"]
    ensures Buildable(Split(text, ";")) && Enumerates(chars, Strip(text))
    ensures SortedRules(text) == ["S->aSb", "S->ab"]
    ensures Lowercase(chars) == "ab"
  {
    AnBnSplit(text);
    assert Buildable(Split(text, ";"));
    AnBnStripped(text);
    AnBnEnumerates(chars, Strip(text));
    AnBnSorted(text);
    AnBnLowercase(chars);
  }

  /** Both rules of `S->aSb;S->ab` differ, so each keeps its edge. */
  lemma AnBnLastCopies(text: string, chars: string)
    requires text == "S->aSb;S->ab" && chars == "Sab"
    ensures |SortedRules(text)| == 2
    ensures LastCopy(SortedRules(text), 0) && LastCopy(SortedRules(text), 1)
  {
    AnBnSetup(text, chars);
    var rules := SortedRules(text);
    assert |rules[0]| != |rules[1]|;
  }

  /** The rule edges of a text whose sorted rules are two different rules. */
  lemma TwoRuleEdges(text: string, chars: string, r1: string, r2: string)
    requires Buildable(Split(text, ";")) && Enumerates(chars, Strip(text))
    requires SortedRules(text) == [r1, r2] && r1 != r2
    ensures Buildable([r1, r2])
    ensures var g := CFGtoLambert(text, chars);
            && 0 in g.edges && 1 in g.edges && 0 in g.edgeWeight && 1 in g.edgeWeight
            && g.edges[0] == Tail(Right(r1)) && g.edges[1] == Tail(Right(r2))
            && g.edgeWeight[0] == RuleHead(Left(r1)) && g.edgeWeight[1] == RuleHead(Left(r2))
  {
    RuleEdges(text, chars);
    var rules := SortedRules(text);
    assert LastCopy(rules, 0) && LastCopy(rules, 1);
    assert r1 in rules && r2 in rules;
  }

  /** The rule edges of `S->aSb;S->ab`: numbers 0 and 1 in sorted order. */
  lemma AnBnRuleEdges(text: string, chars: string)
    requires text == "S->aSb;S->ab" && chars == "Sab"
    ensures Buildable(Split(text, ";")) && Enumerates(chars, Strip(text))
    ensures var g := CFGtoLambert(text, chars);
            && 0 in g.edges && 1 in g.edges && 0 in g.edgeWeight && 1 in g.edgeWeight
            && g.edges[0] == [Node('a'), Node('S'), Node('b')] && g.edges[1] == [Node('a'), Node('b')]
            && g.edgeWeight[0] == RuleHead("S") && g.edgeWeight[1] == RuleHead("S")
  {
    AnBnSetup(text, chars);
    TwoRuleEdges(text, chars, "S->aSb", "S->ab");
    TailOfThree("aSb", 'a', 'S', 'b');
    TailOfTwo("ab", 'a', 'b');
  }

  lemma TailOfThree(right: string, c0: char, c1: char, c2: char)
    requires right == [c0, c1, c2]
    ensures Tail(right) == [Node(c0), Node(c1), Node(c2)]
  {
  }

  lemma TailOfTwo(right: string, c0: char, c1: char)
    requires right == [c0, c1]
    ensures Tail(right) == [Node(c0), Node(c1)]
  {
  }

  /** The terminal edges of `S->aSb;S->ab`: numbers 2 for `a` and 3 for `b`. */
  lemma AnBnTerminalEdges(text: string, chars: string)
    requires text == "S->aSb;S->ab" && chars == "Sab"
    ensures Buildable(Split(text, ";")) && Enumerates(chars, Strip(text))
    ensures var g := CFGtoLambert(text, chars);
            && 2 in g.edges && 3 in g.edges && 2 in g.edgeWeight && 3 in g.edgeWeight
            && g.edges[2] == [] && g.edges[3] == []
            && g.edgeWeight[2] == TerminalHead([['a']]) && g.edgeWeight[3] == TerminalHead([['b']])
  {
    AnBnSetup(text, chars);
    TerminalTailAt(text, chars, 2);
    TerminalTailAt(text, chars, 3);
    TerminalHeadAt(text, chars, 2);
    TerminalHeadAt(text, chars, 3);
  }

  /** One node per character, in the order the characters are met. */
  lemma NodesOf(text: string, chars: string, c0: char, c1: char, c2: char)
    requires chars == [c0, c1, c2]
    requires Buildable(Split(text, ";")) && Enumerates(chars, Strip(text))
    ensures CFGtoLambert(text, chars).nodes == [Node(c0), Node(c1), Node(c2)]
  {
  }

  /** With the characters met in the order `S`, `a`, `b`, the grammar becomes
      three nodes and a rule table numbering the rules in sorted order. */
  lemma AnBnNodes(text: string, chars: string)
    requires text == "S->aSb;S->ab" && chars == "Sab"
    ensures Buildable(Split(text, ";")) && Enumerates(chars, Strip(text))
    ensures var g := CFGtoLambert(text, chars);
            && g.nodes == [Node('S'), Node('a'), Node('b')]
            && (forall k :: k in g.rules <==> 0 <= k < 2)
            && g.rules[0] == "S->aSb" && g.rules[1] == "S->ab"
  {
    AnBnSetup(text, chars);
    NodesOf(text, chars, 'S', 'a', 'b');
  }

  /** Two rule edges and two terminal edges, numbered 0 to 3, and no others. */
  lemma AnBnEdgeNumbers(text: string, chars: string)
    requires text == "S->aSb;S->ab" && chars == "Sab"
    ensures Buildable(Split(text, ";")) && Enumerates(chars, Strip(text))
    ensures var g := CFGtoLambert(text, chars);
            && (forall k :: k in g.edges <==> 0 <= k < 4)
            && (forall k :: k in g.edgeWeight <==> 0 <= k < 4)
  {
    AnBnSetup(text, chars);
    AnBnLastCopies(text, chars);
    EdgeNumbering(text, chars);
  }

  lemma SingleRule(text: string)
    requires ';' !in text
    ensures Findings(Split(text, ";")) == RuleFindings(text)
  {
    assert Join([text], [';']) == text;
    SplitJoin([text], ';');
    assert Findings([text]) == RuleFindings(text) + Findings([]);
  }

  /** A rule without an arrow breaks both the arrow and the left-side length checks. */
  lemma NoArrow(text: string)
    requires text == "Sab"
    ensures Issues(text) == [MalformedArrow, LeftNotOneSymbol]
  {
    SingleRule(text);
    NoArrowFindings(text);
    NoteAllDistinct([], [MalformedArrow, LeftNotOneSymbol]);
  }

  lemma NoArrowFindings(rule: string)
    requires rule == "Sab"
    ensures RuleFindings(rule) == [MalformedArrow, LeftNotOneSymbol]
  {
    SplitNoArrow(rule);
  }

  /** A second arrow makes three pieces; the pieces themselves pass the other checks. */
  lemma ExtraArrow(text: string)
    requires text == "S->a->b"
    ensures Issues(text) == [MalformedArrow]
  {
    SingleRule(text);
    ExtraArrowFindings(text);
    NoteAllDistinct([], [MalformedArrow]);
  }

  lemma ExtraArrowFindings(rule: string)
    requires rule == "S->a->b"
    ensures RuleFindings(rule) == [MalformedArrow]
  {
    assert rule == "S" + "->" + ("a" + "->" + "b");
    SplitAtArrow("S", "a" + "->" + "b");
    SplitOneArrow("a", "b");
    SingleCharIsLowerCase('S');
  }

  /** An empty right side is not alphabetic: there is no empty production. */
  lemma EmptyRightSide(text: string)
    requires text == "S->"
    ensures Issues(text) == [NotAlphabetic]
  {
    SingleRule(text);
    EmptyRightFindings(text);
    NoteAllDistinct([], [NotAlphabetic]);
  }

  lemma EmptyRightFindings(rule: string)
    requires rule == "S->"
    ensures RuleFindings(rule) == [NotAlphabetic]
  {
    ArrowRule(rule, "S", "");
    SingleCharIsLowerCase('S');
  }

  /** A lowercase left side is a terminal, not a nonterminal. */
  lemma TerminalOnLeft(text: string)
    requires text == "s->ab"
    ensures Issues(text) == [LeftLowercase]
  {
    SingleRule(text);
    TerminalOnLeftFindings(text);
    NoteAllDistinct([], [LeftLowercase]);
  }

  lemma TerminalOnLeftFindings(rule: string)
    requires rule == "s->ab"
    ensures RuleFindings(rule) == [LeftLowercase]
  {
    ArrowRule(rule, "s", "ab");
    SingleCharIsLowerCase('s');
  }

  /** An empty rule has no arrow, an empty left side and no letters. */
  lemma EmptyRule(rule: string)
    requires rule == ""
    ensures RuleFindings(rule) == [MalformedArrow, LeftNotOneSymbol, NotAlphabetic]
  {
    SplitNoArrow(rule);
  }

  lemma TrailingSplit(text: string)
    requires text == "S->ab;"
    ensures Split(text, ";") == ["S->ab", ""]
  {
    var parts := ["S->ab", ""];
    assert Join(parts, [';']) == text;
    SplitJoin(parts, ';');
  }

  lemma TrailingFindings(text: string)
    requires text == "S->ab;"
    ensures Findings(Split(text, ";")) == [MalformedArrow, LeftNotOneSymbol, NotAlphabetic]
  {
    var parts := ["S->ab", ""];
    TrailingSplit(text);
    RuleAccepted(parts[0], 'S', "ab");
    EmptyRule(parts[1]);
    assert Findings(parts) == RuleFindings(parts[0]) + (RuleFindings(parts[1]) + Findings([]));
  }

  /** A trailing semicolon leaves an empty last rule. */
  lemma TrailingSemicolon(text: string)
    requires text == "S->ab;"
    ensures Issues(text) == [MalformedArrow, LeftNotOneSymbol, NotAlphabetic]
  {
    TrailingFindings(text);
    NoteAllDistinct([], [MalformedArrow, LeftNotOneSymbol, NotAlphabetic]);
  }

  lemma RepeatedSplit(text: string)
    requires text == "S->a;S->a"
    ensures Split(text, ";") == ["S->a", "S->a"]
    ensures Split("S->a", "->") == ["S", "a"]
  {
    var parts := ["S->a", "S->a"];
    assert Join(parts, [';']) == text;
    SplitJoin(parts, ';');
    ArrowRule(parts[0], "S", "a");
  }

  lemma RepeatedStripped(text: string)
    requires text == "S->a;S->a"
    ensures Strip(text) == "SaSa"
    ensures SortedRules(text) == ["S->a", "S->a"]
  {
    RepeatedSplit(text);
    StripPieces(text);
    RemoveIsConcatOfSplit("S->a", "->");
    LexLeReflexive("S->a");
    SortedUnique(["S->a", "S->a"], SortedRules(text));
  }

  /** A grammar that repeats a rule is still accepted. */
  lemma RepeatedAccepted(text: string)
    requires text == "S->a;S->a"
    ensures CheckCFG(text) == ""
  {
    var r := RepeatedRules(text);
    TwoRulesAccepted(text, r, r);
  }

  lemma RepeatedRules(text: string) returns (r: string)
    requires text == "S->a;S->a"
    ensures Split(text, ";") == [r, r]
    ensures forall issue :: !Triggers(r, issue)
  {
    RepeatedSplit(text);
    r := "S->a";
    RuleAccepted(r, 'S', "a");
  }

  lemma RepeatedSetup(text: string, chars: string)
    requires text == "S->a;S->a" && chars == "Sa"
    ensures Buildable(Split(text, ";")) && Enumerates(chars, Strip(text))
    ensures SortedRules(text) == ["S->a", "S->a"]
    ensures Lowercase(chars) == "a"
  {
    RepeatedSplit(text);
    assert Buildable(Split(text, ";"));
    RepeatedStripped(text);
    assert Enumerates(chars, "SaSa");
    LowercaseAfterS(chars, "a");
  }

  /** A text whose sorted rules are two copies of one rule and whose
      characters include one lowercase letter. */
  lemma DuplicatedGraph(text: string, chars: string, r: string)
    requires Buildable(Split(text, ";")) && Enumerates(chars, Strip(text))
    requires SortedRules(text) == [r, r] && |Lowercase(chars)| == 1
    ensures var g := CFGtoLambert(text, chars);
            && (forall k :: k in g.rules <==> 0 <= k < 2)
            && g.rules[0] == r && g.rules[1] == r
            && 0 !in g.edges && 1 in g.edges && 2 in g.edges
  {
    EdgeNumbering(text, chars);
    assert !LastCopy(SortedRules(text), 0);
  }

  /** Two copies of one rule share a dictionary key, so the first copy's
      number is left without an edge. */
  lemma RepeatedRule(text: string, chars: string)
    requires text == "S->a;S->a" && chars == "Sa"
    ensures Buildable(Split(text, ";")) && Enumerates(chars, Strip(text))
    ensures var g := CFGtoLambert(text, chars);
            && (forall k :: k in g.rules <==> 0 <= k < 2)
            && g.rules[0] == "S->a" && g.rules[1] == "S->a"
            && 0 !in g.edges && 1 in g.edges && 2 in g.edges
  {
    RepeatedSetup(text, chars);
    DuplicatedGraph(text, chars, "S->a");
  }
}
