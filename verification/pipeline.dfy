/**
 The main loop's hand-off: a text is converted into a Lambert graph only once
 `checkCFG` returns the empty string. The lemmas here state what that
 acceptance guarantees about the conversion and the graph it builds.
 */
module Pipeline {
  import opened Wrappers
  import opened Text
  import opened Validator
  import opened Builder

  /** Accepted rules all have a right side, so `CFGtoLambert` can read `parts[1]`. */
  lemma AcceptedIsBuildable(text: string)
    requires CheckCFG(text) == ""
    ensures Buildable(Split(text, ";"))
  {
    AcceptedRuleShape(text);
  }

  /** After the loop ends: the graph of the accepted text, or nothing while
      `checkCFG` still objects. */
  function Run(text: string, chars: seq<char>): (r: Option<LambertGraph>)
    requires Enumerates(chars, Strip(text))
    ensures r.Some? <==> forall rule, issue :: rule in Split(text, ";") ==> !Triggers(rule, issue)
    ensures r.Some? ==> Buildable(Split(text, ";")) && r.value == CFGtoLambert(text, chars)
  {
    if CheckCFG(text) == "" then
      AcceptedIsBuildable(text);
      Some(CFGtoLambert(text, chars))
    else
      None
  }

  /** An accepted text consists of letters once arrows and semicolons are gone. */
  lemma AcceptedLetters(text: string)
    requires CheckCFG(text) == ""
    ensures forall c :: c in Strip(text) ==> IsLetter(c)
  {
    AcceptedRuleShape(text);
    forall c | c in Strip(text)
      ensures IsLetter(c)
    {
      var i, k := StripSymbolSource(text, c);
      assert Split(text, ";")[i] in Split(text, ";");
      PieceLetters(Split(text, ";")[i], k, c);
    }
  }

  lemma PieceLetters(rule: string, k: int, c: char)
    requires |Split(rule, "->")| == 2 && |Split(rule, "->")[0]| == 1
    requires IsUpper(Split(rule, "->")[0][0]) && IsAlpha(Split(rule, "->")[1])
    requires 0 <= k < 2 && c in Split(rule, "->")[k]
    ensures IsLetter(c)
  {
    var piece := Split(rule, "->")[k];
    if k == 0 {
      assert piece == [piece[0]];
    }
  }

  /** Every sorted rule of an accepted text has the accepted shape. */
  lemma SortedAccepted(text: string)
    requires CheckCFG(text) == ""
    ensures forall rule :: rule in SortedRules(text) ==>
              |Split(rule, "->")| == 2 && |Left(rule)| == 1
              && IsUpper(Left(rule)[0]) && IsAlpha(Split(rule, "->")[1])
  {
    AcceptedRuleShape(text);
    forall rule | rule in SortedRules(text)
      ensures |Split(rule, "->")| == 2 && |Left(rule)| == 1
      ensures IsUpper(Left(rule)[0]) && IsAlpha(Split(rule, "->")[1])
    {
      assert rule in multiset(SortedRules(text));
    }
  }

  /** The graph of an accepted text: every node names a letter; rule edges
      have a non-empty tail and an uppercase one-letter head; terminal edges
      have an empty tail and a lowercase head; so an edge is a terminal edge
      exactly when its tail is empty. */
  lemma AcceptedGraph(text: string, chars: seq<char>)
    requires CheckCFG(text) == ""
    requires Enumerates(chars, Strip(text))
    ensures Buildable(Split(text, ";"))
    ensures var g := CFGtoLambert(text, chars);
            forall i :: 0 <= i < |g.nodes| ==> g.nodes[i] == Node(chars[i]) && IsLetter(chars[i])
    ensures var g := CFGtoLambert(text, chars); var n := |SortedRules(text)|;
            forall k :: k in g.edges ==>
              && k in g.edgeWeight
              && (g.edges[k] == [] <==> k >= n)
              && (k < n ==> g.edgeWeight[k].RuleHead? && |g.edgeWeight[k].left| == 1
                            && IsUpper(g.edgeWeight[k].left[0]))
              && (k >= n ==> g.edgeWeight[k].TerminalHead? && |g.edgeWeight[k].symbols| == 1
                             && IsLowerCase(g.edgeWeight[k].symbols[0]))
  {
    AcceptedIsBuildable(text);
    AcceptedLetters(text);
    SortedAccepted(text);
    var g := CFGtoLambert(text, chars);
    var rules := SortedRules(text);
    var n := |rules|;
    EdgeNumbering(text, chars);
    RuleEdges(text, chars);
    TerminalEdges(text, chars);
    forall k | k in g.edges
      ensures k in g.edgeWeight
      ensures g.edges[k] == [] <==> k >= n
      ensures k < n ==> g.edgeWeight[k].RuleHead? && |g.edgeWeight[k].left| == 1
                        && IsUpper(g.edgeWeight[k].left[0])
      ensures k >= n ==> g.edgeWeight[k].TerminalHead? && |g.edgeWeight[k].symbols| == 1
                         && IsLowerCase(g.edgeWeight[k].symbols[0])
    {
      if k < n {
        assert rules[k] in rules;
        assert |g.edges[k]| == |Right(rules[k])| > 0;
      } else {
        TerminalHeadAt(text, chars, k);
        var c := Lowercase(chars)[k - n];
        assert c in Lowercase(chars);
        SingleCharIsLowerCase(c);
      }
    }
  }
}
