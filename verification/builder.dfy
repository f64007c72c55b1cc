/**
 The hypergraph builder `CFGtoLambert`. The rule strings are sorted and rule
 `i` of the sorted list becomes hyperedge `i`. Every character of the text
 (arrows and semicolons removed) becomes a node `q_c`. Every lowercase
 character also gets a tail-less hyperedge numbered after the rules. A rule
 `L->R` gets the hyperedge whose ordered tail is the nodes of `R` and whose
 head is `L`.
 */
module Builder {
  import opened Text
  import opened Sorting

  /** The node name of a grammar character. */
  function Node(c: char): string { "q_" + [c] }

  /** `edge_weight` holds the left side (a string) for a rule edge and a
      one-element list holding the character for a terminal edge. */
  datatype Weight = RuleHead(left: string) | TerminalHead(symbols: seq<string>)

  datatype LambertGraph = LambertGraph(
    nodes: seq<string>,                 // one node per distinct character
    edges: map<int, seq<string>>,       // edge number to ordered tail
    edgeWeight: map<int, Weight>,       // edge number to head
    rules: map<int, string>)            // edge number to the rule it came from

  /** The fields of a graph agree with each other: no node is listed twice,
      every edge has a head, every tail entry is a node, an edge carrying a rule
      number is headed by that rule's left side, and every other edge has a
      terminal head. */
  predicate WellFormed(g: LambertGraph) {
    && Distinct(g.nodes)
    && g.edges.Keys == g.edgeWeight.Keys
    && (forall k, p :: k in g.edges && 0 <= p < |g.edges[k]| ==> g.edges[k][p] in g.nodes)
    && (forall k :: k in g.edges && k in g.rules ==> g.edgeWeight[k] == RuleHead(Left(g.rules[k])))
    && (forall k :: k in g.edges && k !in g.rules ==> g.edgeWeight[k].TerminalHead?)
  }

  /** `cfg.replace("->", "").replace(";", "")`: no semicolon is left, and every
      character left comes from the text. */
  function Strip(cfg: string): (chars: string)
    ensures ';' !in chars
    ensures forall c :: c in chars ==> c in cfg
  {
    assert ";" == [';'];
    RemoveCharGone(Remove(cfg, "->"), ';');
    Remove(Remove(cfg, "->"), ";")
  }

  /** Each rule has a right side: reading `parts[1]` fails otherwise. */
  predicate Buildable(rules: seq<string>) {
    forall rule :: rule in rules ==> |Split(rule, "->")| >= 2
  }

  /** `chars` lists the characters of `s` once each, in some order; Python
      leaves the iteration order of `set(s)` unspecified. */
  predicate Enumerates(chars: seq<char>, s: string) {
    Distinct(chars) && forall c :: c in chars <==> c in s
  }

  function Left(rule: string): string {
    Split(rule, "->")[0]
  }

  function Right(rule: string): string
    requires |Split(rule, "->")| >= 2
  {
    Split(rule, "->")[1]
  }

  /** The nodes of `right`, appended one character at a time. */
  function Tail(right: string): (tail: seq<string>)
    ensures |tail| == |right|
    ensures forall p :: 0 <= p < |right| ==> tail[p] == Node(right[p])
    decreases |right|
  {
    if |right| == 0 then [] else [Node(right[0])] + Tail(right[1..])
  }

  /** Whether no later rule repeats rule `i`. */
  predicate LastCopy(rules: seq<string>, i: int)
    requires 0 <= i < |rules|
  {
    forall j :: i < j < |rules| ==> rules[j] != rules[i]
  }

  /** `rndict`: assigning `rndict[rule] = index` in list order leaves each rule
      string with the number of its last occurrence. */
  function NumberRules(rules: seq<string>): (number: map<string, int>)
    ensures forall rule :: rule in number <==> rule in rules
    ensures forall rule :: rule in number ==>
              0 <= number[rule] < |rules| && rules[number[rule]] == rule && LastCopy(rules, number[rule])
    decreases |rules|
  {
    if |rules| == 0 then map[]
    else
      var last := |rules| - 1;
      var front := rules[..last];
      assert rules == front + [rules[last]];
      var earlier := NumberRules(front);
      assert forall rule :: rule in earlier && rule != rules[last] ==> LastCopy(rules, earlier[rule]);
      earlier[rules[last] := last]
  }

  /** The lowercase characters of `chars`, in order. */
  function Lowercase(chars: seq<char>): (lows: seq<char>)
    ensures forall c :: c in lows <==> c in chars && IsLower(c)
    decreases |chars|
  {
    if |chars| == 0 then []
    else if IsLower(chars[0]) then [chars[0]] + Lowercase(chars[1..])
    else Lowercase(chars[1..])
  }

  lemma {:induction false} LowercaseDistinct(chars: seq<char>)
    requires Distinct(chars)
    ensures Distinct(Lowercase(chars))
    decreases |chars|
  {
    if |chars| != 0 {
      LowercaseDistinct(chars[1..]);
      if IsLower(chars[0]) {
        assert chars[0] !in chars[1..];
      }
    }
  }

  /** The state after the pass over the characters. */
  datatype Layout = Layout(nodes: seq<string>, edges: map<int, seq<string>>, edgeWeight: map<int, Weight>, next: int)

  /** The pass over the characters: a node for each, and for each lowercase
      one a tail-less edge numbered from `index` on. */
  function LayTerminals(chars: seq<char>, index: int): (t: Layout)
    ensures |t.nodes| == |chars|
    ensures forall i :: 0 <= i < |chars| ==> t.nodes[i] == Node(chars[i])
    ensures t.next == index + |Lowercase(chars)|
    ensures forall k :: k in t.edges <==> index <= k < t.next
    ensures forall k :: k in t.edgeWeight <==> index <= k < t.next
    ensures forall k :: index <= k < t.next ==> t.edges[k] == [] && t.edgeWeight[k].TerminalHead?
    decreases |chars|
  {
    if |chars| == 0 then Layout([], map[], map[], index)
    else
      var c := chars[0];
      if IsLower(c) then
        var t := LayTerminals(chars[1..], index + 1);
        assert Lowercase(chars) == [c] + Lowercase(chars[1..]);
        Layout([Node(c)] + t.nodes, t.edges[index := []], t.edgeWeight[index := TerminalHead([[c]])], t.next)
      else
        var t := LayTerminals(chars[1..], index);
        Layout([Node(c)] + t.nodes, t.edges, t.edgeWeight, t.next)
  }

  /** Terminal edge `index + j` is headed by the `j`-th lowercase character. */
  lemma {:induction false} TerminalLaid(chars: seq<char>, index: int, k: int)
    requires index <= k < index + |Lowercase(chars)|
    ensures k in LayTerminals(chars, index).edgeWeight
    ensures LayTerminals(chars, index).edgeWeight[k] == TerminalHead([[Lowercase(chars)[k - index]]])
    decreases |chars|
  {
    var c := chars[0];
    var t := LayTerminals(chars, index);
    if !IsLower(c) {
      TerminalLaid(chars[1..], index, k);
      assert t.edgeWeight == LayTerminals(chars[1..], index).edgeWeight;
      assert Lowercase(chars)[k - index] == Lowercase(chars[1..])[k - index];
    } else if k > index {
      TerminalLaid(chars[1..], index + 1, k);
      var u := LayTerminals(chars[1..], index + 1);
      assert t.edgeWeight == u.edgeWeight[index := TerminalHead([[c]])];
      assert Lowercase(chars)[k - index] == Lowercase(chars[1..])[k - (index + 1)];
    } else {
      assert Lowercase(chars)[0] == c;
    }
  }

  /** The pass over the sorted rules from position `i` on: each rule writes
      its right side as the tail and its left side as the head of the edge
      numbered `number[rule]`, which is the position of its last copy. */
  function LayRules(rules: seq<string>, number: map<string, int>, i: nat,
                    edges: map<int, seq<string>>, weights: map<int, Weight>)
    : (r: (map<int, seq<string>>, map<int, Weight>))
    requires i <= |rules|
    requires Buildable(rules)
    requires number == NumberRules(rules)
    ensures forall k :: k in r.0 <==> k in edges || (i <= k < |rules| && LastCopy(rules, k))
    ensures forall k :: k in r.1 <==> k in weights || (i <= k < |rules| && LastCopy(rules, k))
    ensures forall k :: k in edges && !(i <= k < |rules| && LastCopy(rules, k)) ==> r.0[k] == edges[k]
    ensures forall k :: k in weights && !(i <= k < |rules| && LastCopy(rules, k)) ==> r.1[k] == weights[k]
    decreases |rules| - i
  {
    if i == |rules| then (edges, weights)
    else
      var rule := rules[i];
      assert rule in rules;
      var k := number[rule];
      assert i <= k;
      assert LastCopy(rules, i) ==> k == i;
      LayRules(rules, number, i + 1, edges[k := Tail(Right(rule))], weights[k := RuleHead(Left(rule))])
  }

  /** Each last copy of a rule from position `i` on ends up with its own tail and head. */
  lemma {:induction false} LayRulesWrites(rules: seq<string>, number: map<string, int>, i: nat,
                                          edges: map<int, seq<string>>, weights: map<int, Weight>)
    requires i <= |rules|
    requires Buildable(rules)
    requires number == NumberRules(rules)
    ensures var r := LayRules(rules, number, i, edges, weights);
            forall k :: i <= k < |rules| && LastCopy(rules, k) ==>
              r.0[k] == Tail(Right(rules[k])) && r.1[k] == RuleHead(Left(rules[k]))
    decreases |rules| - i
  {
    if i < |rules| {
      var rule := rules[i];
      assert rule in rules;
      var m := number[rule];
      var edges' := edges[m := Tail(Right(rule))];
      var weights' := weights[m := RuleHead(Left(rule))];
      LayRulesWrites(rules, number, i + 1, edges', weights');
      var r := LayRules(rules, number, i, edges, weights);
      assert r == LayRules(rules, number, i + 1, edges', weights');
      forall k | i <= k < |rules| && LastCopy(rules, k)
        ensures r.0[k] == Tail(Right(rules[k])) && r.1[k] == RuleHead(Left(rules[k]))
      {
        if k == i {
          assert m == i;
          assert k in edges' && k in weights';
        }
      }
    }
  }

  /** `rules = cfg.split(";"); rules.sort()` */
  function SortedRules(cfg: string): (rules: seq<string>)
    ensures Sorted(rules)
    ensures multiset(rules) == multiset(Split(cfg, ";"))
  {
    Sort(Split(cfg, ";"))
  }

  lemma SortedBuildable(cfg: string)
    requires Buildable(Split(cfg, ";"))
    ensures Buildable(SortedRules(cfg))
  {
    forall rule | rule in SortedRules(cfg)
      ensures |Split(rule, "->")| >= 2
    {
      assert rule in multiset(SortedRules(cfg));
    }
  }

  /** `CFGtoLambert(cfg)`, with `chars` the order in which the set of characters
      is visited. */
  function CFGtoLambert(cfg: string, chars: seq<char>): (g: LambertGraph)
    requires Buildable(Split(cfg, ";"))
    requires Enumerates(chars, Strip(cfg))
    ensures |g.nodes| == |chars|
    ensures forall i :: 0 <= i < |chars| ==> g.nodes[i] == Node(chars[i])
    ensures forall i :: i in g.rules <==> 0 <= i < |SortedRules(cfg)|
    ensures forall i :: 0 <= i < |SortedRules(cfg)| ==> g.rules[i] == SortedRules(cfg)[i]
  {
    var rules := SortedRules(cfg);
    SortedBuildable(cfg);
    var number := NumberRules(rules);
    var t := LayTerminals(chars, |rules|);
    var (edges, weights) := LayRules(rules, number, 0, t.edges, t.edgeWeight);
    LambertGraph(t.nodes, edges, weights, map i | 0 <= i < |rules| :: rules[i])
  }

  /** The two passes `CFGtoLambert` makes, spelled out. */
  lemma Passes(cfg: string, chars: seq<char>)
    requires Buildable(Split(cfg, ";"))
    requires Enumerates(chars, Strip(cfg))
    ensures Buildable(SortedRules(cfg))
    ensures var rules := SortedRules(cfg);
            var t := LayTerminals(chars, |rules|);
            var r := LayRules(rules, NumberRules(rules), 0, t.edges, t.edgeWeight);
            CFGtoLambert(cfg, chars).edges == r.0 && CFGtoLambert(cfg, chars).edgeWeight == r.1
  {
    SortedBuildable(cfg);
  }

  /** Rule edges take the numbers below the rule count, terminal edges the next
      `|Lowercase(chars)|` numbers; a rule number has an edge exactly when no
      later rule repeats that rule. */
  lemma EdgeNumbering(cfg: string, chars: seq<char>)
    requires Buildable(Split(cfg, ";"))
    requires Enumerates(chars, Strip(cfg))
    ensures var g := CFGtoLambert(cfg, chars);
            forall k :: k in g.edges <==> k in g.edgeWeight
    ensures var g := CFGtoLambert(cfg, chars);
            forall k :: k in g.edges ==> 0 <= k < |SortedRules(cfg)| + |Lowercase(chars)|
    ensures var g := CFGtoLambert(cfg, chars);
            forall k :: |SortedRules(cfg)| <= k < |SortedRules(cfg)| + |Lowercase(chars)| ==> k in g.edges
    ensures var g := CFGtoLambert(cfg, chars); var rules := SortedRules(cfg);
            forall i :: 0 <= i < |rules| ==> (i in g.edges <==> LastCopy(rules, i))
  {
    Passes(cfg, chars);
  }

  /** The edge of rule `L->R` has the nodes of `R`, in order, as its tail and
      `L` as its head. */
  lemma RuleEdges(cfg: string, chars: seq<char>)
    requires Buildable(Split(cfg, ";"))
    requires Enumerates(chars, Strip(cfg))
    ensures Buildable(SortedRules(cfg))
    ensures var g := CFGtoLambert(cfg, chars); var rules := SortedRules(cfg);
            forall i :: 0 <= i < |rules| && LastCopy(rules, i) ==>
              && i in g.edges && i in g.edgeWeight
              && |g.edges[i]| == |Right(rules[i])|
              && (forall p :: 0 <= p < |Right(rules[i])| ==> g.edges[i][p] == Node(Right(rules[i])[p]))
              && g.edgeWeight[i] == RuleHead(Left(rules[i]))
  {
    Passes(cfg, chars);
    var rules := SortedRules(cfg);
    var t := LayTerminals(chars, |rules|);
    LayRulesWrites(rules, NumberRules(rules), 0, t.edges, t.edgeWeight);
  }

  /** The numbers from the rule count on are terminal edges: each has an
      empty tail and a terminal head (`TerminalHeadAt` names the character). */
  lemma TerminalEdges(cfg: string, chars: seq<char>)
    requires Buildable(Split(cfg, ";"))
    requires Enumerates(chars, Strip(cfg))
    ensures var g := CFGtoLambert(cfg, chars); var n := |SortedRules(cfg)|;
            forall k :: n <= k < n + |Lowercase(chars)| ==>
              && k in g.edges && g.edges[k] == []
              && k in g.edgeWeight && g.edgeWeight[k].TerminalHead?
  {
    var g := CFGtoLambert(cfg, chars);
    var n := |SortedRules(cfg)|;
    forall k | n <= k < n + |Lowercase(chars)|
      ensures k in g.edges && g.edges[k] == []
      ensures k in g.edgeWeight && g.edgeWeight[k].TerminalHead?
    {
      TerminalTailAt(cfg, chars, k);
      TerminalHeadAt(cfg, chars, k);
    }
  }

  lemma TerminalTailAt(cfg: string, chars: seq<char>, k: int)
    requires Buildable(Split(cfg, ";"))
    requires Enumerates(chars, Strip(cfg))
    requires |SortedRules(cfg)| <= k < |SortedRules(cfg)| + |Lowercase(chars)|
    ensures var g := CFGtoLambert(cfg, chars); k in g.edges && g.edges[k] == []
  {
    var rules := SortedRules(cfg);
    SortedBuildable(cfg);
    var t := LayTerminals(chars, |rules|);
    var r := LayRules(rules, NumberRules(rules), 0, t.edges, t.edgeWeight);
    TerminalKept(rules, chars, k);
    assert CFGtoLambert(cfg, chars).edges == r.0;
  }

  /** Terminal edge `|rules| + j` has the `j`-th lowercase character as head. */
  lemma TerminalHeadAt(cfg: string, chars: seq<char>, k: int)
    requires Buildable(Split(cfg, ";"))
    requires Enumerates(chars, Strip(cfg))
    requires |SortedRules(cfg)| <= k < |SortedRules(cfg)| + |Lowercase(chars)|
    ensures var g := CFGtoLambert(cfg, chars);
            k in g.edgeWeight && g.edgeWeight[k] == TerminalHead([[Lowercase(chars)[k - |SortedRules(cfg)|]]])
  {
    var rules := SortedRules(cfg);
    SortedBuildable(cfg);
    var t := LayTerminals(chars, |rules|);
    var r := LayRules(rules, NumberRules(rules), 0, t.edges, t.edgeWeight);
    TerminalKept(rules, chars, k);
    var c := Lowercase(chars)[k - |rules|];
    assert r.1[k] == TerminalHead([[c]]);
    assert CFGtoLambert(cfg, chars).edgeWeight == r.1;
  }

  lemma TerminalKept(rules: seq<string>, chars: seq<char>, k: int)
    requires Buildable(rules)
    requires |rules| <= k < |rules| + |Lowercase(chars)|
    ensures var t := LayTerminals(chars, |rules|);
            var r := LayRules(rules, NumberRules(rules), 0, t.edges, t.edgeWeight);
            k in r.0 && k in r.1 && r.0[k] == [] && r.1[k] == TerminalHead([[Lowercase(chars)[k - |rules|]]])
  {
    var t := LayTerminals(chars, |rules|);
    var edges := t.edges;
    var weights := t.edgeWeight;
    TerminalLaid(chars, |rules|, k);
    RulePassKeeps(rules, edges, weights, k);
  }

  /** The rule pass does not touch numbers at or past the rule count. */
  lemma RulePassKeeps(rules: seq<string>, edges: map<int, seq<string>>, weights: map<int, Weight>, k: int)
    requires Buildable(rules)
    requires |rules| <= k && k in edges && k in weights
    ensures var r := LayRules(rules, NumberRules(rules), 0, edges, weights);
            k in r.0 && k in r.1 && r.0[k] == edges[k] && r.1[k] == weights[k]
  {
  }

  /** `[0, 1, ..., n - 1]` */
  function Iota(n: nat): (s: seq<int>)
    ensures |s| == n
    ensures forall i :: 0 <= i < n ==> s[i] == i
    ensures forall k :: k in s <==> 0 <= k < n
  {
    if n == 0 then [] else Iota(n - 1) + [n - 1]
  }

  /** A map whose keys are exactly `0 .. n - 1` has `n` entries. */
  lemma RangeKeys<V>(m: map<int, V>, n: nat)
    requires forall k :: k in m <==> 0 <= k < n
    ensures |m| == n
  {
    var s := Iota(n);
    assert m.Keys == set k | k in s;
    DistinctCard(s);
  }

  /** With pairwise different rule strings, the edges are numbered 0 to
      `R + T - 1` without gaps, where `R` is the number of rules and `T` the
      number of distinct lowercase characters. */
  lemma EdgesContiguous(cfg: string, chars: seq<char>)
    requires Buildable(Split(cfg, ";"))
    requires Enumerates(chars, Strip(cfg))
    requires Distinct(Split(cfg, ";"))
    ensures var g := CFGtoLambert(cfg, chars);
            var n := |Split(cfg, ";")| + |set c | c in Strip(cfg) && IsLower(c)|;
            && (forall k :: k in g.edges <==> 0 <= k < n)
            && (forall k :: k in g.edgeWeight <==> 0 <= k < n)
            && |g.edges| == n
  {
    var g := CFGtoLambert(cfg, chars);
    var rules := SortedRules(cfg);
    assert |rules| == |Split(cfg, ";")| by {
      assert |rules| == |multiset(rules)| == |multiset(Split(cfg, ";"))|;
    }
    DistinctPermutation(Split(cfg, ";"), rules);
    TerminalCount(cfg, chars);
    var n := |rules| + |Lowercase(chars)|;
    KeysContiguous(cfg, chars);
    RangeKeys(g.edges, |rules| + |Lowercase(chars)|);
  }

  lemma KeysContiguous(cfg: string, chars: seq<char>)
    requires Buildable(Split(cfg, ";"))
    requires Enumerates(chars, Strip(cfg))
    requires Distinct(SortedRules(cfg))
    ensures var g := CFGtoLambert(cfg, chars);
            var n := |SortedRules(cfg)| + |Lowercase(chars)|;
            && (forall k :: k in g.edges <==> 0 <= k < n)
            && (forall k :: k in g.edgeWeight <==> 0 <= k < n)
  {
    EdgeNumbering(cfg, chars);
  }

  /** The number of terminal edges is the number of distinct lowercase characters. */
  lemma TerminalCount(cfg: string, chars: seq<char>)
    requires Enumerates(chars, Strip(cfg))
    ensures |Lowercase(chars)| == |set c | c in Strip(cfg) && IsLower(c)|
  {
    LowercaseDistinct(chars);
    DistinctCard(Lowercase(chars));
    assert (set c | c in Lowercase(chars)) == set c | c in Strip(cfg) && IsLower(c);
  }

  /** The nodes are the characters of the stripped text, one node each. */
  lemma NodesMatchAlphabet(cfg: string, chars: seq<char>)
    requires Buildable(Split(cfg, ";"))
    requires Enumerates(chars, Strip(cfg))
    ensures var g := CFGtoLambert(cfg, chars);
            && Distinct(g.nodes)
            && (forall c :: Node(c) in g.nodes <==> c in Strip(cfg))
            && (forall q :: q in g.nodes ==> exists c :: c in Strip(cfg) && q == Node(c))
            && |g.nodes| == |set c | c in Strip(cfg)|
  {
    NamedNodes(CFGtoLambert(cfg, chars).nodes, chars, Strip(cfg));
  }

  /** Naming each character of an enumeration of `s` gives one node per
      character of `s`. */
  lemma NamedNodes(nodes: seq<string>, chars: seq<char>, s: string)
    requires Enumerates(chars, s)
    requires |nodes| == |chars|
    requires forall i :: 0 <= i < |chars| ==> nodes[i] == Node(chars[i])
    ensures Distinct(nodes)
    ensures forall c :: Node(c) in nodes <==> c in s
    ensures forall q :: q in nodes ==> exists c :: c in s && q == Node(c)
    ensures |nodes| == |set c | c in s|
  {
    forall i, j | 0 <= i < j < |nodes|
      ensures nodes[i] != nodes[j]
    {
      NodeInjective(chars[i], chars[j]);
    }
    forall c
      ensures Node(c) in nodes <==> c in s
    {
      if Node(c) in nodes {
        var i :| 0 <= i < |nodes| && nodes[i] == Node(c);
        NodeInjective(chars[i], c);
      }
      if c in s {
        var i :| 0 <= i < |chars| && chars[i] == c;
        assert nodes[i] == Node(c);
      }
    }
    forall q | q in nodes
      ensures exists c :: c in s && q == Node(c)
    {
      var i :| 0 <= i < |nodes| && nodes[i] == q;
      assert chars[i] in s && q == Node(chars[i]);
    }
    DistinctCard(chars);
    assert (set c | c in chars) == set c | c in s;
  }

  lemma NodeInjective(c: char, d: char)
    ensures Node(c) == Node(d) <==> c == d
  {
    if Node(c) == Node(d) {
      assert Node(c)[2] == c && Node(d)[2] == d;
    }
  }

  /** The stripped text is the arrow-free rules glued together. */
  lemma StripPieces(cfg: string)
    ensures Strip(cfg) == Join(RemoveEach(Split(cfg, ";"), "->"), "")
  {
    var parts := Split(cfg, ";");
    assert ";" == [';'];
    JoinSplit(cfg, ";");
    RemoveJoin(parts, ';', "->");
    var pieces := RemoveEach(parts, "->");
    SplitPartsAvoid(cfg, ';');
    forall q | q in pieces
      ensures ';' !in q
    {
      var j :| 0 <= j < |pieces| && pieces[j] == q;
      assert parts[j] in parts;
    }
    SplitJoin(pieces, ';');
    RemoveIsConcatOfSplit(Join(pieces, ";"), ";");
  }

  /** Every character of every `->`-piece of every rule survives the stripping
      of arrows and semicolons. */
  lemma StripKeepsRuleSymbols(cfg: string, i: int, k: int, c: char)
    requires 0 <= i < |Split(cfg, ";")|
    requires 0 <= k < |Split(Split(cfg, ";")[i], "->")|
    requires c in Split(Split(cfg, ";")[i], "->")[k]
    ensures c in Strip(cfg)
  {
    var parts := Split(cfg, ";");
    StripPieces(cfg);
    RemoveIsConcatOfSplit(parts[i], "->");
    InJoin(Split(parts[i], "->"), "", k, c);
    InJoin(RemoveEach(parts, "->"), "", i, c);
  }

  /** Conversely, every character of the stripped text comes from some
      `->`-piece of some rule. */
  lemma StripSymbolSource(cfg: string, c: char) returns (i: int, k: int)
    requires c in Strip(cfg)
    ensures 0 <= i < |Split(cfg, ";")|
    ensures 0 <= k < |Split(Split(cfg, ";")[i], "->")|
    ensures c in Split(Split(cfg, ";")[i], "->")[k]
  {
    var parts := Split(cfg, ";");
    StripPieces(cfg);
    i := FromJoin(RemoveEach(parts, "->"), c);
    RemoveIsConcatOfSplit(parts[i], "->");
    k := FromJoin(Split(parts[i], "->"), c);
  }

  /** Every tail entry of every edge names a node of the graph. */
  lemma TailsNameNodes(cfg: string, chars: seq<char>)
    requires Buildable(Split(cfg, ";"))
    requires Enumerates(chars, Strip(cfg))
    ensures var g := CFGtoLambert(cfg, chars);
            forall k, p :: k in g.edges && 0 <= p < |g.edges[k]| ==> g.edges[k][p] in g.nodes
  {
    var g := CFGtoLambert(cfg, chars);
    var rules := SortedRules(cfg);
    EdgeNumbering(cfg, chars);
    RuleEdges(cfg, chars);
    TerminalEdges(cfg, chars);
    forall k, p | k in g.edges && 0 <= p < |g.edges[k]|
      ensures g.edges[k][p] in g.nodes
    {
      if k < |rules| {
        var rule := rules[k];
        var c := Right(rule)[p];
        assert g.edges[k][p] == Node(c);
        assert rule in multiset(Split(cfg, ";"));
        var j :| 0 <= j < |Split(cfg, ";")| && Split(cfg, ";")[j] == rule;
        StripKeepsRuleSymbols(cfg, j, 1, c);
        var q :| 0 <= q < |chars| && chars[q] == c;
        assert g.nodes[q] == Node(c);
      }
    }
  }

  /** The graph `CFGtoLambert` returns is well formed. */
  lemma BuiltGraphWellFormed(cfg: string, chars: seq<char>)
    requires Buildable(Split(cfg, ";"))
    requires Enumerates(chars, Strip(cfg))
    ensures WellFormed(CFGtoLambert(cfg, chars))
  {
    NodesMatchAlphabet(cfg, chars);
    BuiltKeys(cfg, chars);
    TailsNameNodes(cfg, chars);
    BuiltRuleHeads(cfg, chars);
    BuiltTerminalHeads(cfg, chars);
  }

  lemma BuiltKeys(cfg: string, chars: seq<char>)
    requires Buildable(Split(cfg, ";"))
    requires Enumerates(chars, Strip(cfg))
    ensures var g := CFGtoLambert(cfg, chars); g.edges.Keys == g.edgeWeight.Keys
  {
    EdgeNumbering(cfg, chars);
  }

  /** An edge carrying a rule number is headed by that rule's left side. */
  lemma BuiltRuleHeads(cfg: string, chars: seq<char>)
    requires Buildable(Split(cfg, ";"))
    requires Enumerates(chars, Strip(cfg))
    ensures var g := CFGtoLambert(cfg, chars);
            forall k :: k in g.edges && k in g.rules ==>
              k in g.edgeWeight && g.edgeWeight[k] == RuleHead(Left(g.rules[k]))
  {
    var g := CFGtoLambert(cfg, chars);
    var rules := SortedRules(cfg);
    EdgeNumbering(cfg, chars);
    RuleEdges(cfg, chars);
    forall k | k in g.edges && k in g.rules
      ensures k in g.edgeWeight && g.edgeWeight[k] == RuleHead(Left(g.rules[k]))
    {
      assert 0 <= k < |rules| && g.rules[k] == rules[k];
      assert LastCopy(rules, k);
    }
  }

  /** An edge without a rule number has a terminal head. */
  lemma BuiltTerminalHeads(cfg: string, chars: seq<char>)
    requires Buildable(Split(cfg, ";"))
    requires Enumerates(chars, Strip(cfg))
    ensures var g := CFGtoLambert(cfg, chars);
            forall k :: k in g.edges && k !in g.rules ==> k in g.edgeWeight && g.edgeWeight[k].TerminalHead?
  {
    var g := CFGtoLambert(cfg, chars);
    EdgeNumbering(cfg, chars);
    TerminalEdges(cfg, chars);
  }
}
