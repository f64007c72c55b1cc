# cfg-to-lambert in Dafny

This project models the two pure functions of `cfg-to-lambert.py`, a program that
reads a context-free rewrite grammar such as `S->aSb;S->ab` and builds a
*Lambert graph* from it: a directed hypergraph whose hyperedges have an ordered
tail.

* `checkCFG` validates the grammar text. It splits the text on `;` and then each
  rule on `->`, and runs four checks on each rule:
  1. the split has exactly two parts;
  2. the left side is one character;
  3. the left side is not lowercase;
  4. both sides are alphabetic.

  Each failing check records its issue code once, in first-detection order.
  The function answers `""` when no code was recorded. Otherwise it answers the
  explanation of each code, in that order, followed by the prompt
  "You may type 'help' …". Module `Validator` models it.
* `CFGtoLambert` builds the graph (module `Builder`). It sorts the rule strings
  and numbers them 0, 1, ….
  - It makes one node `q_c` for each distinct character left after deleting
    `->` and `;`.
  - Each lowercase character gets a terminal edge. Its number continues after
    the rule numbers, its tail is empty and its head is `[c]`.
  - Each rule `L->R` gets the edge of its number. The tail is `q_c` for each
    `c` of `R`, in order, and the head is `L`.
  - The `LambertGraph` record keeps `nodes`, `edges`, `edge_weight` and the rule
    table `rules`.

The supporting modules are:

* `Text` models Python's `str.split`, `str.join` and `str.replace`. Splitting
  and deletion are leftmost, non-overlapping scans. The module also has ASCII
  `isalpha` and `islower`, and the lemmas connecting these operations.
* `Sorting` models `list.sort()` on strings: Python's lexicographic string order
  and an insertion sort. It proves that any ordered rearrangement of the same
  strings is the same list, so the numbering does not depend on the sorting
  algorithm.
* `Wrappers` holds the `Option` type that the message parser and `Pipeline.Run`
  return.
* `Pipeline` covers the main loop's hand-off: a text is converted only after
  `checkCFG` returns `""`. It states what acceptance guarantees about the
  graph.
* `Examples` holds worked examples. They cover the help text's grammar
  `S->aSb;S->ab` and the diagnostics of `Sab`, `S->a->b`, `S->`, `s->ab` and
  `S->ab;`. They also show that a repeated rule leaves a rule number without an
  edge.

Choices in the model:

* **Set iteration order.** `"".join(set(chars))` visits characters in an order
  Python leaves unspecified. `CFGtoLambert` therefore takes that order as a
  parameter `chars`, and `Enumerates(chars, Strip(cfg))` requires it to list
  each character of the stripped text exactly once. Every property holds for
  every such order.
* **Repeated rules.** `rndict[rule] = index` keeps the last number of a
  repeated rule string, so the earlier copies' numbers get no edge. They still
  appear in the rule table. The model does the same: number `i` has an edge
  exactly when `LastCopy(rules, i)` holds. Numbering without gaps is proved for
  grammars without repeated rules.
* **`parts[1]`.** `CFGtoLambert` reads `parts[1]` and raises `IndexError` for a
  rule without `->`. The model turns this into the precondition `Buildable`.
  `Pipeline.AcceptedIsBuildable` shows that every text `checkCFG` accepts meets
  it.
* **Mixed-type heads.** `edge_weight` holds a string for rule edges and a
  one-element list for terminal edges. The model uses the datatype
  `Weight = RuleHead(left) | TerminalHead(symbols)`.
* **The message.** The message is modelled as the exact strings of the source.
  `Validator.ParseMessage` reads the issue list back from a message.
  `Validator.RenderParse` and `Validator.ParseRender` show that messages and
  issue lists correspond one to one.
* **Empty right sides.** There is no empty production: an empty right side
  fails the alphabetic check (`Examples.EmptyRightSide`).

## Model

| member | source | states |
|---|---|---|
| Text.JoinSplit | cfg-to-lambert.py:34-36 | Joining the pieces of a split with the separator gives the text back, so splitting loses nothing but separators |
| Text.SplitAvoidsSeparator | cfg-to-lambert.py:34-36 | No piece of `s.split(sep)` contains `sep`, so with `Text.JoinSplit` the pieces are the text cut at its separators |
| Text.SplitPartsAvoid | cfg-to-lambert.py:34 | No piece of a split on `;` contains `;` |
| Text.SplitJoin | cfg-to-lambert.py:77 | Splitting the `;`-join of `;`-free pieces gives exactly those pieces back |
| Text.RemoveIsConcatOfSplit | cfg-to-lambert.py:80-81 | `s.replace(sep, "")` is the concatenation of the pieces of `s.split(sep)` |
| Text.RemoveJoin | cfg-to-lambert.py:80-81 | Deleting arrows from `;`-joined rules deletes them rule by rule: no arrow spans a semicolon |
| Text.RemoveCharGone | cfg-to-lambert.py:81 | `replace(";", "")` leaves no `;` in the text |
| Text.SplitAtArrow | cfg-to-lambert.py:36 | A rule whose text before its first arrow has no `-` splits at that arrow |
| Sorting.LexLeTotal | cfg-to-lambert.py:78 | Python's string order compares every pair of strings |
| Sorting.LexLeAntisymmetric | cfg-to-lambert.py:78 | Two strings that are each at most the other are equal |
| Sorting.LexLeTransitive | cfg-to-lambert.py:78 | The string order is transitive |
| Sorting.LexLeCommonPrefix | cfg-to-lambert.py:78 | A common prefix does not change how two strings compare |
| Sorting.Insert | cfg-to-lambert.py:78 | Inserting into an ordered list keeps it ordered and adds exactly the inserted string |
| Sorting.Sort | cfg-to-lambert.py:78 | `rules.sort()` leaves the rules ordered and is a rearrangement: the same strings with the same multiplicities |
| Sorting.SortedUnique | cfg-to-lambert.py:78 | Two ordered rearrangements of the same strings are equal, so rule numbers do not depend on the sorting algorithm |
| Validator.RuleFindings | cfg-to-lambert.py:36-52 | An issue is among one rule's findings exactly when the rule fails that issue's check |
| Validator.Findings | cfg-to-lambert.py:35-52 | Every failure of every rule is found, and every finding is the failure of some rule |
| Validator.NoIssuesIffNoFailures | cfg-to-lambert.py:33-54 | The issue list is empty exactly when no rule fails any check |
| Validator.NoFindings | cfg-to-lambert.py:36-52 | One rule records no code exactly when it passes all four checks |
| Validator.LeftSideAccepted | cfg-to-lambert.py:40-48 | The one-symbol, `islower` and `isalpha` checks together accept a left side exactly when it is one uppercase letter |
| Validator.NoteRecordsOnce | cfg-to-lambert.py:38-39 | Noting a code records it, keeps the earlier codes in place, adds nothing else, changes nothing when the code is already there, and never records a code twice |
| Validator.NoteAll | cfg-to-lambert.py:35-52 | Recording the findings in turn keeps the codes recorded before in place and never records a code twice |
| Validator.Issues | cfg-to-lambert.py:33-52 | The accumulated list has no repeats and holds exactly the codes of the checks some rule fails |
| Validator.NoteAllDistinct | cfg-to-lambert.py:37-52 | Recording codes that are all new and distinct appends them all, in order |
| Validator.IssuesInDetectionOrder | cfg-to-lambert.py:37-52 | Recording issues `if code not in issues` keeps each code once, keeps exactly the codes found, and orders them by first detection |
| Validator.CheckCFGReports | cfg-to-lambert.py:33-52 | The issues of a text have no repeats, include the code of every failed check of every rule, include only codes some rule fails, and follow first-detection order |
| Validator.CheckCFG | cfg-to-lambert.py:31-66 | The answer is `""` exactly when every rule passes every check; any other answer ends with the prompt and reads back as exactly the recorded issue list |
| Validator.MismatchDistinguishes | cfg-to-lambert.py:58-66 | Each explanation differs, at a named position, from every other explanation and from the closing prompt |
| Validator.RenderParse | cfg-to-lambert.py:56-66 | Reading a rendered message back gives the issue list it was rendered from, so the message determines the issues |
| Validator.ParseRender | cfg-to-lambert.py:56-66 | A message that reads back as an issue list is that list's rendering, so with `Validator.RenderParse` messages and issue lists correspond one to one |
| Validator.Render | cfg-to-lambert.py:56-66 | Every message ends with the fixed "You may type 'help' …" prompt |
| Validator.AcceptedRuleShape | cfg-to-lambert.py:36-52 | In an accepted text every rule is `L->R` with one uppercase letter `L` and a non-empty alphabetic `R` |
| Builder.NumberRules | cfg-to-lambert.py:84-89 | `rndict` holds every rule and only rules, and maps each rule to the position of its last copy in the sorted list |
| Builder.Lowercase | cfg-to-lambert.py:97 | The characters that get a terminal edge are exactly the lowercase ones of the set |
| Builder.LowercaseDistinct | cfg-to-lambert.py:94-100 | No character gets two terminal edges |
| Text.SingleCharIsLowerCase | cfg-to-lambert.py:97 | For one character, `islower` holds exactly when it is a lowercase letter |
| Builder.LayTerminals | cfg-to-lambert.py:94-100 | One node `q_c` per character in visiting order; terminal edges take consecutive numbers from the rule count on, with empty tails and terminal heads |
| Builder.TerminalLaid | cfg-to-lambert.py:97-100 | The terminal edge numbered `j` places after the rule count is headed by `[c]` for the `j`-th lowercase character `c` in visiting order |
| Builder.LayRules | cfg-to-lambert.py:101-108 | The rule pass adds an edge and a head exactly for the numbers of last copies, and changes no other entry |
| Builder.LayRulesWrites | cfg-to-lambert.py:101-108 | The rule pass writes each last copy's right side as the tail and its left side as the head |
| Builder.SortedRules | cfg-to-lambert.py:77-78 | The rule list is ordered and holds the `;`-pieces of the text with their multiplicities |
| Builder.SortedBuildable | cfg-to-lambert.py:78-104 | Sorting keeps every rule readable at `parts[1]` |
| Builder.CFGtoLambert | cfg-to-lambert.py:75-109 | The nodes are `q_c` for the characters in visiting order; the rule table maps exactly the numbers `0..R-1` to the sorted rules |
| Builder.EdgeNumbering | cfg-to-lambert.py:83-108 | `edges` and `edge_weight` have the same keys; every key is below `R + T`; all terminal numbers are present; a rule number is present exactly when it is a last copy |
| Builder.RuleEdges | cfg-to-lambert.py:101-108 | The edge of rule `L->R` has tail `q_c` for each `c` of `R`, in order, and head `L` |
| Builder.Tail | cfg-to-lambert.py:105-108 | The tail has one entry per right-side character: the node of the character at the same position |
| Builder.TerminalEdges | cfg-to-lambert.py:94-100 | Every number from `R` to `R + T - 1` is an edge with an empty tail and a terminal head |
| Builder.TerminalTailAt | cfg-to-lambert.py:97-98 | In the finished graph, terminal edge `R + j` has an empty tail: the rule pass does not overwrite it |
| Builder.TerminalHeadAt | cfg-to-lambert.py:97-100 | In the finished graph, terminal edge `R + j` has head `[c]` for the `j`-th lowercase character `c` |
| Builder.EdgesContiguous | cfg-to-lambert.py:83-108 | Without repeated rules the edge numbers are exactly `0..R+T-1` and there are `R + T` edges, where `T` counts the distinct lowercase characters |
| Builder.TerminalCount | cfg-to-lambert.py:94-100 | The number of terminal edges is the number of distinct lowercase characters of the stripped text |
| Builder.NodesMatchAlphabet | cfg-to-lambert.py:80-95 | The nodes have no repeats, `q_c` is a node exactly when `c` occurs in the stripped text, and there is one node per distinct character |
| Builder.NodeInjective | cfg-to-lambert.py:95 | Different characters give different node names |
| Builder.StripPieces | cfg-to-lambert.py:77-81 | The stripped text is the rules, each without its arrows, concatenated |
| Builder.Strip | cfg-to-lambert.py:80-81 | The stripped text holds no `;` and only characters of the grammar text |
| Builder.StripKeepsRuleSymbols | cfg-to-lambert.py:80-81 | Every character of every side of every rule survives stripping |
| Builder.StripSymbolSource | cfg-to-lambert.py:80-81 | Every character of the stripped text comes from some side of some rule |
| Builder.TailsNameNodes | cfg-to-lambert.py:94-108 | Every tail entry of every edge is one of the nodes |
| Builder.BuiltGraphWellFormed | cfg-to-lambert.py:13-18 | The fields of the built graph agree: no node twice, `edges` and `edge_weight` have the same keys, every tail entry is a node, an edge with a rule number is headed by that rule's left side, and every other edge has a terminal head |
| Builder.BuiltRuleHeads | cfg-to-lambert.py:101-106 | An edge whose number is in the rule table is headed by the left side of that rule |
| Builder.BuiltTerminalHeads | cfg-to-lambert.py:97-100 | An edge whose number is not in the rule table has a terminal head |
| Pipeline.AcceptedIsBuildable | cfg-to-lambert.py:102-104 | Every text `checkCFG` accepts can be built: each rule has a right side |
| Pipeline.Run | cfg-to-lambert.py:127-140 | A graph is produced exactly when no rule fails any check, and it is the graph of the accepted text |
| Pipeline.AcceptedLetters | cfg-to-lambert.py:46-52 | After stripping, an accepted text contains letters only |
| Pipeline.SortedAccepted | cfg-to-lambert.py:78 | Every sorted rule of an accepted text has the accepted shape |
| Pipeline.AcceptedGraph | cfg-to-lambert.py:94-108 | For an accepted text, every node names a letter; rule edges have a one-letter uppercase head and a non-empty tail; terminal edges have a lowercase head; an edge is a terminal edge exactly when its tail is empty |
| Examples.AnBnAccepted | cfg-to-lambert.py:137 | The help text's grammar `S->aSb;S->ab` is accepted |
| Examples.AnBnNodes | cfg-to-lambert.py:80-95 | Its nodes are `q_S`, `q_a`, `q_b` in visiting order, and rule 0 is `S->aSb`, rule 1 is `S->ab` |
| Examples.AnBnRuleEdges | cfg-to-lambert.py:101-108 | Edge 0 is `q_a q_S q_b` with head `S`; edge 1 is `q_a q_b` with head `S` |
| Examples.AnBnTerminalEdges | cfg-to-lambert.py:97-100 | Edges 2 and 3 have empty tails and heads `[a]` and `[b]` |
| Examples.AnBnEdgeNumbers | cfg-to-lambert.py:83-108 | The edges are numbered 0 to 3 and no others |
| Examples.NoArrow | cfg-to-lambert.py:36-42 | `Sab` gets codes 1 and 2, in that order |
| Examples.ExtraArrow | cfg-to-lambert.py:36-39 | `S->a->b` gets code 1 only |
| Examples.EmptyRightSide | cfg-to-lambert.py:49-52 | `S->` gets code 4: there are no empty productions |
| Examples.TerminalOnLeft | cfg-to-lambert.py:43-45 | `s->ab` gets code 3 only |
| Examples.TrailingSemicolon | cfg-to-lambert.py:34-48 | `S->ab;` gets codes 1, 2 and 4 from the empty last rule |
| Examples.RepeatedAccepted | cfg-to-lambert.py:31-54 | `S->a;S->a` is accepted |
| Examples.RepeatedRule | cfg-to-lambert.py:86-89 | In `S->a;S->a` both numbers are in the rule table, but number 0 has no edge |

## Left out

- `main` (lines 123-145): the interactive loop (`input`, `print`, help, quit, `exit`) is I/O. `Pipeline.Run` keeps only the gate: convert once `checkCFG` returns `""`.
- `LambertGraph.__str__` (lines 20-22): debug printing.
- `str(user_input)` and `str(cfg)` (lines 32 and 76): the identity on strings, which are the only inputs modelled.
- Epsilon elimination: `cfg-to-lambert.py` has no code for it.
- `str.islower` and `str.isalpha` are modelled for ASCII only. Other Unicode letters and cased characters are not modelled.
- Python's concrete set iteration order at line 82: it is a parameter, and every result holds for every order.
- Builder.CFGtoLambert: the `IndexError` raised for a rule without `->` (line 104) is the precondition `Buildable`, not an error value.
