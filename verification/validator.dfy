/**
 The grammar-text validator `checkCFG`: the text is split into rules on `;`,
 each rule is split on `->`, and four independent checks run on every rule.
 Each failed check is recorded once, in the order it is first detected, and
 the reply is either empty (accepted) or the explanations followed by a help
 prompt.
 */
module Validator {
  import opened Wrappers
  import opened Text

  /** The source numbers these 1 to 4, in this order. */
  datatype Issue =
    | MalformedArrow    // the rule does not split into exactly two sides on `->`
    | LeftNotOneSymbol  // the left side is not one character long
    | LeftLowercase     // the left side is lowercase, i.e. a terminal
    | NotAlphabetic     // a side that exists is empty or holds a non-letter

  /** Whether `rule` fails the check behind `issue`. */
  predicate Triggers(rule: string, issue: Issue) {
    var parts := Split(rule, "->");
    match issue
    case MalformedArrow => |parts| != 2
    case LeftNotOneSymbol => |parts[0]| != 1
    case LeftLowercase => IsLowerCase(parts[0])
    case NotAlphabetic => !IsAlpha(parts[0]) || (|parts| > 1 && !IsAlpha(parts[1]))
  }

  /** The failures of one rule in the order the checks run; the alphabet check
      runs on the left side and again on the right side. */
  function RuleFindings(rule: string): (found: seq<Issue>)
    ensures forall issue :: issue in found <==> Triggers(rule, issue)
    ensures |found| <= 5
  {
    var parts := Split(rule, "->");
    (if |parts| != 2 then [MalformedArrow] else [])
    + (if |parts[0]| != 1 then [LeftNotOneSymbol] else [])
    + (if IsLowerCase(parts[0]) then [LeftLowercase] else [])
    + (if !IsAlpha(parts[0]) then [NotAlphabetic] else [])
    + (if |parts| > 1 && !IsAlpha(parts[1]) then [NotAlphabetic] else [])
  }

  /** The three checks on the left side (one symbol, not `islower`, `isalpha`)
      together accept exactly one uppercase letter. */
  lemma LeftSideAccepted(left: string)
    ensures (|left| == 1 && !IsLowerCase(left) && IsAlpha(left)) <==> (|left| == 1 && IsUpper(left[0]))
  {
    if |left| == 1 {
      assert left == [left[0]];
      SingleCharIsLowerCase(left[0]);
    }
  }

  /** A rule has no findings exactly when it passes every check. */
  lemma NoFindings(rule: string)
    ensures RuleFindings(rule) == [] <==> forall issue :: !Triggers(rule, issue)
  {
    var found := RuleFindings(rule);
    if found != [] {
      assert found[0] in found;
    }
  }

  /** Every failure of every rule, in detection order. */
  function Findings(rules: seq<string>): (found: seq<Issue>)
    ensures forall rule, issue :: rule in rules && Triggers(rule, issue) ==> issue in found
    ensures forall issue :: issue in found ==> exists rule :: rule in rules && Triggers(rule, issue)
    decreases |rules|
  {
    if |rules| == 0 then []
    else
      var found := RuleFindings(rules[0]) + Findings(rules[1..]);
      assert forall rule :: rule in rules ==> rule == rules[0] || rule in rules[1..];
      found
  }

  /** `if issue not in issues: issues += [issue]` */
  function Note(issues: seq<Issue>, issue: Issue): seq<Issue> {
    if issue in issues then issues else issues + [issue]
  }

  /** Noting a code records it, keeps the earlier codes in place, adds nothing
      else, changes nothing when the code is already there, and never records
      a code twice. */
  lemma NoteRecordsOnce(issues: seq<Issue>, issue: Issue)
    ensures |issues| <= |Note(issues, issue)| && Note(issues, issue)[..|issues|] == issues
    ensures forall x :: x in Note(issues, issue) <==> x in issues || x == issue
    ensures Note(issues, issue) == issues <==> issue in issues
    ensures Distinct(issues) ==> Distinct(Note(issues, issue))
  {
    if issue !in issues {
      assert Note(issues, issue)[|issues|] == issue;
    }
  }

  /** Notes each finding in turn. */
  function NoteAll(issues: seq<Issue>, found: seq<Issue>): (r: seq<Issue>)
    ensures |issues| <= |r| && r[..|issues|] == issues
    ensures Distinct(issues) ==> Distinct(r)
    decreases |found|
  {
    if |found| == 0 then issues
    else
      var noted := Note(issues, found[0]);
      var r := NoteAll(noted, found[1..]);
      assert r[..|issues|] == r[..|noted|][..|issues|];
      r
  }

  /** The issue list `checkCFG` accumulates for `text`: every code some rule
      fails, each once. */
  function Issues(text: string): (issues: seq<Issue>)
    ensures Distinct(issues)
    ensures forall x :: x in issues <==> x in Findings(Split(text, ";"))
  {
    IssuesInDetectionOrder(Findings(Split(text, ";")));
    NoteAll([], Findings(Split(text, ";")))
  }

  /** Position of the first occurrence of `x`. */
  function FirstIndex<T(==)>(s: seq<T>, x: T): (k: nat)
    requires x in s
    ensures k < |s| && s[k] == x
    ensures forall j :: 0 <= j < k ==> s[j] != x
  {
    if s[0] == x then 0 else 1 + FirstIndex(s[1..], x)
  }

  const Suffix := "You may type 'help' for help, 'quit' for quit, or try again now: "
  const ArrowText := "You have incorrectly used '->' in at least one rule. "
  const LengthText := "For a context free grammar, the left side of the rule must be one letter long. "
  const LowercaseText := "For a context free grammar, the left side of the rule must be a nonterminal symbol. "
  const AlphabetText := "You may only use alphabetical characters for this program. "

  function Explain(issue: Issue): string {
    match issue
    case MalformedArrow => ArrowText
    case LeftNotOneSymbol => LengthText
    case LeftLowercase => LowercaseText
    case NotAlphabetic => AlphabetText
  }

  /** The explanations of `issues`, in order, followed by the help prompt. */
  function Render(issues: seq<Issue>): (msg: string)
    ensures EndsWith(msg, Suffix)
    decreases |issues|
  {
    if |issues| == 0 then Suffix
    else
      var rest := Render(issues[1..]);
      EndsWithPrepend(Explain(issues[0]), rest, Suffix);
      Explain(issues[0]) + rest
  }

  /** `checkCFG(user_input)`. */
  function CheckCFG(text: string): (msg: string)
    ensures msg == "" <==> forall rule, issue :: rule in Split(text, ";") ==> !Triggers(rule, issue)
    ensures msg != "" ==> ParseMessage(msg) == Some(Issues(text))
    ensures msg != "" ==> EndsWith(msg, Suffix)
  {
    var issues := Issues(text);
    NoIssuesIffNoFailures(text);
    if issues == [] then ""
    else
      RenderParse(issues);
      Render(issues)
  }

  lemma NoIssuesIffNoFailures(text: string)
    ensures Issues(text) == [] <==> forall rule, issue :: rule in Split(text, ";") ==> !Triggers(rule, issue)
  {
    var found := Findings(Split(text, ";"));
    IssuesInDetectionOrder(found);
    if Issues(text) == [] {
      assert forall issue :: issue !in found;
    } else {
      var issue := Issues(text)[0];
      assert issue in found;
    }
  }

  // Reading a reply back

  /** The issue whose explanation opens `msg`, if any. */
  function Leading(msg: string): (r: Option<Issue>)
    ensures r.Some? ==> StartsWith(msg, Explain(r.value)) && |Explain(r.value)| > 0
  {
    if StartsWith(msg, Explain(MalformedArrow)) then Some(MalformedArrow)
    else if StartsWith(msg, Explain(LeftNotOneSymbol)) then Some(LeftNotOneSymbol)
    else if StartsWith(msg, Explain(LeftLowercase)) then Some(LeftLowercase)
    else if StartsWith(msg, Explain(NotAlphabetic)) then Some(NotAlphabetic)
    else None
  }

  /** Recovers the issue list from a rejection reply. */
  function ParseMessage(msg: string): Option<seq<Issue>>
    decreases |msg|
  {
    if msg == Suffix then Some([])
    else
      match Leading(msg)
      case None => None
      case Some(issue) =>
        match ParseMessage(msg[|Explain(issue)|..])
        case None => None
        case Some(rest) => Some([issue] + rest)
  }

  /** A position where the texts of two different issues (or of an issue and
      the help prompt, for `j == None`) disagree. */
  function Mismatch(i: Issue, j: Option<Issue>): nat {
    match (i, j)
    // the closing space of the arrow text, where every other text has a letter
    case (MalformedArrow, _) => 52
    case (_, Some(MalformedArrow)) => 52
    // the space after "long." against the "m" of "symbol"
    case (LeftNotOneSymbol, Some(LeftLowercase)) => 78
    case (LeftLowercase, Some(LeftNotOneSymbol)) => 78
    // the closing space of the alphabet text against the "n" of "again" in the prompt
    case (NotAlphabetic, None) => 58
    // the "." ending the alphabet text against the "t" of "must"
    case (NotAlphabetic, _) => 57
    case (_, Some(NotAlphabetic)) => 57
    // the "e" of "one" (length text) or the "n" of "nonterminal" (lowercase text)
    // against the space after "now:" in the prompt
    case (_, None) => 64
    case _ => 0
  }

  function Wording(j: Option<Issue>): string {
    if j.Some? then Explain(j.value) else Suffix
  }

  lemma ArrowTextDiffers(j: Option<Issue>)
    requires j != Some(MalformedArrow)
    ensures Mismatch(MalformedArrow, j) < |Explain(MalformedArrow)| && Mismatch(MalformedArrow, j) < |Wording(j)|
    ensures Explain(MalformedArrow)[Mismatch(MalformedArrow, j)] != Wording(j)[Mismatch(MalformedArrow, j)]
  {
    match j {
      case None =>
      case Some(LeftNotOneSymbol) =>
      case Some(LeftLowercase) =>
      case Some(NotAlphabetic) =>
    }
  }

  lemma LengthTextDiffers(j: Option<Issue>)
    requires j != Some(LeftNotOneSymbol)
    ensures Mismatch(LeftNotOneSymbol, j) < |Explain(LeftNotOneSymbol)| && Mismatch(LeftNotOneSymbol, j) < |Wording(j)|
    ensures Explain(LeftNotOneSymbol)[Mismatch(LeftNotOneSymbol, j)] != Wording(j)[Mismatch(LeftNotOneSymbol, j)]
  {
    match j {
      case None =>
      case Some(MalformedArrow) =>
      case Some(LeftLowercase) =>
      case Some(NotAlphabetic) =>
    }
  }

  lemma LowercaseTextDiffers(j: Option<Issue>)
    requires j != Some(LeftLowercase)
    ensures Mismatch(LeftLowercase, j) < |Explain(LeftLowercase)| && Mismatch(LeftLowercase, j) < |Wording(j)|
    ensures Explain(LeftLowercase)[Mismatch(LeftLowercase, j)] != Wording(j)[Mismatch(LeftLowercase, j)]
  {
    match j {
      case None =>
      case Some(MalformedArrow) =>
      case Some(LeftNotOneSymbol) =>
      case Some(NotAlphabetic) =>
    }
  }

  lemma AlphabetTextDiffers(j: Option<Issue>)
    requires j != Some(NotAlphabetic)
    ensures Mismatch(NotAlphabetic, j) < |Explain(NotAlphabetic)| && Mismatch(NotAlphabetic, j) < |Wording(j)|
    ensures Explain(NotAlphabetic)[Mismatch(NotAlphabetic, j)] != Wording(j)[Mismatch(NotAlphabetic, j)]
  {
    match j {
      case None =>
      case Some(MalformedArrow) =>
      case Some(LeftNotOneSymbol) =>
      case Some(LeftLowercase) =>
    }
  }

  lemma MismatchDistinguishes(i: Issue, j: Option<Issue>)
    requires j != Some(i)
    ensures Mismatch(i, j) < |Explain(i)| && Mismatch(i, j) < |Wording(j)|
    ensures Explain(i)[Mismatch(i, j)] != Wording(j)[Mismatch(i, j)]
  {
    match i {
      case MalformedArrow => ArrowTextDiffers(j);
      case LeftNotOneSymbol => LengthTextDiffers(j);
      case LeftLowercase => LowercaseTextDiffers(j);
      case NotAlphabetic => AlphabetTextDiffers(j);
    }
  }

  lemma OpensWith(i: Issue, j: Option<Issue>, rest: string)
    requires j != Some(i)
    ensures !StartsWith(Explain(i) + rest, Wording(j))
    ensures Explain(i) + rest != Suffix
  {
    var k := Mismatch(i, j);
    MismatchDistinguishes(i, j);
    MismatchDistinguishes(i, None);
    var s := Explain(i) + rest;
    assert s[k] == Explain(i)[k];
    assert s[Mismatch(i, None)] != Suffix[Mismatch(i, None)];
  }

  /** The explanation opening a reply is recognised as such. */
  lemma LeadingOf(i: Issue, rest: string)
    ensures Leading(Explain(i) + rest) == Some(i)
    ensures Explain(i) + rest != Suffix
  {
    var msg := Explain(i) + rest;
    OpensWith(i, None, rest);
    forall j: Issue | j != i
      ensures !StartsWith(msg, Explain(j))
    {
      OpensWith(i, Some(j), rest);
    }
    assert msg[..|Explain(i)|] == Explain(i);
  }

  lemma ParseStep(i: Issue, rest: string)
    ensures ParseMessage(Explain(i) + rest) ==
              match ParseMessage(rest)
              case None => None
              case Some(issues) => Some([i] + issues)
  {
    var msg := Explain(i) + rest;
    LeadingOf(i, rest);
    assert msg[|Explain(i)|..] == rest;
  }

  /** A reply can be read back into exactly the issue list it was rendered from. */
  lemma {:induction false} RenderParse(issues: seq<Issue>)
    ensures ParseMessage(Render(issues)) == Some(issues)
    decreases |issues|
  {
    if |issues| != 0 {
      var i := issues[0];
      var rest := Render(issues[1..]);
      assert Render(issues) == Explain(i) + rest;
      ParseStep(i, rest);
      RenderParse(issues[1..]);
      assert [i] + issues[1..] == issues;
    }
  }

  // The accumulated list is the findings without repeats, in first-detection order

  lemma {:induction false} NoteAllSnoc(issues: seq<Issue>, found: seq<Issue>, x: Issue)
    ensures NoteAll(issues, found + [x]) == Note(NoteAll(issues, found), x)
    decreases |found|
  {
    if |found| == 0 {
      assert [] + [x] == [x];
    } else {
      assert (found + [x])[1..] == found[1..] + [x];
      NoteAllSnoc(Note(issues, found[0]), found[1..], x);
    }
  }

  lemma FirstIndexSnoc<T>(s: seq<T>, x: T, y: T)
    requires y in s
    ensures FirstIndex(s + [x], y) == FirstIndex(s, y)
  {
    var k := FirstIndex(s, y);
    assert (s + [x])[k] == y;
  }

  lemma FirstIndexLast<T>(s: seq<T>, x: T)
    requires x !in s
    ensures FirstIndex(s + [x], x) == |s|
  {
    var k := FirstIndex(s + [x], x);
  }

  /** `r` holds each code of `found` once, ordered by first detection. */
  ghost predicate InDetectionOrder(r: seq<Issue>, found: seq<Issue>) {
    && Distinct(r)
    && (forall x :: x in r <==> x in found)
    && forall i, j :: 0 <= i < j < |r| ==>
         r[i] in found && r[j] in found && FirstIndex(found, r[i]) < FirstIndex(found, r[j])
  }

  /** A later detection of a recorded code changes neither the list nor its order. */
  lemma DetectionOrderKeep(front: seq<Issue>, x: Issue, r: seq<Issue>)
    requires InDetectionOrder(r, front) && x in r
    ensures InDetectionOrder(r, front + [x])
  {
    forall y | y in r
      ensures y in front + [x] && FirstIndex(front + [x], y) == FirstIndex(front, y)
    {
      FirstIndexSnoc(front, x, y);
    }
  }

  /** A first detection goes to the end, after every earlier first detection. */
  lemma DetectionOrderGrow(front: seq<Issue>, x: Issue, r: seq<Issue>)
    requires InDetectionOrder(r, front) && x !in r
    ensures InDetectionOrder(r + [x], front + [x])
  {
    forall y | y in r
      ensures y in front + [x] && FirstIndex(front + [x], y) == FirstIndex(front, y) < |front|
    {
      FirstIndexSnoc(front, x, y);
    }
    FirstIndexLast(front, x);
  }

  /** The recorded issues are the distinct findings, ordered by first detection. */
  lemma {:induction false} IssuesInDetectionOrder(found: seq<Issue>)
    ensures Distinct(NoteAll([], found))
    ensures forall x :: x in NoteAll([], found) <==> x in found
    ensures forall i, j :: 0 <= i < j < |NoteAll([], found)| ==>
              FirstIndex(found, NoteAll([], found)[i]) < FirstIndex(found, NoteAll([], found)[j])
    decreases |found|
  {
    if |found| != 0 {
      var front := found[..|found| - 1];
      var x := found[|found| - 1];
      assert found == front + [x];
      IssuesInDetectionOrder(front);
      DetectionOrderStep(front, x);
    }
  }

  /** Recording one more detection keeps the list in detection order. */
  lemma DetectionOrderStep(front: seq<Issue>, x: Issue)
    requires InDetectionOrder(NoteAll([], front), front)
    ensures InDetectionOrder(NoteAll([], front + [x]), front + [x])
  {
    NoteAllSnoc([], front, x);
    var r := NoteAll([], front);
    if x in r {
      DetectionOrderKeep(front, x, r);
    } else {
      DetectionOrderGrow(front, x, r);
    }
  }

  /** The reply is empty exactly when no rule fails a check; otherwise it reads
      back as each failed check once, in order of first detection. */
  lemma CheckCFGReports(text: string)
    ensures Distinct(Issues(text))
    ensures forall rule, issue :: rule in Split(text, ";") && Triggers(rule, issue) ==> issue in Issues(text)
    ensures forall issue :: issue in Issues(text) ==>
              exists rule :: rule in Split(text, ";") && Triggers(rule, issue)
    ensures forall issue :: issue in Issues(text) <==> issue in Findings(Split(text, ";"))
    ensures forall i, j :: 0 <= i < j < |Issues(text)| ==>
              FirstIndex(Findings(Split(text, ";")), Issues(text)[i]) <
              FirstIndex(Findings(Split(text, ";")), Issues(text)[j])
  {
    var found := Findings(Split(text, ";"));
    assert Issues(text) == NoteAll([], found);
    IssuesInDetectionOrder(found);
  }

  /** Findings that never repeat are recorded exactly as detected. */
  lemma {:induction false} NoteAllDistinct(issues: seq<Issue>, found: seq<Issue>)
    requires Distinct(issues + found)
    ensures NoteAll(issues, found) == issues + found
    decreases |found|
  {
    if |found| != 0 {
      var x := found[0];
      assert (issues + found)[|issues|] == x;
      assert x !in issues by {
        forall i | 0 <= i < |issues|
          ensures issues[i] != x
        {
          assert (issues + found)[i] == issues[i];
        }
      }
      assert issues + found == (issues + [x]) + found[1..];
      NoteAllDistinct(issues + [x], found[1..]);
    }
  }

  /** One step of reading a reply: it opens with the explanation of the first
      issue, and the remainder reads back as the other issues. */
  lemma ParseUnfold(msg: string, issues: seq<Issue>) returns (rest: string)
    requires ParseMessage(msg) == Some(issues) && msg != Suffix
    ensures |issues| > 0 && msg == Explain(issues[0]) + rest
    ensures ParseMessage(rest) == Some(issues[1..]) && |rest| < |msg|
  {
    var lead := Leading(msg);
    assert lead.Some?;
    var issue := lead.value;
    var opening := Explain(issue);
    assert StartsWith(msg, opening) && |opening| > 0;
    rest := msg[|opening|..];
    assert ParseMessage(rest).Some? && issues == [issue] + ParseMessage(rest).value;
    StartsWithSplits(msg, opening);
  }

  /** Only a rendered reply reads back: a message that parses to an issue list
      is the rendering of that list, so the reply and the issue list determine
      each other. */
  lemma {:induction false} ParseRender(msg: string, issues: seq<Issue>)
    requires ParseMessage(msg) == Some(issues)
    ensures msg == Render(issues)
    decreases |msg|
  {
    if msg != Suffix {
      var rest := ParseUnfold(msg, issues);
      ParseRender(rest, issues[1..]);
    }
  }

  /** An accepted text consists of rules `X->w` with `X` one uppercase letter and
      `w` a non-empty run of letters; in particular no rule has an empty right side. */
  lemma AcceptedRuleShape(text: string)
    requires CheckCFG(text) == ""
    ensures forall rule :: rule in Split(text, ";") ==>
              |Split(rule, "->")| == 2 && |Split(rule, "->")[0]| == 1
              && IsUpper(Split(rule, "->")[0][0]) && IsAlpha(Split(rule, "->")[1])
  {
    forall rule | rule in Split(text, ";")
      ensures |Split(rule, "->")| == 2 && |Split(rule, "->")[0]| == 1
      ensures IsUpper(Split(rule, "->")[0][0]) && IsAlpha(Split(rule, "->")[1])
    {
      assert !Triggers(rule, MalformedArrow) && !Triggers(rule, LeftNotOneSymbol);
      assert !Triggers(rule, LeftLowercase) && !Triggers(rule, NotAlphabetic);
      var left := Split(rule, "->")[0];
      assert left == [left[0]];
      SingleCharIsLowerCase(left[0]);
    }
  }
}
