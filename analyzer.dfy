/** The lint rules of the code analyzer and `analyzeCode`: every rule is run
    over the code in a fixed order, the findings are concatenated, a score is
    deducted per finding and clamped to `[0, 100]`, and non-blank code is
    stored with its result.

    Positions follow the rules' own arithmetic. A matched text is located by
    its FIRST occurrence in the code (`code.indexOf(match)`), so repeated
    identical matches all report the first one's line; the line is the number
    of line breaks before that occurrence plus one; and the column is one
    plus the first occurrence of the rule's token (`var`, `console`,
    `catch`, `eval`, or the variable's name) in that line, which is 0 when
    the token is not on that line. */
module Analyzer {
  import opened Wrappers
  import opened Seqs
  import opened Text
  import opened Patterns
  import opened Report
  import opened MockDb

  datatype Rule =
    | NoVar
    | NoConsole
    | NoUnusedVars
    | MissingSemicolon
    | NoEmptyCatch
    | MaxLineLength
    | SecurityEval

  /** The rules in the order they run, which is the order of their findings. */
  const Rules: seq<Rule> :=
    [NoVar, NoConsole, NoUnusedVars, MissingSemicolon, NoEmptyCatch, MaxLineLength, SecurityEval]

  function RuleId(rule: Rule): string {
    match rule
    case NoVar => "no-var"
    case NoConsole => "no-console"
    case NoUnusedVars => "no-unused-vars"
    case MissingSemicolon => "missing-semicolon"
    case NoEmptyCatch => "no-empty-catch"
    case MaxLineLength => "max-line-length"
    case SecurityEval => "security-eval"
  }

  function RuleSeverity(rule: Rule): Severity {
    match rule
    case NoVar => Warning
    case NoConsole => Info
    case NoUnusedVars => Warning
    case MissingSemicolon => Info
    case NoEmptyCatch => Error
    case MaxLineLength => Info
    case SecurityEval => Error
  }

  /** The longest line `max-line-length` accepts. */
  const MaxLength := 100

  /** The rule's message; for `no-unused-vars` the text the variable's name
      is appended to. */
  function RuleMessage(rule: Rule): string {
    match rule
    case NoVar => "Use let or const instead of var"
    case NoConsole => "Avoid using console statements in production code"
    case NoUnusedVars => "Unused variable: "
    case MissingSemicolon => "Missing semicolon"
    case NoEmptyCatch => "Empty catch block is a poor error handling practice"
    case MaxLineLength => "Line exceeds maximum length of 100 characters"
    case SecurityEval => "Avoid using eval() as it creates security vulnerabilities"
  }

  function Finding(rule: Rule, line: int, column: int, message: string): Issue {
    Issue(line, column, RuleSeverity(rule), message, RuleId(rule))
  }

  /** `code.split('\n')`. */
  function Lines(code: string): seq<string> {
    Split(code, '\n')
  }

  /** `code.split('\n')[line - 1].indexOf(token) + 1`. */
  function ColumnOf(code: string, line: int, token: string): int
    requires 1 <= line <= |Lines(code)|
  {
    IndexOf(Lines(code)[line - 1], token) + 1
  }

  // ---------------------------------------------------------------------
  // no-var, no-console, no-empty-catch, security-eval: one finding per
  // matched text.
  // ---------------------------------------------------------------------

  predicate IsMatchRule(rule: Rule) {
    rule.NoVar? || rule.NoConsole? || rule.NoEmptyCatch? || rule.SecurityEval?
  }

  function RulePattern(rule: Rule): (p: Pattern)
    requires IsMatchRule(rule)
    ensures !p.Declaration?
  {
    match rule
    case NoVar => VarWord
    case NoConsole => ConsoleCall
    case NoEmptyCatch => EmptyCatch
    case SecurityEval => EvalCall
  }

  /** The finding for the matched text `m`: the line of the first place `m`
      occurs and the column of the first occurrence of the pattern's leading
      word in that line. */
  function MatchFinding(rule: Rule, code: string, m: string): Issue
    requires IsMatchRule(rule)
  {
    var line := LineNumber(code, IndexOf(code, m));
    LineNumberInRange(code, IndexOf(code, m));
    Finding(rule, line, ColumnOf(code, line, Lead(RulePattern(rule))), RuleMessage(rule))
  }

  /** `matches.map(...)` over `code.match(re)`, `[]` when nothing matches. */
  function MatchRuleFindings(rule: Rule, code: string): (r: seq<Issue>)
    requires IsMatchRule(rule)
    ensures |r| == |Spans(RulePattern(rule), code)|
  {
    var ms := Matches(RulePattern(rule), code);
    seq(|ms|, k requires 0 <= k < |ms| => MatchFinding(rule, code, ms[k]))
  }

  /** A text occurring at `q` that starts with `t` puts `t` at `q` too. */
  lemma AtPrefix(s: string, q: int, m: string, t: string)
    requires At(s, q, m) && |t| <= |m| && m[..|t|] == t
    ensures At(s, q, t)
  {
    assert s[q..q + |t|] == s[q..q + |m|][..|t|];
  }

  /** Where the finding for a text `m` that occurs at `start` and begins with
      the rule's leading word points: the first occurrence `p` of `m` lies at
      or before `start`, the line is one plus the number of line breaks
      before `p` and exists in the code, and the column is at least 1 and no
      further right than `p`'s own column. */
  lemma MatchFindingPlacedAt(rule: Rule, code: string, start: nat, m: string)
    requires IsMatchRule(rule) && At(code, start, m)
    requires var token := Lead(RulePattern(rule)); |token| <= |m| && m[..|token|] == token && '\n' !in token
    ensures var p := IndexOf(code, m);
      var x := MatchFinding(rule, code, m);
      0 <= p <= start &&
      x.line == Occurrences(code[..p], '\n') + 1 && x.line <= |Lines(code)| &&
      1 <= x.column <= LineOffset(code, p) + 1 &&
      x.severity == RuleSeverity(rule) && x.rule == RuleId(rule) && x.message == RuleMessage(rule)
  {
    var token := Lead(RulePattern(rule));
    IndexOfAtMost(code, m, start);
    var p := IndexOf(code, m);
    AtPrefix(code, p, m, token);
    TokenInLine(code, p, token);
    LineAt(code, p);
  }

  /** The same for a text the rule's pattern matches at `start`. */
  lemma MatchFindingPlaced(rule: Rule, code: string, start: nat, end: nat)
    requires IsMatchRule(rule) && MatchAt(RulePattern(rule), code, start) == Some(end)
    ensures var m := code[start..end];
      var p := IndexOf(code, m);
      var x := MatchFinding(rule, code, m);
      0 <= p <= start &&
      x.line == Occurrences(code[..p], '\n') + 1 && x.line <= |Lines(code)| &&
      1 <= x.column <= LineOffset(code, p) + 1 &&
      x.severity == RuleSeverity(rule) && x.rule == RuleId(rule) && x.message == RuleMessage(rule)
  {
    var pattern := RulePattern(rule);
    var m := code[start..end];
    var token := Lead(pattern);
    assert At(code, start, m);
    MatchStartsWithLead(pattern, code, start);
    LeadIsOneLine(pattern);
    assert m[..|token|] == code[start..start + |token|];
    MatchFindingPlacedAt(rule, code, start, m);
  }

  /** Every match of the global search gets exactly one finding, in order,
      placed as `MatchFindingPlaced` describes. */
  lemma MatchRuleFindingsPlaced(rule: Rule, code: string)
    requires IsMatchRule(rule)
    ensures var spans, r := Spans(RulePattern(rule), code), MatchRuleFindings(rule, code);
      IsGlobalSearch(MatcherOf(RulePattern(rule), code), |code|, 0, spans) &&
      |r| == |spans| &&
      forall k :: 0 <= k < |r| ==>
        var p := IndexOf(code, code[spans[k].start..spans[k].end]);
        0 <= p <= spans[k].start &&
        r[k].line == Occurrences(code[..p], '\n') + 1 && r[k].line <= |Lines(code)| &&
        1 <= r[k].column <= LineOffset(code, p) + 1 &&
        r[k].severity == RuleSeverity(rule) && r[k].rule == RuleId(rule) && r[k].message == RuleMessage(rule)
  {
    var pattern := RulePattern(rule);
    var spans := Spans(pattern, code);
    SpansAreGlobalSearch(pattern, code);
    GlobalSearchOrdered(MatcherOf(pattern, code), |code|, 0, spans);
    forall k | 0 <= k < |spans|
      ensures var p := IndexOf(code, code[spans[k].start..spans[k].end]);
        var x := MatchRuleFindings(rule, code)[k];
        0 <= p <= spans[k].start &&
        x.line == Occurrences(code[..p], '\n') + 1 && x.line <= |Lines(code)| &&
        1 <= x.column <= LineOffset(code, p) + 1 &&
        x.severity == RuleSeverity(rule) && x.rule == RuleId(rule) && x.message == RuleMessage(rule)
    {
      GlobalSearchMatchAt(MatcherOf(pattern, code), |code|, 0, spans, k);
      MatchFindingPlaced(rule, code, spans[k].start, spans[k].end);
    }
  }

  // ---------------------------------------------------------------------
  // no-unused-vars.
  // ---------------------------------------------------------------------

  /** `new RegExp(`\\b${name}\\b`).test(code.substring(from))`: `name` occurs
      as a whole word in the code from `from` on. */
  predicate UsedAfter(code: string, from: int, name: string) {
    ContainsWord(SubstringFrom(code, from), name)
  }

  /** The finding for variable `name` whose declaration first occurs at `pos`:
      the line of `pos` and the first occurrence of the name in that line. */
  function UnusedIssue(code: string, pos: int, name: string): Issue {
    var line := LineNumber(code, pos);
    LineNumberInRange(code, pos);
    Finding(NoUnusedVars, line, ColumnOf(code, line, name), RuleMessage(NoUnusedVars) + name)
  }

  /** The check for a declaration whose captured name is `name`: reported
      when the name is not used after the first occurrence of the
      declaration. */
  function UnusedCheck(code: string, declaration: string, name: string): Option<Issue> {
    var pos := IndexOf(code, declaration);
    if name == [] || UsedAfter(code, pos + |declaration|, name) then None
    else Some(UnusedIssue(code, pos, name))
  }

  /** One matched declaration: its name is captured again from the matched
      text, then checked. */
  function UnusedFinding(code: string, declaration: string): Option<Issue> {
    match FirstName(declaration, 0)
    case None => None
    case Some(name) => UnusedCheck(code, declaration, name)
  }

  /** The outcome for each of `declarations`. */
  function UnusedChecks(code: string, declarations: seq<string>): seq<Option<Issue>> {
    seq(|declarations|, k requires 0 <= k < |declarations| => UnusedFinding(code, declarations[k]))
  }

  /** The findings for `declarations`, in order. */
  function UnusedVarsFindings(code: string, declarations: seq<string>): seq<Issue> {
    Present(UnusedChecks(code, declarations))
  }

  /** The `no-unused-vars` check: a loop over the matched declarations. */
  method CheckNoUnusedVars(code: string) returns (issues: seq<Issue>)
    ensures issues == UnusedVarsFindings(code, Matches(Declaration, code))
  {
    var declarations := Matches(Declaration, code);
    ghost var checks := UnusedChecks(code, declarations);
    issues := [];
    var i := 0;
    while i < |declarations|
      invariant 0 <= i <= |declarations|
      invariant issues == Present(checks[..i])
    {
      PresentSnoc(checks, i);
      var finding := UnusedFinding(code, declarations[i]);
      if finding.Some? {
        issues := issues + [finding.value];
      }
      i := i + 1;
    }
    assert checks[..i] == checks;
  }

  /** Each finding comes from one declaration, and every declaration with a
      finding contributes it. */
  lemma UnusedVarsCollects(code: string, declarations: seq<string>)
    ensures var r := UnusedVarsFindings(code, declarations);
      |r| <= |declarations| &&
      (forall x <- r :: exists k :: 0 <= k < |declarations| && UnusedFinding(code, declarations[k]) == Some(x)) &&
      (forall k :: 0 <= k < |declarations| && UnusedFinding(code, declarations[k]).Some? ==>
         UnusedFinding(code, declarations[k]).value in r)
  {
    var checks := UnusedChecks(code, declarations);
    var r := Present(checks);
    assert r == UnusedVarsFindings(code, declarations);
    PresentSound(checks);
    forall x <- r ensures exists k :: 0 <= k < |declarations| && UnusedFinding(code, declarations[k]) == Some(x) {
      var k :| 0 <= k < |checks| && checks[k] == Some(x);
      assert checks[k] == UnusedFinding(code, declarations[k]);
    }
    forall k | 0 <= k < |declarations| && UnusedFinding(code, declarations[k]).Some?
      ensures UnusedFinding(code, declarations[k]).value in r
    {
      assert checks[k] == UnusedFinding(code, declarations[k]);
      PresentComplete(checks, k);
    }
  }

  /** The finding for a variable declared at `pos` names the variable, sits
      on the line of `pos`, and has column 0 exactly when the name is not on
      that line. */
  lemma UnusedIssuePlaced(code: string, pos: nat, name: string)
    requires pos <= |code|
    ensures var x := UnusedIssue(code, pos, name);
      x.message == "Unused variable: " + name && x.severity == Warning && x.rule == "no-unused-vars" &&
      x.line == Occurrences(code[..pos], '\n') + 1 && x.line <= |Lines(code)| &&
      (x.column == 0 <==> !Contains(Lines(code)[x.line - 1], name))
  {
    LineNumberInRange(code, pos);
    var text := Lines(code)[LineNumber(code, pos) - 1];
    IndexOfFirst(text, name);
  }

  /** A declaration `d` that occurs in the code is reported exactly when its
      name is not a whole word after the first occurrence `p` of `d`, and
      then with the finding for that name at `p`. */
  lemma UnusedCheckWhen(code: string, d: string, name: string)
    requires name != [] && Contains(code, d)
    ensures var p := IndexOf(code, d);
      0 <= p && p + |d| <= |code| &&
      (UnusedCheck(code, d, name).Some? <==> !ContainsWord(code[p + |d|..], name)) &&
      (UnusedCheck(code, d, name).Some? ==> UnusedCheck(code, d, name).value == UnusedIssue(code, p, name))
  {
    var j :| 0 <= j <= |code| && At(code, j, d);
    IndexOfAtMost(code, d, j);
    var p := IndexOf(code, d);
    assert SubstringFrom(code, p + |d|) == code[p + |d|..];
  }

  /** The finding for a declaration `d` whose capture is `name` and which
      occurs in the code: it exists exactly when `name` is not a whole word
      after the first occurrence `p` of `d`, and then it names the variable,
      sits on the line of `p`, and has column 0 exactly when `name` is not on
      that line. */
  lemma UnusedFindingShape(code: string, d: string, name: string)
    requires FirstName(d, 0) == Some(name) && name != [] && Contains(code, d)
    ensures var p := IndexOf(code, d);
      var f := UnusedFinding(code, d);
      0 <= p && p + |d| <= |code| &&
      (f.Some? <==> !ContainsWord(code[p + |d|..], name)) &&
      (f.Some? ==>
        f.value.message == "Unused variable: " + name &&
        f.value.severity == Warning && f.value.rule == "no-unused-vars" &&
        f.value.line == Occurrences(code[..p], '\n') + 1 && f.value.line <= |Lines(code)| &&
        (f.value.column == 0 <==> !Contains(Lines(code)[f.value.line - 1], name)))
  {
    var f := UnusedFinding(code, d);
    assert f == UnusedCheck(code, d, name);
    UnusedCheckWhen(code, d, name);
    if f.Some? {
      var p := IndexOf(code, d);
      assert f.value == UnusedIssue(code, p, name);
      UnusedIssuePlaced(code, p, name);
    }
  }

  /** For a declaration the global search matched: its capture is the name
      the match saw, and it occurs no later than the match. */
  lemma UnusedFindingForMatch(code: string, start: nat, end: nat)
    requires MatchAt(Declaration, code, start) == Some(end)
    ensures NameAt(code, start).Some?
    ensures var d := code[start..end];
      var name := code[NameAt(code, start).value.0..NameAt(code, start).value.1];
      FirstName(d, 0) == Some(name) && name != [] && Contains(code, d) && 0 <= IndexOf(code, d) <= start
  {
    var d := code[start..end];
    DeclaredName(code, start);
    assert At(code, start, d);
    IndexOfAtMost(code, d, start);
  }

  /** A declaration whose name is on the line after its keyword. */
  const SplitDeclaration := "let\nfoo;"

  lemma SplitDeclarationMatched()
    ensures MatchAt(Declaration, SplitDeclaration, 0) == Some(8)
    ensures FirstName(SplitDeclaration, 0) == Some("foo")
  {
    var code := SplitDeclaration;
    assert KeywordLength(code, 0) == 3 by { assert code[0..3] == "let"; }
    assert Run(code, 3, Space) == 4 by { assert Run(code, 4, Space) == 4; }
    assert Run(code, 4, Word) == 7;
    assert NameAt(code, 0) == Some((4, 7));
    assert Run(code, 7, Space) == 7;
    assert DeclarationEnd(code, 7) == Some(8);
    assert code[4..7] == "foo";
  }

  lemma SplitDeclarationIssue()
    ensures UnusedIssue(SplitDeclaration, 0, "foo") == Issue(1, 0, Warning, "Unused variable: foo", "no-unused-vars")
  {
    var code := SplitDeclaration;
    assert LineNumber(code, 0) == 1 by {
      assert Prefix(code, 0) == [];
      assert Split([], '\n') == [[]];
    }
    SplitDeclarationFirstLine();
    assert IndexOf("let", "foo") == -1;
  }

  lemma SplitDeclarationFirstLine()
    ensures Lines(SplitDeclaration)[0] == "let"
  {
    assert SplitDeclaration == "let" + "\nfoo;";
    SplitWithoutSep("let", '\n');
    SplitConcat("let", "\nfoo;", '\n');
    assert Split("\nfoo;", '\n')[0] == [];
  }

  /** The column-0 case happens: in `let\nfoo;` the declaration starts on line
      1 but its name is on line 2, so the name is searched for in `let`. */
  lemma UnusedColumnCanBeZero()
    ensures MatchAt(Declaration, SplitDeclaration, 0) == Some(8)
    ensures UnusedFinding(SplitDeclaration, SplitDeclaration) ==
      Some(Issue(1, 0, Warning, "Unused variable: foo", "no-unused-vars"))
  {
    var code := SplitDeclaration;
    SplitDeclarationMatched();
    SplitDeclarationIssue();
    SplitDeclarationChecked();
    assert UnusedFinding(code, code) == UnusedCheck(code, code, "foo");
  }

  /** Nothing follows the declaration, so `foo` is reported at its start. */
  lemma SplitDeclarationChecked()
    ensures UnusedCheck(SplitDeclaration, SplitDeclaration, "foo") == Some(UnusedIssue(SplitDeclaration, 0, "foo"))
  {
    var code := SplitDeclaration;
    assert IndexOf(code, code) == 0 by { assert At(code, 0, code); }
    assert SubstringFrom(code, 8) == [];
    assert !ContainsWord([], "foo");
  }

  // ---------------------------------------------------------------------
  // missing-semicolon and max-line-length: one check per line.
  // ---------------------------------------------------------------------

  /** The keywords whose lines should end with a semicolon. */
  const StatementKeywords: seq<string> :=
    ["let", "const", "var", "return", "throw", "break", "continue", "do", "for", "if", "switch", "try", "while"]

  /** `/\b(let|const|...|while)\b/.test(line)`. */
  predicate HasStatementKeyword(line: string) {
    ContainsWordFrom(line, StatementKeywords, 0)
  }

  /** Endings after which no semicolon is asked for. */
  const StatementEnds: seq<string> := [";", "{", "}", "*/"]

  /** `s` ends with one of `ends`. */
  predicate EndsWithAny(s: string, ends: seq<string>) {
    ends != [] && (EndsWith(s, ends[0]) || EndsWithAny(s, ends[1..]))
  }

  /** The four `endsWith` tests of the rule. */
  lemma StatementEndsListed(s: string)
    ensures EndsWithAny(s, StatementEnds) <==>
      EndsWith(s, ";") || EndsWith(s, "{") || EndsWith(s, "}") || EndsWith(s, "*/")
  {
    var e1 := StatementEnds[1..];
    var e2 := e1[1..];
    var e3 := e2[1..];
    assert EndsWithAny(s, StatementEnds) <==> EndsWith(s, ";") || EndsWithAny(s, e1);
    assert EndsWithAny(s, e1) <==> EndsWith(s, "{") || EndsWithAny(s, e2);
    assert EndsWithAny(s, e2) <==> EndsWith(s, "}") || EndsWithAny(s, e3);
    assert EndsWithAny(s, e3) <==> EndsWith(s, "*/") || EndsWithAny(s, e3[1..]);
    assert e3[1..] == [];
  }

  /** The `missing-semicolon` condition as written, including its final
      `line.trim() !== ''` guard. */
  predicate NeedsSemicolon(line: string) {
    var t := Trim(line);
    HasStatementKeyword(line) && !EndsWithAny(t, StatementEnds) && t != []
  }

  /** A line holding a keyword is never blank, so the guard `trim() !== ''`
      never decides anything. */
  lemma BlankGuardRedundant(line: string)
    ensures NeedsSemicolon(line) <==> HasStatementKeyword(line) && !EndsWithAny(Trim(line), StatementEnds)
  {
    if HasStatementKeyword(line) {
      ContainsWordIff(line, StatementKeywords);
      var i, kw :| 0 <= i <= |line| && kw in StatementKeywords && WholeWordAt(line, i, kw);
      AtFirst(line, i, kw);
      assert !IsSpace(line[i]);
      TrimEmptyIffBlank(line);
    }
  }

  predicate IsLineRule(rule: Rule) {
    rule.MissingSemicolon? || rule.MaxLineLength?
  }

  predicate LineTriggers(rule: Rule, line: string)
    requires IsLineRule(rule)
  {
    if rule.MissingSemicolon? then NeedsSemicolon(line) else |line| > MaxLength
  }

  /** Column reported: just past the end of the line, or just past the limit. */
  function LineColumn(rule: Rule, line: string): int
    requires IsLineRule(rule)
  {
    if rule.MissingSemicolon? then |line| + 1 else MaxLength + 1
  }

  /** The finding for line number `number`, if the rule fires on it. */
  function LineFinding(rule: Rule, line: string, number: int): (r: Option<Issue>)
    requires IsLineRule(rule)
    ensures r.Some? <==> LineTriggers(rule, line)
    ensures r.Some? ==> r.value == Finding(rule, number, LineColumn(rule, line), RuleMessage(rule))
  {
    if LineTriggers(rule, line) then Some(Finding(rule, number, LineColumn(rule, line), RuleMessage(rule)))
    else None
  }

  /** `missing-semicolon` on one line: it fires exactly when the line holds
      a statement keyword as a whole word and its trimmed text ends with none
      of the four listed endings; the finding is an info at column
      `line.length + 1`. */
  lemma SemicolonFinding(line: string, number: int)
    ensures var r, t := LineFinding(MissingSemicolon, line, number), Trim(line);
      (r.Some? <==>
         HasStatementKeyword(line) &&
         !(EndsWith(t, ";") || EndsWith(t, "{") || EndsWith(t, "}") || EndsWith(t, "*/"))) &&
      (r.Some? ==> r.value == Issue(number, |line| + 1, Info, "Missing semicolon", "missing-semicolon"))
  {
    BlankGuardRedundant(line);
    StatementEndsListed(Trim(line));
  }

  /** `max-line-length` on one line: it fires exactly when the line is longer
      than 100 characters; the finding is an info at column 101. */
  lemma LongLineFinding(line: string, number: int)
    ensures var r := LineFinding(MaxLineLength, line, number);
      (r.Some? <==> |line| > 100) &&
      (r.Some? ==>
         r.value == Issue(number, 101, Info, "Line exceeds maximum length of 100 characters", "max-line-length"))
  {
  }

  /** The outcome for each of `lines`, numbered from 1. */
  function LineChecks(rule: Rule, lines: seq<string>): seq<Option<Issue>>
    requires IsLineRule(rule)
  {
    seq(|lines|, i requires 0 <= i < |lines| => LineFinding(rule, lines[i], i + 1))
  }

  /** The findings of a per-line rule over `lines`. */
  function LineRuleFindings(rule: Rule, lines: seq<string>): seq<Issue>
    requires IsLineRule(rule)
  {
    Present(LineChecks(rule, lines))
  }

  /** `lines.forEach(...)` with `issues.push` for a per-line rule. */
  method CheckLines(rule: Rule, code: string) returns (issues: seq<Issue>)
    requires IsLineRule(rule)
    ensures issues == LineRuleFindings(rule, Lines(code))
  {
    var lines := Lines(code);
    ghost var checks := LineChecks(rule, lines);
    issues := [];
    var index := 0;
    while index < |lines|
      invariant 0 <= index <= |lines|
      invariant issues == Present(checks[..index])
    {
      PresentSnoc(checks, index);
      var line := lines[index];
      if LineTriggers(rule, line) {
        issues := issues + [Finding(rule, index + 1, LineColumn(rule, line), RuleMessage(rule))];
      }
      index := index + 1;
    }
    assert checks[..index] == checks;
  }

  /** The `k`-th finding of a per-line rule is the finding for the line it
      names. */
  lemma LineFindingAt(rule: Rule, lines: seq<string>, k: nat)
    requires IsLineRule(rule) && k < |LineRuleFindings(rule, lines)|
    ensures var x := LineRuleFindings(rule, lines)[k];
      1 <= x.line <= |lines| && LineFinding(rule, lines[x.line - 1], x.line) == Some(x)
  {
    var checks := LineChecks(rule, lines);
    LineChecksNumbered(rule, lines);
    PresentKeyed(checks, (x: Issue) => x.line - 1, k);
    var x := Present(checks)[k];
    assert checks[x.line - 1] == LineFinding(rule, lines[x.line - 1], x.line);
  }

  /** The outcome for line `j` (from 0) carries line number `j + 1`. */
  lemma LineChecksNumbered(rule: Rule, lines: seq<string>)
    requires IsLineRule(rule)
    ensures var checks := LineChecks(rule, lines);
      forall j :: 0 <= j < |checks| && checks[j].Some? ==> checks[j].value.line == j + 1
  {
    var checks := LineChecks(rule, lines);
    forall j | 0 <= j < |checks| && checks[j].Some? ensures checks[j].value.line == j + 1 {
      assert checks[j] == LineFinding(rule, lines[j], j + 1);
      LineFindingNumbered(rule, lines[j], j + 1);
    }
  }

  lemma LineFindingNumbered(rule: Rule, line: string, number: int)
    requires IsLineRule(rule)
    ensures LineFinding(rule, line, number).Some? ==> LineFinding(rule, line, number).value.line == number
  {
  }

  /** Each finding of a per-line rule is for a line that triggers it, at the
      rule's column. */
  lemma LineFindingsValid(rule: Rule, lines: seq<string>)
    requires IsLineRule(rule)
    ensures var r := LineRuleFindings(rule, lines);
      forall k :: 0 <= k < |r| ==>
        1 <= r[k].line <= |lines| && LineTriggers(rule, lines[r[k].line - 1]) &&
        r[k].column == LineColumn(rule, lines[r[k].line - 1]) &&
        r[k].severity == RuleSeverity(rule) && r[k].rule == RuleId(rule) && r[k].message == RuleMessage(rule)
  {
    var r := LineRuleFindings(rule, lines);
    forall k | 0 <= k < |r|
      ensures 1 <= r[k].line <= |lines| && LineTriggers(rule, lines[r[k].line - 1]) &&
        r[k].column == LineColumn(rule, lines[r[k].line - 1]) &&
        r[k].severity == RuleSeverity(rule) && r[k].rule == RuleId(rule) && r[k].message == RuleMessage(rule)
    {
      LineFindingAt(rule, lines, k);
    }
  }

  /** A per-line rule reports lines in increasing order, each at most once. */
  lemma LineFindingsIncreasing(rule: Rule, lines: seq<string>)
    requires IsLineRule(rule)
    ensures var r := LineRuleFindings(rule, lines);
      forall a, b :: 0 <= a < b < |r| ==> r[a].line < r[b].line
  {
    var checks := LineChecks(rule, lines);
    PresentIncreasing(checks, (x: Issue) => x.line - 1);
  }

  /** Every line that triggers a per-line rule is reported. */
  lemma LineFindingsComplete(rule: Rule, lines: seq<string>)
    requires IsLineRule(rule)
    ensures var r := LineRuleFindings(rule, lines);
      forall i :: 0 <= i < |lines| && LineTriggers(rule, lines[i]) ==>
        exists k :: 0 <= k < |r| && r[k].line == i + 1
  {
    forall i | 0 <= i < |lines| && LineTriggers(rule, lines[i])
      ensures exists k :: 0 <= k < |LineRuleFindings(rule, lines)| && LineRuleFindings(rule, lines)[k].line == i + 1
    {
      assert LineFinding(rule, lines[i], i + 1).Some?;
      LineFindingKept(rule, lines, i);
    }
  }

  lemma LineFindingKept(rule: Rule, lines: seq<string>, i: nat)
    requires IsLineRule(rule) && i < |lines| && LineFinding(rule, lines[i], i + 1).Some?
    ensures var r := LineRuleFindings(rule, lines);
      exists k :: 0 <= k < |r| && r[k].line == i + 1
  {
    var checks := LineChecks(rule, lines);
    var r := Present(checks);
    assert r == LineRuleFindings(rule, lines);
    assert checks[i] == LineFinding(rule, lines[i], i + 1);
    LineFindingNumbered(rule, lines[i], i + 1);
    PresentComplete(checks, i);
    var k :| 0 <= k < |r| && r[k] == checks[i].value;
  }

  // ---------------------------------------------------------------------
  // Running every rule.
  // ---------------------------------------------------------------------

  /** What one rule reports for `code`. */
  function RuleFindings(rule: Rule, code: string): seq<Issue> {
    if IsMatchRule(rule) then MatchRuleFindings(rule, code)
    else if rule.NoUnusedVars? then UnusedVarsFindings(code, Matches(Declaration, code))
    else LineRuleFindings(rule, Lines(code))
  }

  /** `rule.check(code)`. */
  method Check(rule: Rule, code: string) returns (issues: seq<Issue>)
    ensures issues == RuleFindings(rule, code)
  {
    if IsMatchRule(rule) {
      issues := MatchRuleFindings(rule, code);
    } else if rule.NoUnusedVars? {
      issues := CheckNoUnusedVars(code);
    } else {
      issues := CheckLines(rule, code);
    }
  }

  /** Every finding of a rule carries that rule's id and severity. */
  lemma RuleFindingsTagged(rule: Rule, code: string)
    ensures forall x <- RuleFindings(rule, code) :: x.rule == RuleId(rule) && x.severity == RuleSeverity(rule)
  {
    var r := RuleFindings(rule, code);
    if IsMatchRule(rule) {
      MatchRuleFindingsPlaced(rule, code);
    } else if rule.NoUnusedVars? {
      var declarations := Matches(Declaration, code);
      UnusedVarsCollects(code, declarations);
      forall x <- r ensures x.rule == RuleId(rule) && x.severity == RuleSeverity(rule) {
        var k :| 0 <= k < |declarations| && UnusedFinding(code, declarations[k]) == Some(x);
      }
    } else {
      LineFindingsValid(rule, Lines(code));
    }
    forall x <- r ensures x.rule == RuleId(rule) && x.severity == RuleSeverity(rule) {
      var k :| 0 <= k < |r| && r[k] == x;
    }
  }

  /** What each of `rules` reports, in order. */
  function RuleOutputs(rules: seq<Rule>, code: string): seq<seq<Issue>> {
    seq(|rules|, i requires 0 <= i < |rules| => RuleFindings(rules[i], code))
  }

  /** The findings of `rules`, rule after rule. */
  function AllFindings(rules: seq<Rule>, code: string): seq<Issue> {
    Flatten(RuleOutputs(rules, code))
  }

  /** `rules.forEach(rule => allIssues.push(...rule.check(code)))`. */
  method RunRules(code: string) returns (allIssues: seq<Issue>)
    ensures allIssues == AllFindings(Rules, code)
  {
    ghost var outputs := RuleOutputs(Rules, code);
    allIssues := [];
    var i := 0;
    while i < |Rules|
      invariant 0 <= i <= |Rules|
      invariant allIssues == Flatten(outputs[..i])
    {
      FlattenSnoc(outputs, i);
      var ruleIssues := Check(Rules[i], code);
      assert ruleIssues == outputs[i];
      allIssues := allIssues + ruleIssues;
      i := i + 1;
    }
    assert outputs[..i] == outputs;
  }

  /** Every finding was produced by one of the rules run, and carries its id
      and severity. */
  lemma AllFindingsTagged(rules: seq<Rule>, code: string)
    ensures forall x <- AllFindings(rules, code) ::
      exists rule <- rules :: x.rule == RuleId(rule) && x.severity == RuleSeverity(rule)
  {
    var outputs := RuleOutputs(rules, code);
    FlattenMembers(outputs);
    forall x <- AllFindings(rules, code)
      ensures exists rule <- rules :: x.rule == RuleId(rule) && x.severity == RuleSeverity(rule)
    {
      var i :| 0 <= i < |outputs| && x in outputs[i];
      RuleFindingsTagged(rules[i], code);
      assert rules[i] in rules;
    }
  }

  // ---------------------------------------------------------------------
  // The score.
  // ---------------------------------------------------------------------

  /** Points deducted for one finding. */
  function Penalty(severity: Severity): nat {
    match severity
    case Error => 10
    case Warning => 5
    case Info => 1
  }

  /** Points deducted for all findings. */
  function Deduction(issues: seq<Issue>): nat {
    if issues == [] then 0
    else Deduction(issues[..|issues| - 1]) + Penalty(issues[|issues| - 1].severity)
  }

  /** `Math.max(0, Math.min(100, x))`. */
  function Clamp(x: int): (r: int)
    ensures 0 <= r <= 100
    ensures 0 <= x <= 100 ==> r == x
    ensures x < 0 ==> r == 0
    ensures x > 100 ==> r == 100
  {
    if x < 0 then 0 else if x > 100 then 100 else x
  }

  function Score(issues: seq<Issue>): int {
    Clamp(100 - Deduction(issues))
  }

  /** The scoring loop of `analyzeCode`: start at 100, deduct per finding,
      then clamp. */
  method ComputeScore(issues: seq<Issue>) returns (score: int)
    ensures score == Score(issues)
  {
    score := 100;
    var i := 0;
    while i < |issues|
      invariant 0 <= i <= |issues|
      invariant score == 100 - Deduction(issues[..i])
    {
      assert issues[..i + 1][..i] == issues[..i];
      var severity := issues[i].severity;
      if severity == Error {
        score := score - 10;
      } else if severity == Warning {
        score := score - 5;
      } else if severity == Info {
        score := score - 1;
      }
      i := i + 1;
    }
    assert issues[..i] == issues;
    score := if score < 0 then 0 else if score > 100 then 100 else score;
  }

  lemma {:induction false} DeductionAppend(a: seq<Issue>, b: seq<Issue>)
    ensures Deduction(a + b) == Deduction(a) + Deduction(b)
  {
    if b == [] {
      assert a + b == a;
    } else {
      var init := b[..|b| - 1];
      assert (a + b)[..|a + b| - 1] == a + init;
      assert (a + b)[|a + b| - 1] == b[|b| - 1];
      DeductionAppend(a, init);
    }
  }

  /** The deduction is 10 per error, 5 per warning and 1 per info finding,
      counted as the report counts them. */
  lemma {:induction false} DeductionBySeverity(issues: seq<Issue>)
    ensures Deduction(issues) == 10 * Count(issues, Error) + 5 * Count(issues, Warning) + Count(issues, Info)
  {
    if issues != [] {
      DeductionBySeverity(issues[..|issues| - 1]);
    }
  }

  /** The score is `100 - 10 E - 5 W - I` clamped to `[0, 100]`; it is 100
      exactly when there are no findings. */
  lemma ScoreFormula(issues: seq<Issue>)
    ensures Score(issues) ==
      Clamp(100 - 10 * Count(issues, Error) - 5 * Count(issues, Warning) - Count(issues, Info))
    ensures 0 <= Score(issues) <= 100
    ensures Score(issues) == 100 <==> issues == []
  {
    DeductionBySeverity(issues);
    CountsPartition(issues);
    if issues != [] {
      assert Count(issues, Error) + Count(issues, Warning) + Count(issues, Info) > 0;
    }
  }

  /** More findings never raise the score. */
  lemma ScoreNeverIncreases(a: seq<Issue>, b: seq<Issue>)
    ensures Score(a + b) <= Score(a)
  {
    DeductionAppend(a, b);
  }

  // ---------------------------------------------------------------------
  // analyzeCode.
  // ---------------------------------------------------------------------

  /** What `analyzeCode` resolves to; `savedId` is absent (`undefined`) when
      nothing was saved or the store gave no usable id. */
  datatype Analysis = Analysis(score: int, issues: seq<Issue>, savedId: Option<string>)

  /** `analyzeCode`: run every rule, score the findings, and store non-blank
      code with its result. The store's fresh id and the current time are
      parameters. */
  method AnalyzeCode(code: string, db: MockApi, freshId: string, now: int) returns (result: Analysis)
    modifies db
    ensures result.issues == AllFindings(Rules, code)
    ensures result.score == Score(result.issues)
    ensures Trim(code) != [] ==>
      db.database == old(db.database) + [Stamped(AnalysisResult(None, code, result.score, result.issues, now), freshId, now)] &&
      result.savedId == (if freshId != [] then Some(freshId) else None)
    ensures Trim(code) == [] ==> db.database == old(db.database) && result.savedId == None
  {
    var allIssues := RunRules(code);
    var score := ComputeScore(allIssues);
    var savedId: Option<string> := None;
    if Trim(code) != [] {
      savedId := db.SaveAnalysisResult(AnalysisResult(None, code, score, allIssues, now), freshId, now);
    }
    result := Analysis(score, allIssues, savedId);
  }

  /** Empty code has no findings and scores 100. */
  lemma EmptyCodeIsClean()
    ensures AllFindings(Rules, "") == []
    ensures Score(AllFindings(Rules, "")) == 100
  {
    var outputs := RuleOutputs(Rules, "");
    assert Lines("") == [""];
    forall i | 0 <= i < |outputs| ensures outputs[i] == [] {
      var rule := Rules[i];
      if IsLineRule(rule) {
        assert !HasStatementKeyword("");
        assert LineChecks(rule, [""]) == [None];
        assert Present([None]) == Present<Issue>([]) + [];
      } else if IsMatchRule(rule) {
        assert Matches(RulePattern(rule), "") == [];
      } else {
        assert Matches(Declaration, "") == [];
      }
    }
    FlattenEmpty(outputs);
  }
}
