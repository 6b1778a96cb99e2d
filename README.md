# Code analyzer: lint rules, scoring, report and analysis store

This project models the analysis engine of a browser-based code-quality tool. A
user pastes source text. Seven pattern-based lint rules run over it in a fixed
order, their findings are concatenated and a 0–100 score is computed from
severity-weighted penalties. Non-blank code is then stored, with its result,
in an in-memory stand-in for the analysis database. The report view counts
and filters the findings by severity and colours the score and the severity
badges.

The model is organised in seven modules, one file each:

- `Wrappers` (`wrappers.dfy`) holds the `Option` datatype.
- `Seqs` (`seqs.dfy`) holds two list shapes the rules build:
  - concatenating the findings rule after rule (`Flatten`);
  - keeping the values of the per-item checks that fired (`Present`).
- `Text` (`text.dfy`) holds the JavaScript string operations the rules use:
  - `indexOf` and `substring`;
  - `split('\n')` and the line number of a position;
  - `trim` and `endsWith`;
  - the ASCII reading of `\w` and `\s`.
- `Patterns` (`patterns.dfy`) covers the five regular expressions:
  - each is an explicit matcher anchored at one position;
  - each matcher is proved to return the longest text that the expression's
    language accepts at that position;
  - `String.prototype.match` with the `g` flag is the leftmost,
    non-overlapping search, defined as a specification (`IsGlobalSearch`) and
    an implementation (`Scan`);
  - `\b…\b` whole-word tests and the capture of a declared variable's name.
- `Report` (`report.dfy`) covers the report view's logic: the issue record,
  the severity filters and counters, and the two colour functions.
- `MockDb` (`mock_db.dfy`) covers the analysis store:
  - a class `MockApi` whose `database` field is the module-level list;
  - `post` and `get` over that list;
  - the three service functions `saveAnalysisResult`, `getAnalysisHistory`
    and `getAnalysisById`.
- `Analyzer` (`analyzer.dfy`) covers:
  - the seven rules;
  - the rule loop and the score;
  - `analyzeCode`.

Loops in the source are methods with loop invariants, each proved against a
function that specifies it:

- the `forEach` over declarations (`CheckNoUnusedVars`);
- the `forEach` over lines (`CheckLines`);
- the rule loop (`RunRules`);
- the scoring loop (`ComputeScore`).

The store is a class whose methods reassign its `database` field. Everything
else is pure functions and lemmas.

The model reproduces these behaviours of the code as written:

- **Positions are first occurrences.** A match rule locates each matched text
  by its first occurrence in the code. Repeated identical matches therefore
  all report the line of the first one.
- **Columns come from the line, not the match.** The column is one plus the
  first occurrence of the rule's token (`var`, `console`, `catch`, `eval`, or
  the variable's name) in that line. It is 0 when the token is not on that
  line. Columns are otherwise 1-based (`indexOf(...) + 1`, `line.length + 1`,
  `maxLength + 1`), and one might expect every finding to have a column of at
  least 1. `no-unused-vars` breaks that when the name is not on the line where
  the declaration starts, and the model follows the code.
  `Analyzer.UnusedColumnCanBeZero` exhibits the input `"let\nfoo;"`, which
  gets column 0.
- **No leading word boundary.** None of the patterns starts with `\b`. So
  `outlet x;` counts as a `let` declaration and `myeval(` as an `eval` call.
- **An empty id is falsy.** The store always keeps a record it is given.
  When the random id is the empty string, which is falsy,
  `saveAnalysisResult` still answers null.
- **Ids containing `/` are never found.** `get('/analyses/<x>')` looks up
  the text after the last `/`, so `getAnalysisById` never finds an id that
  contains `/`.

## Model

| member | source | states |
|---|---|---|
| Text.IndexOf | client/src/services/analyzerService.ts:13 | `indexOf` answers -1 or an index at which the text occurs |
| Text.IndexOfFirst | client/src/services/analyzerService.ts:62 | `indexOf` is -1 exactly when the text does not occur, and no earlier index holds it |
| Text.IndexOfAtMost | client/src/services/analyzerService.ts:13 | an occurrence at `j` puts the first occurrence at or before `j` |
| Text.IndexFromFirst | client/src/services/analyzerService.ts:62 | the search from `i` finds no occurrence when it answers -1, and none before the index it answers |
| Text.PrefixSubstringFrom | client/src/services/analyzerService.ts:62-67 | `substring(0, p)` and `substring(p)` cut the text at one place for every `p`, negative or past the end: together they give back the text, and the first part has `p` characters clamped to [0, length] |
| Text.Split | client/src/services/analyzerService.ts:13 | `split` yields one more piece than there are separators |
| Text.SplitJoin | client/src/services/analyzerService.ts:88 | joining the pieces of `split` with the separator gives back the text |
| Text.SplitWithoutSep | src/services/mongoDbService.ts:52 | a text without the separator splits into itself alone |
| Text.SplitConcat | src/services/mongoDbService.ts:52 | splitting a concatenation fuses the last piece of the left part with the first piece of the right part |
| Text.LineNumber | client/src/services/analyzerService.ts:13 | the line of a position is the number of line breaks before it plus one |
| Text.LineNumberInRange | client/src/services/analyzerService.ts:14 | that line number is a valid 1-based index into `code.split('\n')` |
| Text.LineAt | client/src/services/analyzerService.ts:13-14 | line `n` of the code is the last line of the text before the position followed by the first line of the text after it |
| Text.TokenInLine | client/src/services/analyzerService.ts:14 | a one-line token at a position is found in that position's line, no later than the position's offset in the line |
| Text.TrimStart | client/src/services/analyzerService.ts:94 | trimming the start never lengthens the text |
| Text.TrimStartShape | client/src/services/analyzerService.ts:94 | trimming the start removes exactly the leading whitespace and leaves a text that is empty or starts with non-whitespace |
| Text.TrimEnd | client/src/services/analyzerService.ts:94 | trimming the end never lengthens the text |
| Text.TrimEndShape | client/src/services/analyzerService.ts:94 | trimming the end removes exactly the trailing whitespace and leaves a text that is empty or ends with non-whitespace |
| Text.Trim | client/src/services/analyzerService.ts:94-98 | `trim` never lengthens the text |
| Text.TrimEmptyIffBlank | client/src/services/analyzerService.ts:216 | `code.trim()` is empty exactly when every character is whitespace |
| Patterns.Run | client/src/services/analyzerService.ts:10 | a greedy run of a character class ends within the text, not before its start |
| Patterns.RunStops | client/src/services/analyzerService.ts:10 | the greedy run covers only class characters and stops at the end or at a character outside the class |
| Patterns.RunReaches | client/src/services/analyzerService.ts:10 | the greedy run reaches past any stretch of class characters, and ends exactly at a non-class character that follows it |
| Patterns.KeywordLength | client/src/services/analyzerService.ts:53 | the keyword found at a position fits in the text |
| Patterns.KeywordLengthFits | client/src/services/analyzerService.ts:53 | a keyword is found exactly when one of `let`, `const`, `var` occurs there, and the found text is one of them |
| Patterns.NameAt | client/src/services/analyzerService.ts:59 | the captured name lies strictly after the keyword's start and within the text |
| Patterns.DeclarationEnd | client/src/services/analyzerService.ts:53 | the optional initializer and semicolon end after the name and within the text |
| Patterns.VarWordAt | client/src/services/analyzerService.ts:10 | a `var\s+\w+` match at `i` ends after `i` within the text |
| Patterns.ConsoleCallAt | client/src/services/analyzerService.ts:31 | a `console\.\w+\(` match at `i` ends after `i` within the text |
| Patterns.DeclarationAt | client/src/services/analyzerService.ts:53 | a declaration match at `i` ends after `i` within the text |
| Patterns.EmptyCatchAt | client/src/services/analyzerService.ts:117 | an empty-catch match at `i` ends after `i` within the text |
| Patterns.EvalCallAt | client/src/services/analyzerService.ts:163 | an `eval\s*\(` match at `i` ends after `i` within the text |
| Patterns.MatchAt | client/src/services/analyzerService.ts:10 | a match of any of the five patterns at `i` is non-empty and within the text |
| Patterns.MatchStartsWithLead | client/src/services/analyzerService.ts:14 | every match starts with the rule's column token (`var`, `console`, `catch`, `eval`) and covers it |
| Patterns.LeadIsOneLine | client/src/services/analyzerService.ts:14 | no column token contains a line break |
| Patterns.NameAtIsLongest | client/src/services/analyzerService.ts:59 | the captured name after `let`, `const` or `var` is accepted by the expression, and every accepted split has the same name start and ends no later |
| Patterns.DeclarationEndIsTail | client/src/services/analyzerService.ts:53 | the declaration tail found is accepted by `(?:\s*=\s*[^;]+)?;`, and it is the only accepted tail |
| Patterns.VarWordIsLongest | client/src/services/analyzerService.ts:10 | the `var` match is accepted by the expression, and no accepted text is longer |
| Patterns.ConsoleCallIsOnly | client/src/services/analyzerService.ts:31 | the `console` match is accepted by the expression, and it is the only accepted text |
| Patterns.DeclarationIsOnly | client/src/services/analyzerService.ts:53 | the declaration match is accepted by the expression, and it is the only accepted text |
| Patterns.EmptyCatchIsOnly | client/src/services/analyzerService.ts:117 | the empty-catch match is accepted by `catch\s*\([^)]*\)\s*{\s*}`, and it is the only accepted text |
| Patterns.EvalCallIsOnly | client/src/services/analyzerService.ts:163 | the `eval` match is accepted by the expression, and it is the only accepted text |
| Patterns.MatchAtIsLongest | client/src/services/analyzerService.ts:10 | for every pattern the matcher returns an accepted text, and no accepted text at that position is longer |
| Patterns.MatcherAdvances | client/src/services/analyzerService.ts:10 | every match ends after it starts, so the global search terminates |
| Patterns.Scan | client/src/services/analyzerService.ts:10 | every match found lies in the searched range and is non-empty |
| Patterns.ScanIsGlobalSearch | client/src/services/analyzerService.ts:10 | the scan is the leftmost, non-overlapping search of a `g`-flag `match` |
| Patterns.SpansAreGlobalSearch | client/src/services/analyzerService.ts:10 | the matches of a pattern in the code are its global search |
| Patterns.GlobalSearchOrdered | client/src/services/analyzerService.ts:10 | global-search matches are in range, non-empty, in order and non-overlapping |
| Patterns.GlobalSearchMatchAt | client/src/services/analyzerService.ts:10 | each global-search match is what the anchored matcher finds at its start |
| Patterns.GlobalSearchUnique | client/src/services/analyzerService.ts:10 | the global search has exactly one outcome |
| Patterns.MatchesAccepted | client/src/services/analyzerService.ts:10 | each text `code.match(re)` lists is accepted by the expression at its start, and no accepted text starting there is longer |
| Patterns.FirstNameFound | client/src/services/analyzerService.ts:59 | the non-global `match(...)?.[1]` finds a name exactly when some position at or after the start holds an accepted keyword-and-name text, and the name is that text's capture |
| Patterns.DeclaredName | client/src/services/analyzerService.ts:58-59 | capturing again within a matched declaration gives the name the declaration's own match captured |
| Patterns.ContainsWordFromIff | client/src/services/analyzerService.ts:66 | the whole-word scan succeeds exactly when one of the words occurs with a word boundary on both sides |
| Patterns.ContainsWordIff | client/src/services/analyzerService.ts:93 | `\b(words)\b` matches somewhere exactly when one of the words occurs as a whole word |
| Report.OfSeverity | src/components/Report.tsx:94 | a severity filter never lengthens the list |
| Report.OfSeverityFilters | src/components/Report.tsx:94-102 | a tab's list holds only issues of its severity, and every issue of that severity as often as the full list does |
| Report.OfSeverityAppend | src/components/Report.tsx:24-26 | filtering a concatenation is concatenating the filtered parts |
| Report.CountsPartition | src/components/Report.tsx:24-26 | the error, warning and info counters add up to the number of issues |
| Report.SeverityColorClassifies | src/components/Report.tsx:28-39 | the three severities get distinct badge classes, none of them the grey default, and exactly the other strings get the default |
| Report.ScoreColorBands | src/components/Report.tsx:41-45 | 90 and up is success, 70 to 89 warning, below 70 error, and a higher score never gets a worse band |
| MockDb.LastSegmentOfPath | src/services/mongoDbService.ts:52 | the last `/`-segment of `prefix + "/" + id` is `id` when `id` holds no `/` |
| MockDb.FindById | src/services/mongoDbService.ts:53 | `find` answers null exactly when no record has the id, and otherwise the first record that has it |
| MockDb.InsertKeepsOrder | src/services/mongoDbService.ts:45-47 | inserting into a newest-first list keeps it newest first |
| MockDb.InsertKeepsRecords | src/services/mongoDbService.ts:45-47 | inserting adds exactly the one record |
| MockDb.InsertStampedAt | src/services/mongoDbService.ts:45-47 | the inserted record goes ahead of the records with its timestamp and keeps their order |
| MockDb.SortNewestFirstCorrect | src/services/mongoDbService.ts:45-47 | the sorted copy is newest first, a permutation of the store, and stable among equal timestamps |
| MockDb.MockApi.constructor | src/services/mongoDbService.ts:19 | the store starts empty |
| MockDb.MockApi.Post | src/services/mongoDbService.ts:26-38 | `/analyses` appends the record stamped with the fresh id and time and answers the id; any other endpoint changes nothing and answers null |
| MockDb.MockApi.Get | src/services/mongoDbService.ts:40-57 | `/analyses` answers every record newest first, stably; `/analyses/<x>` answers the first record whose id is the last segment, or null; anything else answers null |
| MockDb.MockApi.SaveAnalysisResult | src/services/mongoDbService.ts:63-79 | the record is appended, stamped, and its id comes back only when it is non-empty |
| MockDb.MockApi.GetAnalysisHistory | src/services/mongoDbService.ts:84-94 | the history is every stored record, newest first, stably |
| MockDb.MockApi.GetAnalysisById | src/services/mongoDbService.ts:99-109 | the answer is the first record whose id is the path's last segment, which is the id itself when it holds no `/` |
| Analyzer.MatchRuleFindings | client/src/services/analyzerService.ts:10-25 | a match rule reports one finding per match |
| Analyzer.MatchFindingPlaced | client/src/services/analyzerService.ts:13-21 | a match's finding is on the line of the first occurrence of its text, which is at or before the match; its column is at least 1 and at most the offset in that line plus one; it carries the rule's id, severity and message |
| Analyzer.MatchRuleFindingsPlaced | client/src/services/analyzerService.ts:10-23 | the findings of `no-var`, `no-console`, `no-empty-catch` and `security-eval` correspond one to one, in order, to the global-search matches, and each is placed as above |
| Analyzer.CheckNoUnusedVars | client/src/services/analyzerService.ts:51-83 | the loop over matched declarations pushes exactly the findings of the declarations whose name is unused, in order |
| Analyzer.UnusedVarsCollects | client/src/services/analyzerService.ts:58-80 | every finding comes from one declaration, and every declaration that fires is reported |
| Analyzer.UnusedIssuePlaced | client/src/services/analyzerService.ts:67-76 | the finding's message is `Unused variable: ` plus the name, it is a warning of `no-unused-vars` on the declaration's line, and its column is 0 exactly when the name is not on that line |
| Analyzer.UnusedCheckWhen | client/src/services/analyzerService.ts:62-66 | a declaration is reported exactly when its name does not occur as a whole word after the declaration's first occurrence |
| Analyzer.UnusedFindingShape | client/src/services/analyzerService.ts:58-78 | for a captured name, the finding exists exactly when the name is unused afterwards, and is placed and worded as above |
| Analyzer.UnusedFindingForMatch | client/src/services/analyzerService.ts:53-62 | each matched declaration yields a non-empty capture, so `if (varName)` always holds, and its first occurrence is at or before the match |
| Analyzer.SplitDeclarationMatched | client/src/services/analyzerService.ts:53-59 | `"let\nfoo;"` is matched as a declaration whose name is `foo` |
| Analyzer.SplitDeclarationFirstLine | client/src/services/analyzerService.ts:68 | the first line of `"let\nfoo;"` is `let` |
| Analyzer.SplitDeclarationIssue | client/src/services/analyzerService.ts:67-76 | its finding is line 1, column 0 |
| Analyzer.SplitDeclarationChecked | client/src/services/analyzerService.ts:62-66 | `foo` counts as unused there |
| Analyzer.UnusedColumnCanBeZero | client/src/services/analyzerService.ts:68 | the rule reports `Unused variable: foo` at line 1, column 0 for `"let\nfoo;"` |
| Analyzer.StatementEndsListed | client/src/services/analyzerService.ts:94-97 | the ending test is exactly the four `endsWith` tests for `;`, `{`, `}` and `*/` |
| Analyzer.BlankGuardRedundant | client/src/services/analyzerService.ts:93-98 | a line holding a keyword is never blank, so the guard `line.trim() !== ''` never changes the outcome |
| Analyzer.SemicolonFinding | client/src/services/analyzerService.ts:93-106 | `missing-semicolon` fires on a line exactly when it holds a statement keyword as a whole word and its trimmed text ends with none of `;`, `{`, `}`, `*/`; the finding is an info `Missing semicolon` at column `line.length + 1` |
| Analyzer.LongLineFinding | client/src/services/analyzerService.ts:141-153 | `max-line-length` fires on a line exactly when it is longer than 100 characters; the finding is an info at column 101 with the rule's message |
| Analyzer.CheckLines | client/src/services/analyzerService.ts:88-110 | the loop over lines pushes exactly the findings of the lines that trigger, in order |
| Analyzer.LineFindingAt | client/src/services/analyzerService.ts:91-107 | each reported finding is the finding of the line its number names |
| Analyzer.LineFindingsValid | client/src/services/analyzerService.ts:91-107 | each finding names a line that triggers, with that line's column, the rule's severity, id and message |
| Analyzer.LineFindingsIncreasing | client/src/services/analyzerService.ts:144-155 | line findings are in strictly increasing line order, one per line at most |
| Analyzer.LineFindingsComplete | client/src/services/analyzerService.ts:144-155 | every line that triggers is reported |
| Analyzer.Check | client/src/services/analyzerService.ts:197 | `rule.check(code)` returns the rule's findings |
| Analyzer.RuleFindingsTagged | client/src/services/analyzerService.ts:19-21 | every finding of a rule carries that rule's id and severity |
| Analyzer.RunRules | client/src/services/analyzerService.ts:194-199 | the rule loop collects each rule's findings in rule order |
| Analyzer.AllFindingsTagged | client/src/services/analyzerService.ts:196-199 | every collected finding carries the id and severity of one of the rules |
| Analyzer.Clamp | client/src/services/analyzerService.ts:212 | the clamp lies in [0, 100], keeps values already in range, and maps values below to 0 and above to 100 |
| Analyzer.ComputeScore | client/src/services/analyzerService.ts:202-212 | the scoring loop computes the clamped score |
| Analyzer.DeductionAppend | client/src/services/analyzerService.ts:205-209 | the penalties of two lists of findings add up |
| Analyzer.DeductionBySeverity | client/src/services/analyzerService.ts:205-209 | the penalty is 10 per error, 5 per warning and 1 per info |
| Analyzer.ScoreFormula | client/src/services/analyzerService.ts:202-212 | the score is 100 minus the weighted counts, clamped to [0, 100], and it is 100 exactly when there are no findings |
| Analyzer.ScoreNeverIncreases | client/src/services/analyzerService.ts:205-212 | adding findings never raises the score |
| Analyzer.AnalyzeCode | client/src/services/analyzerService.ts:185-230 | the result holds every rule's findings and their score; non-blank code is appended to the store with that result, and its id is returned when it is non-empty; blank code leaves the store alone and has no id |
| Analyzer.EmptyCodeIsClean | client/src/services/analyzerService.ts:185-212 | empty code has no findings and scores 100 |

## Left out

- Finding ids (`uuidv4()`) are not modelled. The `Issue` datatype has no `id` field, because the ids are random and nothing reads them.
- The random store id (`Math.random().toString(36)...`) and the current time (`new Date()`) are not computed. They are the parameters `freshId` and `now`. A `Date` is its millisecond value as an integer. The time `analyzeCode` passes in is the same `now`; `post` overwrites it anyway.
- The simulated 1500 ms delay, `async`/`await`, `console.log`/`console.error` and the `toast` notifications have no observable effect on results and are left out.
- The `catch` branches of `getAnalysisHistory` and `getAnalysisById`, and the `try` around the save in `analyzeCode`, are not modelled. They are unreachable because the in-memory `get` never throws, and `saveAnalysisResult` never throws to its caller. The `catch` of `saveAnalysisResult` is modelled: its own `throw` when `response?.id` is falsy ends in the `None` answer of `MockDb.MockApi.SaveAnalysisResult`.
- Text is modelled as a sequence of Unicode code points, while JavaScript's `length`, `indexOf` and `substring` count UTF-16 code units. On text with characters above U+FFFF, the model's lengths, columns and `max-line-length` decisions differ from the program's: each such character counts 1 in the model and 2 in the program. Text without such characters is counted the same.
- `\s` and `trim` use the ASCII whitespace set: space, tab, line feed, vertical tab, form feed and carriage return. JavaScript's set also holds Unicode spaces, such as the no-break space and U+2028, and the model does not treat those as whitespace.
- The store is the field `database` of a `MockApi` object that `AnalyzeCode` receives, rather than a module-level variable.
- Rendering is not part of this model. This covers the report's JSX, the `IssuesList` component, the progress bar and the tabs' layout. Only the counters, the tab filters and the two colour functions are modelled.
- The rest of the repository is not part of this model: the backend server, the other persistence variants, pages, routing and UI components.
- Analyzer.MatchRuleFindings: its own contract states only the number of findings. Their order, placement and tags are stated in `Analyzer.MatchRuleFindingsPlaced`.
- Analyzer.MatchFindingPlaced: the column is bounded (at least 1, at most the position's offset in its line plus one) rather than computed. Its exact value is `ColumnOf`, the first occurrence of the token in that line.
- Analyzer.MatchRuleFindingsPlaced: the column is bounded as in `Analyzer.MatchFindingPlaced`.
- Text.TrimStart, Text.TrimEnd and Text.Trim: their own contracts only bound the length. What is removed is stated in `Text.TrimStartShape`, `Text.TrimEndShape` and `Text.TrimEmptyIffBlank`.
- Report.OfSeverity: its own contract only bounds the length. What is kept is stated in `Report.OfSeverityFilters`.
