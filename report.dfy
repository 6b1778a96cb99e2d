/** The issue record shown by the report view, and the pure helpers the view
    derives from a list of issues: per-severity sub-lists and counts, the
    colour class of a severity and the colour band of a score. */
module Report {

  datatype Severity = Error | Warning | Info

  /** `IssueType` without its random `id`. `line` and `column` are 1-based
      positions as the rules compute them. */
  datatype Issue = Issue(line: int, column: int, severity: Severity, message: string, rule: string)

  /** The string the TypeScript union uses for each severity. */
  function SeverityName(s: Severity): string {
    match s
    case Error => "error"
    case Warning => "warning"
    case Info => "info"
  }

  /** `issues.filter(issue => issue.severity === sev)`. */
  function OfSeverity(issues: seq<Issue>, sev: Severity): (r: seq<Issue>)
    ensures |r| <= |issues|
  {
    if issues == [] then []
    else
      var init, last := issues[..|issues| - 1], issues[|issues| - 1];
      OfSeverity(init, sev) + (if last.severity == sev then [last] else [])
  }

  /** The filter keeps the issues of that severity, each as often as in
      `issues`, and nothing else. */
  lemma {:induction false} OfSeverityFilters(issues: seq<Issue>, sev: Severity)
    ensures forall x <- OfSeverity(issues, sev) :: x.severity == sev
    ensures forall x: Issue :: x.severity == sev ==> multiset(OfSeverity(issues, sev))[x] == multiset(issues)[x]
  {
    if issues != [] {
      var init, last := issues[..|issues| - 1], issues[|issues| - 1];
      OfSeverityFilters(init, sev);
      assert issues == init + [last];
    }
  }

  /** Filtering distributes over concatenation, so each tab lists its issues
      in their original order. */
  lemma {:induction false} OfSeverityAppend(a: seq<Issue>, b: seq<Issue>, sev: Severity)
    ensures OfSeverity(a + b, sev) == OfSeverity(a, sev) + OfSeverity(b, sev)
  {
    if b == [] {
      assert a + b == a;
    } else {
      var init, last := b[..|b| - 1], b[|b| - 1];
      assert (a + b)[..|a + b| - 1] == a + init;
      assert (a + b)[|a + b| - 1] == last;
      OfSeverityAppend(a, init, sev);
    }
  }

  /** `issues.filter(issue => issue.severity === sev).length`. */
  function Count(issues: seq<Issue>, sev: Severity): nat {
    |OfSeverity(issues, sev)|
  }

  /** Every issue has exactly one of the three severities, so the three
      counters of the report add up to the number of issues. */
  lemma {:induction false} CountsPartition(issues: seq<Issue>)
    ensures Count(issues, Error) + Count(issues, Warning) + Count(issues, Info) == |issues|
  {
    if issues != [] {
      CountsPartition(issues[..|issues| - 1]);
    }
  }

  const SeverityClassError := "bg-analyzer-error text-white"
  const SeverityClassWarning := "bg-analyzer-warning text-white"
  const SeverityClassInfo := "bg-analyzer-info text-white"
  const SeverityClassDefault := "bg-gray-500 text-white"

  /** `getSeverityColor`: the badge class for a severity string. */
  function SeverityColor(severity: string): string {
    if severity == "error" then SeverityClassError
    else if severity == "warning" then SeverityClassWarning
    else if severity == "info" then SeverityClassInfo
    else SeverityClassDefault
  }

  /** Each severity gets its own badge class, none of them the grey default,
      and every other string gets the default. */
  lemma SeverityColorClassifies(severity: string)
    ensures forall a: Severity, b: Severity :: SeverityColor(SeverityName(a)) == SeverityColor(SeverityName(b)) ==> a == b
    ensures forall s: Severity :: SeverityColor(SeverityName(s)) != SeverityClassDefault
    ensures SeverityColor(severity) == SeverityClassDefault <==>
      severity != "error" && severity != "warning" && severity != "info"
  {
  }

  const ScoreClassSuccess := "text-analyzer-success"
  const ScoreClassWarning := "text-analyzer-warning"
  const ScoreClassError := "text-analyzer-error"

  /** `getScoreColor`: the text class of a score. */
  function ScoreColor(score: int): string {
    if score >= 90 then ScoreClassSuccess
    else if score >= 70 then ScoreClassWarning
    else ScoreClassError
  }

  /** Rank of a score class, worst first. */
  function ScoreClassRank(c: string): nat {
    if c == ScoreClassError then 0 else if c == ScoreClassWarning then 1 else 2
  }

  /** The colour bands partition the scores: 90 and up is success, 70 to 89
      warning, below 70 error; a higher score never gets a worse band. */
  lemma ScoreColorBands(score: int, higher: int)
    ensures ScoreColor(score) == ScoreClassSuccess <==> score >= 90
    ensures ScoreColor(score) == ScoreClassWarning <==> 70 <= score < 90
    ensures ScoreColor(score) == ScoreClassError <==> score < 70
    ensures score <= higher ==> ScoreClassRank(ScoreColor(score)) <= ScoreClassRank(ScoreColor(higher))
  {
  }
}
