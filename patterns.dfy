/** The five regular expressions the lint rules search for, each written as an
    explicit matcher anchored at one position, and `String.prototype.match`
    with the global flag on top of them: leftmost, non-overlapping matches.

    None of the five has a match that depends on backtracking: every
    quantified part is followed by a character its class excludes, so the
    greedy run is the only run that can lead to a match. Each matcher is
    proved below to return the longest text starting at its position that
    the expression's language accepts (`RegexLang`), which is the match a
    backtracking engine reports. There is no leading word boundary in any of
    the expressions, so `outlet x;` holds a `let` declaration and `myeval(`
    an `eval` call. */
module Patterns {
  import opened Wrappers
  import opened Text

  /** The character classes used: `\s`, `\w`, `[^)]` and `[^;]`. */
  datatype CharClass = Space | Word | Not(c: char)

  predicate InClass(c: char, k: CharClass) {
    match k
    case Space => IsSpace(c)
    case Word => IsWordChar(c)
    case Not(x) => c != x
  }

  /** Every character of `s[a..b]` is in class `k`. */
  ghost predicate AllIn(s: string, a: int, b: int, k: CharClass) {
    0 <= a <= b <= |s| && forall j :: a <= j < b ==> InClass(s[j], k)
  }

  predicate CharAt(s: string, i: int, c: char) {
    0 <= i < |s| && s[i] == c
  }

  /** End of the greedy run of class `k` starting at `i`: `k*` matched as far
      as it goes. */
  function Run(s: string, i: nat, k: CharClass): (r: nat)
    requires i <= |s|
    ensures i <= r <= |s|
    decreases |s| - i
  {
    if i < |s| && InClass(s[i], k) then Run(s, i + 1, k) else i
  }

  /** The run covers only characters of the class and stops at the end of
      the text or at a character outside it. */
  lemma {:induction false} RunStops(s: string, i: nat, k: CharClass)
    requires i <= |s|
    ensures AllIn(s, i, Run(s, i, k), k)
    ensures Run(s, i, k) == |s| || !InClass(s[Run(s, i, k)], k)
    decreases |s| - i
  {
    if i < |s| && InClass(s[i], k) {
      RunStops(s, i + 1, k);
    }
  }

  /** A run of class `k` covering `s[a..b]` reaches at least `b`, and stops
      exactly at `b` when `s[b]` is outside the class. */
  lemma {:induction false} RunReaches(s: string, a: nat, b: int, k: CharClass)
    requires AllIn(s, a, b, k)
    ensures Run(s, a, k) >= b
    ensures b < |s| && !InClass(s[b], k) ==> Run(s, a, k) == b
    decreases b - a
  {
    if a < b {
      RunReaches(s, a + 1, b, k);
    }
  }

  datatype Pattern =
    | VarWord      // var\s+\w+
    | ConsoleCall  // console\.\w+\(
    | Declaration  // (?:let|const|var)\s+(\w+)(?:\s*=\s*[^;]+)?;
    | EmptyCatch   // catch\s*\([^)]*\)\s*{\s*}
    | EvalCall     // eval\s*\(

  const DeclarationKeywords: seq<string> := ["let", "const", "var"]

  /** Length of the declaration keyword at `i`, or 0 when there is none (the
      three keywords start with different letters, so at most one fits). */
  function KeywordLength(s: string, i: nat): (n: nat)
    ensures n == 0 || i + n <= |s|
  {
    if At(s, i, "let") then 3
    else if At(s, i, "const") then 5
    else if At(s, i, "var") then 3
    else 0
  }

  /** The length is 0 exactly when no keyword is at `i`, and otherwise it
      spans a keyword. */
  lemma KeywordLengthFits(s: string, i: nat)
    ensures var n := KeywordLength(s, i);
      (n == 0 <==> forall kw <- DeclarationKeywords :: !At(s, i, kw)) &&
      (n != 0 ==> s[i..i + n] in DeclarationKeywords)
  {
  }

  /** `(?:let|const|var)\s+(\w+)` at `i`: the bounds of the captured name. */
  function NameAt(s: string, i: nat): (r: Option<(nat, nat)>)
    ensures r.Some? ==> i < r.value.0 < r.value.1 <= |s|
  {
    var n := KeywordLength(s, i);
    if n == 0 then None
    else
      var k := Run(s, i + n, Space);
      if k == i + n then None
      else
        var m := Run(s, k, Word);
        if m == k then None else Some((k, m))
  }

  /** The rest of a declaration after its name ends at `m`:
      `(?:\s*=\s*[^;]+)?;`. The optional group is tried first; `\s*[^;]+`
      after `=` is one run of non-`;` characters that must be followed by `;`. */
  function DeclarationEnd(s: string, m: nat): (r: Option<nat>)
    requires m <= |s|
    ensures r.Some? ==> m < r.value <= |s|
  {
    var p := Run(s, m, Space);
    var q := if CharAt(s, p, '=') then Run(s, p + 1, Not(';')) else p;
    if CharAt(s, p, '=') && q > p + 1 && CharAt(s, q, ';') then Some(q + 1)
    else if CharAt(s, m, ';') then Some(m + 1)
    else None
  }

  /** `var\s+\w+` anchored at `i`. */
  function VarWordAt(s: string, i: nat): (r: Option<nat>)
    ensures r.Some? ==> i < r.value <= |s|
  {
    if !At(s, i, "var") then None
    else
      var k := Run(s, i + 3, Space);
      var e := Run(s, k, Word);
      if k == i + 3 || e == k then None else Some(e)
  }

  /** `console\.\w+\(` anchored at `i`. */
  function ConsoleCallAt(s: string, i: nat): (r: Option<nat>)
    ensures r.Some? ==> i < r.value <= |s|
  {
    if !At(s, i, "console.") then None
    else
      var w := Run(s, i + 8, Word);
      if w > i + 8 && CharAt(s, w, '(') then Some(w + 1) else None
  }

  /** `(?:let|const|var)\s+(\w+)(?:\s*=\s*[^;]+)?;` anchored at `i`. */
  function DeclarationAt(s: string, i: nat): (r: Option<nat>)
    ensures r.Some? ==> i < r.value <= |s|
  {
    var name := NameAt(s, i);
    if name.None? then None else DeclarationEnd(s, name.value.1)
  }

  /** `k*c` from `i`: the position after `c`, when `c` follows the run. */
  function RunThen(s: string, i: nat, k: CharClass, c: char): (r: Option<nat>)
    requires i <= |s|
    ensures r.Some? ==> i < r.value <= |s|
  {
    var e := Run(s, i, k);
    if CharAt(s, e, c) then Some(e + 1) else None
  }

  /** `catch\s*\([^)]*\)\s*{\s*}` anchored at `i`. */
  function EmptyCatchAt(s: string, i: nat): (r: Option<nat>)
    ensures r.Some? ==> i < r.value <= |s|
  {
    if !At(s, i, "catch") then None
    else match RunThen(s, i + 5, Space, '(')
      case None => None
      case Some(a) => match RunThen(s, a, Not(')'), ')')
        case None => None
        case Some(b) => match RunThen(s, b, Space, '{')
          case None => None
          case Some(c) => RunThen(s, c, Space, '}')
  }

  /** `eval\s*\(` anchored at `i`. */
  function EvalCallAt(s: string, i: nat): (r: Option<nat>)
    ensures r.Some? ==> i < r.value <= |s|
  {
    if !At(s, i, "eval") then None
    else
      var k := Run(s, i + 4, Space);
      if CharAt(s, k, '(') then Some(k + 1) else None
  }

  /** The end of the match of pattern `p` anchored at `i`, if there is one. */
  function MatchAt(p: Pattern, s: string, i: nat): (r: Option<nat>)
    ensures r.Some? ==> i < r.value <= |s|
  {
    match p
    case VarWord => VarWordAt(s, i)
    case ConsoleCall => ConsoleCallAt(s, i)
    case Declaration => DeclarationAt(s, i)
    case EmptyCatch => EmptyCatchAt(s, i)
    case EvalCall => EvalCallAt(s, i)
  }

  /** The token a rule's column is taken from; every match of the pattern
      starts with it. The declaration pattern has none: `no-unused-vars`
      takes its column from the captured name. */
  function Lead(p: Pattern): string
    requires !p.Declaration?
  {
    match p
    case VarWord => "var"
    case ConsoleCall => "console"
    case EmptyCatch => "catch"
    case EvalCall => "eval"
  }

  lemma MatchStartsWithLead(p: Pattern, s: string, i: nat)
    requires !p.Declaration? && MatchAt(p, s, i).Some?
    ensures At(s, i, Lead(p)) && i + |Lead(p)| <= MatchAt(p, s, i).value
  {
    match p
    case VarWord =>
    case ConsoleCall =>
      assert s[i..i + 7] == s[i..i + 8][..7];
    case EmptyCatch =>
    case EvalCall =>
  }

  /** No lead spans a line break. */
  lemma LeadIsOneLine(p: Pattern)
    requires !p.Declaration?
    ensures '\n' !in Lead(p)
  {
    match p
    case VarWord =>
    case ConsoleCall =>
    case EmptyCatch =>
    case EvalCall =>
  }

  lemma AtFirst(s: string, i: int, t: string)
    requires At(s, i, t) && t != []
    ensures s[i] == t[0]
  {
    assert s[i..i + |t|][0] == s[i];
  }

  /** A `\w` character is never whitespace. */
  lemma WordIsNotSpace(c: char)
    ensures IsWordChar(c) ==> !IsSpace(c)
  {
  }

  // ---------------------------------------------------------------------
  // The expressions read as languages: `RegexLang(p, s, i, e)` says that
  // `s[i..e]` is accepted by pattern `p`, piece by piece, with no
  // preference among the ways of splitting it.
  // ---------------------------------------------------------------------

  /** `(?:let|const|var)\s+(\w+)` accepts `s[i..m]`, capturing `s[k..m]`. */
  ghost predicate NameLang(s: string, i: nat, k: int, m: int) {
    exists kw :: NameParts(s, i, kw, k, m)
  }

  /** Keyword `kw` at `i`, spaces up to `k`, word characters up to `m`. */
  ghost predicate NameParts(s: string, i: nat, kw: string, k: int, m: int) {
    kw in DeclarationKeywords && At(s, i, kw) && i + |kw| < k < m &&
    AllIn(s, i + |kw|, k, Space) && AllIn(s, k, m, Word)
  }

  /** `\s*[^;]+;` accepts `s[a..e]`. */
  ghost predicate ValueLang(s: string, a: int, e: int) {
    exists q :: AllIn(s, a, q, Space) && q < e - 1 && AllIn(s, q, e - 1, Not(';')) && CharAt(s, e - 1, ';')
  }

  /** `(?:\s*=\s*[^;]+)?;` accepts `s[m..e]`. */
  ghost predicate TailLang(s: string, m: int, e: int) {
    || (CharAt(s, m, ';') && e == m + 1)
    || exists p :: AllIn(s, m, p, Space) && CharAt(s, p, '=') && ValueLang(s, p + 1, e)
  }

  ghost predicate VarWordLang(s: string, i: nat, e: int) {
    exists k :: At(s, i, "var") && i + 3 < k < e && AllIn(s, i + 3, k, Space) && AllIn(s, k, e, Word)
  }

  ghost predicate ConsoleCallLang(s: string, i: nat, e: int) {
    exists w :: At(s, i, "console.") && i + 8 < w && AllIn(s, i + 8, w, Word) && CharAt(s, w, '(') && e == w + 1
  }

  ghost predicate DeclarationLang(s: string, i: nat, e: int) {
    exists k, m :: NameLang(s, i, k, m) && TailLang(s, m, e)
  }

  /** `catch`, spaces up to `a`, `(`, non-`)` up to `b`, `)`, spaces up to
      `c`, `{`, spaces up to `d`, `}`. */
  ghost predicate CatchParts(s: string, i: nat, a: int, b: int, c: int, d: int) {
    At(s, i, "catch") && AllIn(s, i + 5, a, Space) && CharAt(s, a, '(') &&
    AllIn(s, a + 1, b, Not(')')) && CharAt(s, b, ')') && AllIn(s, b + 1, c, Space) &&
    CharAt(s, c, '{') && AllIn(s, c + 1, d, Space) && CharAt(s, d, '}')
  }

  ghost predicate EmptyCatchLang(s: string, i: nat, e: int) {
    exists a, b, c, d :: CatchParts(s, i, a, b, c, d) && e == d + 1
  }

  ghost predicate EvalCallLang(s: string, i: nat, e: int) {
    exists k :: At(s, i, "eval") && AllIn(s, i + 4, k, Space) && CharAt(s, k, '(') && e == k + 1
  }

  /** Pattern `p` accepts `s[i..e]`. */
  ghost predicate RegexLang(p: Pattern, s: string, i: nat, e: int) {
    match p
    case VarWord => VarWordLang(s, i, e)
    case ConsoleCall => ConsoleCallLang(s, i, e)
    case Declaration => DeclarationLang(s, i, e)
    case EmptyCatch => EmptyCatchLang(s, i, e)
    case EvalCall => EvalCallLang(s, i, e)
  }

  /** `NameAt` finds the capture of the longest accepted text: every accepted
      split has the same name start and ends no later. */
  lemma NameAtIsLongest(s: string, i: nat)
    ensures var r := NameAt(s, i);
      (r.Some? ==> NameLang(s, i, r.value.0, r.value.1)) &&
      forall k, m :: NameLang(s, i, k, m) ==> r.Some? && k == r.value.0 && m <= r.value.1
  {
    if NameAt(s, i).Some? {
      NameAccepted(s, i);
    }
    forall k, m | NameLang(s, i, k, m)
      ensures NameAt(s, i).Some? && k == NameAt(s, i).value.0 && m <= NameAt(s, i).value.1
    {
      var kw :| NameParts(s, i, kw, k, m);
      NameLongest(s, i, kw, k, m);
    }
  }

  /** What `NameAt` captures is accepted. */
  lemma NameAccepted(s: string, i: nat)
    requires NameAt(s, i).Some?
    ensures NameLang(s, i, NameAt(s, i).value.0, NameAt(s, i).value.1)
  {
    var (k, m) := NameAt(s, i).value;
    var n := KeywordLength(s, i);
    KeywordLengthFits(s, i);
    var kw := s[i..i + n];
    assert At(s, i, kw);
    RunStops(s, i + n, Space);
    RunStops(s, k, Word);
    assert NameParts(s, i, kw, k, m);
  }

  /** Any accepted split has the name `NameAt` captures, or a prefix of it. */
  lemma NameLongest(s: string, i: nat, kw: string, k: int, m: int)
    requires NameParts(s, i, kw, k, m)
    ensures NameAt(s, i).Some? && k == NameAt(s, i).value.0 && m <= NameAt(s, i).value.1
  {
    var n := KeywordLength(s, i);
    assert n == |kw| by {
      AtFirst(s, i, kw);
      if At(s, i, "let") { AtFirst(s, i, "let"); }
      if At(s, i, "const") { AtFirst(s, i, "const"); }
    }
    WordIsNotSpace(s[k]);
    RunReaches(s, i + n, k, Space);
    RunReaches(s, k, m, Word);
  }

  /** What follows a declared name must start outside `\w`. */
  lemma TailStartsOutsideWord(s: string, m: int, e: int)
    requires TailLang(s, m, e)
    ensures 0 <= m < |s| && !IsWordChar(s[m])
  {
    if !(CharAt(s, m, ';') && e == m + 1) {
      var p :| AllIn(s, m, p, Space) && CharAt(s, p, '=') && ValueLang(s, p + 1, e);
      if p > m { WordIsNotSpace(s[m]); }
    }
  }

  /** `DeclarationEnd` finds the only accepted tail. */
  lemma DeclarationEndIsTail(s: string, m: nat)
    requires m <= |s|
    ensures var r := DeclarationEnd(s, m);
      (r.Some? ==> TailLang(s, m, r.value)) &&
      forall e :: TailLang(s, m, e) ==> r == Some(e)
  {
    if DeclarationEnd(s, m).Some? {
      DeclarationEndAccepted(s, m);
    }
    forall e | TailLang(s, m, e) ensures DeclarationEnd(s, m) == Some(e) {
      if CharAt(s, m, ';') && e == m + 1 {
        RunReaches(s, m, m, Space);
      } else {
        var p :| AllIn(s, m, p, Space) && CharAt(s, p, '=') && ValueLang(s, p + 1, e);
        var q :| AllIn(s, p + 1, q, Space) && q < e - 1 && AllIn(s, q, e - 1, Not(';')) && CharAt(s, e - 1, ';');
        DeclarationValueOnly(s, m, p, q, e);
      }
    }
  }

  /** What the matcher finds after the name is an accepted tail. */
  lemma DeclarationEndAccepted(s: string, m: nat)
    requires m <= |s| && DeclarationEnd(s, m).Some?
    ensures TailLang(s, m, DeclarationEnd(s, m).value)
  {
    var p := Run(s, m, Space);
    RunStops(s, m, Space);
    if CharAt(s, p, '=') {
      var q := Run(s, p + 1, Not(';'));
      RunStops(s, p + 1, Not(';'));
      if q > p + 1 && CharAt(s, q, ';') {
        assert AllIn(s, p + 1, p + 1, Space) && p + 1 < (q + 1) - 1 &&
          AllIn(s, p + 1, (q + 1) - 1, Not(';')) && CharAt(s, (q + 1) - 1, ';');
        assert AllIn(s, m, p, Space) && CharAt(s, p, '=') && ValueLang(s, p + 1, q + 1);
      }
    }
  }

  /** An initialised tail, however its spaces are split, is the one the
      matcher finds; `[^;]+` swallows the spaces after `=`. */
  lemma DeclarationValueOnly(s: string, m: nat, p: int, q: int, e: int)
    requires m <= |s| && AllIn(s, m, p, Space) && CharAt(s, p, '=')
    requires AllIn(s, p + 1, q, Space) && q < e - 1 && AllIn(s, q, e - 1, Not(';')) && CharAt(s, e - 1, ';')
    ensures DeclarationEnd(s, m) == Some(e)
  {
    RunReaches(s, m, p, Space);
    assert Run(s, m, Space) == p;
    assert AllIn(s, p + 1, e - 1, Not(';')) by {
      forall j | p + 1 <= j < e - 1 ensures s[j] != ';' {
        if j < q { assert IsSpace(s[j]); }
      }
    }
    RunReaches(s, p + 1, e - 1, Not(';'));
    assert Run(s, p + 1, Not(';')) == e - 1;
  }

  lemma VarWordIsLongest(s: string, i: nat)
    ensures var r := VarWordAt(s, i);
      (r.Some? ==> VarWordLang(s, i, r.value)) &&
      forall e :: VarWordLang(s, i, e) ==> r.Some? && e <= r.value
  {
    var r := VarWordAt(s, i);
    if r.Some? {
      var k := Run(s, i + 3, Space);
      RunStops(s, i + 3, Space);
      RunStops(s, k, Word);
      assert At(s, i, "var") && i + 3 < k < r.value && AllIn(s, i + 3, k, Space) && AllIn(s, k, r.value, Word);
    }
    forall e | VarWordLang(s, i, e) ensures r.Some? && e <= r.value {
      var k :| At(s, i, "var") && i + 3 < k < e && AllIn(s, i + 3, k, Space) && AllIn(s, k, e, Word);
      WordIsNotSpace(s[k]);
      RunReaches(s, i + 3, k, Space);
      RunReaches(s, k, e, Word);
    }
  }

  lemma ConsoleCallIsOnly(s: string, i: nat)
    ensures var r := ConsoleCallAt(s, i);
      (r.Some? ==> ConsoleCallLang(s, i, r.value)) &&
      forall e :: ConsoleCallLang(s, i, e) ==> r == Some(e)
  {
    var r := ConsoleCallAt(s, i);
    if r.Some? {
      var w := Run(s, i + 8, Word);
      RunStops(s, i + 8, Word);
      assert At(s, i, "console.") && i + 8 < w && AllIn(s, i + 8, w, Word) && CharAt(s, w, '(') && r.value == w + 1;
    }
    forall e | ConsoleCallLang(s, i, e) ensures r == Some(e) {
      var w :| At(s, i, "console.") && i + 8 < w && AllIn(s, i + 8, w, Word) && CharAt(s, w, '(') && e == w + 1;
      RunReaches(s, i + 8, w, Word);
    }
  }

  lemma EvalCallIsOnly(s: string, i: nat)
    ensures var r := EvalCallAt(s, i);
      (r.Some? ==> EvalCallLang(s, i, r.value)) &&
      forall e :: EvalCallLang(s, i, e) ==> r == Some(e)
  {
    var r := EvalCallAt(s, i);
    if r.Some? {
      var k := Run(s, i + 4, Space);
      RunStops(s, i + 4, Space);
      assert At(s, i, "eval") && AllIn(s, i + 4, k, Space) && CharAt(s, k, '(') && r.value == k + 1;
    }
    forall e | EvalCallLang(s, i, e) ensures r == Some(e) {
      var k :| At(s, i, "eval") && AllIn(s, i + 4, k, Space) && CharAt(s, k, '(') && e == k + 1;
      RunReaches(s, i + 4, k, Space);
    }
  }

  /** What `RunThen` finds is a run of the class followed by `c`. */
  lemma RunThenAccepts(s: string, i: nat, k: CharClass, c: char)
    requires i <= |s| && RunThen(s, i, k, c).Some?
    ensures var e := RunThen(s, i, k, c).value - 1; AllIn(s, i, e, k) && CharAt(s, e, c)
  {
    RunStops(s, i, k);
  }

  /** A run of the class followed by a `c` outside the class is what
      `RunThen` finds. */
  lemma RunThenOnly(s: string, i: nat, k: CharClass, c: char, e: int)
    requires AllIn(s, i, e, k) && CharAt(s, e, c) && !InClass(c, k)
    ensures RunThen(s, i, k, c) == Some(e + 1)
  {
    RunReaches(s, i, e, k);
  }

  lemma EmptyCatchIsOnly(s: string, i: nat)
    ensures var r := EmptyCatchAt(s, i);
      (r.Some? ==> EmptyCatchLang(s, i, r.value)) &&
      forall e :: EmptyCatchLang(s, i, e) ==> r == Some(e)
  {
    if EmptyCatchAt(s, i).Some? {
      EmptyCatchAccepted(s, i);
    }
    forall e | EmptyCatchLang(s, i, e) ensures EmptyCatchAt(s, i) == Some(e) {
      EmptyCatchUnique(s, i, e);
    }
  }

  lemma EmptyCatchUnique(s: string, i: nat, e: int)
    requires EmptyCatchLang(s, i, e)
    ensures EmptyCatchAt(s, i) == Some(e)
  {
    var a, b, c, d :| CatchParts(s, i, a, b, c, d) && e == d + 1;
    EmptyCatchSplit(s, i, a, b, c, d);
  }

  /** What the matcher finds is accepted. */
  lemma EmptyCatchAccepted(s: string, i: nat)
    requires EmptyCatchAt(s, i).Some?
    ensures EmptyCatchLang(s, i, EmptyCatchAt(s, i).value)
  {
    var a := RunThen(s, i + 5, Space, '(').value;
    var b := RunThen(s, a, Not(')'), ')').value;
    var c := RunThen(s, b, Space, '{').value;
    var d := RunThen(s, c, Space, '}').value;
    RunThenAccepts(s, i + 5, Space, '(');
    RunThenAccepts(s, a, Not(')'), ')');
    RunThenAccepts(s, b, Space, '{');
    RunThenAccepts(s, c, Space, '}');
    assert CatchParts(s, i, a - 1, b - 1, c - 1, d - 1);
  }

  /** Any way of splitting an accepted `catch` is the one the matcher finds. */
  lemma EmptyCatchSplit(s: string, i: nat, a: int, b: int, c: int, d: int)
    requires CatchParts(s, i, a, b, c, d)
    ensures EmptyCatchAt(s, i) == Some(d + 1)
  {
    RunThenOnly(s, i + 5, Space, '(', a);
    RunThenOnly(s, a + 1, Not(')'), ')', b);
    RunThenOnly(s, b + 1, Space, '{', c);
    RunThenOnly(s, c + 1, Space, '}', d);
  }

  lemma DeclarationIsOnly(s: string, i: nat)
    ensures var r := DeclarationAt(s, i);
      (r.Some? ==> DeclarationLang(s, i, r.value)) &&
      forall e :: DeclarationLang(s, i, e) ==> r == Some(e)
  {
    var r := DeclarationAt(s, i);
    NameAtIsLongest(s, i);
    var name := NameAt(s, i);
    if name.Some? {
      DeclarationEndIsTail(s, name.value.1);
    }
    if r.Some? {
      assert NameLang(s, i, name.value.0, name.value.1) && TailLang(s, name.value.1, r.value);
    }
    forall e | DeclarationLang(s, i, e) ensures r == Some(e) {
      var k, m :| NameLang(s, i, k, m) && TailLang(s, m, e);
      TailStartsOutsideWord(s, m, e);
      var kw :| NameParts(s, i, kw, k, m);
      RunReaches(s, k, m, Word);
      assert m == name.value.1;
    }
  }

  /** Each matcher agrees with its expression: it answers exactly when some
      text starting at `i` is accepted, and then with the longest one (for
      every pattern but `var\s+\w+` the accepted text is unique). */
  lemma MatchAtIsLongest(p: Pattern, s: string, i: nat)
    ensures MatchAt(p, s, i).Some? ==> RegexLang(p, s, i, MatchAt(p, s, i).value)
    ensures forall e :: RegexLang(p, s, i, e) ==> MatchAt(p, s, i).Some? && e <= MatchAt(p, s, i).value
  {
    match p
    case VarWord => VarWordIsLongest(s, i);
    case ConsoleCall => ConsoleCallIsOnly(s, i);
    case Declaration => DeclarationIsOnly(s, i);
    case EmptyCatch => EmptyCatchIsOnly(s, i);
    case EvalCall => EvalCallIsOnly(s, i);
  }

  // ---------------------------------------------------------------------
  // `code.match(re)` with the global flag.
  // ---------------------------------------------------------------------

  /** The bounds of one match: `s[start..end]`. */
  datatype Span = Span(start: nat, end: nat)

  /** A matcher anchored at each position: the end of the match starting
      there, if any. */
  type Matcher = nat -> Option<nat>

  /** Pattern `p` over text `s` as a matcher. */
  function MatcherOf(p: Pattern, s: string): Matcher {
    j => MatchAt(p, s, j)
  }

  /** No match starts anywhere in `[a, b)`. */
  ghost predicate NoMatchIn(m: Matcher, a: int, b: int) {
    forall j: nat :: a <= j < b ==> m(j).None?
  }

  /** `spans` is what a global search over a text of length `n` reports
      when it starts at `from`: either no match starts in `[from, n)`, or the
      first span starts at the first position at or after `from` where a
      match starts, covers that match, and the rest is the search resumed at
      its end. */
  ghost predicate IsGlobalSearch(m: Matcher, n: nat, from: nat, spans: seq<Span>)
    decreases |spans|
  {
    if spans == [] then NoMatchIn(m, from, n)
    else
      && from <= spans[0].start < spans[0].end <= n
      && m(spans[0].start) == Some(spans[0].end)
      && NoMatchIn(m, from, spans[0].start)
      && IsGlobalSearch(m, n, spans[0].end, spans[1..])
  }

  /** Every match the matcher reports ends after its start and within `n`. */
  ghost predicate Advances(m: Matcher, n: nat) {
    forall j: nat :: m(j).Some? ==> j < m(j).value <= n
  }

  lemma MatcherAdvances(p: Pattern, s: string)
    ensures Advances(MatcherOf(p, s), |s|)
  {
  }

  /** The leftmost-first, non-overlapping scan from `from`: take the match at
      the first position that has one, then go on from its end. */
  function Scan(m: Matcher, n: nat, from: nat): (r: seq<Span>)
    requires from <= n && Advances(m, n)
    ensures forall k :: 0 <= k < |r| ==> from <= r[k].start < r[k].end <= n
    decreases n - from
  {
    if from == n then []
    else match m(from)
      case Some(e) => [Span(from, e)] + Scan(m, n, e)
      case None => Scan(m, n, from + 1)
  }

  /** The scan reports exactly the matches of a global search. */
  lemma {:induction false} ScanIsGlobalSearch(m: Matcher, n: nat, from: nat)
    requires from <= n && Advances(m, n)
    ensures IsGlobalSearch(m, n, from, Scan(m, n, from))
    decreases n - from
  {
    var r := Scan(m, n, from);
    if from == n {
    } else if m(from).Some? {
      var e := m(from).value;
      ScanIsGlobalSearch(m, n, e);
      assert r[1..] == Scan(m, n, e);
    } else {
      ScanIsGlobalSearch(m, n, from + 1);
      assert r == Scan(m, n, from + 1);
      if r != [] {
        assert NoMatchIn(m, from + 1, r[0].start);
      }
    }
  }

  /** The spans `s.match(p)` reports. */
  function Spans(p: Pattern, s: string): seq<Span> {
    MatcherAdvances(p, s);
    Scan(MatcherOf(p, s), |s|, 0)
  }

  /** The spans are those of a global search for `p` over `s`. */
  lemma SpansAreGlobalSearch(p: Pattern, s: string)
    ensures IsGlobalSearch(MatcherOf(p, s), |s|, 0, Spans(p, s))
  {
    MatcherAdvances(p, s);
    ScanIsGlobalSearch(MatcherOf(p, s), |s|, 0);
  }

  /** The matches of a global search lie in `[from, n)`, in order, without
      overlapping. */
  lemma {:induction false} GlobalSearchOrdered(m: Matcher, n: nat, from: nat, spans: seq<Span>)
    requires IsGlobalSearch(m, n, from, spans)
    ensures forall k :: 0 <= k < |spans| ==> from <= spans[k].start < spans[k].end <= n
    ensures forall k :: 0 < k < |spans| ==> spans[k - 1].end <= spans[k].start
    decreases |spans|
  {
    if spans != [] {
      var rest := spans[1..];
      GlobalSearchOrdered(m, n, spans[0].end, rest);
      forall k | 0 < k < |spans| ensures spans[k - 1].end <= spans[k].start {
        assert spans[k] == rest[k - 1];
        if k > 1 { assert spans[k - 1] == rest[k - 2]; }
      }
      forall k | 0 <= k < |spans| ensures from <= spans[k].start < spans[k].end <= n {
        if k > 0 { assert spans[k] == rest[k - 1]; }
      }
    }
  }

  /** Every span a global search reports is a match. */
  lemma {:induction false} GlobalSearchMatchAt(m: Matcher, n: nat, from: nat, spans: seq<Span>, k: nat)
    requires IsGlobalSearch(m, n, from, spans) && k < |spans|
    ensures m(spans[k].start) == Some(spans[k].end)
    decreases k
  {
    if k > 0 {
      GlobalSearchMatchAt(m, n, spans[0].end, spans[1..], k - 1);
      assert spans[1..][k - 1] == spans[k];
    }
  }

  /** A global search has only one outcome. */
  lemma {:induction false} GlobalSearchUnique(m: Matcher, n: nat, from: nat, a: seq<Span>, b: seq<Span>)
    requires IsGlobalSearch(m, n, from, a) && IsGlobalSearch(m, n, from, b)
    ensures a == b
    decreases |a|
  {
    if a != [] && b != [] {
      assert m(a[0].start).Some? && m(b[0].start).Some?;
      assert a[0].start == b[0].start;
      GlobalSearchUnique(m, n, a[0].end, a[1..], b[1..]);
      assert a == [a[0]] + a[1..] && b == [b[0]] + b[1..];
    }
  }

  /** `code.match(re) || []`: the matched texts, in order. */
  function Matches(p: Pattern, s: string): (r: seq<string>)
    ensures var spans := Spans(p, s);
      |r| == |spans| && forall k :: 0 <= k < |r| ==> r[k] == s[spans[k].start..spans[k].end]
  {
    var spans := Spans(p, s);
    seq(|spans|, k requires 0 <= k < |spans| => s[spans[k].start..spans[k].end])
  }

  /** Each matched text is accepted by the expression at its start, and no
      accepted text starting there is longer: the text a backtracking engine
      reports for that match. */
  lemma MatchesAccepted(p: Pattern, s: string)
    ensures var spans, r := Spans(p, s), Matches(p, s);
      forall k :: 0 <= k < |r| ==>
        r[k] == s[spans[k].start..spans[k].end] &&
        RegexLang(p, s, spans[k].start, spans[k].end) &&
        forall e :: RegexLang(p, s, spans[k].start, e) ==> e <= spans[k].end
  {
    var spans := Spans(p, s);
    SpansAreGlobalSearch(p, s);
    forall k | 0 <= k < |spans|
      ensures RegexLang(p, s, spans[k].start, spans[k].end) &&
        forall e :: RegexLang(p, s, spans[k].start, e) ==> e <= spans[k].end
    {
      GlobalSearchMatchAt(MatcherOf(p, s), |s|, 0, spans, k);
      assert MatchAt(p, s, spans[k].start) == Some(spans[k].end);
      MatchAtIsLongest(p, s, spans[k].start);
    }
  }

  // ---------------------------------------------------------------------
  // The capture `declaration.match(/(?:let|const|var)\s+(\w+)/)?.[1]`.
  // ---------------------------------------------------------------------

  /** The name captured by the leftmost match in `d` at or after `from`. */
  function FirstName(d: string, from: nat): (r: Option<string>)
    decreases |d| + 1 - from
  {
    if from > |d| then None
    else match NameAt(d, from)
      case Some((k, m)) => Some(d[k..m])
      case None => FirstName(d, from + 1)
  }

  /** Where the leftmost capture search finds something, the capture is
      a run of word characters after one of the keywords and whitespace;
      where it finds nothing, no position starts such a text. */
  lemma {:induction false} FirstNameFound(d: string, from: nat)
    ensures FirstName(d, from).Some? ==>
      exists i, k, m :: from <= i && NameLang(d, i, k, m) && FirstName(d, from).value == d[k..m]
    ensures FirstName(d, from).None? ==>
      forall i: nat, k, m :: from <= i ==> !NameLang(d, i, k, m)
    decreases |d| + 1 - from
  {
    if from <= |d| {
      NameAtIsLongest(d, from);
      if NameAt(d, from).None? {
        FirstNameFound(d, from + 1);
        if FirstName(d, from).None? {
          forall i: nat, k, m | from <= i ensures !NameLang(d, i, k, m) {
            if i == from {
            } else {
            }
          }
        }
      } else {
        var (k, m) := NameAt(d, from).value;
        assert from <= from && NameLang(d, from, k, m) && FirstName(d, from).value == d[k..m];
      }
    } else {
      forall i: nat, k, m | from <= i ensures !NameLang(d, i, k, m) {
      }
    }
  }

  /** The rule feeds each matched declaration back through the shorter
      expression; that capture is the name the declaration match saw. */
  lemma DeclaredName(s: string, i: nat)
    requires DeclarationAt(s, i).Some?
    ensures NameAt(s, i).Some?
    ensures var e := DeclarationAt(s, i).value;
      var (k, m) := NameAt(s, i).value;
      FirstName(s[i..e], 0) == Some(s[k..m])
  {
    var e := DeclarationAt(s, i).value;
    var (k, m) := NameAt(s, i).value;
    var d := s[i..e];
    assert m < e;
    NameInSlice(s, i, e);
    assert FirstName(d, 0) == Some(d[k - i..m - i]);
    assert d[k - i..m - i] == s[k..m];
  }

  /** A name capture at `i` that ends before `e` is found at the start of
      `s[i..e]` as well. */
  lemma NameInSlice(s: string, i: nat, e: nat)
    requires NameAt(s, i).Some? && NameAt(s, i).value.1 < e <= |s|
    ensures var (k, m) := NameAt(s, i).value; NameAt(s[i..e], 0) == Some((k - i, m - i))
  {
    var (k, m) := NameAt(s, i).value;
    var n := KeywordLength(s, i);
    assert k == Run(s, i + n, Space) && m == Run(s, k, Word);
    KeywordInSlice(s, i, e);
    RunInSlice(s, i, e, i + n, Space);
    RunInSlice(s, i, e, k, Word);
  }

  /** The keyword at `i` is found again at the start of `s[i..e]` when it
      ends by `e`. */
  lemma KeywordInSlice(s: string, i: nat, e: nat)
    requires KeywordLength(s, i) != 0 && i + KeywordLength(s, i) <= e <= |s|
    ensures KeywordLength(s[i..e], 0) == KeywordLength(s, i)
  {
    if At(s, i, "let") { AtFirst(s, i, "let"); }
    if At(s, i, "const") { AtFirst(s, i, "const"); }
    SliceAt(s, i, e, "let");
    SliceAt(s, i, e, "const");
    SliceAt(s, i, e, "var");
  }

  /** A keyword fits at the start of `s[i..e]` exactly when it fits at `i`,
      provided it does not run past `e`. */
  lemma SliceAt(s: string, i: nat, e: nat, t: string)
    requires i <= e <= |s|
    requires i + |t| <= e || !At(s, i, t)
    ensures At(s[i..e], 0, t) <==> At(s, i, t)
  {
    if i + |t| <= e {
      assert s[i..e][0..|t|] == s[i..i + |t|];
    }
  }

  /** A run that stops before `e` stops at the same place inside `s[i..e]`. */
  lemma RunInSlice(s: string, i: nat, e: nat, j: nat, k: CharClass)
    requires i <= j <= e <= |s| && Run(s, j, k) < e
    ensures Run(s[i..e], j - i, k) == Run(s, j, k) - i
  {
    var d := s[i..e];
    var r := Run(s, j, k);
    RunStops(s, j, k);
    assert AllIn(d, j - i, r - i, k) by {
      forall x | j - i <= x < r - i ensures InClass(d[x], k) { assert d[x] == s[x + i]; }
    }
    assert d[r - i] == s[r];
    RunReaches(d, j - i, r - i, k);
  }

  // ---------------------------------------------------------------------
  // Whole-word tests: `\b(?:w)\b` for a word `w` (the rules only build
  // these from `\w+` captures and fixed keywords, so no character of `w`
  // has a meaning of its own in the expression).
  // ---------------------------------------------------------------------

  /** `\b` at position `i`: a `\w` character on exactly one side. */
  predicate Boundary(s: string, i: int) {
    (0 < i <= |s| && IsWordChar(s[i - 1])) != (0 <= i < |s| && IsWordChar(s[i]))
  }

  /** `\bw\b` matches at `i`. */
  predicate WholeWordAt(s: string, i: int, w: string) {
    At(s, i, w) && Boundary(s, i) && Boundary(s, i + |w|)
  }

  /** `/\b(?:w1|w2|...)\b/.test(s)` with the search starting at `i`: tries
      each position in turn, and every alternative at each position. */
  predicate ContainsWordFrom(s: string, words: seq<string>, i: nat)
    decreases |s| + 1 - i
  {
    i <= |s| && ((exists w <- words :: WholeWordAt(s, i, w)) || ContainsWordFrom(s, words, i + 1))
  }

  /** `/\bw\b/.test(s)`. */
  predicate ContainsWord(s: string, w: string) {
    ContainsWordFrom(s, [w], 0)
  }

  lemma {:induction false} ContainsWordFromIff(s: string, words: seq<string>, i: nat)
    ensures ContainsWordFrom(s, words, i) <==>
      exists j, w :: i <= j <= |s| && w in words && WholeWordAt(s, j, w)
    decreases |s| + 1 - i
  {
    if i <= |s| {
      ContainsWordFromIff(s, words, i + 1);
      if exists j, w :: i <= j <= |s| && w in words && WholeWordAt(s, j, w) {
        var j, w :| i <= j <= |s| && w in words && WholeWordAt(s, j, w);
        if j == i {
          assert exists w <- words :: WholeWordAt(s, i, w);
        } else {
          assert i + 1 <= j <= |s| && w in words && WholeWordAt(s, j, w);
        }
      }
    }
  }

  /** The scan succeeds exactly when one of `words` occurs as a whole word
      somewhere in `s`. */
  lemma ContainsWordIff(s: string, words: seq<string>)
    ensures ContainsWordFrom(s, words, 0) <==>
      exists j, w :: 0 <= j <= |s| && w in words && WholeWordAt(s, j, w)
  {
    ContainsWordFromIff(s, words, 0);
  }
}
