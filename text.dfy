/** String primitives the lint rules are written with: the ASCII readings of the
    regular-expression classes `\w` and `\s`, and the JavaScript string methods
    `indexOf`, `substring`, `split`, `trim`, `startsWith` and `endsWith`. */
module Text {

  /** `\w`: ASCII letters, digits and underscore. */
  predicate IsWordChar(c: char) {
    ('a' <= c <= 'z') || ('A' <= c <= 'Z') || ('0' <= c <= '9') || c == '_'
  }

  /** `\s` and the set `trim` strips: space, tab, line feed, vertical tab,
      form feed and carriage return (the ASCII part of JavaScript's set). */
  predicate IsSpace(c: char) {
    c == ' ' || c == '\t' || c == '\n' || c == '\U{0B}' || c == '\U{0C}' || c == '\r'
  }

  /** `t` occurs in `s` starting at index `i`. */
  predicate At(s: string, i: int, t: string) {
    0 <= i && i + |t| <= |s| && s[i..i + |t|] == t
  }

  predicate StartsWith(s: string, t: string) {
    At(s, 0, t)
  }

  predicate EndsWith(s: string, t: string) {
    |t| <= |s| && s[|s| - |t|..] == t
  }

  /** `s.indexOf(t)`: the first index at which `t` occurs, or -1. */
  function IndexOf(s: string, t: string): (r: int)
    ensures r == -1 || (0 <= r && At(s, r, t))
  {
    IndexFrom(s, t, 0)
  }

  /** `s.indexOf(t, i)`. */
  function IndexFrom(s: string, t: string, i: nat): (r: int)
    requires i <= |s|
    ensures r == -1 || (i <= r && At(s, r, t))
    decreases |s| - i
  {
    if At(s, i, t) then i
    else if i == |s| then -1
    else IndexFrom(s, t, i + 1)
  }

  /** `indexOf` from `i` finds the first occurrence at or after `i`, and -1
      only when there is none. */
  lemma {:induction false} IndexFromFirst(s: string, t: string, i: nat)
    requires i <= |s|
    ensures IndexFrom(s, t, i) == -1 ==> forall j :: i <= j <= |s| ==> !At(s, j, t)
    ensures forall j :: i <= j < IndexFrom(s, t, i) ==> !At(s, j, t)
    decreases |s| - i
  {
    if !At(s, i, t) && i < |s| {
      IndexFromFirst(s, t, i + 1);
    }
  }

  /** `indexOf` finds the first occurrence, and -1 only when there is none. */
  lemma IndexOfFirst(s: string, t: string)
    ensures IndexOf(s, t) == -1 <==> !Contains(s, t)
    ensures forall j :: 0 <= j < IndexOf(s, t) ==> !At(s, j, t)
  {
    IndexFromFirst(s, t, 0);
  }

  lemma IndexOfAtMost(s: string, t: string, j: int)
    requires At(s, j, t)
    ensures 0 <= IndexOf(s, t) <= j
  {
    IndexOfFirst(s, t);
  }

  /** `t` occurs somewhere in `s`. */
  predicate Contains(s: string, t: string) {
    exists j | 0 <= j <= |s| :: At(s, j, t)
  }

  /** `s.substring(a)`: JavaScript clamps a negative start to 0 and a start
      past the end to the length. */
  function SubstringFrom(s: string, a: int): (r: string)
    ensures 0 <= a <= |s| ==> r == s[a..]
    ensures a < 0 ==> r == s
    ensures a > |s| ==> r == []
  {
    if a < 0 then s else if a > |s| then [] else s[a..]
  }

  /** `s.substring(0, b)`, with the same clamping of `b`. */
  function Prefix(s: string, b: int): (r: string)
    ensures 0 <= b <= |s| ==> r == s[..b]
    ensures b < 0 ==> r == []
    ensures b > |s| ==> r == s
  {
    if b < 0 then [] else if b > |s| then s else s[..b]
  }

  /** `substring(0, p)` and `substring(p)` cut the text at the same place,
      whatever `p` is: together they give back the whole text. */
  lemma PrefixSubstringFrom(s: string, p: int)
    ensures Prefix(s, p) + SubstringFrom(s, p) == s
    ensures |Prefix(s, p)| == if p < 0 then 0 else if p > |s| then |s| else p
  {
    if 0 <= p <= |s| {
      assert s[..p] + s[p..] == s;
    }
  }

  /** Number of occurrences of `c` in `s`. */
  function Occurrences(s: string, c: char): nat {
    if s == [] then 0 else (if s[0] == c then 1 else 0) + Occurrences(s[1..], c)
  }

  /** `s.split(sep)` for a one-character separator: the pieces between the
      separators, so one more piece than there are separators. */
  function Split(s: string, sep: char): (r: seq<string>)
    ensures |r| == Occurrences(s, sep) + 1
  {
    if s == [] then [[]]
    else
      var rest := Split(s[1..], sep);
      if s[0] == sep then [[]] + rest
      else [[s[0]] + rest[0]] + rest[1..]
  }

  /** `pieces.join(sep)`. */
  function Join(pieces: seq<string>, sep: char): string
    requires |pieces| >= 1
  {
    if |pieces| == 1 then pieces[0] else pieces[0] + [sep] + Join(pieces[1..], sep)
  }

  /** Joining the pieces back with the separator gives the original text. */
  lemma {:induction false} SplitJoin(s: string, sep: char)
    ensures Join(Split(s, sep), sep) == s
  {
    if s != [] {
      var rest := Split(s[1..], sep);
      SplitJoin(s[1..], sep);
      if s[0] == sep {
        assert Split(s, sep) == [[]] + rest;
        assert Split(s, sep)[1..] == rest;
      } else if |rest| == 1 {
        assert Split(s, sep) == [[s[0]] + rest[0]];
      } else {
        var r := Split(s, sep);
        assert r == [[s[0]] + rest[0]] + rest[1..];
        assert r[1..] == rest[1..];
        calc {
          Join(r, sep);
          [s[0]] + rest[0] + [sep] + Join(rest[1..], sep);
          [s[0]] + Join(rest, sep);
        }
      }
    }
  }

  /** A text without separators splits into itself. */
  lemma {:induction false} SplitWithoutSep(t: string, sep: char)
    requires sep !in t
    ensures Split(t, sep) == [t]
  {
    if t != [] {
      assert sep !in t[1..] by {
        forall k | 0 <= k < |t[1..]| ensures t[1..][k] != sep { assert t[1..][k] == t[k + 1]; }
      }
      SplitWithoutSep(t[1..], sep);
      assert [t[0]] + t[1..] == t;
    }
  }

  /** Splitting a concatenation: the last piece of `a` and the first piece of
      `b` fuse into one, the other pieces are kept. */
  lemma {:induction false} SplitConcat(a: string, b: string, sep: char)
    ensures var A, B := Split(a, sep), Split(b, sep);
      Split(a + b, sep) == A[..|A| - 1] + [A[|A| - 1] + B[0]] + B[1..]
  {
    if a == [] {
      SplitConcatNil(b, sep);
    } else {
      var c, t := a[0], a[1..];
      assert a == [c] + t && a + b == [c] + (t + b);
      SplitConcat(t, b, sep);
      SplitConsFuse(c, t, b, sep);
    }
  }

  /** The base case of SplitConcat: an empty text has one, empty, piece. */
  lemma SplitConcatNil(b: string, sep: char)
    ensures var A, B := Split([], sep), Split(b, sep);
      Split([] + b, sep) == A[..|A| - 1] + [A[|A| - 1] + B[0]] + B[1..]
  {
    var B := Split(b, sep);
    assert [] + b == b;
    assert [] + B[0] == B[0];
    assert B == [B[0]] + B[1..];
  }

  /** The inductive step of SplitConcat: prepending one character. */
  lemma SplitConsFuse(c: char, a: string, b: string, sep: char)
    requires var A, B := Split(a, sep), Split(b, sep);
      Split(a + b, sep) == A[..|A| - 1] + [A[|A| - 1] + B[0]] + B[1..]
    ensures var A, B := Split([c] + a, sep), Split(b, sep);
      Split([c] + (a + b), sep) == A[..|A| - 1] + [A[|A| - 1] + B[0]] + B[1..]
  {
    var A', B := Split(a, sep), Split(b, sep);
    var R := Split(a + b, sep);
    var A, S := Split([c] + a, sep), Split([c] + (a + b), sep);
    assert ([c] + a)[1..] == a;
    assert ([c] + (a + b))[1..] == a + b;
    if c == sep {
      assert A == [[]] + A' && S == [[]] + R;
      ConsSepPieces(A', B, R, A, S);
    } else {
      assert A == [[c] + A'[0]] + A'[1..] && S == [[c] + R[0]] + R[1..];
      if |A'| == 1 {
        ConsSinglePieces(c, A', B, R, A, S);
      } else {
        ConsManyPieces(c, A', B, R, A, S);
      }
    }
  }

  /** Pieces after a leading separator: one more, empty, piece in front. */
  lemma ConsSepPieces(A': seq<string>, B: seq<string>, R: seq<string>, A: seq<string>, S: seq<string>)
    requires |A'| >= 1 && |B| >= 1
    requires R == A'[..|A'| - 1] + [A'[|A'| - 1] + B[0]] + B[1..]
    requires A == [[]] + A' && S == [[]] + R
    ensures S == A[..|A| - 1] + [A[|A| - 1] + B[0]] + B[1..]
  {
    assert A[..|A| - 1] == [[]] + A'[..|A'| - 1];
  }

  /** Pieces after a leading non-separator, when the first text has one
      piece: the character joins that piece. */
  lemma ConsSinglePieces(c: char, A': seq<string>, B: seq<string>, R: seq<string>, A: seq<string>, S: seq<string>)
    requires |A'| == 1 && |B| >= 1
    requires R == A'[..|A'| - 1] + [A'[|A'| - 1] + B[0]] + B[1..]
    requires A == [[c] + A'[0]] + A'[1..] && S == [[c] + R[0]] + R[1..]
    ensures S == A[..|A| - 1] + [A[|A| - 1] + B[0]] + B[1..]
  {
    assert A'[1..] == [];
    assert R[0] == A'[0] + B[0];
    assert R[1..] == B[1..];
    assert [c] + (A'[0] + B[0]) == ([c] + A'[0]) + B[0];
  }

  /** Pieces after a leading non-separator, when the first text has several
      pieces: the character joins the first piece only. */
  lemma ConsManyPieces(c: char, A': seq<string>, B: seq<string>, R: seq<string>, A: seq<string>, S: seq<string>)
    requires |A'| > 1 && |B| >= 1
    requires R == A'[..|A'| - 1] + [A'[|A'| - 1] + B[0]] + B[1..]
    requires A == [[c] + A'[0]] + A'[1..] && S == [[c] + R[0]] + R[1..]
    ensures S == A[..|A| - 1] + [A[|A| - 1] + B[0]] + B[1..]
  {
    assert A[..|A| - 1] == [[c] + A'[0]] + A'[1..|A'| - 1];
    assert R[0] == A'[0];
    assert R[1..] == A'[1..|A'| - 1] + [A'[|A'| - 1] + B[0]] + B[1..];
    assert A[|A| - 1] == A'[|A'| - 1];
  }

  /** 1-based number of the line holding position `p`, as the rules compute it:
      `s.substring(0, p).split('\n').length`. */
  function LineNumber(s: string, p: int): (n: nat)
    ensures n == Occurrences(Prefix(s, p), '\n') + 1
  {
    |Split(Prefix(s, p), '\n')|
  }

  /** The line holding position `p` is the end of the last line of `s[..p]`
      followed by the start of the first line of `s[p..]`; in particular its
      number is at most the number of lines of `s`. */
  lemma LineAt(s: string, p: nat)
    requires p <= |s|
    ensures var A, B := Split(s[..p], '\n'), Split(s[p..], '\n');
      |A| == LineNumber(s, p) <= |Split(s, '\n')| &&
      Split(s, '\n')[|A| - 1] == A[|A| - 1] + B[0]
  {
    assert s == s[..p] + s[p..];
    SplitConcat(s[..p], s[p..], '\n');
  }

  /** Whatever position is asked for, the substring clamps it, so the line
      number is between 1 and the number of lines. */
  lemma LineNumberInRange(s: string, p: int)
    ensures 1 <= LineNumber(s, p) <= |Split(s, '\n')|
  {
    if 0 <= p <= |s| {
      LineAt(s, p);
    }
  }

  /** 0-based offset of position `p` within its line: the length of the last
      line of `s[..p]`. */
  function LineOffset(s: string, p: nat): nat
    requires p <= |s|
  {
    var A := Split(s[..p], '\n');
    |A[|A| - 1]|
  }

  /** A text that starts with a token without separators has a first piece
      that starts with that token. */
  lemma FirstPieceStartsWith(x: string, t: string, sep: char)
    requires StartsWith(x, t) && sep !in t
    ensures StartsWith(Split(x, sep)[0], t)
  {
    var rest := x[|t|..];
    assert x == t + rest;
    SplitWithoutSep(t, sep);
    SplitConcat(t, rest, sep);
    assert Split(x, sep)[0] == t + Split(rest, sep)[0];
  }

  /** A token without line breaks at `p` starts the first line of `s[p..]`. */
  lemma TokenStartsPiece(s: string, p: nat, t: string)
    requires At(s, p, t) && '\n' !in t
    ensures StartsWith(Split(s[p..], '\n')[0], t)
  {
    assert StartsWith(s[p..], t);
    FirstPieceStartsWith(s[p..], t, '\n');
  }

  /** When a token without line breaks occurs at position `p`, the line that
      holds `p` contains that token no later than `p`'s own offset in the line,
      so searching the line for it gives a 1-based column of at least 1. */
  lemma TokenInLine(s: string, p: nat, t: string)
    requires At(s, p, t) && '\n' !in t
    ensures var n := LineNumber(s, p);
      1 <= n <= |Split(s, '\n')| &&
      0 <= IndexOf(Split(s, '\n')[n - 1], t) <= |Split(s[..p], '\n')[n - 1]|
  {
    TokenStartsPiece(s, p, t);
    TokenInLineFrom(s, p, t);
  }

  lemma TokenInLineFrom(s: string, p: nat, t: string)
    requires p <= |s| && StartsWith(Split(s[p..], '\n')[0], t)
    ensures var n := LineNumber(s, p);
      1 <= n <= |Split(s, '\n')| &&
      0 <= IndexOf(Split(s, '\n')[n - 1], t) <= |Split(s[..p], '\n')[n - 1]|
  {
    LineAt(s, p);
    TokenAfterHead(Split(s, '\n'), Split(s[..p], '\n'), Split(s[p..], '\n'), t);
  }

  /** When line `|before|` of `lines` is the last piece of `before` followed
      by the first piece of `after`, and `after`'s first piece starts with
      `t`, that line holds `t` no later than the end of the first part. */
  lemma TokenAfterHead(lines: seq<string>, before: seq<string>, after: seq<string>, t: string)
    requires 1 <= |before| <= |lines| && |after| >= 1 && StartsWith(after[0], t)
    requires lines[|before| - 1] == before[|before| - 1] + after[0]
    ensures 0 <= IndexOf(lines[|before| - 1], t) <= |before[|before| - 1]|
  {
    var head := before[|before| - 1];
    var line := head + after[0];
    assert line[|head|..|head| + |t|] == after[0][..|t|];
    IndexOfAtMost(line, t, |head|);
  }

  /** `s.trimStart()`: leading whitespace removed. */
  function TrimStart(s: string): (r: string)
    ensures |r| <= |s|
  {
    if s != [] && IsSpace(s[0]) then TrimStart(s[1..]) else s
  }

  /** What `trimStart` removes is whitespace, and it keeps a suffix that is
      empty or starts with a non-space. */
  lemma {:induction false} TrimStartShape(s: string)
    ensures var r := TrimStart(s);
      r == s[|s| - |r|..] && (r == [] || !IsSpace(r[0])) &&
      forall j :: 0 <= j < |s| - |r| ==> IsSpace(s[j])
  {
    if s != [] && IsSpace(s[0]) {
      TrimStartShape(s[1..]);
      forall j | 1 <= j < |s| - |TrimStart(s)| ensures IsSpace(s[j]) {
        assert s[j] == s[1..][j - 1];
      }
    }
  }

  /** `s.trimEnd()`: trailing whitespace removed. */
  function TrimEnd(s: string): (r: string)
    ensures |r| <= |s|
  {
    if s != [] && IsSpace(s[|s| - 1]) then TrimEnd(s[..|s| - 1]) else s
  }

  /** What `trimEnd` removes is whitespace, and it keeps a prefix that is
      empty or ends with a non-space. */
  lemma {:induction false} TrimEndShape(s: string)
    ensures var r := TrimEnd(s);
      r == s[..|r|] && (r == [] || !IsSpace(r[|r| - 1])) &&
      forall j :: |r| <= j < |s| ==> IsSpace(s[j])
  {
    if s != [] && IsSpace(s[|s| - 1]) {
      TrimEndShape(s[..|s| - 1]);
    }
  }

  /** `s.trim()`: the text between the leading and the trailing whitespace. */
  function Trim(s: string): (r: string)
    ensures |r| <= |s|
  {
    TrimEnd(TrimStart(s))
  }

  /** `s.trim()` is empty exactly when every character of `s` is whitespace. */
  lemma TrimEmptyIffBlank(s: string)
    ensures Trim(s) == [] <==> forall j :: 0 <= j < |s| ==> IsSpace(s[j])
  {
    var front := TrimStart(s);
    TrimStartShape(s);
    TrimEndShape(front);
    var a := |s| - |front|;
    if Trim(s) == [] {
      assert front == [];
    } else {
      assert !IsSpace(s[a]);
    }
  }
}
