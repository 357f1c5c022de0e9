/** The two comment-and-literal blanking lexers.  Both are one left-to-right automaton with nested
    block comments and escapes; they differ only in when an apostrophe opens a character literal. */
module BlankingLexer {
  import opened SourceRegions

  /** What the automaton is inside of; `Block` counts the nesting depth, from 1. */
  datatype Mode = Code | LineComment | Block(depth: nat) | Text | CharLiteral

  /** No character that can end a comment or a literal counts as alphanumeric. */
  predicate ProperVariant(v: Variant) {
    v.LookBehind? ==>
      !v.isAlphanumeric('\n') && !v.isAlphanumeric('/') && !v.isAlphanumeric('"') && !v.isAlphanumeric('\'')
  }

  // ----- One step of the automaton -----

  datatype Step = Step(output: string, width: nat, mode: Mode)

  predicate IsBlank(c: char) { c == ' ' || c == '\n' }

  predicate InLiteral(m: Mode) { m.Text? || m.CharLiteral? }

  /** The character that ends the literal. */
  function Closer(m: Mode): char
    requires InLiteral(m)
  {
    if m.Text? then '"' else '\''
  }

  function StepAt(v: Variant, s: string, i: nat, m: Mode): (r: Step)
    requires i < |s|
    ensures 1 <= r.width <= 2 && |r.output| == r.width
  {
    var c := s[i];
    match m
    case LineComment => Step([Blank(c)], 1, if c == '\n' then Code else m)
    case Block(depth) =>
      if c == '/' && HasCharAt(s, i + 1, '*') then Step("  ", 2, Block(depth + 1))
      else if c == '*' && HasCharAt(s, i + 1, '/') then Step("  ", 2, if depth <= 1 then Code else Block(depth - 1))
      else Step([Blank(c)], 1, m)
    case Code =>
      if c == '/' && HasCharAt(s, i + 1, '/') then Step("  ", 2, LineComment)
      else if c == '/' && HasCharAt(s, i + 1, '*') then Step("  ", 2, Block(1))
      else if c == '"' then Step(" ", 1, Text)
      else if c == '\'' && OpensChar(v, s, i) then Step(" ", 1, CharLiteral)
      else Step([c], 1, Code)
    case _ =>
      if c == '\\' then Step("  ", 2, m)
      else if c == Closer(m) then Step(" ", 1, Code)
      else Step([Blank(c)], 1, m)
  }

  /** The whole run from position `i` in mode `m`. */
  function Strip(v: Variant, s: string, i: nat, m: Mode): (out: string)
    decreases |s| - i
  {
    if i >= |s| then []
    else
      var r := StepAt(v, s, i, m);
      r.output + Strip(v, s, i + r.width, r.mode)
  }

  function Stripped(v: Variant, s: string): (out: string) { Strip(v, s, 0, Code) }

  /** The run from (i, m) arrives between steps at position `k` in mode `n`. */
  ghost predicate Reaches(v: Variant, s: string, i: nat, m: Mode, k: nat, n: Mode)
    decreases |s| - i
  {
    || (i == k && m == n)
    || (i < |s| && var r := StepAt(v, s, i, m); Reaches(v, s, i + r.width, r.mode, k, n))
  }

  /** Position `k` starts a step of the whole run, in mode `n`. */
  ghost predicate ReadIn(v: Variant, s: string, k: nat, n: Mode) {
    Reaches(v, s, 0, Code, k, n)
  }

  // ----- Where a position lies in the run -----

  lemma {:induction false} ReachedSuffix(v: Variant, s: string, i: nat, m: Mode, k: nat, n: Mode)
    requires Reaches(v, s, i, m, k, n)
    ensures i <= k && |Strip(v, s, i, m)| >= k - i && Strip(v, s, i, m)[k - i..] == Strip(v, s, k, n)
    decreases |s| - i
  {
    if !(i == k && m == n) {
      var r := StepAt(v, s, i, m);
      ReachedSuffix(v, s, i + r.width, r.mode, k, n);
      var rest := Strip(v, s, i + r.width, r.mode);
      assert (r.output + rest)[k - i..] == rest[k - i - r.width..];
    }
  }

  lemma {:induction false} ReachTransitive(v: Variant, s: string, i: nat, m: Mode, k: nat, n: Mode)
    requires Reaches(v, s, i, m, k, n) && k < |s|
    ensures var r := StepAt(v, s, k, n); Reaches(v, s, i, m, k + r.width, r.mode)
    decreases |s| - i
  {
    if !(i == k && m == n) {
      var r := StepAt(v, s, i, m);
      ReachTransitive(v, s, i + r.width, r.mode, k, n);
    }
  }

  /** Every position is the start of a step, or the second character of a two-character step. */
  lemma {:induction false} Locate(v: Variant, s: string, i: nat, m: Mode, k: nat) returns (at: nat, n: Mode)
    requires i <= k < |s|
    ensures i <= at <= k && at < |s| && Reaches(v, s, i, m, at, n) && k < at + StepAt(v, s, at, n).width
    decreases |s| - i
  {
    var r := StepAt(v, s, i, m);
    if k < i + r.width {
      at, n := i, m;
    } else {
      at, n := Locate(v, s, i + r.width, r.mode, k);
    }
  }

  /** The output characters of the step that starts at `at`. */
  lemma StepOutput(v: Variant, s: string, at: nat, n: Mode)
    requires ReadIn(v, s, at, n) && at < |s|
    ensures var r := StepAt(v, s, at, n);
            && at + r.width <= |Stripped(v, s)|
            && Stripped(v, s)[at..at + r.width] == r.output
  {
    ReachedSuffix(v, s, 0, Code, at, n);
    var r := StepAt(v, s, at, n);
    var tail := Strip(v, s, at, n);
    assert tail[..r.width] == r.output;
    assert Stripped(v, s)[at..at + r.width] == tail[..r.width];
  }

  /** The automaton is in one mode at a time. */
  lemma {:induction false} OneMode(v: Variant, s: string, i: nat, m: Mode, k: nat, n1: Mode, n2: Mode)
    requires Reaches(v, s, i, m, k, n1) && Reaches(v, s, i, m, k, n2)
    ensures n1 == n2
    decreases |s| - i
  {
    if i < |s| {
      var r := StepAt(v, s, i, m);
      if i == k {
        if Reaches(v, s, i + r.width, r.mode, k, n1) { ReachedSuffix(v, s, i + r.width, r.mode, k, n1); }
        if Reaches(v, s, i + r.width, r.mode, k, n2) { ReachedSuffix(v, s, i + r.width, r.mode, k, n2); }
      } else {
        OneMode(v, s, i + r.width, r.mode, k, n1, n2);
      }
    }
  }

  // ----- Alignment and soundness -----

  /** The input ends on a backslash read inside a literal. */
  ghost predicate EndsOnLoneEscape(v: Variant, s: string) {
    && s != [] && s[|s| - 1] == '\\'
    && (ReadIn(v, s, |s| - 1, Text) || ReadIn(v, s, |s| - 1, CharLiteral))
  }

  /** The newline at `k` is the escaped character of a literal. */
  ghost predicate EscapedAt(v: Variant, s: string, k: nat) {
    && 0 < k <= |s| && s[k - 1] == '\\'
    && (ReadIn(v, s, k - 1, Text) || ReadIn(v, s, k - 1, CharLiteral))
  }

  /** Output and source are aligned; one blank is appended exactly for a lone final escape. */
  lemma Alignment(v: Variant, s: string)
    ensures |Stripped(v, s)| == if EndsOnLoneEscape(v, s) then |s| + 1 else |s|
  {
    if s != [] {
      var at, n := Locate(v, s, 0, Code, |s| - 1);
      var r := StepAt(v, s, at, n);
      ReachTransitive(v, s, 0, Code, at, n);
      ReachedSuffix(v, s, 0, Code, at + r.width, r.mode);
      assert Strip(v, s, at + r.width, r.mode) == [];
      assert |Stripped(v, s)| == at + r.width;
      if EndsOnLoneEscape(v, s) {
        var lit := if ReadIn(v, s, |s| - 1, Text) then Text else CharLiteral;
        ReachTransitive(v, s, 0, Code, |s| - 1, lit);
        ReachedSuffix(v, s, 0, Code, |s| + 1, lit);
      }
    }
  }

  /** The character appended for a lone final escape is a blank. */
  lemma PadIsBlank(v: Variant, s: string)
    requires EndsOnLoneEscape(v, s)
    ensures |Stripped(v, s)| == |s| + 1 && Stripped(v, s)[|s|] == ' '
  {
    Alignment(v, s);
    var out := Stripped(v, s);
    var lit := if ReadIn(v, s, |s| - 1, Text) then Text else CharLiteral;
    StepOutput(v, s, |s| - 1, lit);
    assert out[|s|] == out[|s| - 1..|s| + 1][1];
  }

  /** The output at `k`, as the output of the step that reads `s[k]`. */
  lemma OutputAt(v: Variant, s: string, k: nat) returns (at: nat, n: Mode)
    requires k < |s|
    ensures at <= k && at < |s| && ReadIn(v, s, at, n) && k < at + StepAt(v, s, at, n).width
    ensures k < |Stripped(v, s)| && Stripped(v, s)[k] == StepAt(v, s, at, n).output[k - at]
  {
    at, n := Locate(v, s, 0, Code, k);
    StepOutput(v, s, at, n);
    var out, r := Stripped(v, s), StepAt(v, s, at, n);
    assert out[k] == out[at..at + r.width][k - at];
  }

  /** What one step can put out at position `k`. */
  lemma StepCharacter(v: Variant, s: string, at: nat, n: Mode, k: nat)
    requires at < |s| && at <= k < at + StepAt(v, s, at, n).width
    ensures var r := StepAt(v, s, at, n);
      || (IsBlank(r.output[k - at]) && (r.output[k - at] == '\n' ==> k < |s| && s[k] == '\n'))
      || (n == Code && k == at && r == Step([s[k]], 1, Code))
  {
  }

  /** A step loses the newline at `k` exactly if it reads it as the second half of an escape. */
  lemma StepNewline(v: Variant, s: string, at: nat, n: Mode, k: nat)
    requires at < |s| && at <= k < at + StepAt(v, s, at, n).width && k < |s| && s[k] == '\n'
    ensures StepAt(v, s, at, n).output[k - at] == '\n' <==> !(k == at + 1 && s[at] == '\\' && InLiteral(n))
  {
  }

  /** What a kept character means: it is the source character, read as plain code. */
  lemma KeptIsCode(v: Variant, s: string, k: nat)
    requires k < |Stripped(v, s)| && !IsBlank(Stripped(v, s)[k])
    ensures k < |s| && Stripped(v, s)[k] == s[k] && ReadIn(v, s, k, Code)
    ensures StepAt(v, s, k, Code) == Step([s[k]], 1, Code)
  {
    Alignment(v, s);
    if k == |s| {
      PadIsBlank(v, s);
    } else {
      var at, n := OutputAt(v, s, k);
      StepCharacter(v, s, at, n, k);
    }
  }

  /** Conversely, a character read in code mode that opens nothing is kept. */
  lemma CodeIsKept(v: Variant, s: string, k: nat)
    requires k < |s| && ReadIn(v, s, k, Code) && StepAt(v, s, k, Code).mode == Code
    ensures k < |Stripped(v, s)| && Stripped(v, s)[k] == s[k]
  {
    StepOutput(v, s, k, Code);
    assert Stripped(v, s)[k] == Stripped(v, s)[k..k + 1][0];
  }

  lemma EscapedIsBlanked(v: Variant, s: string, k: nat)
    requires k < |s| && EscapedAt(v, s, k)
    ensures k < |Stripped(v, s)| && Stripped(v, s)[k] == ' '
  {
    var lit := if ReadIn(v, s, k - 1, Text) then Text else CharLiteral;
    StepOutput(v, s, k - 1, lit);
    assert Stripped(v, s)[k] == Stripped(v, s)[k - 1..k + 1][1];
  }

  lemma UnescapedIsKept(v: Variant, s: string, k: nat)
    requires k < |s| && s[k] == '\n' && !EscapedAt(v, s, k)
    ensures k < |Stripped(v, s)| && Stripped(v, s)[k] == '\n'
  {
    var at, n := OutputAt(v, s, k);
    StepNewline(v, s, at, n, k);
  }

  /** A newline keeps its position exactly when it is not escaped inside a literal. */
  lemma NewlinesKept(v: Variant, s: string, k: nat)
    requires k < |s| && s[k] == '\n'
    ensures k < |Stripped(v, s)|
    ensures Stripped(v, s)[k] == '\n' <==> !EscapedAt(v, s, k)
  {
    if EscapedAt(v, s, k) { EscapedIsBlanked(v, s, k); } else { UnescapedIsKept(v, s, k); }
  }

  /** Every newline of the output stands where the source has one: lines never move. */
  lemma NewlinesGenuine(v: Variant, s: string, k: nat)
    requires k < |Stripped(v, s)| && Stripped(v, s)[k] == '\n'
    ensures k < |s| && s[k] == '\n'
  {
    Alignment(v, s);
    if k == |s| {
      PadIsBlank(v, s);
    } else {
      var at, n := OutputAt(v, s, k);
      StepCharacter(v, s, at, n, k);
    }
  }

  // ----- Idempotence -----

  /** Nothing in `s` opens a comment or a literal. */
  ghost predicate Inert(v: Variant, s: string) {
    forall k: nat :: k < |s| ==> StepAt(v, s, k, Code) == Step([s[k]], 1, Code)
  }

  lemma {:induction false} InertIsFixed(v: Variant, s: string, i: nat)
    requires Inert(v, s) && i <= |s|
    ensures Strip(v, s, i, Code) == s[i..]
    decreases |s| - i
  {
    if i < |s| {
      assert StepAt(v, s, i, Code) == Step([s[i]], 1, Code);
      InertIsFixed(v, s, i + 1);
      assert s[i..] == [s[i]] + s[i + 1..];
    }
  }

  /** A step into code mode that starts elsewhere ends on a closing character. */
  lemma StepIntoCode(v: Variant, s: string, i: nat, m: Mode)
    requires i < |s| && StepAt(v, s, i, m).mode == Code && i + StepAt(v, s, i, m).width <= |s|
    ensures m == Code || s[i + StepAt(v, s, i, m).width - 1] in "\n/\"'"
    ensures m == Code ==> StepAt(v, s, i, m).width == 1
  {
  }

  /** Code mode is entered from plain code, or right behind a character that ends something. */
  lemma {:induction false} BeforeCode(v: Variant, s: string, i: nat, m: Mode, k: nat)
    requires Reaches(v, s, i, m, k, Code) && i < k <= |s|
    ensures s[k - 1] in "\n/\"'" || (Reaches(v, s, i, m, k - 1, Code) && StepAt(v, s, k - 1, Code).mode == Code)
    decreases |s| - i
  {
    var r := StepAt(v, s, i, m);
    ReachedSuffix(v, s, i + r.width, r.mode, k, Code);
    if i + r.width == k {
      OneMode(v, s, k, r.mode, k, r.mode, Code);
      StepIntoCode(v, s, i, m);
    } else {
      BeforeCode(v, s, i + r.width, r.mode, k);
    }
  }

  /** An apostrophe kept by the lookahead lexer still starts no literal in the output. */
  lemma KeptApostropheAhead(s: string, k: nat)
    requires k < |Stripped(LookAhead, s)| && Stripped(LookAhead, s)[k] == '\''
    ensures !CharLiteralAhead(Stripped(LookAhead, s), k)
  {
    var v, out := LookAhead, Stripped(LookAhead, s);
    KeptIsCode(v, s, k);
    Alignment(v, s);
    forall j: nat | j < |out| && !IsBlank(out[j]) ensures j < |s| && out[j] == s[j] {
      KeptIsCode(v, s, j);
    }
    assert !CharLiteralAhead(s, k);
    if k + 1 < |s| && s[k + 1] == '\\' {
      ReachTransitive(v, s, 0, Code, k, Code);
      CodeIsKept(v, s, k + 1);
    }
    if exists j :: k + 3 <= j < k + 12 && HasCharAt(out, j, '\'') {
      var j :| k + 3 <= j < k + 12 && HasCharAt(out, j, '\'');
      assert HasCharAt(s, j, '\'');
    }
  }

  /** An apostrophe kept by the lookbehind lexer still follows a kept word character. */
  lemma KeptApostropheBehind(v: Variant, s: string, k: nat)
    requires v.LookBehind? && ProperVariant(v)
    requires k < |Stripped(v, s)| && Stripped(v, s)[k] == '\''
    ensures AfterWord(v.isAlphanumeric, Stripped(v, s), k)
  {
    KeptIsCode(v, s, k);
    assert AfterWord(v.isAlphanumeric, s, k);
    BeforeCode(v, s, 0, Code, k);
    CodeIsKept(v, s, k - 1);
  }

  lemma OutputIsInert(v: Variant, s: string)
    requires ProperVariant(v)
    ensures Inert(v, Stripped(v, s))
  {
    var out := Stripped(v, s);
    forall k: nat | k < |out|
      ensures StepAt(v, out, k, Code) == Step([out[k]], 1, Code)
    {
      if !IsBlank(out[k]) {
        KeptIsCode(v, s, k);
        if out[k] == '/' && k + 1 < |out| && !IsBlank(out[k + 1]) {
          KeptIsCode(v, s, k + 1);
        }
        if out[k] == '\'' {
          if v.LookAhead? { KeptApostropheAhead(s, k); } else { KeptApostropheBehind(v, s, k); }
        }
      }
    }
  }

  /** Stripping twice is stripping once, for both lexers and every source text. */
  lemma StripIdempotent(v: Variant, s: string)
    requires ProperVariant(v)
    ensures Stripped(v, Stripped(v, s)) == Stripped(v, s)
  {
    OutputIsInert(v, s);
    InertIsFixed(v, Stripped(v, s), 0);
  }

  // ----- The automaton follows the regions -----

  /** The step at `j` puts out what the region, which starts at `i` and ends at `e`, leaves of its characters. */
  ghost predicate StepBlanks(v: Variant, s: string, r: Region, j: nat, m: Mode)
    requires r.start <= j < |s|
  {
    var step := StepAt(v, s, j, m);
    && j + step.width <= r.end <= |s|
    && step.output[0] == BlankedChar(s, r, j)
    && (step.width == 2 ==> step.output[1] == BlankedChar(s, r, j + 1))
  }

  /** From `j` in mode `m`, the automaton blanks to the end of the region and is in code there. */
  ghost predicate Follows(v: Variant, s: string, r: Region, j: nat, m: Mode)
    decreases |s| - j
  {
    && r.start <= j <= r.end <= |s|
    && if j == r.end then (m == Code || j == |s|) && !EndsInEscape(s, r)
       else if EndsInEscape(s, r) && j + 1 == |s| then InLiteral(m)
       else StepBlanks(v, s, r, j, m) &&
            var step := StepAt(v, s, j, m); Follows(v, s, r, j + step.width, step.mode)
  }

  lemma FollowsBack(v: Variant, s: string, r: Region, j: nat, m: Mode)
    requires r.start <= j < |s| && StepBlanks(v, s, r, j, m) && !(EndsInEscape(s, r) && j + 1 == |s|)
    requires var step := StepAt(v, s, j, m); Follows(v, s, r, j + step.width, step.mode)
    ensures Follows(v, s, r, j, m)
  {
  }

  /** A line comment: up to its first newline. */
  lemma {:induction false} LineFollows(v: Variant, s: string, r: Region, j: nat)
    requires r.kind.LineRegion? && EndsAt(s, r.start, r.kind, r.end) && r.start + 2 <= j <= r.end
    ensures j < r.end || j == |s| ==> Follows(v, s, r, j, LineComment)
    decreases r.end - j
  {
    if j < r.end {
      LineFollows(v, s, r, j + 1);
      FollowsBack(v, s, r, j, LineComment);
    }
  }

  lemma {:induction false} CutsAdvance(s: string, k: nat, n: nat, last: nat)
    requires n <= last
    ensures Cut(s, k, n) <= Cut(s, k, last)
    decreases last
  {
    if n < last { CutsAdvance(s, k, n, last - 1); }
  }

  /** The mode at depth `d` of a block comment. */
  function BlockMode(d: int): Mode { if d <= 0 then Code else Block(d) }

  /** In a block comment the automaton reads as the pairs are read. */
  lemma BlockStep(v: Variant, s: string, r: Region, j: nat, d: nat)
    requires r.kind.BlockRegion? && r.start <= j < |s| && d > 0
    requires j + (if Pair(s, j) == 0 then 1 else 2) <= r.end <= |s|
    ensures StepAt(v, s, j, Block(d)).width == if Pair(s, j) == 0 then 1 else 2
    ensures StepAt(v, s, j, Block(d)).mode == BlockMode(d + Pair(s, j))
    ensures StepBlanks(v, s, r, j, Block(d))
  {
  }

  lemma BlockBack(v: Variant, s: string, r: Region, j: nat, j': nat, d: nat, d': int)
    requires r.kind.BlockRegion? && r.start <= j < |s| && d > 0
    requires j' == j + (if Pair(s, j) == 0 then 1 else 2) && d' == d + Pair(s, j)
    requires j' <= r.end <= |s| && Follows(v, s, r, j', BlockMode(d'))
    ensures Follows(v, s, r, j, BlockMode(d))
  {
    BlockStep(v, s, r, j, d);
    FollowsBack(v, s, r, j, Block(d));
  }

  /** A block comment: after `n` readings the automaton stands at that cut, that deep. */
  lemma {:induction false} BlockFollows(v: Variant, s: string, r: Region, n: nat, last: nat)
    requires r.kind.BlockRegion? && Balances(s, r.start, last) && 0 < n <= last && r.end == Cut(s, r.start, last) <= |s|
    ensures Follows(v, s, r, Cut(s, r.start, n), BlockMode(Nesting(s, r.start, n)))
    decreases last - n
  {
    if n < last {
      BlockFollows(v, s, r, n + 1, last);
      CutsAdvance(s, r.start, n + 1, last);
      BlockBack(v, s, r, Cut(s, r.start, n), Cut(s, r.start, n + 1),
                Nesting(s, r.start, n), Nesting(s, r.start, n + 1));
    }
  }

  lemma {:induction false} NeverBalances(s: string, k: nat, n: nat)
    requires HasPairAt(s, k, '/', '*') && n > 0
    requires forall m: nat :: !Balances(s, k, m)
    ensures forall m: nat :: 0 < m <= n ==> Nesting(s, k, m) > 0
  {
    if n == 1 {
      assert Nesting(s, k, 1) == Nesting(s, k, 0) + Pair(s, Cut(s, k, 0));
    } else {
      NeverBalances(s, k, n - 1);
      assert !Balances(s, k, n);
    }
  }

  lemma WidthFits(s: string, j: nat)
    requires j < |s|
    ensures j + (if Pair(s, j) == 0 then 1 else 2) <= |s|
  {
  }

  /** A block comment that never closes: to the end of the text. */
  lemma {:induction false} OpenBlockFollows(v: Variant, s: string, r: Region, n: nat)
    requires r.kind.BlockRegion? && HasPairAt(s, r.start, '/', '*') && n > 0 && Cut(s, r.start, n) <= |s| == r.end
    requires forall m: nat :: !Balances(s, r.start, m)
    ensures Follows(v, s, r, Cut(s, r.start, n), BlockMode(Nesting(s, r.start, n)))
    decreases |s| - Cut(s, r.start, n)
  {
    NeverBalances(s, r.start, n);
    var j := Cut(s, r.start, n);
    if j < |s| {
      WidthFits(s, j);
      OpenBlockFollows(v, s, r, n + 1);
      BlockBack(v, s, r, j, Cut(s, r.start, n + 1), Nesting(s, r.start, n), Nesting(s, r.start, n + 1));
    }
  }

  function LiteralMode(closer: char): Mode { if closer == '"' then Text else CharLiteral }

  lemma EscapePair(s: string, i: nat, j: nat)
    requires i < j && j + 1 < |s| && s[j] == '\\' && !Escaped(s, i, j)
    ensures Escaped(s, i, j + 1) && !Escaped(s, i, j + 2)
  {
  }

  /** One step in a literal, with the escapes counted. */
  lemma LiteralStep(v: Variant, s: string, r: Region, j: nat)
    requires r.kind.Quoted? && EndsAt(s, r.start, r.kind, r.end) && (r.kind.closer == '"' || r.kind.closer == '\'')
    requires r.start < j < r.end && !Escaped(s, r.start, j) && !(s[j] == '\\' && j + 1 == |s|)
    ensures var step := StepAt(v, s, j, LiteralMode(r.kind.closer));
      && StepBlanks(v, s, r, j, LiteralMode(r.kind.closer)) && !Escaped(s, r.start, j + step.width)
      && step.mode == if Closes(s, r.start, r.kind.closer, j) then Code else LiteralMode(r.kind.closer)
  {
    if s[j] == '\\' {
      EscapePair(s, r.start, j);
      assert !Closes(s, r.start, r.kind.closer, j) && !Closes(s, r.start, r.kind.closer, j + 1);
    }
  }

  /** A literal: up to its first closer that is not escaped. */
  lemma {:induction false} LiteralFollows(v: Variant, s: string, r: Region, j: nat)
    requires r.kind.Quoted? && EndsAt(s, r.start, r.kind, r.end) && (r.kind.closer == '"' || r.kind.closer == '\'')
    requires r.start < j <= r.end && !Escaped(s, r.start, j) && (j == r.end ==> j == |s|)
    ensures Follows(v, s, r, j, LiteralMode(r.kind.closer))
    decreases r.end - j
  {
    var m := LiteralMode(r.kind.closer);
    if j == |s| {
      LastIsNoEscape(s, r);
    } else if !(s[j] == '\\' && j + 1 == |s|) {
      LiteralStep(v, s, r, j);
      if Closes(s, r.start, r.kind.closer, j) {
        assert j + 1 == r.end;
      } else {
        LiteralFollows(v, s, r, j + StepAt(v, s, j, m).width);
      }
      FollowsBack(v, s, r, j, m);
    }
  }

  lemma LastIsNoEscape(s: string, r: Region)
    requires r.start < |s| && !Escaped(s, r.start, |s|)
    ensures !EndsInEscape(s, r)
  {
  }

  lemma BlockRegionFollows(v: Variant, s: string, r: Region)
    requires r.kind.BlockRegion? && HasPairAt(s, r.start, '/', '*') && EndsAt(s, r.start, r.kind, r.end)
    ensures r.start + 2 <= r.end && Follows(v, s, r, r.start + 2, Block(1))
  {
    assert Cut(s, r.start, 1) == r.start + 2;
    assert Nesting(s, r.start, 1) == Nesting(s, r.start, 0) + Pair(s, Cut(s, r.start, 0)) == 1;
    if exists n: nat :: Balances(s, r.start, n) {
      var n: nat :| Balances(s, r.start, n) && r.end == Cut(s, r.start, n);
      BalanceFits(s, r.start, n);
      BlockFollows(v, s, r, 1, n);
    } else {
      OpenBlockFollows(v, s, r, 1);
    }
  }

  /** One region: blanked, and code again behind it. */
  lemma RegionFollows(v: Variant, s: string, r: Region)
    requires r.start < |s| && Opens(v, s, r.start, r.kind) && EndsAt(s, r.start, r.kind, r.end)
    ensures Follows(v, s, r, r.start, Code)
  {
    match r.kind
    case Plain =>
    case LineRegion => LineFollows(v, s, r, r.start + 2);
    case BlockRegion => BlockRegionFollows(v, s, r);
    case Quoted(closer) => LiteralFollows(v, s, r, r.start + 1);
  }

  // ----- Blanking is what the regions say -----

  /** The blanked characters of a region from `j` on. */
  function BlankedFrom(s: string, r: Region, j: nat): string
    requires r.start <= j <= r.end <= |s|
  {
    seq(r.end - j, x requires 0 <= x < r.end - j => BlankedChar(s, r, j + x)) + (if EndsInEscape(s, r) then " " else "")
  }

  lemma BlankedStep(v: Variant, s: string, r: Region, j: nat, m: Mode)
    requires r.start <= j < r.end <= |s| && StepBlanks(v, s, r, j, m)
    ensures var step := StepAt(v, s, j, m);
            BlankedFrom(s, r, j) == step.output + BlankedFrom(s, r, j + step.width)
  {
  }

  /** From `j` in mode `m`, the run puts out the rest of the region and goes on in code. */
  ghost predicate PutsOut(v: Variant, s: string, r: Region, j: nat, m: Mode) {
    && r.start <= j <= r.end <= |s|
    && Strip(v, s, j, m) == BlankedFrom(s, r, j) + Strip(v, s, r.end, Code)
  }

  lemma PutsOutAtEnd(v: Variant, s: string, r: Region, m: Mode)
    requires r.start <= r.end <= |s| && (m == Code || r.end == |s|) && !EndsInEscape(s, r)
    ensures PutsOut(v, s, r, r.end, m)
  {
    assert BlankedFrom(s, r, r.end) == "";
  }

  lemma PutsOutEscape(v: Variant, s: string, r: Region, m: Mode)
    requires EndsInEscape(s, r) && InLiteral(m)
    ensures PutsOut(v, s, r, |s| - 1, m)
  {
    assert BlankedChar(s, r, |s| - 1) == ' ';
    assert BlankedFrom(s, r, |s| - 1) == [' '] + " ";
    assert StepAt(v, s, |s| - 1, m) == Step("  ", 2, m);
    assert Strip(v, s, |s| + 1, m) == "";
  }

  lemma PutsOutStep(v: Variant, s: string, r: Region, j: nat, m: Mode)
    requires r.start <= j < r.end <= |s| && StepBlanks(v, s, r, j, m)
    requires var step := StepAt(v, s, j, m); PutsOut(v, s, r, j + step.width, step.mode)
    ensures PutsOut(v, s, r, j, m)
  {
    var step := StepAt(v, s, j, m);
    BlankedStep(v, s, r, j, m);
    var rest, tail := BlankedFrom(s, r, j + step.width), Strip(v, s, r.end, Code);
    assert step.output + (rest + tail) == step.output + rest + tail;
  }

  lemma {:induction false} FollowsOutput(v: Variant, s: string, r: Region, j: nat, m: Mode)
    requires Follows(v, s, r, j, m)
    ensures PutsOut(v, s, r, j, m)
    decreases |s| - j
  {
    if j == r.end {
      PutsOutAtEnd(v, s, r, m);
    } else if EndsInEscape(s, r) && j + 1 == |s| {
      PutsOutEscape(v, s, r, m);
    } else {
      var step := StepAt(v, s, j, m);
      FollowsOutput(v, s, r, j + step.width, step.mode);
      PutsOutStep(v, s, r, j, m);
    }
  }

  /** Whatever the reading, the run puts out exactly its regions, blanked. */
  lemma {:induction false} StripFollowsReading(v: Variant, s: string, i: nat, rs: seq<Region>)
    requires IsReading(v, s, i, rs) && forall r :: r in rs ==> r.start <= r.end <= |s|
    ensures Strip(v, s, i, Code) == BlankedAll(s, rs)
    decreases |rs|
  {
    if rs != [] {
      RegionFollows(v, s, rs[0]);
      FollowsOutput(v, s, rs[0], i, Code);
      assert BlankedFrom(s, rs[0], i) == Blanked(s, rs[0]);
      StripFollowsReading(v, s, rs[0].end, rs[1..]);
    }
  }

  /** The automaton puts out the text with its comments and literals blanked, and nothing else does. */
  lemma StripIsBlanking(v: Variant, s: string)
    ensures forall out :: IsBlanking(v, s, out) <==> out == Stripped(v, s)
  {
    var rs := ReadingExists(v, s, 0);
    ReadingFits(v, s, 0, rs);
    StripFollowsReading(v, s, 0, rs);
    forall out | IsBlanking(v, s, out)
      ensures out == Stripped(v, s)
    {
      var rs': seq<Region> :| IsReading(v, s, 0, rs') && (forall r :: r in rs' ==> r.start <= r.end <= |s|) &&
        out == BlankedAll(s, rs');
      StripFollowsReading(v, s, 0, rs');
    }
  }

  // ----- The loops -----

  /** The four mode variables of the loops, of which at most one is ever active. */
  predicate AtMostOneActive(inLine: bool, inBlock: nat, inString: bool, inChar: bool) {
    && !(inLine && (inBlock > 0 || inString || inChar))
    && !(inBlock > 0 && (inString || inChar))
    && !(inString && inChar)
  }

  function ModeOf(inLine: bool, inBlock: nat, inString: bool, inChar: bool): (m: Mode) {
    if inLine then LineComment
    else if inBlock > 0 then Block(inBlock)
    else if inString then Text
    else if inChar then CharLiteral
    else Code
  }

  /** The bounded search for the closing apostrophe of a Unicode escape. */
  method IsCharLiteral(chars: string, i: nat) returns (isLiteral: bool)
    requires i < |chars|
    ensures isLiteral == CharLiteralAhead(chars, i)
  {
    var len := |chars|;
    if i + 2 < len && chars[i + 2] == '\'' && chars[i + 1] != '\\' {
      isLiteral := true;
    } else if i + 3 < len && chars[i + 1] == '\\' && chars[i + 3] == '\'' {
      isLiteral := true;
    } else if i + 4 < len && chars[i + 1] == '\\' && chars[i + 2] == 'x' && chars[i + 4] == '\'' {
      isLiteral := true;
    } else if i + 3 < len && chars[i + 1] == '\\' && chars[i + 2] == 'u' {
      isLiteral := false;
      var j, end := i + 3, if len <= i + 12 then len else i + 12;
      while j < end
        invariant i + 3 <= j <= end && !isLiteral
        invariant forall x :: i + 3 <= x < j ==> !HasCharAt(chars, x, '\'')
      {
        if chars[j] == '\'' {
          assert HasCharAt(chars, j, '\'');
          isLiteral := true;
          break;
        }
        j := j + 1;
      }
    } else {
      isLiteral := false;
    }
  }

  /** One iteration inside a comment or a literal: both lexers share this part of the loop body. */
  method InsideStep(ghost v: Variant, source: string, i: nat, inLine: bool, inBlock: nat, inString: bool, inChar: bool)
    returns (out: string, next: nat, inLine': bool, inBlock': nat, inString': bool, inChar': bool)
    requires i < |source| && AtMostOneActive(inLine, inBlock, inString, inChar)
    requires inLine || inBlock > 0 || inString || inChar
    ensures AtMostOneActive(inLine', inBlock', inString', inChar') && next > i
    ensures StepAt(v, source, i, ModeOf(inLine, inBlock, inString, inChar)) ==
            Step(out, next - i, ModeOf(inLine', inBlock', inString', inChar'))
  {
    var c, len := source[i], |source|;
    inLine', inBlock', inString', inChar' := inLine, inBlock, inString, inChar;
    out, next := [if c == '\n' then '\n' else ' '], i + 1;
    if inLine {
      if c == '\n' { inLine' := false; }
    } else if inBlock > 0 {
      if c == '/' && i + 1 < len && source[i + 1] == '*' {
        inBlock', out, next := inBlock + 1, "  ", i + 2;
      } else if c == '*' && i + 1 < len && source[i + 1] == '/' {
        inBlock', out, next := inBlock - 1, "  ", i + 2;
      }
    } else if inString {
      if c == '\\' {
        out, next := "  ", i + 2;
      } else if c == '"' {
        inString' := false;
      }
    } else {
      if c == '\\' {
        out, next := "  ", i + 2;
      } else if c == '\'' {
        inChar' := false;
      }
    }
  }

  /** One iteration in code; `opensChar` is the lexer's own verdict on an apostrophe at `i`. */
  method CodeStep(ghost v: Variant, source: string, i: nat, opensChar: bool)
    returns (out: string, next: nat, inLine: bool, inBlock: nat, inString: bool, inChar: bool)
    requires i < |source| && (source[i] == '\'' ==> opensChar == OpensChar(v, source, i))
    ensures AtMostOneActive(inLine, inBlock, inString, inChar) && next > i
    ensures StepAt(v, source, i, Code) == Step(out, next - i, ModeOf(inLine, inBlock, inString, inChar))
  {
    var c, len := source[i], |source|;
    inLine, inBlock, inString, inChar := false, 0, false, false;
    if c == '/' && i + 1 < len && source[i + 1] == '/' {
      inLine, out, next := true, "  ", i + 2;
    } else if c == '/' && i + 1 < len && source[i + 1] == '*' {
      inBlock, out, next := 1, "  ", i + 2;
    } else if c == '"' {
      inString, out, next := true, " ", i + 1;
    } else if c == '\'' && opensChar {
      inChar, out, next := true, " ", i + 1;
    } else {
      out, next := [c], i + 1;
    }
  }

  /** The output so far, followed by what the rest of the run will produce. */
  ghost predicate OnTrack(v: Variant, source: string, result: string, i: nat, m: Mode) {
    result + Strip(v, source, i, m) == Stripped(v, source)
  }

  lemma Advance(v: Variant, source: string, result: string, i: nat, m: Mode)
    requires OnTrack(v, source, result, i, m) && i < |source|
    ensures var r := StepAt(v, source, i, m); OnTrack(v, source, result + r.output, i + r.width, r.mode)
  {
    var r := StepAt(v, source, i, m);
    var rest := Strip(v, source, i + r.width, r.mode);
    assert result + (r.output + rest) == result + r.output + rest;
  }

  /** strip_comments_and_strings of the module-reachability check. */
  method StripLookAhead(source: string) returns (result: string)
    ensures result == Stripped(LookAhead, source) && IsBlanking(LookAhead, source, result)
  {
    StripIsBlanking(LookAhead, source);
    result := [];
    var i := 0;
    var inLine, inBlock: nat, inString, inChar := false, 0, false, false;
    while i < |source|
      invariant AtMostOneActive(inLine, inBlock, inString, inChar)
      invariant OnTrack(LookAhead, source, result, i, ModeOf(inLine, inBlock, inString, inChar))
      decreases |source| - i
    {
      var out;
      Advance(LookAhead, source, result, i, ModeOf(inLine, inBlock, inString, inChar));
      if inLine || inBlock > 0 || inString || inChar {
        out, i, inLine, inBlock, inString, inChar :=
          InsideStep(LookAhead, source, i, inLine, inBlock, inString, inChar);
      } else {
        var opensChar := false;
        if source[i] == '\'' { opensChar := IsCharLiteral(source, i); }
        out, i, inLine, inBlock, inString, inChar := CodeStep(LookAhead, source, i, opensChar);
      }
      result := result + out;
    }
  }

  /** strip_comments_and_strings of the unsafe-islands check. */
  method StripLookBehind(isAlphanumeric: char -> bool, source: string) returns (result: string)
    ensures result == Stripped(LookBehind(isAlphanumeric), source)
    ensures IsBlanking(LookBehind(isAlphanumeric), source, result)
  {
    StripIsBlanking(LookBehind(isAlphanumeric), source);
    ghost var v := LookBehind(isAlphanumeric);
    result := [];
    var i := 0;
    var inLine, inBlock: nat, inString, inChar := false, 0, false, false;
    while i < |source|
      invariant AtMostOneActive(inLine, inBlock, inString, inChar)
      invariant OnTrack(v, source, result, i, ModeOf(inLine, inBlock, inString, inChar))
      decreases |source| - i
    {
      var out;
      Advance(v, source, result, i, ModeOf(inLine, inBlock, inString, inChar));
      if inLine || inBlock > 0 || inString || inChar {
        out, i, inLine, inBlock, inString, inChar := InsideStep(v, source, i, inLine, inBlock, inString, inChar);
      } else {
        var afterWord := if i > 0 then isAlphanumeric(source[i - 1]) || source[i - 1] == '_' else false;
        out, i, inLine, inBlock, inString, inChar := CodeStep(v, source, i, !afterWord);
      }
      result := result + out;
    }
  }
}
