/** How a source text divides into plain code, comments and literals, and what blanking leaves of each
    part.  Nothing here runs an automaton: every part is described by where it begins and where it ends. */
module SourceRegions {

  /** How an apostrophe is classified: by the characters after it, or by the character before it.
      `isAlphanumeric` stands for the Unicode property the standard library tests. */
  datatype Variant = LookAhead | LookBehind(isAlphanumeric: char -> bool)

  predicate HasCharAt(s: string, i: int, c: char) {
    0 <= i < |s| && s[i] == c
  }

  /** The lookahead test: a plain, escaped, hexadecimal or Unicode character literal starts at `i`. */
  predicate CharLiteralAhead(s: string, i: nat) {
    || (i + 2 < |s| && s[i + 2] == '\'' && s[i + 1] != '\\')
    || (i + 3 < |s| && s[i + 1] == '\\' && s[i + 3] == '\'')
    || (i + 4 < |s| && s[i + 1] == '\\' && s[i + 2] == 'x' && s[i + 4] == '\'')
    || (i + 3 < |s| && s[i + 1] == '\\' && s[i + 2] == 'u' && exists j :: i + 3 <= j < i + 12 && HasCharAt(s, j, '\''))
  }

  predicate AfterWord(isAlphanumeric: char -> bool, s: string, i: nat) {
    0 < i <= |s| && (isAlphanumeric(s[i - 1]) || s[i - 1] == '_')
  }

  /** The apostrophe at `i` opens a character literal. */
  predicate OpensChar(v: Variant, s: string, i: nat) {
    match v
    case LookAhead => CharLiteralAhead(s, i)
    case LookBehind(isAlphanumeric) => !AfterWord(isAlphanumeric, s, i)
  }

  function Blank(c: char): char { if c == '\n' then '\n' else ' ' }

  // ----- Regions -----

  datatype Kind = Plain | LineRegion | BlockRegion | Quoted(closer: char)

  datatype Region = Region(kind: Kind, start: nat, end: nat)

  predicate HasPairAt(s: string, i: nat, c: char, d: char) {
    i + 1 < |s| && s[i] == c && s[i + 1] == d
  }

  /** In code, a region of this kind starts at `i`. */
  predicate Opens(v: Variant, s: string, i: nat, kind: Kind)
    requires i < |s|
  {
    match kind
    case LineRegion => HasPairAt(s, i, '/', '/')
    case BlockRegion => HasPairAt(s, i, '/', '*')
    case Quoted(closer) => s[i] == closer && (closer == '"' || (closer == '\'' && OpensChar(v, s, i)))
    case Plain =>
      && !HasPairAt(s, i, '/', '/') && !HasPairAt(s, i, '/', '*')
      && s[i] != '"' && !(s[i] == '\'' && OpensChar(v, s, i))
  }

  // ----- Block comments: comment marks read in pairs, left to right -----

  /** What the pair of characters at `i` does to the nesting depth. */
  function Pair(s: string, i: nat): int {
    if HasPairAt(s, i, '/', '*') then 1 else if HasPairAt(s, i, '*', '/') then -1 else 0
  }

  /** Where the reading stands after `n` readings from `k`: a pair is read as one. */
  function Cut(s: string, k: nat, n: nat): (i: nat)
    ensures i >= k + n
  {
    if n == 0 then k
    else
      var i := Cut(s, k, n - 1);
      i + (if Pair(s, i) == 0 then 1 else 2)
  }

  /** Openers minus closers among the first `n` readings from `k`. */
  function Nesting(s: string, k: nat, n: nat): int {
    if n == 0 then 0 else Nesting(s, k, n - 1) + Pair(s, Cut(s, k, n - 1))
  }

  /** After `n` readings openers and closers balance for the first time. */
  ghost predicate Balances(s: string, k: nat, n: nat) {
    n > 0 && Nesting(s, k, n) == 0 && forall m: nat :: 0 < m < n ==> Nesting(s, k, m) > 0
  }

  ghost predicate BlockEndsAt(s: string, k: nat, e: nat) {
    if exists n: nat :: Balances(s, k, n)
    then exists n: nat :: Balances(s, k, n) && e == Cut(s, k, n)
    else e == |s|
  }

  // ----- Literals: a closer behind an even number of backslashes -----

  /** The number of backslashes that stand directly before `j`, behind the opening character at `i`. */
  function Backslashes(s: string, i: nat, j: nat): nat
    requires j <= |s|
  {
    if i + 1 < j && s[j - 1] == '\\' then 1 + Backslashes(s, i, j - 1) else 0
  }

  predicate Escaped(s: string, i: nat, j: nat)
    requires j <= |s|
  {
    Backslashes(s, i, j) % 2 == 1
  }

  predicate Closes(s: string, i: nat, closer: char, j: nat) {
    i < j < |s| && s[j] == closer && !Escaped(s, i, j)
  }

  // ----- Where regions end -----

  /** The region of this kind that starts at `i` ends before `e`: at its first closing mark, or with the text. */
  ghost predicate EndsAt(s: string, i: nat, kind: Kind, e: nat) {
    && i < e <= |s|
    && match kind
       case Plain => e == i + 1
       case LineRegion =>
         && i + 2 <= e && (forall j :: i + 2 <= j < e - 1 ==> s[j] != '\n')
         && (e == |s| || (i + 2 < e && s[e - 1] == '\n'))
       case BlockRegion => BlockEndsAt(s, i, e)
       case Quoted(closer) =>
         && (forall j: nat :: i < j < e - 1 ==> !Closes(s, i, closer, j))
         && (e == |s| || Closes(s, i, closer, e - 1))
  }

  // ----- What blanking leaves -----

  function BlankedChar(s: string, r: Region, j: nat): char
    requires r.start <= j < |s|
  {
    match r.kind
    case Plain => s[j]
    case Quoted(_) => if s[j] == '\n' && !Escaped(s, r.start, j) then '\n' else ' '
    case _ => Blank(s[j])
  }

  /** The text ends inside the literal, on a backslash that escapes nothing. */
  predicate EndsInEscape(s: string, r: Region) {
    r.kind.Quoted? && r.end == |s| && r.start + 1 < |s| && s[|s| - 1] == '\\' && !Escaped(s, r.start, |s| - 1)
  }

  /** Character by character; a lone final escape leaves one blank more. */
  function Blanked(s: string, r: Region): string
    requires r.start <= r.end <= |s|
  {
    seq(r.end - r.start, x requires 0 <= x < r.end - r.start => BlankedChar(s, r, r.start + x)) +
    if EndsInEscape(s, r) then " " else ""
  }

  /** `rs` reads `s` from position `i` to its end, one region after the other. */
  ghost predicate IsReading(v: Variant, s: string, i: nat, rs: seq<Region>)
    decreases |rs|
  {
    if rs == [] then i == |s|
    else
      && rs[0].start == i < |s| && Opens(v, s, i, rs[0].kind) && EndsAt(s, i, rs[0].kind, rs[0].end)
      && IsReading(v, s, rs[0].end, rs[1..])
  }

  function BlankedAll(s: string, rs: seq<Region>): string
    requires forall r :: r in rs ==> r.start <= r.end <= |s|
  {
    if rs == [] then "" else Blanked(s, rs[0]) + BlankedAll(s, rs[1..])
  }

  lemma {:induction false} ReadingFits(v: Variant, s: string, i: nat, rs: seq<Region>)
    requires IsReading(v, s, i, rs)
    ensures forall r :: r in rs ==> r.start <= r.end <= |s|
    decreases |rs|
  {
    if rs != [] { ReadingFits(v, s, rs[0].end, rs[1..]); }
  }

  /** `out` is `s` with its comments and literals blanked. */
  ghost predicate IsBlanking(v: Variant, s: string, out: string) {
    exists rs: seq<Region> ::
      && IsReading(v, s, 0, rs) && (forall r :: r in rs ==> r.start <= r.end <= |s|)
      && out == BlankedAll(s, rs)
  }

  // ----- One reading -----

  /** At most one kind of region starts at a position. */
  lemma OneKind(v: Variant, s: string, i: nat, kind: Kind, kind': Kind)
    requires i < |s| && Opens(v, s, i, kind) && Opens(v, s, i, kind')
    ensures kind == kind'
  {
  }

  lemma OneBalance(s: string, k: nat, n: nat, n': nat)
    requires Balances(s, k, n) && Balances(s, k, n')
    ensures n == n'
  {
  }

  lemma OneBlockEnd(s: string, i: nat, e: nat, e': nat)
    requires BlockEndsAt(s, i, e) && BlockEndsAt(s, i, e')
    ensures e == e'
  {
    if exists n: nat :: Balances(s, i, n) {
      var n: nat :| Balances(s, i, n) && e == Cut(s, i, n);
      var n': nat :| Balances(s, i, n') && e' == Cut(s, i, n');
      OneBalance(s, i, n, n');
    }
  }

  lemma OneEnd(s: string, i: nat, kind: Kind, e: nat, e': nat)
    requires EndsAt(s, i, kind, e) && EndsAt(s, i, kind, e')
    ensures e == e'
  {
    if kind.BlockRegion? { OneBlockEnd(s, i, e, e'); }
  }

  /** A text has one reading. */
  lemma {:induction false} OneReading(v: Variant, s: string, i: nat, rs: seq<Region>, rs': seq<Region>)
    requires IsReading(v, s, i, rs) && IsReading(v, s, i, rs')
    ensures rs == rs'
    decreases |rs|
  {
    if rs != [] && rs' != [] {
      OneKind(v, s, i, rs[0].kind, rs'[0].kind);
      OneEnd(s, i, rs[0].kind, rs[0].end, rs'[0].end);
      OneReading(v, s, rs[0].end, rs[1..], rs'[1..]);
      assert rs == [rs[0]] + rs[1..] && rs' == [rs'[0]] + rs'[1..];
    }
  }

  // ----- There is a reading -----

  /** The balancing reading ends within the text. */
  lemma BalanceFits(s: string, k: nat, n: nat)
    requires Balances(s, k, n) && HasPairAt(s, k, '/', '*')
    ensures n > 1 && Cut(s, k, n) <= |s|
  {
    assert Nesting(s, k, 1) == Nesting(s, k, 0) + Pair(s, Cut(s, k, 0));
    assert n > 1 && Nesting(s, k, n - 1) > 0;
    assert Nesting(s, k, n) == Nesting(s, k, n - 1) + Pair(s, Cut(s, k, n - 1));
  }

  lemma {:induction false} LineEnd(s: string, i: nat, j: nat) returns (e: nat)
    requires i + 2 <= j <= |s| && forall x :: i + 2 <= x < j ==> s[x] != '\n'
    ensures EndsAt(s, i, LineRegion, e)
    decreases |s| - j
  {
    if j == |s| { e := j; } else if s[j] == '\n' { e := j + 1; } else { e := LineEnd(s, i, j + 1); }
  }

  lemma {:induction false} LiteralEnd(s: string, i: nat, closer: char, j: nat) returns (e: nat)
    requires i < j <= |s| && forall x: nat :: i < x < j ==> !Closes(s, i, closer, x)
    ensures EndsAt(s, i, Quoted(closer), e)
    decreases |s| - j
  {
    if j == |s| {
      e := j;
    } else if Closes(s, i, closer, j) {
      e := j + 1;
    } else {
      e := LiteralEnd(s, i, closer, j + 1);
    }
  }

  lemma BlockEnd(s: string, i: nat) returns (e: nat)
    requires i < |s| && HasPairAt(s, i, '/', '*')
    ensures EndsAt(s, i, BlockRegion, e)
  {
    if exists n: nat :: Balances(s, i, n) {
      var n: nat :| Balances(s, i, n);
      BalanceFits(s, i, n);
      e := Cut(s, i, n);
    } else {
      e := |s|;
    }
  }

  lemma RegionExists(v: Variant, s: string, i: nat) returns (r: Region)
    requires i < |s|
    ensures r.start == i && Opens(v, s, i, r.kind) && EndsAt(s, i, r.kind, r.end)
  {
    if HasPairAt(s, i, '/', '/') {
      var e := LineEnd(s, i, i + 2);
      r := Region(LineRegion, i, e);
    } else if HasPairAt(s, i, '/', '*') {
      var e := BlockEnd(s, i);
      r := Region(BlockRegion, i, e);
    } else if s[i] == '"' || (s[i] == '\'' && OpensChar(v, s, i)) {
      var e := LiteralEnd(s, i, s[i], i + 1);
      r := Region(Quoted(s[i]), i, e);
    } else {
      r := Region(Plain, i, i + 1);
    }
  }

  /** Every text can be read. */
  lemma {:induction false} ReadingExists(v: Variant, s: string, i: nat) returns (rs: seq<Region>)
    requires i <= |s|
    ensures IsReading(v, s, i, rs)
    decreases |s| - i
  {
    if i == |s| {
      rs := [];
    } else {
      var r := RegionExists(v, s, i);
      var rest := ReadingExists(v, s, r.end);
      rs := [r] + rest;
      assert rs[1..] == rest;
    }
  }

  // ----- Apostrophes -----

  predicate Begins(s: string, i: nat, prefix: string) {
    i <= |s| && prefix <= s[i..]
  }

  /** The forms the lookahead lexer takes for a character literal. */
  ghost predicate IsLiteralForm(form: string) {
    || (exists c: char :: c != '\\' && form == ['\'', c, '\''])
    || (exists c: char :: form == ['\'', '\\', c, '\''])
    || (exists c: char :: form == ['\'', '\\', 'x', c, '\''])
    || (exists digits: string :: |digits| <= 8 && form == "'\\u" + digits + "'")
  }

  lemma FormAhead(s: string, i: nat, form: string)
    requires IsLiteralForm(form) && Begins(s, i, form)
    ensures CharLiteralAhead(s, i)
  {
    assert forall x :: 0 <= x < |form| ==> s[i..][x] == form[x];
    assert HasCharAt(s, i + |form| - 1, '\'');
  }

  lemma AheadForm(s: string, i: nat) returns (form: string)
    requires HasCharAt(s, i, '\'') && CharLiteralAhead(s, i)
    ensures IsLiteralForm(form) && Begins(s, i, form)
  {
    if i + 2 < |s| && s[i + 2] == '\'' && s[i + 1] != '\\' {
      form := ['\'', s[i + 1], '\''];
    } else if i + 3 < |s| && s[i + 3] == '\'' {
      form := ['\'', '\\', s[i + 2], '\''];
    } else if i + 4 < |s| && s[i + 2] == 'x' {
      form := ['\'', '\\', 'x', s[i + 3], '\''];
    } else {
      var j :| i + 3 <= j < i + 12 && HasCharAt(s, j, '\'');
      var digits := s[i + 3..j];
      form := "'\\u" + digits + "'";
      assert form == s[i..j + 1];
    }
  }

  /** An apostrophe opens a literal for the lookahead lexer exactly if one of the forms follows. */
  lemma LiteralForms(s: string, i: nat)
    requires HasCharAt(s, i, '\'')
    ensures CharLiteralAhead(s, i) <==> exists form: string :: IsLiteralForm(form) && Begins(s, i, form)
  {
    if CharLiteralAhead(s, i) { var form := AheadForm(s, i); }
    if form: string :| IsLiteralForm(form) && Begins(s, i, form) { FormAhead(s, i, form); }
  }

  /** For the lookbehind lexer it opens one exactly if no letter, digit or underscore stands right before it. */
  lemma OpensBehindIff(isAlphanumeric: char -> bool, s: string, i: nat)
    requires i < |s|
    ensures OpensChar(LookBehind(isAlphanumeric), s, i) <==>
      !exists t: string, c: char :: s[..i] == t + [c] && (isAlphanumeric(c) || c == '_')
  {
    if i > 0 { assert s[..i] == s[..i - 1] + [s[i - 1]]; }
    if t: string, c: char :| s[..i] == t + [c] && (isAlphanumeric(c) || c == '_') { assert s[..i][i - 1] == c; }
  }
}
