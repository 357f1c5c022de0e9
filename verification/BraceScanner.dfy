/** The line scanner of the duplicate-symbol check: it follows strings, raw strings and line comments to
    keep a brace depth, and collects the declarations found at depth zero. */
module BraceScanner {
  import opened Basics
  import opened Text

  /** What the scanner is inside of, also across lines. */
  datatype Mode = Code | Str | Raw(hashes: nat)

  /** The pieces a line falls into. */
  datatype Token =
    | Plain(c: char)
    | Comment(text: string)
    | OpenStr
    | StrChar(c: char)
    | Escape(text: string)
    | CloseStr
    | OpenRaw(hashes: nat)
    | RawChar(c: char)
    | CloseRaw(hashes: nat)

  function Hashes(n: nat): (s: string)
    ensures |s| == n && forall i :: 0 <= i < n ==> s[i] == '#'
  {
    seq(n, _ => '#')
  }

  function RawOpener(h: nat): string { "r" + Hashes(h) + "\"" }

  function RawCloser(h: nat): string { "\"" + Hashes(h) }

  function Spelling(t: Token): (s: string) {
    match t
    case Plain(c) => [c]
    case Comment(text) => text
    case OpenStr => "\""
    case StrChar(c) => [c]
    case Escape(text) => text
    case CloseStr => "\""
    case OpenRaw(h) => RawOpener(h)
    case RawChar(c) => [c]
    case CloseRaw(h) => RawCloser(h)
  }

  predicate Begins(text: string, t: string) { OccursAt(text, t, 0) }

  // ----- The reading of a line, stated without an algorithm -----

  /** `t` may be read at the start of `text`. */
  ghost predicate Legal(m: Mode, t: Token, text: string) {
    && Begins(text, Spelling(t))
    && Spelling(t) != []
    && match m {
      case Code =>
        (match t
         case Comment(x) => x == text && Begins(text, "//")
         case OpenRaw(h) => true
         case OpenStr => true
         case Plain(c) => c != '"' && !Begins(text, "//") && forall h :: !Begins(text, RawOpener(h))
         case _ => false)
      case Str =>
        (match t
         case Escape(x) => x[0] == '\\' && |x| == Min(2, |text|)
         case CloseStr => true
         case StrChar(c) => c != '"' && c != '\\'
         case _ => false)
      case Raw(h) =>
        (match t
         case CloseRaw(g) => g == h
         case RawChar(c) => !Begins(text, RawCloser(h))
         case _ => false)
    }
  }

  function After(m: Mode, t: Token): Mode {
    match t
    case OpenStr => Str
    case OpenRaw(h) => Raw(h)
    case CloseStr => Code
    case CloseRaw(_) => Code
    case _ => m
  }

  /** `ts` is a way to read all of `text`, starting in mode `m`. */
  ghost predicate Reads(m: Mode, text: string, ts: seq<Token>)
    decreases |ts|
  {
    if ts == [] then text == []
    else Legal(m, ts[0], text) && Reads(After(m, ts[0]), text[|Spelling(ts[0])|..], ts[1..])
  }

  // ----- The reading as a function -----

  function HashRun(text: string, from: nat): (n: nat)
    requires from <= |text|
    ensures from + n <= |text|
    ensures forall i :: from <= i < from + n ==> text[i] == '#'
    ensures from + n < |text| ==> text[from + n] != '#'
    decreases |text| - from
  {
    if from < |text| && text[from] == '#' then 1 + HashRun(text, from + 1) else 0
  }

  predicate OpensRaw(text: string) {
    |text| > 1 && text[0] == 'r' && 1 + HashRun(text, 1) < |text| && text[1 + HashRun(text, 1)] == '"'
  }

  predicate OpensComment(text: string) { |text| >= 2 && text[0] == '/' && text[1] == '/' }

  predicate ClosesRaw(text: string, h: nat) { text != [] && text[0] == '"' && HashRun(text, 1) >= h }

  function NextToken(m: Mode, text: string): (t: Token)
    requires text != []
  {
    match m
    case Code =>
      if OpensComment(text) then Comment(text)
      else if OpensRaw(text) then OpenRaw(HashRun(text, 1))
      else if text[0] == '"' then OpenStr
      else Plain(text[0])
    case Str =>
      if text[0] == '\\' then Escape(text[..Min(2, |text|)])
      else if text[0] == '"' then CloseStr
      else StrChar(text[0])
    case Raw(h) =>
      if ClosesRaw(text, h) then CloseRaw(h) else RawChar(text[0])
  }

  lemma CloserAt(text: string, h: nat)
    requires text != []
    ensures Begins(text, RawCloser(h)) <==> ClosesRaw(text, h)
  {
    if Begins(text, RawCloser(h)) {
      assert forall k :: 0 <= k <= h ==> text[k] == RawCloser(h)[k];
    }
  }

  lemma CommentAt(text: string)
    ensures Begins(text, "//") <==> OpensComment(text)
  {
    if Begins(text, "//") {
      CharInOccurrence(text, "//", 0, 0);
      CharInOccurrence(text, "//", 0, 1);
    }
  }

  lemma RawOpenerAt(text: string, h: nat)
    ensures Begins(text, RawOpener(h)) <==> OpensRaw(text) && h == HashRun(text, 1)
  {
    if Begins(text, RawOpener(h)) {
      RawOpenerChars(text, h);
      HashRunIs(text, h);
    }
  }

  lemma RawOpenerChars(text: string, h: nat)
    requires Begins(text, RawOpener(h))
    ensures |text| >= h + 2 && text[0] == 'r' && text[h + 1] == '"'
    ensures forall i :: 1 <= i <= h ==> text[i] == '#'
  {
    CharInOccurrence(text, RawOpener(h), 0, 0);
    CharInOccurrence(text, RawOpener(h), 0, h + 1);
    forall i | 1 <= i <= h ensures text[i] == '#' { CharInOccurrence(text, RawOpener(h), 0, i); }
  }

  lemma HashRunIs(text: string, h: nat)
    requires |text| >= h + 2 && text[h + 1] == '"' && forall i :: 1 <= i <= h ==> text[i] == '#'
    ensures HashRun(text, 1) == h
  {
  }

  /** At every point exactly one token may be read. */
  lemma NextTokenIsOnlyLegal(m: Mode, t: Token, text: string)
    requires text != []
    ensures Legal(m, t, text) <==> t == NextToken(m, text)
  {
    match m
    case Code => OnlyLegalInCode(t, text);
    case Str => OnlyLegalInStr(t, text);
    case Raw(h) => OnlyLegalInRaw(h, t, text);
  }

  lemma OnlyLegalInCode(t: Token, text: string)
    requires text != []
    ensures Legal(Code, t, text) <==> t == NextToken(Code, text)
  {
    forall h: nat ensures Begins(text, RawOpener(h)) <==> OpensRaw(text) && h == HashRun(text, 1) {
      RawOpenerAt(text, h);
    }
    CommentAt(text);
    if Begins(text, "\"") { CharInOccurrence(text, "\"", 0, 0); }
    if t.Plain? && Begins(text, [t.c]) { CharInOccurrence(text, [t.c], 0, 0); }
    if OpensRaw(text) { assert Begins(text, RawOpener(HashRun(text, 1))); }
  }

  lemma FirstChar(text: string, c: char)
    requires text != []
    ensures Begins(text, [c]) <==> c == text[0]
  {
    if Begins(text, [c]) { CharInOccurrence(text, [c], 0, 0); }
  }

  lemma OnlyLegalInStr(t: Token, text: string)
    requires text != []
    ensures Legal(Str, t, text) <==> t == NextToken(Str, text)
  {
    FirstChar(text, '"');
    if t.StrChar? { FirstChar(text, t.c); }
    if t.Escape? && Legal(Str, t, text) {
      assert t.text == text[..|t.text|];
    }
  }

  lemma OnlyLegalInRaw(h: nat, t: Token, text: string)
    requires text != []
    ensures Legal(Raw(h), t, text) <==> t == NextToken(Raw(h), text)
  {
    CloserAt(text, h);
    if t.RawChar? { FirstChar(text, t.c); }
    assert |RawCloser(h)| > 0;
  }

  function Tokenize(m: Mode, text: string): (ts: seq<Token>)
    decreases |text|
  {
    if text == [] then []
    else
      var t := NextToken(m, text);
      [t] + Tokenize(After(m, t), text[Width(m, text)..])
  }

  /** How many characters the next token takes. */
  function Width(m: Mode, text: string): (n: nat)
    requires text != []
    ensures 1 <= n <= |text| && n == |Spelling(NextToken(m, text))|
  {
    |Spelling(NextToken(m, text))|
  }

  ghost predicate OnlyReading(m: Mode, text: string, ts: seq<Token>) { Reads(m, text, ts) <==> ts == Tokenize(m, text) }

  lemma TokenizeCons(m: Mode, text: string)
    requires text != []
    ensures var t := NextToken(m, text); Tokenize(m, text) == [t] + Tokenize(After(m, t), text[Width(m, text)..])
  {
  }

  /** A line has exactly one reading, and the scanner follows it. */
  lemma {:induction false} ReadingIsUnique(m: Mode, text: string, ts: seq<Token>)
    ensures OnlyReading(m, text, ts)
    decreases |ts|
  {
    if ts == [] {
      if text != [] { TokenizeCons(m, text); }
    } else if text == [] {
      assert !Legal(m, ts[0], text);
    } else {
      NextTokenIsOnlyLegal(m, ts[0], text);
      TokenizeCons(m, text);
      if ts[0] == NextToken(m, text) {
        ReadingIsUnique(After(m, ts[0]), text[Width(m, text)..], ts[1..]);
        assert ts == [ts[0]] + ts[1..];
      }
    }
  }

  function Spell(ts: seq<Token>): string {
    if ts == [] then [] else Spelling(ts[0]) + Spell(ts[1..])
  }

  lemma BeginsIsPrefix(text: string, t: string)
    requires Begins(text, t)
    ensures text == t + text[|t|..]
  {
  }

  lemma NextTokenSpells(m: Mode, text: string)
    requires text != []
    ensures text == Spelling(NextToken(m, text)) + text[Width(m, text)..]
  {
    NextTokenIsOnlyLegal(m, NextToken(m, text), text);
    BeginsIsPrefix(text, Spelling(NextToken(m, text)));
  }

  /** Nothing of a line is lost or read twice. */
  lemma {:induction false} ReadingIsLossless(m: Mode, text: string)
    ensures Spell(Tokenize(m, text)) == text
    decreases |text|
  {
    if text != [] {
      var t, rest := NextToken(m, text), text[Width(m, text)..];
      NextTokenSpells(m, text);
      ReadingIsLossless(After(m, t), rest);
      assert Tokenize(m, text)[1..] == Tokenize(After(m, t), rest);
    }
  }

  // ----- Depth -----

  /** How often a brace is read in code. */
  function Braces(ts: seq<Token>, brace: char): nat {
    if ts == [] then 0
    else (if ts[0] == Plain(brace) then 1 else 0) + Braces(ts[1..], brace)
  }

  /** Braces opened minus braces closed, outside strings, raw strings and line comments. */
  function Net(ts: seq<Token>): int { Braces(ts, '{') - Braces(ts, '}') }

  function EndMode(m: Mode, ts: seq<Token>): Mode
    decreases |ts|
  {
    if ts == [] then m else EndMode(After(m, ts[0]), ts[1..])
  }

  function Rest(line: string, i: nat): string { if i <= |line| then line[i..] else [] }

  /** From `i` the scanner still has to do what it had to do from the start. */
  ghost predicate OnTrack(line: string, m0: Mode, d0: int, i: nat, m: Mode, d: int) {
    && EndMode(m0, Tokenize(m0, line)) == EndMode(m, Tokenize(m, Rest(line, i)))
    && d0 + Net(Tokenize(m0, line)) == d + Net(Tokenize(m, Rest(line, i)))
  }

  function Turn(t: Token): int { if t == Plain('{') then 1 else if t == Plain('}') then -1 else 0 }

  /** Reading one token keeps the scanner on track. */
  lemma Advance(line: string, m0: Mode, d0: int, i: nat, m: Mode, d: int, t: Token, j: nat)
    requires i < |line| && OnTrack(line, m0, d0, i, m, d)
    requires t == NextToken(m, line[i..]) && (j == i + |Spelling(t)| || (j > |line| && i + |Spelling(t)| == |line|))
    ensures OnTrack(line, m0, d0, j, After(m, t), d + Turn(t))
  {
    RestAfter(line, i, |Spelling(t)|, j);
    Consume(m, line[i..]);
    Redirect(line, m0, d0, i, m, d, After(m, t), Turn(t), j);
  }

  lemma RestAfter(line: string, i: nat, width: nat, j: nat)
    requires i <= |line| && (j == i + width || (j > |line| && i + width == |line|))
    ensures i + width <= |line| ==> line[i..][width..] == Rest(line, j)
  {
  }

  /** What is left to do from `i` is what is left to do from `j`, one turn less. */
  lemma Redirect(line: string, m0: Mode, d0: int, i: nat, m: Mode, d: int, m': Mode, turn: int, j: nat)
    requires OnTrack(line, m0, d0, i, m, d)
    requires EndMode(m, Tokenize(m, Rest(line, i))) == EndMode(m', Tokenize(m', Rest(line, j)))
    requires Net(Tokenize(m, Rest(line, i))) == turn + Net(Tokenize(m', Rest(line, j)))
    ensures OnTrack(line, m0, d0, j, m', d + turn)
  {
  }

  /** What reading the next token of `text` leaves to be done. */
  lemma Consume(m: Mode, text: string)
    requires text != []
    ensures var t := NextToken(m, text);
      var rest := Tokenize(After(m, t), text[|Spelling(t)|..]);
      && EndMode(m, Tokenize(m, text)) == EndMode(After(m, t), rest)
      && Net(Tokenize(m, text)) == Turn(t) + Net(rest)
  {
    var t := NextToken(m, text);
    assert Width(m, text) == |Spelling(t)|;
    TokenizeCons(m, text);
    TokensCons(m, t, Tokenize(After(m, t), text[|Spelling(t)|..]));
  }

  lemma TokensCons(m: Mode, t: Token, ts: seq<Token>)
    ensures Net([t] + ts) == Turn(t) + Net(ts) && EndMode(m, [t] + ts) == EndMode(After(m, t), ts)
  {
    assert ([t] + ts)[1..] == ts;
  }

  method CountHashes(line: string, from: nat, max: nat) returns (n: nat)
    requires from <= |line|
    ensures n == Min(max, HashRun(line, from))
  {
    n := 0;
    while from + n < |line| && line[from + n] == '#' && n < max
      invariant n <= max && from + n <= |line|
      invariant HashRun(line, from) == n + HashRun(line, from + n)
    {
      n := n + 1;
    }
  }

  lemma {:induction false} HashRunOfRest(line: string, i: nat, from: nat)
    requires i + from <= |line|
    ensures HashRun(line, i + from) == HashRun(line[i..], from)
    decreases |line| - i - from
  {
    if i + from < |line| && line[i + from] == '#' { HashRunOfRest(line, i, from + 1); }
  }

  /** One move inside a raw string. */
  method RawMove(line: string, i: nat, h: nat) returns (j: nat, m: Mode)
    requires i < |line|
    ensures var t := NextToken(Raw(h), line[i..]); j == i + |Spelling(t)| && m == After(Raw(h), t) && Turn(t) == 0
  {
    HashRunOfRest(line, i, 1);
    if line[i] == '"' {
      var matched := CountHashes(line, i + 1, h);
      if matched == h { return i + 1 + h, Code; }
    }
    return i + 1, Raw(h);
  }

  /** One move inside a string; an escape takes two places even at the end of the line. */
  method StrMove(line: string, i: nat) returns (j: nat, m: Mode)
    requires i < |line|
    ensures var t := NextToken(Str, line[i..]);
      j == (if t.Escape? then i + 2 else i + |Spelling(t)|) && m == After(Str, t) && Turn(t) == 0
  {
    if line[i] == '\\' { return i + 2, Str; }
    return i + 1, if line[i] == '"' then Code else Str;
  }

  /** The number of hashes of a raw string opening at `i`, if one does. */
  method RawOpening(line: string, i: nat) returns (r: Option<nat>)
    requires i < |line|
    ensures r.Some? <==> OpensRaw(line[i..])
    ensures r.Some? ==> r.value == HashRun(line[i..], 1)
  {
    HashRunOfRest(line, i, 1);
    if line[i] == 'r' && i + 1 < |line| && (line[i + 1] == '"' || line[i + 1] == '#') {
      var h := CountHashes(line, i + 1, |line|);
      if i + 1 + h < |line| && line[i + 1 + h] == '"' { return Some(h); }
    }
    return None;
  }

  /** One move in code. */
  method CodeMove(line: string, i: nat) returns (j: nat, m: Mode, turn: int)
    requires i < |line|
    ensures var t := NextToken(Code, line[i..]); j == i + |Spelling(t)| && m == After(Code, t) && turn == Turn(t)
  {
    if line[i] == '/' && i + 1 < |line| && line[i + 1] == '/' { return |line|, Code, 0; }
    var raw := RawOpening(line, i);
    if raw.Some? { return i + 1 + raw.value + 1, Raw(raw.value), 0; }
    if line[i] == '"' { return i + 1, Str, 0; }
    turn := if line[i] == '{' then 1 else if line[i] == '}' then -1 else 0;
    return i + 1, Code, turn;
  }

  /** After a line the depth has changed by the braces read in code, and the mode is where the reading ends. */
  method ScanLine(line: string, m0: Mode, d0: int) returns (m: Mode, d: int)
    ensures m == EndMode(m0, Tokenize(m0, line))
    ensures d == d0 + Net(Tokenize(m0, line))
  {
    var i := 0;
    m, d := m0, d0;
    assert line[0..] == line;
    while i < |line|
      invariant OnTrack(line, m0, d0, i, m, d)
      decreases |line| - i
    {
      ghost var t := NextToken(m, line[i..]);
      ghost var w := Width(m, line[i..]);
      var j, next, turn := i, m, 0;
      match m {
        case Raw(h) => j, next := RawMove(line, i, h);
        case Str => j, next := StrMove(line, i);
        case Code => j, next, turn := CodeMove(line, i);
      }
      Advance(line, m0, d0, i, m, d, t, j);
      i, m, d := j, next, d + turn;
    }
  }

  predicate NoOpener(line: string) {
    forall i :: 0 <= i < |line| ==> line[i] != '"' && line[i] != '/' && line[i] != 'r'
  }

  function AsPlain(line: string): seq<Token> { if line == [] then [] else [Plain(line[0])] + AsPlain(line[1..]) }

  /** A line without quote, slash and `r` is code throughout: every brace in it counts. */
  lemma {:induction false} CodeThroughout(line: string)
    requires NoOpener(line)
    ensures Tokenize(Code, line) == AsPlain(line)
    decreases |line|
  {
    if line != [] {
      TokenizeCons(Code, line);
      CodeThroughout(line[1..]);
    }
  }

  /** So a brace in a character literal moves the depth, which the scanner does not know. */
  lemma CharLiteralBraceCounts()
    ensures Net(Tokenize(Code, "'{'")) == 1
  {
    var line := "'{'";
    CodeThroughout(line);
    assert line[1..] == "{'" && line[1..][1..] == "'" && line[1..][1..][1..] == "";
    TokensCons(Code, Plain('\''), AsPlain("{'"));
    TokensCons(Code, Plain('{'), AsPlain("'"));
  }

  // ----- Whole files -----

  /** The reading of the first `n` lines; literals may run over line ends. */
  function FileTokens(lines: seq<string>, n: nat): seq<Token>
    requires n <= |lines|
  {
    if n == 0 then []
    else
      var ts := FileTokens(lines, n - 1);
      ts + Tokenize(EndMode(Code, ts), lines[n - 1])
  }

  lemma {:induction false} EndModeAppend(m: Mode, x: seq<Token>, y: seq<Token>)
    ensures EndMode(m, x + y) == EndMode(EndMode(m, x), y)
    decreases |x|
  {
    if x == [] {
      assert x + y == y;
    } else {
      EndModeAppend(After(m, x[0]), x[1..], y);
      assert (x + y)[1..] == x[1..] + y;
    }
  }

  lemma {:induction false} BracesAppend(x: seq<Token>, y: seq<Token>, brace: char)
    ensures Braces(x + y, brace) == Braces(x, brace) + Braces(y, brace)
    decreases |x|
  {
    if x == [] {
      assert x + y == y;
    } else {
      BracesAppend(x[1..], y, brace);
      assert (x + y)[1..] == x[1..] + y;
    }
  }

  // ----- Attributes -----

  predicate EndsWith(s: string, t: string) { OccursAt(s, t, |s| - |t|) }

  predicate IsCfg(line: string) { Begins(Trim(line), "#[cfg(") && EndsWith(Trim(line), ")]") }

  /** Blank lines, attributes and comments leave a pending attribute in force. */
  predicate Passive(line: string) {
    Trim(line) == [] || Begins(Trim(line), "#[") || Begins(Trim(line), "//")
  }

  /** Line `j` is the attribute in force at line `i`: the last one, with nothing but passive lines since. */
  ghost predicate Governs(lines: seq<string>, j: nat, i: nat) {
    && j <= i < |lines| && IsCfg(lines[j])
    && (forall k :: j < k <= i ==> !IsCfg(lines[k]))
    && (forall k :: j <= k < i ==> Passive(lines[k]))
  }

  ghost predicate CfgInForce(lines: seq<string>, i: nat, cfg: Option<string>)
    requires i < |lines|
  {
    match cfg
    case Some(c) => exists j: nat :: Governs(lines, j, i) && c == Trim(lines[j])
    case None => forall j: nat :: !Governs(lines, j, i)
  }

  /** The attribute still pending when line `i` begins. */
  ghost predicate Pending(lines: seq<string>, i: nat, cfg: Option<string>) {
    if i == 0 || i > |lines| then cfg == None
    else if Passive(lines[i - 1]) then CfgInForce(lines, i - 1, cfg)
    else cfg == None
  }

  lemma CfgStep(lines: seq<string>, i: nat, before: Option<string>)
    requires i < |lines| && Pending(lines, i, before)
    ensures CfgInForce(lines, i, if IsCfg(lines[i]) then Some(Trim(lines[i])) else before)
  {
    if IsCfg(lines[i]) {
      assert Governs(lines, i, i);
    } else {
      forall j: nat ensures Governs(lines, j, i) <==> i > 0 && Passive(lines[i - 1]) && Governs(lines, j, i - 1) {
        GovernsStep(lines, j, i);
      }
    }
  }

  lemma GovernsStep(lines: seq<string>, j: nat, i: nat)
    requires i < |lines| && !IsCfg(lines[i])
    ensures Governs(lines, j, i) <==> i > 0 && Passive(lines[i - 1]) && Governs(lines, j, i - 1)
  {
  }

  /** At most one attribute is in force. */
  lemma CfgUnique(lines: seq<string>, i: nat, a: Option<string>, b: Option<string>)
    requires i < |lines| && CfgInForce(lines, i, a) && CfgInForce(lines, i, b)
    ensures a == b
  {
    if a.Some? && b.Some? {
      var j: nat :| Governs(lines, j, i) && a.value == Trim(lines[j]);
      var k: nat :| Governs(lines, k, i) && b.value == Trim(lines[k]);
    }
  }

  // ----- Declarations -----

  datatype Symbol = Symbol(kind: string, name: string, cfg: Option<string>)

  datatype Place = Place(file: string, line: nat)

  datatype Decl = Decl(symbol: Symbol, place: Place)

  /** What the declaration pattern finds at the start of a line: a kind and a name. */
  type Pattern = string -> Option<(string, string)>

  /** A line that declares: at depth zero, outside strings, not indented, and not the name `_`. */
  predicate Declaring(line: string, depth: int, mode: Mode, pattern: Pattern) {
    && depth == 0 && mode == Code
    && line != [] && TrimStart(line) == line
    && pattern(line).Some? && pattern(line).value.1 != "_"
  }

  predicate TopLevel(lines: seq<string>, i: nat, pattern: Pattern)
    requires i < |lines|
  {
    var ts := FileTokens(lines, i);
    Declaring(lines[i], Net(ts), EndMode(Code, ts), pattern)
  }

  /** Depth and mode are those of the first `n` lines. */
  ghost predicate Tracks(lines: seq<string>, n: nat, depth: int, mode: Mode) {
    n <= |lines| && depth == Net(FileTokens(lines, n)) && mode == EndMode(Code, FileTokens(lines, n))
  }

  lemma TracksStep(lines: seq<string>, n: nat, depth: int, mode: Mode)
    requires n < |lines| && Tracks(lines, n, depth, mode)
    ensures var ts := Tokenize(mode, lines[n]); Tracks(lines, n + 1, depth + Net(ts), EndMode(mode, ts))
  {
    var before, ts := FileTokens(lines, n), Tokenize(mode, lines[n]);
    EndModeAppend(Code, before, ts);
    BracesAppend(before, ts, '{');
    BracesAppend(before, ts, '}');
  }

  /** `d` is declared by the line it names, with the attribute in force there. */
  ghost predicate Declares(file: string, lines: seq<string>, pattern: Pattern, d: Decl) {
    && d.place.file == file && 0 < d.place.line <= |lines|
    && var i := d.place.line - 1;
       && TopLevel(lines, i, pattern)
       && pattern(lines[i]).value == (d.symbol.kind, d.symbol.name)
       && CfgInForce(lines, i, d.symbol.cfg)
  }

  predicate InLineOrder(ds: seq<Decl>, file: string) {
    && (forall i :: 0 <= i < |ds| ==> ds[i].place.file == file)
    && forall i, j :: 0 <= i < j < |ds| ==> ds[i].place.line < ds[j].place.line
  }

  /** What the first `n` lines declare. */
  ghost function Declared(file: string, lines: seq<string>, pattern: Pattern, n: nat): iset<Decl> {
    iset d | Declares(file, lines, pattern, d) && d.place.line <= n
  }

  ghost function Members(ds: seq<Decl>): iset<Decl> { iset d | d in ds }

  /** `ds` lists what the first `n` lines declare. */
  ghost predicate Lists(file: string, lines: seq<string>, pattern: Pattern, n: nat, ds: seq<Decl>) {
    InLineOrder(ds, file) && Members(ds) == Declared(file, lines, pattern, n)
  }

  lemma ListsMembers(file: string, lines: seq<string>, pattern: Pattern, n: nat, ds: seq<Decl>)
    requires Lists(file, lines, pattern, n, ds)
    ensures forall d :: d in ds <==> Declares(file, lines, pattern, d) && d.place.line <= n
  {
    forall d ensures d in ds <==> Declares(file, lines, pattern, d) && d.place.line <= n {
      assert d in Members(ds) <==> d in Declared(file, lines, pattern, n);
    }
  }

  lemma DeclaredHere(lines: seq<string>, pattern: Pattern, n: nat, depth: int, mode: Mode, d: Decl)
    requires n < |lines| && Tracks(lines, n, depth, mode) && Declaring(lines[n], depth, mode, pattern)
    requires pattern(lines[n]).value == (d.symbol.kind, d.symbol.name) && CfgInForce(lines, n, d.symbol.cfg)
    requires d.place.line == n + 1
    ensures Declares(d.place.file, lines, pattern, d)
  {
  }

  /** What line `n` adds to the list. */
  method CollectFrom(file: string, lines: seq<string>, pattern: Pattern, n: nat, depth: int, mode: Mode,
                     cfg: Option<string>, before: seq<Decl>)
    returns (ds: seq<Decl>)
    requires n < |lines| && Tracks(lines, n, depth, mode) && CfgInForce(lines, n, cfg)
    requires Lists(file, lines, pattern, n, before)
    ensures Lists(file, lines, pattern, n + 1, ds)
  {
    var line := lines[n];
    if Declaring(line, depth, mode, pattern) {
      var (kind, name) := pattern(line).value;
      var d := Decl(Symbol(kind, name, cfg), Place(file, n + 1));
      DeclaredHere(lines, pattern, n, depth, mode, d);
      ListsDeclared(file, lines, pattern, n, before, d);
      ds := before + [d];
    } else {
      ListsNothing(file, lines, pattern, n, before);
      ds := before;
    }
  }

  /** The attribute in force at line `n`, and what is pending after it. */
  method UpdatePending(lines: seq<string>, n: nat, before: Option<string>)
    returns (inForce: Option<string>, after: Option<string>)
    requires n < |lines| && Pending(lines, n, before)
    ensures CfgInForce(lines, n, inForce) && Pending(lines, n + 1, after)
  {
    var line := lines[n];
    CfgStep(lines, n, before);
    inForce := if IsCfg(line) then Some(Trim(line)) else before;
    after := if Passive(line) then inForce else None;
  }

  method ScanNext(lines: seq<string>, n: nat, depth: int, mode: Mode) returns (depth': int, mode': Mode)
    requires n < |lines| && Tracks(lines, n, depth, mode)
    ensures Tracks(lines, n + 1, depth', mode')
  {
    TracksStep(lines, n, depth, mode);
    mode', depth' := ScanLine(lines[n], mode, depth);
  }

  lemma NothingDeclared(file: string, lines: seq<string>, pattern: Pattern)
    ensures Lists(file, lines, pattern, 0, [])
  {
  }

  /** Mentioned where `Scanned` is to be unfolded. */
  ghost predicate Unfold(n: nat) { true }

  /** What the loop knows after `n` lines. */
  ghost predicate Scanned(file: string, lines: seq<string>, pattern: Pattern, n: nat, depth: int, mode: Mode,
                          pending: Option<string>, ds: seq<Decl>) {
    forall k: nat {:trigger Unfold(k)} :: k == n ==>
      Tracks(lines, k, depth, mode) && Pending(lines, k, pending) && Lists(file, lines, pattern, k, ds)
  }

  lemma NothingScanned(file: string, lines: seq<string>, pattern: Pattern)
    ensures Scanned(file, lines, pattern, 0, 0, Code, None, [])
  {
    NothingDeclared(file, lines, pattern);
    assert Tracks(lines, 0, 0, Code) && Pending(lines, 0, None);
  }

  lemma AllScanned(file: string, lines: seq<string>, pattern: Pattern, depth: int, mode: Mode,
                   pending: Option<string>, ds: seq<Decl>)
    requires Scanned(file, lines, pattern, |lines|, depth, mode, pending, ds)
    ensures Lists(file, lines, pattern, |lines|, ds)
  {
    assert Unfold(|lines|);
  }

  /** One turn of the loop. */
  method ScanDeclaration(file: string, lines: seq<string>, pattern: Pattern, n: nat, depth: int, mode: Mode,
                         pending: Option<string>, before: seq<Decl>)
    returns (depth': int, mode': Mode, pending': Option<string>, ds: seq<Decl>)
    requires n < |lines| && Scanned(file, lines, pattern, n, depth, mode, pending, before)
    ensures Scanned(file, lines, pattern, n + 1, depth', mode', pending', ds)
  {
    assert Unfold(n);
    var inForce;
    inForce, pending' := UpdatePending(lines, n, pending);
    ds := CollectFrom(file, lines, pattern, n, depth, mode, inForce, before);
    depth', mode' := ScanNext(lines, n, depth, mode);
  }

  method ScanFile(file: string, lines: seq<string>, pattern: Pattern) returns (ds: seq<Decl>)
    ensures Lists(file, lines, pattern, |lines|, ds)
  {
    ds := [];
    var depth: int, mode: Mode, pending: Option<string> := 0, Code, None;
    NothingScanned(file, lines, pattern);
    for i := 0 to |lines|
      invariant Scanned(file, lines, pattern, i, depth, mode, pending, ds)
    {
      depth, mode, pending, ds := ScanDeclaration(file, lines, pattern, i, depth, mode, pending, ds);
    }
    AllScanned(file, lines, pattern, depth, mode, pending, ds);
  }

  /** A line declares at most one symbol. */
  lemma DeclaresUnique(file: string, lines: seq<string>, pattern: Pattern, d: Decl, e: Decl)
    requires Declares(file, lines, pattern, d) && Declares(file, lines, pattern, e) && d.place == e.place
    ensures d == e
  {
    CfgUnique(lines, d.place.line - 1, d.symbol.cfg, e.symbol.cfg);
  }

  lemma ListsDeclared(file: string, lines: seq<string>, pattern: Pattern, n: nat, ds: seq<Decl>, d: Decl)
    requires n < |lines| && Lists(file, lines, pattern, n, ds)
    requires Declares(file, lines, pattern, d) && d.place.line == n + 1
    ensures Lists(file, lines, pattern, n + 1, ds + [d])
  {
    ListsMembers(file, lines, pattern, n, ds);
    assert forall i :: 0 <= i < |ds| ==> ds[i] in ds;
    forall e ensures e in ds + [d] <==> e in Declared(file, lines, pattern, n + 1) {
      if Declares(file, lines, pattern, e) && e.place.line == n + 1 {
        DeclaresUnique(file, lines, pattern, d, e);
      }
    }
  }

  lemma ListsNothing(file: string, lines: seq<string>, pattern: Pattern, n: nat, ds: seq<Decl>)
    requires n < |lines| && Lists(file, lines, pattern, n, ds) && !TopLevel(lines, n, pattern)
    ensures Lists(file, lines, pattern, n + 1, ds)
  {
    forall e ensures e in Declared(file, lines, pattern, n) <==> e in Declared(file, lines, pattern, n + 1) {
      NotDeclaredAt(file, lines, pattern, n, e);
    }
  }

  lemma NotDeclaredAt(file: string, lines: seq<string>, pattern: Pattern, n: nat, d: Decl)
    requires n < |lines| && !TopLevel(lines, n, pattern)
    ensures d.place.line == n + 1 ==> !Declares(file, lines, pattern, d)
  {
  }

  // ----- The tests on a line, by its form -----

  lemma CfgInside(t: string) returns (x: string)
    requires Begins(t, "#[cfg(") && EndsWith(t, ")]")
    ensures t == "#[cfg(" + x + ")]"
  {
    var p, q := "#[cfg(", ")]";
    assert t[..6] == p && t[|t| - 2..] == q;
    assert t[4] == p[4] && t[5] == p[5] && t[|t| - 2] == q[0];
    x := t[6..|t| - 2];
  }

  /** A line is an attribute exactly if it has this form, white space at both ends aside. */
  lemma CfgForm(line: string)
    ensures IsCfg(line) <==>
      exists a: string, x: string, b: string :: AllSpace(a) && AllSpace(b) && line == a + ("#[cfg(" + x + ")]") + b
  {
    if IsCfg(line) {
      var a, b := TrimSplits(line);
      var x := CfgInside(Trim(line));
    }
    if a: string, x: string, b: string :|
      AllSpace(a) && AllSpace(b) && line == a + ("#[cfg(" + x + ")]") + b
    {
      var t := "#[cfg(" + x + ")]";
      TrimIs(a, t, b);
      assert t[|t| - 2..] == ")]";
    }
  }

  /** A line begins, behind white space, with `p`. */
  ghost predicate Starts(line: string, p: string) {
    exists a: string, t: string :: AllSpace(a) && line == a + (p + t)
  }

  lemma {:induction false} TrimEndKeeps(p: string, t: string)
    requires p != [] && !IsSpace(p[|p| - 1])
    ensures Begins(TrimEnd(p + t), p)
    decreases |t|
  {
    if t == [] || !IsSpace(t[|t| - 1]) {
      assert p + t == p + t + [];
      TrimEndOf(p + t, []);
    } else {
      TrimEndKeeps(p, t[..|t| - 1]);
      assert (p + t)[..|p + t| - 1] == p + t[..|t| - 1];
    }
  }

  lemma StartsTrimmed(a: string, p: string, t: string)
    requires p != [] && !IsSpace(p[0]) && !IsSpace(p[|p| - 1]) && AllSpace(a)
    ensures Begins(Trim(a + (p + t)), p)
  {
    TrimStartOf(a, p + t);
    TrimEndKeeps(p, t);
  }

  lemma TrimmedStarts(line: string, p: string)
    requires Begins(Trim(line), p)
    ensures Starts(line, p)
  {
    var a, b := TrimSplits(line);
    var t := Trim(line);
    var rest := t[|p|..] + b;
    assert t == p + t[|p|..];
    assert line == a + (p + rest);
  }

  lemma TrimmedBegins(line: string, p: string)
    requires p != [] && !IsSpace(p[0]) && !IsSpace(p[|p| - 1])
    ensures Begins(Trim(line), p) <==> Starts(line, p)
  {
    if Begins(Trim(line), p) { TrimmedStarts(line, p); }
    if a: string, t: string :| AllSpace(a) && line == a + (p + t) { StartsTrimmed(a, p, t); }
  }

  /** A line is passive exactly if it is blank, an attribute or a comment. */
  lemma PassiveForm(line: string)
    ensures Passive(line) <==> AllSpace(line) || Starts(line, "#[") || Starts(line, "//")
  {
    TrimmedBegins(line, "#[");
    TrimmedBegins(line, "//");
    var a, b := TrimSplits(line);
    if AllSpace(line) {
      TrimIs(line, [], []);
      assert line == line + [] + [];
    }
  }

  lemma NotIndented(line: string)
    ensures TrimStart(line) == line <==> line == [] || !IsSpace(line[0])
  {
    var a, t := Leading(line);
    TrimStartOf(a, t);
  }

  /** A line declares exactly if the braces before it balance, no string or comment is open, it is not indented,
      and the pattern names a symbol other than `_`. */
  lemma TopLevelForm(lines: seq<string>, i: nat, pattern: Pattern)
    requires i < |lines|
    ensures TopLevel(lines, i, pattern) <==>
      && Braces(FileTokens(lines, i), '{') == Braces(FileTokens(lines, i), '}')
      && EndMode(Code, FileTokens(lines, i)) == Code
      && lines[i] != [] && !IsSpace(lines[i][0])
      && pattern(lines[i]).Some? && pattern(lines[i]).value.1 != "_"
  {
    NotIndented(lines[i]);
  }
}
