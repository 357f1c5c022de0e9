/** The decision-record generator: how it reads the numbers of the log, the entry it appends, and how that
    keeps the numbering check content.  `isDigit` stands for the Unicode digits its pattern accepts. */
module AdrGenerator {
  import opened AdrNumbers
  import opened Basics
  import opened Text

  // ----- Reading the log -----

  /** The length of the longest prefix of characters in `p`. */
  function Run(text: string, p: char -> bool): (n: nat)
    ensures n <= |text|
  {
    if text != [] && p(text[0]) then 1 + Run(text[1..], p) else 0
  }

  predicate IsHash(c: char) { c == '#' }

  /** The number at the start of `text`: hashes, white space (which may run over line ends), `ADR-` and digits
      that fit a `u32`. */
  function ReadHeading(isDigit: char -> bool, text: string): Option<nat> {
    var hashes := Run(text, IsHash);
    if hashes == 0 then None else ReadBlanks(isDigit, text[hashes..])
  }

  function ReadBlanks(isDigit: char -> bool, text: string): Option<nat> {
    var blanks := Run(text, IsSpace);
    if blanks == 0 then None else ReadName(isDigit, text[blanks..])
  }

  function ReadName(isDigit: char -> bool, text: string): Option<nat> {
    if !StartsWith(text, "ADR-") then None
    else
      var digits := text[4..][..Run(text[4..], isDigit)];
      if AllDigits(digits) then ParseU32(digits) else None
  }

  function Join(doc: Document): string {
    if doc == [] then "" else if |doc| == 1 then doc[0] else doc[0] + "\n" + Join(doc[1..])
  }

  /** The numbers the generator sees: at the start of any line. */
  function Seen(isDigit: char -> bool, doc: Document): (ns: seq<nat>) {
    ReadAll(Reader(isDigit), doc)
  }

  function Reader(isDigit: char -> bool): string -> Option<nat> { text => ReadHeading(isDigit, text) }

  lemma SeenCons(isDigit: char -> bool, doc: Document)
    requires doc != []
    ensures Seen(isDigit, doc) == AsSeq(ReadHeading(isDigit, Join(doc))) + Seen(isDigit, doc[1..])
  {
  }

  /** Reads at the start of every line. */
  function ReadAll(read: string -> Option<nat>, doc: Document): (ns: seq<nat>) {
    if doc == [] then [] else AsSeq(read(Join(doc))) + ReadAll(read, doc[1..])
  }

  function AsSeq(h: Option<nat>): seq<nat> { if h.Some? then [h.value] else [] }

  /** The ASCII digits are digits; a line end and a colon are not. */
  ghost predicate ProperDigits(isDigit: char -> bool) {
    (forall c :: IsDigit(c) ==> isDigit(c)) && !isDigit('\n') && !isDigit(':')
  }

  // ----- Reading on after the end -----

  lemma {:induction false} RunExtends(t: string, x: string, p: char -> bool)
    ensures Run(t + x, p) == if Run(t, p) < |t| then Run(t, p) else |t| + Run(x, p)
    decreases |t|
  {
    if t == [] {
      assert t + x == x;
    } else {
      assert (t + x)[1..] == t[1..] + x;
      RunExtends(t[1..], x, p);
    }
  }

  /** `x` starts on a new line whose first visible character is a hash. */
  predicate StartsQuietly(x: string) {
    x != [] && x[0] == '\n' && Run(x, IsSpace) < |x| && x[Run(x, IsSpace)] == '#'
  }

  lemma NameUnchanged(isDigit: char -> bool, t: string, x: string)
    requires !isDigit('\n') && x != [] && x[0] == '\n'
    ensures ReadName(isDigit, t + x) == ReadName(isDigit, t)
  {
    if StartsWith(t, "ADR-") {
      assert (t + x)[4..] == t[4..] + x;
      RunExtends(t[4..], x, isDigit);
      var n := Run(t[4..], isDigit);
      assert Run(x, isDigit) == 0;
      assert (t[4..] + x)[..n] == t[4..][..n];
    } else if StartsWith(t + x, "ADR-") {
      ShortName(t, x);
    }
  }

  lemma ShortName(t: string, x: string)
    requires x != [] && x[0] == '\n' && StartsWith(t + x, "ADR-")
    ensures StartsWith(t, "ADR-")
  {
    if |t| < 4 { CharInOccurrence(t + x, "ADR-", 0, |t|); }
  }

  lemma NoName(isDigit: char -> bool, t: string)
    requires t == [] || t[0] == '#'
    ensures ReadName(isDigit, t) == None
  {
    if StartsWith(t, "ADR-") { CharInOccurrence(t, "ADR-", 0, 0); }
  }

  lemma OnlyBlanks(isDigit: char -> bool, t: string, x: string)
    requires StartsQuietly(x) && Run(t, IsSpace) == |t|
    ensures ReadBlanks(isDigit, t + x) == ReadBlanks(isDigit, t) == None
  {
    var b := Run(x, IsSpace);
    RunExtends(t, x, IsSpace);
    assert (t + x)[|t| + b..] == x[b..];
    NoName(isDigit, x[b..]);
    NoName(isDigit, t[|t|..]);
  }

  lemma BlanksUnchanged(isDigit: char -> bool, t: string, x: string)
    requires !isDigit('\n') && StartsQuietly(x)
    ensures ReadBlanks(isDigit, t + x) == ReadBlanks(isDigit, t)
  {
    var blanks := Run(t, IsSpace);
    if blanks < |t| {
      RunExtends(t, x, IsSpace);
      assert (t + x)[blanks..] == t[blanks..] + x;
      NameUnchanged(isDigit, t[blanks..], x);
    } else {
      OnlyBlanks(isDigit, t, x);
    }
  }

  lemma HeadingUnchanged(isDigit: char -> bool, t: string, x: string)
    requires !isDigit('\n') && StartsQuietly(x)
    ensures ReadHeading(isDigit, t + x) == ReadHeading(isDigit, t)
  {
    var hashes := Run(t, IsHash);
    RunExtends(t, x, IsHash);
    assert (t + x)[hashes..] == t[hashes..] + x;
    BlanksUnchanged(isDigit, t[hashes..], x);
  }

  lemma {:induction false} JoinAppend(x: Document, y: Document)
    requires x != [] && y != []
    ensures Join(x + y) == Join(x) + "\n" + Join(y)
    decreases |x|
  {
    assert (x + y)[1..] == x[1..] + y;
    if |x| > 1 {
      JoinAppend(x[1..], y);
      assert x[0] + "\n" + (Join(x[1..]) + "\n" + Join(y)) == x[0] + "\n" + Join(x[1..]) + "\n" + Join(y);
    } else {
      assert x[1..] + y == y;
    }
  }

  lemma FirstLineUnchanged(isDigit: char -> bool, x: Document, y: Document)
    requires !isDigit('\n') && x != [] && y != [] && StartsQuietly("\n" + Join(y))
    ensures ReadHeading(isDigit, Join(x + y)) == ReadHeading(isDigit, Join(x))
  {
    JoinAppend(x, y);
    var t, u := Join(x), Join(y);
    assert t + "\n" + u == t + ("\n" + u);
    HeadingUnchanged(isDigit, t, "\n" + u);
  }

  lemma {:induction false} ReadAllAppend(read: string -> Option<nat>, x: Document, y: Document)
    requires forall i :: 0 <= i < |x| ==> read(Join(x[i..] + y)) == read(Join(x[i..]))
    ensures ReadAll(read, x + y) == ReadAll(read, x) + ReadAll(read, y)
    decreases |x|
  {
    if x == [] {
      assert x + y == y;
    } else {
      assert x[0..] == x && (x + y)[1..] == x[1..] + y;
      forall i | 0 <= i < |x[1..]| ensures read(Join(x[1..][i..] + y)) == read(Join(x[1..][i..])) {
        assert x[1..][i..] == x[i + 1..];
      }
      ReadAllAppend(read, x[1..], y);
    }
  }

  /** What is appended quietly does not change what is read before it. */
  lemma SeenAppend(isDigit: char -> bool, x: Document, y: Document)
    requires !isDigit('\n') && y != [] && StartsQuietly("\n" + Join(y))
    ensures Seen(isDigit, x + y) == Seen(isDigit, x) + Seen(isDigit, y)
  {
    var read := Reader(isDigit);
    forall i | 0 <= i < |x| ensures read(Join(x[i..] + y)) == read(Join(x[i..])) {
      FirstLineUnchanged(isDigit, x[i..], y);
    }
    ReadAllAppend(read, x, y);
  }

  // ----- The entry -----

  function MaxOf(ns: seq<nat>): (m: nat) {
    if ns == [] then 0
    else
      var m := MaxOf(ns[..|ns| - 1]);
      if ns[|ns| - 1] > m then ns[|ns| - 1] else m
  }

  lemma {:induction false} MaxIsHighest(ns: seq<nat>)
    ensures forall x :: x in ns ==> x <= MaxOf(ns)
    ensures MaxOf(ns) == 0 || MaxOf(ns) in ns
    decreases |ns|
  {
    if ns != [] {
      var init, last := ns[..|ns| - 1], ns[|ns| - 1];
      assert ns == init + [last];
      MaxIsHighest(init);
    }
  }

  /** One more than the highest number in the log, or in the file names when the log shows none above zero. */
  function NextNumber(seen: seq<nat>, files: seq<nat>): nat {
    (if MaxOf(seen) == 0 then MaxOf(files) else MaxOf(seen)) + 1
  }

  predicate OnlyZeros(ns: seq<nat>) { forall i :: 0 <= i < |ns| ==> ns[i] == 0 }

  /** `n` comes right after the highest of `ns`. */
  predicate FollowsHighest(ns: seq<nat>, n: nat) { n > 0 && n - 1 in ns && forall x :: x in ns ==> x < n }

  /** The next number: after the highest in the log; if the log shows nothing above zero, after the highest file
      number; if there is none above zero either, one. */
  lemma NextNumberMeaning(seen: seq<nat>, files: seq<nat>)
    ensures var n := NextNumber(seen, files);
      if !OnlyZeros(seen) then FollowsHighest(seen, n)
      else if !OnlyZeros(files) then FollowsHighest(files, n)
      else n == 1
  {
    MaxIsHighest(seen);
    MaxIsHighest(files);
    assert forall i :: 0 <= i < |seen| ==> seen[i] in seen;
    assert forall i :: 0 <= i < |files| ==> files[i] in files;
  }

  function Heading(n: nat, title: string): string { H1 + Format3(n) + ": " + title }

  function TemplateBody(date: string): Document {
    Facts(date)
    + Section("Entscheidung", "Was wurde entschieden?")
    + Section("Begr\U{FC}ndung", "Warum diese Entscheidung?")
    + Section("Alternativen", "Welche Alternativen wurden erwogen?")
    + Section("Konsequenzen", "Was folgt aus dieser Entscheidung?")
    + ["", "---"]
  }

  function Facts(date: string): Document {
    ["", Fact("Status", "Vorgeschlagen"), Fact("Datum", date),
     Fact("Kontext / Ausl\U{F6}ser", "<!-- Beschreibung -->")]
  }

  function Fact(name: string, value: string): string { "* **" + name + ":** " + value }

  function Section(name: string, hint: string): Document {
    ["", "## " + name, "<!-- " + hint + " -->"]
  }

  /** The log followed by an empty line, the heading and the lines below it; an empty log is first given
      a line of its own. */
  function Appended(doc: Document, n: nat, title: string, body: Document): Document {
    OrLine(doc) + ["", Heading(n, title)] + body
  }

  function OrLine(doc: Document): Document { if doc == [] then [""] else doc }

  method Highest(start: nat, ns: seq<nat>) returns (m: nat)
    ensures m == if MaxOf(ns) > start then MaxOf(ns) else start
  {
    m := start;
    for i := 0 to |ns|
      invariant m == if MaxOf(ns[..i]) > start then MaxOf(ns[..i]) else start
    {
      assert ns[..i + 1][..i] == ns[..i];
      if ns[i] > m { m := ns[i]; }
    }
    assert ns[..|ns|] == ns;
  }

  method ChooseNumber(seen: seq<nat>, files: seq<nat>) returns (n: nat)
    ensures n == NextNumber(seen, files)
  {
    var max := Highest(0, seen);
    if max == 0 { max := Highest(max, files); }
    n := max + 1;
  }

  /** The number that the next entry gets. */
  function NextFor(isDigit: char -> bool, doc: Document, files: seq<nat>): nat {
    NextNumber(Seen(isDigit, doc), files)
  }

  method AppendEntry(doc: Document, n: nat, title: string, body: Document) returns (after: Document)
    ensures after == Appended(doc, n, title, body)
  {
    var content := doc;
    if content == [] { content := [""]; }
    after := content + ["", Heading(n, title)] + body;
  }

  /** The new log and the number given out; nothing when the next number does not fit a `u32`. */
  method RunGenerateAdr(isDigit: char -> bool, doc: Document, files: seq<nat>, title: string, date: string,
                        dryRun: bool)
    returns (r: Option<(Document, nat)>)
    ensures r.None? <==> NextFor(isDigit, doc, files) >= U32_LIMIT
    ensures r.Some? ==> r.value.1 == NextFor(isDigit, doc, files)
    ensures r.Some? ==> r.value.0 == if dryRun then doc else Appended(doc, r.value.1, title, TemplateBody(date))
  {
    var n := ChooseNumber(Seen(isDigit, doc), files);
    if n >= U32_LIMIT { return None; }
    if dryRun { return Some((doc, n)); }
    var after := AppendEntry(doc, n, title, TemplateBody(date));
    r := Some((after, n));
  }

  // ----- What one entry adds -----

  /** A line without the letter `R`, so that it names no ADR. */
  predicate Plain(line: string) { 'R' !in line }

  lemma PlainLacks(line: string, t: string, i: int, j: nat)
    requires Plain(line) && j < |t| && t[j] == 'R'
    ensures !OccursAt(line, t, i)
  {
    if OccursAt(line, t, i) { CharInOccurrence(line, t, i, i + j); }
  }

  lemma PlainNamesNone(line: string, n: nat)
    requires Plain(line)
    ensures !Contains(line, Placeholder(n)) && ParseHeading(line).None?
  {
    ContainsIffOccurs(line, Placeholder(n));
    forall i ensures !OccursAt(line, Placeholder(n), i) { PlainLacks(line, Placeholder(n), i, 2); }
    PlainLacks(line, H1, 0, 4);
    PlainLacks(line, H2, 0, 5);
  }

  lemma HeadingParsed(digits: string, title: string)
    requires AllDigits(digits)
    ensures ParseHeading(H1 + digits + ": " + title) == ParseU32(digits)
  {
    var h, tail := H1 + digits + ": " + title, ": " + title;
    assert h[|H1|..] == digits + tail;
    assert h[1] != H2[0 + 1];
    LeadingDigitsOf(digits, tail);
  }

  /** The checker reads back the number that the generator formats. */
  lemma HeadingRoundTrip(n: nat, title: string)
    requires n < U32_LIMIT
    ensures ParseHeading(Heading(n, title)) == Some(n)
  {
    HeadingParsed(Format3(n), title);
    FormatRoundTrip(n);
  }

  predicate AllPlain(doc: Document) { forall i :: 0 <= i < |doc| ==> Plain(doc[i]) }

  lemma SectionIsPlain(name: string, hint: string)
    requires Plain(name) && Plain(hint)
    ensures AllPlain(Section(name, hint))
  {
  }

  lemma FactIsPlain(name: string, value: string)
    requires Plain(name) && Plain(value)
    ensures Plain(Fact(name, value))
  {
  }

  lemma FactsArePlain(date: string)
    requires Plain(date)
    ensures AllPlain(Facts(date))
  {
    FactIsPlain("Status", "Vorgeschlagen");
    FactIsPlain("Datum", date);
    FactIsPlain("Kontext / Ausl\U{F6}ser", "<!-- Beschreibung -->");
  }

  lemma BodyIsPlain(date: string)
    requires Plain(date)
    ensures AllPlain(TemplateBody(date))
  {
    FactsArePlain(date);
    SectionIsPlain("Entscheidung", "Was wurde entschieden?");
    SectionIsPlain("Begr\U{FC}ndung", "Warum diese Entscheidung?");
    SectionIsPlain("Alternativen", "Welche Alternativen wurden erwogen?");
    SectionIsPlain("Konsequenzen", "Was folgt aus dieser Entscheidung?");
  }

  lemma {:induction false} PlainHasNoNumbers(doc: Document)
    requires AllPlain(doc)
    ensures Numbers(doc) == []
    decreases |doc|
  {
    if doc != [] {
      PlainHasNoNumbers(doc[..|doc| - 1]);
      PlainNamesNone(doc[|doc| - 1], 0);
    }
  }

  /** The entry adds its own number and no other. */
  lemma AppendedNumbers(doc: Document, n: nat, title: string, body: Document)
    requires n < U32_LIMIT && AllPlain(body)
    ensures Numbers(Appended(doc, n, title, body)) == Numbers(doc) + [n]
  {
    var start, h := OrLine(doc), Heading(n, title);
    PlainNamesNone("", 0);
    assert Numbers(start) == Numbers(doc);
    NumbersAppend(start + ["", h], body);
    NumbersAppend(start, ["", h]);
    assert ["", h] == [""] + [h];
    NumbersAppend([""], [h]);
    HeadingRoundTrip(n, title);
    PlainHasNoNumbers(body);
  }

  /** Text `t` occurs in some line. */
  predicate Somewhere(doc: Document, t: string) { exists i :: 0 <= i < |doc| && Contains(doc[i], t) }

  lemma SomewhereAppend(x: Document, y: Document, t: string)
    ensures Somewhere(x + y, t) <==> Somewhere(x, t) || Somewhere(y, t)
  {
    var z := x + y;
    if Somewhere(x, t) { var i :| 0 <= i < |x| && Contains(x[i], t); assert Contains(z[i], t); }
    if Somewhere(y, t) { var i :| 0 <= i < |y| && Contains(y[i], t); assert Contains(z[|x| + i], t); }
  }

  lemma PlainMentionsNone(doc: Document, m: nat)
    requires AllPlain(doc)
    ensures !Somewhere(doc, Placeholder(m))
  {
    forall i | 0 <= i < |doc| ensures !Contains(doc[i], Placeholder(m)) { PlainNamesNone(doc[i], m); }
  }

  lemma EntryMentions(start: Document, h: string, body: Document, m: nat, t: string)
    requires AllPlain(body) && t == Placeholder(m)
    ensures Somewhere(start + ["", h] + body, t) <==> Somewhere(start, t) || Contains(h, t)
  {
    SomewhereAppend(start + ["", h], body, t);
    SomewhereAppend(start, ["", h], t);
    PlainMentionsNone(body, m);
    PlainNamesNone("", m);
    var e := ["", h];
    assert e[1] == h;
  }

  /** The entry mentions what its heading mentions; older mentions stay. */
  lemma AppendedMentions(doc: Document, n: nat, title: string, body: Document, m: nat)
    requires AllPlain(body)
    ensures Mentions(Appended(doc, n, title, body), m) <==>
      Mentions(doc, m) || Contains(Heading(n, title), Placeholder(m))
  {
    EntryMentions(OrLine(doc), Heading(n, title), body, m, Placeholder(m));
    PlainMentionsNone([""], m);
  }

  // ----- What the generator sees of its own entry -----

  lemma {:induction false} PlainJoin(doc: Document)
    requires AllPlain(doc)
    ensures Plain(Join(doc))
    decreases |doc|
  {
    if |doc| > 1 { PlainJoin(doc[1..]); }
  }

  lemma PlainReadsNone(isDigit: char -> bool, text: string)
    requires Plain(text)
    ensures ReadHeading(isDigit, text) == None
  {
    var rest := text[Run(text, IsHash)..];
    var word := rest[Run(rest, IsSpace)..];
    PlainLacks(word, "ADR-", 0, 2);
  }

  lemma {:induction false} PlainSeesNone(isDigit: char -> bool, doc: Document)
    requires AllPlain(doc)
    ensures Seen(isDigit, doc) == []
    decreases |doc|
  {
    if doc != [] {
      PlainJoin(doc);
      PlainReadsNone(isDigit, Join(doc));
      PlainSeesNone(isDigit, doc[1..]);
    }
  }

  lemma {:induction false} DigitRun(isDigit: char -> bool, s: string)
    requires AllDigits(s) && ProperDigits(isDigit)
    ensures Run(s, isDigit) == |s|
    decreases |s|
  {
    if s != [] { DigitRun(isDigit, s[1..]); }
  }

  lemma NameIsRead(isDigit: char -> bool, digits: string, tail: string)
    requires AllDigits(digits) && ProperDigits(isDigit) && tail != [] && tail[0] == ':'
    ensures ReadName(isDigit, "ADR-" + (digits + tail)) == ParseU32(digits)
  {
    var d := digits + tail;
    var text := "ADR-" + d;
    assert text[4..] == d && StartsWith(text, "ADR-");
    RunExtends(digits, tail, isDigit);
    DigitRun(isDigit, digits);
    assert Run(tail, isDigit) == 0;
    assert d[..|digits|] == digits;
  }

  lemma OneBlank(isDigit: char -> bool, word: string)
    requires word != [] && !IsSpace(word[0])
    ensures ReadBlanks(isDigit, " " + word) == ReadName(isDigit, word)
  {
    var text := " " + word;
    assert text[1..] == word;
    assert Run(word, IsSpace) == 0;
    assert Run(text, IsSpace) == 1;
  }

  lemma OneHash(isDigit: char -> bool, rest: string)
    requires rest != [] && rest[0] != '#'
    ensures ReadHeading(isDigit, "#" + rest) == ReadBlanks(isDigit, rest)
  {
    var text := "#" + rest;
    assert text[1..] == rest;
    assert Run(rest, IsHash) == 0;
    assert Run(text, IsHash) == 1;
  }

  lemma HeadingRead(isDigit: char -> bool, digits: string, title: string, more: string)
    requires AllDigits(digits) && ProperDigits(isDigit)
    ensures ReadHeading(isDigit, H1 + digits + ": " + title + more) == ParseU32(digits)
  {
    var tail := ": " + title + more;
    var word := "ADR-" + (digits + tail);
    assert H1 + digits + ": " + title + more == "#" + (" " + word);
    OneHash(isDigit, " " + word);
    OneBlank(isDigit, word);
    NameIsRead(isDigit, digits, tail);
  }

  /** The generator, too, reads back the number it formats. */
  lemma HeadingIsSeen(isDigit: char -> bool, n: nat, title: string, more: string)
    requires n < U32_LIMIT && ProperDigits(isDigit)
    ensures ReadHeading(isDigit, Heading(n, title) + more) == Some(n)
  {
    HeadingRead(isDigit, Format3(n), title, more);
    FormatRoundTrip(n);
  }

  /** The lines of an entry with heading `h`. */
  function EntryLines(h: string, body: Document): Document { ["", h] + body }

  function Below(body: Document): string { if body == [] then "" else "\n" + Join(body) }

  lemma EntryText(h: string, body: Document)
    ensures Join([h] + body) == h + Below(body)
    ensures Join(EntryLines(h, body)) == "\n" + (h + Below(body))
  {
    var lines := [h] + body;
    assert lines[1..] == body;
    assert EntryLines(h, body)[1..] == lines;
  }

  lemma EntryIsQuiet(h: string, body: Document)
    requires h != [] && h[0] == '#'
    ensures StartsQuietly("\n" + Join(EntryLines(h, body)))
  {
    EntryText(h, body);
    var text := h + Below(body);
    var x := "\n" + Join(EntryLines(h, body));
    assert x[1..][1..] == text && Run(text, IsSpace) == 0;
  }

  lemma EntryIsSeen(isDigit: char -> bool, h: string, n: nat, body: Document)
    requires ReadHeading(isDigit, h + Below(body)) == Some(n) && AllPlain(body)
    ensures Seen(isDigit, EntryLines(h, body)) == [n]
  {
    EntryText(h, body);
    var lines, entry := [h] + body, EntryLines(h, body);
    assert entry[1..] == lines && lines[1..] == body;
    assert Join(entry)[0] == '\n';
    SeenCons(isDigit, entry);
    SeenCons(isDigit, lines);
    PlainSeesNone(isDigit, body);
  }

  lemma EntryAdds(isDigit: char -> bool, start: Document, h: string, n: nat, body: Document)
    requires ReadHeading(isDigit, h + Below(body)) == Some(n) && AllPlain(body) && h != [] && h[0] == '#'
    requires !isDigit('\n')
    ensures Seen(isDigit, start + EntryLines(h, body)) == Seen(isDigit, start) + [n]
  {
    EntryIsQuiet(h, body);
    EntryIsSeen(isDigit, h, n, body);
    SeenAppend(isDigit, start, EntryLines(h, body));
  }

  lemma OrLineSeen(isDigit: char -> bool, doc: Document)
    ensures Seen(isDigit, OrLine(doc)) == Seen(isDigit, doc)
  {
    PlainSeesNone(isDigit, [""]);
  }

  /** The generator sees its entry as it sees everything before: one more number. */
  lemma AppendedSeen(isDigit: char -> bool, doc: Document, n: nat, title: string, body: Document)
    requires n < U32_LIMIT && ProperDigits(isDigit) && AllPlain(body)
    ensures Seen(isDigit, Appended(doc, n, title, body)) == Seen(isDigit, doc) + [n]
  {
    var start, h := OrLine(doc), Heading(n, title);
    HeadingIsSeen(isDigit, n, title, Below(body));
    assert Appended(doc, n, title, body) == start + EntryLines(h, body);
    OrLineSeen(isDigit, doc);
    EntryAdds(isDigit, start, h, n, body);
  }

  // ----- Generator against checker -----

  /** Both tools read the same numbers from the log. */
  ghost predicate Agrees(seen: seq<nat>, ns: seq<nat>) { forall x :: x in seen <==> x in ns }

  lemma SameMax(seen: seq<nat>, ns: seq<nat>)
    requires Agrees(seen, ns)
    ensures MaxOf(seen) == MaxOf(ns)
  {
    MaxIsHighest(seen);
    MaxIsHighest(ns);
  }

  /** `top` is the highest of the numbers. */
  ghost predicate IsTop(ns: seq<nat>, top: nat) { top in ns && forall x :: x in ns ==> x <= top }

  lemma MaxIsTop(ns: seq<nat>)
    requires ns != []
    ensures IsTop(ns, MaxOf(ns))
  {
    MaxIsHighest(ns);
    assert ns[0] in ns;
  }

  /** Adding a higher number opens exactly the gap above the old maximum. */
  lemma GapAbove(ns: seq<nat>, top: nat, n: nat, m: nat)
    requires IsTop(ns, top) && top < n
    ensures IsGap(ns + [n], m) <==> IsGap(ns, m) || top < m < n
  {
    var all := ns + [n];
    assert forall i :: 0 <= i < |ns| ==> all[i] == ns[i];
    var t :| 0 <= t < |ns| && ns[t] == top;
    assert all[t] == top && all[|ns|] == n;
    if IsGap(ns, m) {
      var i :| 0 <= i < |ns| && ns[i] < m;
      assert all[i] < m;
      var j :| 0 <= j < |ns| && m < ns[j];
      assert ns[j] in ns;
    }
    if IsGap(all, m) && m <= top {
      assert m != top;
      var i :| 0 <= i < |all| && all[i] < m;
      assert ns[i] < m;
    }
  }

  ghost predicate MentionsGrow(before: Document, after: Document) {
    forall m :: Mentions(before, m) ==> Mentions(after, m)
  }

  /** A number above all others keeps the log consistent exactly if the numbers it skips are mentioned. */
  lemma HigherNumber(before: Document, top: nat, n: nat, after: Document)
    requires Consistent(before) && MentionsGrow(before, after) && Numbers(after) == Numbers(before) + [n]
    requires IsTop(Numbers(before), top) && top < n
    ensures Consistent(after) <==> forall m :: top < m < n ==> Mentions(after, m)
  {
    var ns := Numbers(before);
    assert forall i :: 0 <= i < |ns| ==> ns[i] in ns;
    assert NoRepeats(ns + [n]);
    forall m: nat ensures IsGap(ns + [n], m) <==> IsGap(ns, m) || top < m < n { GapAbove(ns, top, n, m); }
  }

  lemma FirstNumber(n: nat, after: Document)
    requires Numbers(after) == [n]
    ensures Consistent(after)
  {
  }

  /** A number that the log mentions, or will with the heading of the new entry. */
  predicate WillMention(doc: Document, n: nat, title: string, m: nat) {
    Mentions(doc, m) || Contains(Heading(n, title), Placeholder(m))
  }

  /** When the two tools agree on the log, a generated entry passes the check, unless the log holds only
      number zero: then the file names decide, and the numbers they skip must be mentioned in the log or in
      the new title. */
  lemma GeneratedEntryConsistentIff(isDigit: char -> bool, doc: Document, files: seq<nat>, title: string,
                                    body: Document)
    requires Consistent(doc) && Agrees(Seen(isDigit, doc), Numbers(doc)) && AllPlain(body)
    requires NextFor(isDigit, doc, files) < U32_LIMIT
    ensures var n := NextFor(isDigit, doc, files);
      Consistent(Appended(doc, n, title, body)) <==>
        || Numbers(doc) == []
        || MaxOf(Numbers(doc)) > 0
        || forall m :: 0 < m < n ==> WillMention(doc, n, title, m)
  {
    var n, ns := NextFor(isDigit, doc, files), Numbers(doc);
    var after := Appended(doc, n, title, body);
    AppendedNumbers(doc, n, title, body);
    SameMax(Seen(isDigit, doc), ns);
    if ns == [] {
      FirstNumber(n, after);
    } else {
      MaxIsTop(ns);
      forall m: nat ensures Mentions(after, m) <==> WillMention(doc, n, title, m) {
        AppendedMentions(doc, n, title, body, m);
      }
      HigherNumber(doc, MaxOf(ns), n, after);
    }
  }

  /** A log holding only ADR-000 beside a file ADR-002: the next number is 3 and the check then fails. */
  lemma ZeroOnlyLogBreaks(isDigit: char -> bool, title: string, body: Document)
    requires ProperDigits(isDigit) && Plain(title) && AllPlain(body)
    ensures var doc := [Heading(0, title)];
      Consistent(doc) && Agrees(Seen(isDigit, doc), Numbers(doc)) && NextFor(isDigit, doc, [2]) == 3
      && !Consistent(Appended(doc, 3, title, body))
  {
    var doc := [Heading(0, title)];
    ZeroOnlyLog(isDigit, title);
    NotMentioned(0, '0', title);
    NotMentioned(3, '3', title);
    ThreeIsNext();
    GeneratedEntryConsistentIff(isDigit, doc, [2], title, body);
    assert !WillMention(doc, 3, title, 1);
  }

  lemma ThreeIsNext()
    ensures NextNumber([0], [2]) == 3
  {
    var seen, files := [0], [2];
    assert seen[..0] == [] && files[..0] == [];
    assert MaxOf(seen) == 0 && MaxOf(files) == 2;
  }

  lemma OneLineLog(isDigit: char -> bool, h: string, n: nat)
    requires ParseHeading(h) == Some(n) && ReadHeading(isDigit, h) == Some(n)
    ensures Numbers([h]) == [n] && Seen(isDigit, [h]) == [n]
  {
    var doc := [h];
    assert doc[..0] == [] && doc[1..] == [];
    SeenCons(isDigit, doc);
  }

  lemma ZeroOnlyLog(isDigit: char -> bool, title: string)
    requires ProperDigits(isDigit)
    ensures Numbers([Heading(0, title)]) == [0] && Consistent([Heading(0, title)])
    ensures Seen(isDigit, [Heading(0, title)]) == [0]
  {
    var h := Heading(0, title);
    HeadingRoundTrip(0, title);
    HeadingIsSeen(isDigit, 0, title, "");
    assert h + "" == h;
    OneLineLog(isDigit, h, 0);
    FirstNumber(0, [h]);
  }

  lemma NotMentioned(n: nat, c: char, title: string)
    requires Format3(n) == "00" + [c] && IsDigit(c) && c != '1' && Plain(title)
    ensures !Contains(Heading(n, title), Placeholder(1))
  {
    var line := Heading(n, title);
    var t := Placeholder(1);
    assert t == "ADR-001";
    assert line == "# ADR-00" + [c] + ": " + title;
    ContainsIffOccurs(line, t);
    forall i ensures !OccursAt(line, t, i) {
      if OccursAt(line, t, i) {
        CharInOccurrence(line, t, i, i + 2);
        OnlyR(c, title, i + 2);
        CharInOccurrence(line, t, i, i + 6);
      }
    }
  }

  lemma OnlyR(c: char, title: string, i: int)
    requires Plain(title) && IsDigit(c)
    requires 0 <= i < |"# ADR-00" + [c] + ": " + title| && ("# ADR-00" + [c] + ": " + title)[i] == 'R'
    ensures i == 4
  {
  }

  // ----- Every run of the generator -----

  datatype Request = Request(files: seq<nat>, title: string, body: Document)

  /** One successful call. */
  ghost predicate Step(isDigit: char -> bool, before: Document, r: Request, after: Document) {
    var n := NextFor(isDigit, before, r.files);
    n < U32_LIMIT && AllPlain(r.body) && after == Appended(before, n, r.title, r.body)
  }

  ghost predicate IsRun(isDigit: char -> bool, docs: seq<Document>, rs: seq<Request>) {
    && |docs| == |rs| + 1
    && forall i :: 0 <= i < |rs| ==> Step(isDigit, docs[i], rs[i], docs[i + 1])
  }

  /** The check passes, both tools read the same numbers, and these are none or go above zero. */
  ghost predicate Sound(isDigit: char -> bool, doc: Document) {
    && Consistent(doc) && Agrees(Seen(isDigit, doc), Numbers(doc))
    && (Numbers(doc) == [] || MaxOf(Numbers(doc)) > 0)
  }

  /** The entry adds the same number for both readers, so they go on agreeing. */
  lemma AgreementKept(isDigit: char -> bool, doc: Document, n: nat, title: string, body: Document)
    requires n < U32_LIMIT && ProperDigits(isDigit) && AllPlain(body) && Agrees(Seen(isDigit, doc), Numbers(doc))
    ensures var after := Appended(doc, n, title, body); Agrees(Seen(isDigit, after), Numbers(after))
  {
    AppendedSeen(isDigit, doc, n, title, body);
    AppendedNumbers(doc, n, title, body);
  }

  lemma MaxOfSnoc(ns: seq<nat>, n: nat)
    requires n > MaxOf(ns)
    ensures MaxOf(ns + [n]) == n
  {
    assert (ns + [n])[..|ns|] == ns;
  }

  /** One call keeps a sound log sound, and gives out one above the highest number. */
  lemma StepStaysSound(isDigit: char -> bool, before: Document, r: Request, after: Document)
    requires ProperDigits(isDigit) && Step(isDigit, before, r, after) && Sound(isDigit, before)
    ensures var n := NextFor(isDigit, before, r.files);
      && Sound(isDigit, after) && Numbers(after) == Numbers(before) + [n] && MaxOf(Numbers(after)) == n
      && (Numbers(before) != [] ==> n == MaxOf(Numbers(before)) + 1)
  {
    var n := NextFor(isDigit, before, r.files);
    SameMax(Seen(isDigit, before), Numbers(before));
    GeneratedEntryConsistentIff(isDigit, before, r.files, r.title, r.body);
    AppendedNumbers(before, n, r.title, r.body);
    AgreementKept(isDigit, before, n, r.title, r.body);
    MaxOfSnoc(Numbers(before), n);
  }

  lemma {:induction false} KeptAlong(p: Document -> bool, docs: seq<Document>, k: nat)
    requires k < |docs| && p(docs[0]) && forall i :: 0 < i <= k && p(docs[i - 1]) ==> p(docs[i])
    ensures p(docs[k])
    decreases k
  {
    if k > 0 { KeptAlong(p, docs, k - 1); }
  }

  /** Over every run the log stays sound. */
  lemma EveryRunStaysSound(isDigit: char -> bool, docs: seq<Document>, rs: seq<Request>, k: nat)
    requires ProperDigits(isDigit) && IsRun(isDigit, docs, rs) && k <= |rs| && Sound(isDigit, docs[0])
    ensures Sound(isDigit, docs[k])
  {
    ghost var p := doc => Sound(isDigit, doc);
    forall i | 0 < i <= k && p(docs[i - 1]) ensures p(docs[i]) {
      assert Step(isDigit, docs[i - 1], rs[i - 1], docs[i - 1 + 1]);
      StepStaysSound(isDigit, docs[i - 1], rs[i - 1], docs[i]);
    }
    KeptAlong(p, docs, k);
  }

  function Consecutive(first: nat, k: nat): (ns: seq<nat>) { seq(k, i requires 0 <= i => first + i) }

  /** The numbers of successive logs, each with one more: one above the highest before, if there was any. */
  ghost predicate Grows(before: seq<nat>, after: seq<nat>) {
    |after| > 0 && after == before + [MaxOf(after)] && (before != [] ==> MaxOf(after) == MaxOf(before) + 1)
  }

  ghost predicate GrowThroughout(logs: seq<seq<nat>>) { forall i :: 0 < i < |logs| ==> Grows(logs[i - 1], logs[i]) }

  lemma {:induction false} GrowthIsConsecutive(logs: seq<seq<nat>>, k: nat)
    requires 0 < k < |logs| && GrowThroughout(logs)
    ensures logs[k] == logs[0] + Consecutive(MaxOf(logs[1]), k) && MaxOf(logs[k]) == MaxOf(logs[1]) + k - 1
    decreases k
  {
    var first := MaxOf(logs[1]);
    assert Grows(logs[k - 1], logs[k]);
    if k == 1 {
      assert Consecutive(first, 1) == [first];
    } else {
      GrowthIsConsecutive(logs, k - 1);
      assert Consecutive(first, k) == Consecutive(first, k - 1) + [first + k - 1];
    }
  }

  function Logs(docs: seq<Document>): (ls: seq<seq<nat>>) {
    seq(|docs|, i requires 0 <= i < |docs| => Numbers(docs[i]))
  }

  lemma StepGrows(isDigit: char -> bool, docs: seq<Document>, rs: seq<Request>, i: nat)
    requires ProperDigits(isDigit) && IsRun(isDigit, docs, rs) && 0 < i <= |rs| && Sound(isDigit, docs[0])
    ensures Grows(Numbers(docs[i - 1]), Numbers(docs[i]))
  {
    EveryRunStaysSound(isDigit, docs, rs, i - 1);
    assert Step(isDigit, docs[i - 1], rs[i - 1], docs[i - 1 + 1]);
    StepStaysSound(isDigit, docs[i - 1], rs[i - 1], docs[i]);
  }

  lemma AllGrow(isDigit: char -> bool, docs: seq<Document>, rs: seq<Request>)
    requires ProperDigits(isDigit) && IsRun(isDigit, docs, rs) && Sound(isDigit, docs[0])
    ensures GrowThroughout(Logs(docs))
  {
    forall i | 0 < i < |docs| ensures Grows(Logs(docs)[i - 1], Logs(docs)[i]) { StepGrows(isDigit, docs, rs, i); }
  }

  lemma RunIsConsecutive(docs: seq<Document>, k: nat)
    requires 0 < k < |docs| && GrowThroughout(Logs(docs))
    ensures Numbers(docs[k]) == Numbers(docs[0]) + Consecutive(MaxOf(Numbers(docs[1])), k)
  {
    GrowthIsConsecutive(Logs(docs), k);
  }

  lemma FirstGiven(isDigit: char -> bool, docs: seq<Document>, rs: seq<Request>)
    requires ProperDigits(isDigit) && IsRun(isDigit, docs, rs) && |rs| > 0 && Sound(isDigit, docs[0])
    ensures MaxOf(Numbers(docs[1])) == NextFor(isDigit, docs[0], rs[0].files)
  {
    assert Step(isDigit, docs[0], rs[0], docs[0 + 1]);
    StepStaysSound(isDigit, docs[0], rs[0], docs[1]);
  }

  /** From a consistent log that both tools read alike, empty or with a number above zero: over every run of the
      generator the check passes, the tools go on agreeing, and the numbers given out are consecutive. */
  lemma EveryRunStaysConsistent(isDigit: char -> bool, docs: seq<Document>, rs: seq<Request>, k: nat)
    requires ProperDigits(isDigit) && IsRun(isDigit, docs, rs) && 0 < k <= |rs| && Sound(isDigit, docs[0])
    ensures Numbers(docs[k]) == Numbers(docs[0]) + Consecutive(NextFor(isDigit, docs[0], rs[0].files), k)
    ensures Consistent(docs[k]) && Agrees(Seen(isDigit, docs[k]), Numbers(docs[k]))
  {
    AllGrow(isDigit, docs, rs);
    RunIsConsecutive(docs, k);
    FirstGiven(isDigit, docs, rs);
    EveryRunStaysSound(isDigit, docs, rs, k);
  }
}
