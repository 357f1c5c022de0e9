/** ADR numbering: the consistency check over the headings of the decision log.  A document
    is its sequence of lines; no pattern the check searches for spans lines. */
module AdrNumbers {
  import opened Basics
  import opened Text

  const U32_LIMIT: nat := 0x1_0000_0000

  type Document = seq<string>

  // ----- Decimal numbers -----

  predicate IsDigit(c: char) { '0' <= c <= '9' }

  function DigitValue(c: char): nat
    requires IsDigit(c)
  {
    c as int - '0' as int
  }

  function DigitChar(d: nat): (c: char)
    requires d < 10
    ensures IsDigit(c) && DigitValue(c) == d
  {
    (d + '0' as int) as char
  }

  predicate AllDigits(s: string) { forall i :: 0 <= i < |s| ==> IsDigit(s[i]) }

  function Value(s: string): nat
    requires AllDigits(s)
  {
    if s == [] then 0 else 10 * Value(s[..|s| - 1]) + DigitValue(s[|s| - 1])
  }

  function Decimal(n: nat): (s: string)
    ensures AllDigits(s) && s != []
  {
    if n < 10 then [DigitChar(n)] else Decimal(n / 10) + [DigitChar(n % 10)]
  }

  /** The format `{:03}`: at least three digits, padded with zeros. */
  function Format3(n: nat): (s: string)
    ensures AllDigits(s) && s != []
  {
    var d := Decimal(n);
    if |d| == 1 then "00" + d else if |d| == 2 then "0" + d else d
  }

  lemma {:induction false} ValueOfDecimal(n: nat)
    ensures Value(Decimal(n)) == n
  {
    if n >= 10 {
      ValueOfDecimal(n / 10);
      var s := Decimal(n);
      assert s[..|s| - 1] == Decimal(n / 10);
    }
  }

  lemma {:induction false} LeadingZero(s: string)
    requires AllDigits(s)
    ensures AllDigits(['0'] + s) && Value(['0'] + s) == Value(s)
    decreases |s|
  {
    var z := ['0'] + s;
    if s != [] {
      LeadingZero(s[..|s| - 1]);
      assert z[..|z| - 1] == ['0'] + s[..|s| - 1];
    } else {
      assert z[..0] == [];
    }
  }

  lemma FormatRoundTrip(n: nat)
    ensures Value(Format3(n)) == n
  {
    var d := Decimal(n);
    ValueOfDecimal(n);
    LeadingZero(d);
    LeadingZero(['0'] + d);
    assert "0" + d == ['0'] + d && "00" + d == ['0'] + (['0'] + d);
  }

  /** At least three digits, and no zero in front of more than three. */
  lemma FormatWidth(n: nat)
    ensures |Format3(n)| >= 3 && AllDigits(Format3(n))
    ensures |Format3(n)| > 3 ==> Format3(n)[0] != '0'
  {
    DecimalHead(n);
  }

  lemma {:induction false} DecimalHead(n: nat)
    ensures Decimal(n) != [] && (n > 0 ==> Decimal(n)[0] != '0') && (|Decimal(n)| > 3 ==> n > 0)
  {
    if n >= 10 { DecimalHead(n / 10); }
  }

  // ----- Headings -----

  function LeadingDigits(s: string): (d: string)
    ensures AllDigits(d)
  {
    if s != [] && IsDigit(s[0]) then [s[0]] + LeadingDigits(s[1..]) else []
  }

  lemma {:induction false} LeadingDigitsOf(d: string, rest: string)
    requires AllDigits(d) && (rest == [] || !IsDigit(rest[0]))
    ensures LeadingDigits(d + rest) == d
    decreases |d|
  {
    if d == [] {
      assert d + rest == rest;
    } else {
      LeadingDigitsOf(d[1..], rest);
      assert (d + rest)[1..] == d[1..] + rest;
    }
  }

  predicate StartsWith(s: string, p: string) { OccursAt(s, p, 0) }

  /** A number that fits a `u32`; no digits is no number. */
  function ParseU32(d: string): Option<nat>
    requires AllDigits(d)
  {
    if d != [] && Value(d) < U32_LIMIT then Some(Value(d)) else None
  }

  const H1 := "# ADR-"
  const H2 := "## ADR-"

  /** The number a heading line carries, if it is an ADR heading. */
  function ParseHeading(line: string): Option<nat> {
    if StartsWith(line, H2) then ParseU32(LeadingDigits(line[|H2|..]))
    else if StartsWith(line, H1) then ParseU32(LeadingDigits(line[|H1|..]))
    else None
  }

  /** A heading line of either level, cut into its parts. */
  ghost predicate IsHeading(line: string, digits: string, rest: string, n: nat) {
    && (line == "# ADR-" + digits + rest || line == "## ADR-" + digits + rest)
    && digits != [] && AllDigits(digits) && (rest == [] || !IsDigit(rest[0]))
    && Value(digits) == n < 0x1_0000_0000
  }

  lemma {:induction false} DigitsSplit(s: string)
    ensures LeadingDigits(s) <= s
    ensures var rest := s[|LeadingDigits(s)|..]; rest == [] || !IsDigit(rest[0])
  {
    if s != [] && IsDigit(s[0]) {
      DigitsSplit(s[1..]);
      var d := LeadingDigits(s[1..]);
      assert ([s[0]] + d) <= s && s[|d| + 1..] == s[1..][|d|..];
    }
  }

  lemma HeadingParses(line: string, digits: string, rest: string, n: nat)
    requires IsHeading(line, digits, rest, n)
    ensures ParseHeading(line) == Some(n)
  {
    LeadingDigitsOf(digits, rest);
    var body := digits + rest;
    if line == "## ADR-" + digits + rest {
      assert line == H2 + body && line[..|H2|] == H2 && line[|H2|..] == body;
    } else {
      assert line == H1 + body && line[..|H1|] == H1 && line[|H1|..] == body;
      assert line[1] == H1[1] && H1[1] != H2[1];
    }
  }

  lemma SplitBehind(line: string, h: string) returns (digits: string, rest: string)
    requires StartsWith(line, h)
    ensures line == h + digits + rest && digits == LeadingDigits(line[|h|..])
    ensures AllDigits(digits) && (rest == [] || !IsDigit(rest[0]))
  {
    var body := line[|h|..];
    DigitsSplit(body);
    digits, rest := LeadingDigits(body), body[|LeadingDigits(body)|..];
    assert line == line[..|h|] + body && line[..|h|] == h;
    assert h + (digits + rest) == h + digits + rest;
  }

  lemma HeadingSplits(line: string, n: nat) returns (digits: string, rest: string)
    requires ParseHeading(line) == Some(n)
    ensures IsHeading(line, digits, rest, n)
  {
    digits, rest := SplitBehind(line, if StartsWith(line, H2) then H2 else H1);
  }

  /** The headings the parser accepts, both ways: one or two marks, the prefix, and a number that fits. */
  lemma HeadingForm(line: string, n: nat)
    ensures ParseHeading(line) == Some(n) <==> exists digits: string, rest: string :: IsHeading(line, digits, rest, n)
  {
    if ParseHeading(line) == Some(n) { var digits, rest := HeadingSplits(line, n); }
    if digits: string, rest: string :| IsHeading(line, digits, rest, n) { HeadingParses(line, digits, rest, n); }
  }

  function Numbers(doc: Document): (ns: seq<nat>) {
    if doc == [] then []
    else
      var ns := Numbers(doc[..|doc| - 1]);
      var h := ParseHeading(doc[|doc| - 1]);
      if h.Some? then ns + [h.value] else ns
  }

  lemma {:induction false} NumbersAppend(x: Document, y: Document)
    ensures Numbers(x + y) == Numbers(x) + Numbers(y)
    decreases |y|
  {
    if y == [] {
      assert x + y == x;
    } else {
      NumbersAppend(x, y[..|y| - 1]);
      assert (x + y)[..|x + y| - 1] == x + y[..|y| - 1];
    }
  }

  /** Some line mentions `ADR-` and the number. */
  function Placeholder(n: nat): string { "ADR-" + Format3(n) }

  predicate Mentions(doc: Document, n: nat) {
    exists i :: 0 <= i < |doc| && Contains(doc[i], Placeholder(n))
  }

  // ----- The property checked -----

  predicate NoRepeats(ns: seq<nat>) { forall i, j :: 0 <= i < j < |ns| ==> ns[i] != ns[j] }

  /** `m` lies strictly between two used numbers and is not used itself. */
  ghost predicate IsGap(ns: seq<nat>, m: nat) {
    m !in ns && (exists i :: 0 <= i < |ns| && ns[i] < m) && (exists i :: 0 <= i < |ns| && m < ns[i])
  }

  ghost predicate GapsMentioned(doc: Document, ns: seq<nat>) {
    forall m :: IsGap(ns, m) ==> Mentions(doc, m)
  }

  ghost predicate Consistent(doc: Document) {
    NoRepeats(Numbers(doc)) && GapsMentioned(doc, Numbers(doc))
  }

  // ----- check_adr_consistency -----

  predicate Increasing(s: seq<nat>) { forall i, j :: 0 <= i < j < |s| ==> s[i] < s[j] }

  /** Sorting and removing duplicates, one number at a time. */
  function Insert(s: seq<nat>, n: nat): (r: seq<nat>)
    requires Increasing(s)
    ensures Increasing(r)
    ensures forall x :: x in r <==> x in s || x == n
  {
    if s == [] then [n]
    else
      var k := |s| - 1;
      if n == s[k] then s
      else if n > s[k] then s + [n]
      else
        var r := Insert(s[..k], n);
        assert forall i :: 0 <= i < |r| ==> r[i] < s[k] by {
          forall i | 0 <= i < |r| ensures r[i] < s[k] {
            assert r[i] in r;
            if r[i] != n { assert r[i] in s[..k]; }
          }
        }
        assert s == s[..k] + [s[k]];
        r + [s[k]]
  }

  method SortedDistinct(ns: seq<nat>) returns (s: seq<nat>)
    ensures Increasing(s) && forall x :: x in s <==> x in ns
  {
    s := [];
    for i := 0 to |ns|
      invariant Increasing(s) && forall x :: x in s <==> x in ns[..i]
    {
      s := Insert(s, ns[i]);
      assert ns[..i + 1] == ns[..i] + [ns[i]];
    }
    assert ns[..|ns|] == ns;
  }

  method HasRepeat(ns: seq<nat>) returns (repeat: bool)
    ensures repeat <==> !NoRepeats(ns)
  {
    repeat := false;
    var seen: set<nat> := {};
    for i := 0 to |ns|
      invariant forall x :: x in seen <==> x in ns[..i]
      invariant repeat <==> !NoRepeats(ns[..i])
    {
      var again := ns[i] in seen;
      assert again <==> exists k :: 0 <= k < i && ns[k] == ns[i];
      if again { repeat := true; }
      seen := seen + {ns[i]};
      assert ns[..i + 1] == ns[..i] + [ns[i]];
    }
    assert ns[..|ns|] == ns;
  }

  /** The numbers strictly between `lo` and `hi` are all mentioned. */
  ghost predicate AllMentioned(doc: Document, lo: nat, hi: nat) {
    forall m :: lo < m < hi ==> Mentions(doc, m)
  }

  method GapMentioned(doc: Document, lo: nat, hi: nat) returns (ok: bool)
    ensures ok <==> AllMentioned(doc, lo, hi)
  {
    ok := true;
    var m := lo + 1;
    while m < hi
      invariant lo < m && (m <= hi || m == lo + 1)
      invariant ok <==> AllMentioned(doc, lo, m)
      decreases hi - m
    {
      if !Mentions(doc, m) { ok := false; }
      m := m + 1;
    }
  }

  lemma GapLiesInWindow(s: seq<nat>, m: nat) returns (i: int)
    requires Increasing(s) && IsGap(s, m)
    ensures 0 <= i < |s| - 1 && s[i] < m < s[i + 1]
  {
    var lo :| 0 <= lo < |s| && s[lo] < m;
    var hi :| 0 <= hi < |s| && m < s[hi];
    i := lo;
    while s[i + 1] < m
      invariant lo <= i < hi && s[i] < m
      decreases hi - i
    {
      i := i + 1;
    }
  }

  method CheckAdrConsistency(doc: Document) returns (ok: bool)
    ensures ok <==> Consistent(doc)
  {
    var ns := Numbers(doc);
    var repeat := HasRepeat(ns);
    var s := SortedDistinct(ns);
    var gapsOk := CheckWindows(doc, s);
    SameGaps(ns, s);
    ok := !repeat && gapsOk;
  }

  /** Every number strictly inside one of the first `n` windows is mentioned. */
  ghost predicate WindowsMentioned(doc: Document, s: seq<nat>, n: int)
    requires n < |s| || n == 0
  {
    forall k, m :: 0 <= k < n && s[k] < m < s[k + 1] ==> Mentions(doc, m)
  }

  lemma WindowsAreGaps(doc: Document, s: seq<nat>)
    requires Increasing(s) && s != []
    ensures WindowsMentioned(doc, s, |s| - 1) <==> GapsMentioned(doc, s)
  {
    if WindowsMentioned(doc, s, |s| - 1) {
      forall m | IsGap(s, m) ensures Mentions(doc, m) {
        var k := GapLiesInWindow(s, m);
      }
    }
    if GapsMentioned(doc, s) {
      forall k, m | 0 <= k < |s| - 1 && s[k] < m < s[k + 1] ensures Mentions(doc, m) {
        assert m !in s;
        assert IsGap(s, m);
      }
    }
  }

  method CheckWindows(doc: Document, s: seq<nat>) returns (ok: bool)
    requires Increasing(s)
    ensures ok <==> GapsMentioned(doc, s)
  {
    ok := true;
    if s == [] { return; }
    for i := 0 to |s| - 1
      invariant ok <==> WindowsMentioned(doc, s, i)
    {
      if s[i + 1] - s[i] > 1 {
        var here := GapMentioned(doc, s[i], s[i + 1]);
        ok := ok && here;
      }
    }
    WindowsAreGaps(doc, s);
  }

  lemma SameGaps(ns: seq<nat>, s: seq<nat>)
    requires forall x :: x in s <==> x in ns
    ensures forall m :: IsGap(ns, m) <==> IsGap(s, m)
  {
    forall m ensures IsGap(ns, m) <==> IsGap(s, m) {
      if IsGap(ns, m) {
        var i, j :| 0 <= i < |ns| && ns[i] < m && 0 <= j < |ns| && m < ns[j];
        assert ns[i] in s && ns[j] in s;
      }
      if IsGap(s, m) {
        var i, j :| 0 <= i < |s| && s[i] < m && 0 <= j < |s| && m < s[j];
        assert s[i] in ns && s[j] in ns;
      }
    }
  }
}
