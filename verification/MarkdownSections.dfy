/** Marker-delimited sections of generated Markdown: rendering one section, writing several, and the
    drift check that renders them again. */
module MarkdownSections {
  import opened Basics
  import opened Text

  // ----- Markers -----

  const START_OPEN := "<!-- AUTOGENERATED:START:"
  const END_OPEN := "<!-- AUTOGENERATED:END:"
  const MARKER_CLOSE := " -->"

  function StartMarker(key: string): string { START_OPEN + key + MARKER_CLOSE }

  function EndMarker(key: string): string { END_OPEN + key + MARKER_CLOSE }

  /** Keys that cannot confuse the marker syntax: no angle bracket and no line end. */
  predicate ProperKey(key: string) {
    forall i :: 0 <= i < |key| ==> key[i] != '<' && key[i] != '>' && key[i] != '\n'
  }

  /** The shape all markers share: one line, opened by its only '<' and closed by its only '>'. */
  predicate IsMarker(t: string) {
    && |t| > 1 && t[0] == '<' && t[|t| - 1] == '>'
    && (forall i :: 0 < i < |t| ==> t[i] != '<')
    && (forall i :: 0 <= i < |t| - 1 ==> t[i] != '>')
    && (forall i :: 0 <= i < |t| ==> t[i] != '\n')
  }

  /** The markers of the whole document. */
  lemma MarkerText()
    ensures StartMarker("FULL") == "<!-- AUTOGENERATED:START:FULL -->"
    ensures EndMarker("FULL") == "<!-- AUTOGENERATED:END:FULL -->"
  {
  }

  lemma MarkerShape(key: string)
    requires ProperKey(key)
    ensures IsMarker(StartMarker(key)) && IsMarker(EndMarker(key))
  {
    MarkerShapeOf(START_OPEN, key);
    MarkerShapeOf(END_OPEN, key);
  }

  lemma MarkerShapeOf(open: string, key: string)
    requires ProperKey(key) && |open| > 1 && open[0] == '<'
    requires forall i :: 0 < i < |open| ==> open[i] != '<'
    requires forall i :: 0 <= i < |open| ==> open[i] != '>' && open[i] != '\n'
    ensures IsMarker(open + key + MARKER_CLOSE)
  {
    var t := open + key + MARKER_CLOSE;
    assert MARKER_CLOSE == [' ', '-', '-', '>'];
    forall i | 0 <= i < |t|
      ensures t[i] != '\n' && (i > 0 ==> t[i] != '<') && (i < |t| - 1 ==> t[i] != '>')
    {
      if i < |open| { assert t[i] == open[i]; }
      else if i < |open| + |key| { assert t[i] == key[i - |open|]; }
      else { assert t[i] == MARKER_CLOSE[i - |open| - |key|]; }
    }
  }

  /** Two marker occurrences never overlap, unless they are the same marker at the same place. */
  lemma MarkersDoNotOverlap(x: string, t: string, u: string, i: int, j: int)
    requires IsMarker(t) && IsMarker(u) && OccursAt(x, t, i) && OccursAt(x, u, j) && i <= j
    ensures i + |t| <= j || (i == j && t == u)
  {
    CharInOccurrence(x, t, i, j);
    CharInOccurrence(x, u, j, j);
    if i == j {
      CharInOccurrence(x, t, i, i + |u| - 1);
      CharInOccurrence(x, u, i, i + |t| - 1);
      assert |t| == |u|;
      assert forall k :: 0 <= k < |t| ==> x[i + k] == t[k] && x[i + k] == u[k];
    }
  }

  // ----- render_updated_markdown -----

  datatype RenderError = StartMissing | EndMissing | WrongOrder

  datatype Rendered = Ok(text: string) | Err(error: RenderError)

  function Render(content: string, key: string, newContent: string): (r: Rendered) {
    var start := Find(content, StartMarker(key));
    var end := Find(content, EndMarker(key));
    if start.None? then Err(StartMissing)
    else if end.None? then Err(EndMissing)
    else if start.value >= end.value then Err(WrongOrder)
    else Ok(content[..start.value + |StartMarker(key)|] + "\n" + Trim(newContent) + "\n" + content[end.value..])
  }

  // ----- Splicing -----

  /** `x` with everything from `a` up to `e` replaced by `c` on lines of its own. */
  function Splice(x: string, a: nat, e: nat, c: string): (r: string)
    requires a <= e <= |x|
    ensures |r| == a + |c| + 2 + |x| - e
  {
    x[..a] + ("\n" + c + "\n") + x[e..]
  }

  predicate OneLine(t: string) { |t| > 0 && forall k :: 0 <= k < |t| ==> t[k] != '\n' }

  lemma OccursBeforeSplice(x: string, a: nat, e: nat, c: string, t: string, j: int)
    requires a <= e <= |x| && j + |t| <= a
    ensures OccursAt(Splice(x, a, e, c), t, j) <==> OccursAt(x, t, j)
  {
    var r := Splice(x, a, e, c);
    assert forall i :: 0 <= i < a ==> r[i] == x[i];
  }

  lemma OccursAfterSplice(x: string, a: nat, e: nat, c: string, t: string, j: int)
    requires a <= e <= |x| && j >= a + |c| + 2
    ensures OccursAt(Splice(x, a, e, c), t, j) <==> OccursAt(x, t, j - (a + |c| + 2) + e)
  {
    var r, n := Splice(x, a, e, c), a + |c| + 2;
    assert forall i :: n <= i < |r| ==> r[i] == x[i - n + e];
    if OccursAt(r, t, j) {
      forall k | 0 <= k < |t| ensures x[j - n + e + k] == t[k] { assert r[j + k] == t[k]; }
    }
    if OccursAt(x, t, j - n + e) {
      forall k | 0 <= k < |t| ensures r[j + k] == t[k] { assert x[j - n + e + k] == t[k]; }
    }
  }

  lemma OccursInsideSplice(x: string, a: nat, e: nat, c: string, t: string, j: int)
    requires a <= e <= |x| && a < j + |t| && j < a + |c| + 2 && OneLine(t)
    ensures OccursAt(Splice(x, a, e, c), t, j) <==> OccursAt(c, t, j - a - 1)
  {
    var r := Splice(x, a, e, c);
    assert r[a] == '\n' && r[a + |c| + 1] == '\n';
    assert forall i :: 0 <= i < |c| ==> r[a + 1 + i] == c[i];
    if OccursAt(r, t, j) {
      CharInOccurrence(r, t, j, a);
      CharInOccurrence(r, t, j, a + |c| + 1);
      assert a < j && j + |t| <= a + |c| + 1;
      forall k | 0 <= k < |t| ensures c[j - a - 1 + k] == t[k] { assert r[j + k] == t[k]; }
    }
    if OccursAt(c, t, j - a - 1) {
      forall k | 0 <= k < |t| ensures r[j + k] == t[k] { assert c[j - a - 1 + k] == t[k]; }
    }
  }

  /** A splice moves the first occurrence of a line fragment outside it by the change in length. */
  lemma SpliceMovesFirst(x: string, a: nat, e: nat, c: string, t: string, i: int)
    requires a <= e <= |x| && OneLine(t) && i >= 0 && Find(x, t) == Some(i)
    requires i + |t| <= a || (e <= i && !Occurs(c, t))
    ensures Find(Splice(x, a, e, c), t) == Some(if i + |t| <= a then i else i - e + a + |c| + 2)
  {
    var r, n := Splice(x, a, e, c), a + |c| + 2;
    var i' := if i + |t| <= a then i else i - e + n;
    FindIsFirst(x, t);
    if i + |t| <= a { OccursBeforeSplice(x, a, e, c, t, i); } else { OccursAfterSplice(x, a, e, c, t, i'); }
    forall j | j < i' ensures !OccursAt(r, t, j) {
      if j + |t| <= a {
        OccursBeforeSplice(x, a, e, c, t, j);
      } else if j < n {
        OccursInsideSplice(x, a, e, c, t, j);
      } else {
        OccursAfterSplice(x, a, e, c, t, j);
      }
    }
    FindIs(r, t, i');
  }

  // ----- Located sections -----

  /** The section of `key` runs from the first start marker, at `s`, to the first end marker, at `e`. */
  predicate Located(x: string, key: string, s: nat, e: nat) {
    Find(x, StartMarker(key)) == Some(s) && Find(x, EndMarker(key)) == Some(e) && s < e
  }

  /** Where the text between the markers begins. */
  function BodyAt(key: string, s: nat): nat { s + |StartMarker(key)| }

  lemma MarkersDiffer(key: string, other: string)
    ensures StartMarker(key) != EndMarker(other)
    ensures StartMarker(key) == StartMarker(other) || EndMarker(key) == EndMarker(other) ==> key == other
  {
    var s, e := StartMarker(key), EndMarker(other);
    assert s[19] == 'S' && e[19] == 'E';
    MarkerKey(START_OPEN, key);
    MarkerKey(START_OPEN, other);
    MarkerKey(END_OPEN, key);
    MarkerKey(END_OPEN, other);
  }

  lemma MarkerKey(open: string, key: string)
    ensures var t := open + key + MARKER_CLOSE; |t| == |open| + |key| + 4 && t[|open|..|t| - 4] == key
  {
  }

  lemma SectionFits(x: string, key: string, s: nat, e: nat)
    requires ProperKey(key) && Located(x, key, s, e)
    ensures BodyAt(key, s) <= e && e + |EndMarker(key)| <= |x|
  {
    MarkerShape(key);
    MarkersDiffer(key, key);
    FindIsFirst(x, StartMarker(key));
    FindIsFirst(x, EndMarker(key));
    MarkersDoNotOverlap(x, StartMarker(key), EndMarker(key), s, e);
  }

  /** Rendering a located section is a splice between its markers. */
  lemma RenderIsSplice(x: string, key: string, c: string, s: nat, e: nat)
    requires ProperKey(key) && Located(x, key, s, e)
    ensures BodyAt(key, s) <= e <= |x| && Render(x, key, c) == Ok(Splice(x, BodyAt(key, s), e, Trim(c)))
  {
    SectionFits(x, key, s, e);
    Reassociate(x[..BodyAt(key, s)], Trim(c), x[e..]);
  }

  lemma Reassociate(p: string, t: string, q: string)
    ensures p + "\n" + t + "\n" + q == p + ("\n" + t + "\n") + q
  {
  }

  /** Rendering succeeds exactly on located sections, and then everything up to the start marker and
      from the end marker on is kept. */
  lemma RenderOutcome(x: string, key: string, c: string)
    requires ProperKey(key)
    ensures Render(x, key, c).Ok? <==> exists s: nat, e: nat :: Located(x, key, s, e)
    ensures Render(x, key, c).Ok? ==>
              exists s: nat, e: nat :: Located(x, key, s, e) && BodyAt(key, s) <= e <= |x|
                && x[..BodyAt(key, s)] <= Render(x, key, c).text && EndsWith(Render(x, key, c).text, x[e..])
  {
    if Render(x, key, c).Ok? {
      var s, e := Find(x, StartMarker(key)).value, Find(x, EndMarker(key)).value;
      assert Located(x, key, s, e);
      RenderIsSplice(x, key, c, s, e);
      var r, a := Splice(x, BodyAt(key, s), e, Trim(c)), BodyAt(key, s);
      assert r[|r| - |x[e..]|..] == x[e..] && r[..a] == x[..a];
    } else if exists s: nat, e: nat :: Located(x, key, s, e) {
      var s: nat, e: nat :| Located(x, key, s, e);
      RenderIsSplice(x, key, c, s, e);
    }
  }

  predicate EndsWith(s: string, t: string) { |t| <= |s| && s[|s| - |t|..] == t }

  // ----- One section -----

  lemma StillLocated(x: string, key: string, c: string, s: nat, e: nat)
    requires ProperKey(key) && Located(x, key, s, e) && BodyAt(key, s) <= e <= |x| && !Occurs(c, EndMarker(key))
    ensures Located(Splice(x, BodyAt(key, s), e, c), key, s, BodyAt(key, s) + |c| + 2)
  {
    MarkerShape(key);
    SpliceMovesFirst(x, BodyAt(key, s), e, c, StartMarker(key), s);
    SpliceMovesFirst(x, BodyAt(key, s), e, c, EndMarker(key), e);
  }

  lemma SpliceOver(x: string, a: nat, e: nat, c: string, d: string)
    requires a <= e <= |x|
    ensures Splice(Splice(x, a, e, c), a, a + |c| + 2, d) == Splice(x, a, e, d)
  {
    var r := Splice(x, a, e, c);
    assert r[..a] == x[..a] && r[a + |c| + 2..] == x[e..];
  }

  lemma WriteOver(x: string, key: string, t: string, d: string, s: nat, e: nat)
    requires ProperKey(key) && Located(x, key, s, e) && BodyAt(key, s) <= e <= |x| && !Occurs(t, EndMarker(key))
    ensures Render(Splice(x, BodyAt(key, s), e, t), key, d) == Ok(Splice(x, BodyAt(key, s), e, Trim(d)))
  {
    StillLocated(x, key, t, s, e);
    RenderIsSplice(Splice(x, BodyAt(key, s), e, t), key, d, s, BodyAt(key, s) + |t| + 2);
    SpliceOver(x, BodyAt(key, s), e, t, Trim(d));
  }

  /** The last write to a section wins: what an earlier one put there leaves no trace. */
  lemma LastWriteWins(x: string, key: string, c: string, d: string)
    requires ProperKey(key) && Render(x, key, c).Ok? && !Occurs(Trim(c), EndMarker(key))
    ensures Render(Render(x, key, c).text, key, d) == Render(x, key, d)
  {
    RenderOutcome(x, key, c);
    var s: nat, e: nat :| Located(x, key, s, e);
    RenderIsSplice(x, key, c, s, e);
    RenderIsSplice(x, key, d, s, e);
    WriteOver(x, key, Trim(c), d, s, e);
  }

  /** Writing a section twice is writing it once exactly when the content does not itself hold the
      end marker; otherwise every further write makes the file longer. */
  lemma RenderIdempotentIff(x: string, key: string, c: string)
    requires ProperKey(key) && Render(x, key, c).Ok?
    ensures Render(Render(x, key, c).text, key, c) == Render(x, key, c) <==> !Occurs(Trim(c), EndMarker(key))
    ensures Occurs(Trim(c), EndMarker(key)) ==>
              var twice := Render(Render(x, key, c).text, key, c);
              twice.Ok? && |twice.text| > |Render(x, key, c).text|
  {
    if !Occurs(Trim(c), EndMarker(key)) {
      LastWriteWins(x, key, c, c);
    } else {
      RenderOutcome(x, key, c);
      var s: nat, e: nat :| Located(x, key, s, e);
      RenderIsSplice(x, key, c, s, e);
      var t, a := Trim(c), BodyAt(key, s);
      var r := Splice(x, a, e, t);
      var e' := EarlierEnd(x, key, t, s, e);
      RenderIsSplice(r, key, c, s, e');
    }
  }

  /** The start marker stays first: no end marker comes to stand before it. */
  lemma EndStaysBehind(x: string, key: string, c: string, s: nat, e: nat, e': nat)
    requires ProperKey(key) && Located(x, key, s, e) && BodyAt(key, s) <= e <= |x|
    requires FirstAt(Splice(x, BodyAt(key, s), e, c), StartMarker(key), s)
    requires OccursAt(Splice(x, BodyAt(key, s), e, c), EndMarker(key), e')
    ensures s < e'
  {
    if e' <= s {
      MarkerShape(key);
      MarkersDiffer(key, key);
      MarkersDoNotOverlap(Splice(x, BodyAt(key, s), e, c), EndMarker(key), StartMarker(key), e', s);
      OccursBeforeSplice(x, BodyAt(key, s), e, c, EndMarker(key), e');
      FindIsFirst(x, EndMarker(key));
    }
  }

  lemma InnerEnd(x: string, a: nat, e: nat, c: string, t: string) returns (e': nat)
    requires a <= e <= |x| && OneLine(t) && Occurs(c, t)
    ensures Find(Splice(x, a, e, c), t) == Some(e') && e' < a + |c| + 2
    ensures OccursAt(Splice(x, a, e, c), t, e')
  {
    var r := Splice(x, a, e, c);
    var i :| OccursAt(c, t, i);
    OccursInsideSplice(x, a, e, c, t, a + 1 + i);
    FindIsFirst(r, t);
    assert OccursAt(r, t, a + 1 + i);
    e' := Find(r, t).value;
  }

  lemma EarlierEnd(x: string, key: string, c: string, s: nat, e: nat) returns (e': nat)
    requires ProperKey(key) && Located(x, key, s, e) && BodyAt(key, s) <= e <= |x| && Occurs(c, EndMarker(key))
    ensures Located(Splice(x, BodyAt(key, s), e, c), key, s, e') && e' < BodyAt(key, s) + |c| + 2
  {
    MarkerShape(key);
    SpliceMovesFirst(x, BodyAt(key, s), e, c, StartMarker(key), s);
    FindIsFirst(Splice(x, BodyAt(key, s), e, c), StartMarker(key));
    e' := InnerEnd(x, BodyAt(key, s), e, c, EndMarker(key));
    EndStaysBehind(x, key, c, s, e, e');
  }

  // ----- Several sections -----

  predicate HasSection(x: string, k: string) {
    && Find(x, StartMarker(k)).Some? && Find(x, EndMarker(k)).Some?
    && Find(x, StartMarker(k)).value < Find(x, EndMarker(k)).value
  }

  function StartOf(x: string, k: string): nat
    requires HasSection(x, k)
  {
    Find(x, StartMarker(k)).value
  }

  function EndOf(x: string, k: string): nat
    requires HasSection(x, k)
  {
    Find(x, EndMarker(k)).value
  }

  /** The section of `k1` ends before that of `k2` starts. */
  predicate Precedes(x: string, k1: string, k2: string)
    requires HasSection(x, k1) && HasSection(x, k2)
  {
    EndOf(x, k1) + |EndMarker(k1)| <= StartOf(x, k2)
  }

  predicate Apart(x: string, k1: string, k2: string)
    requires HasSection(x, k1) && HasSection(x, k2)
  {
    Precedes(x, k1, k2) || Precedes(x, k2, k1)
  }

  /** Neither marker of `key` occurs in `c`. */
  ghost predicate FreeOf(c: string, key: string) {
    !Occurs(c, StartMarker(key)) && !Occurs(c, EndMarker(key))
  }

  /** Every key has its section, and no two of them touch. */
  ghost predicate WellSectioned(x: string, keys: set<string>) {
    && (forall k :: k in keys ==> ProperKey(k) && HasSection(x, k))
    && (forall k1, k2 :: k1 in keys && k2 in keys && k1 != k2 ==> Apart(x, k1, k2))
  }

  ghost predicate CleanFor(c: string, keys: set<string>) {
    forall k :: k in keys ==> FreeOf(Trim(c), k)
  }

  /** update_markdown_section: the file is left alone when rendering fails. */
  function Write(x: string, k: string, c: string): (r: string) {
    if Render(x, k, c).Ok? then Render(x, k, c).text else x
  }

  /** How far a write to the section of `k` moves what lies behind it. */
  function Shift(x: string, k: string, c: string): int
    requires HasSection(x, k)
  {
    BodyAt(k, StartOf(x, k)) + |Trim(c)| + 2 - EndOf(x, k)
  }

  function Moved(x: string, k: string, c: string, other: string): int
    requires HasSection(x, k) && HasSection(x, other)
  {
    if other != k && Precedes(x, k, other) then Shift(x, k, c) else 0
  }

  lemma WriteIsSplice(x: string, k: string, c: string)
    requires ProperKey(k) && HasSection(x, k)
    ensures BodyAt(k, StartOf(x, k)) <= EndOf(x, k) <= |x|
    ensures Write(x, k, c) == Splice(x, BodyAt(k, StartOf(x, k)), EndOf(x, k), Trim(c))
    ensures Render(x, k, c) == Ok(Write(x, k, c))
  {
    RenderIsSplice(x, k, c, StartOf(x, k), EndOf(x, k));
  }

  /** The written section stays where it was; its end moves with its content. */
  lemma OwnSectionAfterWrite(x: string, k: string, c: string)
    requires ProperKey(k) && HasSection(x, k) && FreeOf(Trim(c), k)
    ensures HasSection(Write(x, k, c), k)
    ensures StartOf(Write(x, k, c), k) == StartOf(x, k) && EndOf(Write(x, k, c), k) == EndOf(x, k) + Shift(x, k, c)
  {
    WriteIsSplice(x, k, c);
    StillLocated(x, k, Trim(c), StartOf(x, k), EndOf(x, k));
  }

  /** Any other section moves as a whole. */
  lemma OtherSectionAfterWrite(x: string, k: string, c: string, k2: string)
    requires ProperKey(k) && ProperKey(k2) && HasSection(x, k) && HasSection(x, k2)
    requires k != k2 && Apart(x, k, k2) && FreeOf(Trim(c), k2)
    ensures HasSection(Write(x, k, c), k2)
    ensures StartOf(Write(x, k, c), k2) == StartOf(x, k2) + Moved(x, k, c, k2)
    ensures EndOf(Write(x, k, c), k2) == EndOf(x, k2) + Moved(x, k, c, k2)
  {
    var s1, e1, s2, e2 := StartOf(x, k), EndOf(x, k), StartOf(x, k2), EndOf(x, k2);
    WriteIsSplice(x, k, c);
    SectionFits(x, k, s1, e1);
    SectionFits(x, k2, s2, e2);
    MarkerShape(k2);
    SpliceMovesFirst(x, BodyAt(k, s1), e1, Trim(c), StartMarker(k2), s2);
    SpliceMovesFirst(x, BodyAt(k, s1), e1, Trim(c), EndMarker(k2), e2);
  }

  /** Where a section is after a write to `k`, in one formula. */
  lemma SectionAfterWrite(x: string, k: string, c: string, k2: string)
    requires ProperKey(k) && ProperKey(k2) && HasSection(x, k) && HasSection(x, k2)
    requires (k != k2 ==> Apart(x, k, k2)) && FreeOf(Trim(c), k2)
    ensures HasSection(Write(x, k, c), k2)
    ensures StartOf(Write(x, k, c), k2) == StartOf(x, k2) + Moved(x, k, c, k2)
    ensures EndOf(Write(x, k, c), k2) == EndOf(x, k2) + (if k2 == k then Shift(x, k, c) else Moved(x, k, c, k2))
  {
    if k == k2 { OwnSectionAfterWrite(x, k, c); } else { OtherSectionAfterWrite(x, k, c, k2); }
  }

  lemma PairStaysApart(x: string, k: string, c: string, k1: string, k2: string)
    requires ProperKey(k) && HasSection(x, k) && HasSection(x, k1) && HasSection(x, k2)
    requires k1 != k2 && Apart(x, k1, k2) && (k != k1 ==> Apart(x, k, k1)) && (k != k2 ==> Apart(x, k, k2))
    requires var r := Write(x, k, c);
             && HasSection(r, k1) && HasSection(r, k2)
             && StartOf(r, k1) == StartOf(x, k1) + Moved(x, k, c, k1)
             && StartOf(r, k2) == StartOf(x, k2) + Moved(x, k, c, k2)
             && EndOf(r, k1) == EndOf(x, k1) + (if k1 == k then Shift(x, k, c) else Moved(x, k, c, k1))
             && EndOf(r, k2) == EndOf(x, k2) + (if k2 == k then Shift(x, k, c) else Moved(x, k, c, k2))
    ensures Apart(Write(x, k, c), k1, k2)
  {
  }

  /** A write keeps every section in place relative to the others. */
  lemma WriteKeepsSections(x: string, keys: set<string>, k: string, c: string)
    requires WellSectioned(x, keys) && k in keys && CleanFor(c, keys)
    ensures WellSectioned(Write(x, k, c), keys)
  {
    var r := Write(x, k, c);
    forall k1 | k1 in keys
      ensures HasSection(r, k1)
    {
      SectionAfterWrite(x, k, c, k1);
    }
    forall k1, k2 | k1 in keys && k2 in keys && k1 != k2
      ensures Apart(r, k1, k2)
    {
      SectionAfterWrite(x, k, c, k1);
      SectionAfterWrite(x, k, c, k2);
      PairStaysApart(x, k, c, k1, k2);
    }
  }

  lemma SplicesCommute(x: string, a1: nat, e1: nat, c1: string, a2: nat, e2: nat, c2: string, b: int, f: int)
    requires a1 <= e1 <= a2 <= e2 <= |x| && b - a2 == f - e2 == a1 + |c1| + 2 - e1
    ensures 0 <= b <= f
    ensures Splice(Splice(x, a1, e1, c1), b, f, c2) == Splice(Splice(x, a2, e2, c2), a1, e1, c1)
  {
    var x1, x2 := Splice(x, a1, e1, c1), Splice(x, a2, e2, c2);
    var m1, m2 := "\n" + c1 + "\n", "\n" + c2 + "\n";
    assert x1[..b] == x[..a1] + m1 + x[e1..a2];
    assert x1[f..] == x[e2..];
    assert x2[..a1] == x[..a1];
    assert x2[e1..] == x[e1..a2] + m2 + x[e2..];
  }

  /** A second write, elsewhere, splices at the moved position. */
  lemma SecondWrite(x: string, k1: string, c1: string, k2: string, c2: string, a: int, e: int)
    requires ProperKey(k1) && ProperKey(k2) && HasSection(x, k1) && HasSection(x, k2) && k1 != k2
    requires Apart(x, k1, k2) && FreeOf(Trim(c1), k2)
    requires a == BodyAt(k2, StartOf(x, k2)) + Moved(x, k1, c1, k2) && e == EndOf(x, k2) + Moved(x, k1, c1, k2)
    ensures 0 <= a <= e <= |Write(x, k1, c1)|
    ensures Write(Write(x, k1, c1), k2, c2) == Splice(Write(x, k1, c1), a, e, Trim(c2))
  {
    OtherSectionAfterWrite(x, k1, c1, k2);
    var x1 := Write(x, k1, c1);
    WriteIsSplice(x1, k2, c2);
    assert BodyAt(k2, StartOf(x1, k2)) == a;
    assert EndOf(x1, k2) == e;
  }

  lemma WritesInOrderCommute(x: string, k1: string, c1: string, k2: string, c2: string)
    requires ProperKey(k1) && ProperKey(k2) && HasSection(x, k1) && HasSection(x, k2) && k1 != k2
    requires Precedes(x, k1, k2) && FreeOf(Trim(c1), k2) && FreeOf(Trim(c2), k1)
    ensures Write(Write(x, k1, c1), k2, c2) == Write(Write(x, k2, c2), k1, c1)
  {
    var a1, e1, a2, e2 := BodyAt(k1, StartOf(x, k1)), EndOf(x, k1), BodyAt(k2, StartOf(x, k2)), EndOf(x, k2);
    var b, f := a2 + Shift(x, k1, c1), e2 + Shift(x, k1, c1);
    WriteIsSplice(x, k1, c1);
    WriteIsSplice(x, k2, c2);
    SecondWrite(x, k1, c1, k2, c2, b, f);
    SecondWrite(x, k2, c2, k1, c1, a1, e1);
    SplicesCommute(x, a1, e1, Trim(c1), a2, e2, Trim(c2), b, f);
  }

  /** Writes to different sections can be done in either order. */
  lemma WritesCommute(x: string, keys: set<string>, k1: string, c1: string, k2: string, c2: string)
    requires WellSectioned(x, keys) && k1 in keys && k2 in keys && k1 != k2
    requires CleanFor(c1, keys) && CleanFor(c2, keys)
    ensures Write(Write(x, k1, c1), k2, c2) == Write(Write(x, k2, c2), k1, c1)
  {
    if Precedes(x, k1, k2) {
      WritesInOrderCommute(x, k1, c1, k2, c2);
    } else {
      WritesInOrderCommute(x, k2, c2, k1, c1);
    }
  }

  // ----- sync-docs and its check -----

  datatype Update = Update(key: string, content: string)

  /** Writes the sections one after the other. */
  function Sync(x: string, us: seq<Update>): (r: string)
    decreases |us|
  {
    if us == [] then x else Sync(Write(x, us[0].key, us[0].content), us[1..])
  }

  /** What the check looks for: rendering any section again reproduces the file. */
  predicate InSync(x: string, us: seq<Update>) {
    forall i :: 0 <= i < |us| ==> Render(x, us[i].key, us[i].content) == Ok(x)
  }

  ghost predicate ProperUpdates(us: seq<Update>, keys: set<string>) {
    && (forall i :: 0 <= i < |us| ==> us[i].key in keys && CleanFor(us[i].content, keys))
    && (forall i, j :: 0 <= i < j < |us| ==> us[i].key != us[j].key)
  }

  lemma {:induction false} SyncKeepsSections(x: string, keys: set<string>, us: seq<Update>)
    requires WellSectioned(x, keys) && forall i :: 0 <= i < |us| ==> us[i].key in keys && CleanFor(us[i].content, keys)
    ensures WellSectioned(Sync(x, us), keys)
    decreases |us|
  {
    if us != [] {
      WriteKeepsSections(x, keys, us[0].key, us[0].content);
      SyncKeepsSections(Write(x, us[0].key, us[0].content), keys, us[1..]);
    }
  }

  /** A section that is up to date stays so while other sections are written. */
  lemma {:induction false} SettledStays(x: string, keys: set<string>, k: string, c: string, us: seq<Update>)
    requires WellSectioned(x, keys) && k in keys && CleanFor(c, keys) && Render(x, k, c) == Ok(x)
    requires forall i :: 0 <= i < |us| ==> us[i].key in keys && us[i].key != k && CleanFor(us[i].content, keys)
    ensures Render(Sync(x, us), k, c) == Ok(Sync(x, us))
    decreases |us|
  {
    if us != [] {
      var u := us[0];
      var y := Write(x, u.key, u.content);
      WritesCommute(x, keys, u.key, u.content, k, c);
      WriteKeepsSections(x, keys, u.key, u.content);
      WriteIsSplice(y, k, c);
      SettledStays(y, keys, k, c, us[1..]);
    }
  }

  /** After a sync the check reports no drift. */
  lemma {:induction false} SyncThenCheckPasses(x: string, keys: set<string>, us: seq<Update>)
    requires WellSectioned(x, keys) && ProperUpdates(us, keys)
    ensures InSync(Sync(x, us), us)
    decreases |us|
  {
    if us != [] {
      var u, rest := us[0], us[1..];
      var y := Write(x, u.key, u.content);
      WriteKeepsSections(x, keys, u.key, u.content);
      WriteIsSplice(x, u.key, u.content);
      LastWriteWins(x, u.key, u.content, u.content);
      assert forall i :: 0 <= i < |rest| ==> rest[i] == us[i + 1];
      SettledStays(y, keys, u.key, u.content, rest);
      SyncThenCheckPasses(y, keys, rest);
      forall i | 0 <= i < |us|
        ensures Render(Sync(x, us), us[i].key, us[i].content) == Ok(Sync(x, us))
      {
        if i > 0 { assert us[i] == rest[i - 1]; }
      }
    }
  }

  /** The file with the listed sections emptied: all text outside them. */
  function Outside(x: string, ks: seq<string>): (r: string)
    decreases |ks|
  {
    if ks == [] then x else Outside(Write(x, ks[0], ""), ks[1..])
  }

  lemma EmptyIsClean(keys: set<string>)
    requires forall k :: k in keys ==> ProperKey(k)
    ensures CleanFor("", keys)
  {
    assert Trim("") == "";
    forall k | k in keys ensures FreeOf("", k) { MarkerShape(k); }
  }

  /** A write changes nothing outside its section. */
  lemma {:induction false} WriteKeepsOutside(x: string, keys: set<string>, k: string, c: string, ks: seq<string>)
    requires WellSectioned(x, keys) && k in keys && CleanFor(c, keys) && k in ks
    requires forall i :: 0 <= i < |ks| ==> ks[i] in keys
    ensures Outside(Write(x, k, c), ks) == Outside(x, ks)
    decreases |ks|
  {
    EmptyIsClean(keys);
    var h := ks[0];
    if h == k {
      WriteIsSplice(x, k, c);
      WriteIsSplice(x, k, "");
      LastWriteWins(x, k, c, "");
    } else {
      WritesCommute(x, keys, k, c, h, "");
      WriteKeepsSections(x, keys, h, "");
      WriteKeepsOutside(Write(x, h, ""), keys, k, c, ks[1..]);
    }
  }

  /** Nor does a whole sync change anything outside the sections. */
  lemma {:induction false} SyncKeepsOutside(x: string, keys: set<string>, us: seq<Update>, ks: seq<string>)
    requires WellSectioned(x, keys) && forall i :: 0 <= i < |ks| ==> ks[i] in keys
    requires forall i :: 0 <= i < |us| ==> us[i].key in ks && CleanFor(us[i].content, keys)
    ensures Outside(Sync(x, us), ks) == Outside(x, ks)
    decreases |us|
  {
    if us != [] {
      WriteKeepsOutside(x, keys, us[0].key, us[0].content, ks);
      WriteKeepsSections(x, keys, us[0].key, us[0].content);
      SyncKeepsOutside(Write(x, us[0].key, us[0].content), keys, us[1..], ks);
    }
  }
}
