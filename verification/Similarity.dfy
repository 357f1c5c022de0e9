/** Jaccard similarity as the duplicate gates use it: of sentence sets in audit files and of trigram
    sets in commit subjects. */
module Similarity {

  // ----- Sizes of set combinations -----

  lemma SizeOfUnion<T>(a: set<T>, b: set<T>)
    ensures |a + b| + |a * b| == |a| + |b|
  {
    assert a + b == a + (b - a) && |a + (b - a)| == |a| + |b - a|;
    assert b == (b - a) + a * b && |(b - a) + a * b| == |b - a| + |a * b|;
  }

  lemma SizeMonotone<T>(a: set<T>, b: set<T>)
    requires a <= b
    ensures |a| <= |b| && (|a| == |b| ==> a == b)
  {
    assert b == a + (b - a) && |a + (b - a)| == |a| + |b - a|;
  }

  /** The symmetric difference; Jaccard distance is its share of the union. */
  function Difference<T>(a: set<T>, b: set<T>): set<T> { (a - b) + (b - a) }

  lemma SizeOfDifference<T>(a: set<T>, b: set<T>)
    ensures |Difference(a, b)| + |a * b| == |a + b|
  {
    assert a + b == Difference(a, b) + a * b && Difference(a, b) !! a * b;
  }

  // ----- Shares -----

  function Share(x: real, u: real): real
    requires u > 0.0
  {
    x / u
  }

  lemma ShareTimes(x: real, u: real)
    requires u > 0.0
    ensures Share(x, u) * u == x
  {
  }

  lemma TimesMonotone(p: real, q: real, u: real)
    requires u > 0.0
    ensures p <= q <==> p * u <= q * u
  {
    assert (q - p) * u == q * u - p * u;
    if p <= q { assert (q - p) * u >= 0.0; }
    if p * u <= q * u && p > q { TimesPositive(p - q, u); }
  }

  lemma TimesPositive(x: real, u: real)
    requires x > 0.0 && u > 0.0
    ensures x * u > 0.0
  {
  }

  lemma ShareMonotone(x: real, y: real, u: real)
    requires u > 0.0
    ensures x <= y <==> Share(x, u) <= Share(y, u)
  {
    ShareTimes(x, u);
    ShareTimes(y, u);
    TimesMonotone(Share(x, u), Share(y, u), u);
  }

  lemma ShareSum(x: real, y: real, u: real)
    requires u > 0.0
    ensures Share(x, u) + Share(y, u) == Share(x + y, u)
  {
  }

  lemma ShareOfAll(u: real)
    requires u > 0.0
    ensures Share(u, u) == 1.0 && Share(0.0, u) == 0.0
  {
  }

  /** Adding the same amount to part and whole does not lower the share. */
  lemma ShareGrows(x: real, u: real, y: real)
    requires 0.0 <= x <= u && y >= 0.0 && u > 0.0
    ensures Share(x, u) <= Share(x + y, u + y)
  {
    var p := Share(x, u);
    ShareTimes(x, u);
    ShareTimes(x + y, u + y);
    ShareMonotone(x, u, u);
    ShareOfAll(u);
    assert (1.0 - p) * y >= 0.0;
    assert p * (u + y) == x + p * y;
    TimesMonotone(p, Share(x + y, u + y), u + y);
  }

  /** A larger whole lowers the share. */
  lemma ShareShrinks(x: real, u: real, t: real)
    requires 0.0 <= x && 0.0 < u <= t
    ensures Share(x, t) <= Share(x, u)
  {
    var q := Share(x, t);
    ShareTimes(x, u);
    ShareTimes(x, t);
    ShareMonotone(0.0, x, t);
    ShareOfAll(t);
    assert q * (t - u) >= 0.0;
    assert q * u <= q * t;
    TimesMonotone(q, Share(x, u), u);
  }

  /** The triangle inequality, reduced to sizes. */
  lemma TriangleOfShares(ab: real, uab: real, bc: real, ubc: real, ac: real, uac: real, extra: real)
    requires ab >= 0.0 && bc >= 0.0 && 0.0 <= ac <= uac && extra >= 0.0
    requires 0.0 < uab <= uac + extra && 0.0 < ubc <= uac + extra && 0.0 < uac
    requires ac + extra <= ab + bc
    ensures Share(ac, uac) <= Share(ab, uab) + Share(bc, ubc)
  {
    var n := uac + extra;
    ShareShrinks(ab, uab, n);
    ShareShrinks(bc, ubc, n);
    ShareGrows(ac, uac, extra);
    ShareSum(ab, bc, n);
    ShareMonotone(ac + extra, ab + bc, n);
  }

  // ----- calculate_jaccard_similarity -----

  function Jaccard<T(!new)>(a: set<T>, b: set<T>): (j: real) {
    if a == {} || b == {} then 0.0
    else if |a + b| == 0 then 0.0
    else Share(|a * b| as real, |a + b| as real)
  }

  /** Similarity is symmetric, lies between 0 and 1, is 1 exactly for equal non-empty sets and 0
      exactly for disjoint ones. */
  lemma JaccardRange<T(!new)>(a: set<T>, b: set<T>)
    ensures Jaccard(a, b) == Jaccard(b, a)
    ensures 0.0 <= Jaccard(a, b) <= 1.0
    ensures Jaccard(a, b) == 1.0 <==> a == b != {}
    ensures Jaccard(a, b) == 0.0 <==> a * b == {}
  {
    assert a + b == b + a && a * b == b * a;
    if a != {} && b != {} {
      var i, u := |a * b| as real, |a + b| as real;
      SizeMonotone(a, a + b);
      SizeMonotone(a * b, a + b);
      assert u > 0.0;
      ShareMonotone(0.0, i, u);
      ShareMonotone(i, 0.0, u);
      ShareMonotone(i, u, u);
      ShareMonotone(u, i, u);
      ShareOfAll(u);
      if a == b { assert a * b == a == a + b; }
      if a * b == a + b {
        assert a <= a * b && b <= a * b;
      }
    }
  }

  /** One minus similarity is the share of the symmetric difference. */
  lemma DistanceAsShare<T(!new)>(a: set<T>, b: set<T>)
    requires a != {} && b != {}
    ensures |a + b| > 0 && 1.0 - Jaccard(a, b) == Share(|Difference(a, b)| as real, |a + b| as real)
  {
    SizeMonotone(a, a + b);
    SizeOfDifference(a, b);
    var d, i, u := |Difference(a, b)| as real, |a * b| as real, |a + b| as real;
    ShareSum(d, i, u);
    ShareOfAll(u);
  }

  lemma DifferencesCover<T>(a: set<T>, b: set<T>, c: set<T>)
    ensures Difference(a, c) + ((a + b + c) - (a + c)) <= Difference(a, b) + Difference(b, c)
    ensures Difference(a, c) !! ((a + b + c) - (a + c))
  {
  }

  /** What the triangle inequality needs of the sizes. */
  lemma TriangleSizes<T>(a: set<T>, b: set<T>, c: set<T>)
    ensures var extra := (a + b + c) - (a + c);
            && |Difference(a, c)| + |extra| <= |Difference(a, b)| + |Difference(b, c)|
            && |a + b + c| == |a + c| + |extra| && |Difference(a, c)| <= |a + c|
            && |a + b| <= |a + b + c| && |b + c| <= |a + b + c|
  {
    var t := a + b + c;
    DifferencesCover(a, b, c);
    SizeMonotone(Difference(a, c) + (t - (a + c)), Difference(a, b) + Difference(b, c));
    SizeOfUnion(Difference(a, b), Difference(b, c));
    assert t == (a + c) + (t - (a + c));
    SizeMonotone(a + b, t);
    SizeMonotone(b + c, t);
    SizeOfDifference(a, c);
  }

  lemma TriangleNonEmpty<T(!new)>(a: set<T>, b: set<T>, c: set<T>)
    requires a != {} && b != {} && c != {}
    ensures Jaccard(a, b) + Jaccard(b, c) <= 1.0 + Jaccard(a, c)
  {
    DistanceAsShare(a, b);
    DistanceAsShare(b, c);
    DistanceAsShare(a, c);
    TriangleSizes(a, b, c);
    TriangleOfShares(|Difference(a, b)| as real, |a + b| as real, |Difference(b, c)| as real, |b + c| as real,
                     |Difference(a, c)| as real, |a + c| as real, |(a + b + c) - (a + c)| as real);
  }

  /** One minus similarity obeys the triangle inequality, on all sets, empty ones included. */
  lemma JaccardTriangle<T(!new)>(a: set<T>, b: set<T>, c: set<T>)
    ensures Jaccard(a, b) + Jaccard(b, c) <= 1.0 + Jaccard(a, c)
  {
    JaccardRange(a, b);
    JaccardRange(b, c);
    JaccardRange(a, c);
    if a != {} && b != {} && c != {} { TriangleNonEmpty(a, b, c); }
  }

  // ----- check_sections_in_file -----

  datatype AuditSection = AuditSection(line: nat, title: string, sentences: set<string>)

  datatype DuplicationMatch = DuplicationMatch(titleA: string, lineA: nat, titleB: string, lineB: nat, similarity: real)

  /** Sections `i` and `j` are both large enough and similar enough to be reported. */
  predicate Matches(s: seq<AuditSection>, threshold: real, i: int, j: int) {
    && 0 <= i < j < |s| && |s[i].sentences| >= 3 && |s[j].sentences| >= 3
    && Jaccard(s[i].sentences, s[j].sentences) >= threshold
  }

  function MatchOf(s: seq<AuditSection>, i: int, j: int): DuplicationMatch
    requires 0 <= i < |s| && 0 <= j < |s|
  {
    DuplicationMatch(s[i].title, s[i].line, s[j].title, s[j].line, Jaccard(s[i].sentences, s[j].sentences))
  }

  predicate Before(x: (int, int), y: (int, int)) { x.0 < y.0 || (x.0 == y.0 && x.1 < y.1) }

  /** `at` lists, in order and without omission, the matching pairs before `end`. */
  ghost predicate ListsMatches(s: seq<AuditSection>, threshold: real, end: (int, int),
                               at: seq<(int, int)>, m: seq<DuplicationMatch>) {
    && |at| == |m|
    && (forall k :: 0 <= k < |at| ==>
          Matches(s, threshold, at[k].0, at[k].1) && m[k] == MatchOf(s, at[k].0, at[k].1) && Before(at[k], end))
    && (forall k, l :: 0 <= k < l < |at| ==> Before(at[k], at[l]))
    && (forall i, j :: Matches(s, threshold, i, j) && Before((i, j), end) ==> (i, j) in at)
  }

  lemma MatchesOneMore(s: seq<AuditSection>, threshold: real, i: int, j: int,
                       at: seq<(int, int)>, m: seq<DuplicationMatch>)
    requires 0 <= i < j < |s| && ListsMatches(s, threshold, (i, j), at, m)
    ensures Matches(s, threshold, i, j) ==>
      ListsMatches(s, threshold, (i, j + 1), at + [(i, j)], m + [MatchOf(s, i, j)])
    ensures !Matches(s, threshold, i, j) ==> ListsMatches(s, threshold, (i, j + 1), at, m)
  {
    var at' := at + [(i, j)];
    assert at'[|at|] == (i, j);
    forall x, y | Matches(s, threshold, x, y) && Before((x, y), (i, j)) ensures (x, y) in at' {
      assert (x, y) in at;
    }
  }

  /** The inner loop: section `i` against all later ones. */
  method CheckRow(s: seq<AuditSection>, threshold: real, i: nat, before: seq<DuplicationMatch>,
                  ghost at0: seq<(int, int)>)
    returns (m: seq<DuplicationMatch>, ghost at: seq<(int, int)>)
    requires i < |s| && |s[i].sentences| >= 3 && ListsMatches(s, threshold, (i, i + 1), at0, before)
    ensures ListsMatches(s, threshold, (i, |s|), at, m)
  {
    m, at := before, at0;
    for j := i + 1 to |s|
      invariant ListsMatches(s, threshold, (i, j), at, m)
    {
      MatchesOneMore(s, threshold, i, j, at, m);
      if |s[j].sentences| < 3 { continue; }
      var sim := Jaccard(s[i].sentences, s[j].sentences);
      if sim >= threshold {
        m := m + [DuplicationMatch(s[i].title, s[i].line, s[j].title, s[j].line, sim)];
        at := at + [(i, j)];
      }
    }
  }

  method CheckSections(s: seq<AuditSection>, threshold: real) returns (m: seq<DuplicationMatch>)
    ensures exists at :: ListsMatches(s, threshold, (|s|, 0), at, m)
  {
    m := [];
    ghost var at: seq<(int, int)> := [];
    for i := 0 to |s|
      invariant ListsMatches(s, threshold, (i, 0), at, m)
    {
      if |s[i].sentences| < 3 { continue; }
      m, at := CheckRow(s, threshold, i, m, at);
    }
  }

  /** A pair matches exactly if both sections have at least three sentences and the shared ones make up at least the
      threshold's share of all; the finding names both sections, in order. */
  lemma MatchMeaning(s: seq<AuditSection>, threshold: real, i: int, j: int)
    requires 0 <= i < j < |s|
    ensures var a, b := s[i].sentences, s[j].sentences;
      Matches(s, threshold, i, j) <==> |a| > 2 && |b| > 2 && |a * b| as real >= threshold * |a + b| as real
    ensures var m := MatchOf(s, i, j);
      && m.titleA == s[i].title && m.lineA == s[i].line && m.titleB == s[j].title && m.lineB == s[j].line
      && m.similarity == Jaccard(s[i].sentences, s[j].sentences)
  {
    var a, b := s[i].sentences, s[j].sentences;
    if |a| > 2 && |b| > 2 {
      UnionNotEmpty(a, b);
      ShareAtLeast(|a * b| as real, |a + b| as real, threshold);
    }
  }

  lemma UnionNotEmpty<T(!new)>(a: set<T>, b: set<T>)
    requires |a| > 0
    ensures |a + b| > 0
  {
    assert a != {};
    var x :| x in a;
    assert x in a + b;
  }

  lemma ShareAtLeast(part: real, whole: real, threshold: real)
    requires whole > 0.0
    ensures part / whole >= threshold <==> part >= threshold * whole
  {
    var q := part / whole;
    assert q * whole == part;
    if q >= threshold { assert (q - threshold) * whole >= 0.0; } else { assert (threshold - q) * whole > 0.0; }
  }

  /** Reported pairs chain: two matches that share a section bound the similarity of the outer two. */
  lemma ChainedSections(s: seq<AuditSection>, threshold: real, i: int, j: int, k: int)
    requires Matches(s, threshold, i, j) && Matches(s, threshold, j, k)
    ensures Jaccard(s[i].sentences, s[k].sentences) >= 2.0 * threshold - 1.0
  {
    JaccardTriangle(s[i].sentences, s[j].sentences, s[k].sentences);
  }

  // ----- get_trigrams and normalized_similarity -----

  function Padded(s: string): string { "  " + s + "  " }

  function Window(s: string, i: nat): string
    requires i + 3 <= |s|
  {
    s[i..i + 3]
  }

  /** The first `n` windows of three characters. */
  function Windows(s: string, n: nat): (t: set<string>)
    requires n + 2 <= |s|
  {
    set i | 0 <= i < n :: Window(s, i)
  }

  function Trigrams(s: string): (t: set<string>) {
    if s == "" then {} else Windows(Padded(s), |Padded(s)| - 2)
  }

  method GetTrigrams(s: string) returns (t: set<string>)
    ensures t == Trigrams(s)
  {
    t := {};
    if s == "" { return; }
    var padded := "  " + s + "  ";
    if |padded| >= 3 {
      for i := 0 to |padded| - 2
        invariant t == Windows(padded, i)
      {
        t := t + {padded[i..i + 3]};
        assert Window(padded, i) == padded[i..i + 3];
        assert Windows(padded, i + 1) == Windows(padded, i) + {Window(padded, i)};
      }
    }
  }

  /** The trigrams of a subject are the three-character parts of it between two blanks on each side. */
  lemma TrigramsAre(s: string, x: string)
    ensures x in Trigrams(s) <==>
      s != "" && |x| == 3 && exists a: string, b: string :: "  " + s + "  " == a + x + b
  {
    var p := Padded(s);
    if x in Trigrams(s) {
      var i :| 0 <= i < |p| - 2 && x == Window(p, i);
      assert p == p[..i] + x + p[i + 3..];
    }
    if a: string, b: string :| s != "" && |x| == 3 && "  " + s + "  " == a + x + b { WindowIn(s, a, x, b); }
  }

  lemma WindowIn(s: string, a: string, x: string, b: string)
    requires s != "" && |x| == 3 && "  " + s + "  " == a + x + b
    ensures x in Trigrams(s)
  {
    var p := Padded(s);
    assert p == a + x + b && p[|a|..|a| + 3] == x;
    assert Window(p, |a|) == x && |a| < |p| - 2;
    assert Window(p, |a|) in Windows(p, |p| - 2);
  }

  /** Non-empty subjects have trigrams: at least the one that starts with two blanks. */
  lemma TrigramsNonEmpty(s: string)
    ensures Trigrams(s) == {} <==> s == ""
  {
    if s != "" { assert Window(Padded(s), 0) in Trigrams(s); }
  }

  /** Similarity of two normalised subjects. */
  function SubjectSimilarity(a: string, b: string): (j: real) {
    if a == "" && b == "" then 1.0
    else if a == "" || b == "" then 0.0
    else
      var ta, tb := Trigrams(a), Trigrams(b);
      if |ta + tb| == 0 then 0.0 else Share(|ta * tb| as real, |ta + tb| as real)
  }

  lemma SubjectIsJaccard(a: string, b: string)
    ensures a != "" || b != "" ==> SubjectSimilarity(a, b) == Jaccard(Trigrams(a), Trigrams(b))
  {
    TrigramsNonEmpty(a);
    TrigramsNonEmpty(b);
  }

  lemma SubjectTriangle(a: string, b: string, c: string)
    ensures SubjectSimilarity(a, b) == SubjectSimilarity(b, a)
    ensures 0.0 <= SubjectSimilarity(a, b) <= 1.0
    ensures SubjectSimilarity(a, b) == 1.0 <==> Trigrams(a) == Trigrams(b)
    ensures SubjectSimilarity(a, b) + SubjectSimilarity(b, c) <= 1.0 + SubjectSimilarity(a, c)
  {
    SubjectIsJaccard(a, b);
    SubjectIsJaccard(b, a);
    SubjectIsJaccard(b, c);
    SubjectIsJaccard(a, c);
    JaccardRange(Trigrams(a), Trigrams(b));
    JaccardRange(Trigrams(b), Trigrams(c));
    JaccardRange(Trigrams(a), Trigrams(c));
    JaccardTriangle(Trigrams(a), Trigrams(b), Trigrams(c));
    TrigramsNonEmpty(a);
    TrigramsNonEmpty(b);
    TrigramsNonEmpty(c);
  }

  /** Two chained matches at the gate's threshold of 0.85 force 0.70 end to end. */
  lemma ChainedSubjects(a: string, b: string, c: string)
    requires SubjectSimilarity(a, b) >= 0.85 && SubjectSimilarity(b, c) >= 0.85
    ensures SubjectSimilarity(a, c) >= 0.70
  {
    SubjectTriangle(a, b, c);
  }

  /** Full similarity does not mean equal subjects: repetitions share their trigrams. */
  lemma DifferentSubjectsFullSimilarity()
    ensures SubjectSimilarity("aaa", "aaaa") == 1.0
  {
    var x, y := Padded("aaa"), Padded("aaaa");
    assert x == [' ', ' ', 'a', 'a', 'a', ' ', ' '] && y == [' ', ' ', 'a', 'a', 'a', 'a', ' ', ' '];
    forall i | 0 <= i <= 4 ensures Window(x, i) in Trigrams("aaaa") {
      var j := if i <= 2 then i else i + 1;
      assert Window(x, i) == Window(y, j);
    }
    forall j | 0 <= j <= 5 ensures Window(y, j) in Trigrams("aaa") {
      var i := if j <= 2 then j else j - 1;
      assert Window(y, j) == Window(x, i);
    }
    assert Trigrams("aaa") == Trigrams("aaaa");
    SubjectTriangle("aaa", "aaaa", "aaa");
  }
}
