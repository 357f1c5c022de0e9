/** Levenshtein distance: the dynamic-programming table, its meaning as the least number of
    single-character edits, the metric laws, and the sentence-similarity test built on it. */
module EditDistance {

  // ----- Single edits and edit sequences: the reference notion -----

  /** `t` arises from `s` by one insertion, one deletion or one substitution at position `k`. */
  predicate EditAt(s: string, t: string, k: nat) {
    || (k <= |s| && |t| == |s| + 1 && t[..k] == s[..k] && t[k + 1..] == s[k..])
    || (k < |s| && |s| == |t| + 1 && s[..k] == t[..k] && s[k + 1..] == t[k..])
    || (k < |s| && |t| == |s| && t[..k] == s[..k] && t[k + 1..] == s[k + 1..])
  }

  ghost predicate OneEdit(s: string, t: string) {
    exists k: nat :: EditAt(s, t, k)
  }

  /** A sequence of strings, each one edit away from the one before; `|w| - 1` edits in all. */
  ghost predicate IsEditSequence(w: seq<string>, s: string, t: string) {
    && |w| > 0 && w[0] == s && w[|w| - 1] == t
    && forall i :: 0 < i < |w| ==> OneEdit(w[i - 1], w[i])
  }

  // ----- The recurrence the table is filled with -----

  function Min3(x: nat, y: nat, z: nat): (m: nat)
    ensures m <= x && m <= y && m <= z && (m == x || m == y || m == z)
  {
    var xy := if x <= y then x else y;
    if xy <= z then xy else z
  }

  function Init(s: string): (r: string)
    requires s != []
  {
    s[..|s| - 1]
  }

  function Last(s: string): char
    requires s != []
  {
    s[|s| - 1]
  }

  function Cost(c: char, d: char): nat { if c == d then 0 else 1 }

  function Distance(a: string, b: string): nat
    decreases |a| + |b|
  {
    if a == [] then |b|
    else if b == [] then |a|
    else
      Min3(Distance(Init(a), b) + 1, Distance(a, Init(b)) + 1, Distance(Init(a), Init(b)) + Cost(Last(a), Last(b)))
  }

  // ----- levenshtein_distance -----

  /** Cells before (i, j) in row-major order hold the distance of the prefixes they stand for. */
  ghost predicate FilledTo(dp: array2<nat>, a: string, b: string, i: int, j: int)
    requires dp.Length0 == |a| + 1 && dp.Length1 == |b| + 1
    reads dp
  {
    forall x, y :: 0 <= x <= |a| && 0 <= y <= |b| && (x == 0 || y == 0 || x < i || (x == i && y < j)) ==>
      dp[x, y] == Distance(a[..x], b[..y])
  }

  /** The table cell (i, j) follows from its three neighbours. */
  ghost predicate CellFollows(a: string, b: string, i: nat, j: nat)
    requires 0 < i <= |a| && 0 < j <= |b|
  {
    Distance(a[..i], b[..j]) ==
    Min3(Distance(a[..i - 1], b[..j]) + 1, Distance(a[..i], b[..j - 1]) + 1,
         Distance(a[..i - 1], b[..j - 1]) + Cost(a[i - 1], b[j - 1]))
  }

  lemma {:induction false} CellRecurrence(a: string, b: string, i: nat, j: nat)
    requires 0 < i <= |a| && 0 < j <= |b|
    ensures CellFollows(a, b, i, j)
  {
    var x, y := a[..i], b[..j];
    assert Init(x) == a[..i - 1];
    assert Init(y) == b[..j - 1];
  }

  method FillBorders(dp: array2<nat>, a: string, b: string)
    requires dp.Length0 == |a| + 1 && dp.Length1 == |b| + 1
    modifies dp
    ensures FilledTo(dp, a, b, 1, 1)
  {
    for i := 0 to |a| + 1
      invariant forall x :: 0 <= x < i ==> dp[x, 0] == x
    {
      dp[i, 0] := i;
    }
    for j := 0 to |b| + 1
      invariant forall x :: 0 <= x <= |a| ==> dp[x, 0] == x
      invariant forall y :: 0 <= y < j ==> dp[0, y] == y
    {
      dp[0, j] := j;
    }
  }

  /** The inner loop: row `i`, left to right. */
  method FillRow(dp: array2<nat>, a: string, b: string, i: nat)
    requires dp.Length0 == |a| + 1 && dp.Length1 == |b| + 1 && 1 <= i <= |a|
    requires FilledTo(dp, a, b, i, 1)
    modifies dp
    ensures FilledTo(dp, a, b, i + 1, 1)
  {
    for j := 1 to |b| + 1
      invariant FilledTo(dp, a, b, i, j)
    {
      CellRecurrence(a, b, i, j);
      dp[i, j] := Min3(dp[i - 1, j] + 1, dp[i, j - 1] + 1, dp[i - 1, j - 1] + Cost(a[i - 1], b[j - 1]));
    }
  }

  method LevenshteinDistance(a: string, b: string) returns (d: nat)
    ensures d == Distance(a, b)
  {
    if |a| == 0 { return |b|; }
    if |b| == 0 { return |a|; }
    var dp := new nat[|a| + 1, |b| + 1];
    FillBorders(dp, a, b);
    for i := 1 to |a| + 1
      invariant FilledTo(dp, a, b, i, 1)
    {
      FillRow(dp, a, b, i);
    }
    assert a[..|a|] == a && b[..|b|] == b;
    d := dp[|a|, |b|];
  }

  // ----- The recurrence is a lower bound for edit sequences -----

  lemma {:induction false} DistanceSymmetric(a: string, b: string)
    ensures Distance(a, b) == Distance(b, a)
    decreases |a| + |b|
  {
    if a != [] && b != [] {
      DistanceSymmetric(Init(a), b);
      DistanceSymmetric(a, Init(b));
      DistanceSymmetric(Init(a), Init(b));
    }
  }

  lemma {:induction false} DistanceToSelf(a: string)
    ensures Distance(a, a) == 0
    decreases |a|
  {
    if a != [] { DistanceToSelf(Init(a)); }
  }

  /** Appending one character to one side costs at most one edit. */
  lemma AppendOne(a: string, c: char, u: string)
    ensures Distance(a + [c], u) <= Distance(a, u) + 1
  {
    assert Init(a + [c]) == a;
  }

  lemma {:induction false} DropOne(a: string, c: char, u: string)
    ensures Distance(a, u) <= Distance(a + [c], u) + 1
    decreases |u|
  {
    assert Init(a + [c]) == a;
    if u != [] {
      DropOne(a, c, Init(u));
    }
  }

  lemma {:induction false} ReplaceLast(a: string, c: char, d: char, u: string)
    ensures Distance(a + [c], u) <= Distance(a + [d], u) + 1
    decreases |u|
  {
    assert Init(a + [c]) == a && Init(a + [d]) == a;
    if u != [] {
      ReplaceLast(a, c, d, Init(u));
    }
  }

  /** `s` is never more than one edit further from any target than `t` is. */
  ghost predicate WithinOne(s: string, t: string) {
    forall u :: Distance(s, u) <= Distance(t, u) + 1
  }

  lemma {:induction false} SharedLastAt(s: string, t: string, c: char, u: string)
    requires WithinOne(s, t)
    ensures Distance(s + [c], u) <= Distance(t + [c], u) + 1
    decreases |u|
  {
    assert Init(s + [c]) == s && Init(t + [c]) == t;
    assert Distance(s, []) == |s| && Distance(t, []) == |t|;
    if u != [] {
      SharedLastAt(s, t, c, Init(u));
      assert Distance(s, u) <= Distance(t, u) + 1;
      assert Distance(s, Init(u)) <= Distance(t, Init(u)) + 1;
    }
  }

  lemma SharedLast(s: string, t: string, c: char)
    requires WithinOne(s, t)
    ensures WithinOne(s + [c], t + [c])
  {
    var s', t' := s + [c], t + [c];
    forall u
      ensures Distance(s', u) <= Distance(t', u) + 1
    {
      SharedLastAt(s, t, c, u);
    }
  }

  lemma {:induction false} SharedSuffix(s: string, t: string, y: string)
    requires WithinOne(s, t)
    ensures WithinOne(s + y, t + y)
    decreases |y|
  {
    if y == [] {
      assert s + y == s && t + y == t;
    } else {
      SharedSuffix(s, t, Init(y));
      SharedLast(s + Init(y), t + Init(y), Last(y));
      assert s + y == s + Init(y) + [Last(y)] && t + y == t + Init(y) + [Last(y)];
    }
  }

  lemma InsertIsLipschitz(p: string, c: char, y: string, u: string)
    ensures Distance(p + y, u) <= Distance(p + [c] + y, u) + 1
    ensures Distance(p + [c] + y, u) <= Distance(p + y, u) + 1
  {
    var q := p + [c];
    forall v ensures Distance(p, v) <= Distance(q, v) + 1 && Distance(q, v) <= Distance(p, v) + 1 {
      DropOne(p, c, v);
      AppendOne(p, c, v);
    }
    SharedSuffix(p, q, y);
    SharedSuffix(q, p, y);
  }

  lemma SubstituteIsLipschitz(p: string, c: char, d: char, y: string, u: string)
    ensures Distance(p + [c] + y, u) <= Distance(p + [d] + y, u) + 1
  {
    var q, r := p + [c], p + [d];
    forall v ensures Distance(q, v) <= Distance(r, v) + 1 {
      ReplaceLast(p, c, d, v);
    }
    SharedSuffix(q, r, y);
  }

  lemma LongerByOne(s: string, t: string, k: nat, u: string)
    requires k <= |s| && |t| == |s| + 1 && t[..k] == s[..k] && t[k + 1..] == s[k..]
    ensures Distance(s, u) <= Distance(t, u) + 1 && Distance(t, u) <= Distance(s, u) + 1
  {
    var p, c, y := s[..k], t[k], s[k..];
    assert s == p + y && t == p + [c] + y;
    InsertIsLipschitz(p, c, y, u);
  }

  lemma SameLength(s: string, t: string, k: nat, u: string)
    requires k < |s| == |t| && t[..k] == s[..k] && t[k + 1..] == s[k + 1..]
    ensures Distance(s, u) <= Distance(t, u) + 1
  {
    var p, y := s[..k], s[k + 1..];
    assert s == p + [s[k]] + y && t == p + [t[k]] + y;
    SubstituteIsLipschitz(p, s[k], t[k], y, u);
  }

  lemma EditIsLipschitz(s: string, t: string, u: string)
    requires OneEdit(s, t)
    ensures Distance(s, u) <= Distance(t, u) + 1
  {
    var k: nat :| EditAt(s, t, k);
    if |t| == |s| + 1 {
      LongerByOne(s, t, k, u);
    } else if |s| == |t| + 1 {
      LongerByOne(t, s, k, u);
    } else {
      SameLength(s, t, k, u);
    }
  }

  /** No edit sequence is shorter than the computed distance. */
  lemma {:induction false} DistanceIsLowerBound(w: seq<string>, s: string, t: string)
    requires IsEditSequence(w, s, t)
    ensures Distance(s, t) <= |w| - 1
    decreases |w|
  {
    if |w| == 1 {
      DistanceToSelf(s);
    } else {
      var v := w[1..];
      forall i | 0 < i < |v| ensures OneEdit(v[i - 1], v[i]) {
        assert OneEdit(w[i], w[i + 1]);
      }
      DistanceIsLowerBound(v, w[1], t);
      assert OneEdit(w[0], w[1]);
      EditIsLipschitz(s, w[1], t);
    }
  }

  // ----- and some edit sequence attains it -----

  /** Appends `y` to every string of an edit sequence. */
  lemma SequenceWithSuffix(w: seq<string>, s: string, t: string, y: string) returns (v: seq<string>)
    requires IsEditSequence(w, s, t)
    ensures IsEditSequence(v, s + y, t + y) && |v| == |w|
  {
    v := seq(|w|, i requires 0 <= i < |w| => w[i] + y);
    forall i | 0 < i < |v| ensures OneEdit(v[i - 1], v[i]) {
      assert OneEdit(w[i - 1], w[i]);
      var k: nat :| EditAt(w[i - 1], w[i], k);
      EditWithSuffix(w[i - 1], w[i], k, y);
    }
  }

  lemma EditWithSuffix(s: string, t: string, k: nat, y: string)
    requires EditAt(s, t, k)
    ensures EditAt(s + y, t + y, k)
  {
    assert (s + y)[..k] == s[..k];
    if |t| == |s| + 1 {
      assert (t + y)[..k] == t[..k] && (t + y)[k + 1..] == t[k + 1..] + y && (s + y)[k..] == s[k..] + y;
    } else if |s| == |t| + 1 {
      assert (t + y)[..k] == t[..k] && (s + y)[k + 1..] == s[k + 1..] + y && (t + y)[k..] == t[k..] + y;
    } else {
      assert (t + y)[..k] == t[..k] && (s + y)[k + 1..] == s[k + 1..] + y && (t + y)[k + 1..] == t[k + 1..] + y;
    }
  }

  lemma Concatenate(w: seq<string>, v: seq<string>, s: string, m: string, t: string)
    requires IsEditSequence(w, s, m) && IsEditSequence(v, m, t)
    ensures IsEditSequence(w + v[1..], s, t)
  {
    var x := w + v[1..];
    forall i | 0 < i < |x| ensures OneEdit(x[i - 1], x[i]) {
      if i < |w| {
        assert OneEdit(w[i - 1], w[i]);
      } else {
        assert OneEdit(v[i - |w|], v[i - |w| + 1]);
      }
    }
  }

  lemma OneStep(s: string, t: string, k: nat)
    requires EditAt(s, t, k)
    ensures IsEditSequence([s, t], s, t)
  {
    assert OneEdit(s, t);
  }

  lemma DeleteFirst(a: string, b: string, v: seq<string>) returns (w: seq<string>)
    requires a != [] && IsEditSequence(v, Init(a), b)
    ensures IsEditSequence(w, a, b) && |w| == |v| + 1
  {
    OneStep(a, Init(a), |a| - 1);
    Concatenate([a, Init(a)], v, a, Init(a), b);
    w := [a, Init(a)] + v[1..];
  }

  lemma InsertAtEnd(a: string, b: string, v: seq<string>) returns (w: seq<string>)
    requires b != [] && IsEditSequence(v, a, Init(b))
    ensures IsEditSequence(w, a, b) && |w| == |v| + 1
  {
    OneStep(Init(b), b, |b| - 1);
    Concatenate(v, [Init(b), b], a, Init(b), b);
    w := v + [Init(b), b][1..];
  }

  lemma MatchLast(a: string, b: string, v: seq<string>) returns (w: seq<string>)
    requires a != [] && b != [] && IsEditSequence(v, Init(a), Init(b))
    ensures IsEditSequence(w, a, b) && |w| == |v| + Cost(Last(a), Last(b))
  {
    var mid := Init(b) + [Last(a)];
    w := SequenceWithSuffix(v, Init(a), Init(b), [Last(a)]);
    assert Init(a) + [Last(a)] == a;
    if Last(a) == Last(b) {
      assert mid == b;
    } else {
      OneStep(mid, b, |b| - 1);
      Concatenate(w, [mid, b], a, mid, b);
      w := w + [mid, b][1..];
    }
  }

  lemma {:induction false} DistanceIsAttained(a: string, b: string) returns (w: seq<string>)
    ensures IsEditSequence(w, a, b) && |w| - 1 == Distance(a, b)
    decreases |a| + |b|
  {
    if a == [] && b == [] {
      w := [a];
    } else if b == [] || (a != [] && Distance(a, b) == Distance(Init(a), b) + 1) {
      w := DistanceIsAttained(Init(a), b);
      w := DeleteFirst(a, b, w);
    } else if a == [] || Distance(a, b) == Distance(a, Init(b)) + 1 {
      w := DistanceIsAttained(a, Init(b));
      w := InsertAtEnd(a, b, w);
    } else {
      w := DistanceIsAttained(Init(a), Init(b));
      w := MatchLast(a, b, w);
    }
  }

  /** The computed value is the least number of insertions, deletions and substitutions. */
  lemma DistanceIsMinimum(a: string, b: string)
    ensures exists w :: IsEditSequence(w, a, b) && |w| - 1 == Distance(a, b)
    ensures forall w :: IsEditSequence(w, a, b) ==> Distance(a, b) <= |w| - 1
  {
    var w := DistanceIsAttained(a, b);
    forall v | IsEditSequence(v, a, b) ensures Distance(a, b) <= |v| - 1 {
      DistanceIsLowerBound(v, a, b);
    }
  }

  // ----- Metric laws -----

  lemma TriangleInequality(a: string, b: string, c: string)
    ensures Distance(a, c) <= Distance(a, b) + Distance(b, c)
  {
    var w := DistanceIsAttained(a, b);
    var v := DistanceIsAttained(b, c);
    Concatenate(w, v, a, b, c);
    DistanceIsLowerBound(w + v[1..], a, c);
  }

  lemma ZeroOnlyOnEqual(a: string, b: string)
    ensures Distance(a, b) == 0 <==> a == b
  {
    DistanceToSelf(a);
    var w := DistanceIsAttained(a, b);
  }

  lemma {:induction false} DistanceRange(a: string, b: string)
    ensures |a| - |b| <= Distance(a, b) && |b| - |a| <= Distance(a, b)
    ensures Distance(a, b) <= |a| || Distance(a, b) <= |b|
    decreases |a| + |b|
  {
    if a != [] && b != [] {
      DistanceRange(Init(a), b);
      DistanceRange(a, Init(b));
      DistanceRange(Init(a), Init(b));
    }
  }

  // ----- sentences_are_similar -----

  /** Bytes a character takes in UTF-8: the string length the similarity ratio divides by. */
  function Utf8Width(c: char): (n: nat)
    ensures 1 <= n <= 4
  {
    if c as int < 0x80 then 1 else if c as int < 0x800 then 2 else if c as int < 0x10000 then 3 else 4
  }

  function ByteLength(s: string): (n: nat)
    ensures |s| <= n <= 4 * |s|
  {
    if s == [] then 0 else ByteLength(Init(s)) + Utf8Width(Last(s))
  }

  /** The similarity test; the ratio is compared exactly, `dist / max_len < 1 / 10`. */
  method SentencesAreSimilar(s: string, t: string) returns (similar: bool)
    ensures similar == Similar(s, t)
  {
    if s == t { return true; }
    var dist := LevenshteinDistance(s, t);
    var maxLen := if ByteLength(s) >= ByteLength(t) then ByteLength(s) else ByteLength(t);
    if maxLen == 0 { return false; }
    TenthOf(dist, maxLen);
    similar := dist as real / maxLen as real < 0.10;
  }

  lemma TenthOf(d: nat, m: nat)
    requires m > 0
    ensures d as real / m as real < 0.10 <==> 10 * d < m
  {
    RatioBelow(d as real, m as real, 0.10);
  }

  lemma RatioBelow(d: real, m: real, bound: real)
    requires m > 0.0
    ensures d / m < bound <==> d < bound * m
  {
    var q := d / m;
    assert q * m == d;
    assert (bound - q) * m == bound * m - d;
    if q < bound { assert (bound - q) * m > 0.0; }
    if q >= bound { assert (q - bound) * m >= 0.0; }
  }

  ghost predicate Similar(s: string, t: string) {
    s == t || 10 * Distance(s, t) < ByteLength(s) || 10 * Distance(s, t) < ByteLength(t)
  }

  function Longer(m: nat, n: nat): nat { if m < n then n else m }

  /** Different strings are similar exactly if fewer edits than a tenth of the longer byte length join them. */
  lemma SimilarIffFewEdits(s: string, t: string)
    ensures Similar(s, t) <==>
      s == t || exists w: seq<string> ::
        IsEditSequence(w, s, t) && (|w| - 1) as real < 0.1 * Longer(ByteLength(s), ByteLength(t)) as real
  {
    var w := DistanceIsAttained(s, t);
    if v: seq<string> :|
      IsEditSequence(v, s, t) && (|v| - 1) as real < 0.1 * Longer(ByteLength(s), ByteLength(t)) as real
    {
      DistanceIsLowerBound(v, s, t);
    }
  }

  /** One edit is similar from eleven bytes on, and not before. */
  lemma OneEditIsSimilarIff(s: string, t: string)
    requires s != t && OneEdit(s, t)
    ensures Similar(s, t) <==> Longer(ByteLength(s), ByteLength(t)) >= 11
  {
    var k: nat :| EditAt(s, t, k);
    OneStep(s, t, k);
    DistanceIsLowerBound([s, t], s, t);
    ZeroOnlyOnEqual(s, t);
  }

  function Pow2(n: nat): nat { if n == 0 then 1 else 2 * Pow2(n - 1) }

  /** The code points an encoding of `n` bytes has room for: seven bits in one byte, else `5 n + 1`. */
  function Utf8Room(n: nat): nat { if n == 1 then Pow2(7) else Pow2(5 * n + 1) }

  lemma RoomValues()
    ensures Utf8Room(1) == 0x80 && Utf8Room(2) == 0x800 && Utf8Room(3) == 0x10000 && Utf8Room(4) == 0x20_0000
  {
    assert Pow2(7) == 0x80 && Pow2(11) == 16 * Pow2(7) && Pow2(16) == 32 * Pow2(11) && Pow2(21) == 32 * Pow2(16);
  }

  /** A character takes the fewest bytes that have room for it. */
  lemma Utf8WidthIsLeast(c: char)
    ensures (c as int) < Utf8Room(Utf8Width(c))
    ensures forall n :: 1 <= n < Utf8Width(c) ==> Utf8Room(n) <= c as int
  {
    RoomValues();
  }

  /** Similarity is reflexive and symmetric, forces nearly equal lengths, and on strings of at
      most ten bytes it is equality. */
  lemma SimilarityLaws(s: string, t: string)
    ensures Similar(s, s)
    ensures Similar(s, t) <==> Similar(t, s)
    ensures Similar(s, t) && ByteLength(s) <= 10 && ByteLength(t) <= 10 ==> s == t
    ensures Similar(s, t) && |s| >= |t| ==> 10 * (|s| - |t|) <= ByteLength(s) || 10 * (|s| - |t|) <= ByteLength(t)
  {
    DistanceSymmetric(s, t);
    ZeroOnlyOnEqual(s, t);
    DistanceRange(s, t);
  }

  /** Chained similarity degrades by the triangle inequality only: two steps stay within a fifth
      of the longest of the three. */
  lemma SimilarityChains(s: string, t: string, u: string, longest: nat)
    requires Similar(s, t) && Similar(t, u)
    requires ByteLength(s) <= longest && ByteLength(t) <= longest && ByteLength(u) <= longest
    ensures 5 * Distance(s, u) <= longest
  {
    TriangleInequality(s, t, u);
    ZeroOnlyOnEqual(s, t);
    ZeroOnlyOnEqual(t, u);
    assert 10 * Distance(s, t) <= longest;
    assert 10 * Distance(t, u) <= longest;
  }
}
