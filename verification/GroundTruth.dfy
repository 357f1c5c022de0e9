/** Brute-force nearest neighbours and the recall of a search result against them.  Distances are exact
    reals, so they are totally ordered. */
module GroundTruth {
  import opened Basics

  type Vector = seq<real>

  // ----- The nearest indices, stated without an algorithm -----

  /** Vector `i` ranks before vector `j`: closer, or as close with the lower index. */
  predicate Before(d: seq<real>, i: nat, j: nat)
    requires i < |d| && j < |d|
  {
    d[i] < d[j] || (d[i] == d[j] && i < j)
  }

  predicate Indices(d: seq<real>, r: seq<nat>) { forall x :: 0 <= x < |r| ==> r[x] < |d| }

  predicate Ranked(d: seq<real>, r: seq<nat>)
    requires Indices(d, r)
  {
    forall x, y :: 0 <= x < y < |r| ==> Before(d, r[x], r[y])
  }

  /** Every index that is left out ranks after every index that is returned. */
  predicate OmitsOnlyFarther(d: seq<real>, r: seq<nat>)
    requires Indices(d, r)
  {
    forall i: nat, x :: i < |d| && i !in r && 0 <= x < |r| ==> Before(d, r[x], i)
  }

  ghost predicate IsNearest(d: seq<real>, k: nat, r: seq<nat>) {
    |r| == Min(k, |d|) && Indices(d, r) && Ranked(d, r) && OmitsOnlyFarther(d, r)
  }

  predicate NoRepeats(r: seq<nat>) { forall x, y :: 0 <= x < y < |r| ==> r[x] != r[y] }

  // ----- compute_ground_truth -----

  /** `r` ranks exactly the indices below `n`. */
  ghost predicate RanksAll(d: seq<real>, n: nat, r: seq<nat>) {
    |r| == n <= |d| && Indices(d, r) && Ranked(d, r) && forall i: nat :: i < n <==> i in r
  }

  /** Stable insertion of the next index: past every vector that is at most as far. */
  method InsertRanked(d: seq<real>, n: nat, r: seq<nat>) returns (s: seq<nat>)
    requires n < |d| && RanksAll(d, n, r)
    ensures RanksAll(d, n + 1, s)
  {
    var p := n;
    while p > 0 && d[r[p - 1]] > d[n]
      invariant 0 <= p <= n
      invariant forall x :: p <= x < n ==> d[r[x]] > d[n]
    {
      p := p - 1;
    }
    s := Inserted(r, p, n);
    InsertedRanks(d, n, r, p);
  }

  function Inserted(r: seq<nat>, p: nat, n: nat): seq<nat>
    requires p <= |r|
  {
    r[..p] + [n] + r[p..]
  }

  lemma InsertedRanks(d: seq<real>, n: nat, r: seq<nat>, p: nat)
    requires n < |d| && RanksAll(d, n, r) && p <= n
    requires p > 0 ==> d[r[p - 1]] <= d[n]
    requires forall x :: p <= x < n ==> d[r[x]] > d[n]
    ensures RanksAll(d, n + 1, Inserted(r, p, n))
  {
    InsertedMembers(r, p, n);
    forall x | 0 <= x < p ensures Before(d, r[x], n) {
      assert r[x] in r;
      if x < p - 1 { assert Before(d, r[x], r[p - 1]); }
    }
    InsertedOrder(d, r, p, n);
  }

  lemma InsertedMembers(r: seq<nat>, p: nat, n: nat)
    requires p <= |r|
    ensures forall i :: i in Inserted(r, p, n) <==> i in r || i == n
  {
    assert r == r[..p] + r[p..];
  }

  lemma InsertedOrder(d: seq<real>, r: seq<nat>, p: nat, n: nat)
    requires Indices(d, r) && Ranked(d, r) && p <= |r| && n < |d|
    requires forall x :: 0 <= x < p ==> Before(d, r[x], n)
    requires forall x :: p <= x < |r| ==> Before(d, n, r[x])
    ensures Indices(d, Inserted(r, p, n)) && Ranked(d, Inserted(r, p, n))
  {
    var s := Inserted(r, p, n);
    assert forall x :: 0 <= x < |s| ==> s[x] == if x < p then r[x] else if x == p then n else r[x - 1];
  }

  method NearestIndices(d: seq<real>, k: nat) returns (r: seq<nat>)
    ensures IsNearest(d, k, r)
  {
    var all: seq<nat> := [];
    for n := 0 to |d|
      invariant RanksAll(d, n, all)
    {
      all := InsertRanked(d, n, all);
    }
    r := all[..Min(k, |d|)];
    PrefixIsNearest(d, k, all);
  }

  lemma PrefixIsNearest(d: seq<real>, k: nat, all: seq<nat>)
    requires RanksAll(d, |d|, all)
    ensures IsNearest(d, k, all[..Min(k, |d|)])
  {
    var m := Min(k, |d|);
    var r := all[..m];
    assert forall y :: 0 <= y < m ==> all[y] == r[y] && r[y] in r;
    forall i: nat, x | i < |d| && i !in r && 0 <= x < |r| ensures Before(d, r[x], i) {
      assert i in all;
      var y :| 0 <= y < |all| && all[y] == i;
    }
  }

  ghost predicate TruthFor(base: seq<Vector>, q: Vector, k: nat, metric: (Vector, Vector) -> real, r: seq<nat>) {
    IsNearest(Distances(base, q, metric), k, r)
  }

  function Distances(base: seq<Vector>, q: Vector, metric: (Vector, Vector) -> real): (d: seq<real>) {
    seq(|base|, i requires 0 <= i < |base| => metric(q, base[i]))
  }

  method ComputeGroundTruth(base: seq<Vector>, queries: seq<Vector>, k: nat, metric: (Vector, Vector) -> real)
    returns (truth: seq<seq<nat>>)
    ensures |truth| == |queries|
    ensures forall j :: 0 <= j < |queries| ==> TruthFor(base, queries[j], k, metric, truth[j])
  {
    truth := [];
    for j := 0 to |queries|
      invariant |truth| == j
      invariant forall i :: 0 <= i < j ==> TruthFor(base, queries[i], k, metric, truth[i])
    {
      var top := NearestIndices(Distances(base, queries[j], metric), k);
      truth := truth + [top];
    }
  }

  /** What the nearest indices are: distances never decrease along them, equal ones go by index, and whatever is
      left out is at least as far as everything returned. */
  lemma NearestMeaning(d: seq<real>, k: nat, r: seq<nat>)
    requires IsNearest(d, k, r)
    ensures |r| == (if k <= |d| then k else |d|) && forall x :: 0 <= x < |r| ==> r[x] < |d|
    ensures forall x, y :: 0 <= x < y < |r| ==> d[r[x]] <= d[r[y]] && (d[r[x]] == d[r[y]] ==> r[x] < r[y])
    ensures forall i: nat, x :: i < |d| && i !in r && 0 <= x < |r| ==>
      d[r[x]] <= d[i] && (d[r[x]] == d[i] ==> r[x] < i)
  {
    assert forall x, y :: 0 <= x < y < |r| ==> Before(d, r[x], r[y]);
    assert forall i: nat, x :: i < |d| && i !in r && 0 <= x < |r| ==> Before(d, r[x], i);
  }

  // ----- The nearest indices are unique -----

  lemma NearestHasNoRepeats(d: seq<real>, k: nat, r: seq<nat>)
    requires IsNearest(d, k, r)
    ensures NoRepeats(r)
  {
    forall x, y | 0 <= x < y < |r| ensures r[x] != r[y] { assert Before(d, r[x], r[y]); }
  }

  /** The result is determined: two rankings of the same size agree place by place. */
  lemma NearestIsUnique(d: seq<real>, k: nat, r: seq<nat>, s: seq<nat>)
    requires IsNearest(d, k, r) && IsNearest(d, k, s)
    ensures r == s
  {
    for x := 0 to |r|
      invariant r[..x] == s[..x]
    {
      SamePlace(d, k, r, s, x);
    }
    assert r == r[..|r|] && s == s[..|s|];
  }

  lemma SamePlace(d: seq<real>, k: nat, r: seq<nat>, s: seq<nat>, x: nat)
    requires IsNearest(d, k, r) && IsNearest(d, k, s) && x < |r| && r[..x] == s[..x]
    ensures r[x] == s[x]
  {
    NotLater(d, k, r, s, x);
    NotLater(d, k, s, r, x);
  }

  /** At the first place not yet compared, neither ranking can hold something that ranks later. */
  lemma NotLater(d: seq<real>, k: nat, r: seq<nat>, s: seq<nat>, x: nat)
    requires IsNearest(d, k, r) && IsNearest(d, k, s) && x < |r| && r[..x] == s[..x]
    ensures r[x] == s[x] || Before(d, r[x], s[x])
  {
    assert forall y :: 0 <= y < x ==> r[y] == r[..x][y] == s[..x][y] == s[y];
    NearestHasNoRepeats(d, k, s);
    if s[x] in r { var y :| 0 <= y < |r| && r[y] == s[x]; }
  }

  /** Asking for fewer neighbours gives a prefix of the longer answer. */
  lemma FewerIsPrefix(d: seq<real>, k: nat, more: nat, r: seq<nat>, s: seq<nat>)
    requires k <= more && IsNearest(d, k, r) && IsNearest(d, more, s)
    ensures r <= s
  {
    var t := s[..|r|];
    assert forall y :: 0 <= y < |r| ==> s[y] == t[y] && t[y] in t;
    forall i: nat, x | i < |d| && i !in t && 0 <= x < |t| ensures Before(d, t[x], i) {
      if i in s {
        var y :| 0 <= y < |s| && s[y] == i;
        assert Before(d, s[x], s[y]);
      }
    }
    NearestIsUnique(d, k, r, t);
  }

  // ----- recall_at_k -----

  /** How many of the returned identifiers are among the true ones, counting repetitions. */
  function Hits(found: seq<nat>, truth: seq<nat>): (h: nat)
    ensures h <= |found|
  {
    if found == [] then 0
    else Hits(found[..|found| - 1], truth) + if found[|found| - 1] in truth then 1 else 0
  }

  ghost function Recall(retrieved: seq<nat>, truth: seq<nat>, k: nat): real {
    if k == 0 || truth == [] then 0.0
    else
      Hits(retrieved[..Min(k, |retrieved|)], truth[..Min(k, |truth|)]) as real / Min(k, |truth|) as real
  }

  method RecallAtK(retrieved: seq<nat>, truth: seq<nat>, k: nat) returns (r: real)
    ensures r == Recall(retrieved, truth, k)
  {
    if k == 0 || truth == [] { return 0.0; }
    var limit, truthLimit := Min(k, |retrieved|), Min(k, |truth|);
    var wanted := set x | x in truth[..truthLimit];
    var hits := 0;
    for i := 0 to limit
      invariant hits == Hits(retrieved[..i], truth[..truthLimit])
    {
      assert retrieved[..i + 1][..i] == retrieved[..i];
      if retrieved[i] in wanted { hits := hits + 1; }
    }
    r := hits as real / truthLimit as real;
  }

  function Elements(s: seq<nat>): set<nat> { set x | x in s }

  /** The identifiers that are both returned and true. */
  function Common(found: seq<nat>, truth: seq<nat>): set<nat> { Elements(found) * Elements(truth) }

  /** No true identifier is returned twice. */
  predicate NoRepeatedHit(found: seq<nat>, truth: seq<nat>) {
    forall x, y :: 0 <= x < y < |found| && found[x] in truth ==> found[x] != found[y]
  }

  lemma CommonSnoc(found: seq<nat>, f: nat, truth: seq<nat>)
    ensures Common(found + [f], truth) == Common(found, truth) + if f in truth then {f} else {}
  {
  }

  /** The count is at least the size of the intersection, and equal to it exactly if no hit repeats. */
  lemma {:induction false} HitsAgainstIntersection(found: seq<nat>, truth: seq<nat>)
    ensures Hits(found, truth) >= |Common(found, truth)|
    ensures Hits(found, truth) == |Common(found, truth)| <==> NoRepeatedHit(found, truth)
    decreases |found|
  {
    if found != [] {
      var init, f := found[..|found| - 1], found[|found| - 1];
      assert found == init + [f];
      HitsAgainstIntersection(init, truth);
      CommonSnoc(init, f, truth);
      if f in truth && f in init {
        assert Common(found, truth) == Common(init, truth);
        var x :| 0 <= x < |init| && init[x] == f;
        assert found[x] == found[|found| - 1];
      } else if f in truth {
        assert f !in Common(init, truth);
        assert |Common(found, truth)| == |Common(init, truth)| + 1;
        LastIsNew(init, f, truth);
      } else {
        assert Common(found, truth) == Common(init, truth);
        LastIsNew(init, f, truth);
      }
    }
  }

  lemma LastIsNew(init: seq<nat>, f: nat, truth: seq<nat>)
    requires f !in truth || f !in init
    ensures NoRepeatedHit(init + [f], truth) <==> NoRepeatedHit(init, truth)
  {
    var found := init + [f];
    assert forall x :: 0 <= x < |init| ==> found[x] == init[x] && found[x] in init;
  }

  lemma {:induction false} DistinctSize(s: seq<nat>)
    requires NoRepeats(s)
    ensures |Elements(s)| == |s|
    decreases |s|
  {
    if s != [] {
      var init, f := s[..|s| - 1], s[|s| - 1];
      DistinctSize(init);
      assert s == init + [f];
      assert Elements(s) == Elements(init) + {f};
      assert f !in init;
    }
  }

  lemma SubsetSize(a: set<nat>, b: set<nat>)
    requires a <= b
    ensures |a| <= |b| && (|a| == |b| ==> a == b)
  {
    assert b == a + (b - a);
    assert |b| == |a| + |b - a|;
  }

  lemma DistinctHits(found: seq<nat>, wanted: seq<nat>)
    requires NoRepeats(found) && NoRepeats(wanted)
    ensures Hits(found, wanted) <= |wanted|
    ensures Hits(found, wanted) == |wanted| <==> forall x :: x in wanted ==> x in found
  {
    HitsAgainstIntersection(found, wanted);
    DistinctSize(wanted);
    SubsetSize(Common(found, wanted), Elements(wanted));
    if forall x :: x in wanted ==> x in found { assert Common(found, wanted) == Elements(wanted); }
    if Common(found, wanted) == Elements(wanted) {
      forall x | x in wanted ensures x in found { assert x in Elements(wanted); }
    }
  }

  /** For results without repetition the recall lies between 0 and 1, and is 1 exactly when every one of
      the first `k` true neighbours is among the first `k` returned. */
  lemma RecallRange(retrieved: seq<nat>, truth: seq<nat>, k: nat)
    requires NoRepeats(retrieved) && NoRepeats(truth)
    ensures 0.0 <= Recall(retrieved, truth, k) <= 1.0
    ensures k == 0 || truth == [] ==> Recall(retrieved, truth, k) == 0.0
    ensures k > 0 && truth != [] ==>
      (Recall(retrieved, truth, k) == 1.0 <==>
        forall x :: x in truth[..Min(k, |truth|)] ==> x in retrieved[..Min(k, |retrieved|)])
  {
    if k > 0 && truth != [] {
      var found, wanted := retrieved[..Min(k, |retrieved|)], truth[..Min(k, |truth|)];
      DistinctHits(found, wanted);
      Quotient(Hits(found, wanted), |wanted|);
    }
  }

  lemma Quotient(h: nat, n: nat)
    requires h <= n && n > 0
    ensures 0.0 <= h as real / n as real <= 1.0
    ensures h as real / n as real == 1.0 <==> h == n
  {
  }

  /** The documented ratio divides by `k`.  The computed one agrees exactly when there are `k` true neighbours
      to find, or nothing was found. */
  lemma DocumentedRecallIff(retrieved: seq<nat>, truth: seq<nat>, k: nat)
    requires NoRepeats(retrieved) && k > 0
    ensures var common := Common(retrieved[..Min(k, |retrieved|)], truth[..Min(k, |truth|)]);
      Recall(retrieved, truth, k) == |common| as real / k as real <==> k <= |truth| || common == {}
  {
    var found, wanted := retrieved[..Min(k, |retrieved|)], truth[..Min(k, |truth|)];
    var common := Common(found, wanted);
    if truth == [] {
      assert common == {};
    } else {
      HitsAgainstIntersection(found, wanted);
      EqualQuotients(|common|, Min(k, |truth|), k);
    }
  }

  lemma EqualQuotients(h: nat, a: nat, b: nat)
    requires 0 < a <= b
    ensures h as real / a as real == h as real / b as real <==> a == b || h == 0
  {
    if 0 < h && a < b { SmallerQuotient(h, a, b); }
  }

  lemma SmallerQuotient(h: nat, a: nat, b: nat)
    requires 0 < h && 0 < a < b
    ensures h as real / a as real > h as real / b as real
  {
    var x, y := h as real / a as real, h as real / b as real;
    assert x * a as real == h as real && y * b as real == h as real;
  }

  /** Measured against itself, the ground truth has recall 1. */
  lemma TruthRecallsItself(d: seq<real>, k: nat, r: seq<nat>)
    requires IsNearest(d, k, r) && k > 0 && d != []
    ensures Recall(r, r, k) == 1.0
  {
    NearestHasNoRepeats(d, k, r);
    RecallRange(r, r, k);
  }

  // ----- Results with repetitions -----

  function Copies(x: nat, n: nat): (s: seq<nat>) { seq(n, _ => x) }

  lemma {:induction false} CopiesHit(x: nat, n: nat, wanted: seq<nat>)
    requires x in wanted
    ensures Hits(Copies(x, n), wanted) == n
    decreases n
  {
    if n > 0 {
      CopiesHit(x, n - 1, wanted);
      assert Copies(x, n)[..n - 1] == Copies(x, n - 1);
    }
  }

  /** Returning a true identifier `n` times is worth `n` hits. */
  lemma RecallOfCopies(truth: seq<nat>, k: nat, n: nat)
    requires truth != [] && 0 < n <= k
    ensures Recall(Copies(truth[0], n), truth, k) == n as real / Min(k, |truth|) as real
  {
    var found, wanted := Copies(truth[0], n), truth[..Min(k, |truth|)];
    assert found[..Min(k, |found|)] == found && wanted[0] == truth[0];
    CopiesHit(truth[0], n, wanted);
  }

  lemma QuotientAboveOne(h: nat, n: nat)
    requires 0 < n < h
    ensures h as real / n as real > 1.0
  {
  }

  /** No result whatsoever has a recall above 1 exactly when there are `k` true neighbours to compare with. */
  lemma RecallBoundedIff(truth: seq<nat>, k: nat)
    requires k > 0 && truth != []
    ensures (forall retrieved :: Recall(retrieved, truth, k) <= 1.0) <==> k <= |truth|
  {
    if k <= |truth| {
      forall retrieved ensures Recall(retrieved, truth, k) <= 1.0 {
        Quotient(Hits(retrieved[..Min(k, |retrieved|)], truth[..k]), k);
      }
    } else {
      RecallOfCopies(truth, k, k);
      QuotientAboveOne(k, |truth|);
    }
  }

  /** Every one of the first `k` true neighbours is among the first `k` returned. */
  ghost predicate Complete(retrieved: seq<nat>, truth: seq<nat>, k: nat) {
    forall x :: x in truth[..Min(k, |truth|)] ==> x in retrieved[..Min(k, |retrieved|)]
  }

  /** Recall 1 tells of every result that it is complete exactly when only one identifier is wanted: otherwise
      enough copies of one true neighbour make up for the missing ones. */
  lemma RecallOneMeansCompleteIff(truth: seq<nat>, k: nat)
    requires k > 0 && truth != []
    ensures (forall retrieved :: Recall(retrieved, truth, k) == 1.0 ==> Complete(retrieved, truth, k)) <==>
      forall x :: x in truth[..Min(k, |truth|)] ==> x == truth[0]
  {
    var n := Min(k, |truth|);
    if forall x :: x in truth[..n] ==> x == truth[0] {
      forall retrieved | Recall(retrieved, truth, k) == 1.0 ensures Complete(retrieved, truth, k) {
        OneHit(retrieved[..Min(k, |retrieved|)], truth[..n]);
      }
    } else {
      var found := Copies(truth[0], n);
      RecallOfCopies(truth, k, n);
      Quotient(n, n);
      assert forall x :: x in found ==> x == truth[0];
      assert !Complete(found, truth, k);
    }
  }

  lemma {:induction false} OneHit(found: seq<nat>, wanted: seq<nat>)
    requires Hits(found, wanted) > 0 && wanted != [] && forall x :: x in wanted ==> x == wanted[0]
    ensures wanted[0] in found
    decreases |found|
  {
    var init := found[..|found| - 1];
    if found[|found| - 1] !in wanted { OneHit(init, wanted); }
  }

  /** Without repetitions in the ground truth that means: `k` is 1, or only one neighbour exists. */
  lemma OneWanted(truth: seq<nat>, k: nat)
    requires k > 0 && truth != [] && NoRepeats(truth)
    ensures (forall x :: x in truth[..Min(k, |truth|)] ==> x == truth[0]) <==> k == 1 || |truth| == 1
  {
    if k > 1 && |truth| > 1 {
      var wanted := truth[..Min(k, |truth|)];
      assert wanted[1] in wanted && wanted[1] != truth[0];
    }
  }

  /** One true neighbour returned twice: recall 2 if it is the only one, recall 1 although another is missing. */
  lemma RepeatedHitExceedsOne()
    ensures Recall([7, 7], [7], 2) == 2.0
    ensures Recall([7, 7], [7, 8], 2) == 1.0 && !Complete([7, 7], [7, 8], 2)
  {
    var one: seq<nat>, two: seq<nat> := [7], [7, 8];
    assert Copies(7, 2) == [7, 7];
    RecallOfCopies(one, 2, 2);
    RecallOfCopies(two, 2, 2);
    assert two[..2] == two && two[1] in two && 8 !in [7, 7][..2];
  }
}
