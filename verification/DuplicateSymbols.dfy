/** Duplicate declarations, within one file and across the files of a crate.  Groups are visited in hash-map
    order, which the model leaves open; the report does not depend on it. */
module DuplicateSymbols {
  import opened Basics
  import opened BraceScanner
  import opened Text

  // ----- Order -----

  /** Paths compare character by character. */
  predicate StringLess(s: string, t: string) {
    if t == [] then false
    else if s == [] then true
    else s[0] < t[0] || (s[0] == t[0] && StringLess(s[1..], t[1..]))
  }

  lemma {:induction false} StringLessTransitive(s: string, t: string, u: string)
    requires StringLess(s, t) && StringLess(t, u)
    ensures StringLess(s, u)
    decreases |s|
  {
    if s != [] && s[0] == t[0] == u[0] { StringLessTransitive(s[1..], t[1..], u[1..]); }
  }

  lemma {:induction false} StringLessTotal(s: string, t: string)
    ensures s == t || StringLess(s, t) || StringLess(t, s)
    decreases |s|
  {
    if s != [] && t != [] && s[0] == t[0] {
      StringLessTotal(s[1..], t[1..]);
      assert s == [s[0]] + s[1..] && t == [t[0]] + t[1..];
    }
  }

  lemma {:induction false} StringLessIrreflexive(s: string)
    ensures !StringLess(s, s)
    decreases |s|
  {
    if s != [] { StringLessIrreflexive(s[1..]); }
  }

  /** The strings agree before `k`, and there the first one has the smaller character. */
  predicate SmallerAt(s: string, t: string, k: int) {
    0 <= k < |s| && k < |t| && (forall i :: 0 <= i < k ==> s[i] == t[i]) && s[k] < t[k]
  }

  lemma SmallerBehind(s: string, t: string, k: int)
    requires s != [] && t != [] && s[0] == t[0]
    ensures SmallerAt(s, t, k + 1) <==> SmallerAt(s[1..], t[1..], k)
  {
    if 0 <= k < |s| - 1 && k < |t| - 1 {
      assert forall i :: 0 <= i < k ==> s[1..][i] == s[i + 1] && t[1..][i] == t[i + 1];
      assert forall i :: 0 < i <= k ==> s[i] == s[1..][i - 1] && t[i] == t[1..][i - 1];
    }
  }

  /** The order of strings: the first difference decides, and a proper prefix comes first. */
  lemma {:induction false} StringLessIff(s: string, t: string)
    ensures StringLess(s, t) <==> s < t || exists k :: SmallerAt(s, t, k)
    decreases |s|
  {
    if s != [] && t != [] {
      if s[0] == t[0] {
        StringLessIff(s[1..], t[1..]);
        forall k ensures SmallerAt(s, t, k + 1) <==> SmallerAt(s[1..], t[1..], k) { SmallerBehind(s, t, k); }
        assert forall k :: SmallerAt(s, t, k) ==> SmallerAt(s[1..], t[1..], k - 1);
        assert s < t <==> s[1..] < t[1..];
      } else {
        assert SmallerAt(s, t, 0) <==> s[0] < t[0];
      }
    }
  }

  predicate Precedes(a: Place, b: Place) {
    StringLess(a.file, b.file) || (a.file == b.file && a.line < b.line)
  }

  lemma PrecedesTransitive(a: Place, b: Place, c: Place)
    requires Precedes(a, b) && Precedes(b, c)
    ensures Precedes(a, c)
  {
    if StringLess(a.file, b.file) && StringLess(b.file, c.file) { StringLessTransitive(a.file, b.file, c.file); }
  }

  lemma PrecedesTotal(a: Place, b: Place)
    ensures a == b || Precedes(a, b) || Precedes(b, a)
    ensures !Precedes(a, a)
  {
    StringLessTotal(a.file, b.file);
    StringLessIrreflexive(a.file);
  }

  /** A finding: the kind and name declared twice, where first and where again. */
  datatype Record = Record(kind: string, name: string, first: Place, duplicate: Place)

  /** The sort key: file, first line, duplicate file, duplicate line. */
  predicate RecordLess(a: Record, b: Record) {
    Precedes(a.first, b.first) || (a.first == b.first && Precedes(a.duplicate, b.duplicate))
  }

  predicate DeclLess(a: Decl, b: Decl) { Precedes(a.place, b.place) }

  // ----- Sorting, for any order -----

  ghost predicate StrictOrder<T(!new)>(less: (T, T) -> bool) {
    && (forall a, b, c :: less(a, b) && less(b, c) ==> less(a, c))
    && forall a :: !less(a, a)
  }

  lemma DeclOrder()
    ensures StrictOrder(DeclLess)
  {
    forall a: Decl, b: Decl, c: Decl | DeclLess(a, b) && DeclLess(b, c) ensures DeclLess(a, c) {
      PrecedesTransitive(a.place, b.place, c.place);
    }
    forall a: Decl ensures !DeclLess(a, a) { PrecedesTotal(a.place, a.place); }
  }

  lemma RecordOrder()
    ensures StrictOrder(RecordLess)
  {
    forall a: Record, b: Record, c: Record | RecordLess(a, b) && RecordLess(b, c) ensures RecordLess(a, c) {
      if Precedes(a.first, b.first) && Precedes(b.first, c.first) { PrecedesTransitive(a.first, b.first, c.first); }
      if Precedes(a.duplicate, b.duplicate) && Precedes(b.duplicate, c.duplicate) {
        PrecedesTransitive(a.duplicate, b.duplicate, c.duplicate);
      }
    }
    forall a: Record ensures !RecordLess(a, a) {
      PrecedesTotal(a.first, a.first);
      PrecedesTotal(a.duplicate, a.duplicate);
    }
  }

  ghost predicate Sorted<T>(s: seq<T>, less: (T, T) -> bool) {
    forall i, j :: 0 <= i < j < |s| ==> less(s[i], s[j])
  }

  /** Any two elements are ordered one way or the other, so there are no ties. */
  ghost predicate NoTies<T>(s: seq<T>, less: (T, T) -> bool) {
    forall i, j :: 0 <= i < j < |s| ==> less(s[i], s[j]) || less(s[j], s[i])
  }

  method SortBy<T(!new)>(s: seq<T>, less: (T, T) -> bool) returns (r: seq<T>)
    requires StrictOrder(less) && NoTies(s, less)
    ensures Sorted(r, less) && |r| == |s|
    ensures forall x :: x in r <==> x in s
  {
    r := [];
    for n := 0 to |s|
      invariant |r| == n && Sorted(r, less)
      invariant forall x :: x in r <==> x in s[..n]
    {
      assert forall x :: x in r ==> less(x, s[n]) || less(s[n], x);
      r := InsertSorted(r, s[n], less);
      assert s[..n + 1] == s[..n] + [s[n]];
    }
    assert s[..|s|] == s;
  }

  method InsertSorted<T(!new)>(s: seq<T>, e: T, less: (T, T) -> bool) returns (r: seq<T>)
    requires StrictOrder(less) && Sorted(s, less) && forall x :: x in s ==> less(x, e) || less(e, x)
    ensures Sorted(r, less) && |r| == |s| + 1
    ensures forall x :: x in r <==> x in s || x == e
  {
    var p := |s|;
    while p > 0 && less(e, s[p - 1])
      invariant 0 <= p <= |s|
      invariant forall i :: p <= i < |s| ==> less(e, s[i])
    {
      p := p - 1;
    }
    r := s[..p] + [e] + s[p..];
    InsertedIsSorted(s, p, e, less);
    assert s == s[..p] + s[p..];
  }

  lemma InsertedIsSorted<T(!new)>(s: seq<T>, p: nat, e: T, less: (T, T) -> bool)
    requires StrictOrder(less) && Sorted(s, less) && p <= |s| && forall x :: x in s ==> less(x, e) || less(e, x)
    requires p > 0 ==> !less(e, s[p - 1])
    requires forall i :: p <= i < |s| ==> less(e, s[i])
    ensures Sorted(s[..p] + [e] + s[p..], less)
  {
    var r := s[..p] + [e] + s[p..];
    assert forall i :: 0 <= i < |r| ==> r[i] == if i < p then s[i] else if i == p then e else s[i - 1];
    forall i | 0 <= i < p ensures less(s[i], e) {
      assert s[p - 1] in s;
      if i < p - 1 { assert less(s[i], s[p - 1]); }
    }
  }

  lemma HasElement<T>(s: seq<T>)
    requires s != []
    ensures exists x :: x in s
  {
    assert s[0] in s;
  }

  /** Two sorted lists with the same elements are the same list. */
  lemma {:induction false} SortedIsUnique<T(!new)>(a: seq<T>, b: seq<T>, less: (T, T) -> bool)
    requires StrictOrder(less) && Sorted(a, less) && Sorted(b, less) && forall x :: x in a <==> x in b
    ensures a == b
    decreases |a|
  {
    if a == [] {
      if b != [] { HasElement(b); }
    } else {
      assert a[0] in b;
      SameHead(a, b, less);
      TailsAgree(a, b, less);
      SortedIsUnique(a[1..], b[1..], less);
      assert a == [a[0]] + a[1..] && b == [b[0]] + b[1..];
    }
  }

  lemma SameHead<T(!new)>(a: seq<T>, b: seq<T>, less: (T, T) -> bool)
    requires StrictOrder(less) && Sorted(a, less) && Sorted(b, less) && a != [] && b != []
    requires forall x :: x in a <==> x in b
    ensures a[0] == b[0]
  {
    assert a[0] in b && b[0] in a;
    var i :| 0 <= i < |a| && a[i] == b[0];
    var j :| 0 <= j < |b| && b[j] == a[0];
  }

  lemma TailsAgree<T(!new)>(a: seq<T>, b: seq<T>, less: (T, T) -> bool)
    requires StrictOrder(less) && Sorted(a, less) && Sorted(b, less) && a != [] && b != [] && a[0] == b[0]
    requires forall x :: x in a <==> x in b
    ensures forall x :: x in a[1..] <==> x in b[1..]
  {
    TailOf(a, less);
    TailOf(b, less);
  }

  lemma TailOf<T(!new)>(a: seq<T>, less: (T, T) -> bool)
    requires StrictOrder(less) && Sorted(a, less) && a != []
    ensures forall x :: x in a[1..] <==> x in a && x != a[0]
  {
    assert a == [a[0]] + a[1..];
    forall x | x in a[1..] ensures x != a[0] {
      var i :| 0 <= i < |a[1..]| && a[1..][i] == x;
      assert less(a[0], a[i + 1]);
    }
  }

  // ----- What is to be reported -----

  predicate DistinctPlaces(all: set<Decl>) {
    forall d, e :: d in all && e in all && d.place == e.place ==> d == e
  }

  /** `a` is the first declaration of its symbol. */
  predicate IsFirst(all: set<Decl>, a: Decl) {
    a in all && forall e :: e in all && e.symbol == a.symbol ==> e == a || DeclLess(a, e)
  }

  /** Across files only a repetition in another file counts. */
  predicate Reported(across: bool, a: Decl, b: Decl) { across ==> a.place.file != b.place.file }

  /** `b` repeats the first declaration `a`. */
  predicate Repeats(all: set<Decl>, across: bool, a: Decl, b: Decl) {
    IsFirst(all, a) && b in all && b.symbol == a.symbol && b != a && Reported(across, a, b)
  }

  function RecordOf(a: Decl, b: Decl): Record { Record(a.symbol.kind, a.symbol.name, a.place, b.place) }

  ghost predicate IsRecord(all: set<Decl>, across: bool, r: Record) {
    exists a, b :: Repeats(all, across, a, b) && r == RecordOf(a, b)
  }

  /** The report: exactly the records, sorted by key. */
  ghost predicate IsReport(all: set<Decl>, across: bool, out: seq<Record>) {
    Sorted(out, RecordLess) && forall r :: r in out <==> IsRecord(all, across, r)
  }

  /** `a` and `b` declare the same kind and name under the same attribute, `a` at the earliest such place, and `r`
      says so; across files the two files differ. */
  ghost predicate Tells(all: set<Decl>, across: bool, a: Decl, b: Decl, r: Record) {
    && a in all && b in all && a != b && a.symbol == b.symbol
    && r.kind == a.symbol.kind && r.name == a.symbol.name && r.first == a.place && r.duplicate == b.place
    && (across ==> r.first.file != r.duplicate.file)
    && forall e :: e in all && e.symbol == a.symbol && e != a ==>
         StringLess(r.first.file, e.place.file) || (r.first.file == e.place.file && r.first.line < e.place.line)
  }

  lemma RepeatsTells(all: set<Decl>, across: bool, a: Decl, b: Decl, r: Record)
    ensures Repeats(all, across, a, b) && r == RecordOf(a, b) <==> Tells(all, across, a, b, r)
  {
    if Tells(all, across, a, b, r) { assert IsFirst(all, a); }
  }

  /** A report lists exactly the repetitions. */
  lemma ReportMeaning(all: set<Decl>, across: bool, out: seq<Record>, r: Record)
    requires IsReport(all, across, out)
    ensures r in out <==> exists a, b :: Tells(all, across, a, b, r)
  {
    forall a, b ensures Repeats(all, across, a, b) && r == RecordOf(a, b) <==> Tells(all, across, a, b, r) {
      RepeatsTells(all, across, a, b, r);
    }
    assert r in out <==> IsRecord(all, across, r);
  }

  /** A report is in the order of first file, first line, duplicate file and duplicate line. */
  lemma ReportOrder(all: set<Decl>, across: bool, out: seq<Record>, i: int, j: int)
    requires IsReport(all, across, out) && 0 <= i < j < |out|
    ensures var x, y := out[i], out[j];
      || StringLess(x.first.file, y.first.file)
      || (x.first.file == y.first.file && x.first.line < y.first.line)
      || (x.first == y.first && StringLess(x.duplicate.file, y.duplicate.file))
      || (x.first == y.first && x.duplicate.file == y.duplicate.file && x.duplicate.line < y.duplicate.line)
  {
    assert RecordLess(out[i], out[j]);
  }

  /** The declarations determine the report, whatever the order in which groups were visited. */
  lemma ReportIsUnique(all: set<Decl>, across: bool, x: seq<Record>, y: seq<Record>)
    requires IsReport(all, across, x) && IsReport(all, across, y)
    ensures x == y
  {
    RecordOrder();
    SortedIsUnique(x, y, RecordLess);
  }

  // ----- Grouping -----

  function Select<K(==)>(ds: seq<Decl>, key: Decl -> K, k: K): (r: seq<Decl>)
    ensures forall d :: d in r <==> d in ds && key(d) == k
  {
    if ds == [] then []
    else
      var last := ds[|ds| - 1];
      assert ds == ds[..|ds| - 1] + [last];
      Select(ds[..|ds| - 1], key, k) + if key(last) == k then [last] else []
  }

  lemma {:induction false} SelectSorted<K>(ds: seq<Decl>, key: Decl -> K, k: K)
    requires Sorted(ds, DeclLess)
    ensures Sorted(Select(ds, key, k), DeclLess)
    decreases |ds|
  {
    if ds != [] {
      var init, last := ds[..|ds| - 1], ds[|ds| - 1];
      SelectSorted(init, key, k);
      forall d | d in Select(init, key, k) ensures DeclLess(d, last) {
        var i :| 0 <= i < |init| && init[i] == d;
        assert DeclLess(ds[i], ds[|ds| - 1]);
      }
      var s := Select(init, key, k);
      assert forall i :: 0 <= i < |s| ==> s[i] in s;
    }
  }

  lemma {:induction false} SelectDistinct<K>(ds: seq<Decl>, key: Decl -> K, k: K)
    requires NoTies(ds, DeclLess)
    ensures NoTies(Select(ds, key, k), DeclLess)
    decreases |ds|
  {
    if ds != [] {
      var init, last := ds[..|ds| - 1], ds[|ds| - 1];
      SelectDistinct(init, key, k);
      var s := Select(init, key, k);
      forall i | 0 <= i < |s| ensures DeclLess(s[i], last) || DeclLess(last, s[i]) {
        assert s[i] in init;
        var j :| 0 <= j < |init| && init[j] == s[i];
        assert ds[j] == s[i];
      }
    }
  }

  function At<K>(groups: map<K, seq<Decl>>, k: K): seq<Decl> { if k in groups then groups[k] else [] }

  /** Each key that occurs is mapped to its declarations in the order found. */
  ghost predicate IsGrouping<K(!new)>(ds: seq<Decl>, key: Decl -> K, groups: map<K, seq<Decl>>) {
    && (forall k :: At(groups, k) == Select(ds, key, k))
    && forall k :: k in groups ==> groups[k] != []
  }

  method GroupBy<K(==, !new)>(ds: seq<Decl>, key: Decl -> K) returns (groups: map<K, seq<Decl>>)
    ensures IsGrouping(ds, key, groups)
  {
    groups := map[];
    for i := 0 to |ds|
      invariant IsGrouping(ds[..i], key, groups)
    {
      var k := key(ds[i]);
      assert ds[..i + 1] == ds[..i] + [ds[i]];
      GroupingStep(ds[..i], ds[i], key, groups);
      groups := groups[k := At(groups, k) + [ds[i]]];
    }
    assert ds[..|ds|] == ds;
  }

  lemma GroupingStep<K(!new)>(ds: seq<Decl>, d: Decl, key: Decl -> K, groups: map<K, seq<Decl>>)
    requires IsGrouping(ds, key, groups)
    ensures IsGrouping(ds + [d], key, groups[key(d) := At(groups, key(d)) + [d]])
  {
    var after := groups[key(d) := At(groups, key(d)) + [d]];
    forall k ensures At(after, k) == Select(ds + [d], key, k) { SelectSnoc(ds, d, key, k); }
  }

  lemma SelectSnoc<K>(ds: seq<Decl>, d: Decl, key: Decl -> K, k: K)
    ensures Select(ds + [d], key, k) == Select(ds, key, k) + if key(d) == k then [d] else []
  {
    assert (ds + [d])[..|ds|] == ds;
  }

  // ----- Reporting -----

  function All(ds: seq<Decl>): set<Decl> { set d | d in ds }

  predicate DistinctDuplicates(recs: seq<Record>) {
    forall i, j :: 0 <= i < j < |recs| ==> recs[i].duplicate != recs[j].duplicate
  }

  /** The records of one group: every later member against the first, once each. */
  ghost predicate RecordsOf(all: set<Decl>, across: bool, recs: seq<Record>) {
    DistinctDuplicates(recs) && forall r :: r in recs <==> IsRecord(all, across, r)
  }

  /** `recs` reports the members before `n` against the first. */
  ghost predicate Against(ordered: seq<Decl>, across: bool, n: nat, recs: seq<Record>)
    requires 0 < n <= |ordered|
  {
    && DistinctDuplicates(recs)
    && forall r :: r in recs <==>
         exists j :: 1 <= j < n && Reported(across, ordered[0], ordered[j]) && r == RecordOf(ordered[0], ordered[j])
  }

  lemma AgainstStep(ordered: seq<Decl>, across: bool, n: nat, recs: seq<Record>)
    requires 0 < n < |ordered| && Sorted(ordered, DeclLess) && Against(ordered, across, n, recs)
    ensures Against(ordered, across, n + 1,
      recs + if Reported(across, ordered[0], ordered[n]) then [RecordOf(ordered[0], ordered[n])] else [])
  {
    forall i | 0 <= i < |recs| ensures recs[i].duplicate != ordered[n].place {
      assert recs[i] in recs;
      var j :| 1 <= j < n && Reported(across, ordered[0], ordered[j]) && recs[i] == RecordOf(ordered[0], ordered[j]);
      assert DeclLess(ordered[j], ordered[n]);
      PrecedesTotal(ordered[n].place, ordered[n].place);
    }
  }

  lemma AgainstAll(ordered: seq<Decl>, across: bool, recs: seq<Record>)
    requires ordered != [] && Sorted(ordered, DeclLess) && Against(ordered, across, |ordered|, recs)
    requires forall d :: d in ordered ==> d.symbol == ordered[0].symbol
    ensures RecordsOf(All(ordered), across, recs)
  {
    var all, first := All(ordered), ordered[0];
    DeclOrder();
    assert IsFirst(all, first);
    forall r ensures r in recs <==> IsRecord(all, across, r) {
      if r in recs {
        var j :| 1 <= j < |ordered| && Reported(across, first, ordered[j]) && r == RecordOf(first, ordered[j]);
        assert DeclLess(first, ordered[j]);
        assert Repeats(all, across, first, ordered[j]);
      }
      if IsRecord(all, across, r) {
        var a, b :| Repeats(all, across, a, b) && r == RecordOf(a, b);
        FirstIsUnique(all, a, first);
        var j :| 0 <= j < |ordered| && ordered[j] == b;
        assert j != 0;
      }
    }
  }

  lemma FirstIsUnique(all: set<Decl>, a: Decl, b: Decl)
    requires IsFirst(all, a) && IsFirst(all, b) && a.symbol == b.symbol
    ensures a == b
  {
    DeclOrder();
    assert !(DeclLess(a, b) && DeclLess(b, a)) by {
      if DeclLess(a, b) && DeclLess(b, a) { PrecedesTransitive(a.place, b.place, a.place); }
    }
  }

  method GroupRecords(group: seq<Decl>, across: bool) returns (recs: seq<Record>)
    requires group != [] && forall d :: d in group ==> d.symbol == group[0].symbol
    requires NoTies(group, DeclLess) && (!across ==> Sorted(group, DeclLess))
    ensures RecordsOf(All(group), across, recs)
  {
    DeclOrder();
    var ordered := group;
    if across { ordered := SortBy(group, DeclLess); }
    assert ordered[0] in ordered;
    recs := [];
    for i := 1 to |ordered|
      invariant Against(ordered, across, i, recs)
    {
      AgainstStep(ordered, across, i, recs);
      recs := recs + if Reported(across, ordered[0], ordered[i]) then [RecordOf(ordered[0], ordered[i])] else [];
    }
    AgainstAll(ordered, across, recs);
    assert All(ordered) == All(group);
  }

  function NameOf(d: Decl): (string, string) { (d.symbol.kind, d.symbol.name) }

  function CfgOf(d: Decl): Option<string> { d.symbol.cfg }

  /** `recs` holds the records of every symbol that is not left. */
  ghost predicate Covers(all: set<Decl>, across: bool, left: set<Symbol>, recs: seq<Record>) {
    && DistinctDuplicates(recs)
    && forall r :: r in recs <==>
         exists a, b :: Repeats(all, across, a, b) && a.symbol !in left && r == RecordOf(a, b)
  }

  /** The declarations of one symbol. */
  function GroupOf(all: set<Decl>, s: Symbol): set<Decl> { set d | d in all && d.symbol == s }

  /** First and repetition are decided within the group. */
  lemma GroupDecides(all: set<Decl>, across: bool, a: Decl, b: Decl)
    ensures Repeats(all, across, a, b) <==> Repeats(GroupOf(all, a.symbol), across, a, b)
  {
  }

  lemma CoversStep(all: set<Decl>, across: bool, left: set<Symbol>, recs: seq<Record>, s: Symbol, more: seq<Record>)
    requires DistinctPlaces(all) && Covers(all, across, left, recs) && s in left
    requires RecordsOf(GroupOf(all, s), across, more)
    ensures Covers(all, across, left - {s}, recs + more)
  {
    forall r ensures r in more <==> exists a, b :: Repeats(all, across, a, b) && a.symbol == s && r == RecordOf(a, b) {
      GroupRecord(all, across, s, r);
    }
    forall i, j | 0 <= i < |recs| && 0 <= j < |more| ensures recs[i].duplicate != more[j].duplicate {
      assert recs[i] in recs && more[j] in more;
    }
  }

  lemma GroupRecord(all: set<Decl>, across: bool, s: Symbol, r: Record)
    ensures IsRecord(GroupOf(all, s), across, r) <==>
      exists a, b :: Repeats(all, across, a, b) && a.symbol == s && r == RecordOf(a, b)
  {
    if IsRecord(GroupOf(all, s), across, r) {
      var a, b :| Repeats(GroupOf(all, s), across, a, b) && r == RecordOf(a, b);
      GroupDecides(all, across, a, b);
    }
    if exists a, b :: Repeats(all, across, a, b) && a.symbol == s && r == RecordOf(a, b) {
      var a, b :| Repeats(all, across, a, b) && a.symbol == s && r == RecordOf(a, b);
      GroupDecides(all, across, a, b);
    }
  }

  lemma SingleGroup(d: Decl, across: bool)
    ensures RecordsOf(All([d]), across, [])
  {
    forall r ensures !IsRecord(All([d]), across, r) {
    }
  }

  /** `occ` holds the declarations of one name, in an order fit for the report. */
  ghost predicate Occurrences(all: set<Decl>, name: (string, string), across: bool, occ: seq<Decl>) {
    && (forall d :: d in occ <==> d in all && NameOf(d) == name)
    && NoTies(occ, DeclLess) && (!across ==> Sorted(occ, DeclLess))
  }

  function Named(name: (string, string), cfg: Option<string>): Symbol { Symbol(name.0, name.1, cfg) }

  /** One group that shares name and attribute. */
  method CfgRecords(ghost all: set<Decl>, name: (string, string), cfg: Option<string>, across: bool, group: seq<Decl>)
    returns (recs: seq<Record>)
    requires group != [] && All(group) == GroupOf(all, Named(name, cfg))
    requires NoTies(group, DeclLess) && (!across ==> Sorted(group, DeclLess))
    ensures RecordsOf(GroupOf(all, Named(name, cfg)), across, recs)
  {
    recs := [];
    forall d | d in group ensures d.symbol == Named(name, cfg) { assert d in All(group); }
    if |group| > 1 {
      assert group[0] in group;
      recs := GroupRecords(group, across);
    } else {
      assert group == [group[0]];
      SingleGroup(group[0], across);
    }
  }

  function WithCfgs(name: (string, string), cfgs: set<Option<string>>): set<Symbol> {
    set c | c in cfgs :: Named(name, c)
  }

  function SymbolsOf(ds: seq<Decl>): set<Symbol> { set d | d in ds :: d.symbol }

  /** All groups of one name, in any order. */
  method NameRecords(ghost all: set<Decl>, name: (string, string), across: bool, occ: seq<Decl>,
                     ghost left: set<Symbol>, before: seq<Record>)
    returns (recs: seq<Record>)
    requires DistinctPlaces(all) && Occurrences(all, name, across, occ) && occ != []
    requires Covers(all, across, left, before) && SymbolsOf(occ) <= left
    ensures Covers(all, across, left - SymbolsOf(occ), recs)
  {
    recs := before;
    if |occ| > 1 {
      var groups := GroupBy(occ, CfgOf);
      var cfgs := groups.Keys;
      ghost var rest := left;
      NameSymbols(name, occ, groups);
      while cfgs != {}
        invariant cfgs <= groups.Keys && WithCfgs(name, cfgs) <= rest
        invariant rest - WithCfgs(name, cfgs) == left - SymbolsOf(occ)
        invariant Covers(all, across, rest, recs)
        decreases |cfgs|
      {
        var c :| c in cfgs;
        CfgGroup(all, name, across, occ, groups, c);
        var more := CfgRecords(all, name, c, across, groups[c]);
        assert Named(name, c) in WithCfgs(name, cfgs);
        CoversStep(all, across, rest, recs, Named(name, c), more);
        rest := rest - {Named(name, c)};
        cfgs := cfgs - {c};
        recs := recs + more;
      }
    } else {
      var d := occ[0];
      assert occ == [d];
      OnlyDecl(all, name, across, occ);
      SingleGroup(d, across);
      CoversStep(all, across, left, recs, d.symbol, []);
      assert recs + [] == recs;
    }
  }

  lemma OnlyDecl(all: set<Decl>, name: (string, string), across: bool, occ: seq<Decl>)
    requires Occurrences(all, name, across, occ) && |occ| == 1
    ensures GroupOf(all, occ[0].symbol) == All([occ[0]]) && SymbolsOf(occ) == {occ[0].symbol}
  {
    assert occ[0] in occ;
    forall d | d in GroupOf(all, occ[0].symbol) ensures d in occ { assert NameOf(d) == NameOf(occ[0]); }
  }

  lemma NameSymbols(name: (string, string), occ: seq<Decl>, groups: map<Option<string>, seq<Decl>>)
    requires IsGrouping(occ, CfgOf, groups) && forall d :: d in occ ==> NameOf(d) == name
    ensures WithCfgs(name, groups.Keys) == SymbolsOf(occ)
  {
    forall d | d in occ ensures d.symbol in WithCfgs(name, groups.Keys) {
      assert d in Select(occ, CfgOf, CfgOf(d)) && At(groups, CfgOf(d)) == Select(occ, CfgOf, CfgOf(d));
      assert d.symbol == Named(name, CfgOf(d));
    }
    forall c | c in groups ensures Named(name, c) in SymbolsOf(occ) {
      assert At(groups, c) == Select(occ, CfgOf, c);
      var d := groups[c][0];
      assert d in groups[c];
      assert d in occ && d.symbol == Named(name, c);
    }
  }

  lemma CfgGroup(all: set<Decl>, name: (string, string), across: bool, occ: seq<Decl>,
                 groups: map<Option<string>, seq<Decl>>, c: Option<string>)
    requires Occurrences(all, name, across, occ) && IsGrouping(occ, CfgOf, groups) && c in groups
    ensures groups[c] != [] && All(groups[c]) == GroupOf(all, Named(name, c))
    ensures NoTies(groups[c], DeclLess) && (!across ==> Sorted(groups[c], DeclLess))
  {
    assert At(groups, c) == Select(occ, CfgOf, c);
    SelectDistinct(occ, CfgOf, c);
    if !across { SelectSorted(occ, CfgOf, c); }
    forall d ensures d in groups[c] <==> d in GroupOf(all, Named(name, c)) {
    }
  }

  function SymbolsNamed(ds: seq<Decl>, names: set<(string, string)>): set<Symbol> {
    set d | d in ds && NameOf(d) in names :: d.symbol
  }

  /** Groups by name, then by attribute, visited in any order; the records are sorted at the end. */
  method Report(ds: seq<Decl>, across: bool) returns (out: seq<Record>)
    requires NoTies(ds, DeclLess) && (!across ==> Sorted(ds, DeclLess))
    ensures IsReport(All(ds), across, out)
  {
    var groups := GroupBy(ds, NameOf);
    var names := groups.Keys;
    var recs: seq<Record> := [];
    ghost var all := All(ds);
    ghost var left := SymbolsNamed(ds, names);
    PlacesDiffer(ds);
    StartUncovered(ds, across, groups);
    while names != {}
      invariant names <= groups.Keys && left == SymbolsNamed(ds, names)
      invariant Covers(all, across, left, recs)
      decreases |names|
    {
      var name :| name in names;
      NameGroup(ds, across, groups, names, name);
      recs := NameRecords(all, name, across, groups[name], left, recs);
      left := left - SymbolsOf(groups[name]);
      names := names - {name};
    }
    KeysDiffer(recs);
    RecordOrder();
    out := SortBy(recs, RecordLess);
  }

  lemma PlacesDiffer(ds: seq<Decl>)
    requires NoTies(ds, DeclLess)
    ensures DistinctPlaces(All(ds))
  {
    forall d, e | d in All(ds) && e in All(ds) && d.place == e.place ensures d == e {
      var i :| 0 <= i < |ds| && ds[i] == d;
      var j :| 0 <= j < |ds| && ds[j] == e;
      PrecedesTotal(d.place, d.place);
    }
  }

  lemma StartUncovered(ds: seq<Decl>, across: bool, groups: map<(string, string), seq<Decl>>)
    requires IsGrouping(ds, NameOf, groups)
    ensures Covers(All(ds), across, SymbolsNamed(ds, groups.Keys), [])
  {
    forall d | d in ds ensures d.symbol in SymbolsNamed(ds, groups.Keys) {
      assert d in Select(ds, NameOf, NameOf(d)) && At(groups, NameOf(d)) == Select(ds, NameOf, NameOf(d));
    }
  }

  lemma NameGroup(ds: seq<Decl>, across: bool, groups: map<(string, string), seq<Decl>>,
                  names: set<(string, string)>, name: (string, string))
    requires IsGrouping(ds, NameOf, groups) && name in names && names <= groups.Keys
    requires NoTies(ds, DeclLess) && (!across ==> Sorted(ds, DeclLess))
    ensures groups[name] != [] && Occurrences(All(ds), name, across, groups[name])
    ensures SymbolsOf(groups[name]) <= SymbolsNamed(ds, names)
    ensures SymbolsNamed(ds, names) - SymbolsOf(groups[name]) == SymbolsNamed(ds, names - {name})
  {
    assert At(groups, name) == Select(ds, NameOf, name);
    SelectDistinct(ds, NameOf, name);
    if !across { SelectSorted(ds, NameOf, name); }
  }

  /** No two records share a sort key. */
  lemma KeysDiffer(recs: seq<Record>)
    requires DistinctDuplicates(recs)
    ensures NoTies(recs, RecordLess)
  {
    forall i, j | 0 <= i < j < |recs| ensures RecordLess(recs[i], recs[j]) || RecordLess(recs[j], recs[i]) {
      PrecedesTotal(recs[i].first, recs[j].first);
      PrecedesTotal(recs[i].duplicate, recs[j].duplicate);
    }
  }

  // ----- Each group of n declarations gives n - 1 records -----

  /** The records against one first declaration. */
  function RecordsAgainst(out: seq<Record>, a: Decl): set<Record> { set r | r in out && r.first == a.place }

  lemma GroupGivesAllButFirst(all: set<Decl>, out: seq<Record>, a: Decl)
    requires DistinctPlaces(all) && IsReport(all, false, out) && IsFirst(all, a)
    ensures RecordsAgainst(out, a) == set b | b in GroupOf(all, a.symbol) - {a} :: RecordOf(a, b)
    ensures |RecordsAgainst(out, a)| == |GroupOf(all, a.symbol)| - 1
  {
    var later := GroupOf(all, a.symbol) - {a};
    forall r ensures r in RecordsAgainst(out, a) <==> exists b :: b in later && r == RecordOf(a, b) {
      if r in RecordsAgainst(out, a) {
        var x, y :| Repeats(all, false, x, y) && r == RecordOf(x, y);
        assert x == a && y in later;
      }
      if exists b :: b in later && r == RecordOf(a, b) {
        var b :| b in later && r == RecordOf(a, b);
        assert Repeats(all, false, a, b);
      }
    }
    ImageSize(later, a, RecordsAgainst(out, a));
    assert GroupOf(all, a.symbol) == later + {a};
  }

  lemma {:induction false} ImageSize(later: set<Decl>, a: Decl, image: set<Record>)
    requires DistinctPlaces(later) && forall r :: r in image <==> exists b :: b in later && r == RecordOf(a, b)
    ensures |image| == |later|
    decreases |later|
  {
    if later == {} {
      assert image == {};
    } else {
      var b :| b in later;
      assert RecordOf(a, b) in image;
      ImageSize(later - {b}, a, image - {RecordOf(a, b)});
    }
  }

  /** Comparing with the first declaration only loses no group: one that spans two files is reported. */
  lemma SpanningGroupIsReported(all: set<Decl>, a: Decl)
    requires IsFirst(all, a)
    ensures (exists b :: Repeats(all, true, a, b)) <==>
      exists b, c :: b in GroupOf(all, a.symbol) && c in GroupOf(all, a.symbol) && b.place.file != c.place.file
  {
    if exists b, c :: b in GroupOf(all, a.symbol) && c in GroupOf(all, a.symbol) && b.place.file != c.place.file {
      var b, c :| b in GroupOf(all, a.symbol) && c in GroupOf(all, a.symbol) && b.place.file != c.place.file;
      assert Repeats(all, true, a, b) || Repeats(all, true, a, c);
    }
    if exists b :: Repeats(all, true, a, b) {
      var b :| Repeats(all, true, a, b);
      assert a in GroupOf(all, a.symbol) && b in GroupOf(all, a.symbol);
    }
  }

  // ----- The two scans -----

  /** `all` is what the file declares. */
  ghost predicate DeclaredBy(file: string, lines: seq<string>, pattern: Pattern, all: set<Decl>) {
    forall d :: d in all <==> Declares(file, lines, pattern, d)
  }

  method ScanFileForDuplicates(file: string, lines: seq<string>, pattern: Pattern) returns (out: seq<Record>)
    ensures forall all :: DeclaredBy(file, lines, pattern, all) ==> IsReport(all, false, out)
    ensures exists all :: DeclaredBy(file, lines, pattern, all)
  {
    var ds := ScanFile(file, lines, pattern);
    ListsMembers(file, lines, pattern, |lines|, ds);
    out := Report(ds, false);
    assert DeclaredBy(file, lines, pattern, All(ds));
    forall all | DeclaredBy(file, lines, pattern, all) ensures all == All(ds) {
      forall d ensures d in all <==> d in All(ds) { assert d in ds <==> Declares(file, lines, pattern, d); }
    }
  }

  type SourceFile = (string, seq<string>)

  ghost predicate DeclaredInCrate(files: seq<SourceFile>, pattern: Pattern, d: Decl) {
    exists i :: 0 <= i < |files| && Declares(files[i].0, files[i].1, pattern, d)
  }

  ghost predicate DeclaredByCrate(files: seq<SourceFile>, pattern: Pattern, all: set<Decl>) {
    forall d :: d in all <==> DeclaredInCrate(files, pattern, d)
  }

  /** The files come in the order of the directory walk, each path once. */
  method ScanCrateForDuplicates(files: seq<SourceFile>, pattern: Pattern) returns (out: seq<Record>)
    requires forall i, j :: 0 <= i < j < |files| ==> files[i].0 != files[j].0
    ensures forall all :: DeclaredByCrate(files, pattern, all) ==> IsReport(all, true, out)
    ensures exists all :: DeclaredByCrate(files, pattern, all)
  {
    var ds: seq<Decl> := [];
    for n := 0 to |files|
      invariant forall d :: d in ds <==> DeclaredInCrate(files[..n], pattern, d)
      invariant NoTies(ds, DeclLess)
    {
      var more := ScanFile(files[n].0, files[n].1, pattern);
      CrateStep(files, pattern, n, ds, more);
      ds := ds + more;
    }
    assert files[..|files|] == files;
    out := Report(ds, true);
    assert DeclaredByCrate(files, pattern, All(ds));
    forall all | DeclaredByCrate(files, pattern, all) ensures all == All(ds) {
      forall d ensures d in all <==> d in All(ds) { assert d in ds <==> DeclaredInCrate(files, pattern, d); }
    }
  }

  lemma CrateStep(files: seq<SourceFile>, pattern: Pattern, n: nat, ds: seq<Decl>, more: seq<Decl>)
    requires n < |files| && forall i, j :: 0 <= i < j < |files| ==> files[i].0 != files[j].0
    requires (forall d :: d in ds <==> DeclaredInCrate(files[..n], pattern, d)) && NoTies(ds, DeclLess)
    requires Lists(files[n].0, files[n].1, pattern, |files[n].1|, more)
    ensures forall d :: d in ds + more <==> DeclaredInCrate(files[..n + 1], pattern, d)
    ensures NoTies(ds + more, DeclLess)
  {
    ListsMembers(files[n].0, files[n].1, pattern, |files[n].1|, more);
    forall d ensures d in ds + more <==> DeclaredInCrate(files[..n + 1], pattern, d) {
      CrateSnoc(files, pattern, n, d);
    }
    forall i, j | 0 <= i < |ds| && 0 <= j < |more| ensures DeclLess(ds[i], more[j]) || DeclLess(more[j], ds[i]) {
      assert ds[i] in ds;
      PrecedesTotal(ds[i].place, more[j].place);
    }
  }

  lemma CrateSnoc(files: seq<SourceFile>, pattern: Pattern, n: nat, d: Decl)
    requires n < |files|
    ensures DeclaredInCrate(files[..n + 1], pattern, d) <==>
      DeclaredInCrate(files[..n], pattern, d) || Declares(files[n].0, files[n].1, pattern, d)
  {
    var before, now := files[..n], files[..n + 1];
    assert forall i :: 0 <= i < n ==> now[i] == before[i];
    assert now[n] == files[n];
  }

  /** Walking the same files in another order gives the same report. */
  lemma WalkOrderIrrelevant(x: seq<SourceFile>, y: seq<SourceFile>, pattern: Pattern, all: set<Decl>,
                            outX: seq<Record>, outY: seq<Record>)
    requires (forall f :: f in x <==> f in y) && DeclaredByCrate(x, pattern, all) && IsReport(all, true, outX)
    requires forall a :: DeclaredByCrate(y, pattern, a) ==> IsReport(a, true, outY)
    ensures outX == outY
  {
    SameDeclarations(x, y, pattern, all);
    ReportIsUnique(all, true, outX, outY);
  }

  lemma SameDeclarations(x: seq<SourceFile>, y: seq<SourceFile>, pattern: Pattern, all: set<Decl>)
    requires (forall f :: f in x <==> f in y) && DeclaredByCrate(x, pattern, all)
    ensures DeclaredByCrate(y, pattern, all)
  {
    forall d ensures DeclaredInCrate(x, pattern, d) <==> DeclaredInCrate(y, pattern, d) {
      if DeclaredInCrate(x, pattern, d) {
        var i :| 0 <= i < |x| && Declares(x[i].0, x[i].1, pattern, d);
        assert x[i] in y;
      }
      if DeclaredInCrate(y, pattern, d) {
        var i :| 0 <= i < |y| && Declares(y[i].0, y[i].1, pattern, d);
        assert y[i] in x;
      }
    }
  }
}
