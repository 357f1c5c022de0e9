/** Substrings: occurrences, the first occurrence, containment, and trimming. */
module Text {
  import opened Basics

  predicate OccursAt(s: string, t: string, i: int) {
    0 <= i && i + |t| <= |s| && forall k :: 0 <= k < |t| ==> s[i + k] == t[k]
  }

  ghost predicate Occurs(s: string, t: string) {
    exists i :: OccursAt(s, t, i)
  }

  /** `t` occurs in `s` at `i` and nowhere before. */
  ghost predicate FirstAt(s: string, t: string, i: int) {
    OccursAt(s, t, i) && forall j :: j < i ==> !OccursAt(s, t, j)
  }

  function FindFrom(s: string, t: string, i: nat): (r: Option<nat>)
    ensures r.Some? ==> r.value + |t| <= |s|
    decreases |s| - i
  {
    if i + |t| > |s| then None
    else if OccursAt(s, t, i) then Some(i)
    else FindFrom(s, t, i + 1)
  }

  /** The first occurrence, if there is one. */
  function Find(s: string, t: string): (r: Option<nat>) { FindFrom(s, t, 0) }

  lemma {:induction false} FindFromIsFirst(s: string, t: string, i: nat)
    requires forall j :: j < i ==> !OccursAt(s, t, j)
    ensures var r := FindFrom(s, t, i); if r.Some? then FirstAt(s, t, r.value) else !Occurs(s, t)
    decreases |s| - i
  {
    if i + |t| <= |s| && !OccursAt(s, t, i) { FindFromIsFirst(s, t, i + 1); }
  }

  /** What the search finds is the first occurrence; it finds nothing only if there is none. */
  lemma FindIsFirst(s: string, t: string)
    ensures var r := Find(s, t); if r.Some? then FirstAt(s, t, r.value) else !Occurs(s, t)
  {
    FindFromIsFirst(s, t, 0);
  }

  /** Finding is determined by the first occurrence. */
  lemma FindIs(s: string, t: string, i: nat)
    requires FirstAt(s, t, i)
    ensures Find(s, t) == Some(i)
  {
    FindIsFirst(s, t);
    assert OccursAt(s, t, i);
  }

  lemma CharInOccurrence(x: string, t: string, j: int, p: int)
    requires OccursAt(x, t, j)
    ensures j <= p < j + |t| ==> x[p] == t[p - j]
  {
  }

  predicate Contains(s: string, t: string) { Find(s, t).Some? }

  lemma ContainsIffOccurs(s: string, t: string)
    ensures Contains(s, t) <==> Occurs(s, t)
  {
    FindIsFirst(s, t);
    if Contains(s, t) { assert OccursAt(s, t, Find(s, t).value); }
  }

  /** Unicode white space, as `char::is_whitespace` has it. */
  predicate IsSpace(c: char) {
    var n := c as int;
    0x9 <= n <= 0xd || n == 0x20 || n == 0x85 || n == 0xa0 || n == 0x1680 || 0x2000 <= n <= 0x200a
    || n == 0x2028 || n == 0x2029 || n == 0x202f || n == 0x205f || n == 0x3000
  }

  function TrimStart(s: string): (r: string) {
    if s != [] && IsSpace(s[0]) then TrimStart(s[1..]) else s
  }

  function TrimEnd(s: string): (r: string) {
    if s != [] && IsSpace(s[|s| - 1]) then TrimEnd(s[..|s| - 1]) else s
  }

  function Trim(s: string): (r: string) { TrimEnd(TrimStart(s)) }

  // ----- What trimming removes -----

  predicate AllSpace(s: string) { forall i :: 0 <= i < |s| ==> IsSpace(s[i]) }

  /** Neither the first nor the last character is white space. */
  predicate Trimmed(s: string) { s == [] || (!IsSpace(s[0]) && !IsSpace(s[|s| - 1])) }

  lemma {:induction false} TrimStartOf(a: string, t: string)
    requires AllSpace(a) && (t == [] || !IsSpace(t[0]))
    ensures TrimStart(a + t) == t
    decreases |a|
  {
    if a == [] {
      assert a + t == t;
    } else {
      TrimStartOf(a[1..], t);
      assert (a + t)[1..] == a[1..] + t;
    }
  }

  lemma {:induction false} TrimEndOf(t: string, b: string)
    requires AllSpace(b) && (t == [] || !IsSpace(t[|t| - 1]))
    ensures TrimEnd(t + b) == t
    decreases |b|
  {
    if b == [] {
      assert t + b == t;
    } else {
      TrimEndOf(t, b[..|b| - 1]);
      assert (t + b)[..|t + b| - 1] == t + b[..|b| - 1];
    }
  }

  /** Trimming takes away exactly the white space at both ends. */
  lemma TrimIs(a: string, t: string, b: string)
    requires AllSpace(a) && AllSpace(b) && Trimmed(t)
    ensures Trim(a + t + b) == t
  {
    if t == [] {
      TrimStartOf(a + b, []);
      assert a + t + b == a + b + [];
    } else {
      TrimStartOf(a, t + b);
      TrimEndOf(t, b);
      assert a + t + b == a + (t + b);
    }
  }

  lemma {:induction false} Leading(s: string) returns (a: string, t: string)
    ensures s == a + t && AllSpace(a) && (t == [] || !IsSpace(t[0]))
  {
    if s != [] && IsSpace(s[0]) {
      a, t := Leading(s[1..]);
      a := [s[0]] + a;
    } else {
      a, t := [], s;
    }
  }

  lemma {:induction false} Trailing(s: string) returns (t: string, b: string)
    ensures s == t + b && AllSpace(b) && (t == [] || !IsSpace(t[|t| - 1]))
  {
    if s != [] && IsSpace(s[|s| - 1]) {
      t, b := Trailing(s[..|s| - 1]);
      b := b + [s[|s| - 1]];
    } else {
      t, b := s, [];
    }
  }

  lemma TrimSplits(s: string) returns (a: string, b: string)
    ensures s == a + Trim(s) + b && AllSpace(a) && AllSpace(b) && Trimmed(Trim(s))
  {
    var u, t;
    a, u := Leading(s);
    t, b := Trailing(u);
    TrimIs(a, t, b);
    assert s == a + t + b;
  }
}
