/** The first 64 primes, from which SHA-256 takes its constants: a table, and the proof that it lists exactly
    the primes up to 311. */
module FirstPrimes {

  function Prime(t: nat): nat {
    match t
    case 0 => 2 case 1 => 3 case 2 => 5 case 3 => 7
    case 4 => 11 case 5 => 13 case 6 => 17 case 7 => 19
    case 8 => 23 case 9 => 29 case 10 => 31 case 11 => 37
    case 12 => 41 case 13 => 43 case 14 => 47 case 15 => 53
    case 16 => 59 case 17 => 61 case 18 => 67 case 19 => 71
    case 20 => 73 case 21 => 79 case 22 => 83 case 23 => 89
    case 24 => 97 case 25 => 101 case 26 => 103 case 27 => 107
    case 28 => 109 case 29 => 113 case 30 => 127 case 31 => 131
    case 32 => 137 case 33 => 139 case 34 => 149 case 35 => 151
    case 36 => 157 case 37 => 163 case 38 => 167 case 39 => 173
    case 40 => 179 case 41 => 181 case 42 => 191 case 43 => 193
    case 44 => 197 case 45 => 199 case 46 => 211 case 47 => 223
    case 48 => 227 case 49 => 229 case 50 => 233 case 51 => 239
    case 52 => 241 case 53 => 251 case 54 => 257 case 55 => 263
    case 56 => 269 case 57 => 271 case 58 => 277 case 59 => 281
    case 60 => 283 case 61 => 293 case 62 => 307 case 63 => 311
    case _ => 0
  }

  ghost predicate IsPrime(n: nat) { n >= 2 && forall d :: 2 <= d < n ==> n % d != 0 }

  /** The cofactor of a divisor divides as well. */
  lemma CofactorDivides(n: nat, d: nat, q: nat)
    requires n == d * q && q > 0
    ensures n % q == 0
  {
    var k, r := n / q, n % q;
    assert n == q * k + r;
    assert q * (d - k) == r;
    assert d - k >= 1 ==> q * (d - k) >= q;
    assert d - k <= -1 ==> q * (k - d) >= q;
  }

  lemma Cofactor(n: nat, d: nat) returns (q: nat)
    requires 2 <= d < n && n % d == 0
    ensures n == d * q && 2 <= q < n && n % q == 0
  {
    q := n / d;
    assert n == d * q;
    assert q >= 2;
    CofactorDivides(n, d, q);
  }

  /** One of the seven primes up to 17 divides `n`. */
  predicate HasSmallFactor(n: nat) {
    n % 2 == 0 || n % 3 == 0 || n % 5 == 0 || n % 7 == 0 || n % 11 == 0 || n % 13 == 0 || n % 17 == 0
  }

  lemma EvenDivisor(n: nat, a: nat)
    requires a > 0 && a % 2 == 0 && n % a == 0
    ensures n % 2 == 0
  {
    assert n == a * (n / a) == 2 * ((a / 2) * (n / a));
  }

  lemma TripleDivisor(n: nat, a: nat)
    requires a > 0 && a % 3 == 0 && n % a == 0
    ensures n % 3 == 0
  {
    assert n == a * (n / a) == 3 * ((a / 3) * (n / a));
  }

  lemma SmallDivisor(n: nat, a: nat)
    requires 2 <= a <= 18 && n % a == 0
    ensures HasSmallFactor(n)
  {
    if a % 2 == 0 {
      EvenDivisor(n, a);
    } else if a % 3 == 0 {
      TripleDivisor(n, a);
    } else {
      assert a == 5 || a == 7 || a == 11 || a == 13 || a == 17;
    }
  }

  lemma LargeFactors(a: nat, b: nat)
    requires a >= 19 && b >= 19
    ensures a * b >= 361
  {
    assert a * b == 19 * b + (a - 19) * b;
  }

  /** Below 361 the seven small primes decide. */
  lemma PrimeIff(n: nat)
    requires 17 < n < 361
    ensures IsPrime(n) <==> !HasSmallFactor(n)
  {
    if !IsPrime(n) {
      var d :| 2 <= d < n && n % d == 0;
      var q := Cofactor(n, d);
      if d > 18 && q > 18 { LargeFactors(d, q); }
      SmallDivisor(n, if d <= 18 then d else q);
    }
  }

  lemma TinyFactor(n: nat, d: nat)
    requires n <= 17 && 2 <= d < n && n % d == 0
    ensures n > 3 && (n % 2 == 0 || n % 3 == 0)
  {
    var q := Cofactor(n, d);
    if d == 4 { assert n % 4 == 0; }
    if d >= 5 { assert q <= 3; }
  }

  lemma TinyPrimes(n: nat)
    requires n <= 17
    ensures IsPrime(n) <==> n in {2, 3, 5, 7, 11, 13, 17}
  {
    if n in {2, 3, 5, 7, 11, 13, 17} {
      forall d | 2 <= d < n ensures n % d != 0 {
        if n % d == 0 { TinyFactor(n, d); }
      }
    } else if n >= 2 {
      assert n % 2 == 0 || n % 3 == 0;
    }
  }

  // ----- Any list of primes, entry by entry -----

  type List = nat -> nat

  /** `n` is one of the first `u` entries. */
  ghost predicate Among(f: List, n: nat, u: nat) { exists i: nat :: i < u && f(i) == n }

  /** The first `u` entries are the primes below `m`, in order. */
  ghost predicate ListsPrimes(f: List, m: nat, u: nat) {
    && (forall i: nat :: i < u ==> f(i) < m)
    && (forall i: nat, j: nat :: i < j < u ==> f(i) < f(j))
    && (forall n: nat :: n < m ==> (IsPrime(n) <==> Among(f, n, u)))
  }

  lemma OneMore(f: List, m: nat, u: nat)
    requires 17 < m < 361 && ListsPrimes(f, m, u) && (m == f(u) <==> !HasSmallFactor(m))
    ensures ListsPrimes(f, m + 1, if m == f(u) then u + 1 else u)
  {
    PrimeIff(m);
    var v := if m == f(u) then u + 1 else u;
    forall n: nat | n <= m ensures IsPrime(n) <==> Among(f, n, v) {
      if n < m {
        if Among(f, n, u) { var i: nat :| i < u && f(i) == n; assert Among(f, n, v); }
      } else if m == f(u) {
        assert Among(f, m, v);
      }
    }
  }

  /** Every number from `n` up to `q` has a small factor. */
  predicate AllComposite(n: nat, q: nat)
    decreases q - n
  {
    n >= q || (HasSmallFactor(n) && AllComposite(n + 1, q))
  }

  /** The first number from `n` on without a small factor is `q`. */
  predicate IsNext(n: nat, q: nat) { n <= q && AllComposite(n, q) && !HasSmallFactor(q) }

  lemma {:induction false} NextEntry(f: List, m: nat, u: nat)
    requires 17 < m <= f(u) < 361 && ListsPrimes(f, m, u) && IsNext(m, f(u))
    ensures ListsPrimes(f, f(u) + 1, u + 1)
    decreases f(u) - m
  {
    OneMore(f, m, u);
    if m < f(u) { NextEntry(f, m + 1, u); }
  }

  /** Entry `i + 1` is the next prime after entry `i`. */
  predicate Follows(f: List, i: nat) { f(i + 1) < 361 && IsNext(f(i) + 1, f(i + 1)) }

  /** The list is right up to entry `t`. */
  ghost predicate ListedTo(f: List, t: nat) { ListsPrimes(f, f(t) + 1, t + 1) && f(t) >= 17 }

  lemma OneMoreEntry(f: List, t: nat)
    requires ListedTo(f, t) && Follows(f, t)
    ensures ListedTo(f, t + 1)
  {
    NextEntry(f, f(t) + 1, t + 1);
  }

  lemma {:induction false} EntriesUpTo(f: List, t: nat)
    requires ListedTo(f, 6) && t >= 6 && forall i: nat :: 6 <= i < t ==> Follows(f, i)
    ensures ListedTo(f, t)
    decreases t
  {
    if t > 6 {
      EntriesUpTo(f, t - 1);
      OneMoreEntry(f, t - 1);
    }
  }

  // ----- The table -----

  lemma StartOfTable()
    ensures ListedTo(Prime, 6)
  {
    assert Prime(0) == 2 && Prime(1) == 3 && Prime(2) == 5 && Prime(3) == 7;
    assert Prime(4) == 11 && Prime(5) == 13 && Prime(6) == 17;
    forall n: nat | n < 18 ensures IsPrime(n) <==> Among(Prime, n, 7) { TinyPrimes(n); }
  }

  lemma Next6(t: nat)
    requires 6 <= t < 12
    ensures IsNext(Prime(t) + 1, Prime(t + 1))
  {
    assert IsNext(18, 19) && IsNext(20, 23) && IsNext(24, 29);
    assert IsNext(30, 31) && IsNext(32, 37) && IsNext(38, 41);
  }

  lemma Next12(t: nat)
    requires 12 <= t < 18
    ensures IsNext(Prime(t) + 1, Prime(t + 1))
  {
    assert IsNext(42, 43) && IsNext(44, 47) && IsNext(48, 53);
    assert IsNext(54, 59) && IsNext(60, 61) && IsNext(62, 67);
  }

  lemma Next18(t: nat)
    requires 18 <= t < 24
    ensures IsNext(Prime(t) + 1, Prime(t + 1))
  {
    assert IsNext(68, 71) && IsNext(72, 73) && IsNext(74, 79);
    assert IsNext(80, 83) && IsNext(84, 89) && IsNext(90, 97);
  }

  lemma Next24(t: nat)
    requires 24 <= t < 30
    ensures IsNext(Prime(t) + 1, Prime(t + 1))
  {
    assert IsNext(98, 101) && IsNext(102, 103) && IsNext(104, 107);
    assert IsNext(108, 109) && IsNext(110, 113) && IsNext(114, 127);
  }

  lemma Next30(t: nat)
    requires 30 <= t < 36
    ensures IsNext(Prime(t) + 1, Prime(t + 1))
  {
    assert IsNext(128, 131) && IsNext(132, 137) && IsNext(138, 139);
    assert IsNext(140, 149) && IsNext(150, 151) && IsNext(152, 157);
  }

  lemma Next36(t: nat)
    requires 36 <= t < 42
    ensures IsNext(Prime(t) + 1, Prime(t + 1))
  {
    assert IsNext(158, 163) && IsNext(164, 167) && IsNext(168, 173);
    assert IsNext(174, 179) && IsNext(180, 181) && IsNext(182, 191);
  }

  lemma Next42(t: nat)
    requires 42 <= t < 48
    ensures IsNext(Prime(t) + 1, Prime(t + 1))
  {
    assert IsNext(192, 193) && IsNext(194, 197) && IsNext(198, 199);
    assert IsNext(200, 211) && IsNext(212, 223) && IsNext(224, 227);
  }

  lemma Next48(t: nat)
    requires 48 <= t < 54
    ensures IsNext(Prime(t) + 1, Prime(t + 1))
  {
    assert IsNext(228, 229) && IsNext(230, 233) && IsNext(234, 239);
    assert IsNext(240, 241) && IsNext(242, 251) && IsNext(252, 257);
  }

  lemma Next54(t: nat)
    requires 54 <= t < 60
    ensures IsNext(Prime(t) + 1, Prime(t + 1))
  {
    assert IsNext(258, 263) && IsNext(264, 269) && IsNext(270, 271);
    assert IsNext(272, 277) && IsNext(278, 281) && IsNext(282, 283);
  }

  lemma Next60(t: nat)
    requires 60 <= t < 63
    ensures IsNext(Prime(t) + 1, Prime(t + 1))
  {
    assert IsNext(284, 293) && IsNext(294, 307) && IsNext(308, 311);
  }

  lemma NextInTable(t: nat)
    requires 6 <= t < 63
    ensures IsNext(Prime(t) + 1, Prime(t + 1))
  {
    if t < 12 { Next6(t); } else if t < 18 { Next12(t); } else if t < 24 { Next18(t); } else if t < 30 { Next24(t); }
    else if t < 36 { Next30(t); } else if t < 42 { Next36(t); } else if t < 48 { Next42(t); }
    else if t < 54 { Next48(t); }
    else if t < 60 { Next54(t); } else { Next60(t); }
  }

  lemma TableFollows(t: nat)
    requires 6 <= t < 63
    ensures Follows(Prime, t)
  {
    NextInTable(t);
  }

  /** The table lists exactly the primes up to 311, in order: the first 64. */
  lemma TableListsThePrimes()
    ensures ListsPrimes(Prime, 312, 64)
  {
    StartOfTable();
    forall i: nat | 6 <= i < 63 ensures Follows(Prime, i) { TableFollows(i); }
    EntriesUpTo(Prime, 63);
    assert Prime(63) == 311;
  }
}
