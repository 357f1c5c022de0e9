/** SHA-256: the functional definition of sections 4.1.2, 5.1.1 and 6.2.2 of FIPS 180-4 over either
    table of round constants, the program's loops proved against it, and what the program's one wrong
    constant does to every digest. */
module Sha256 {
  import opened Basics
  import opened Sha256Constants

  // ----- The functions of section 4.1.2 -----

  // The rotation ROTR^n(x) is written out as (x >> n) | (x << 32 - n), as section 3.2 defines it.

  function Ch(x: Word, y: Word, z: Word): Word { (x & y) ^ (!x & z) }
  function Maj(x: Word, y: Word, z: Word): Word { (x & y) ^ (x & z) ^ (y & z) }
  function BigSigma0(x: Word): Word { ((x >> 2) | (x << 30)) ^ ((x >> 13) | (x << 19)) ^ ((x >> 22) | (x << 10)) }
  function BigSigma1(x: Word): Word { ((x >> 6) | (x << 26)) ^ ((x >> 11) | (x << 21)) ^ ((x >> 25) | (x << 7)) }
  function SmallSigma0(x: Word): Word { ((x >> 7) | (x << 25)) ^ ((x >> 18) | (x << 14)) ^ (x >> 3) }
  function SmallSigma1(x: Word): Word { ((x >> 17) | (x << 15)) ^ ((x >> 19) | (x << 13)) ^ (x >> 10) }

  /** Addition and subtraction modulo 2^32. */
  function Sum(a: Word, b: Word): Word { a + b }
  function Minus(a: Word, b: Word): Word { a - b }

  // ----- Compression, section 6.2.2 -----

  /** The next word of the message schedule, from the last sixteen. */
  function NextWord(w: seq<Word>): Word
    requires |w| >= 16
  {
    var t := |w|;
    Sum(Sum(Sum(SmallSigma1(w[t - 2]), w[t - 7]), SmallSigma0(w[t - 15])), w[t - 16])
  }

  /** Step 1: continues a message schedule to 64 words. */
  function Schedule(w: seq<Word>): (r: seq<Word>)
    requires 16 <= |w| <= 64
    ensures |r| == 64
    decreases 64 - |w|
  {
    if |w| == 64 then w else Schedule(w + [NextWord(w)])
  }

  /** Step 3, once. */
  function Round(s: Hash, k: Word, w: Word): (r: Hash) {
    var t1 := Sum(Sum(Sum(Sum(s.h, BigSigma1(s.e)), Ch(s.e, s.f, s.g)), k), w);
    var t2 := Sum(BigSigma0(s.a), Maj(s.a, s.b, s.c));
    Hash(Sum(t1, t2), s.a, s.b, s.c, Sum(s.d, t1), s.e, s.f, s.g)
  }

  /** Step 3, once for each constant and schedule word. */
  function Rounds(k: seq<Word>, w: seq<Word>, s: Hash): (r: Hash)
    requires |k| == |w|
  {
    if k == [] then s
    else
      var n := |k| - 1;
      Round(Rounds(k[..n], w[..n], s), k[n], w[n])
  }

  function Add(x: Hash, y: Hash): Hash {
    Hash(Sum(x.a, y.a), Sum(x.b, y.b), Sum(x.c, y.c), Sum(x.d, y.d),
         Sum(x.e, y.e), Sum(x.f, y.f), Sum(x.g, y.g), Sum(x.h, y.h))
  }

  function Constants(table: Table): (k: seq<Word>)
    ensures |k| == 64
  {
    seq(64, t requires 0 <= t < 64 => Constant(table, t))
  }

  /** Steps 1 to 4. */
  function Compress(table: Table, s: Hash, m: seq<Word>): (r: Hash)
    requires |m| == 16
  {
    Add(Rounds(Constants(table), Schedule(m), s), s)
  }

  /** The word with the binary digits of `n`. */
  function Bits(n: nat): Word {
    if n == 0 then 0 else (Bits(n / 2) << 1) | (if n % 2 == 1 then 1 else 0)
  }

  /** Word `i` of a block, its four bytes read most significant first. */
  function WordAt(block: seq<Byte>, i: nat): Word
    requires 4 * i + 4 <= |block|
  {
    (Bits(block[4 * i] as nat) << 24) | (Bits(block[4 * i + 1] as nat) << 16) |
    (Bits(block[4 * i + 2] as nat) << 8) | Bits(block[4 * i + 3] as nat)
  }

  function WordsOf(block: seq<Byte>): (m: seq<Word>)
    requires |block| == 64
    ensures |m| == 16
  {
    seq(16, i requires 0 <= i < 16 => WordAt(block, i))
  }

  /** Compression as a function of a block of bytes. */
  function BlockStep(table: Table): (Hash, seq<Byte>) -> Hash {
    (s, block) => if |block| == 64 then Compress(table, s, WordsOf(block)) else s
  }

  /** Chaining any compression over all whole blocks. */
  function Chain<S>(step: (S, seq<Byte>) -> S, s: S, bytes: seq<Byte>): (r: S)
    decreases |bytes|
  {
    if |bytes| < 64 then s else Chain(step, step(s, bytes[..64]), bytes[64..])
  }

  // ----- Padding, section 5.1.1 -----

  /** Big-endian, `n` bytes. */
  function BigEndian(v: nat, n: nat): (r: seq<Byte>)
    ensures |r| == n
  {
    if n == 0 then [] else BigEndian(v / 256, n - 1) + [(v % 256) as Byte]
  }

  /** The bit length as the program keeps it, in a `u64`. */
  function BitLength(len: nat): nat { (len * 8) % 0x1_0000_0000_0000_0000 }

  /** The smallest number of zero bytes that brings `len + 1` to 56 modulo 64. */
  function ZeroBytes(len: nat): (k: nat)
    ensures (len + 1 + k) % 64 == 56 && k < 64
  {
    (119 - len % 64) % 64
  }

  function Zeros(n: nat): (z: seq<Byte>)
    ensures |z| == n && forall i :: 0 <= i < n ==> z[i] == 0
  {
    seq(n, i => 0)
  }

  function Pad(m: seq<Byte>): (p: seq<Byte>) {
    m + [0x80] + Zeros(ZeroBytes(|m|)) + BigEndian(BitLength(|m|), 8)
  }

  function Digest(table: Table, m: seq<Byte>): (r: Hash) {
    Chain(BlockStep(table), INITIAL, Pad(m))
  }

  // ----- Hexadecimal output -----

  function HexDigit(n: Word): char {
    match n
    case 0 => '0' case 1 => '1' case 2 => '2' case 3 => '3' case 4 => '4' case 5 => '5' case 6 => '6' case 7 => '7'
    case 8 => '8' case 9 => '9' case 10 => 'a' case 11 => 'b' case 12 => 'c' case 13 => 'd' case 14 => 'e'
    case _ => 'f'
  }

  function HexWord(x: Word): (s: string)
    ensures |s| == 8
  {
    [HexDigit(x >> 28), HexDigit((x >> 24) & 0xf), HexDigit((x >> 20) & 0xf), HexDigit((x >> 16) & 0xf),
     HexDigit((x >> 12) & 0xf), HexDigit((x >> 8) & 0xf), HexDigit((x >> 4) & 0xf), HexDigit(x & 0xf)]
  }

  function HexWords(ws: seq<Word>): (r: string)
    ensures |r| == 8 * |ws|
  {
    if ws == [] then [] else HexWord(ws[0]) + HexWords(ws[1..])
  }

  function Hex(s: Hash): (r: string)
    ensures |r| == 64
  {
    HexWords([s.a, s.b, s.c, s.d, s.e, s.f, s.g, s.h])
  }

  // ----- compute_sha256 -----

  method RotateSmall0(x: Word) returns (r: Word)
    ensures r == SmallSigma0(x)
  {
    r := x.RotateRight(7) ^ x.RotateRight(18) ^ (x >> 3);
  }

  method RotateSmall1(x: Word) returns (r: Word)
    ensures r == SmallSigma1(x)
  {
    r := x.RotateRight(17) ^ x.RotateRight(19) ^ (x >> 10);
  }

  method RotateBig0(x: Word) returns (r: Word)
    ensures r == BigSigma0(x)
  {
    r := x.RotateRight(2) ^ x.RotateRight(13) ^ x.RotateRight(22);
  }

  method RotateBig1(x: Word) returns (r: Word)
    ensures r == BigSigma1(x)
  {
    r := x.RotateRight(6) ^ x.RotateRight(11) ^ x.RotateRight(25);
  }

  // Addition is used through these laws only.

  lemma SumCommutes(x: Word, y: Word)
    ensures Sum(x, y) == Sum(y, x)
  {
  }

  lemma SumThree(x: Word, y: Word, z: Word)
    ensures Sum(Sum(x, y), z) == x + y + z
  {
    assert Sum(x, y) == x + y;
    SumOntoSum(x, y, z);
  }

  lemma SumOntoSum(x: Word, y: Word, z: Word)
    ensures Sum(x + y, z) == x + y + z
  {
  }

  lemma SumAssociates(x: Word, y: Word, z: Word)
    ensures Sum(Sum(x, y), z) == Sum(x, Sum(y, z))
  {
    SumThree(x, y, z);
    SumCommutes(x, Sum(y, z));
    SumThree(y, z, x);
  }

  /** The program adds the four schedule terms in the opposite order. */
  lemma AddReversed(a: Word, b: Word, c: Word, d: Word)
    ensures Sum(Sum(Sum(a, b), c), d) == Sum(Sum(Sum(d, c), b), a)
  {
    SumAssociates(Sum(a, b), c, d);
    SumCommutes(c, d);
    SumCommutes(Sum(a, b), Sum(d, c));
    SumCommutes(a, b);
    SumAssociates(Sum(d, c), b, a);
  }

  method ExtendWord(w16: Word, w15: Word, w7: Word, w2: Word) returns (w: Word)
    ensures w == Sum(Sum(Sum(SmallSigma1(w2), w7), SmallSigma0(w15)), w16)
  {
    var s0 := RotateSmall0(w15);
    var s1 := RotateSmall1(w2);
    AddReversed(w16, s0, w7, s1);
    w := Sum(Sum(Sum(w16, s0), w7), s1);
  }

  /** Fills the schedule of one chunk. */
  method FillSchedule(chunk: seq<Byte>) returns (w: array<Word>)
    requires |chunk| == 64
    ensures fresh(w) && w.Length == 64 && w[..] == Schedule(WordsOf(chunk))
  {
    ghost var m := WordsOf(chunk);
    w := new Word[64];
    for i := 0 to 16
      invariant forall t :: 0 <= t < i ==> w[t] == m[t]
    {
      w[i] := WordAt(chunk, i);
    }
    assert w[..16] == m;
    for i := 16 to 64
      invariant Schedule(w[..i]) == Schedule(m)
    {
      ghost var before := w[..i];
      w[i] := ExtendWord(w[i - 16], w[i - 15], w[i - 7], w[i - 2]);
      assert w[..i + 1] == before + [NextWord(before)];
    }
    assert w[..64] == w[..];
  }

  /** One round on the eight working variables. */
  method StepRound(s: Hash, k: Word, w: Word) returns (r: Hash)
    ensures r == Round(s, k, w)
  {
    var a, b, c, d, e, f, g, h := s.a, s.b, s.c, s.d, s.e, s.f, s.g, s.h;
    var s1 := RotateBig1(e);
    var ch := Ch(e, f, g);
    var temp1 := Sum(Sum(Sum(Sum(h, s1), ch), k), w);
    var s0 := RotateBig0(a);
    var maj := Maj(a, b, c);
    var temp2 := Sum(s0, maj);
    h := g;
    g := f;
    f := e;
    e := Sum(d, temp1);
    d := c;
    c := b;
    b := a;
    a := Sum(temp1, temp2);
    r := Hash(a, b, c, d, e, f, g, h);
  }

  method RunRounds(k: seq<Word>, w: array<Word>, s: Hash) returns (r: Hash)
    requires |k| == w.Length
    ensures r == Rounds(k, w[..], s)
  {
    r := s;
    for i := 0 to |k|
      invariant r == Rounds(k[..i], w[..i], s)
    {
      var next := StepRound(r, k[i], w[i]);
      RoundsSnoc(k, w[..], s, i);
      r := next;
    }
    assert k[..|k|] == k && w[..|k|] == w[..];
  }

  lemma RoundsSnoc(k: seq<Word>, w: seq<Word>, s: Hash, i: nat)
    requires |k| == |w| && i < |k|
    ensures Rounds(k[..i + 1], w[..i + 1], s) == Round(Rounds(k[..i], w[..i], s), k[i], w[i])
  {
    assert k[..i + 1][..i] == k[..i] && w[..i + 1][..i] == w[..i];
  }

  lemma AddCommutes(x: Hash, y: Hash)
    ensures Add(x, y) == Add(y, x)
  {
    SumCommutes(x.a, y.a);
    SumCommutes(x.b, y.b);
    SumCommutes(x.c, y.c);
    SumCommutes(x.d, y.d);
    SumCommutes(x.e, y.e);
    SumCommutes(x.f, y.f);
    SumCommutes(x.g, y.g);
    SumCommutes(x.h, y.h);
  }

  /** Mentioned where the program's compression is to be unfolded. */
  ghost predicate Unfold(s: Hash, block: seq<Byte>) { true }

  ghost predicate IsProgramStep(step: (Hash, seq<Byte>) -> Hash) {
    forall s, block {:trigger Unfold(s, block)} :: step(s, block) == BlockStep(Program)(s, block)
  }

  /** One chunk: schedule, rounds, and the addition into the chaining value. */
  method ProcessChunk(ghost step: (Hash, seq<Byte>) -> Hash, s: Hash, chunk: seq<Byte>) returns (r: Hash)
    requires IsProgramStep(step) && |chunk| == 64
    ensures r == step(s, chunk)
  {
    assert Unfold(s, chunk);
    var w := FillSchedule(chunk);
    var v := RunRounds(Constants(Program), w, s);
    AddCommutes(s, v);
    r := Add(s, v);
  }

  lemma OneMoreZero(x: seq<Byte>, k: nat)
    ensures x + Zeros(k) + [0] == x + Zeros(k + 1)
  {
  }

  method PadMessage(bytes: seq<Byte>) returns (padded: seq<Byte>)
    ensures padded == Pad(bytes)
  {
    var bitLen := BitLength(|bytes|);
    padded := bytes + [0x80];
    ghost var start := padded;
    ghost var k := 0;
    assert padded == start + Zeros(0);
    while |padded| % 64 != 56
      invariant 0 <= k <= ZeroBytes(|bytes|) && padded == start + Zeros(k)
      decreases ZeroBytes(|bytes|) - k
    {
      ZeroBytesMinimal(|bytes|, k);
      OneMoreZero(start, k);
      padded := padded + [0];
      k := k + 1;
    }
    ZeroBytesMinimal(|bytes|, k);
    padded := padded + BigEndian(bitLen, 8);
  }

  lemma ZeroBytesMinimal(len: nat, k: nat)
    requires k <= ZeroBytes(len)
    ensures (len + 1 + k) % 64 == 56 <==> k == ZeroBytes(len)
  {
  }

  /** Hashing `rest` from `s` gives what hashing the whole padded message gives. */
  ghost predicate OnTrack<S>(step: (S, seq<Byte>) -> S, s: S, rest: seq<Byte>, initial: S, padded: seq<Byte>) {
    |rest| % 64 == 0 && Chain(step, s, rest) == Chain(step, initial, padded)
  }

  lemma {:induction false} NextBlock<S>(step: (S, seq<Byte>) -> S, s: S, rest: seq<Byte>, initial: S, padded: seq<Byte>)
    requires OnTrack(step, s, rest, initial, padded) && |rest| > 0
    ensures OnTrack(step, step(s, rest[..64]), rest[64..], initial, padded)
  {
  }

  /** The loop over the chunks of the padded message; every chunk is full. */
  method HashChunks(ghost step: (Hash, seq<Byte>) -> Hash, initial: Hash, padded: seq<Byte>) returns (s: Hash)
    requires IsProgramStep(step) && |padded| % 64 == 0
    ensures OnTrack(step, s, [], initial, padded)
  {
    s := initial;
    var rest := padded;
    while |rest| > 0
      invariant OnTrack(step, s, rest, initial, padded)
      decreases |rest|
    {
      NextBlock(step, s, rest, initial, padded);
      s := ProcessChunk(step, s, rest[..64]);
      rest := rest[64..];
    }
  }

  method ComputeSha256(bytes: seq<Byte>) returns (hex: string)
    ensures hex == Hex(Digest(Program, bytes))
  {
    var padded := PadMessage(bytes);
    PaddingIsShortest(bytes);
    var s := HashChunks(BlockStep(Program), INITIAL, padded);
    hex := Hex(s);
  }

  // ----- Padding -----

  /** The padded message is the shortest whole number of blocks that holds the message, the marker
      byte and the length. */
  lemma PaddingIsShortest(m: seq<Byte>)
    ensures |Pad(m)| % 64 == 0 && |m| + 9 <= |Pad(m)| < |m| + 9 + 64 && m <= Pad(m)
  {
    var k, tail := ZeroBytes(|m|), BigEndian(BitLength(|m|), 8);
    assert |Pad(m)| == |m| + 1 + k + 8;
    WholeBlocks(|m| + 1 + k);
  }

  lemma WholeBlocks(n: nat)
    requires n % 64 == 56
    ensures (n + 8) % 64 == 0
  {
  }

  function Pow256(n: nat): nat { if n == 0 then 1 else 256 * Pow256(n - 1) }

  lemma {:induction false} BigEndianInjective(u: nat, v: nat, n: nat)
    requires u < Pow256(n) && v < Pow256(n) && BigEndian(u, n) == BigEndian(v, n)
    ensures u == v
  {
    if n > 0 {
      var x, y := BigEndian(u, n), BigEndian(v, n);
      assert x[..n - 1] == BigEndian(u / 256, n - 1) && y[..n - 1] == BigEndian(v / 256, n - 1);
      assert x[n - 1] == (u % 256) as Byte && y[n - 1] == (v % 256) as Byte;
      BigEndianInjective(u / 256, v / 256, n - 1);
    }
  }

  lemma BitLengthInjective(x: nat, y: nat)
    requires BitLength(x) == BitLength(y) && x <= y < x + 128
    ensures x == y
  {
  }

  /** Distinct messages of any lengths have distinct paddings. */
  lemma PaddingInjective(m: seq<Byte>, n: seq<Byte>)
    requires Pad(m) == Pad(n)
    ensures m == n
  {
    var p, q := Pad(m), Pad(n);
    PaddingIsShortest(m);
    PaddingIsShortest(n);
    assert p[|p| - 8..] == BigEndian(BitLength(|m|), 8) && q[|q| - 8..] == BigEndian(BitLength(|n|), 8);
    assert Pow256(8) == 0x1_0000_0000_0000_0000;
    BigEndianInjective(BitLength(|m|), BitLength(|n|), 8);
    if |m| <= |n| { BitLengthInjective(|m|, |n|); } else { BitLengthInjective(|n|, |m|); }
    assert m == p[..|m|] && n == q[..|n|];
  }

  // ----- Chaining -----

  /** Hashing a concatenation of whole blocks is hashing the parts one after the other, whatever the
      compression. */
  lemma {:induction false} ChainingComposes<S>(step: (S, seq<Byte>) -> S, s: S, x: seq<Byte>, y: seq<Byte>)
    requires |x| % 64 == 0
    ensures Chain(step, s, x + y) == Chain(step, Chain(step, s, x), y)
    decreases |x|
  {
    if x == [] {
      assert x + y == y;
    } else {
      assert (x + y)[..64] == x[..64] && (x + y)[64..] == x[64..] + y;
      ChainingComposes(step, step(s, x[..64]), x[64..], y);
    }
  }

  lemma {:induction false} ChainOfOne<S>(step: (S, seq<Byte>) -> S, s: S, x: seq<Byte>, block: seq<Byte>)
    requires |x| % 64 == 0 && |block| == 64
    ensures Chain(step, s, x + block) == step(Chain(step, s, x), block)
  {
    ChainingComposes(step, s, x, block);
    assert block[..64] == block;
  }

  // ----- What the wrong constant does -----

  /** The error in constant 62. */
  const ERROR: Word := 0xfffb0600

  /** An error term can be moved to the outside of a sum. */
  lemma SumOfShifted(x: Word, err: Word, y: Word)
    ensures Sum(Sum(x, err), y) == Sum(Sum(x, y), err) && Sum(y, Sum(x, err)) == Sum(Sum(y, x), err)
  {
    SumAssociates(y, x, err);
    SumCommutes(y, Sum(x, err));
    SumCommutes(x, y);
  }

  lemma SumUndoesMinus(p: Word, k: Word, k': Word)
    ensures Sum(p + k', k - k') == p + k
  {
  }

  lemma SumOfDifference(p: Word, k: Word, k': Word)
    ensures Sum(p, k) == Sum(Sum(p, k'), Minus(k, k'))
  {
    SumUndoesMinus(p, k, k');
    assert Minus(k, k') == k - k';
    assert Sum(p, k') == p + k';
    assert Sum(p, k) == p + k;
  }

  /** A different constant shifts exactly two of the working variables, by the difference. */
  lemma RoundShift(s: Hash, k: Word, k': Word, w: Word)
    ensures Round(s, k, w).a == Sum(Round(s, k', w).a, Minus(k, k'))
    ensures Round(s, k, w).e == Sum(Round(s, k', w).e, Minus(k, k'))
  {
    var x := Sum(Sum(s.h, BigSigma1(s.e)), Ch(s.e, s.f, s.g));
    var t2 := Sum(BigSigma0(s.a), Maj(s.a, s.b, s.c));
    SumOfDifference(x, k, k');
    SumOfShifted(Sum(x, k'), Minus(k, k'), w);
    SumOfShifted(Sum(Sum(x, k'), w), Minus(k, k'), t2);
    SumOfShifted(Sum(Sum(x, k'), w), Minus(k, k'), s.d);
  }

  lemma RoundMoves(s: Hash, k: Word, w: Word)
    ensures Round(s, k, w).b == s.a && Round(s, k, w).f == s.e
  {
  }

  /** Two rounds: the shifted variables have moved one place on. */
  lemma TwoRounds(s: Hash, k: Word, k': Word, w: Word, k2: Word, k2': Word, w2: Word)
    ensures Round(Round(s, k, w), k2, w2).b == Sum(Round(Round(s, k', w), k2', w2).b, Minus(k, k'))
    ensures Round(Round(s, k, w), k2, w2).f == Sum(Round(Round(s, k', w), k2', w2).f, Minus(k, k'))
  {
    RoundShift(s, k, k', w);
    RoundMoves(Round(s, k, w), k2, w2);
    RoundMoves(Round(s, k', w), k2', w2);
  }

  lemma {:induction false} LastTwoRounds(k: seq<Word>, w: seq<Word>, s: Hash, n: nat)
    requires |k| == |w| == n + 2
    ensures Rounds(k, w, s) == Round(Round(Rounds(k[..n], w[..n], s), k[n], w[n]), k[n + 1], w[n + 1])
  {
    assert k[..n + 2] == k && w[..n + 2] == w;
    RoundsSnoc(k, w, s, n);
    RoundsSnoc(k, w, s, n + 1);
  }

  /** An error confined to the last constant but one shows in exactly this way. */
  lemma {:induction false} LateErrorSurvives(k: seq<Word>, k': seq<Word>, w: seq<Word>, s: Hash, n: nat,
                                             r: Hash, r': Hash)
    requires |k| == |k'| == |w| == n + 2 && k[..n] == k'[..n]
    requires r == Rounds(k, w, s) && r' == Rounds(k', w, s)
    ensures r.b == Sum(r'.b, Minus(k[n], k'[n])) && r.f == Sum(r'.f, Minus(k[n], k'[n]))
  {
    LastTwoRounds(k, w, s, n);
    LastTwoRounds(k', w, s, n);
    TwoRounds(Rounds(k[..n], w[..n], s), k[n], k'[n], w[n], k[n + 1], k'[n + 1], w[n + 1]);
  }

  lemma ConstantsDiffer()
    ensures Constants(Program)[..62] == Constants(Standard)[..62]
    ensures Minus(Constants(Program)[62], Constants(Standard)[62]) == ERROR
  {
    TablesDiffer();
    assert Constants(Program)[62] == 0xbef4a9f7 && Constants(Standard)[62] == 0xbef9a3f7;
    forall t | 0 <= t < 62 ensures Constants(Program)[t] == Constants(Standard)[t] { SameConstant(t); }
  }

  /** On every chaining value and every block the program's compression is wrong: two of its eight
      words are off by exactly the error of the constant. */
  lemma CompressionIsAlwaysWrong(s: Hash, m: seq<Word>)
    requires |m| == 16
    ensures Compress(Program, s, m).b == Sum(Compress(Standard, s, m).b, ERROR)
    ensures Compress(Program, s, m).f == Sum(Compress(Standard, s, m).f, ERROR)
    ensures Compress(Program, s, m) != Compress(Standard, s, m)
  {
    ConstantsDiffer();
    var k, k', w := Constants(Program), Constants(Standard), Schedule(m);
    LateErrorSurvives(k, k', w, s, 62, Rounds(k, w, s), Rounds(k', w, s));
    SumOfShifted(Rounds(k', w, s).b, ERROR, s.b);
    SumOfShifted(Rounds(k', w, s).f, ERROR, s.f);
    ShiftIsVisible(Compress(Standard, s, m).b);
  }

  lemma ShiftIsVisible(x: Word)
    ensures Sum(x, ERROR) != x
  {
    assert Sum(x, ERROR) == x + 0xfffb0600;
  }

  lemma BlockStepIsAlwaysWrong(s: Hash, block: seq<Byte>)
    requires |block| == 64
    ensures BlockStep(Program)(s, block) != BlockStep(Standard)(s, block)
  {
    CompressionIsAlwaysWrong(s, WordsOf(block));
  }

  /** Wherever the two chains agree, they differ one block later: a message of several blocks can only
      get its SHA-256 digest if the chains already differ and the last block cancels the difference. */
  lemma AgreementNeverLasts(s: Hash, x: seq<Byte>, block: seq<Byte>)
    requires |x| % 64 == 0 && |block| == 64
    requires Chain(BlockStep(Program), s, x) == Chain(BlockStep(Standard), s, x)
    ensures Chain(BlockStep(Program), s, x + block) != Chain(BlockStep(Standard), s, x + block)
  {
    ChainOfOne(BlockStep(Program), s, x, block);
    ChainOfOne(BlockStep(Standard), s, x, block);
    BlockStepIsAlwaysWrong(Chain(BlockStep(Program), s, x), block);
  }

  lemma HexInjective(s: Hash, t: Hash)
    requires Hex(s) == Hex(t)
    ensures s == t
  {
    var x, y := [s.a, s.b, s.c, s.d, s.e, s.f, s.g, s.h], [t.a, t.b, t.c, t.d, t.e, t.f, t.g, t.h];
    HexWordsInjective(x, y);
    assert x[0] == y[0] && x[1] == y[1] && x[2] == y[2] && x[3] == y[3];
    assert x[4] == y[4] && x[5] == y[5] && x[6] == y[6] && x[7] == y[7];
  }

  lemma {:induction false} HexWordsInjective(x: seq<Word>, y: seq<Word>)
    requires |x| == |y| && HexWords(x) == HexWords(y)
    ensures x == y
    decreases |x|
  {
    if x != [] {
      var p, q := HexWords(x), HexWords(y);
      assert p[..8] == HexWord(x[0]) && q[..8] == HexWord(y[0]);
      assert p[8..] == HexWords(x[1..]) && q[8..] == HexWords(y[1..]);
      HexWordInjective(x[0], y[0]);
      HexWordsInjective(x[1..], y[1..]);
    }
  }

  lemma HexDigitInjective(x: Word, y: Word)
    requires x < 16 && y < 16 && HexDigit(x) == HexDigit(y)
    ensures x == y
  {
  }

  lemma HexWordInjective(x: Word, y: Word)
    requires HexWord(x) == HexWord(y)
    ensures x == y
  {
    var p, q := HexWord(x), HexWord(y);
    assert forall i :: 0 <= i < 8 ==> p[i] == q[i];
    HexDigitInjective(x >> 28, y >> 28);
    HexDigitInjective((x >> 24) & 0xf, (y >> 24) & 0xf);
    HexDigitInjective((x >> 20) & 0xf, (y >> 20) & 0xf);
    HexDigitInjective((x >> 16) & 0xf, (y >> 16) & 0xf);
    HexDigitInjective((x >> 12) & 0xf, (y >> 12) & 0xf);
    HexDigitInjective((x >> 8) & 0xf, (y >> 8) & 0xf);
    HexDigitInjective((x >> 4) & 0xf, (y >> 4) & 0xf);
    HexDigitInjective(x & 0xf, y & 0xf);
  }

  lemma HexDiffers(s: Hash, t: Hash)
    requires s != t
    ensures Hex(s) != Hex(t)
  {
    if Hex(s) == Hex(t) { HexInjective(s, t); }
  }

  lemma OneBlock(table: Table, m: seq<Byte>)
    requires |m| <= 55
    ensures |Pad(m)| == 64 && Digest(table, m) == Chain(BlockStep(table), INITIAL, [] + Pad(m))
  {
    PaddingIsShortest(m);
    assert [] + Pad(m) == Pad(m);
  }

  /** No message of at most 55 bytes gets its SHA-256 digest. */
  lemma ShortDigestsAreWrong(m: seq<Byte>)
    requires |m| <= 55
    ensures Digest(Program, m) != Digest(Standard, m)
    ensures Hex(Digest(Program, m)) != Hex(Digest(Standard, m))
  {
    OneBlock(Program, m);
    OneBlock(Standard, m);
    AgreementNeverLasts(INITIAL, [], Pad(m));
    HexDiffers(Digest(Program, m), Digest(Standard, m));
  }
}
