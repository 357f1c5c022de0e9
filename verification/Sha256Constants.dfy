/** The constants of SHA-256: the table the program carries, the table of section 4.2.2 of FIPS 180-4,
    and the definition both claim to follow (fractional parts of roots of primes). */
module Sha256Constants {
  import opened FirstPrimes

  type Word = bv32

  /** A chaining value; also the eight working variables of the compression. */
  datatype Hash = Hash(a: Word, b: Word, c: Word, d: Word, e: Word, f: Word, g: Word, h: Word)

  const INITIAL: Hash := Hash(0x6a09e667, 0xbb67ae85, 0x3c6ef372, 0xa54ff53a,
                              0x510e527f, 0x9b05688c, 0x1f83d9ab, 0x5be0cd19)

  /** Whose round constants are used. */
  datatype Table = Program | Standard

  const TWO32: nat := 0x1_0000_0000

  /** The constants as the program lists them. */
  function ProgramValue(t: nat): (v: nat)
    ensures v < TWO32
  {
    if t < 16 then Values0(t) else if t < 32 then Values16(t) else if t < 48 then Values32(t) else Values48(t)
  }

  function Values0(t: nat): (v: nat)
    ensures v < TWO32
  {
    match t
    case 0 => 0x428a2f98 case 1 => 0x71374491 case 2 => 0xb5c0fbcf case 3 => 0xe9b5dba5
    case 4 => 0x3956c25b case 5 => 0x59f111f1 case 6 => 0x923f82a4 case 7 => 0xab1c5ed5
    case 8 => 0xd807aa98 case 9 => 0x12835b01 case 10 => 0x243185be case 11 => 0x550c7dc3
    case 12 => 0x72be5d74 case 13 => 0x80deb1fe case 14 => 0x9bdc06a7 case 15 => 0xc19bf174
    case _ => 0
  }

  function Values16(t: nat): (v: nat)
    ensures v < TWO32
  {
    match t
    case 16 => 0xe49b69c1 case 17 => 0xefbe4786 case 18 => 0x0fc19dc6 case 19 => 0x240ca1cc
    case 20 => 0x2de92c6f case 21 => 0x4a7484aa case 22 => 0x5cb0a9dc case 23 => 0x76f988da
    case 24 => 0x983e5152 case 25 => 0xa831c66d case 26 => 0xb00327c8 case 27 => 0xbf597fc7
    case 28 => 0xc6e00bf3 case 29 => 0xd5a79147 case 30 => 0x06ca6351 case 31 => 0x14292967
    case _ => 0
  }

  function Values32(t: nat): (v: nat)
    ensures v < TWO32
  {
    match t
    case 32 => 0x27b70a85 case 33 => 0x2e1b2138 case 34 => 0x4d2c6dfc case 35 => 0x53380d13
    case 36 => 0x650a7354 case 37 => 0x766a0abb case 38 => 0x81c2c92e case 39 => 0x92722c85
    case 40 => 0xa2bfe8a1 case 41 => 0xa81a664b case 42 => 0xc24b8b70 case 43 => 0xc76c51a3
    case 44 => 0xd192e819 case 45 => 0xd6990624 case 46 => 0xf40e3585 case 47 => 0x106aa070
    case _ => 0
  }

  function Values48(t: nat): (v: nat)
    ensures v < TWO32
  {
    match t
    case 48 => 0x19a4c116 case 49 => 0x1e376c08 case 50 => 0x2748774c case 51 => 0x34b0bcb5
    case 52 => 0x391c0cb3 case 53 => 0x4ed8aa4a case 54 => 0x5b9cca4f case 55 => 0x682e6ff3
    case 56 => 0x748f82ee case 57 => 0x78a5636f case 58 => 0x84c87814 case 59 => 0x8cc70208
    case 60 => 0x90befffa case 61 => 0xa4506ceb case 62 => 0xbef4a9f7 case 63 => 0xc67178f2
    case _ => 0
  }

  /** The standard's table: the program's differs from it in one entry. */
  function FipsValue(t: nat): (v: nat)
    ensures v < TWO32
  {
    if t == 62 then 0xbef9a3f7 else ProgramValue(t)
  }

  function ToWord(v: nat): Word
    requires v < TWO32
  {
    v as Word
  }

  function Constant(table: Table, t: nat): Word {
    ToWord(if table.Program? then ProgramValue(t) else FipsValue(t))
  }

  lemma WordsOfEntry62()
    ensures ToWord(0xbef4a9f7) == 0xbef4a9f7 && ToWord(0xbef9a3f7) == 0xbef9a3f7
  {
  }

  lemma TablesDiffer()
    ensures Constant(Program, 62) == 0xbef4a9f7 && Constant(Standard, 62) == 0xbef9a3f7
  {
    WordsOfEntry62();
    assert ProgramValue(62) == 0xbef4a9f7 && FipsValue(62) == 0xbef9a3f7;
  }

  lemma SameConstant(t: nat)
    requires t != 62
    ensures Constant(Program, t) == Constant(Standard, t)
  {
    assert FipsValue(t) == ProgramValue(t);
  }

  // ----- Where the constants come from -----

  /** `f` is the first 32 bits of the fractional part of the square root of `p`. */
  predicate IsSquareRootFraction(p: nat, f: nat, whole: nat) {
    var r := whole * TWO32 + f;
    f < TWO32 && r * r <= p * TWO32 * TWO32 < (r + 1) * (r + 1)
  }

  /** `f` is the first 32 bits of the fractional part of the cube root of `p`. */
  predicate IsCubeRootFraction(p: nat, f: nat, whole: nat) {
    var r := whole * TWO32 + f;
    f < TWO32 && r * r * r <= p * TWO32 * TWO32 * TWO32 < (r + 1) * (r + 1) * (r + 1)
  }

  function WholeCubeRoot(p: nat): nat {
    if p < 8 then 1 else if p < 27 then 2 else if p < 64 then 3 else if p < 125 then 4 else if p < 216 then 5 else 6
  }

  /** Entry `t` of the standard's table is the cube-root fraction of its prime. */
  predicate IsRoot(t: nat) { IsCubeRootFraction(Prime(t), FipsValue(t), WholeCubeRoot(Prime(t))) }

  lemma Roots0(t: nat)
    requires 0 <= t < 8
    ensures IsRoot(t)
  {
    assert IsCubeRootFraction(2, 0x428a2f98, 1) && IsCubeRootFraction(3, 0x71374491, 1);
    assert IsCubeRootFraction(5, 0xb5c0fbcf, 1) && IsCubeRootFraction(7, 0xe9b5dba5, 1);
    assert IsCubeRootFraction(11, 0x3956c25b, 2) && IsCubeRootFraction(13, 0x59f111f1, 2);
    assert IsCubeRootFraction(17, 0x923f82a4, 2) && IsCubeRootFraction(19, 0xab1c5ed5, 2);
  }

  lemma Roots8(t: nat)
    requires 8 <= t < 16
    ensures IsRoot(t)
  {
    assert IsCubeRootFraction(23, 0xd807aa98, 2) && IsCubeRootFraction(29, 0x12835b01, 3);
    assert IsCubeRootFraction(31, 0x243185be, 3) && IsCubeRootFraction(37, 0x550c7dc3, 3);
    assert IsCubeRootFraction(41, 0x72be5d74, 3) && IsCubeRootFraction(43, 0x80deb1fe, 3);
    assert IsCubeRootFraction(47, 0x9bdc06a7, 3) && IsCubeRootFraction(53, 0xc19bf174, 3);
  }

  lemma Roots16(t: nat)
    requires 16 <= t < 24
    ensures IsRoot(t)
  {
    assert IsCubeRootFraction(59, 0xe49b69c1, 3) && IsCubeRootFraction(61, 0xefbe4786, 3);
    assert IsCubeRootFraction(67, 0x0fc19dc6, 4) && IsCubeRootFraction(71, 0x240ca1cc, 4);
    assert IsCubeRootFraction(73, 0x2de92c6f, 4) && IsCubeRootFraction(79, 0x4a7484aa, 4);
    assert IsCubeRootFraction(83, 0x5cb0a9dc, 4) && IsCubeRootFraction(89, 0x76f988da, 4);
  }

  lemma Roots24(t: nat)
    requires 24 <= t < 32
    ensures IsRoot(t)
  {
    assert IsCubeRootFraction(97, 0x983e5152, 4) && IsCubeRootFraction(101, 0xa831c66d, 4);
    assert IsCubeRootFraction(103, 0xb00327c8, 4) && IsCubeRootFraction(107, 0xbf597fc7, 4);
    assert IsCubeRootFraction(109, 0xc6e00bf3, 4) && IsCubeRootFraction(113, 0xd5a79147, 4);
    assert IsCubeRootFraction(127, 0x06ca6351, 5) && IsCubeRootFraction(131, 0x14292967, 5);
  }

  lemma Roots32(t: nat)
    requires 32 <= t < 40
    ensures IsRoot(t)
  {
    assert IsCubeRootFraction(137, 0x27b70a85, 5) && IsCubeRootFraction(139, 0x2e1b2138, 5);
    assert IsCubeRootFraction(149, 0x4d2c6dfc, 5) && IsCubeRootFraction(151, 0x53380d13, 5);
    assert IsCubeRootFraction(157, 0x650a7354, 5) && IsCubeRootFraction(163, 0x766a0abb, 5);
    assert IsCubeRootFraction(167, 0x81c2c92e, 5) && IsCubeRootFraction(173, 0x92722c85, 5);
  }

  lemma Roots40(t: nat)
    requires 40 <= t < 48
    ensures IsRoot(t)
  {
    assert IsCubeRootFraction(179, 0xa2bfe8a1, 5) && IsCubeRootFraction(181, 0xa81a664b, 5);
    assert IsCubeRootFraction(191, 0xc24b8b70, 5) && IsCubeRootFraction(193, 0xc76c51a3, 5);
    assert IsCubeRootFraction(197, 0xd192e819, 5) && IsCubeRootFraction(199, 0xd6990624, 5);
    assert IsCubeRootFraction(211, 0xf40e3585, 5) && IsCubeRootFraction(223, 0x106aa070, 6);
  }

  lemma Roots48(t: nat)
    requires 48 <= t < 56
    ensures IsRoot(t)
  {
    assert IsCubeRootFraction(227, 0x19a4c116, 6) && IsCubeRootFraction(229, 0x1e376c08, 6);
    assert IsCubeRootFraction(233, 0x2748774c, 6) && IsCubeRootFraction(239, 0x34b0bcb5, 6);
    assert IsCubeRootFraction(241, 0x391c0cb3, 6) && IsCubeRootFraction(251, 0x4ed8aa4a, 6);
    assert IsCubeRootFraction(257, 0x5b9cca4f, 6) && IsCubeRootFraction(263, 0x682e6ff3, 6);
  }

  lemma Roots56(t: nat)
    requires 56 <= t < 64
    ensures IsRoot(t)
  {
    assert IsCubeRootFraction(269, 0x748f82ee, 6) && IsCubeRootFraction(271, 0x78a5636f, 6);
    assert IsCubeRootFraction(277, 0x84c87814, 6) && IsCubeRootFraction(281, 0x8cc70208, 6);
    assert IsCubeRootFraction(283, 0x90befffa, 6) && IsCubeRootFraction(293, 0xa4506ceb, 6);
    assert IsCubeRootFraction(307, 0xbef9a3f7, 6) && IsCubeRootFraction(311, 0xc67178f2, 6);
  }

  /** Every entry of the standard's table is the cube-root fraction of its prime. */
  lemma FipsConstantsAreCubeRoots(t: nat)
    requires t < 64
    ensures IsCubeRootFraction(Prime(t), FipsValue(t), WholeCubeRoot(Prime(t)))
  {
    if t < 8 { Roots0(t); } else if t < 16 { Roots8(t); }
    else if t < 24 { Roots16(t); } else if t < 32 { Roots24(t); }
    else if t < 40 { Roots32(t); } else if t < 48 { Roots40(t); }
    else if t < 56 { Roots48(t); } else { Roots56(t); }
  }

  /** Entry 62 of the program's table is not: the standard has another value there, and all other
      entries agree. */
  lemma ProgramConstantIsWrongExactlyAt62(t: nat)
    requires t < 64
    ensures IsCubeRootFraction(Prime(t), ProgramValue(t), WholeCubeRoot(Prime(t))) <==> t != 62
    ensures ProgramValue(t) == FipsValue(t) <==> t != 62
  {
    if t == 62 {
      assert !IsCubeRootFraction(307, 0xbef4a9f7, 6);
    } else {
      FipsConstantsAreCubeRoots(t);
    }
  }

  /** The initial hash value of section 5.3.3 is right: square-root fractions of the first eight primes. */
  lemma InitialHashIsSquareRoots()
    ensures && IsSquareRootFraction(2, INITIAL.a as int, 1) && IsSquareRootFraction(3, INITIAL.b as int, 1)
            && IsSquareRootFraction(5, INITIAL.c as int, 2) && IsSquareRootFraction(7, INITIAL.d as int, 2)
            && IsSquareRootFraction(11, INITIAL.e as int, 3) && IsSquareRootFraction(13, INITIAL.f as int, 3)
            && IsSquareRootFraction(17, INITIAL.g as int, 4) && IsSquareRootFraction(19, INITIAL.h as int, 4)
  {
    assert INITIAL.a as int == 0x6a09e667 && IsSquareRootFraction(2, 0x6a09e667, 1);
    assert INITIAL.b as int == 0xbb67ae85 && IsSquareRootFraction(3, 0xbb67ae85, 1);
    assert INITIAL.c as int == 0x3c6ef372 && IsSquareRootFraction(5, 0x3c6ef372, 2);
    assert INITIAL.d as int == 0xa54ff53a && IsSquareRootFraction(7, 0xa54ff53a, 2);
    assert INITIAL.e as int == 0x510e527f && IsSquareRootFraction(11, 0x510e527f, 3);
    assert INITIAL.f as int == 0x9b05688c && IsSquareRootFraction(13, 0x9b05688c, 3);
    assert INITIAL.g as int == 0x1f83d9ab && IsSquareRootFraction(17, 0x1f83d9ab, 4);
    assert INITIAL.h as int == 0x5be0cd19 && IsSquareRootFraction(19, 0x5be0cd19, 4);
  }
}
