/** A worked example of SHA-256, computed word by word through the functional definition: the message "abc",
    with the standard's round constants and with the program's. */
module Sha256Example {
  import opened Basics
  import opened Sha256Constants
  import opened Sha256

  /** Words `i` to `i + 7` of `s`. */
  ghost predicate Has(s: seq<Word>, i: nat, a: Word, b: Word, c: Word, d: Word, e: Word, f: Word, g: Word, h: Word) {
    && i + 8 <= |s| && s[i] == a && s[i + 1] == b && s[i + 2] == c && s[i + 3] == d
    && s[i + 4] == e && s[i + 5] == f && s[i + 6] == g && s[i + 7] == h
  }

  // ----- The message -----

  const ABC: seq<Byte> := [0x61, 0x62, 0x63]

  lemma BitsStep(n: nat, b: Word, r: Word)
    requires n > 0 && Bits(n / 2) == b && r == (b << 1) | (if n % 2 == 1 then 1 else 0)
    ensures Bits(n) == r
  {
  }

  lemma BitsOfBytes()
    ensures Bits(0x61) == 0x61 && Bits(0x62) == 0x62 && Bits(0x63) == 0x63 && Bits(0x80) == 0x80
    ensures Bits(0) == 0 && Bits(24) == 24
  {
    BitsStep(1, 0, 1);
    BitsStep(3, 1, 3);
    BitsStep(6, 3, 6);
    BitsStep(12, 6, 12);
    BitsStep(24, 12, 24);
    BitsStep(48, 24, 48);
    BitsStep(97, 48, 97);
    BitsStep(49, 24, 49);
    BitsStep(98, 49, 98);
    BitsStep(99, 49, 99);
    BitsStep(2, 1, 2);
    BitsStep(4, 2, 4);
    BitsStep(8, 4, 8);
    BitsStep(16, 8, 16);
    BitsStep(32, 16, 32);
    BitsStep(64, 32, 64);
    BitsStep(128, 64, 128);
  }

  lemma LengthBytes()
    ensures BigEndian(24, 8) == [0, 0, 0, 0, 0, 0, 0, 24]
  {
    assert BigEndian(0, 4) == [0, 0, 0, 0];
    assert BigEndian(0, 7) == BigEndian(0, 4) + [0] + [0] + [0];
  }

  lemma PaddedMessage()
    ensures var p := Pad(ABC);
            && |p| == 64 && p[..4] == [0x61, 0x62, 0x63, 0x80] && p[63] == 24
            && forall i :: 4 <= i < 63 ==> p[i] == 0
  {
    assert ZeroBytes(3) == 52 && BitLength(3) == 24;
    LengthBytes();
    assert |ABC| == 3;
  }

  lemma WordFromBytes(block: seq<Byte>, i: nat, a: Word, b: Word, c: Word, d: Word, r: Word)
    requires 4 * i + 4 <= |block|
    requires Bits(block[4 * i] as nat) == a && Bits(block[4 * i + 1] as nat) == b
    requires Bits(block[4 * i + 2] as nat) == c && Bits(block[4 * i + 3] as nat) == d
    requires (a << 24) | (b << 16) | (c << 8) | d == r
    ensures WordAt(block, i) == r
  {
  }

  lemma MessageWords()
    ensures |Pad(ABC)| == 64
    ensures Has(WordsOf(Pad(ABC)), 0, 0x61626380, 0, 0, 0, 0, 0, 0, 0)
    ensures Has(WordsOf(Pad(ABC)), 8, 0, 0, 0, 0, 0, 0, 0, 24)
  {
    PaddedMessage();
    BitsOfBytes();
    var p := Pad(ABC);
    assert p[0] == p[..4][0] && p[1] == p[..4][1] && p[2] == p[..4][2] && p[3] == p[..4][3];
    WordFromBytes(p, 0, 0x61, 0x62, 0x63, 0x80, 0x61626380);
    WordFromBytes(p, 15, 0, 0, 0, 24, 24);
    forall i | 1 <= i < 15
      ensures WordAt(p, i) == 0
    {
      WordFromBytes(p, i, 0, 0, 0, 0, 0);
    }
  }

  // ----- The message schedule -----

  /** Every word from the seventeenth on comes from the sixteen before it. */
  ghost predicate IsSchedule(w: seq<Word>) {
    |w| == 64 && forall t: nat {:trigger w[..t]} :: 16 <= t < 64 ==> w[t] == NextWord(w[..t])
  }

  lemma {:induction false} ScheduleIsSchedule(w: seq<Word>)
    requires 16 <= |w| <= 64
    requires forall t: nat {:trigger w[..t]} :: 16 <= t < |w| ==> w[t] == NextWord(w[..t])
    ensures IsSchedule(Schedule(w)) && Schedule(w)[..|w|] == w
    decreases 64 - |w|
  {
    if |w| < 64 {
      var v := w + [NextWord(w)];
      forall t: nat | 16 <= t < |v|
        ensures v[t] == NextWord(v[..t])
      {
        assert v[..t] == w[..t] && (t == |w| ==> w[..t] == w);
      }
      ScheduleIsSchedule(v);
      assert Schedule(v)[..|w|] == Schedule(v)[..|v|][..|w|];
    } else {
      assert w[..64] == w;
    }
  }

  lemma NextIs(w: seq<Word>, t: nat, p: Word, q: Word, r: Word, s: Word, next: Word)
    requires IsSchedule(w) && 16 <= t < 64 && w[t - 2] == p && w[t - 7] == q && w[t - 15] == r && w[t - 16] == s
    requires Sum(Sum(Sum(SmallSigma1(p), q), SmallSigma0(r)), s) == next
    ensures w[t] == next
  {
    assert w[..t][t - 2] == w[t - 2];
  }

  lemma Schedule16(w: seq<Word>)
    requires IsSchedule(w)
    requires Has(w, 0, 0x61626380, 0x00000000, 0x00000000, 0x00000000, 0x00000000, 0x00000000, 0x00000000, 0x00000000)
    requires Has(w, 8, 0x00000000, 0x00000000, 0x00000000, 0x00000000, 0x00000000, 0x00000000, 0x00000000, 0x00000018)
    ensures Has(w, 16, 0x61626380, 0x000f0000, 0x7da86405, 0x600003c6, 0x3e9d7b78, 0x0183fc00, 0x12dcbfdb, 0xe2e2c38e)
  {
    NextIs(w, 16, 0x00000000, 0x00000000, 0x00000000, 0x61626380, 0x61626380);
    NextIs(w, 17, 0x00000018, 0x00000000, 0x00000000, 0x00000000, 0x000f0000);
    NextIs(w, 18, 0x61626380, 0x00000000, 0x00000000, 0x00000000, 0x7da86405);
    NextIs(w, 19, 0x000f0000, 0x00000000, 0x00000000, 0x00000000, 0x600003c6);
    NextIs(w, 20, 0x7da86405, 0x00000000, 0x00000000, 0x00000000, 0x3e9d7b78);
    NextIs(w, 21, 0x600003c6, 0x00000000, 0x00000000, 0x00000000, 0x0183fc00);
    NextIs(w, 22, 0x3e9d7b78, 0x00000018, 0x00000000, 0x00000000, 0x12dcbfdb);
    NextIs(w, 23, 0x0183fc00, 0x61626380, 0x00000000, 0x00000000, 0xe2e2c38e);
  }

  lemma Schedule24(w: seq<Word>)
    requires IsSchedule(w)
    requires Has(w, 8, 0x00000000, 0x00000000, 0x00000000, 0x00000000, 0x00000000, 0x00000000, 0x00000000, 0x00000018)
    requires Has(w, 16, 0x61626380, 0x000f0000, 0x7da86405, 0x600003c6, 0x3e9d7b78, 0x0183fc00, 0x12dcbfdb, 0xe2e2c38e)
    ensures Has(w, 24, 0xc8215c1a, 0xb73679a2, 0xe5bc3909, 0x32663c5b, 0x9d209d67, 0xec8726cb, 0x702138a4, 0xd3b7973b)
  {
    NextIs(w, 24, 0x12dcbfdb, 0x000f0000, 0x00000000, 0x00000000, 0xc8215c1a);
    NextIs(w, 25, 0xe2e2c38e, 0x7da86405, 0x00000000, 0x00000000, 0xb73679a2);
    NextIs(w, 26, 0xc8215c1a, 0x600003c6, 0x00000000, 0x00000000, 0xe5bc3909);
    NextIs(w, 27, 0xb73679a2, 0x3e9d7b78, 0x00000000, 0x00000000, 0x32663c5b);
    NextIs(w, 28, 0xe5bc3909, 0x0183fc00, 0x00000000, 0x00000000, 0x9d209d67);
    NextIs(w, 29, 0x32663c5b, 0x12dcbfdb, 0x00000000, 0x00000000, 0xec8726cb);
    NextIs(w, 30, 0x9d209d67, 0xe2e2c38e, 0x00000018, 0x00000000, 0x702138a4);
    NextIs(w, 31, 0xec8726cb, 0xc8215c1a, 0x61626380, 0x00000018, 0xd3b7973b);
  }

  lemma Schedule32(w: seq<Word>)
    requires IsSchedule(w)
    requires Has(w, 16, 0x61626380, 0x000f0000, 0x7da86405, 0x600003c6, 0x3e9d7b78, 0x0183fc00, 0x12dcbfdb, 0xe2e2c38e)
    requires Has(w, 24, 0xc8215c1a, 0xb73679a2, 0xe5bc3909, 0x32663c5b, 0x9d209d67, 0xec8726cb, 0x702138a4, 0xd3b7973b)
    ensures Has(w, 32, 0x93f5997f, 0x3b68ba73, 0xaff4ffc1, 0xf10a5c62, 0x0a8b3996, 0x72af830a, 0x9409e33e, 0x24641522)
  {
    NextIs(w, 32, 0x702138a4, 0xb73679a2, 0x000f0000, 0x61626380, 0x93f5997f);
    NextIs(w, 33, 0xd3b7973b, 0xe5bc3909, 0x7da86405, 0x000f0000, 0x3b68ba73);
    NextIs(w, 34, 0x93f5997f, 0x32663c5b, 0x600003c6, 0x7da86405, 0xaff4ffc1);
    NextIs(w, 35, 0x3b68ba73, 0x9d209d67, 0x3e9d7b78, 0x600003c6, 0xf10a5c62);
    NextIs(w, 36, 0xaff4ffc1, 0xec8726cb, 0x0183fc00, 0x3e9d7b78, 0x0a8b3996);
    NextIs(w, 37, 0xf10a5c62, 0x702138a4, 0x12dcbfdb, 0x0183fc00, 0x72af830a);
    NextIs(w, 38, 0x0a8b3996, 0xd3b7973b, 0xe2e2c38e, 0x12dcbfdb, 0x9409e33e);
    NextIs(w, 39, 0x72af830a, 0x93f5997f, 0xc8215c1a, 0xe2e2c38e, 0x24641522);
  }

  lemma Schedule40(w: seq<Word>)
    requires IsSchedule(w)
    requires Has(w, 24, 0xc8215c1a, 0xb73679a2, 0xe5bc3909, 0x32663c5b, 0x9d209d67, 0xec8726cb, 0x702138a4, 0xd3b7973b)
    requires Has(w, 32, 0x93f5997f, 0x3b68ba73, 0xaff4ffc1, 0xf10a5c62, 0x0a8b3996, 0x72af830a, 0x9409e33e, 0x24641522)
    ensures Has(w, 40, 0x9f47bf94, 0xf0a64f5a, 0x3e246a79, 0x27333ba3, 0x0c4763f2, 0x840abf27, 0x7a290d5d, 0x065c43da)
  {
    NextIs(w, 40, 0x9409e33e, 0x3b68ba73, 0xb73679a2, 0xc8215c1a, 0x9f47bf94);
    NextIs(w, 41, 0x24641522, 0xaff4ffc1, 0xe5bc3909, 0xb73679a2, 0xf0a64f5a);
    NextIs(w, 42, 0x9f47bf94, 0xf10a5c62, 0x32663c5b, 0xe5bc3909, 0x3e246a79);
    NextIs(w, 43, 0xf0a64f5a, 0x0a8b3996, 0x9d209d67, 0x32663c5b, 0x27333ba3);
    NextIs(w, 44, 0x3e246a79, 0x72af830a, 0xec8726cb, 0x9d209d67, 0x0c4763f2);
    NextIs(w, 45, 0x27333ba3, 0x9409e33e, 0x702138a4, 0xec8726cb, 0x840abf27);
    NextIs(w, 46, 0x0c4763f2, 0x24641522, 0xd3b7973b, 0x702138a4, 0x7a290d5d);
    NextIs(w, 47, 0x840abf27, 0x9f47bf94, 0x93f5997f, 0xd3b7973b, 0x065c43da);
  }

  lemma Schedule48(w: seq<Word>)
    requires IsSchedule(w)
    requires Has(w, 32, 0x93f5997f, 0x3b68ba73, 0xaff4ffc1, 0xf10a5c62, 0x0a8b3996, 0x72af830a, 0x9409e33e, 0x24641522)
    requires Has(w, 40, 0x9f47bf94, 0xf0a64f5a, 0x3e246a79, 0x27333ba3, 0x0c4763f2, 0x840abf27, 0x7a290d5d, 0x065c43da)
    ensures Has(w, 48, 0xfb3e89cb, 0xcc7617db, 0xb9e66c34, 0xa9993667, 0x84badedd, 0xc21462bc, 0x1487472c, 0xb20f7a99)
  {
    NextIs(w, 48, 0x7a290d5d, 0xf0a64f5a, 0x3b68ba73, 0x93f5997f, 0xfb3e89cb);
    NextIs(w, 49, 0x065c43da, 0x3e246a79, 0xaff4ffc1, 0x3b68ba73, 0xcc7617db);
    NextIs(w, 50, 0xfb3e89cb, 0x27333ba3, 0xf10a5c62, 0xaff4ffc1, 0xb9e66c34);
    NextIs(w, 51, 0xcc7617db, 0x0c4763f2, 0x0a8b3996, 0xf10a5c62, 0xa9993667);
    NextIs(w, 52, 0xb9e66c34, 0x840abf27, 0x72af830a, 0x0a8b3996, 0x84badedd);
    NextIs(w, 53, 0xa9993667, 0x7a290d5d, 0x9409e33e, 0x72af830a, 0xc21462bc);
    NextIs(w, 54, 0x84badedd, 0x065c43da, 0x24641522, 0x9409e33e, 0x1487472c);
    NextIs(w, 55, 0xc21462bc, 0xfb3e89cb, 0x9f47bf94, 0x24641522, 0xb20f7a99);
  }

  lemma Schedule56(w: seq<Word>)
    requires IsSchedule(w)
    requires Has(w, 40, 0x9f47bf94, 0xf0a64f5a, 0x3e246a79, 0x27333ba3, 0x0c4763f2, 0x840abf27, 0x7a290d5d, 0x065c43da)
    requires Has(w, 48, 0xfb3e89cb, 0xcc7617db, 0xb9e66c34, 0xa9993667, 0x84badedd, 0xc21462bc, 0x1487472c, 0xb20f7a99)
    ensures Has(w, 56, 0xef57b9cd, 0xebe6b238, 0x9fe3095e, 0x78bc8d4b, 0xa43fcf15, 0x668b2ff8, 0xeeaba2cc, 0x12b1edeb)
  {
    NextIs(w, 56, 0x1487472c, 0xcc7617db, 0xf0a64f5a, 0x9f47bf94, 0xef57b9cd);
    NextIs(w, 57, 0xb20f7a99, 0xb9e66c34, 0x3e246a79, 0xf0a64f5a, 0xebe6b238);
    NextIs(w, 58, 0xef57b9cd, 0xa9993667, 0x27333ba3, 0x3e246a79, 0x9fe3095e);
    NextIs(w, 59, 0xebe6b238, 0x84badedd, 0x0c4763f2, 0x27333ba3, 0x78bc8d4b);
    NextIs(w, 60, 0x9fe3095e, 0xc21462bc, 0x840abf27, 0x0c4763f2, 0xa43fcf15);
    NextIs(w, 61, 0x78bc8d4b, 0x1487472c, 0x7a290d5d, 0x840abf27, 0x668b2ff8);
    NextIs(w, 62, 0xa43fcf15, 0xb20f7a99, 0x065c43da, 0x7a290d5d, 0xeeaba2cc);
    NextIs(w, 63, 0x668b2ff8, 0xef57b9cd, 0xfb3e89cb, 0x065c43da, 0x12b1edeb);
  }

  ghost predicate ExampleSchedule(w: seq<Word>) {
    && Has(w, 0, 0x61626380, 0x00000000, 0x00000000, 0x00000000, 0x00000000, 0x00000000, 0x00000000, 0x00000000)
    && Has(w, 8, 0x00000000, 0x00000000, 0x00000000, 0x00000000, 0x00000000, 0x00000000, 0x00000000, 0x00000018)
    && Has(w, 16, 0x61626380, 0x000f0000, 0x7da86405, 0x600003c6, 0x3e9d7b78, 0x0183fc00, 0x12dcbfdb, 0xe2e2c38e)
    && Has(w, 24, 0xc8215c1a, 0xb73679a2, 0xe5bc3909, 0x32663c5b, 0x9d209d67, 0xec8726cb, 0x702138a4, 0xd3b7973b)
    && Has(w, 32, 0x93f5997f, 0x3b68ba73, 0xaff4ffc1, 0xf10a5c62, 0x0a8b3996, 0x72af830a, 0x9409e33e, 0x24641522)
    && Has(w, 40, 0x9f47bf94, 0xf0a64f5a, 0x3e246a79, 0x27333ba3, 0x0c4763f2, 0x840abf27, 0x7a290d5d, 0x065c43da)
    && Has(w, 48, 0xfb3e89cb, 0xcc7617db, 0xb9e66c34, 0xa9993667, 0x84badedd, 0xc21462bc, 0x1487472c, 0xb20f7a99)
    && Has(w, 56, 0xef57b9cd, 0xebe6b238, 0x9fe3095e, 0x78bc8d4b, 0xa43fcf15, 0x668b2ff8, 0xeeaba2cc, 0x12b1edeb)
  }

  lemma ScheduleWords(w: seq<Word>)
    requires IsSchedule(w)
    requires Has(w, 0, 0x61626380, 0, 0, 0, 0, 0, 0, 0) && Has(w, 8, 0, 0, 0, 0, 0, 0, 0, 24)
    ensures ExampleSchedule(w)
  {
    Schedule16(w);
    Schedule24(w);
    Schedule32(w);
    Schedule40(w);
    Schedule48(w);
    Schedule56(w);
  }

  // ----- The round constants -----

  predicate Entry(t: nat) { t < 64 }

  /** The constants, looked up only where `Entry` is mentioned. */
  ghost predicate IsTable(k: seq<Word>, table: Table) {
    |k| == 64 && forall t: nat {:trigger Entry(t)} :: Entry(t) ==> k[t] == Constant(table, t)
  }

  lemma ConstantIs(k: seq<Word>, table: Table, t: nat, v: nat, word: Word)
    requires IsTable(k, table) && t < 64 && v < TWO32 && ToWord(v) == word
    requires if table.Program? then ProgramValue(t) == v else FipsValue(t) == v
    ensures k[t] == word
  {
    assert Entry(t);
  }

  lemma Encoded0()
    ensures ToWord(0x428a2f98) == 0x428a2f98 && ToWord(0x71374491) == 0x71374491 && ToWord(0xb5c0fbcf) == 0xb5c0fbcf
    ensures ToWord(0xe9b5dba5) == 0xe9b5dba5 && ToWord(0x3956c25b) == 0x3956c25b && ToWord(0x59f111f1) == 0x59f111f1
    ensures ToWord(0x923f82a4) == 0x923f82a4 && ToWord(0xab1c5ed5) == 0xab1c5ed5
  {
  }

  lemma Constants0(k: seq<Word>, table: Table)
    requires IsTable(k, table)
    ensures Has(k, 0, 0x428a2f98, 0x71374491, 0xb5c0fbcf, 0xe9b5dba5, 0x3956c25b, 0x59f111f1, 0x923f82a4, 0xab1c5ed5)
  {
    Encoded0();
    ConstantIs(k, table, 0, 0x428a2f98, 0x428a2f98);
    ConstantIs(k, table, 1, 0x71374491, 0x71374491);
    ConstantIs(k, table, 2, 0xb5c0fbcf, 0xb5c0fbcf);
    ConstantIs(k, table, 3, 0xe9b5dba5, 0xe9b5dba5);
    ConstantIs(k, table, 4, 0x3956c25b, 0x3956c25b);
    ConstantIs(k, table, 5, 0x59f111f1, 0x59f111f1);
    ConstantIs(k, table, 6, 0x923f82a4, 0x923f82a4);
    ConstantIs(k, table, 7, 0xab1c5ed5, 0xab1c5ed5);
  }

  lemma Encoded8()
    ensures ToWord(0xd807aa98) == 0xd807aa98 && ToWord(0x12835b01) == 0x12835b01 && ToWord(0x243185be) == 0x243185be
    ensures ToWord(0x550c7dc3) == 0x550c7dc3 && ToWord(0x72be5d74) == 0x72be5d74 && ToWord(0x80deb1fe) == 0x80deb1fe
    ensures ToWord(0x9bdc06a7) == 0x9bdc06a7 && ToWord(0xc19bf174) == 0xc19bf174
  {
  }

  lemma Constants8(k: seq<Word>, table: Table)
    requires IsTable(k, table)
    ensures Has(k, 8, 0xd807aa98, 0x12835b01, 0x243185be, 0x550c7dc3, 0x72be5d74, 0x80deb1fe, 0x9bdc06a7, 0xc19bf174)
  {
    Encoded8();
    ConstantIs(k, table, 8, 0xd807aa98, 0xd807aa98);
    ConstantIs(k, table, 9, 0x12835b01, 0x12835b01);
    ConstantIs(k, table, 10, 0x243185be, 0x243185be);
    ConstantIs(k, table, 11, 0x550c7dc3, 0x550c7dc3);
    ConstantIs(k, table, 12, 0x72be5d74, 0x72be5d74);
    ConstantIs(k, table, 13, 0x80deb1fe, 0x80deb1fe);
    ConstantIs(k, table, 14, 0x9bdc06a7, 0x9bdc06a7);
    ConstantIs(k, table, 15, 0xc19bf174, 0xc19bf174);
  }

  lemma Encoded16()
    ensures ToWord(0xe49b69c1) == 0xe49b69c1 && ToWord(0xefbe4786) == 0xefbe4786 && ToWord(0x0fc19dc6) == 0x0fc19dc6
    ensures ToWord(0x240ca1cc) == 0x240ca1cc && ToWord(0x2de92c6f) == 0x2de92c6f && ToWord(0x4a7484aa) == 0x4a7484aa
    ensures ToWord(0x5cb0a9dc) == 0x5cb0a9dc && ToWord(0x76f988da) == 0x76f988da
  {
  }

  lemma Constants16(k: seq<Word>, table: Table)
    requires IsTable(k, table)
    ensures Has(k, 16, 0xe49b69c1, 0xefbe4786, 0x0fc19dc6, 0x240ca1cc, 0x2de92c6f, 0x4a7484aa, 0x5cb0a9dc, 0x76f988da)
  {
    Encoded16();
    ConstantIs(k, table, 16, 0xe49b69c1, 0xe49b69c1);
    ConstantIs(k, table, 17, 0xefbe4786, 0xefbe4786);
    ConstantIs(k, table, 18, 0x0fc19dc6, 0x0fc19dc6);
    ConstantIs(k, table, 19, 0x240ca1cc, 0x240ca1cc);
    ConstantIs(k, table, 20, 0x2de92c6f, 0x2de92c6f);
    ConstantIs(k, table, 21, 0x4a7484aa, 0x4a7484aa);
    ConstantIs(k, table, 22, 0x5cb0a9dc, 0x5cb0a9dc);
    ConstantIs(k, table, 23, 0x76f988da, 0x76f988da);
  }

  lemma Encoded24()
    ensures ToWord(0x983e5152) == 0x983e5152 && ToWord(0xa831c66d) == 0xa831c66d && ToWord(0xb00327c8) == 0xb00327c8
    ensures ToWord(0xbf597fc7) == 0xbf597fc7 && ToWord(0xc6e00bf3) == 0xc6e00bf3 && ToWord(0xd5a79147) == 0xd5a79147
    ensures ToWord(0x06ca6351) == 0x06ca6351 && ToWord(0x14292967) == 0x14292967
  {
  }

  lemma Constants24(k: seq<Word>, table: Table)
    requires IsTable(k, table)
    ensures Has(k, 24, 0x983e5152, 0xa831c66d, 0xb00327c8, 0xbf597fc7, 0xc6e00bf3, 0xd5a79147, 0x06ca6351, 0x14292967)
  {
    Encoded24();
    ConstantIs(k, table, 24, 0x983e5152, 0x983e5152);
    ConstantIs(k, table, 25, 0xa831c66d, 0xa831c66d);
    ConstantIs(k, table, 26, 0xb00327c8, 0xb00327c8);
    ConstantIs(k, table, 27, 0xbf597fc7, 0xbf597fc7);
    ConstantIs(k, table, 28, 0xc6e00bf3, 0xc6e00bf3);
    ConstantIs(k, table, 29, 0xd5a79147, 0xd5a79147);
    ConstantIs(k, table, 30, 0x06ca6351, 0x06ca6351);
    ConstantIs(k, table, 31, 0x14292967, 0x14292967);
  }

  lemma Encoded32()
    ensures ToWord(0x27b70a85) == 0x27b70a85 && ToWord(0x2e1b2138) == 0x2e1b2138 && ToWord(0x4d2c6dfc) == 0x4d2c6dfc
    ensures ToWord(0x53380d13) == 0x53380d13 && ToWord(0x650a7354) == 0x650a7354 && ToWord(0x766a0abb) == 0x766a0abb
    ensures ToWord(0x81c2c92e) == 0x81c2c92e && ToWord(0x92722c85) == 0x92722c85
  {
  }

  lemma Constants32(k: seq<Word>, table: Table)
    requires IsTable(k, table)
    ensures Has(k, 32, 0x27b70a85, 0x2e1b2138, 0x4d2c6dfc, 0x53380d13, 0x650a7354, 0x766a0abb, 0x81c2c92e, 0x92722c85)
  {
    Encoded32();
    ConstantIs(k, table, 32, 0x27b70a85, 0x27b70a85);
    ConstantIs(k, table, 33, 0x2e1b2138, 0x2e1b2138);
    ConstantIs(k, table, 34, 0x4d2c6dfc, 0x4d2c6dfc);
    ConstantIs(k, table, 35, 0x53380d13, 0x53380d13);
    ConstantIs(k, table, 36, 0x650a7354, 0x650a7354);
    ConstantIs(k, table, 37, 0x766a0abb, 0x766a0abb);
    ConstantIs(k, table, 38, 0x81c2c92e, 0x81c2c92e);
    ConstantIs(k, table, 39, 0x92722c85, 0x92722c85);
  }

  lemma Encoded40()
    ensures ToWord(0xa2bfe8a1) == 0xa2bfe8a1 && ToWord(0xa81a664b) == 0xa81a664b && ToWord(0xc24b8b70) == 0xc24b8b70
    ensures ToWord(0xc76c51a3) == 0xc76c51a3 && ToWord(0xd192e819) == 0xd192e819 && ToWord(0xd6990624) == 0xd6990624
    ensures ToWord(0xf40e3585) == 0xf40e3585 && ToWord(0x106aa070) == 0x106aa070
  {
  }

  lemma Constants40(k: seq<Word>, table: Table)
    requires IsTable(k, table)
    ensures Has(k, 40, 0xa2bfe8a1, 0xa81a664b, 0xc24b8b70, 0xc76c51a3, 0xd192e819, 0xd6990624, 0xf40e3585, 0x106aa070)
  {
    Encoded40();
    ConstantIs(k, table, 40, 0xa2bfe8a1, 0xa2bfe8a1);
    ConstantIs(k, table, 41, 0xa81a664b, 0xa81a664b);
    ConstantIs(k, table, 42, 0xc24b8b70, 0xc24b8b70);
    ConstantIs(k, table, 43, 0xc76c51a3, 0xc76c51a3);
    ConstantIs(k, table, 44, 0xd192e819, 0xd192e819);
    ConstantIs(k, table, 45, 0xd6990624, 0xd6990624);
    ConstantIs(k, table, 46, 0xf40e3585, 0xf40e3585);
    ConstantIs(k, table, 47, 0x106aa070, 0x106aa070);
  }

  lemma Encoded48()
    ensures ToWord(0x19a4c116) == 0x19a4c116 && ToWord(0x1e376c08) == 0x1e376c08 && ToWord(0x2748774c) == 0x2748774c
    ensures ToWord(0x34b0bcb5) == 0x34b0bcb5 && ToWord(0x391c0cb3) == 0x391c0cb3 && ToWord(0x4ed8aa4a) == 0x4ed8aa4a
    ensures ToWord(0x5b9cca4f) == 0x5b9cca4f && ToWord(0x682e6ff3) == 0x682e6ff3
  {
  }

  lemma Constants48(k: seq<Word>, table: Table)
    requires IsTable(k, table)
    ensures Has(k, 48, 0x19a4c116, 0x1e376c08, 0x2748774c, 0x34b0bcb5, 0x391c0cb3, 0x4ed8aa4a, 0x5b9cca4f, 0x682e6ff3)
  {
    Encoded48();
    ConstantIs(k, table, 48, 0x19a4c116, 0x19a4c116);
    ConstantIs(k, table, 49, 0x1e376c08, 0x1e376c08);
    ConstantIs(k, table, 50, 0x2748774c, 0x2748774c);
    ConstantIs(k, table, 51, 0x34b0bcb5, 0x34b0bcb5);
    ConstantIs(k, table, 52, 0x391c0cb3, 0x391c0cb3);
    ConstantIs(k, table, 53, 0x4ed8aa4a, 0x4ed8aa4a);
    ConstantIs(k, table, 54, 0x5b9cca4f, 0x5b9cca4f);
    ConstantIs(k, table, 55, 0x682e6ff3, 0x682e6ff3);
  }

  lemma Encoded56()
    ensures ToWord(0x748f82ee) == 0x748f82ee && ToWord(0x78a5636f) == 0x78a5636f && ToWord(0x84c87814) == 0x84c87814
    ensures ToWord(0x8cc70208) == 0x8cc70208 && ToWord(0x90befffa) == 0x90befffa && ToWord(0xa4506ceb) == 0xa4506ceb
    ensures ToWord(0xc67178f2) == 0xc67178f2
  {
  }

  lemma StandardConstants56(k: seq<Word>)
    requires IsTable(k, Standard)
    ensures Has(k, 56, 0x748f82ee, 0x78a5636f, 0x84c87814, 0x8cc70208, 0x90befffa, 0xa4506ceb, 0xbef9a3f7, 0xc67178f2)
  {
    Encoded56();
    WordsOfEntry62();
    ConstantIs(k, Standard, 56, 0x748f82ee, 0x748f82ee);
    ConstantIs(k, Standard, 57, 0x78a5636f, 0x78a5636f);
    ConstantIs(k, Standard, 58, 0x84c87814, 0x84c87814);
    ConstantIs(k, Standard, 59, 0x8cc70208, 0x8cc70208);
    ConstantIs(k, Standard, 60, 0x90befffa, 0x90befffa);
    ConstantIs(k, Standard, 61, 0xa4506ceb, 0xa4506ceb);
    ConstantIs(k, Standard, 62, 0xbef9a3f7, 0xbef9a3f7);
    ConstantIs(k, Standard, 63, 0xc67178f2, 0xc67178f2);
  }

  lemma ProgramConstants56(k: seq<Word>)
    requires IsTable(k, Program)
    ensures Has(k, 56, 0x748f82ee, 0x78a5636f, 0x84c87814, 0x8cc70208, 0x90befffa, 0xa4506ceb, 0xbef4a9f7, 0xc67178f2)
  {
    Encoded56();
    WordsOfEntry62();
    ConstantIs(k, Program, 56, 0x748f82ee, 0x748f82ee);
    ConstantIs(k, Program, 57, 0x78a5636f, 0x78a5636f);
    ConstantIs(k, Program, 58, 0x84c87814, 0x84c87814);
    ConstantIs(k, Program, 59, 0x8cc70208, 0x8cc70208);
    ConstantIs(k, Program, 60, 0x90befffa, 0x90befffa);
    ConstantIs(k, Program, 61, 0xa4506ceb, 0xa4506ceb);
    ConstantIs(k, Program, 62, 0xbef4a9f7, 0xbef4a9f7);
    ConstantIs(k, Program, 63, 0xc67178f2, 0xc67178f2);
  }

  // ----- The rounds -----

  /** The working variables after `t` rounds. */
  ghost predicate At(k: seq<Word>, w: seq<Word>, t: nat,
                     a: Word, b: Word, c: Word, d: Word, e: Word, f: Word, g: Word, h: Word) {
    t <= |k| == |w| && Rounds(k[..t], w[..t], INITIAL) == Hash(a, b, c, d, e, f, g, h)
  }

  /** One round: only `a` and `e` are new. */
  lemma RoundIs(k: seq<Word>, w: seq<Word>, t: nat,
                a: Word, b: Word, c: Word, d: Word, e: Word, f: Word, g: Word, h: Word,
                kt: Word, wt: Word, a': Word, e': Word)
    requires t < |k| == |w| && k[t] == kt && w[t] == wt && At(k, w, t, a, b, c, d, e, f, g, h)
    requires Round(Hash(a, b, c, d, e, f, g, h), kt, wt) == Hash(a', a, b, c, e', e, f, g)
    ensures At(k, w, t + 1, a', a, b, c, e', e, f, g)
  {
    RoundsSnoc(k, w, INITIAL, t);
  }

  lemma Rounds0(k: seq<Word>, w: seq<Word>)
    requires |k| == |w| == 64
    requires Has(k, 0, 0x428a2f98, 0x71374491, 0xb5c0fbcf, 0xe9b5dba5, 0x3956c25b, 0x59f111f1, 0x923f82a4, 0xab1c5ed5)
    requires Has(w, 0, 0x61626380, 0x00000000, 0x00000000, 0x00000000, 0x00000000, 0x00000000, 0x00000000, 0x00000000)
    requires At(k, w, 0,
                0x6a09e667, 0xbb67ae85, 0x3c6ef372, 0xa54ff53a, 0x510e527f, 0x9b05688c, 0x1f83d9ab, 0x5be0cd19)
    ensures At(k, w, 8, 0x85a07b5f, 0xe5030380, 0x2b4209f5, 0x04409a6a, 0x0c657a79, 0x9b27a401, 0x714260ad, 0x43ada245)
  {
    RoundIs(k, w, 0, 0x6a09e667, 0xbb67ae85, 0x3c6ef372, 0xa54ff53a, 0x510e527f, 0x9b05688c, 0x1f83d9ab, 0x5be0cd19,
            0x428a2f98, 0x61626380, 0x5d6aebcd, 0xfa2a4622);
    RoundIs(k, w, 1, 0x5d6aebcd, 0x6a09e667, 0xbb67ae85, 0x3c6ef372, 0xfa2a4622, 0x510e527f, 0x9b05688c, 0x1f83d9ab,
            0x71374491, 0x00000000, 0x5a6ad9ad, 0x78ce7989);
    RoundIs(k, w, 2, 0x5a6ad9ad, 0x5d6aebcd, 0x6a09e667, 0xbb67ae85, 0x78ce7989, 0xfa2a4622, 0x510e527f, 0x9b05688c,
            0xb5c0fbcf, 0x00000000, 0xc8c347a7, 0xf92939eb);
    RoundIs(k, w, 3, 0xc8c347a7, 0x5a6ad9ad, 0x5d6aebcd, 0x6a09e667, 0xf92939eb, 0x78ce7989, 0xfa2a4622, 0x510e527f,
            0xe9b5dba5, 0x00000000, 0xd550f666, 0x24e00850);
    RoundIs(k, w, 4, 0xd550f666, 0xc8c347a7, 0x5a6ad9ad, 0x5d6aebcd, 0x24e00850, 0xf92939eb, 0x78ce7989, 0xfa2a4622,
            0x3956c25b, 0x00000000, 0x04409a6a, 0x43ada245);
    RoundIs(k, w, 5, 0x04409a6a, 0xd550f666, 0xc8c347a7, 0x5a6ad9ad, 0x43ada245, 0x24e00850, 0xf92939eb, 0x78ce7989,
            0x59f111f1, 0x00000000, 0x2b4209f5, 0x714260ad);
    RoundIs(k, w, 6, 0x2b4209f5, 0x04409a6a, 0xd550f666, 0xc8c347a7, 0x714260ad, 0x43ada245, 0x24e00850, 0xf92939eb,
            0x923f82a4, 0x00000000, 0xe5030380, 0x9b27a401);
    RoundIs(k, w, 7, 0xe5030380, 0x2b4209f5, 0x04409a6a, 0xd550f666, 0x9b27a401, 0x714260ad, 0x43ada245, 0x24e00850,
            0xab1c5ed5, 0x00000000, 0x85a07b5f, 0x0c657a79);
  }

  lemma Rounds8(k: seq<Word>, w: seq<Word>)
    requires |k| == |w| == 64
    requires Has(k, 8, 0xd807aa98, 0x12835b01, 0x243185be, 0x550c7dc3, 0x72be5d74, 0x80deb1fe, 0x9bdc06a7, 0xc19bf174)
    requires Has(w, 8, 0x00000000, 0x00000000, 0x00000000, 0x00000000, 0x00000000, 0x00000000, 0x00000000, 0x00000018)
    requires At(k, w, 8,
                0x85a07b5f, 0xe5030380, 0x2b4209f5, 0x04409a6a, 0x0c657a79, 0x9b27a401, 0x714260ad, 0x43ada245)
    ensures At(k, w, 16, 0xb0fa238e, 0xc0645fde, 0xd932eb16, 0x87912990, 0x07590dcd, 0x0b92f20c, 0x745a48de, 0x1e578218)
  {
    RoundIs(k, w, 8, 0x85a07b5f, 0xe5030380, 0x2b4209f5, 0x04409a6a, 0x0c657a79, 0x9b27a401, 0x714260ad, 0x43ada245,
            0xd807aa98, 0x00000000, 0x8e04ecb9, 0x32ca2d8c);
    RoundIs(k, w, 9, 0x8e04ecb9, 0x85a07b5f, 0xe5030380, 0x2b4209f5, 0x32ca2d8c, 0x0c657a79, 0x9b27a401, 0x714260ad,
            0x12835b01, 0x00000000, 0x8c87346b, 0x1cc92596);
    RoundIs(k, w, 10, 0x8c87346b, 0x8e04ecb9, 0x85a07b5f, 0xe5030380, 0x1cc92596, 0x32ca2d8c, 0x0c657a79, 0x9b27a401,
            0x243185be, 0x00000000, 0x4798a3f4, 0x436b23e8);
    RoundIs(k, w, 11, 0x4798a3f4, 0x8c87346b, 0x8e04ecb9, 0x85a07b5f, 0x436b23e8, 0x1cc92596, 0x32ca2d8c, 0x0c657a79,
            0x550c7dc3, 0x00000000, 0xf71fc5a9, 0x816fd6e9);
    RoundIs(k, w, 12, 0xf71fc5a9, 0x4798a3f4, 0x8c87346b, 0x8e04ecb9, 0x816fd6e9, 0x436b23e8, 0x1cc92596, 0x32ca2d8c,
            0x72be5d74, 0x00000000, 0x87912990, 0x1e578218);
    RoundIs(k, w, 13, 0x87912990, 0xf71fc5a9, 0x4798a3f4, 0x8c87346b, 0x1e578218, 0x816fd6e9, 0x436b23e8, 0x1cc92596,
            0x80deb1fe, 0x00000000, 0xd932eb16, 0x745a48de);
    RoundIs(k, w, 14, 0xd932eb16, 0x87912990, 0xf71fc5a9, 0x4798a3f4, 0x745a48de, 0x1e578218, 0x816fd6e9, 0x436b23e8,
            0x9bdc06a7, 0x00000000, 0xc0645fde, 0x0b92f20c);
    RoundIs(k, w, 15, 0xc0645fde, 0xd932eb16, 0x87912990, 0xf71fc5a9, 0x0b92f20c, 0x745a48de, 0x1e578218, 0x816fd6e9,
            0xc19bf174, 0x00000018, 0xb0fa238e, 0x07590dcd);
  }

  lemma Rounds16(k: seq<Word>, w: seq<Word>)
    requires |k| == |w| == 64
    requires Has(k, 16, 0xe49b69c1, 0xefbe4786, 0x0fc19dc6, 0x240ca1cc, 0x2de92c6f, 0x4a7484aa, 0x5cb0a9dc, 0x76f988da)
    requires Has(w, 16, 0x61626380, 0x000f0000, 0x7da86405, 0x600003c6, 0x3e9d7b78, 0x0183fc00, 0x12dcbfdb, 0xe2e2c38e)
    requires At(k, w, 16,
                0xb0fa238e, 0xc0645fde, 0xd932eb16, 0x87912990, 0x07590dcd, 0x0b92f20c, 0x745a48de, 0x1e578218)
    ensures At(k, w, 24, 0xc5d53d8d, 0xa7a3623f, 0xc2606d6d, 0x9dc68b63, 0xaa47c347, 0x49f5114a, 0xe1257970, 0x8ada8930)
  {
    RoundIs(k, w, 16, 0xb0fa238e, 0xc0645fde, 0xd932eb16, 0x87912990, 0x07590dcd, 0x0b92f20c, 0x745a48de, 0x1e578218,
            0xe49b69c1, 0x61626380, 0x21da9a9b, 0x8034229c);
    RoundIs(k, w, 17, 0x21da9a9b, 0xb0fa238e, 0xc0645fde, 0xd932eb16, 0x8034229c, 0x07590dcd, 0x0b92f20c, 0x745a48de,
            0xefbe4786, 0x000f0000, 0xc2fbd9d1, 0x846ee454);
    RoundIs(k, w, 18, 0xc2fbd9d1, 0x21da9a9b, 0xb0fa238e, 0xc0645fde, 0x846ee454, 0x8034229c, 0x07590dcd, 0x0b92f20c,
            0x0fc19dc6, 0x7da86405, 0xfe777bbf, 0xcc899961);
    RoundIs(k, w, 19, 0xfe777bbf, 0xc2fbd9d1, 0x21da9a9b, 0xb0fa238e, 0xcc899961, 0x846ee454, 0x8034229c, 0x07590dcd,
            0x240ca1cc, 0x600003c6, 0xe1f20c33, 0xb0638179);
    RoundIs(k, w, 20, 0xe1f20c33, 0xfe777bbf, 0xc2fbd9d1, 0x21da9a9b, 0xb0638179, 0xcc899961, 0x846ee454, 0x8034229c,
            0x2de92c6f, 0x3e9d7b78, 0x9dc68b63, 0x8ada8930);
    RoundIs(k, w, 21, 0x9dc68b63, 0xe1f20c33, 0xfe777bbf, 0xc2fbd9d1, 0x8ada8930, 0xb0638179, 0xcc899961, 0x846ee454,
            0x4a7484aa, 0x0183fc00, 0xc2606d6d, 0xe1257970);
    RoundIs(k, w, 22, 0xc2606d6d, 0x9dc68b63, 0xe1f20c33, 0xfe777bbf, 0xe1257970, 0x8ada8930, 0xb0638179, 0xcc899961,
            0x5cb0a9dc, 0x12dcbfdb, 0xa7a3623f, 0x49f5114a);
    RoundIs(k, w, 23, 0xa7a3623f, 0xc2606d6d, 0x9dc68b63, 0xe1f20c33, 0x49f5114a, 0xe1257970, 0x8ada8930, 0xb0638179,
            0x76f988da, 0xe2e2c38e, 0xc5d53d8d, 0xaa47c347);
  }

  lemma Rounds24(k: seq<Word>, w: seq<Word>)
    requires |k| == |w| == 64
    requires Has(k, 24, 0x983e5152, 0xa831c66d, 0xb00327c8, 0xbf597fc7, 0xc6e00bf3, 0xd5a79147, 0x06ca6351, 0x14292967)
    requires Has(w, 24, 0xc8215c1a, 0xb73679a2, 0xe5bc3909, 0x32663c5b, 0x9d209d67, 0xec8726cb, 0x702138a4, 0xd3b7973b)
    requires At(k, w, 24,
                0xc5d53d8d, 0xa7a3623f, 0xc2606d6d, 0x9dc68b63, 0xaa47c347, 0x49f5114a, 0xe1257970, 0x8ada8930)
    ensures At(k, w, 32, 0x73b33bf5, 0xea992a22, 0xa0060b30, 0x363482c9, 0xba591112, 0x0109ab3a, 0xade79437, 0x6112a3b7)
  {
    RoundIs(k, w, 24, 0xc5d53d8d, 0xa7a3623f, 0xc2606d6d, 0x9dc68b63, 0xaa47c347, 0x49f5114a, 0xe1257970, 0x8ada8930,
            0x983e5152, 0xc8215c1a, 0x1c2c2838, 0x2823ef91);
    RoundIs(k, w, 25, 0x1c2c2838, 0xc5d53d8d, 0xa7a3623f, 0xc2606d6d, 0x2823ef91, 0xaa47c347, 0x49f5114a, 0xe1257970,
            0xa831c66d, 0xb73679a2, 0xcde8037d, 0x14383d8e);
    RoundIs(k, w, 26, 0xcde8037d, 0x1c2c2838, 0xc5d53d8d, 0xa7a3623f, 0x14383d8e, 0x2823ef91, 0xaa47c347, 0x49f5114a,
            0xb00327c8, 0xe5bc3909, 0xb62ec4bc, 0xc74c6516);
    RoundIs(k, w, 27, 0xb62ec4bc, 0xcde8037d, 0x1c2c2838, 0xc5d53d8d, 0xc74c6516, 0x14383d8e, 0x2823ef91, 0xaa47c347,
            0xbf597fc7, 0x32663c5b, 0x77d37528, 0xedffbff8);
    RoundIs(k, w, 28, 0x77d37528, 0xb62ec4bc, 0xcde8037d, 0x1c2c2838, 0xedffbff8, 0xc74c6516, 0x14383d8e, 0x2823ef91,
            0xc6e00bf3, 0x9d209d67, 0x363482c9, 0x6112a3b7);
    RoundIs(k, w, 29, 0x363482c9, 0x77d37528, 0xb62ec4bc, 0xcde8037d, 0x6112a3b7, 0xedffbff8, 0xc74c6516, 0x14383d8e,
            0xd5a79147, 0xec8726cb, 0xa0060b30, 0xade79437);
    RoundIs(k, w, 30, 0xa0060b30, 0x363482c9, 0x77d37528, 0xb62ec4bc, 0xade79437, 0x6112a3b7, 0xedffbff8, 0xc74c6516,
            0x06ca6351, 0x702138a4, 0xea992a22, 0x0109ab3a);
    RoundIs(k, w, 31, 0xea992a22, 0xa0060b30, 0x363482c9, 0x77d37528, 0x0109ab3a, 0xade79437, 0x6112a3b7, 0xedffbff8,
            0x14292967, 0xd3b7973b, 0x73b33bf5, 0xba591112);
  }

  lemma Rounds32(k: seq<Word>, w: seq<Word>)
    requires |k| == |w| == 64
    requires Has(k, 32, 0x27b70a85, 0x2e1b2138, 0x4d2c6dfc, 0x53380d13, 0x650a7354, 0x766a0abb, 0x81c2c92e, 0x92722c85)
    requires Has(w, 32, 0x93f5997f, 0x3b68ba73, 0xaff4ffc1, 0xf10a5c62, 0x0a8b3996, 0x72af830a, 0x9409e33e, 0x24641522)
    requires At(k, w, 32,
                0x73b33bf5, 0xea992a22, 0xa0060b30, 0x363482c9, 0xba591112, 0x0109ab3a, 0xade79437, 0x6112a3b7)
    ensures At(k, w, 40, 0x79ea687a, 0x6dc57a8a, 0x34df1604, 0x41a65cb1, 0x1efbc0a0, 0xf0781bc8, 0xa507a53d, 0x0772a26b)
  {
    RoundIs(k, w, 32, 0x73b33bf5, 0xea992a22, 0xa0060b30, 0x363482c9, 0xba591112, 0x0109ab3a, 0xade79437, 0x6112a3b7,
            0x27b70a85, 0x93f5997f, 0x98e12507, 0x9cd9f5f6);
    RoundIs(k, w, 33, 0x98e12507, 0x73b33bf5, 0xea992a22, 0xa0060b30, 0x9cd9f5f6, 0xba591112, 0x0109ab3a, 0xade79437,
            0x2e1b2138, 0x3b68ba73, 0xfe604df5, 0x59249dd3);
    RoundIs(k, w, 34, 0xfe604df5, 0x98e12507, 0x73b33bf5, 0xea992a22, 0x59249dd3, 0x9cd9f5f6, 0xba591112, 0x0109ab3a,
            0x4d2c6dfc, 0xaff4ffc1, 0xa9a7738c, 0x085f3833);
    RoundIs(k, w, 35, 0xa9a7738c, 0xfe604df5, 0x98e12507, 0x73b33bf5, 0x085f3833, 0x59249dd3, 0x9cd9f5f6, 0xba591112,
            0x53380d13, 0xf10a5c62, 0x65a0cfe4, 0xf4b002d6);
    RoundIs(k, w, 36, 0x65a0cfe4, 0xa9a7738c, 0xfe604df5, 0x98e12507, 0xf4b002d6, 0x085f3833, 0x59249dd3, 0x9cd9f5f6,
            0x650a7354, 0x0a8b3996, 0x41a65cb1, 0x0772a26b);
    RoundIs(k, w, 37, 0x41a65cb1, 0x65a0cfe4, 0xa9a7738c, 0xfe604df5, 0x0772a26b, 0xf4b002d6, 0x085f3833, 0x59249dd3,
            0x766a0abb, 0x72af830a, 0x34df1604, 0xa507a53d);
    RoundIs(k, w, 38, 0x34df1604, 0x41a65cb1, 0x65a0cfe4, 0xa9a7738c, 0xa507a53d, 0x0772a26b, 0xf4b002d6, 0x085f3833,
            0x81c2c92e, 0x9409e33e, 0x6dc57a8a, 0xf0781bc8);
    RoundIs(k, w, 39, 0x6dc57a8a, 0x34df1604, 0x41a65cb1, 0x65a0cfe4, 0xf0781bc8, 0xa507a53d, 0x0772a26b, 0xf4b002d6,
            0x92722c85, 0x24641522, 0x79ea687a, 0x1efbc0a0);
  }

  lemma Rounds40(k: seq<Word>, w: seq<Word>)
    requires |k| == |w| == 64
    requires Has(k, 40, 0xa2bfe8a1, 0xa81a664b, 0xc24b8b70, 0xc76c51a3, 0xd192e819, 0xd6990624, 0xf40e3585, 0x106aa070)
    requires Has(w, 40, 0x9f47bf94, 0xf0a64f5a, 0x3e246a79, 0x27333ba3, 0x0c4763f2, 0x840abf27, 0x7a290d5d, 0x065c43da)
    requires At(k, w, 40,
                0x79ea687a, 0x6dc57a8a, 0x34df1604, 0x41a65cb1, 0x1efbc0a0, 0xf0781bc8, 0xa507a53d, 0x0772a26b)
    ensures At(k, w, 48, 0x4172328d, 0xa14c14b0, 0x72ab4b91, 0x26628815, 0xfecf0bc6, 0xd57b94a9, 0xb7755da1, 0xa80f11f0)
  {
    RoundIs(k, w, 40, 0x79ea687a, 0x6dc57a8a, 0x34df1604, 0x41a65cb1, 0x1efbc0a0, 0xf0781bc8, 0xa507a53d, 0x0772a26b,
            0xa2bfe8a1, 0x9f47bf94, 0xd6670766, 0x26352d63);
    RoundIs(k, w, 41, 0xd6670766, 0x79ea687a, 0x6dc57a8a, 0x34df1604, 0x26352d63, 0x1efbc0a0, 0xf0781bc8, 0xa507a53d,
            0xa81a664b, 0xf0a64f5a, 0xdf46652f, 0x838b2711);
    RoundIs(k, w, 42, 0xdf46652f, 0xd6670766, 0x79ea687a, 0x6dc57a8a, 0x838b2711, 0x26352d63, 0x1efbc0a0, 0xf0781bc8,
            0xc24b8b70, 0x3e246a79, 0x17aa0dfe, 0xdecd4715);
    RoundIs(k, w, 43, 0x17aa0dfe, 0xdf46652f, 0xd6670766, 0x79ea687a, 0xdecd4715, 0x838b2711, 0x26352d63, 0x1efbc0a0,
            0xc76c51a3, 0x27333ba3, 0x9d4baf93, 0xfda24c2e);
    RoundIs(k, w, 44, 0x9d4baf93, 0x17aa0dfe, 0xdf46652f, 0xd6670766, 0xfda24c2e, 0xdecd4715, 0x838b2711, 0x26352d63,
            0xd192e819, 0x0c4763f2, 0x26628815, 0xa80f11f0);
    RoundIs(k, w, 45, 0x26628815, 0x9d4baf93, 0x17aa0dfe, 0xdf46652f, 0xa80f11f0, 0xfda24c2e, 0xdecd4715, 0x838b2711,
            0xd6990624, 0x840abf27, 0x72ab4b91, 0xb7755da1);
    RoundIs(k, w, 46, 0x72ab4b91, 0x26628815, 0x9d4baf93, 0x17aa0dfe, 0xb7755da1, 0xa80f11f0, 0xfda24c2e, 0xdecd4715,
            0xf40e3585, 0x7a290d5d, 0xa14c14b0, 0xd57b94a9);
    RoundIs(k, w, 47, 0xa14c14b0, 0x72ab4b91, 0x26628815, 0x9d4baf93, 0xd57b94a9, 0xb7755da1, 0xa80f11f0, 0xfda24c2e,
            0x106aa070, 0x065c43da, 0x4172328d, 0xfecf0bc6);
  }

  lemma Rounds48(k: seq<Word>, w: seq<Word>)
    requires |k| == |w| == 64
    requires Has(k, 48, 0x19a4c116, 0x1e376c08, 0x2748774c, 0x34b0bcb5, 0x391c0cb3, 0x4ed8aa4a, 0x5b9cca4f, 0x682e6ff3)
    requires Has(w, 48, 0xfb3e89cb, 0xcc7617db, 0xb9e66c34, 0xa9993667, 0x84badedd, 0xc21462bc, 0x1487472c, 0xb20f7a99)
    requires At(k, w, 48,
                0x4172328d, 0xa14c14b0, 0x72ab4b91, 0x26628815, 0xfecf0bc6, 0xd57b94a9, 0xb7755da1, 0xa80f11f0)
    ensures At(k, w, 56, 0x38cc9913, 0x3ec45cdb, 0xf5702fdb, 0x101fd28f, 0x54cb266b, 0xe50e1b4f, 0x9f4787c3, 0x529e7d00)
  {
    RoundIs(k, w, 48, 0x4172328d, 0xa14c14b0, 0x72ab4b91, 0x26628815, 0xfecf0bc6, 0xd57b94a9, 0xb7755da1, 0xa80f11f0,
            0x19a4c116, 0xfb3e89cb, 0x05757ceb, 0xbd714038);
    RoundIs(k, w, 49, 0x05757ceb, 0x4172328d, 0xa14c14b0, 0x72ab4b91, 0xbd714038, 0xfecf0bc6, 0xd57b94a9, 0xb7755da1,
            0x1e376c08, 0xcc7617db, 0xf11bfaa8, 0x6e5c390c);
    RoundIs(k, w, 50, 0xf11bfaa8, 0x05757ceb, 0x4172328d, 0xa14c14b0, 0x6e5c390c, 0xbd714038, 0xfecf0bc6, 0xd57b94a9,
            0x2748774c, 0xb9e66c34, 0x7a0508a1, 0x52f1ccf7);
    RoundIs(k, w, 51, 0x7a0508a1, 0xf11bfaa8, 0x05757ceb, 0x4172328d, 0x52f1ccf7, 0x6e5c390c, 0xbd714038, 0xfecf0bc6,
            0x34b0bcb5, 0xa9993667, 0x886e7a22, 0x49231c1e);
    RoundIs(k, w, 52, 0x886e7a22, 0x7a0508a1, 0xf11bfaa8, 0x05757ceb, 0x49231c1e, 0x52f1ccf7, 0x6e5c390c, 0xbd714038,
            0x391c0cb3, 0x84badedd, 0x101fd28f, 0x529e7d00);
    RoundIs(k, w, 53, 0x101fd28f, 0x886e7a22, 0x7a0508a1, 0xf11bfaa8, 0x529e7d00, 0x49231c1e, 0x52f1ccf7, 0x6e5c390c,
            0x4ed8aa4a, 0xc21462bc, 0xf5702fdb, 0x9f4787c3);
    RoundIs(k, w, 54, 0xf5702fdb, 0x101fd28f, 0x886e7a22, 0x7a0508a1, 0x9f4787c3, 0x529e7d00, 0x49231c1e, 0x52f1ccf7,
            0x5b9cca4f, 0x1487472c, 0x3ec45cdb, 0xe50e1b4f);
    RoundIs(k, w, 55, 0x3ec45cdb, 0xf5702fdb, 0x101fd28f, 0x886e7a22, 0xe50e1b4f, 0x9f4787c3, 0x529e7d00, 0x49231c1e,
            0x682e6ff3, 0xb20f7a99, 0x38cc9913, 0x54cb266b);
  }

  lemma StandardRounds56(k: seq<Word>, w: seq<Word>)
    requires |k| == |w| == 64
    requires Has(k, 56, 0x748f82ee, 0x78a5636f, 0x84c87814, 0x8cc70208, 0x90befffa, 0xa4506ceb, 0xbef9a3f7, 0xc67178f2)
    requires Has(w, 56, 0xef57b9cd, 0xebe6b238, 0x9fe3095e, 0x78bc8d4b, 0xa43fcf15, 0x668b2ff8, 0xeeaba2cc, 0x12b1edeb)
    requires At(k, w, 56,
                0x38cc9913, 0x3ec45cdb, 0xf5702fdb, 0x101fd28f, 0x54cb266b, 0xe50e1b4f, 0x9f4787c3, 0x529e7d00)
    ensures At(k, w, 64, 0x506e3058, 0xd39a2165, 0x04d24d6c, 0xb85e2ce9, 0x5ef50f24, 0xfb121210, 0x948d25b6, 0x961f4894)
  {
    RoundIs(k, w, 56, 0x38cc9913, 0x3ec45cdb, 0xf5702fdb, 0x101fd28f, 0x54cb266b, 0xe50e1b4f, 0x9f4787c3, 0x529e7d00,
            0x748f82ee, 0xef57b9cd, 0xfcd1887b, 0x9b5e906c);
    RoundIs(k, w, 57, 0xfcd1887b, 0x38cc9913, 0x3ec45cdb, 0xf5702fdb, 0x9b5e906c, 0x54cb266b, 0xe50e1b4f, 0x9f4787c3,
            0x78a5636f, 0xebe6b238, 0xc062d46f, 0x7e44008e);
    RoundIs(k, w, 58, 0xc062d46f, 0xfcd1887b, 0x38cc9913, 0x3ec45cdb, 0x7e44008e, 0x9b5e906c, 0x54cb266b, 0xe50e1b4f,
            0x84c87814, 0x9fe3095e, 0xffb70472, 0x6d83bfc6);
    RoundIs(k, w, 59, 0xffb70472, 0xc062d46f, 0xfcd1887b, 0x38cc9913, 0x6d83bfc6, 0x7e44008e, 0x9b5e906c, 0x54cb266b,
            0x8cc70208, 0x78bc8d4b, 0xb6ae8fff, 0xb21bad3d);
    RoundIs(k, w, 60, 0xb6ae8fff, 0xffb70472, 0xc062d46f, 0xfcd1887b, 0xb21bad3d, 0x6d83bfc6, 0x7e44008e, 0x9b5e906c,
            0x90befffa, 0xa43fcf15, 0xb85e2ce9, 0x961f4894);
    RoundIs(k, w, 61, 0xb85e2ce9, 0xb6ae8fff, 0xffb70472, 0xc062d46f, 0x961f4894, 0xb21bad3d, 0x6d83bfc6, 0x7e44008e,
            0xa4506ceb, 0x668b2ff8, 0x04d24d6c, 0x948d25b6);
    RoundIs(k, w, 62, 0x04d24d6c, 0xb85e2ce9, 0xb6ae8fff, 0xffb70472, 0x948d25b6, 0x961f4894, 0xb21bad3d, 0x6d83bfc6,
            0xbef9a3f7, 0xeeaba2cc, 0xd39a2165, 0xfb121210);
    RoundIs(k, w, 63, 0xd39a2165, 0x04d24d6c, 0xb85e2ce9, 0xb6ae8fff, 0xfb121210, 0x948d25b6, 0x961f4894, 0xb21bad3d,
            0xc67178f2, 0x12b1edeb, 0x506e3058, 0x5ef50f24);
  }

  lemma ProgramRounds56(k: seq<Word>, w: seq<Word>)
    requires |k| == |w| == 64
    requires Has(k, 56, 0x748f82ee, 0x78a5636f, 0x84c87814, 0x8cc70208, 0x90befffa, 0xa4506ceb, 0xbef4a9f7, 0xc67178f2)
    requires Has(w, 56, 0xef57b9cd, 0xebe6b238, 0x9fe3095e, 0x78bc8d4b, 0xa43fcf15, 0x668b2ff8, 0xeeaba2cc, 0x12b1edeb)
    requires At(k, w, 56,
                0x38cc9913, 0x3ec45cdb, 0xf5702fdb, 0x101fd28f, 0x54cb266b, 0xe50e1b4f, 0x9f4787c3, 0x529e7d00)
    ensures At(k, w, 64, 0x930a2217, 0xd3952765, 0x04d24d6c, 0xb85e2ce9, 0x9d8c426b, 0xfb0d1810, 0x948d25b6, 0x961f4894)
  {
    RoundIs(k, w, 56, 0x38cc9913, 0x3ec45cdb, 0xf5702fdb, 0x101fd28f, 0x54cb266b, 0xe50e1b4f, 0x9f4787c3, 0x529e7d00,
            0x748f82ee, 0xef57b9cd, 0xfcd1887b, 0x9b5e906c);
    RoundIs(k, w, 57, 0xfcd1887b, 0x38cc9913, 0x3ec45cdb, 0xf5702fdb, 0x9b5e906c, 0x54cb266b, 0xe50e1b4f, 0x9f4787c3,
            0x78a5636f, 0xebe6b238, 0xc062d46f, 0x7e44008e);
    RoundIs(k, w, 58, 0xc062d46f, 0xfcd1887b, 0x38cc9913, 0x3ec45cdb, 0x7e44008e, 0x9b5e906c, 0x54cb266b, 0xe50e1b4f,
            0x84c87814, 0x9fe3095e, 0xffb70472, 0x6d83bfc6);
    RoundIs(k, w, 59, 0xffb70472, 0xc062d46f, 0xfcd1887b, 0x38cc9913, 0x6d83bfc6, 0x7e44008e, 0x9b5e906c, 0x54cb266b,
            0x8cc70208, 0x78bc8d4b, 0xb6ae8fff, 0xb21bad3d);
    RoundIs(k, w, 60, 0xb6ae8fff, 0xffb70472, 0xc062d46f, 0xfcd1887b, 0xb21bad3d, 0x6d83bfc6, 0x7e44008e, 0x9b5e906c,
            0x90befffa, 0xa43fcf15, 0xb85e2ce9, 0x961f4894);
    RoundIs(k, w, 61, 0xb85e2ce9, 0xb6ae8fff, 0xffb70472, 0xc062d46f, 0x961f4894, 0xb21bad3d, 0x6d83bfc6, 0x7e44008e,
            0xa4506ceb, 0x668b2ff8, 0x04d24d6c, 0x948d25b6);
    RoundIs(k, w, 62, 0x04d24d6c, 0xb85e2ce9, 0xb6ae8fff, 0xffb70472, 0x948d25b6, 0x961f4894, 0xb21bad3d, 0x6d83bfc6,
            0xbef4a9f7, 0xeeaba2cc, 0xd3952765, 0xfb0d1810);
    RoundIs(k, w, 63, 0xd3952765, 0x04d24d6c, 0xb85e2ce9, 0xb6ae8fff, 0xfb0d1810, 0x948d25b6, 0x961f4894, 0xb21bad3d,
            0xc67178f2, 0x12b1edeb, 0x930a2217, 0x9d8c426b);
  }

  lemma FirstRounds(k: seq<Word>, w: seq<Word>, table: Table)
    requires IsTable(k, table) && |w| == 64 && ExampleSchedule(w)
    ensures At(k, w, 56, 0x38cc9913, 0x3ec45cdb, 0xf5702fdb, 0x101fd28f, 0x54cb266b, 0xe50e1b4f, 0x9f4787c3, 0x529e7d00)
  {
    assert k[..0] == [] && w[..0] == [];
    Constants0(k, table);
    Rounds0(k, w);
    Constants8(k, table);
    Rounds8(k, w);
    Constants16(k, table);
    Rounds16(k, w);
    Constants24(k, table);
    Rounds24(k, w);
    Constants32(k, table);
    Rounds32(k, w);
    Constants40(k, table);
    Rounds40(k, w);
    Constants48(k, table);
    Rounds48(k, w);
  }

  lemma AllRounds(k: seq<Word>, w: seq<Word>, table: Table)
    requires IsTable(k, table) && |w| == 64 && ExampleSchedule(w)
    ensures table.Standard? ==>
      At(k, w, 64, 0x506e3058, 0xd39a2165, 0x04d24d6c, 0xb85e2ce9, 0x5ef50f24, 0xfb121210, 0x948d25b6, 0x961f4894)
    ensures table.Program? ==>
      At(k, w, 64, 0x930a2217, 0xd3952765, 0x04d24d6c, 0xb85e2ce9, 0x9d8c426b, 0xfb0d1810, 0x948d25b6, 0x961f4894)
  {
    FirstRounds(k, w, table);
    match table
    case Standard =>
      StandardConstants56(k);
      StandardRounds56(k, w);
    case Program =>
      ProgramConstants56(k);
      ProgramRounds56(k, w);
  }

  // ----- The digests -----

  lemma ConstantsAreTable(table: Table)
    ensures IsTable(Constants(table), table)
  {
  }

  function AfterRounds(table: Table): Hash {
    match table
    case Standard => Hash(0x506e3058, 0xd39a2165, 0x04d24d6c, 0xb85e2ce9,
                          0x5ef50f24, 0xfb121210, 0x948d25b6, 0x961f4894)
    case Program => Hash(0x930a2217, 0xd3952765, 0x04d24d6c, 0xb85e2ce9,
                         0x9d8c426b, 0xfb0d1810, 0x948d25b6, 0x961f4894)
  }

  function ExampleDigest(table: Table): Hash {
    match table
    case Standard => Hash(0xba7816bf, 0x8f01cfea, 0x414140de, 0x5dae2223,
                          0xb00361a3, 0x96177a9c, 0xb410ff61, 0xf20015ad)
    case Program => Hash(0xfd14087e, 0x8efcd5ea, 0x414140de, 0x5dae2223,
                         0xee9a94ea, 0x9612809c, 0xb410ff61, 0xf20015ad)
  }

  lemma AddInitial(table: Table)
    ensures Add(AfterRounds(table), INITIAL) == ExampleDigest(table)
  {
  }

  lemma StepIsCompress(table: Table, s: Hash, block: seq<Byte>)
    requires |block| == 64
    ensures BlockStep(table)(s, block) == Compress(table, s, WordsOf(block))
  {
  }

  lemma DigestIsStep(table: Table, m: seq<Byte>)
    requires |m| <= 55
    ensures |Pad(m)| == 64 && Digest(table, m) == BlockStep(table)(INITIAL, Pad(m))
  {
    OneBlock(table, m);
    ChainOfOne(BlockStep(table), INITIAL, [], Pad(m));
  }

  lemma DigestOfBlock(table: Table, m: seq<Byte>)
    requires |m| <= 55
    ensures |Pad(m)| == 64
    ensures Digest(table, m) == Add(Rounds(Constants(table), Schedule(WordsOf(Pad(m))), INITIAL), INITIAL)
  {
    DigestIsStep(table, m);
    StepIsCompress(table, INITIAL, Pad(m));
  }

  lemma ExampleRounds(table: Table, w: seq<Word>)
    requires |w| == 64 && ExampleSchedule(w)
    ensures Rounds(Constants(table), w, INITIAL) == AfterRounds(table)
  {
    var k := Constants(table);
    ConstantsAreTable(table);
    AllRounds(k, w, table);
    assert k[..64] == k && w[..64] == w;
  }

  lemma ExampleWords() returns (w: seq<Word>)
    ensures |Pad(ABC)| == 64 && w == Schedule(WordsOf(Pad(ABC))) && ExampleSchedule(w)
  {
    MessageWords();
    var m := WordsOf(Pad(ABC));
    ScheduleIsSchedule(m);
    w := Schedule(m);
    assert forall i :: 0 <= i < 16 ==> w[..16][i] == w[i];
    ScheduleWords(w);
  }

  lemma ExampleIsDigest(table: Table)
    ensures Digest(table, ABC) == ExampleDigest(table)
  {
    var w := ExampleWords();
    DigestOfBlock(table, ABC);
    ExampleRounds(table, w);
    AddInitial(table);
  }

  /** The strings of all elements, one after the other. */
  function Spelled<T>(ws: seq<T>, spell: T -> string): (r: string) {
    if ws == [] then [] else Spelled(ws[..|ws| - 1], spell) + spell(ws[|ws| - 1])
  }

  lemma {:induction false} HexWordsSnoc(ws: seq<Word>, word: Word)
    ensures HexWords(ws + [word]) == HexWords(ws) + HexWord(word)
  {
    if ws == [] {
      assert ws + [word] == [word] && [word][1..] == [];
    } else {
      HexWordsSnoc(ws[1..], word);
      assert (ws + [word])[1..] == ws[1..] + [word];
    }
  }

  lemma {:induction false} HexIsSpelled(ws: seq<Word>)
    ensures HexWords(ws) == Spelled(ws, HexWord)
  {
    if ws != [] {
      var init, last := ws[..|ws| - 1], ws[|ws| - 1];
      HexIsSpelled(init);
      HexWordsSnoc(init, last);
      assert ws == init + [last];
    }
  }

  lemma SpelledSnoc<T>(ws: seq<T>, w: T, spell: T -> string)
    ensures Spelled(ws + [w], spell) == Spelled(ws, spell) + spell(w)
  {
    assert (ws + [w])[..|ws|] == ws;
  }

  lemma SpelledEight<T>(a: T, b: T, c: T, d: T, e: T, f: T, g: T, h: T, spell: T -> string)
    ensures Spelled([a, b, c, d, e, f, g, h], spell) ==
      spell(a) + spell(b) + spell(c) + spell(d) + spell(e) + spell(f) + spell(g) + spell(h)
  {
    SpelledFour(a, b, c, d, spell);
    SpelledSnoc([a, b, c, d], e, spell);
    SpelledSnoc([a, b, c, d, e], f, spell);
    SpelledSnoc([a, b, c, d, e, f], g, spell);
    SpelledSnoc([a, b, c, d, e, f, g], h, spell);
    assert [a, b, c, d] + [e] == [a, b, c, d, e] && [a, b, c, d, e] + [f] == [a, b, c, d, e, f];
    assert [a, b, c, d, e, f] + [g] == [a, b, c, d, e, f, g];
    assert [a, b, c, d, e, f, g] + [h] == [a, b, c, d, e, f, g, h];
  }

  lemma HexOfEight(h: Hash, spell: Word -> string)
    requires spell == HexWord
    ensures Hex(h) == spell(h.a) + spell(h.b) + spell(h.c) + spell(h.d) +
                      spell(h.e) + spell(h.f) + spell(h.g) + spell(h.h)
  {
    HexIsSpelled([h.a, h.b, h.c, h.d, h.e, h.f, h.g, h.h]);
    SpelledEight(h.a, h.b, h.c, h.d, h.e, h.f, h.g, h.h, spell);
  }

  lemma SpelledFour<T>(a: T, b: T, c: T, d: T, spell: T -> string)
    ensures Spelled([a, b, c, d], spell) == spell(a) + spell(b) + spell(c) + spell(d)
  {
    SpelledSnoc([], a, spell);
    SpelledSnoc([a], b, spell);
    SpelledSnoc([a, b], c, spell);
    SpelledSnoc([a, b, c], d, spell);
    assert [] + [a] == [a] && [a] + [b] == [a, b] && [a, b] + [c] == [a, b, c] && [a, b, c] + [d] == [a, b, c, d];
  }

  lemma StandardDigits()
    ensures HexWord(0xba7816bf) == "ba7816bf" && HexWord(0x8f01cfea) == "8f01cfea"
    ensures HexWord(0x414140de) == "414140de" && HexWord(0x5dae2223) == "5dae2223"
    ensures HexWord(0xb00361a3) == "b00361a3" && HexWord(0x96177a9c) == "96177a9c"
    ensures HexWord(0xb410ff61) == "b410ff61" && HexWord(0xf20015ad) == "f20015ad"
  {
  }

  lemma StandardHex(h: Hash)
    requires h == Hash(0xba7816bf, 0x8f01cfea, 0x414140de, 0x5dae2223,
                       0xb00361a3, 0x96177a9c, 0xb410ff61, 0xf20015ad)
    ensures Hex(h) == "ba7816bf" + "8f01cfea" + "414140de" + "5dae2223" +
                      "b00361a3" + "96177a9c" + "b410ff61" + "f20015ad"
  {
    HexOfEight(h, HexWord);
    StandardDigits();
  }

  lemma ProgramDigits()
    ensures HexWord(0xfd14087e) == "fd14087e" && HexWord(0x8efcd5ea) == "8efcd5ea"
    ensures HexWord(0x414140de) == "414140de" && HexWord(0x5dae2223) == "5dae2223"
    ensures HexWord(0xee9a94ea) == "ee9a94ea" && HexWord(0x9612809c) == "9612809c"
    ensures HexWord(0xb410ff61) == "b410ff61" && HexWord(0xf20015ad) == "f20015ad"
  {
  }

  lemma ProgramHex(h: Hash)
    requires h == Hash(0xfd14087e, 0x8efcd5ea, 0x414140de, 0x5dae2223,
                       0xee9a94ea, 0x9612809c, 0xb410ff61, 0xf20015ad)
    ensures Hex(h) == "fd14087e" + "8efcd5ea" + "414140de" + "5dae2223" +
                      "ee9a94ea" + "9612809c" + "b410ff61" + "f20015ad"
  {
    HexOfEight(h, HexWord);
    ProgramDigits();
  }

  /** The standard's answer for "abc", and the program's, which differs from it in four of the eight words. */
  lemma KnownAnswer(table: Table, m: seq<Byte>)
    requires m == [0x61, 0x62, 0x63]
    ensures table.Standard? ==>
      Hex(Digest(table, m)) == "ba7816bf" + "8f01cfea" + "414140de" + "5dae2223" +
                               "b00361a3" + "96177a9c" + "b410ff61" + "f20015ad"
    ensures table.Program? ==>
      Hex(Digest(table, m)) == "fd14087e" + "8efcd5ea" + "414140de" + "5dae2223" +
                               "ee9a94ea" + "9612809c" + "b410ff61" + "f20015ad"
  {
    ExampleIsDigest(table);
    match table
    case Standard => StandardHex(Digest(table, m));
    case Program => ProgramHex(Digest(table, m));
  }
}
