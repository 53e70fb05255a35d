/** The hash of the message "abc", worked out word by word: the first example of FIPS 180-2, appendix B.1. */
module Sha256Answer {
  import opened Common
  import opened Sha256Standard

  const ABC: Bytes := ['a' as bv8, 'b' as bv8, 'c' as bv8]

  /** The eight words of its hash value. */
  const ANSWER := Vars(0xba7816bf, 0x8f01cfea, 0x414140de, 0x5dae2223, 0xb00361a3, 0x96177a9c, 0xb410ff61, 0xf20015ad)

  /** The one padded block of the message. */
  ghost predicate IsBlock(b: Bytes) { b == ABC + Padding(3, 24) }

  lemma TwentyFour(i: nat)
    requires i < 8
    ensures 24 / Weight(i) % 256 == if i == 7 then 24 else 0
  {
  }

  lemma LengthByte(i: nat)
    requires i < 8
    ensures Be64(24)[i] == if i == 7 then 24 else 0
  {
    TwentyFour(i);
    assert Byte(0) == 0 && Byte(24) == 24;
    hide Byte, Weight;
  }

  lemma BlockByte(b: Bytes, i: nat)
    requires IsBlock(b) && i < 64
    ensures |b| == 64
    ensures b[i] == if i == 0 then 0x61 else if i == 1 then 0x62 else if i == 2 then 0x63 else if i == 3 then 0x80
                    else if i == 63 then 24 else 0
  {
    assert ZeroCount(3) == 52;
    if i >= 56 {
      LengthByte(i - 56);
    }
    hide Be64;
  }

  /* The message schedule of the block. */

  lemma FirstWord(b: Bytes, t: nat)
    requires IsBlock(b) && t < 16
    ensures |b| == 64 && Schedule(b, t) == if t == 0 then 0x61626380 else if t == 15 then 24 else 0
  {
    BlockByte(b, 4 * t);
    BlockByte(b, 4 * t + 1);
    BlockByte(b, 4 * t + 2);
    BlockByte(b, 4 * t + 3);
    hide IsBlock;
  }

  lemma NextWord(b: Bytes, t: nat)
    requires |b| == 64 && 16 <= t < 64
    ensures Schedule(b, t) == Plus4(SmallSigma1(Schedule(b, t - 2)), Schedule(b, t - 7),
                                    SmallSigma0(Schedule(b, t - 15)), Schedule(b, t - 16))
  {
    hide Plus4, SmallSigma0, SmallSigma1;
  }

  lemma Words0(b: Bytes)
    requires IsBlock(b)
    ensures |b| == 64
    ensures Schedule(b, 0) == 0x61626380 && Schedule(b, 1) == 0x00000000 &&
            Schedule(b, 2) == 0x00000000 && Schedule(b, 3) == 0x00000000
    ensures Schedule(b, 4) == 0x00000000 && Schedule(b, 5) == 0x00000000 &&
            Schedule(b, 6) == 0x00000000 && Schedule(b, 7) == 0x00000000
  {
    hide IsBlock, Schedule;
    FirstWord(b, 0); FirstWord(b, 1); FirstWord(b, 2); FirstWord(b, 3);
    FirstWord(b, 4); FirstWord(b, 5); FirstWord(b, 6); FirstWord(b, 7);
  }

  lemma Words8(b: Bytes)
    requires IsBlock(b)
    ensures |b| == 64
    ensures Schedule(b, 8) == 0x00000000 && Schedule(b, 9) == 0x00000000 &&
            Schedule(b, 10) == 0x00000000 && Schedule(b, 11) == 0x00000000
    ensures Schedule(b, 12) == 0x00000000 && Schedule(b, 13) == 0x00000000 &&
            Schedule(b, 14) == 0x00000000 && Schedule(b, 15) == 0x00000018
  {
    hide IsBlock, Schedule;
    FirstWord(b, 8); FirstWord(b, 9); FirstWord(b, 10); FirstWord(b, 11);
    FirstWord(b, 12); FirstWord(b, 13); FirstWord(b, 14); FirstWord(b, 15);
  }

  lemma Words16(b: Bytes)
    requires IsBlock(b)
    ensures |b| == 64
    ensures Schedule(b, 16) == 0x61626380 && Schedule(b, 17) == 0x000f0000 &&
            Schedule(b, 18) == 0x7da86405 && Schedule(b, 19) == 0x600003c6
    ensures Schedule(b, 20) == 0x3e9d7b78 && Schedule(b, 21) == 0x0183fc00 &&
            Schedule(b, 22) == 0x12dcbfdb && Schedule(b, 23) == 0xe2e2c38e
  {
    hide IsBlock, Schedule;
    Words0(b);
    Words8(b);
    NextWord(b, 16); NextWord(b, 17); NextWord(b, 18); NextWord(b, 19);
    NextWord(b, 20); NextWord(b, 21); NextWord(b, 22); NextWord(b, 23);
  }

  lemma Words24(b: Bytes)
    requires IsBlock(b)
    ensures |b| == 64
    ensures Schedule(b, 24) == 0xc8215c1a && Schedule(b, 25) == 0xb73679a2 &&
            Schedule(b, 26) == 0xe5bc3909 && Schedule(b, 27) == 0x32663c5b
    ensures Schedule(b, 28) == 0x9d209d67 && Schedule(b, 29) == 0xec8726cb &&
            Schedule(b, 30) == 0x702138a4 && Schedule(b, 31) == 0xd3b7973b
  {
    hide IsBlock, Schedule;
    Words8(b);
    Words16(b);
    NextWord(b, 24); NextWord(b, 25); NextWord(b, 26); NextWord(b, 27);
    NextWord(b, 28); NextWord(b, 29); NextWord(b, 30); NextWord(b, 31);
  }

  lemma Words32(b: Bytes)
    requires IsBlock(b)
    ensures |b| == 64
    ensures Schedule(b, 32) == 0x93f5997f && Schedule(b, 33) == 0x3b68ba73 &&
            Schedule(b, 34) == 0xaff4ffc1 && Schedule(b, 35) == 0xf10a5c62
    ensures Schedule(b, 36) == 0x0a8b3996 && Schedule(b, 37) == 0x72af830a &&
            Schedule(b, 38) == 0x9409e33e && Schedule(b, 39) == 0x24641522
  {
    hide IsBlock, Schedule;
    Words16(b);
    Words24(b);
    NextWord(b, 32); NextWord(b, 33); NextWord(b, 34); NextWord(b, 35);
    NextWord(b, 36); NextWord(b, 37); NextWord(b, 38); NextWord(b, 39);
  }

  lemma Words40(b: Bytes)
    requires IsBlock(b)
    ensures |b| == 64
    ensures Schedule(b, 40) == 0x9f47bf94 && Schedule(b, 41) == 0xf0a64f5a &&
            Schedule(b, 42) == 0x3e246a79 && Schedule(b, 43) == 0x27333ba3
    ensures Schedule(b, 44) == 0x0c4763f2 && Schedule(b, 45) == 0x840abf27 &&
            Schedule(b, 46) == 0x7a290d5d && Schedule(b, 47) == 0x065c43da
  {
    hide IsBlock, Schedule;
    Words24(b);
    Words32(b);
    NextWord(b, 40); NextWord(b, 41); NextWord(b, 42); NextWord(b, 43);
    NextWord(b, 44); NextWord(b, 45); NextWord(b, 46); NextWord(b, 47);
  }

  lemma Words48(b: Bytes)
    requires IsBlock(b)
    ensures |b| == 64
    ensures Schedule(b, 48) == 0xfb3e89cb && Schedule(b, 49) == 0xcc7617db &&
            Schedule(b, 50) == 0xb9e66c34 && Schedule(b, 51) == 0xa9993667
    ensures Schedule(b, 52) == 0x84badedd && Schedule(b, 53) == 0xc21462bc &&
            Schedule(b, 54) == 0x1487472c && Schedule(b, 55) == 0xb20f7a99
  {
    hide IsBlock, Schedule;
    Words32(b);
    Words40(b);
    NextWord(b, 48); NextWord(b, 49); NextWord(b, 50); NextWord(b, 51);
    NextWord(b, 52); NextWord(b, 53); NextWord(b, 54); NextWord(b, 55);
  }

  lemma Words56(b: Bytes)
    requires IsBlock(b)
    ensures |b| == 64
    ensures Schedule(b, 56) == 0xef57b9cd && Schedule(b, 57) == 0xebe6b238 &&
            Schedule(b, 58) == 0x9fe3095e && Schedule(b, 59) == 0x78bc8d4b
    ensures Schedule(b, 60) == 0xa43fcf15 && Schedule(b, 61) == 0x668b2ff8 &&
            Schedule(b, 62) == 0xeeaba2cc && Schedule(b, 63) == 0x12b1edeb
  {
    hide IsBlock, Schedule;
    Words40(b);
    Words48(b);
    NextWord(b, 56); NextWord(b, 57); NextWord(b, 58); NextWord(b, 59);
    NextWord(b, 60); NextWord(b, 61); NextWord(b, 62); NextWord(b, 63);
  }

  /* The 64 rounds. */

  lemma Constants0()
    ensures K[0] == 0x428a2f98 && K[1] == 0x71374491 && K[2] == 0xb5c0fbcf && K[3] == 0xe9b5dba5
    ensures K[4] == 0x3956c25b && K[5] == 0x59f111f1 && K[6] == 0x923f82a4 && K[7] == 0xab1c5ed5
  {
  }

  lemma Constants8()
    ensures K[8] == 0xd807aa98 && K[9] == 0x12835b01 && K[10] == 0x243185be && K[11] == 0x550c7dc3
    ensures K[12] == 0x72be5d74 && K[13] == 0x80deb1fe && K[14] == 0x9bdc06a7 && K[15] == 0xc19bf174
  {
  }

  lemma Constants16()
    ensures K[16] == 0xe49b69c1 && K[17] == 0xefbe4786 && K[18] == 0x0fc19dc6 && K[19] == 0x240ca1cc
    ensures K[20] == 0x2de92c6f && K[21] == 0x4a7484aa && K[22] == 0x5cb0a9dc && K[23] == 0x76f988da
  {
  }

  lemma Constants24()
    ensures K[24] == 0x983e5152 && K[25] == 0xa831c66d && K[26] == 0xb00327c8 && K[27] == 0xbf597fc7
    ensures K[28] == 0xc6e00bf3 && K[29] == 0xd5a79147 && K[30] == 0x06ca6351 && K[31] == 0x14292967
  {
  }

  lemma Constants32()
    ensures K[32] == 0x27b70a85 && K[33] == 0x2e1b2138 && K[34] == 0x4d2c6dfc && K[35] == 0x53380d13
    ensures K[36] == 0x650a7354 && K[37] == 0x766a0abb && K[38] == 0x81c2c92e && K[39] == 0x92722c85
  {
  }

  lemma Constants40()
    ensures K[40] == 0xa2bfe8a1 && K[41] == 0xa81a664b && K[42] == 0xc24b8b70 && K[43] == 0xc76c51a3
    ensures K[44] == 0xd192e819 && K[45] == 0xd6990624 && K[46] == 0xf40e3585 && K[47] == 0x106aa070
  {
  }

  lemma Constants48()
    ensures K[48] == 0x19a4c116 && K[49] == 0x1e376c08 && K[50] == 0x2748774c && K[51] == 0x34b0bcb5
    ensures K[52] == 0x391c0cb3 && K[53] == 0x4ed8aa4a && K[54] == 0x5b9cca4f && K[55] == 0x682e6ff3
  {
  }

  lemma Constants56()
    ensures K[56] == 0x748f82ee && K[57] == 0x78a5636f && K[58] == 0x84c87814 && K[59] == 0x8cc70208
    ensures K[60] == 0x90befffa && K[61] == 0xa4506ceb && K[62] == 0xbef9a3f7 && K[63] == 0xc67178f2
  {
  }

  lemma NextRound(b: Bytes, t: nat, v: Vars) returns (next: Vars)
    requires |b| == 64 && t < 64 && Rounds(INITIAL, b, t) == v
    ensures Rounds(INITIAL, b, t + 1) == next == Round(v, K[t], Schedule(b, t))
  {
    hide Round, Schedule;
    next := Round(v, K[t], Schedule(b, t));
  }

  lemma NoRounds(b: Bytes)
    requires |b| == 64
    ensures Rounds(INITIAL, b, 0) == INITIAL
  {
  }

  lemma Rounds8(b: Bytes)
    requires IsBlock(b)
    ensures |b| == 64
    ensures Rounds(INITIAL, b, 8) ==
            Vars(0x85a07b5f, 0xe5030380, 0x2b4209f5, 0x04409a6a, 0x0c657a79, 0x9b27a401, 0x714260ad, 0x43ada245)
  {
    Constants0();
    hide IsBlock, Schedule, Rounds, K;
    Words0(b);
    NoRounds(b);
    var v := INITIAL;
    v := NextRound(b, 0, v);
    v := NextRound(b, 1, v);
    v := NextRound(b, 2, v);
    v := NextRound(b, 3, v);
    v := NextRound(b, 4, v);
    v := NextRound(b, 5, v);
    v := NextRound(b, 6, v);
    v := NextRound(b, 7, v);
  }

  lemma Rounds16(b: Bytes)
    requires IsBlock(b)
    ensures |b| == 64
    ensures Rounds(INITIAL, b, 16) ==
            Vars(0xb0fa238e, 0xc0645fde, 0xd932eb16, 0x87912990, 0x07590dcd, 0x0b92f20c, 0x745a48de, 0x1e578218)
  {
    Constants8();
    hide IsBlock, Schedule, Rounds, K;
    Words8(b);
    Rounds8(b);
    var v := Rounds(INITIAL, b, 8);
    v := NextRound(b, 8, v);
    v := NextRound(b, 9, v);
    v := NextRound(b, 10, v);
    v := NextRound(b, 11, v);
    v := NextRound(b, 12, v);
    v := NextRound(b, 13, v);
    v := NextRound(b, 14, v);
    v := NextRound(b, 15, v);
  }

  lemma Rounds24(b: Bytes)
    requires IsBlock(b)
    ensures |b| == 64
    ensures Rounds(INITIAL, b, 24) ==
            Vars(0xc5d53d8d, 0xa7a3623f, 0xc2606d6d, 0x9dc68b63, 0xaa47c347, 0x49f5114a, 0xe1257970, 0x8ada8930)
  {
    Constants16();
    hide IsBlock, Schedule, Rounds, K;
    Words16(b);
    Rounds16(b);
    var v := Rounds(INITIAL, b, 16);
    v := NextRound(b, 16, v);
    v := NextRound(b, 17, v);
    v := NextRound(b, 18, v);
    v := NextRound(b, 19, v);
    v := NextRound(b, 20, v);
    v := NextRound(b, 21, v);
    v := NextRound(b, 22, v);
    v := NextRound(b, 23, v);
  }

  lemma Rounds32(b: Bytes)
    requires IsBlock(b)
    ensures |b| == 64
    ensures Rounds(INITIAL, b, 32) ==
            Vars(0x73b33bf5, 0xea992a22, 0xa0060b30, 0x363482c9, 0xba591112, 0x0109ab3a, 0xade79437, 0x6112a3b7)
  {
    Constants24();
    hide IsBlock, Schedule, Rounds, K;
    Words24(b);
    Rounds24(b);
    var v := Rounds(INITIAL, b, 24);
    v := NextRound(b, 24, v);
    v := NextRound(b, 25, v);
    v := NextRound(b, 26, v);
    v := NextRound(b, 27, v);
    v := NextRound(b, 28, v);
    v := NextRound(b, 29, v);
    v := NextRound(b, 30, v);
    v := NextRound(b, 31, v);
  }

  lemma Rounds40(b: Bytes)
    requires IsBlock(b)
    ensures |b| == 64
    ensures Rounds(INITIAL, b, 40) ==
            Vars(0x79ea687a, 0x6dc57a8a, 0x34df1604, 0x41a65cb1, 0x1efbc0a0, 0xf0781bc8, 0xa507a53d, 0x0772a26b)
  {
    Constants32();
    hide IsBlock, Schedule, Rounds, K;
    Words32(b);
    Rounds32(b);
    var v := Rounds(INITIAL, b, 32);
    v := NextRound(b, 32, v);
    v := NextRound(b, 33, v);
    v := NextRound(b, 34, v);
    v := NextRound(b, 35, v);
    v := NextRound(b, 36, v);
    v := NextRound(b, 37, v);
    v := NextRound(b, 38, v);
    v := NextRound(b, 39, v);
  }

  lemma Rounds48(b: Bytes)
    requires IsBlock(b)
    ensures |b| == 64
    ensures Rounds(INITIAL, b, 48) ==
            Vars(0x4172328d, 0xa14c14b0, 0x72ab4b91, 0x26628815, 0xfecf0bc6, 0xd57b94a9, 0xb7755da1, 0xa80f11f0)
  {
    Constants40();
    hide IsBlock, Schedule, Rounds, K;
    Words40(b);
    Rounds40(b);
    var v := Rounds(INITIAL, b, 40);
    v := NextRound(b, 40, v);
    v := NextRound(b, 41, v);
    v := NextRound(b, 42, v);
    v := NextRound(b, 43, v);
    v := NextRound(b, 44, v);
    v := NextRound(b, 45, v);
    v := NextRound(b, 46, v);
    v := NextRound(b, 47, v);
  }

  lemma Rounds56(b: Bytes)
    requires IsBlock(b)
    ensures |b| == 64
    ensures Rounds(INITIAL, b, 56) ==
            Vars(0x38cc9913, 0x3ec45cdb, 0xf5702fdb, 0x101fd28f, 0x54cb266b, 0xe50e1b4f, 0x9f4787c3, 0x529e7d00)
  {
    Constants48();
    hide IsBlock, Schedule, Rounds, K;
    Words48(b);
    Rounds48(b);
    var v := Rounds(INITIAL, b, 48);
    v := NextRound(b, 48, v);
    v := NextRound(b, 49, v);
    v := NextRound(b, 50, v);
    v := NextRound(b, 51, v);
    v := NextRound(b, 52, v);
    v := NextRound(b, 53, v);
    v := NextRound(b, 54, v);
    v := NextRound(b, 55, v);
  }

  lemma Rounds64(b: Bytes)
    requires IsBlock(b)
    ensures |b| == 64
    ensures Rounds(INITIAL, b, 64) ==
            Vars(0x506e3058, 0xd39a2165, 0x04d24d6c, 0xb85e2ce9, 0x5ef50f24, 0xfb121210, 0x948d25b6, 0x961f4894)
  {
    Constants56();
    hide IsBlock, Schedule, Rounds, K;
    Words56(b);
    Rounds56(b);
    var v := Rounds(INITIAL, b, 56);
    v := NextRound(b, 56, v);
    v := NextRound(b, 57, v);
    v := NextRound(b, 58, v);
    v := NextRound(b, 59, v);
    v := NextRound(b, 60, v);
    v := NextRound(b, 61, v);
    v := NextRound(b, 62, v);
    v := NextRound(b, 63, v);
  }

  lemma OneBlock(b: Bytes)
    requires |b| == 64
    ensures Blocks(INITIAL, b) == Add(Rounds(INITIAL, b, 64), INITIAL)
  {
    hide Rounds, Add;
    assert b[..0] == [] && b[0..] == b;
  }

  lemma AnswerWords(b: Bytes)
    requires IsBlock(b)
    ensures |b| == 64 && Blocks(INITIAL, b) == ANSWER
  {
    Rounds64(b);
    OneBlock(b);
    hide Rounds, Blocks, IsBlock;
  }

  /** Word i of a hash value is read back from its bytes, most significant byte first. */
  lemma DigestWord(v: Vars, i: nat)
    requires i < 8
    ensures Word(Digest(v), 4 * i) == [v.a, v.b, v.c, v.d, v.e, v.f, v.g, v.h][i]
  {
    hide Word, WordBytes;
    var words := [v.a, v.b, v.c, v.d, v.e, v.f, v.g, v.h];
    EmitAt(words, i);
    WordBytesOf(words[i]);
    WordWithin(Digest(v), 4 * i);
  }

  lemma {:induction false} EmitAt(words: seq<bv32>, i: nat)
    requires i < |words|
    ensures Emit(words)[4 * i..4 * i + 4] == WordBytes(words[i])
  {
    hide WordBytes;
    var n := |words| - 1;
    if i < n {
      EmitAt(words[..n], i);
      assert Emit(words)[4 * i..4 * i + 4] == Emit(words[..n])[4 * i..4 * i + 4];
    }
  }

  lemma WordBytesOf(w: bv32)
    ensures Word(WordBytes(w), 0) == w
  {
  }

  lemma WordWithin(b: Bytes, at: nat)
    requires at + 4 <= |b|
    ensures Word(b, at) == Word(b[at..at + 4], 0)
  {
  }

  /** The eight words of SHA-256 of "abc". */
  lemma HashOfAbc()
    ensures var h := Sha256(ABC);
            && |h| == 32
            && Word(h, 0) == 0xba7816bf && Word(h, 4) == 0x8f01cfea && Word(h, 8) == 0x414140de
            && Word(h, 12) == 0x5dae2223 && Word(h, 16) == 0xb00361a3 && Word(h, 20) == 0x96177a9c
            && Word(h, 24) == 0xb410ff61 && Word(h, 28) == 0xf20015ad
  {
    hide Blocks, Digest, Word;
    AnswerWords(ABC + Padding(3, 24));
    hide Padding;
    DigestWord(ANSWER, 0);
    DigestWord(ANSWER, 1);
    DigestWord(ANSWER, 2);
    DigestWord(ANSWER, 3);
    DigestWord(ANSWER, 4);
    DigestWord(ANSWER, 5);
    DigestWord(ANSWER, 6);
    DigestWord(ANSWER, 7);
  }
}
