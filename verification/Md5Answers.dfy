/** Known answers: the digests of three messages of the test suite in RFC 1321 (appendix A.5), by
    evaluating the operations one after the other. A call for four of them gives the registers before,
    the four values of the auxiliary function, the four new registers, the sums, and what the rotations
    carry around. */
module Md5Answers {
  import opened Bits
  import opened Rfc1321
  import opened WordBits

  const ABC: seq<Byte> := ['a' as int, 'b' as int, 'c' as int]

  // The capital letters, the small ones, and the digits.
  function Letters(): (r: seq<Byte>)
    ensures |r| == 62
  {
    seq(62, i requires 0 <= i < 62 =>
      if i < 26 then 'A' as int + i else if i < 52 then 'a' as int + (i - 26) else '0' as int + (i - 52))
  }

  // ---- The words of a message ----

  function Sixteen(w0: Word32, w1: Word32, w2: Word32, w3: Word32, w4: Word32, w5: Word32, w6: Word32, w7: Word32,
                   w8: Word32, w9: Word32, w10: Word32, w11: Word32, w12: Word32, w13: Word32, w14: Word32, w15: Word32)
    : (w: seq<Word32>)
    ensures |w| == 16 && w[0] == w0 && w[1] == w1 && w[2] == w2 && w[3] == w3 && w[4] == w4 && w[5] == w5
    ensures w[6] == w6 && w[7] == w7 && w[8] == w8 && w[9] == w9 && w[10] == w10 && w[11] == w11
    ensures w[12] == w12 && w[13] == w13 && w[14] == w14 && w[15] == w15
  {
    [w0, w1, w2, w3, w4, w5, w6, w7, w8, w9, w10, w11, w12, w13, w14, w15]
  }

  // Byte j of a padded message.
  function PaddedAt(m: seq<Byte>, j: nat): Byte
    requires j < |Padded(m)|
  {
    if j < |m| then m[j] else if j == |m| then 0x80 else if j < |Padded(m)| - 8 then 0
    else LengthBytes(|m|)[j - (|Padded(m)| - 8)]
  }

  lemma PaddedByte(m: seq<Byte>, j: nat)
    requires j < |Padded(m)|
    ensures Padded(m)[j] == PaddedAt(m, j)
  {
    hide LengthBytes, PadLength;
  }

  // Word k of the block at this place of a padded message.
  predicate Word(m: seq<Byte>, first: nat, k: nat, x: Word32)
    requires first + 64 <= |Padded(m)| && k < 16
  {
    Words(Padded(m)[first..first + 64])[k] == x
  }

  lemma WordIs(m: seq<Byte>, first: nat, k: nat, b0: Byte, b1: Byte, b2: Byte, b3: Byte)
    requires first + 64 <= |Padded(m)| && k < 16
    requires PaddedAt(m, first + 4 * k) == b0 && PaddedAt(m, first + 4 * k + 1) == b1
    requires PaddedAt(m, first + 4 * k + 2) == b2 && PaddedAt(m, first + 4 * k + 3) == b3
    ensures Word(m, first, k, b0 + 0x100 * b1 + 0x1_0000 * b2 + 0x100_0000 * b3)
  {
    hide Padded, PaddedAt;
    var block := Padded(m)[first..first + 64];
    PaddedByte(m, first + 4 * k);
    PaddedByte(m, first + 4 * k + 1);
    PaddedByte(m, first + 4 * k + 2);
    PaddedByte(m, first + 4 * k + 3);
    assert block[4 * k..4 * k + 4] == [b0, b1, b2, b3];
  }

  lemma AllWords(m: seq<Byte>, first: nat, words: seq<Word32>)
    requires first + 64 <= |Padded(m)| && |words| == 16
    requires forall k: nat | k < 16 :: Word(m, first, k, words[k])
    ensures Words(Padded(m)[first..first + 64]) == words
  {
    hide Padded, Words, Word;
    forall k: nat | k < 16
      ensures Words(Padded(m)[first..first + 64])[k] == words[k]
    {
      assert Word(m, first, k, words[k]);
      WordMeans(m, first, k, words[k]);
    }
  }

  lemma WordMeans(m: seq<Byte>, first: nat, k: nat, x: Word32)
    requires first + 64 <= |Padded(m)| && k < 16 && Word(m, first, k, x)
    ensures Words(Padded(m)[first..first + 64])[k] == x
  {
  }

  lemma PrintWord(w: Word32, b0: Byte, b1: Byte, b2: Byte, b3: Byte)
    requires w == b0 + 0x100 * b1 + 0x1_0000 * b2 + 0x100_0000 * b3
    ensures WordBytes(w) == [b0, b1, b2, b3]
  {
    Remainder(w, 0x100, b1 + 0x100 * b2 + 0x1_0000 * b3, b0);
    Remainder(w / 0x100, 0x100, b2 + 0x100 * b3, b1);
    Remainder(w, 0x1_0000, b2 + 0x100 * b3, b0 + 0x100 * b1);
    Remainder(w / 0x1_0000, 0x100, b3, b2);
    Remainder(w, 0x100_0000, b3, b0 + 0x100 * b1 + 0x1_0000 * b2);
  }

  lemma OneBlock(s: State, p: seq<Byte>)
    requires |p| == 64
    ensures Process(s, p, |p| / 64) == Transform(s, p[0..64])
  {
    hide Transform;
    assert Process(s, p, 0) == s;
  }

  lemma TwoBlocks(s: State, p: seq<Byte>)
    requires |p| == 128
    ensures Process(s, p, |p| / 64) == Transform(Transform(s, p[0..64]), p[64..128])
  {
    hide Transform;
    assert Process(s, p, 0) == s;
    assert Process(s, p, 1) == Transform(s, p[0..64]);
  }

  // ---- The schedule, as the RFC prints it ----

  lemma Schedule1()
    ensures WordIndex(0) == 0 && Shift(0) == 7 && T(0) == 0xd76aa478
    ensures WordIndex(1) == 1 && Shift(1) == 12 && T(1) == 0xe8c7b756
    ensures WordIndex(2) == 2 && Shift(2) == 17 && T(2) == 0x242070db
    ensures WordIndex(3) == 3 && Shift(3) == 22 && T(3) == 0xc1bdceee
    ensures WordIndex(4) == 4 && Shift(4) == 7 && T(4) == 0xf57c0faf
    ensures WordIndex(5) == 5 && Shift(5) == 12 && T(5) == 0x4787c62a
    ensures WordIndex(6) == 6 && Shift(6) == 17 && T(6) == 0xa8304613
    ensures WordIndex(7) == 7 && Shift(7) == 22 && T(7) == 0xfd469501
    ensures WordIndex(8) == 8 && Shift(8) == 7 && T(8) == 0x698098d8
    ensures WordIndex(9) == 9 && Shift(9) == 12 && T(9) == 0x8b44f7af
    ensures WordIndex(10) == 10 && Shift(10) == 17 && T(10) == 0xffff5bb1
    ensures WordIndex(11) == 11 && Shift(11) == 22 && T(11) == 0x895cd7be
    ensures WordIndex(12) == 12 && Shift(12) == 7 && T(12) == 0x6b901122
    ensures WordIndex(13) == 13 && Shift(13) == 12 && T(13) == 0xfd987193
    ensures WordIndex(14) == 14 && Shift(14) == 17 && T(14) == 0xa679438e
    ensures WordIndex(15) == 15 && Shift(15) == 22 && T(15) == 0x49b40821
  {
  }

  lemma Schedule2()
    ensures WordIndex(16) == 1 && Shift(16) == 5 && T(16) == 0xf61e2562
    ensures WordIndex(17) == 6 && Shift(17) == 9 && T(17) == 0xc040b340
    ensures WordIndex(18) == 11 && Shift(18) == 14 && T(18) == 0x265e5a51
    ensures WordIndex(19) == 0 && Shift(19) == 20 && T(19) == 0xe9b6c7aa
    ensures WordIndex(20) == 5 && Shift(20) == 5 && T(20) == 0xd62f105d
    ensures WordIndex(21) == 10 && Shift(21) == 9 && T(21) == 0x02441453
    ensures WordIndex(22) == 15 && Shift(22) == 14 && T(22) == 0xd8a1e681
    ensures WordIndex(23) == 4 && Shift(23) == 20 && T(23) == 0xe7d3fbc8
    ensures WordIndex(24) == 9 && Shift(24) == 5 && T(24) == 0x21e1cde6
    ensures WordIndex(25) == 14 && Shift(25) == 9 && T(25) == 0xc33707d6
    ensures WordIndex(26) == 3 && Shift(26) == 14 && T(26) == 0xf4d50d87
    ensures WordIndex(27) == 8 && Shift(27) == 20 && T(27) == 0x455a14ed
    ensures WordIndex(28) == 13 && Shift(28) == 5 && T(28) == 0xa9e3e905
    ensures WordIndex(29) == 2 && Shift(29) == 9 && T(29) == 0xfcefa3f8
    ensures WordIndex(30) == 7 && Shift(30) == 14 && T(30) == 0x676f02d9
    ensures WordIndex(31) == 12 && Shift(31) == 20 && T(31) == 0x8d2a4c8a
  {
  }

  lemma Schedule3()
    ensures WordIndex(32) == 5 && Shift(32) == 4 && T(32) == 0xfffa3942
    ensures WordIndex(33) == 8 && Shift(33) == 11 && T(33) == 0x8771f681
    ensures WordIndex(34) == 11 && Shift(34) == 16 && T(34) == 0x6d9d6122
    ensures WordIndex(35) == 14 && Shift(35) == 23 && T(35) == 0xfde5380c
    ensures WordIndex(36) == 1 && Shift(36) == 4 && T(36) == 0xa4beea44
    ensures WordIndex(37) == 4 && Shift(37) == 11 && T(37) == 0x4bdecfa9
    ensures WordIndex(38) == 7 && Shift(38) == 16 && T(38) == 0xf6bb4b60
    ensures WordIndex(39) == 10 && Shift(39) == 23 && T(39) == 0xbebfbc70
    ensures WordIndex(40) == 13 && Shift(40) == 4 && T(40) == 0x289b7ec6
    ensures WordIndex(41) == 0 && Shift(41) == 11 && T(41) == 0xeaa127fa
    ensures WordIndex(42) == 3 && Shift(42) == 16 && T(42) == 0xd4ef3085
    ensures WordIndex(43) == 6 && Shift(43) == 23 && T(43) == 0x04881d05
    ensures WordIndex(44) == 9 && Shift(44) == 4 && T(44) == 0xd9d4d039
    ensures WordIndex(45) == 12 && Shift(45) == 11 && T(45) == 0xe6db99e5
    ensures WordIndex(46) == 15 && Shift(46) == 16 && T(46) == 0x1fa27cf8
    ensures WordIndex(47) == 2 && Shift(47) == 23 && T(47) == 0xc4ac5665
  {
  }

  lemma Schedule4()
    ensures WordIndex(48) == 0 && Shift(48) == 6 && T(48) == 0xf4292244
    ensures WordIndex(49) == 7 && Shift(49) == 10 && T(49) == 0x432aff97
    ensures WordIndex(50) == 14 && Shift(50) == 15 && T(50) == 0xab9423a7
    ensures WordIndex(51) == 5 && Shift(51) == 21 && T(51) == 0xfc93a039
    ensures WordIndex(52) == 12 && Shift(52) == 6 && T(52) == 0x655b59c3
    ensures WordIndex(53) == 3 && Shift(53) == 10 && T(53) == 0x8f0ccc92
    ensures WordIndex(54) == 10 && Shift(54) == 15 && T(54) == 0xffeff47d
    ensures WordIndex(55) == 1 && Shift(55) == 21 && T(55) == 0x85845dd1
    ensures WordIndex(56) == 8 && Shift(56) == 6 && T(56) == 0x6fa87e4f
    ensures WordIndex(57) == 15 && Shift(57) == 10 && T(57) == 0xfe2ce6e0
    ensures WordIndex(58) == 6 && Shift(58) == 15 && T(58) == 0xa3014314
    ensures WordIndex(59) == 13 && Shift(59) == 21 && T(59) == 0x4e0811a1
    ensures WordIndex(60) == 4 && Shift(60) == 6 && T(60) == 0xf7537e82
    ensures WordIndex(61) == 11 && Shift(61) == 10 && T(61) == 0xbd3af235
    ensures WordIndex(62) == 2 && Shift(62) == 15 && T(62) == 0x2ad7d2bb
    ensures WordIndex(63) == 9 && Shift(63) == 21 && T(63) == 0xeb86d391
  {
  }

  // ---- "" ----

  lemma EmptyLength()
    ensures |Padded([])| == 64
  {
  }

  const EMPTY_WORDS := Sixteen(
    0x80, 0, 0, 0, 0, 0, 0, 0,
    0, 0, 0, 0, 0, 0, 0, 0)

  lemma EmptySteps8()
    ensures Operations(8, INITIAL, EMPTY_WORDS) == At(0x32033344, 0x9bc13ce9, 0xf5b158db, 0x2f35d494)
  {
    hide Operations, At, T, WordIndex, Shift, Sixteen;
    Schedule1();
    EmptyStart();
    First(0, INITIAL, EMPTY_WORDS, 0x67452301, 0xefcdab89, 0x98badcfe, 0x10325476, 0x98badcfe, 0xbd9afb8a, 0xaf482b54,
          0xe5900655, 0xa5202774, 0xf59592dd, 0xe7f06b23, 0x1b163203, 0xd76aa4f7, 0xb6950756, 0x6c23792d, 0x971b80cc,
          0x6b, 0xb69, 0xd846, 0x25c6e0);
    First(4, INITIAL, EMPTY_WORDS, 0xa5202774, 0x1b163203, 0xe7f06b23, 0xf59592dd, 0xe791a2df, 0xd7f27a23, 0x32033207,
          0x27337394, 0x32033344, 0x2f35d494, 0xf5b158db, 0x9bc13ce9, 0x822dda02, 0x150fd32a, 0xc223e33d, 0x3f903a98,
          0x41, 0x150, 0x18447, 0xfe40e);
  }

  lemma EmptySteps16()
    ensures Operations(16, INITIAL, EMPTY_WORDS) == At(0xf56c7cf1, 0xd6819c6a, 0x5aa53f75, 0x374943a7)
  {
    hide Operations, At, T, WordIndex, Shift, Sixteen;
    Schedule1();
    EmptySteps8();
    First(8, INITIAL, EMPTY_WORDS, 0x32033344, 0x9bc13ce9, 0xf5b158db, 0x2f35d494, 0xb5b5d8dd, 0xdda178cb, 0x3b81bdf9,
          0xf8f4b993, 0x3893b991, 0xfce4a312, 0xe1ef0576, 0x70768a29, 0x5139a4f9, 0x981c450e, 0x31327285, 0x1e12ce3a,
          0x28, 0x981, 0x6264, 0x784b3);
    First(12, INITIAL, EMPTY_WORDS, 0x3893b991, 0x70768a29, 0xe1ef0576, 0xfce4a312, 0xece62132, 0x70e70927,
          0x757ec8a9, 0xb74943a5, 0xf56c7cf1, 0x374943a7, 0x5aa53f75, 0xd6819c6a, 0x9109ebe5, 0x6b641dcc, 0xfde711ad,
          0x7173d5ef, 0x48, 0x6b6, 0x1fbce, 0x1c5cf5);
  }

  lemma EmptySteps24()
    ensures Operations(24, INITIAL, EMPTY_WORDS) == At(0x3d1e3e6c, 0xe422531a, 0xeb41643e, 0x68b7b3e3)
  {
    hide Operations, At, T, WordIndex, Shift, Sixteen;
    Schedule2();
    EmptySteps16();
    Second(16, INITIAL, EMPTY_WORDS, 0xf56c7cf1, 0xd6819c6a, 0x5aa53f75, 0x374943a7, 0x5ea53c72, 0x9c25b51b,
           0x5afd793b, 0x63957b3a, 0x1c7d7513, 0x7bd57a3a, 0xc095f13a, 0xbd782e17, 0x4a2fdec5, 0x93afac02, 0xdc011301,
           0x23cddfce, 0x9, 0x127, 0x3700, 0x23cdd);
    Second(20, INITIAL, EMPTY_WORDS, 0x1c7d7513, 0xbd782e17, 0xc095f13a, 0x7bd57a3a, 0xb950ab12, 0x3d7c3e2d,
           0x2836326b, 0x69a1a5af, 0x3d1e3e6c, 0x68b7b3e3, 0xeb41643e, 0xe422531a, 0xabfd3082, 0xbb95ccba, 0xc16e0a26,
           0xeedcf8e, 0x15, 0x177, 0x305b, 0xeedc);
  }

  lemma EmptySteps32()
    ensures Operations(32, INITIAL, EMPTY_WORDS) == At(0x13707036, 0xa2205f1f, 0x1c31c384, 0xae7813db)
  {
    hide Operations, At, T, WordIndex, Shift, Sixteen;
    Schedule2();
    EmptySteps24();
    Second(24, INITIAL, EMPTY_WORDS, 0x3d1e3e6c, 0xe422531a, 0xeb41643e, 0x68b7b3e3, 0xe362571e, 0x24625322,
           0xd04cd322, 0xe2c677c2, 0x306ec122, 0xd28c77c2, 0xa3c663da, 0xa0572807, 0x42626370, 0x50510edb, 0xb06344e7,
           0xc42dfc9, 0x8, 0xa0, 0x2c18, 0xc42d);
    Second(28, INITIAL, EMPTY_WORDS, 0x306ec122, 0xa0572807, 0xa3c663da, 0xd28c77c2, 0xa146201a, 0x03516817,
           0xb3705033, 0xbc3843cd, 0x13707036, 0xae7813db, 0x1c31c384, 0xa2205f1f, 0x7b98ca41, 0xd2cd83d1, 0xbea5b6e6,
           0xe9b9b85e, 0xf, 0x1a5, 0x2fa9, 0xe9b9b);
  }

  lemma EmptySteps40()
    ensures Operations(40, INITIAL, EMPTY_WORDS) == At(0x5f7a9b2e, 0xc5dc8c15, 0x91ca4cb7, 0xabc34e16)
  {
    hide Operations, At, T, WordIndex, Shift, Sixteen;
    Schedule3();
    EmptySteps32();
    Third(32, INITIAL, EMPTY_WORDS, 0x13707036, 0xa2205f1f, 0x1c31c384, 0xae7813db, 0x10698f40, 0x6172763a,
          0xbe2b2ae5, 0x0ef892af, 0xdf63eaa1, 0xc3689f5b, 0x12f3e755, 0x004b6669, 0x23d438b8, 0x975c8096, 0x47fa4f8b,
          0xaefe29da, 0x2, 0x4ba, 0x47fa, 0x577f14);
    Third(36, INITIAL, EMPTY_WORDS, 0xdf63eaa1, 0x004b6669, 0x12f3e755, 0xc3689f5b, 0xd1d01e67, 0x4dc21a12,
          0xf4f2b351, 0x6573998f, 0x5f7a9b2e, 0xabc34e16, 0x91ca4cb7, 0xc5dc8c15, 0x55f2f34c, 0x5d098916, 0xfea1e606,
          0x247ebc68, 0x5, 0x2e8, 0xfea1, 0x123f5e);
  }

  lemma EmptySteps48()
    ensures Operations(48, INITIAL, EMPTY_WORDS) == At(0x3f55edfd, 0xca7d2dbd, 0x68d84ea2, 0x22a31f54)
  {
    hide Operations, At, T, WordIndex, Shift, Sixteen;
    Schedule3();
    EmptySteps40();
    Third(40, INITIAL, EMPTY_WORDS, 0x5f7a9b2e, 0xc5dc8c15, 0x91ca4cb7, 0xabc34e16, 0xffd58eb4, 0x1081d63f,
          0xf7b6095c, 0xcfff770a, 0x4497169d, 0x76fd93d4, 0xfd95f243, 0x0fe32453, 0x87eba8a8, 0xa6e64ccf, 0x5e6f8698,
          0x9a642024, 0x8, 0x537, 0x5e6f, 0x4d3210);
    Third(44, INITIAL, EMPTY_WORDS, 0x4497169d, 0x0fe32453, 0xfd95f243, 0x76fd93d4, 0x848b45c4, 0xcd233bed,
          0x1215d6fa, 0x752ebc0b, 0x3f55edfd, 0x22a31f54, 0x68d84ea2, 0xca7d2dbd, 0xa2f72c9a, 0x2afc69a6, 0x2f4e4635,
          0x49be36c3, 0xa, 0x157, 0x2f4e, 0x24df1b);
  }

  lemma EmptySteps56()
    ensures Operations(56, INITIAL, EMPTY_WORDS) == At(0x5625a114, 0x1e77fa61, 0x392ad0d0, 0x3450f42b)
  {
    hide Operations, At, T, WordIndex, Shift, Sixteen;
    Schedule4();
    EmptySteps48();
    Fourth(48, INITIAL, EMPTY_WORDS, 0x3f55edfd, 0xca7d2dbd, 0x68d84ea2, 0x22a31f54, 0xb7a5a31d, 0x5dd298c2,
           0xa420fbb0, 0xfb5d264e, 0x93aa2577, 0x1688dc85, 0xcd85b8cb, 0x561e0689, 0xeb24b3de, 0xc3a0b7ad, 0xb88d6df9,
           0xc26df444, 0x3a, 0x30e, 0x5c46, 0x184dbe);
    Fourth(52, INITIAL, EMPTY_WORDS, 0x93aa2577, 0x561e0689, 0xcd85b8cb, 0x1688dc85, 0x32fa9f30, 0x2061e1bd,
           0xebd45c6b, 0x8daa2ad0, 0x5625a114, 0x3450f42b, 0x392ad0d0, 0x1e77fa61, 0x2c001e6a, 0xc5f78ad4, 0xb94a09b3,
           0x694c8f2a, 0xb, 0x317, 0x5ca5, 0xd2991);
  }

  lemma EmptySteps64()
    ensures Operations(64, INITIAL, EMPTY_WORDS) == At(0x7246fad3, 0x14e45506, 0xff4ea3eb, 0x6e10a476)
  {
    hide Operations, At, T, WordIndex, Shift, Sixteen;
    Schedule4();
    EmptySteps56();
    Fourth(56, INITIAL, EMPTY_WORDS, 0x5625a114, 0x1e77fa61, 0x392ad0d0, 0x3450f42b, 0xe6d52b25, 0xd9a845ce,
           0xb8849932, 0x61336bcb, 0x474a9c8c, 0xdfce00bc, 0x36594b14, 0x30130182, 0xaca34a88, 0xc2620d9, 0x94b0ad16,
           0xcdb377cd, 0x2b, 0x30, 0x4a58, 0x19b66e);
    Fourth(60, INITIAL, EMPTY_WORDS, 0x474a9c8c, 0x30130182, 0x36594b14, 0xdfce00bc, 0x066ab4d7, 0xcbf5ff79,
           0x9dba04ac, 0x91ef0399, 0x7246fad3, 0x6e10a476, 0xff4ea3eb, 0x14e45506, 0x4508cfe5, 0x68fef26a, 0xfeeb227b,
           0xad88d8ac, 0x11, 0x1a3, 0x7f75, 0x15b11b);
  }

  lemma EmptyStart()
    ensures Operations(0, INITIAL, EMPTY_WORDS) == At(0x67452301, 0xefcdab89, 0x98badcfe, 0x10325476)
  {
  }

  lemma EmptyEnd()
    ensures At(0x7246fad3, 0x14e45506, 0xff4ea3eb, 0x6e10a476) == State(0x7246fad3, 0x14e45506, 0xff4ea3eb, 0x6e10a476)
  {
  }

  lemma EmptyWords1()
    ensures |Padded([])| == 64
    ensures forall k: nat | 0 <= k < 8 :: Word([], 0, k, EMPTY_WORDS[k])
  {
    hide Padded, Word;
    var m: seq<Byte> := [];
    EmptyLength();
    WordIs(m, 0, 0, 0x80, 0x0, 0x0, 0x0);
    WordIs(m, 0, 1, 0x0, 0x0, 0x0, 0x0);
    WordIs(m, 0, 2, 0x0, 0x0, 0x0, 0x0);
    WordIs(m, 0, 3, 0x0, 0x0, 0x0, 0x0);
    WordIs(m, 0, 4, 0x0, 0x0, 0x0, 0x0);
    WordIs(m, 0, 5, 0x0, 0x0, 0x0, 0x0);
    WordIs(m, 0, 6, 0x0, 0x0, 0x0, 0x0);
    WordIs(m, 0, 7, 0x0, 0x0, 0x0, 0x0);
  }

  lemma EmptyWords2()
    ensures |Padded([])| == 64
    ensures forall k: nat | 8 <= k < 16 :: Word([], 0, k, EMPTY_WORDS[k])
  {
    hide Padded, Word;
    var m: seq<Byte> := [];
    EmptyLength();
    WordIs(m, 0, 8, 0x0, 0x0, 0x0, 0x0);
    WordIs(m, 0, 9, 0x0, 0x0, 0x0, 0x0);
    WordIs(m, 0, 10, 0x0, 0x0, 0x0, 0x0);
    WordIs(m, 0, 11, 0x0, 0x0, 0x0, 0x0);
    WordIs(m, 0, 12, 0x0, 0x0, 0x0, 0x0);
    WordIs(m, 0, 13, 0x0, 0x0, 0x0, 0x0);
    WordIs(m, 0, 14, 0x0, 0x0, 0x0, 0x0);
    WordIs(m, 0, 15, 0x0, 0x0, 0x0, 0x0);
  }

  lemma EmptyBlock()
    ensures |Padded([])| == 64
    ensures Transform(INITIAL, Padded([])[0..64]) ==
            State(0xd98c1dd4, 0x04b2008f, 0x980980e9, 0x7e42f8ec)
  {
    hide Padded, Word, Words, Operations, At;
    EmptyWords1();
    EmptyWords2();
    AllWords([], 0, EMPTY_WORDS);
    EmptySteps64();
    EmptyEnd();
  }

  lemma EmptyPrinted()
    ensures Output(State(0xd98c1dd4, 0x04b2008f, 0x980980e9, 0x7e42f8ec)) ==
            [
              0xd4, 0x1d, 0x8c, 0xd9, 0x8f, 0x00, 0xb2, 0x04,
              0xe9, 0x80, 0x09, 0x98, 0xec, 0xf8, 0x42, 0x7e]
  {
    hide WordBytes;
    PrintWord(0xd98c1dd4, 0xd4, 0x1d, 0x8c, 0xd9);
    PrintWord(0x04b2008f, 0x8f, 0x00, 0xb2, 0x04);
    PrintWord(0x980980e9, 0xe9, 0x80, 0x09, 0x98);
    PrintWord(0x7e42f8ec, 0xec, 0xf8, 0x42, 0x7e);
  }

  /** MD5("") = d41d8cd98f00b204e9800998ecf8427e */
  lemma EmptyDigest()
    ensures Digest([]) ==
            [
              0xd4, 0x1d, 0x8c, 0xd9, 0x8f, 0x00, 0xb2, 0x04,
              0xe9, 0x80, 0x09, 0x98, 0xec, 0xf8, 0x42, 0x7e]
  {
    hide Padded, Transform, Output;
    var p := Padded([]);
    EmptyBlock();
    OneBlock(INITIAL, p);
    EmptyPrinted();
  }

  // ---- "abc" ----

  lemma AbcLength()
    ensures |Padded(ABC)| == 64
  {
  }

  const ABC_WORDS := Sixteen(
    0x80636261, 0, 0, 0, 0, 0, 0, 0,
    0, 0, 0, 0, 0, 0, 0x18, 0)

  lemma AbcSteps8()
    ensures Operations(8, INITIAL, ABC_WORDS) == At(0xc73741ef, 0x928d99f6, 0x207dc67b, 0x8bac3051)
  {
    hide Operations, At, T, WordIndex, Shift, Sixteen;
    Schedule1();
    AbcStart();
    First(0, INITIAL, ABC_WORDS, 0x67452301, 0xefcdab89, 0x98badcfe, 0x10325476, 0x98badcfe, 0xceebcbca, 0xdfc52fb9,
          0xf4da86b6, 0xd6d117b4, 0x344a8432, 0x2f6fbd72, 0x7ad956f2, 0x57ce06d8, 0xc7e5d796, 0x9ca07d92, 0xa666012d,
          0x2b, 0xc7e, 0x13940, 0x299980);
    First(4, INITIAL, ABC_WORDS, 0xd6d117b4, 0x7ad956f2, 0x2f6fbd72, 0x344a8432, 0x2e4b9472, 0x6a59fcf2, 0xf37546e3,
          0xc72e01d5, 0xc73741ef, 0x8bac3051, 0x207dc67b, 0x928d99f6, 0xfa98bbd5, 0xe62c474e, 0xcb154a68, 0x3f4dedc8,
          0x7d, 0xe62, 0x1962a, 0xfd37b);
  }

  lemma AbcSteps16()
    ensures Operations(16, INITIAL, ABC_WORDS) == At(0xdda9b9a6, 0x72aff2e0, 0xe396856b, 0xa1051895)
  {
    hide Operations, At, T, WordIndex, Shift, Sixteen;
    Schedule1();
    AbcSteps8();
    First(8, INITIAL, ABC_WORDS, 0xc73741ef, 0x928d99f6, 0x207dc67b, 0x8bac3051, 0x092da073, 0xa03dd17b, 0x864f3b72,
          0xb56b7706, 0x854b3712, 0x74e2f284, 0x3020401c, 0x5ed49596, 0x39e57b3a, 0xb72ef97b, 0xa6cc5d9e, 0xd155e8ba,
          0x1c, 0xb72, 0x14d98, 0x34557a);
    First(12, INITIAL, ABC_WORDS, 0x854b3712, 0x5ed49596, 0x3020401c, 0x74e2f284, 0x30226214, 0x7c80d19e, 0xdfd19d86,
          0xbd2d3885, 0xdda9b9a6, 0xa1051895, 0xe396856b, 0x72aff2e0, 0x20fdaa48, 0xeefc35b5, 0xb66b2148, 0x65b5d63c,
          0x10, 0xeef, 0x16cd6, 0x196d75);
  }

  lemma AbcSteps24()
    ensures Operations(24, INITIAL, ABC_WORDS) == At(0x59a8ffda, 0x47092c07, 0xabfc7920, 0x6d002f1e)
  {
    hide Operations, At, T, WordIndex, Shift, Sixteen;
    Schedule2();
    AbcSteps16();
    Second(16, INITIAL, ABC_WORDS, 0xdda9b9a6, 0x72aff2e0, 0xe396856b, 0xa1051895, 0x629795ea, 0x32bff3a2, 0x4e1d8146,
           0x621f104a, 0x3e9e9126, 0x4a1d804e, 0xe25e1652, 0xb5b204e4, 0x365f74f2, 0x9405bf77, 0x58126102, 0x3ee92d35,
           0x6, 0x128, 0x1604, 0x3ee92);
    Second(20, INITIAL, ABC_WORDS, 0x3e9e9126, 0xb5b204e4, 0xe25e1652, 0x4a1d804e, 0xa0521654, 0x55a816f6, 0x6d08ff1e,
           0x2da87904, 0x59a8ffda, 0x6d002f1e, 0xabfc7920, 0x47092c07, 0xb51fb7d7, 0xa209ab97, 0x2808fbf1, 0xcb2e79b0,
           0x16, 0x144, 0xa02, 0xcb2e7);
  }

  lemma AbcSteps32()
    ensures Operations(32, INITIAL, ABC_WORDS) == At(0x790a77fb, 0x726342d3, 0xa62884aa, 0x9f47e4f8)
  {
    hide Operations, At, T, WordIndex, Shift, Sixteen;
    Schedule2();
    AbcSteps24();
    Second(24, INITIAL, ABC_WORDS, 0x59a8ffda, 0x47092c07, 0xabfc7920, 0x6d002f1e, 0xc7fc7c26, 0xe7f16c07, 0xb1fa4ccf,
           0xbe1aa6b1, 0xb7f268cf, 0x09388eff, 0xfe1623b1, 0x786acb8f, 0x438749e6, 0x1828a313, 0x52cbd376, 0x4a7de7a5,
           0x8, 0x30, 0x14b2, 0x4a7de);
    Second(28, INITIAL, ABC_WORDS, 0xb7f268cf, 0x786acb8f, 0xfe1623b1, 0x09388eff, 0xfe2eab8f, 0x786aebbf, 0x1942f4f8,
           0xa64d84aa, 0x790a77fb, 0x9f47e4f8, 0xa62884aa, 0x726342d3, 0x6004fd63, 0x7e931eb6, 0x7ec81b82, 0xabe29cc3,
           0xc, 0xfd, 0x1fb2, 0xabe29);
  }

  lemma AbcSteps40()
    ensures Operations(40, INITIAL, ABC_WORDS) == At(0x21b117b9, 0x5a2f5ea5, 0x3575227e, 0x6e7429d5)
  {
    hide Operations, At, T, WordIndex, Shift, Sixteen;
    Schedule3();
    AbcSteps32();
    Third(32, INITIAL, ABC_WORDS, 0x790a77fb, 0x726342d3, 0xa62884aa, 0x9f47e4f8, 0x4b0c2281, 0x673bb8c6, 0xa1014742,
          0x5e432a64, 0xb3707ebf, 0x60127b2e, 0x8d212ff5, 0x3b0875c7, 0xc410d3be, 0x8df5943f, 0xb4c72d0e, 0xce8ba55b,
          0xc, 0x46f, 0xb4c7, 0x6745d2);
    Third(36, INITIAL, ABC_WORDS, 0xb3707ebf, 0x3b0875c7, 0x8d212ff5, 0x60127b2e, 0xd63b211c, 0x97984d8b, 0x74cd4bab,
          0x7ab01c12, 0x21b117b9, 0x6e7429d5, 0x3575227e, 0x5a2f5ea5, 0x2e6a8a1f, 0x43899862, 0xf8a9c700, 0x74784e49,
          0x2, 0x21c, 0xf8a9, 0x3a3c27);
  }

  lemma AbcSteps48()
    ensures Operations(48, INITIAL, ABC_WORDS) == At(0x7f2e507b, 0x7beb9700, 0x8fae6399, 0x99d9679d)
  {
    hide Operations, At, T, WordIndex, Shift, Sixteen;
    Schedule3();
    AbcSteps40();
    Third(40, INITIAL, ABC_WORDS, 0x21b117b9, 0x5a2f5ea5, 0x3575227e, 0x6e7429d5, 0x012e550e, 0x7e846ba2, 0xb12de3e4,
          0xdac6d88b, 0x11de1779, 0xfadcaa38, 0x31c465ca, 0x4c6124f4, 0x4b7aeb8d, 0x57fd1fd2, 0xbb9236e7, 0x397e5435,
          0x4, 0x2bf, 0xbb92, 0x1cbf2a);
    Third(44, INITIAL, ABC_WORDS, 0x11de1779, 0x4c6124f4, 0x31c465ca, 0xfadcaa38, 0x8779eb06, 0x028b1145, 0xaa961312,
          0x6959547f, 0x7f2e507b, 0x99d9679d, 0x8fae6399, 0x7beb9700, 0x732cd2b8, 0xe4435562, 0xfbfcf5d4, 0x7a66cfd8,
          0x7, 0x722, 0xfbfc, 0x3d3367);
  }

  lemma AbcSteps56()
    ensures Operations(56, INITIAL, ABC_WORDS) == At(0x06cc5e8a, 0x3bfa2c27, 0x7d632dd0, 0x5b0d97aa)
  {
    hide Operations, At, T, WordIndex, Shift, Sixteen;
    Schedule4();
    AbcSteps48();
    Fourth(48, INITIAL, ABC_WORDS, 0x7f2e507b, 0x7beb9700, 0x8fae6399, 0x99d9679d, 0xf041fcfb, 0x009a0afe, 0x8fdcf407,
           0x42370791, 0x7b201df8, 0xf4e8e96e, 0xb298cefd, 0x8bf025c4, 0xe3fcd21b, 0xdd9e7232, 0xcb1f7b5f, 0xbab63eca,
           0x38, 0x376, 0x658f, 0x1756c7);
    Fourth(52, INITIAL, ABC_WORDS, 0x7b201df8, 0x8bf025c4, 0xb298cefd, 0xf4e8e96e, 0x396ff928, 0xc41f5a4e, 0x79c38131,
           0xa67e3a5f, 0x06cc5e8a, 0x5b0d97aa, 0x7d632dd0, 0x3bfa2c27, 0x19eb70e3, 0x4815104e, 0x2c4c44ab, 0xb7f2bdf4,
           0x6, 0x120, 0x1626, 0x16fe57);
  }

  lemma AbcSteps64()
    ensures Operations(64, INITIAL, ABC_WORDS) == At(0x310ade8f, 0xc08226b3, 0xe484b9d8, 0x624d8cb2)
  {
    hide Operations, At, T, WordIndex, Shift, Sixteen;
    Schedule4();
    AbcSteps56();
    Fourth(56, INITIAL, ABC_WORDS, 0x06cc5e8a, 0x3bfa2c27, 0x7d632dd0, 0x5b0d97aa, 0xc29941a7, 0xc467f218, 0xb2c41bce,
           0xc6bbeb54, 0x7f81cc35, 0x094454ab, 0x4f9dbe3f, 0x7327d604, 0x390e1e80, 0x1da270a2, 0xd3288cb2, 0x50be291c,
           0xe, 0x76, 0x6994, 0xa17c5);
    Fourth(60, INITIAL, ABC_WORDS, 0x7f81cc35, 0x7327d604, 0x4f9dbe3f, 0x094454ab, 0xb822416b, 0xc24d09cb, 0xdfd77374,
           0x8cb8354a, 0x310ade8f, 0x624d8cb2, 0xe484b9d8, 0xc08226b3, 0x2ef78c22, 0x88cc50ab, 0x5a4d046e, 0xeb66dedf,
           0xb, 0x223, 0x2d26, 0x1d6cdb);
  }

  lemma AbcStart()
    ensures Operations(0, INITIAL, ABC_WORDS) == At(0x67452301, 0xefcdab89, 0x98badcfe, 0x10325476)
  {
  }

  lemma AbcEnd()
    ensures At(0x310ade8f, 0xc08226b3, 0xe484b9d8, 0x624d8cb2) == State(0x310ade8f, 0xc08226b3, 0xe484b9d8, 0x624d8cb2)
  {
  }

  lemma AbcWords1()
    ensures |Padded(ABC)| == 64
    ensures forall k: nat | 0 <= k < 8 :: Word(ABC, 0, k, ABC_WORDS[k])
  {
    hide Padded, Word;
    var m: seq<Byte> := ABC;
    AbcLength();
    WordIs(m, 0, 0, 0x61, 0x62, 0x63, 0x80);
    WordIs(m, 0, 1, 0x0, 0x0, 0x0, 0x0);
    WordIs(m, 0, 2, 0x0, 0x0, 0x0, 0x0);
    WordIs(m, 0, 3, 0x0, 0x0, 0x0, 0x0);
    WordIs(m, 0, 4, 0x0, 0x0, 0x0, 0x0);
    WordIs(m, 0, 5, 0x0, 0x0, 0x0, 0x0);
    WordIs(m, 0, 6, 0x0, 0x0, 0x0, 0x0);
    WordIs(m, 0, 7, 0x0, 0x0, 0x0, 0x0);
  }

  lemma AbcWords2()
    ensures |Padded(ABC)| == 64
    ensures forall k: nat | 8 <= k < 16 :: Word(ABC, 0, k, ABC_WORDS[k])
  {
    hide Padded, Word;
    var m: seq<Byte> := ABC;
    AbcLength();
    WordIs(m, 0, 8, 0x0, 0x0, 0x0, 0x0);
    WordIs(m, 0, 9, 0x0, 0x0, 0x0, 0x0);
    WordIs(m, 0, 10, 0x0, 0x0, 0x0, 0x0);
    WordIs(m, 0, 11, 0x0, 0x0, 0x0, 0x0);
    WordIs(m, 0, 12, 0x0, 0x0, 0x0, 0x0);
    WordIs(m, 0, 13, 0x0, 0x0, 0x0, 0x0);
    WordIs(m, 0, 14, 0x18, 0x0, 0x0, 0x0);
    WordIs(m, 0, 15, 0x0, 0x0, 0x0, 0x0);
  }

  lemma AbcBlock()
    ensures |Padded(ABC)| == 64
    ensures Transform(INITIAL, Padded(ABC)[0..64]) ==
            State(0x98500190, 0xb04fd23c, 0x7d3f96d6, 0x727fe128)
  {
    hide Padded, Word, Words, Operations, At;
    AbcWords1();
    AbcWords2();
    AllWords(ABC, 0, ABC_WORDS);
    AbcSteps64();
    AbcEnd();
  }

  lemma AbcPrinted()
    ensures Output(State(0x98500190, 0xb04fd23c, 0x7d3f96d6, 0x727fe128)) ==
            [
              0x90, 0x01, 0x50, 0x98, 0x3c, 0xd2, 0x4f, 0xb0,
              0xd6, 0x96, 0x3f, 0x7d, 0x28, 0xe1, 0x7f, 0x72]
  {
    hide WordBytes;
    PrintWord(0x98500190, 0x90, 0x01, 0x50, 0x98);
    PrintWord(0xb04fd23c, 0x3c, 0xd2, 0x4f, 0xb0);
    PrintWord(0x7d3f96d6, 0xd6, 0x96, 0x3f, 0x7d);
    PrintWord(0x727fe128, 0x28, 0xe1, 0x7f, 0x72);
  }

  /** MD5("abc") = 900150983cd24fb0d6963f7d28e17f72 */
  lemma AbcDigest()
    ensures Digest(ABC) ==
            [
              0x90, 0x01, 0x50, 0x98, 0x3c, 0xd2, 0x4f, 0xb0,
              0xd6, 0x96, 0x3f, 0x7d, 0x28, 0xe1, 0x7f, 0x72]
  {
    hide Padded, Transform, Output;
    var p := Padded(ABC);
    AbcBlock();
    OneBlock(INITIAL, p);
    AbcPrinted();
  }

  // ---- "ABCDEFGHIJKLMNOPQRSTUVWXYZabcdefghijklmnopqrstuvwxyz0123456789" ----

  lemma LettersLength()
    ensures |Padded(Letters())| == 128
  {
  }

  const LETTERS1_WORDS := Sixteen(
    0x44434241, 0x48474645, 0x4c4b4a49, 0x504f4e4d, 0x54535251, 0x58575655, 0x62615a59, 0x66656463,
    0x6a696867, 0x6e6d6c6b, 0x7271706f, 0x76757473, 0x7a797877, 0x33323130, 0x37363534, 0x803938)

  lemma Letters1Steps8()
    ensures Operations(8, INITIAL, LETTERS1_WORDS) == At(0xf22e6c4e, 0xa4799506, 0xa95a2fc0, 0xb4ac9218)
  {
    hide Operations, At, T, WordIndex, Shift, Sixteen;
    Schedule1();
    Letters1Start();
    First(0, INITIAL, LETTERS1_WORDS, 0x67452301, 0xefcdab89, 0x98badcfe, 0x10325476, 0x98badcfe, 0xdefbdbe8,
          0xe6cd2390, 0xd7c11f96, 0xc6c10796, 0x99a09999, 0x11067980, 0x27bce07a, 0x1bade6b8, 0x203d2df9, 0xeff3bbb2,
          0xd99be85a, 0xd, 0x203, 0x1dfe7, 0x3666fa);
    First(4, INITIAL, LETTERS1_WORDS, 0xc6c10796, 0x27bce07a, 0x11067980, 0x99a09999, 0x99047981, 0x232c71ca,
          0xb33c606a, 0xf22c420e, 0xf22e6c4e, 0xb4ac9218, 0xa95a2fc0, 0xa4799506, 0xa994e317, 0x5cac27e2, 0xced47a56,
          0x7d951bec, 0x54, 0x5ca, 0x19da8, 0x1f6546);
  }

  lemma Letters1Steps16()
    ensures Operations(16, INITIAL, LETTERS1_WORDS) == At(0x3cbdcd45, 0x5d38e690, 0xfa148c8a, 0xb8dec763)
  {
    hide Operations, At, T, WordIndex, Shift, Sixteen;
    Schedule1();
    Letters1Steps8();
    First(8, INITIAL, LETTERS1_WORDS, 0xf22e6c4e, 0xa4799506, 0xa95a2fc0, 0xb4ac9218, 0xb0dc0718, 0xa5798d00,
          0x06bb95c0, 0x96b7a5ca, 0x1eb3e7c1, 0xa6e70cfe, 0xca27520b, 0x8a7612ec, 0x76f474a5, 0x53d88332, 0x228691a0,
          0x3b038701, 0x3b, 0x53d, 0x450d, 0xec0e1);
    First(12, INITIAL, LETTERS1_WORDS, 0x1eb3e7c1, 0x8a7612ec, 0xca27520b, 0xa6e70cfe, 0xaea71e1a, 0xca36124e,
          0x3abcd5cd, 0xbcbdc547, 0x3cbdcd45, 0xb8dec763, 0xfa148c8a, 0x5d38e690, 0xb3648f74, 0xa1e7c20f, 0xe293a09a,
          0x9168198c, 0x59, 0xa1e, 0x1c527, 0x245a06);
  }

  lemma Letters1Steps24()
    ensures Operations(24, INITIAL, LETTERS1_WORDS) == At(0x2d7d8a3f, 0x75292030, 0x4b534dc3, 0xd1210823)
  {
    hide Operations, At, T, WordIndex, Shift, Sixteen;
    Schedule2();
    Letters1Steps16();
    Second(16, INITIAL, LETTERS1_WORDS, 0x3cbdcd45, 0x5d38e690, 0xfa148c8a, 0xb8dec763, 0x5a18ce88, 0x0538e61a,
           0x58b113aa, 0x78a816c1, 0x04b9d52a, 0x783002eb, 0xd3ee3ed1, 0x47ae7c81, 0xd53c0774, 0xe0b9bb16, 0xef996ef8,
           0x3db073c, 0x1a, 0x1c1, 0x3be6, 0x3db0);
    Second(20, INITIAL, LETTERS1_WORDS, 0x04b9d52a, 0x47ae7c81, 0xd3ee3ed1, 0x783002eb, 0xc3ee3c91, 0x056c4a11,
           0x69718a3f, 0xd9510803, 0x2d7d8a3f, 0xd1210823, 0x4b534dc3, 0x75292030, 0xf72e786d, 0xf251d1be, 0x1681e8c9,
           0x5d26d29d, 0x1e, 0x1e4, 0x5a0, 0x5d26d);
  }

  lemma Letters1Steps32()
    ensures Operations(32, INITIAL, LETTERS1_WORDS) == At(0x9b085fa9, 0xdd789ecc, 0x5993248f, 0x4400a9bd)
  {
    hide Operations, At, T, WordIndex, Shift, Sixteen;
    Schedule2();
    Letters1Steps24();
    Second(24, INITIAL, LETTERS1_WORDS, 0x2d7d8a3f, 0x75292030, 0x4b534dc3, 0xd1210823, 0x5b7345e0, 0x3d2a6c33,
           0x8c0b6e03, 0x96a72464, 0x9d2a6e33, 0x0e8d2e44, 0xd473b564, 0xf2ff6ea0, 0x19400a70, 0x8b8b160, 0x1c83179a,
           0xbb93c1e8, 0x3, 0x11, 0x720, 0xbb93c);
    Second(28, INITIAL, LETTERS1_WORDS, 0x9d2a6e33, 0xf2ff6ea0, 0xd473b564, 0x0e8d2e44, 0xd2ffbf20, 0xb28c5fa0,
           0x490039a9, 0x5d00a49d, 0x9b085fa9, 0x4400a9bd, 0x5993248f, 0xdd789ecc, 0x4d404788, 0xa547c25, 0xeb485649,
           0x57a3d83e, 0x9, 0x14, 0x3ad2, 0x57a3d);
  }

  lemma Letters1Steps40()
    ensures Operations(40, INITIAL, LETTERS1_WORDS) == At(0x436b7fe9, 0xcf0341ed, 0xf404c2f6, 0x075800c1)
  {
    hide Operations, At, T, WordIndex, Shift, Sixteen;
    Schedule3();
    Letters1Steps32();
    Third(32, INITIAL, LETTERS1_WORDS, 0x9b085fa9, 0xdd789ecc, 0x5993248f, 0x4400a9bd, 0xc0eb13fe, 0xa52368f4,
          0xe1e5edf5, 0x39f3b220, 0x21c8d2b7, 0x1d55a18e, 0x056ec119, 0x1b9504f8, 0xb445033e, 0xdaff7199, 0x1f8be819,
          0x4c87be2c, 0xb, 0x6d7, 0x1f8b, 0x2643df);
    Third(36, INITIAL, LETTERS1_WORDS, 0x21c8d2b7, 0x1b9504f8, 0x056ec119, 0x1d55a18e, 0x03ae646f, 0x5d90ba08,
          0x5fa67bd0, 0xb037bdde, 0x436b7fe9, 0x075800c1, 0xf404c2f6, 0xcf0341ed, 0x127d67af, 0x1b187d90, 0xc235ecac,
          0xfcfdefb5, 0x1, 0xd8, 0xc235, 0x7e7ef7);
  }

  lemma Letters1Steps48()
    ensures Operations(48, INITIAL, LETTERS1_WORDS) == At(0x2dbee21d, 0xf166f514, 0xee46e961, 0xe95c3a43)
  {
    hide Operations, At, T, WordIndex, Shift, Sixteen;
    Schedule3();
    Letters1Steps40();
    Third(40, INITIAL, LETTERS1_WORDS, 0x436b7fe9, 0xcf0341ed, 0xf404c2f6, 0x075800c1, 0x3c5f83da, 0xb389fe91,
          0xfc57d0bf, 0xfd369321, 0x888e7d8a, 0xbbdaecd8, 0xce620273, 0x047b9419, 0xdb98b3b9, 0xe9c6698d, 0x159b1287,
          0x33234c6c, 0xd, 0x74e, 0x159b, 0x1991a6);
    Third(44, INITIAL, LETTERS1_WORDS, 0x888e7d8a, 0x047b9419, 0xce620273, 0xbbdaecd8, 0x71c37ab2, 0xe7a77477,
          0xc0994c47, 0x2aa4313f, 0x2dbee21d, 0xe95c3a43, 0xee46e961, 0xf166f514, 0x429434e0, 0x4d773ab, 0xaf1e04ea,
          0x40176606, 0x4, 0x26, 0xaf1e, 0x200bb3);
  }

  lemma Letters1Steps56()
    ensures Operations(56, INITIAL, LETTERS1_WORDS) == At(0xa691d430, 0xefb0e72f, 0x3fc23df6, 0x528452f2)
  {
    hide Operations, At, T, WordIndex, Shift, Sixteen;
    Schedule4();
    Letters1Steps48();
    Fourth(48, INITIAL, LETTERS1_WORDS, 0x2dbee21d, 0xf166f514, 0xee46e961, 0xe95c3a43, 0x19a11cdd, 0x049923eb,
           0x1be6ab08, 0x0022989d, 0xe47fd4f3, 0xfb887751, 0xf22aedcc, 0x7a13bc5c, 0x7fcc637f, 0x9785c228, 0xecf7ed44,
           0x4674843f, 0x1f, 0x25e, 0x767b, 0x8ce90);
    Fourth(52, INITIAL, LETTERS1_WORDS, 0xe47fd4f3, 0x7a13bc5c, 0xf22aedcc, 0xfb887751, 0x8c5d5132, 0xd5c66a6f,
           0x717d87c3, 0x2d6a6d0d, 0xa691d430, 0x528452f2, 0x3fc23df6, 0xefb0e72f, 0x50b1f85f, 0xb0aafc9f, 0xd609da7b,
           0x7549cd7f, 0x14, 0x2c2, 0x6b04, 0xea939);
  }

  lemma Letters1Steps64()
    ensures Operations(64, INITIAL, LETTERS1_WORDS) == At(0x1cb80f0a, 0xef2e3a46, 0x10f68731, 0xea3d3eb4)
  {
    hide Operations, At, T, WordIndex, Shift, Sixteen;
    Schedule4();
    Letters1Steps56();
    Fourth(56, INITIAL, LETTERS1_WORDS, 0xa691d430, 0xefb0e72f, 0x3fc23df6, 0x528452f2, 0xd039d2d9, 0x088d3024,
           0x16fb4ffa, 0xde4eae94, 0x27145703, 0x21a11069, 0x374fbe79, 0x49d9a5b4, 0x50dd8dbf, 0x59bea32e, 0x5c202b5d,
           0x4f39d894, 0x14, 0x166, 0x2e10, 0x9e73b);
    Fourth(60, INITIAL, LETTERS1_WORDS, 0x27145703, 0x49d9a5b4, 0x374fbe79, 0x21a11069, 0xe89051cf, 0x9561ea3a,
           0xe28771f5, 0x19cac941, 0x1cb80f0a, 0xea3d3eb4, 0x10f68731, 0xef2e3a46, 0x5b4b79a5, 0xeab3614b, 0x90fa4d72,
           0xbd98aef1, 0x16, 0x3aa, 0x487d, 0x17b315);
  }

  lemma Letters1Start()
    ensures Operations(0, INITIAL, LETTERS1_WORDS) == At(0x67452301, 0xefcdab89, 0x98badcfe, 0x10325476)
  {
  }

  lemma Letters1End()
    ensures At(0x1cb80f0a, 0xef2e3a46, 0x10f68731, 0xea3d3eb4) == State(0x1cb80f0a, 0xef2e3a46, 0x10f68731, 0xea3d3eb4)
  {
  }

  lemma Letters1Words1()
    ensures |Padded(Letters())| == 128
    ensures forall k: nat | 0 <= k < 8 :: Word(Letters(), 0, k, LETTERS1_WORDS[k])
  {
    hide Padded, Word;
    var m: seq<Byte> := Letters();
    LettersLength();
    WordIs(m, 0, 0, 0x41, 0x42, 0x43, 0x44);
    WordIs(m, 0, 1, 0x45, 0x46, 0x47, 0x48);
    WordIs(m, 0, 2, 0x49, 0x4a, 0x4b, 0x4c);
    WordIs(m, 0, 3, 0x4d, 0x4e, 0x4f, 0x50);
    WordIs(m, 0, 4, 0x51, 0x52, 0x53, 0x54);
    WordIs(m, 0, 5, 0x55, 0x56, 0x57, 0x58);
    WordIs(m, 0, 6, 0x59, 0x5a, 0x61, 0x62);
    WordIs(m, 0, 7, 0x63, 0x64, 0x65, 0x66);
  }

  lemma Letters1Words2()
    ensures |Padded(Letters())| == 128
    ensures forall k: nat | 8 <= k < 16 :: Word(Letters(), 0, k, LETTERS1_WORDS[k])
  {
    hide Padded, Word;
    var m: seq<Byte> := Letters();
    LettersLength();
    WordIs(m, 0, 8, 0x67, 0x68, 0x69, 0x6a);
    WordIs(m, 0, 9, 0x6b, 0x6c, 0x6d, 0x6e);
    WordIs(m, 0, 10, 0x6f, 0x70, 0x71, 0x72);
    WordIs(m, 0, 11, 0x73, 0x74, 0x75, 0x76);
    WordIs(m, 0, 12, 0x77, 0x78, 0x79, 0x7a);
    WordIs(m, 0, 13, 0x30, 0x31, 0x32, 0x33);
    WordIs(m, 0, 14, 0x34, 0x35, 0x36, 0x37);
    WordIs(m, 0, 15, 0x38, 0x39, 0x80, 0x0);
  }

  lemma Letters1Block()
    ensures |Padded(Letters())| == 128
    ensures Transform(INITIAL, Padded(Letters())[0..64]) ==
            State(0x83fd320b, 0xdefbe5cf, 0xa9b1642f, 0xfa6f932a)
  {
    hide Padded, Word, Words, Operations, At;
    Letters1Words1();
    Letters1Words2();
    AllWords(Letters(), 0, LETTERS1_WORDS);
    Letters1Steps64();
    Letters1End();
  }

  const LETTERS2_WORDS := Sixteen(
    0, 0, 0, 0, 0, 0, 0, 0,
    0, 0, 0, 0, 0, 0, 0x1f0, 0)

  const LETTERS_MIDDLE := State(0x83fd320b, 0xdefbe5cf, 0xa9b1642f, 0xfa6f932a)

  lemma Letters2Steps8()
    ensures Operations(8, LETTERS_MIDDLE, LETTERS2_WORDS) == At(0x75144433, 0x99b6b699, 0xc783cb60, 0xc8875807)
  {
    hide Operations, At, T, WordIndex, Shift, Sixteen;
    Schedule1();
    Letters2Start();
    First(0, LETTERS_MIDDLE, LETTERS2_WORDS, 0x83fd320b, 0xdefbe5cf, 0xa9b1642f, 0xfa6f932a, 0xa8b5762f, 0xccb364ef,
          0xcee2fcc1, 0xd9923dc9, 0xeda23ed1, 0x989939cf, 0x3c307338, 0xddcf0634, 0x41d4cb2, 0xafeaaf6f, 0x9cb4d1cb,
          0x7a4bf286, 0x2, 0xafe, 0x13969, 0x1e92fc);
    First(4, LETTERS_MIDDLE, LETTERS2_WORDS, 0xeda23ed1, 0xddcf0634, 0x3c307338, 0x989939cf, 0x1c103bfb, 0x5d243738,
          0x554c4633, 0xf0974c13, 0x75144433, 0xc8875807, 0xc783cb60, 0x99b6b699, 0xff2e8a7b, 0x3d453731, 0x39acff7e,
          0xcbace748, 0x7f, 0x3d4, 0x7359, 0x32eb39);
  }

  lemma Letters2Steps16()
    ensures Operations(16, LETTERS_MIDDLE, LETTERS2_WORDS) == At(0xa70737da, 0xa36f556f, 0x96f6586e, 0x5473f8a7)
  {
    hide Operations, At, T, WordIndex, Shift, Sixteen;
    Schedule1();
    Letters2Steps8();
    First(8, LETTERS_MIDDLE, LETTERS2_WORDS, 0x75144433, 0x99b6b699, 0xc783cb60, 0xc8875807, 0xc183ca06, 0xc183f609,
          0xb392b629, 0xa24239a8, 0xa60a3f69, 0xaa6630be, 0x64db26e9, 0x64cc7c5a, 0xa018a711, 0x155045bf, 0x7b15dd3a,
          0xc555c7ff, 0x50, 0x155, 0xf62b, 0x315571);
    First(12, LETTERS_MIDDLE, LETTERS2_WORDS, 0xa60a3f69, 0x64cc7c5a, 0x64db26e9, 0xaa6630be, 0xeeea24ec, 0x64dc347b,
          0x248f34da, 0x35737fb6, 0xa70737da, 0x5473f8a7, 0x96f6586e, 0xa36f556f, 0x847577, 0xcdad6cc, 0x2fe3a141,
          0xe3f40431, 0x0, 0xcd, 0x5fc7, 0x38fd01);
  }

  lemma Letters2Steps24()
    ensures Operations(24, LETTERS_MIDDLE, LETTERS2_WORDS) == At(0xe04f070c, 0xdf35cb56, 0xc0d22b61, 0x2f3cd2a2)
  {
    hide Operations, At, T, WordIndex, Shift, Sixteen;
    Schedule2();
    Letters2Steps16();
    Second(16, LETTERS_MIDDLE, LETTERS2_WORDS, 0xa70737da, 0xa36f556f, 0x96f6586e, 0x5473f8a7, 0x82e7506f, 0xa50d0d43,
           0x24674ad6, 0x2d766894, 0xa5050ad3, 0x28776046, 0x27dcd8b4, 0x82b8827c, 0x200cadab, 0xb9c1b92a, 0xe1bbfd95,
           0xba9c85ad, 0x4, 0x173, 0x386e, 0xba9c8);
    Second(20, LETTERS_MIDDLE, LETTERS2_WORDS, 0xa5050ad3, 0x82b8827c, 0x27dcd8b4, 0x28776046, 0x07b898f4, 0xa06c024c,
           0x627f8720, 0xcf72d3a2, 0xe04f070c, 0x2f3cd2a2, 0xc0d22b61, 0xdf35cb56, 0x82ecb424, 0xcb2776e5, 0x62fe4655,
           0x39ff51e6, 0x10, 0x196, 0x18bf, 0x39ff5);
  }

  lemma Letters2Steps32()
    ensures Operations(32, LETTERS_MIDDLE, LETTERS2_WORDS) == At(0x24eba695, 0x9c03e2e8, 0x10c42a2f, 0x4bd0378b)
  {
    hide Operations, At, T, WordIndex, Shift, Sixteen;
    Schedule2();
    Letters2Steps24();
    Second(24, LETTERS_MIDDLE, LETTERS2_WORDS, 0xe04f070c, 0xdf35cb56, 0xc0d22b61, 0x2f3cd2a2, 0xcff6eb43, 0x1f25c216,
           0x7728da12, 0x576b5c23, 0x242dd210, 0x576ace33, 0x5c295967, 0x2291191a, 0xd227c035, 0x11999e7e, 0x2cd012fa,
           0x7bfb3c66, 0x1a, 0x23, 0xb34, 0x7bfb3);
    Second(28, LETTERS_MIDDLE, LETTERS2_WORDS, 0x242dd210, 0x2291191a, 0x5c295967, 0x576ace33, 0x0a011956, 0x26b9001d,
           0x06fab78f, 0x4bd0330f, 0x24eba695, 0x4bd0378b, 0x10c42a2f, 0x9c03e2e8, 0xd812d46b, 0x7b137248, 0xca9313cf,
           0xfb8b98b3, 0x1b, 0xf6, 0x32a4, 0xfb8b9);
  }

  lemma Letters2Steps40()
    ensures Operations(40, LETTERS_MIDDLE, LETTERS2_WORDS) == At(0xe14e403d, 0xfe314121, 0x60cc183a, 0xe8cfd670)
  {
    hide Operations, At, T, WordIndex, Shift, Sixteen;
    Schedule3();
    Letters2Steps32();
    Third(32, LETTERS_MIDDLE, LETTERS2_WORDS, 0x24eba695, 0x9c03e2e8, 0x10c42a2f, 0x4bd0378b, 0xc717ff4c, 0xd7261de1,
          0x59a375b7, 0x5aea8d21, 0x5be1d526, 0x9e414279, 0x9f4a1a7e, 0xa2448453, 0xebfddf23, 0xaa684bed, 0xd8050108,
          0xf4d3aa05, 0xe, 0x553, 0xd805, 0x7a69d5);
    Third(36, LETTERS_MIDDLE, LETTERS2_WORDS, 0x5be1d526, 0xa2448453, 0x9f4a1a7e, 0x9e414279, 0xa34fdc54, 0xdc40de10,
          0xabc5121e, 0x694d8e77, 0xe14e403d, 0xe8cfd670, 0x60cc183a, 0xfe314121, 0xa3f09bbe, 0xc660f032, 0x41ca77fc,
          0xca51cf3a, 0xa, 0x633, 0x41ca, 0x6528e7);
  }

  lemma Letters2Steps48()
    ensures Operations(48, LETTERS_MIDDLE, LETTERS2_WORDS) == At(0x54c9eb3a, 0x79c0710a, 0x2ec86f72, 0xd4d9c6ac)
  {
    hide Operations, At, T, WordIndex, Shift, Sixteen;
    Schedule3();
    Letters2Steps40();
    Third(40, LETTERS_MIDDLE, LETTERS2_WORDS, 0xe14e403d, 0xfe314121, 0x60cc183a, 0xe8cfd670, 0x76328f6b, 0x610b7112,
          0xe2b56084, 0x903103b9, 0xfff62809, 0xe37209ac, 0x8cb5221c, 0x7c7e974c, 0x801c4e6e, 0x347c6f7c, 0x1870a943,
          0x92ea61df, 0x8, 0x1a3, 0x1870, 0x497530);
    Third(44, LETTERS_MIDDLE, LETTERS2_WORDS, 0xfff62809, 0x7c7e974c, 0x8cb5221c, 0xe37209ac, 0x13b9bcfc, 0xa4025e6a,
          0xfc6ebada, 0xaed842e4, 0x54c9eb3a, 0xd4d9c6ac, 0x2ec86f72, 0x79c0710a, 0xed84b53e, 0x6e5001fb, 0xa8c659ee,
          0xf0033095, 0xe, 0x372, 0xa8c6, 0x780198);
  }

  lemma Letters2Steps56()
    ensures Operations(56, LETTERS_MIDDLE, LETTERS2_WORDS) == At(0xe126c1aa, 0xfb7bcee0, 0x6f287ff5, 0x96b00fa7)
  {
    hide Operations, At, T, WordIndex, Shift, Sixteen;
    Schedule4();
    Letters2Steps48();
    Fourth(48, LETTERS_MIDDLE, LETTERS2_WORDS, 0x54c9eb3a, 0x79c0710a, 0x2ec86f72, 0xd4d9c6ac, 0x552e1629, 0xaaffabf7,
           0x95f6950c, 0xee2cbad3, 0x02095af1, 0x13d245fd, 0xa8dcfe26, 0x2ba98e3f, 0x9e2123a7, 0xc304723a, 0x70532a15,
           0x6480cc16, 0x27, 0x30c, 0x3829, 0xc9019);
    Fourth(52, LETTERS_MIDDLE, LETTERS2_WORDS, 0x02095af1, 0x2ba98e3f, 0xa8dcfe26, 0x13d245fd, 0x47714019, 0xdc8e4fc4,
           0x37d0be4d, 0xe9497052, 0xe126c1aa, 0x96b00fa7, 0x6f287ff5, 0xfb7bcee0, 0xaed5f4cd, 0x7f6d6253, 0xe09db0f0,
           0x9a775c62, 0x2b, 0x1fd, 0x704e, 0x134eeb);
  }

  lemma Letters2Steps64()
    ensures Operations(64, LETTERS_MIDDLE, LETTERS2_WORDS) == At(0x14ae42c6, 0x16dd9203, 0x826afd76, 0xa52dae75)
  {
    hide Operations, At, T, WordIndex, Shift, Sixteen;
    Schedule4();
    Letters2Steps56();
    Fourth(56, LETTERS_MIDDLE, LETTERS2_WORDS, 0xe126c1aa, 0xfb7bcee0, 0x6f287ff5, 0x96b00fa7, 0x9457810d, 0x2e845e7b,
           0x8ba82b26, 0x3157f448, 0x452c1099, 0xca801ba6, 0xc197ea8e, 0x5ac74608, 0xe526c106, 0xc3615502, 0x9dd1ee2f,
           0x7adbd4c9, 0x39, 0x30d, 0x4ee8, 0xf5b7a);
    Fourth(60, LETTERS_MIDDLE, LETTERS2_WORDS, 0x452c1099, 0x5ac74608, 0xc197ea8e, 0xca801ba6, 0xbe680cd7, 0x642911ff,
           0xb193fd31, 0x4e56530a, 0x14ae42c6, 0xa52dae75, 0x826afd76, 0x16dd9203, 0xfae79bf2, 0xebe41fda, 0x9e03ba7a,
           0x94a46ca3, 0x3e, 0x3af, 0x4f01, 0x12948d);
  }

  lemma Letters2Start()
    ensures Operations(0, LETTERS_MIDDLE, LETTERS2_WORDS) == At(0x83fd320b, 0xdefbe5cf, 0xa9b1642f, 0xfa6f932a)
  {
  }

  lemma Letters2End()
    ensures At(0x14ae42c6, 0x16dd9203, 0x826afd76, 0xa52dae75) == State(0x14ae42c6, 0x16dd9203, 0x826afd76, 0xa52dae75)
  {
  }

  lemma Letters2Words1()
    ensures |Padded(Letters())| == 128
    ensures forall k: nat | 0 <= k < 8 :: Word(Letters(), 64, k, LETTERS2_WORDS[k])
  {
    hide Padded, Word;
    var m: seq<Byte> := Letters();
    LettersLength();
    WordIs(m, 64, 0, 0x0, 0x0, 0x0, 0x0);
    WordIs(m, 64, 1, 0x0, 0x0, 0x0, 0x0);
    WordIs(m, 64, 2, 0x0, 0x0, 0x0, 0x0);
    WordIs(m, 64, 3, 0x0, 0x0, 0x0, 0x0);
    WordIs(m, 64, 4, 0x0, 0x0, 0x0, 0x0);
    WordIs(m, 64, 5, 0x0, 0x0, 0x0, 0x0);
    WordIs(m, 64, 6, 0x0, 0x0, 0x0, 0x0);
    WordIs(m, 64, 7, 0x0, 0x0, 0x0, 0x0);
  }

  lemma Letters2Words2()
    ensures |Padded(Letters())| == 128
    ensures forall k: nat | 8 <= k < 16 :: Word(Letters(), 64, k, LETTERS2_WORDS[k])
  {
    hide Padded, Word;
    var m: seq<Byte> := Letters();
    LettersLength();
    WordIs(m, 64, 8, 0x0, 0x0, 0x0, 0x0);
    WordIs(m, 64, 9, 0x0, 0x0, 0x0, 0x0);
    WordIs(m, 64, 10, 0x0, 0x0, 0x0, 0x0);
    WordIs(m, 64, 11, 0x0, 0x0, 0x0, 0x0);
    WordIs(m, 64, 12, 0x0, 0x0, 0x0, 0x0);
    WordIs(m, 64, 13, 0x0, 0x0, 0x0, 0x0);
    WordIs(m, 64, 14, 0xf0, 0x1, 0x0, 0x0);
    WordIs(m, 64, 15, 0x0, 0x0, 0x0, 0x0);
  }

  lemma Letters2Block()
    ensures |Padded(Letters())| == 128
    ensures Transform(LETTERS_MIDDLE, Padded(Letters())[64..128]) ==
            State(0x98ab74d1, 0xf5d977d2, 0x2c1c61a5, 0x9f9d419f)
  {
    hide Padded, Word, Words, Operations, At;
    Letters2Words1();
    Letters2Words2();
    AllWords(Letters(), 64, LETTERS2_WORDS);
    Letters2Steps64();
    Letters2End();
  }

  lemma LettersPrinted()
    ensures Output(State(0x98ab74d1, 0xf5d977d2, 0x2c1c61a5, 0x9f9d419f)) ==
            [
              0xd1, 0x74, 0xab, 0x98, 0xd2, 0x77, 0xd9, 0xf5,
              0xa5, 0x61, 0x1c, 0x2c, 0x9f, 0x41, 0x9d, 0x9f]
  {
    hide WordBytes;
    PrintWord(0x98ab74d1, 0xd1, 0x74, 0xab, 0x98);
    PrintWord(0xf5d977d2, 0xd2, 0x77, 0xd9, 0xf5);
    PrintWord(0x2c1c61a5, 0xa5, 0x61, 0x1c, 0x2c);
    PrintWord(0x9f9d419f, 0x9f, 0x41, 0x9d, 0x9f);
  }

  /** MD5("ABCDEFGHIJKLMNOPQRSTUVWXYZabcdefghijklmnopqrstuvwxyz0123456789") = d174ab98d277d9f5a5611c2c9f419d9f */
  lemma LettersDigest()
    ensures Digest(Letters()) ==
            [
              0xd1, 0x74, 0xab, 0x98, 0xd2, 0x77, 0xd9, 0xf5,
              0xa5, 0x61, 0x1c, 0x2c, 0x9f, 0x41, 0x9d, 0x9f]
  {
    hide Padded, Transform, Output;
    var p := Padded(Letters());
    Letters1Block();
    Letters2Block();
    TwoBlocks(INITIAL, p);
    LettersPrinted();
  }
}
