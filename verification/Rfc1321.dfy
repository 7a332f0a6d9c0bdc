/** The MD5 digest as RFC 1321 defines it (sections 3.1 to 3.5), on byte sequences. */
module Rfc1321 {
  import opened Bits

  type Word32 = w: nat | w < TWO_32

  datatype State = State(a: Word32, b: Word32, c: Word32, d: Word32)

  // ---- Section 3.4: the auxiliary functions ----

  function Complement(x: Word32): Word32 { TWO_32 - 1 - x }

  function F(x: Word32, y: Word32, z: Word32): nat { Or(And(x, y), And(Complement(x), z)) }

  function G(x: Word32, y: Word32, z: Word32): nat { Or(And(x, z), And(y, Complement(z))) }

  function H(x: Word32, y: Word32, z: Word32): nat { Xor(Xor(x, y), z) }

  function I(x: Word32, y: Word32, z: Word32): nat { Xor(y, Or(x, Complement(z))) }

  function Auxiliary(round: nat, x: Word32, y: Word32, z: Word32): nat {
    if round == 0 then F(x, y, z)
    else if round == 1 then G(x, y, z)
    else if round == 2 then H(x, y, z)
    else I(x, y, z)
  }

  // X <<< s
  function RotateLeft(x: Word32, s: nat): (r: nat)
    requires 0 < s < 32
  {
    hide Pow2;
    var low, high: nat := Pow2(s), Pow2(32 - s);
    assert x * low >= 0;
    x * low % TWO_32 + x / high
  }

  // ---- Section 3.4: the schedule [abcd k s i] of the 64 operations, n = i - 1 ----

  function Shift(n: nat): (s: nat)
    ensures 0 < s < 32
  {
    match (n / 16, n % 4)
    case (0, 0) => 7 case (0, 1) => 12 case (0, 2) => 17 case (0, _) => 22
    case (1, 0) => 5 case (1, 1) => 9 case (1, 2) => 14 case (1, _) => 20
    case (2, 0) => 4 case (2, 1) => 11 case (2, 2) => 16 case (2, _) => 23
    case (_, 0) => 6 case (_, 1) => 10 case (_, 2) => 15 case (_, _) => 21
  }

  function WordIndex(n: nat): (k: nat)
    ensures k < 16
  {
    if n < 16 then n
    else if n < 32 then (5 * n + 1) % 16
    else if n < 48 then (3 * n + 5) % 16
    else 7 * n % 16
  }

  // T[n + 1], the integer part of 4294967296 times abs(sin(n + 1)), as the RFC tabulates it.
  function T(n: nat): Word32 {
    if n < 16 then T1(n) else if n < 32 then T2(n - 16) else if n < 48 then T3(n - 32) else T4(n - 48)
  }

  function T1(n: nat): Word32 {
    match n
    case 0 => 0xd76aa478 case 1 => 0xe8c7b756 case 2 => 0x242070db case 3 => 0xc1bdceee
    case 4 => 0xf57c0faf case 5 => 0x4787c62a case 6 => 0xa8304613 case 7 => 0xfd469501
    case 8 => 0x698098d8 case 9 => 0x8b44f7af case 10 => 0xffff5bb1 case 11 => 0x895cd7be
    case 12 => 0x6b901122 case 13 => 0xfd987193 case 14 => 0xa679438e case _ => 0x49b40821
  }

  function T2(n: nat): Word32 {
    match n
    case 0 => 0xf61e2562 case 1 => 0xc040b340 case 2 => 0x265e5a51 case 3 => 0xe9b6c7aa
    case 4 => 0xd62f105d case 5 => 0x02441453 case 6 => 0xd8a1e681 case 7 => 0xe7d3fbc8
    case 8 => 0x21e1cde6 case 9 => 0xc33707d6 case 10 => 0xf4d50d87 case 11 => 0x455a14ed
    case 12 => 0xa9e3e905 case 13 => 0xfcefa3f8 case 14 => 0x676f02d9 case _ => 0x8d2a4c8a
  }

  function T3(n: nat): Word32 {
    match n
    case 0 => 0xfffa3942 case 1 => 0x8771f681 case 2 => 0x6d9d6122 case 3 => 0xfde5380c
    case 4 => 0xa4beea44 case 5 => 0x4bdecfa9 case 6 => 0xf6bb4b60 case 7 => 0xbebfbc70
    case 8 => 0x289b7ec6 case 9 => 0xeaa127fa case 10 => 0xd4ef3085 case 11 => 0x04881d05
    case 12 => 0xd9d4d039 case 13 => 0xe6db99e5 case 14 => 0x1fa27cf8 case _ => 0xc4ac5665
  }

  function T4(n: nat): Word32 {
    match n
    case 0 => 0xf4292244 case 1 => 0x432aff97 case 2 => 0xab9423a7 case 3 => 0xfc93a039
    case 4 => 0x655b59c3 case 5 => 0x8f0ccc92 case 6 => 0xffeff47d case 7 => 0x85845dd1
    case 8 => 0x6fa87e4f case 9 => 0xfe2ce6e0 case 10 => 0xa3014314 case 11 => 0x4e0811a1
    case 12 => 0xf7537e82 case 13 => 0xbd3af235 case 14 => 0x2ad7d2bb case _ => 0xeb86d391
  }

  // a = b + ((a + f(b,c,d) + X[k] + T[i]) <<< s)
  function NewA(n: nat, s: State, x: Word32): Word32 {
    (s.b + RotateLeft((s.a + Auxiliary(n / 16, s.b, s.c, s.d) + x + T(n)) % TWO_32, Shift(n))) % TWO_32
  }

  // The registers change places from one operation to the next: [ABCD], [DABC], [CDAB], [BCDA].
  function Operation(n: nat, s: State, words: seq<Word32>): State
    requires |words| == 16
  {
    State(s.d, NewA(n, s, words[WordIndex(n)]), s.b, s.c)
  }

  function Operations(n: nat, s: State, words: seq<Word32>): State
    requires |words| == 16
  {
    if n == 0 then s else Operation(n - 1, Operations(n - 1, s, words), words)
  }

  // A word of a block: four bytes, low-order byte first (section 2).
  function LittleEndian(b: seq<Byte>): Word32
    requires |b| == 4
  {
    (b[0] as int) + (b[1] as int) * 0x100 + (b[2] as int) * 0x1_0000 + (b[3] as int) * 0x100_0000
  }

  function Words(block: seq<Byte>): (w: seq<Word32>)
    requires |block| == 64
    ensures |w| == 16
  {
    seq(16, k requires 0 <= k < 16 => LittleEndian(block[4 * k..4 * k + 4]))
  }

  function Transform(s: State, block: seq<Byte>): State
    requires |block| == 64
  {
    var r := Operations(64, s, Words(block));
    State((s.a + r.a) % TWO_32, (s.b + r.b) % TWO_32, (s.c + r.c) % TWO_32, (s.d + r.d) % TWO_32)
  }

  // The first n blocks of the data, in order.
  function Process(s: State, data: seq<Byte>, n: nat): State
    requires 64 * n <= |data|
  {
    hide Transform;
    if n == 0 then s
    else Transform(Process(s, data, n - 1), data[64 * (n - 1)..64 * n])
  }

  // ---- Section 3.3: the initial state ----

  const INITIAL := State(0x67452301, 0xefcdab89, 0x98badcfe, 0x10325476)

  // ---- Sections 3.1 and 3.2: padding ----

  function Zeros(n: nat): (z: seq<Byte>)
    ensures |z| == n
  {
    seq(n, _ => 0)
  }

  // Bytes of zero so that eight bytes remain in the last block.
  function PadLength(length: nat): (k: nat)
    ensures k < 64 && (length + 1 + k) % 64 == 56
  {
    if length % 64 <= 55 then 55 - length % 64 else 119 - length % 64
  }

  // A word, low-order byte first.
  function WordBytes(w: Word32): (b: seq<Byte>)
    ensures |b| == 4
  {
    [w % 0x100, w / 0x100 % 0x100, w / 0x1_0000 % 0x100, w / 0x100_0000 % 0x100]
  }

  // The length in bits modulo 2^64, low-order word first.
  function LengthBytes(length: nat): (b: seq<Byte>)
    ensures |b| == 8
  {
    WordBytes(8 * length % TWO_32) + WordBytes(8 * length / TWO_32 % TWO_32)
  }

  function Padded(message: seq<Byte>): seq<Byte> {
    message + [0x80] + Zeros(PadLength(|message|)) + LengthBytes(|message|)
  }

  // ---- Section 3.5: output ----

  function Output(s: State): (r: seq<Byte>)
    ensures |r| == 16
  {
    WordBytes(s.a) + WordBytes(s.b) + WordBytes(s.c) + WordBytes(s.d)
  }

  function Digest(message: seq<Byte>): (r: seq<Byte>)
    ensures |r| == 16
  {
    hide Padded, Process;
    Output(Process(INITIAL, Padded(message), |Padded(message)| / 64))
  }

  // A word is read back from its bytes.
  lemma WordBack(w: Word32)
    ensures LittleEndian(WordBytes(w)) == w
  {
    var q0, q1, q2 := w / 0x100, w / 0x1_0000, w / 0x100_0000;
    assert q1 == q0 / 0x100 && q2 == q1 / 0x100 && q2 < 0x100;
  }

  /** The last eight bytes of the padding are one number, the length in bits modulo 2^64. */
  lemma LengthBack(length: nat)
    ensures var b := LengthBytes(length);
            LittleEndian(b[..4]) + TWO_32 * LittleEndian(b[4..]) == 8 * length % TWO_64
  {
    hide WordBytes, LittleEndian;
    var bits := 8 * length;
    WordBack(bits % TWO_32);
    WordBack(bits / TWO_32 % TWO_32);
    assert LengthBytes(length)[..4] == WordBytes(bits % TWO_32);
    assert LengthBytes(length)[4..] == WordBytes(bits / TWO_32 % TWO_32);
    TwoWords(bits);
  }

  lemma TwoWords(x: nat)
    ensures x % TWO_64 == x % TWO_32 + TWO_32 * (x / TWO_32 % TWO_32)
  {
    var h := x / TWO_32;
    assert x == TWO_64 * (h / TWO_32) + (TWO_32 * (h % TWO_32) + x % TWO_32);
    Remainder(x, TWO_64, h / TWO_32, TWO_32 * (h % TWO_32) + x % TWO_32);
  }

  // ---- What the streaming form needs ----

  lemma {:induction false} ProcessPrefix(s: State, x: seq<Byte>, y: seq<Byte>, n: nat)
    requires 64 * n <= |x| && x <= y
    ensures Process(s, x, n) == Process(s, y, n)
  {
    hide Transform;
    if n > 0 {
      ProcessPrefix(s, x, y, n - 1);
      assert x[64 * (n - 1)..64 * n] == y[64 * (n - 1)..64 * n];
    }
  }

  lemma {:induction false} ProcessMore(s: State, x: seq<Byte>, m: nat, y: seq<Byte>, n: nat)
    requires |x| == 64 * m && 64 * n <= |y|
    ensures Process(s, x + y, m + n) == Process(Process(s, x, m), y, n)
    decreases n
  {
    hide Transform;
    if n == 0 {
      ProcessPrefix(s, x, x + y, m);
    } else {
      ProcessMore(s, x, m, y, n - 1);
      assert (x + y)[64 * (m + n - 1)..64 * (m + n)] == y[64 * (n - 1)..64 * n];
    }
  }
}
