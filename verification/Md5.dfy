/** The streaming MD5 of md5.c, in place, for an MD5_u32plus of any width of 32 bits or more and the
    portable SET. At 32 bits the x86 SET loads the same words. */
module Md5 {
  import opened Bits
  import opened Rfc1321
  import opened Md5Steps

  // The registers as RFC words.
  function Low(a: nat, b: nat, c: nat, d: nat): State {
    State(a % TWO_32, b % TWO_32, c % TWO_32, d % TWO_32)
  }

  // A message as complete blocks and a rest, and its length as the context counts it.
  function Whole(message: seq<Byte>): (n: nat)
    ensures 64 * n <= |message|
  {
    |message| / 64
  }

  function Rest(message: seq<Byte>): (r: seq<Byte>)
    ensures |r| == |message| % 64 < 64
  {
    message[|message| / 64 * 64..]
  }

  function LoCount(n: nat): nat { n % 0x2000_0000 }

  function HiCount(w: nat, n: nat): nat { n / 0x2000_0000 % Pow2(w) }

  class Context {
    const width: nat
    var lo: nat
    var hi: nat
    var a: nat
    var b: nat
    var c: nat
    var d: nat
    const buffer: array<Byte>
    const block: array<nat>

    ghost predicate Valid()
      reads this
    {
      && width >= 32 && buffer.Length == 64 && block.Length == 16 && buffer as object != block as object
      && InRange(a, b, c, d) && hi < Pow2(width)
    }

    ghost predicate InRange(a: nat, b: nat, c: nat, d: nat)
    {
      a < Pow2(width) && b < Pow2(width) && c < Pow2(width) && d < Pow2(width)
    }

    // The words that SET has stored so far and GET reads.
    ghost predicate Loaded(words: seq<Word32>, n: nat)
      reads this, block
      requires |words| == 16
    {
      block.Length == 16 && forall k | 0 <= k < 16 && k < n :: block[k] == words[k]
    }

    lemma NothingLoaded(words: seq<Word32>)
      requires |words| == 16 && Valid()
      ensures Loaded(words, 0)
    {
    }

    method Set(data: seq<Byte>, n: nat, ghost words: seq<Word32>) returns (x: nat)
      requires Valid() && |data| == 64 && n < 16 && words == Words(data) && Loaded(words, n)
      modifies block
      ensures x == words[n] && Loaded(words, n + 1)
    {
      block[n] := Assemble(data[4 * n..4 * n + 4]);
      x := block[n];
      AssembleIsLittleEndian(data[4 * n..4 * n + 4]);
    }

    // STEP: operation n of the RFC when its arguments are those of the RFC's table.
    method Step(f: Fn, a: nat, b: nat, c: nat, d: nat, x: nat, t: nat, s: nat,
                ghost n: nat, ghost start: State, ghost words: seq<Word32>)
      returns (r: nat)
      requires Valid() && InRange(a, b, c, d)
      requires n < 64 && |words| == 16 && x == words[WordIndex(n)] && t == T(n) && s == Shift(n) && f.Round() == n / 16
      requires Operations(n, start, words) == Low(a, b, c, d)
      ensures InRange(d, r, b, c) && Operations(n + 1, start, words) == Low(d, r, b, c)
    {
      hide Md5Steps.Step, NewA, T, Shift, WordIndex, Pow2;
      r := Md5Steps.Step(width, f, a, b, c, d, x, t, s);
      StepLow(width, n, f, a, b, c, d, x);
    }

    // STEP with SET(n) for its word, as in round 1.
    method StepSet(f: Fn, a: nat, b: nat, c: nat, d: nat, data: seq<Byte>, n: nat, t: nat, s: nat,
                   ghost start: State, ghost words: seq<Word32>)
      returns (r: nat)
      requires Valid() && InRange(a, b, c, d)
      requires n < 16 && |data| == 64 && words == Words(data) && Loaded(words, n)
      requires t == T(n) && s == Shift(n) && f == Fn.F
      requires Operations(n, start, words) == Low(a, b, c, d)
      modifies block
      ensures InRange(d, r, b, c) && Operations(n + 1, start, words) == Low(d, r, b, c)
      ensures Loaded(words, n + 1)
    {
      hide Operations, Low, Pow2, Words, Loaded, Valid, InRange, T, Shift;
      var x := Set(data, n, words);
      r := Step(f, a, b, c, d, x, t, s, n, start, words);
    }

    method Round1(data: seq<Byte>, a0: nat, b0: nat, c0: nat, d0: nat, ghost s: State, ghost words: seq<Word32>)
      returns (a: nat, b: nat, c: nat, d: nat)
      requires Valid() && |data| == 64 && words == Words(data) && InRange(a0, b0, c0, d0)
      requires Operations(0, s, words) == Low(a0, b0, c0, d0)
      modifies block
      ensures Loaded(words, 16) && InRange(a, b, c, d) && Operations(16, s, words) == Low(a, b, c, d)
    {
      hide Operations, Low, Pow2, Words, Loaded, Valid, InRange;
      assert Loaded(words, 0) by { NothingLoaded(words); }
      a, b, c, d := a0, b0, c0, d0;
      a := StepSet(Fn.F, a, b, c, d, data, 0, 0xd76aa478, 7, s, words);
      d := StepSet(Fn.F, d, a, b, c, data, 1, 0xe8c7b756, 12, s, words);
      c := StepSet(Fn.F, c, d, a, b, data, 2, 0x242070db, 17, s, words);
      b := StepSet(Fn.F, b, c, d, a, data, 3, 0xc1bdceee, 22, s, words);
      a := StepSet(Fn.F, a, b, c, d, data, 4, 0xf57c0faf, 7, s, words);
      d := StepSet(Fn.F, d, a, b, c, data, 5, 0x4787c62a, 12, s, words);
      c := StepSet(Fn.F, c, d, a, b, data, 6, 0xa8304613, 17, s, words);
      b := StepSet(Fn.F, b, c, d, a, data, 7, 0xfd469501, 22, s, words);
      a := StepSet(Fn.F, a, b, c, d, data, 8, 0x698098d8, 7, s, words);
      d := StepSet(Fn.F, d, a, b, c, data, 9, 0x8b44f7af, 12, s, words);
      c := StepSet(Fn.F, c, d, a, b, data, 10, 0xffff5bb1, 17, s, words);
      b := StepSet(Fn.F, b, c, d, a, data, 11, 0x895cd7be, 22, s, words);
      a := StepSet(Fn.F, a, b, c, d, data, 12, 0x6b901122, 7, s, words);
      d := StepSet(Fn.F, d, a, b, c, data, 13, 0xfd987193, 12, s, words);
      c := StepSet(Fn.F, c, d, a, b, data, 14, 0xa679438e, 17, s, words);
      b := StepSet(Fn.F, b, c, d, a, data, 15, 0x49b40821, 22, s, words);
    }

    method Round2(a0: nat, b0: nat, c0: nat, d0: nat, ghost s: State, ghost words: seq<Word32>)
      returns (a: nat, b: nat, c: nat, d: nat)
      requires Valid() && |words| == 16 && Loaded(words, 16) && InRange(a0, b0, c0, d0)
      requires Operations(16, s, words) == Low(a0, b0, c0, d0)
      ensures InRange(a, b, c, d) && Operations(32, s, words) == Low(a, b, c, d)
    {
      hide Operations, Low, Pow2, Words, InRange;
      a, b, c, d := a0, b0, c0, d0;
      a := Step(Fn.G, a, b, c, d, block[1], 0xf61e2562, 5, 16, s, words);
      d := Step(Fn.G, d, a, b, c, block[6], 0xc040b340, 9, 17, s, words);
      c := Step(Fn.G, c, d, a, b, block[11], 0x265e5a51, 14, 18, s, words);
      b := Step(Fn.G, b, c, d, a, block[0], 0xe9b6c7aa, 20, 19, s, words);
      a := Step(Fn.G, a, b, c, d, block[5], 0xd62f105d, 5, 20, s, words);
      d := Step(Fn.G, d, a, b, c, block[10], 0x02441453, 9, 21, s, words);
      c := Step(Fn.G, c, d, a, b, block[15], 0xd8a1e681, 14, 22, s, words);
      b := Step(Fn.G, b, c, d, a, block[4], 0xe7d3fbc8, 20, 23, s, words);
      a := Step(Fn.G, a, b, c, d, block[9], 0x21e1cde6, 5, 24, s, words);
      d := Step(Fn.G, d, a, b, c, block[14], 0xc33707d6, 9, 25, s, words);
      c := Step(Fn.G, c, d, a, b, block[3], 0xf4d50d87, 14, 26, s, words);
      b := Step(Fn.G, b, c, d, a, block[8], 0x455a14ed, 20, 27, s, words);
      a := Step(Fn.G, a, b, c, d, block[13], 0xa9e3e905, 5, 28, s, words);
      d := Step(Fn.G, d, a, b, c, block[2], 0xfcefa3f8, 9, 29, s, words);
      c := Step(Fn.G, c, d, a, b, block[7], 0x676f02d9, 14, 30, s, words);
      b := Step(Fn.G, b, c, d, a, block[12], 0x8d2a4c8a, 20, 31, s, words);
    }

    method Round3(a0: nat, b0: nat, c0: nat, d0: nat, ghost s: State, ghost words: seq<Word32>)
      returns (a: nat, b: nat, c: nat, d: nat)
      requires Valid() && |words| == 16 && Loaded(words, 16) && InRange(a0, b0, c0, d0)
      requires Operations(32, s, words) == Low(a0, b0, c0, d0)
      ensures InRange(a, b, c, d) && Operations(48, s, words) == Low(a, b, c, d)
    {
      hide Operations, Low, Pow2, Words, InRange;
      a, b, c, d := a0, b0, c0, d0;
      a := Step(Fn.H, a, b, c, d, block[5], 0xfffa3942, 4, 32, s, words);
      d := Step(Fn.H2, d, a, b, c, block[8], 0x8771f681, 11, 33, s, words);
      c := Step(Fn.H, c, d, a, b, block[11], 0x6d9d6122, 16, 34, s, words);
      b := Step(Fn.H2, b, c, d, a, block[14], 0xfde5380c, 23, 35, s, words);
      a := Step(Fn.H, a, b, c, d, block[1], 0xa4beea44, 4, 36, s, words);
      d := Step(Fn.H2, d, a, b, c, block[4], 0x4bdecfa9, 11, 37, s, words);
      c := Step(Fn.H, c, d, a, b, block[7], 0xf6bb4b60, 16, 38, s, words);
      b := Step(Fn.H2, b, c, d, a, block[10], 0xbebfbc70, 23, 39, s, words);
      a := Step(Fn.H, a, b, c, d, block[13], 0x289b7ec6, 4, 40, s, words);
      d := Step(Fn.H2, d, a, b, c, block[0], 0xeaa127fa, 11, 41, s, words);
      c := Step(Fn.H, c, d, a, b, block[3], 0xd4ef3085, 16, 42, s, words);
      b := Step(Fn.H2, b, c, d, a, block[6], 0x04881d05, 23, 43, s, words);
      a := Step(Fn.H, a, b, c, d, block[9], 0xd9d4d039, 4, 44, s, words);
      d := Step(Fn.H2, d, a, b, c, block[12], 0xe6db99e5, 11, 45, s, words);
      c := Step(Fn.H, c, d, a, b, block[15], 0x1fa27cf8, 16, 46, s, words);
      b := Step(Fn.H2, b, c, d, a, block[2], 0xc4ac5665, 23, 47, s, words);
    }

    method Round4(a0: nat, b0: nat, c0: nat, d0: nat, ghost s: State, ghost words: seq<Word32>)
      returns (a: nat, b: nat, c: nat, d: nat)
      requires Valid() && |words| == 16 && Loaded(words, 16) && InRange(a0, b0, c0, d0)
      requires Operations(48, s, words) == Low(a0, b0, c0, d0)
      ensures InRange(a, b, c, d) && Operations(64, s, words) == Low(a, b, c, d)
    {
      hide Operations, Low, Pow2, Words, InRange;
      a, b, c, d := a0, b0, c0, d0;
      a := Step(Fn.I, a, b, c, d, block[0], 0xf4292244, 6, 48, s, words);
      d := Step(Fn.I, d, a, b, c, block[7], 0x432aff97, 10, 49, s, words);
      c := Step(Fn.I, c, d, a, b, block[14], 0xab9423a7, 15, 50, s, words);
      b := Step(Fn.I, b, c, d, a, block[5], 0xfc93a039, 21, 51, s, words);
      a := Step(Fn.I, a, b, c, d, block[12], 0x655b59c3, 6, 52, s, words);
      d := Step(Fn.I, d, a, b, c, block[3], 0x8f0ccc92, 10, 53, s, words);
      c := Step(Fn.I, c, d, a, b, block[10], 0xffeff47d, 15, 54, s, words);
      b := Step(Fn.I, b, c, d, a, block[1], 0x85845dd1, 21, 55, s, words);
      a := Step(Fn.I, a, b, c, d, block[8], 0x6fa87e4f, 6, 56, s, words);
      d := Step(Fn.I, d, a, b, c, block[15], 0xfe2ce6e0, 10, 57, s, words);
      c := Step(Fn.I, c, d, a, b, block[6], 0xa3014314, 15, 58, s, words);
      b := Step(Fn.I, b, c, d, a, block[13], 0x4e0811a1, 21, 59, s, words);
      a := Step(Fn.I, a, b, c, d, block[4], 0xf7537e82, 6, 60, s, words);
      d := Step(Fn.I, d, a, b, c, block[11], 0xbd3af235, 10, 61, s, words);
      c := Step(Fn.I, c, d, a, b, block[2], 0x2ad7d2bb, 15, 62, s, words);
      b := Step(Fn.I, b, c, d, a, block[9], 0xeb86d391, 21, 63, s, words);
    }

    ghost function Registers(): State
      reads this
    {
      Low(a, b, c, d)
    }

    // body: one or more blocks
    method Body(data: seq<Byte>)
      requires Valid() && |data| > 0 && |data| % 64 == 0
      modifies this`a, this`b, this`c, this`d, block
      ensures Valid() && Registers() == Process(old(Registers()), data, |data| / 64)
    {
      hide Operations, Transform, Pow2, Loaded, Words, Low, InRange, Process;
      var ptr: nat, size: nat := 0, |data|;
      ghost var start, k: nat := Registers(), 0;
      var a': nat, b': nat, c': nat, d': nat := a, b, c, d;
      assert Process(start, data, 0) == start by { ProcessNone(start, data); }
      while true
        invariant ptr + size == |data| && size > 0 && size % 64 == 0 && ptr == 64 * k
        invariant Valid() && InRange(a', b', c', d')
        invariant Low(a', b', c', d') == Process(start, data, k)
        decreases size
      {
        a', b', c', d' := Block(data[ptr..ptr + 64], a', b', c', d');
        ProcessNext(start, data, k);
        ptr, k := ptr + 64, k + 1;
        size := size - 64;
        if size == 0 {
          break;
        }
      }
      a, b, c, d := a', b', c', d';
    }

    // One pass through the loop of body: four rounds, and the saved registers added back.
    method Block(data: seq<Byte>, savedA: nat, savedB: nat, savedC: nat, savedD: nat)
      returns (a: nat, b: nat, c: nat, d: nat)
      requires Valid() && |data| == 64 && InRange(savedA, savedB, savedC, savedD)
      modifies block
      ensures InRange(a, b, c, d)
      ensures Low(a, b, c, d) == Transform(Low(savedA, savedB, savedC, savedD), data)
    {
      hide Operations, Transform, Pow2, Words, Low, InRange;
      ghost var s, words := Low(savedA, savedB, savedC, savedD), Words(data);
      NoOperations(s, words);
      a, b, c, d := Round1(data, savedA, savedB, savedC, savedD, s, words);
      a, b, c, d := Round2(a, b, c, d, s, words);
      a, b, c, d := Round3(a, b, c, d, s, words);
      a, b, c, d := Round4(a, b, c, d, s, words);
      TransformEnd(width, s, data, a, b, c, d, savedA, savedB, savedC, savedD);
      a := (a + savedA) % Pow2(width);
      b := (b + savedB) % Pow2(width);
      c := (c + savedC) % Pow2(width);
      d := (d + savedD) % Pow2(width);
      BelowWidth(a, b, c, d);
    }

    /** The state of the context after the bytes of a message: the registers hold the transform of all
        complete blocks, the buffer starts with the rest, and (hi, lo) counts the bytes. */
    ghost predicate Absorbed(message: seq<Byte>)
      reads this, buffer
    {
      && Valid()
      && Registers() == Process(INITIAL, message, Whole(message))
      && buffer[..|Rest(message)|] == Rest(message)
      && lo == LoCount(|message|) && hi == HiCount(width, |message|)
    }

    // MD5_Init on fresh storage; the source leaves buffer and block as they are.
    constructor (width: nat)
      requires width >= 32
      ensures this.width == width && Absorbed([]) && fresh(buffer) && fresh(block)
    {
      this.width := width;
      a := 0x67452301;
      b := 0xefcdab89;
      c := 0x98badcfe;
      d := 0x10325476;
      lo := 0;
      hi := 0;
      buffer := new Byte[64];
      block := new nat[16];
      new;
      hide Pow2, Process;
      InitialFits(width);
      ProcessNone(INITIAL, []);
      ZeroCount(width);
    }

    // Bytes of a message put into the context's buffer.
    method CopyToBuffer(at: nat, data: seq<Byte>)
      requires Valid() && at + |data| <= 64
      modifies buffer
      ensures buffer[..at + |data|] == old(buffer[..at]) + data
    {
      forall k | 0 <= k < |data| {
        buffer[at + k] := data[k];
      }
    }

    // The length counter: 29 bits in lo, the rest in hi.
    method Count(size: nat, ghost n: nat) returns (savedLo: nat)
      requires size < TWO_64 && lo == LoCount(n) && hi == HiCount(width, n)
      modifies this`lo, this`hi
      ensures savedLo == LoCount(n) && hi < Pow2(width)
      ensures lo == LoCount(n + size) && hi == HiCount(width, n + size)
    {
      hide Pow2, LoCount, HiCount;
      savedLo := lo;
      lo := (savedLo + size) % TWO_64 % 0x2000_0000;
      var carry := if lo < savedLo then 1 else 0;
      hi := (hi + carry) % Pow2(width);
      hi := (hi + size / 0x2000_0000) % Pow2(width);
      Counter(n, size, width);
    }

    // All of a message of complete blocks is in the registers.
    ghost predicate AtBoundary(message: seq<Byte>)
      reads this
    {
      Valid() && Rest(message) == [] && Registers() == Process(INITIAL, message, Whole(message))
    }

    method Update(data: seq<Byte>, ghost message: seq<Byte>)
      requires Absorbed(message) && |data| < TWO_64
      modifies this`lo, this`hi, this`a, this`b, this`c, this`d, buffer, block
      ensures Absorbed(message + data)
    {
      hide Pow2, Process, Low, InRange, LoCount, HiCount, Rest, Whole;
      var savedLo := Count(|data|, |message|);
      var used := savedLo % 64;
      LowSix(message);
      var rest := data;
      ghost var done := message;
      if used != 0 {
        var available := 64 - used;
        if |data| < available {
          CopyToBuffer(used, data);
          SameBlocks(message, data);
          return;
        }
        CopyToBuffer(used, data[..available]);
        rest, done := data[available..], message + data[..available];
        assert buffer[..] == Rest(message) + data[..available];
        MoreBlocks(message, data[..available], 1);
        Body(buffer[..]);
        assert message + data == done + rest;
      }
      rest, done := WholeBlocks(rest, done);
      CopyToBuffer(0, rest);
      SameBlocks(done, rest);
    }

    // The complete blocks of the data go straight to the block transform; fewer than 64 bytes remain.
    method WholeBlocks(data: seq<Byte>, ghost message: seq<Byte>) returns (rest: seq<Byte>, ghost done: seq<Byte>)
      requires AtBoundary(message)
      modifies this`a, this`b, this`c, this`d, block
      ensures AtBoundary(done) && |rest| < 64 && done + rest == message + data
    {
      hide Pow2, Process, Low, InRange, Rest, Whole;
      rest, done := data, message;
      if |data| >= 64 {
        var whole := |data| - |data| % 64;
        MoreBlocks(message, data[..whole], whole / 64);
        assert Rest(message) + data[..whole] == data[..whole];
        Body(data[..whole]);
        rest, done := data[whole..], message + data[..whole];
      }
    }

    // Zeros put into the context's buffer.
    method ZeroBuffer(at: nat, n: nat)
      requires Valid() && at + n <= 64
      modifies buffer
      ensures buffer[..at + n] == old(buffer[..at]) + Zeros(n)
    {
      forall k | 0 <= k < n {
        buffer[at + k] := 0;
      }
    }

    // The padding of MD5_Final and the one or two blocks it takes.
    method LastBlocks(ghost message: seq<Byte>)
      requires Absorbed(message)
      modifies this`lo, this`a, this`b, this`c, this`d, buffer, block
      ensures Valid() && Registers() == Process(INITIAL, Padded(message), Whole(Padded(message)))
    {
      hide Pow2, Process, Low, InRange, LoCount, HiCount, Rest, Whole, WordBytes, Padded, Zeros, LengthBytes;
      LowSix(message);
      var used := lo % 64;
      buffer[used] := 0x80;
      used := used + 1;
      ghost var start := Registers();
      var available := 64 - used;
      ghost var first := [];
      assert buffer[..used] == Rest(message) + [0x80];
      if available < 8 {
        ZeroBuffer(used, available);
        first := Rest(message) + [0x80] + Zeros(available);
        assert buffer[..] == first;
        Body(buffer[..]);
        used := 0;
        available := 64;
      }
      ghost var last := buffer[..used] + Zeros(available - 8) + LengthBytes(|message|);
      PutLength(used, |message|);
      Body(buffer[..]);
      PaddedBlocks(message, first, last);
    }

    // The zeros and the length that end the last block.
    method PutLength(used: nat, ghost length: nat)
      requires Valid() && used <= 56 && lo == LoCount(length) && hi == HiCount(width, length)
      modifies this`lo, buffer
      ensures Valid() && buffer[..] == old(buffer[..used]) + Zeros(56 - used) + LengthBytes(length)
    {
      hide Pow2, InRange, LoCount, HiCount, WordBytes, Zeros, LengthBytes;
      ZeroBuffer(used, 56 - used);
      ghost var front := buffer[..56];
      lo := lo * 8 % Pow2(width);
      Out(buffer, 56, lo);
      assert buffer[..56] == front;
      Out(buffer, 60, hi);
      assert buffer[..60] == front + WordBytes(lo % TWO_32);
      LengthWords(length, width);
      assert buffer[..] == front + (WordBytes(lo % TWO_32) + WordBytes(hi % TWO_32));
    }

    method Final(result: array<Byte>, ghost message: seq<Byte>)
      requires Absorbed(message) && result.Length == 16
      requires result as object != buffer && result as object != block
      modifies this`lo, this`hi, this`a, this`b, this`c, this`d, buffer, block, result
      ensures result[..] == Digest(message)
      ensures lo == hi == a == b == c == d == 0
      ensures (forall k | 0 <= k < 64 :: buffer[k] == 0) && (forall k | 0 <= k < 16 :: block[k] == 0)
    {
      hide Pow2, Process, InRange, LoCount, HiCount, Rest, WordBytes, Padded;
      LastBlocks(message);
      ghost var r := Registers();
      Out(result, 0, a);
      assert result[..4] == WordBytes(r.a);
      Out(result, 4, b);
      assert result[..8] == WordBytes(r.a) + WordBytes(r.b);
      Out(result, 8, c);
      assert result[..12] == WordBytes(r.a) + WordBytes(r.b) + WordBytes(r.c);
      Out(result, 12, d);
      assert result[..] == Output(r);
      lo, hi, a, b, c, d := 0, 0, 0, 0, 0, 0;
      forall k | 0 <= k < 64 { buffer[k] := 0; }
      forall k | 0 <= k < 16 { block[k] := 0; }
    }

    lemma BelowWidth(a: nat, b: nat, c: nat, d: nat)
      requires a < Pow2(width) && b < Pow2(width) && c < Pow2(width) && d < Pow2(width)
      ensures InRange(a, b, c, d)
    {
    }
  }

  // OUT: the four low bytes, low-order first
  method Out(dst: array<Byte>, at: nat, src: nat)
    requires at + 4 <= dst.Length
    modifies dst
    ensures dst[at..at + 4] == WordBytes(src % TWO_32)
    ensures dst[..at] == old(dst[..at]) && dst[at + 4..] == old(dst[at + 4..])
  {
    dst[at] := src % 0x100;
    dst[at + 1] := src / 0x100 % 0x100;
    dst[at + 2] := src / 0x1_0000 % 0x100;
    dst[at + 3] := src / 0x100_0000 % 0x100;
    LowBytes(src);
  }

  lemma LowBytes(x: nat)
    ensures WordBytes(x % TWO_32) ==
            [x % 0x100, x / 0x100 % 0x100, x / 0x1_0000 % 0x100, x / 0x100_0000 % 0x100]
  {
    var h, l := x / 0x1_0000_0000, x % 0x1_0000_0000;
    assert x == h * 0x1_0000_0000 + l;
    HighBytes(h, l, 1);
    HighBytes(h, l, 0x100);
    HighBytes(h, l, 0x1_0000);
    HighBytes(h, l, 0x100_0000);
  }

  lemma HighBytes(h: nat, l: nat, unit: nat)
    requires unit in {1, 0x100, 0x1_0000, 0x100_0000}
    ensures (h * 0x1_0000_0000 + l) / unit % 0x100 == l / unit % 0x100
  {
    var k := if unit == 1 then 0x100_0000 else if unit == 0x100 then 0x1_0000
             else if unit == 0x1_0000 then 0x100 else 1;
    QuotientOfSum(h, l, unit, k * 0x100);
    DropHigh(h, l / unit, k);
  }

  lemma QuotientOfSum(h: nat, l: nat, unit: nat, c: nat)
    requires unit >= 1 && unit * c == 0x1_0000_0000
    ensures (h * 0x1_0000_0000 + l) / unit == h * c + l / unit
  {
    Regroup(unit, h, c, l / unit);
    Remainder(h * 0x1_0000_0000 + l, unit, h * c + l / unit, l % unit);
  }

  lemma Regroup(unit: nat, h: nat, c: nat, q: nat)
    ensures unit * (h * c + q) == h * (unit * c) + unit * q
  {
  }

  lemma DropHigh(h: nat, q: nat, k: nat)
    ensures (h * (k * 0x100) + q) % 0x100 == q % 0x100
  {
    var hk := h * k;
    assert h * (k * 0x100) == 0x100 * hk;
    Remainder(0x100 * hk + q, 0x100, hk + q / 0x100, q % 0x100);
  }

  // The two counter words are the words of the length in bits.
  lemma LengthWords(n: nat, w: nat)
    requires w >= 32
    ensures LengthBytes(n) ==
            WordBytes(LoCount(n) * 8 % Pow2(w) % TWO_32) + WordBytes(HiCount(w, n) % TWO_32)
  {
    hide Pow2, WordBytes;
    ModWidth(w, LoCount(n) * 8);
    ModWidth(w, n / 0x2000_0000);
    var h, l := n / 0x2000_0000, n % 0x2000_0000;
    assert 8 * n == TWO_32 * h + 8 * l;
    Remainder(8 * n, TWO_32, h, 8 * l);
    Remainder(LoCount(n) * 8, TWO_32, 0, 8 * l);
  }

  // The blocks that MD5_Final feeds to body are the rest of the message and the RFC's padding.
  lemma PaddedBlocks(message: seq<Byte>, first: seq<Byte>, last: seq<Byte>)
    requires var u := |Rest(message)|;
             if u >= 56 then
               && first == Rest(message) + [0x80] + Zeros(63 - u)
               && last == [] + Zeros(56) + LengthBytes(|message|)
             else
               && first == []
               && last == Rest(message) + [0x80] + Zeros(55 - u) + LengthBytes(|message|)
    ensures |last| == 64 && (|first| == 64 || |first| == 0)
    ensures var s := Process(INITIAL, message, Whole(message));
            Process(INITIAL, Padded(message), Whole(Padded(message))) ==
            Process(if first == [] then s else Process(s, first, 1), last, 1)
  {
    hide Process, LengthBytes, Rest, Whole, PadLength, Zeros, Padding, Padded;
    PaddedAfter(message);
    if |Rest(message)| >= 56 {
      LongTail(message);
      TwoBlocks(message, Padding(message), first, last);
    } else {
      ShortTail(message);
      MoreBlocks(message, Padding(message), 1);
    }
  }

  // What follows the message.
  function Padding(message: seq<Byte>): seq<Byte> {
    [0x80] + Zeros(PadLength(|message|)) + LengthBytes(|message|)
  }

  lemma LongTail(message: seq<Byte>)
    requires |Rest(message)| >= 56
    ensures Rest(message) + Padding(message) ==
            (Rest(message) + [0x80] + Zeros(63 - |Rest(message)|)) + ([] + Zeros(56) + LengthBytes(|message|))
  {
    hide LengthBytes, Rest, PadLength, Zeros;
    PadRest(message);
    PadSplit(Rest(message), Zeros(63 - |Rest(message)|), Zeros(56), LengthBytes(|message|));
  }

  lemma ShortTail(message: seq<Byte>)
    requires |Rest(message)| < 56
    ensures Rest(message) + Padding(message) ==
            Rest(message) + [0x80] + Zeros(55 - |Rest(message)|) + LengthBytes(|message|)
  {
    hide LengthBytes, Rest, PadLength, Zeros;
    PadRest(message);
    PadOnce(Rest(message), Zeros(55 - |Rest(message)|), LengthBytes(|message|));
  }

  lemma TwoBlocks(message: seq<Byte>, part: seq<Byte>, first: seq<Byte>, last: seq<Byte>)
    requires Rest(message) + part == first + last && |first| == |last| == 64
    ensures Process(INITIAL, message + part, Whole(message + part)) ==
            Process(Process(Process(INITIAL, message, Whole(message)), first, 1), last, 1)
  {
    hide Process, Rest, Whole;
    MoreBlocks(message, part, 2);
    ProcessMore(Process(INITIAL, message, Whole(message)), first, 1, last, 1);
  }

  lemma PadOnce(rest: seq<Byte>, z: seq<Byte>, length: seq<Byte>)
    ensures rest + ([0x80] + z + length) == rest + [0x80] + z + length
  {
  }

  lemma PaddedAfter(message: seq<Byte>)
    ensures Padded(message) == message + Padding(message)
  {
    hide PadLength, LengthBytes, Zeros;
  }

  lemma PadSplit(rest: seq<Byte>, z: seq<Byte>, z': seq<Byte>, length: seq<Byte>)
    ensures rest + ([0x80] + (z + z') + length) == (rest + [0x80] + z) + ([] + z' + length)
  {
  }

  lemma PadRest(message: seq<Byte>)
    ensures var u := |Rest(message)|;
            if u >= 56 then
              PadLength(|message|) == 63 - u + 56 && Zeros(PadLength(|message|)) == Zeros(63 - u) + Zeros(56)
            else PadLength(|message|) == 55 - u
  {
  }

  // Extending a message to k further complete blocks processes its rest and the extension.
  lemma MoreBlocks(message: seq<Byte>, part: seq<Byte>, k: nat)
    requires |Rest(message)| + |part| == 64 * k
    ensures Rest(message + part) == []
    ensures Process(INITIAL, message + part, Whole(message + part)) ==
            Process(Process(INITIAL, message, Whole(message)), Rest(message) + part, k)
  {
    hide Process;
    var n := |message| / 64;
    var front, tail := message[..64 * n], message[64 * n..];
    assert |message + part| == 64 * (n + k);
    assert message + part == front + (tail + part);
    ProcessMore(INITIAL, front, n, tail + part, k);
    ProcessPrefix(INITIAL, front, message, n);
  }

  // Extending it within its last block completes none.
  lemma SameBlocks(message: seq<Byte>, part: seq<Byte>)
    requires |Rest(message)| + |part| < 64
    ensures Rest(message + part) == Rest(message) + part
    ensures Process(INITIAL, message + part, Whole(message + part)) == Process(INITIAL, message, Whole(message))
  {
    hide Process, Rest;
    RestGrows(message, part);
    ProcessPrefix(INITIAL, message, message + part, |message| / 64);
  }

  lemma RestGrows(message: seq<Byte>, part: seq<Byte>)
    requires |Rest(message)| + |part| < 64
    ensures Whole(message + part) == Whole(message) && Rest(message + part) == Rest(message) + part
  {
    Remainder(|message + part|, 64, |message| / 64, |message| % 64 + |part|);
  }

  lemma ZeroCount(w: nat)
    ensures HiCount(w, 0) == 0 == LoCount(0) && Pow2(w) > 0
  {
    hide Pow2;
    Remainder(0, Pow2(w), 0, 0);
  }

  lemma InitialFits(w: nat)
    requires w >= 32
    ensures TWO_32 <= Pow2(w)
  {
    Pow32();
    PowMonotone(32, w);
  }

  lemma LowSix(message: seq<Byte>)
    ensures LoCount(|message|) % 64 == |Rest(message)|
  {
  }

  /** The split counter: the carry test and the high part of the size together add any 64-bit size. */
  lemma Counter(n: nat, size: nat, w: nat)
    requires size < TWO_64
    ensures var lo := (LoCount(n) + size) % TWO_64 % 0x2000_0000;
            var carry := if lo < LoCount(n) then 1 else 0;
            && lo == LoCount(n + size)
            && ((HiCount(w, n) + carry) % Pow2(w) + size / 0x2000_0000) % Pow2(w) == HiCount(w, n + size)
  {
    hide Pow2;
    CarryTest(n, size);
    var carry := if n % 0x2000_0000 + size % 0x2000_0000 >= 0x2000_0000 then 1 else 0;
    ModThree(n / 0x2000_0000, carry, size / 0x2000_0000, Pow2(w));
  }

  lemma CarryTest(n: nat, size: nat)
    requires size < TWO_64
    ensures var lo := (n % 0x2000_0000 + size) % TWO_64 % 0x2000_0000;
            var carry := n % 0x2000_0000 + size % 0x2000_0000 >= 0x2000_0000;
            && lo == (n + size) % 0x2000_0000 && (lo < n % 0x2000_0000 <==> carry)
            && (n + size) / 0x2000_0000 == n / 0x2000_0000 + size / 0x2000_0000 + if carry then 1 else 0
  {
    var m := 0x2000_0000;
    var r := n % m + size % m;
    ModFactor(n % m + size, m, 0x8_0000_0000);
    assert n + size == m * (n / m + size / m) + r;
    if r < m {
      Remainder(n + size, m, n / m + size / m, r);
      Remainder(n % m + size, m, size / m, r);
    } else {
      Remainder(n + size, m, n / m + size / m + 1, r - m);
      Remainder(n % m + size, m, size / m + 1, r - m);
    }
  }

  lemma ModThree(x: nat, y: nat, z: nat, p: nat)
    requires p >= 1
    ensures ((x % p + y) % p + z) % p == (x + z + y) % p
  {
    var a := x % p + y;
    var b := a % p + z;
    ThreeCarries(x, y, z, p, x / p, x % p, a / p, a % p, b / p, b % p);
  }

  lemma ThreeCarries(x: nat, y: nat, z: nat, p: nat, k1: nat, r1: nat, k2: nat, r2: nat, k3: nat, r3: nat)
    requires x == p * k1 + r1 && r1 + y == p * k2 + r2 && r2 + z == p * k3 + r3 && r3 < p
    ensures (x + z + y) % p == r3
  {
    assert x + z + y == p * (k1 + k2 + k3) + r3;
    Remainder(x + z + y, p, k1 + k2 + k3, r3);
  }

  lemma ProcessNone(s: State, data: seq<Byte>)
    ensures Process(s, data, 0) == s
  {
  }

  lemma ProcessNext(s: State, data: seq<Byte>, k: nat)
    requires 64 * (k + 1) <= |data|
    ensures Process(s, data, k + 1) == Transform(Process(s, data, k), data[64 * k..64 * k + 64])
  {
  }

  lemma NoOperations(s: State, words: seq<Word32>)
    requires |words| == 16
    ensures Operations(0, s, words) == s
  {
  }

  // Adding the saved registers ends the transformation of a block.
  lemma TransformEnd(w: nat, s: State, p: seq<Byte>, a: nat, b: nat, c: nat, d: nat,
                     savedA: nat, savedB: nat, savedC: nat, savedD: nat)
    requires w >= 32 && |p| == 64 && s == Low(savedA, savedB, savedC, savedD)
    requires Operations(64, s, Words(p)) == Low(a, b, c, d)
    ensures Low((a + savedA) % Pow2(w), (b + savedB) % Pow2(w), (c + savedC) % Pow2(w), (d + savedD) % Pow2(w))
         == Transform(s, p)
  {
    hide Operations, Words, Pow2;
    assert (a + savedA) % Pow2(w) % TWO_32 == Transform(s, p).a by { AddLow(w, a, savedA); }
    assert (b + savedB) % Pow2(w) % TWO_32 == Transform(s, p).b by { AddLow(w, b, savedB); }
    assert (c + savedC) % Pow2(w) % TWO_32 == Transform(s, p).c by { AddLow(w, c, savedC); }
    assert (d + savedD) % Pow2(w) % TWO_32 == Transform(s, p).d by { AddLow(w, d, savedD); }
  }

  lemma AddLow(w: nat, x: nat, y: nat)
    requires w >= 32
    ensures (x + y) % Pow2(w) % TWO_32 == (y % TWO_32 + x % TWO_32) % TWO_32
  {
    hide Pow2;
    ModWidth(w, x + y);
    SumMod2(x, y);
  }

  function Concatenation(chunks: seq<seq<Byte>>): seq<Byte> {
    if chunks == [] then [] else Concatenation(chunks[..|chunks| - 1]) + chunks[|chunks| - 1]
  }

  lemma NoChunks()
    ensures Concatenation([]) == []
  {
  }

  lemma OneMoreChunk(chunks: seq<seq<Byte>>, i: nat)
    requires i < |chunks|
    ensures Concatenation(chunks[..i + 1]) == Concatenation(chunks[..i]) + chunks[i]
  {
    assert chunks[..i + 1][..i] == chunks[..i];
  }

  /** MD5_Init, any number of MD5_Update calls and MD5_Final: however a message is cut into chunks,
      empty ones included, and whatever the width of MD5_u32plus, the result is its RFC 1321 digest. */
  method DigestOfChunks(width: nat, chunks: seq<seq<Byte>>) returns (digest: seq<Byte>)
    requires width >= 32 && forall i | 0 <= i < |chunks| :: |chunks[i]| < TWO_64
    ensures digest == Digest(Concatenation(chunks))
  {
    hide Digest, Context.Absorbed, Context.Valid, Concatenation;
    NoChunks();
    var ctx := new Context(width);
    for i := 0 to |chunks|
      invariant fresh(ctx) && fresh(ctx.buffer) && fresh(ctx.block)
      invariant ctx.Absorbed(Concatenation(chunks[..i]))
    {
      OneMoreChunk(chunks, i);
      ctx.Update(chunks[i], Concatenation(chunks[..i]));
    }
    assert chunks[..|chunks|] == chunks;
    var result := new Byte[16];
    ctx.Final(result, Concatenation(chunks));
    digest := result[..];
  }
}
