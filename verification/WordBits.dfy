/** The operations of RFC 1321 by 32-bit vectors, in a form that is quick to evaluate. */
module WordBits {
  import opened Bits
  import opened Rfc1321

  // ---- Words as bit-vectors ----

  datatype Vector = Vector(v: bv32)

  function Both(x: Vector, y: Vector): Vector { Vector(x.v & y.v) }

  function Either(x: Vector, y: Vector): Vector { Vector(x.v | y.v) }

  function Exclusive(x: bv32, y: bv32): bv32 { x ^ y }

  function Differ(x: Vector, y: Vector): Vector { Vector(Exclusive(x.v, y.v)) }

  function Flip(x: Vector): Vector { Vector(!x.v) }

  function Half(x: Vector): Vector { Vector(x.v >> 1) }

  function Quarter(x: Vector): Vector { Vector(x.v >> 2) }

  function NextByte(x: Vector): Vector { Vector(x.v >> 8) }

  function BitValue(x: Vector): (r: nat)
    ensures r <= 1
  {
    if x.v & 1 == 1 then 1 else 0
  }

  // The number that a vector stands for, in a form that is quick to evaluate.
  function Value(x: Vector): Rfc1321.Word32 {
    hide Byte0, Byte1, Byte2, Byte3;
    Byte0(x.v) + Byte1(x.v) + Byte2(x.v) + Byte3(x.v)
  }

  function Byte0(v: bv32): (r: nat)
    ensures r <= 0xff
  {
    (if v & 0x1 != 0 then 0x1 else 0) + (if v & 0x2 != 0 then 0x2 else 0) +
    (if v & 0x4 != 0 then 0x4 else 0) + (if v & 0x8 != 0 then 0x8 else 0) +
    (if v & 0x10 != 0 then 0x10 else 0) + (if v & 0x20 != 0 then 0x20 else 0) +
    (if v & 0x40 != 0 then 0x40 else 0) + (if v & 0x80 != 0 then 0x80 else 0)
  }

  function Byte1(v: bv32): (r: nat)
    ensures r <= 0xff00
  {
    (if v & 0x100 != 0 then 0x100 else 0) + (if v & 0x200 != 0 then 0x200 else 0) +
    (if v & 0x400 != 0 then 0x400 else 0) + (if v & 0x800 != 0 then 0x800 else 0) +
    (if v & 0x1000 != 0 then 0x1000 else 0) + (if v & 0x2000 != 0 then 0x2000 else 0) +
    (if v & 0x4000 != 0 then 0x4000 else 0) + (if v & 0x8000 != 0 then 0x8000 else 0)
  }

  function Byte2(v: bv32): (r: nat)
    ensures r <= 0xff0000
  {
    (if v & 0x10000 != 0 then 0x10000 else 0) + (if v & 0x20000 != 0 then 0x20000 else 0) +
    (if v & 0x40000 != 0 then 0x40000 else 0) + (if v & 0x80000 != 0 then 0x80000 else 0) +
    (if v & 0x100000 != 0 then 0x100000 else 0) + (if v & 0x200000 != 0 then 0x200000 else 0) +
    (if v & 0x400000 != 0 then 0x400000 else 0) + (if v & 0x800000 != 0 then 0x800000 else 0)
  }

  function Byte3(v: bv32): (r: nat)
    ensures r <= 0xff000000
  {
    (if v & 0x1000000 != 0 then 0x1000000 else 0) + (if v & 0x2000000 != 0 then 0x2000000 else 0) +
    (if v & 0x4000000 != 0 then 0x4000000 else 0) + (if v & 0x8000000 != 0 then 0x8000000 else 0) +
    (if v & 0x10000000 != 0 then 0x10000000 else 0) + (if v & 0x20000000 != 0 then 0x20000000 else 0) +
    (if v & 0x40000000 != 0 then 0x40000000 else 0) + (if v & 0x80000000 != 0 then 0x80000000 else 0)
  }

  // The same, bit by bit.
  function TwoBits(x: Vector): (r: nat)
    ensures r < 4
  {
    BitValue(x) + 2 * BitValue(Half(x))
  }

  function ByteValue(x: Vector): (r: nat)
    ensures r < 0x100
  {
    hide TwoBits, Quarter;
    TwoBits(x) + 4 * TwoBits(Quarter(x)) + 16 * TwoBits(Quarter(Quarter(x))) +
    64 * TwoBits(Quarter(Quarter(Quarter(x))))
  }

  // And for the k lowest bits, one after the other.
  function Low(x: Vector, k: nat): nat
    decreases k
  {
    if k == 0 then 0 else BitValue(x) + 2 * Low(Half(x), k - 1)
  }

  lemma TwiceHalf(x: Vector)
    ensures Half(Half(x)) == Quarter(x)
  {
  }

  lemma FourQuarters(x: Vector)
    ensures Quarter(Quarter(Quarter(Quarter(x)))) == NextByte(x)
  {
  }

  lemma LowTwo(x: Vector, k: nat)
    requires k >= 2
    ensures Low(x, k) == TwoBits(x) + 4 * Low(Quarter(x), k - 2)
  {
    hide BitValue, Half, Quarter;
    TwiceHalf(x);
    assert Low(Half(x), k - 1) == BitValue(Half(x)) + 2 * Low(Half(Half(x)), k - 2);
  }

  lemma LowByte(x: Vector, k: nat)
    requires k >= 8
    ensures Low(x, k) == ByteValue(x) + 0x100 * Low(NextByte(x), k - 8)
  {
    hide TwoBits, Low, Quarter, NextByte;
    FourQuarters(x);
    LowTwo(x, k);
    LowTwo(Quarter(x), k - 2);
    LowTwo(Quarter(Quarter(x)), k - 4);
    LowTwo(Quarter(Quarter(Quarter(x))), k - 6);
  }

  lemma Tests0(v: bv32)
    ensures v & 1 == 1 <==> v & 0x1 != 0
    ensures (v >> 1) & 1 == 1 <==> v & 0x2 != 0
    ensures (v >> 2) & 1 == 1 <==> v & 0x4 != 0
    ensures (v >> 2 >> 1) & 1 == 1 <==> v & 0x8 != 0
    ensures (v >> 2 >> 2) & 1 == 1 <==> v & 0x10 != 0
    ensures (v >> 2 >> 2 >> 1) & 1 == 1 <==> v & 0x20 != 0
    ensures (v >> 2 >> 2 >> 2) & 1 == 1 <==> v & 0x40 != 0
    ensures (v >> 2 >> 2 >> 2 >> 1) & 1 == 1 <==> v & 0x80 != 0
  {
  }

  lemma Byte0Value(v: bv32)
    ensures Byte0(v) == 0x1 * ByteValue(Vector(v))
  {
    Tests0(v);
  }

  lemma Tests1(v: bv32)
    ensures (v >> 8) & 1 == 1 <==> v & 0x100 != 0
    ensures (v >> 8 >> 1) & 1 == 1 <==> v & 0x200 != 0
    ensures (v >> 8 >> 2) & 1 == 1 <==> v & 0x400 != 0
    ensures (v >> 8 >> 2 >> 1) & 1 == 1 <==> v & 0x800 != 0
    ensures (v >> 8 >> 2 >> 2) & 1 == 1 <==> v & 0x1000 != 0
    ensures (v >> 8 >> 2 >> 2 >> 1) & 1 == 1 <==> v & 0x2000 != 0
    ensures (v >> 8 >> 2 >> 2 >> 2) & 1 == 1 <==> v & 0x4000 != 0
    ensures (v >> 8 >> 2 >> 2 >> 2 >> 1) & 1 == 1 <==> v & 0x8000 != 0
  {
  }

  lemma Byte1Value(v: bv32)
    ensures Byte1(v) == 0x100 * ByteValue(NextByte(Vector(v)))
  {
    Tests1(v);
  }

  lemma Tests2(v: bv32)
    ensures (v >> 8 >> 8) & 1 == 1 <==> v & 0x10000 != 0
    ensures (v >> 8 >> 8 >> 1) & 1 == 1 <==> v & 0x20000 != 0
    ensures (v >> 8 >> 8 >> 2) & 1 == 1 <==> v & 0x40000 != 0
    ensures (v >> 8 >> 8 >> 2 >> 1) & 1 == 1 <==> v & 0x80000 != 0
    ensures (v >> 8 >> 8 >> 2 >> 2) & 1 == 1 <==> v & 0x100000 != 0
    ensures (v >> 8 >> 8 >> 2 >> 2 >> 1) & 1 == 1 <==> v & 0x200000 != 0
    ensures (v >> 8 >> 8 >> 2 >> 2 >> 2) & 1 == 1 <==> v & 0x400000 != 0
    ensures (v >> 8 >> 8 >> 2 >> 2 >> 2 >> 1) & 1 == 1 <==> v & 0x800000 != 0
  {
  }

  lemma Byte2Value(v: bv32)
    ensures Byte2(v) == 0x10000 * ByteValue(NextByte(NextByte(Vector(v))))
  {
    Tests2(v);
  }

  lemma Tests3(v: bv32)
    ensures (v >> 8 >> 8 >> 8) & 1 == 1 <==> v & 0x1000000 != 0
    ensures (v >> 8 >> 8 >> 8 >> 1) & 1 == 1 <==> v & 0x2000000 != 0
    ensures (v >> 8 >> 8 >> 8 >> 2) & 1 == 1 <==> v & 0x4000000 != 0
    ensures (v >> 8 >> 8 >> 8 >> 2 >> 1) & 1 == 1 <==> v & 0x8000000 != 0
    ensures (v >> 8 >> 8 >> 8 >> 2 >> 2) & 1 == 1 <==> v & 0x10000000 != 0
    ensures (v >> 8 >> 8 >> 8 >> 2 >> 2 >> 1) & 1 == 1 <==> v & 0x20000000 != 0
    ensures (v >> 8 >> 8 >> 8 >> 2 >> 2 >> 2) & 1 == 1 <==> v & 0x40000000 != 0
    ensures (v >> 8 >> 8 >> 8 >> 2 >> 2 >> 2 >> 1) & 1 == 1 <==> v & 0x80000000 != 0
  {
  }

  lemma Byte3Value(v: bv32)
    ensures Byte3(v) == 0x1000000 * ByteValue(NextByte(NextByte(NextByte(Vector(v)))))
  {
    Tests3(v);
  }

  lemma ValueIsLow(x: Vector)
    ensures Value(x) == Low(x, 32)
  {
    hide Byte0, Byte1, Byte2, Byte3, ByteValue, Low, NextByte;
    Byte0Value(x.v);
    Byte1Value(x.v);
    Byte2Value(x.v);
    Byte3Value(x.v);
    LowByte(x, 32);
    LowByte(NextByte(x), 24);
    LowByte(NextByte(NextByte(x)), 16);
    LowByte(NextByte(NextByte(NextByte(x))), 8);
    NoBits(NextByte(NextByte(NextByte(NextByte(x)))));
  }

  lemma NoBits(x: Vector)
    ensures Low(x, 0) == 0
  {
  }

  // ---- The operators ----

  lemma HalfOfBoth(x: Vector, y: Vector)
    ensures Half(Both(x, y)) == Both(Half(x), Half(y))
  {
  }

  lemma HalfOfEither(x: Vector, y: Vector)
    ensures Half(Either(x, y)) == Either(Half(x), Half(y))
  {
  }

  lemma HalfOfDiffer(x: Vector, y: Vector)
    ensures Half(Differ(x, y)) == Differ(Half(x), Half(y))
  {
  }

  lemma LowestOfBoth(x: Vector, y: Vector)
    ensures BitValue(Both(x, y)) == if BitValue(x) == 1 && BitValue(y) == 1 then 1 else 0
  {
  }

  lemma LowestOfEither(x: Vector, y: Vector)
    ensures BitValue(Either(x, y)) == if BitValue(x) == 1 || BitValue(y) == 1 then 1 else 0
  {
  }

  lemma LowestOfDiffer(x: Vector, y: Vector)
    ensures BitValue(Differ(x, y)) == if BitValue(x) != BitValue(y) then 1 else 0
  {
  }

  lemma LowestBit(x: Vector, y: Vector)
    ensures BitValue(Both(x, y)) == if BitValue(x) == 1 && BitValue(y) == 1 then 1 else 0
    ensures BitValue(Either(x, y)) == if BitValue(x) == 1 || BitValue(y) == 1 then 1 else 0
    ensures BitValue(Differ(x, y)) == if BitValue(x) != BitValue(y) then 1 else 0
  {
    hide Both, Either, Differ, BitValue;
    LowestOfBoth(x, y);
    LowestOfEither(x, y);
    LowestOfDiffer(x, y);
  }

  lemma LowParts(x: Vector, k: nat)
    requires k > 0
    ensures Low(x, k) / 2 == Low(Half(x), k - 1) && Low(x, k) % 2 == BitValue(x)
  {
    hide BitValue, Half;
  }

  lemma {:induction false} LowOf(x: Vector, y: Vector, k: nat)
    ensures Low(Both(x, y), k) == And(Low(x, k), Low(y, k))
    ensures Low(Either(x, y), k) == Or(Low(x, k), Low(y, k))
    ensures Low(Differ(x, y), k) == Xor(Low(x, k), Low(y, k))
    decreases k
  {
    hide And, Or, Xor, BitValue, Low, Half, Both, Either, Differ;
    if k > 0 {
      LowOf(Half(x), Half(y), k - 1);
      HalfOfBoth(x, y);
      HalfOfEither(x, y);
      HalfOfDiffer(x, y);
      LowestBit(x, y);
      LowParts(x, k);
      LowParts(y, k);
      LowParts(Both(x, y), k);
      LowParts(Either(x, y), k);
      LowParts(Differ(x, y), k);
      Parts(Low(x, k), Low(y, k));
      SameParts(Low(Both(x, y), k), And(Low(x, k), Low(y, k)));
      SameParts(Low(Either(x, y), k), Or(Low(x, k), Low(y, k)));
      SameParts(Low(Differ(x, y), k), Xor(Low(x, k), Low(y, k)));
    } else {
      NoBits(x);
      NoBits(y);
      NoBits(Both(x, y));
      NoBits(Either(x, y));
      NoBits(Differ(x, y));
      OfZero();
    }
  }

  lemma OfZero()
    ensures And(0, 0) == 0 && Or(0, 0) == 0 && Xor(0, 0) == 0
  {
  }

  lemma {:induction false} XorOnes(x: nat, k: nat)
    requires x < Pow2(k)
    ensures Xor(x, Pow2(k) - 1) == Pow2(k) - 1 - x
  {
    if k > 0 {
      hide Xor;
      XorOnes(x / 2, k - 1);
      XorBit(x, Pow2(k) - 1);
    } else {
      OfZero();
    }
  }

  lemma OperatorValues(x: Vector, y: Vector)
    ensures Value(Both(x, y)) == And(Value(x), Value(y)) && Value(Either(x, y)) == Or(Value(x), Value(y))
    ensures Value(Differ(x, y)) == Xor(Value(x), Value(y))
  {
    hide And, Or, Xor, Low, Value, Both, Either, Differ;
    LowOf(x, y, 32);
    ValueIsLow(x);
    ValueIsLow(y);
    ValueIsLow(Both(x, y));
    ValueIsLow(Either(x, y));
    ValueIsLow(Differ(x, y));
  }

  lemma FlipValue(x: Vector)
    ensures Value(Flip(x)) == Complement(Value(x))
  {
    hide Xor, Value, Pow2, Flip, Differ;
    Width();
    AllOnes();
    OperatorValues(x, Vector(0xFFFF_FFFF));
    XorOnes(Value(x), 32);
    FlipIsDiffer(x);
  }

  lemma FlipIsDiffer(x: Vector)
    ensures Differ(x, Vector(0xFFFF_FFFF)) == Flip(x)
  {
  }

  lemma AllOnes()
    ensures Value(Vector(0xFFFF_FFFF)) == 0xFFFF_FFFF
  {
  }

  lemma Width()
    ensures Pow2(32) == TWO_32
  {
    hide Pow2;
    BytePowers();
    PowAdd(16, 16);
  }

  function AuxiliaryBits(round: nat, x: Vector, y: Vector, z: Vector): Vector {
    if round == 0 then Either(Both(x, y), Both(Flip(x), z))
    else if round == 1 then Either(Both(x, z), Both(y, Flip(z)))
    else if round == 2 then Differ(Differ(x, y), z)
    else Differ(y, Either(x, Flip(z)))
  }

  lemma AuxiliaryValue(round: nat, x: Vector, y: Vector, z: Vector)
    ensures Auxiliary(round, Value(x), Value(y), Value(z)) == Value(AuxiliaryBits(round, x, y, z))
  {
    hide And, Or, Xor, Value, Both, Either, Differ, Flip;
    FlipValue(x);
    FlipValue(z);
    OperatorValues(x, y);
    OperatorValues(x, z);
    OperatorValues(Flip(x), z);
    OperatorValues(y, Flip(z));
    OperatorValues(x, Flip(z));
    OperatorValues(Both(x, y), Both(Flip(x), z));
    OperatorValues(Both(x, z), Both(y, Flip(z)));
    OperatorValues(Differ(x, y), z);
    OperatorValues(y, Either(x, Flip(z)));
  }

  // ---- One operation, in a form that is quick to evaluate ----

  function FBits(x: bv32, y: bv32, z: bv32): bv32 { (x & y) | (!x & z) }

  function GBits(x: bv32, y: bv32, z: bv32): bv32 { (x & z) | (y & !z) }

  function HBits(x: bv32, y: bv32, z: bv32): bv32 { Exclusive(Exclusive(x, y), z) }

  function IBits(x: bv32, y: bv32, z: bv32): bv32 { Exclusive(y, x | !z) }

  function Chosen(round: nat, x: bv32, y: bv32, z: bv32): bv32 {
    if round == 0 then FBits(x, y, z)
    else if round == 1 then GBits(x, y, z)
    else if round == 2 then HBits(x, y, z)
    else IBits(x, y, z)
  }

  lemma FirstBits(x: bv32, y: bv32, z: bv32)
    ensures Either(Both(Vector(x), Vector(y)), Both(Flip(Vector(x)), Vector(z))) == Vector(FBits(x, y, z))
  {
  }

  lemma SecondBits(x: bv32, y: bv32, z: bv32)
    ensures Either(Both(Vector(x), Vector(z)), Both(Vector(y), Flip(Vector(z)))) == Vector(GBits(x, y, z))
  {
  }

  lemma ThirdBits(x: bv32, y: bv32, z: bv32)
    ensures Differ(Differ(Vector(x), Vector(y)), Vector(z)) == Vector(HBits(x, y, z))
  {
    hide Exclusive;
  }

  lemma FourthBits(x: bv32, y: bv32, z: bv32)
    ensures Differ(Vector(y), Either(Vector(x), Flip(Vector(z)))) == Vector(IBits(x, y, z))
  {
    hide Exclusive;
  }

  lemma ChosenBits(round: nat, x: bv32, y: bv32, z: bv32)
    ensures AuxiliaryBits(round, Vector(x), Vector(y), Vector(z)) == Vector(Chosen(round, x, y, z))
  {
    hide Both, Either, Differ, Flip, FBits, GBits, HBits, IBits;
    FirstBits(x, y, z);
    SecondBits(x, y, z);
    ThirdBits(x, y, z);
    FourthBits(x, y, z);
  }

  function Number(v: bv32): Rfc1321.Word32 { Value(Vector(v)) }

  lemma ChosenNumber(round: nat, x: bv32, y: bv32, z: bv32)
    ensures Number(Chosen(round, x, y, z)) == Auxiliary(round, Number(x), Number(y), Number(z))
  {
    hide Value, Auxiliary, AuxiliaryBits, Chosen;
    ChosenBits(round, x, y, z);
    AuxiliaryValue(round, Vector(x), Vector(y), Vector(z));
  }

  function At(a: bv32, b: bv32, c: bv32, d: bv32): State { State(Number(a), Number(b), Number(c), Number(d)) }

  // The sum u of four words, and b added to u turned by one whose powers are low and high; h is the part
  // of u that goes around. No division is left to do.
  predicate Gives(low: nat, high: nat, a: nat, b: nat, f: nat, x: nat, t: nat, u: nat, h: nat, e: nat) {
    && (|| a + f + x + t == u || a + f + x + t == 0x1_0000_0000 + u
        || a + f + x + t == 0x2_0000_0000 + u || a + f + x + t == 0x3_0000_0000 + u)
    && u < 0x1_0000_0000 && 0 <= u - high * h < high && h < low
    && (b + (u - high * h) * low + h == e || b + (u - high * h) * low + h == 0x1_0000_0000 + e)
  }

  lemma GivesIs(low: nat, high: nat, a: nat, b: nat, f: nat, x: nat, t: nat, u: nat, h: nat, e: nat)
    requires Gives(low, high, a, b, f, x, t, u, h, e) && e < TWO_32 && low * high == TWO_32 && low >= 1 && high >= 1
    ensures u == (a + f + x + t) % TWO_32 && e == (b + (u * low % TWO_32 + u / high)) % TWO_32
  {
    SumIs(a + f + x + t, u);
    var l := u - high * h;
    Remainder(u, high, h, l);
    PartsTimes(u, low, high, h, l);
    Remainder(u * low, TWO_32, h, l * low);
    SumIs(b + l * low + h, e);
  }

  lemma SumIs(x: nat, u: nat)
    requires u < TWO_32 && (x == u || x == TWO_32 + u || x == 2 * TWO_32 + u || x == 3 * TWO_32 + u)
    ensures u == x % TWO_32
  {
  }

  lemma PartsTimes(u: nat, low: nat, high: nat, h: nat, l: nat)
    requires u == high * h + l && l < high && low >= 1 && low * high == TWO_32
    ensures u * low == TWO_32 * h + l * low && l * low < TWO_32
  {
    assert high * h * low == (low * high) * h;
    assert l * low < high * low by { Below(l, high, low); }
  }

  lemma Below(l: nat, high: nat, low: nat)
    requires l < high && low >= 1
    ensures l * low < high * low
  {
  }

  lemma Powers()
    ensures Pow2(4) == 0x10 && Pow2(5) == 0x20 && Pow2(6) == 0x40 && Pow2(7) == 0x80
    ensures Pow2(9) == 0x200 && Pow2(10) == 0x400 && Pow2(11) == 0x800 && Pow2(12) == 0x1000
    ensures Pow2(14) == 0x4000 && Pow2(15) == 0x8000 && Pow2(16) == 0x10000
  {
    hide Pow2;
    BytePowers();
    SmallPowers();
    PowAdd(4, 1);
    PowAdd(5, 1);
    PowAdd(6, 1);
    PowAdd(8, 1);
    PowAdd(9, 1);
    PowAdd(10, 1);
    PowAdd(11, 1);
    PowAdd(7, 7);
    PowAdd(14, 1);
  }

  lemma Powers2()
    ensures Pow2(17) == 0x20000 && Pow2(18) == 0x40000 && Pow2(20) == 0x100000 && Pow2(21) == 0x200000
    ensures Pow2(22) == 0x400000 && Pow2(23) == 0x800000 && Pow2(25) == 0x2000000 && Pow2(26) == 0x4000000
    ensures Pow2(27) == 0x8000000 && Pow2(28) == 0x10000000
  {
    hide Pow2;
    Powers();
    SmallPowers();
    PowAdd(16, 1);
    PowAdd(17, 1);
    PowAdd(16, 4);
    PowAdd(20, 1);
    PowAdd(21, 1);
    PowAdd(22, 1);
    PowAdd(20, 5);
    PowAdd(25, 1);
    PowAdd(26, 1);
    PowAdd(27, 1);
  }

  lemma OneStep(n: nat, start: State, words: seq<Rfc1321.Word32>, low: nat, high: nat,
                a: bv32, b: bv32, c: bv32, d: bv32, f: bv32, u: nat, h: nat, e: bv32)
    requires |words| == 16 && Operations(n, start, words) == At(a, b, c, d)
    requires low == Pow2(Shift(n)) && high == Pow2(32 - Shift(n)) && f == Chosen(n / 16, b, c, d)
    requires Gives(low, high, Number(a), Number(b), Number(f), words[WordIndex(n)], T(n), u, h, Number(e))
    ensures Operations(n + 1, start, words) == At(d, e, b, c)
  {
    hide Number, Auxiliary, T, Shift, WordIndex, Chosen, Gives, Pow2;
    ChosenNumber(n / 16, b, c, d);
    Width();
    PowAdd(Shift(n), 32 - Shift(n));
    GivesIs(low, high, Number(a), Number(b), Number(f), words[WordIndex(n)], T(n), u, h, Number(e));
  }

  // Four operations of the first round.
  lemma First(n: nat, start: State, words: seq<Rfc1321.Word32>, a: bv32, b: bv32, c: bv32, d: bv32,
        f0: bv32, f1: bv32, f2: bv32, f3: bv32, e0: bv32, e1: bv32, e2: bv32, e3: bv32,
        u0: nat, u1: nat, u2: nat, u3: nat, h0: nat, h1: nat, h2: nat, h3: nat)
    requires |words| == 16 && n % 4 == 0 && n / 16 == 0 && Operations(n, start, words) == At(a, b, c, d)
    requires f0 == FBits(b, c, d)
    requires f1 == FBits(e0, b, c)
    requires f2 == FBits(e1, e0, b)
    requires f3 == FBits(e2, e1, e0)
    requires Gives(0x80, 0x2000000, Number(a), Number(b), Number(f0), words[WordIndex(n)], T(n), 
                   u0, h0, Number(e0))
    requires Gives(0x1000, 0x100000, Number(d), Number(e0), Number(f1), words[WordIndex(n + 1)], T(n + 1), 
                   u1, h1, Number(e1))
    requires Gives(0x20000, 0x8000, Number(c), Number(e1), Number(f2), words[WordIndex(n + 2)], T(n + 2), 
                   u2, h2, Number(e2))
    requires Gives(0x400000, 0x400, Number(b), Number(e2), Number(f3), words[WordIndex(n + 3)], T(n + 3), 
                   u3, h3, Number(e3))
    ensures Operations(n + 4, start, words) == At(e0, e3, e2, e1)
  {
    hide Number, T, WordIndex, Gives, Pow2, Operations, At, FBits;

    Powers();
    Powers2();
    OneStep(n, start, words, 0x80, 0x2000000, a, b, c, d, f0, u0, h0, e0);
    OneStep(n + 1, start, words, 0x1000, 0x100000, d, e0, b, c, f1, u1, h1, e1);
    OneStep(n + 2, start, words, 0x20000, 0x8000, c, e1, e0, b, f2, u2, h2, e2);
    OneStep(n + 3, start, words, 0x400000, 0x400, b, e2, e1, e0, f3, u3, h3, e3);
  }

  // Four operations of the second round.
  lemma Second(n: nat, start: State, words: seq<Rfc1321.Word32>, a: bv32, b: bv32, c: bv32, d: bv32,
        f0: bv32, f1: bv32, f2: bv32, f3: bv32, e0: bv32, e1: bv32, e2: bv32, e3: bv32,
        u0: nat, u1: nat, u2: nat, u3: nat, h0: nat, h1: nat, h2: nat, h3: nat)
    requires |words| == 16 && n % 4 == 0 && n / 16 == 1 && Operations(n, start, words) == At(a, b, c, d)
    requires f0 == GBits(b, c, d)
    requires f1 == GBits(e0, b, c)
    requires f2 == GBits(e1, e0, b)
    requires f3 == GBits(e2, e1, e0)
    requires Gives(0x20, 0x8000000, Number(a), Number(b), Number(f0), words[WordIndex(n)], T(n), 
                   u0, h0, Number(e0))
    requires Gives(0x200, 0x800000, Number(d), Number(e0), Number(f1), words[WordIndex(n + 1)], T(n + 1), 
                   u1, h1, Number(e1))
    requires Gives(0x4000, 0x40000, Number(c), Number(e1), Number(f2), words[WordIndex(n + 2)], T(n + 2), 
                   u2, h2, Number(e2))
    requires Gives(0x100000, 0x1000, Number(b), Number(e2), Number(f3), words[WordIndex(n + 3)], T(n + 3), 
                   u3, h3, Number(e3))
    ensures Operations(n + 4, start, words) == At(e0, e3, e2, e1)
  {
    hide Number, T, WordIndex, Gives, Pow2, Operations, At, GBits;

    Powers();
    Powers2();
    OneStep(n, start, words, 0x20, 0x8000000, a, b, c, d, f0, u0, h0, e0);
    OneStep(n + 1, start, words, 0x200, 0x800000, d, e0, b, c, f1, u1, h1, e1);
    OneStep(n + 2, start, words, 0x4000, 0x40000, c, e1, e0, b, f2, u2, h2, e2);
    OneStep(n + 3, start, words, 0x100000, 0x1000, b, e2, e1, e0, f3, u3, h3, e3);
  }

  // Four operations of the third round.
  lemma Third(n: nat, start: State, words: seq<Rfc1321.Word32>, a: bv32, b: bv32, c: bv32, d: bv32,
        f0: bv32, f1: bv32, f2: bv32, f3: bv32, e0: bv32, e1: bv32, e2: bv32, e3: bv32,
        u0: nat, u1: nat, u2: nat, u3: nat, h0: nat, h1: nat, h2: nat, h3: nat)
    requires |words| == 16 && n % 4 == 0 && n / 16 == 2 && Operations(n, start, words) == At(a, b, c, d)
    requires f0 == HBits(b, c, d)
    requires f1 == HBits(e0, b, c)
    requires f2 == HBits(e1, e0, b)
    requires f3 == HBits(e2, e1, e0)
    requires Gives(0x10, 0x10000000, Number(a), Number(b), Number(f0), words[WordIndex(n)], T(n), 
                   u0, h0, Number(e0))
    requires Gives(0x800, 0x200000, Number(d), Number(e0), Number(f1), words[WordIndex(n + 1)], T(n + 1), 
                   u1, h1, Number(e1))
    requires Gives(0x10000, 0x10000, Number(c), Number(e1), Number(f2), words[WordIndex(n + 2)], T(n + 2), 
                   u2, h2, Number(e2))
    requires Gives(0x800000, 0x200, Number(b), Number(e2), Number(f3), words[WordIndex(n + 3)], T(n + 3), 
                   u3, h3, Number(e3))
    ensures Operations(n + 4, start, words) == At(e0, e3, e2, e1)
  {
    hide Number, T, WordIndex, Gives, Pow2, Operations, At, HBits;

    Powers();
    Powers2();
    OneStep(n, start, words, 0x10, 0x10000000, a, b, c, d, f0, u0, h0, e0);
    OneStep(n + 1, start, words, 0x800, 0x200000, d, e0, b, c, f1, u1, h1, e1);
    OneStep(n + 2, start, words, 0x10000, 0x10000, c, e1, e0, b, f2, u2, h2, e2);
    OneStep(n + 3, start, words, 0x800000, 0x200, b, e2, e1, e0, f3, u3, h3, e3);
  }

  // Four operations of the fourth round.
  lemma Fourth(n: nat, start: State, words: seq<Rfc1321.Word32>, a: bv32, b: bv32, c: bv32, d: bv32,
        f0: bv32, f1: bv32, f2: bv32, f3: bv32, e0: bv32, e1: bv32, e2: bv32, e3: bv32,
        u0: nat, u1: nat, u2: nat, u3: nat, h0: nat, h1: nat, h2: nat, h3: nat)
    requires |words| == 16 && n % 4 == 0 && n / 16 == 3 && Operations(n, start, words) == At(a, b, c, d)
    requires f0 == IBits(b, c, d)
    requires f1 == IBits(e0, b, c)
    requires f2 == IBits(e1, e0, b)
    requires f3 == IBits(e2, e1, e0)
    requires Gives(0x40, 0x4000000, Number(a), Number(b), Number(f0), words[WordIndex(n)], T(n), 
                   u0, h0, Number(e0))
    requires Gives(0x400, 0x400000, Number(d), Number(e0), Number(f1), words[WordIndex(n + 1)], T(n + 1), 
                   u1, h1, Number(e1))
    requires Gives(0x8000, 0x20000, Number(c), Number(e1), Number(f2), words[WordIndex(n + 2)], T(n + 2), 
                   u2, h2, Number(e2))
    requires Gives(0x200000, 0x800, Number(b), Number(e2), Number(f3), words[WordIndex(n + 3)], T(n + 3), 
                   u3, h3, Number(e3))
    ensures Operations(n + 4, start, words) == At(e0, e3, e2, e1)
  {
    hide Number, T, WordIndex, Gives, Pow2, Operations, At, IBits;

    Powers();
    Powers2();
    OneStep(n, start, words, 0x40, 0x4000000, a, b, c, d, f0, u0, h0, e0);
    OneStep(n + 1, start, words, 0x400, 0x400000, d, e0, b, c, f1, u1, h1, e1);
    OneStep(n + 2, start, words, 0x8000, 0x20000, c, e1, e0, b, f2, u2, h2, e2);
    OneStep(n + 3, start, words, 0x200000, 0x800, b, e2, e1, e0, f3, u3, h3, e3);
  }
}
