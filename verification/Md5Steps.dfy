/** The macros of md5.c on words of any width of 32 bits or more, and why their low 32 bits are the
    operations of RFC 1321. */
module Md5Steps {
  import opened Bits
  import Rfc1321

  datatype Fn = F | G | H | H2 | I {
    function Round(): nat {
      match this
      case F => 0
      case G => 1
      case H => 2
      case H2 => 2
      case I => 3
    }
  }

  // F, G, H, H2 and I of md5.c at a width of w bits.
  function Apply(w: nat, f: Fn, x: nat, y: nat, z: nat): nat
    requires z < Pow2(w)
  {
    match f
    case F => Xor(z, And(x, Xor(y, z)))
    case G => Xor(y, And(z, Xor(x, y)))
    case H => Xor(Xor(x, y), z)
    case H2 => Xor(x, Xor(y, z))
    case I => Xor(y, Or(x, Not(w, z)))
  }

  // STEP: the three assignments to its first argument. An s-bit left shift multiplies by 2^s.
  function StepSum(w: nat, f: Fn, a: nat, b: nat, c: nat, d: nat, x: nat, t: nat): nat
    requires d < Pow2(w)
  {
    (a + Apply(w, f, b, c, d) + x + t) % Pow2(w)
  }

  function StepRotate(w: nat, a: nat, s: nat): nat
    requires 0 < s < 32
  {
    hide Pow2, And;
    var low, high, all: nat := Pow2(s), Pow2(32 - s), Pow2(w);
    Or(a * low % all, And(a, 0xffffffff) / high)
  }

  // SET: four bytes assembled in little-endian order.
  function Assemble(p: seq<Byte>): nat
    requires |p| == 4
  {
    Or(Or(Or(p[0], (p[1] as int) * 0x100), (p[2] as int) * 0x1_0000), (p[3] as int) * 0x100_0000)
  }

  // ---- The rewritten functions ----

  lemma NotBit(k: nat, x: nat)
    requires k > 0 && x < Pow2(k)
    ensures x / 2 < Pow2(k - 1)
    ensures Not(k, x) == 2 * Not(k - 1, x / 2) + (1 - x % 2)
    ensures Not(k, x) / 2 == Not(k - 1, x / 2) && Not(k, x) % 2 == 1 - x % 2
  {
  }

  /** A multiplexer needs no and-not: z ^ (x & (y ^ z)) == (x & y) | (~x & z). */
  lemma {:induction false} Multiplex(k: nat, x: nat, y: nat, z: nat)
    requires x < Pow2(k) && y < Pow2(k) && z < Pow2(k)
    ensures Xor(z, And(x, Xor(y, z))) == Or(And(x, y), And(Not(k, x), z))
  {
    if k > 0 {
      hide And, Or, Xor, Not;
      NotBit(k, x);
      Halves(k, y);
      Halves(k, z);
      Multiplex(k - 1, x / 2, y / 2, z / 2);
      Parts(y, z);
      Parts(x, Xor(y, z));
      Parts(z, And(x, Xor(y, z)));
      Parts(x, y);
      Parts(Not(k, x), z);
      Parts(And(x, y), And(Not(k, x), z));
      SameParts(Xor(z, And(x, Xor(y, z))), Or(And(x, y), And(Not(k, x), z)));
    }
  }

  lemma Halves(k: nat, x: nat)
    requires k > 0 && x < Pow2(k)
    ensures x / 2 < Pow2(k - 1)
  {
  }

  lemma {:induction false} AndCommutes(x: nat, y: nat)
    ensures And(x, y) == And(y, x)
  {
    if x > 0 && y > 0 {
      AndCommutes(x / 2, y / 2);
    }
  }

  lemma {:induction false} XorAssociates(x: nat, y: nat, z: nat)
    ensures Xor(Xor(x, y), z) == Xor(x, Xor(y, z))
    decreases x + y + z
  {
    if x > 0 && y > 0 && z > 0 {
      hide Xor;
      XorAssociates(x / 2, y / 2, z / 2);
      Parts(x, y);
      Parts(y, z);
      Parts(Xor(x, y), z);
      Parts(x, Xor(y, z));
      SameParts(Xor(Xor(x, y), z), Xor(x, Xor(y, z)));
    }
  }

  // ---- Low halves of words wider than 32 bits ----

  lemma Pow32()
    ensures Pow2(32) == TWO_32
  {
    hide Pow2;
    assert Pow2(4) == 16 by { SmallPowers(); }
    PowAdd(4, 4);
    PowAdd(8, 8);
    PowAdd(16, 16);
  }

  lemma ModFactor(x: int, m: nat, q: nat)
    requires m >= 1 && q >= 1
    ensures m * q >= 1 && x % (m * q) % m == x % m
  {
    var h, r := x / (m * q), x % (m * q);
    assert x == m * (q * h + r / m) + r % m;
    Remainder(x, m, q * h + r / m, r % m);
  }

  lemma ModWidth(w: nat, x: int)
    requires w >= 32
    ensures x % Pow2(w) % TWO_32 == x % TWO_32
  {
    hide Pow2;
    Pow32();
    PowAdd(32, w - 32);
    ModFactor(x, TWO_32, Pow2(w - 32));
  }

  lemma NotLow(w: nat, x: nat)
    requires w >= 32 && x < Pow2(w)
    ensures Not(w, x) % TWO_32 == Rfc1321.Complement(x % TWO_32)
    ensures Not(w, x) < Pow2(w)
  {
    hide Pow2;
    Pow32();
    PowAdd(32, w - 32);
    var q := Pow2(w - 32);
    var h, r := x / TWO_32, x % TWO_32;
    assert Not(w, x) == TWO_32 * (q - 1 - h) + (TWO_32 - 1 - r);
    Remainder(Not(w, x), TWO_32, q - 1 - h, TWO_32 - 1 - r);
  }

  lemma Low32(x: nat, y: nat)
    ensures And(x, y) % TWO_32 == And(x % TWO_32, y % TWO_32)
    ensures Or(x, y) % TWO_32 == Or(x % TWO_32, y % TWO_32)
    ensures Xor(x, y) % TWO_32 == Xor(x % TWO_32, y % TWO_32)
  {
    hide Pow2, And, Or, Xor;
    Pow32();
    LowAnd(x, y, 32);
    LowOr(x, y, 32);
    LowXor(x, y, 32);
  }

  lemma NotIsComplement(x: Rfc1321.Word32)
    ensures x < Pow2(32) && Not(32, x) == Rfc1321.Complement(x)
  {
    hide Pow2;
    Pow32();
  }

  /** Every rewritten function, at every width, has the RFC's function as its low 32 bits. */
  lemma ApplyLow(w: nat, f: Fn, x: nat, y: nat, z: nat)
    requires w >= 32 && x < Pow2(w) && y < Pow2(w) && z < Pow2(w)
    ensures Apply(w, f, x, y, z) % TWO_32 ==
            Rfc1321.Auxiliary(f.Round(), x % TWO_32, y % TWO_32, z % TWO_32)
  {
    hide And, Or, Xor, Pow2, Not;
    var x', y', z' := x % TWO_32, y % TWO_32, z % TWO_32;
    NotIsComplement(x');
    NotIsComplement(y');
    NotIsComplement(z');
    match f {
      case F =>
        Low32(y, z);
        Low32(x, Xor(y, z));
        Low32(z, And(x, Xor(y, z)));
        Multiplex(32, x', y', z');
      case G =>
        Low32(x, y);
        Low32(z, Xor(x, y));
        Low32(y, And(z, Xor(x, y)));
        Multiplex(32, z', x', y');
        AndCommutes(z', x');
        AndCommutes(Rfc1321.Complement(z'), y');
      case H =>
        Low32(x, y);
        Low32(Xor(x, y), z);
      case H2 =>
        Low32(y, z);
        Low32(x, Xor(y, z));
        XorAssociates(x', y', z');
      case I =>
        NotLow(w, z);
        Low32(x, Not(w, z));
        Low32(y, Or(x, Not(w, z)));
    }
  }

  lemma StepSumLow(w: nat, f: Fn, a: nat, b: nat, c: nat, d: nat, x: nat, t: nat)
    requires w >= 32 && b < Pow2(w) && c < Pow2(w) && d < Pow2(w)
    ensures StepSum(w, f, a, b, c, d, x, t) % TWO_32 ==
            (a % TWO_32 + Rfc1321.Auxiliary(f.Round(), b % TWO_32, c % TWO_32, d % TWO_32) + x % TWO_32 + t) % TWO_32
  {
    hide Apply, Pow2, Rfc1321.Auxiliary;
    ApplyLow(w, f, b, c, d);
    ModWidth(w, a + Apply(w, f, b, c, d) + x + t);
    FourSum(a, Apply(w, f, b, c, d), x, t);
  }

  lemma FourSum(a: nat, f: nat, x: nat, t: nat)
    ensures (a + f + x + t) % TWO_32 == (a % TWO_32 + f % TWO_32 + x % TWO_32 + t) % TWO_32
  {
  }

  lemma ModProduct(a: nat, k: nat)
    ensures a * k % TWO_32 == a % TWO_32 * k % TWO_32
  {
    var h, r := a / TWO_32, a % TWO_32;
    assert a * k == TWO_32 * (h * k) + r * k;
    var q, m := r * k / TWO_32, r * k % TWO_32;
    assert a * k == TWO_32 * (h * k + q) + m;
    Remainder(a * k, TWO_32, h * k + q, m);
  }

  // The shifted-out bits fall into the s zero bits of the shifted word.
  lemma RotateParts(w: nat, a: nat, s: nat)
    requires w >= 32 && 0 < s < 32
    ensures a % TWO_32 / Pow2(32 - s) < Pow2(s)
    ensures a * Pow2(s) % Pow2(w) == a % Pow2(w - s) * Pow2(s)
  {
    hide Pow2;
    Pow32();
    PowAdd(s, 32 - s);
    PowAdd(s, w - s);
    SmallQuotient(a % TWO_32, Pow2(s), Pow2(32 - s));
    ShiftedField(a, Pow2(s), Pow2(w - s));
  }

  lemma RotateSum(w: nat, a: nat, s: nat)
    requires w >= 32 && a < Pow2(w) && 0 < s < 32
    ensures StepRotate(w, a, s) == a * Pow2(s) % Pow2(w) + a % TWO_32 / Pow2(32 - s)
    ensures a % TWO_32 / Pow2(32 - s) < Pow2(s)
  {
    hide Pow2, And, Or;
    AndLow(a);
    RotateParts(w, a, s);
    OrIsSum(a % TWO_32 / Pow2(32 - s), a % Pow2(w - s), s);
  }

  lemma AndLow(a: nat)
    ensures And(a, 0xffffffff) == a % TWO_32
  {
    hide And, Pow2;
    Pow32();
    AndOnes(a, 32);
  }

  lemma SmallQuotient(x: nat, p: nat, q: nat)
    requires p >= 1 && q >= 1 && x < p * q
    ensures x / q < p
  {
    assert x / q * q < p * q;
  }

  lemma ShiftedField(a: nat, p: nat, r: nat)
    requires p >= 1 && r >= 1
    ensures p * r >= 1 && a * p % (p * r) == a % r * p
  {
    var h, l := a / r, a % r;
    assert a * p == (p * r) * h + l * p;
    assert l * p < r * p;
    Remainder(a * p, p * r, h, l * p);
  }

  lemma StepRotateLow(w: nat, a: nat, s: nat)
    requires w >= 32 && a < Pow2(w) && 0 < s < 32
    ensures StepRotate(w, a, s) % TWO_32 == Rfc1321.RotateLeft(a % TWO_32, s)
  {
    hide Pow2, StepRotate, And, Or, Rfc1321.RotateLeft;
    var high := a * Pow2(s) % Pow2(w);
    var low := a % TWO_32 / Pow2(32 - s);
    assert StepRotate(w, a, s) == high + low by { RotateSum(w, a, s); }
    assert high % TWO_32 == a % TWO_32 * Pow2(s) % TWO_32 by {
      ModWidth(w, a * Pow2(s));
      ModProduct(a, Pow2(s));
    }
    assert Rfc1321.RotateLeft(a % TWO_32, s) == high % TWO_32 + low by { RotateDefinition(a % TWO_32, s); }
    RotateFits(a % TWO_32, s);
    SumBelow(high, low);
  }

  lemma RotateDefinition(x: Rfc1321.Word32, s: nat)
    requires 0 < s < 32
    ensures Rfc1321.RotateLeft(x, s) == x * Pow2(s) % TWO_32 + x / Pow2(32 - s)
  {
  }

  lemma SumBelow(x: nat, y: nat)
    ensures x % TWO_32 + y < TWO_32 ==> (x + y) % TWO_32 == x % TWO_32 + y
  {
  }

  lemma OneBelow(r: nat, q: nat, p: nat)
    requires r < q
    ensures r * p + p <= q * p
  {
    assert (r + 1) * p <= q * p;
  }

  // A rotated word is a word.
  lemma RotateFits(x: Rfc1321.Word32, s: nat)
    requires 0 < s < 32
    ensures Rfc1321.RotateLeft(x, s) < TWO_32
  {
    hide Pow2, Rfc1321.RotateLeft;
    Pow32();
    PowAdd(s, 32 - s);
    var p, q := Pow2(s), Pow2(32 - s);
    RotateDefinition(x, s);
    ShiftedField(x, p, q);
    SmallQuotient(x, p, q);
    OneBelow(x % q, q, p);
  }

  lemma AssembleIsLittleEndian(p: seq<Byte>)
    requires |p| == 4
    ensures Assemble(p) == Rfc1321.LittleEndian(p)
  {
    hide Or, Pow2;
    BytePowers();
    var p0: nat, p1: nat, p2: nat, p3: nat := p[0], p[1], p[2], p[3];
    OrIsSum(p0, p1, 8);
    OrIsSum(p0 + p1 * 0x100, p2, 16);
    OrIsSum(p0 + p1 * 0x100 + p2 * 0x1_0000, p3, 24);
  }

  // The value STEP leaves in its first argument.
  function Step(w: nat, f: Fn, a: nat, b: nat, c: nat, d: nat, x: nat, t: nat, s: nat): (r: nat)
    requires d < Pow2(w) && 0 < s < 32
    ensures r < Pow2(w)
  {
    hide StepSum, StepRotate, Pow2;
    (StepRotate(w, StepSum(w, f, a, b, c, d, x, t), s) + b) % Pow2(w)
  }

  /** One STEP, at any width, is one operation of the RFC on the low 32 bits. */
  lemma StepLow(w: nat, n: nat, f: Fn, a: nat, b: nat, c: nat, d: nat, x: nat)
    requires w >= 32 && b < Pow2(w) && c < Pow2(w) && d < Pow2(w) && f.Round() == n / 16
    ensures Step(w, f, a, b, c, d, x, Rfc1321.T(n), Rfc1321.Shift(n)) % TWO_32 ==
            Rfc1321.NewA(n, Rfc1321.State(a % TWO_32, b % TWO_32, c % TWO_32, d % TWO_32), x % TWO_32)
  {
    hide Pow2, StepSum, StepRotate, Rfc1321.T, Rfc1321.Shift, Rfc1321.RotateLeft, Rfc1321.Auxiliary;
    var t, s := Rfc1321.T(n), Rfc1321.Shift(n);
    var u := StepSum(w, f, a, b, c, d, x, t);
    assert u < Pow2(w) by { SumFits(w, f, a, b, c, d, x, t); }
    StepSumLow(w, f, a, b, c, d, x, t);
    StepRotateLow(w, u, s);
    ModWidth(w, StepRotate(w, u, s) + b);
    SumMod2(StepRotate(w, u, s), b);
  }

  lemma SumFits(w: nat, f: Fn, a: nat, b: nat, c: nat, d: nat, x: nat, t: nat)
    requires d < Pow2(w)
    ensures StepSum(w, f, a, b, c, d, x, t) < Pow2(w)
  {
    hide Apply;
  }

  lemma SumMod2(x: nat, y: nat)
    ensures (x + y) % TWO_32 == (y % TWO_32 + x % TWO_32) % TWO_32
  {
  }
}
