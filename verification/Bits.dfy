/** Bitwise operators on unsigned integers of any width, bit by bit, and the arithmetic they amount
    to where the source uses them. */
module Bits {

  const TWO_32: nat := 0x1_0000_0000
  const TWO_64: nat := 0x1_0000_0000_0000_0000

  type Byte = b: nat | b < 0x100

  function Pow2(k: nat): (p: nat)
    ensures p >= 1
  {
    if k == 0 then 1 else 2 * Pow2(k - 1)
  }

  function And(x: nat, y: nat): nat {
    if x == 0 || y == 0 then 0 else 2 * And(x / 2, y / 2) + (if x % 2 == 1 && y % 2 == 1 then 1 else 0)
  }

  function Or(x: nat, y: nat): nat
    decreases x + y
  {
    if x == 0 then y else if y == 0 then x
    else 2 * Or(x / 2, y / 2) + (if x % 2 == 1 || y % 2 == 1 then 1 else 0)
  }

  function Xor(x: nat, y: nat): nat
    decreases x + y
  {
    if x == 0 then y else if y == 0 then x
    else 2 * Xor(x / 2, y / 2) + (if x % 2 != y % 2 then 1 else 0)
  }

  // Complement at a width of k bits.
  function Not(k: nat, x: nat): nat
    requires x < Pow2(k)
  {
    Pow2(k) - 1 - x
  }

  lemma {:induction false} PowAdd(j: nat, k: nat)
    ensures Pow2(j + k) == Pow2(j) * Pow2(k)
  {
    if j > 0 {
      PowAdd(j - 1, k);
    }
  }

  lemma {:induction false} PowMonotone(j: nat, k: nat)
    requires j <= k
    ensures Pow2(j) <= Pow2(k)
  {
    if j < k {
      PowMonotone(j, k - 1);
    }
  }

  lemma SmallPowers()
    ensures Pow2(1) == 2 && Pow2(4) == 16
  {
  }

  lemma BytePowers()
    ensures Pow2(8) == 0x100 && Pow2(16) == 0x1_0000 && Pow2(24) == 0x100_0000
  {
    hide Pow2;
    SmallPowers();
    PowAdd(4, 4);
    PowAdd(8, 8);
    PowAdd(8, 16);
  }

  // One bit at a time: how an operand splits at its lowest bit.
  lemma Halve(x: nat, m: nat)
    requires m >= 1
    ensures x % (2 * m) == 2 * (x / 2 % m) + x % 2
    ensures x % (2 * m) / 2 == x / 2 % m && x % (2 * m) % 2 == x % 2
  {
    var q, r := x / 2 / m, x / 2 % m;
    assert x == 2 * (m * q + r) + x % 2;
    assert x == (2 * m) * q + (2 * r + x % 2);
    Remainder(x, 2 * m, q, 2 * r + x % 2);
  }

  lemma Remainder(x: int, m: nat, q: int, r: nat)
    requires x == m * q + r && r < m
    ensures x % m == r && x / m == q
  {
    var d := x / m - q;
    assert m * d == r - x % m;
    Small(m, d);
  }

  lemma Small(m: int, d: int)
    requires -m < m * d < m
    ensures d == 0
  {
  }

  // The unfoldings that hold for zero operands too.
  lemma AndBit(x: nat, y: nat)
    ensures And(x, y) == 2 * And(x / 2, y / 2) + (if x % 2 == 1 && y % 2 == 1 then 1 else 0)
  {
  }

  lemma OrBit(x: nat, y: nat)
    ensures Or(x, y) == 2 * Or(x / 2, y / 2) + (if x % 2 == 1 || y % 2 == 1 then 1 else 0)
  {
    assert Or(0, 0) == 0;
  }

  lemma XorBit(x: nat, y: nat)
    ensures Xor(x, y) == 2 * Xor(x / 2, y / 2) + (if x % 2 != y % 2 then 1 else 0)
  {
    assert Xor(0, 0) == 0;
  }

  // The same, as the half and the parity of the result.
  lemma Parts(x: nat, y: nat)
    ensures And(x, y) / 2 == And(x / 2, y / 2) && (And(x, y) % 2 == 1 <==> x % 2 == 1 && y % 2 == 1)
    ensures Or(x, y) / 2 == Or(x / 2, y / 2) && (Or(x, y) % 2 == 1 <==> x % 2 == 1 || y % 2 == 1)
    ensures Xor(x, y) / 2 == Xor(x / 2, y / 2) && (Xor(x, y) % 2 == 1 <==> (x % 2 == 1) != (y % 2 == 1))
  {
    hide And, Or, Xor;
    AndBit(x, y);
    OrBit(x, y);
    XorBit(x, y);
  }

  lemma SameParts(x: nat, y: nat)
    requires x / 2 == y / 2 && (x % 2 == 1 <==> y % 2 == 1)
    ensures x == y
  {
  }

  /** The low k bits of a bitwise result depend on the low k bits of the operands only. */
  lemma {:induction false} LowAnd(x: nat, y: nat, k: nat)
    ensures And(x, y) % Pow2(k) == And(x % Pow2(k), y % Pow2(k))
  {
    if k > 0 {
      hide And;
      var m := Pow2(k - 1);
      LowAnd(x / 2, y / 2, k - 1);
      AndBit(x, y);
      assert And(x, y) / 2 == And(x / 2, y / 2);
      Halve(And(x, y), m);
      Halve(x, m);
      Halve(y, m);
      AndBit(x % (2 * m), y % (2 * m));
    }
  }

  lemma {:induction false} LowOr(x: nat, y: nat, k: nat)
    ensures Or(x, y) % Pow2(k) == Or(x % Pow2(k), y % Pow2(k))
  {
    if k > 0 {
      hide Or;
      var m := Pow2(k - 1);
      LowOr(x / 2, y / 2, k - 1);
      OrBit(x, y);
      assert Or(x, y) / 2 == Or(x / 2, y / 2);
      Halve(Or(x, y), m);
      Halve(x, m);
      Halve(y, m);
      OrBit(x % (2 * m), y % (2 * m));
    }
  }

  lemma {:induction false} LowXor(x: nat, y: nat, k: nat)
    ensures Xor(x, y) % Pow2(k) == Xor(x % Pow2(k), y % Pow2(k))
  {
    if k > 0 {
      hide Xor;
      var m := Pow2(k - 1);
      LowXor(x / 2, y / 2, k - 1);
      XorBit(x, y);
      assert Xor(x, y) / 2 == Xor(x / 2, y / 2);
      Halve(Xor(x, y), m);
      Halve(x, m);
      Halve(y, m);
      XorBit(x % (2 * m), y % (2 * m));
    }
  }

  lemma Fits(x: nat, y: nat, k: nat)
    requires x < Pow2(k) && y < Pow2(k)
    ensures And(x, y) < Pow2(k) && Or(x, y) < Pow2(k) && Xor(x, y) < Pow2(k)
  {
    LowAnd(x, y, k);
    LowOr(x, y, k);
    LowXor(x, y, k);
    Remainder(x, Pow2(k), 0, x);
    Remainder(y, Pow2(k), 0, y);
  }

  /** Or is addition when one operand lies below the lowest bit of the other. */
  lemma {:induction false} OrIsSum(x: nat, h: nat, k: nat)
    requires x < Pow2(k)
    ensures Or(x, h * Pow2(k)) == x + h * Pow2(k) == Or(h * Pow2(k), x)
  {
    if k > 0 {
      OrIsSum(x / 2, h, k - 1);
      ShiftSum(x, h, Pow2(k - 1));
    }
  }

  lemma ShiftSum(x: nat, h: nat, m: nat)
    requires Or(x / 2, h * m) == x / 2 + h * m == Or(h * m, x / 2)
    ensures Or(x, h * (2 * m)) == x + h * (2 * m) == Or(h * (2 * m), x)
  {
    hide Or;
    DoubleProduct(h, m);
    ShiftOr(x, h * m);
  }

  lemma DoubleProduct(h: int, m: int)
    ensures h * (2 * m) == 2 * (h * m)
  {
  }

  lemma ShiftOr(x: nat, y: nat)
    requires Or(x / 2, y) == x / 2 + y == Or(y, x / 2)
    ensures Or(x, 2 * y) == x + 2 * y == Or(2 * y, x)
  {
    hide Or;
    OrBit(x, 2 * y);
    OrBit(2 * y, x);
  }

  /** A mask of j ones above k zeros picks out a field. */
  lemma {:induction false} AndMask(x: nat, j: nat, k: nat)
    ensures And(x, (Pow2(j) - 1) * Pow2(k)) == x / Pow2(k) % Pow2(j) * Pow2(k)
    decreases k, j
  {
    if k > 0 {
      AndMask(x / 2, j, k - 1);
      ShiftMask(x, Pow2(k - 1), Pow2(j));
    } else {
      AndOnes(x, j);
    }
  }

  lemma {:induction false} AndOnes(x: nat, j: nat)
    ensures And(x, Pow2(j) - 1) == x % Pow2(j)
  {
    if j > 0 {
      hide And;
      var p := Pow2(j - 1);
      AndOnes(x / 2, j - 1);
      AndBit(x, 2 * p - 1);
      Halve(x, p);
    }
  }

  lemma ShiftMask(x: nat, m: nat, p: nat)
    requires m >= 1 && p >= 1 && And(x / 2, (p - 1) * m) == x / 2 / m % p * m
    ensures And(x, (p - 1) * (2 * m)) == x / (2 * m) % p * (2 * m)
  {
    hide And;
    DoubleProduct(p - 1, m);
    ShiftAnd(x, (p - 1) * m);
    DivideHalf(x, m);
    DoubleProduct(x / 2 / m % p, m);
  }

  lemma ShiftAnd(x: nat, mask: nat)
    ensures And(x, 2 * mask) == 2 * And(x / 2, mask)
  {
    hide And;
    AndBit(x, 2 * mask);
  }

  lemma DivideHalf(x: nat, m: nat)
    requires m >= 1
    ensures x / (2 * m) == x / 2 / m
  {
    var q, r := x / 2 / m, x / 2 % m;
    assert x == (2 * m) * q + (2 * r + x % 2);
    Remainder(x, 2 * m, q, 2 * r + x % 2);
  }
}
