/** GF(2^8): the field behind the Reed-Solomon code. Addition is exclusive or;
    multiplication is the product of polynomials over GF(2) reduced modulo
    x^8 + x^4 + x^3 + x^2 + 1, which is what the log tables have to compute. */
module GaloisField {
  import opened Arithmetic
  import opened Bits

  const PRIM_POLY: nat := 0x11d
  const ORDER: nat := 255

  /** One doubling step: shift left, and subtract the modulus when the degree reaches 8. */
  function Double(b: byte): byte {
    assert Pow2(8) == 256 && Pow2(7) == 128;
    if 2 * b >= 256 then
      XorTopBit(2 * b, PRIM_POLY, 8);
      Xor(2 * b, PRIM_POLY)
    else 2 * b
  }

  /** Reference product: for every set bit i of a, add b times x^i. */
  function Mul(a: byte, b: byte): byte
    decreases a
  {
    if a == 0 then 0
    else XorByte(if a % 2 == 1 then b else 0, Mul(a / 2, Double(b)))
  }

  function Exp(k: nat): byte { if k == 0 then 1 else Double(Exp(k - 1)) }

  // ---- doubling is linear

  lemma DoubleXor(a: byte, b: byte)
    ensures Double(XorByte(a, b)) == XorByte(Double(a), Double(b))
  {
    hide Xor;
    assert Pow2(8) == 256 && Pow2(7) == 128;
    XorDouble(a, b);
    XorTopBit(2 * a, 2 * b, 8);
    XorAssoc(2 * a, 2 * b, PRIM_POLY);
    XorExchange(2 * a, PRIM_POLY, 2 * b, PRIM_POLY);
    XorComm(2 * a, PRIM_POLY);
    XorAssoc(PRIM_POLY, 2 * a, 2 * b);
    XorComm(PRIM_POLY, Xor(2 * a, 2 * b));
    XorSelf(PRIM_POLY);
    XorZero(Xor(2 * a, 2 * b));
    XorAssoc(2 * a, PRIM_POLY, 2 * b);
  }

  lemma DoubleInjective(a: byte, b: byte)
    ensures Double(a) == 0 <==> a == 0
    ensures Double(a) == Double(b) <==> a == b
  {
    DoubleXor(a, b);
    XorIsZero(a, b);
    XorIsZero(Double(a), Double(b));
    DoubleZero(a);
    DoubleZero(XorByte(a, b));
  }

  lemma DoubleZero(b: byte)
    ensures Double(b) == 0 <==> b == 0
  {}

  // ---- products of polynomials over GF(2), before they are reduced

  function PolyMul(a: nat, b: nat): nat
    decreases a
  {
    if a == 0 then 0 else Xor(if a % 2 == 1 then b else 0, PolyMul(a / 2, 2 * b))
  }

  lemma PolyMulStep(a: nat, c: nat)
    ensures PolyMul(a, c) == Xor(if a % 2 == 1 then c else 0, PolyMul(a / 2, 2 * c))
    ensures PolyMul(0, c) == 0
  {
    XorZero(0);
  }

  lemma {:induction false} PolyMulRight(a: nat, b: nat, c: nat)
    ensures PolyMul(a, Xor(b, c)) == Xor(PolyMul(a, b), PolyMul(a, c))
    decreases a
  {
    hide Xor;
    XorZero(0);
    if a != 0 {
      XorDouble(b, c);
      PolyMulRight(a / 2, 2 * b, 2 * c);
      XorExchange(if a % 2 == 1 then b else 0, PolyMul(a / 2, 2 * b),
                  if a % 2 == 1 then c else 0, PolyMul(a / 2, 2 * c));
    }
  }

  lemma {:induction false} PolyMulLeft(a: nat, b: nat, c: nat)
    ensures PolyMul(Xor(a, b), c) == Xor(PolyMul(a, c), PolyMul(b, c))
    decreases a + b
  {
    hide Xor, PolyMul;
    PolyMulStep(a, c);
    PolyMulStep(b, c);
    PolyMulStep(Xor(a, b), c);
    XorZero(0);
    XorSelf(c);
    XorZero(c);
    if a != 0 || b != 0 {
      XorHalf(a, b);
      PolyMulLeft(a / 2, b / 2, 2 * c);
      XorExchange(if a % 2 == 1 then c else 0, PolyMul(a / 2, 2 * c),
                  if b % 2 == 1 then c else 0, PolyMul(b / 2, 2 * c));
    }
  }

  lemma {:induction false} PolyMulZero(a: nat)
    ensures PolyMul(a, 0) == 0
    decreases a
  {
    XorZero(0);
    if a != 0 { PolyMulZero(a / 2); }
  }

  /** r differs from the product by a multiple of x^8 + x^4 + x^3 + x^2 + 1, 0435 in octal. */
  ghost predicate IsRemainder(product: nat, r: byte) { exists q: nat :: product == Xor(r, PolyMul(q, 0x11d)) }

  /** Doubling takes the modulus away, or nothing. */
  lemma DoubleReduces(b: byte)
    ensures 2 * b as nat == Xor(Double(b), if b >= 128 then 0x11d else 0)
  {
    hide Xor;
    XorZero(2 * b as nat);
    XorCancel(2 * b as nat, PRIM_POLY);
  }

  /** The product in the field is the remainder of the product of the polynomials. */
  lemma {:induction false} MulIsRemainder(a: byte, b: byte)
    ensures IsRemainder(PolyMul(a, b), Mul(a, b))
    decreases a
  {
    hide Xor, PolyMul, Mul, Double;
    MulStep(a, b);
    PolyMulStep(a, b);
    PolyMulStep(0, 0x11d);
    XorZero(0);
    if a == 0 {
      PolyMulStep(0, b);
      assert PolyMul(a, b) == Xor(0, PolyMul(0, 0x11d));
    } else {
      MulIsRemainder(a / 2, Double(b));
      var q: nat :| PolyMul(a / 2, Double(b)) == Xor(Mul(a / 2, Double(b)), PolyMul(q, 0x11d));
      var t := if b >= 128 then a as nat / 2 else 0;
      DoubleReduces(b);
      PolyMulRight(a as nat / 2, Double(b), if b >= 128 then 0x11d else 0);
      PolyMulZero(a as nat / 2);
      PolyMulLeft(q, t, 0x11d);
      var head, m, n := if a % 2 == 1 then b as nat else 0, Mul(a / 2, Double(b)), PolyMul(q, 0x11d);
      var k := PolyMul(t, 0x11d);
      XorAssoc(m, n, k);
      XorAssoc(head, m, Xor(n, k));
      assert PolyMul(a, b) == Xor(Mul(a, b), PolyMul(Xor(q, t), 0x11d));
    }
  }

  // ---- the product, one bit at a time

  lemma MulStep(a: byte, b: byte)
    ensures a != 0 ==> Mul(a, b) == XorByte(if a % 2 == 1 then b else 0, Mul(a / 2, Double(b)))
    ensures a == 0 ==> Mul(a, b) == 0
  {}

  lemma {:induction false} MulXorRight(a: byte, b: byte, c: byte)
    ensures Mul(a, XorByte(b, c)) == XorByte(Mul(a, b), Mul(a, c))
    decreases a
  {
    hide Mul, Double, Xor;
    MulStep(a, XorByte(b, c));
    MulStep(a, b);
    MulStep(a, c);
    XorZero(0);
    if a != 0 {
      DoubleXor(b, c);
      MulXorRight(a / 2, Double(b), Double(c));
      XorExchange(if a % 2 == 1 then b else 0, Mul(a / 2, Double(b)),
                  if a % 2 == 1 then c else 0, Mul(a / 2, Double(c)));
    }
  }

  lemma {:induction false} MulDoubleRight(a: byte, b: byte)
    ensures Mul(a, Double(b)) == Double(Mul(a, b))
    decreases a
  {
    hide Mul, Double, Xor;
    MulStep(a, Double(b));
    MulStep(a, b);
    DoubleZero(0);
    if a != 0 {
      DoubleXor(if a % 2 == 1 then b else 0, Mul(a / 2, Double(b)));
      MulDoubleRight(a / 2, Double(b));
    }
  }

  lemma {:induction false} MulXorLeft(a: byte, b: byte, c: byte)
    ensures Mul(XorByte(a, b), c) == XorByte(Mul(a, c), Mul(b, c))
    decreases a + b
  {
    hide Mul, Double, Xor;
    MulStep(a, c);
    MulStep(b, c);
    MulStep(XorByte(a, b), c);
    XorZero(a);
    XorZero(b);
    XorIsZero(a, b);
    XorSelf(Mul(a, c));
    XorZero(Mul(a, c));
    XorZero(Mul(b, c));
    if a != 0 && b != 0 && a != b {
      XorHalf(a, b);
      MulXorLeft(a / 2, b / 2, Double(c));
      XorExchange(if a % 2 == 1 then c else 0, Mul(a / 2, Double(c)),
                  if b % 2 == 1 then c else 0, Mul(b / 2, Double(c)));
      XorSelf(c);
      XorSelf(0);
      XorZero(c);
    }
  }

  lemma {:induction false} MulUnits(a: byte)
    ensures Mul(a, 1) == a == Mul(1, a)
    ensures Mul(a, 0) == 0 == Mul(0, a)
    decreases a
  {
    hide Mul, Double, Xor;
    MulStep(a, 1);
    MulStep(1, a);
    MulStep(0, a);
    MulStep(0, Double(a));
    XorZero(a);
    MulXorRight(a, 0, 0);
    XorSelf(0);
    XorSelf(Mul(a, 0));
    if a != 0 {
      MulUnits(a / 2);
      MulDoubleRight(a / 2, 1);
      HalfDouble(a);
    }
  }

  lemma HalfDouble(a: byte)
    ensures Double(a / 2) == 2 * (a / 2)
    ensures XorByte(a % 2, Double(a / 2)) == a
  {
    XorZero(a / 2);
  }

  lemma {:induction false} MulComm(a: byte, b: byte)
    ensures Mul(a, b) == Mul(b, a)
    decreases a
  {
    hide Mul, Double, Xor;
    MulStep(a, b);
    MulUnits(b);
    if a != 0 {
      HalfDouble(a);
      MulXorRight(b, a % 2, Double(a / 2));
      MulDoubleRight(b, a / 2);
      MulComm(a / 2, b);
      MulDoubleRight(a / 2, b);
    }
  }

  lemma {:induction false} MulAssoc(a: byte, b: byte, c: byte)
    ensures Mul(Mul(a, b), c) == Mul(a, Mul(b, c))
    decreases a
  {
    hide Mul, Double, Xor;
    MulStep(a, b);
    MulStep(a, Mul(b, c));
    MulStep(0, c);
    if a != 0 {
      MulXorLeft(if a % 2 == 1 then b else 0, Mul(a / 2, Double(b)), c);
      MulAssoc(a / 2, Double(b), c);
      MulComm(Double(b), c);
      MulDoubleRight(c, b);
      MulComm(b, c);
    }
  }

  // ---- powers of x: a cycle of length exactly 255

  lemma {:induction false} ExpAdd(i: nat, j: nat)
    ensures Mul(Exp(i), Exp(j)) == Exp(i + j)
  {
    hide Mul, Double;
    MulUnits(Exp(j));
    if i > 0 {
      ExpAdd(i - 1, j);
      MulComm(Exp(i), Exp(j));
      MulDoubleRight(Exp(j), Exp(i - 1));
      MulComm(Exp(i - 1), Exp(j));
    }
  }

  lemma {:induction false} ExpNonzero(k: nat)
    ensures Exp(k) != 0
  {
    if k > 0 {
      ExpNonzero(k - 1);
      DoubleZero(Exp(k - 1));
    }
  }

  /** Doubling on machine bytes, where the verifier can evaluate it. */
  function MachineDouble(b: bv8): bv8 { if b & 0x80 != 0 then (b << 1) ^ 0x1d else b << 1 }

  function MachineDouble4(b: bv8): bv8 { MachineDouble(MachineDouble(MachineDouble(MachineDouble(b)))) }

  function MachineDouble16(b: bv8): bv8 { MachineDouble4(MachineDouble4(MachineDouble4(MachineDouble4(b)))) }

  lemma MachineDoubleIsDouble(b: bv8)
    ensures OfMachine(MachineDouble(b)) == Double(OfMachine(b))
  {
    hide Xor;
    MachineTopBit(b);
    MachineShiftLeft(b);
    if b & 0x80 != 0 {
      assert OfMachine(0x1d) == 0x1d;
      XorIsMachineXor(b << 1, 0x1d);
      assert Pow2(8) == 256;
      XorDropTop(2 * OfMachine(b) - 256, 0x1d, 8);
    }
  }

  lemma MachineTopBit(b: bv8)
    ensures b & 0x80 != 0 <==> OfMachine(b) >= 128
  {}

  lemma MachineShiftLeft(b: bv8)
    ensures OfMachine(b << 1) == if OfMachine(b) >= 128 then 2 * OfMachine(b) - 256 else 2 * OfMachine(b)
  {}

  lemma Exp1(k: nat, b: bv8)
    requires Exp(k) == OfMachine(b)
    ensures Exp(k + 1) == OfMachine(MachineDouble(b))
  {
    hide MachineDouble, Double, OfMachine;
    MachineDoubleIsDouble(b);
  }

  lemma Exp4(k: nat, b: bv8)
    requires Exp(k) == OfMachine(b)
    ensures Exp(k + 4) == OfMachine(MachineDouble4(b))
  {
    hide MachineDouble, Exp, OfMachine;
    Exp1(k, b);
    Exp1(k + 1, MachineDouble(b));
    Exp1(k + 2, MachineDouble(MachineDouble(b)));
    Exp1(k + 3, MachineDouble(MachineDouble(MachineDouble(b))));
  }

  lemma Exp17(k: nat, b: bv8)
    requires Exp(k) == OfMachine(b)
    ensures Exp(k + 17) == OfMachine(MachineDouble(MachineDouble16(b)))
  {
    hide MachineDouble, MachineDouble4, Exp, OfMachine;
    Exp4(k, b);
    Exp4(k + 4, MachineDouble4(b));
    Exp4(k + 8, MachineDouble4(MachineDouble4(b)));
    Exp4(k + 12, MachineDouble4(MachineDouble4(MachineDouble4(b))));
    Exp1(k + 16, MachineDouble16(b));
  }

  lemma Evaluate17()
    ensures MachineDouble(MachineDouble16(0x01)) == 0x98
    ensures MachineDouble(MachineDouble16(0x98)) == 0x4e
    ensures MachineDouble(MachineDouble16(0x4e)) == 0x0a
    ensures MachineDouble(MachineDouble16(0x0a)) == 0x99
    ensures MachineDouble(MachineDouble16(0x99)) == 0xd6
    ensures MachineDouble(MachineDouble16(0xd6)) == 0x44
    ensures MachineDouble(MachineDouble16(0x44)) == 0x93
    ensures MachineDouble(MachineDouble16(0x93)) == 0x4f
    ensures MachineDouble(MachineDouble16(0x4f)) == 0x92
    ensures MachineDouble(MachineDouble16(0x92)) == 0xd7
    ensures MachineDouble(MachineDouble16(0xd7)) == 0xdc
    ensures MachineDouble(MachineDouble16(0xdc)) == 0xdd
    ensures MachineDouble(MachineDouble16(0xdd)) == 0x45
    ensures MachineDouble(MachineDouble16(0x45)) == 0x0b
    ensures MachineDouble(MachineDouble16(0x0b)) == 0x01
  {}

  lemma OfMachineValues()
    ensures OfMachine(0x01) == 0x01 && OfMachine(0x98) == 0x98 && OfMachine(0x0a) == 0x0a && OfMachine(0xd6) == 0xd6
  {}

  /** x returns to 1 after 255 doublings, and after no proper divisor of 255. */
  lemma ExpPeriods()
    ensures Exp(1) != 1 && Exp(3) != 1 && Exp(5) != 1 && Exp(15) != 1
    ensures Exp(17) != 1 && Exp(51) != 1 && Exp(85) != 1
    ensures Exp(255) == 1
  {
    hide MachineDouble, MachineDouble16, OfMachine, Exp;
    Evaluate17();
    OfMachineValues();
    ExpSmall();
    Exp17(0, 0x01);
    Exp17(17, 0x98);
    Exp17(34, 0x4e);
    Exp17(51, 0x0a);
    Exp17(68, 0x99);
    Exp17(85, 0xd6);
    Exp17(102, 0x44);
    Exp17(119, 0x93);
    Exp17(136, 0x4f);
    Exp17(153, 0x92);
    Exp17(170, 0xd7);
    Exp17(187, 0xdc);
    Exp17(204, 0xdd);
    Exp17(221, 0x45);
    Exp17(238, 0x0b);
  }

  lemma ExpSmall()
    ensures Exp(0) == 1 && Exp(1) == 2 && Exp(3) == 8 && Exp(5) == 32
    ensures Exp(15) == 1 ==> Exp(17) == 4
  {}

  lemma {:induction false} ExpRemainder(d: nat, k: nat)
    requires d > 0 && Exp(d) == 1
    ensures Exp(k % d) == Exp(k)
  {
    hide Mul, Double, Exp;
    if k >= d {
      ExpRemainder(d, k - d);
      ExpAdd(d, k - d);
      MulUnits(Exp(k - d));
      assert (k - d) % d == k % d by { ModMinus(k, d); }
    }
  }

  /** 255 is the order of x: no smaller power is 1. */
  lemma {:induction false} OrderIs255(k: nat)
    requires 0 < k < ORDER
    ensures Exp(k) != 1
  {
    hide Double, Exp;
    ExpPeriods();
    if Exp(k) == 1 {
      ExpRemainder(k, ORDER);
      var r := ORDER % k;
      if r != 0 {
        OrderIs255(r);
      } else {
        ProperDivisors(k);
      }
    }
  }

  lemma ProperDivisors(k: nat)
    requires 0 < k < 255 && 255 % k == 0
    ensures k in {1, 3, 5, 15, 17, 51, 85}
  {
    var q := 255 / k;
    assert q * k == 255;
    if k < 16 {
      assert k in {1, 2, 3, 4, 5, 6, 7, 8, 9, 10, 11, 12, 13, 14, 15};
    } else {
      assert q < 16;
      assert q in {1, 2, 3, 4, 5, 6, 7, 8, 9, 10, 11, 12, 13, 14, 15};
    }
  }

  lemma ExpInjective(i: nat, j: nat)
    requires i <= j < ORDER && Exp(i) == Exp(j)
    ensures i == j
  {
    hide Double, Exp;
    if i < j {
      OrderIs255(j - i);
      ExpShiftBack(i, 0, j - i);
      ExpSmall();
    }
  }

  lemma {:induction false} ExpShiftBack(k: nat, i: nat, j: nat)
    requires Exp(i + k) == Exp(j + k)
    ensures Exp(i) == Exp(j)
  {
    hide Double;
    if k > 0 {
      DoubleInjective(Exp(i + k - 1), Exp(j + k - 1));
      ExpShiftBack(k - 1, i, j);
    }
  }

  // ---- every nonzero element is a power of x

  function Powers(n: nat): set<int>
  {
    if n == 0 then {} else Powers(n - 1) + {Exp(n - 1) as int}
  }

  function Range(n: nat): set<int> {
    if n == 0 then {} else Range(n - 1) + {n as int}
  }

  lemma {:induction false} PowersAre(n: nat, b: int) returns (k: nat)
    requires b in Powers(n)
    ensures k < n && Exp(k) == b
    decreases n
  {
    hide Exp;
    if b == Exp(n - 1) as int { k := n - 1; } else { k := PowersAre(n - 1, b); }
  }

  lemma {:induction false} PowersCount(n: nat)
    requires n <= ORDER
    ensures |Powers(n)| == n
    ensures forall b :: b in Powers(n) ==> 1 <= b <= 255
  {
    if n > 0 {
      PowersCount(n - 1);
      ExpNonzero(n - 1);
      if Exp(n - 1) in Powers(n - 1) {
        var k := PowersAre(n - 1, Exp(n - 1));
        ExpInjective(k, n - 1);
      }
    }
  }

  lemma {:induction false} RangeCount(n: nat)
    ensures |Range(n)| == n
    ensures forall i :: i in Range(n) <==> 1 <= i <= n
  {
    if n > 0 { RangeCount(n - 1); }
  }

  lemma SubsetOfSameSize<T>(a: set<T>, b: set<T>)
    requires a <= b && |a| == |b|
    ensures a == b
  {
    assert b == a + (b - a);
  }

  lemma ExpSurjective(b: byte)
    requires b != 0
    ensures exists k :: 0 <= k < ORDER && Exp(k) == b
  {
    hide Double, Exp, Powers, Range;
    PowersCount(ORDER);
    RangeCount(ORDER);
    forall p | p in Powers(ORDER) ensures p in Range(ORDER) {}
    SubsetOfSameSize(Powers(ORDER), Range(ORDER));
    var k := PowersAre(ORDER, b);
    assert 0 <= k < ORDER && Exp(k) == b;
  }

  ghost function Log(b: byte): (k: nat)
    requires b != 0
    ensures k < ORDER && Exp(k) == b
  {
    ExpSurjective(b);
    var k :| 0 <= k < ORDER && Exp(k) == b;
    k
  }

  ghost function Inverse(b: byte): (r: byte)
    requires b != 0
    ensures Mul(r, b) == 1 && r != 0
  {
    ExpAdd((ORDER - Log(b)), Log(b));
    ExpPeriods();
    ExpNonzero(ORDER - Log(b));
    Exp(ORDER - Log(b))
  }

  lemma MulNonzero(a: byte, b: byte)
    ensures Mul(a, b) == 0 <==> a == 0 || b == 0
  {
    hide Mul, Double, Exp;
    MulUnits(a);
    MulUnits(b);
    if a != 0 && b != 0 {
      ExpAdd(Log(a), Log(b));
      ExpNonzero(Log(a) + Log(b));
    }
  }
}
