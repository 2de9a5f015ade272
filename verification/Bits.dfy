/** Exclusive or on the naturals, and the bytes the block layers move around.
    A byte is a natural below 256, so that it can index a table directly. */
module Bits {
  type byte = b: nat | b < 256

  function Xor(a: nat, b: nat): nat
    decreases a + b
  {
    if a == 0 && b == 0 then 0
    else (if a % 2 == b % 2 then 0 else 1) + 2 * Xor(a / 2, b / 2)
  }

  function Pow2(k: nat): nat { if k == 0 then 1 else 2 * Pow2(k - 1) }

  lemma {:induction false} XorSelf(a: nat)
    ensures Xor(a, a) == 0
  {
    if a > 0 { XorSelf(a / 2); }
  }

  lemma {:induction false} XorZero(a: nat)
    ensures Xor(a, 0) == a == Xor(0, a)
  {
    if a > 0 { XorZero(a / 2); }
  }

  lemma {:induction false} XorComm(a: nat, b: nat)
    ensures Xor(a, b) == Xor(b, a)
    decreases a + b
  {
    if a + b > 0 { XorComm(a / 2, b / 2); }
  }

  /** Xor acts on the last bit and on the rest separately. */
  lemma XorHalf(a: nat, b: nat)
    ensures Xor(a, b) / 2 == Xor(a / 2, b / 2)
    ensures Xor(a, b) % 2 == if a % 2 == b % 2 then 0 else 1
  {}

  lemma XorDouble(a: nat, b: nat)
    ensures Xor(2 * a, 2 * b) == 2 * Xor(a, b)
  {
    hide Xor;
    XorHalf(2 * a, 2 * b);
    assert 2 * a / 2 == a && 2 * b / 2 == b;
  }

  lemma {:induction false} XorAssoc(a: nat, b: nat, c: nat)
    ensures Xor(Xor(a, b), c) == Xor(a, Xor(b, c))
    decreases a + b + c
  {
    if a + b + c > 0 {
      XorAssoc(a / 2, b / 2, c / 2);
      XorHalf(a, b);
      XorHalf(b, c);
    }
  }

  lemma {:induction false} XorBelow(a: nat, b: nat, k: nat)
    requires a < Pow2(k) && b < Pow2(k)
    ensures Xor(a, b) < Pow2(k)
  {
    if k > 0 { XorBelow(a / 2, b / 2, k - 1); }
  }

  /** The top bit of an exclusive or is set when exactly one top bit is. */
  lemma {:induction false} XorTopBit(a: nat, b: nat, k: nat)
    requires a < 2 * Pow2(k) && b < 2 * Pow2(k)
    ensures Xor(a, b) >= Pow2(k) <==> (a >= Pow2(k)) != (b >= Pow2(k))
  {
    if k > 0 { XorTopBit(a / 2, b / 2, k - 1); }
  }

  lemma {:induction false} XorDropTop(a: nat, b: nat, k: nat)
    requires a < Pow2(k) && b < Pow2(k)
    ensures Xor(Pow2(k) + a, Pow2(k) + b) == Xor(a, b)
  {
    if k > 0 {
      XorDropTop(a / 2, b / 2, k - 1);
      assert (Pow2(k) + a) / 2 == Pow2(k - 1) + a / 2;
      assert (Pow2(k) + b) / 2 == Pow2(k - 1) + b / 2;
      assert (Pow2(k) + a) % 2 == a % 2 && (Pow2(k) + b) % 2 == b % 2;
    } else {
      XorSelf(1);
      XorSelf(0);
    }
  }

  /** Xor of two bytes is a byte. */
  function XorByte(a: byte, b: byte): (r: byte)
    ensures r == Xor(a, b)
  {
    assert Pow2(8) == 256;
    XorBelow(a, b, 8);
    Xor(a, b)
  }

  lemma XorExchange(a: nat, b: nat, c: nat, d: nat)
    ensures Xor(Xor(a, b), Xor(c, d)) == Xor(Xor(a, c), Xor(b, d))
  {
    hide Xor;
    XorAssoc(a, b, Xor(c, d));
    XorAssoc(b, c, d);
    XorComm(b, c);
    XorAssoc(c, b, d);
    XorAssoc(a, c, Xor(b, d));
  }

  /** Xor with the same value twice changes nothing, on either side. */
  lemma XorCancel(a: nat, b: nat)
    ensures Xor(Xor(a, b), b) == a
    ensures Xor(a, Xor(a, b)) == b
  {
    hide Xor;
    XorAssoc(a, b, b);
    XorAssoc(a, a, b);
    XorSelf(a);
    XorSelf(b);
    XorZero(a);
    XorZero(b);
  }

  lemma XorIsZero(a: nat, b: nat)
    ensures Xor(a, b) == 0 <==> a == b
  {
    hide Xor;
    XorCancel(a, b);
    XorSelf(a);
    XorZero(b);
  }

  function OfMachine(a: bv8): byte { a as nat }

  /** The machine byte of value b. */
  function ToMachine(b: byte): (y: bv8)
    ensures OfMachine(y) == b
  {
    if b == 0 then 0
    else
      var h := ToMachine(b / 2);
      MachineTwice(h);
      if b % 2 == 0 then h << 1 else (h << 1) ^ 1
  }

  lemma MachineTwice(y: bv8)
    requires OfMachine(y) < 128
    ensures OfMachine(y << 1) == 2 * OfMachine(y)
    ensures OfMachine((y << 1) ^ 1) == 2 * OfMachine(y) + 1
  {}

  lemma MachineRoundTrip(a: bv8)
    ensures ToMachine(OfMachine(a)) == a
  {
    hide ToMachine;
    OfMachineInjective(a, ToMachine(OfMachine(a)));
  }

  lemma OfMachineInjective(a: bv8, b: bv8)
    ensures OfMachine(a) == OfMachine(b) <==> a == b
  {}

  lemma MachineHalf(a: bv8)
    ensures OfMachine(a >> 1) == OfMachine(a) / 2
    ensures OfMachine(a & 1) == OfMachine(a) % 2
    ensures OfMachine(a) == 0 ==> a == 0
  {}

  lemma MachineXor(a: bv8, b: bv8)
    ensures (a ^ b) >> 1 == (a >> 1) ^ (b >> 1)
    ensures (a ^ b) & 1 == (a & 1) ^ (b & 1)
    ensures a & 1 == 0 || a & 1 == 1
  {}

  lemma MachineBit(a: bv8, b: bv8)
    requires a == 0 || a == 1
    requires b == 0 || b == 1
    ensures OfMachine(a ^ b) == if OfMachine(a) == OfMachine(b) then 0 else 1
  {}

  /** The recursive definition is the machine's exclusive or. */
  lemma {:induction false} XorIsMachineXor(a: bv8, b: bv8)
    ensures OfMachine(a ^ b) == Xor(OfMachine(a), OfMachine(b))
    decreases OfMachine(a) + OfMachine(b)
  {
    hide Xor, OfMachine;
    MachineHalf(a);
    MachineHalf(b);
    MachineHalf(a ^ b);
    MachineXor(a, b);
    MachineXor(b, a);
    MachineBit(a & 1, b & 1);
    XorHalf(OfMachine(a), OfMachine(b));
    if OfMachine(a) + OfMachine(b) == 0 {
      XorSelf(0);
    } else {
      XorIsMachineXor(a >> 1, b >> 1);
    }
  }
}
